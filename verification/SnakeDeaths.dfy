/** Who dies in a turn of the snake game, told from the positions after the moves, and what that means for the board. */
module SnakeDeaths {
  import opened SnakeRules
  import opened SnakeInvariants

  // ----- Snakes with the same head -----

  predicate At(snakes: seq<Snake>, i: int, c: Point) {
    0 <= i < |snakes| && !snakes[i].dead && snakes[i].Head() == c
  }

  /** The first of the live snakes among the first `n` with their head at `c`, or `n`. */
  function First(snakes: seq<Snake>, c: Point, n: nat): (m: nat)
    requires n <= |snakes|
    ensures m <= n && (m < n ==> At(snakes, m, c))
    ensures forall i :: 0 <= i < m ==> !At(snakes, i, c)
  {
    if n == 0 then 0
    else
      var m := First(snakes, c, n - 1);
      if m < n - 1 || At(snakes, n - 1, c) then m else n
  }

  lemma {:induction false} CountSame(s: seq<Snake>, s': seq<Snake>, c: Point, n: nat)
    requires n <= |s| && n <= |s'| && forall i :: 0 <= i < n ==> (At(s, i, c) <==> At(s', i, c))
    ensures HeadCount(s, c, n) == HeadCount(s', c, n)
    decreases n
  {
    if n > 0 {
      CountSame(s, s', c, n - 1);
      assert At(s, n - 1, c) <==> At(s', n - 1, c);
    }
  }

  /** Each snake is counted once. */
  lemma {:induction false} CountsEach(s: seq<Snake>, c: Point, n: nat, i: nat, j: nat)
    requires i <= j < n <= |s| && At(s, i, c) && At(s, j, c)
    ensures HeadCount(s, c, n) >= if i == j then 1 else 2
    decreases n
  {
    if j < n - 1 {
      CountsEach(s, c, n - 1, i, j);
    } else if i < j {
      CountsEach(s, c, n - 1, i, i);
    }
  }

  lemma {:induction false} CountLess(s: seq<Snake>, s': seq<Snake>, c: Point, n: nat, i: nat)
    requires i < n <= |s| && n <= |s'| && At(s, i, c) && !At(s', i, c)
    requires forall k :: 0 <= k < n && At(s', k, c) ==> At(s, k, c)
    ensures HeadCount(s', c, n) < HeadCount(s, c, n)
    decreases n
  {
    assert At(s', n - 1, c) ==> At(s, n - 1, c);
    if i < n - 1 {
      CountLess(s, s', c, n - 1, i);
    } else {
      CountNotMore(s, s', c, n - 1);
    }
  }

  lemma {:induction false} CountNotMore(s: seq<Snake>, s': seq<Snake>, c: Point, n: nat)
    requires n <= |s| && n <= |s'| && forall k :: 0 <= k < n && At(s', k, c) ==> At(s, k, c)
    ensures HeadCount(s', c, n) <= HeadCount(s, c, n)
    decreases n
  {
    if n > 0 {
      CountNotMore(s, s', c, n - 1);
      assert At(s', n - 1, c) ==> At(s, n - 1, c);
    }
  }

  // ----- The rule -----

  /** A head at `c` would crash when it is the turn of snake `m`: `c` is off the board, or its cell is taken
      and nobody who died before that turn has freed it. */
  ghost predicate Blocked(g: Game, c: Point, m: nat)
    requires m <= |g.snakes|
    decreases m, 1
  {
    || c !in g.board
    || (!IsFree(g.board[c])
        && forall d :: 0 <= d < |g.snakes| && DiesBefore(g, d, m) ==> c !in g.snakes[d].points)
  }

  /** Snake `k` dies in the collisions before the turn of snake `t`. Three or more with the same head all die. Of two, both die
      if the cell is free or off the board, but only the first one dies of a cell that is taken. One dies of a blocked cell. */
  ghost predicate DiesBefore(g: Game, k: nat, t: nat)
    requires k < |g.snakes| && t <= |g.snakes|
    decreases t, 0
  {
    var c := g.snakes[k].Head();
    var m := First(g.snakes, c, |g.snakes|);
    && g.Live(k) && m < t
    && match HeadCount(g.snakes, c, |g.snakes|)
       case 0 => false
       case 1 => Blocked(g, c, m)
       case 2 => if c in g.board then k == m || !Blocked(g, c, m) else k < t
       case _ => true
  }

  /** Snake `k` dies in the collisions. */
  ghost predicate Dies(g: Game, k: nat)
    requires k < |g.snakes|
  {
    DiesBefore(g, k, |g.snakes|)
  }

  // ----- The loop follows the rule -----

  /** `g1` is what the collisions before turn `t` leave of `g`, as far as the rule goes. */
  ghost predicate Foretold(g: Game, g1: Game, t: nat)
    requires t <= |g.snakes|
  {
    && Culled(g, g1)
    && forall k :: 0 <= k < |g.snakes| ==> (g1.Live(k) <==> g.Live(k) && !DiesBefore(g, k, t))
  }

  lemma ForetoldIs(g: Game, g1: Game, t: nat)
    requires t <= |g.snakes| && Foretold(g, g1, t)
    ensures Culled(g, g1) && |g1.snakes| == |g.snakes|
    ensures forall k :: 0 <= k < |g.snakes| ==> (g1.Live(k) <==> g.Live(k) && !DiesBefore(g, k, t))
    ensures forall k :: 0 <= k < |g.snakes| ==> g1.snakes[k].Head() == g.snakes[k].Head()
  {
  }

  lemma HitIffDied(g: Game, g1: Game, t: nat, c: Point)
    requires t <= |g.snakes| && Foretold(g, g1, t)
    ensures HitByDead(g, g1, c) <==> exists d :: 0 <= d < |g.snakes| && DiesBefore(g, d, t) && c in g.snakes[d].points
  {
    hide DiesBefore;
    if HitByDead(g, g1, c) {
      var d :| NewlyDead(g, g1, d) && c in g.snakes[d].points;
      assert DiesBefore(g, d, t);
    }
    if d :| 0 <= d < |g.snakes| && DiesBefore(g, d, t) && c in g.snakes[d].points {
      DeadWasLive(g, d, t);
      assert NewlyDead(g, g1, d);
    }
  }

  lemma CrashedIffBlocked(g: Game, g1: Game, t: nat)
    requires t < |g.snakes| && Foretold(g, g1, t) && g1.Live(t)
    ensures Crashed(g1, t) <==> Blocked(g, g.snakes[t].Head(), t)
  {
    hide DiesBefore, HitByDead;
    var c := g.snakes[t].Head();
    assert g1.snakes[t].Head() == c && (c in g1.board <==> c in g1.board.Keys) && (c in g.board <==> c in g.board.Keys);
    HitIffDied(g, g1, t, c);
  }

  lemma DeadWasLive(g: Game, d: nat, t: nat)
    requires d < |g.snakes| && t <= |g.snakes| && DiesBefore(g, d, t)
    ensures g.Live(d)
  {
  }

  /** Nobody dies before the first turn of the snakes with the same head. */
  lemma NotBeforeFirst(g: Game, k: nat, t: nat)
    requires k < |g.snakes| && t <= First(g.snakes, g.snakes[k].Head(), |g.snakes|)
    ensures !DiesBefore(g, k, t)
  {
  }

  /** At the turn of the first snake with its head at `c`, all of them are alive, and they die as the rule says. */
  lemma FirstTurn(g: Game, g1: Game, t: nat, k: nat)
    requires t < |g.snakes| && Foretold(g, g1, t) && g1.Live(t)
    requires t == First(g.snakes, g.snakes[t].Head(), |g.snakes|)
    requires k < |g.snakes| && At(g.snakes, k, g.snakes[t].Head())
    ensures g1.Live(k)
    ensures NewlyDead(g1, CollideOne(g1, t), k) <==> DiesBefore(g, k, t + 1)
  {
    hide CollideOne, Culled, Foretold, Crashed, Blocked, NewlyDead;
    var n, c := |g.snakes|, g.snakes[t].Head();
    ForetoldIs(g, g1, t);
    hide DiesBefore;
    forall i | 0 <= i < n ensures At(g1.snakes, i, c) <==> At(g.snakes, i, c) {
      if At(g.snakes, i, c) { NotBeforeFirst(g, i, t); }
      assert g1.Live(i) <==> !g1.snakes[i].dead;
      assert g.Live(i) <==> !g.snakes[i].dead;
    }
    CountSame(g1.snakes, g.snakes, c, n);
    CrashedIffBlocked(g, g1, t);
    WhoDies(g1, t, k);
    assert At(g1.snakes, k, c);
    CountsEach(g.snakes, c, n, t, k);
    RuleAtFirst(g, k, t);
  }

  lemma OffBoardIsBlocked(g: Game, c: Point, m: nat)
    requires m <= |g.snakes| && c !in g.board
    ensures Blocked(g, c, m)
  {
  }

  /** The rule at the turn of the first snake. */
  lemma RuleAtFirst(g: Game, k: nat, t: nat)
    requires k < |g.snakes| && t < |g.snakes| && g.Live(k) && t == First(g.snakes, g.snakes[k].Head(), |g.snakes|)
    requires HeadCount(g.snakes, g.snakes[k].Head(), |g.snakes|) >= if t == k then 1 else 2
    ensures DiesBefore(g, k, t + 1) <==>
              var count := HeadCount(g.snakes, g.snakes[k].Head(), |g.snakes|);
              if Blocked(g, g.snakes[k].Head(), t) then k == t || count >= 3 else count >= 2
  {
    hide Blocked, HeadCount;
    var c := g.snakes[k].Head();
    if c !in g.board { OffBoardIsBlocked(g, c, t); }
    assert At(g.snakes, k, c) && k >= t;
  }

  /** The rule for a snake that has outlived the turn of the first one: there are only these two. */
  lemma RuleForSecond(g: Game, t: nat)
    requires t < |g.snakes| && g.Live(t) && !DiesBefore(g, t, t)
    requires First(g.snakes, g.snakes[t].Head(), |g.snakes|) < t
    ensures var c := g.snakes[t].Head(); var m := First(g.snakes, c, |g.snakes|);
            && HeadCount(g.snakes, c, |g.snakes|) == 2
            && DiesBefore(g, m, t)
            && (DiesBefore(g, t, t + 1) <==> c !in g.board)
  {
    hide Blocked, HeadCount;
    var c := g.snakes[t].Head();
    var m := First(g.snakes, c, |g.snakes|);
    CountsEach(g.snakes, c, |g.snakes|, m, t);
    assert g.snakes[m].Head() == c && g.Live(m);
  }

  lemma LaterTurn(g: Game, g1: Game, t: nat)
    requires t < |g.snakes| && Foretold(g, g1, t) && g1.Live(t)
    requires First(g.snakes, g.snakes[t].Head(), |g.snakes|) < t
    ensures forall k :: 0 <= k < |g.snakes| && At(g.snakes, k, g.snakes[t].Head()) && g1.Live(k) ==> k == t
    ensures NewlyDead(g1, CollideOne(g1, t), t) <==> DiesBefore(g, t, t + 1)
  {
    hide CollideOne, Culled, Foretold, Crashed, NewlyDead;
    var n, c := |g.snakes|, g.snakes[t].Head();
    var m := First(g.snakes, c, n);
    ForetoldIs(g, g1, t);
    RuleForSecond(g, t);
    hide DiesBefore;
    assert At(g1.snakes, t, c) && !At(g1.snakes, m, c);
    forall k | 0 <= k < n && At(g1.snakes, k, c) ensures At(g.snakes, k, c) {
      assert g1.Live(k);
    }
    CountLess(g.snakes, g1.snakes, c, n, m);
    forall k | 0 <= k < n && At(g1.snakes, k, c) ensures k == t {
      if k <= t { CountsEach(g1.snakes, c, n, k, t); } else { CountsEach(g1.snakes, c, n, t, k); }
    }
    CountsEach(g1.snakes, c, n, t, t);
    CrashedIffBlocked(g, g1, t);
    assert c in g.snakes[m].points;
    WhoDies(g1, t, t);
    assert forall k :: 0 <= k < n && At(g.snakes, k, c) && g1.Live(k) ==> At(g1.snakes, k, c);
  }

  /** The turn of one snake changes nothing for snakes with other heads. */
  lemma OtherTurns(g: Game, k: nat, t: nat)
    requires k < |g.snakes| && t < |g.snakes|
    ensures First(g.snakes, g.snakes[k].Head(), |g.snakes|) != t && k != t ==> (DiesBefore(g, k, t + 1) <==> DiesBefore(g, k, t))
    ensures DiesBefore(g, k, t) ==> DiesBefore(g, k, t + 1)
  {
    hide Blocked, HeadCount;
  }

  lemma OneTurnForetold(g: Game, g1: Game, t: nat)
    requires t < |g.snakes| && Foretold(g, g1, t)
    ensures Foretold(g, CollideOne(g1, t), t + 1)
  {
    var n, g2 := |g.snakes|, CollideOne(g1, t);
    var c := g.snakes[t].Head();
    ForetoldIs(g, g1, t);
    CollideOneCulls(g, g1, t);
    forall k | 0 <= k < n ensures g2.Live(k) <==> g.Live(k) && !DiesBefore(g, k, t + 1) {
      OneTurnFor(g, g1, t, k);
    }
  }

  lemma OneTurnFor(g: Game, g1: Game, t: nat, k: nat)
    requires t < |g.snakes| && k < |g.snakes| && Foretold(g, g1, t)
    ensures CollideOne(g1, t).Live(k) <==> g.Live(k) && !DiesBefore(g, k, t + 1)
  {
    hide CollideOne, Culled, Foretold, DiesBefore, Crashed, HeadCount;
    ForetoldIs(g, g1, t);
    var n, c := |g.snakes|, g.snakes[t].Head();
    var m := First(g.snakes, g.snakes[k].Head(), n);
    OtherTurns(g, k, t);
    TurnOnlyKills(g, g1, t);
    if !g1.Live(t) {
      DeadTurnDoesNothing(g1, t);
      if g.Live(k) && m == t {
        assert At(g.snakes, t, g.snakes[k].Head());
        NotBeforeFirst(g, t, t);
      }
    } else {
      WhoDies(g1, t, k);
      assert At(g.snakes, t, c);
      if At(g.snakes, k, c) {
        if m == t { FirstTurn(g, g1, t, k); } else { LaterTurn(g, g1, t); }
      } else if g.Live(k) {
        assert m == t ==> At(g.snakes, t, g.snakes[k].Head());
      }
    }
  }

  lemma TurnOnlyKills(g: Game, g1: Game, t: nat)
    requires t < |g.snakes| && Foretold(g, g1, t)
    ensures |g1.snakes| == |g.snakes| && forall k :: CollideOne(g1, t).Live(k) ==> g1.Live(k)
  {
    hide Culled, DiesBefore, CollideOne;
    ForetoldIs(g, g1, t);
    CollideOneCulls(g, g1, t);
  }

  lemma {:induction false} LoopForetold(g: Game, t: nat)
    requires g.events == [] && t <= |g.snakes|
    ensures Foretold(g, CollideFirst(g, t), t)
    decreases t
  {
    hide CollideOne, Culled;
    if t == 0 {
      NobodyCulled(g);
    } else {
      LoopForetold(g, t - 1);
      OneTurnForetold(g, CollideFirst(g, t - 1), t - 1);
    }
  }

  /** Exactly those die in the collisions whom the rule names. */
  lemma DeathsForetold(g: Game, k: nat)
    requires g.events == [] && k < |g.snakes|
    ensures NewlyDead(g, CollideFirst(g, |g.snakes|), k) <==> Dies(g, k)
  {
    LoopForetold(g, |g.snakes|);
    if Dies(g, k) { DeadWasLive(g, k, |g.snakes|); }
  }

  /** Of two snakes that run into the same taken cell of the board, whoever took it, the first in order dies
      and the other one lives on, as long as nobody else has run into it and nobody has freed it before. */
  lemma SecondRunnerSurvives(g: Game, i: nat, j: nat)
    requires g.events == [] && g.Live(i) && g.Live(j) && i < j && g.snakes[j].Head() == g.snakes[i].Head()
    requires HeadCount(g.snakes, g.snakes[i].Head(), |g.snakes|) == 2
    requires g.snakes[i].Head() in g.board && Blocked(g, g.snakes[i].Head(), i)
    ensures NewlyDead(g, CollideFirst(g, |g.snakes|), i) && CollideFirst(g, |g.snakes|).Live(j)
  {
    hide Blocked, HeadCount, CollideFirst;
    var c := g.snakes[i].Head();
    var m := First(g.snakes, c, |g.snakes|);
    assert At(g.snakes, i, c) && At(g.snakes, j, c);
    if m < i { ThirdOf(g, c, m, i, j); }
    DeathsForetold(g, i);
    DeathsForetold(g, j);
  }

  lemma ThirdOf(g: Game, c: Point, m: nat, i: nat, j: nat)
    requires m < i < j < |g.snakes| && At(g.snakes, m, c) && At(g.snakes, i, c) && At(g.snakes, j, c)
    ensures HeadCount(g.snakes, c, |g.snakes|) > 2
  {
    var without := g.snakes[j := g.snakes[j].(dead := true)];
    assert At(without, m, c) && At(without, i, c) && !At(without, j, c);
    CountsEach(without, c, |g.snakes|, m, i);
    CountLess(g.snakes, without, c, |g.snakes|, j);
  }

  /** As long as the board shows the bodies exactly, a head is blocked when it is off the board or lies
      on the body of a snake that has not died before. */
  lemma BlockedByTheLiving(g: Game, length: nat, k: nat)
    requires Moving(g, length) && ExactRest(g) && g.Live(k)
    ensures var c := g.snakes[k].Head(); var m := First(g.snakes, c, |g.snakes|);
            Blocked(g, c, m) <==>
              || c !in g.board
              || exists s :: 0 <= s < |g.snakes| && g.Live(s) && !DiesBefore(g, s, m) && c in g.snakes[s].Rest()
  {
    hide DiesBefore;
    var c := g.snakes[k].Head();
    var m := First(g.snakes, c, |g.snakes|);
    if c in g.board && g.board[c] != EMPTY {
      var s := g.board[c];
      assert g.Live(s) && c in g.snakes[s].Rest();
      PointsAreHeadAndRest(g.snakes[s]);
      forall d | 0 <= d < |g.snakes| && DiesBefore(g, d, m) && c in g.snakes[d].points ensures d == s {
        DeadWasLive(g, d, m);
        PointsAreHeadAndRest(g.snakes[d]);
        if c == g.snakes[d].Head() { NotBeforeFirst(g, d, m); }
      }
    }
  }

  // ----- What deaths do to the board -----

  /** No live snake has its head on the body of a snake that is to survive. */
  ghost predicate SurvivorsUntouched(g: Game) {
    forall d, k :: g.Live(d) && g.Live(k) && !Dies(g, k) ==> g.snakes[d].Head() !in g.snakes[k].Rest()
  }

  lemma UntouchedIsHarmless(g: Game, length: nat)
    requires Moving(g, length) && ExactRest(g) && g.events == []
    ensures HarmlessDeaths(g, CollideFirst(g, |g.snakes|)) <==> SurvivorsUntouched(g)
  {
    hide Dies, CollideFirst, Moving, ExactRest, Unscathed;
    var g' := CollideFirst(g, |g.snakes|);
    CollideFirstCulls(g, |g.snakes|);
    forall k | 0 <= k < |g.snakes| ensures NewlyDead(g, g', k) <==> Dies(g, k) {
      DeathsForetold(g, k);
    }
    hide Culled;
    if HarmlessDeaths(g, g') {
      forall d, k | g.Live(d) && g.Live(k) && !Dies(g, k) ensures g.snakes[d].Head() !in g.snakes[k].Rest() {
        if g.snakes[d].Head() in g.snakes[k].Rest() && g'.Live(d) {
          HeadNeedsDeath(g, g', length, d, k);
        }
      }
    }
  }

  /** A survivor has its head on the body of another one only if somebody died there. */
  lemma HeadNeedsDeath(g: Game, g': Game, length: nat, d: nat, k: nat)
    requires Moving(g, length) && ExactRest(g) && Culled(g, g') && g'.Live(d) && g'.Live(k)
    requires Unscathed(g', d) && g.snakes[d].Head() in g.snakes[k].Rest()
    ensures !HarmlessDeaths(g, g')
  {
    var c := g.snakes[d].Head();
    SurvivorIsSame(g, g', d);
    SurvivorIsSame(g, g', k);
    RestOnBoard(g, length, k, c);
    DeathsBlankHeads(g, g', length, c, k);
    var e :| NewlyDead(g, g', e) && g.snakes[e].Head() == c;
  }

  /** After a turn that started exact, the board is exact again if and only if, after the moves,
      no live snake had its head on the body of a snake that was to survive. */
  lemma TurnStaysExact(g: Game, actions: seq<Action>, length: nat)
    requires |actions| == |g.snakes| && Invariant(g, length) && Exact(g)
    ensures Exact(ProcessTurn(g, actions)) <==> SurvivorsUntouched(AfterMoves(g, actions))
  {
    hide Invariant, Exact, ProcessTurn, SurvivorsUntouched, HarmlessDeaths, Culled, ExactRest, Moving;
    TurnPhases(g, actions, length);
    MovesKeepExact(g, actions, length);
    AfterMovesEffect(g, actions);
    UntouchedIsHarmless(AfterMoves(g, actions), length);
    TurnExactIfHarmless(g, actions, length);
  }

  /** All heads are on the board, on no body, and apart from each other. */
  ghost predicate Peaceful(g: Game) {
    forall i :: g.Live(i) ==>
      && g.snakes[i].Head() in g.board
      && (forall j :: g.Live(j) ==> g.snakes[i].Head() !in g.snakes[j].Rest())
      && (forall j :: g.Live(j) && j != i ==> g.snakes[i].Head() != g.snakes[j].Head())
  }

  /** A turn after whose moves there is peace is nothing but its moves. */
  lemma PeacefulTurn(g: Game, actions: seq<Action>, length: nat)
    requires |actions| == |g.snakes| && Invariant(g, length) && Exact(g) && Peaceful(AfterMoves(g, actions))
    ensures ProcessTurn(g, actions).snakes == AfterMoves(g, actions).snakes
    ensures Invariant(ProcessTurn(g, actions), length) && Exact(ProcessTurn(g, actions))
    ensures ProcessTurn(g, actions).board.Keys == g.board.Keys
  {
    hide Invariant, Exact, ProcessTurn, AfterMoves, ExactRest, Unscathed, MarkFirst, CollideFirst, Culled, Moving, Peaceful,
      HarmlessDeaths;
    var gm, gc := AfterMoves(g, actions), AfterDeaths(g, actions);
    TurnPhases(g, actions, length);
    MovesKeepExact(g, actions, length);
    AfterMovesEffect(g, actions);
    forall k ensures !NewlyDead(gm, gc, k) {
      if NewlyDead(gm, gc, k) { PeaceSavesAll(gm, gc, length, k); }
    }
    NobodyCulledSame(gm, gc);
    TurnExactIfHarmless(g, actions, length);
    NoDeathsNoHarm(gm, gc);
  }

  lemma PeaceSavesAll(g: Game, g': Game, length: nat, k: nat)
    requires Moving(g, length) && Peaceful(g) && g.events == []
    requires g' == CollideFirst(g, |g.snakes|) && k < |g.snakes|
    ensures !NewlyDead(g, g', k)
  {
    if NewlyDead(g, g', k) {
      OnlyDoomedDie(g, |g.snakes|, k);
    }
  }

  lemma NobodyCulledSame(g: Game, g': Game)
    requires Culled(g, g') && forall k :: !NewlyDead(g, g', k)
    ensures g'.snakes == g.snakes
  {
    forall i | 0 <= i < |g.snakes| ensures g'.snakes[i] == g.snakes[i] {
      assert !NewlyDead(g, g', i);
    }
  }

  lemma NoDeathsNoHarm(g: Game, g': Game)
    requires forall k :: !NewlyDead(g, g', k)
    ensures HarmlessDeaths(g, g')
  {
  }
}
