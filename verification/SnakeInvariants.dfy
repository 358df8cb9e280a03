/** What every turn of every snake game keeps, how exactly the board shows the snakes, and how deaths add up. */
module SnakeInvariants {
  import opened SnakeRules

  // ----- Moving -----

  /** Some live snake among the first `n` has its tail at `c`. */
  ghost predicate TailAt(g: Game, n: int, c: Point) {
    exists i :: 0 <= i < n && g.Live(i) && g.snakes[i].Tail() == c
  }

  lemma {:induction false} MoveFirstEffect(g: Game, n: nat)
    requires n <= |g.snakes|
    ensures var g' := MoveFirst(g, n);
            && g'.board.Keys == g.board.Keys && g'.events == g.events && g'.turn == g.turn
            && (forall i :: 0 <= i < |g.snakes| ==>
                  g'.snakes[i] == if i < n && g.Live(i) then g.snakes[i].Moved() else g.snakes[i])
            && (forall c <- g.board :: g'.board[c] == if TailAt(g, n, c) then EMPTY else g.board[c])
    decreases n
  {
    hide TailAt;
    if n == 0 {
      NoTails(g);
    } else {
      MoveFirstEffect(g, n - 1);
      OneMoreTail(g, n);
    }
  }

  lemma NoTails(g: Game)
    ensures forall c :: !TailAt(g, 0, c)
  {
  }

  lemma OneMoreTail(g: Game, n: nat)
    requires 0 < n <= |g.snakes|
    ensures forall c :: TailAt(g, n, c) <==> TailAt(g, n - 1, c) || (g.Live(n - 1) && g.snakes[n - 1].Tail() == c)
  {
    assert g.Live(n - 1) ==> TailAt(g, n, g.snakes[n - 1].Tail());
  }

  // ----- Dying -----

  ghost predicate NewlyDead(g: Game, g': Game, i: int) {
    g.Live(i) && !g'.Live(i)
  }

  ghost predicate HitByDead(g: Game, g': Game, c: Point) {
    exists i :: NewlyDead(g, g', i) && c in g.snakes[i].points
  }

  /** `g'` is `g` with some live snakes killed: nothing else about the snakes changes, exactly the cells of the dead are
      emptied (apples apart), and the events name exactly the dead, once each. */
  ghost predicate Culled(g: Game, g': Game) {
    && |g'.snakes| == |g.snakes| && g'.board.Keys == g.board.Keys && g'.turn == g.turn
    && (forall i :: 0 <= i < |g.snakes| ==>
          && g'.snakes[i] == g.snakes[i].(dead := g'.snakes[i].dead)
          && (g.snakes[i].dead ==> g'.snakes[i].dead))
    && (forall c <- g.board :: g'.board[c] == if HitByDead(g, g', c) && g.board[c] != APPLE then EMPTY else g.board[c])
    && (forall k :: k in g'.events <==> NewlyDead(g, g', k))
    && (forall j, k :: 0 <= j < k < |g'.events| ==> g'.events[j] != g'.events[k])
  }

  /** From `g` to `g'` only deaths happened, and free cells stayed free. */
  ghost predicate Dwindles(g: Game, g': Game) {
    && |g'.snakes| == |g.snakes| && g'.board.Keys == g.board.Keys
    && (forall i :: g'.Live(i) ==> g.Live(i) && g'.snakes[i].points == g.snakes[i].points)
    && (forall c <- g.board :: IsFree(g.board[c]) ==> IsFree(g'.board[c]))
  }

  predicate IsFree(v: int) {
    v == EMPTY || v == APPLE
  }

  lemma KillDwindles(g: Game, i: nat)
    requires g.Live(i)
    ensures Dwindles(g, Kill(g, i))
  {
  }

  lemma KillHits(g: Game, g1: Game, i: nat, c: Point)
    requires Culled(g, g1) && g1.Live(i)
    ensures HitByDead(g, Kill(g1, i), c) <==> HitByDead(g, g1, c) || c in g1.snakes[i].points
  {
    var g2 := Kill(g1, i);
    if c in g1.snakes[i].points { assert NewlyDead(g, g2, i); }
    if HitByDead(g, g1, c) {
      var d :| NewlyDead(g, g1, d) && c in g.snakes[d].points;
      assert NewlyDead(g, g2, d);
    }
  }

  lemma KillCulls(g: Game, g1: Game, i: nat)
    requires Culled(g, g1) && g1.Live(i)
    ensures Culled(g, Kill(g1, i))
  {
    hide HitByDead;
    var g2 := Kill(g1, i);
    assert i !in g1.events;
    assert forall k :: NewlyDead(g, g2, k) <==> NewlyDead(g, g1, k) || k == i;
    forall c | c in g.board
      ensures g2.board[c] == if HitByDead(g, g2, c) && g.board[c] != APPLE then EMPTY else g.board[c]
    {
      KillHits(g, g1, i, c);
    }
  }

  lemma {:induction false} KillAllCulls(g: Game, g1: Game, victims: seq<nat>)
    requires Culled(g, g1)
    requires forall j :: 0 <= j < |victims| ==> victims[j] < |g1.snakes| && g1.Live(victims[j])
    requires forall j, k :: 0 <= j < k < |victims| ==> victims[j] < victims[k]
    ensures Culled(g, KillAll(g1, victims)) && Dwindles(g1, KillAll(g1, victims))
    ensures forall i :: 0 <= i < |g1.snakes| ==> (KillAll(g1, victims).Live(i) <==> g1.Live(i) && i !in victims)
    decreases |victims|
  {
    hide Culled;
    if victims != [] {
      KillCulls(g, g1, victims[0]);
      KillDwindles(g1, victims[0]);
      KillAllCulls(g, Kill(g1, victims[0]), victims[1..]);
    }
  }

  /** The survivor `i` has its head on a free cell, and no other survivor shares it. */
  ghost predicate Unscathed(g: Game, i: int)
    requires 0 <= i < |g.snakes|
  {
    var head := g.snakes[i].Head();
    && head in g.board && IsFree(g.board[head])
    && forall j :: g.Live(j) && j != i ==> g.snakes[j].Head() != head
  }

  lemma DwindlesTransitively(g1: Game, g2: Game, g3: Game)
    requires Dwindles(g1, g2) && Dwindles(g2, g3)
    ensures Dwindles(g1, g3)
  {
  }

  lemma CollideOneCulls(g: Game, g1: Game, i: nat)
    requires Culled(g, g1) && i < |g1.snakes|
    ensures Culled(g, CollideOne(g1, i)) && Dwindles(g1, CollideOne(g1, i))
    ensures CollideOne(g1, i).Live(i) ==> Unscathed(CollideOne(g1, i), i)
  {
    hide Culled, Dwindles, Unscathed, Kill, KillAll;
    NoneDwindles(g1);
    if g1.Live(i) {
      var crashed, head := Crashed(g1, i), g1.snakes[i].Head();
      KillCulls(g, g1, i);
      KillDwindles(g1, i);
      KilledIsDead(g1, i);
      var g2 := if crashed then Kill(g1, i) else g1;
      var same := SameHeads(g2.snakes, head, |g2.snakes|);
      SameHeadsAre(g2.snakes, head, |g2.snakes|);
      if |same| > 1 {
        KillAllCulls(g, g2, same);
        DwindlesTransitively(g1, g2, KillAll(g2, same));
        if g2.Live(i) { assert i in same; }
      } else if !crashed {
        OnlyHeadIsUnscathed(g1, i, same);
      }
    }
  }

  lemma NoneDwindles(g: Game)
    ensures Dwindles(g, g)
  {
  }

  lemma KilledIsDead(g: Game, i: nat)
    requires i < |g.snakes|
    ensures !Kill(g, i).Live(i) && |Kill(g, i).snakes| == |g.snakes|
    ensures Kill(g, i).snakes[i].points == g.snakes[i].points
  {
  }

  lemma OnlyHeadIsUnscathed(g: Game, i: nat, same: seq<nat>)
    requires g.Live(i) && !Crashed(g, i) && same == SameHeads(g.snakes, g.snakes[i].Head(), |g.snakes|) && |same| <= 1
    ensures Unscathed(g, i)
  {
    SameHeadsAre(g.snakes, g.snakes[i].Head(), |g.snakes|);
    forall j | g.Live(j) && j != i ensures g.snakes[j].Head() != g.snakes[i].Head() {
      if g.snakes[j].Head() == g.snakes[i].Head() {
        TwoSameHeads(same, i, j);
      }
    }
  }

  lemma TwoSameHeads(same: seq<nat>, i: int, j: int)
    requires i in same && j in same && i != j
    ensures |same| > 1
  {
  }

  /** A survivor stays unscathed when others die. */
  lemma UnscathedStays(g1: Game, g2: Game, i: int)
    requires Dwindles(g1, g2) && g2.Live(i) && (g1.Live(i) ==> Unscathed(g1, i))
    ensures Unscathed(g2, i)
  {
  }

  lemma NobodyCulled(g: Game)
    requires g.events == []
    ensures Culled(g, g)
  {
  }

  lemma {:induction false} CollideFirstCulls(g: Game, n: nat)
    requires n <= |g.snakes| && g.events == []
    ensures Culled(g, CollideFirst(g, n))
    ensures forall i :: 0 <= i < n && CollideFirst(g, n).Live(i) ==> Unscathed(CollideFirst(g, n), i)
    decreases n
  {
    hide Culled, Dwindles, Unscathed, CollideOne;
    if n == 0 {
      NobodyCulled(g);
    } else {
      CollideFirstCulls(g, n - 1);
      var g1, g2 := CollideFirst(g, n - 1), CollideFirst(g, n);
      CollideOneCulls(g, g1, n - 1);
      forall i | 0 <= i < n - 1 && g2.Live(i) ensures Unscathed(g2, i) {
        UnscathedStays(g1, g2, i);
      }
    }
  }

  // ----- Who dies -----

  /** A reason to die, seen before the collisions: the head is off the board, on a cell that is not free,
      or where another live snake has its head. */
  ghost predicate Doomed(g: Game, i: int)
    requires 0 <= i < |g.snakes|
  {
    var head := g.snakes[i].Head();
    head !in g.board || !IsFree(g.board[head]) || exists j :: g.Live(j) && j != i && g.snakes[j].Head() == head
  }

  /** The number of live snakes among the first `n` with this head. */
  function HeadCount(snakes: seq<Snake>, head: Point, n: nat): nat
    requires n <= |snakes|
  {
    if n == 0 then 0
    else HeadCount(snakes, head, n - 1) + if !snakes[n - 1].dead && snakes[n - 1].Head() == head then 1 else 0
  }

  function Sharing(g: Game, i: nat): nat
    requires i < |g.snakes|
  {
    HeadCount(g.snakes, g.snakes[i].Head(), |g.snakes|)
  }

  lemma {:induction false} SameHeadsCount(snakes: seq<Snake>, head: Point, n: nat)
    requires n <= |snakes|
    ensures |SameHeads(snakes, head, n)| == HeadCount(snakes, head, n)
    decreases n
  {
    if n > 0 { SameHeadsCount(snakes, head, n - 1); }
  }

  lemma {:induction false} HeadCountWithout(snakes: seq<Snake>, snakes': seq<Snake>, i: nat, head: Point, n: nat)
    requires i < |snakes| && !snakes[i].dead && snakes[i].Head() == head && n <= |snakes|
    requires snakes' == snakes[i := snakes[i].(dead := true)]
    ensures HeadCount(snakes', head, n) == HeadCount(snakes, head, n) - if i < n then 1 else 0
    decreases n
  {
    if n > 0 { HeadCountWithout(snakes, snakes', i, head, n - 1); }
  }

  lemma {:induction false} KillAllKills(g: Game, victims: seq<nat>)
    requires forall j :: 0 <= j < |victims| ==> victims[j] < |g.snakes|
    ensures forall k :: KillAll(g, victims).Live(k) <==> g.Live(k) && k !in victims
    decreases |victims|
  {
    if victims != [] { KillAllKills(Kill(g, victims[0]), victims[1..]); }
  }

  /** Who dies when it is the turn of snake `i`. If it has crashed, its death comes first, and those with the same head
      follow only if there are two of them or more; otherwise all with the same head die together. */
  lemma WhoDies(g: Game, i: nat, k: int)
    requires g.Live(i)
    ensures NewlyDead(g, CollideOne(g, i), k) <==>
              && g.Live(k) && g.snakes[k].Head() == g.snakes[i].Head()
              && if Crashed(g, i) then k == i || Sharing(g, i) >= 3 else Sharing(g, i) >= 2
  {
    hide Kill, KillAll;
    var head := g.snakes[i].Head();
    var g1 := if Crashed(g, i) then Kill(g, i) else g;
    KillKillsOne(g, i);
    var killed := g.snakes[i := g.snakes[i].(dead := true)];
    HeadCountWithout(g.snakes, killed, i, head, |g.snakes|);
    var same := SameHeads(g1.snakes, head, |g1.snakes|);
    SameHeadsCount(g1.snakes, head, |g1.snakes|);
    SameHeadsAre(g1.snakes, head, |g1.snakes|);
    KillAllKills(g1, same);
    if 0 <= k < |g.snakes| { assert g1.snakes[k].Head() == g.snakes[k].Head(); }
  }

  lemma KillKillsOne(g: Game, i: nat)
    requires i < |g.snakes|
    ensures forall k :: Kill(g, i).Live(k) <==> g.Live(k) && k != i
    ensures Kill(g, i).snakes == g.snakes[i := g.snakes[i].(dead := true)]
    ensures forall k :: 0 <= k < |g.snakes| ==> Kill(g, i).snakes[k].points == g.snakes[k].points
  {
  }

  lemma SomeoneElse(same: seq<nat>, k: nat) returns (j: nat)
    requires k in same && |same| > 1 && forall a, b :: 0 <= a < b < |same| ==> same[a] < same[b]
    ensures j in same && j != k
  {
    j := if same[0] == k then same[1] else same[0];
  }

  lemma DyingHasReason(g: Game, g1: Game, i: nat, k: int)
    requires Dwindles(g, g1) && i < |g1.snakes| && NewlyDead(g1, CollideOne(g1, i), k)
    ensures Doomed(g, k)
  {
    hide CollideOne;
    if g1.Live(i) { WhoDies(g1, i, k); } else { DeadTurnDoesNothing(g1, i); }
    var head := g1.snakes[i].Head();
    if !(Crashed(g1, i) && k == i) {
      var same := SameHeads(g1.snakes, head, |g1.snakes|);
      SameHeadsCount(g1.snakes, head, |g1.snakes|);
      SameHeadsAre(g1.snakes, head, |g1.snakes|);
      var j := SomeoneElse(same, k);
      assert g1.Live(j) && g.Live(j);
    }
  }

  lemma DeadTurnDoesNothing(g: Game, i: nat)
    requires i < |g.snakes| && !g.Live(i)
    ensures CollideOne(g, i) == g
  {
  }

  /** Nobody dies in the collisions without a reason that could be seen before them. */
  lemma {:induction false} OnlyDoomedDie(g: Game, n: nat, k: int)
    requires n <= |g.snakes| && g.events == [] && NewlyDead(g, CollideFirst(g, n), k)
    ensures Doomed(g, k)
    decreases n
  {
    hide CollideOne, Culled, Doomed, Unscathed;
    if n > 0 {
      var g1 := CollideFirst(g, n - 1);
      if g1.Live(k) {
        CollisionsDwindle(g, n - 1);
        DyingHasReason(g, g1, n - 1, k);
      } else {
        OnlyDoomedDie(g, n - 1, k);
      }
    }
  }

  lemma {:induction false} CollisionsDwindle(g: Game, n: nat)
    requires n <= |g.snakes| && g.events == []
    ensures Dwindles(g, CollideFirst(g, n))
    decreases n
  {
    hide CollideOne, Culled, Dwindles, Unscathed;
    if n == 0 {
      NoneDwindles(g);
    } else {
      CollisionsDwindle(g, n - 1);
      CollideFirstCulls(g, n - 1);
      CollideOneCulls(g, CollideFirst(g, n - 1), n - 1);
      DwindlesTransitively(g, CollideFirst(g, n - 1), CollideFirst(g, n));
    }
  }

  // ----- Marking -----

  /** Some live snake among the first `n` has its head at `c`. */
  ghost predicate HeadAt(g: Game, n: int, c: Point) {
    exists i :: 0 <= i < n && g.Live(i) && g.snakes[i].Head() == c
  }

  /** All heads are on the board, no two at the same place. */
  ghost predicate HeadsApart(g: Game) {
    && (forall i :: g.Live(i) ==> g.snakes[i].Head() in g.board)
    && (forall i, j :: g.Live(i) && g.Live(j) && i != j ==> g.snakes[i].Head() != g.snakes[j].Head())
  }

  lemma UnscathedApart(g: Game)
    requires forall i :: g.Live(i) ==> Unscathed(g, i)
    ensures HeadsApart(g)
  {
  }

  lemma {:induction false} MarkingHeads(g: Game, n: nat)
    requires n <= |g.snakes| && HeadsApart(g)
    ensures MarkFirst(g, n).board.Keys == g.board.Keys
    ensures forall c <- g.board :: !HeadAt(g, n, c) ==> MarkFirst(g, n).board[c] == g.board[c]
    ensures forall i :: 0 <= i < n && g.Live(i) ==> MarkFirst(g, n).board[g.snakes[i].Head()] == g.snakes[i].id
    decreases n
  {
    if n > 0 {
      MarkingHeads(g, n - 1);
      if g.Live(n - 1) { assert HeadAt(g, n, g.snakes[n - 1].Head()); }
      assert forall c :: HeadAt(g, n - 1, c) ==> HeadAt(g, n, c);
    }
  }

  /** When all survivors are unscathed, marking shows every head and changes no other cell. */
  lemma MarkFirstEffect(g: Game, n: nat)
    requires n <= |g.snakes|
    requires forall i :: g.Live(i) ==> Unscathed(g, i)
    ensures var g' := MarkFirst(g, n);
            && g'.board.Keys == g.board.Keys
            && (forall c <- g.board :: (forall i :: 0 <= i < n && g.Live(i) ==> g.snakes[i].Head() != c) ==> g'.board[c] == g.board[c])
            && (forall i :: 0 <= i < n && g.Live(i) ==>
                  g.snakes[i].Head() in g.board && g'.board[g.snakes[i].Head()] == g.snakes[i].id)
  {
    hide Unscathed, MarkFirst;
    UnscathedApart(g);
    MarkingHeads(g, n);
  }

  /** Those with their head on an apple have grown by the step they took; nobody else has changed. */
  lemma {:induction false} EatFirstEffect(g: Game, n: nat)
    requires n <= |g.snakes|
    ensures EatFirst(g, n) == g.(snakes := EatFirst(g, n).snakes)
    ensures forall i :: 0 <= i < |g.snakes| ==>
              var s := g.snakes[i];
              EatFirst(g, n).snakes[i] ==
                if i < n && !s.dead && s.Head() in g.board && g.board[s.Head()] == -2
                then s.(points := s.points + [s.recentlyRemoved]) else s
    decreases n
  {
    if n > 0 { EatFirstEffect(g, n - 1); }
  }

  /** Without apples nobody eats. */
  lemma {:induction false} NothingToEat(g: Game, n: nat)
    requires n <= |g.snakes| && forall c <- g.board :: g.board[c] != APPLE
    ensures EatFirst(g, n) == g
    decreases n
  {
    if n > 0 { NothingToEat(g, n - 1); }
  }

  // ----- The invariant of every game -----

  ghost predicate OneStep(a: Point, b: Point) {
    Point(b.x - a.x, b.y - a.y).IsUnit()
  }

  /** A body of the given length whose points are one unit step apart. */
  ghost predicate IsChain(points: seq<Point>, length: nat) {
    |points| == length && forall k :: 0 <= k < length - 1 ==> OneStep(points[k + 1], points[k])
  }

  /** A live snake: a chain inside the board that has just stepped in its direction. */
  ghost predicate WellPlaced(s: Snake, board: Board, length: nat) {
    && IsChain(s.points, length) && (forall k :: 0 <= k < length ==> s.points[k] in board)
    && s.direction.IsUnit()
    && (length >= 2 ==> s.Head() == s.points[1].Plus(s.direction))
  }

  /** Every cell is empty or shows a live snake that is there; in particular there are no apples. */
  ghost predicate ShowsLive(g: Game) {
    forall c <- g.board :: g.board[c] == EMPTY || (g.Live(g.board[c]) && c in g.snakes[g.board[c]].points)
  }

  ghost predicate Invariant(g: Game, length: nat) {
    && length >= 1
    && (forall i :: 0 <= i < |g.snakes| ==> g.snakes[i].id == i)
    && ShowsLive(g)
    && (forall i :: g.Live(i) ==> WellPlaced(g.snakes[i], g.board, length))
    && (forall i, j :: g.Live(i) && g.Live(j) && i != j ==> g.snakes[i].Head() != g.snakes[j].Head())
  }

  /** The situation between moving and marking: heads may be anywhere and no cell shows a head. */
  ghost predicate Moving(g: Game, length: nat) {
    && length >= 1
    && (forall i :: 0 <= i < |g.snakes| ==> g.snakes[i].id == i)
    && (forall c <- g.board :: g.board[c] == EMPTY || (g.Live(g.board[c]) && c in g.snakes[g.board[c]].Rest()))
    && (forall i :: g.Live(i) ==> MovedBody(g.snakes[i], g.board, length))
  }

  ghost predicate MovedBody(s: Snake, board: Board, length: nat) {
    && IsChain(s.points, length) && (forall k :: 1 <= k < length ==> s.points[k] in board)
    && s.direction.IsUnit()
    && (length >= 2 ==> s.Head() == s.points[1].Plus(s.direction))
  }

  ghost function AfterMoves(g: Game, actions: seq<Action>): (g': Game)
    requires |actions| == |g.snakes|
    ensures |g'.snakes| == |g.snakes|
  {
    MoveFirst(Steer(g, actions), |g.snakes|)
  }

  ghost function AfterDeaths(g: Game, actions: seq<Action>): (g': Game)
    requires |actions| == |g.snakes|
    ensures |g'.snakes| == |g.snakes|
  {
    CollideFirst(AfterMoves(g, actions), |g.snakes|)
  }

  lemma RotationKeepsUnit(s: Snake, a: Action)
    requires s.direction.IsUnit()
    ensures s.Steered(a).direction.IsUnit() && s.Steered(a).points == s.points
  {
  }

  lemma StepKeepsChain(s: Snake, a: Action, board: Board, length: nat)
    requires length >= 1 && !s.dead && WellPlaced(s, board, length)
    ensures MovedBody(s.Steered(a).Moved(), board, length)
  {
    RotationKeepsUnit(s, a);
    var t := s.Steered(a);
    var m := t.Moved();
    assert forall k :: 1 <= k < length ==> m.points[k] == s.points[k - 1];
    assert OneStep(s.Head(), m.Head());
    forall k | 0 <= k < length - 1 ensures OneStep(m.points[k + 1], m.points[k]) {
      if k > 0 { assert OneStep(s.points[k], s.points[k - 1]); }
    }
  }

  /** What moving does to a snake and to a cell, seen from the start of the turn. */
  lemma AfterMovesEffect(g: Game, actions: seq<Action>)
    requires |actions| == |g.snakes|
    ensures var g' := AfterMoves(g, actions);
            && g'.board.Keys == g.board.Keys && g'.events == [] && g'.turn == g.turn
            && (forall i :: 0 <= i < |g.snakes| ==>
                  g'.snakes[i] == if g.Live(i) then g.snakes[i].Steered(actions[i]).Moved() else g.snakes[i])
            && (forall c <- g.board :: g'.board[c] == if TailAt(g, |g.snakes|, c) then EMPTY else g.board[c])
  {
    hide MoveFirst;
    var g1 := Steer(g, actions);
    MoveFirstEffect(g1, |g.snakes|);
    SteeringKeepsTails(g, actions);
  }

  lemma SteeringKeepsTails(g: Game, actions: seq<Action>)
    requires |actions| == |g.snakes|
    ensures forall c :: TailAt(Steer(g, actions), |g.snakes|, c) <==> TailAt(g, |g.snakes|, c)
  {
    var g1 := Steer(g, actions);
    forall c ensures TailAt(g1, |g.snakes|, c) <==> TailAt(g, |g.snakes|, c) {
      if TailAt(g, |g.snakes|, c) {
        var i :| 0 <= i < |g.snakes| && g.Live(i) && g.snakes[i].Tail() == c;
        assert g1.Live(i) && g1.snakes[i].Tail() == c;
      }
      if TailAt(g1, |g.snakes|, c) {
        var i :| 0 <= i < |g.snakes| && g1.Live(i) && g1.snakes[i].Tail() == c;
        assert g.Live(i) && g.snakes[i].Tail() == c;
      }
    }
  }

  lemma TailLeaves(s: Snake, a: Action, c: Point)
    requires !s.dead && c in s.points && c != s.Tail()
    ensures c in s.Steered(a).Moved().Rest()
  {
    var k :| 0 <= k < |s.points| && s.points[k] == c;
    assert s.Steered(a).Moved().Rest()[k] == c;
  }

  lemma MovesKeepBodies(g: Game, actions: seq<Action>, length: nat)
    requires |actions| == |g.snakes| && Invariant(g, length)
    ensures Moving(AfterMoves(g, actions), length)
  {
    hide AfterMoves, WellPlaced, MovedBody;
    var g' := AfterMoves(g, actions);
    AfterMovesEffect(g, actions);
    forall i | g'.Live(i) ensures MovedBody(g'.snakes[i], g'.board, length) {
      assert g.Live(i);
      StepKeepsChain(g.snakes[i], actions[i], g.board, length);
      SameKeysSamePlace(g'.snakes[i], g.board, g'.board, length);
    }
    forall c | c in g'.board && g'.board[c] != EMPTY
      ensures g'.Live(g'.board[c]) && c in g'.snakes[g'.board[c]].Rest()
    {
      var i := g.board[c];
      assert g.Live(i) && !TailAt(g, |g.snakes|, c);
      TailLeaves(g.snakes[i], actions[i], c);
    }
  }

  lemma SameKeysSamePlace(s: Snake, b1: Board, b2: Board, length: nat)
    requires b1.Keys == b2.Keys && MovedBody(s, b1, length)
    ensures MovedBody(s, b2, length)
  {
    assert forall c :: c in b1 <==> c in b1.Keys;
  }

  /** Deaths keep the remaining snakes in place, with their heads on free cells. */
  lemma DeathsKeepBodies(g: Game, g': Game, length: nat)
    requires Moving(g, length) && Culled(g, g')
    ensures Moving(g', length)
  {
    forall i | g'.Live(i) ensures MovedBody(g'.snakes[i], g'.board, length) {
      assert g.Live(i);
      SameKeysSamePlace(g'.snakes[i], g.board, g'.board, length);
    }
    forall c | c in g'.board && g'.board[c] != EMPTY
      ensures g'.Live(g'.board[c]) && c in g'.snakes[g'.board[c]].Rest()
    {
      var i := g.board[c];
      assert c in g.snakes[i].points;
      if !g'.Live(i) { assert NewlyDead(g, g', i); }
    }
  }

  lemma MarkingShowsHeads(g: Game, length: nat)
    requires Moving(g, length) && forall i :: g.Live(i) ==> Unscathed(g, i)
    ensures Invariant(MarkFirst(g, |g.snakes|), length)
  {
    var n := |g.snakes|;
    var g' := MarkFirst(g, n);
    MarkFirstEffect(g, n);
    forall i | g'.Live(i) ensures WellPlaced(g'.snakes[i], g'.board, length) {
      assert g.Live(i) && Unscathed(g, i);
    }
    forall c | c in g'.board && g'.board[c] != EMPTY
      ensures g'.Live(g'.board[c]) && c in g'.snakes[g'.board[c]].points
    {
      if i :| 0 <= i < n && g.Live(i) && g.snakes[i].Head() == c {
        assert g'.board[c] == i;
      }
    }
  }

  /** Every turn of every game keeps the invariant, and nobody ever meets an apple. */
  lemma TurnKeepsInvariant(g: Game, actions: seq<Action>, length: nat)
    requires |actions| == |g.snakes| && Invariant(g, length)
    ensures Invariant(ProcessTurn(g, actions), length)
    ensures ProcessTurn(g, actions).board.Keys == g.board.Keys
    ensures ProcessTurn(g, actions).turn == g.turn + 1
  {
    TurnPhases(g, actions, length);
  }

  /** The turn in terms of its phases; eating does nothing. */
  lemma TurnPhases(g: Game, actions: seq<Action>, length: nat)
    requires |actions| == |g.snakes| && Invariant(g, length)
    ensures var gm, gc, g' := AfterMoves(g, actions), AfterDeaths(g, actions), ProcessTurn(g, actions);
            && Moving(gm, length) && Culled(gm, gc) && Moving(gc, length)
            && (forall i :: gc.Live(i) ==> Unscathed(gc, i))
            && EatFirst(gc, |gc.snakes|) == gc
            && g' == MarkFirst(gc, |gc.snakes|).(turn := g.turn + 1)
            && Invariant(g', length) && g'.board.Keys == g.board.Keys
  {
    hide Moving, Culled, Unscathed, Invariant, MoveFirst, CollideFirst, EatFirst, MarkFirst;
    var gm, gc := AfterMoves(g, actions), AfterDeaths(g, actions);
    AfterMovesEffect(g, actions);
    MovesKeepBodies(g, actions, length);
    CollideFirstCulls(gm, |g.snakes|);
    CulledIs(gm, gc);
    DeathsKeepBodies(gm, gc, length);
    NoApples(gc, length);
    NothingToEat(gc, |gc.snakes|);
    MarkingShowsHeads(gc, length);
    MarkFirstEffect(gc, |gc.snakes|);
    InvariantIgnoresTurn(MarkFirst(gc, |gc.snakes|), g.turn + 1, length);
  }

  lemma CulledIs(g: Game, g': Game)
    requires Culled(g, g')
    ensures g'.board.Keys == g.board.Keys && g'.turn == g.turn && |g'.snakes| == |g.snakes|
  {
  }

  lemma NoApples(g: Game, length: nat)
    requires Moving(g, length)
    ensures forall c <- g.board :: g.board[c] != APPLE
  {
  }

  lemma InvariantIgnoresTurn(g: Game, turn: int, length: nat)
    requires Invariant(g, length)
    ensures Invariant(g.(turn := turn), length)
  {
    var g' := g.(turn := turn);
    assert forall i :: g'.Live(i) <==> g.Live(i);
  }

  // ----- How exactly the board shows the snakes -----

  ghost predicate Distinct(points: seq<Point>) {
    forall i, j :: 0 <= i < j < |points| ==> points[i] != points[j]
  }

  /** A cell shows a live snake exactly when it is one of the snake's points, and all points of a live snake differ. */
  ghost predicate Exact(g: Game) {
    && (forall k :: g.Live(k) ==> Distinct(g.snakes[k].points))
    && (forall c, k :: c in g.board && g.Live(k) ==> (g.board[c] == k <==> c in g.snakes[k].points))
  }

  /** The same before the heads are marked. */
  ghost predicate ExactRest(g: Game) {
    && (forall k :: g.Live(k) ==> Distinct(g.snakes[k].Rest()))
    && (forall c, k :: c in g.board && g.Live(k) ==> (g.board[c] == k <==> c in g.snakes[k].Rest()))
  }

  /** No snake that died has its head on the body of a survivor. */
  ghost predicate HarmlessDeaths(g: Game, g': Game) {
    forall d, k :: NewlyDead(g, g', d) && g.Live(k) && g'.Live(k) ==> g.snakes[d].Head() !in g.snakes[k].Rest()
  }

  lemma MovesKeepExact(g: Game, actions: seq<Action>, length: nat)
    requires |actions| == |g.snakes| && Invariant(g, length) && Exact(g)
    ensures ExactRest(AfterMoves(g, actions))
  {
    hide AfterMoves, Invariant;
    var g' := AfterMoves(g, actions);
    AfterMovesEffect(g, actions);
    forall k | g'.Live(k) ensures Distinct(g'.snakes[k].Rest()) {
      assert g.Live(k);
      RestOfMoved(g.snakes[k], actions[k]);
    }
    forall c, k | c in g'.board && g'.Live(k) ensures g'.board[c] == k <==> c in g'.snakes[k].Rest() {
      assert g.Live(k);
      RestOfMoved(g.snakes[k], actions[k]);
      if TailAt(g, |g.snakes|, c) {
        var i :| 0 <= i < |g.snakes| && g.Live(i) && g.snakes[i].Tail() == c;
        assert c in g.snakes[i].points;
        if i == k { DistinctTail(g.snakes[k]); }
      } else {
        assert g.snakes[k].Tail() != c;
        if c in g.snakes[k].points { TailLeaves(g.snakes[k], actions[k], c); }
      }
    }
  }

  lemma RestOfMoved(s: Snake, a: Action)
    requires !s.dead
    ensures s.Steered(a).Moved().Rest() == s.points[..|s.points| - 1]
    ensures forall c <- s.Steered(a).Moved().Rest() :: c in s.points
  {
  }

  lemma DistinctTail(s: Snake)
    requires Distinct(s.points)
    ensures s.Tail() !in s.points[..|s.points| - 1]
  {
  }

  /** After deaths a survivor's cell is blank exactly when a dead snake's head was there. */
  lemma DeathsBlankHeads(g: Game, g': Game, length: nat, c: Point, k: int)
    requires Moving(g, length) && ExactRest(g) && Culled(g, g')
    requires c in g.board && g'.Live(k)
    ensures g'.board[c] == k <==>
              c in g'.snakes[k].Rest() && !(exists d :: NewlyDead(g, g', d) && g.snakes[d].Head() == c)
  {
    assert g.Live(k) && g'.snakes[k].Rest() == g.snakes[k].Rest();
    if d :| NewlyDead(g, g', d) && g.snakes[d].Head() == c {
      assert c in g.snakes[d].points;
      assert HitByDead(g, g', c);
    } else if HitByDead(g, g', c) {
      var d :| NewlyDead(g, g', d) && c in g.snakes[d].points;
      assert c in g.snakes[d].Rest();
    }
  }

  /** Marking makes the board exact if no survivor has lost a cell, and cannot if one has. */
  lemma MarkingIsExact(g: Game, g': Game, length: nat)
    requires Moving(g, length) && ExactRest(g) && Culled(g, g') && Moving(g', length)
    requires forall i :: g'.Live(i) ==> Unscathed(g', i)
    ensures Exact(MarkFirst(g', |g'.snakes|)) <==> HarmlessDeaths(g, g')
  {
    if HarmlessDeaths(g, g') {
      HarmlessIsExact(g, g', length);
    } else {
      HarmfulIsInexact(g, g', length);
    }
  }

  /** A marked cell shows a snake when its head is there or when it showed the snake before. */
  lemma MarkedCell(g: Game, length: nat, c: Point, k: int)
    requires Moving(g, length) && (forall i :: g.Live(i) ==> Unscathed(g, i))
    requires c in g.board && g.Live(k)
    ensures c in MarkFirst(g, |g.snakes|).board
    ensures MarkFirst(g, |g.snakes|).board[c] == k <==> c == g.snakes[k].Head() || g.board[c] == k
    ensures c == g.snakes[k].Head() ==> g.board[c] != k
  {
    hide Moving;
    MarkFirstEffect(g, |g.snakes|);
    IdsAreIndices(g, length);
    assert Unscathed(g, k);
    if i :| g.Live(i) && g.snakes[i].Head() == c {
      assert Unscathed(g, i);
    }
  }

  lemma IdsAreIndices(g: Game, length: nat)
    requires Moving(g, length)
    ensures forall i :: 0 <= i < |g.snakes| ==> g.snakes[i].id == i
  {
  }

  lemma SurvivorIsSame(g: Game, g': Game, k: int)
    requires Culled(g, g') && g'.Live(k)
    ensures g.Live(k) && g'.snakes[k] == g.snakes[k] && g'.board.Keys == g.board.Keys
  {
  }

  lemma HarmlessIsExact(g: Game, g': Game, length: nat)
    requires Moving(g, length) && ExactRest(g) && Culled(g, g') && Moving(g', length)
    requires forall i :: g'.Live(i) ==> Unscathed(g', i)
    requires HarmlessDeaths(g, g')
    ensures Exact(MarkFirst(g', |g'.snakes|))
  {
    hide Moving, Culled, MarkFirst, Unscathed;
    var m := MarkFirst(g', |g'.snakes|);
    MarkFirstEffect(g', |g'.snakes|);
    forall c, k | c in m.board && m.Live(k) ensures m.board[c] == k <==> c in m.snakes[k].points {
      SurvivorIsSame(g, g', k);
      DeathsBlankHeads(g, g', length, c, k);
      MarkedCell(g', length, c, k);
      PointsAreHeadAndRest(g'.snakes[k]);
    }
    forall k | m.Live(k) ensures Distinct(m.snakes[k].points) {
      SurvivorIsSame(g, g', k);
      var c := g'.snakes[k].Head();
      UnscathedOnBoard(g', k);
      DeathsBlankHeads(g, g', length, c, k);
      MarkedCell(g', length, c, k);
      DistinctFromRest(g'.snakes[k]);
    }
  }

  lemma UnscathedOnBoard(g: Game, k: int)
    requires g.Live(k) && Unscathed(g, k)
    ensures g.snakes[k].Head() in g.board
  {
  }

  lemma PointsAreHeadAndRest(s: Snake)
    ensures forall c :: c in s.points <==> c == s.Head() || c in s.Rest()
  {
    assert s.points == [s.Head()] + s.Rest();
  }

  lemma DistinctFromRest(s: Snake)
    ensures Distinct(s.points) <==> Distinct(s.Rest()) && s.Head() !in s.Rest()
  {
    assert s.points == [s.Head()] + s.Rest();
  }

  lemma HarmfulIsInexact(g: Game, g': Game, length: nat)
    requires Moving(g, length) && ExactRest(g) && Culled(g, g') && Moving(g', length)
    requires forall i :: g'.Live(i) ==> Unscathed(g', i)
    requires !HarmlessDeaths(g, g')
    ensures !Exact(MarkFirst(g', |g'.snakes|))
  {
    hide Moving, Culled, MarkFirst, Unscathed;
    var m := MarkFirst(g', |g'.snakes|);
    MarkFirstEffect(g', |g'.snakes|);
    var d, k :| NewlyDead(g, g', d) && g.Live(k) && g'.Live(k) && g.snakes[d].Head() in g.snakes[k].Rest();
    var c := g.snakes[d].Head();
    SurvivorIsSame(g, g', k);
    RestOnBoard(g, length, k, c);
    DeathsBlankHeads(g, g', length, c, k);
    MarkedCell(g', length, c, k);
    PointsAreHeadAndRest(g'.snakes[k]);
    DistinctFromRest(g'.snakes[k]);
    assert m.Live(k);
  }

  lemma RestOnBoard(g: Game, length: nat, k: int, c: Point)
    requires Moving(g, length) && g.Live(k) && c in g.snakes[k].Rest()
    ensures c in g.board
  {
    assert MovedBody(g.snakes[k], g.board, length);
  }

  /** After a turn that started exact, the board is exact again if and only if no snake that died
      ran into the body of one that survived; in particular it is when nobody died. */
  lemma TurnExactIfHarmless(g: Game, actions: seq<Action>, length: nat)
    requires |actions| == |g.snakes| && Invariant(g, length) && Exact(g)
    ensures Exact(ProcessTurn(g, actions)) <==> HarmlessDeaths(AfterMoves(g, actions), AfterDeaths(g, actions))
    ensures ProcessTurn(g, actions).events == [] ==> Exact(ProcessTurn(g, actions))
  {
    hide Moving, Culled, Unscathed, Invariant, Exact, ExactRest, HarmlessDeaths, MarkFirst, EatFirst, AfterMoves, AfterDeaths, ProcessTurn;
    var gm, gc := AfterMoves(g, actions), AfterDeaths(g, actions);
    TurnPhases(g, actions, length);
    MovesKeepExact(g, actions, length);
    MarkingIsExact(gm, gc, length);
    ExactIgnoresTurn(MarkFirst(gc, |gc.snakes|), g.turn + 1);
    if ProcessTurn(g, actions).events == [] { NoEventsNoHarm(gm, gc); }
  }

  lemma ExactIgnoresTurn(g: Game, turn: int)
    ensures Exact(g.(turn := turn)) <==> Exact(g)
  {
    var g' := g.(turn := turn);
    assert forall i :: g'.Live(i) <==> g.Live(i);
  }

  lemma NoEventsNoHarm(g: Game, g': Game)
    requires Culled(g, g') && g'.events == []
    ensures HarmlessDeaths(g, g')
  {
  }
}
