/** Whole snake games: where they start, and what holds however they go on. */
module SnakeGames {
  import opened SnakeRules
  import opened SnakeInvariants
  import opened SnakeDeaths

  // ----- The start -----

  /** The options that the spawning scheme is made for. */
  predicate Playable(o: Options) {
    o.numPlayers <= 4 && o.startingLength >= 1 && o.x > o.startingLength + 1 && o.y > o.startingLength + 1
  }

  lemma {:induction false} GrownAt(start: Point, d: Point, length: int)
    requires length >= 1
    ensures |Grown(start, d, length)| == length
    ensures forall k :: 0 <= k < length ==>
              Grown(start, d, length)[k] == Point(start.x + (length - 1 - k) * d.x, start.y + (length - 1 - k) * d.y)
    decreases length
  {
    if length > 1 {
      GrownAt(start, d, length - 1);
      assert (length - 2) * d.x + d.x == (length - 1) * d.x && (length - 2) * d.y + d.y == (length - 1) * d.y;
    }
  }

  /** Point `k` of player `p`: a line along the side of the board, one cell in from the edge. */
  function SpawnPoint(o: Options, p: nat, k: int): Point {
    var far := o.startingLength - 1 - k;
    if p == 0 then Point(1 + far, 1)
    else if p == 1 then Point(o.x - 1 - far, o.y - 1)
    else if p == 2 then Point(o.x - 1, 1 + far)
    else Point(1, o.y - 1 - far)
  }

  /** Each player starts one cell in from a corner of the board and heads along a side of it. */
  lemma SpawnedAt(o: Options, p: nat)
    requires Playable(o)
    ensures SpawnedSnake(o, p).direction ==
            Point(if p == 0 then 1 else if p == 1 then -1 else 0, if p == 0 || p == 1 then 0 else if p == 2 then 1 else -1)
    ensures |SpawnedSnake(o, p).points| == o.startingLength
    ensures forall k :: 0 <= k < o.startingLength ==> SpawnedSnake(o, p).points[k] == SpawnPoint(o, p, k)
  {
    GrownAt(StartingPosition(o, p), StartingDirection(p), o.startingLength);
  }

  lemma SpawnPointsApart(o: Options, p: nat, k: int, q: nat, l: int)
    requires Playable(o) && p < 4 && q < 4 && 0 <= k < o.startingLength && 0 <= l < o.startingLength
    ensures SpawnPoint(o, p, k) == SpawnPoint(o, q, l) ==> p == q && k == l
    ensures SpawnPoint(o, p, k) in EmptyBoard(o)
  {
  }

  lemma {:induction false} NotPainted(board: Board, snakes: seq<Snake>, n: nat, c: Point)
    requires n <= |snakes| && c in board && forall i :: 0 <= i < n ==> c !in snakes[i].points
    ensures c in PaintFirst(board, snakes, n) && PaintFirst(board, snakes, n)[c] == board[c]
    decreases n
  {
    if n > 0 { NotPainted(board, snakes, n - 1, c); }
  }

  lemma {:induction false} PaintedOnce(board: Board, snakes: seq<Snake>, n: nat, c: Point, i: nat)
    requires i < n <= |snakes| && c in board && c in snakes[i].points
    requires forall j :: i < j < n ==> c !in snakes[j].points
    ensures c in PaintFirst(board, snakes, n) && PaintFirst(board, snakes, n)[c] == snakes[i].id
    decreases n
  {
    if i < n - 1 { PaintedOnce(board, snakes, n - 1, c, i); }
  }

  /** Painting disjoint bodies shows each of them completely and changes no other cell. */
  lemma PaintFirstEffect(board: Board, snakes: seq<Snake>, n: nat)
    requires n <= |snakes|
    requires forall i :: 0 <= i < |snakes| ==> snakes[i].id == i
    requires forall i, j, c :: 0 <= i < j < |snakes| && c in snakes[i].points ==> c !in snakes[j].points
    ensures var b := PaintFirst(board, snakes, n);
            && b.Keys == board.Keys
            && (forall c <- board :: (forall i :: 0 <= i < n ==> c !in snakes[i].points) ==> b[c] == board[c])
            && (forall c, i :: c in board && 0 <= i < n && c in snakes[i].points ==> b[c] == i)
  {
    hide PaintFirst;
    var b := PaintFirst(board, snakes, n);
    forall c | c in board && forall i :: 0 <= i < n ==> c !in snakes[i].points ensures b[c] == board[c] {
      NotPainted(board, snakes, n, c);
    }
    forall c, i | c in board && 0 <= i < n && c in snakes[i].points ensures b[c] == i {
      PaintedOnce(board, snakes, n, c, i);
    }
  }

  ghost predicate SpawnedWell(o: Options, p: nat, s: Snake) {
    o.startingLength >= 1 && s.id == p && !s.dead && WellPlaced(s, EmptyBoard(o), o.startingLength) && Distinct(s.points)
  }

  lemma SpawnPointsInLine(o: Options, p: nat, k: int)
    ensures OneStep(SpawnPoint(o, p, k + 1), SpawnPoint(o, p, k))
    ensures SpawnPoint(o, p, k) == SpawnPoint(o, p, k + 1).Plus(StartingDirection(p)) && StartingDirection(p).IsUnit()
  {
  }

  lemma SpawnedFields(o: Options, p: nat)
    ensures var s := SpawnedSnake(o, p); s.id == p && !s.dead && s.direction == StartingDirection(p)
  {
  }

  lemma SpawnedIsWell(o: Options, p: nat)
    requires Playable(o) && p < 4
    ensures SpawnedWell(o, p, SpawnedSnake(o, p))
  {
    hide SpawnPoint, EmptyBoard, OneStep, StartingDirection, SpawnedSnake;
    SpawnedAt(o, p);
    SpawnedFields(o, p);
    SpawnPointsInLine(o, p, 0);
    var points := SpawnedSnake(o, p).points;
    forall k | 0 <= k < o.startingLength ensures points[k] in EmptyBoard(o) {
      SpawnPointsApart(o, p, k, p, k);
    }
    forall k, l | 0 <= k < l < o.startingLength ensures points[k] != points[l] {
      SpawnPointsApart(o, p, k, p, l);
    }
    forall k | 0 <= k < o.startingLength - 1 ensures OneStep(points[k + 1], points[k]) {
      SpawnPointsInLine(o, p, k);
    }
  }

  lemma SpawnedApart(o: Options, p: nat, q: nat, c: Point)
    requires Playable(o) && p < q < 4 && c in SpawnedSnake(o, p).points
    ensures c !in SpawnedSnake(o, q).points
  {
    SpawnedAt(o, p);
    SpawnedAt(o, q);
    var k :| 0 <= k < o.startingLength && SpawnedSnake(o, p).points[k] == c;
    forall l | 0 <= l < o.startingLength ensures SpawnedSnake(o, q).points[l] != c {
      SpawnPointsApart(o, p, k, q, l);
    }
  }

  /** The start of every game satisfies the invariant, and the board shows the snakes exactly. */
  lemma SpawnIsExact(o: Options)
    requires Playable(o)
    ensures Invariant(SpawnSnakes(o), o.startingLength) && Exact(SpawnSnakes(o))
    ensures SpawnSnakes(o).board.Keys == EmptyBoard(o).Keys
    ensures forall i :: 0 <= i < o.numPlayers ==> SpawnSnakes(o).Live(i)
  {
    hide SpawnedSnake, EmptyBoard, PaintFirst;
    var g := SpawnSnakes(o);
    var n := o.numPlayers;
    forall p | 0 <= p < n ensures SpawnedWell(o, p, g.snakes[p]) {
      SpawnedIsWell(o, p);
    }
    forall i, j, c | 0 <= i < j < n && c in g.snakes[i].points ensures c !in g.snakes[j].points {
      SpawnedApart(o, i, j, c);
    }
    PaintFirstEffect(EmptyBoard(o), g.snakes, n);
    EmptyBoardIsEmpty(o);
    PaintedIsExact(o, g);
  }

  lemma EmptyBoardIsEmpty(o: Options)
    ensures forall c <- EmptyBoard(o) :: EmptyBoard(o)[c] == EMPTY
  {
  }

  lemma PaintedIsExact(o: Options, g: Game)
    requires o.startingLength >= 1
    requires g.board.Keys == EmptyBoard(o).Keys
    requires forall i :: 0 <= i < |g.snakes| ==> SpawnedWell(o, i, g.snakes[i])
    requires forall i, j, c :: 0 <= i < j < |g.snakes| && c in g.snakes[i].points ==> c !in g.snakes[j].points
    requires forall c <- g.board :: (forall i :: 0 <= i < |g.snakes| ==> c !in g.snakes[i].points) ==> g.board[c] == EMPTY
    requires forall c, i :: c in g.board && 0 <= i < |g.snakes| && c in g.snakes[i].points ==> g.board[c] == i
    ensures Invariant(g, o.startingLength) && Exact(g)
  {
    hide EmptyBoard;
    forall i | g.Live(i) ensures WellPlaced(g.snakes[i], g.board, o.startingLength) {
      assert SpawnedWell(o, i, g.snakes[i]);
      assert forall c :: c in g.board <==> c in EmptyBoard(o);
    }
    forall i, j | g.Live(i) && g.Live(j) && i < j ensures g.snakes[i].Head() != g.snakes[j].Head() {
      assert g.snakes[i].Head() in g.snakes[i].points && g.snakes[j].Head() in g.snakes[j].points;
    }
    forall c | c in g.board && g.board[c] != EMPTY ensures g.Live(g.board[c]) && c in g.snakes[g.board[c]].points {
      var i :| 0 <= i < |g.snakes| && c in g.snakes[i].points;
      assert SpawnedWell(o, i, g.snakes[i]);
    }
    assert forall i :: 0 <= i < |g.snakes| ==> SpawnedWell(o, i, g.snakes[i]);
  }

  // ----- The game -----

  /** The events of a turn name exactly the snakes that died in it, once each, and the dead stay dead. */
  lemma TurnEvents(g: Game, actions: seq<Action>, length: nat)
    requires |actions| == |g.snakes| && Invariant(g, length)
    ensures var g' := ProcessTurn(g, actions);
            && (forall k :: k in g'.events <==> NewlyDead(g, g', k))
            && (forall j, k :: 0 <= j < k < |g'.events| ==> g'.events[j] != g'.events[k])
            && (forall i :: g'.Live(i) ==> g.Live(i))
  {
    TurnPhases(g, actions, length);
    AfterMovesEffect(g, actions);
    SameLives(g, actions, length);
  }

  lemma SameLives(g: Game, actions: seq<Action>, length: nat)
    requires |actions| == |g.snakes| && Invariant(g, length)
    ensures forall i :: AfterMoves(g, actions).Live(i) <==> g.Live(i)
    ensures forall i :: ProcessTurn(g, actions).Live(i) <==> AfterDeaths(g, actions).Live(i)
    ensures ProcessTurn(g, actions).events == AfterDeaths(g, actions).events
  {
    hide AfterMoves, AfterDeaths, MarkFirst, ProcessTurn;
    TurnPhases(g, actions, length);
    AfterMovesEffect(g, actions);
  }

  /** The game after exactly `count` more turns, whether or not anybody is left. */
  ghost function Turns(g: Game, turn: int, count: nat, rounds: int -> seq<Action>): (g': Game)
    requires forall t :: |rounds(t)| == |g.snakes|
    ensures |g'.snakes| == |g.snakes|
    decreases count
  {
    if count == 0 then g else Turns(ProcessTurn(g, rounds(turn)), turn + 1, count - 1, rounds)
  }

  /** Over a whole game: the invariant holds at the end, the board keeps its cells, the dead stay dead, and the
      events of all turns together name exactly the snakes that died, once each. */
  lemma {:induction false} GameKeepsInvariant(g: Game, turn: int, maxTurns: int, rounds: int -> seq<Action>, length: nat)
    requires forall t :: |rounds(t)| == |g.snakes|
    requires Invariant(g, length)
    ensures var (last, events) := PlayFrom(g, turn, maxTurns, rounds);
            && Invariant(last, length) && last.board.Keys == g.board.Keys
            && (forall i :: last.Live(i) ==> g.Live(i))
            && (forall k :: k in events <==> NewlyDead(g, last, k))
            && (forall j, k :: 0 <= j < k < |events| ==> events[j] != events[k])
    decreases maxTurns - turn
  {
    hide ProcessTurn, Invariant;
    if turn <= maxTurns && !IsGameFinished(g) {
      var g' := ProcessTurn(g, rounds(turn));
      TurnKeepsInvariant(g, rounds(turn), length);
      TurnEvents(g, rounds(turn), length);
      GameKeepsInvariant(g', turn + 1, maxTurns, rounds, length);
      var (last, events) := PlayFrom(g', turn + 1, maxTurns, rounds);
      assert forall k :: k in g'.events + events <==> NewlyDead(g, last, k);
      forall j, k | 0 <= j < k < |g'.events + events| ensures (g'.events + events)[j] != (g'.events + events)[k] {
        if j < |g'.events| <= k {
          assert g'.events[j] in g'.events && events[k - |g'.events|] in events;
        }
      }
    }
  }

  ghost predicate SomeoneLives(g: Game) {
    exists i :: 0 <= i < |g.snakes| && !g.snakes[i].dead
  }

  lemma FinishedIs(g: Game)
    ensures IsGameFinished(g) <==> forall i :: 0 <= i < |g.snakes| ==> g.snakes[i].dead
    ensures !IsGameFinished(g) ==> SomeoneLives(g)
  {
  }

  /** The loop plays no more than the turns allowed; it stops earlier only if all snakes are dead, and then at once. */
  lemma {:induction false} GameStopsOnTime(g: Game, turn: int, maxTurns: int, rounds: int -> seq<Action>) returns (count: nat)
    requires forall t :: |rounds(t)| == |g.snakes|
    ensures PlayFrom(g, turn, maxTurns, rounds).0 == Turns(g, turn, count, rounds)
    ensures turn <= maxTurns + 1 ==> turn + count <= maxTurns + 1
    ensures turn > maxTurns ==> count == 0
    ensures turn + count <= maxTurns ==>
              forall i :: 0 <= i < |g.snakes| ==> Turns(g, turn, count, rounds).snakes[i].dead
    ensures forall k :: 0 <= k < count ==> SomeoneLives(Turns(g, turn, k, rounds))
    decreases maxTurns - turn
  {
    hide ProcessTurn, IsGameFinished, SomeoneLives;
    FinishedIs(g);
    if turn > maxTurns || IsGameFinished(g) {
      count := 0;
    } else {
      var g' := ProcessTurn(g, rounds(turn));
      var rest := GameStopsOnTime(g', turn + 1, maxTurns, rounds);
      count := rest + 1;
      forall k | 0 <= k < count ensures SomeoneLives(Turns(g, turn, k, rounds)) {
        if k > 0 { assert Turns(g, turn, k, rounds) == Turns(g', turn + 1, k - 1, rounds); }
      }
    }
  }

  lemma {:induction false} TurnsCount(g: Game, turn: int, count: nat, rounds: int -> seq<Action>, length: nat)
    requires forall t :: |rounds(t)| == |g.snakes|
    requires Invariant(g, length)
    ensures Turns(g, turn, count, rounds).turn == g.turn + count
    decreases count
  {
    hide ProcessTurn, Invariant;
    if count > 0 {
      TurnKeepsInvariant(g, rounds(turn), length);
      TurnsCount(ProcessTurn(g, rounds(turn)), turn + 1, count - 1, rounds, length);
    }
  }

  /** A game of so many turns, as its counter tells, was played to the end of the allowed turns or to the last death,
      and somebody was alive before each of its turns. */
  lemma GameWasPlayed(o: Options, rounds: int -> seq<Action>, turns: nat)
    requires Playable(o) && forall t :: |rounds(t)| == o.numPlayers
    requires PlayFrom(SpawnSnakes(o), 1, o.maxTurns, rounds).0.turn == 1 + turns
    ensures |SpawnSnakes(o).snakes| == o.numPlayers
    ensures PlayFrom(SpawnSnakes(o), 1, o.maxTurns, rounds).0 == Turns(SpawnSnakes(o), 1, turns, rounds)
    ensures turns < o.maxTurns ==>
              forall i :: 0 <= i < o.numPlayers ==> Turns(SpawnSnakes(o), 1, turns, rounds).snakes[i].dead
    ensures forall k :: 0 <= k < turns ==> SomeoneLives(Turns(SpawnSnakes(o), 1, k, rounds))
  {
    hide PlayFrom, Turns, Invariant, SomeoneLives;
    SpawnsAll(o);
    SpawnIsExact(o);
    var count := GameStopsOnTime(SpawnSnakes(o), 1, o.maxTurns, rounds);
    TurnsCount(SpawnSnakes(o), 1, count, rounds, o.startingLength);
  }

  lemma HasMember(s: seq<int>)
    requires s != []
    ensures exists k :: k in s
  {
    var k: int := s[0];
    assert k in s;
  }

  /** As long as nobody has died, the board shows all snakes exactly. */
  lemma {:induction false} ExactUntilFirstDeath(g: Game, turn: int, count: nat, rounds: int -> seq<Action>, length: nat)
    requires forall t :: |rounds(t)| == |g.snakes|
    requires Invariant(g, length) && Exact(g)
    requires forall i :: g.Live(i) ==> Turns(g, turn, count, rounds).Live(i)
    ensures Invariant(Turns(g, turn, count, rounds), length) && Exact(Turns(g, turn, count, rounds))
    decreases count
  {
    hide ProcessTurn, Invariant, Exact;
    if count > 0 {
      var g' := ProcessTurn(g, rounds(turn));
      TurnKeepsInvariant(g, rounds(turn), length);
      TurnEvents(g, rounds(turn), length);
      DeadStayDead(g', turn + 1, count - 1, rounds, length);
      TurnExactIfHarmless(g, rounds(turn), length);
      if g'.events != [] { HasMember(g'.events); }
      ExactUntilFirstDeath(g', turn + 1, count - 1, rounds, length);
    }
  }

  lemma {:induction false} DeadStayDead(g: Game, turn: int, count: nat, rounds: int -> seq<Action>, length: nat)
    requires forall t :: |rounds(t)| == |g.snakes|
    requires Invariant(g, length)
    ensures Invariant(Turns(g, turn, count, rounds), length)
    ensures forall i :: Turns(g, turn, count, rounds).Live(i) ==> g.Live(i)
    decreases count
  {
    hide ProcessTurn, Invariant;
    if count > 0 {
      TurnKeepsInvariant(g, rounds(turn), length);
      TurnEvents(g, rounds(turn), length);
      DeadStayDead(ProcessTurn(g, rounds(turn)), turn + 1, count - 1, rounds, length);
    }
  }

  /** Every game from its start: at the end the live snakes are chains of the starting length inside the board,
      no two of them share a head, cells show only live snakes where they are, no cell ever got an apple,
      and each dead snake has exactly one death event in the whole game. */
  lemma EveryGame(o: Options, rounds: int -> seq<Action>)
    requires Playable(o) && forall t :: |rounds(t)| == o.numPlayers
    ensures var (last, events) := PlayFrom(SpawnSnakes(o), 1, o.maxTurns, rounds);
            && Invariant(last, o.startingLength)
            && (forall c :: c in last.board <==> 0 <= c.x < o.x && 0 <= c.y < o.y)
            && (forall c <- last.board :: last.board[c] == -1 || 0 <= last.board[c] < o.numPlayers)
            && (forall i :: 0 <= i < o.numPlayers ==> (i in events <==> last.snakes[i].dead))
            && (forall j, k :: 0 <= j < k < |events| ==> events[j] != events[k])
  {
    hide SpawnSnakes, PlayFrom, EmptyBoard, Invariant;
    SpawnIsExact(o);
    SpawnsAll(o);
    GameKeepsInvariant(SpawnSnakes(o), 1, o.maxTurns, rounds, o.startingLength);
    InvariantHasNoApples(PlayFrom(SpawnSnakes(o), 1, o.maxTurns, rounds).0, o.startingLength);
    BoardIs(o, PlayFrom(SpawnSnakes(o), 1, o.maxTurns, rounds).0.board);
  }

  lemma BoardIs(o: Options, board: Board)
    requires board.Keys == EmptyBoard(o).Keys
    ensures forall c :: c in board <==> 0 <= c.x < o.x && 0 <= c.y < o.y
  {
    forall c ensures c in board <==> 0 <= c.x < o.x && 0 <= c.y < o.y {
      assert c in board <==> c in board.Keys;
      assert c == Point(c.x, c.y);
    }
  }

  lemma SpawnsAll(o: Options)
    ensures |SpawnSnakes(o).snakes| == o.numPlayers
  {
  }

  lemma InvariantHasNoApples(g: Game, length: nat)
    requires Invariant(g, length)
    ensures forall c <- g.board :: g.board[c] == -1 || 0 <= g.board[c] < |g.snakes|
  {
  }

  // ----- A game in which the board stops showing a snake -----

  const SMALL: Options := Options(2, 6, 6, 4, 4)

  function Ambush(turn: int): seq<Action> {
    if turn == 1 then [Left, Left]
    else if turn == 3 then [Right, Forward]
    else [Left, Forward]
  }

  /** Two live snakes at these points, heading in these directions, shown exactly on the small board. */
  ghost predicate Duel(g: Game, p: seq<Point>, d: Point, q: seq<Point>, e: Point) {
    && |g.snakes| == 2 && g.Live(0) && g.Live(1)
    && g.snakes[0].points == p && g.snakes[0].direction == d
    && g.snakes[1].points == q && g.snakes[1].direction == e
    && Invariant(g, 4) && Exact(g) && g.board.Keys == EmptyBoard(SMALL).Keys
  }

  predicate OnSmall(c: Point) {
    0 <= c.x < 6 && 0 <= c.y < 6
  }

  function Turned(d: Point, a: Action): Point {
    match a
    case Left => d.RotatedLeft()
    case Right => d.RotatedRight()
    case Forward => d
  }

  function Ahead(p: seq<Point>, d: Point): seq<Point>
    requires |p| == 4
  {
    [p[0].Plus(d), p[0], p[1], p[2]]
  }

  lemma DuelMoves(g: Game, p: seq<Point>, d: Point, q: seq<Point>, e: Point, a: Action, b: Action)
    requires |p| == |q| == 4 && Duel(g, p, d, q, e)
    ensures var gm := AfterMoves(g, [a, b]);
            && |gm.snakes| == 2 && gm.Live(0) && gm.Live(1) && gm.board.Keys == g.board.Keys && gm.events == []
            && gm.snakes[0].points == Ahead(p, Turned(d, a)) && gm.snakes[0].direction == Turned(d, a)
            && gm.snakes[1].points == Ahead(q, Turned(e, b)) && gm.snakes[1].direction == Turned(e, b)
  {
    hide AfterMoves, Invariant, Exact, EmptyBoard;
    AfterMovesEffect(g, [a, b]);
  }

  lemma SmallBoard(g: Game, c: Point)
    requires g.board.Keys == EmptyBoard(SMALL).Keys
    ensures c in g.board <==> OnSmall(c)
  {
    assert c in g.board <==> c in g.board.Keys;
  }

  /** `c` is not on the body behind the head. */
  predicate Clear(c: Point, p: seq<Point>)
    requires |p| == 4
  {
    c != p[1] && c != p[2] && c != p[3]
  }

  lemma ClearIs(c: Point, p: seq<Point>)
    requires |p| == 4 && Clear(c, p)
    ensures c !in p[1..]
  {
  }

  /** One turn of a duel in which nobody runs into anything. */
  lemma DuelGoesOn(g: Game, p: seq<Point>, d: Point, q: seq<Point>, e: Point, a: Action, b: Action,
                   p': seq<Point>, q': seq<Point>)
    requires |p| == |q| == |p'| == |q'| == 4 && Duel(g, p, d, q, e)
    requires p' == Ahead(p, Turned(d, a)) && q' == Ahead(q, Turned(e, b))
    requires OnSmall(p'[0]) && OnSmall(q'[0]) && p'[0] != q'[0]
    requires Clear(p'[0], p') && Clear(p'[0], q') && Clear(q'[0], p') && Clear(q'[0], q')
    ensures Duel(ProcessTurn(g, [a, b]), p', Turned(d, a), q', Turned(e, b))
  {
    hide AfterMoves, Invariant, Exact, ProcessTurn, EmptyBoard, Turned, Ahead, OnSmall, Clear;
    DuelMoves(g, p, d, q, e, a, b);
    var gm := AfterMoves(g, [a, b]);
    SmallBoard(g, gm.snakes[0].Head());
    SmallBoard(g, gm.snakes[1].Head());
    KeysAreMembers(g.board, gm.board);
    ClearIs(p'[0], p');
    ClearIs(p'[0], q');
    ClearIs(q'[0], p');
    ClearIs(q'[0], q');
    assert Peaceful(gm);
    PeacefulTurn(g, [a, b], 4);
  }

  lemma KeysAreMembers(b1: Board, b2: Board)
    requires b1.Keys == b2.Keys
    ensures forall c :: c in b1 <==> c in b2
  {
    assert forall c :: c in b1 <==> c in b1.Keys;
  }

  lemma DuelStarts()
    ensures Duel(SpawnSnakes(SMALL), [Point(4, 1), Point(3, 1), Point(2, 1), Point(1, 1)], Point(1, 0),
                 [Point(2, 5), Point(3, 5), Point(4, 5), Point(5, 5)], Point(-1, 0))
  {
    hide EmptyBoard, Invariant, Exact, Grown, PaintFirst;
    SpawnIsExact(SMALL);
    SpawnedAt(SMALL, 0);
    SpawnedAt(SMALL, 1);
    SpawnsAll(SMALL);
    var g := SpawnSnakes(SMALL);
    assert g.snakes[0].points == [Point(4, 1), Point(3, 1), Point(2, 1), Point(1, 1)];
    assert g.snakes[1].points == [Point(2, 5), Point(3, 5), Point(4, 5), Point(5, 5)];
  }

  lemma FirstTurnOfDuel(g: Game)
    requires Duel(g, [Point(4, 1), Point(3, 1), Point(2, 1), Point(1, 1)], Point(1, 0),
                  [Point(2, 5), Point(3, 5), Point(4, 5), Point(5, 5)], Point(-1, 0))
    ensures Duel(ProcessTurn(g, Ambush(1)), [Point(4, 2), Point(4, 1), Point(3, 1), Point(2, 1)], Point(0, 1),
                 [Point(2, 4), Point(2, 5), Point(3, 5), Point(4, 5)], Point(0, -1))
  {
    var p, q := [Point(4, 1), Point(3, 1), Point(2, 1), Point(1, 1)], [Point(2, 5), Point(3, 5), Point(4, 5), Point(5, 5)];
    var p' := [Point(4, 2), Point(4, 1), Point(3, 1), Point(2, 1)];
    assert p' == Ahead(p, Point(0, 1));
    var q' := [Point(2, 4), Point(2, 5), Point(3, 5), Point(4, 5)];
    assert q' == Ahead(q, Point(0, -1));
    hide Duel, ProcessTurn, Ahead;
    DuelGoesOn(g, p, Point(1, 0), q, Point(-1, 0), Left, Left, p', q');
  }

  lemma SecondTurnOfDuel(g: Game)
    requires Duel(g, [Point(4, 2), Point(4, 1), Point(3, 1), Point(2, 1)], Point(0, 1),
                  [Point(2, 4), Point(2, 5), Point(3, 5), Point(4, 5)], Point(0, -1))
    ensures Duel(ProcessTurn(g, Ambush(2)), [Point(3, 2), Point(4, 2), Point(4, 1), Point(3, 1)], Point(-1, 0),
                 [Point(2, 3), Point(2, 4), Point(2, 5), Point(3, 5)], Point(0, -1))
  {
    var p, q := [Point(4, 2), Point(4, 1), Point(3, 1), Point(2, 1)], [Point(2, 4), Point(2, 5), Point(3, 5), Point(4, 5)];
    var p' := [Point(3, 2), Point(4, 2), Point(4, 1), Point(3, 1)];
    assert p' == Ahead(p, Point(-1, 0));
    var q' := [Point(2, 3), Point(2, 4), Point(2, 5), Point(3, 5)];
    assert q' == Ahead(q, Point(0, -1));
    hide Duel, ProcessTurn, Ahead;
    DuelGoesOn(g, p, Point(0, 1), q, Point(0, -1), Left, Forward, p', q');
  }

  lemma ThirdTurnOfDuel(g: Game)
    requires Duel(g, [Point(3, 2), Point(4, 2), Point(4, 1), Point(3, 1)], Point(-1, 0),
                  [Point(2, 3), Point(2, 4), Point(2, 5), Point(3, 5)], Point(0, -1))
    ensures Duel(ProcessTurn(g, Ambush(3)), [Point(3, 3), Point(3, 2), Point(4, 2), Point(4, 1)], Point(0, 1),
                 [Point(2, 2), Point(2, 3), Point(2, 4), Point(2, 5)], Point(0, -1))
  {
    var p, q := [Point(3, 2), Point(4, 2), Point(4, 1), Point(3, 1)], [Point(2, 3), Point(2, 4), Point(2, 5), Point(3, 5)];
    var p' := [Point(3, 3), Point(3, 2), Point(4, 2), Point(4, 1)];
    assert p' == Ahead(p, Point(0, 1));
    var q' := [Point(2, 2), Point(2, 3), Point(2, 4), Point(2, 5)];
    assert q' == Ahead(q, Point(0, -1));
    hide Duel, ProcessTurn, Ahead;
    DuelGoesOn(g, p, Point(-1, 0), q, Point(0, -1), Right, Forward, p', q');
  }

  /** In the last turn the first snake runs into the body of the other one, whose head is free. */
  lemma LastTurnOfDuel(g: Game)
    requires Duel(g, [Point(3, 3), Point(3, 2), Point(4, 2), Point(4, 1)], Point(0, 1),
                  [Point(2, 2), Point(2, 3), Point(2, 4), Point(2, 5)], Point(0, -1))
    ensures |g.snakes| == 2 && !Exact(ProcessTurn(g, Ambush(4)))
  {
    hide AfterMoves, Invariant, Exact, ProcessTurn, EmptyBoard, Blocked;
    var p, q := [Point(3, 3), Point(3, 2), Point(4, 2), Point(4, 1)], [Point(2, 2), Point(2, 3), Point(2, 4), Point(2, 5)];
    assert Ahead(p, Point(-1, 0)) == [Point(2, 3), Point(3, 3), Point(3, 2), Point(4, 2)];
    assert Ahead(q, Point(0, -1)) == [Point(2, 1), Point(2, 2), Point(2, 3), Point(2, 4)];
    var gm := AfterMoves(g, [Left, Forward]);
    DuelMoves(g, p, Point(0, 1), q, Point(0, -1), Left, Forward);
    SmallBoard(g, Point(2, 1));
    hide Duel, At;
    RunsIntoSurvivor(g, [Left, Forward], Point(2, 1));
  }

  /** The first of two snakes has run into the body of the other one, whose head is free. */
  lemma RunsIntoSurvivor(g: Game, actions: seq<Action>, c: Point)
    requires |actions| == |g.snakes| == 2 && Invariant(g, 4) && Exact(g) && c in g.board
    requires var gm := AfterMoves(g, actions);
             && gm.Live(0) && gm.Live(1) && gm.snakes[1].Head() == c && gm.snakes[0].Head() != c
             && c !in gm.snakes[0].Rest() && c !in gm.snakes[1].Rest() && gm.snakes[0].Head() in gm.snakes[1].Rest()
    ensures !Exact(ProcessTurn(g, actions))
  {
    hide AfterMoves, Invariant, Exact, ProcessTurn, Moving, ExactRest, Dies;
    var gm := AfterMoves(g, actions);
    AfterMovesEffect(g, actions);
    KeysAreMembers(g.board, gm.board);
    MovesKeepBodies(g, actions, 4);
    MovesKeepExact(g, actions, 4);
    FreeHeadSurvives(gm, 4, c);
    TurnStaysExact(g, actions, 4);
  }

  lemma FreeHeadSurvives(g: Game, length: nat, c: Point)
    requires Moving(g, length) && ExactRest(g) && |g.snakes| == 2
    requires At(g.snakes, 1, c) && !At(g.snakes, 0, c) && c in g.board
    requires forall k :: g.Live(k) ==> c !in g.snakes[k].Rest()
    ensures !Dies(g, 1)
  {
    BlockedByTheLiving(g, length, 1);
    assert HeadCount(g.snakes, c, 0) == 0;
    assert HeadCount(g.snakes, c, 1) == 0;
    assert HeadCount(g.snakes, c, 2) == 1;
  }

  lemma FourTurns(g: Game, rounds: int -> seq<Action>)
    requires forall t :: |rounds(t)| == |g.snakes|
    requires var g1 := ProcessTurn(g, rounds(1)); var g2 := ProcessTurn(g1, rounds(2)); var g3 := ProcessTurn(g2, rounds(3));
             !IsGameFinished(g) && !IsGameFinished(g1) && !IsGameFinished(g2) && !IsGameFinished(g3)
    ensures PlayFrom(g, 1, 4, rounds).0
         == ProcessTurn(ProcessTurn(ProcessTurn(ProcessTurn(g, rounds(1)), rounds(2)), rounds(3)), rounds(4))
  {
    hide ProcessTurn, IsGameFinished;
    var g1 := ProcessTurn(g, rounds(1));
    var g2 := ProcessTurn(g1, rounds(2));
    var g3 := ProcessTurn(g2, rounds(3));
    var g4 := ProcessTurn(g3, rounds(4));
    assert PlayFrom(g4, 5, 4, rounds).0 == g4;
    assert PlayFrom(g3, 4, 4, rounds).0 == g4;
    assert PlayFrom(g2, 3, 4, rounds).0 == g4;
    assert PlayFrom(g1, 2, 4, rounds).0 == g4;
  }

  lemma DuelIsOn(g: Game, p: seq<Point>, d: Point, q: seq<Point>, e: Point)
    requires Duel(g, p, d, q, e)
    ensures |g.snakes| == 2 && !IsGameFinished(g)
  {
    hide Invariant, Exact, EmptyBoard;
    assert g.Live(0);
  }

  /** A game of two in which the first snake dies on the body of the other one, which survives:
      after its four turns the board does not show the survivor exactly. */
  lemma ExactnessIsLost()
    ensures |SpawnSnakes(SMALL).snakes| == 2
    ensures !Exact(PlayFrom(SpawnSnakes(SMALL), 1, SMALL.maxTurns, Ambush).0)
  {
    hide Duel, ProcessTurn, SpawnSnakes, Exact, Ambush, IsGameFinished, PlayFrom;
    AmbushIsForTwo();
    SpawnsAll(SMALL);
    var g0 := SpawnSnakes(SMALL);
    DuelStarts();
    FirstTurnOfDuel(g0);
    var g1 := ProcessTurn(g0, Ambush(1));
    SecondTurnOfDuel(g1);
    var g2 := ProcessTurn(g1, Ambush(2));
    ThirdTurnOfDuel(g2);
    var g3 := ProcessTurn(g2, Ambush(3));
    LastTurnOfDuel(g3);
    DuelIsOn(g0, [Point(4, 1), Point(3, 1), Point(2, 1), Point(1, 1)], Point(1, 0),
             [Point(2, 5), Point(3, 5), Point(4, 5), Point(5, 5)], Point(-1, 0));
    DuelIsOn(g1, [Point(4, 2), Point(4, 1), Point(3, 1), Point(2, 1)], Point(0, 1),
             [Point(2, 4), Point(2, 5), Point(3, 5), Point(4, 5)], Point(0, -1));
    DuelIsOn(g2, [Point(3, 2), Point(4, 2), Point(4, 1), Point(3, 1)], Point(-1, 0),
             [Point(2, 3), Point(2, 4), Point(2, 5), Point(3, 5)], Point(0, -1));
    DuelIsOn(g3, [Point(3, 3), Point(3, 2), Point(4, 2), Point(4, 1)], Point(0, 1),
             [Point(2, 2), Point(2, 3), Point(2, 4), Point(2, 5)], Point(0, -1));
    FourTurns(g0, Ambush);
  }

  lemma AmbushIsForTwo()
    ensures forall t :: |Ambush(t)| == 2
  {
  }
}
