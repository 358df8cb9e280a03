/** The snake match as an object that updates its board and its snakes in place, phase by phase. */
module SnakeMatches {
  import opened SnakeRules
  import opened SnakeInvariants
  import opened SnakeGames

  /** A rectangle of cells, stored row by row. */
  class Grid {
    const width: nat
    const height: nat
    const cells: array2<int>

    ghost predicate Valid() {
      cells.Length0 == height && cells.Length1 == width
    }

    constructor (width: nat, height: nat, v: int)
      ensures Valid() && fresh(cells) && this.width == width && this.height == height
      ensures View() == map i: int, j: int | 0 <= i < width && 0 <= j < height :: Point(i, j) := v
    {
      this.width, this.height := width, height;
      cells := new int[height, width]((_, _) => v);
    }

    predicate Inside(p: Point) {
      0 <= p.x < width && 0 <= p.y < height
    }

    ghost function View(): (b: Board)
      requires Valid()
      reads cells
      ensures forall p :: p in b <==> Inside(p)
    {
      map i: int, j: int | 0 <= i < width && 0 <= j < height :: Point(i, j) := cells[j, i]
    }

    function At(p: Point): (v: int)
      requires Valid() && Inside(p)
      reads cells
      ensures v == View()[p]
    {
      cells[p.y, p.x]
    }

    method Set(p: Point, v: int)
      requires Valid() && Inside(p)
      modifies cells
      ensures View() == old(View())[p := v]
    {
      cells[p.y, p.x] := v;
    }
  }

  class SnakeMatch {
    const options: Options
    const board: Grid
    var snakes: seq<Snake>
    var events: seq<int>
    var currentTurn: int

    ghost predicate Valid() {
      board.Valid()
    }

    ghost function State(): Game
      requires Valid()
      reads this, board.cells
    {
      Game(board.View(), snakes, events, currentTurn)
    }

    constructor (options: Options)
      requires options.x >= 0 && options.y >= 0
      ensures Valid() && fresh(board) && fresh(board.cells) && this.options == options
      ensures State() == Game(EmptyBoard(options), [], [], 1)
    {
      this.options := options;
      board := new Grid(options.x, options.y, EMPTY);
      snakes, events, currentTurn := [], [], 1;
    }

    /** Writes `id` into all cells of a body. */
    method Paint(points: seq<Point>, id: int)
      requires Valid() && forall p <- points :: board.Inside(p)
      modifies board.cells
      ensures board.View() == Painted(old(board.View()), points, id)
    {
      ghost var b := board.View();
      for k := 0 to |points|
        invariant board.View() == Painted(b, points[..k], id)
      {
        assert points[..k + 1] == points[..k] + [points[k]];
        board.Set(points[k], id);
      }
      assert points[..|points|] == points;
    }

    /** Grows the body of a new snake, head by head. */
    static method Grow(start: Point, direction: Point, length: int) returns (points: Body)
      ensures points == Grown(start, direction, length)
    {
      points := [start];
      var i := 0;
      while i < length - 1
        invariant i <= length - 1 || i == 0
        invariant points == Grown(start, direction, i + 1)
      {
        points := [points[0].Plus(direction)] + points;
        i := i + 1;
      }
    }

    method CreateSnakes()
      modifies this
      ensures snakes == SpawnSnakes(options).snakes && events == old(events) && currentTurn == old(currentTurn)
    {
      hide SpawnedSnake;
      snakes := [];
      for p := 0 to options.numPlayers
        invariant snakes == seq(p, q requires 0 <= q => SpawnedSnake(options, q))
        invariant events == old(events) && currentTurn == old(currentTurn)
      {
        var points := Grow(StartingPosition(options, p), StartingDirection(p), options.startingLength);
        var s := Snake(p, false, points, StartingDirection(p), Point(0, 0));
        SpawnedIs(options, p);
        snakes := snakes + [s];
      }
    }

    method SpawnAll()
      requires Valid() && Playable(options)
      requires board.View() == EmptyBoard(options) && events == [] && currentTurn == 1
      modifies this, board.cells
      ensures State() == SpawnSnakes(options)
    {
      hide EmptyBoard, Painted, SpawnSnakes, Grid.View;
      ghost var g := SpawnSnakes(options);
      CreateSnakes();
      SpawnSnakesIs(options);
      for p := 0 to |snakes|
        invariant snakes == g.snakes && events == [] && currentTurn == 1
        invariant board.View() == PaintFirst(EmptyBoard(options), g.snakes, p)
      {
        SpawnedInside(options, p);
        BoardOfOptions(options, board);
        Paint(snakes[p].points, snakes[p].id);
      }
    }

    method CheckFinished() returns (finished: bool)
      requires Valid()
      ensures finished <==> forall i :: 0 <= i < |snakes| ==> snakes[i].dead
    {
      for i := 0 to |snakes|
        invariant forall k :: 0 <= k < i ==> snakes[k].dead
      {
        if !snakes[i].dead { return false; }
      }
      return true;
    }

    /** Empties the cells of a body, except where they are off the board or hold an apple. */
    method Clear(points: seq<Point>)
      requires Valid()
      modifies board.cells
      ensures board.View() == Cleared(old(board.View()), points)
    {
      hide Cleared;
      ghost var b := board.View();
      ClearedNone(b);
      for k := 0 to |points|
        invariant board.View() == Cleared(b, points[..k])
      {
        ClearedNext(b, points, k);
        if board.Inside(points[k]) && board.At(points[k]) != APPLE {
          board.Set(points[k], EMPTY);
        }
      }
      assert points[..|points|] == points;
    }

    method KillSnake(i: nat)
      requires Valid() && i < |snakes|
      modifies this, board.cells
      ensures State() == Kill(old(State()), i)
    {
      snakes := snakes[i := snakes[i].(dead := true)];
      Clear(snakes[i].points);
      events := events + [i];
    }

    method ExecuteActions(actions: seq<Action>)
      requires Valid() && |actions| == |snakes|
      modifies this
      ensures State() == Steer(old(State()), actions)
    {
      events := [];
      ghost var before := snakes;
      for p := 0 to |snakes|
        invariant |snakes| == |before| && events == [] && currentTurn == old(currentTurn)
        invariant forall k :: 0 <= k < |before| ==> snakes[k] == if k < p then before[k].Steered(actions[k]) else before[k]
      {
        var s := snakes[p];
        if s.dead { continue; }
        if actions[p] == Left { s := s.(direction := s.direction.RotatedLeft()); }
        if actions[p] == Right { s := s.(direction := s.direction.RotatedRight()); }
        snakes := snakes[p := s];
      }
    }

    method ProcessMoves()
      requires Valid() && forall i :: State().Live(i) ==> board.Inside(snakes[i].Tail())
      modifies this, board.cells
      ensures State() == MoveFirst(old(State()), |old(snakes)|)
    {
      ghost var g := State();
      for i := 0 to |snakes|
        invariant |snakes| == |g.snakes| && State() == MoveFirst(g, i)
        invariant forall k :: i <= k < |snakes| ==> snakes[k] == g.snakes[k]
      {
        var s := snakes[i];
        if s.dead { continue; }
        assert g.Live(i);
        board.Set(s.Tail(), EMPTY);
        var longer := [s.Head().Plus(s.direction)] + s.points;
        var shortened := longer[..|longer| - 1];
        assert shortened == s.Moved().points;
        snakes := snakes[i := s.(points := shortened, recentlyRemoved := longer[|longer| - 1])];
      }
    }

    method FindSameHeads(head: Point) returns (same: seq<nat>)
      ensures same == SameHeads(snakes, head, |snakes|)
    {
      same := [];
      for h := 0 to |snakes|
        invariant same == SameHeads(snakes, head, h)
      {
        if !snakes[h].dead && snakes[h].Head() == head {
          same := same + [h];
        }
      }
    }

    method CheckCollision(i: nat)
      requires Valid() && i < |snakes|
      modifies this, board.cells
      ensures State() == CollideOne(old(State()), i)
    {
      hide Kill, KillAll, SameHeads;
      if snakes[i].dead { return; }
      var head := snakes[i].Head();
      if !board.Inside(head) || (board.At(head) != APPLE && board.At(head) != EMPTY) {
        KilledIsDead(State(), i);
        KillSnake(i);
      }
      var same := FindSameHeads(head);
      if |same| > 1 {
        KillEach(same);
      }
    }

    method CheckCollisions()
      requires Valid()
      modifies this, board.cells
      ensures State() == CollideFirst(old(State()), |old(snakes)|)
    {
      hide CollideOne;
      ghost var g := State();
      for i := 0 to |snakes|
        invariant |snakes| == |g.snakes| && State() == CollideFirst(g, i)
      {
        CheckCollision(i);
      }
    }

    method KillEach(victims: seq<nat>)
      requires Valid() && forall j :: 0 <= j < |victims| ==> victims[j] < |snakes|
      modifies this, board.cells
      ensures State() == KillAll(old(State()), victims)
    {
      ghost var g := State();
      for j := 0 to |victims|
        invariant |snakes| == |g.snakes|
        invariant KillAll(g, victims) == KillAll(State(), victims[j..])
      {
        KillSnake(victims[j]);
        assert victims[j..][1..] == victims[j + 1..];
      }
    }

    method CheckApples()
      requires Valid() && forall i :: State().Live(i) ==> board.Inside(snakes[i].Head())
      modifies this
      ensures State() == EatFirst(old(State()), |old(snakes)|)
    {
      ghost var g := State();
      for i := 0 to |snakes|
        invariant |snakes| == |g.snakes| && State() == EatFirst(g, i)
        invariant forall k :: 0 <= k < |snakes| ==> snakes[k].Head() == g.snakes[k].Head() && snakes[k].dead == g.snakes[k].dead
      {
        var s := snakes[i];
        if s.dead { continue; }
        assert g.Live(i);
        if board.At(s.Head()) == APPLE {
          snakes := snakes[i := s.WithTailRestored()];
        }
      }
    }

    method MarkHeads()
      requires Valid() && forall i :: State().Live(i) ==> board.Inside(snakes[i].Head())
      modifies board.cells
      ensures State() == MarkFirst(old(State()), |snakes|)
    {
      ghost var g := State();
      for i := 0 to |snakes|
        invariant State() == MarkFirst(g, i)
      {
        if !snakes[i].dead {
          assert g.Live(i);
          board.Set(snakes[i].Head(), snakes[i].id);
        }
      }
    }

    /** One turn: the new state is that of the rules, and the invariant of the game holds again. */
    method PlayTurn(actions: seq<Action>, ghost length: nat)
      requires Valid() && |actions| == |snakes| && Invariant(State(), length)
      modifies this, board.cells
      ensures State() == ProcessTurn(old(State()), actions) && Invariant(State(), length)
    {
      hide Steer, MoveFirst, CollideFirst, EatFirst, MarkFirst, Moving, Culled;
      ghost var g := State();
      TurnPhases(g, actions, length);
      TailsInside(g, actions, length);
      ExecuteActions(actions);
      ProcessMoves();
      CheckCollisions();
      HeadsInside(State());
      CheckApples();
      MarkHeads();
      currentTurn := currentTurn + 1;
    }

    /** The game from its start. `rounds` gives the actions that arrive for each turn, one per player. */
    method StartGame(rounds: int -> seq<Action>) returns (turns: nat, ghost deaths: seq<int>)
      requires Valid() && Playable(options) && forall t :: |rounds(t)| == options.numPlayers
      requires board.View() == EmptyBoard(options) && events == [] && currentTurn == 1
      modifies this, board.cells
      ensures (State(), deaths) == PlayFrom(SpawnSnakes(options), 1, options.maxTurns, rounds)
      ensures currentTurn == 1 + turns && (options.maxTurns >= 0 ==> turns <= options.maxTurns)
      ensures turns < options.maxTurns ==> forall i :: 0 <= i < |snakes| ==> snakes[i].dead
      ensures |SpawnSnakes(options).snakes| == options.numPlayers
      ensures State() == Turns(SpawnSnakes(options), 1, turns, rounds)
      ensures forall k :: 0 <= k < turns ==> SomeoneLives(Turns(SpawnSnakes(options), 1, k, rounds))
    {
      hide ProcessTurn, Invariant, EmptyBoard, PlayFrom, Turns, SomeoneLives, SpawnSnakes, IsGameFinished, WithDeaths,
        Grid.View;
      SpawnIsExact(options);
      SpawnsAll(options);
      SpawnAll();
      ghost var start := SpawnSnakes(options);
      ghost var game := PlayFrom(start, 1, options.maxTurns, rounds);
      turns, deaths := 0, [];
      NoDeaths(game);
      SpawnTurn(options);
      var turn := 1;
      var finished := CheckFinished();
      FinishedIs(State());
      while turn <= options.maxTurns && !finished
        invariant |snakes| == options.numPlayers && Invariant(State(), options.startingLength)
        invariant turn == turns + 1 == currentTurn && (options.maxTurns >= 0 ==> turns <= options.maxTurns)
        invariant finished <==> IsGameFinished(State())
        invariant WithDeaths(deaths, PlayFrom(State(), turn, options.maxTurns, rounds)) == game
        decreases options.maxTurns - turn
      {
        ghost var g := State();
        TurnKeepsInvariant(g, rounds(turn), options.startingLength);
        PlayMore(g, turn, options.maxTurns, rounds);
        PlayTurn(rounds(turn), options.startingLength);
        MoreDeaths(deaths, events, PlayFrom(State(), turn + 1, options.maxTurns, rounds));
        deaths := deaths + events;
        turn, turns := turn + 1, turns + 1;
        finished := CheckFinished();
        FinishedIs(State());
      }
      PlayEnds(State(), turn, options.maxTurns, rounds, deaths);
      GameWasPlayed(options, rounds, turns);
    }
  }

  lemma SpawnTurn(o: Options)
    ensures SpawnSnakes(o).turn == 1
  {
  }

  lemma PlayMore(g: Game, turn: int, maxTurns: int, rounds: int -> seq<Action>)
    requires (forall t :: |rounds(t)| == |g.snakes|) && turn <= maxTurns && !IsGameFinished(g)
    ensures var g' := ProcessTurn(g, rounds(turn));
            PlayFrom(g, turn, maxTurns, rounds) == WithDeaths(g'.events, PlayFrom(g', turn + 1, maxTurns, rounds))
  {
    hide ProcessTurn, IsGameFinished;
  }

  lemma PlayEnds(g: Game, turn: int, maxTurns: int, rounds: int -> seq<Action>, deaths: seq<int>)
    requires (forall t :: |rounds(t)| == |g.snakes|) && (turn > maxTurns || IsGameFinished(g))
    ensures WithDeaths(deaths, PlayFrom(g, turn, maxTurns, rounds)) == (g, deaths)
  {
    hide IsGameFinished;
    assert deaths + [] == deaths;
  }

  lemma SpawnedIs(o: Options, p: nat)
    ensures SpawnedSnake(o, p)
         == Snake(p, false, Grown(StartingPosition(o, p), StartingDirection(p), o.startingLength), StartingDirection(p), Point(0, 0))
  {
  }

  lemma SpawnSnakesIs(o: Options)
    ensures var snakes := SpawnSnakes(o).snakes;
            |snakes| == o.numPlayers && SpawnSnakes(o) == Game(PaintFirst(EmptyBoard(o), snakes, o.numPlayers), snakes, [], 1)
  {
  }

  lemma SpawnedInside(o: Options, p: nat)
    requires Playable(o) && p < o.numPlayers
    ensures |SpawnSnakes(o).snakes| == o.numPlayers
    ensures forall c <- SpawnSnakes(o).snakes[p].points :: c in EmptyBoard(o)
  {
    SpawnedIsWell(o, p);
  }

  lemma BoardOfOptions(o: Options, board: Grid)
    requires board.Valid() && board.View().Keys == EmptyBoard(o).Keys
    ensures forall c :: c in EmptyBoard(o) <==> board.Inside(c)
  {
    assert forall c :: c in EmptyBoard(o).Keys <==> c in board.View();
  }

  lemma ClearedNone(board: Board)
    ensures Cleared(board, []) == board
  {
  }

  lemma ClearedNext(board: Board, points: seq<Point>, k: nat)
    requires k < |points|
    ensures var b := Cleared(board, points[..k]);
            Cleared(board, points[..k + 1]) == if points[k] in b && b[points[k]] != APPLE then b[points[k] := EMPTY] else b
    ensures Cleared(board, points[..k]).Keys == board.Keys
  {
    assert points[..k + 1] == points[..k] + [points[k]];
  }

  ghost function WithDeaths(deaths: seq<int>, r: (Game, seq<int>)): (Game, seq<int>) {
    (r.0, deaths + r.1)
  }

  lemma MoreDeaths(deaths: seq<int>, more: seq<int>, r: (Game, seq<int>))
    ensures WithDeaths(deaths, WithDeaths(more, r)) == WithDeaths(deaths + more, r)
  {
    assert deaths + (more + r.1) == deaths + more + r.1;
  }

  lemma NoDeaths(r: (Game, seq<int>))
    ensures WithDeaths([], r) == r
  {
    assert [] + r.1 == r.1;
  }

  lemma TailsInside(g: Game, actions: seq<Action>, length: nat)
    requires |actions| == |g.snakes| && Invariant(g, length)
    ensures forall i :: Steer(g, actions).Live(i) ==> Steer(g, actions).snakes[i].Tail() in g.board
    ensures Steer(g, actions).board == g.board
  {
    forall i | Steer(g, actions).Live(i) ensures Steer(g, actions).snakes[i].Tail() in g.board {
      assert g.Live(i) && WellPlaced(g.snakes[i], g.board, length);
    }
  }

  lemma HeadsInside(g: Game)
    requires forall i :: g.Live(i) ==> Unscathed(g, i)
    ensures forall i :: g.Live(i) ==> g.snakes[i].Head() in g.board
  {
  }
}
