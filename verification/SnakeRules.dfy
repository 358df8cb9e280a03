/** The turn engine of the snake game as functions on values: what one turn does to the board and the snakes. */
module SnakeRules {

  datatype Point = Point(x: int, y: int) {
    function Plus(d: Point): Point {
      Point(x + d.x, y + d.y)
    }

    function RotatedLeft(): Point {
      Point(-y, x)
    }

    function RotatedRight(): Point {
      Point(y, -x)
    }

    predicate IsUnit() {
      (x == 0 && (y == 1 || y == -1)) || (y == 0 && (x == 1 || x == -1))
    }
  }

  /** Left is a quarter turn from the first axis towards the second, right is the way back. */
  lemma RotationsTurn(d: Point)
    ensures d.RotatedLeft().RotatedRight() == d && d.RotatedRight().RotatedLeft() == d
    ensures d.x == 0 ==> d.RotatedLeft() == Point(-d.y, 0)
    ensures d.y == 0 ==> d.RotatedLeft() == Point(0, d.x)
    ensures d.RotatedLeft().RotatedLeft().Plus(d) == Point(0, 0)
  {
  }

  datatype Action = Left | Right | Forward

  const EMPTY: int := -1
  const APPLE: int := -2

  /** A snake always has a head. */
  type Body = b: seq<Point> | b != [] witness [Point(0, 0)]

  /** Points are listed from head to tail. */
  datatype Snake = Snake(id: int, dead: bool, points: Body, direction: Point, recentlyRemoved: Point) {
    function Head(): Point {
      points[0]
    }

    function Tail(): Point {
      points[|points| - 1]
    }

    /** Everything but the head. */
    function Rest(): seq<Point> {
      points[1..]
    }

    function Steered(action: Action): Snake {
      if dead then this
      else match action
        case Left => this.(direction := direction.RotatedLeft())
        case Right => this.(direction := direction.RotatedRight())
        case Forward => this
    }

    /** One step: a new head in front, and the tail shortened. */
    function Moved(): Snake {
      this.(points := [Head().Plus(direction)] + points[..|points| - 1], recentlyRemoved := Tail())
    }

    function WithTailRestored(): Snake {
      this.(points := points + [recentlyRemoved])
    }
  }

  /** Restoring the tail right after a step undoes the shortening, so the snake has grown by its new head. */
  lemma RestoredTailGrows(s: Snake)
    ensures s.Moved().WithTailRestored().points == [s.Head().Plus(s.direction)] + s.points
    ensures s.Moved().Head() == s.Head().Plus(s.direction) && |s.Moved().points| == |s.points|
  {
    assert s.points == s.points[..|s.points| - 1] + [s.Tail()];
  }

  /** The cells inside the board with the id of the snake they show, EMPTY or APPLE. */
  type Board = map<Point, int>

  datatype Game = Game(board: Board, snakes: seq<Snake>, events: seq<int>, turn: int) {
    predicate Live(i: int) {
      0 <= i < |snakes| && !snakes[i].dead
    }
  }

  function SetCell(board: Board, p: Point, v: int): Board {
    if p in board then board[p := v] else board
  }

  /** Empties the cells of a dead snake; apples stay. */
  function Cleared(board: Board, points: seq<Point>): Board {
    map p | p in board :: if p in points && board[p] != APPLE then EMPTY else board[p]
  }

  // ----- The phases of a turn -----

  function Steer(g: Game, actions: seq<Action>): Game
    requires |actions| == |g.snakes|
  {
    g.(snakes := seq(|g.snakes|, i requires 0 <= i < |g.snakes| => g.snakes[i].Steered(actions[i])), events := [])
  }

  function MoveOne(g: Game, i: nat): Game
    requires i < |g.snakes|
  {
    var s := g.snakes[i];
    if s.dead then g
    else g.(board := SetCell(g.board, s.Tail(), EMPTY), snakes := g.snakes[i := s.Moved()])
  }

  function MoveFirst(g: Game, n: nat): (g': Game)
    requires n <= |g.snakes|
    ensures |g'.snakes| == |g.snakes|
  {
    if n == 0 then g else MoveOne(MoveFirst(g, n - 1), n - 1)
  }

  function Kill(g: Game, i: nat): Game
    requires i < |g.snakes|
  {
    g.(snakes := g.snakes[i := g.snakes[i].(dead := true)],
       board := Cleared(g.board, g.snakes[i].points),
       events := g.events + [i])
  }

  function KillAll(g: Game, victims: seq<nat>): (g': Game)
    requires forall j :: 0 <= j < |victims| ==> victims[j] < |g.snakes|
    ensures |g'.snakes| == |g.snakes|
    decreases |victims|
  {
    if victims == [] then g else KillAll(Kill(g, victims[0]), victims[1..])
  }

  /** The live snakes among the first `n` with this head, in order. */
  function SameHeads(snakes: seq<Snake>, head: Point, n: nat): (same: seq<nat>)
    requires n <= |snakes|
    ensures forall j :: 0 <= j < |same| ==> same[j] < n
  {
    if n == 0 then []
    else
      SameHeads(snakes, head, n - 1)
      + if !snakes[n - 1].dead && snakes[n - 1].Head() == head then [n - 1] else []
  }

  lemma {:induction false} SameHeadsAt(snakes: seq<Snake>, head: Point, n: nat, j: nat)
    requires n <= |snakes| && j < |SameHeads(snakes, head, n)|
    ensures var h := SameHeads(snakes, head, n)[j]; h < n && !snakes[h].dead && snakes[h].Head() == head
    ensures forall k :: 0 <= k < j ==> SameHeads(snakes, head, n)[k] < SameHeads(snakes, head, n)[j]
    decreases n
  {
    if j < |SameHeads(snakes, head, n - 1)| { SameHeadsAt(snakes, head, n - 1, j); }
  }

  lemma {:induction false} SameHeadsHas(snakes: seq<Snake>, head: Point, n: nat, h: nat)
    requires h < n <= |snakes| && !snakes[h].dead && snakes[h].Head() == head
    ensures h in SameHeads(snakes, head, n)
    decreases n
  {
    if h < n - 1 { SameHeadsHas(snakes, head, n - 1, h); }
  }

  /** Exactly the live snakes with that head are listed, in order. */
  lemma SameHeadsAre(snakes: seq<Snake>, head: Point, n: nat)
    requires n <= |snakes|
    ensures var same := SameHeads(snakes, head, n);
            && (forall j :: 0 <= j < |same| ==> same[j] < n && !snakes[same[j]].dead && snakes[same[j]].Head() == head)
            && (forall h :: 0 <= h < n && !snakes[h].dead && snakes[h].Head() == head ==> h in same)
            && (forall j, k :: 0 <= j < k < |same| ==> same[j] < same[k])
  {
    hide SameHeads;
    var same := SameHeads(snakes, head, n);
    forall j | 0 <= j < |same|
      ensures same[j] < n && !snakes[same[j]].dead && snakes[same[j]].Head() == head
      ensures forall k :: 0 <= k < j ==> same[k] < same[j]
    {
      SameHeadsAt(snakes, head, n, j);
    }
    forall h | 0 <= h < n && !snakes[h].dead && snakes[h].Head() == head ensures h in same {
      SameHeadsHas(snakes, head, n, h);
    }
  }

  /** The head is off the board or on a cell that is neither empty nor an apple. */
  predicate Crashed(g: Game, i: nat)
    requires i < |g.snakes|
  {
    var head := g.snakes[i].Head();
    head !in g.board || (g.board[head] != APPLE && g.board[head] != EMPTY)
  }

  function CollideOne(g: Game, i: nat): (g': Game)
    requires i < |g.snakes|
    ensures |g'.snakes| == |g.snakes|
  {
    if g.snakes[i].dead then g
    else
      var g1 := if Crashed(g, i) then Kill(g, i) else g;
      var same := SameHeads(g1.snakes, g.snakes[i].Head(), |g1.snakes|);
      if |same| > 1 then KillAll(g1, same) else g1
  }

  function CollideFirst(g: Game, n: nat): (g': Game)
    requires n <= |g.snakes|
    ensures |g'.snakes| == |g.snakes|
  {
    if n == 0 then g else CollideOne(CollideFirst(g, n - 1), n - 1)
  }

  predicate EatsApple(g: Game, i: nat)
    requires i < |g.snakes|
  {
    !g.snakes[i].dead && g.snakes[i].Head() in g.board && g.board[g.snakes[i].Head()] == APPLE
  }

  function EatFirst(g: Game, n: nat): (g': Game)
    requires n <= |g.snakes|
    ensures |g'.snakes| == |g.snakes|
  {
    if n == 0 then g
    else
      var g' := EatFirst(g, n - 1);
      if EatsApple(g', n - 1) then g'.(snakes := g'.snakes[n - 1 := g'.snakes[n - 1].WithTailRestored()]) else g'
  }

  function MarkFirst(g: Game, n: nat): (g': Game)
    requires n <= |g.snakes|
    ensures g'.snakes == g.snakes && g'.events == g.events && g'.turn == g.turn
  {
    if n == 0 then g
    else
      var g' := MarkFirst(g, n - 1);
      var s := g'.snakes[n - 1];
      if s.dead then g' else g'.(board := SetCell(g'.board, s.Head(), s.id))
  }

  function ProcessTurn(g: Game, actions: seq<Action>): (g': Game)
    requires |actions| == |g.snakes|
    ensures |g'.snakes| == |g.snakes|
  {
    var n := |g.snakes|;
    var marked := MarkFirst(EatFirst(CollideFirst(MoveFirst(Steer(g, actions), n), n), n), n);
    marked.(turn := marked.turn + 1)
  }

  predicate IsGameFinished(g: Game) {
    forall i :: 0 <= i < |g.snakes| ==> g.snakes[i].dead
  }

  // ----- Setting up -----

  datatype Options = Options(numPlayers: nat, x: int, y: int, startingLength: int, maxTurns: int)

  function StartingPosition(o: Options, p: nat): Point {
    if p == 0 then Point(1, 1)
    else if p == 1 then Point(o.x - 1, o.y - 1)
    else if p == 2 then Point(o.x - 1, 1)
    else Point(1, o.y - 1)
  }

  function StartingDirection(p: nat): Point {
    if p == 0 then Point(1, 0) else if p == 1 then Point(-1, 0) else if p == 2 then Point(0, 1) else Point(0, -1)
  }

  /** A straight body grown from `start` by putting heads in front. */
  function Grown(start: Point, direction: Point, length: int): Body
    decreases length
  {
    if length <= 1 then [start]
    else
      var b := Grown(start, direction, length - 1);
      [b[0].Plus(direction)] + b
  }

  function SpawnedSnake(o: Options, p: nat): Snake {
    Snake(p, false, Grown(StartingPosition(o, p), StartingDirection(p), o.startingLength), StartingDirection(p), Point(0, 0))
  }

  function EmptyBoard(o: Options): Board {
    map i: int, j: int | 0 <= i < o.x && 0 <= j < o.y :: Point(i, j) := EMPTY
  }

  function Painted(board: Board, points: seq<Point>, id: int): (b: Board)
    ensures b.Keys == board.Keys
  {
    map p | p in board :: if p in points then id else board[p]
  }

  function PaintFirst(board: Board, snakes: seq<Snake>, n: nat): (b: Board)
    requires n <= |snakes|
    ensures b.Keys == board.Keys
  {
    if n == 0 then board else Painted(PaintFirst(board, snakes, n - 1), snakes[n - 1].points, snakes[n - 1].id)
  }

  function SpawnSnakes(o: Options): Game {
    var snakes := seq(o.numPlayers, p requires 0 <= p => SpawnedSnake(o, p));
    Game(PaintFirst(EmptyBoard(o), snakes, o.numPlayers), snakes, [], 1)
  }

  // ----- A whole game -----

  /** The game after at most `turns` turns; it stops as soon as all snakes are dead. */
  function PlayFrom(g: Game, turn: int, maxTurns: int, rounds: int -> seq<Action>): (r: (Game, seq<int>))
    requires forall t :: |rounds(t)| == |g.snakes|
    ensures |r.0.snakes| == |g.snakes|
    decreases maxTurns - turn
  {
    if turn > maxTurns || IsGameFinished(g) then (g, [])
    else
      var g' := ProcessTurn(g, rounds(turn));
      var (last, events) := PlayFrom(g', turn + 1, maxTurns, rounds);
      (last, g'.events + events)
  }
}
