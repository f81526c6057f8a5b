/**
 * The board every search runs on: the cell encoding of `grid[y][x]`, the
 * fixed start cell, the Manhattan metric, the corner test used when a path
 * is played back, and the neighbour query in its fixed up/right/down/left
 * order.
 */
module Grid {
  import opened Wrappers

  /** Cell codes stored in `grid[y][x]`. */
  const EmptyCell := 0
  const ObstacleCell := 1
  const FoodCell := 2

  /** Side length the PathFinding object is built with. */
  const DefaultSize := 20

  datatype Coord = Coord(x: int, y: int)

  /** The fixed start cell; every search starts here. */
  const Start := Coord(0, 0)

  /** One exploration step `{from, to}` recorded in a search trace. */
  datatype Edge = Edge(from: Coord, to: Coord)

  /** `{path, searchPath}`: the path after start up to food, or None, and the trace. */
  datatype SearchResult = SearchResult(path: Option<seq<Coord>>, trace: seq<Edge>)

  /** The fields a search reads: `gridSize`, `grid` (indexed `[y][x]`) and `food`. */
  datatype Board = Board(size: nat, cells: seq<seq<int>>, food: Coord)

  predicate IsSquare(cells: seq<seq<int>>, n: nat) {
    |cells| == n && forall y :: 0 <= y < n ==> |cells[y]| == n
  }

  predicate WellFormed(b: Board) {
    IsSquare(b.cells, b.size)
  }

  predicate InBounds(n: int, c: Coord) {
    0 <= c.x < n && 0 <= c.y < n
  }

  function At(b: Board, c: Coord): int
    requires WellFormed(b) && InBounds(b.size, c)
  {
    b.cells[c.y][c.x]
  }

  /** A cell a search may step on: on the board and not an obstacle (food counts). */
  predicate Passable(b: Board, c: Coord) {
    WellFormed(b) && InBounds(b.size, c) && b.cells[c.y][c.x] != ObstacleCell
  }

  /**
   * What the map generator guarantees before any search runs: obstacles are
   * never placed on start, and food lands in bounds, off the obstacles and
   * off start, where its cell is set to the food code.
   */
  predicate ValidBoard(b: Board) {
    WellFormed(b) && InBounds(b.size, Start) && At(b, Start) != ObstacleCell &&
    InBounds(b.size, b.food) && b.food != Start && At(b, b.food) == FoodCell
  }

  /** The board's cells, as a finite set of coordinates. */
  function AllCells(n: nat): set<Coord> {
    set x: int, y: int | 0 <= x < n && 0 <= y < n :: Coord(x, y)
  }

  lemma PassableInAllCells(b: Board, c: Coord)
    requires Passable(b, c)
    ensures c in AllCells(b.size)
  {
    assert c == Coord(c.x, c.y);
  }

  /** A subset has no more members than its superset. */
  lemma SubsetCount<T>(a: set<T>, b: set<T>)
    requires a <= b
    ensures |a| <= |b|
  {
    assert b == a + (b - a);
  }

  /** The first k cells of row y. */
  function RowPrefix(y: int, k: nat): set<Coord> {
    set x | 0 <= x < k :: Coord(x, y)
  }

  lemma {:induction false} RowPrefixCount(y: int, k: nat)
    ensures |RowPrefix(y, k)| == k
  {
    if k == 0 {
      assert RowPrefix(y, 0) == {};
    } else {
      assert RowPrefix(y, k) == RowPrefix(y, k - 1) + {Coord(k - 1, y)};
      RowPrefixCount(y, k - 1);
    }
  }

  /** The cells of the first k rows of an n-wide board. */
  function FirstRows(n: nat, k: nat): set<Coord> {
    set x: int, y: int | 0 <= x < n && 0 <= y < k :: Coord(x, y)
  }

  lemma FirstRowsSplit(n: nat, k: nat)
    requires k > 0
    ensures FirstRows(n, k) == FirstRows(n, k - 1) + RowPrefix(k - 1, n)
    ensures FirstRows(n, k - 1) !! RowPrefix(k - 1, n)
  {
    var front, row := FirstRows(n, k - 1), RowPrefix(k - 1, n);
    forall c | c in FirstRows(n, k) ensures c in front + row {
      if c.y < k - 1 {
        assert c == Coord(c.x, c.y);
      } else {
        assert c == Coord(c.x, k - 1);
      }
    }
    forall c | c in front + row ensures c in FirstRows(n, k) {
      assert c == Coord(c.x, c.y);
    }
  }

  lemma {:induction false} FirstRowsCount(n: nat, k: nat)
    ensures |FirstRows(n, k)| == n * k
  {
    if k == 0 {
      assert FirstRows(n, 0) == {};
    } else {
      FirstRowsSplit(n, k);
      FirstRowsCount(n, k - 1);
      RowPrefixCount(k - 1, n);
      assert n * k == n * (k - 1) + n;
    }
  }

  /** An n-by-n board has n * n cells. */
  lemma AllCellsCount(n: nat)
    ensures |AllCells(n)| == n * n
  {
    assert AllCells(n) == FirstRows(n, n);
    FirstRowsCount(n, n);
  }

  /** Fills an n-by-n grid with the empty code, row by row. */
  method InitializeGrid(n: nat) returns (cells: seq<seq<int>>)
    ensures IsSquare(cells, n)
    ensures forall y, x :: 0 <= y < n && 0 <= x < n ==> cells[y][x] == EmptyCell
  {
    cells := [];
    var y := 0;
    while y < n
      invariant 0 <= y <= n && |cells| == y
      invariant forall j :: 0 <= j < y ==> |cells[j]| == n
      invariant forall j, i :: 0 <= j < y && 0 <= i < n ==> cells[j][i] == EmptyCell
    {
      var row: seq<int> := [];
      var x := 0;
      while x < n
        invariant 0 <= x <= n && |row| == x
        invariant forall i :: 0 <= i < x ==> row[i] == EmptyCell
      {
        row := row + [EmptyCell];
        x := x + 1;
      }
      cells := cells + [row];
      y := y + 1;
    }
  }

  function Abs(v: int): nat {
    if v < 0 then -v else v
  }

  /** `|p.x - q.x| + |p.y - q.y|`: a metric on the board. */
  function Manhattan(p: Coord, q: Coord): (d: nat)
    ensures d == 0 <==> p == q
  {
    Abs(p.x - q.x) + Abs(p.y - q.y)
  }

  lemma ManhattanTriangle(p: Coord, q: Coord, r: Coord)
    ensures Manhattan(p, r) <= Manhattan(p, q) + Manhattan(q, r)
  {
  }

  /** One move apart: the only moves on the board are the four unit steps. */
  predicate Adjacent(p: Coord, q: Coord) {
    Manhattan(p, q) == 1
  }

  /** Parity of a cell's coordinate sum; every move flips it. */
  function Parity(c: Coord): int {
    (c.x + c.y) % 2
  }

  lemma AdjacentFlipsParity(p: Coord, q: Coord)
    requires Adjacent(p, q)
    ensures Parity(p) != Parity(q)
  {
  }

  /** The move that leads from p to q. */
  function Move(p: Coord, q: Coord): Coord {
    Coord(q.x - p.x, q.y - p.y)
  }

  /**
   * The corner test of path playback: a turn happens at `current` when the
   * cells before and after it differ in both coordinates. A missing
   * neighbour (end of the path) is never a corner.
   */
  function IsCorner(prev: Option<Coord>, current: Coord, next: Option<Coord>): (r: bool)
    ensures r ==> prev.Some? && next.Some? && prev.value != next.value
  {
    if prev.None? || next.None? then false
    else prev.value.x != next.value.x && prev.value.y != next.value.y
  }

  /**
   * On a path of unit moves, a corner is exactly a change of direction that
   * is not a reversal: the second move is neither the first move nor its
   * opposite.
   */
  lemma CornerIsTurn(prev: Coord, current: Coord, next: Coord)
    requires Adjacent(prev, current) && Adjacent(current, next)
    ensures IsCorner(Some(prev), current, Some(next)) <==>
              Move(current, next) != Move(prev, current) && Move(current, next) != Move(current, prev)
  {
  }

  /** The four unit moves in their fixed order: up, right, down, left. */
  const Directions: seq<Coord> := [Coord(0, -1), Coord(1, 0), Coord(0, 1), Coord(-1, 0)]

  function Step(p: Coord, d: Coord): Coord {
    Coord(p.x + d.x, p.y + d.y)
  }

  /** The cell one move from p in the i-th direction (up, right, down, left). */
  function Toward(p: Coord, i: nat): (q: Coord)
    ensures Adjacent(p, q)
  {
    if i == 0 then Coord(p.x, p.y - 1)
    else if i == 1 then Coord(p.x + 1, p.y)
    else if i == 2 then Coord(p.x, p.y + 1)
    else Coord(p.x - 1, p.y)
  }

  /** Stepping by the i-th entry of the direction table is moving in the i-th direction. */
  lemma TowardIsStep(p: Coord, i: nat)
    requires i < |Directions|
    ensures Step(p, Directions[i]) == Toward(p, i)
  {
  }

  /** Position of the move from p to q in the up/right/down/left order. */
  function DirectionIndex(p: Coord, q: Coord): nat {
    if q == Toward(p, 0) then 0
    else if q == Toward(p, 1) then 1
    else if q == Toward(p, 2) then 2
    else 3
  }

  /** s lists cells around p in strictly increasing up/right/down/left position. */
  predicate InDirectionOrder(p: Coord, s: seq<Coord>) {
    forall i, j :: 0 <= i < j < |s| ==> DirectionIndex(p, s[i]) < DirectionIndex(p, s[j])
  }

  function Keep(b: Board, q: Coord): seq<Coord> {
    if Passable(b, q) then [q] else []
  }

  /** The passable cells among the first k directions from p, in order. */
  function NeighborsUpTo(b: Board, p: Coord, k: nat): (r: seq<Coord>)
    requires k <= |Directions|
    ensures |r| <= k
    ensures forall q {:trigger q in r} :: q in r ==> Passable(b, q) && Adjacent(p, q)
  {
    if k == 0 then [] else NeighborsUpTo(b, p, k - 1) + Keep(b, Toward(p, k - 1))
  }

  /**
   * The neighbour query: at most four cells, each passable and one move
   * away (`NeighborsComplete` and `NeighborsInOrder` give the rest).
   */
  function Neighbors(b: Board, p: Coord): (r: seq<Coord>)
    ensures |r| <= 4
    ensures forall q {:trigger q in r} :: q in r ==> Passable(b, q) && Adjacent(p, q)
  {
    NeighborsUpTo(b, p, |Directions|)
  }

  /** The four candidates of the neighbour query, in order. */
  lemma NeighborsUnfold(b: Board, p: Coord)
    ensures Neighbors(b, p) == Keep(b, Toward(p, 0)) + Keep(b, Toward(p, 1)) + Keep(b, Toward(p, 2)) + Keep(b, Toward(p, 3))
  {
    assert NeighborsUpTo(b, p, 1) == Keep(b, Toward(p, 0));
    assert NeighborsUpTo(b, p, 2) == NeighborsUpTo(b, p, 1) + Keep(b, Toward(p, 1));
    assert NeighborsUpTo(b, p, 3) == NeighborsUpTo(b, p, 2) + Keep(b, Toward(p, 2));
    assert NeighborsUpTo(b, p, 4) == NeighborsUpTo(b, p, 3) + Keep(b, Toward(p, 3));
  }

  /** The neighbours come in up/right/down/left order. */
  lemma NeighborsInOrder(b: Board, p: Coord)
    ensures InDirectionOrder(p, Neighbors(b, p))
  {
    NeighborsUnfold(b, p);
    assert DirectionIndex(p, Toward(p, 0)) == 0 && DirectionIndex(p, Toward(p, 1)) == 1;
    assert DirectionIndex(p, Toward(p, 2)) == 2 && DirectionIndex(p, Toward(p, 3)) == 3;
  }

  /** Every passable cell one move away is listed (the converse of the contract above). */
  lemma NeighborsComplete(b: Board, p: Coord, q: Coord)
    requires Passable(b, q) && Adjacent(p, q)
    ensures q in Neighbors(b, p)
  {
    NeighborsUnfold(b, p);
    assert q == Toward(p, 0) || q == Toward(p, 1) || q == Toward(p, 2) || q == Toward(p, 3);
  }

  /** `getNeighbors`: tries the four directions in order and keeps the passable ones. */
  method GetNeighbors(b: Board, p: Coord) returns (r: seq<Coord>)
    requires WellFormed(b)
    ensures r == Neighbors(b, p)
  {
    r := [];
    for i := 0 to |Directions|
      invariant r == NeighborsUpTo(b, p, i)
    {
      var next := Step(p, Directions[i]);
      TowardIsStep(p, i);
      assert NeighborsUpTo(b, p, i + 1) == r + Keep(b, next);
      if InBounds(b.size, next) && b.cells[next.y][next.x] != ObstacleCell {
        r := r + [next];
      }
    }
  }
}
