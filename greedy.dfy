/**
 * `findPathGreedy`: walk from start, always stepping to the unvisited
 * neighbour closest to food; at a dead end take the last cell off the path
 * and try again from it. The walk never revisits a cell.
 *
 * At a dead end the loop takes the last cell off the path and stands on it.
 * Right after a step that cell is the one the walk already stands on, so
 * the first pop only shortens the path; on the next turn, still at the dead
 * end, the loop pops the cell before and moves there, and that cell is no
 * longer on the path. Backing up one cell thus takes two turns, and a cell
 * pushed afterwards neighbours a cell that is not on the path, so the
 * returned path need not be a route. The contracts below claim only what
 * holds of the code as written.
 */
module GreedySearch {
  import opened Wrappers
  import opened Grid
  import opened Routes
  import opened Traces
  import opened Frontier

  /**
   * The position of the neighbour that heads `neighborDistances` after the
   * stable sort by distance to food: the first of the closest.
   */
  function FirstClosest(ns: seq<Coord>, food: Coord): (i: nat)
    requires |ns| > 0
    ensures i < |ns|
    ensures forall j :: 0 <= j < |ns| ==> Manhattan(ns[i], food) <= Manhattan(ns[j], food)
    ensures forall j :: 0 <= j < i ==> Manhattan(ns[i], food) < Manhattan(ns[j], food)
    decreases |ns|
  {
    if |ns| == 1 then 0
    else
      var front := ns[..|ns| - 1];
      var k := FirstClosest(front, food);
      assert forall j :: 0 <= j < |front| ==> front[j] == ns[j];
      if Manhattan(Last(ns), food) < Manhattan(ns[k], food) then |ns| - 1 else k
  }

  /**
   * One greedy step, stated on the board: the cell chosen from c is a
   * passable, unvisited cell one move away; no such cell is closer to food;
   * and every such cell earlier in up/right/down/left order is strictly
   * farther (ties go to the earlier direction).
   */
  lemma GreedyChoice(b: Board, c: Coord, visited: set<Coord>)
    requires |Without(Neighbors(b, c), visited)| > 0
    ensures var ns := Without(Neighbors(b, c), visited);
            var q := ns[FirstClosest(ns, b.food)];
            Passable(b, q) && Adjacent(c, q) && q !in visited &&
            (forall r :: Passable(b, r) && Adjacent(c, r) && r !in visited ==>
               Manhattan(q, b.food) <= Manhattan(r, b.food) &&
               (DirectionIndex(c, r) < DirectionIndex(c, q) ==> Manhattan(q, b.food) < Manhattan(r, b.food)))
  {
    var ns := Without(Neighbors(b, c), visited);
    var i := FirstClosest(ns, b.food);
    assert ns[i] in ns;
    NeighborsInOrder(b, c);
    WithoutKeepsOrder(c, Neighbors(b, c), visited);
    forall r | Passable(b, r) && Adjacent(c, r) && r !in visited
      ensures Manhattan(ns[i], b.food) <= Manhattan(r, b.food)
      ensures DirectionIndex(c, r) < DirectionIndex(c, ns[i]) ==> Manhattan(ns[i], b.food) < Manhattan(r, b.food)
    {
      NeighborsComplete(b, c, r);
      var j := IndexIn(ns, r);
      EarlierDirectionEarlierIndex(c, ns, i, j);
    }
  }

  function IndexIn(s: seq<Coord>, r: Coord): (j: nat)
    requires r in s
    ensures j < |s| && s[j] == r
  {
    if s[0] == r then 0 else 1 + IndexIn(s[1..], r)
  }

  lemma EarlierDirectionEarlierIndex(c: Coord, s: seq<Coord>, i: nat, j: nat)
    requires InDirectionOrder(c, s) && i < |s| && j < |s|
    ensures DirectionIndex(c, s[j]) < DirectionIndex(c, s[i]) ==> j < i
  {
  }

  /** The state of the greedy loop: `path`, `searchPath`, `current` and `visited`. */
  datatype Walker = Walker(path: seq<Coord>, trace: seq<Edge>, current: Coord, visited: set<Coord>)

  /**
   * What holds at the top of the greedy loop: `WalkShape` about the path and
   * the visited cells, `WalkTrace` about the recorded edges.
   */
  ghost predicate GreedyInv(b: Board, w: Walker) {
    WalkShape(b, w.path, w.current, w.visited) && WalkTrace(b, w.trace, w.visited)
  }

  /**
   * Start and the current cell are visited; visited cells are passable cells
   * of the board; the path holds distinct visited cells other than start,
   * fewer than the visited cells; once food is visited the walk stands on it
   * and it ends the path.
   */
  ghost predicate WalkShape(b: Board, path: seq<Coord>, current: Coord, visited: set<Coord>) {
    Start in visited && current in visited && visited <= AllCells(b.size) &&
    (forall v :: v in visited ==> Passable(b, v)) &&
    (forall i :: 0 <= i < |path| ==> path[i] in visited && path[i] != Start) &&
    NoDup(path) && |path| < |visited| &&
    (b.food in visited ==> path != [] && Last(path) == b.food && current == b.food)
  }

  /**
   * Every recorded edge leads from a visited cell to one of its neighbours;
   * every visited cell but start has been recorded; food is recorded only
   * once it is visited.
   */
  ghost predicate WalkTrace(b: Board, trace: seq<Edge>, visited: set<Coord>) {
    (forall e :: e in trace ==> e.from in visited && e.to in Neighbors(b, e.from)) &&
    (forall v :: v in visited && v != Start ==> v in Targets(trace)) &&
    (b.food in Targets(trace) ==> b.food in visited)
  }

  /** Under the invariant, food has been recorded exactly when the walk stands on it. */
  lemma FoodRecordedIffReached(b: Board, w: Walker)
    requires GreedyInv(b, w) && b.food != Start
    ensures b.food in Targets(w.trace) <==> w.current == b.food
  {
  }

  /**
   * A dead end that is not food, with cells left on the path: the edges
   * recorded are none, the last cell comes off the path and becomes current.
   */
  lemma GreedyBacktrack(b: Board, w: Walker, ns: seq<Coord>)
    requires GreedyInv(b, w)
    requires w.current != b.food && |ns| == 0 && |w.path| > 0
    ensures GreedyInv(b, Walker(w.path[..|w.path| - 1], w.trace + EdgesFrom(w.current, ns), Last(w.path), w.visited))
  {
    BacktrackShape(b, w.path, w.current, w.visited);
    assert w.trace + EdgesFrom(w.current, ns) == w.trace;
  }

  /** Taking the last cell off the path and standing on it keeps the shape of the walk. */
  lemma BacktrackShape(b: Board, path: seq<Coord>, current: Coord, visited: set<Coord>)
    requires WalkShape(b, path, current, visited)
    requires current != b.food && |path| > 0
    ensures WalkShape(b, path[..|path| - 1], Last(path), visited)
  {
    var front := path[..|path| - 1];
    assert forall i :: 0 <= i < |front| ==> front[i] == path[i];
  }

  /** The path is shorter than the board has cells, and the visited cells are no more than it has. */
  lemma WalkFits(b: Board, w: Walker)
    requires GreedyInv(b, w)
    ensures |w.path| < b.size * b.size && |w.visited| <= b.size * b.size
  {
    SubsetCount(w.visited, AllCells(b.size));
    AllCellsCount(b.size);
  }

  /** When food is among the candidates, it is the first of the closest. */
  lemma FoodIsClosest(ns: seq<Coord>, food: Coord)
    requires food in ns
    ensures ns[FirstClosest(ns, food)] == food
  {
    var j :| 0 <= j < |ns| && ns[j] == food;
    assert Manhattan(ns[FirstClosest(ns, food)], food) <= Manhattan(ns[j], food);
  }

  /** Stepping to an unvisited neighbour keeps the shape of the walk. */
  lemma AdvanceShape(b: Board, path: seq<Coord>, current: Coord, visited: set<Coord>, best: Coord)
    requires WalkShape(b, path, current, visited)
    requires current != b.food && Passable(b, best) && best !in visited
    ensures WalkShape(b, path + [best], best, visited + {best})
  {
    PassableInAllCells(b, best);
    var path' := path + [best];
    assert forall i :: 0 <= i < |path| ==> path'[i] == path[i];
  }

  /**
   * Recording an edge from the current cell to each of its unvisited
   * neighbours and visiting the chosen one keeps the trace facts, provided
   * food is the one chosen whenever it is among them.
   */
  lemma AdvanceTrace(b: Board, trace: seq<Edge>, current: Coord, visited: set<Coord>, ns: seq<Coord>, best: Coord)
    requires WalkTrace(b, trace, visited) && current in visited && b.food !in visited
    requires forall x :: x in ns ==> x in Neighbors(b, current)
    requires best in ns && (b.food in ns ==> best == b.food)
    ensures WalkTrace(b, trace + EdgesFrom(current, ns), visited + {best})
  {
    TargetsEdgesFrom(trace, current, ns);
  }

  /**
   * A turn that records an edge to each unvisited neighbour and steps to
   * the first of the closest keeps the invariant.
   */
  lemma GreedyAdvance(b: Board, w: Walker, ns: seq<Coord>, best: Coord)
    requires GreedyInv(b, w)
    requires w.current != b.food && ns == Without(Neighbors(b, w.current), w.visited) && |ns| > 0
    requires best == ns[FirstClosest(ns, b.food)]
    ensures best in Neighbors(b, w.current) && best !in w.visited
    ensures GreedyInv(b, Walker(w.path + [best], w.trace + EdgesFrom(w.current, ns), best, w.visited + {best}))
  {
    assert best in ns;
    if b.food in ns {
      FoodIsClosest(ns, b.food);
    }
    AdvanceShape(b, w.path, w.current, w.visited, best);
    AdvanceTrace(b, w.trace, w.current, w.visited, ns, best);
  }

  /**
   * The greedy loop run to its end from w: the walker it stops at, one turn
   * at a time exactly as the loop takes them.
   */
  function GreedyWalk(b: Board, w: Walker): Walker
    requires GreedyInv(b, w)
    decreases AllCells(b.size) - w.visited, |w.path|
  {
    if w.current == b.food then w
    else
      var ns := Without(Neighbors(b, w.current), w.visited);
      var trace := w.trace + EdgesFrom(w.current, ns);
      if |ns| == 0 then
        if |w.path| == 0 then Walker(w.path, trace, w.current, w.visited)
        else
          GreedyBacktrack(b, w, ns);
          GreedyWalk(b, Walker(w.path[..|w.path| - 1], trace, Last(w.path), w.visited))
      else
        var best := ns[FirstClosest(ns, b.food)];
        GreedyAdvance(b, w, ns, best);
        GreedyWalk(b, Walker(w.path + [best], trace, best, w.visited + {best}))
  }

  /**
   * The walk keeps the invariant to its end, and it stops only on food or at
   * a dead end with nothing left on the path.
   */
  lemma {:induction false} GreedyWalkEnds(b: Board, w: Walker)
    requires GreedyInv(b, w)
    ensures var end := GreedyWalk(b, w);
            GreedyInv(b, end) &&
            (end.current == b.food || (end.path == [] && Without(Neighbors(b, end.current), end.visited) == []))
    decreases AllCells(b.size) - w.visited, |w.path|
  {
    if w.current != b.food {
      var ns := Without(Neighbors(b, w.current), w.visited);
      var trace := w.trace + EdgesFrom(w.current, ns);
      if |ns| == 0 {
        if |w.path| == 0 {
          assert trace == w.trace;
        } else {
          GreedyBacktrack(b, w, ns);
          GreedyWalkEnds(b, Walker(w.path[..|w.path| - 1], trace, Last(w.path), w.visited));
        }
      } else {
        var best := ns[FirstClosest(ns, b.food)];
        GreedyAdvance(b, w, ns, best);
        GreedyWalkEnds(b, Walker(w.path + [best], trace, best, w.visited + {best}));
      }
    }
  }

  /** The walker at the top of the first turn. */
  function GreedyStart(b: Board): (w: Walker)
    requires ValidBoard(b)
    ensures GreedyInv(b, w) && w.path == [] && w.trace == [] && w.current == Start
  {
    PassableInAllCells(b, Start);
    Walker([], [], Start, {Start})
  }

  /** What `findPathGreedy` returns: the path when the walk ends on food, and null otherwise, with the trace either way. */
  function GreedyResult(b: Board): SearchResult
    requires ValidBoard(b)
  {
    var end := GreedyWalk(b, GreedyStart(b));
    if end.current == b.food then SearchResult(Some(end.path), end.trace) else SearchResult(None, end.trace)
  }

  /**
   * A path comes back exactly when the trace reaches food. It then ends at
   * food, holds no cell twice, never holds start, steps only on passable
   * cells and is shorter than the board has cells. Every trace edge leads
   * to a neighbour.
   */
  lemma GreedyResultSound(b: Board)
    requires ValidBoard(b)
    ensures var res := GreedyResult(b);
            (res.path.Some? <==> b.food in Targets(res.trace)) &&
            (res.path.Some? ==>
               var p := res.path.value;
               p != [] && Last(p) == b.food && NoDup(p) && Start !in p &&
               (forall c :: c in p ==> Passable(b, c)) && |p| < b.size * b.size) &&
            (forall e :: e in res.trace ==> e.to in Neighbors(b, e.from))
  {
    var end := GreedyWalk(b, GreedyStart(b));
    GreedyWalkEnds(b, GreedyStart(b));
    FoodRecordedIffReached(b, end);
    WalkFits(b, end);
  }

  /** w satisfies the invariant and the walk from w ends at `end`. */
  ghost predicate OnWalk(b: Board, w: Walker, end: Walker) {
    GreedyInv(b, w) && GreedyWalk(b, w) == end
  }

  /** Standing on food, the walk is over. */
  lemma WalkDone(b: Board, w: Walker, end: Walker)
    requires OnWalk(b, w, end) && w.current == b.food
    ensures end == w
  {
  }

  /** A dead end at the first cell of the walk ends it, with no edge recorded. */
  lemma WalkStops(b: Board, w: Walker, ns: seq<Coord>, end: Walker)
    requires OnWalk(b, w, end)
    requires w.current != b.food && ns == Without(Neighbors(b, w.current), w.visited) && |ns| == 0 && |w.path| == 0
    ensures end == Walker(w.path, w.trace + EdgesFrom(w.current, ns), w.current, w.visited)
  {
  }

  /** A dead end with cells on the path: the walk goes on from the popped cell. */
  lemma WalkBacktracks(b: Board, w: Walker, ns: seq<Coord>, end: Walker)
    requires OnWalk(b, w, end)
    requires w.current != b.food && ns == Without(Neighbors(b, w.current), w.visited) && |ns| == 0 && |w.path| > 0
    ensures OnWalk(b, Walker(w.path[..|w.path| - 1], w.trace + EdgesFrom(w.current, ns), Last(w.path), w.visited), end)
  {
    GreedyBacktrack(b, w, ns);
  }

  /**
   * Otherwise the walk goes on from the first of the closest unvisited
   * neighbours, a neighbour not visited before; the path stays shorter than
   * the board has cells, and some cell of the board is still unvisited.
   */
  lemma WalkAdvances(b: Board, w: Walker, ns: seq<Coord>, best: Coord, end: Walker)
    requires OnWalk(b, w, end)
    requires w.current != b.food && ns == Without(Neighbors(b, w.current), w.visited) && |ns| > 0
    requires best == ns[FirstClosest(ns, b.food)]
    ensures best in Neighbors(b, w.current) && best !in w.visited
    ensures |w.path| + 1 < b.size * b.size && |w.visited| < b.size * b.size
    ensures OnWalk(b, Walker(w.path + [best], w.trace + EdgesFrom(w.current, ns), best, w.visited + {best}), end)
  {
    GreedyAdvance(b, w, ns, best);
    WalkFits(b, Walker(w.path + [best], w.trace + EdgesFrom(w.current, ns), best, w.visited + {best}));
  }

  /**
   * `findPathGreedy`: the loop takes the turns `GreedyWalk` describes, so the
   * result is `GreedyResult`, with everything proved of it. The
   * `gridSize * gridSize` guard never fires.
   */
  method Greedy(b: Board) returns (res: SearchResult)
    requires ValidBoard(b)
    ensures res == GreedyResult(b)
  {
    var path: seq<Coord> := [];
    var trace: seq<Edge> := [];
    var current := Start;
    var visited := {Start};
    ghost var end := GreedyWalk(b, GreedyStart(b));
    while current != b.food
      invariant OnWalk(b, Walker(path, trace, current, visited), end)
      decreases b.size * b.size - |visited|, |path|
    {
      ghost var w := Walker(path, trace, current, visited);
      var neighbors := GetNeighbors(b, current);
      neighbors := Without(neighbors, visited);
      trace := AppendEdges(trace, current, neighbors);
      if |neighbors| == 0 {
        if |path| == 0 {
          WalkStops(b, w, neighbors, end);
          return SearchResult(None, trace);
        }
        WalkBacktracks(b, w, neighbors, end);
        current := Last(path);
        path := path[..|path| - 1];
        continue;
      }
      var best := neighbors[FirstClosest(neighbors, b.food)];
      WalkAdvances(b, w, neighbors, best, end);
      path := path + [best];
      current := best;
      visited := visited + {current};
      if |path| > b.size * b.size {
        assert false;
        return SearchResult(None, trace);
      }
    }
    WalkDone(b, Walker(path, trace, current, visited), end);
    return SearchResult(Some(path), trace);
  }
}
