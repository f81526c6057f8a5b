/**
 * Routes from start over passable cells, reachability, regions closed under
 * the neighbour relation, and the path rebuilding that DFS, BFS and Dijkstra
 * share: walking a parent map back from food to start.
 */
module Routes {
  import opened Wrappers
  import opened Grid

  function Last<T>(s: seq<T>): T
    requires |s| > 0
  {
    s[|s| - 1]
  }

  predicate NoDup<T(==)>(s: seq<T>) {
    forall i, j :: 0 <= i < j < |s| ==> s[i] != s[j]
  }

  /** The cells listed in s. */
  function CellsOf(s: seq<Coord>): set<Coord> {
    set c | c in s
  }

  /**
   * Appending a cell not yet closed to the duplicate-free list of closed
   * cells keeps it duplicate-free and listing exactly the closed cells.
   */
  lemma CloseInOrder(order: seq<Coord>, closed: set<Coord>, x: Coord)
    requires NoDup(order) && closed == CellsOf(order) && x !in closed
    ensures NoDup(order + [x]) && closed + {x} == CellsOf(order + [x])
  {
    var t := order + [x];
    assert forall i :: 0 <= i < |order| ==> t[i] == order[i];
  }

  /**
   * A list without duplicates with its i-th element taken out and the order
   * of the rest kept: `splice(i, 1)` on the A* open list, `delete` on the
   * insertion-ordered unvisited set of Dijkstra.
   */
  function RemoveAt<T(==, !new)>(s: seq<T>, i: nat): (r: seq<T>)
    requires i < |s| && NoDup(s)
    ensures |r| == |s| - 1 && NoDup(r) && forall c :: c in r <==> c in s && c != s[i]
    ensures forall j :: 0 <= j < |r| ==> r[j] == if j < i then s[j] else s[j + 1]
  {
    var r := s[..i] + s[i + 1..];
    assert forall j :: 0 <= j < |r| ==> r[j] == if j < i then s[j] else s[j + 1];
    assert forall c :: c in s && c != s[i] ==> c in r by {
      forall c | c in s && c != s[i] ensures c in r {
        var j :| 0 <= j < |s| && s[j] == c;
        if j < i {
          assert r[j] == c;
        } else {
          assert r[j - 1] == c;
        }
      }
    }
    r
  }

  /**
   * A route in the shape every search returns: the cells after start, the
   * first one move from start, each next one move from the previous, all
   * passable.
   */
  predicate IsRoute(b: Board, r: seq<Coord>) {
    |r| > 0 && Adjacent(Start, r[0]) &&
    (forall i :: 0 <= i < |r| ==> Passable(b, r[i])) &&
    (forall i :: 0 < i < |r| ==> Adjacent(r[i - 1], r[i]))
  }

  /** c can be reached from start by moves over non-obstacle cells. */
  ghost predicate Reachable(b: Board, c: Coord) {
    exists r :: IsRoute(b, r) && Last(r) == c
  }

  /** Every neighbour of a member of S is in S. */
  ghost predicate ClosedUnder(b: Board, S: set<Coord>) {
    forall v, w :: v in S && w in Neighbors(b, v) ==> w in S
  }

  lemma RouteFront(b: Board, r: seq<Coord>)
    requires IsRoute(b, r) && |r| > 1
    ensures IsRoute(b, r[..|r| - 1])
  {
  }

  /** A region that holds start and is closed under the neighbour relation holds every route. */
  lemma {:induction false} ClosedRegionHoldsRoute(b: Board, S: set<Coord>, r: seq<Coord>)
    requires Start in S && ClosedUnder(b, S) && IsRoute(b, r)
    ensures forall i :: 0 <= i < |r| ==> r[i] in S
  {
    if |r| == 1 {
      NeighborsComplete(b, Start, r[0]);
    } else {
      var front := r[..|r| - 1];
      RouteFront(b, r);
      ClosedRegionHoldsRoute(b, S, front);
      var p := r[|r| - 2];
      assert p == front[|front| - 1];
      NeighborsComplete(b, p, Last(r));
      forall i | 0 <= i < |r| - 1 ensures r[i] in S {
        assert r[i] == front[i];
      }
    }
  }

  /** The end of a route is reachable. */
  lemma RouteReachable(b: Board, r: seq<Coord>)
    requires IsRoute(b, r)
    ensures Reachable(b, Last(r))
  {
  }

  /** What a search that exhausts its frontier relies on to report "no path". */
  lemma OutsideClosedRegionUnreachable(b: Board, S: set<Coord>, c: Coord)
    requires Start in S && ClosedUnder(b, S) && c !in S
    ensures !Reachable(b, c)
  {
    if Reachable(b, c) {
      var r :| IsRoute(b, r) && Last(r) == c;
      ClosedRegionHoldsRoute(b, S, r);
      assert false;
    }
  }

  /** No route to c is shorter than the Manhattan distance from start to c. */
  lemma {:induction false} RouteAtLeastManhattan(b: Board, r: seq<Coord>)
    requires IsRoute(b, r)
    ensures |r| >= Manhattan(Start, Last(r))
  {
    if |r| > 1 {
      var front := r[..|r| - 1];
      RouteFront(b, r);
      RouteAtLeastManhattan(b, front);
      ManhattanTriangle(Start, Last(front), Last(r));
    }
  }

  /** A nonempty prefix of a route is a route. */
  lemma RoutePrefix(b: Board, r: seq<Coord>, n: nat)
    requires IsRoute(b, r) && 0 < n <= |r|
    ensures IsRoute(b, r[..n]) && Last(r[..n]) == r[n - 1]
  {
  }

  /** A route read with start in front: cell k of the walk is k moves from start. */
  function Walk(r: seq<Coord>): seq<Coord> {
    [Start] + r
  }

  /** Along a route, the cell k moves from start is no farther from the end than the moves left. */
  lemma {:induction false} WalkTail(b: Board, r: seq<Coord>, k: nat)
    requires IsRoute(b, r) && k <= |r|
    ensures Manhattan(Walk(r)[k], Last(r)) <= |r| - k
    decreases |r| - k
  {
    var w := Walk(r);
    if k < |r| {
      WalkTail(b, r, k + 1);
      assert Adjacent(w[k], w[k + 1]) by {
        if k > 0 {
          assert w[k] == r[k - 1] && w[k + 1] == r[k];
        }
      }
      ManhattanTriangle(w[k], w[k + 1], Last(r));
    } else {
      assert w[k] == Last(r);
    }
  }

  /**
   * The first cell outside S on the walk of a route that ends outside S:
   * every earlier cell is in S, the one just before it (if any) is a
   * neighbour in S, the route up to that earlier cell is itself a route, and
   * the rest of the route bounds the distance to the end.
   */
  lemma FirstOutside(b: Board, S: set<Coord>, r: seq<Coord>) returns (k: nat)
    requires IsRoute(b, r) && Last(r) !in S
    ensures k <= |r| && Walk(r)[k] !in S
    ensures Manhattan(Walk(r)[k], Last(r)) <= |r| - k
    ensures k == 0 ==> Walk(r)[k] == Start
    ensures k > 0 ==> Walk(r)[k - 1] in S && Walk(r)[k] in Neighbors(b, Walk(r)[k - 1])
    ensures k == 1 ==> Walk(r)[k - 1] == Start
    ensures k > 1 ==> IsRoute(b, r[..k - 1]) && Last(r[..k - 1]) == Walk(r)[k - 1]
  {
    var w := Walk(r);
    k := 0;
    while w[k] in S
      invariant k <= |r|
      invariant k > 0 ==> w[k - 1] in S
      decreases |r| - k
    {
      k := k + 1;
    }
    WalkTail(b, r, k);
    if k > 0 {
      if k > 1 {
        assert w[k - 1] == r[k - 2] && w[k] == r[k - 1];
        RoutePrefix(b, r, k - 1);
      }
      NeighborsComplete(b, w[k - 1], w[k]);
    }
  }

  /** Membership in a set of cells (visited, closed or settled), kept as its own symbol so that quantifiers over the set are unfolded one cell at a time. */
  ghost predicate Seen(visited: set<Coord>, v: Coord) {
    v in visited
  }

  /** Membership in a rank map, kept as its own symbol so that parent chains are unfolded one link at a time. */
  ghost predicate Ranked(rank: map<Coord, nat>, v: Coord) {
    v in rank
  }

  /**
   * A parent map whose chains from ranked cells all end at start: every
   * ranked cell is passable, and every one other than start has a ranked
   * parent one move away with a smaller rank. Start has no parent. Cells
   * outside the ranking may carry parents too; nothing is said about them.
   */
  ghost predicate ParentChains(b: Board, parent: map<Coord, Coord>, rank: map<Coord, nat>) {
    Start in rank && Start !in parent &&
    forall v {:trigger Ranked(rank, v)} :: Ranked(rank, v) ==>
      Passable(b, v) &&
      (v != Start ==> v in parent && parent[v] in rank && v in Neighbors(b, parent[v]) && rank[parent[v]] < rank[v])
  }

  /** path walks forward from anchor, each cell's recorded parent being the cell before it. */
  ghost predicate FollowsParents(parent: map<Coord, Coord>, path: seq<Coord>, anchor: Coord)
    decreases |path|
  {
    path == [] ||
    (path[0] in parent && parent[path[0]] == anchor && FollowsParents(parent, path[1..], path[0]))
  }

  /** A parent chain read forward is a route whose ranks strictly increase. */
  lemma {:induction false} ChainIsRoute(b: Board, parent: map<Coord, Coord>, rank: map<Coord, nat>,
                                        path: seq<Coord>, anchor: Coord)
    requires ParentChains(b, parent, rank) && anchor in rank
    requires FollowsParents(parent, path, anchor) && |path| > 0
    requires forall v :: v in path ==> v in rank
    ensures Adjacent(anchor, path[0])
    ensures forall i :: 0 <= i < |path| ==> path[i] in rank && Passable(b, path[i]) && rank[anchor] < rank[path[i]]
    ensures forall i :: 0 < i < |path| ==> Adjacent(path[i - 1], path[i])
    ensures forall i, j :: 0 <= i < j < |path| ==> rank[path[i]] < rank[path[j]]
    decreases |path|
  {
    var first := path[0];
    assert first in parent && parent[first] == anchor;
    assert first in path;
    assert Ranked(rank, first);
    if |path| > 1 {
      var rest := path[1..];
      assert forall v :: v in rest ==> v in path;
      ChainIsRoute(b, parent, rank, rest, path[0]);
      forall i | 0 < i < |path| ensures Adjacent(path[i - 1], path[i]) {
        if i > 1 {
          assert path[i - 1] == rest[i - 2] && path[i] == rest[i - 1];
        }
      }
      forall i | 0 <= i < |path| ensures path[i] in rank && Passable(b, path[i]) && rank[anchor] < rank[path[i]] {
        if i > 0 {
          assert path[i] == rest[i - 1];
        } else {
          assert path[i] == first;
        }
      }
      forall i, j | 0 <= i < j < |path| ensures rank[path[i]] < rank[path[j]] {
        assert path[j] == rest[j - 1];
        if i > 0 {
          assert path[i] == rest[i - 1];
        }
      }
    }
  }

  /**
   * The path rebuilding shared by DFS, BFS and Dijkstra: prepend the current
   * cell and move to its recorded parent until start is reached. The result
   * is a duplicate-free route to the target that follows the parent map
   * forward from start and is no longer than the rank drop from the target
   * to start.
   */
  method Reconstruct(b: Board, parent: map<Coord, Coord>, target: Coord, ghost rank: map<Coord, nat>)
    returns (path: seq<Coord>)
    requires ParentChains(b, parent, rank)
    requires target in rank && target != Start
    ensures IsRoute(b, path) && Last(path) == target
    ensures Start !in path && NoDup(path)
    ensures FollowsParents(parent, path, Start)
    ensures forall v :: v in path ==> v in rank
    ensures |path| + rank[Start] <= rank[target]
  {
    path := [];
    var current := target;
    while current != Start
      invariant Ranked(rank, current)
      invariant path == [] ==> current == target
      invariant path != [] ==> Last(path) == target
      invariant FollowsParents(parent, path, current)
      invariant forall v :: v in path ==> v in rank
      invariant |path| + rank[current] <= rank[target]
      decreases rank[current]
    {
      path := [current] + path;
      current := parent[current];
    }
    ChainIsRoute(b, parent, rank, path, Start);
  }
}
