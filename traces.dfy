/**
 * The exploration trace (`searchPath`) every search emits, and the two shapes
 * it takes: DFS and BFS record one edge per newly reached cell (a discovery
 * tree rooted at start), while Greedy, A* and Dijkstra record an edge to
 * each neighbour of every cell they expand.
 */
module Traces {
  import opened Grid
  import opened Routes

  /** The cells the recorded edges lead to. */
  function Targets(t: seq<Edge>): set<Coord> {
    set i | 0 <= i < |t| :: t[i].to
  }

  /** After appending e, the trace ends with e and reaches e's target. */
  lemma AppendReaches(t: seq<Edge>, e: Edge)
    ensures var t' := t + [e]; |t'| > 0 && t'[|t'| - 1] == e && e.to in Targets(t')
  {
    TargetsAppend(t, e);
  }

  /** An edge that reaches a new cell from start or from a cell reached before. */
  ghost predicate NewEdge(b: Board, before: seq<Edge>, e: Edge) {
    e.to in Neighbors(b, e.from) && e.to != Start && e.to !in Targets(before) &&
    (e.from == Start || e.from in Targets(before))
  }

  /**
   * The DFS/BFS trace shape: each edge leads one move from start or from a
   * cell reached earlier to a cell reached for the first time, so there is
   * exactly one edge per reached cell other than start.
   */
  ghost predicate DiscoveryTree(b: Board, t: seq<Edge>) {
    forall i {:trigger NewEdge(b, t[..i], t[i])} :: 0 <= i < |t| ==> NewEdge(b, t[..i], t[i])
  }

  lemma TargetsAppend(t: seq<Edge>, e: Edge)
    ensures Targets(t + [e]) == Targets(t) + {e.to}
  {
    var t' := t + [e];
    forall c | c in Targets(t') ensures c in Targets(t) + {e.to} {
      var i :| 0 <= i < |t'| && t'[i].to == c;
      if i < |t| {
        assert t[i] == t'[i];
      }
    }
    forall c | c in Targets(t) + {e.to} ensures c in Targets(t') {
      if c == e.to {
        assert t'[|t|].to == c;
      } else {
        var i :| 0 <= i < |t| && t[i].to == c;
        assert t'[i] == t[i];
      }
    }
  }

  lemma {:induction false} DiscoveryTreeExtend(b: Board, t: seq<Edge>, e: Edge)
    requires DiscoveryTree(b, t) && NewEdge(b, t, e)
    ensures DiscoveryTree(b, t + [e])
    ensures Targets(t + [e]) == Targets(t) + {e.to}
  {
    var t' := t + [e];
    forall i | 0 <= i < |t'| ensures NewEdge(b, t'[..i], t'[i]) {
      if i < |t| {
        assert t'[..i] == t[..i] && t'[i] == t[i];
      } else {
        assert t'[..i] == t;
      }
    }
    TargetsAppend(t, e);
  }

  /** Each move of path, starting from anchor, is an edge of the trace. */
  ghost predicate Threads(t: seq<Edge>, path: seq<Coord>, anchor: Coord)
    decreases |path|
  {
    path == [] || (Edge(anchor, path[0]) in t && Threads(t, path[1..], path[0]))
  }

  /** A path that follows a parent map follows the trace when the trace holds every parent edge. */
  lemma {:induction false} ParentsThreadTrace(t: seq<Edge>, parent: map<Coord, Coord>, path: seq<Coord>, anchor: Coord)
    requires FollowsParents(parent, path, anchor)
    requires forall v :: v in path ==> v in parent && Edge(parent[v], v) in t
    ensures Threads(t, path, anchor)
    decreases |path|
  {
    if path != [] {
      assert path[0] in path;
      assert forall v :: v in path[1..] ==> v in path;
      ParentsThreadTrace(t, parent, path[1..], path[0]);
    }
  }

  /** The edges from c to each of ns, in order. */
  function EdgesFrom(c: Coord, ns: seq<Coord>): (es: seq<Edge>)
    ensures |es| == |ns|
    ensures forall e :: e in es ==> e.from == c && e.to in ns
  {
    seq(|ns|, i requires 0 <= i < |ns| => Edge(c, ns[i]))
  }

  /**
   * The trace of a search that records every neighbour of each cell it
   * expands, given the cells in the order they were expanded.
   */
  ghost function ExpansionTrace(b: Board, expanded: seq<Coord>): seq<Edge> {
    if expanded == [] then []
    else ExpansionTrace(b, expanded[..|expanded| - 1]) + EdgesFrom(Last(expanded), Neighbors(b, Last(expanded)))
  }

  /** Every edge of an expansion trace leads from an expanded cell to one of its neighbours. */
  lemma {:induction false} ExpansionTraceEdges(b: Board, expanded: seq<Coord>)
    ensures forall e :: e in ExpansionTrace(b, expanded) ==> e.from in expanded && e.to in Neighbors(b, e.from)
    decreases |expanded|
  {
    if expanded != [] {
      var front := expanded[..|expanded| - 1];
      ExpansionTraceEdges(b, front);
      var es := EdgesFrom(Last(expanded), Neighbors(b, Last(expanded)));
      forall e | e in ExpansionTrace(b, expanded) ensures e.from in expanded && e.to in Neighbors(b, e.from) {
        if e in ExpansionTrace(b, front) {
          var k :| 0 <= k < |front| && front[k] == e.from;
          assert expanded[k] == e.from;
        } else {
          assert e in es;
        }
      }
    }
  }

  /**
   * An order of closing that starts at start and closes each later cell one
   * move from a cell closed before it.
   */
  ghost predicate MoveOrder(b: Board, order: seq<Coord>) {
    |order| > 0 && order[0] == Start &&
    forall k :: 0 < k < |order| ==> exists j :: 0 <= j < k && order[k] in Neighbors(b, order[j])
  }

  /**
   * Closing u keeps a move order: the first cell closed is start, and every
   * later one neighbours a closed cell p.
   */
  lemma MoveOrderAppend(b: Board, order: seq<Coord>, closed: set<Coord>, u: Coord, p: Coord)
    requires closed == CellsOf(order) && u !in closed
    requires order == [] ==> u == Start
    requires order != [] ==> MoveOrder(b, order) && p in closed && u in Neighbors(b, p)
    ensures MoveOrder(b, order + [u])
  {
    var t := order + [u];
    if order != [] {
      var m :| 0 <= m < |order| && order[m] == p;
      forall k | 0 < k < |t| ensures exists j :: 0 <= j < k && t[k] in Neighbors(b, t[j]) {
        if k < |order| {
          var j :| 0 <= j < k && order[k] in Neighbors(b, order[j]);
          assert t[j] == order[j] && t[k] == order[k];
        } else {
          assert t[m] == p && t[k] == u;
        }
      }
    }
  }

  /** A neighbour of a cell of the closing order is a target of the expansion trace. */
  lemma {:induction false} ExpansionReaches(b: Board, expanded: seq<Coord>, p: Coord, c: Coord)
    requires p in expanded && c in Neighbors(b, p)
    ensures c in Targets(ExpansionTrace(b, expanded))
    decreases |expanded|
  {
    var front := expanded[..|expanded| - 1];
    TargetsEdgesFrom(ExpansionTrace(b, front), Last(expanded), Neighbors(b, Last(expanded)));
    if p != Last(expanded) {
      assert p in front by {
        var k :| 0 <= k < |expanded| && expanded[k] == p;
        assert front[k] == p;
      }
      ExpansionReaches(b, front, p, c);
    }
  }

  /**
   * What a search that closes cells one at a time keeps about them: the
   * trace is the expansion trace of the closing order, which holds no cell
   * twice, lists exactly the closed cells, and once begun is a move order.
   */
  ghost predicate ClosingOrder(b: Board, trace: seq<Edge>, expanded: seq<Coord>, closed: set<Coord>) {
    trace == ExpansionTrace(b, expanded) && NoDup(expanded) && closed == CellsOf(expanded) &&
    (expanded != [] ==> MoveOrder(b, expanded))
  }

  /**
   * Closing u and recording an edge to each of its neighbours keeps the
   * closing order, when u is start on the first turn and next to a closed
   * cell p on every later one.
   */
  lemma CloseNext(b: Board, trace: seq<Edge>, expanded: seq<Coord>, closed: set<Coord>, u: Coord, p: Coord)
    requires ClosingOrder(b, trace, expanded, closed) && u !in closed
    requires expanded == [] ==> u == Start
    requires expanded != [] ==> p in closed && u in Neighbors(b, p)
    ensures ClosingOrder(b, trace + EdgesFrom(u, Neighbors(b, u)), expanded + [u], closed + {u})
  {
    MoveOrderAppend(b, expanded, closed, u, p);
    CloseInOrder(expanded, closed, u);
    assert (expanded + [u])[..|expanded|] == expanded;
  }

  /**
   * A closing order that has begun and leaves food open: the trace is its
   * expansion trace, food is not in it, and every edge leads from a cell of
   * the order to one of its neighbours.
   */
  lemma ExpansionOrder(b: Board, trace: seq<Edge>, expanded: seq<Coord>, closed: set<Coord>)
    requires ClosingOrder(b, trace, expanded, closed) && b.food !in closed && expanded != []
    ensures trace == ExpansionTrace(b, expanded) && NoDup(expanded) && b.food !in expanded
    ensures forall e :: e in trace ==> e.from in expanded && e.to in Neighbors(b, e.from)
    ensures MoveOrder(b, expanded)
  {
    ExpansionTraceEdges(b, expanded);
  }

  /** When the closed cells hold start and every reachable cell, so does the order listing them. */
  lemma ExpansionCovers(b: Board, trace: seq<Edge>, expanded: seq<Coord>, closed: set<Coord>)
    requires ClosingOrder(b, trace, expanded, closed) && Start in closed
    requires forall c :: Reachable(b, c) ==> c in closed
    ensures expanded != [] && Start in expanded && forall c :: Reachable(b, c) ==> c in expanded
  {
  }

  lemma EdgesFromSnoc(c: Coord, ns: seq<Coord>, k: nat)
    requires k < |ns|
    ensures EdgesFrom(c, ns[..k + 1]) == EdgesFrom(c, ns[..k]) + [Edge(c, ns[k])]
  {
    assert EdgesFrom(c, ns[..k + 1]) == EdgesFrom(c, ns[..k]) + [Edge(c, ns[k])];
  }

  /** Recording an edge from c to each of ns adds exactly the cells of ns to the targets. */
  lemma TargetsEdgesFrom(t: seq<Edge>, c: Coord, ns: seq<Coord>)
    ensures forall x :: x in Targets(t + EdgesFrom(c, ns)) <==> x in Targets(t) || x in ns
  {
    var t' := t + EdgesFrom(c, ns);
    forall x | x in Targets(t') ensures x in Targets(t) || x in ns {
      var i :| 0 <= i < |t'| && t'[i].to == x;
      if i < |t| {
        assert t[i] == t'[i];
      } else {
        assert t'[i] == Edge(c, ns[i - |t|]);
      }
    }
    forall x | x in Targets(t) || x in ns ensures x in Targets(t') {
      if x in Targets(t) {
        var i :| 0 <= i < |t| && t[i].to == x;
        assert t'[i] == t[i];
      } else {
        var j :| 0 <= j < |ns| && ns[j] == x;
        assert t'[|t| + j].to == x;
      }
    }
  }

  /** Records an edge from `from` to each cell of `tos`, in order. */
  method AppendEdges(trace: seq<Edge>, from: Coord, tos: seq<Coord>) returns (t: seq<Edge>)
    ensures t == trace + EdgesFrom(from, tos)
  {
    t := trace;
    for i := 0 to |tos|
      invariant t == trace + EdgesFrom(from, tos[..i])
    {
      EdgesFromSnoc(from, tos, i);
      t := t + [Edge(from, tos[i])];
    }
    assert tos[..|tos|] == tos;
  }

  /** The empty trace is a discovery tree reaching nothing. */
  lemma EmptyTrace(b: Board)
    ensures DiscoveryTree(b, []) && Targets([]) == {Start} - {Start}
  {
  }
}
