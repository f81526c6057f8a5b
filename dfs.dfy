/**
 * `findPathDFS`: a stack of `{point, parent}` entries seeded with start.
 * Each turn pops the newest entry; an entry for a visited cell is dropped,
 * otherwise the cell is visited, the edge from its parent is recorded, and
 * either food has been reached (the path is rebuilt from `parentMap`) or an
 * entry is pushed for each unvisited neighbour in up/right/down/left order,
 * overwriting that neighbour's `parentMap` entry.
 *
 * Because the stack pops the newest entry, the entry that visits a cell is
 * always the one whose push last wrote its `parentMap` entry; so the parent
 * map of a visited cell is the parent recorded in the trace, and the
 * returned path runs along trace edges.
 */
module DepthFirst {
  import opened Wrappers
  import opened Grid
  import opened Routes
  import opened Traces
  import opened Frontier

  /**
   * The visit order of visited cells: each visited cell other than start has
   * a parent visited before it, and the trace holds the edge from that parent.
   */
  ghost predicate VisitedLinked(visited: set<Coord>, parents: map<Coord, Coord>, order: map<Coord, nat>, trace: seq<Edge>) {
    order.Keys == visited && (forall v :: v in visited ==> order[v] < |visited|) &&
    forall v {:trigger Seen(visited, v)} :: Seen(visited, v) && v != Start ==>
      v in parents && parents[v] in visited && order[parents[v]] < order[v] && Edge(parents[v], v) in trace
  }

  ghost predicate VisitedParents(b: Board, visited: set<Coord>, parents: map<Coord, Coord>,
                                 order: map<Coord, nat>, trace: seq<Edge>) {
    ParentsVisited(b, visited, parents) && VisitedLinked(visited, parents, order, trace)
  }

  /** An unvisited cell on the stack has its newest entry naming its `parentMap` parent. */
  ghost predicate NewestEntryIsParent(visited: set<Coord>, stack: seq<Pending>, parents: map<Coord, Coord>) {
    forall w :: w !in visited && Listed(stack, w) ==> w in parents && LastParent(stack, w) == Some(parents[w])
  }

  /**
   * Every neighbour of a visited cell is visited or on the stack. (Triggered
   * on `Seen` so that it is not applied to every parent named by the stack.)
   */
  ghost predicate NeighborsCovered(b: Board, visited: set<Coord>, stack: seq<Pending>) {
    forall v, w {:trigger Seen(visited, v), w in Neighbors(b, v)} ::
      Seen(visited, v) && w in Neighbors(b, v) ==> w in visited || Listed(stack, w)
  }

  /** What holds at the top of the loop once start has been visited. */
  ghost predicate DfsInv(b: Board, visited: set<Coord>, stack: seq<Pending>, parents: map<Coord, Coord>,
                         order: map<Coord, nat>, trace: seq<Edge>) {
    Start in visited && b.food !in visited && AllPassable(b, visited) &&
    EntriesFromVisited(b, visited, stack) &&
    VisitedParents(b, visited, parents, order, trace) &&
    NewestEntryIsParent(visited, stack, parents) &&
    NeighborsCovered(b, visited, stack) &&
    DiscoveryTree(b, trace) && Targets(trace) == visited - {Start}
  }

  /** Dropping the newest entry when its cell is already visited keeps the invariant. */
  lemma DfsSkip(b: Board, visited: set<Coord>, stack: seq<Pending>, parents: map<Coord, Coord>,
                order: map<Coord, nat>, trace: seq<Edge>)
    requires DfsInv(b, visited, stack, parents, order, trace)
    requires |stack| > 0 && Last(stack).point in visited
    ensures DfsInv(b, visited, stack[..|stack| - 1], parents, order, trace)
  {
    AfterPop(b, visited, stack, parents, visited);
    CoveredAfterSkip(b, visited, stack);
  }

  /** Visiting the newest entry's cell, when it is not food, and pushing its unvisited neighbours keeps the invariant. */
  lemma DfsVisit(b: Board, visited: set<Coord>, stack: seq<Pending>, parents: map<Coord, Coord>,
                 order: map<Coord, nat>, trace: seq<Edge>)
    requires DfsInv(b, visited, stack, parents, order, trace)
    requires |stack| > 0 && Last(stack).point !in visited && Last(stack).point != b.food
    ensures var top := Last(stack);
            var visited' := visited + {top.point};
            var ns := Without(Neighbors(b, top.point), visited');
            top.parent.Some? &&
            DfsInv(b, visited', stack[..|stack| - 1] + Entries(ns, top.point), Adopt(parents, ns, top.point),
                   order[top.point := |visited|], trace + [Edge(top.parent.value, top.point)])
  {
    var w := Last(stack).point;
    var visited' := visited + {w};
    var ns := Without(Neighbors(b, w), visited');
    var rest := stack[..|stack| - 1];
    PoppedEntry(b, visited, stack, parents, trace);
    DiscoveryTreeExtend(b, trace, Edge(parents[w], w));
    AfterPop(b, visited, stack, parents, visited');
    EntriesAfterVisit(b, visited, rest, w, ns);
    ParentsAfterVisit(b, visited, parents, order, trace, w, ns);
    NewestAfterVisit(visited', rest, parents, w, ns);
    CoveredAfterVisit(b, visited, stack, w, ns);
    AllPassableAdd(b, visited, w);
    RemoveThenAdd(Targets(trace), visited, Start, w);
  }

  /**
   * The newest entry of an unvisited cell: its parent is the cell's
   * `parentMap` parent, a visited cell, and the edge from it reaches a new
   * cell of the discovery tree.
   */
  lemma PoppedEntry(b: Board, visited: set<Coord>, stack: seq<Pending>, parents: map<Coord, Coord>, trace: seq<Edge>)
    requires |stack| > 0 && Last(stack).point !in visited && Start in visited
    requires EntriesFromVisited(b, visited, stack) && NewestEntryIsParent(visited, stack, parents)
    requires Targets(trace) == visited - {Start}
    ensures var top := Last(stack);
            top.parent.Some? && top.point in parents && top.parent.value == parents[top.point] &&
            parents[top.point] in visited && Passable(b, top.point) &&
            NewEdge(b, trace, Edge(parents[top.point], top.point))
  {
    var top := Last(stack);
    assert stack[|stack| - 1] == top;
    assert Listed(stack, top.point);
    assert LastParent(stack, top.point) == top.parent;
    NeighborsComplete(b, top.parent.value, top.point);
  }

  /** The first turn visits start, records no edge and pushes start's neighbours. */
  lemma DfsFirstVisit(b: Board)
    requires ValidBoard(b)
    ensures var ns := Without(Neighbors(b, Start), {Start});
            DfsInv(b, {Start}, Entries(ns, Start), Adopt(map[], ns, Start), map[Start := 0], [])
  {
    var ns := Without(Neighbors(b, Start), {Start});
    FirstPassable(b);
    FirstEntries(b, ns);
    FirstParents(b, ns);
    FirstNewest(ns);
    FirstCovered(b, ns);
    EmptyTrace(b);
  }

  /** Before the first pop only start's entry is stacked; visiting it is the first visit. */
  lemma FirstTurn(b: Board, visited: set<Coord>, stack: seq<Pending>, parents: map<Coord, Coord>,
                  order: map<Coord, nat>, trace: seq<Edge>)
    requires ValidBoard(b) && Initial(visited, stack, parents, order, trace)
    ensures var top := Last(stack);
            var visited' := visited + {top.point};
            var ns := Without(Neighbors(b, top.point), visited');
            top == Pending(Start, None) && top.point != b.food &&
            DfsInv(b, visited', stack[..|stack| - 1] + Entries(ns, top.point), Adopt(parents, ns, top.point),
                   order[top.point := |visited|], trace)
  {
    assert stack[..|stack| - 1] + Entries(Without(Neighbors(b, Start), {Start}), Start) ==
           Entries(Without(Neighbors(b, Start), {Start}), Start);
    assert visited + {Start} == {Start};
    DfsFirstVisit(b);
  }

  lemma FirstNewest(ns: seq<Coord>)
    ensures NewestEntryIsParent({Start}, Entries(ns, Start), Adopt(map[], ns, Start))
  {
    forall x | x !in {Start} && Listed(Entries(ns, Start), x)
      ensures x in Adopt(map[], ns, Start) && LastParent(Entries(ns, Start), x) == Some(Adopt(map[], ns, Start)[x])
    {
      ListedPush([], ns, Start, x);
      LastParentPush([], ns, Start, x);
      assert [] + Entries(ns, Start) == Entries(ns, Start);
    }
  }

  lemma FirstCovered(b: Board, ns: seq<Coord>)
    requires forall x :: x in ns <==> x in Neighbors(b, Start) && x != Start
    ensures NeighborsCovered(b, {Start}, Entries(ns, Start))
  {
    forall v, x | Seen({Start}, v) && x in Neighbors(b, v) ensures x in {Start} || Listed(Entries(ns, Start), x) {
      ListedPush([], ns, Start, x);
      assert [] + Entries(ns, Start) == Entries(ns, Start);
    }
  }

  /**
   * Popping the newest entry keeps every other entry's parent visited and,
   * once its cell counts as visited, the newest-entry link of every other cell.
   */
  lemma AfterPop(b: Board, visited: set<Coord>, stack: seq<Pending>, parents: map<Coord, Coord>, visited': set<Coord>)
    requires |stack| > 0 && visited <= visited' && Last(stack).point in visited'
    requires EntriesFromVisited(b, visited, stack) && NewestEntryIsParent(visited, stack, parents)
    ensures EntriesFromVisited(b, visited, stack[..|stack| - 1])
    ensures NewestEntryIsParent(visited', stack[..|stack| - 1], parents)
  {
    var rest := stack[..|stack| - 1];
    assert forall i :: 0 <= i < |rest| ==> rest[i] == stack[i];
    forall x | x !in visited' && Listed(rest, x) ensures x in parents && LastParent(rest, x) == Some(parents[x]) {
      assert Listed(stack, x) && LastParent(stack, x) == LastParent(rest, x);
    }
  }

  /** Dropping an entry for a visited cell leaves the neighbours of visited cells covered. */
  lemma CoveredAfterSkip(b: Board, visited: set<Coord>, stack: seq<Pending>)
    requires |stack| > 0 && Last(stack).point in visited
    requires NeighborsCovered(b, visited, stack)
    ensures NeighborsCovered(b, visited, stack[..|stack| - 1])
  {
    var rest := stack[..|stack| - 1];
    forall v, x | Seen(visited, v) && x in Neighbors(b, v) ensures x in visited || Listed(rest, x) {
    }
  }

  lemma FirstParents(b: Board, ns: seq<Coord>)
    requires forall x :: x in ns <==> x in Neighbors(b, Start) && x != Start
    ensures VisitedParents(b, {Start}, Adopt(map[], ns, Start), map[Start := 0], [])
  {
    var parents := Adopt(map[], ns, Start);
    forall x {:trigger parents[x]} | x in parents ensures parents[x] in {Start} && x in Neighbors(b, parents[x]) && x != Start {
    }
    assert forall v :: Seen({Start}, v) ==> v == Start;
  }

  lemma ParentsAfterVisit(b: Board, visited: set<Coord>, parents: map<Coord, Coord>, order: map<Coord, nat>,
                          trace: seq<Edge>, w: Coord, ns: seq<Coord>)
    requires VisitedParents(b, visited, parents, order, trace) && w !in visited
    requires forall x :: x in ns <==> x in Neighbors(b, w) && x !in visited + {w}
    requires Start in visited && w in parents
    ensures VisitedParents(b, visited + {w}, Adopt(parents, ns, w), order[w := |visited|], trace + [Edge(parents[w], w)])
  {
    PushedParents(b, visited, parents, w, ns);
    VisitedLinks(visited, parents, order, trace, w, ns);
  }

  /** After the visit, every visited cell other than start links to an earlier parent through a trace edge. */
  lemma VisitedLinks(visited: set<Coord>, parents: map<Coord, Coord>, order: map<Coord, nat>,
                     trace: seq<Edge>, w: Coord, ns: seq<Coord>)
    requires VisitedLinked(visited, parents, order, trace) && w !in visited && w in parents && parents[w] in visited
    requires forall x :: x in ns ==> x !in visited + {w}
    ensures VisitedLinked(visited + {w}, Adopt(parents, ns, w), order[w := |visited|], trace + [Edge(parents[w], w)])
  {
    var visited', parents', order' := visited + {w}, Adopt(parents, ns, w), order[w := |visited|];
    forall v | Seen(visited', v) && v != Start
      ensures v in parents' && parents'[v] in visited' && order'[parents'[v]] < order'[v] && Edge(parents'[v], v) in trace + [Edge(parents[w], w)]
    {
      if v != w {
        assert Seen(visited, v);
      }
    }
  }

  lemma NewestAfterVisit(visited': set<Coord>, rest: seq<Pending>, parents: map<Coord, Coord>, w: Coord, ns: seq<Coord>)
    requires NewestEntryIsParent(visited', rest, parents)
    requires forall x :: x in ns ==> x !in visited'
    ensures NewestEntryIsParent(visited', rest + Entries(ns, w), Adopt(parents, ns, w))
  {
    var stack', parents' := rest + Entries(ns, w), Adopt(parents, ns, w);
    forall x | x !in visited' && Listed(stack', x)
      ensures x in parents' && LastParent(stack', x) == Some(parents'[x])
    {
      LastParentPush(rest, ns, w, x);
      ListedPush(rest, ns, w, x);
    }
  }

  lemma CoveredAfterVisit(b: Board, visited: set<Coord>, stack: seq<Pending>, w: Coord, ns: seq<Coord>)
    requires NeighborsCovered(b, visited, stack)
    requires |stack| > 0 && Last(stack).point == w
    requires forall x :: x in ns <==> x in Neighbors(b, w) && x !in visited + {w}
    ensures NeighborsCovered(b, visited + {w}, stack[..|stack| - 1] + Entries(ns, w))
  {
    var visited', rest := visited + {w}, stack[..|stack| - 1];
    var stack' := rest + Entries(ns, w);
    forall v, x | Seen(visited', v) && x in Neighbors(b, v) ensures x in visited' || Listed(stack', x) {
      ListedPush(rest, ns, w, x);
      if v != w {
        assert Seen(visited, v);
      }
    }
  }

  /**
   * When the newest entry's cell is food: the parent map's chains from the
   * visited cells, ranked by visit order, end at start, and each link is a
   * recorded trace edge.
   */
  lemma DfsFound(b: Board, visited: set<Coord>, stack: seq<Pending>, parents: map<Coord, Coord>,
                 order: map<Coord, nat>, trace: seq<Edge>)
    requires DfsInv(b, visited, stack, parents, order, trace)
    requires |stack| > 0 && Last(stack).point == b.food
    ensures Last(stack).parent.Some?
    ensures var order' := order[b.food := |visited|];
            var trace' := trace + [Edge(Last(stack).parent.value, b.food)];
            ParentChains(b, parents, order') &&
            (forall v :: v in order' && v != Start ==> v in parents && Edge(parents[v], v) in trace') &&
            DiscoveryTree(b, trace')
  {
    var w := Last(stack).point;
    PoppedEntry(b, visited, stack, parents, trace);
    DiscoveryTreeExtend(b, trace, Edge(parents[w], w));
    FoundChains(b, visited, parents, order, trace, w);
    FoundEdges(visited, parents, order, trace, w);
  }

  /** Ranking the visited cells and the newly visited w by visit order makes the parent links chains to start. */
  lemma FoundChains(b: Board, visited: set<Coord>, parents: map<Coord, Coord>, order: map<Coord, nat>,
                    trace: seq<Edge>, w: Coord)
    requires VisitedParents(b, visited, parents, order, trace) && AllPassable(b, visited) && Start in visited
    requires w !in visited && Passable(b, w) && w in parents
    ensures ParentChains(b, parents, order[w := |visited|])
  {
    var order' := order[w := |visited|];
    forall v {:trigger Ranked(order', v)} | Ranked(order', v)
      ensures Passable(b, v) &&
              (v != Start ==> v in parents && parents[v] in order' && v in Neighbors(b, parents[v]) &&
                              order'[parents[v]] < order'[v])
    {
      ChainLink(b, visited, parents, order, trace, w, v);
    }
  }

  lemma ChainLink(b: Board, visited: set<Coord>, parents: map<Coord, Coord>, order: map<Coord, nat>,
                  trace: seq<Edge>, w: Coord, v: Coord)
    requires VisitedParents(b, visited, parents, order, trace) && AllPassable(b, visited)
    requires w !in visited && Passable(b, w) && w in parents && (v == w || v in visited)
    ensures var order' := order[w := |visited|];
            Passable(b, v) &&
            (v != Start ==> v in parents && parents[v] in order' && v in Neighbors(b, parents[v]) &&
                            order'[parents[v]] < order'[v])
  {
    if v != w {
      assert Seen(visited, v);
    }
  }

  /** Each ranked cell other than start reaches its parent link through a recorded edge. */
  lemma FoundEdges(visited: set<Coord>, parents: map<Coord, Coord>, order: map<Coord, nat>, trace: seq<Edge>, w: Coord)
    requires VisitedLinked(visited, parents, order, trace) && w in parents
    ensures var order', trace' := order[w := |visited|], trace + [Edge(parents[w], w)];
            forall v :: v in order' && v != Start ==> v in parents && Edge(parents[v], v) in trace'
  {
    var order', trace' := order[w := |visited|], trace + [Edge(parents[w], w)];
    forall v | v in order' && v != Start ensures v in parents && Edge(parents[v], v) in trace' {
      if v != w {
        assert Seen(visited, v);
      }
    }
  }

  /** An empty stack leaves a visited region closed under the neighbour relation, without food. */
  lemma DfsExhausted(b: Board, visited: set<Coord>, stack: seq<Pending>, parents: map<Coord, Coord>,
                     order: map<Coord, nat>, trace: seq<Edge>)
    requires DfsInv(b, visited, stack, parents, order, trace) && stack == []
    ensures {Start} + Targets(trace) == visited
    ensures ClosedUnder(b, visited) && !Reachable(b, b.food)
  {
    forall v, w | v in visited && w in Neighbors(b, v) ensures w in visited {
      assert Seen(visited, v);
    }
    OutsideClosedRegionUnreachable(b, visited, b.food);
  }

  /**
   * `findPathDFS`. The trace is a discovery tree: one edge per visited cell
   * other than start, each from a cell reached earlier. A returned path is a
   * duplicate-free route from start to food that runs along trace edges; no
   * path is returned only when the visited region is closed and food is
   * unreachable.
   */
  method Dfs(b: Board) returns (res: SearchResult)
    requires ValidBoard(b)
    ensures DiscoveryTree(b, res.trace)
    ensures res.path.Some? ==>
              var p := res.path.value;
              IsRoute(b, p) && Last(p) == b.food && Start !in p && NoDup(p) && Threads(res.trace, p, Start)
    ensures res.path.None? <==> !Reachable(b, b.food)
    ensures res.path.None? ==> ClosedUnder(b, {Start} + Targets(res.trace)) && b.food !in Targets(res.trace)
  {
    var trace: seq<Edge> := [];
    var visited: set<Coord> := {};
    var stack := [Pending(Start, None)];
    var parentMap: map<Coord, Coord> := map[];
    ghost var order: map<Coord, nat> := map[];
    while |stack| > 0
      invariant Initial(visited, stack, parentMap, order, trace) || DfsInv(b, visited, stack, parentMap, order, trace)
      invariant AllPassable(b, visited)
      decreases AllCells(b.size) - visited, |stack|
    {
      var top := Last(stack);
      if top.point in visited {
        DfsSkip(b, visited, stack, parentMap, order, trace);
        stack := stack[..|stack| - 1];
        continue;
      }
      if visited == {} {
        FirstTurn(b, visited, stack, parentMap, order, trace);
      } else if top.point == b.food {
        DfsFound(b, visited, stack, parentMap, order, trace);
      } else {
        DfsVisit(b, visited, stack, parentMap, order, trace);
      }
      order := order[top.point := |visited|];
      stack := stack[..|stack| - 1];
      PassableInAllCells(b, top.point);
      visited := visited + {top.point};
      if top.parent.Some? {
        trace := trace + [Edge(top.parent.value, top.point)];
      }
      if top.point == b.food {
        var path := Reconstruct(b, parentMap, top.point, order);
        ParentsThreadTrace(trace, parentMap, path, Start);
        RouteReachable(b, path);
        return SearchResult(Some(path), trace);
      }
      stack, parentMap := PushUnvisited(b, stack, parentMap, top.point, visited);
    }
    DfsExhausted(b, visited, stack, parentMap, order, trace);
    return SearchResult(None, trace);
  }
}
