/**
 * `findPathBFS`: the same loop as DFS over a queue, so each turn takes the
 * oldest entry. The entry that visits a cell is the first one pushed for it,
 * while `parentMap` keeps the parent of the last push before the visit, so
 * the returned path need not run along the recorded edges.
 *
 * It is still a shortest route. Give each visited cell the depth of the
 * entry that visited it (its parent's depth plus one). The queue then holds
 * entries of at most two consecutive depths, in order. Every cell that
 * pushes a given cell neighbours it, and on a grid all neighbours of a cell
 * have the same colour on the chessboard. So all pushers of one cell have
 * equal depth, and overwriting the parent never lengthens the chain.
 */
module BreadthFirst {
  import opened Wrappers
  import opened Grid
  import opened Routes
  import opened Traces
  import opened Frontier

  /** The depth an entry gives its cell: its parent's depth plus one; start's entry gives 0. */
  function EntryDepth(depth: map<Coord, nat>, e: Pending): nat {
    if e.parent.Some? && e.parent.value in depth then depth[e.parent.value] + 1 else 0
  }

  /** Each visited cell other than start has a visited parent in the map, one level above it. */
  ghost predicate DepthLinks(visited: set<Coord>, parents: map<Coord, Coord>, depth: map<Coord, nat>) {
    depth.Keys == visited && Start in depth && depth[Start] == 0 &&
    forall v {:trigger Seen(visited, v)} :: Seen(visited, v) && v != Start ==>
      v in parents && parents[v] in visited && depth[parents[v]] + 1 == depth[v]
  }

  /** A cell's depth has the colour of its square on a chessboard. */
  ghost predicate DepthParity(depth: map<Coord, nat>) {
    forall v :: v in depth ==> depth[v] % 2 == Parity(v)
  }

  /** Entry depths never decrease from the front of the queue to the back. */
  ghost predicate DepthsNondecreasing(depth: map<Coord, nat>, queue: seq<Pending>) {
    forall i, j :: 0 <= i <= j < |queue| ==> EntryDepth(depth, queue[i]) <= EntryDepth(depth, queue[j])
  }

  /** No entry is more than one level deeper than the front entry. */
  ghost predicate DepthsWithinOne(depth: map<Coord, nat>, queue: seq<Pending>) {
    forall j :: 0 <= j < |queue| ==> EntryDepth(depth, queue[j]) <= EntryDepth(depth, queue[0]) + 1
  }

  /** No visited cell is deeper than the front entry. */
  ghost predicate VisitedBelowFront(depth: map<Coord, nat>, queue: seq<Pending>) {
    |queue| > 0 ==> forall v :: v in depth ==> depth[v] <= EntryDepth(depth, queue[0])
  }

  /** Every entry for an unvisited cell is as deep as the cell's current `parentMap` parent allows. */
  ghost predicate SharedDepth(visited: set<Coord>, queue: seq<Pending>, parents: map<Coord, Coord>, depth: map<Coord, nat>) {
    forall i :: 0 <= i < |queue| && queue[i].point !in visited ==>
      queue[i].point in parents && parents[queue[i].point] in depth &&
      EntryDepth(depth, queue[i]) == depth[parents[queue[i].point]] + 1
  }

  /**
   * The neighbour x of a visited cell v is either visited, at most one level
   * below v, or queued with a `parentMap` parent no deeper than v.
   */
  ghost predicate NearCovered(b: Board, visited: set<Coord>, queue: seq<Pending>, parents: map<Coord, Coord>,
                              depth: map<Coord, nat>, v: Coord, x: Coord) {
    v in depth &&
    if x in visited then x in depth && depth[x] <= depth[v] + 1
    else Listed(queue, x) && x in parents && parents[x] in depth && depth[parents[x]] <= depth[v]
  }

  /** Every neighbour of a visited cell is covered in the sense of `NearCovered`. */
  ghost predicate CoveredNear(b: Board, visited: set<Coord>, queue: seq<Pending>, parents: map<Coord, Coord>,
                              depth: map<Coord, nat>) {
    forall v, x {:trigger Seen(visited, v), x in Neighbors(b, v)} ::
      Seen(visited, v) && v in depth && x in Neighbors(b, v) ==> NearCovered(b, visited, queue, parents, depth, v, x)
  }

  /** What holds at the top of the loop once start has been visited. */
  ghost predicate BfsInv(b: Board, visited: set<Coord>, queue: seq<Pending>, parents: map<Coord, Coord>,
                         depth: map<Coord, nat>, trace: seq<Edge>) {
    Start in visited && b.food !in visited && AllPassable(b, visited) &&
    EntriesFromVisited(b, visited, queue) && ParentsVisited(b, visited, parents) &&
    DepthLinks(visited, parents, depth) && DepthParity(depth) &&
    DepthsNondecreasing(depth, queue) && DepthsWithinOne(depth, queue) && VisitedBelowFront(depth, queue) &&
    SharedDepth(visited, queue, parents, depth) && CoveredNear(b, visited, queue, parents, depth) &&
    DiscoveryTree(b, trace) && Targets(trace) == visited - {Start}
  }

  /** Dropping the oldest entry when its cell is already visited keeps the invariant. */
  lemma BfsSkip(b: Board, visited: set<Coord>, queue: seq<Pending>, parents: map<Coord, Coord>,
                depth: map<Coord, nat>, trace: seq<Edge>)
    requires BfsInv(b, visited, queue, parents, depth, trace)
    requires |queue| > 0 && queue[0].point in visited
    ensures BfsInv(b, visited, queue[1..], parents, depth, trace)
  {
    ShiftEntries(b, visited, queue);
    ShiftLevels(depth, queue);
    ShiftShared(visited, queue, parents, depth);
    CoveredAfterSkip(b, visited, queue, parents, depth);
  }

  lemma ShiftEntries(b: Board, visited: set<Coord>, queue: seq<Pending>)
    requires |queue| > 0 && EntriesFromVisited(b, visited, queue)
    ensures EntriesFromVisited(b, visited, queue[1..])
  {
    var rest := queue[1..];
    assert forall i :: 0 <= i < |rest| ==> rest[i] == queue[i + 1];
  }

  /** Taking the front entry off keeps the queue ordered by depth and the visited cells no deeper than the front. */
  lemma ShiftLevels(depth: map<Coord, nat>, queue: seq<Pending>)
    requires |queue| > 0
    requires DepthsNondecreasing(depth, queue) && DepthsWithinOne(depth, queue) && VisitedBelowFront(depth, queue)
    ensures DepthsNondecreasing(depth, queue[1..]) && DepthsWithinOne(depth, queue[1..]) &&
            VisitedBelowFront(depth, queue[1..])
  {
    var rest := queue[1..];
    assert forall i :: 0 <= i < |rest| ==> rest[i] == queue[i + 1];
    if |rest| > 0 {
      assert EntryDepth(depth, queue[0]) <= EntryDepth(depth, queue[1]);
    }
  }

  lemma ShiftShared(visited: set<Coord>, queue: seq<Pending>, parents: map<Coord, Coord>, depth: map<Coord, nat>)
    requires |queue| > 0 && SharedDepth(visited, queue, parents, depth)
    ensures SharedDepth(visited, queue[1..], parents, depth)
  {
    var rest := queue[1..];
    assert forall i :: 0 <= i < |rest| ==> rest[i] == queue[i + 1];
  }

  /** Dropping an entry for a visited cell leaves every unvisited neighbour of a visited cell queued. */
  lemma CoveredAfterSkip(b: Board, visited: set<Coord>, queue: seq<Pending>, parents: map<Coord, Coord>,
                         depth: map<Coord, nat>)
    requires |queue| > 0 && queue[0].point in visited
    requires CoveredNear(b, visited, queue, parents, depth)
    ensures CoveredNear(b, visited, queue[1..], parents, depth)
  {
    forall v, x | Seen(visited, v) && v in depth && x in Neighbors(b, v)
      ensures NearCovered(b, visited, queue[1..], parents, depth, v, x)
    {
      if x !in visited {
        ListedShift(queue, x);
      }
    }
  }

  /**
   * The oldest entry of an unvisited cell: its parent is visited and one
   * move away, the edge from it reaches a new cell of the discovery tree,
   * and its depth is one more than that of the cell's `parentMap` parent.
   */
  lemma BfsPopped(b: Board, visited: set<Coord>, queue: seq<Pending>, parents: map<Coord, Coord>,
                  depth: map<Coord, nat>, trace: seq<Edge>)
    requires |queue| > 0 && queue[0].point !in visited && Start in visited
    requires EntriesFromVisited(b, visited, queue) && SharedDepth(visited, queue, parents, depth)
    requires ParentsVisited(b, visited, parents)
    requires Targets(trace) == visited - {Start}
    ensures var top := queue[0];
            top.parent.Some? && top.parent.value in visited && Passable(b, top.point) &&
            NewEdge(b, trace, Edge(top.parent.value, top.point)) &&
            top.point in parents && parents[top.point] in visited && parents[top.point] in depth &&
            Adjacent(parents[top.point], top.point) &&
            EntryDepth(depth, top) == depth[parents[top.point]] + 1
  {
    var top := queue[0];
    NeighborsComplete(b, top.parent.value, top.point);
    assert top.point in Neighbors(b, parents[top.point]);
  }

  /** Visiting the oldest entry's cell, when it is not food, and queueing its unvisited neighbours keeps the invariant. */
  lemma BfsVisit(b: Board, visited: set<Coord>, queue: seq<Pending>, parents: map<Coord, Coord>,
                 depth: map<Coord, nat>, trace: seq<Edge>)
    requires BfsInv(b, visited, queue, parents, depth, trace)
    requires |queue| > 0 && queue[0].point !in visited && queue[0].point != b.food
    ensures var top := queue[0];
            var visited' := visited + {top.point};
            var ns := Without(Neighbors(b, top.point), visited');
            top.parent.Some? &&
            BfsInv(b, visited', queue[1..] + Entries(ns, top.point), Adopt(parents, ns, top.point),
                   depth[top.point := EntryDepth(depth, top)], trace + [Edge(top.parent.value, top.point)])
  {
    var top := queue[0];
    var w, d := top.point, EntryDepth(depth, top);
    var visited' := visited + {w};
    var ns := Without(Neighbors(b, w), visited');
    BfsPopped(b, visited, queue, parents, depth, trace);
    DiscoveryTreeExtend(b, trace, Edge(top.parent.value, w));
    RemoveThenAdd(Targets(trace), visited, Start, w);
    AllPassableAdd(b, visited, w);
    ShiftEntries(b, visited, queue);
    EntriesAfterVisit(b, visited, queue[1..], w, ns);
    PushedParents(b, visited, parents, w, ns);
    LinksAfterVisit(visited, parents, depth, w, ns, d);
    ParityAfterVisit(depth, parents[w], w, d);
    LevelsAfterVisit(b, visited, queue, depth, ns);
    SharedAfterVisit(b, visited, queue, parents, depth, ns);
    CoveredAfterVisit(b, visited, queue, parents, depth, ns);
  }

  lemma LinksAfterVisit(visited: set<Coord>, parents: map<Coord, Coord>, depth: map<Coord, nat>,
                        w: Coord, ns: seq<Coord>, d: nat)
    requires DepthLinks(visited, parents, depth) && w !in visited
    requires w in parents && parents[w] in visited && depth[parents[w]] + 1 == d
    requires forall x :: x in ns ==> x !in visited + {w}
    ensures DepthLinks(visited + {w}, Adopt(parents, ns, w), depth[w := d])
  {
    var visited', parents', depth' := visited + {w}, Adopt(parents, ns, w), depth[w := d];
    forall v | Seen(visited', v) && v != Start
      ensures v in parents' && parents'[v] in visited' && depth'[parents'[v]] + 1 == depth'[v]
    {
      if v != w {
        assert Seen(visited, v);
      }
    }
  }

  /** A cell one level below a neighbour has the other colour, as its depth does. */
  lemma ParityAfterVisit(depth: map<Coord, nat>, p: Coord, w: Coord, d: nat)
    requires DepthParity(depth) && p in depth && Adjacent(p, w) && d == depth[p] + 1
    ensures DepthParity(depth[w := d]) && d % 2 == Parity(w)
  {
    AdjacentFlipsParity(p, w);
  }

  /**
   * Two neighbours of one cell have the same colour; so two depths of that
   * colour at most one apart are equal.
   */
  lemma ParityPinsDepth(p: Coord, w: Coord, x: Coord, dp: nat, d: nat)
    requires Adjacent(p, x) && Adjacent(w, x)
    requires dp % 2 == Parity(p) && d % 2 == Parity(w)
    requires dp <= d + 1 && d <= dp + 1
    ensures dp == d
  {
    AdjacentFlipsParity(p, x);
    AdjacentFlipsParity(w, x);
  }

  /**
   * A queued neighbour of the front cell w, about to be pushed again by w,
   * already has a `parentMap` parent exactly as deep as w.
   */
  lemma RepushedAt(b: Board, visited: set<Coord>, queue: seq<Pending>, parents: map<Coord, Coord>,
                   depth: map<Coord, nat>, k: nat)
    requires 0 < k < |queue| && queue[k].point !in visited && queue[k].point in Neighbors(b, queue[0].point)
    requires SharedDepth(visited, queue, parents, depth) && ParentsVisited(b, visited, parents)
    requires DepthsNondecreasing(depth, queue) && DepthsWithinOne(depth, queue) && DepthParity(depth)
    requires EntryDepth(depth, queue[0]) % 2 == Parity(queue[0].point)
    ensures queue[k].point in parents && parents[queue[k].point] in depth
    ensures depth[parents[queue[k].point]] == EntryDepth(depth, queue[0])
  {
    var x := queue[k].point;
    assert x in Neighbors(b, parents[x]);
    assert EntryDepth(depth, queue[0]) <= EntryDepth(depth, queue[k]);
    ParityPinsDepth(parents[x], queue[0].point, x, depth[parents[x]], EntryDepth(depth, queue[0]));
  }

  /** The entry depths after the pop and push: the old ones shifted down, then the new ones one below w. */
  lemma NewDepths(b: Board, visited: set<Coord>, queue: seq<Pending>, depth: map<Coord, nat>, ns: seq<Coord>)
    requires |queue| > 0 && queue[0].point !in visited && depth.Keys == visited
    requires EntriesFromVisited(b, visited, queue)
    ensures var w, d := queue[0].point, EntryDepth(depth, queue[0]);
            var queue' := queue[1..] + Entries(ns, w);
            forall i :: 0 <= i < |queue'| ==>
              EntryDepth(depth[w := d], queue'[i]) ==
                if i < |queue| - 1 then EntryDepth(depth, queue[i + 1]) else d + 1
  {
    var w, d := queue[0].point, EntryDepth(depth, queue[0]);
    var rest := queue[1..];
    var queue' := rest + Entries(ns, w);
    forall i | 0 <= i < |queue'|
      ensures EntryDepth(depth[w := d], queue'[i]) == if i < |rest| then EntryDepth(depth, queue[i + 1]) else d + 1
    {
      if i < |rest| {
        assert queue'[i] == queue[i + 1];
      } else {
        assert queue'[i] == Pending(ns[i - |rest|], Some(w));
      }
    }
  }

  /** After the pop and push the queue is still ordered by depth, within one level, with nothing visited deeper than the front. */
  lemma LevelsAfterVisit(b: Board, visited: set<Coord>, queue: seq<Pending>, depth: map<Coord, nat>, ns: seq<Coord>)
    requires |queue| > 0 && queue[0].point !in visited && depth.Keys == visited
    requires EntriesFromVisited(b, visited, queue)
    requires DepthsNondecreasing(depth, queue) && DepthsWithinOne(depth, queue) && VisitedBelowFront(depth, queue)
    ensures var w, d := queue[0].point, EntryDepth(depth, queue[0]);
            var depth', queue' := depth[w := d], queue[1..] + Entries(ns, w);
            DepthsNondecreasing(depth', queue') && DepthsWithinOne(depth', queue') && VisitedBelowFront(depth', queue')
  {
    NewDepths(b, visited, queue, depth, ns);
    var w, d := queue[0].point, EntryDepth(depth, queue[0]);
    var depth', queue' := depth[w := d], queue[1..] + Entries(ns, w);
    if |queue| > 1 {
      assert d <= EntryDepth(depth, queue[1]);
    }
    assert |queue'| == 0 || d <= EntryDepth(depth', queue'[0]);
  }

  /** After the pop and push, every entry of an unvisited cell agrees with the cell's `parentMap` parent. */
  lemma SharedAfterVisit(b: Board, visited: set<Coord>, queue: seq<Pending>, parents: map<Coord, Coord>,
                         depth: map<Coord, nat>, ns: seq<Coord>)
    requires |queue| > 0 && queue[0].point !in visited && depth.Keys == visited
    requires EntriesFromVisited(b, visited, queue) && ParentsVisited(b, visited, parents)
    requires SharedDepth(visited, queue, parents, depth) && DepthParity(depth)
    requires DepthsNondecreasing(depth, queue) && DepthsWithinOne(depth, queue)
    requires EntryDepth(depth, queue[0]) % 2 == Parity(queue[0].point)
    requires forall x :: x in ns <==> x in Neighbors(b, queue[0].point) && x !in visited + {queue[0].point}
    ensures var w, d := queue[0].point, EntryDepth(depth, queue[0]);
            SharedDepth(visited + {w}, queue[1..] + Entries(ns, w), Adopt(parents, ns, w), depth[w := d])
  {
    var w, d := queue[0].point, EntryDepth(depth, queue[0]);
    var visited', parents', depth' := visited + {w}, Adopt(parents, ns, w), depth[w := d];
    var rest := queue[1..];
    SharedRest(b, visited, queue, parents, depth, ns);
    SharedPushed(visited', parents', depth', ns, w);
    SharedConcat(visited', rest, Entries(ns, w), parents', depth');
  }

  /**
   * What the pop of the front entry may rely on: the queue invariants before
   * the visit, and ns holding exactly the neighbours of the front cell that
   * are neither visited nor the front cell itself.
   */
  ghost predicate PopReady(b: Board, visited: set<Coord>, queue: seq<Pending>, parents: map<Coord, Coord>,
                           depth: map<Coord, nat>, ns: seq<Coord>) {
    |queue| > 0 && queue[0].point !in visited && depth.Keys == visited &&
    ParentsVisited(b, visited, parents) &&
    SharedDepth(visited, queue, parents, depth) && DepthParity(depth) &&
    DepthsNondecreasing(depth, queue) && DepthsWithinOne(depth, queue) &&
    EntryDepth(depth, queue[0]) % 2 == Parity(queue[0].point) &&
    forall x :: x in ns <==> x in Neighbors(b, queue[0].point) && x !in visited + {queue[0].point}
  }

  /** The entries left after the pop agree with the parent map after the push. */
  lemma SharedRest(b: Board, visited: set<Coord>, queue: seq<Pending>, parents: map<Coord, Coord>,
                   depth: map<Coord, nat>, ns: seq<Coord>)
    requires PopReady(b, visited, queue, parents, depth, ns)
    ensures var w, d := queue[0].point, EntryDepth(depth, queue[0]);
            SharedDepth(visited + {w}, queue[1..], Adopt(parents, ns, w), depth[w := d])
  {
    var w, d := queue[0].point, EntryDepth(depth, queue[0]);
    var visited', parents', depth' := visited + {w}, Adopt(parents, ns, w), depth[w := d];
    var rest := queue[1..];
    forall i | 0 <= i < |rest| && rest[i].point !in visited'
      ensures rest[i].point in parents' && parents'[rest[i].point] in depth' &&
              EntryDepth(depth', rest[i]) == depth'[parents'[rest[i].point]] + 1
    {
      SharedKept(b, visited, queue, parents, depth, ns, i);
    }
  }

  /** The entries w pushes agree with the parent map once it names w for each of them. */
  lemma SharedPushed(visited: set<Coord>, parents: map<Coord, Coord>, depth: map<Coord, nat>, ns: seq<Coord>, w: Coord)
    requires w in depth && forall x :: x in ns ==> x in parents && parents[x] == w
    ensures SharedDepth(visited, Entries(ns, w), parents, depth)
  {
    var es := Entries(ns, w);
    forall i | 0 <= i < |es| && es[i].point !in visited
      ensures es[i].point in parents && parents[es[i].point] in depth &&
              EntryDepth(depth, es[i]) == depth[parents[es[i].point]] + 1
    {
      assert es[i] == Pending(ns[i], Some(w)) && ns[i] in ns;
    }
  }

  lemma SharedConcat(visited: set<Coord>, s: seq<Pending>, t: seq<Pending>, parents: map<Coord, Coord>, depth: map<Coord, nat>)
    requires SharedDepth(visited, s, parents, depth) && SharedDepth(visited, t, parents, depth)
    ensures SharedDepth(visited, s + t, parents, depth)
  {
    var st := s + t;
    forall i | 0 <= i < |st| && st[i].point !in visited
      ensures st[i].point in parents && parents[st[i].point] in depth &&
              EntryDepth(depth, st[i]) == depth[parents[st[i].point]] + 1
    {
      if i < |s| {
        assert st[i] == s[i];
      } else {
        assert st[i] == t[i - |s|];
      }
    }
  }

  /** An older entry of a cell still unvisited after w's visit agrees with the cell's new `parentMap` parent. */
  lemma SharedKept(b: Board, visited: set<Coord>, queue: seq<Pending>, parents: map<Coord, Coord>,
                   depth: map<Coord, nat>, ns: seq<Coord>, i: nat)
    requires PopReady(b, visited, queue, parents, depth, ns)
    requires i < |queue| - 1 && queue[1..][i].point !in visited + {queue[0].point}
    ensures var w, d := queue[0].point, EntryDepth(depth, queue[0]);
            var x, parents', depth' := queue[1..][i].point, Adopt(parents, ns, w), depth[w := d];
            x in parents' && parents'[x] in depth' && EntryDepth(depth', queue[1..][i]) == depth'[parents'[x]] + 1
  {
    var k := i + 1;
    assert queue[1..][i] == queue[k];
    if queue[k].point in ns {
      RepushedAt(b, visited, queue, parents, depth, k);
    }
  }

  /** After the visit of w, every neighbour of a visited cell is visited or queued, with the depths bounded. */
  lemma CoveredAfterVisit(b: Board, visited: set<Coord>, queue: seq<Pending>, parents: map<Coord, Coord>,
                          depth: map<Coord, nat>, ns: seq<Coord>)
    requires |queue| > 0 && queue[0].point !in visited && depth.Keys == visited
    requires CoveredNear(b, visited, queue, parents, depth) && VisitedBelowFront(depth, queue)
    requires SharedDepth(visited, queue, parents, depth) && ParentsVisited(b, visited, parents) && DepthParity(depth)
    requires DepthsNondecreasing(depth, queue) && DepthsWithinOne(depth, queue)
    requires queue[0].point in parents && parents[queue[0].point] in depth
    requires EntryDepth(depth, queue[0]) == depth[parents[queue[0].point]] + 1
    requires EntryDepth(depth, queue[0]) % 2 == Parity(queue[0].point)
    requires forall x :: x in ns <==> x in Neighbors(b, queue[0].point) && x !in visited + {queue[0].point}
    ensures var w, d := queue[0].point, EntryDepth(depth, queue[0]);
            CoveredNear(b, visited + {w}, queue[1..] + Entries(ns, w), Adopt(parents, ns, w), depth[w := d])
  {
    var w, d := queue[0].point, EntryDepth(depth, queue[0]);
    var visited', queue', parents', depth' := visited + {w}, queue[1..] + Entries(ns, w), Adopt(parents, ns, w), depth[w := d];
    forall v, x | Seen(visited', v) && v in depth' && x in Neighbors(b, v)
      ensures NearCovered(b, visited', queue', parents', depth', v, x)
    {
      if v == w {
        NewCellCovered(b, visited, queue, parents, depth, ns, x);
      } else {
        assert Seen(visited, v);
        OldCellCovered(b, visited, queue, parents, depth, ns, v, x);
      }
    }
  }

  /** The neighbours of the newly visited w: visited ones lie no deeper than w, the rest are queued by w itself. */
  lemma NewCellCovered(b: Board, visited: set<Coord>, queue: seq<Pending>, parents: map<Coord, Coord>,
                       depth: map<Coord, nat>, ns: seq<Coord>, x: Coord)
    requires |queue| > 0 && queue[0].point !in visited && depth.Keys == visited
    requires VisitedBelowFront(depth, queue) && x in Neighbors(b, queue[0].point)
    requires forall x :: x in ns <==> x in Neighbors(b, queue[0].point) && x !in visited + {queue[0].point}
    ensures var w, d := queue[0].point, EntryDepth(depth, queue[0]);
            NearCovered(b, visited + {w}, queue[1..] + Entries(ns, w), Adopt(parents, ns, w), depth[w := d], w, x)
  {
    ListedPush(queue[1..], ns, queue[0].point, x);
  }

  /**
   * The neighbours of a cell v visited before w: w itself is now one level
   * below v at most, and a cell w queues again keeps a parent exactly as
   * deep as w, which is no deeper than v.
   */
  lemma OldCellCovered(b: Board, visited: set<Coord>, queue: seq<Pending>, parents: map<Coord, Coord>,
                       depth: map<Coord, nat>, ns: seq<Coord>, v: Coord, x: Coord)
    requires |queue| > 0 && queue[0].point !in visited && depth.Keys == visited
    requires v in visited && x in Neighbors(b, v) && NearCovered(b, visited, queue, parents, depth, v, x)
    requires SharedDepth(visited, queue, parents, depth) && ParentsVisited(b, visited, parents) && DepthParity(depth)
    requires DepthsNondecreasing(depth, queue) && DepthsWithinOne(depth, queue)
    requires queue[0].point in parents && parents[queue[0].point] in depth
    requires EntryDepth(depth, queue[0]) == depth[parents[queue[0].point]] + 1
    requires EntryDepth(depth, queue[0]) % 2 == Parity(queue[0].point)
    requires forall x :: x in ns <==> x in Neighbors(b, queue[0].point) && x !in visited + {queue[0].point}
    ensures var w, d := queue[0].point, EntryDepth(depth, queue[0]);
            NearCovered(b, visited + {w}, queue[1..] + Entries(ns, w), Adopt(parents, ns, w), depth[w := d], v, x)
  {
    var w := queue[0].point;
    ListedPush(queue[1..], ns, w, x);
    if x != w && x !in visited {
      ListedShift(queue, x);
      if x in ns {
        var k := ListedAt(queue, x);
        RepushedAt(b, visited, queue, parents, depth, k);
      }
    }
  }

  /** The first turn visits start at depth 0, records no edge and queues start's neighbours at depth 1. */
  lemma BfsFirstVisit(b: Board)
    requires ValidBoard(b)
    ensures var ns := Without(Neighbors(b, Start), {Start});
            BfsInv(b, {Start}, Entries(ns, Start), Adopt(map[], ns, Start), map[Start := 0], [])
  {
    var ns := Without(Neighbors(b, Start), {Start});
    FirstPassable(b);
    FirstEntries(b, ns);
    FirstParents(b, ns);
    FirstLevels(ns);
    FirstCovered(b, ns);
    EmptyTrace(b);
  }

  lemma FirstParents(b: Board, ns: seq<Coord>)
    requires forall x :: x in ns <==> x in Neighbors(b, Start) && x != Start
    ensures ParentsVisited(b, {Start}, Adopt(map[], ns, Start))
    ensures DepthLinks({Start}, Adopt(map[], ns, Start), map[Start := 0])
    ensures SharedDepth({Start}, Entries(ns, Start), Adopt(map[], ns, Start), map[Start := 0])
  {
    var parents, queue := Adopt(map[], ns, Start), Entries(ns, Start);
    forall x {:trigger parents[x]} | x in parents ensures parents[x] in {Start} && x in Neighbors(b, parents[x]) && x != Start {
    }
    assert forall v :: Seen({Start}, v) ==> v == Start;
    forall i | 0 <= i < |queue| && queue[i].point !in {Start}
      ensures queue[i].point in parents && parents[queue[i].point] in map[Start := 0] &&
              EntryDepth(map[Start := 0], queue[i]) == map[Start := 0][parents[queue[i].point]] + 1
    {
      assert queue[i] == Pending(ns[i], Some(Start)) && ns[i] in ns;
    }
  }

  lemma FirstLevels(ns: seq<Coord>)
    ensures var depth, queue := map[Start := 0], Entries(ns, Start);
            DepthParity(depth) && DepthsNondecreasing(depth, queue) && DepthsWithinOne(depth, queue) &&
            VisitedBelowFront(depth, queue)
  {
    var depth, queue := map[Start := 0], Entries(ns, Start);
    assert forall i :: 0 <= i < |queue| ==> queue[i] == Pending(ns[i], Some(Start));
  }

  lemma FirstCovered(b: Board, ns: seq<Coord>)
    requires forall x :: x in ns <==> x in Neighbors(b, Start) && x != Start
    ensures CoveredNear(b, {Start}, Entries(ns, Start), Adopt(map[], ns, Start), map[Start := 0])
  {
    var queue, parents, depth := Entries(ns, Start), Adopt(map[], ns, Start), map[Start := 0];
    forall v, x | Seen({Start}, v) && v in depth && x in Neighbors(b, v)
      ensures NearCovered(b, {Start}, queue, parents, depth, v, x)
    {
      ListedPush([], ns, Start, x);
      assert [] + queue == queue;
    }
  }

  /** Before the first pop only start's entry is queued; visiting it is the first visit. */
  lemma FirstTurn(b: Board, visited: set<Coord>, queue: seq<Pending>, parents: map<Coord, Coord>,
                  depth: map<Coord, nat>, trace: seq<Edge>)
    requires ValidBoard(b) && Initial(visited, queue, parents, depth, trace)
    ensures var top := queue[0];
            var visited' := visited + {top.point};
            var ns := Without(Neighbors(b, top.point), visited');
            top == Pending(Start, None) && top.point != b.food &&
            BfsInv(b, visited', queue[1..] + Entries(ns, top.point), Adopt(parents, ns, top.point),
                   depth[top.point := EntryDepth(depth, top)], trace)
  {
    assert queue[1..] + Entries(Without(Neighbors(b, Start), {Start}), Start) ==
           Entries(Without(Neighbors(b, Start), {Start}), Start);
    assert visited + {Start} == {Start};
    BfsFirstVisit(b);
  }

  /**
   * Every route from start is at least as long as the depth it reaches: a
   * visited cell at its end is no deeper than the route is long, and an
   * unvisited one lies no nearer than the front of the queue.
   */
  lemma {:induction false} RouteBound(b: Board, visited: set<Coord>, queue: seq<Pending>, parents: map<Coord, Coord>,
                                      depth: map<Coord, nat>, r: seq<Coord>)
    requires |queue| > 0 && IsRoute(b, r)
    requires DepthLinks(visited, parents, depth) && CoveredNear(b, visited, queue, parents, depth)
    requires SharedDepth(visited, queue, parents, depth) && DepthsNondecreasing(depth, queue)
    requires VisitedBelowFront(depth, queue)
    ensures Last(r) in visited ==> depth[Last(r)] <= |r|
    ensures Last(r) !in visited ==> EntryDepth(depth, queue[0]) <= |r|
    decreases |r|
  {
    var x := Last(r);
    var v := if |r| == 1 then Start else r[|r| - 2];
    if |r| > 1 {
      RouteFront(b, r);
      RouteBound(b, visited, queue, parents, depth, r[..|r| - 1]);
      assert v == Last(r[..|r| - 1]);
    }
    NeighborsComplete(b, v, x);
    if v in visited {
      assert Seen(visited, v);
      if x !in visited {
        var k := ListedAt(queue, x);
        assert EntryDepth(depth, queue[0]) <= EntryDepth(depth, queue[k]);
      }
    }
  }

  /**
   * When the oldest entry's cell is food: ranking the visited cells by depth
   * and food by its entry's depth makes the parent map's chains end at
   * start, and no route to food is shorter than that depth.
   */
  lemma BfsFound(b: Board, visited: set<Coord>, queue: seq<Pending>, parents: map<Coord, Coord>,
                 depth: map<Coord, nat>, trace: seq<Edge>)
    requires BfsInv(b, visited, queue, parents, depth, trace)
    requires |queue| > 0 && queue[0].point == b.food
    ensures queue[0].parent.Some?
    ensures var d := EntryDepth(depth, queue[0]);
            var rank := depth[b.food := d];
            ParentChains(b, parents, rank) && rank[Start] == 0 && rank[b.food] == d &&
            DiscoveryTree(b, trace + [Edge(queue[0].parent.value, b.food)]) &&
            (forall r :: IsRoute(b, r) && Last(r) == b.food ==> d <= |r|)
  {
    var top := queue[0];
    BfsPopped(b, visited, queue, parents, depth, trace);
    DiscoveryTreeExtend(b, trace, Edge(top.parent.value, b.food));
    FoundChains(b, visited, parents, depth, b.food, EntryDepth(depth, top));
    forall r | IsRoute(b, r) && Last(r) == b.food ensures EntryDepth(depth, top) <= |r| {
      RouteBound(b, visited, queue, parents, depth, r);
    }
  }

  /** Ranking visited cells by depth and the new cell w one below its parent makes the parent links chains to start. */
  lemma FoundChains(b: Board, visited: set<Coord>, parents: map<Coord, Coord>, depth: map<Coord, nat>, w: Coord, d: nat)
    requires ParentsVisited(b, visited, parents) && DepthLinks(visited, parents, depth) && AllPassable(b, visited)
    requires w !in visited && Passable(b, w) && w in parents && parents[w] in visited && depth[parents[w]] + 1 == d
    ensures ParentChains(b, parents, depth[w := d])
  {
    var rank := depth[w := d];
    forall v {:trigger Ranked(rank, v)} | Ranked(rank, v)
      ensures Passable(b, v) &&
              (v != Start ==> v in parents && parents[v] in rank && v in Neighbors(b, parents[v]) &&
                              rank[parents[v]] < rank[v])
    {
      if v != w {
        assert Seen(visited, v);
      }
    }
  }

  /** An empty queue leaves a visited region closed under the neighbour relation, without food. */
  lemma BfsExhausted(b: Board, visited: set<Coord>, queue: seq<Pending>, parents: map<Coord, Coord>,
                     depth: map<Coord, nat>, trace: seq<Edge>)
    requires BfsInv(b, visited, queue, parents, depth, trace) && queue == []
    ensures {Start} + Targets(trace) == visited
    ensures ClosedUnder(b, visited) && !Reachable(b, b.food)
  {
    forall v, w | v in visited && w in Neighbors(b, v) ensures w in visited {
      assert Seen(visited, v);
    }
    OutsideClosedRegionUnreachable(b, visited, b.food);
  }

  /**
   * `findPathBFS`. The trace is a discovery tree. A returned path is a
   * duplicate-free route from start to food that no route to food is
   * shorter than, and the trace then ends with the edge to food; no path is
   * returned only when the visited region is closed and food is unreachable.
   */
  method Bfs(b: Board) returns (res: SearchResult)
    requires ValidBoard(b)
    ensures DiscoveryTree(b, res.trace)
    ensures res.path.Some? ==>
              var p := res.path.value;
              IsRoute(b, p) && Last(p) == b.food && Start !in p && NoDup(p) &&
              forall r :: IsRoute(b, r) && Last(r) == b.food ==> |p| <= |r|
    ensures res.path.None? <==> !Reachable(b, b.food)
    ensures res.path.None? ==> ClosedUnder(b, {Start} + Targets(res.trace)) && b.food !in Targets(res.trace)
    ensures res.path.Some? ==> |res.trace| > 0 && res.trace[|res.trace| - 1].to == b.food && b.food in Targets(res.trace)
  {
    var trace: seq<Edge> := [];
    var visited: set<Coord> := {};
    var queue := [Pending(Start, None)];
    var parentMap: map<Coord, Coord> := map[];
    ghost var depth: map<Coord, nat> := map[];
    while |queue| > 0
      invariant Initial(visited, queue, parentMap, depth, trace) || BfsInv(b, visited, queue, parentMap, depth, trace)
      invariant AllPassable(b, visited)
      decreases AllCells(b.size) - visited, |queue|
    {
      var top := queue[0];
      if top.point in visited {
        BfsSkip(b, visited, queue, parentMap, depth, trace);
        queue := queue[1..];
        continue;
      }
      ghost var d := EntryDepth(depth, top);
      if visited == {} {
        FirstTurn(b, visited, queue, parentMap, depth, trace);
      } else if top.point == b.food {
        BfsFound(b, visited, queue, parentMap, depth, trace);
      } else {
        BfsVisit(b, visited, queue, parentMap, depth, trace);
      }
      depth := depth[top.point := d];
      queue := queue[1..];
      PassableInAllCells(b, top.point);
      visited := visited + {top.point};
      if top.parent.Some? {
        AppendReaches(trace, Edge(top.parent.value, top.point));
        trace := trace + [Edge(top.parent.value, top.point)];
      }
      if top.point == b.food {
        var path := Reconstruct(b, parentMap, top.point, depth);
        RouteReachable(b, path);
        return SearchResult(Some(path), trace);
      }
      queue, parentMap := PushUnvisited(b, queue, parentMap, top.point, visited);
    }
    BfsExhausted(b, visited, queue, parentMap, depth, trace);
    return SearchResult(None, trace);
  }
}
