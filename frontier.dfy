/**
 * The frontier bookkeeping DFS and BFS share: `{point, parent}` entries, the
 * filter that keeps unvisited neighbours, and the push loop that appends an
 * entry per unvisited neighbour and overwrites that neighbour's `parentMap`
 * entry. (`stack.push` and `queue.push` both append at the end; the two
 * searches differ only in which end they take entries from.)
 */
module Frontier {
  import opened Wrappers
  import opened Grid
  import opened Routes

  datatype Pending = Pending(point: Coord, parent: Option<Coord>)

  /** `ns.filter(n => !visited.has(n))`: the members of ns outside visited, in order. */
  function Without(ns: seq<Coord>, visited: set<Coord>): (r: seq<Coord>)
    ensures forall q :: q in r <==> q in ns && q !in visited
    ensures |r| <= |ns|
  {
    if ns == [] then []
    else Without(ns[..|ns| - 1], visited) + (if Last(ns) in visited then [] else [Last(ns)])
  }

  /** Filtering keeps the up/right/down/left order of a neighbour list. */
  lemma {:induction false} WithoutKeepsOrder(p: Coord, ns: seq<Coord>, visited: set<Coord>)
    requires InDirectionOrder(p, ns)
    ensures InDirectionOrder(p, Without(ns, visited))
    decreases |ns|
  {
    if ns != [] {
      var front := ns[..|ns| - 1];
      WithoutKeepsOrder(p, front, visited);
      var r, rf := Without(ns, visited), Without(front, visited);
      assert ns[..|ns| - 1] == front;
      if Last(ns) !in visited {
        assert r == rf + [Last(ns)];
        forall i, j | 0 <= i < j < |r| ensures DirectionIndex(p, r[i]) < DirectionIndex(p, r[j]) {
          if j == |rf| {
            assert r[i] == rf[i] && r[i] in front;
            var k :| 0 <= k < |front| && front[k] == r[i];
            assert ns[k] == r[i] && r[j] == ns[|ns| - 1];
          } else {
            assert r[i] == rf[i] && r[j] == rf[j];
          }
        }
      } else {
        assert r == rf;
        assert InDirectionOrder(p, rf);
      }
    }
  }

  /** The entries pushed for ns, each with parent u. */
  function Entries(ns: seq<Coord>, u: Coord): (es: seq<Pending>)
    ensures |es| == |ns|
  {
    seq(|ns|, i requires 0 <= i < |ns| => Pending(ns[i], Some(u)))
  }

  /** Some entry of s is for w (a recursive test, so that it is unfolded only where a proof asks). */
  predicate Listed(s: seq<Pending>, w: Coord)
    decreases |s|
  {
    s != [] && (Last(s).point == w || Listed(s[..|s| - 1], w))
  }

  /** The parent carried by the entry for w nearest the end of s (the last one pushed). */
  function LastParent(s: seq<Pending>, w: Coord): Option<Coord> {
    if s == [] then None
    else if Last(s).point == w then Last(s).parent
    else LastParent(s[..|s| - 1], w)
  }

  /** The parent map after `parentMap.set(n, u)` for each n of ns in turn. */
  function Adopt(parents: map<Coord, Coord>, ns: seq<Coord>, u: Coord): (m: map<Coord, Coord>)
    ensures forall c :: c in m <==> c in parents || c in ns
    ensures forall c :: c in ns ==> m[c] == u
    ensures forall c :: c in parents && c !in ns ==> m[c] == parents[c]
  {
    if ns == [] then parents else Adopt(parents, ns[..|ns| - 1], u)[Last(ns) := u]
  }

  /** A listed cell has an entry at some position. */
  lemma {:induction false} ListedAt(s: seq<Pending>, w: Coord) returns (i: nat)
    requires Listed(s, w)
    ensures i < |s| && s[i].point == w
    decreases |s|
  {
    if Last(s).point == w {
      i := |s| - 1;
    } else {
      i := ListedAt(s[..|s| - 1], w);
    }
  }

  /** The cell of every entry is listed. */
  lemma {:induction false} EntryListed(s: seq<Pending>, i: nat)
    requires i < |s|
    ensures Listed(s, s[i].point)
    decreases |s|
  {
    if i < |s| - 1 {
      EntryListed(s[..|s| - 1], i);
    }
  }

  /** Taking the oldest entry off the front. */
  lemma {:induction false} ListedShift(s: seq<Pending>, w: Coord)
    requires |s| > 0
    ensures Listed(s, w) <==> s[0].point == w || Listed(s[1..], w)
    decreases |s|
  {
    if |s| > 1 {
      assert s[1..][..|s| - 2] == s[..|s| - 1][1..];
      ListedShift(s[..|s| - 1], w);
    }
  }

  /** Appending entries for ns lists exactly the cells of ns besides those listed before. */
  lemma {:induction false} ListedPush(s: seq<Pending>, ns: seq<Coord>, u: Coord, w: Coord)
    ensures Listed(s + Entries(ns, u), w) <==> Listed(s, w) || w in ns
    decreases |ns|
  {
    var t := s + Entries(ns, u);
    if ns != [] {
      var front := ns[..|ns| - 1];
      assert t[..|t| - 1] == s + Entries(front, u);
      ListedPush(s, front, u, w);
    } else {
      assert t == s;
    }
  }

  /** After a push, the newest entry of a pushed cell names the pusher; other cells are unaffected. */
  lemma {:induction false} LastParentPush(s: seq<Pending>, ns: seq<Coord>, u: Coord, w: Coord)
    ensures LastParent(s + Entries(ns, u), w) == if w in ns then Some(u) else LastParent(s, w)
    decreases |ns|
  {
    var t := s + Entries(ns, u);
    if ns != [] {
      var front := ns[..|ns| - 1];
      assert t[..|t| - 1] == s + Entries(front, u);
      LastParentPush(s, front, u, w);
    } else {
      assert t == s;
    }
  }

  /**
   * The push loop of DFS and BFS: for each neighbour of `point` in order that
   * is not visited, append `{neighbor, point}` and set `parentMap[neighbor]`
   * to `point`.
   */
  method PushUnvisited(b: Board, pending: seq<Pending>, parents: map<Coord, Coord>, point: Coord, visited: set<Coord>)
    returns (pending': seq<Pending>, parents': map<Coord, Coord>)
    requires WellFormed(b)
    ensures pending' == pending + Entries(Without(Neighbors(b, point), visited), point)
    ensures parents' == Adopt(parents, Without(Neighbors(b, point), visited), point)
  {
    var ns := GetNeighbors(b, point);
    pending', parents' := pending, parents;
    ghost var kept: seq<Coord> := [];
    for i := 0 to |ns|
      invariant kept == Without(ns[..i], visited)
      invariant pending' == pending + Entries(kept, point)
      invariant parents' == Adopt(parents, kept, point)
    {
      WithoutSnoc(ns, i, visited);
      if ns[i] !in visited {
        PushEntry(pending, kept, ns[i], point);
        AdoptSnoc(parents, kept, ns[i], point);
        pending' := pending' + [Pending(ns[i], Some(point))];
        parents' := parents'[ns[i] := point];
        kept := kept + [ns[i]];
      }
    }
    assert ns[..|ns|] == ns;
  }

  /** Filtering one more cell appends it exactly when it is not visited. */
  lemma WithoutSnoc(ns: seq<Coord>, i: nat, visited: set<Coord>)
    requires i < |ns|
    ensures ns[i] in visited ==> Without(ns[..i + 1], visited) == Without(ns[..i], visited)
    ensures ns[i] !in visited ==> Without(ns[..i + 1], visited) == Without(ns[..i], visited) + [ns[i]]
  {
    assert ns[..i + 1][..i] == ns[..i];
    assert Without(ns[..i], visited) + [] == Without(ns[..i], visited);
  }

  lemma PushEntry(pending: seq<Pending>, kept: seq<Coord>, x: Coord, u: Coord)
    ensures pending + Entries(kept + [x], u) == pending + Entries(kept, u) + [Pending(x, Some(u))]
  {
    assert Entries(kept + [x], u) == Entries(kept, u) + [Pending(x, Some(u))];
  }

  lemma AdoptSnoc(parents: map<Coord, Coord>, kept: seq<Coord>, x: Coord, u: Coord)
    ensures Adopt(parents, kept + [x], u) == Adopt(parents, kept, u)[x := u]
  {
    assert (kept + [x])[..|kept|] == kept;
  }

  /** The state before the first pop: only start's entry, with no parent; nothing visited, ranked or recorded. */
  ghost predicate Initial(visited: set<Coord>, pending: seq<Pending>, parents: map<Coord, Coord>,
                          rank: map<Coord, nat>, trace: seq<Edge>) {
    visited == {} && pending == [Pending(Start, None)] && parents == map[] && rank == map[] && trace == []
  }

  ghost predicate AllPassable(b: Board, cells: set<Coord>) {
    forall v :: v in cells ==> Passable(b, v)
  }

  /** Every pending entry names a visited parent one move from its passable cell. */
  ghost predicate EntriesFromVisited(b: Board, visited: set<Coord>, pending: seq<Pending>) {
    forall i :: 0 <= i < |pending| ==>
      pending[i].parent.Some? && pending[i].parent.value in visited &&
      Passable(b, pending[i].point) && Adjacent(pending[i].parent.value, pending[i].point)
  }

  /** Every cell in the parent map other than start names a visited parent it neighbours. */
  ghost predicate ParentsVisited(b: Board, visited: set<Coord>, parents: map<Coord, Coord>) {
    Start !in parents &&
    forall w {:trigger parents[w]} :: w in parents ==>
      parents[w] in visited && w in Neighbors(b, parents[w]) && w != Start
  }

  lemma AllPassableAdd(b: Board, cells: set<Coord>, w: Coord)
    requires AllPassable(b, cells) && Passable(b, w)
    ensures AllPassable(b, cells + {w})
  {
  }

  lemma FirstPassable(b: Board)
    requires ValidBoard(b)
    ensures AllPassable(b, {Start})
  {
    assert Passable(b, Start);
  }

  lemma FirstEntries(b: Board, ns: seq<Coord>)
    requires forall x :: x in ns <==> x in Neighbors(b, Start) && x != Start
    ensures EntriesFromVisited(b, {Start}, Entries(ns, Start))
  {
    var es := Entries(ns, Start);
    forall i | 0 <= i < |es|
      ensures es[i].parent.Some? && es[i].parent.value in {Start} && Passable(b, es[i].point) && Adjacent(es[i].parent.value, es[i].point)
    {
      assert es[i] == Pending(ns[i], Some(Start)) && ns[i] in ns;
    }
  }

  lemma RemoveThenAdd(t: set<Coord>, v: set<Coord>, s: Coord, w: Coord)
    requires t == v - {s} && w != s
    ensures t + {w} == (v + {w}) - {s}
  {
  }

  lemma EntriesAfterVisit(b: Board, visited: set<Coord>, rest: seq<Pending>, w: Coord, ns: seq<Coord>)
    requires EntriesFromVisited(b, visited, rest)
    requires forall x :: x in ns <==> x in Neighbors(b, w) && x !in visited + {w}
    ensures EntriesFromVisited(b, visited + {w}, rest + Entries(ns, w))
  {
    var pending' := rest + Entries(ns, w);
    forall i | 0 <= i < |pending'|
      ensures pending'[i].parent.Some? && pending'[i].parent.value in visited + {w} &&
              Passable(b, pending'[i].point) && Adjacent(pending'[i].parent.value, pending'[i].point)
    {
      if i < |rest| {
        assert pending'[i] == rest[i];
      } else {
        assert pending'[i] == Pending(ns[i - |rest|], Some(w));
        assert ns[i - |rest|] in ns;
      }
    }
  }

  /** After the push, every cell in the parent map names a visited parent one move away. */
  lemma PushedParents(b: Board, visited: set<Coord>, parents: map<Coord, Coord>, w: Coord, ns: seq<Coord>)
    requires ParentsVisited(b, visited, parents) && Start in visited
    requires forall x :: x in ns <==> x in Neighbors(b, w) && x !in visited + {w}
    ensures ParentsVisited(b, visited + {w}, Adopt(parents, ns, w))
  {
    var visited', parents' := visited + {w}, Adopt(parents, ns, w);
    assert Start in visited';
    assert Start !in ns;
    forall x {:trigger parents'[x]} | x in parents'
      ensures parents'[x] in visited' && x in Neighbors(b, parents'[x]) && x != Start
    {
      if x in ns {
        assert x !in visited';
      }
    }
  }
}
