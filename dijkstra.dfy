/**
 * `findPathDijkstra`: every passable cell starts unvisited at distance
 * infinity, listed in row-major order, and start is set to distance 0.
 * Each turn scans the unvisited cells in that order for the first one of
 * strictly lowest distance and stops when that distance is infinity. The
 * chosen cell leaves the unvisited set; if it is food, the path is rebuilt
 * from `previous`. Otherwise each of its neighbours is recorded in the
 * trace and, if still unvisited, given distance one more than the chosen
 * cell's when that is strictly lower than its own.
 *
 * Every move costs one, so a chosen cell's distance is already its
 * shortest distance from start; the cells chosen so far (the settled
 * cells) keep their distances, and the path returned is a shortest route
 * to food.
 */
module DijkstraSearch {
  import opened Wrappers
  import opened Grid
  import opened Routes
  import opened Traces

  /** A tentative distance: a number of moves, or infinity. */
  datatype Distance = Fin(n: nat) | Inf

  /** `a < b` on distances: infinity is above every number and not below itself. */
  predicate Below(a: Distance, b: Distance) {
    a.Fin? && (b.Inf? || a.n < b.n)
  }

  /** The two maps the search updates: `distances` and `previous`. */
  datatype Labels = Labels(dist: map<Coord, Distance>, previous: map<Coord, Coord>)

  /** p comes before q when the board is read row by row, left to right. */
  predicate Before(p: Coord, q: Coord) {
    p.y < q.y || (p.y == q.y && p.x < q.x)
  }

  /** The cells of s are in row-major order. */
  predicate RowMajor(s: seq<Coord>) {
    forall i, j :: 0 <= i < j < |s| ==> Before(s[i], s[j])
  }

  lemma RowMajorNoDup(s: seq<Coord>)
    requires RowMajor(s)
    ensures NoDup(s)
  {
    forall i, j | 0 <= i < j < |s| ensures s[i] != s[j] {
      assert Before(s[i], s[j]);
    }
  }

  lemma RowMajorConcat(s: seq<Coord>, t: seq<Coord>)
    requires RowMajor(s) && RowMajor(t)
    requires forall p, q :: p in s && q in t ==> Before(p, q)
    ensures RowMajor(s + t)
  {
    var st := s + t;
    forall i, j | 0 <= i < j < |st| ensures Before(st[i], st[j]) {
      if j < |s| {
        assert st[i] == s[i] && st[j] == s[j];
      } else if i >= |s| {
        assert st[i] == t[i - |s|] && st[j] == t[j - |s|];
      } else {
        assert st[i] in s && st[j] in t;
      }
    }
  }

  /** The passable cells of row y with a column below x, left to right. */
  function RowCells(b: Board, y: int, x: nat): (r: seq<Coord>)
    ensures forall c :: c in r <==> c.y == y && c.x < x && Passable(b, c)
    ensures RowMajor(r)
  {
    if x == 0 then []
    else
      var front := RowCells(b, y, x - 1);
      var c := Coord(x - 1, y);
      if Passable(b, c) then
        RowMajorConcat(front, [c]);
        front + [c]
      else front
  }

  /** The passable cells of the first y rows, in row-major order. */
  function GridCells(b: Board, y: nat): (r: seq<Coord>)
    ensures forall c :: c in r <==> c.y < y && Passable(b, c)
    ensures RowMajor(r)
  {
    if y == 0 then []
    else
      var front := GridCells(b, y - 1);
      var row := RowCells(b, y - 1, b.size);
      RowMajorConcat(front, row);
      front + row
  }

  /**
   * The nested loops over rows and columns: every cell that is not an
   * obstacle gets distance infinity and joins the unvisited set, in
   * row-major order.
   */
  method InitDistances(b: Board) returns (distances: map<Coord, Distance>, unvisited: seq<Coord>)
    requires WellFormed(b)
    ensures unvisited == GridCells(b, b.size)
    ensures forall c :: c in distances <==> Passable(b, c)
    ensures forall c :: c in distances ==> distances[c] == Inf
  {
    distances, unvisited := map[], [];
    for y := 0 to b.size
      invariant unvisited == GridCells(b, y)
      invariant forall c :: c in distances <==> c in unvisited
      invariant forall c :: c in distances ==> distances[c] == Inf
    {
      for x := 0 to b.size
        invariant unvisited == GridCells(b, y) + RowCells(b, y, x)
        invariant forall c :: c in distances <==> c in unvisited
        invariant forall c :: c in distances ==> distances[c] == Inf
      {
        if b.cells[y][x] != ObstacleCell {
          distances := distances[Coord(x, y) := Inf];
          unvisited := unvisited + [Coord(x, y)];
        }
      }
    }
  }

  /**
   * The scan for `current`: starting from infinity, each unvisited cell
   * whose distance is strictly below the lowest so far replaces it. The
   * result is the position of the first unvisited cell of lowest finite
   * distance, or None when every unvisited cell is at infinity.
   */
  method Closest(unvisited: seq<Coord>, dist: map<Coord, Distance>) returns (current: Option<nat>, minDistance: Distance)
    requires forall c :: c in unvisited ==> c in dist
    ensures current.None? <==> minDistance.Inf?
    ensures current.None? ==> forall j :: 0 <= j < |unvisited| ==> dist[unvisited[j]].Inf?
    ensures current.Some? ==>
              current.value < |unvisited| && dist[unvisited[current.value]] == minDistance &&
              (forall j :: 0 <= j < |unvisited| ==> !Below(dist[unvisited[j]], minDistance)) &&
              (forall j :: 0 <= j < current.value ==> Below(minDistance, dist[unvisited[j]]))
  {
    current, minDistance := None, Inf;
    for k := 0 to |unvisited|
      invariant current.None? <==> minDistance.Inf?
      invariant current.Some? ==> current.value < k && dist[unvisited[current.value]] == minDistance
      invariant forall j :: 0 <= j < k ==> !Below(dist[unvisited[j]], minDistance)
      invariant current.Some? ==> forall j :: 0 <= j < current.value ==> Below(minDistance, dist[unvisited[j]])
    {
      var distance := dist[unvisited[k]];
      if Below(distance, minDistance) {
        current, minDistance := Some(k), distance;
      }
    }
  }

  /** v has a finite distance. */
  ghost predicate Finite(dist: map<Coord, Distance>, v: Coord) {
    v in dist && dist[v].Fin?
  }

  /**
   * One neighbour y of the newly settled cell u: skipped unless unvisited;
   * otherwise its distance and `previous` entry are set when one move more
   * than u's distance is strictly lower than its distance.
   */
  function RelaxStep(s: Labels, unvisited: seq<Coord>, u: Coord, y: Coord): (r: Labels)
    requires Finite(s.dist, u) && u !in unvisited
    requires forall c :: c in unvisited ==> c in s.dist
    ensures r.dist.Keys == s.dist.Keys
    ensures forall c :: c in s.dist && c !in unvisited ==> r.dist[c] == s.dist[c]
  {
    if y !in unvisited then s
    else
      var distance := Fin(s.dist[u].n + 1);
      if Below(distance, s.dist[y]) then Labels(s.dist[y := distance], s.previous[y := u]) else s
  }

  /** The neighbours ns of u relaxed in order. */
  function RelaxAll(s: Labels, unvisited: seq<Coord>, u: Coord, ns: seq<Coord>): (r: Labels)
    requires Finite(s.dist, u) && u !in unvisited
    requires forall c :: c in unvisited ==> c in s.dist
    ensures r.dist.Keys == s.dist.Keys
    ensures forall c :: c in s.dist && c !in unvisited ==> r.dist[c] == s.dist[c]
    decreases |ns|
  {
    if ns == [] then s
    else RelaxStep(RelaxAll(s, unvisited, u, ns[..|ns| - 1]), unvisited, u, Last(ns))
  }

  lemma RelaxAllSnoc(s: Labels, unvisited: seq<Coord>, u: Coord, ns: seq<Coord>, k: nat)
    requires Finite(s.dist, u) && u !in unvisited
    requires forall c :: c in unvisited ==> c in s.dist
    requires k < |ns|
    ensures RelaxAll(s, unvisited, u, ns[..k + 1]) == RelaxStep(RelaxAll(s, unvisited, u, ns[..k]), unvisited, u, ns[k])
  {
    assert ns[..k + 1][..k] == ns[..k];
  }

  /**
   * The body of the neighbour loop once the edge is recorded. It updates the
   * separate map variables in place, with the same early exits as the loop
   * body, and its contract ties the outcome to `RelaxStep`, the value-level
   * step the invariant lemmas reason about. Keeping this body out of `Expand`
   * keeps that loop's proof small.
   */
  method Relax(dist: map<Coord, Distance>, previous: map<Coord, Coord>, unvisited: seq<Coord>, current: Coord, neighbor: Coord)
    returns (dist': map<Coord, Distance>, previous': map<Coord, Coord>)
    requires Finite(dist, current) && current !in unvisited
    requires forall c :: c in unvisited ==> c in dist
    ensures Labels(dist', previous') == RelaxStep(Labels(dist, previous), unvisited, current, neighbor)
  {
    dist', previous' := dist, previous;
    if neighbor !in unvisited {
      return;
    }
    var distance := Fin(dist[current].n + 1);
    if Below(distance, dist[neighbor]) {
      dist' := dist[neighbor := distance];
      previous' := previous[neighbor := current];
    }
  }

  /**
   * The neighbour loop: record the edge from `current` to each neighbour,
   * then relax the neighbour. The maps end as `RelaxAll` describes.
   */
  method Expand(b: Board, dist: map<Coord, Distance>, previous: map<Coord, Coord>, unvisited: seq<Coord>,
                trace: seq<Edge>, current: Coord)
    returns (dist': map<Coord, Distance>, previous': map<Coord, Coord>, trace': seq<Edge>)
    requires WellFormed(b)
    requires Finite(dist, current) && current !in unvisited
    requires forall c :: c in unvisited ==> c in dist
    ensures Labels(dist', previous') == RelaxAll(Labels(dist, previous), unvisited, current, Neighbors(b, current))
    ensures trace' == trace + EdgesFrom(current, Neighbors(b, current))
  {
    var ns := GetNeighbors(b, current);
    var s := Labels(dist, previous);
    dist', previous', trace' := dist, previous, trace;
    for k := 0 to |ns|
      invariant Labels(dist', previous') == RelaxAll(s, unvisited, current, ns[..k])
      invariant trace' == trace + EdgesFrom(current, ns[..k])
    {
      var neighbor := ns[k];
      RelaxAllSnoc(s, unvisited, current, ns, k);
      EdgesFromSnoc(current, ns, k);
      trace' := trace' + [Edge(current, neighbor)];
      dist', previous' := Relax(dist', previous', unvisited, current, neighbor);
    }
    assert ns[..|ns|] == ns;
  }

  /**
   * Exactly the passable cells have distances; the unvisited cells are
   * passable and in row-major order; every passable cell is either
   * unvisited or settled, and settled cells have finite distances.
   */
  ghost predicate LabelsWF(b: Board, s: Labels, unvisited: seq<Coord>, settled: set<Coord>) {
    RowMajor(unvisited) &&
    (forall c :: c in s.dist <==> Passable(b, c)) &&
    (forall c :: c in unvisited ==> Passable(b, c) && c !in settled) &&
    (forall c :: c in settled ==> Finite(s.dist, c)) &&
    (forall c :: Passable(b, c) ==> c in unvisited || c in settled)
  }

  /**
   * Start is at distance 0 with no `previous` entry; every other cell at a
   * finite distance has a settled `previous` neighbour one move nearer.
   */
  ghost predicate LabelLinks(b: Board, s: Labels, settled: set<Coord>) {
    Finite(s.dist, Start) && s.dist[Start].n == 0 && Start !in s.previous &&
    forall v {:trigger Finite(s.dist, v)} :: Finite(s.dist, v) && v != Start ==>
      v in s.previous && s.previous[v] in settled && s.previous[v] in s.dist && s.dist[s.previous[v]].Fin? &&
      v in Neighbors(b, s.previous[v]) && s.dist[s.previous[v]].n + 1 == s.dist[v].n
  }

  /** Every neighbour of a cell of sources is settled, or at most one move further than the source. */
  ghost predicate Relaxed(b: Board, s: Labels, settled: set<Coord>, sources: set<Coord>) {
    forall x, y {:trigger Seen(sources, x), y in Neighbors(b, x)} ::
      Seen(sources, x) && y in Neighbors(b, x) ==>
        y in settled || (Finite(s.dist, y) && Finite(s.dist, x) && s.dist[y].n <= s.dist[x].n + 1)
  }

  /** No route to a settled cell is shorter than its distance. */
  ghost predicate SettledOptimal(b: Board, s: Labels, settled: set<Coord>) {
    forall r {:trigger IsRoute(b, r)} :: IsRoute(b, r) && Last(r) in settled && Last(r) in s.dist && s.dist[Last(r)].Fin? ==>
      s.dist[Last(r)].n <= |r|
  }

  /** What holds at the top of the loop. */
  ghost predicate DijkstraInv(b: Board, s: Labels, unvisited: seq<Coord>, settled: set<Coord>) {
    b.food !in settled && LabelsWF(b, s, unvisited, settled) && LabelLinks(b, s, settled) &&
    Relaxed(b, s, settled, settled) && SettledOptimal(b, s, settled)
  }

  /** From s to s': the same cells have distances, finite distances only drop, and settled cells keep theirs. */
  ghost predicate Improves(s: Labels, s': Labels, settled: set<Coord>) {
    s'.dist.Keys == s.dist.Keys &&
    (forall c :: Finite(s.dist, c) ==> Finite(s'.dist, c) && s'.dist[c].n <= s.dist[c].n) &&
    (forall c :: c in settled && c in s.dist ==> s'.dist[c] == s.dist[c])
  }

  lemma ImprovesTrans(s: Labels, s': Labels, s'': Labels, settled: set<Coord>)
    requires Improves(s, s', settled) && Improves(s', s'', settled)
    ensures Improves(s, s'', settled)
  {
  }

  /** The start of the search: every passable cell unvisited, start at 0 and the rest at infinity. */
  lemma InitialLabels(b: Board, dist: map<Coord, Distance>, unvisited: seq<Coord>)
    requires ValidBoard(b) && unvisited == GridCells(b, b.size)
    requires forall c :: c in dist <==> Passable(b, c)
    requires forall c :: c in dist ==> dist[c] == Inf
    ensures DijkstraInv(b, Labels(dist[Start := Fin(0)], map[]), unvisited, {})
  {
    assert Passable(b, Start);
    var s := Labels(dist[Start := Fin(0)], map[]);
    forall v {:trigger Finite(s.dist, v)} | Finite(s.dist, v) ensures v == Start {
    }
  }

  /** Relaxing one neighbour keeps the labels well formed and linked, and leaves that neighbour relaxed. */
  lemma RelaxStepKeeps(b: Board, s: Labels, unvisited: seq<Coord>, settled: set<Coord>, u: Coord, y: Coord)
    requires LabelsWF(b, s, unvisited, settled) && LabelLinks(b, s, settled) && u in settled && y in Neighbors(b, u)
    ensures Finite(s.dist, u) && u !in unvisited
    ensures var s' := RelaxStep(s, unvisited, u, y);
            LabelsWF(b, s', unvisited, settled) && LabelLinks(b, s', settled) && Improves(s, s', settled) &&
            (y in settled || (Finite(s'.dist, y) && s'.dist[y].n <= s.dist[u].n + 1))
  {
    assert Finite(s.dist, u);
    if y in unvisited && Below(Fin(s.dist[u].n + 1), s.dist[y]) {
      StepLinks(b, s, settled, u, y);
    }
  }

  lemma StepLinks(b: Board, s: Labels, settled: set<Coord>, u: Coord, y: Coord)
    requires LabelLinks(b, s, settled) && u in settled && Finite(s.dist, u) && y in Neighbors(b, u)
    requires y != Start && y !in settled
    ensures LabelLinks(b, Labels(s.dist[y := Fin(s.dist[u].n + 1)], s.previous[y := u]), settled)
  {
    var s' := Labels(s.dist[y := Fin(s.dist[u].n + 1)], s.previous[y := u]);
    forall v {:trigger Finite(s'.dist, v)} | Finite(s'.dist, v) && v != Start && v != y
      ensures v in s'.previous && s'.previous[v] in settled && s'.previous[v] in s'.dist && s'.dist[s'.previous[v]].Fin? &&
              v in Neighbors(b, s'.previous[v]) && s'.dist[s'.previous[v]].n + 1 == s'.dist[v].n
    {
      assert Finite(s.dist, v);
    }
  }

  /** Every cell of ns is settled, or at a finite distance of at most bound. */
  ghost predicate RelaxedInto(s: Labels, settled: set<Coord>, ns: seq<Coord>, bound: nat) {
    forall y :: y in ns ==> y in settled || (Finite(s.dist, y) && s.dist[y].n <= bound)
  }

  lemma RelaxedIntoSnoc(s1: Labels, s2: Labels, settled: set<Coord>, ns: seq<Coord>, bound: nat)
    requires |ns| > 0 && RelaxedInto(s1, settled, ns[..|ns| - 1], bound) && Improves(s1, s2, settled)
    requires Last(ns) in settled || (Finite(s2.dist, Last(ns)) && s2.dist[Last(ns)].n <= bound)
    ensures RelaxedInto(s2, settled, ns, bound)
  {
    forall y | y in ns ensures y in settled || (Finite(s2.dist, y) && s2.dist[y].n <= bound) {
      if y != Last(ns) {
        assert y in ns[..|ns| - 1];
      }
    }
  }

  /** Relaxing all of ns keeps the labels well formed and linked, and leaves every cell of ns relaxed. */
  lemma {:induction false} RelaxAllKeeps(b: Board, s: Labels, unvisited: seq<Coord>, settled: set<Coord>, u: Coord, ns: seq<Coord>)
    requires LabelsWF(b, s, unvisited, settled) && LabelLinks(b, s, settled) && u in settled
    requires forall y :: y in ns ==> y in Neighbors(b, u)
    ensures Finite(s.dist, u) && u !in unvisited
    ensures var s' := RelaxAll(s, unvisited, u, ns);
            LabelsWF(b, s', unvisited, settled) && LabelLinks(b, s', settled) && Improves(s, s', settled) &&
            RelaxedInto(s', settled, ns, s.dist[u].n + 1)
    decreases |ns|
  {
    assert Finite(s.dist, u);
    if ns != [] {
      var front := ns[..|ns| - 1];
      assert forall y :: y in front ==> y in ns;
      RelaxAllKeeps(b, s, unvisited, settled, u, front);
      var s1 := RelaxAll(s, unvisited, u, front);
      RelaxStepKeeps(b, s1, unvisited, settled, u, Last(ns));
      var s2 := RelaxStep(s1, unvisited, u, Last(ns));
      ImprovesTrans(s, s1, s2, settled);
      RelaxedIntoSnoc(s1, s2, settled, ns, s.dist[u].n + 1);
    }
  }

  /** Taking a cell out of the unvisited list keeps the rest in row-major order. */
  lemma RemoveAtRowMajor(s: seq<Coord>, i: nat)
    requires i < |s| && RowMajor(s)
    ensures NoDup(s) && RowMajor(RemoveAt(s, i))
  {
    RowMajorNoDup(s);
    var r := RemoveAt(s, i);
    assert r == s[..i] + s[i + 1..];
    forall j, k | 0 <= j < k < |r| ensures Before(r[j], r[k]) {
      var j' := if j < i then j else j + 1;
      var k' := if k < i then k else k + 1;
      assert r[j] == s[j'] && r[k] == s[k'];
    }
  }

  /** The unvisited cell at i has the lowest distance, and it is finite. */
  ghost predicate Lowest(s: Labels, unvisited: seq<Coord>, i: nat)
    requires forall c :: c in unvisited ==> c in s.dist
  {
    i < |unvisited| && s.dist[unvisited[i]].Fin? &&
    forall j :: 0 <= j < |unvisited| ==> !Below(s.dist[unvisited[j]], s.dist[unvisited[i]])
  }

  /**
   * The unvisited cell of lowest distance is as near to start as any route
   * to it: follow a route to its first cell that is not settled; that cell
   * is unvisited, with a distance no larger than its place on the route.
   */
  lemma ChosenOptimal(b: Board, s: Labels, unvisited: seq<Coord>, settled: set<Coord>, i: nat, r: seq<Coord>)
    requires LabelsWF(b, s, unvisited, settled) && LabelLinks(b, s, settled)
    requires Relaxed(b, s, settled, settled) && SettledOptimal(b, s, settled)
    requires Lowest(s, unvisited, i)
    requires IsRoute(b, r) && Last(r) == unvisited[i]
    ensures s.dist[unvisited[i]].n <= |r|
  {
    var k := FirstOutside(b, settled, r);
    var w := Walk(r);
    var y := w[k];
    if k > 1 {
      assert IsRoute(b, r[..k - 1]);
    }
    if k > 0 {
      assert Seen(settled, w[k - 1]);
    }
    assert y in unvisited && Finite(s.dist, y) && s.dist[y].n <= k;
    var j :| 0 <= j < |unvisited| && unvisited[j] == y;
  }

  /**
   * Settling the chosen cell u: it leaves the unvisited list and joins the
   * settled set with its distance optimal; every other settled cell stays
   * relaxed.
   */
  lemma CloseChosen(b: Board, s: Labels, unvisited: seq<Coord>, settled: set<Coord>, i: nat)
    requires DijkstraInv(b, s, unvisited, settled) && Lowest(s, unvisited, i)
    ensures NoDup(unvisited)
    ensures var u := unvisited[i];
            var unvisited' := RemoveAt(unvisited, i);
            LabelsWF(b, s, unvisited', settled + {u}) && LabelLinks(b, s, settled + {u}) &&
            Relaxed(b, s, settled + {u}, settled) && SettledOptimal(b, s, settled + {u})
  {
    var u := unvisited[i];
    RemoveAtRowMajor(unvisited, i);
    var settled' := settled + {u};
    forall x, y | Seen(settled, x) && y in Neighbors(b, x)
      ensures y in settled' || (Finite(s.dist, y) && Finite(s.dist, x) && s.dist[y].n <= s.dist[x].n + 1)
    {
    }
    forall r {:trigger IsRoute(b, r)} | IsRoute(b, r) && Last(r) in settled' && Last(r) in s.dist && s.dist[Last(r)].Fin?
      ensures s.dist[Last(r)].n <= |r|
    {
      if Last(r) == u {
        ChosenOptimal(b, s, unvisited, settled, i, r);
      }
    }
  }

  /** After the neighbour loop, the newly settled cell is relaxed too. */
  lemma AfterRelax(b: Board, s1: Labels, s2: Labels, settled: set<Coord>, u: Coord)
    requires Relaxed(b, s1, settled + {u}, settled) && SettledOptimal(b, s1, settled + {u})
    requires Improves(s1, s2, settled + {u}) && Finite(s1.dist, u)
    requires forall c :: c in settled ==> Finite(s1.dist, c)
    requires RelaxedInto(s2, settled + {u}, Neighbors(b, u), s1.dist[u].n + 1)
    ensures Relaxed(b, s2, settled + {u}, settled + {u}) && SettledOptimal(b, s2, settled + {u})
  {
    forall x, y | Seen(settled + {u}, x) && y in Neighbors(b, x)
      ensures y in settled + {u} || (Finite(s2.dist, y) && Finite(s2.dist, x) && s2.dist[y].n <= s2.dist[x].n + 1)
    {
      if x != u {
        assert Seen(settled, x);
      }
    }
  }

  /** A turn that settles a cell other than food and relaxes its neighbours keeps the invariant. */
  lemma DijkstraTurn(b: Board, s: Labels, unvisited: seq<Coord>, settled: set<Coord>, i: nat)
    requires DijkstraInv(b, s, unvisited, settled) && Lowest(s, unvisited, i)
    requires unvisited[i] != b.food
    ensures NoDup(unvisited)
    ensures var u := unvisited[i];
            var unvisited' := RemoveAt(unvisited, i);
            Finite(s.dist, u) && u !in unvisited' && u !in settled && Passable(b, u) && (forall c :: c in unvisited' ==> c in s.dist) &&
            DijkstraInv(b, RelaxAll(s, unvisited', u, Neighbors(b, u)), unvisited', settled + {u})
  {
    var u := unvisited[i];
    CloseChosen(b, s, unvisited, settled, i);
    var unvisited' := RemoveAt(unvisited, i);
    RelaxAllKeeps(b, s, unvisited', settled + {u}, u, Neighbors(b, u));
    var s2 := RelaxAll(s, unvisited', u, Neighbors(b, u));
    AfterRelax(b, s, s2, settled, u);
  }

  /**
   * The cell chosen for settling is start while nothing is settled; any
   * other chosen cell has a settled `previous` neighbour.
   */
  lemma ChosenLinked(b: Board, s: Labels, unvisited: seq<Coord>, settled: set<Coord>, i: nat)
    requires DijkstraInv(b, s, unvisited, settled) && Lowest(s, unvisited, i)
    ensures var u := unvisited[i];
            u !in settled && (settled == {} ==> u == Start) &&
            (u != Start ==> u in s.previous && s.previous[u] in settled && u in Neighbors(b, s.previous[u]))
  {
    assert Finite(s.dist, unvisited[i]);
  }

  /** When food is chosen, it neighbours a settled cell, so the expansion trace reaches it. */
  lemma FoodReached(b: Board, s: Labels, unvisited: seq<Coord>, settled: set<Coord>, trace: seq<Edge>,
                    expanded: seq<Coord>, i: nat)
    requires ValidBoard(b) && DijkstraInv(b, s, unvisited, settled) && ClosingOrder(b, trace, expanded, settled)
    requires Lowest(s, unvisited, i) && unvisited[i] == b.food
    ensures b.food in Targets(trace) && expanded != []
  {
    ChosenLinked(b, s, unvisited, settled, i);
    ExpansionReaches(b, expanded, s.previous[b.food], b.food);
  }

  /** Settling the chosen cell and recording its neighbours keeps the settling order. */
  lemma CloseStep(b: Board, s: Labels, unvisited: seq<Coord>, settled: set<Coord>, trace: seq<Edge>,
                  expanded: seq<Coord>, i: nat)
    requires DijkstraInv(b, s, unvisited, settled) && ClosingOrder(b, trace, expanded, settled)
    requires Lowest(s, unvisited, i)
    ensures var u := unvisited[i];
            ClosingOrder(b, trace + EdgesFrom(u, Neighbors(b, u)), expanded + [u], settled + {u})
  {
    var u := unvisited[i];
    ChosenLinked(b, s, unvisited, settled, i);
    CloseNext(b, trace, expanded, settled, u, if u == Start then Start else s.previous[u]);
  }

  /** The distances that are finite, as numbers. */
  ghost function Known(dist: map<Coord, Distance>): map<Coord, nat> {
    map c | c in dist && dist[c].Fin? :: dist[c].n
  }

  /** When food is chosen: its distance is optimal, and `previous` chains lead back to start. */
  lemma DijkstraFound(b: Board, s: Labels, unvisited: seq<Coord>, settled: set<Coord>, i: nat)
    requires DijkstraInv(b, s, unvisited, settled) && Lowest(s, unvisited, i)
    requires unvisited[i] == b.food
    ensures ParentChains(b, s.previous, Known(s.dist)) && b.food in Known(s.dist) && Known(s.dist)[Start] == 0
    ensures forall r :: IsRoute(b, r) && Last(r) == b.food ==> Known(s.dist)[b.food] <= |r|
  {
    var g := Known(s.dist);
    forall r | IsRoute(b, r) && Last(r) == b.food ensures g[b.food] <= |r| {
      ChosenOptimal(b, s, unvisited, settled, i, r);
    }
    forall v {:trigger Ranked(g, v)} | Ranked(g, v)
      ensures Passable(b, v) &&
              (v != Start ==> v in s.previous && s.previous[v] in g && v in Neighbors(b, s.previous[v]) &&
                              g[s.previous[v]] < g[v])
    {
      assert Finite(s.dist, v);
    }
  }

  /**
   * When every unvisited cell is at infinity, the settled cells hold start
   * and are closed under the neighbour relation, so food is unreachable.
   */
  lemma DijkstraExhausted(b: Board, s: Labels, unvisited: seq<Coord>, settled: set<Coord>)
    requires DijkstraInv(b, s, unvisited, settled)
    requires forall j :: 0 <= j < |unvisited| ==> s.dist[unvisited[j]].Inf?
    ensures Start in settled && ClosedUnder(b, settled) && !Reachable(b, b.food)
    ensures forall c :: Reachable(b, c) ==> c in settled
  {
    assert Start !in unvisited;
    forall v, w | v in settled && w in Neighbors(b, v) ensures w in settled {
      assert Seen(settled, v);
      assert w !in unvisited;
    }
    OutsideClosedRegionUnreachable(b, settled, b.food);
    forall c | Reachable(b, c) ensures c in settled {
      if c !in settled {
        OutsideClosedRegionUnreachable(b, settled, c);
      }
    }
  }

  /**
   * `findPathDijkstra`. A returned path is a duplicate-free route from start
   * to food that no route to food is shorter than, and food is then a target
   * of the trace; no path is returned exactly when food is unreachable. The
   * trace is one edge to each neighbour of each settled cell, in the order
   * the cells were settled (`expanded`). That order starts at start and
   * settles each later cell one move from an earlier one; no cell is
   * settled twice, food is never settled, and when no path comes back every
   * reachable cell has been settled.
   */
  method Dijkstra(b: Board) returns (res: SearchResult, ghost expanded: seq<Coord>)
    requires ValidBoard(b)
    ensures res.path.Some? ==>
              var p := res.path.value;
              IsRoute(b, p) && Last(p) == b.food && Start !in p && NoDup(p) &&
              forall r :: IsRoute(b, r) && Last(r) == b.food ==> |p| <= |r|
    ensures res.path.None? <==> !Reachable(b, b.food)
    ensures res.trace == ExpansionTrace(b, expanded) && NoDup(expanded) && b.food !in expanded
    ensures forall e :: e in res.trace ==> e.from in expanded && e.to in Neighbors(b, e.from)
    ensures res.path.None? ==> Start in expanded && forall c :: Reachable(b, c) ==> c in expanded
    ensures res.path.Some? ==> b.food in Targets(res.trace)
    ensures MoveOrder(b, expanded)
  {
    var trace: seq<Edge> := [];
    var distances, unvisited := InitDistances(b);
    var previous: map<Coord, Coord> := map[];
    InitialLabels(b, distances, unvisited);
    distances := distances[Start := Fin(0)];
    ghost var settled: set<Coord> := {};
    expanded := [];
    while |unvisited| > 0
      invariant DijkstraInv(b, Labels(distances, previous), unvisited, settled)
      invariant ClosingOrder(b, trace, expanded, settled)
      decreases |unvisited|
    {
      var current, minDistance := Closest(unvisited, distances);
      if current.None? {
        break;
      }
      var i := current.value;
      var currentPoint := unvisited[i];
      ghost var before := unvisited;
      RowMajorNoDup(unvisited);
      unvisited := RemoveAt(unvisited, i);
      if currentPoint == b.food {
        DijkstraFound(b, Labels(distances, previous), before, settled, i);
        FoodReached(b, Labels(distances, previous), before, settled, trace, expanded, i);
        // Every cell on the way back other than start has a `previous` entry,
        // so the `currentPoint &&` test of the rebuilding loop never fails.
        var path := Reconstruct(b, previous, currentPoint, Known(distances));
        RouteReachable(b, path);
        ExpansionOrder(b, trace, expanded, settled);
        return SearchResult(Some(path), trace), expanded;
      }
      DijkstraTurn(b, Labels(distances, previous), before, settled, i);
      CloseStep(b, Labels(distances, previous), before, settled, trace, expanded, i);
      settled := settled + {currentPoint};
      expanded := expanded + [currentPoint];
      distances, previous, trace := Expand(b, distances, previous, unvisited, trace, currentPoint);
    }
    DijkstraExhausted(b, Labels(distances, previous), unvisited, settled);
    ExpansionCovers(b, trace, expanded, settled);
    ExpansionOrder(b, trace, expanded, settled);
    return SearchResult(None, trace), expanded;
  }
}
