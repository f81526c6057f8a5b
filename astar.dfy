/**
 * `findPathAStar`: an open list, a closed set, `cameFrom`, and the g and f
 * scores, with the Manhattan distance to food as the heuristic. Each turn
 * takes the first open cell of strictly lowest f. If it is food, the path
 * is rebuilt from `cameFrom`. Otherwise it moves to the closed set, and
 * each of its neighbours is recorded in the trace and, if not closed,
 * relaxed: added to the open list, or given a lower g score.
 *
 * A closed cell is never rescored, because the neighbour loop skips closed
 * cells. Manhattan distance never drops by more than one per move, so the
 * heuristic is consistent, and that is what makes every cell's g score its
 * shortest distance from start by the time it is closed. The path returned
 * is therefore a shortest route to food.
 */
module AStarSearch {
  import opened Wrappers
  import opened Grid
  import opened Routes
  import opened Traces

  /** The open list and the three maps the search updates: `cameFrom`, `gScore` and `fScore`. */
  datatype Scores = Scores(open: seq<Coord>, cameFrom: map<Coord, Coord>, gScore: map<Coord, nat>, fScore: map<Coord, nat>)

  /**
   * The scan for `current`: the first open cell, replaced by each later one
   * whose f score is strictly lower. The result is the position of the first
   * cell of lowest f.
   */
  method LowestF(open: seq<Coord>, fScore: map<Coord, nat>) returns (i: nat)
    requires |open| > 0 && forall c :: c in open ==> c in fScore
    ensures i < |open|
    ensures forall j :: 0 <= j < |open| ==> fScore[open[i]] <= fScore[open[j]]
    ensures forall j :: 0 <= j < i ==> fScore[open[i]] < fScore[open[j]]
  {
    i := 0;
    var lowest := fScore[open[0]];
    for k := 1 to |open|
      invariant i < k && lowest == fScore[open[i]]
      invariant forall j :: 0 <= j < k ==> lowest <= fScore[open[j]]
      invariant forall j :: 0 <= j < i ==> lowest < fScore[open[j]]
    {
      var f := fScore[open[k]];
      if f < lowest {
        i, lowest := k, f;
      }
    }
  }

  /**
   * One neighbour y of the newly closed cell u: skipped if closed; otherwise
   * appended to the open list if absent, or skipped when the new g score
   * would not be lower; else its `cameFrom`, g and f entries are set.
   */
  function RelaxStep(s: Scores, closed: set<Coord>, u: Coord, y: Coord, food: Coord): (r: Scores)
    requires u in s.gScore
    ensures s.gScore.Keys <= r.gScore.Keys
  {
    if y in closed then s
    else
      var t := s.gScore[u] + 1;
      if y in s.open && y in s.gScore && t >= s.gScore[y] then s
      else Scores(if y in s.open then s.open else s.open + [y],
                  s.cameFrom[y := u], s.gScore[y := t], s.fScore[y := t + Manhattan(y, food)])
  }

  /** The neighbours ns of u relaxed in order. */
  function RelaxAll(s: Scores, closed: set<Coord>, u: Coord, ns: seq<Coord>, food: Coord): (r: Scores)
    requires u in s.gScore
    ensures s.gScore.Keys <= r.gScore.Keys
    decreases |ns|
  {
    if ns == [] then s
    else RelaxStep(RelaxAll(s, closed, u, ns[..|ns| - 1], food), closed, u, Last(ns), food)
  }

  /**
   * The neighbour loop: record the edge from `current` to each neighbour,
   * then relax the neighbour. The scores end as `RelaxAll` describes.
   */
  method Expand(b: Board, open: seq<Coord>, closed: set<Coord>, cameFrom: map<Coord, Coord>,
                gScore: map<Coord, nat>, fScore: map<Coord, nat>, trace: seq<Edge>, current: Coord)
    returns (open': seq<Coord>, cameFrom': map<Coord, Coord>, gScore': map<Coord, nat>, fScore': map<Coord, nat>,
             trace': seq<Edge>)
    requires WellFormed(b) && current in gScore
    ensures Scores(open', cameFrom', gScore', fScore') ==
            RelaxAll(Scores(open, cameFrom, gScore, fScore), closed, current, Neighbors(b, current), b.food)
    ensures trace' == trace + EdgesFrom(current, Neighbors(b, current))
  {
    var ns := GetNeighbors(b, current);
    var s := Scores(open, cameFrom, gScore, fScore);
    open', cameFrom', gScore', fScore', trace' := open, cameFrom, gScore, fScore, trace;
    for k := 0 to |ns|
      invariant Scores(open', cameFrom', gScore', fScore') == RelaxAll(s, closed, current, ns[..k], b.food)
      invariant trace' == trace + EdgesFrom(current, ns[..k])
    {
      var neighbor := ns[k];
      RelaxAllSnoc(s, closed, current, ns, k, b.food);
      EdgesFromSnoc(current, ns, k);
      trace' := trace' + [Edge(current, neighbor)];
      open', cameFrom', gScore', fScore' := Relax(open', cameFrom', gScore', fScore', closed, current, neighbor, b.food);
    }
    assert ns[..|ns|] == ns;
  }

  /**
   * The body of the neighbour loop once the edge is recorded. It updates the
   * separate map variables in place, with the same early exits as the loop
   * body, and its contract ties the outcome to `RelaxStep`, the value-level
   * step the invariant lemmas reason about. Keeping this body out of `Expand`
   * keeps that loop's proof small.
   */
  method Relax(open: seq<Coord>, cameFrom: map<Coord, Coord>, gScore: map<Coord, nat>, fScore: map<Coord, nat>,
               closed: set<Coord>, current: Coord, neighbor: Coord, food: Coord)
    returns (open': seq<Coord>, cameFrom': map<Coord, Coord>, gScore': map<Coord, nat>, fScore': map<Coord, nat>)
    requires current in gScore
    ensures Scores(open', cameFrom', gScore', fScore') ==
            RelaxStep(Scores(open, cameFrom, gScore, fScore), closed, current, neighbor, food)
  {
    open', cameFrom', gScore', fScore' := open, cameFrom, gScore, fScore;
    if neighbor in closed {
      return;
    }
    var tentative := gScore[current] + 1;
    if neighbor !in open {
      open' := open + [neighbor];
    } else if neighbor in gScore && tentative >= gScore[neighbor] {
      return;
    }
    cameFrom' := cameFrom[neighbor := current];
    gScore' := gScore[neighbor := tentative];
    fScore' := fScore[neighbor := gScore'[neighbor] + Manhattan(neighbor, food)];
  }

  lemma RelaxAllSnoc(s: Scores, closed: set<Coord>, u: Coord, ns: seq<Coord>, k: nat, food: Coord)
    requires u in s.gScore && k < |ns|
    ensures RelaxAll(s, closed, u, ns[..k + 1], food) == RelaxStep(RelaxAll(s, closed, u, ns[..k], food), closed, u, ns[k], food)
  {
    assert ns[..k + 1][..k] == ns[..k];
  }

  /**
   * The open list holds distinct cells outside the closed set; exactly the
   * open and closed cells have g scores; each scored cell's f score is its g
   * score plus its Manhattan distance to food.
   */
  ghost predicate ScoresWF(b: Board, s: Scores, closed: set<Coord>) {
    NoDup(s.open) && (forall y :: y in s.open ==> y !in closed) &&
    (forall c :: c in s.gScore <==> c in s.open || c in closed) &&
    forall y :: y in s.gScore ==> y in s.fScore && s.fScore[y] == s.gScore[y] + Manhattan(y, b.food)
  }

  /**
   * Start has g score 0 and no `cameFrom` entry; every other scored cell is
   * passable and came from a closed neighbour whose g score is one less.
   */
  ghost predicate ScoreLinks(b: Board, s: Scores, closed: set<Coord>) {
    Start in s.gScore && s.gScore[Start] == 0 && Start !in s.cameFrom &&
    forall v {:trigger Ranked(s.gScore, v)} :: Ranked(s.gScore, v) ==>
      Passable(b, v) &&
      (v != Start ==> v in s.cameFrom && s.cameFrom[v] in closed && s.cameFrom[v] in s.gScore &&
                      v in Neighbors(b, s.cameFrom[v]) && s.gScore[s.cameFrom[v]] + 1 == s.gScore[v])
  }

  /** Every neighbour of a cell of sources is closed, or open with a g score at most one above the source's. */
  ghost predicate Relaxed(b: Board, s: Scores, closed: set<Coord>, sources: set<Coord>) {
    forall x, y {:trigger Seen(sources, x), y in Neighbors(b, x)} ::
      Seen(sources, x) && y in Neighbors(b, x) ==>
        y in closed || (y in s.open && x in s.gScore && y in s.gScore && s.gScore[y] <= s.gScore[x] + 1)
  }

  /** No route to a closed cell is shorter than its g score. */
  ghost predicate ClosedOptimal(b: Board, s: Scores, closed: set<Coord>) {
    forall r {:trigger IsRoute(b, r)} :: IsRoute(b, r) && Last(r) in closed && Last(r) in s.gScore ==>
      s.gScore[Last(r)] <= |r|
  }

  /** What holds at the top of the loop. */
  ghost predicate AStarInv(b: Board, s: Scores, closed: set<Coord>) {
    b.food !in closed && ScoresWF(b, s, closed) && ScoreLinks(b, s, closed) &&
    Relaxed(b, s, closed, closed) && ClosedOptimal(b, s, closed)
  }

  /** From s to s': scores only drop, the open list only gains cells, and closed cells keep their scores. */
  ghost predicate Improves(s: Scores, s': Scores, closed: set<Coord>) {
    (forall c :: c in s.gScore ==> c in s'.gScore && s'.gScore[c] <= s.gScore[c]) &&
    (forall c :: c in s.open ==> c in s'.open) &&
    (forall c :: c in closed && c in s.gScore ==> s'.gScore[c] == s.gScore[c])
  }

  lemma ImprovesTrans(s: Scores, s': Scores, s'': Scores, closed: set<Coord>)
    requires Improves(s, s', closed) && Improves(s', s'', closed)
    ensures Improves(s, s'', closed)
  {
  }

  /** The start of the search: only start is open, with g score 0. */
  lemma InitialScores(b: Board)
    requires ValidBoard(b)
    ensures AStarInv(b, Scores([Start], map[], map[Start := 0], map[Start := Manhattan(Start, b.food)]), {})
  {
    assert Passable(b, Start);
  }

  /** Relaxing one neighbour keeps the scores well formed and linked, and leaves that neighbour relaxed. */
  lemma RelaxStepKeeps(b: Board, s: Scores, closed: set<Coord>, u: Coord, y: Coord)
    requires ScoresWF(b, s, closed) && ScoreLinks(b, s, closed) && u in closed && y in Neighbors(b, u)
    ensures var s' := RelaxStep(s, closed, u, y, b.food);
            ScoresWF(b, s', closed) && ScoreLinks(b, s', closed) && Improves(s, s', closed) &&
            (y in closed || (y in s'.open && s'.gScore[y] <= s.gScore[u] + 1))
  {
    var s' := RelaxStep(s, closed, u, y, b.food);
    if s' != s {
      StepWF(b, s, closed, u, y);
      StepLinks(b, s, closed, u, y);
    }
  }

  lemma StepWF(b: Board, s: Scores, closed: set<Coord>, u: Coord, y: Coord)
    requires ScoresWF(b, s, closed) && u in closed
    ensures ScoresWF(b, RelaxStep(s, closed, u, y, b.food), closed)
  {
    var s' := RelaxStep(s, closed, u, y, b.food);
    if y !in closed && y !in s.open {
      assert s'.open == s.open + [y];
      assert forall c :: c in s'.open <==> c in s.open || c == y;
    }
  }

  lemma StepLinks(b: Board, s: Scores, closed: set<Coord>, u: Coord, y: Coord)
    requires ScoresWF(b, s, closed) && ScoreLinks(b, s, closed) && u in closed && y in Neighbors(b, u)
    ensures ScoreLinks(b, RelaxStep(s, closed, u, y, b.food), closed)
  {
    var s' := RelaxStep(s, closed, u, y, b.food);
    forall v {:trigger Ranked(s'.gScore, v)} | Ranked(s'.gScore, v)
      ensures Passable(b, v) &&
              (v != Start ==> v in s'.cameFrom && s'.cameFrom[v] in closed && s'.cameFrom[v] in s'.gScore &&
                              v in Neighbors(b, s'.cameFrom[v]) && s'.gScore[s'.cameFrom[v]] + 1 == s'.gScore[v])
    {
      if v != y || s' == s {
        assert Ranked(s.gScore, v);
      }
    }
  }

  /** Every cell of ns is closed, or open with a g score at most bound. */
  ghost predicate RelaxedInto(s: Scores, closed: set<Coord>, ns: seq<Coord>, bound: nat) {
    forall y :: y in ns ==> y in closed || (y in s.open && y in s.gScore && s.gScore[y] <= bound)
  }

  /** Relaxing all of ns keeps the scores well formed and linked, and leaves every cell of ns relaxed. */
  lemma {:induction false} RelaxAllKeeps(b: Board, s: Scores, closed: set<Coord>, u: Coord, ns: seq<Coord>)
    requires ScoresWF(b, s, closed) && ScoreLinks(b, s, closed) && u in closed && u in s.gScore
    requires forall y :: y in ns ==> y in Neighbors(b, u)
    ensures var s' := RelaxAll(s, closed, u, ns, b.food);
            ScoresWF(b, s', closed) && ScoreLinks(b, s', closed) && Improves(s, s', closed) &&
            RelaxedInto(s', closed, ns, s.gScore[u] + 1)
    decreases |ns|
  {
    if ns != [] {
      var front := ns[..|ns| - 1];
      assert forall y :: y in front ==> y in ns;
      RelaxAllKeeps(b, s, closed, u, front);
      var s1 := RelaxAll(s, closed, u, front, b.food);
      RelaxStepKeeps(b, s1, closed, u, Last(ns));
      var s2 := RelaxStep(s1, closed, u, Last(ns), b.food);
      ImprovesTrans(s, s1, s2, closed);
      RelaxedIntoSnoc(s1, s2, closed, ns, s.gScore[u] + 1);
    }
  }

  lemma RelaxedIntoSnoc(s1: Scores, s2: Scores, closed: set<Coord>, ns: seq<Coord>, bound: nat)
    requires |ns| > 0 && RelaxedInto(s1, closed, ns[..|ns| - 1], bound) && Improves(s1, s2, closed)
    requires Last(ns) in closed || (Last(ns) in s2.open && Last(ns) in s2.gScore && s2.gScore[Last(ns)] <= bound)
    ensures RelaxedInto(s2, closed, ns, bound)
  {
    forall y | y in ns ensures y in closed || (y in s2.open && y in s2.gScore && s2.gScore[y] <= bound) {
      if y != Last(ns) {
        assert y in ns[..|ns| - 1];
      }
    }
  }

  /**
   * The cell of lowest f is as near to start as any route to it: follow a
   * route to the first cell not yet closed; it is open with a g score no
   * larger than its place on the route, and since the heuristic drops by at
   * most one per move, its f score is no larger than the route's length plus
   * the chosen cell's heuristic.
   */
  lemma ChosenOptimal(b: Board, s: Scores, closed: set<Coord>, i: nat, r: seq<Coord>)
    requires ScoresWF(b, s, closed) && ScoreLinks(b, s, closed)
    requires Relaxed(b, s, closed, closed) && ClosedOptimal(b, s, closed)
    requires i < |s.open| && forall j :: 0 <= j < |s.open| ==> s.fScore[s.open[i]] <= s.fScore[s.open[j]]
    requires IsRoute(b, r) && Last(r) == s.open[i]
    ensures s.gScore[s.open[i]] <= |r|
  {
    var u := s.open[i];
    var k := FirstOutside(b, closed, r);
    var w := Walk(r);
    var y := w[k];
    if k > 1 {
      assert IsRoute(b, r[..k - 1]);
    }
    if k > 0 {
      assert Seen(closed, w[k - 1]);
    }
    assert y in s.open && s.gScore[y] <= k;
    var j :| 0 <= j < |s.open| && s.open[j] == y;
    ManhattanTriangle(y, u, b.food);
  }

  /**
   * Closing the chosen cell u: it leaves the open list and joins the closed
   * set with its g score optimal; every closed cell other than u stays
   * relaxed.
   */
  lemma CloseChosen(b: Board, s: Scores, closed: set<Coord>, i: nat)
    requires AStarInv(b, s, closed)
    requires i < |s.open| && forall j :: 0 <= j < |s.open| ==> s.fScore[s.open[i]] <= s.fScore[s.open[j]]
    ensures var u := s.open[i];
            var s1 := Scores(RemoveAt(s.open, i), s.cameFrom, s.gScore, s.fScore);
            ScoresWF(b, s1, closed + {u}) && ScoreLinks(b, s1, closed + {u}) &&
            Relaxed(b, s1, closed + {u}, closed) && ClosedOptimal(b, s1, closed + {u})
  {
    var u := s.open[i];
    var s1 := Scores(RemoveAt(s.open, i), s.cameFrom, s.gScore, s.fScore);
    var closed' := closed + {u};
    forall x, y | Seen(closed, x) && y in Neighbors(b, x)
      ensures y in closed' || (y in s1.open && x in s1.gScore && y in s1.gScore && s1.gScore[y] <= s1.gScore[x] + 1)
    {
    }
    forall r {:trigger IsRoute(b, r)} | IsRoute(b, r) && Last(r) in closed' && Last(r) in s1.gScore
      ensures s1.gScore[Last(r)] <= |r|
    {
      if Last(r) == u {
        ChosenOptimal(b, s, closed, i, r);
      }
    }
  }

  /** After the neighbour loop, the newly closed cell is relaxed too, and closed scores are unchanged. */
  lemma AfterRelax(b: Board, s1: Scores, s2: Scores, closed: set<Coord>, u: Coord)
    requires Relaxed(b, s1, closed + {u}, closed) && ClosedOptimal(b, s1, closed + {u})
    requires ScoresWF(b, s2, closed + {u})
    requires Improves(s1, s2, closed + {u}) && u in s1.gScore
    requires forall c :: c in closed ==> c in s1.gScore
    requires RelaxedInto(s2, closed + {u}, Neighbors(b, u), s1.gScore[u] + 1)
    ensures Relaxed(b, s2, closed + {u}, closed + {u}) && ClosedOptimal(b, s2, closed + {u})
  {
    forall x, y | Seen(closed + {u}, x) && y in Neighbors(b, x)
      ensures y in closed + {u} || (y in s2.open && x in s2.gScore && y in s2.gScore && s2.gScore[y] <= s2.gScore[x] + 1)
    {
      if x != u {
        assert Seen(closed, x);
      }
    }
  }

  /** A turn that closes a cell other than food and relaxes its neighbours keeps the invariant. */
  lemma AStarTurn(b: Board, s: Scores, closed: set<Coord>, i: nat)
    requires AStarInv(b, s, closed)
    requires i < |s.open| && forall j :: 0 <= j < |s.open| ==> s.fScore[s.open[i]] <= s.fScore[s.open[j]]
    requires s.open[i] != b.food
    ensures var u := s.open[i];
            u in s.gScore && Passable(b, u) && u !in closed &&
            AStarInv(b, RelaxAll(Scores(RemoveAt(s.open, i), s.cameFrom, s.gScore, s.fScore), closed + {u}, u,
                                 Neighbors(b, u), b.food), closed + {u})
  {
    var u := s.open[i];
    assert Ranked(s.gScore, u);
    var s1 := Scores(RemoveAt(s.open, i), s.cameFrom, s.gScore, s.fScore);
    CloseChosen(b, s, closed, i);
    RelaxAllKeeps(b, s1, closed + {u}, u, Neighbors(b, u));
    var s2 := RelaxAll(s1, closed + {u}, u, Neighbors(b, u), b.food);
    AfterRelax(b, s1, s2, closed, u);
  }

  /**
   * The cell chosen from the open list is start while nothing is closed;
   * any other chosen cell came from a closed neighbour.
   */
  lemma ChosenLinked(b: Board, s: Scores, closed: set<Coord>, i: nat)
    requires AStarInv(b, s, closed) && i < |s.open|
    ensures var u := s.open[i];
            (closed == {} ==> u == Start) &&
            (u != Start ==> u in s.cameFrom && s.cameFrom[u] in closed && u in Neighbors(b, s.cameFrom[u]))
  {
    assert Ranked(s.gScore, s.open[i]);
  }

  /** When food is chosen, it neighbours a closed cell, so the expansion trace reaches it. */
  lemma FoodReached(b: Board, s: Scores, closed: set<Coord>, trace: seq<Edge>, expanded: seq<Coord>, i: nat)
    requires ValidBoard(b) && AStarInv(b, s, closed) && ClosingOrder(b, trace, expanded, closed)
    requires i < |s.open| && s.open[i] == b.food
    ensures b.food in Targets(trace) && expanded != []
  {
    ChosenLinked(b, s, closed, i);
    ExpansionReaches(b, expanded, s.cameFrom[b.food], b.food);
  }

  /** Closing the chosen cell and recording its neighbours keeps the closing order. */
  lemma CloseStep(b: Board, s: Scores, closed: set<Coord>, trace: seq<Edge>, expanded: seq<Coord>, i: nat)
    requires AStarInv(b, s, closed) && ClosingOrder(b, trace, expanded, closed) && i < |s.open|
    ensures var u := s.open[i];
            ClosingOrder(b, trace + EdgesFrom(u, Neighbors(b, u)), expanded + [u], closed + {u})
  {
    var u := s.open[i];
    ChosenLinked(b, s, closed, i);
    CloseNext(b, trace, expanded, closed, u, if u == Start then Start else s.cameFrom[u]);
  }

  /** When food has the lowest f: its g score is optimal, and `cameFrom` chains lead back to start. */
  lemma AStarFound(b: Board, s: Scores, closed: set<Coord>, i: nat)
    requires AStarInv(b, s, closed)
    requires i < |s.open| && forall j :: 0 <= j < |s.open| ==> s.fScore[s.open[i]] <= s.fScore[s.open[j]]
    requires s.open[i] == b.food
    ensures ParentChains(b, s.cameFrom, s.gScore) && b.food in s.gScore && s.gScore[Start] == 0
    ensures forall r :: IsRoute(b, r) && Last(r) == b.food ==> s.gScore[b.food] <= |r|
  {
    forall r | IsRoute(b, r) && Last(r) == b.food ensures s.gScore[b.food] <= |r| {
      ChosenOptimal(b, s, closed, i, r);
    }
    forall v {:trigger Ranked(s.gScore, v)} | Ranked(s.gScore, v)
      ensures Passable(b, v) &&
              (v != Start ==> v in s.cameFrom && s.cameFrom[v] in s.gScore && v in Neighbors(b, s.cameFrom[v]) &&
                              s.gScore[s.cameFrom[v]] < s.gScore[v])
    {
    }
  }

  /** An empty open list leaves the closed set, which holds start, closed under the neighbour relation. */
  lemma AStarExhausted(b: Board, s: Scores, closed: set<Coord>)
    requires AStarInv(b, s, closed) && s.open == []
    ensures Start in closed && ClosedUnder(b, closed) && !Reachable(b, b.food)
    ensures forall c :: Reachable(b, c) ==> c in closed
  {
    forall v, w | v in closed && w in Neighbors(b, v) ensures w in closed {
      assert Seen(closed, v);
    }
    OutsideClosedRegionUnreachable(b, closed, b.food);
    forall c | Reachable(b, c) ensures c in closed {
      if c !in closed {
        OutsideClosedRegionUnreachable(b, closed, c);
      }
    }
  }

  /**
   * A*'s own path rebuilding: put food in front, then keep putting the
   * `cameFrom` entry of the front cell in front while there is one, and
   * finally drop the front cell, which is start.
   */
  method AStarPath(b: Board, cameFrom: map<Coord, Coord>, target: Coord, ghost g: map<Coord, nat>)
    returns (path: seq<Coord>)
    requires ParentChains(b, cameFrom, g) && target in g && target != Start
    ensures IsRoute(b, path) && Last(path) == target
    ensures Start !in path && NoDup(path)
    ensures |path| + g[Start] <= g[target]
  {
    var temp := target;
    var full := [temp];
    while temp in cameFrom
      invariant Ranked(g, temp) && full != [] && full[0] == temp && Last(full) == target
      invariant FollowsParents(cameFrom, full[1..], temp)
      invariant forall v :: v in full ==> v in g
      invariant |full| - 1 + g[temp] <= g[target]
      decreases g[temp]
    {
      var parent := cameFrom[temp];
      assert full == [temp] + full[1..];
      full := [parent] + full;
      assert full[1..][1..] == full[2..];
      temp := parent;
    }
    path := full[1..];
    assert forall v :: v in path ==> v in full;
    ChainIsRoute(b, cameFrom, g, path, Start);
    forall i, j | 0 <= i < j < |path| ensures path[i] != path[j] {
      assert g[path[i]] < g[path[j]];
    }
  }

  /**
   * `findPathAStar`. A returned path is a duplicate-free route from start to
   * food that no route to food is shorter than, and food is then a target of
   * the trace; no path is returned exactly when food is unreachable. The
   * trace is one edge to each neighbour of each closed cell, in the order
   * the cells were closed (`expanded`). That order starts at start and
   * closes each later cell one move from an earlier one; no cell is closed
   * twice, food is never closed, and when no path comes back every
   * reachable cell has been closed.
   */
  method AStar(b: Board) returns (res: SearchResult, ghost expanded: seq<Coord>)
    requires ValidBoard(b)
    ensures res.path.Some? ==>
              var p := res.path.value;
              IsRoute(b, p) && Last(p) == b.food && Start !in p && NoDup(p) &&
              forall r :: IsRoute(b, r) && Last(r) == b.food ==> |p| <= |r|
    ensures res.path.None? <==> !Reachable(b, b.food)
    ensures res.trace == ExpansionTrace(b, expanded) && NoDup(expanded) && b.food !in expanded
    ensures forall e :: e in res.trace ==> e.from in expanded && e.to in Neighbors(b, e.from)
    ensures res.path.None? ==> Start in expanded && forall c :: Reachable(b, c) ==> c in expanded
    ensures res.path.Some? ==> b.food in Targets(res.trace)
    ensures MoveOrder(b, expanded)
  {
    var openSet := [Start];
    var closedSet: set<Coord> := {};
    var cameFrom: map<Coord, Coord> := map[];
    var gScore: map<Coord, nat> := map[Start := 0];
    var fScore: map<Coord, nat> := map[Start := Manhattan(Start, b.food)];
    var trace: seq<Edge> := [];
    expanded := [];
    InitialScores(b);
    while |openSet| > 0
      invariant AStarInv(b, Scores(openSet, cameFrom, gScore, fScore), closedSet)
      invariant ClosingOrder(b, trace, expanded, closedSet)
      decreases AllCells(b.size) - closedSet
    {
      var i := LowestF(openSet, fScore);
      var current := openSet[i];
      if current == b.food {
        FoodReached(b, Scores(openSet, cameFrom, gScore, fScore), closedSet, trace, expanded, i);
        AStarFound(b, Scores(openSet, cameFrom, gScore, fScore), closedSet, i);
        var path := AStarPath(b, cameFrom, current, gScore);
        RouteReachable(b, path);
        ExpansionOrder(b, trace, expanded, closedSet);
        return SearchResult(Some(path), trace), expanded;
      }
      AStarTurn(b, Scores(openSet, cameFrom, gScore, fScore), closedSet, i);
      CloseStep(b, Scores(openSet, cameFrom, gScore, fScore), closedSet, trace, expanded, i);
      // The open list holds no cell twice, so `indexOf(current)` is i.
      openSet := RemoveAt(openSet, i);
      closedSet := closedSet + {current};
      PassableInAllCells(b, current);
      expanded := expanded + [current];
      openSet, cameFrom, gScore, fScore, trace := Expand(b, openSet, closedSet, cameFrom, gScore, fScore, trace, current);
    }
    AStarExhausted(b, Scores(openSet, cameFrom, gScore, fScore), closedSet);
    ExpansionCovers(b, trace, expanded, closedSet);
    ExpansionOrder(b, trace, expanded, closedSet);
    return SearchResult(None, trace), expanded;
  }
}
