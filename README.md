# Grid path search, modelled in Dafny

This project models the search engine of a small browser path-finding demo
(`pathfinding.js`, class `PathFinding`). A square board of `gridSize` by
`gridSize` cells holds empty cells (0), obstacles (1) and one food cell (2).
Start is fixed at (0, 0). Five searches look for food: Greedy, DFS, BFS, A*
and Dijkstra. Each returns `{path, searchPath}`:

- `path` is the cells from the first move after start up to food, or null;
- `searchPath` (the trace) is the edges the search examined, in order.

Every search asks for neighbours in the fixed order up, right, down, left.
That order decides ties and the order of the trace.

The board is a value (`Grid.Board`), because no search changes it. Each
search is a method whose loop and its variables follow the source:

- the visited sets, stacks, queues, open lists and maps become local `set`,
  `seq` and `map` variables;
- string keys `"x,y"` become `Coord` values;
- the insertion-ordered `Set` of Dijkstra becomes a duplicate-free sequence;
- `Infinity` becomes the `Inf` case of a `Distance` datatype.

Inner loops are methods of their own. Most are proved against a function
that says what the loop computes: the neighbour push of DFS and BFS, the
neighbour relaxation of A*, and the row-major initialisation and the
relaxation of Dijkstra. The two minimum scans, the lowest-f scan of A* and
the closest-cell scan of Dijkstra, are proved against a postcondition
instead: the index they return is the first strict minimum. The map generator is not
modelled. What it guarantees becomes the precondition `ValidBoard`:

- the board is square;
- start is on the board and is not an obstacle;
- food is on the board, differs from start and carries the food code.

What is proved, beyond each operation's own contract:

- **BFS, A* and Dijkstra.** A returned path is a duplicate-free route from
  start to food, and no route to food is shorter. No path comes back exactly
  when food cannot be reached. For A*, a closed cell is never rescored, because
  the neighbour loop skips closed cells. The Manhattan heuristic never drops
  by more than one per move, and that makes each cell's g score optimal by
  the time it is closed. For BFS, the returned path need not follow the
  recorded edges, because `parentMap` is overwritten on every push. It is
  still shortest: every cell that pushes a given cell lies on the same
  chessboard colour, so all of them are at the same depth.
- **DFS.** A returned path is a route to food that runs along the recorded
  edges. No path comes back exactly when food cannot be reached.
- **DFS and BFS traces.** The trace is a discovery tree: each edge leads
  from start or a cell already reached to a cell not reached before, so no
  cell is reached twice. When no path comes back, the cells reached are
  closed under moves. When BFS returns a path, its trace ends with the edge
  to food.
- **A\* and Dijkstra traces.** The trace is one edge to each neighbour of
  each closed cell, in the order the cells were closed. That order starts
  at start, and each later cell is one move from a cell closed before it.
  No cell is closed twice and food is never closed. When a path comes
  back, food is a target of the trace. When none does, every reachable
  cell has been closed.
- **Greedy.** The loop computes exactly a reference walk, one turn at a
  time. Each step goes to the passable unvisited neighbour closest to food.
  Ties go to the earlier direction. The walk stops only on food or at a dead
  end with an empty path. A path comes back exactly when the trace reaches
  food. It then ends at food, holds no cell twice and never holds start.

Because BFS's path is no longer than any route and DFS's path is a route, BFS
never returns a longer path than DFS when both succeed. Greedy's path has no
such bound: since it need not be a route, it can be shorter than every route
to food.

Three facts about the code shape what the model states:

- DFS and BFS push only neighbours not yet visited (`pathfinding.js:311`,
  `pathfinding.js:350`).
- The Greedy backtrack takes the last cell off the path and stands on it
  (`pathfinding.js:259`). Right after a step that is the cell the walk
  already stands on, so the first pop only shortens the path. The next turn
  pops the cell before and moves there, off the path. Backing up one cell
  takes two turns.
- The BFS path need not follow the recorded trace edges, for the reason given
  above. The DFS path does.

## Model

| member | source | states |
|---|---|---|
| Grid.InitializeGrid | pathfinding.js:24-31 | the grid is n rows of n cells, every cell holding the empty code 0 |
| Grid.Manhattan | pathfinding.js:130-132 | the distance is zero exactly when the two cells are the same |
| Grid.ManhattanTriangle | pathfinding.js:130-132 | the distance obeys the triangle inequality, which makes it a consistent heuristic for one-step moves |
| Grid.AdjacentFlipsParity | pathfinding.js:136-141 | each of the four moves changes the parity of x + y |
| Grid.Neighbors | pathfinding.js:134-157 | at most four cells, each on the board, not an obstacle, and one move away |
| Grid.NeighborsComplete | pathfinding.js:143-156 | every cell one move away that is on the board and not an obstacle is listed |
| Grid.NeighborsInOrder | pathfinding.js:136-147 | neighbours come in up, right, down, left order |
| Grid.GetNeighbors | pathfinding.js:134-157 | the loop over the direction table returns exactly the neighbours above |
| Grid.IsCorner | pathfinding.js:489-492 | a corner needs both a previous and a next cell, and they differ |
| Grid.CornerIsTurn | pathfinding.js:489-492 | for three consecutive cells, a corner exactly when the second move is neither the first move nor its reverse |
| Routes.RemoveAt | pathfinding.js:396 | taking one element out of a duplicate-free list leaves one fewer, removes exactly that element, and keeps the rest in order |
| Routes.CloseInOrder | pathfinding.js:394-397 | closing a cell not yet closed keeps the closing order duplicate-free and listing exactly the closed cells |
| Routes.Reconstruct | pathfinding.js:300-305 | following parents back from the target gives a duplicate-free route from start to the target that excludes start and runs along the parent links |
| Routes.RouteAtLeastManhattan | pathfinding.js:130-132 | no route is shorter than the Manhattan distance from start to its end |
| Routes.OutsideClosedRegionUnreachable | pathfinding.js:316-318 | a cell outside a region that holds start and every neighbour of its cells cannot be reached |
| Traces.DiscoveryTreeExtend | pathfinding.js:296-298 | adding an edge to a newly reached cell keeps the trace a discovery tree and adds that cell to its targets |
| Traces.ParentsThreadTrace | pathfinding.js:301-305 | a path that follows parents whose edges are all recorded threads the trace |
| Traces.ExpansionTraceEdges | pathfinding.js:399-400 | every edge of an expand-every-neighbour trace leads from an expanded cell to one of its neighbours |
| Traces.ExpansionOrder | pathfinding.js:399-400 | once the closing order has begun and food is still open, the trace is its expansion trace, food is not in the order, every trace edge leads from a closed cell to a neighbour, and the order starts at start with each later cell next to an earlier one |
| Traces.MoveOrderAppend | pathfinding.js:394-397 | closing start first, and then only cells next to a closed cell, keeps the closing order starting at start with each later cell next to an earlier one |
| Traces.ExpansionReaches | pathfinding.js:399-400 | every neighbour of a closed cell is a target of the expansion trace |
| Traces.AppendEdges | pathfinding.js:253-255 | one edge from the current cell to each listed cell is appended, in order |
| Traces.TargetsEdgesFrom | pathfinding.js:253-255 | recording an edge to each listed cell adds exactly those cells to the cells the trace reaches |
| Frontier.Without | pathfinding.js:248-250 | the filter keeps exactly the neighbours not yet visited |
| Frontier.WithoutKeepsOrder | pathfinding.js:248-250 | the filter keeps the up, right, down, left order |
| Frontier.Adopt | pathfinding.js:313 | each pushed neighbour's parent entry becomes the expanded cell, and every other entry is unchanged |
| Frontier.ListedPush | pathfinding.js:310-315 | after the push, a cell has a pending entry exactly when it had one before or was pushed |
| Frontier.LastParentPush | pathfinding.js:310-315 | after the push, the parent of a cell's newest entry is the expanded cell if it was pushed, and is unchanged otherwise |
| Frontier.PushUnvisited | pathfinding.js:309-315 | the push loop appends one entry per unvisited neighbour in order and sets their parent entries |
| GreedySearch.FirstClosest | pathfinding.js:263-269 | the head of the stably sorted list is closest to food, and every earlier candidate is strictly farther |
| GreedySearch.GreedyChoice | pathfinding.js:247-272 | the chosen cell is passable, unvisited and one move away; no such cell is closer to food; ties go to the earlier direction |
| GreedySearch.FoodIsClosest | pathfinding.js:263-270 | when food is an unvisited neighbour, the head of the sorted list is food itself |
| GreedySearch.AdvanceShape | pathfinding.js:270-272 | stepping to an unvisited passable cell keeps the path duplicate-free, free of start, shorter than the visited set, and ending at food once food is visited |
| GreedySearch.AdvanceTrace | pathfinding.js:247-255 | recording an edge to each unvisited neighbour keeps every edge leading to a neighbour, every visited cell recorded, and food recorded only once visited |
| GreedySearch.FoodRecordedIffReached | pathfinding.js:247-272 | at the top of each turn, the trace holds an edge to food exactly when the walk stands on food |
| GreedySearch.WalkFits | pathfinding.js:274-276 | the path is shorter than the board has cells, so the length guard never fires |
| GreedySearch.WalkBacktracks | pathfinding.js:257-260 | at a dead end with cells on the path, the walk goes on from the popped cell, keeping the invariant |
| GreedySearch.WalkAdvances | pathfinding.js:263-276 | otherwise the walk goes on from the first of the closest unvisited neighbours, which is unvisited and one move away, keeping the invariant; the path stays shorter than the board has cells |
| GreedySearch.WalkStops | pathfinding.js:257-258 | at a dead end with an empty path the walk stops where it is, with no edge recorded |
| GreedySearch.GreedyWalkEnds | pathfinding.js:246-276 | the loop run to its end keeps the invariant, and stops only on food or at a dead end with an empty path |
| GreedySearch.GreedyResultSound | pathfinding.js:240-280 | a path comes back exactly when the trace reaches food; it then ends at food, holds no cell twice, never holds start, steps only on passable cells and is shorter than the board has cells; trace edges lead to neighbours |
| GreedySearch.Greedy | pathfinding.js:240-280 | the loop returns exactly the result of the reference walk, turn by turn, and its length guard never fires |
| DepthFirst.DfsFound | pathfinding.js:300-305 | when food is popped, the parent links form chains back to start, and every parent link is a recorded edge |
| DepthFirst.DfsExhausted | pathfinding.js:289-318 | an empty stack leaves the visited cells closed under neighbours, so food is unreachable |
| DepthFirst.Dfs | pathfinding.js:282-319 | the trace is a discovery tree; a returned path is a route to food that threads the trace; no path exactly when food is unreachable |
| BreadthFirst.ParityPinsDepth | pathfinding.js:348-354 | two cells that both push the same cell and whose depths differ by at most one have the same depth |
| BreadthFirst.RouteBound | pathfinding.js:328-354 | no route to a visited cell is shorter than its depth, and no route to an unvisited cell is shorter than the depth of the front of the queue |
| BreadthFirst.BfsFound | pathfinding.js:339-345 | when food is dequeued, its depth is no larger than any route's length, and the parent links give chains of that length |
| BreadthFirst.BfsExhausted | pathfinding.js:328-357 | an empty queue leaves the visited cells closed under neighbours, so food is unreachable |
| BreadthFirst.Bfs | pathfinding.js:321-358 | the trace is a discovery tree; a returned path is a shortest route to food, and the trace then ends with the edge to food; no path exactly when food is unreachable, and then the reached cells are closed under moves |
| AStarSearch.LowestF | pathfinding.js:374-383 | the chosen open cell has the lowest f score, and every earlier one has a strictly higher f score |
| AStarSearch.Relax | pathfinding.js:402-417 | one neighbour is relaxed as the relaxation step describes |
| AStarSearch.Expand | pathfinding.js:399-418 | every neighbour gets a trace edge, and the scores end as relaxing all neighbours in order describes |
| AStarSearch.RelaxAllKeeps | pathfinding.js:399-418 | relaxing keeps the scores well formed; g scores only drop; closed cells keep theirs; each neighbour ends closed or open with g at most one above the expanded cell |
| AStarSearch.ChosenOptimal | pathfinding.js:373-385 | no route to the open cell of lowest f is shorter than its g score |
| AStarSearch.CloseChosen | pathfinding.js:396-397 | closing that cell keeps the scores well formed, and every closed cell optimal |
| AStarSearch.AStarTurn | pathfinding.js:373-418 | a turn that does not reach food keeps the A* loop invariant |
| AStarSearch.AStarFound | pathfinding.js:385-393 | when food has the lowest f, its g score is no larger than any route's length, and `cameFrom` chains lead back to start |
| AStarSearch.AStarExhausted | pathfinding.js:373-421 | an empty open list leaves the closed cells closed under neighbours, so food is unreachable |
| AStarSearch.ChosenLinked | pathfinding.js:405-412 | the cell chosen while nothing is closed is start; any other chosen cell came from a closed neighbour |
| AStarSearch.AStarPath | pathfinding.js:386-392 | the rebuilt path is a duplicate-free route from start to food, excludes start, and is no longer than food's g score |
| AStarSearch.AStar | pathfinding.js:360-422 | a returned path is a shortest route to food, and food is then a target of the trace; no path exactly when food is unreachable; the trace is one edge to each neighbour of each closed cell, in closing order; that order starts at start and closes each later cell next to an earlier one; no cell is closed twice, food never; with no path every reachable cell was closed |
| DijkstraSearch.RowCells | pathfinding.js:432-437 | exactly the passable cells of a row with a column below the bound, in row-major order |
| DijkstraSearch.GridCells | pathfinding.js:431-439 | exactly the passable cells of the rows below the bound, in row-major order |
| DijkstraSearch.InitDistances | pathfinding.js:431-439 | the unvisited list is the passable cells in row-major order, each at distance infinity |
| DijkstraSearch.Closest | pathfinding.js:444-455 | either every unvisited cell is at infinity, or the chosen cell has the lowest finite distance and every earlier one is strictly farther |
| DijkstraSearch.RemoveAtRowMajor | pathfinding.js:459 | deleting the chosen cell keeps the unvisited list in row-major order |
| DijkstraSearch.Relax | pathfinding.js:474-481 | one neighbour is relaxed as the relaxation step describes |
| DijkstraSearch.Expand | pathfinding.js:470-482 | every neighbour gets a trace edge, and the maps end as relaxing all neighbours in order describes |
| DijkstraSearch.RelaxAllKeeps | pathfinding.js:470-482 | relaxing keeps the labels well formed; finite distances only drop; settled cells keep theirs; each neighbour ends settled or within one of the expanded cell |
| DijkstraSearch.ChosenOptimal | pathfinding.js:443-459 | no route to the unvisited cell of lowest distance is shorter than its distance |
| DijkstraSearch.CloseChosen | pathfinding.js:459 | settling that cell keeps the labels well formed, the unvisited list in row-major order, and every settled cell optimal |
| DijkstraSearch.DijkstraTurn | pathfinding.js:443-482 | a turn that does not reach food keeps the Dijkstra loop invariant |
| DijkstraSearch.DijkstraFound | pathfinding.js:461-467 | when food is chosen, its distance is no larger than any route's length, and `previous` chains lead back to start |
| DijkstraSearch.DijkstraExhausted | pathfinding.js:455 | when every unvisited cell is at infinity, the settled cells hold start and are closed under neighbours, so food is unreachable |
| DijkstraSearch.ChosenLinked | pathfinding.js:474-480 | the chosen cell is not settled; while nothing is settled it is start; any other chosen cell has a settled `previous` neighbour |
| DijkstraSearch.Dijkstra | pathfinding.js:424-486 | a returned path is a shortest route to food, and food is then a target of the trace; no path exactly when food is unreachable; the trace is one edge to each neighbour of each settled cell, in settling order; that order starts at start and settles each later cell next to an earlier one; no cell is settled twice, food never; with no path every reachable cell was settled |

## Left out

- Drawing, canvas set-up, `drawPath`, `drawSearchPath`, the timed animation `animatePath` (the only caller of `isCorner`, which picks the delay at a turn), `stopCurrentAnimation` and the event listeners are presentation and I/O. They are not part of this model.
- `generateMap` draws random obstacles and a random food cell. Its guarantees appear only as the precondition `ValidBoard`.
- The constructor's `gridSize` of 20 is the constant `Grid.DefaultSize`. The searches take any board size.
- GreedySearch.FirstClosest: models `sort(...)[0]` by the property of a stable sort's head: the first of the closest. The rest of the sorted order is not modelled.
- GreedySearch.Greedy: does not claim the path is a route, or that no path means food is unreachable. The backtrack first pops the cell the walk already stands on, and on the next turn pops the cell before and moves there, so that cell is no longer on the path. The next cell pushed then neighbours a cell that is not on the path. When the path runs empty, the search gives up even if start has unvisited neighbours left. For example, on a 3×3 board with an obstacle at (2,1) and food at (2,2), the walk goes to (1,0) and then to the dead end (2,0). It pops twice, goes on from (1,0), and returns [(1,1), (1,2), (2,2)]. That path has three cells, its first cell is not next to start, and the shortest route to food has four.
- GreedySearch.Greedy: the `gridSize * gridSize` guard is modelled, but the proof shows that a path never gets that long, so the guard never fires. The reference walk `GreedyWalk` leaves the guard out for that reason.
- BreadthFirst.Bfs: does not claim the path follows the trace edges. `parentMap` is overwritten by later pushes of the same cell, so a cell's parent on the path can differ from the edge that visited it.
- Object identity: `openSet.indexOf(current)` and the JavaScript objects behind coordinates are modelled by cell values. The open list never holds a cell twice, so the index found is the chosen position.
