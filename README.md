# Grid A* planner of the warehouse-robots simulation

This project models the pathfinding core of the warehouse-robots simulation
(`models/search.py`) in Dafny and proves what the planner promises.

- **The planner.** `PathfindingModel.a_star` is an A* search over a bounded
  occupancy grid. It expands cells in the four moves of `DIRECTIONS`, uses
  the Manhattan distance as its heuristic, and returns the cells entered
  after the start, or `None` when it finds no route.
- **The goal rules.** The model also covers the rules around the planner:
  `set_new_path` chooses a goal and retries, and `step` stops the simulation
  once no goal is left.

Modules, one file each:

- `Cells` (`cells.dfy`): integer cells, `Directions`, and the Manhattan
  heuristic.
- `Occupancy` (`occupancy.dfy`): the grid. It has a width and a height, and
  a map from cell to the set of agent kinds standing on it. A cell is
  blocked exactly when it is out of bounds or holds an obstacle. Robots and
  goals do not block.
- `Routes` (`routes.dfy`): the reference notions the planner is judged
  against. These are walks and routes of `Directions` moves through
  unblocked cells, reachability, and shortest routes. The module also proves
  lemmas about routes: Manhattan distance as a lower bound, the open-grid
  distance, and a wall that cuts the grid.
- `Queue` (`queue.dfy`): the heap as the multiset of its `(priority, cell)`
  entries. A pop hands out the least entry in the order Python compares
  `(priority, (x, y))` tuples. Ties between equal priorities are therefore
  broken by x and then y, as in the source.
- `Frontier` (`frontier.dfy`): what the search loop keeps true. This covers
  the predecessor links and step counts, the queue covering every reached
  unexpanded cell, settled step counts of expanded cells, and expansions
  reaching every neighbour. From these come the optimality of the popped
  cell and the completeness of an exhausted queue.
- `Search` (`search.dfy`): the search itself, as imperative methods:
  - `GetNeighbors`: the `for` loop over `DIRECTIONS`;
  - `Relax`: one neighbour of the inner loop;
  - `Expand`: the inner loop itself;
  - `ReconstructPath`: the loop that follows `came_from` back to the start
    and then reverses the collected cells;
  - `AStar`: the `while heap` loop.
- `Planner` (`planner.dfy`): the class `PathfindingModel`. It holds the
  goals, the placed goal agents, the cell and route of each robot, and the
  `running` flag.

Main results:

- `Search.AStar` returns `Some(p)` only with `p` a shortest route from the
  start to the goal that does not contain the start.
- It returns `None` exactly when the goal is unreachable.
- From a cell to itself it returns `Some([])`.

Where the model departs from the code:

- **Blocking, not wrapping.** The grid is built as a torus (line 88), but the
  planner rejects out-of-bounds neighbours (lines 192-193). The model
  therefore treats `[0, width) x [0, height)` as a hard box.
- **Start cell.** The start cell itself is never tested for being blocked,
  as in the source.
- **Reopening.** A cell popped a second time from a stale queue entry is
  re-expanded, because the source tests `closed_set` only for neighbours.
  The model keeps this, and proves that such a re-expansion changes nothing.
- **Goal coordinates.** Goals are integer cells. The source's `Goal` has
  float coordinates, and `a_star` compares them with integer cells. A goal
  with a fractional coordinate is never popped, which matches the
  unreachable case.
- **Grid as a parameter.** The grid is a parameter of the search, not a
  field read through `self`.
- **Empty route from `a_star`.** `a_star(s, s)` returns `[]`, and the test
  `if new_path:` (line 120) treats the empty list as a failure. So a goal at
  the robot's own cell is dropped like an unreachable one. The model keeps
  this.
- **`set_new_path` bugs.** As written, `set_new_path` plans nothing (see
  Findings). `SetNewPathAsWritten` models the code exactly. `SetNewPath` is
  the evidently intended method. It differs from the code in four ways:
  - it skips the position guard of line 114;
  - it tests the remaining goals rather than the placed goal agents
    (line 113). The agents list never shrinks, so the retry would
    otherwise call `random.choice` on an empty list;
  - it plans to the chosen goal's own coordinates (line 119 reads `pos_x`
    from the list);
  - it stores the route on the robot it was asked about (line 121 always
    uses the first robot).

## Model

| member | source | states |
|---|---|---|
| Cells.Directions | models/search.py:11 | the four unit moves in the planner's order: +y, +x, -y, -x |
| Cells.DirectionsAreUnitMoves | models/search.py:11 | `DIRECTIONS` holds four distinct moves, and a move is among them exactly when it changes one coordinate by one |
| Cells.Shift | models/search.py:190-191 | the neighbour candidate `(pos[0] + dx, pos[1] + dy)`; a move of `DIRECTIONS` never leaves the cell where it is, and its offset is the move |
| Cells.Adjacent | models/search.py:190-191 | `b` is one `DIRECTIONS` move from `a`; adjacent cells differ, and the relation is symmetric |
| Cells.Manhattan | models/search.py:185-186 | the heuristic is zero exactly when the two cells coincide |
| Cells.ShiftIsAdjacent | models/search.py:190-191 | each move of `DIRECTIONS` leads to an adjacent cell |
| Cells.AdjacentIsUnitStep | models/search.py:11 | a cell is one `DIRECTIONS` move away exactly when its Manhattan distance is one |
| Cells.HeuristicConsistent | models/search.py:185-186 | one move changes the Manhattan estimate to any goal by at most one, in both directions (consistency) |
| Occupancy.OutOfBounds | models/search.py:192-193 | the first skip test of `get_neighbors`: outside `[0, width) x [0, height)`; a grid with an empty dimension has every cell out of bounds, and an in-bounds cell has coordinates below the dimensions |
| Occupancy.HasObstacle | models/search.py:194-196 | the second skip test: some agent on the cell is an `ObstacleCell`; never on an obstacle-free grid |
| Occupancy.Blocked | models/search.py:192-196 | a neighbour is skipped exactly when it is out of bounds or holds an obstacle; robots and goals do not block, and on an obstacle-free grid only the bounds block |
| Occupancy.Box | models/search.py:192-193 | the in-bounds cells form a finite set that holds exactly the cells the bounds test accepts |
| Routes.WalkLastStep | models/search.py:226-227 | a non-empty walk is a shorter walk plus one adjacent, unblocked move |
| Routes.WalkCons | models/search.py:210-213 | a move in front of a walk is again a walk, to the same end |
| Routes.RouteAtLeastManhattan | models/search.py:185-186 | no route is shorter than the Manhattan distance between its ends (admissibility) |
| Routes.StepToward | models/search.py:190-191 | the chosen move is adjacent and brings the target one step closer |
| Routes.StaircaseIsRoute | models/search.py:190-197 | when the row and column between two cells are clear, the staircase is a route of Manhattan length |
| Routes.OpenGridDistance | models/search.py:185-197 | on an obstacle-free grid every in-bounds cell is reachable from every in-bounds cell, and every shortest route has Manhattan length |
| Routes.WalkStaysBelowWall | models/search.py:192-196 | a walk that starts below a full obstacle row never crosses it |
| Routes.WallSeparates | models/search.py:192-196 | a full obstacle row between start and target makes the target unreachable |
| Queue.EntryLeq | models/search.py:206 | entries compare by priority, then x, then y, as Python compares `(priority, (x, y))` tuples; this decides ties between equal priorities |
| Queue.EntryLeqIsTotalOrder | models/search.py:206 | the entry order is total, antisymmetric and transitive |
| Queue.LeastIsUnique | models/search.py:206 | a queue has only one least entry, so the pop is determined as `heappop`'s is |
| Queue.LeastExists | models/search.py:206 | a non-empty queue has a first entry in tuple order |
| Queue.PopMin | models/search.py:206 | the pop returns an entry no greater than any queued entry in `(priority, x, y)` order, and the queue without that one copy |
| Search.NeighborsUpTo | models/search.py:188-198 | the list `get_neighbors` builds from the first k moves: at most k cells, each adjacent to `pos` and unblocked |
| Search.NeighborsUpToMembers | models/search.py:190-197 | a cell is among the neighbours from the first k moves exactly when it is unblocked and one of those moves leads to it |
| Search.GetNeighbors | models/search.py:188-198 | the neighbours come in `DIRECTIONS` order, and they are exactly the adjacent cells that are in bounds and hold no obstacle |
| Search.Relax | models/search.py:219-227 | an expanded neighbour is skipped. Otherwise the neighbour gets the step count through `current` and is queued with priority count plus heuristic, with `current` as its predecessor, exactly when it is new or the count is lower; else nothing changes. Counts only go down, and the search state stays consistent |
| Search.Expand | models/search.py:218-227 | after the inner loop every expanded cell has all its neighbours reached within one more step, and the state stays consistent. Re-expanding an already expanded cell changes nothing |
| Search.ReconstructPath | models/search.py:209-214 | following the predecessors from the goal and reversing gives a route from the start to the goal, as long as the goal's step count, that does not contain the start |
| Search.Reversed | models/search.py:213 | the result has the same length, with the elements in reverse order |
| Search.ReversedSnoc | models/search.py:211-213 | reversing after an append puts the new cell first |
| Search.ReversedMembers | models/search.py:213 | reversal keeps the set of cells |
| Search.ExpandCell | models/search.py:216-227 | marking the popped cell expanded and relaxing its neighbours keeps the loop invariant. When the cell was already expanded, the queue ends as the queue without the popped entry |
| Search.AStar | models/search.py:180-229 | a returned route is a shortest route from the start to the goal: adjacent moves, unblocked cells, ending at the goal, without the start. `None` is returned exactly when the goal is unreachable, and from a cell to itself the result is the empty route. The loop terminates |
| Search.OpenGridRoute | models/search.py:222-226 | on an obstacle-free grid the search's route is as long as the Manhattan distance |
| Frontier.FrontierBound | models/search.py:205-227 | any walk from the start to an unexpanded cell meets a queued entry whose priority is at most the walk's length plus the heuristic at its end |
| Frontier.PoppedIsSettled | models/search.py:206-208 | the popped cell's step count is no larger than the length of any route to it |
| Frontier.ExhaustedMeansUnreachable | models/search.py:205-229 | when the queue runs empty, no route reaches the goal |
| Frontier.PopKeepsCore | models/search.py:206-216 | popping the least entry and marking its cell expanded keeps the links, the frontier and the settled counts. The earlier expansions still hold, and only the new cell's neighbours remain open |
| Frontier.FrontierAfterPop | models/search.py:206-216 | the queued frontier survives removing one entry and expanding its cell |
| Frontier.SettledAfterPop | models/search.py:216 | expanding a cell whose count is minimal keeps every expanded count minimal |
| Frontier.RelaxKeepsCore | models/search.py:222-227 | recording a shorter count and predecessor and pushing the entry keeps the predecessor chain, the frontier and the settled counts |
| Frontier.ImprovesTransitive | models/search.py:223-224 | counts that only go down compose |
| Frontier.ReachedWithinMonotone | models/search.py:223-224 | a cell reached within a bound stays reached when counts go down |
| Frontier.ExpandedMonotone | models/search.py:223-224 | an expansion stays complete when counts go down |
| Frontier.InvHasChain | models/search.py:200-203 | in every loop state the predecessor links are consistent and every queued cell has a count |
| Frontier.GoalFound | models/search.py:208-214 | when the goal is popped, the reconstructed route is a shortest one, so the goal is reachable. From the start to itself that route is empty |
| Frontier.Progress | models/search.py:205-216 | each turn of the outer loop expands a new cell or shortens the queue |
| Frontier.NeighborsReachedStep | models/search.py:218-227 | each turn of the inner loop reaches one more neighbour and keeps the earlier ones reached |
| Frontier.ExpandDone | models/search.py:218-227 | once all neighbours of the expanded cell are reached, every expanded cell is fully expanded |
| Planner.FirstIndex | models/search.py:124 | the index holds the element and no earlier index does |
| Planner.RemoveFirst | models/search.py:124 | removing a goal leaves one element fewer and exactly one copy of it fewer |
| Planner.GivenUp | models/search.py:119-125 | a goal the search answers with no route, or with the empty route, is unreachable or the robot's own cell |
| Planner.Planned | models/search.py:120-121 | an accepted route is a non-empty shortest route to one of the goals |
| Planner.DropAfterRemove | models/search.py:122-125 | a failed attempt followed by the retry drops only goals the planner gives up on |
| Planner.KeptGoal | models/search.py:118-125 | a goal the planner cannot give up on is never dropped |
| Planner.PathfindingModel.constructor | models/search.py:76-107 | the state after construction: every goal placed, no route planned, running |
| Planner.PathfindingModel.SetNewPath | models/search.py:111-128 | the goals only lose elements, and every dropped goal is unreachable from the robot or is the robot's own cell. If a goal remains, the robot holds a non-empty shortest route to one of them and no other robot's route changed. Otherwise no route changed and the simulation stops. The retry terminates because each failure removes a goal |
| Planner.PathfindingModel.SetNewPathAsWritten | models/search.py:111-128 | as written: with any goal agent placed nothing changes; with none the simulation stops |
| Planner.PathfindingModel.Step | models/search.py:163-170 | the simulation keeps running only while goals remain; goals, positions and routes are unchanged |
| Planner.AsWrittenPlansNothing | models/search.py:113-116 | a reachable goal other than the robot's cell, for which the method as written leaves the robot without a route |
| Planner.CorrectedPlansRoute | models/search.py:117-121 | for the same input the corrected method plans the one-move route and keeps the goal |

## Left out

- Mesa's scheduler, `DataCollector` and agent placement are library calls.
  The model takes the grid's contents as a value and does not model
  `place_agent` or the single-occupancy rule of `SingleGrid`.
- `_place_robots`, `_place_goals` and `_place_obstacles` are placement
  stubs, so the constructor takes the resulting state as parameters. The
  calls to `set_new_path` during `_place_robots` happen before any goal
  agent exists. They only clear `running`, which line 106 sets again. So the
  constructor's state is the one construction ends in.
- Planner.PathfindingModel.constructor: it models construction with
  `set_new_path` as written. Under the corrected `SetNewPath`, the calls in
  `_place_robots` would already see the goals set at line 94, so they would
  plan routes and drop goals during construction. `CorrectedPlansRoute`
  starts from the state the program as written builds.
- `RobotAgent.step` and `remove_goal` have bodies that are only `pass`.
  `Step` therefore models the robots' step as doing nothing.
- Logging and `print` output are left out.
- `random.choice` is a nondeterministic choice (`:|`).
- The binary-heap array layout of `heapq` is left out. The queue is the
  multiset of its entries, and a pop takes the least entry in tuple order.
- Float goal coordinates and the missing `_scale_to_mesa` are left out.
  Goals are integer cells.
- Visibility-graph construction and polygon buffering do not appear in the
  modelled file and are left out.
- The input-file reading, the command line, the HTTP API and the
  `run_model` loop are I/O and driver code. `run_model` only calls `step`
  while `running`.
- Planner.RemoveFirst: its contract states length and multiset, not the
  order of the remaining goals. The order does not matter to the retry,
  which chooses at random.

## Findings

| source | as written | input that shows it | evidently intended | confidence | as-written member | corrected member |
|---|---|---|---|---|---|---|
| models/search.py:114 | `robot_agent.pos is not FloatCoordinate` compares a position tuple with a type by identity, so the test is always true. Whenever a goal agent is placed, the method logs an error and returns without planning | a 2-by-1 grid without obstacles, a robot at (0, 0) and one goal at (1, 0): the robot's route stays empty although the goal is one move away | plan a route to a chosen goal, drop goals no route reaches and retry, and stop only when no goal is left | not executed | Planner.PathfindingModel.SetNewPathAsWritten, Planner.AsWrittenPlansNothing | Planner.PathfindingModel.SetNewPath, Planner.CorrectedPlansRoute |
