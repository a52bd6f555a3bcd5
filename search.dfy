/**
 The grid A* planner: a priority queue of `(priority, cell)` entries, the
 best known step count per cell, the predecessor of each reached cell and
 the set of expanded cells, all updated in one `while` loop.
 */
module Search {
  import opened Cells
  import opened Occupancy
  import opened Routes
  import opened Queue
  import opened Frontier

  datatype Option<T> = None | Some(value: T)

  /** The enterable neighbours among the first `k` moves of `Directions`, in that order. */
  function NeighborsUpTo(g: Grid, pos: Cell, k: nat): (r: seq<Cell>)
    requires k <= |Directions|
    ensures |r| <= k
    ensures forall i :: 0 <= i < |r| ==> !Blocked(g, r[i]) && Adjacent(pos, r[i])
  {
    if k == 0 then []
    else
      var next := Shift(pos, Directions[k - 1]);
      NeighborsUpTo(g, pos, k - 1) + (if Blocked(g, next) then [] else [next])
  }

  lemma {:induction false} NeighborsUpToMembers(g: Grid, pos: Cell, k: nat, n: Cell)
    requires k <= |Directions|
    ensures n in NeighborsUpTo(g, pos, k) <==>
            !Blocked(g, n) && exists i :: 0 <= i < k && n == Shift(pos, Directions[i])
  {
    if k > 0 {
      NeighborsUpToMembers(g, pos, k - 1, n);
    }
  }

  /**
   The cells the planner expands from `pos`: every adjacent cell that is in
   bounds and holds no obstacle, in the order of `Directions`.
   */
  method GetNeighbors(g: Grid, pos: Cell) returns (neighbors: seq<Cell>)
    ensures neighbors == NeighborsUpTo(g, pos, |Directions|)
    ensures forall n :: n in neighbors <==> Adjacent(pos, n) && !Blocked(g, n)
  {
    neighbors := [];
    for i := 0 to |Directions|
      invariant neighbors == NeighborsUpTo(g, pos, i)
    {
      var next := Shift(pos, Directions[i]);
      if OutOfBounds(g, next) {
        continue;
      }
      if HasObstacle(g, next) {
        continue;
      }
      neighbors := neighbors + [next];
    }
    forall n ensures n in neighbors <==> Adjacent(pos, n) && !Blocked(g, n) {
      NeighborsUpToMembers(g, pos, |Directions|, n);
      if Adjacent(pos, n) {
        var d := (n.x - pos.x, n.y - pos.y);
        var i :| 0 <= i < |Directions| && Directions[i] == d;
        assert n == Shift(pos, Directions[i]);
      }
      forall i | 0 <= i < |Directions| ensures Adjacent(pos, Shift(pos, Directions[i])) {
        ShiftIsAdjacent(pos, i);
      }
    }
  }

  /**
   The inner loop of the search: relaxing each neighbour of `current` that
   is not expanded, when the route through `current` is shorter than the
   best known one. Re-expanding a cell whose expansion already happened
   changes nothing.
   */
  method Expand(g: Grid, start: Cell, goal: Cell, current: Cell, neighbors: seq<Cell>,
                heap0: multiset<Entry>, cameFrom0: map<Cell, Cell>, cost0: map<Cell, nat>, closed: set<Cell>)
    returns (heap: multiset<Entry>, cameFrom: map<Cell, Cell>, cost: map<Cell, nat>)
    requires Core(g, start, goal, heap0, cameFrom0, cost0, closed) && current in closed
    requires forall u :: u in closed && u != current ==> Expanded(g, cost0, closed, u)
    requires forall n :: n in neighbors <==> Adjacent(current, n) && !Blocked(g, n)
    ensures Core(g, start, goal, heap, cameFrom, cost, closed) && AllExpanded(g, cost, closed)
    ensures Expanded(g, cost0, closed, current) ==> heap == heap0 && cameFrom == cameFrom0 && cost == cost0
  {
    heap, cameFrom, cost := heap0, cameFrom0, cost0;
    ghost var bound := cost0[current] + 1;
    for i := 0 to |neighbors|
      invariant Core(g, start, goal, heap, cameFrom, cost, closed)
      invariant Improves(cost0, cost, closed)
      invariant forall j :: 0 <= j < i ==> ReachedWithin(cost, closed, neighbors[j], bound)
      invariant Expanded(g, cost0, closed, current) ==> heap == heap0 && cameFrom == cameFrom0 && cost == cost0
    {
      ghost var before := cost;
      assert neighbors[i] in neighbors;
      heap, cameFrom, cost := Relax(g, start, goal, current, neighbors[i], heap, cameFrom, cost, closed);
      NeighborsReachedStep(cost0, before, cost, closed, current, neighbors, i, bound);
      if Expanded(g, cost0, closed, current) {
        assert ReachedWithin(before, closed, neighbors[i], before[current] + 1);
      }
    }
    ExpandDone(g, cost0, cost, closed, current, neighbors, bound);
  }

  /**
   The body of the inner loop, for one neighbour `next` of `current`: unless
   `next` is expanded, a route through `current` that is shorter than the
   best known one, or the first one found, is recorded and `next` is queued.
   */
  method Relax(g: Grid, start: Cell, goal: Cell, current: Cell, next: Cell,
               heap: multiset<Entry>, cameFrom: map<Cell, Cell>, cost: map<Cell, nat>, closed: set<Cell>)
    returns (heap': multiset<Entry>, cameFrom': map<Cell, Cell>, cost': map<Cell, nat>)
    requires Core(g, start, goal, heap, cameFrom, cost, closed) && current in closed
    requires Adjacent(current, next) && !Blocked(g, next)
    ensures Core(g, start, goal, heap', cameFrom', cost', closed)
    ensures Improves(cost, cost', closed)
    ensures ReachedWithin(cost', closed, next, cost[current] + 1)
    ensures ReachedWithin(cost, closed, next, cost[current] + 1) ==> heap' == heap && cameFrom' == cameFrom && cost' == cost
    ensures !ReachedWithin(cost, closed, next, cost[current] + 1) ==>
              && cost' == cost[next := cost[current] + 1]
              && cameFrom' == cameFrom[next := current]
              && heap' == heap + multiset{Entry(cost[current] + 1 + Manhattan(goal, next), next)}
  {
    heap', cameFrom', cost' := heap, cameFrom, cost;
    if next in closed {
      return;
    }
    var newCost := cost[current] + 1;
    if next !in cost || newCost < cost[next] {
      var priority := newCost + Manhattan(goal, next);
      heap', cameFrom', cost' := heap + multiset{Entry(priority, next)}, cameFrom[next := current], cost[next := newCost];
      RelaxKeepsCore(g, start, goal, heap, cameFrom, cost, closed, current, next, newCost, heap', cameFrom', cost');
    }
  }

  /**
   The second loop of the search: following the predecessor links from the
   goal back to the start, collecting the cells, and reversing them.
   */
  method ReconstructPath(g: Grid, start: Cell, goal: Cell, cameFrom: map<Cell, Cell>, cost: map<Cell, nat>)
    returns (path: seq<Cell>)
    requires Chain(g, start, cameFrom, cost) && goal in cost
    ensures IsRoute(g, start, path, goal) && |path| == cost[goal] && start !in path
  {
    var current := goal;
    path := [];
    while current in cameFrom
      invariant current in cost
      invariant IsRoute(g, current, Reversed(path), goal)
      invariant |path| + cost[current] == cost[goal]
      invariant start !in path
      decreases cost[current]
    {
      ReversedSnoc(path, current);
      WalkCons(g, cameFrom[current], current, Reversed(path));
      path := path + [current];
      current := cameFrom[current];
    }
    ReversedMembers(path);
    path := Reversed(path);
  }

  /** A sequence in reverse order. */
  function Reversed(s: seq<Cell>): (r: seq<Cell>)
    ensures |r| == |s| && forall i :: 0 <= i < |s| ==> r[i] == s[|s| - 1 - i]
  {
    if s == [] then [] else [s[|s| - 1]] + Reversed(s[..|s| - 1])
  }

  lemma ReversedSnoc(s: seq<Cell>, x: Cell)
    ensures Reversed(s + [x]) == [x] + Reversed(s)
  {
    assert (s + [x])[..|s|] == s;
  }

  lemma ReversedMembers(s: seq<Cell>)
    ensures forall x :: x in Reversed(s) <==> x in s
  {
    var r := Reversed(s);
    forall x ensures x in r <==> x in s {
      if x in s {
        var i :| 0 <= i < |s| && s[i] == x;
        assert r[|s| - 1 - i] == x;
      }
    }
  }

  /**
   One turn of the outer loop once the popped cell is not the goal: the
   cell is marked expanded and its enterable neighbours are relaxed.
   */
  method ExpandCell(g: Grid, start: Cell, goal: Cell, heap: multiset<Entry>,
                    cameFrom: map<Cell, Cell>, cost: map<Cell, nat>, closed: set<Cell>,
                    e: Entry, rest: multiset<Entry>)
    returns (heap': multiset<Entry>, cameFrom': map<Cell, Cell>, cost': map<Cell, nat>, closed': set<Cell>)
    requires Inv(g, start, goal, heap, cameFrom, cost, closed)
    requires IsLeast(e, heap) && e.cell != goal && rest == heap - multiset{e}
    ensures Inv(g, start, goal, heap', cameFrom', cost', closed')
    ensures closed' == closed + {e.cell} && (e.cell == start || !Blocked(g, e.cell))
    ensures e.cell in closed ==> heap' == rest
  {
    var current := e.cell;
    PopKeepsCore(g, start, goal, heap, cameFrom, cost, closed, e);
    closed' := closed + {current};
    var neighbors := GetNeighbors(g, current);
    heap', cameFrom', cost' := Expand(g, start, goal, current, neighbors, rest, cameFrom, cost, closed');
  }

  /**
   A* from `start` to `goal` on `g`. The answer is a shortest route (the
   cells after `start`, ending at `goal`), or `None` exactly when `goal`
   cannot be reached. `start` itself need not be enterable.
   */
  method AStar(g: Grid, start: Cell, goal: Cell) returns (r: Option<seq<Cell>>)
    ensures r.Some? ==> IsShortestRoute(g, start, r.value, goal) && start !in r.value
    ensures r.None? <==> !Reachable(g, start, goal)
    ensures start == goal ==> r == Some([])
  {
    var heap := multiset{Entry(0, start)};
    var cameFrom: map<Cell, Cell> := map[];
    var cost: map<Cell, nat> := map[start := 0];
    var closed: set<Cell> := {};
    ghost var universe := Box(g) + {start};

    while heap != multiset{}
      invariant Inv(g, start, goal, heap, cameFrom, cost, closed)
      invariant closed <= universe
      decreases universe - closed, |heap|
    {
      var e, rest := PopMin(heap);
      var current := e.cell;

      if current == goal {
        InvHasChain(g, start, goal, heap, cameFrom, cost, closed);
        var path := ReconstructPath(g, start, goal, cameFrom, cost);
        GoalFound(g, start, goal, heap, cameFrom, cost, closed, e, path);
        return Some(path);
      }

      ghost var closed0, heap0 := closed, heap;
      heap, cameFrom, cost, closed := ExpandCell(g, start, goal, heap, cameFrom, cost, closed, e, rest);
      Progress(g, start, universe, closed0, current, closed, |heap0|, |heap|);
    }

    ExhaustedMeansUnreachable(g, start, goal, heap, cameFrom, cost, closed);
    return None;
  }

  /** On a grid without obstacles the search finds a route as long as the Manhattan distance. */
  method OpenGridRoute(g: Grid, start: Cell, goal: Cell) returns (path: seq<Cell>)
    requires ObstacleFree(g) && !OutOfBounds(g, start) && !OutOfBounds(g, goal)
    ensures IsRoute(g, start, path, goal) && |path| == Manhattan(start, goal)
  {
    OpenGridDistance(g, start, goal);
    var r := AStar(g, start, goal);
    path := r.value;
  }
}
