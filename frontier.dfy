/**
 What the search loop keeps true of its state: the predecessor links, the
 queue covering the frontier, the expanded cells being settled, and the
 expansions reaching every neighbour. From these follow optimality of the
 popped cell and completeness of an exhausted search.
 */
module Frontier {
  import opened Cells
  import opened Occupancy
  import opened Routes
  import opened Queue

  /**
   The predecessor links: every reached cell but the start has one, one move
   away, with a step count one below its own; each linked cell is enterable.
   */
  ghost predicate Chain(g: Grid, start: Cell, cameFrom: map<Cell, Cell>, cost: map<Cell, nat>)
  {
    && start in cost && cost[start] == 0
    && cameFrom.Keys == cost.Keys - {start}
    && forall v {:trigger cameFrom[v]} :: v in cameFrom ==>
         && cameFrom[v] in cost && cost[v] == cost[cameFrom[v]] + 1
         && Adjacent(cameFrom[v], v) && !Blocked(g, v)
  }

  /**
   Every reached but unexpanded cell is queued with its current priority,
   and no queued entry promises less than its cell's current priority.
   */
  ghost predicate FrontierQueued(goal: Cell, heap: multiset<Entry>, cost: map<Cell, nat>, closed: set<Cell>)
  {
    && (forall v {:trigger v in cost} :: v in cost && v !in closed ==> Entry(cost[v] + Manhattan(goal, v), v) in heap)
    && (forall e :: e in heap ==> e.cell in cost && e.priority >= cost[e.cell] + Manhattan(goal, e.cell))
  }

  /** The step count of each expanded cell is that of a shortest route to it. */
  ghost predicate Settled(g: Grid, start: Cell, cost: map<Cell, nat>, closed: set<Cell>)
  {
    forall v :: v in closed ==> v in cost && forall p :: IsRoute(g, start, p, v) ==> cost[v] <= |p|
  }

  /** The expansion of `u` has reached every enterable neighbour of `u`. */
  ghost predicate Expanded(g: Grid, cost: map<Cell, nat>, closed: set<Cell>, u: Cell)
  {
    u in cost && forall n :: Adjacent(u, n) && !Blocked(g, n) ==> ReachedWithin(cost, closed, n, cost[u] + 1)
  }

  ghost predicate AllExpanded(g: Grid, cost: map<Cell, nat>, closed: set<Cell>)
  {
    forall u :: u in closed ==> Expanded(g, cost, closed, u)
  }

  /** The state after the start has been expanded and before the goal is popped. */
  ghost predicate Core(g: Grid, start: Cell, goal: Cell, heap: multiset<Entry>,
                       cameFrom: map<Cell, Cell>, cost: map<Cell, nat>, closed: set<Cell>)
  {
    && Chain(g, start, cameFrom, cost)
    && start in closed && goal !in closed && closed <= cost.Keys
    && (forall v {:trigger cameFrom[v]} :: v in cameFrom ==> cameFrom[v] in closed)
    && FrontierQueued(goal, heap, cost, closed)
    && Settled(g, start, cost, closed)
  }

  /** The state the search starts in. */
  ghost predicate Initial(start: Cell, heap: multiset<Entry>,
                          cameFrom: map<Cell, Cell>, cost: map<Cell, nat>, closed: set<Cell>)
  {
    closed == {} && heap == multiset{Entry(0, start)} && cameFrom == map[] && cost == map[start := 0]
  }

  ghost predicate Inv(g: Grid, start: Cell, goal: Cell, heap: multiset<Entry>,
                      cameFrom: map<Cell, Cell>, cost: map<Cell, nat>, closed: set<Cell>)
  {
    || Initial(start, heap, cameFrom, cost, closed)
    || (Core(g, start, goal, heap, cameFrom, cost, closed) && AllExpanded(g, cost, closed))
  }

  /**
   Any walk from the start to an unexpanded cell `u` meets the frontier: the
   queue holds an entry whose priority is at most the walk's length plus the
   heuristic at `u`.
   */
  lemma {:induction false} FrontierBound(g: Grid, start: Cell, goal: Cell, heap: multiset<Entry>,
                                         cameFrom: map<Cell, Cell>, cost: map<Cell, nat>,
                                         closed: set<Cell>, p: seq<Cell>) returns (e: Entry)
    requires start in closed && FrontierQueued(goal, heap, cost, closed)
    requires Settled(g, start, cost, closed) && AllExpanded(g, cost, closed)
    requires IsWalk(g, start, p) && p != [] && p[|p| - 1] !in closed
    ensures e in heap && e.priority <= |p| + Manhattan(goal, p[|p| - 1])
    decreases |p|
  {
    var u, q := p[|p| - 1], p[..|p| - 1];
    WalkLastStep(g, start, p);
    var prev := Last(start, q);
    if prev in closed {
      assert cost[prev] <= |q| by {
        assert IsRoute(g, start, q, prev);
      }
      assert u in cost && cost[u] <= cost[prev] + 1 by {
        assert Expanded(g, cost, closed, prev);
      }
      e := Entry(cost[u] + Manhattan(goal, u), u);
    } else {
      e := FrontierBound(g, start, goal, heap, cameFrom, cost, closed, q);
      HeuristicConsistent(goal, prev, u);
    }
  }

  /** The cell of the first entry of the queue has its shortest step count. */
  lemma PoppedIsSettled(g: Grid, start: Cell, goal: Cell, heap: multiset<Entry>,
                        cameFrom: map<Cell, Cell>, cost: map<Cell, nat>, closed: set<Cell>, e: Entry)
    requires Core(g, start, goal, heap, cameFrom, cost, closed) && AllExpanded(g, cost, closed)
    requires IsLeast(e, heap)
    ensures e.cell in cost && forall p :: IsRoute(g, start, p, e.cell) ==> cost[e.cell] <= |p|
  {
    var u := e.cell;
    forall p | IsRoute(g, start, p, u)
      ensures cost[u] <= |p|
    {
      if u !in closed {
        var e' := FrontierBound(g, start, goal, heap, cameFrom, cost, closed, p);
        assert EntryLeq(e, e');
      }
    }
  }

  /** An empty queue means the goal cannot be reached. */
  lemma ExhaustedMeansUnreachable(g: Grid, start: Cell, goal: Cell, heap: multiset<Entry>,
                                  cameFrom: map<Cell, Cell>, cost: map<Cell, nat>, closed: set<Cell>)
    requires Core(g, start, goal, heap, cameFrom, cost, closed) && AllExpanded(g, cost, closed)
    requires heap == multiset{}
    ensures !Reachable(g, start, goal)
  {
    forall p | IsWalk(g, start, p)
      ensures Last(start, p) != goal
    {
      if Last(start, p) == goal {
        var e := FrontierBound(g, start, goal, heap, cameFrom, cost, closed, p);
        assert false;
      }
    }
  }

  /**
   Popping the first entry and marking its cell expanded keeps the search
   state consistent; only the new cell's neighbours remain to be reached.
   */
  lemma PopKeepsCore(g: Grid, start: Cell, goal: Cell, heap: multiset<Entry>,
                     cameFrom: map<Cell, Cell>, cost: map<Cell, nat>, closed: set<Cell>, e: Entry)
    requires Inv(g, start, goal, heap, cameFrom, cost, closed)
    requires IsLeast(e, heap) && e.cell != goal
    ensures Core(g, start, goal, heap - multiset{e}, cameFrom, cost, closed + {e.cell})
    ensures forall u :: u in closed && u != e.cell ==> Expanded(g, cost, closed + {e.cell}, u)
    ensures e.cell in closed ==> Expanded(g, cost, closed, e.cell)
    ensures e.cell == start || !Blocked(g, e.cell)
  {
    var current, closed' := e.cell, closed + {e.cell};
    if Initial(start, heap, cameFrom, cost, closed) {
      assert current == start;
      assert Settled(g, start, cost, closed');
    } else {
      PoppedIsSettled(g, start, goal, heap, cameFrom, cost, closed, e);
      if current != start {
        assert current in cameFrom;
        var pred := cameFrom[current];
      }
      FrontierAfterPop(goal, heap, cost, closed, e);
      SettledAfterPop(g, start, cost, closed, current);
      forall u | u in closed && u != current
        ensures Expanded(g, cost, closed', u)
      {
        assert Expanded(g, cost, closed, u);
      }
    }
  }

  lemma FrontierAfterPop(goal: Cell, heap: multiset<Entry>, cost: map<Cell, nat>, closed: set<Cell>, e: Entry)
    requires FrontierQueued(goal, heap, cost, closed) && e in heap
    ensures FrontierQueued(goal, heap - multiset{e}, cost, closed + {e.cell})
  {
    var heap', closed' := heap - multiset{e}, closed + {e.cell};
    forall v | v in cost && v !in closed'
      ensures Entry(cost[v] + Manhattan(goal, v), v) in heap'
    {
      assert Entry(cost[v] + Manhattan(goal, v), v) != e;
    }
  }

  lemma SettledAfterPop(g: Grid, start: Cell, cost: map<Cell, nat>, closed: set<Cell>, u: Cell)
    requires Settled(g, start, cost, closed) && u in cost
    requires forall p :: IsRoute(g, start, p, u) ==> cost[u] <= |p|
    ensures Settled(g, start, cost, closed + {u})
  {
  }

  /** `n` is expanded, or reached within `bound` steps. */
  ghost predicate ReachedWithin(cost: map<Cell, nat>, closed: set<Cell>, n: Cell, bound: int)
  {
    n in closed || (n in cost && cost[n] <= bound)
  }

  /** `cost` lowers or keeps every count of `cost0`, and keeps those of expanded cells. */
  ghost predicate Improves(cost0: map<Cell, nat>, cost: map<Cell, nat>, closed: set<Cell>)
  {
    && cost0.Keys <= cost.Keys
    && (forall v :: v in cost0 ==> cost[v] <= cost0[v])
    && (forall v :: v in closed && v in cost0 ==> cost[v] == cost0[v])
  }

  lemma ImprovesTransitive(cost0: map<Cell, nat>, cost1: map<Cell, nat>, cost2: map<Cell, nat>, closed: set<Cell>)
    requires Improves(cost0, cost1, closed) && Improves(cost1, cost2, closed)
    ensures Improves(cost0, cost2, closed)
  {
  }

  lemma ReachedWithinMonotone(cost0: map<Cell, nat>, cost: map<Cell, nat>, closed: set<Cell>, n: Cell, bound: int)
    requires Improves(cost0, cost, closed) && ReachedWithin(cost0, closed, n, bound)
    ensures ReachedWithin(cost, closed, n, bound)
  {
  }

  lemma ExpandedMonotone(g: Grid, cost0: map<Cell, nat>, cost: map<Cell, nat>, closed: set<Cell>, u: Cell)
    requires Expanded(g, cost0, closed, u) && Improves(cost0, cost, closed) && u in closed
    ensures Expanded(g, cost, closed, u)
  {
    forall n | Adjacent(u, n) && !Blocked(g, n)
      ensures ReachedWithin(cost, closed, n, cost[u] + 1)
    {
      assert ReachedWithin(cost0, closed, n, cost0[u] + 1);
    }
  }

  lemma InvHasChain(g: Grid, start: Cell, goal: Cell, heap: multiset<Entry>,
                    cameFrom: map<Cell, Cell>, cost: map<Cell, nat>, closed: set<Cell>)
    requires Inv(g, start, goal, heap, cameFrom, cost, closed)
    ensures Chain(g, start, cameFrom, cost) && forall e :: e in heap ==> e.cell in cost
  {
  }

  /**
   When the goal comes first in the queue, the route read off the links
   from it is a shortest one, and from the start to itself it is empty.
   */
  lemma GoalFound(g: Grid, start: Cell, goal: Cell, heap: multiset<Entry>,
                  cameFrom: map<Cell, Cell>, cost: map<Cell, nat>, closed: set<Cell>,
                  e: Entry, path: seq<Cell>)
    requires Inv(g, start, goal, heap, cameFrom, cost, closed)
    requires IsLeast(e, heap) && e.cell == goal
    requires goal in cost && IsRoute(g, start, path, goal) && |path| == cost[goal]
    ensures IsShortestRoute(g, start, path, goal) && Reachable(g, start, goal)
    ensures start == goal ==> path == []
  {
    if !Initial(start, heap, cameFrom, cost, closed) {
      PoppedIsSettled(g, start, goal, heap, cameFrom, cost, closed, e);
    }
  }

  /** The outer loop's measure goes down: a new cell is expanded, or the queue shrank. */
  lemma Progress(g: Grid, start: Cell, universe: set<Cell>, closed: set<Cell>, c: Cell, closed': set<Cell>,
                 size: nat, size': nat)
    requires universe == Box(g) + {start} && closed <= universe
    requires closed' == closed + {c} && (c == start || !Blocked(g, c))
    requires c in closed ==> size' < size
    ensures closed' <= universe
    ensures universe - closed' < universe - closed || (universe - closed' == universe - closed && size' < size)
  {
    assert c in universe;
    if c !in closed {
      assert c in universe - closed && c !in universe - closed';
    }
  }

  /** One more neighbour reached, and the earlier ones stay reached. */
  lemma NeighborsReachedStep(cost0: map<Cell, nat>, before: map<Cell, nat>, cost: map<Cell, nat>, closed: set<Cell>,
                             current: Cell, neighbors: seq<Cell>, i: nat, bound: int)
    requires Improves(cost0, before, closed) && Improves(before, cost, closed)
    requires current in closed && current in cost0 && bound == cost0[current] + 1
    requires i < |neighbors| && ReachedWithin(cost, closed, neighbors[i], before[current] + 1)
    requires forall j :: 0 <= j < i ==> ReachedWithin(before, closed, neighbors[j], bound)
    ensures Improves(cost0, cost, closed)
    ensures forall j :: 0 <= j < i + 1 ==> ReachedWithin(cost, closed, neighbors[j], bound)
  {
    ImprovesTransitive(cost0, before, cost, closed);
    forall j | 0 <= j < i + 1
      ensures ReachedWithin(cost, closed, neighbors[j], bound)
    {
      if j < i {
        ReachedWithinMonotone(before, cost, closed, neighbors[j], bound);
      }
    }
  }

  /**
   Once every neighbour of `current` is reached within one step more than
   `current`, every expanded cell is expanded in the new state.
   */
  lemma ExpandDone(g: Grid, cost0: map<Cell, nat>, cost: map<Cell, nat>, closed: set<Cell>,
                   current: Cell, neighbors: seq<Cell>, bound: int)
    requires forall u :: u in closed && u != current ==> Expanded(g, cost0, closed, u)
    requires Improves(cost0, cost, closed) && current in closed && current in cost0
    requires bound == cost0[current] + 1
    requires forall n :: n in neighbors <==> Adjacent(current, n) && !Blocked(g, n)
    requires forall j :: 0 <= j < |neighbors| ==> ReachedWithin(cost, closed, neighbors[j], bound)
    ensures AllExpanded(g, cost, closed)
  {
    forall u | u in closed
      ensures Expanded(g, cost, closed, u)
    {
      if u != current {
        ExpandedMonotone(g, cost0, cost, closed, u);
      } else {
        forall n | Adjacent(u, n) && !Blocked(g, n)
          ensures ReachedWithin(cost, closed, n, cost[u] + 1)
        {
          var j :| 0 <= j < |neighbors| && neighbors[j] == n;
        }
      }
    }
  }

  /** One relaxation step keeps the search state consistent. */
  lemma RelaxKeepsCore(g: Grid, start: Cell, goal: Cell, heap: multiset<Entry>,
                       cameFrom: map<Cell, Cell>, cost: map<Cell, nat>, closed: set<Cell>,
                       current: Cell, next: Cell, newCost: nat,
                       heap': multiset<Entry>, cameFrom': map<Cell, Cell>, cost': map<Cell, nat>)
    requires Core(g, start, goal, heap, cameFrom, cost, closed) && current in closed
    requires Adjacent(current, next) && !Blocked(g, next) && next !in closed
    requires newCost == cost[current] + 1 && (next !in cost || newCost < cost[next])
    requires heap' == heap + multiset{Entry(newCost + Manhattan(goal, next), next)}
    requires cameFrom' == cameFrom[next := current] && cost' == cost[next := newCost]
    ensures Core(g, start, goal, heap', cameFrom', cost', closed)
  {
    assert Chain(g, start, cameFrom', cost');
    assert FrontierQueued(goal, heap', cost', closed);
    assert Settled(g, start, cost', closed);
  }
}
