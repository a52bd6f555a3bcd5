/**
 The simulation model around the planner: the goals still to be visited,
 the goal agents placed on the grid, each robot's cell and planned route,
 and the `running` flag the simulation loop watches.
 */
module Planner {
  import opened Cells
  import opened Occupancy
  import opened Routes
  import opened Search

  /** The index of the first occurrence of `x` in `s`. */
  function FirstIndex(s: seq<Cell>, x: Cell): (i: nat)
    requires x in s
    ensures i < |s| && s[i] == x && x !in s[..i]
  {
    if s[0] == x then 0
    else
      var i' := FirstIndex(s[1..], x);
      assert s[..i' + 1] == [s[0]] + s[1..][..i'];
      i' + 1
  }

  /** `s` without the first occurrence of `x`, as a list's `remove` leaves it. */
  function RemoveFirst(s: seq<Cell>, x: Cell): (r: seq<Cell>)
    requires x in s
    ensures |r| == |s| - 1 && multiset(r) == multiset(s) - multiset{x}
  {
    var i := FirstIndex(s, x);
    assert s == s[..i] + [x] + s[i + 1..];
    s[..i] + s[i + 1..]
  }

  /** The planner gives up on goal `x` for a robot at `start`. */
  ghost predicate Dropped(g: Grid, start: Cell, x: Cell)
  {
    x == start || !Reachable(g, start, x)
  }

  /** Every goal of `before` missing from `after` is one the planner gives up on. */
  ghost predicate AllDropped(g: Grid, start: Cell, before: seq<Cell>, after: seq<Cell>)
  {
    forall x :: x in before && x !in after ==> Dropped(g, start, x)
  }

  /** `path` is a non-empty shortest route from `start` to one of `goals`. */
  ghost predicate PlannedTo(g: Grid, start: Cell, goals: seq<Cell>, path: seq<Cell>)
  {
    path != [] && exists goal :: goal in goals && IsShortestRoute(g, start, path, goal)
  }

  /** What the search answers for a goal it finds no non-empty route to. */
  lemma GivenUp(g: Grid, start: Cell, goal: Cell, r: Option<seq<Cell>>)
    requires r.Some? ==> IsShortestRoute(g, start, r.value, goal)
    requires r.None? <==> !Reachable(g, start, goal)
    requires !(r.Some? && r.value != [])
    ensures Dropped(g, start, goal)
  {
    if r.Some? {
      assert Last(start, r.value) == goal;
    }
  }

  lemma Planned(g: Grid, start: Cell, goals: seq<Cell>, goal: Cell, path: seq<Cell>)
    requires goal in goals && IsShortestRoute(g, start, path, goal) && path != []
    ensures PlannedTo(g, start, goals, path)
  {
  }

  /** Dropping one goal and then more keeps goals and drop reasons accounted for. */
  lemma DropAfterRemove(g: Grid, start: Cell, s0: seq<Cell>, goal: Cell, s1: seq<Cell>, s2: seq<Cell>)
    requires goal in s0 && Dropped(g, start, goal) && s1 == RemoveFirst(s0, goal)
    requires multiset(s2) <= multiset(s1) && AllDropped(g, start, s1, s2)
    ensures multiset(s2) <= multiset(s0) && AllDropped(g, start, s0, s2)
  {
    forall x | x in s0 && x !in s2
      ensures Dropped(g, start, x)
    {
      if x != goal {
        assert multiset(s1)[x] == multiset(s0)[x] > 0;
        assert x in s1;
      }
    }
  }

  /** A goal that is not given up on stays, so a single such goal is all that is left. */
  lemma KeptGoal(g: Grid, start: Cell, c: Cell, s: seq<Cell>)
    requires !Dropped(g, start, c) && AllDropped(g, start, [c], s) && multiset(s) <= multiset([c])
    ensures s == [c]
  {
    assert c in s;
    assert multiset(s) == multiset{c};
    assert |s| == |multiset(s)| == 1;
  }

  class PathfindingModel {
    const grid: Grid
    /** The goals still to be visited, as integer cells. */
    var goals: seq<Cell>
    /** The goal agents placed on the grid; nothing in the core removes one. */
    var goalCells: seq<Cell>
    /** The cell of each robot, by its index in the robot list. */
    var positions: seq<Cell>
    /** The planned route of each robot: the cells to enter, in order. */
    var paths: seq<seq<Cell>>
    var running: bool

    ghost predicate Valid()
      reads this
    {
      |paths| == |positions|
    }

    /** A model whose goals are all placed, with no route planned yet. */
    constructor (grid: Grid, goals: seq<Cell>, positions: seq<Cell>)
      ensures Valid()
      ensures this.grid == grid && this.goals == goals && goalCells == goals
      ensures this.positions == positions && running
      ensures forall i :: 0 <= i < |paths| ==> paths[i] == []
    {
      this.grid := grid;
      this.goals := goals;
      goalCells := goals;
      this.positions := positions;
      paths := seq(|positions|, _ => []);
      running := true;
    }

    /**
     Choosing a goal for robot `robot` and planning a route to it. A goal
     the planner finds no route to, or only the empty route because the
     robot already stands on it, is dropped and another goal is tried; once
     no goal is left the simulation stops.
     */
    method SetNewPath(robot: nat)
      requires Valid() && robot < |positions|
      modifies this
      ensures Valid() && positions == old(positions) && goalCells == old(goalCells)
      ensures multiset(goals) <= old(multiset(goals))
      ensures AllDropped(grid, positions[robot], old(goals), goals)
      ensures running == (old(running) && goals != [])
      ensures goals == [] ==> paths == old(paths)
      ensures goals != [] ==>
                && PlannedTo(grid, positions[robot], goals, paths[robot])
                && paths == old(paths)[robot := paths[robot]]
      decreases |goals|
    {
      if goals != [] {
        var start := positions[robot];
        assert goals[0] in goals;
        var goal :| goal in goals;
        var newPath := AStar(grid, start, goal);
        if newPath.Some? && newPath.value != [] {
          paths := paths[robot := newPath.value];
          Planned(grid, start, goals, goal, newPath.value);
        } else {
          GivenUp(grid, start, goal, newPath);
          ghost var goals0 := goals;
          goals := RemoveFirst(goals, goal);
          ghost var goals1 := goals;
          SetNewPath(robot);
          DropAfterRemove(grid, start, goals0, goal, goals1, goals);
        }
      } else {
        running := false;
      }
    }

    /**
     The method as the repository writes it. The test of the robot's
     position compares it with a type by identity, which never succeeds, so
     the method logs an error and returns whenever any goal agent is placed,
     and it plans nothing.
     */
    method SetNewPathAsWritten(robot: nat)
      requires Valid() && robot < |positions|
      modifies this
      ensures Valid() && positions == old(positions) && goalCells == old(goalCells)
      ensures goals == old(goals) && paths == old(paths)
      ensures running == (old(running) && goalCells != [])
    {
      if goalCells != [] {
        return;
      }
      running := false;
    }

    /**
     One step of the simulation. The robots' own step does nothing, so the
     only change is that the simulation stops once no goal is left.
     */
    method Step()
      modifies this
      ensures goals == old(goals) && goalCells == old(goalCells)
      ensures positions == old(positions) && paths == old(paths)
      ensures running == (old(running) && goals != [])
    {
      if goals == [] {
        running := false;
      }
    }
  }

  /** A 2-by-1 grid with no obstacles: the robot at (0, 0), one goal at (1, 0). */
  function TwoCellGrid(): (g: Grid)
    ensures ObstacleFree(g) && !OutOfBounds(g, Cell(0, 0)) && !OutOfBounds(g, Cell(1, 0))
  {
    Grid(2, 1, map[])
  }

  /**
   A reachable goal the method as written plans no route to: the robot's
   path stays empty and the simulation keeps running.
   */
  method AsWrittenPlansNothing() returns (m: PathfindingModel)
    ensures m.Valid() && |m.positions| == 1 && |m.goals| == 1
    ensures Reachable(m.grid, m.positions[0], m.goals[0]) && m.positions[0] != m.goals[0]
    ensures m.paths[0] == [] && m.running
  {
    m := new PathfindingModel(TwoCellGrid(), [Cell(1, 0)], [Cell(0, 0)]);
    OpenGridDistance(m.grid, Cell(0, 0), Cell(1, 0));
    m.SetNewPathAsWritten(0);
  }

  /** The corrected method plans the one-move route to the same goal. */
  method CorrectedPlansRoute() returns (m: PathfindingModel)
    ensures m.Valid() && |m.positions| == 1 && m.goals == [Cell(1, 0)]
    ensures m.paths[0] == [Cell(1, 0)] && m.running
  {
    m := new PathfindingModel(TwoCellGrid(), [Cell(1, 0)], [Cell(0, 0)]);
    OpenGridDistance(m.grid, Cell(0, 0), Cell(1, 0));
    m.SetNewPath(0);
    KeptGoal(m.grid, Cell(0, 0), Cell(1, 0), m.goals);
    ghost var goal :| goal in m.goals && IsShortestRoute(m.grid, Cell(0, 0), m.paths[0], goal);
    RouteIsOneMove(m.grid, m.paths[0]);
  }

  /** On the two-cell grid, the only shortest route from (0, 0) to (1, 0) is the single move. */
  lemma RouteIsOneMove(g: Grid, p: seq<Cell>)
    requires g == TwoCellGrid() && IsShortestRoute(g, Cell(0, 0), p, Cell(1, 0))
    ensures p == [Cell(1, 0)]
  {
    assert IsRoute(g, Cell(0, 0), [Cell(1, 0)], Cell(1, 0)) by {
      assert Before(Cell(0, 0), [Cell(1, 0)], 0) == Cell(0, 0);
      assert (1, 0) == Directions[1];
    }
    assert |p| <= 1;
  }
}
