/**
 Routes on an occupancy grid, in the shape the planner returns them: the
 cells entered after the start, in order, ending at the target. A route
 never lists its start cell, so the route from a cell to itself is empty.
 */
module Routes {
  import opened Cells
  import opened Occupancy

  /** The cell a move sequence from `s` ends on. */
  function Last(s: Cell, p: seq<Cell>): Cell
  {
    if p == [] then s else p[|p| - 1]
  }

  /** The cell the `i`-th move of `p` starts from. */
  function Before(s: Cell, p: seq<Cell>, i: nat): Cell
    requires i < |p|
  {
    if i == 0 then s else p[i - 1]
  }

  /**
   Every move of `p` from `s` is one step of `Directions` and enters a cell
   that is in bounds and free of obstacles. The start cell itself is not
   tested, as the planner does not test it.
   */
  predicate IsWalk(g: Grid, s: Cell, p: seq<Cell>)
  {
    && (forall i :: 0 <= i < |p| ==> !Blocked(g, p[i]))
    && (forall i {:trigger Before(s, p, i)} :: 0 <= i < |p| ==> Adjacent(Before(s, p, i), p[i]))
  }

  /** `p` is a walk from `s` that ends on `t`. */
  predicate IsRoute(g: Grid, s: Cell, p: seq<Cell>, t: Cell)
  {
    IsWalk(g, s, p) && Last(s, p) == t
  }

  ghost predicate Reachable(g: Grid, s: Cell, t: Cell)
  {
    exists p :: IsRoute(g, s, p, t)
  }

  /** `p` is a route from `s` to `t` with the fewest moves. */
  ghost predicate IsShortestRoute(g: Grid, s: Cell, p: seq<Cell>, t: Cell)
  {
    IsRoute(g, s, p, t) && forall q :: IsRoute(g, s, q, t) ==> |p| <= |q|
  }

  lemma WalkPrefix(g: Grid, s: Cell, p: seq<Cell>, k: nat)
    requires IsWalk(g, s, p) && k <= |p|
    ensures IsWalk(g, s, p[..k])
  {
    forall i | 0 <= i < k
      ensures Adjacent(Before(s, p[..k], i), p[..k][i]) && !Blocked(g, p[..k][i])
    {
      assert Before(s, p[..k], i) == Before(s, p, i);
    }
  }

  /** A non-empty walk is a shorter walk followed by one more move. */
  lemma WalkLastStep(g: Grid, s: Cell, p: seq<Cell>)
    requires IsWalk(g, s, p) && p != []
    ensures IsWalk(g, s, p[..|p| - 1])
    ensures Adjacent(Last(s, p[..|p| - 1]), p[|p| - 1]) && !Blocked(g, p[|p| - 1])
  {
    WalkPrefix(g, s, p, |p| - 1);
    assert Before(s, p, |p| - 1) == Last(s, p[..|p| - 1]);
  }

  /** Putting one more move in front of a walk. */
  lemma WalkCons(g: Grid, s0: Cell, s: Cell, p: seq<Cell>)
    requires IsWalk(g, s, p) && Adjacent(s0, s) && !Blocked(g, s)
    ensures IsWalk(g, s0, [s] + p) && Last(s0, [s] + p) == Last(s, p)
  {
    var p' := [s] + p;
    forall i | 0 <= i < |p'|
      ensures Adjacent(Before(s0, p', i), p'[i]) && !Blocked(g, p'[i])
    {
      if i > 0 {
        assert Before(s0, p', i) == Before(s, p, i - 1) && p'[i] == p[i - 1];
      }
    }
  }

  /**
   Admissibility of the heuristic: no route is shorter than the Manhattan
   distance between its ends.
   */
  lemma {:induction false} RouteAtLeastManhattan(g: Grid, s: Cell, p: seq<Cell>, t: Cell)
    requires IsRoute(g, s, p, t)
    ensures Manhattan(s, t) <= |p|
    decreases |p|
  {
    if p != [] {
      var q := p[..|p| - 1];
      WalkPrefix(g, s, p, |p| - 1);
      assert Before(s, p, |p| - 1) == Last(s, q);
      RouteAtLeastManhattan(g, s, q, Last(s, q));
      HeuristicConsistent(s, Last(s, q), t);
    }
  }

  /** One move from `c` towards `t`, along x first and then along y. */
  function StepToward(c: Cell, t: Cell): (n: Cell)
    requires c != t
    ensures Adjacent(c, n) && Manhattan(n, t) + 1 == Manhattan(c, t)
  {
    if c.x < t.x then Cell(c.x + 1, c.y)
    else if c.x > t.x then Cell(c.x - 1, c.y)
    else if c.y < t.y then Cell(c.x, c.y + 1)
    else Cell(c.x, c.y - 1)
  }

  /** The staircase route from `c` to `t`: along row `c.y`, then along column `t.x`. */
  function Staircase(c: Cell, t: Cell): seq<Cell>
    decreases Manhattan(c, t)
  {
    if c == t then [] else var n := StepToward(c, t); [n] + Staircase(n, t)
  }

  predicate Between(a: int, b: int, v: int)
  {
    (a <= v <= b) || (b <= v <= a)
  }

  /** The cells of the staircase from `s` to `t` are all enterable. */
  ghost predicate CorridorClear(g: Grid, s: Cell, t: Cell)
  {
    && (forall x :: Between(s.x, t.x, x) ==> !Blocked(g, Cell(x, s.y)))
    && (forall y :: Between(s.y, t.y, y) ==> !Blocked(g, Cell(t.x, y)))
  }

  lemma {:induction false} StaircaseIsRoute(g: Grid, s: Cell, t: Cell)
    requires CorridorClear(g, s, t)
    ensures IsRoute(g, s, Staircase(s, t), t) && |Staircase(s, t)| == Manhattan(s, t)
    decreases Manhattan(s, t)
  {
    if s != t {
      var n := StepToward(s, t);
      if s.x != t.x {
        assert n.y == s.y && Between(s.x, t.x, n.x);
        assert forall x :: Between(n.x, t.x, x) ==> Between(s.x, t.x, x);
      } else {
        assert n.x == t.x && Between(s.y, t.y, n.y);
        assert forall y :: Between(n.y, t.y, y) ==> Between(s.y, t.y, y);
        assert forall x :: Between(n.x, t.x, x) ==> x == t.x;
      }
      assert !Blocked(g, n);
      StaircaseIsRoute(g, n, t);
      WalkCons(g, s, n, Staircase(n, t));
    }
  }

  /**
   On a grid without obstacles every in-bounds cell is reachable from every
   in-bounds cell, and a shortest route is as long as the Manhattan distance.
   */
  lemma OpenGridDistance(g: Grid, s: Cell, t: Cell)
    requires ObstacleFree(g) && !OutOfBounds(g, s) && !OutOfBounds(g, t)
    ensures Reachable(g, s, t)
    ensures forall p :: IsShortestRoute(g, s, p, t) ==> |p| == Manhattan(s, t)
  {
    StaircaseIsRoute(g, s, t);
    forall p | IsShortestRoute(g, s, p, t)
      ensures |p| == Manhattan(s, t)
    {
      RouteAtLeastManhattan(g, s, p, t);
    }
  }

  /** Row `k` is an obstacle in every in-bounds column. */
  ghost predicate WallRow(g: Grid, k: int)
  {
    forall c: Cell :: c.y == k && !OutOfBounds(g, c) ==> HasObstacle(g, c)
  }

  lemma {:induction false} WalkStaysBelowWall(g: Grid, s: Cell, p: seq<Cell>, k: int)
    requires WallRow(g, k) && IsWalk(g, s, p) && s.y < k
    ensures forall i :: 0 <= i < |p| ==> p[i].y < k
    decreases |p|
  {
    if p != [] {
      var q := p[..|p| - 1];
      WalkPrefix(g, s, p, |p| - 1);
      WalkStaysBelowWall(g, s, q, k);
      var u, prev := p[|p| - 1], Before(s, p, |p| - 1);
      assert prev.y < k;
      AdjacentIsUnitStep(prev, u);
      assert !Blocked(g, u);
      assert forall i :: 0 <= i < |p| - 1 ==> p[i] == q[i];
    }
  }

  /** A wall row strictly between the start and the target cuts every route. */
  lemma WallSeparates(g: Grid, s: Cell, t: Cell, k: int)
    requires WallRow(g, k) && s.y < k < t.y
    ensures !Reachable(g, s, t)
  {
    forall p | IsWalk(g, s, p)
      ensures Last(s, p) != t
    {
      WalkStaysBelowWall(g, s, p, k);
    }
  }
}
