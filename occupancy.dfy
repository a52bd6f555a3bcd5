/**
 The occupancy grid the planner searches: a bounded `width` by `height`
 box of cells, each holding a set of agent kinds.
 */
module Occupancy {
  import opened Cells

  /** The kinds of agent that can stand on a cell. */
  datatype Kind = ObstacleCell | GoalCell | RobotAgent

  /** A grid: its dimensions and what stands on each cell (absent = empty). */
  datatype Grid = Grid(width: nat, height: nat, contents: map<Cell, set<Kind>>)

  /** The grid's bounds test: outside `[0, width) x [0, height)`. */
  predicate OutOfBounds(g: Grid, c: Cell): (r: bool)
    ensures g.width == 0 || g.height == 0 ==> r
    ensures !r ==> Abs(c.x) < g.width && Abs(c.y) < g.height
  {
    c.x < 0 || c.x >= g.width || c.y < 0 || c.y >= g.height
  }

  /** Some agent on `c` is an obstacle. */
  predicate HasObstacle(g: Grid, c: Cell): (r: bool)
    ensures ObstacleFree(g) ==> !r
  {
    c in g.contents && ObstacleCell in g.contents[c]
  }

  /**
   A cell the planner may not enter: out of bounds or holding an obstacle.
   Robots and goals do not block.
   */
  predicate Blocked(g: Grid, c: Cell): (r: bool)
    ensures ObstacleFree(g) ==> (r <==> OutOfBounds(g, c))
  {
    OutOfBounds(g, c) || HasObstacle(g, c)
  }

  /** No cell of the grid holds an obstacle. */
  predicate ObstacleFree(g: Grid)
  {
    forall c :: c in g.contents ==> ObstacleCell !in g.contents[c]
  }

  /** The finite set of in-bounds cells. */
  function Box(g: Grid): (b: set<Cell>)
    ensures forall c :: c in b <==> !OutOfBounds(g, c)
  {
    var b := set x, y | 0 <= x < g.width && 0 <= y < g.height :: Cell(x, y);
    assert forall c :: !OutOfBounds(g, c) ==> c == Cell(c.x, c.y) && c in b;
    b
  }
}
