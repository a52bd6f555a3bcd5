/**
 Integer grid cells, the four unit moves the planner expands in, and the
 Manhattan distance it uses as its heuristic.
 */
module Cells {

  /** An integer grid coordinate `(x, y)`. */
  datatype Cell = Cell(x: int, y: int)

  /** The unit moves in the order the planner tries them: +y, +x, -y, -x. */
  const Directions: seq<(int, int)> := [(0, 1), (1, 0), (0, -1), (-1, 0)]

  /** The four moves are distinct and each changes one coordinate by one. */
  lemma DirectionsAreUnitMoves()
    ensures |Directions| == 4
    ensures forall i, j :: 0 <= i < j < |Directions| ==> Directions[i] != Directions[j]
    ensures forall d :: d in Directions <==> (d.0 == 0 && (d.1 == 1 || d.1 == -1)) || (d.1 == 0 && (d.0 == 1 || d.0 == -1))
  {
  }

  /** The cell reached from `c` by the move `d`; a move of `Directions` never stays put. */
  function Shift(c: Cell, d: (int, int)): (n: Cell)
    ensures d in Directions ==> n != c && (n.x - c.x, n.y - c.y) == d
  {
    Cell(c.x + d.0, c.y + d.1)
  }

  /** `b` is one move in `Directions` away from `a`; the relation is symmetric and irreflexive. */
  predicate Adjacent(a: Cell, b: Cell): (r: bool)
    ensures r ==> a != b && (a.x - b.x, a.y - b.y) in Directions
  {
    (b.x - a.x, b.y - a.y) in Directions
  }

  function Abs(n: int): nat
  {
    if n < 0 then -n else n
  }

  /** The heuristic of the planner: |a.x - b.x| + |a.y - b.y|. */
  function Manhattan(a: Cell, b: Cell): (h: nat)
    ensures h == 0 <==> a == b
  {
    Abs(a.x - b.x) + Abs(a.y - b.y)
  }

  /** Each move of `Directions` leads to an adjacent cell. */
  lemma ShiftIsAdjacent(c: Cell, i: nat)
    requires i < |Directions|
    ensures Adjacent(c, Shift(c, Directions[i]))
  {
    var d := Directions[i];
    assert (Shift(c, d).x - c.x, Shift(c, d).y - c.y) == d;
  }

  /** Adjacent cells are exactly the cells at Manhattan distance one. */
  lemma AdjacentIsUnitStep(a: Cell, b: Cell)
    ensures Adjacent(a, b) <==> Manhattan(a, b) == 1
  {
    var d := (b.x - a.x, b.y - a.y);
    if Manhattan(a, b) == 1 {
      if d.0 == 0 {
        assert d == (0, 1) || d == (0, -1);
        assert d == Directions[0] || d == Directions[2];
      } else {
        assert d == (1, 0) || d == (-1, 0);
        assert d == Directions[1] || d == Directions[3];
      }
    }
  }

  /**
   The Manhattan heuristic is consistent: one move changes the estimate
   to any cell by at most one.
   */
  lemma HeuristicConsistent(goal: Cell, a: Cell, b: Cell)
    requires Adjacent(a, b)
    ensures Manhattan(goal, a) <= Manhattan(goal, b) + 1
    ensures Manhattan(goal, b) <= Manhattan(goal, a) + 1
  {
    AdjacentIsUnitStep(a, b);
  }
}
