/**
 * Grid cells and the fixed four-neighbour offsets of the tower-defense map.
 */
module Cells {

  /** A grid cell; two cells are equal iff both coordinates match. */
  datatype Cell = Cell(x: int, y: int)

  /** The base's cell, where the flow field is rooted. */
  const Origin: Cell := Cell(0, 0)

  /** The offsets get_neighbors walks, in this order: +x, -x, +y, -y. */
  const Offsets: seq<(int, int)> := [(1, 0), (-1, 0), (0, 1), (0, -1)]

  /** The cell reached from c by the d-th offset. */
  function Step(c: Cell, d: nat): Cell
    requires d < |Offsets|
  {
    Cell(c.x + Offsets[d].0, c.y + Offsets[d].1)
  }

  function Abs(a: int): nat
  {
    if a < 0 then -a else a
  }

  /** Orthogonal adjacency: the two cells are at Manhattan distance one. */
  predicate Adjacent(a: Cell, b: Cell)
  {
    Abs(a.x - b.x) + Abs(a.y - b.y) == 1
  }

  /**
   * The index of the offset that leads from c to n, or |Offsets| when n is
   * not orthogonally adjacent to c.
   */
  function Direction(c: Cell, n: Cell): (d: nat)
    ensures d <= |Offsets|
    ensures d < |Offsets| <==> Adjacent(c, n)
    ensures d < |Offsets| ==> Step(c, d) == n
  {
    if n == Step(c, 0) then 0
    else if n == Step(c, 1) then 1
    else if n == Step(c, 2) then 2
    else if n == Step(c, 3) then 3
    else 4
  }

  /** Every offset step is adjacent, and the offsets are pairwise distinct. */
  lemma StepDirection(c: Cell, d: nat)
    requires d < |Offsets|
    ensures Adjacent(c, Step(c, d))
    ensures Direction(c, Step(c, d)) == d
  {
  }
}
