/**
 * Grid coordinates. A `Point` compares by value, as `java.awt.Point.equals` does,
 * which is what every tile lookup and the teleporter pairing depend on.
 */
module Geometry {

  datatype Point = Point(x: int, y: int)

  function Abs(n: int): nat
  {
    if n < 0 then -n else n
  }

  /** The four cells one step away from `p`, in the order the path search tries them. */
  function Neighbours(p: Point): (ns: seq<Point>)
    ensures |ns| == 4
    ensures forall i :: 0 <= i < 4 ==> Abs(ns[i].x - p.x) + Abs(ns[i].y - p.y) == 1
    ensures forall i, j :: 0 <= i < j < 4 ==> ns[i] != ns[j]
  {
    [Point(p.x, p.y + 1), Point(p.x + 1, p.y), Point(p.x, p.y - 1), Point(p.x - 1, p.y)]
  }

  /** The neighbours are exactly the cells at distance one, in the taxicab metric. */
  lemma NeighboursAdjacent(p: Point, q: Point)
    ensures q in Neighbours(p) <==> Abs(q.x - p.x) + Abs(q.y - p.y) == 1
  {
  }
}
