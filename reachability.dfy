/**
 * Reachability on a wall layout by 4-way steps. `w[y][x]` is true when the cell at
 * column x of row y is a wall. A walk may start anywhere; every later cell must be
 * inside the layout and open, and one step from its predecessor.
 */
module Reachability {
  import opened Geometry

  type Walls = seq<seq<bool>>

  /** The cell is inside the layout and not a wall. */
  predicate Open(w: Walls, p: Point)
  {
    0 <= p.y < |w| && 0 <= p.x < |w[p.y]| && !w[p.y][p.x]
  }

  ghost predicate Walk(w: Walls, path: seq<Point>, s: Point, t: Point)
  {
    && |path| > 0
    && path[0] == s
    && path[|path| - 1] == t
    && forall i :: 1 <= i < |path| ==> path[i] in Neighbours(path[i - 1]) && Open(w, path[i])
  }

  ghost predicate Reachable(w: Walls, s: Point, t: Point)
  {
    exists path :: Walk(w, path, s, t)
  }

  /** Every cell a region holds has all its open neighbours in the region as well. */
  ghost predicate Closed(w: Walls, region: set<Point>)
  {
    forall c, n :: c in region && n in Neighbours(c) && Open(w, n) ==> n in region
  }

  lemma ReachableFromItself(w: Walls, s: Point)
    ensures Reachable(w, s, s)
  {
    assert Walk(w, [s], s, s);
  }

  /** One more step to an open neighbour keeps a cell reachable. */
  lemma ReachableStep(w: Walls, s: Point, c: Point, n: Point)
    requires Reachable(w, s, c)
    requires n in Neighbours(c) && Open(w, n)
    ensures Reachable(w, s, n)
  {
    var path :| Walk(w, path, s, c);
    assert Walk(w, path + [n], s, n);
  }

  /** A closed region that holds the start of a walk holds its end. */
  lemma {:induction false} ClosedHoldsWalk(w: Walls, region: set<Point>, path: seq<Point>, s: Point, t: Point)
    requires Closed(w, region) && s in region
    requires Walk(w, path, s, t)
    ensures t in region
    decreases |path|
  {
    if |path| > 1 {
      var prefix := path[..|path| - 1];
      assert Walk(w, prefix, s, prefix[|prefix| - 1]);
      ClosedHoldsWalk(w, region, prefix, s, prefix[|prefix| - 1]);
      assert path[|path| - 1] in Neighbours(path[|path| - 2]);
    }
  }

  /** A closed region that holds `s` but not `t` shows that `t` cannot be reached from `s`. */
  lemma ClosedRegionSeparates(w: Walls, region: set<Point>, s: Point, t: Point)
    requires Closed(w, region) && s in region && t !in region
    ensures !Reachable(w, s, t)
  {
    if Reachable(w, s, t) {
      var path :| Walk(w, path, s, t);
      ClosedHoldsWalk(w, region, path, s, t);
    }
  }
}
