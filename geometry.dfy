/** Plane geometry used by the tracker: positions, the half-open validity
    rectangle, the Euclidean norm and the "distance or +infinity" value that
    a nearest-candidate scan produces. */
module Geometry {

  datatype Point = Point(x: real, y: real)

  /** The axis-aligned region [xmin, xmax) x [ymin, ymax). */
  datatype Bounds2D = Bounds2D(xmin: real, ymin: real, xmax: real, ymax: real) {
    /** Only a non-empty rectangle contains anything. */
    predicate Contains(x: real, y: real)
      ensures Contains(x, y) ==> xmin < xmax && ymin < ymax
    {
      xmin <= x < xmax && ymin <= y < ymax
    }
  }

  /** The rectangle is closed on its lower edges and open on its upper edges. */
  lemma ContainsEdges(b: Bounds2D, x: real, y: real)
    ensures b.Contains(x, y) <==> b.xmin <= x < b.xmax && b.ymin <= y < b.ymax
    ensures b.Contains(b.xmin, b.ymin) <==> b.xmin < b.xmax && b.ymin < b.ymax
    ensures !b.Contains(b.xmax, y) && !b.Contains(x, b.ymax)
  {
  }

  /** numpy.linalg.norm applied to the 2-vector (dx, dy). Its floating-point
      square root is not modelled; the tracker only relies on the norm being
      non-negative, and every other use goes through this one function. */
  type Norm = f: (real, real) -> real | forall dx: real, dy: real :: f(dx, dy) >= 0.0
    witness (dx: real, dy: real) => 0.0

  /** norm(p - q) */
  function Dist(norm: Norm, p: Point, q: Point): (d: real)
    ensures d >= 0.0
  {
    norm(p.x - q.x, p.y - q.y)
  }

  /** A running minimum distance: a finite value, or +infinity (np.inf)
      before any candidate has been seen. */
  datatype Distance = Finite(value: real) | Infinity {

    /** `self < bound` for a finite bound: +infinity is below no bound. */
    predicate Below(bound: real) {
      Finite? && value < bound
    }

    /** `d < self`: every finite distance is below +infinity. */
    predicate Exceeds(d: real) {
      Infinity? || d < value
    }
  }
}
