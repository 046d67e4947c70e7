/** Points, vectors and sizes in real coordinates, and the square root the game relies on. */
module Geometry {
  datatype Point = Point(x: real, y: real)
  datatype Vector = Vector(dx: real, dy: real)
  datatype Size = Size(width: real, height: real)

  /** Squared Euclidean distance between two points. */
  function DistSq(a: Point, b: Point): (r: real)
    ensures r >= 0.0
  {
    (a.x - b.x) * (a.x - b.x) + (a.y - b.y) * (a.y - b.y)
  }

  /** Squared length of a vector. */
  function NormSq(v: Vector): (r: real)
    ensures r >= 0.0
  {
    v.dx * v.dx + v.dy * v.dy
  }

  /** `sqrt` is the exact, non-negative square root on the non-negative reals. */
  ghost predicate IsSqrt(sqrt: real -> real)
  {
    forall x :: 0.0 <= x ==> 0.0 <= sqrt(x) && sqrt(x) * sqrt(x) == x
  }

  /** 0 <= s < b implies s*s < b*b. */
  lemma SquareLess(s: real, b: real)
    requires 0.0 <= s < b
    ensures s * s < b * b
  {
    var ss, sb, bb := s * s, s * b, b * b;
    assert ss <= sb;
    assert sb < bb;
  }

  /** Comparing a square root with a non-negative bound is comparing the square with the bound squared. */
  lemma SqrtOrder(sqrt: real -> real, x: real, b: real)
    requires IsSqrt(sqrt)
    requires 0.0 <= x && 0.0 <= b
    ensures sqrt(x) < b <==> x < b * b
    ensures sqrt(x) == b <==> x == b * b
  {
    var s := sqrt(x);
    assert 0.0 <= s && s * s == x;
    if s < b {
      SquareLess(s, b);
    } else if s > b {
      SquareLess(b, s);
    }
  }

  /** If k*d == c then k*k*(d*d) == c*c. */
  lemma ScaledSquare(k: real, d: real, d2: real, c: real)
    requires k * d == c && d * d == d2
    ensures k * k * d2 == c * c
  {
  }

  /** Two displacements that are scalar multiples have squared lengths in the ratio of the scalar squared. */
  lemma ScaledDistSq(p: Point, q: Point, a: Point, b: Point, k: real)
    requires p.x - q.x == k * (a.x - b.x) && p.y - q.y == k * (a.y - b.y)
    ensures DistSq(p, q) == k * k * DistSq(a, b)
  {
  }

  /** Whether `p` lies in the half-open rectangle [xLo, xHi) x [yLo, yHi), the range of `CGFloat.random(in:)`. */
  predicate InRange(p: Point, xLo: real, xHi: real, yLo: real, yHi: real)
  {
    xLo <= p.x < xHi && yLo <= p.y < yHi
  }
}
