/**
  Points on the drawing surface and the coverage radius of a ripple.

  `Point.distance` takes a square root. Dafny's reals have none, so every
  function here that needs one receives it as a parameter `sqrt` which
  `IsSqrt` constrains to give the exact non-negative square root of every
  non-negative real. Coordinates are exact reals, not 32-bit floats.
*/
module Geometry {

  /** A point in the surface's own coordinates (Compose's `Offset`). */
  datatype Point = Point(x: real, y: real)

  /** `Offset.Zero`: the top-left corner of the surface. */
  const Zero := Point(0.0, 0.0)

  /** The square of the Euclidean distance from `p` to `target`. */
  function SquaredDistance(p: Point, target: Point): (s: real)
    ensures 0.0 <= s
  {
    var xd := target.x - p.x;
    var yd := target.y - p.y;
    assert 0.0 <= xd * xd && 0.0 <= yd * yd;
    xd * xd + yd * yd
  }

  /** `sqrt` is the exact non-negative square root on the non-negative reals. */
  ghost predicate IsSqrt(sqrt: real -> real) {
    forall v :: 0.0 <= v ==> 0.0 <= sqrt(v) && sqrt(v) * sqrt(v) == v
  }

  /** `Point.distance`: the Euclidean distance from `p` to `target`. */
  function Distance(p: Point, target: Point, sqrt: real -> real): (d: real)
    requires IsSqrt(sqrt)
    ensures 0.0 <= d
    ensures d * d == SquaredDistance(p, target)
  {
    sqrt(SquaredDistance(p, target))
  }

  /** A non-negative real is determined by its square. */
  lemma SquareInjective(a: real, b: real)
    requires 0.0 <= a && 0.0 <= b && a * a == b * b
    ensures a == b
  {
    assert (a - b) * (a + b) == 0.0;
    if a + b != 0.0 {
      assert a - b == 0.0;
    }
  }

  /** Squaring is monotone on the non-negative reals, so its inverse is too. */
  lemma SquareMonotone(a: real, b: real)
    requires 0.0 <= a && 0.0 <= b && a * a <= b * b
    ensures a <= b
  {
    assert 0.0 <= (b - a) * (b + a);
    if b + a != 0.0 {
      assert 0.0 < b + a;
      assert 0.0 <= b - a;
    }
  }

  lemma SquarePositive(a: real)
    requires a != 0.0
    ensures 0.0 < a * a
  {
    if 0.0 < a {
      assert 0.0 < a * a;
    } else {
      assert 0.0 < -a;
      assert 0.0 < (-a) * (-a);
    }
  }

  lemma DistanceSymmetric(p: Point, q: Point, sqrt: real -> real)
    requires IsSqrt(sqrt)
    ensures Distance(p, q, sqrt) == Distance(q, p, sqrt)
  {
    assert SquaredDistance(p, q) == SquaredDistance(q, p);
  }

  /** Distinct points are a positive squared distance apart. */
  lemma SquaredDistancePositive(p: Point, q: Point)
    requires p != q
    ensures 0.0 < SquaredDistance(p, q)
  {
    var xd, yd := q.x - p.x, q.y - p.y;
    assert 0.0 <= xd * xd && 0.0 <= yd * yd;
    if xd != 0.0 {
      SquarePositive(xd);
      calc {
        0.0;
      < xd * xd;
      <= xd * xd + yd * yd;
      == SquaredDistance(p, q);
      }
    } else {
      SquarePositive(yd);
      calc {
        0.0;
      < yd * yd;
      <= xd * xd + yd * yd;
      == SquaredDistance(p, q);
      }
    }
  }

  /** The distance is zero exactly from a point to itself. */
  lemma DistanceZeroIffSame(p: Point, q: Point, sqrt: real -> real)
    requires IsSqrt(sqrt)
    ensures Distance(p, q, sqrt) == 0.0 <==> p == q
  {
    var d := Distance(p, q, sqrt);
    if p == q {
      SquareInjective(d, 0.0);
    } else {
      SquaredDistancePositive(p, q);
      calc {
        0.0;
      < SquaredDistance(p, q);
      == d * d;
      }
    }
  }

  /** Translating both points by the same vector leaves their distance unchanged. */
  lemma DistanceTranslationInvariant(p: Point, q: Point, dx: real, dy: real, sqrt: real -> real)
    requires IsSqrt(sqrt)
    ensures Distance(Point(p.x + dx, p.y + dy), Point(q.x + dx, q.y + dy), sqrt) == Distance(p, q, sqrt)
  {
    assert SquaredDistance(Point(p.x + dx, p.y + dy), Point(q.x + dx, q.y + dy)) == SquaredDistance(p, q);
  }

  /** Cauchy-Schwarz in the plane: u . v <= |u| * |v|. */
  lemma DotProductBound(ux: real, uy: real, vx: real, vy: real, du: real, dv: real)
    requires 0.0 <= du && du * du == ux * ux + uy * uy
    requires 0.0 <= dv && dv * dv == vx * vx + vy * vy
    ensures ux * vx + uy * vy <= du * dv
  {
    var dot := ux * vx + uy * vy;
    var cross := ux * vy - uy * vx;
    // Lagrange's identity: |u|^2 |v|^2 == (u . v)^2 + (u x v)^2
    assert (ux * ux + uy * uy) * (vx * vx + vy * vy) == dot * dot + cross * cross;
    assert (du * dv) * (du * dv) == (du * du) * (dv * dv);
    assert 0.0 <= cross * cross;
    assert dot * dot <= (du * dv) * (du * dv);
    assert 0.0 <= du * dv;
    if 0.0 <= dot {
      SquareMonotone(dot, du * dv);
    }
  }

  lemma TriangleInequality(a: Point, b: Point, c: Point, sqrt: real -> real)
    requires IsSqrt(sqrt)
    ensures Distance(a, c, sqrt) <= Distance(a, b, sqrt) + Distance(b, c, sqrt)
  {
    var dab, dbc, dac := Distance(a, b, sqrt), Distance(b, c, sqrt), Distance(a, c, sqrt);
    var ux, uy := b.x - a.x, b.y - a.y;
    var vx, vy := c.x - b.x, c.y - b.y;
    DotProductBound(ux, uy, vx, vy, dab, dbc);
    assert c.x - a.x == ux + vx && c.y - a.y == uy + vy;
    assert dac * dac == (ux + vx) * (ux + vx) + (uy + vy) * (uy + vy);
    assert (ux + vx) * (ux + vx) + (uy + vy) * (uy + vy)
        == (ux * ux + uy * uy) + 2.0 * (ux * vx + uy * vy) + (vx * vx + vy * vy);
    assert (dab + dbc) * (dab + dbc) == dab * dab + 2.0 * (dab * dbc) + dbc * dbc;
    assert dac * dac <= (dab + dbc) * (dab + dbc);
    SquareMonotone(dac, dab + dbc);
  }

  /** `DrawScope.center` of a surface of the given size: the midpoint of each diagonal. */
  function Center(width: real, height: real): (c: Point)
    ensures c.x + c.x == width && c.y + c.y == height
    ensures SquaredDistance(Zero, c) == SquaredDistance(c, Point(width, height))
    ensures SquaredDistance(Point(width, 0.0), c) == SquaredDistance(c, Point(0.0, height))
  {
    Point(width / 2.0, height / 2.0)
  }

  /** The four corners of the surface [0, width] x [0, height]. */
  function Corners(width: real, height: real): (ks: seq<Point>)
    ensures |ks| == 4
    ensures forall i :: 0 <= i < |ks| ==> (ks[i].x == 0.0 || ks[i].x == width) && (ks[i].y == 0.0 || ks[i].y == height)
  {
    [Zero, Point(width, 0.0), Point(0.0, height), Point(width, height)]
  }

  predicate OnSurface(q: Point, width: real, height: real) {
    0.0 <= q.x <= width && 0.0 <= q.y <= height
  }

  /** Every corner is as far from the centre as the top-left one. */
  lemma CornersEquidistant(width: real, height: real, k: Point, sqrt: real -> real)
    requires IsSqrt(sqrt)
    requires k in Corners(width, height)
    ensures Distance(Center(width, height), k, sqrt) == Distance(Zero, Center(width, height), sqrt)
  {
    var c := Center(width, height);
    assert SquaredDistance(c, k) == SquaredDistance(Zero, c);
    SquareInjective(Distance(c, k, sqrt), Distance(Zero, c, sqrt));
  }

  /** A non-negative times a non-positive real is non-positive. */
  lemma ProductNonPositive(a: real, b: real)
    requires 0.0 <= a && b <= 0.0
    ensures a * b <= 0.0
  {
    assert 0.0 <= a * (0.0 - b);
  }

  /** No point of the surface is farther from the centre than the top-left corner. */
  lemma CenterIsNearest(width: real, height: real, q: Point, sqrt: real -> real)
    requires IsSqrt(sqrt)
    requires OnSurface(q, width, height)
    ensures Distance(Center(width, height), q, sqrt) <= Distance(Zero, Center(width, height), sqrt)
  {
    var c := Center(width, height);
    var hx, hy := width / 2.0, height / 2.0;
    assert (q.x - hx) * (q.x - hx) == hx * hx + q.x * (q.x - width);
    ProductNonPositive(q.x, q.x - width);
    assert (q.y - hy) * (q.y - hy) == hy * hy + q.y * (q.y - height);
    ProductNonPositive(q.y, q.y - height);
    assert SquaredDistance(c, q) <= SquaredDistance(Zero, c);
    SquareMonotone(Distance(c, q, sqrt), Distance(Zero, c, sqrt));
  }

  /**
    The radius of a ripple touched at `offset`: the distance from the
    top-left corner to the centre plus the distance from the touch to the
    centre. It reaches every corner of the surface.
  */
  function CoverageRadius(offset: Point, width: real, height: real, sqrt: real -> real): (r: real)
    requires IsSqrt(sqrt)
    ensures 0.0 <= r
    ensures forall k :: k in Corners(width, height) ==> Distance(offset, k, sqrt) <= r
  {
    var center := Center(width, height);
    var centerToStartAndTop := Distance(Zero, center, sqrt);
    var centerToOffset := Distance(offset, center, sqrt);
    CoversCorners(offset, width, height, sqrt);
    centerToStartAndTop + centerToOffset
  }

  lemma CoversCorners(offset: Point, width: real, height: real, sqrt: real -> real)
    requires IsSqrt(sqrt)
    ensures forall k :: k in Corners(width, height) ==>
      Distance(offset, k, sqrt) <= Distance(Zero, Center(width, height), sqrt) + Distance(offset, Center(width, height), sqrt)
  {
    var c := Center(width, height);
    forall k | k in Corners(width, height)
      ensures Distance(offset, k, sqrt) <= Distance(Zero, c, sqrt) + Distance(offset, c, sqrt)
    {
      TriangleInequality(offset, c, k, sqrt);
      CornersEquidistant(width, height, k, sqrt);
    }
  }

  /** A circle of the coverage radius around the touch covers the whole surface. */
  lemma RippleCoversSurface(offset: Point, width: real, height: real, q: Point, sqrt: real -> real)
    requires IsSqrt(sqrt)
    requires OnSurface(q, width, height)
    ensures Distance(offset, q, sqrt) <= CoverageRadius(offset, width, height, sqrt)
  {
    var c := Center(width, height);
    TriangleInequality(offset, c, q, sqrt);
    CenterIsNearest(width, height, q, sqrt);
  }

  /** The distance from `offset` to the corner of the surface farthest from it. */
  function FarthestCornerDistance(offset: Point, width: real, height: real, sqrt: real -> real): (d: real)
    requires IsSqrt(sqrt)
    ensures forall k :: k in Corners(width, height) ==> Distance(offset, k, sqrt) <= d
    ensures exists i :: 0 <= i < 4 && d == Distance(offset, Corners(width, height)[i], sqrt)
  {
    var ks := Corners(width, height);
    var d0, d1 := Distance(offset, ks[0], sqrt), Distance(offset, ks[1], sqrt);
    var d2, d3 := Distance(offset, ks[2], sqrt), Distance(offset, ks[3], sqrt);
    var near := if d0 < d1 then d1 else d0;
    var far := if d2 < d3 then d3 else d2;
    if near < far then far else near
  }

  /**
    Parallelogram law for the diagonal through the top-left corner: the
    touch is at least the half-diagonal away from one of its two ends.
  */
  lemma OppositeCornerFar(offset: Point, width: real, height: real, sqrt: real -> real)
    requires IsSqrt(sqrt)
    ensures Distance(Zero, Center(width, height), sqrt) <= Distance(offset, Zero, sqrt)
         || Distance(Zero, Center(width, height), sqrt) <= Distance(offset, Point(width, height), sqrt)
  {
    var c := Center(width, height);
    var rr := Distance(Zero, c, sqrt);
    var a, b := Distance(offset, Zero, sqrt), Distance(offset, Point(width, height), sqrt);
    ParallelogramLaw(offset.x, width);
    ParallelogramLaw(offset.y, height);
    assert a * a + b * b >= 2.0 * (rr * rr);
    if rr * rr <= a * a {
      SquareMonotone(rr, a);
    } else {
      assert rr * rr <= b * b;
      SquareMonotone(rr, b);
    }
  }

  /** One coordinate of the parallelogram law: u^2 + (w - u)^2 >= 2 (w / 2)^2. */
  lemma ParallelogramLaw(u: real, w: real)
    ensures (0.0 - u) * (0.0 - u) + (w - u) * (w - u) >= 2.0 * ((w / 2.0 - 0.0) * (w / 2.0 - 0.0))
  {
    var h := w / 2.0;
    assert w == 2.0 * h;
    assert (0.0 - u) * (0.0 - u) + (w - u) * (w - u) == 2.0 * (h * h) + 2.0 * ((h - u) * (h - u));
    assert 0.0 <= (h - u) * (h - u);
  }

  /**
    The formula over-approximates: it is never below the distance to the
    farthest corner and exceeds it by at most the touch's distance from the
    centre.
  */
  lemma CoverageRadiusBounds(offset: Point, width: real, height: real, sqrt: real -> real)
    requires IsSqrt(sqrt)
    ensures FarthestCornerDistance(offset, width, height, sqrt) <= CoverageRadius(offset, width, height, sqrt)
    ensures CoverageRadius(offset, width, height, sqrt)
         <= FarthestCornerDistance(offset, width, height, sqrt) + Distance(offset, Center(width, height), sqrt)
  {
    var ks := Corners(width, height);
    var far := FarthestCornerDistance(offset, width, height, sqrt);
    var i :| 0 <= i < 4 && far == Distance(offset, ks[i], sqrt);
    assert ks[i] in ks;
    OppositeCornerFar(offset, width, height, sqrt);
    assert ks[0] in ks && ks[3] in ks;
  }

  /** A zero-size surface touched at its only point gives radius 0. */
  lemma DegenerateSurface(sqrt: real -> real)
    requires IsSqrt(sqrt)
    ensures CoverageRadius(Zero, 0.0, 0.0, sqrt) == 0.0
  {
    DistanceZeroIffSame(Zero, Zero, sqrt);
  }

  /** A tap at the top-left of a 100 x 100 surface: r = 2 * |(50, 50)|, so r * r = 20000. */
  lemma TapAtTopLeftOfSquare(sqrt: real -> real)
    requires IsSqrt(sqrt)
    ensures CoverageRadius(Zero, 100.0, 100.0, sqrt) == 2.0 * Distance(Zero, Point(50.0, 50.0), sqrt)
    ensures CoverageRadius(Zero, 100.0, 100.0, sqrt) * CoverageRadius(Zero, 100.0, 100.0, sqrt) == 20000.0
  {
    var d := Distance(Zero, Point(50.0, 50.0), sqrt);
    assert Center(100.0, 100.0) == Point(50.0, 50.0);
    assert d * d == 5000.0;
    assert (2.0 * d) * (2.0 * d) == 4.0 * (d * d);
  }
}
