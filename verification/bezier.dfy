/** The cubic Bézier segment of the library's `Bezier` class: evaluation by
    Bernstein polynomials and the oldest library's `length()` estimate. */
module Bezier {
  import opened JavaMath
  import opened Geometry

  datatype Curve = Curve(start: TimedPoint, control1: TimedPoint, control2: TimedPoint, end: TimedPoint)

  /** The four Bernstein weights at parameter `t`. */
  function Weights(t: real): (w: (real, real, real, real))
  {
    var u := 1.0 - t;
    (u * u * u, 3.0 * u * u * t, 3.0 * u * t * t, t * t * t)
  }

  /** The weighted sum of four values. */
  function Combine(w: (real, real, real, real), s: real, c1: real, c2: real, e: real): real
  {
    w.0 * s + w.1 * c1 + w.2 * c2 + w.3 * e
  }

  /** `Bezier.point`: one coordinate of the cubic at parameter `t`. */
  function Coord(t: real, s: real, c1: real, c2: real, e: real): real
  {
    Combine(Weights(t), s, c1, c2, e)
  }

  /** The curve passes through its start at t = 0. */
  lemma CoordAtStart(s: real, c1: real, c2: real, e: real)
    ensures Coord(0.0, s, c1, c2, e) == s
  {
    assert Weights(0.0) == (1.0, 0.0, 0.0, 0.0);
  }

  /** The curve passes through its end at t = 1. */
  lemma CoordAtEnd(s: real, c1: real, c2: real, e: real)
    ensures Coord(1.0, s, c1, c2, e) == e
  {
    assert Weights(1.0) == (0.0, 0.0, 0.0, 1.0);
  }

  lemma WeightsSumToOne(t: real)
    ensures Weights(t).0 + Weights(t).1 + Weights(t).2 + Weights(t).3 == 1.0
  {
    var u := 1.0 - t;
    assert u + t == 1.0;
    assert (u + t) * (u + t) * (u + t) == u * u * u + 3.0 * u * u * t + 3.0 * u * t * t + t * t * t;
  }

  lemma NonNegProduct(a: real, b: real)
    requires 0.0 <= a && 0.0 <= b
    ensures 0.0 <= a * b
  {
  }

  lemma WeightsNonNegative(t: real)
    requires 0.0 <= t <= 1.0
    ensures 0.0 <= Weights(t).0 && 0.0 <= Weights(t).1
    ensures 0.0 <= Weights(t).2 && 0.0 <= Weights(t).3
  {
    var u := 1.0 - t;
    NonNegProduct(u, u);
    NonNegProduct(u * u, u);
    NonNegProduct(3.0 * u * u, t);
    NonNegProduct(3.0 * u, t);
    NonNegProduct(3.0 * u * t, t);
    NonNegProduct(t, t);
    NonNegProduct(t * t, t);
  }

  /** A degenerate curve whose four points coincide stays at that point. */
  lemma CoordOfConstant(t: real, c: real)
    ensures Coord(t, c, c, c, c) == c
  {
    WeightsSumToOne(t);
    CombineOfConstant(Weights(t), c);
  }

  lemma CombineOfConstant(w: (real, real, real, real), c: real)
    requires w.0 + w.1 + w.2 + w.3 == 1.0
    ensures Combine(w, c, c, c, c) == c
  {
    assert w.0 * c + w.1 * c + w.2 * c + w.3 * c == (w.0 + w.1 + w.2 + w.3) * c;
  }

  lemma ScaledLower(w: real, v: real, lo: real)
    requires 0.0 <= w && lo <= v
    ensures w * lo <= w * v
  {
    NonNegProduct(w, v - lo);
  }

  lemma Distribute(a: real, b: real, c: real, d: real, x: real)
    requires a + b + c + d == 1.0
    ensures a * x + b * x + c * x + d * x == x
  {
    assert a * x + b * x + c * x + d * x == (a + b + c + d) * x;
  }

  lemma AddLe(x1: real, y1: real, x2: real, y2: real, x3: real, y3: real, x4: real, y4: real)
    requires x1 <= y1 && x2 <= y2 && x3 <= y3 && x4 <= y4
    ensures x1 + x2 + x3 + x4 <= y1 + y2 + y3 + y4
  {
  }

  lemma WithinLower(a: real, b: real, c: real, d: real, s: real, c1: real, c2: real, e: real, lo: real)
    requires 0.0 <= a && 0.0 <= b && 0.0 <= c && 0.0 <= d
    requires a + b + c + d == 1.0
    requires lo <= s && lo <= c1 && lo <= c2 && lo <= e
    ensures lo <= a * s + b * c1 + c * c2 + d * e
  {
    ScaledLower(a, s, lo);
    ScaledLower(b, c1, lo);
    ScaledLower(c, c2, lo);
    ScaledLower(d, e, lo);
    AddLe(a * lo, a * s, b * lo, b * c1, c * lo, c * c2, d * lo, d * e);
    Distribute(a, b, c, d, lo);
  }

  lemma WithinUpper(a: real, b: real, c: real, d: real, s: real, c1: real, c2: real, e: real, hi: real)
    requires 0.0 <= a && 0.0 <= b && 0.0 <= c && 0.0 <= d
    requires a + b + c + d == 1.0
    requires s <= hi && c1 <= hi && c2 <= hi && e <= hi
    ensures a * s + b * c1 + c * c2 + d * e <= hi
  {
    WithinLower(a, b, c, d, -s, -c1, -c2, -e, -hi);
    assert a * (-s) + b * (-c1) + c * (-c2) + d * (-e) == -(a * s + b * c1 + c * c2 + d * e);
  }

  /** For t in [0, 1] the cubic stays within the range of its four points. */
  lemma CoordWithin(t: real, s: real, c1: real, c2: real, e: real, lo: real, hi: real)
    requires 0.0 <= t <= 1.0
    requires lo <= s <= hi && lo <= c1 <= hi && lo <= c2 <= hi && lo <= e <= hi
    ensures lo <= Coord(t, s, c1, c2, e) <= hi
  {
    WeightsNonNegative(t);
    WeightsSumToOne(t);
    CombineWithin(Weights(t), s, c1, c2, e, lo, hi);
  }

  /** A convex combination of four values lies within their range. */
  lemma CombineWithin(w: (real, real, real, real), s: real, c1: real, c2: real, e: real, lo: real, hi: real)
    requires 0.0 <= w.0 && 0.0 <= w.1 && 0.0 <= w.2 && 0.0 <= w.3
    requires w.0 + w.1 + w.2 + w.3 == 1.0
    requires lo <= s <= hi && lo <= c1 <= hi && lo <= c2 <= hi && lo <= e <= hi
    ensures lo <= Combine(w, s, c1, c2, e) <= hi
  {
    WithinLower(w.0, w.1, w.2, w.3, s, c1, c2, e, lo);
    WithinUpper(w.0, w.1, w.2, w.3, s, c1, c2, e, hi);
  }

  /** The sample of `length()`'s loop at index `i`: the curve at the int
      quotient `i / 10`, which is 0 below 10 and 1 at 10. */
  function Sample(c: Curve, i: int): (p: (real, real))
    requires 0 <= i <= 10
    ensures i < 10 ==> p == (c.start.x, c.start.y)
    ensures i == 10 ==> p == (c.end.x, c.end.y)
  {
    var t := (i / 10) as real;
    if i < 10 then
      assert t == 0.0;
      CoordAtStart(c.start.x, c.control1.x, c.control2.x, c.end.x);
      CoordAtStart(c.start.y, c.control1.y, c.control2.y, c.end.y);
      (Coord(t, c.start.x, c.control1.x, c.control2.x, c.end.x),
       Coord(t, c.start.y, c.control1.y, c.control2.y, c.end.y))
    else
      assert t == 1.0;
      CoordAtEnd(c.start.x, c.control1.x, c.control2.x, c.end.x);
      CoordAtEnd(c.start.y, c.control1.y, c.control2.y, c.end.y);
      (Coord(t, c.start.x, c.control1.x, c.control2.x, c.end.x),
       Coord(t, c.start.y, c.control1.y, c.control2.y, c.end.y))
  }

  /** The loop of the oldest `Bezier.length()` from sample `i` on, with the
      int accumulator `length` and the previous sample `(px, py)`. Each
      addition of a square root is cast back to int. */
  ghost function LengthFrom(c: Curve, i: int, length: int, px: real, py: real): int
    requires 0 <= i <= 11
    decreases 11 - i
  {
    if i > 10 then length
    else
      var p := Sample(c, i);
      var next := if i > 0 then TruncToInt(length as real + Sqrt(Square(p.0 - px) + Square(p.1 - py))) else length;
      LengthFrom(c, i + 1, next, p.0, p.1)
  }

  /** `Bezier.length()` of the oldest library. */
  ghost function Length(c: Curve): int
  {
    LengthFrom(c, 0, 0, 0.0, 0.0)
  }

  lemma {:induction false} LengthFromStart(c: Curve, i: int)
    requires 1 <= i <= 10
    decreases 10 - i
    ensures LengthFrom(c, i, 0, c.start.x, c.start.y) == Distance(c.start, c.end).Floor
  {
    if i < 10 {
      assert Square(c.start.x - c.start.x) + Square(c.start.y - c.start.y) == 0.0;
      LengthFromStart(c, i + 1);
    }
  }

  /** Because the samples collapse onto the two endpoints, the estimate is the
      straight-line distance from start to end truncated to an int, whatever
      the control points; in particular it is never negative. */
  lemma LengthIsTruncatedChord(c: Curve)
    ensures Length(c) == Distance(c.start, c.end).Floor
    ensures 0 <= Length(c)
  {
    LengthFromStart(c, 1);
  }
}
