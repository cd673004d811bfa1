/** The stroke-smoothing arithmetic shared by the two `SignaturePad` versions
    and `SketchBoard`: control points from three consecutive samples, the
    exponential velocity filter, the velocity-to-width mapping, and the
    points `addBezier` draws for one curve. */
module Smoothing {
  import opened JavaMath
  import opened Geometry
  import opened Bezier

  /** The configurable parameters: `mMinWidth`, `mMaxWidth`,
      `mVelocityFilterWeight`. */
  datatype Config = Config(minWidth: real, maxWidth: real, velocityFilterWeight: real)

  /** The configuration the view documents: widths ordered and non-negative,
      the filter weight a proportion. */
  predicate ValidConfig(cfg: Config)
  {
    0.0 <= cfg.minWidth <= cfg.maxWidth && 0.0 <= cfg.velocityFilterWeight <= 1.0
  }

  datatype ControlTimedPoints = ControlTimedPoints(c1: TimedPoint, c2: TimedPoint)

  /** A product with a positive factor keeps the order of the other factors. */
  lemma CancelPositive(a: real, b: real, d: real)
    requires 0.0 < d && a * d <= b * d
    ensures a <= b
  {
    if b < a {
      PositiveProduct(a - b, d);
    }
  }

  lemma QuotientNonNegative(n: real, d: real)
    requires 0.0 <= n && 0.0 < d
    ensures 0.0 <= n / d
  {
    assert (n / d) * d == n;
    assert 0.0 * d == 0.0;
    CancelPositive(0.0, n / d, d);
  }

  lemma RatioBounds(a: real, b: real)
    requires 0.0 <= a && 0.0 <= b && 0.0 < a + b
    ensures 0.0 <= b / (a + b) <= 1.0
    ensures b / (a + b) == 0.0 <==> b == 0.0
  {
    var s := a + b;
    var q := b / s;
    assert q * s == b;
    assert 1.0 * s == s;
    QuotientNonNegative(b, s);
    CancelPositive(q, 1.0, s);
  }

  /** `k = l2 / (l1 + l2)` of `calculateCurveControlPoints`, where `l1` and
      `l2` are the lengths of the two legs, with the NaN of two zero-length
      legs replaced by 0. */
  ghost function Ratio(s1: TimedPoint, s2: TimedPoint, s3: TimedPoint): (k: real)
    ensures 0.0 <= k <= 1.0
    ensures k == 0.0 <==> SamePosition(s3, s2)
  {
    var l1 := Distance(s2, s1);
    var l2 := Distance(s3, s2);
    match Divide(l2, l1 + l2)
    case Finite(q) =>
      RatioBounds(l1, l2);
      q
    case NaN => 0.0
    case PositiveInfinity => assert false; 0.0
    case NegativeInfinity => assert false; 0.0
  }

  /** `calculateCurveControlPoints` of the current view code: the midpoints
      of the two legs, both shifted by the vector that carries the point
      `cm` dividing them in ratio `k` onto `s2`. The new points are stamped
      with the clock reading `now`. */
  ghost function ControlPoints(s1: TimedPoint, s2: TimedPoint, s3: TimedPoint, now: int): (r: ControlTimedPoints)
    ensures r.c1.timestamp == now && r.c2.timestamp == now
  {
    ShiftedMidpoints(s1, s2, s3, Ratio(s1, s2, s3), now)
  }

  /** The control points are the two leg midpoints moved by one common
      vector, so they differ by exactly the difference of the midpoints; they
      are `ShiftedMidpoints` at the ratio `k`, which lies in [0, 1] and is 0
      exactly when the second leg has length zero. */
  lemma ControlPointsGeometry(s1: TimedPoint, s2: TimedPoint, s3: TimedPoint, now: int)
    ensures var r := ControlPoints(s1, s2, s3, now);
      r.c1.x - r.c2.x == (s1.x + s2.x) / 2.0 - (s2.x + s3.x) / 2.0 &&
      r.c1.y - r.c2.y == (s1.y + s2.y) / 2.0 - (s2.y + s3.y) / 2.0
    ensures var r := ControlPoints(s1, s2, s3, now);
      r.c1.x - (s1.x + s2.x) / 2.0 == r.c2.x - (s2.x + s3.x) / 2.0 &&
      r.c1.y - (s1.y + s2.y) / 2.0 == r.c2.y - (s2.y + s3.y) / 2.0
  {
    var k := Ratio(s1, s2, s3);
    assert ControlPoints(s1, s2, s3, now) == ShiftedMidpoints(s1, s2, s3, k, now);
    ShiftedMidpointsGeometry(s1, s2, s3, k, now);
  }

  /** The construction of the control points for a given ratio `k`. */
  function ShiftedMidpoints(s1: TimedPoint, s2: TimedPoint, s3: TimedPoint, k: real, now: int): ControlTimedPoints
  {
    var m1X := (s1.x + s2.x) / 2.0;
    var m1Y := (s1.y + s2.y) / 2.0;
    var m2X := (s2.x + s3.x) / 2.0;
    var m2Y := (s2.y + s3.y) / 2.0;
    var dxm := m1X - m2X;
    var dym := m1Y - m2Y;
    var cmX := m2X + dxm * k;
    var cmY := m2Y + dym * k;
    var tx := s2.x - cmX;
    var ty := s2.y - cmY;
    ControlTimedPoints(TimedPoint(m1X + tx, m1Y + ty, now), TimedPoint(m2X + tx, m2Y + ty, now))
  }

  /** For any ratio `k` the construction moves both midpoints by one vector,
      and the middle sample divides the segment from the second control point
      to the first in ratio `k`. */
  lemma ShiftedMidpointsGeometry(s1: TimedPoint, s2: TimedPoint, s3: TimedPoint, k: real, now: int)
    ensures var r := ShiftedMidpoints(s1, s2, s3, k, now);
      r.c1.x - r.c2.x == (s1.x + s2.x) / 2.0 - (s2.x + s3.x) / 2.0 &&
      r.c1.y - r.c2.y == (s1.y + s2.y) / 2.0 - (s2.y + s3.y) / 2.0
    ensures var r := ShiftedMidpoints(s1, s2, s3, k, now);
      r.c1.x - (s1.x + s2.x) / 2.0 == r.c2.x - (s2.x + s3.x) / 2.0 &&
      r.c1.y - (s1.y + s2.y) / 2.0 == r.c2.y - (s2.y + s3.y) / 2.0
    ensures var r := ShiftedMidpoints(s1, s2, s3, k, now);
      s2.x == r.c2.x + k * (r.c1.x - r.c2.x) &&
      s2.y == r.c2.y + k * (r.c1.y - r.c2.y)
  {
    var r := ShiftedMidpoints(s1, s2, s3, k, now);
    var dxm := (s1.x + s2.x) / 2.0 - (s2.x + s3.x) / 2.0;
    var dym := (s1.y + s2.y) / 2.0 - (s2.y + s3.y) / 2.0;
    assert r.c2.x == s2.x - dxm * k;
    assert r.c2.y == s2.y - dym * k;
  }

  /** Samples on one horizontal line give control points on that line: a
      straight stroke is not bent. */
  lemma ControlPointsOfCollinear(s1: TimedPoint, s2: TimedPoint, s3: TimedPoint, now: int)
    requires s1.y == s2.y == s3.y
    ensures ControlPoints(s1, s2, s3, now).c1.y == s2.y
    ensures ControlPoints(s1, s2, s3, now).c2.y == s2.y
  {
    ControlPointsGeometry(s1, s2, s3, now);
  }

  /** Three coincident samples give both control points at the sample. */
  lemma ControlPointsOfCoincident(s1: TimedPoint, s2: TimedPoint, s3: TimedPoint, now: int)
    requires SamePosition(s1, s2) && SamePosition(s2, s3)
    ensures SamePosition(ControlPoints(s1, s2, s3, now).c1, s2)
    ensures SamePosition(ControlPoints(s1, s2, s3, now).c2, s2)
  {
    ControlPointsGeometry(s1, s2, s3, now);
  }

  /** `calculateCurveControlPoints` of the oldest view code, which has no
      guard on `k`: when both legs have length zero the quotient is NaN and
      so are both control points, which is the `None` result. Otherwise it
      agrees with the current code. */
  ghost function LegacyControlPoints(s1: TimedPoint, s2: TimedPoint, s3: TimedPoint, now: int): (r: Option<ControlTimedPoints>)
    ensures r.None? <==> SamePosition(s1, s2) && SamePosition(s2, s3)
    ensures r.Some? ==> r.value == ControlPoints(s1, s2, s3, now)
  {
    var l1 := Distance(s2, s1);
    var l2 := Distance(s3, s2);
    if Divide(l2, l1 + l2).NaN? then None else Some(ControlPoints(s1, s2, s3, now))
  }

  /** The exponential filter: `w * v + (1 - w) * lastV`. */
  function FilterVelocity(cfg: Config, v: real, lastV: real): real
  {
    cfg.velocityFilterWeight * v + (1.0 - cfg.velocityFilterWeight) * lastV
  }

  /** A weighted mean of two values lies between them. */
  lemma MixBetween(w: real, a: real, b: real)
    requires 0.0 <= w <= 1.0
    ensures a <= b ==> a <= w * a + (1.0 - w) * b <= b
    ensures b <= a ==> b <= w * a + (1.0 - w) * b <= a
  {
    assert w * a + (1.0 - w) * b == b + w * (a - b);
    assert w * a + (1.0 - w) * b == a + (1.0 - w) * (b - a);
    if a <= b {
      NonNegProduct(w, b - a);
      NonNegProduct(1.0 - w, b - a);
    } else {
      NonNegProduct(w, a - b);
      NonNegProduct(1.0 - w, a - b);
    }
  }

  /** With a weight in [0, 1] the filtered velocity lies between the new
      reading and the previous filtered value; in particular it is never
      negative when both are non-negative. */
  lemma FilterWithin(cfg: Config, v: real, lastV: real)
    requires 0.0 <= cfg.velocityFilterWeight <= 1.0
    ensures v <= lastV ==> v <= FilterVelocity(cfg, v, lastV) <= lastV
    ensures lastV <= v ==> lastV <= FilterVelocity(cfg, v, lastV) <= v
    ensures 0.0 <= v && 0.0 <= lastV ==> 0.0 <= FilterVelocity(cfg, v, lastV)
  {
    var w := cfg.velocityFilterWeight;
    var f := FilterVelocity(cfg, v, lastV);
    if v <= lastV {
      assert f - v == (1.0 - w) * (lastV - v);
      assert lastV - f == w * (lastV - v);
      NonNegProduct(1.0 - w, lastV - v);
      NonNegProduct(w, lastV - v);
    } else {
      assert f - lastV == w * (v - lastV);
      assert v - f == (1.0 - w) * (v - lastV);
      NonNegProduct(w, v - lastV);
      NonNegProduct(1.0 - w, v - lastV);
    }
  }

  /** `strokeWidth`: `Math.max(maxWidth / (velocity + 1), minWidth)`. */
  function StrokeWidth(cfg: Config, velocity: real): (w: real)
    requires 0.0 <= velocity
    ensures cfg.minWidth <= w
    ensures 0.0 <= cfg.minWidth <= cfg.maxWidth ==> w <= cfg.maxWidth
  {
    QuotientAtMost(cfg.maxWidth, velocity + 1.0);
    Max(cfg.maxWidth / (velocity + 1.0), cfg.minWidth)
  }

  lemma QuotientAtMost(n: real, d: real)
    requires 1.0 <= d
    ensures 0.0 <= n ==> n / d <= n
  {
  }

  lemma QuotientAntitone(n: real, d1: real, d2: real)
    requires 0.0 <= n && 0.0 < d1 <= d2
    ensures n / d2 <= n / d1
  {
    var q1 := n / d1;
    var q2 := n / d2;
    assert q2 * d2 == n;
    assert q1 * d1 == n;
    QuotientNonNegative(n, d2);
    ScaledLower(q2, d2, d1);
    CancelPositive(q2, q1, d1);
  }

  /** Faster strokes are never wider: the width does not increase with the
      velocity. At velocity 0 it is the maximum width. */
  lemma StrokeWidthAntitone(cfg: Config, v1: real, v2: real)
    requires 0.0 <= cfg.maxWidth && 0.0 <= v1 <= v2
    ensures StrokeWidth(cfg, v2) <= StrokeWidth(cfg, v1)
    ensures cfg.minWidth <= cfg.maxWidth ==> StrokeWidth(cfg, 0.0) == cfg.maxWidth
  {
    QuotientAntitone(cfg.maxWidth, v1 + 1.0, v2 + 1.0);
  }

  /** The width `clear` resets to in the oldest view code, whose width
      fields are floats: `(mMinWidth + mMaxWidth) / 2`, the exact mean. */
  function ResetWidth(cfg: Config): (w: real)
    ensures cfg.minWidth <= cfg.maxWidth ==> cfg.minWidth <= w <= cfg.maxWidth
  {
    (cfg.minWidth + cfg.maxWidth) / 2.0
  }

  datatype Mode = Draw | Erase

  /** One point `addBezier` draws: its position and the stroke width of the
      paint. */
  datatype Dot = Dot(x: real, y: real, width: real)

  /** The number of loop iterations of `addBezier`: `i < drawSteps` for
      `drawSteps = (float) Math.floor(curve.length())`. */
  function DrawSteps(length: real): (n: nat)
    ensures 0.0 <= length ==> n == length.Floor
    ensures length < 0.0 ==> n == 0
  {
    if length < 0.0 then 0 else length.Floor
  }

  /** The parameter of step `i`: `(float) i / drawSteps`. */
  function StepParameter(i: nat, steps: nat): (t: real)
    requires i < steps
    ensures 0.0 <= t < 1.0
    ensures i == 0 ==> t == 0.0
  {
    i as real / steps as real
  }

  lemma CubeInUnit(t: real)
    requires 0.0 <= t <= 1.0
    ensures 0.0 <= t * t * t <= 1.0
  {
    var tt := t * t;
    NonNegProduct(t, t);
    NonNegProduct(tt, t);
    ScaledLower(t, 1.0, t);
    assert t * 1.0 == t;
    assert tt <= 1.0;
    ScaledLower(tt, 1.0, t);
    assert tt * 1.0 == tt;
    assert tt * t <= 1.0;
  }

  /** The paint width at step parameter `t`: the eraser width in erase mode,
      otherwise `startWidth + t^3 * (endWidth - startWidth)`. */
  function DotWidth(mode: Mode, eraserWidth: real, startWidth: real, endWidth: real, t: real): real
  {
    if mode == Erase then eraserWidth else startWidth + t * t * t * (endWidth - startWidth)
  }

  /** The dot of step `i`. */
  function StepDot(curve: Curve, mode: Mode, eraserWidth: real, startWidth: real, endWidth: real, i: nat, steps: nat): Dot
    requires i < steps
  {
    var t := StepParameter(i, steps);
    Dot(Coord(t, curve.start.x, curve.control1.x, curve.control2.x, curve.end.x),
        Coord(t, curve.start.y, curve.control1.y, curve.control2.y, curve.end.y),
        DotWidth(mode, eraserWidth, startWidth, endWidth, t))
  }

  /** The dots `addBezier` draws for one curve, in loop order. The curve's
      length estimate is a parameter: the current library's `Bezier` is not
      part of this model. */
  function DrawPlan(curve: Curve, mode: Mode, eraserWidth: real, startWidth: real, endWidth: real, length: real): (dots: seq<Dot>)
    ensures |dots| == DrawSteps(length)
  {
    var steps := DrawSteps(length);
    seq(steps, i requires 0 <= i < steps => StepDot(curve, mode, eraserWidth, startWidth, endWidth, i, steps))
  }

  /** The first dot sits on the curve's start point with the starting width
      (or the eraser width). */
  lemma DrawPlanStartsAtStart(curve: Curve, mode: Mode, eraserWidth: real, startWidth: real, endWidth: real, length: real)
    requires 1.0 <= length
    ensures var dots := DrawPlan(curve, mode, eraserWidth, startWidth, endWidth, length);
      0 < |dots| && dots[0].x == curve.start.x && dots[0].y == curve.start.y &&
      dots[0].width == (if mode == Erase then eraserWidth else startWidth)
  {
    var steps := DrawSteps(length);
    assert 1 <= steps;
    var dots := DrawPlan(curve, mode, eraserWidth, startWidth, endWidth, length);
    assert dots[0] == StepDot(curve, mode, eraserWidth, startWidth, endWidth, 0, steps);
    var t := StepParameter(0, steps);
    assert t * t * t * (endWidth - startWidth) == 0.0;
    CoordAtStart(curve.start.x, curve.control1.x, curve.control2.x, curve.end.x);
    CoordAtStart(curve.start.y, curve.control1.y, curve.control2.y, curve.end.y);
  }

  /** In draw mode every width lies between the starting and the ending
      width; in erase mode every width is the eraser width. */
  lemma DrawPlanWidths(curve: Curve, mode: Mode, eraserWidth: real, startWidth: real, endWidth: real, length: real, i: int)
    requires 0 <= i < |DrawPlan(curve, mode, eraserWidth, startWidth, endWidth, length)|
    ensures var w := DrawPlan(curve, mode, eraserWidth, startWidth, endWidth, length)[i].width;
      (mode == Erase ==> w == eraserWidth) &&
      (mode == Draw && startWidth <= endWidth ==> startWidth <= w <= endWidth) &&
      (mode == Draw && endWidth <= startWidth ==> endWidth <= w <= startWidth)
  {
    var steps := DrawSteps(length);
    var t := StepParameter(i, steps);
    var w := DrawPlan(curve, mode, eraserWidth, startWidth, endWidth, length)[i].width;
    assert w == DotWidth(mode, eraserWidth, startWidth, endWidth, t);
    if mode == Draw {
      DotWidthBetween(eraserWidth, startWidth, endWidth, t);
    }
  }

  lemma DotWidthBetween(eraserWidth: real, startWidth: real, endWidth: real, t: real)
    requires 0.0 <= t <= 1.0
    ensures var w := DotWidth(Draw, eraserWidth, startWidth, endWidth, t);
      (startWidth <= endWidth ==> startWidth <= w <= endWidth) &&
      (endWidth <= startWidth ==> endWidth <= w <= startWidth)
  {
    var c := t * t * t;
    CubeInUnit(t);
    var w := DotWidth(Draw, eraserWidth, startWidth, endWidth, t);
    assert w - startWidth == c * (endWidth - startWidth);
    assert endWidth - w == (1.0 - c) * (endWidth - startWidth);
    if startWidth <= endWidth {
      NonNegProduct(c, endWidth - startWidth);
      NonNegProduct(1.0 - c, endWidth - startWidth);
    } else {
      NonNegProduct(c, startWidth - endWidth);
      NonNegProduct(1.0 - c, startWidth - endWidth);
      assert w - endWidth == (1.0 - c) * (startWidth - endWidth);
    }
  }

  /** Every dot lies within the bounding box of the curve's four points. */
  lemma DrawPlanInBox(curve: Curve, mode: Mode, eraserWidth: real, startWidth: real, endWidth: real, length: real,
                      i: int, lo: TimedPoint, hi: TimedPoint)
    requires 0 <= i < |DrawPlan(curve, mode, eraserWidth, startWidth, endWidth, length)|
    requires lo.x <= curve.start.x <= hi.x && lo.x <= curve.control1.x <= hi.x
    requires lo.x <= curve.control2.x <= hi.x && lo.x <= curve.end.x <= hi.x
    requires lo.y <= curve.start.y <= hi.y && lo.y <= curve.control1.y <= hi.y
    requires lo.y <= curve.control2.y <= hi.y && lo.y <= curve.end.y <= hi.y
    ensures var d := DrawPlan(curve, mode, eraserWidth, startWidth, endWidth, length)[i];
      lo.x <= d.x <= hi.x && lo.y <= d.y <= hi.y
  {
    var steps := DrawSteps(length);
    var t := StepParameter(i, steps);
    CoordWithin(t, curve.start.x, curve.control1.x, curve.control2.x, curve.end.x, lo.x, hi.x);
    CoordWithin(t, curve.start.y, curve.control1.y, curve.control2.y, curve.end.y, lo.y, hi.y);
  }

  /** The width handed to the SVG builder for the curve: the mean of the two,
      which lies between them. */
  function SvgWidth(startWidth: real, endWidth: real): (w: real)
    ensures 2.0 * w == startWidth + endWidth
    ensures startWidth <= endWidth ==> startWidth <= w <= endWidth
    ensures endWidth <= startWidth ==> endWidth <= w <= startWidth
  {
    (startWidth + endWidth) / 2.0
  }
}
