/** Touch samples and the distance and velocity computations of the three
    `TimedPoint` classes: the current one (clamped interval, non-finite
    results replaced by 0), the library's `main` variant (NaN replaced by 0)
    and the oldest one (an unguarded quotient). */
module Geometry {
  import opened JavaMath

  /** A touch sample: position and capture time in milliseconds. */
  datatype TimedPoint = TimedPoint(x: real, y: real, timestamp: int)

  predicate SamePosition(p: TimedPoint, q: TimedPoint)
  {
    p.x == q.x && p.y == q.y
  }

  /** `TimedPoint.set`: a pooled point is overwritten with the new coordinates
      and the current time `now`. */
  function Set(p: TimedPoint, x: real, y: real, now: int): (r: TimedPoint)
    ensures r.x == x && r.y == y && r.timestamp == now
  {
    TimedPoint(x, y, now)
  }

  /** Euclidean distance, `Math.hypot` / `Math.sqrt(pow + pow)` over reals. */
  ghost function Distance(p: TimedPoint, q: TimedPoint): (d: real)
    ensures 0.0 <= d
    ensures d == 0.0 <==> SamePosition(p, q)
  {
    SquareZero(q.x - p.x);
    SquareZero(q.y - p.y);
    Sqrt(Square(q.x - p.x) + Square(q.y - p.y))
  }

  lemma DistanceSymmetric(p: TimedPoint, q: TimedPoint)
    ensures Distance(p, q) == Distance(q, p)
  {
    assert Square(q.x - p.x) == Square(p.x - q.x);
    assert Square(q.y - p.y) == Square(p.y - q.y);
  }

  /** Distance between points on a common horizontal line is the coordinate gap. */
  lemma DistanceOnLine(p: TimedPoint, q: TimedPoint)
    requires p.y == q.y
    ensures Distance(p, q) == if q.x < p.x then p.x - q.x else q.x - p.x
  {
    assert Square(q.y - p.y) == 0.0;
    SqrtOfSquare(q.x - p.x);
  }

  /** The elapsed time `end.timestamp - start.timestamp`, replaced by 1 when
      it is not positive. */
  function ClampedInterval(end: TimedPoint, start: TimedPoint): (d: int)
    ensures 1 <= d
    ensures start.timestamp < end.timestamp ==> d == end.timestamp - start.timestamp
  {
    var diff := end.timestamp - start.timestamp;
    if diff <= 0 then 1 else diff
  }

  /** `velocityFrom` of the current library: the distance from `start`
      divided by the clamped interval. Over reals the quotient is always
      finite, so the replacement of an infinite or NaN velocity by 0 never
      applies. */
  ghost function VelocityFrom(end: TimedPoint, start: TimedPoint): (v: real)
    ensures 0.0 <= v <= Distance(end, start)
    ensures v == 0.0 <==> SamePosition(end, start)
    ensures end.timestamp <= start.timestamp ==> v == Distance(end, start)
    ensures start.timestamp < end.timestamp ==>
              v * (end.timestamp - start.timestamp) as real == Distance(end, start)
  {
    var d := Distance(end, start);
    var diff := ClampedInterval(end, start);
    DivAtMost(d, diff as real);
    d / diff as real
  }

  lemma DivAtMost(n: real, d: real)
    requires 0.0 <= n && 1.0 <= d
    ensures 0.0 <= n / d <= n
    ensures n / d == 0.0 <==> n == 0.0
  {
  }

  /** Coincident samples have no velocity, whatever their timestamps. */
  lemma VelocityOfCoincident(end: TimedPoint, start: TimedPoint)
    requires SamePosition(end, start)
    ensures VelocityFrom(end, start) == 0.0
    ensures LegacyMainVelocityFrom(end, start) == Finite(0.0)
  {
  }

  /** `velocityFrom` of the oldest library: the distance divided by the raw
      interval, which is a float division by zero when both samples carry
      the same timestamp. */
  ghost function LegacyVelocityFrom(end: TimedPoint, start: TimedPoint): (v: FloatValue)
    ensures end.timestamp != start.timestamp ==>
              v == Finite(Distance(end, start) / (end.timestamp - start.timestamp) as real)
    ensures end.timestamp == start.timestamp ==>
              (v.NaN? <==> SamePosition(end, start)) &&
              (v.PositiveInfinity? <==> !SamePosition(end, start))
    ensures !v.NegativeInfinity?
  {
    Divide(Distance(end, start), (end.timestamp - start.timestamp) as real)
  }

  /** `velocityFrom` of the library's `main` sources: as the oldest one, but a
      NaN quotient (coincident samples, equal timestamps) becomes 0. */
  ghost function LegacyMainVelocityFrom(end: TimedPoint, start: TimedPoint): (v: FloatValue)
    ensures !v.NaN? && !v.NegativeInfinity?
    ensures v.PositiveInfinity? <==> end.timestamp == start.timestamp && !SamePosition(end, start)
    ensures start.timestamp < end.timestamp ==> v.Finite? && 0.0 <= v.value
    ensures end.timestamp < start.timestamp ==> v.Finite? && v.value <= 0.0
    ensures end.timestamp < start.timestamp && !SamePosition(end, start) ==> v.value < 0.0
  {
    var q := LegacyVelocityFrom(end, start);
    if q.NaN? then Finite(0.0) else q
  }
}
