/** The oldest `SignaturePad` view: float widths, a window that waits for
    three samples before its first curve, a velocity taken from the
    unclamped `TimedPoint` (so it can become infinite), the curves handed to
    `addBezier`, `clear`, the touch handler and the `isEmpty` flag whose
    listener hears only changes. */
module LegacySignaturePad {
  import opened JavaMath
  import opened Geometry
  import opened Bezier
  import opened Smoothing
  import opened StrokeWindow
  import opened TouchInput
  import StrokeDrawing

  /** Java float `a * v` for a finite factor `a`. */
  function Times(a: real, v: FloatValue): FloatValue
  {
    match v
    case Finite(x) => Finite(a * x)
    case PositiveInfinity => if 0.0 < a then PositiveInfinity else if a < 0.0 then NegativeInfinity else NaN
    case NegativeInfinity => if 0.0 < a then NegativeInfinity else if a < 0.0 then PositiveInfinity else NaN
    case NaN => NaN
  }

  /** Java float `u + v`. */
  function Plus(u: FloatValue, v: FloatValue): FloatValue
  {
    if u.NaN? || v.NaN? then NaN
    else if u.Finite? && v.Finite? then Finite(u.value + v.value)
    else if (u.PositiveInfinity? && v.NegativeInfinity?) || (u.NegativeInfinity? && v.PositiveInfinity?) then NaN
    else if u.PositiveInfinity? || v.PositiveInfinity? then PositiveInfinity
    else NegativeInfinity
  }

  /** Java float `n / d` for a finite numerator; the sign of a zero quotient
      is not modelled. */
  function Over(n: real, d: FloatValue): FloatValue
  {
    match d
    case Finite(x) => Divide(n, x)
    case PositiveInfinity => Finite(0.0)
    case NegativeInfinity => Finite(0.0)
    case NaN => NaN
  }

  /** `Math.max(v, m)` for a finite `m`: NaN wins, as does +Infinity. */
  function MaxWith(v: FloatValue, m: real): FloatValue
  {
    match v
    case Finite(x) => Finite(Max(x, m))
    case PositiveInfinity => PositiveInfinity
    case NegativeInfinity => Finite(m)
    case NaN => NaN
  }

  /** The filter of lines 94-95 in float arithmetic. On finite readings it
      is the filter of the current code. */
  function FilterFloat(cfg: Config, v: FloatValue, lastV: FloatValue): (r: FloatValue)
    ensures v.Finite? && lastV.Finite? ==> r == Finite(FilterVelocity(cfg, v.value, lastV.value))
    ensures (0.0 < cfg.velocityFilterWeight < 1.0 && !v.NaN? && !v.NegativeInfinity? && lastV.PositiveInfinity?) ==>
              r.PositiveInfinity?
  {
    var w := cfg.velocityFilterWeight;
    var recent := Times(w, v);
    var carried := Times(1.0 - w, lastV);
    assert 0.0 < w < 1.0 && !v.NaN? && !v.NegativeInfinity? && lastV.PositiveInfinity? ==>
             (recent.Finite? || recent.PositiveInfinity?) && carried.PositiveInfinity?;
    assert v.Finite? && lastV.Finite? ==>
             Plus(recent, carried) == Finite(FilterVelocity(cfg, v.value, lastV.value));
    Plus(recent, carried)
  }

  /** `strokeWidth` in float arithmetic: `Math.max(mMaxWidth / (velocity + 1),
      mMinWidth)`. For a finite non-negative velocity it is the width of the
      current code; an infinite velocity gives the minimum width. */
  function LegacyStrokeWidth(cfg: Config, v: FloatValue): (w: FloatValue)
    ensures v.Finite? && 0.0 <= v.value ==> w == Finite(StrokeWidth(cfg, v.value))
    ensures v.PositiveInfinity? && 0.0 <= cfg.minWidth ==> w == Finite(cfg.minWidth)
    ensures v.NaN? ==> w.NaN?
  {
    MaxWith(Over(cfg.maxWidth, Plus(v, Finite(1.0))), cfg.minWidth)
  }

  /** `mLastVelocity` and `mLastWidth`, both floats. */
  datatype LegacyPen = LegacyPen(lastVelocity: FloatValue, lastWidth: FloatValue)

  /** The pen after `clear`: no velocity and the exact mean of the two widths. */
  function ClearedPen(cfg: Config): (pen: LegacyPen)
    ensures pen.lastVelocity == Finite(0.0)
    ensures pen.lastWidth.Finite? && 2.0 * pen.lastWidth.value == cfg.minWidth + cfg.maxWidth
    ensures ValidConfig(cfg) ==> cfg.minWidth <= pen.lastWidth.value <= cfg.maxWidth
  {
    LegacyPen(Finite(0.0), Finite(ResetWidth(cfg)))
  }

  /** One call of `addBezier`: the curve runs from `start` to `end`; its two
      inner control points are absent when the unguarded ratio of
      `calculateCurveControlPoints` was NaN, which makes them NaN in Java. */
  datatype LegacySegment = LegacySegment(start: TimedPoint, controls: Option<ControlTimedPoints>, end: TimedPoint,
                                         startWidth: FloatValue, endWidth: FloatValue)

  /** The inner control points of the curve of a quad (lines 82-86): the
      second control point of the first three samples and the first of the
      last three. They are missing only where the curve has no length: both
      legs of a triple vanish only when its middle samples coincide. Where
      present they are those of the current code. */
  ghost function LegacyControls(q: Quad, now: int): (r: Option<ControlTimedPoints>)
    ensures r.None? ==> SamePosition(q.p1, q.p2)
    ensures r.None? <==> (SamePosition(q.p0, q.p1) || SamePosition(q.p2, q.p3)) && SamePosition(q.p1, q.p2)
    ensures r.Some? ==> StrokeDrawing.CurveOf(q, now) == Curve(q.p1, r.value.c1, r.value.c2, q.p2)
  {
    var a := LegacyControlPoints(q.p0, q.p1, q.p2, now);
    var b := LegacyControlPoints(q.p1, q.p2, q.p3, now);
    if a.Some? && b.Some? then Some(ControlTimedPoints(a.value.c2, b.value.c1)) else None
  }

  /** The pen update of `addPoint` for a given raw velocity: the filter, the
      width for the filtered velocity, and the curve drawn from the previous
      width to the new one. */
  ghost function PenStep(cfg: Config, pen: LegacyPen, v: FloatValue, q: Quad, now: int): (r: (LegacyPen, LegacySegment))
  {
    var filtered := FilterFloat(cfg, v, pen.lastVelocity);
    var width := LegacyStrokeWidth(cfg, filtered);
    (LegacyPen(filtered, width), LegacySegment(q.p1, LegacyControls(q, now), q.p2, pen.lastWidth, width))
  }

  /** Lines 82-108 for one quad as written: the velocity of the oldest
      `TimedPoint` with a NaN replaced by 0 (line 92), which is the velocity
      of the library's `main` `TimedPoint`. Each curve starts at the previous
      width and ends at the new one, which the pen keeps. */
  ghost function LegacyDrawQuad(cfg: Config, pen: LegacyPen, q: Quad, now: int): (r: (LegacyPen, LegacySegment))
    ensures r.1.start == q.p1 && r.1.end == q.p2
    ensures r.1.startWidth == pen.lastWidth && r.1.endWidth == r.0.lastWidth
  {
    PenStep(cfg, pen, LegacyMainVelocityFrom(q.p2, q.p1), q, now)
  }

  /** While the clock moves forward between the curve's end points, a pen
      with a finite velocity is updated exactly as in the current code. */
  lemma LegacyAgreesWhileClockAdvances(cfg: Config, pen: LegacyPen, q: Quad, now: int)
    requires q.p1.timestamp < q.p2.timestamp && pen.lastVelocity.Finite?
    ensures var r := LegacyDrawQuad(cfg, pen, q, now);
      var f := FilterVelocity(cfg, VelocityFrom(q.p2, q.p1), pen.lastVelocity.value);
      r.0.lastVelocity == Finite(f) &&
      (ValidConfig(cfg) && 0.0 <= pen.lastVelocity.value ==> 0.0 <= f && r.0.lastWidth == Finite(StrokeWidth(cfg, f)))
  {
    var v := LegacyMainVelocityFrom(q.p2, q.p1);
    var d := (q.p2.timestamp - q.p1.timestamp) as real;
    assert VelocityFrom(q.p2, q.p1) * d == Distance(q.p2, q.p1);
    assert v == Finite(Distance(q.p2, q.p1) / d);
    assert v == Finite(VelocityFrom(q.p2, q.p1));
    if ValidConfig(cfg) && 0.0 <= pen.lastVelocity.value {
      FilterWithin(cfg, VelocityFrom(q.p2, q.p1), pen.lastVelocity.value);
    }
  }

  /** The quads of one stroke drawn in order, each from the pen the previous
      one left. */
  ghost function LegacyDrawQuads(cfg: Config, pen: LegacyPen, qs: seq<Quad>, now: int): (r: (LegacyPen, seq<LegacySegment>))
    ensures |r.1| == |qs|
    ensures forall j :: 0 <= j < |qs| ==> r.1[j].start == qs[j].p1 && r.1[j].end == qs[j].p2
    ensures 0 < |qs| ==> r.1[0].startWidth == pen.lastWidth && r.1[|qs| - 1].endWidth == r.0.lastWidth
    ensures forall j :: 0 <= j < |qs| - 1 ==> r.1[j].endWidth == r.1[j + 1].startWidth
    decreases |qs|
  {
    if |qs| == 0 then (pen, [])
    else
      var first := LegacyDrawQuad(cfg, pen, qs[0], now);
      var rest := LegacyDrawQuads(cfg, first.0, qs[1..], now);
      (rest.0, [first.1] + rest.1)
  }

  /** Two samples at one instant and two positions: the oldest `TimedPoint`
      divides a positive distance by zero, the infinity passes the NaN guard
      and the filter, and the width drops to the minimum. */
  lemma InfiniteVelocityOnTie(cfg: Config, pen: LegacyPen, q: Quad, now: int)
    requires ValidConfig(cfg) && 0.0 < cfg.velocityFilterWeight
    requires pen.lastVelocity.Finite? || (pen.lastVelocity.PositiveInfinity? && cfg.velocityFilterWeight < 1.0)
    requires q.p1.timestamp == q.p2.timestamp && !SamePosition(q.p1, q.p2)
    ensures LegacyDrawQuad(cfg, pen, q, now).0 == LegacyPen(PositiveInfinity, Finite(cfg.minWidth))
  {
    var v := LegacyMainVelocityFrom(q.p2, q.p1);
    assert v.PositiveInfinity?;
    var w := cfg.velocityFilterWeight;
    var recent := Times(w, v);
    var carried := Times(1.0 - w, pen.lastVelocity);
    assert recent.PositiveInfinity?;
    assert carried.Finite? || carried.PositiveInfinity?;
    assert FilterFloat(cfg, v, pen.lastVelocity) == Plus(recent, carried);
  }

  /** Once the filtered velocity is infinite it stays infinite, whatever the
      pen does next, and every later curve ends at the minimum width. */
  lemma StuckAtMinWidth(cfg: Config, pen: LegacyPen, q: Quad, now: int)
    requires ValidConfig(cfg) && 0.0 < cfg.velocityFilterWeight < 1.0
    requires pen.lastVelocity.PositiveInfinity?
    ensures LegacyDrawQuad(cfg, pen, q, now).0 == LegacyPen(PositiveInfinity, Finite(cfg.minWidth))
  {
    var v := LegacyMainVelocityFrom(q.p2, q.p1);
    assert FilterFloat(cfg, v, pen.lastVelocity).PositiveInfinity?;
  }

  /** For the rest of the stroke (and, since `ACTION_DOWN` keeps the pen,
      until `clear`) every curve is drawn at the minimum width. */
  lemma {:induction false} StuckForTheStroke(cfg: Config, pen: LegacyPen, qs: seq<Quad>, now: int)
    requires ValidConfig(cfg) && 0.0 < cfg.velocityFilterWeight < 1.0
    requires pen.lastVelocity.PositiveInfinity?
    ensures var r := LegacyDrawQuads(cfg, pen, qs, now);
      r.0.lastVelocity.PositiveInfinity? &&
      (0 < |qs| ==> r.0.lastWidth == Finite(cfg.minWidth)) &&
      forall j :: 0 <= j < |qs| ==> r.1[j].endWidth == Finite(cfg.minWidth)
    decreases |qs|
  {
    if 0 < |qs| {
      StuckAtMinWidth(cfg, pen, qs[0], now);
      var first := LegacyDrawQuad(cfg, pen, qs[0], now);
      StuckForTheStroke(cfg, first.0, qs[1..], now);
      var rest := LegacyDrawQuads(cfg, first.0, qs[1..], now);
      assert LegacyDrawQuads(cfg, pen, qs, now).1 == [first.1] + rest.1;
    }
  }

  /** The update with the velocity of the current `TimedPoint`, whose
      interval is clamped to at least 1 ms. */
  ghost function CorrectedDrawQuad(cfg: Config, pen: LegacyPen, q: Quad, now: int): (r: (LegacyPen, LegacySegment))
    ensures r.1.startWidth == pen.lastWidth && r.1.endWidth == r.0.lastWidth
  {
    PenStep(cfg, pen, Finite(VelocityFrom(q.p2, q.p1)), q, now)
  }

  /** A pen whose velocity is a finite non-negative float and whose width is
      the width of that velocity. */
  predicate Settled(cfg: Config, pen: LegacyPen)
  {
    pen.lastVelocity.Finite? && 0.0 <= pen.lastVelocity.value &&
    pen.lastWidth == Finite(StrokeWidth(cfg, pen.lastVelocity.value))
  }

  /** With the clamped interval every update keeps the pen finite and its
      width within [minWidth, maxWidth], ties included: two samples at one
      instant give the distance itself as the velocity. */
  lemma CorrectedStaysFinite(cfg: Config, pen: LegacyPen, q: Quad, now: int)
    requires ValidConfig(cfg) && Settled(cfg, pen)
    ensures var r := CorrectedDrawQuad(cfg, pen, q, now);
      Settled(cfg, r.0) && cfg.minWidth <= r.0.lastWidth.value <= cfg.maxWidth &&
      (q.p1.timestamp == q.p2.timestamp ==>
         r.0.lastVelocity == Finite(FilterVelocity(cfg, Distance(q.p2, q.p1), pen.lastVelocity.value)))
  {
    FilterWithin(cfg, VelocityFrom(q.p2, q.p1), pen.lastVelocity.value);
  }

  /** With the clamped interval a pen that comes to rest widens the line
      again: the velocity decays and the width does not shrink. As written,
      after a tie the width stays at the minimum (`StuckAtMinWidth`). */
  lemma CorrectedRecoversAtRest(cfg: Config, pen: LegacyPen, q: Quad, now: int)
    requires ValidConfig(cfg) && Settled(cfg, pen)
    requires SamePosition(q.p1, q.p2)
    ensures var r := CorrectedDrawQuad(cfg, pen, q, now);
      r.0.lastVelocity.value == (1.0 - cfg.velocityFilterWeight) * pen.lastVelocity.value &&
      pen.lastWidth.value <= r.0.lastWidth.value
  {
    var v := pen.lastVelocity.value;
    var r := CorrectedDrawQuad(cfg, pen, q, now);
    assert VelocityFrom(q.p2, q.p1) == 0.0;
    RestStep(cfg, v);
    var f := FilterVelocity(cfg, 0.0, v);
    assert r.0.lastVelocity == FilterFloat(cfg, Finite(0.0), pen.lastVelocity) == Finite(f);
    assert r.0.lastWidth == LegacyStrokeWidth(cfg, Finite(f)) == Finite(StrokeWidth(cfg, f));
  }

  /** The filter and the width at rest: the velocity decays by `1 - w` and
      the width does not shrink. */
  lemma RestStep(cfg: Config, v: real)
    requires ValidConfig(cfg) && 0.0 <= v
    ensures var f := FilterVelocity(cfg, 0.0, v);
      f == (1.0 - cfg.velocityFilterWeight) * v && 0.0 <= f <= v &&
      StrokeWidth(cfg, v) <= StrokeWidth(cfg, f)
  {
    var f := FilterVelocity(cfg, 0.0, v);
    FilterWithin(cfg, 0.0, v);
    StrokeWidthAntitone(cfg, f, v);
  }

  /** The number of dots `addBezier` draws for a segment: `Math.floor` of
      the oldest `Bezier.length()`. With NaN control points every sample of
      `length()` is NaN and the int accumulator casts it to 0. Either way it
      is the straight distance between the end points, truncated. */
  ghost function Steps(seg: LegacySegment): (n: nat)
    ensures seg.controls.Some? ==> n == Distance(seg.start, seg.end).Floor
    ensures seg.controls.None? ==> n == 0
  {
    match seg.controls
    case None => 0
    case Some(c) =>
      var curve := Curve(seg.start, c.c1, c.c2, seg.end);
      LengthIsTruncatedChord(curve);
      Length(curve)
  }

  /** The missing NaN guard of `calculateCurveControlPoints` never shows:
      a curve of a quad has NaN control points only when it has no length,
      and such a curve draws no dot in any case. */
  lemma NaNControlsDrawNothing(cfg: Config, pen: LegacyPen, q: Quad, now: int)
    ensures var seg := LegacyDrawQuad(cfg, pen, q, now).1;
      Steps(seg) == Distance(q.p1, q.p2).Floor &&
      (seg.controls.None? ==> Steps(seg) == 0)
  {
  }

  /** The dots `addBezier` draws for a segment with finite widths (lines
      116-148): `Steps` many, in draw mode. */
  ghost function LegacyPlan(seg: LegacySegment): (dots: seq<Dot>)
    requires seg.startWidth.Finite? && seg.endWidth.Finite?
    ensures |dots| == Steps(seg)
    ensures forall i :: 0 <= i < |dots| ==>
              var a := seg.startWidth.value;
              var b := seg.endWidth.value;
              (a <= b ==> a <= dots[i].width <= b) && (b <= a ==> b <= dots[i].width <= a)
  {
    match seg.controls
    case None => []
    case Some(c) =>
      var curve := Curve(seg.start, c.c1, c.c2, seg.end);
      var a := seg.startWidth.value;
      var b := seg.endWidth.value;
      var len := Steps(seg) as real;
      var dots := DrawPlan(curve, Draw, 0.0, a, b, len);
      assert forall i :: 0 <= i < |dots| ==> (a <= b ==> a <= dots[i].width <= b) && (b <= a ==> b <= dots[i].width <= a) by {
        forall i | 0 <= i < |dots|
          ensures (a <= b ==> a <= dots[i].width <= b) && (b <= a ==> b <= dots[i].width <= a)
        {
          DrawPlanWidths(curve, Draw, 0.0, a, b, len, i);
        }
      }
      dots
  }

  datatype Signal = Signed | Cleared

  /** The view: the configured widths and weight, the window `mPoints`, the
      pen, the curves drawn on the bitmap since it was last dropped, the
      `mIsEmpty` flag, whether a listener is registered, and what the
      listener has been told. */
  datatype LegacyPad = LegacyPad(cfg: Config, window: seq<TimedPoint>, pen: LegacyPen, drawn: seq<LegacySegment>,
                                 isEmpty: bool, listening: bool, signals: seq<Signal>)

  function SignalFor(empty: bool): Signal
  {
    if empty then Cleared else Signed
  }

  /** `setIsEmpty`: the flag takes the new value, and a registered listener
      hears `onClear` or `onSigned` only when the value changed. */
  function SetIsEmpty(pad: LegacyPad, newValue: bool): (r: LegacyPad)
    ensures r.isEmpty == newValue
    ensures r.(isEmpty := pad.isEmpty, signals := pad.signals) == pad
    ensures pad.isEmpty != newValue && pad.listening ==> r.signals == pad.signals + [SignalFor(newValue)]
    ensures pad.isEmpty == newValue || !pad.listening ==> r.signals == pad.signals
  {
    if pad.isEmpty != newValue then
      pad.(isEmpty := newValue, signals := pad.signals + if pad.listening then [SignalFor(newValue)] else [])
    else
      pad
  }

  /** What the listener heard alternates between the two signals, and the
      last one a registered listener heard describes the flag. */
  predicate Consistent(pad: LegacyPad)
  {
    (forall i :: 0 <= i < |pad.signals| - 1 ==> pad.signals[i] != pad.signals[i + 1]) &&
    (pad.listening && 0 < |pad.signals| ==> pad.signals[|pad.signals| - 1] == SignalFor(pad.isEmpty))
  }

  /** The listener never hears the same news twice in a row; setting the
      flag to the value it has is silent. */
  lemma SetIsEmptyAlternates(pad: LegacyPad, newValue: bool)
    ensures Consistent(pad) ==> Consistent(SetIsEmpty(pad, newValue))
    ensures SetIsEmpty(SetIsEmpty(pad, newValue), newValue) == SetIsEmpty(pad, newValue)
  {
    var r := SetIsEmpty(pad, newValue);
    if Consistent(pad) && pad.isEmpty != newValue && pad.listening && 0 < |pad.signals| {
      assert pad.signals[|pad.signals| - 1] != SignalFor(newValue);
      assert forall i :: 0 <= i < |pad.signals| - 1 ==> r.signals[i] == pad.signals[i];
    }
  }

  /** `clear`: an empty window, the reset pen, no bitmap and the flag set. */
  function Clear(pad: LegacyPad): (r: LegacyPad)
    ensures r.window == [] && r.pen == ClearedPen(pad.cfg) && r.drawn == [] && r.isEmpty
    ensures r.cfg == pad.cfg && r.listening == pad.listening
    ensures !pad.isEmpty && pad.listening ==> r.signals == pad.signals + [Cleared]
    ensures pad.isEmpty || !pad.listening ==> r.signals == pad.signals
  {
    SetIsEmpty(pad.(window := [], pen := ClearedPen(pad.cfg), drawn := []), true)
  }

  /** The configuration with the constructor's defaults: 3 and 7 pixels and
      a weight of 0.9, each replaced by an attribute when one is given. */
  function Configured(minWidth: Option<real>, maxWidth: Option<real>, weight: Option<real>): (cfg: Config)
    ensures minWidth.None? ==> cfg.minWidth == 3.0
    ensures maxWidth.None? ==> cfg.maxWidth == 7.0
    ensures weight.None? ==> cfg.velocityFilterWeight == 0.9
    ensures minWidth.Some? ==> cfg.minWidth == minWidth.value
    ensures maxWidth.Some? ==> cfg.maxWidth == maxWidth.value
    ensures weight.Some? ==> cfg.velocityFilterWeight == weight.value
  {
    Config(if minWidth.Some? then minWidth.value else 3.0,
           if maxWidth.Some? then maxWidth.value else 7.0,
           if weight.Some? then weight.value else 0.9)
  }

  /** The constructor: the configured widths, then `clear` with no listener
      yet, so the flag starts set and nobody was told. */
  function New(minWidth: Option<real>, maxWidth: Option<real>, weight: Option<real>): (pad: LegacyPad)
    ensures pad.cfg == Configured(minWidth, maxWidth, weight)
    ensures pad.window == [] && pad.drawn == [] && pad.isEmpty && pad.signals == [] && !pad.listening
    ensures pad.pen == ClearedPen(pad.cfg)
    ensures minWidth.None? && maxWidth.None? ==> pad.pen.lastWidth == Finite(5.0)
    ensures Consistent(pad)
  {
    Clear(LegacyPad(Configured(minWidth, maxWidth, weight), [], LegacyPen(Finite(0.0), Finite(0.0)), [], false, false, []))
  }

  /** `addPoint`: the sample enters the window; once a quad is present its
      curve is drawn and the pen moves on. `now` stamps the points
      `calculateCurveControlPoints` creates. */
  ghost function AddSample(pad: LegacyPad, p: TimedPoint, now: int): (r: LegacyPad)
    ensures r.window == LegacyAddPoint(pad.window, p).0
    ensures r.(window := pad.window, pen := pad.pen, drawn := pad.drawn) == pad
    ensures LegacyAddPoint(pad.window, p).1.None? ==> r.pen == pad.pen && r.drawn == pad.drawn
    ensures LegacyAddPoint(pad.window, p).1.Some? ==>
              var d := LegacyDrawQuad(pad.cfg, pad.pen, LegacyAddPoint(pad.window, p).1.value, now);
              r.pen == d.0 && r.drawn == pad.drawn + [d.1]
  {
    var step := LegacyAddPoint(pad.window, p);
    match step.1
    case None => pad.(window := step.0)
    case Some(q) =>
      var d := LegacyDrawQuad(pad.cfg, pad.pen, q, now);
      pad.(window := step.0, pen := d.0, drawn := pad.drawn + [d.1])
  }

  /** `onTouchEvent`. `ACTION_DOWN` empties the window (the pen is kept),
      adds the sample, clears the flag and falls through to `ACTION_MOVE`,
      which adds the sample again; `ACTION_UP` adds the sample; any other
      action is refused. */
  ghost function OnTouchEvent(pad: LegacyPad, ev: MotionEvent): (r: (LegacyPad, bool))
    ensures r.1 <==> !ev.action.ActionOther?
    ensures ev.action.ActionOther? ==> r.0 == pad
    ensures ev.action.ActionDown? ==>
              r.0.window == [SampleOf(ev), SampleOf(ev)] && !r.0.isEmpty &&
              r.0.pen == pad.pen && r.0.drawn == pad.drawn &&
              r.0.signals == pad.signals + (if pad.isEmpty && pad.listening then [Signed] else [])
    ensures ev.action.ActionMove? || ev.action.ActionUp? ==> r.0 == AddSample(pad, SampleOf(ev), ev.clock)
    ensures Consistent(pad) ==> Consistent(r.0)
    ensures r.0.cfg == pad.cfg && r.0.listening == pad.listening
  {
    var s := SampleOf(ev);
    match ev.action
    case ActionDown =>
      var first := AddSample(pad.(window := []), s, ev.clock);
      var signing := SetIsEmpty(first, false);
      SetIsEmptyAlternates(first, false);
      (AddSample(signing, s, ev.clock), true)
    case ActionMove => (AddSample(pad, s, ev.clock), true)
    case ActionUp => (AddSample(pad, s, ev.clock), true)
    case ActionOther => (pad, false)
  }

  /** A sequence of events handled in order. */
  ghost function Replay(pad: LegacyPad, evs: seq<MotionEvent>): LegacyPad
  {
    if |evs| == 0 then pad else OnTouchEvent(Replay(pad, evs[..|evs| - 1]), evs[|evs| - 1]).0
  }

  lemma {:induction false} ReplayAppend(pad: LegacyPad, a: seq<MotionEvent>, b: seq<MotionEvent>)
    ensures Replay(pad, a + b) == Replay(Replay(pad, a), b)
    decreases |b|
  {
    if |b| == 0 {
      assert a + b == a;
    } else {
      ReplayAppend(pad, a, b[..|b| - 1]);
      assert (a + b)[..|a + b| - 1] == a + b[..|b| - 1];
    }
  }

  /** The pad has been fed the samples `ps` since its window was emptied:
      the window and the curves drawn since then are those of the legacy
      window fed with `ps`. */
  ghost predicate Fed(pad: LegacyPad, base: seq<LegacySegment>, ps: seq<TimedPoint>)
  {
    pad.window == LegacyFeed(ps).0 && Traces(pad.drawn, base, LegacyFeed(ps).1)
  }

  /** `drawn` is `base` followed by one curve per quad of `qs`, each from the
      quad's second sample to its third. */
  predicate Traces(drawn: seq<LegacySegment>, base: seq<LegacySegment>, qs: seq<Quad>)
  {
    |drawn| == |base| + |qs| && drawn[..|base|] == base &&
    forall j :: 0 <= j < |qs| ==> drawn[|base| + j].start == qs[j].p1 && drawn[|base| + j].end == qs[j].p2
  }

  lemma TracesExtend(drawn: seq<LegacySegment>, base: seq<LegacySegment>, qs: seq<Quad>, seg: LegacySegment, q: Quad)
    requires Traces(drawn, base, qs) && seg.start == q.p1 && seg.end == q.p2
    ensures Traces(drawn + [seg], base, qs + [q])
  {
    var d := drawn + [seg];
    assert d[..|base|] == drawn[..|base|];
    assert forall j :: 0 <= j < |qs| ==> d[|base| + j] == drawn[|base| + j] && (qs + [q])[j] == qs[j];
  }

  lemma AddSampleFeeds(pad: LegacyPad, base: seq<LegacySegment>, ps: seq<TimedPoint>, p: TimedPoint, now: int)
    requires Fed(pad, base, ps)
    ensures Fed(AddSample(pad, p, now), base, ps + [p])
  {
    var prev := LegacyFeed(ps);
    var step := LegacyAddPoint(prev.0, p);
    assert (ps + [p])[..|ps|] == ps;
    assert LegacyFeed(ps + [p]) == (step.0, prev.1 + Emitted(step.1));
    match step.1
    case None =>
      assert prev.1 + Emitted(step.1) == prev.1;
    case Some(q) =>
      var d := LegacyDrawQuad(pad.cfg, pad.pen, q, now);
      TracesExtend(pad.drawn, base, prev.1, d.1, q);
  }

  /** Moves feed one sample each and leave the flag and the listener alone. */
  lemma {:induction false} MovesFeed(pad: LegacyPad, base: seq<LegacySegment>, ps: seq<TimedPoint>, moves: seq<MotionEvent>)
    requires Fed(pad, base, ps) && AllMoves(moves)
    ensures Fed(Replay(pad, moves), base, ps + SamplesOf(moves))
    ensures Replay(pad, moves).isEmpty == pad.isEmpty && Replay(pad, moves).signals == pad.signals
    decreases |moves|
  {
    if |moves| == 0 {
      assert ps + SamplesOf(moves) == ps;
    } else {
      var front := moves[..|moves| - 1];
      var last := moves[|moves| - 1];
      MovesFeed(pad, base, ps, front);
      var mid := Replay(pad, front);
      AddSampleFeeds(mid, base, ps + SamplesOf(front), SampleOf(last), last.clock);
      assert ps + SamplesOf(moves) == ps + SamplesOf(front) + [SampleOf(last)];
    }
  }

  /** The legacy window fed a stroke whose first two samples coincide: one
      curve per sample after the second, the first of them from the first
      sample to itself. */
  lemma FeedOfDoubledStart(ps: seq<TimedPoint>)
    requires 3 <= |ps| && ps[0] == ps[1]
    ensures var qs := LegacyFeed(ps).1;
      |qs| == |ps| - 2 && qs[0].p1 == ps[0] && qs[0].p2 == ps[0]
  {
    LegacyFeedProducesQuads(ps);
    var e := [ps[0]] + ps;
    assert QuadAt(e, 0) == Quad(ps[0], ps[0], ps[1], ps[2]);
  }

  /** A down event empties the window and feeds it its sample twice; no
      curve is drawn yet. */
  lemma DownFeeds(pad: LegacyPad, down: MotionEvent)
    requires down.action == ActionDown
    ensures Fed(OnTouchEvent(pad, down).0, pad.drawn, [SampleOf(down), SampleOf(down)])
    ensures !OnTouchEvent(pad, down).0.isEmpty
  {
    var s := SampleOf(down);
    var d := OnTouchEvent(pad, down).0;
    assert d.window == [s, s] && d.drawn == pad.drawn;
    LegacyFeedProducesQuads([s, s]);
    TracesNothing(pad.drawn);
  }

  lemma TracesNothing(drawn: seq<LegacySegment>)
    ensures Traces(drawn, drawn, [])
  {
    assert drawn[..|drawn|] == drawn;
  }

  /** Handling a down event, then moves, then an up event. */
  lemma StrokeReplay(pad: LegacyPad, down: MotionEvent, moves: seq<MotionEvent>, up: MotionEvent)
    ensures Replay(pad, [down]) == OnTouchEvent(pad, down).0
    ensures Replay(pad, [down] + moves + [up]) == OnTouchEvent(Replay(Replay(pad, [down]), moves), up).0
  {
    assert [down][..0] == [];
    ReplayAppend(pad, [down], moves);
    var all := [down] + moves + [up];
    assert all[..|all| - 1] == [down] + moves;
  }

  /** A whole stroke (`ACTION_DOWN`, moves, `ACTION_UP`) draws the curves of
      the legacy window fed with the down sample twice, the moves and the up
      sample; there is one curve more than there are moves, the first of
      them has no length, and the flag ends cleared. */
  lemma StrokeDrawsFeed(pad: LegacyPad, down: MotionEvent, moves: seq<MotionEvent>, up: MotionEvent)
    requires down.action == ActionDown && AllMoves(moves) && up.action == ActionUp
    ensures var ps := [SampleOf(down), SampleOf(down)] + SamplesOf(moves) + [SampleOf(up)];
      var r := Replay(pad, [down] + moves + [up]);
      Fed(r, pad.drawn, ps) && |r.drawn| == |pad.drawn| + |moves| + 1 &&
      r.drawn[|pad.drawn|].start == SampleOf(down) && r.drawn[|pad.drawn|].end == SampleOf(down) &&
      !r.isEmpty
  {
    var s := SampleOf(down);
    StrokeReplay(pad, down, moves, up);
    var d := Replay(pad, [down]);
    DownFeeds(pad, down);
    MovesFeed(d, pad.drawn, [s, s], moves);
    var m := Replay(d, moves);
    AddSampleFeeds(m, pad.drawn, [s, s] + SamplesOf(moves), SampleOf(up), up.clock);
    var ps := [s, s] + SamplesOf(moves) + [SampleOf(up)];
    FeedOfDoubledStart(ps);
  }
}
