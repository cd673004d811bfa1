/** The pen of the current `SignaturePad` and of `SketchBoard`: what one
    produced quad turns into (a curve with a starting and an ending width),
    and the filtered velocity and last width carried from curve to curve.
    The two views share this code line for line. */
module StrokeDrawing {
  import opened JavaMath
  import opened Geometry
  import opened Bezier
  import opened Smoothing
  import opened StrokeWindow

  /** The pen settings: `mMinWidth`, `mMaxWidth` and `mEraserStrokeWidth`
      are whole pixels (`int` fields), `mVelocityFilterWeight` a float. */
  datatype PenConfig = PenConfig(minWidth: int, maxWidth: int, eraserWidth: int, velocityFilterWeight: real)

  predicate ValidPenConfig(pc: PenConfig)
  {
    0 <= pc.minWidth <= pc.maxWidth && 0.0 <= pc.velocityFilterWeight <= 1.0
  }

  function Widths(pc: PenConfig): (cfg: Config)
    ensures ValidPenConfig(pc) ==> ValidConfig(cfg)
    ensures cfg.minWidth == pc.minWidth as real && cfg.maxWidth == pc.maxWidth as real
  {
    Config(pc.minWidth as real, pc.maxWidth as real, pc.velocityFilterWeight)
  }

  /** `mLastVelocity` and `mLastWidth`. */
  datatype Pen = Pen(lastVelocity: real, lastWidth: real)

  predicate PenInRange(pc: PenConfig, pen: Pen)
  {
    0.0 <= pen.lastVelocity && pc.minWidth as real <= pen.lastWidth <= pc.maxWidth as real
  }

  /** The pen after `clear`: no velocity, and the width
      `(mMinWidth + mMaxWidth) / 2` computed in int arithmetic, so the mean
      rounded down for non-negative widths. */
  function ClearedPen(pc: PenConfig): (pen: Pen)
    ensures pen.lastVelocity == 0.0
    ensures 0 <= pc.minWidth <= pc.maxWidth ==> PenInRange(pc, pen)
    ensures 0 <= pc.minWidth + pc.maxWidth ==>
              2.0 * pen.lastWidth <= (pc.minWidth + pc.maxWidth) as real < 2.0 * pen.lastWidth + 2.0
  {
    Pen(0.0, HalfTowardZero(pc.minWidth + pc.maxWidth) as real)
  }

  /** One curve as `addBezier` receives it. */
  datatype Segment = Segment(mode: Mode, curve: Curve, startWidth: real, endWidth: real)

  /** The curve of `addPoint` for a quad: from the second sample to the
      third, with the second control point of the first three samples and
      the first control point of the last three. */
  ghost function CurveOf(q: Quad, now: int): (c: Curve)
    ensures c.start == q.p1 && c.end == q.p2
  {
    var c2 := ControlPoints(q.p0, q.p1, q.p2, now).c2;
    var c3 := ControlPoints(q.p1, q.p2, q.p3, now).c1;
    Curve(q.p1, c2, c3, q.p2)
  }

  /** A horizontal run of samples gives a flat curve: all four of its points
      lie on the samples' line. */
  lemma CurveOfHorizontal(q: Quad, now: int)
    requires q.p0.y == q.p1.y == q.p2.y == q.p3.y
    ensures var c := CurveOf(q, now);
      c.start.y == c.control1.y == c.control2.y == c.end.y == q.p1.y
  {
    ControlPointsOfCollinear(q.p0, q.p1, q.p2, now);
    ControlPointsOfCollinear(q.p1, q.p2, q.p3, now);
  }

  /** The part of `addPoint` that runs once a quad is present: the raw
      velocity between the curve's end points, the filter, the width for the
      filtered velocity, and the curve handed to `addBezier` with the
      previous width as its starting width. */
  ghost function DrawQuad(pc: PenConfig, mode: Mode, pen: Pen, q: Quad, now: int): (r: (Pen, Segment))
    requires ValidPenConfig(pc) && 0.0 <= pen.lastVelocity
    ensures r.1 == Segment(mode, CurveOf(q, now), pen.lastWidth, r.0.lastWidth)
    ensures PenInRange(pc, r.0)
    ensures r.0.lastWidth == StrokeWidth(Widths(pc), r.0.lastVelocity)
    ensures var v := VelocityFrom(q.p2, q.p1);
      (v <= pen.lastVelocity ==> v <= r.0.lastVelocity <= pen.lastVelocity) &&
      (pen.lastVelocity <= v ==> pen.lastVelocity <= r.0.lastVelocity <= v)
  {
    var cfg := Widths(pc);
    var curve := CurveOf(q, now);
    var v := VelocityFrom(curve.end, curve.start);
    FilterWithin(cfg, v, pen.lastVelocity);
    var filtered := FilterVelocity(cfg, v, pen.lastVelocity);
    var width := StrokeWidth(cfg, filtered);
    (Pen(filtered, width), Segment(mode, curve, pen.lastWidth, width))
  }

  /** A pen resting on one spot draws nothing faster: the filtered velocity
      only decays, by the factor `1 - w`. */
  lemma DrawQuadAtRest(pc: PenConfig, mode: Mode, pen: Pen, q: Quad, now: int)
    requires ValidPenConfig(pc) && 0.0 <= pen.lastVelocity
    requires SamePosition(q.p1, q.p2)
    ensures DrawQuad(pc, mode, pen, q, now).0.lastVelocity == (1.0 - pc.velocityFilterWeight) * pen.lastVelocity
  {
    VelocityOfCoincident(q.p2, q.p1);
  }

  /** The quads of one stroke drawn in order, each starting from the pen the
      previous one left. */
  ghost function DrawQuads(pc: PenConfig, mode: Mode, pen: Pen, qs: seq<Quad>, now: int): (r: (Pen, seq<Segment>))
    requires ValidPenConfig(pc) && 0.0 <= pen.lastVelocity
    ensures |r.1| == |qs|
    ensures |qs| == 0 ==> r.0 == pen
    ensures 0 < |qs| ==> PenInRange(pc, r.0)
    ensures 0 < |qs| ==> r.1[0].startWidth == pen.lastWidth && r.1[|qs| - 1].endWidth == r.0.lastWidth
    ensures forall j :: 0 <= j < |qs| ==> r.1[j].curve == CurveOf(qs[j], now) && r.1[j].mode == mode
    ensures forall j :: 0 <= j < |qs| ==> pc.minWidth as real <= r.1[j].endWidth <= pc.maxWidth as real
    ensures forall j :: 0 <= j < |qs| - 1 ==> r.1[j].endWidth == r.1[j + 1].startWidth
    decreases |qs|
  {
    if |qs| == 0 then
      (pen, [])
    else
      var first := DrawQuad(pc, mode, pen, qs[0], now);
      var rest := DrawQuads(pc, mode, first.0, qs[1..], now);
      (rest.0, [first.1] + rest.1)
  }

  /** Drawing one more quad after a run of them continues from the pen the
      run left: the head-first recursion can be read from the back. */
  lemma {:induction false} DrawQuadsSnoc(pc: PenConfig, mode: Mode, pen: Pen, qs: seq<Quad>, q: Quad, now: int)
    requires ValidPenConfig(pc) && 0.0 <= pen.lastVelocity
    ensures var d := DrawQuads(pc, mode, pen, qs, now);
      0.0 <= d.0.lastVelocity &&
      var last := DrawQuad(pc, mode, d.0, q, now);
      DrawQuads(pc, mode, pen, qs + [q], now).0 == last.0 &&
      DrawQuads(pc, mode, pen, qs + [q], now).1 == d.1 + [last.1]
    decreases |qs|
  {
    var whole := qs + [q];
    var first := DrawQuad(pc, mode, pen, whole[0], now);
    if |qs| == 0 {
      assert whole == [q];
      DrawQuadsSingle(pc, mode, pen, q, now);
      var none: seq<Segment> := [];
      assert none + [first.1] == [first.1];
    } else {
      DrawQuadsCons(pc, mode, pen, whole, now);
      DropFirstOfSnoc(qs, q);
      DrawQuadsCons(pc, mode, pen, qs, now);
      DrawQuadsSnoc(pc, mode, first.0, qs[1..], q, now);
      var d := DrawQuads(pc, mode, first.0, qs[1..], now);
      var last := DrawQuad(pc, mode, d.0, q, now);
      Associative([first.1], d.1, [last.1]);
    }
  }

  lemma DrawQuadsSingle(pc: PenConfig, mode: Mode, pen: Pen, q: Quad, now: int)
    requires ValidPenConfig(pc) && 0.0 <= pen.lastVelocity
    ensures var d := DrawQuad(pc, mode, pen, q, now);
      DrawQuads(pc, mode, pen, [q], now) == (d.0, [d.1])
  {
    var d := DrawQuad(pc, mode, pen, q, now);
    assert [q][1..] == [];
    assert [d.1] + [] == [d.1];
  }

  /** `DrawQuads` of a non-empty run: the first quad, then the rest from the
      pen it leaves. */
  lemma DrawQuadsCons(pc: PenConfig, mode: Mode, pen: Pen, qs: seq<Quad>, now: int)
    requires ValidPenConfig(pc) && 0.0 <= pen.lastVelocity && 0 < |qs|
    ensures var first := DrawQuad(pc, mode, pen, qs[0], now);
      0.0 <= first.0.lastVelocity &&
      var rest := DrawQuads(pc, mode, first.0, qs[1..], now);
      DrawQuads(pc, mode, pen, qs, now) == (rest.0, [first.1] + rest.1)
  {
  }

  predicate InWidthRange(pc: PenConfig, s: Segment)
  {
    pc.minWidth as real <= s.startWidth <= pc.maxWidth as real &&
    pc.minWidth as real <= s.endWidth <= pc.maxWidth as real
  }

  /** The curves drawn since the last clear, as the pen leaves them: every
      width within the configured range, each curve starting with the width
      the previous one ended on, and the last ending on the pen's width. */
  predicate WidthChain(pc: PenConfig, pen: Pen, drawn: seq<Segment>)
  {
    (0 < |drawn| ==> drawn[|drawn| - 1].endWidth == pen.lastWidth) &&
    (forall j :: 0 <= j < |drawn| - 1 ==> drawn[j].endWidth == drawn[j + 1].startWidth) &&
    (forall j :: 0 <= j < |drawn| ==> InWidthRange(pc, drawn[j]))
  }

  /** Drawing one more quad keeps the chain. */
  lemma WidthChainExtend(pc: PenConfig, pen: Pen, drawn: seq<Segment>, next: Pen, s: Segment)
    requires WidthChain(pc, pen, drawn) && PenInRange(pc, pen) && PenInRange(pc, next)
    requires s.startWidth == pen.lastWidth && s.endWidth == next.lastWidth
    ensures WidthChain(pc, next, drawn + [s])
  {
    var d := drawn + [s];
    assert forall j :: 0 <= j < |drawn| ==> d[j] == drawn[j];
  }

  /** Consecutive curves of a stroke meet: each one ends where the next one
      starts. */
  lemma DrawnCurvesJoin(pc: PenConfig, mode: Mode, pen: Pen, ps: seq<TimedPoint>, now: int, j: int)
    requires ValidPenConfig(pc) && 0.0 <= pen.lastVelocity
    requires 0 < |ps|
    requires 0 <= j < |Feed(ps, now).1| - 1
    ensures var segs := DrawQuads(pc, mode, pen, Feed(ps, now).1, now).1;
      segs[j].curve.end == segs[j + 1].curve.start
  {
    QuadsJoin(ps, now, j);
  }

  /** Two quads that draw alike: every sample in the same position, and the
      same raw velocity between the middle two. */
  ghost predicate Alike(a: Quad, b: Quad)
  {
    SamePosition(a.p0, b.p0) && SamePosition(a.p1, b.p1) &&
    SamePosition(a.p2, b.p2) && SamePosition(a.p3, b.p3) &&
    VelocityFrom(a.p2, a.p1) == VelocityFrom(b.p2, b.p1)
  }

  /** Two segments that put the same marks on the bitmap: same mode, widths
      and curve geometry (timestamps aside). */
  predicate SameShape(a: Segment, b: Segment)
  {
    a.mode == b.mode && a.startWidth == b.startWidth && a.endWidth == b.endWidth &&
    SamePosition(a.curve.start, b.curve.start) && SamePosition(a.curve.control1, b.curve.control1) &&
    SamePosition(a.curve.control2, b.curve.control2) && SamePosition(a.curve.end, b.curve.end)
  }

  /** The control points depend on the samples' positions only. */
  lemma ControlPointsPositional(s1: TimedPoint, s2: TimedPoint, s3: TimedPoint,
                                t1: TimedPoint, t2: TimedPoint, t3: TimedPoint, now: int, later: int)
    requires SamePosition(s1, t1) && SamePosition(s2, t2) && SamePosition(s3, t3)
    ensures SamePosition(ControlPoints(s1, s2, s3, now).c1, ControlPoints(t1, t2, t3, later).c1)
    ensures SamePosition(ControlPoints(s1, s2, s3, now).c2, ControlPoints(t1, t2, t3, later).c2)
  {
    var k := Ratio(s1, s2, s3);
    RatioPositional(s1, s2, s3, t1, t2, t3);
    assert ControlPoints(s1, s2, s3, now) == ShiftedMidpoints(s1, s2, s3, k, now);
    assert ControlPoints(t1, t2, t3, later) == ShiftedMidpoints(t1, t2, t3, k, later);
    ShiftedMidpointsPositional(s1, s2, s3, t1, t2, t3, k, now, later);
  }

  lemma RatioPositional(s1: TimedPoint, s2: TimedPoint, s3: TimedPoint,
                        t1: TimedPoint, t2: TimedPoint, t3: TimedPoint)
    requires SamePosition(s1, t1) && SamePosition(s2, t2) && SamePosition(s3, t3)
    ensures Ratio(s1, s2, s3) == Ratio(t1, t2, t3)
  {
    assert Distance(s2, s1) == Distance(t2, t1);
    assert Distance(s3, s2) == Distance(t3, t2);
  }

  lemma ShiftedMidpointsPositional(s1: TimedPoint, s2: TimedPoint, s3: TimedPoint,
                                   t1: TimedPoint, t2: TimedPoint, t3: TimedPoint, k: real, now: int, later: int)
    requires SamePosition(s1, t1) && SamePosition(s2, t2) && SamePosition(s3, t3)
    ensures SamePosition(ShiftedMidpoints(s1, s2, s3, k, now).c1, ShiftedMidpoints(t1, t2, t3, k, later).c1)
    ensures SamePosition(ShiftedMidpoints(s1, s2, s3, k, now).c2, ShiftedMidpoints(t1, t2, t3, k, later).c2)
  {
  }

  lemma DrawQuadAlike(pc: PenConfig, mode: Mode, pen: Pen, a: Quad, b: Quad, now: int, later: int)
    requires ValidPenConfig(pc) && 0.0 <= pen.lastVelocity
    requires Alike(a, b)
    ensures DrawQuad(pc, mode, pen, a, now).0 == DrawQuad(pc, mode, pen, b, later).0
    ensures SameShape(DrawQuad(pc, mode, pen, a, now).1, DrawQuad(pc, mode, pen, b, later).1)
  {
    ControlPointsPositional(a.p0, a.p1, a.p2, b.p0, b.p1, b.p2, now, later);
    ControlPointsPositional(a.p1, a.p2, a.p3, b.p1, b.p2, b.p3, now, later);
  }

  /** Pairwise alike quads, drawn from the same pen, leave the same pen and
      put the same marks down. */
  lemma {:induction false} DrawQuadsAlike(pc: PenConfig, mode: Mode, pen: Pen, qa: seq<Quad>, qb: seq<Quad>, now: int, later: int)
    requires ValidPenConfig(pc) && 0.0 <= pen.lastVelocity
    requires |qa| == |qb|
    requires forall j :: 0 <= j < |qa| ==> Alike(qa[j], qb[j])
    ensures DrawQuads(pc, mode, pen, qa, now).0 == DrawQuads(pc, mode, pen, qb, later).0
    ensures forall j :: 0 <= j < |qa| ==>
              SameShape(DrawQuads(pc, mode, pen, qa, now).1[j], DrawQuads(pc, mode, pen, qb, later).1[j])
    decreases |qa|
  {
    if |qa| > 0 {
      DrawQuadAlike(pc, mode, pen, qa[0], qb[0], now, later);
      DrawQuadsCons(pc, mode, pen, qa, now);
      DrawQuadsCons(pc, mode, pen, qb, later);
      var fa := DrawQuad(pc, mode, pen, qa[0], now);
      var fb := DrawQuad(pc, mode, pen, qb[0], later);
      var next := fa.0;
      AlikeRest(qa, qb);
      DrawQuadsAlike(pc, mode, next, qa[1..], qb[1..], now, later);
      var ta := DrawQuads(pc, mode, next, qa[1..], now).1;
      var tb := DrawQuads(pc, mode, next, qb[1..], later).1;
      SameShapeCons(fa.1, fb.1, ta, tb);
    }
  }

  lemma AlikeRest(qa: seq<Quad>, qb: seq<Quad>)
    requires |qa| == |qb| && 0 < |qa|
    requires forall j :: 0 <= j < |qa| ==> Alike(qa[j], qb[j])
    ensures forall j :: 0 <= j < |qa| - 1 ==> Alike(qa[1..][j], qb[1..][j])
  {
    forall j | 0 <= j < |qa| - 1
      ensures Alike(qa[1..][j], qb[1..][j])
    {
      assert Alike(qa[j + 1], qb[j + 1]);
    }
  }

  lemma SameShapeCons(a: Segment, b: Segment, ta: seq<Segment>, tb: seq<Segment>)
    requires SameShape(a, b) && |ta| == |tb|
    requires forall j :: 0 <= j < |ta| ==> SameShape(ta[j], tb[j])
    ensures forall j :: 0 <= j < |ta| + 1 ==> SameShape(([a] + ta)[j], ([b] + tb)[j])
  {
    forall j | 0 <= j < |ta| + 1
      ensures SameShape(([a] + ta)[j], ([b] + tb)[j])
    {
      if j > 0 {
        assert ([a] + ta)[j] == ta[j - 1];
        assert ([b] + tb)[j] == tb[j - 1];
      }
    }
  }

  /** The whole of a stroke's drawing: its samples through the window, and
      every quad produced through the pen. The clock reading `now` stamps
      the duplicate of the first sample and the control points. */
  ghost function DrawStroke(pc: PenConfig, mode: Mode, pen: Pen, ps: seq<TimedPoint>, now: int): (r: (Pen, seq<Segment>))
    requires ValidPenConfig(pc) && 0.0 <= pen.lastVelocity
    ensures 0 < |ps| ==> |r.1| == if |ps| < 3 then 0 else |ps| - 2
    ensures 0.0 <= r.0.lastVelocity
  {
    FeedSize(ps, now);
    DrawQuads(pc, mode, pen, Feed(ps, now).1, now)
  }

  lemma FeedSize(ps: seq<TimedPoint>, now: int)
    ensures 0 < |ps| ==> |Feed(ps, now).1| == if |ps| < 3 then 0 else |ps| - 2
  {
    if 0 < |ps| {
      FeedProducesQuads(ps, now);
    }
  }

  /** When a stroke's first two samples coincide, as they do for every
      stroke the views record, the clock reading that stamps the duplicate
      of the first sample does not matter: drawing the same samples at two
      different times puts the same marks down and leaves the same pen. */
  lemma DrawStrokeClockIndependent(pc: PenConfig, mode: Mode, pen: Pen, ps: seq<TimedPoint>, now: int, later: int)
    requires ValidPenConfig(pc) && 0.0 <= pen.lastVelocity
    requires 2 <= |ps| && SamePosition(ps[0], ps[1])
    ensures DrawStroke(pc, mode, pen, ps, now).0 == DrawStroke(pc, mode, pen, ps, later).0
    ensures |DrawStroke(pc, mode, pen, ps, now).1| == |DrawStroke(pc, mode, pen, ps, later).1|
    ensures forall j :: 0 <= j < |DrawStroke(pc, mode, pen, ps, now).1| ==>
              SameShape(DrawStroke(pc, mode, pen, ps, now).1[j], DrawStroke(pc, mode, pen, ps, later).1[j])
  {
    FeedProducesQuads(ps, now);
    FeedProducesQuads(ps, later);
    var ea := Expanded(ps, now);
    var eb := Expanded(ps, later);
    var qa := Feed(ps, now).1;
    var qb := Feed(ps, later).1;
    forall j | 0 <= j < |qa|
      ensures Alike(qa[j], qb[j])
    {
      assert qa[j] == QuadAt(ea, j) && qb[j] == QuadAt(eb, j);
      if j == 0 {
        VelocityOfCoincident(ea[2], ea[1]);
        VelocityOfCoincident(eb[2], eb[1]);
      } else {
        assert ea[j + 1] == eb[j + 1] && ea[j + 2] == eb[j + 2];
      }
    }
    DrawQuadsAlike(pc, mode, pen, qa, qb, now, later);
  }
}
