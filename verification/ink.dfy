/** What the current `SignaturePad` and `SketchBoard` keep for drawing: the
    window of `addPoint`, the pen, the curves put on the bitmap since it was
    last blanked, and the SVG builder every curve is also appended to. */
module StrokeInk {
  import opened JavaMath
  import opened Geometry
  import opened Smoothing
  import opened StrokeWindow
  import opened StrokeDrawing
  import SvgDocument

  datatype Ink = Ink(window: seq<TimedPoint>, pen: Pen, drawn: seq<Segment>, svg: SvgDocument.SvgBuilder)

  /** What holds of the ink from the view's constructor on: a sane pen, at
      most three samples waiting, a well-formed SVG, and the curves on the
      bitmap chained by width, each starting with the width the previous one
      ended on. */
  predicate InkReady(pc: PenConfig, ink: Ink)
  {
    ValidPenConfig(pc) && PenInRange(pc, ink.pen) && |ink.window| <= 3 &&
    SvgDocument.Valid(ink.svg) && WidthChain(pc, ink.pen, ink.drawn)
  }

  /** The ink after the view's `clear`: window emptied, pen reset, bitmap
      blank, SVG builder cleared. */
  function ClearedInk(pc: PenConfig, ink: Ink): (r: Ink)
    ensures r.window == [] && r.drawn == [] && r.pen == ClearedPen(pc)
    ensures r.svg.buffer == [] && r.svg.lastPoint.None?
    ensures ValidPenConfig(pc) ==> InkReady(pc, r)
  {
    Ink([], ClearedPen(pc), [], SvgDocument.Clear(ink.svg))
  }

  /** `addPoint` with the view's pen and SVG builder: the sample enters the
      window, and a produced quad is drawn in `mode` and appended to the SVG
      with the mean of its two widths. `clock` stamps the new points made on
      the way. */
  ghost function AddSample(pc: PenConfig, mode: Mode, ink: Ink, p: TimedPoint, clock: int): (r: Ink)
    requires InkReady(pc, ink)
    ensures InkReady(pc, r)
    ensures var step := AddPoint(ink.window, p, clock);
      r.window == step.0 &&
      (step.1.None? ==> r.drawn == ink.drawn && r.pen == ink.pen && r.svg == ink.svg) &&
      (step.1.Some? ==> var d := DrawQuad(pc, mode, ink.pen, step.1.value, clock);
                        r.pen == d.0 && r.drawn == ink.drawn + [d.1] &&
                        r.drawn[|ink.drawn|].startWidth == ink.pen.lastWidth &&
                        r.svg == SvgDocument.Append(ink.svg, d.1.curve, SvgWidth(d.1.startWidth, d.1.endWidth)))
  {
    var step := AddPoint(ink.window, p, clock);
    match step.1
    case None => ink.(window := step.0)
    case Some(q) =>
      var d := DrawQuad(pc, mode, ink.pen, q, clock);
      var width := SvgWidth(d.1.startWidth, d.1.endWidth);
      SvgDocument.AppendValid(ink.svg, d.1.curve, width);
      WidthChainExtend(pc, ink.pen, ink.drawn, d.0, d.1);
      Ink(step.0, d.0, ink.drawn + [d.1], SvgDocument.Append(ink.svg, d.1.curve, width))
  }

  /** The SVG builder after each drawn segment's curve is appended to it, in
      order, with the mean of the segment's two widths. */
  function SvgOfSegments(b: SvgDocument.SvgBuilder, segs: seq<Segment>): SvgDocument.SvgBuilder
    decreases |segs|
  {
    if |segs| == 0 then b
    else
      var last := segs[|segs| - 1];
      SvgDocument.Append(SvgOfSegments(b, segs[..|segs| - 1]), last.curve, SvgWidth(last.startWidth, last.endWidth))
  }

  lemma SvgOfSegmentsSnoc(b: SvgDocument.SvgBuilder, segs: seq<Segment>, s: Segment)
    ensures SvgOfSegments(b, segs + [s]) == SvgDocument.Append(SvgOfSegments(b, segs), s.curve, SvgWidth(s.startWidth, s.endWidth))
  {
    assert (segs + [s])[..|segs + [s]| - 1] == segs;
  }

  /** Appending the curves of two runs of segments is appending the first
      run, then the second. */
  lemma {:induction false} SvgOfSegmentsAppend(b: SvgDocument.SvgBuilder, s1: seq<Segment>, s2: seq<Segment>)
    ensures SvgOfSegments(b, s1 + s2) == SvgOfSegments(SvgOfSegments(b, s1), s2)
    decreases |s2|
  {
    if |s2| == 0 {
      assert s1 + s2 == s1;
    } else {
      var front := s2[..|s2| - 1];
      var x := s2[|s2| - 1];
      assert s1 + s2 == (s1 + front) + [x];
      assert s2 == front + [x];
      SvgOfSegmentsSnoc(b, s1 + front, x);
      SvgOfSegmentsAppend(b, s1, front);
      SvgOfSegmentsSnoc(SvgOfSegments(b, s1), front, x);
    }
  }

  /** The SVG buffer only grows as segments are appended: what was written
      before stays, in front. */
  lemma {:induction false} SvgOfSegmentsExtends(b: SvgDocument.SvgBuilder, segs: seq<Segment>)
    ensures var r := SvgOfSegments(b, segs);
      |b.buffer| <= |r.buffer| && r.buffer[..|b.buffer|] == b.buffer
    decreases |segs|
  {
    if |segs| > 0 {
      var front := segs[..|segs| - 1];
      SvgOfSegmentsExtends(b, front);
      var mid := SvgOfSegments(b, front);
      var r := SvgOfSegments(b, segs);
      assert r.buffer[..|mid.buffer|] == mid.buffer;
      assert r.buffer[..|b.buffer|] == r.buffer[..|mid.buffer|][..|b.buffer|];
    }
  }

  /** The samples fed to `addPoint` one after the other. */
  ghost function AddSamples(pc: PenConfig, mode: Mode, ink: Ink, ps: seq<TimedPoint>, clock: int): (r: Ink)
    requires InkReady(pc, ink)
    ensures InkReady(pc, r)
    decreases |ps|
  {
    if |ps| == 0 then ink
    else AddSample(pc, mode, AddSamples(pc, mode, ink, ps[..|ps| - 1], clock), ps[|ps| - 1], clock)
  }

  /** One more sample keeps the ink in step with drawing the quads
      produced so far from the pen `start`, on the bitmap and in the SVG. */
  lemma AddSampleExtendsDrawing(pc: PenConfig, mode: Mode, start: Pen, base: seq<Segment>, baseSvg: SvgDocument.SvgBuilder,
                                qs: seq<Quad>, prev: Ink, p: TimedPoint, clock: int)
    requires InkReady(pc, prev) && 0.0 <= start.lastVelocity
    requires prev.pen == DrawQuads(pc, mode, start, qs, clock).0
    requires prev.drawn == base + DrawQuads(pc, mode, start, qs, clock).1
    requires prev.svg == SvgOfSegments(baseSvg, DrawQuads(pc, mode, start, qs, clock).1)
    ensures var step := AddPoint(prev.window, p, clock);
      var r := AddSample(pc, mode, prev, p, clock);
      var d := DrawQuads(pc, mode, start, qs + Emitted(step.1), clock);
      r.window == step.0 && r.pen == d.0 && r.drawn == base + d.1 && r.svg == SvgOfSegments(baseSvg, d.1)
  {
    var step := AddPoint(prev.window, p, clock);
    if step.1.Some? {
      var q := step.1.value;
      var d := DrawQuads(pc, mode, start, qs, clock);
      DrawQuadsSnoc(pc, mode, start, qs, q, clock);
      var last := DrawQuad(pc, mode, d.0, q, clock);
      var r := AddSample(pc, mode, prev, p, clock);
      assert r.pen == last.0 && r.drawn == prev.drawn + [last.1];
      assert qs + Emitted(step.1) == qs + [q];
      Associative(base, d.1, [last.1]);
      SvgOfSegmentsSnoc(baseSvg, d.1, last.1);
    } else {
      assert qs + Emitted(step.1) == qs;
    }
  }

  /** Feeding a stroke's samples one by one into an emptied window draws
      exactly the stroke: the window ends as the batch `Feed` leaves it, the
      pen and the new curves are those of drawing every quad of the stroke in
      order, and the SVG builder has received each of those curves in order
      with its mean width. */
  lemma {:induction false} AddSamplesDrawsStroke(pc: PenConfig, mode: Mode, ink: Ink, ps: seq<TimedPoint>, clock: int)
    requires InkReady(pc, ink) && ink.window == []
    ensures var r := AddSamples(pc, mode, ink, ps, clock);
      var d := DrawQuads(pc, mode, ink.pen, Feed(ps, clock).1, clock);
      r.window == Feed(ps, clock).0 && r.pen == d.0 && r.drawn == ink.drawn + d.1 &&
      r.svg == SvgOfSegments(ink.svg, d.1)
    decreases |ps|
  {
    if |ps| == 0 {
      assert ink.drawn + [] == ink.drawn;
    } else {
      var front := ps[..|ps| - 1];
      var p := ps[|ps| - 1];
      AddSamplesDrawsStroke(pc, mode, ink, front, clock);
      var prev := AddSamples(pc, mode, ink, front, clock);
      var fed := Feed(front, clock);
      AddSampleExtendsDrawing(pc, mode, ink.pen, ink.drawn, ink.svg, fed.1, prev, p, clock);
    }
  }
}
