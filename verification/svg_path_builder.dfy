/** `SvgPathBuilder`: one `<path>` element whose data is a moveto `M` to the
    start point followed by absolute cubic curveto `C` commands (path data
    grammar of SVG Tiny 1.2, section 8.3). */
module SvgPaths {
  import opened JavaMath
  import opened JavaText
  import opened SvgPoints

  /** One curveto command's operands: two control points and the end point. */
  datatype Cubic = Cubic(control1: SvgPoint, control2: SvgPoint, end: SvgPoint)

  datatype PathBuilder = PathBuilder(segments: string, strokeWidth: int, startPoint: SvgPoint, lastPoint: SvgPoint)

  predicate RenderedCubic(q: Cubic)
  {
    Rendered(q.control1) && Rendered(q.control2) && Rendered(q.end)
  }

  /** `makeAbsoluteCubicBezierCurve`: the three points separated by spaces. */
  function CubicText(q: Cubic): string
  {
    q.control1.svg + " " + q.control2.svg + " " + q.end.svg
  }

  /** The constructor: no segment yet, and the last point is the start point. */
  function New(startPoint: SvgPoint, strokeWidth: int): (b: PathBuilder)
    ensures b.lastPoint == b.startPoint == startPoint && b.strokeWidth == strokeWidth
    ensures b.segments == []
  {
    PathBuilder([], strokeWidth, startPoint, startPoint)
  }

  /** `append`: a `C` command followed by the operands; the end point becomes
      the last point, and the start point and width stay as they were. */
  function Append(b: PathBuilder, q: Cubic): (r: PathBuilder)
    ensures r.lastPoint == q.end
    ensures r.startPoint == b.startPoint && r.strokeWidth == b.strokeWidth
    ensures |b.segments| < |r.segments| && r.segments[..|b.segments|] == b.segments
  {
    PathBuilder(b.segments + ['C'] + CubicText(q), b.strokeWidth, b.startPoint, q.end)
  }

  /** `append` over a list of curves, in order. */
  function AppendAll(b: PathBuilder, qs: seq<Cubic>): PathBuilder
    decreases |qs|
  {
    if |qs| == 0 then b else AppendAll(Append(b, qs[0]), qs[1..])
  }

  /** The path data of a list of curves: each a `C` command in list order. */
  function Commands(qs: seq<Cubic>): string
  {
    if |qs| == 0 then [] else ['C'] + CubicText(qs[0]) + Commands(qs[1..])
  }

  /** `toString`: the `<path>` element. */
  function ToString(b: PathBuilder): string
  {
    "<path stroke-width=\"" + IntToString(b.strokeWidth) + "\" d=\"M" + b.startPoint.svg + b.segments + "\"/>"
  }

  /** After a list of appends, the segments are the curves' commands in
      append order, the last point is the last curve's end, and start point
      and width are unchanged. */
  lemma {:induction false} AppendAllSegments(b: PathBuilder, qs: seq<Cubic>)
    ensures AppendAll(b, qs).segments == b.segments + Commands(qs)
    ensures AppendAll(b, qs).lastPoint == if |qs| == 0 then b.lastPoint else qs[|qs| - 1].end
    ensures AppendAll(b, qs).startPoint == b.startPoint
    ensures AppendAll(b, qs).strokeWidth == b.strokeWidth
    decreases |qs|
  {
    if |qs| > 0 {
      AppendAllSegments(Append(b, qs[0]), qs[1..]);
      assert b.segments + (['C'] + CubicText(qs[0])) + Commands(qs[1..]) == b.segments + Commands(qs);
    }
  }

  lemma CountInCubic(c: char, q: Cubic)
    requires RenderedCubic(q)
    requires !IsDigit(c) && c != '-' && c != ',' && c != ' '
    ensures Count(c, CubicText(q)) == 0
  {
    CountInRendered(c, q.control1);
    CountInRendered(c, q.control2);
    CountInRendered(c, q.end);
    CountAppend(c, q.control1.svg, " ");
    CountAppend(c, q.control1.svg + " ", q.control2.svg);
    CountAppend(c, q.control1.svg + " " + q.control2.svg, " ");
    CountAppend(c, q.control1.svg + " " + q.control2.svg + " ", q.end.svg);
  }

  /** The path data of n curves holds exactly n `C` commands. */
  lemma {:induction false} CommandsCount(qs: seq<Cubic>)
    requires forall i :: 0 <= i < |qs| ==> RenderedCubic(qs[i])
    ensures Count('C', Commands(qs)) == |qs|
    ensures Count('M', Commands(qs)) == 0
    decreases |qs|
  {
    if |qs| > 0 {
      CommandsCount(qs[1..]);
      CountInCubic('C', qs[0]);
      CountInCubic('M', qs[0]);
      CountAppend('C', ['C'], CubicText(qs[0]));
      CountAppend('C', ['C'] + CubicText(qs[0]), Commands(qs[1..]));
      CountAppend('M', ['C'], CubicText(qs[0]));
      CountAppend('M', ['C'] + CubicText(qs[0]), Commands(qs[1..]));
    }
  }

  /** A fresh builder given n curves renders as one `<path>` whose data is
      the moveto followed by exactly n curvetos, the curves in append order,
      and no further moveto. */
  lemma PathOfCurves(start: SvgPoint, width: int, qs: seq<Cubic>)
    requires forall i :: 0 <= i < |qs| ==> RenderedCubic(qs[i])
    ensures ToString(AppendAll(New(start, width), qs)) ==
            "<path stroke-width=\"" + IntToString(width) + "\" d=\"M" + start.svg + Commands(qs) + "\"/>"
    ensures Count('C', AppendAll(New(start, width), qs).segments) == |qs|
    ensures Count('M', AppendAll(New(start, width), qs).segments) == 0
  {
    var b := AppendAll(New(start, width), qs);
    AppendAllSegments(New(start, width), qs);
    assert [] + Commands(qs) == Commands(qs);
    assert b.segments == Commands(qs);
    assert b.startPoint == start && b.strokeWidth == width;
    CommandsCount(qs);
  }

  /** The text of a builder after one more `append`: the stroke width and
      start point of the builder, its earlier segments, then the new `C`
      command with the curve's three points. */
  lemma ToStringThenAppend(b: PathBuilder, q: Cubic)
    ensures ToString(Append(b, q)) ==
            "<path stroke-width=\"" + IntToString(b.strokeWidth) + "\" d=\"M" + b.startPoint.svg +
            b.segments + ['C'] + CubicText(q) + "\"/>"
  {
  }
}
