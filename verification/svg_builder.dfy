/** `SvgBuilder`: accumulates the curves of a signature as `<path>` elements,
    opening a new path whenever a curve does not continue the current one
    (different rounded start point or rounded width), and wraps them in an
    SVG document on `build`. The buffer is kept as the list of pieces
    appended to it; `Text` renders it. */
module SvgDocument {
  import opened JavaMath
  import opened JavaText
  import opened Geometry
  import opened Bezier
  import opened SvgPoints

  /** The three kinds of text appended to the buffer: `startNewPath`,
      `addCubicBezierCurve` and `endPath`. */
  datatype Piece =
    | OpenPath(start: SvgPoint, width: int)
    | CurveTo(control1: SvgPoint, control2: SvgPoint, end: SvgPoint)
    | ClosePath

  const PathStart := "<path stroke-width=\""
  const PathData := "\" d=\"M "
  const PathEnd := "\" stroke-linejoin=\"round\" stroke-linecap=\"round\" fill=\"none\" stroke=\"black\" />"
  const XmlDeclaration := "<?xml version=\"1.0\" encoding=\"UTF-8\" standalone=\"no\"?>\n"
  const SvgOpen := "<svg xmlns=\"http://www.w3.org/2000/svg\" height=\""
  const WidthAttr := "\" width=\""
  const SvgClose := "</svg>"

  function PieceText(p: Piece): string
  {
    match p
    case OpenPath(s, w) => PathStart + IntToString(w) + PathData + s.svg
    case CurveTo(c1, c2, e) => " C " + c1.svg + " " + c2.svg + " " + e.svg
    case ClosePath => PathEnd
  }

  function Text(ps: seq<Piece>): string
  {
    if |ps| == 0 then [] else Text(ps[..|ps| - 1]) + PieceText(ps[|ps| - 1])
  }

  lemma {:induction false} TextAppend(a: seq<Piece>, b: seq<Piece>)
    ensures Text(a + b) == Text(a) + Text(b)
    decreases |b|
  {
    if |b| == 0 {
      assert a + b == a;
    } else {
      var front := b[..|b| - 1];
      var last := PieceText(b[|b| - 1]);
      assert (a + b)[..|a + b| - 1] == a + front;
      assert Text(a + b) == Text(a + front) + last;
      TextAppend(a, front);
      Associative(Text(a), Text(front), last);
    }
  }

  /** Whether a path is open after one more piece, given whether one was
      open before; None when the piece occurs where the markup does not
      allow it (a curve or an end outside a path, a path inside a path). */
  function ScanStep(open: Option<bool>, p: Piece): Option<bool>
  {
    match open
    case None => None
    case Some(o) =>
      match p
      case OpenPath(_, _) => if o then None else Some(true)
      case CurveTo(_, _, _) => if o then Some(true) else None
      case ClosePath => if o then Some(false) else None
  }

  /** Whether a path is open after the pieces, or None when they are not
      well nested. */
  function Scan(ps: seq<Piece>): Option<bool>
  {
    if |ps| == 0 then Some(false) else ScanStep(Scan(ps[..|ps| - 1]), ps[|ps| - 1])
  }

  lemma ScanAppendOne(ps: seq<Piece>, p: Piece)
    ensures Scan(ps + [p]) == ScanStep(Scan(ps), p)
  {
    assert (ps + [p])[..|ps + [p]| - 1] == ps;
  }

  datatype SvgBuilder = SvgBuilder(buffer: seq<Piece>, lastPoint: Option<SvgPoint>, strokeWidth: Option<int>)

  /** The builder's invariant: a path is open exactly when a last point is
      recorded, and the pieces are well nested. */
  predicate Valid(b: SvgBuilder)
  {
    Scan(b.buffer) == Some(b.lastPoint.Some?) && (b.lastPoint.Some? <==> b.strokeWidth.Some?)
  }

  /** The constructor, and `clear`: nothing written, no path open. */
  function Empty(): (b: SvgBuilder)
    ensures Valid(b) && Text(b.buffer) == []
  {
    SvgBuilder([], None, None)
  }

  function Clear(b: SvgBuilder): (r: SvgBuilder)
    ensures Valid(r) && r.buffer == [] && r.lastPoint.None?
  {
    Empty()
  }

  /** A curve as `append` sees it once its four points are converted. */
  datatype SvgCurve = SvgCurve(start: SvgPoint, control1: SvgPoint, control2: SvgPoint, end: SvgPoint)

  function ToSvg(curve: Curve): SvgCurve
  {
    SvgCurve(FromPoint(curve.start), FromPoint(curve.control1), FromPoint(curve.control2), FromPoint(curve.end))
  }

  /** The curveto piece of one converted curve. */
  function CurveToOf(c: SvgCurve): (p: Piece)
    ensures p.CurveTo? && p.end == c.end
  {
    CurveTo(c.control1, c.control2, c.end)
  }

  /** The condition of `append` for starting a new path: the rounded start
      point differs from the current last point (or none is recorded), or
      the rounded width differs from the current width. */
  predicate StartsNewPath(b: SvgBuilder, start: SvgPoint, width: int)
  {
    !EqualsRef(start, b.lastPoint) || b.strokeWidth != Some(width)
  }

  /** The pieces `append` writes for one curve. */
  function Added(b: SvgBuilder, c: SvgCurve, width: int): (added: seq<Piece>)
    ensures 1 <= |added| && added[|added| - 1] == CurveToOf(c)
    ensures StartsNewPath(b, c.start, width) <==> OpenPath(c.start, width) in added
    ensures !StartsNewPath(b, c.start, width) ==> added == [CurveToOf(c)]
  {
    if StartsNewPath(b, c.start, width) then
      (if b.lastPoint.Some? then [ClosePath] else []) + [OpenPath(c.start, width), CurveToOf(c)]
    else [CurveToOf(c)]
  }

  /** `append` after the conversion of the curve's points and the rounding
      of its width: closes the open path and starts a new one when the curve
      does not continue it, then adds the curve. */
  function AppendSvg(b: SvgBuilder, c: SvgCurve, width: int): (r: SvgBuilder)
    ensures r.lastPoint == Some(c.end) && r.strokeWidth == Some(width)
    ensures |b.buffer| < |r.buffer| && r.buffer[..|b.buffer|] == b.buffer
  {
    SvgBuilder(b.buffer + Added(b, c, width), Some(c.end), Some(width))
  }

  /** `append(curve, strokeWidth)`. */
  function Append(b: SvgBuilder, curve: Curve, strokeWidth: real): (r: SvgBuilder)
    ensures r.lastPoint == Some(FromPoint(curve.end)) && r.strokeWidth == Some(Round(strokeWidth))
    ensures |b.buffer| < |r.buffer| && r.buffer[..|b.buffer|] == b.buffer
  {
    AppendSvg(b, ToSvg(curve), Round(strokeWidth))
  }

  /** `append` writes a new path start exactly when the curve does not
      continue the current path, and always ends with the curve itself. */
  lemma AppendOpensPathIff(b: SvgBuilder, curve: Curve, strokeWidth: real)
    ensures var r := Append(b, curve, strokeWidth);
      (StartsNewPath(b, FromPoint(curve.start), Round(strokeWidth)) <==>
       OpenPath(FromPoint(curve.start), Round(strokeWidth)) in r.buffer[|b.buffer|..]) &&
      r.buffer[|r.buffer| - 1] == CurveTo(FromPoint(curve.control1), FromPoint(curve.control2), FromPoint(curve.end))
  {
    var added := Added(b, ToSvg(curve), Round(strokeWidth));
    assert (b.buffer + added)[|b.buffer|..] == added;
  }

  /** `append` keeps the builder's invariant. */
  lemma AppendValid(b: SvgBuilder, curve: Curve, strokeWidth: real)
    requires Valid(b)
    ensures Valid(Append(b, curve, strokeWidth))
  {
    ScanAdded(b, ToSvg(curve), Round(strokeWidth));
  }

  lemma ScanAdded(b: SvgBuilder, c: SvgCurve, width: int)
    ensures Valid(b) ==> Scan(b.buffer + Added(b, c, width)) == Some(true)
  {
    if Valid(b) {
      var added := Added(b, c, width);
      if StartsNewPath(b, c.start, width) && b.lastPoint.Some? {
        ScanThree(b.buffer, ClosePath, OpenPath(c.start, width), CurveToOf(c));
        assert added == [ClosePath, OpenPath(c.start, width), CurveToOf(c)];
      } else if StartsNewPath(b, c.start, width) {
        ScanTwo(b.buffer, OpenPath(c.start, width), CurveToOf(c));
        assert added == [OpenPath(c.start, width), CurveToOf(c)];
      } else {
        ScanAppendOne(b.buffer, CurveToOf(c));
      }
    }
  }

  lemma ScanTwo(ps: seq<Piece>, p: Piece, q: Piece)
    ensures Scan(ps + [p, q]) == ScanStep(ScanStep(Scan(ps), p), q)
  {
    ScanAppendOne(ps, p);
    ScanAppendOne(ps + [p], q);
    assert ps + [p] + [q] == ps + [p, q];
  }

  lemma ScanThree(ps: seq<Piece>, p: Piece, q: Piece, u: Piece)
    ensures Scan(ps + [p, q, u]) == ScanStep(ScanStep(ScanStep(Scan(ps), p), q), u)
  {
    ScanTwo(ps, p, q);
    ScanAppendOne(ps + [p, q], u);
    assert ps + [p, q] + [u] == ps + [p, q, u];
  }

  /** The buffer's text only grows under `append`. */
  lemma AppendExtendsText(b: SvgBuilder, curve: Curve, strokeWidth: real)
    ensures var r := Append(b, curve, strokeWidth);
      |Text(b.buffer)| <= |Text(r.buffer)| && Text(r.buffer)[..|Text(b.buffer)|] == Text(b.buffer)
  {
    var r := Append(b, curve, strokeWidth);
    assert r.buffer == b.buffer + r.buffer[|b.buffer|..];
    TextAppend(b.buffer, r.buffer[|b.buffer|..]);
  }

  function Header(width: int, height: int): string
  {
    XmlDeclaration + SvgOpen + IntToString(height) + WidthAttr + IntToString(width) + "\">"
  }

  /** `build` as written: an open path is closed by writing its end into the
      buffer itself, while the record of the open path is kept; the document
      is the header, the buffer and `</svg>`. */
  function Build(b: SvgBuilder, width: int, height: int): (res: (string, SvgBuilder))
    ensures res.1.lastPoint == b.lastPoint && res.1.strokeWidth == b.strokeWidth
    ensures res.1.buffer == b.buffer + (if b.lastPoint.Some? then [ClosePath] else [])
    ensures res.0 == Header(width, height) + Text(res.1.buffer) + SvgClose
  {
    var r := if b.lastPoint.Some? then b.(buffer := b.buffer + [ClosePath]) else b;
    (Header(width, height) + Text(r.buffer) + SvgClose, r)
  }

  /** The pieces of a finished document: the buffer, with the open path closed. */
  function Closed(b: SvgBuilder): (ps: seq<Piece>)
    ensures Valid(b) ==> Scan(ps) == Some(false)
  {
    if b.lastPoint.Some? then
      ScanAppendOne(b.buffer, ClosePath);
      b.buffer + [ClosePath]
    else b.buffer
  }

  /** The document `build` evidently intends: the open path is closed in the
      returned text only, so the builder is left as it was. */
  function Document(b: SvgBuilder, width: int, height: int): (doc: string)
    ensures doc == Build(b, width, height).0
  {
    Header(width, height) + Text(Closed(b)) + SvgClose
  }

  /** `build` as evidently intended: the corrected document, with the builder
      handed back as it was rather than with the path end in its buffer. */
  function BuildFixed(b: SvgBuilder, width: int, height: int): (res: (string, SvgBuilder))
    ensures res.0 == Build(b, width, height).0
    ensures res.1.lastPoint == b.lastPoint && res.1.strokeWidth == b.strokeWidth
  {
    (Document(b, width, height), b)
  }

  /** The corrected `build` leaves a valid builder reusable: the builder stays
      valid, building again gives the same text, its document has all paths
      closed, and a curve that continues the open path lands inside that
      path, before its end, in the next document. */
  lemma DocumentWellFormed(b: SvgBuilder, width: int, height: int, c: SvgCurve, w: int)
    requires Valid(b)
    ensures var b1 := BuildFixed(b, width, height).1;
      Valid(b1) && Scan(Closed(b1)) == Some(false) &&
      BuildFixed(b1, width, height).0 == BuildFixed(b, width, height).0
    ensures var b1 := BuildFixed(b, width, height).1;
      !StartsNewPath(b1, c.start, w) ==>
        Scan(Closed(AppendSvg(b1, c, w))) == Some(false) &&
        Closed(AppendSvg(b1, c, w)) == b.buffer + [CurveToOf(c), ClosePath]
  {
    var b1 := BuildFixed(b, width, height).1;
    if !StartsNewPath(b1, c.start, w) {
      ScanAdded(b1, c, w);
      assert Added(b1, c, w) == [CurveToOf(c)];
      assert Valid(AppendSvg(b1, c, w));
      assert b1.buffer + [CurveToOf(c)] + [ClosePath] == b.buffer + [CurveToOf(c), ClosePath];
    }
  }

  /** As written, `build` leaves the builder claiming an open path that its
      buffer has already closed: a second `build` writes a second path end,
      and a curve that continues the path is written outside any path. */
  lemma BuildBreaksBuilder(b: SvgBuilder, width: int, height: int, c: SvgCurve, w: int)
    requires Valid(b) && b.lastPoint.Some?
    requires !StartsNewPath(b, c.start, w)
    ensures !Valid(Build(b, width, height).1)
    ensures Scan(Build(Build(b, width, height).1, width, height).1.buffer).None?
    ensures |Build(Build(b, width, height).1, width, height).0| > |Build(b, width, height).0|
    ensures Scan(AppendSvg(Build(b, width, height).1, c, w).buffer).None?
  {
    var b1 := Build(b, width, height).1;
    ScanAppendOne(b.buffer, ClosePath);
    ScanAppendOne(b1.buffer, ClosePath);
    assert Added(b1, c, w) == [CurveToOf(c)];
    ScanAppendOne(b1.buffer, CurveToOf(c));
    BuildAgainLonger(b1, width, height);
  }

  /** Building a builder that records an open path adds a path end to the text. */
  lemma BuildAgainLonger(b1: SvgBuilder, width: int, height: int)
    requires b1.lastPoint.Some?
    ensures |Build(b1, width, height).0| > |Header(width, height) + Text(b1.buffer) + SvgClose|
  {
    var t := b1.buffer + [ClosePath];
    assert t[..|t| - 1] == b1.buffer;
    assert Text(t) == Text(b1.buffer) + PieceText(ClosePath);
  }

  /** The curveto pieces of a list of curves, in order. */
  function CurveTos(cs: seq<SvgCurve>): (ps: seq<Piece>)
    ensures |ps| == |cs|
  {
    if |cs| == 0 then []
    else [CurveToOf(cs[0])] + CurveTos(cs[1..])
  }

  /** `append` over a list of converted curves and their rounded widths, in order. */
  function AppendAll(b: SvgBuilder, cs: seq<SvgCurve>, widths: seq<int>): SvgBuilder
    requires |cs| == |widths|
    decreases |cs|
  {
    if |cs| == 0 then b else AppendAll(AppendSvg(b, cs[0], widths[0]), cs[1..], widths[1..])
  }

  /** Each curve starts where the previous one ended, after rounding, and all
      widths round to `width`. */
  predicate Chained(cs: seq<SvgCurve>, widths: seq<int>, width: int)
    requires |cs| == |widths|
  {
    (forall i :: 0 <= i < |widths| ==> widths[i] == width) &&
    (forall i :: 0 < i < |cs| ==> Joins(cs, i))
  }

  /** Curve `i` starts where curve `i - 1` ended. */
  predicate Joins(cs: seq<SvgCurve>, i: int)
    requires 0 < i < |cs|
  {
    cs[i].start == cs[i - 1].end
  }

  /** Curves that continue the open path at the same rounded width only add
      curveto pieces, one per curve and in order. */
  lemma {:induction false} AppendChain(b: SvgBuilder, cs: seq<SvgCurve>, widths: seq<int>, width: int)
    requires |cs| == |widths|
    requires Chained(cs, widths, width)
    requires 0 < |cs| ==> b.lastPoint == Some(cs[0].start) && b.strokeWidth == Some(width)
    ensures AppendAll(b, cs, widths).buffer == b.buffer + CurveTos(cs)
    decreases |cs|
  {
    if |cs| == 0 {
      assert b.buffer + [] == b.buffer;
    } else {
      var first := CurveToOf(cs[0]);
      var b1 := AppendSvg(b, cs[0], widths[0]);
      ChainStep(b, cs, widths, width);
      AppendChain(b1, cs[1..], widths[1..], width);
      Associative(b.buffer, [first], CurveTos(cs[1..]));
    }
  }

  /** One step of a chain: the first curve adds only its curveto piece, and
      the rest of the chain continues from its end. */
  lemma ChainStep(b: SvgBuilder, cs: seq<SvgCurve>, widths: seq<int>, width: int)
    requires |cs| == |widths| && 0 < |cs|
    requires Chained(cs, widths, width)
    requires b.lastPoint == Some(cs[0].start) && b.strokeWidth == Some(width)
    ensures var b1 := AppendSvg(b, cs[0], widths[0]);
      b1.buffer == b.buffer + [CurveToOf(cs[0])] &&
      AppendAll(b, cs, widths) == AppendAll(b1, cs[1..], widths[1..]) &&
      CurveTos(cs) == [CurveToOf(cs[0])] + CurveTos(cs[1..]) &&
      Chained(cs[1..], widths[1..], width) &&
      (1 < |cs| ==> b1.lastPoint == Some(cs[1].start) && b1.strokeWidth == Some(width))
  {
    assert Added(b, cs[0], widths[0]) == [CurveToOf(cs[0])];
    ChainRest(cs, widths, width);
    if 1 < |cs| {
      assert Joins(cs, 1);
    }
  }

  lemma ChainRest(cs: seq<SvgCurve>, widths: seq<int>, width: int)
    requires |cs| == |widths| && 0 < |cs|
    requires Chained(cs, widths, width)
    ensures Chained(cs[1..], widths[1..], width)
  {
    forall i | 0 < i < |cs| - 1
      ensures Joins(cs[1..], i)
    {
      assert Joins(cs, i + 1);
    }
  }

  /** The first curve on an empty builder opens the path. */
  lemma FirstCurve(c: SvgCurve, w: int)
    ensures AppendSvg(Empty(), c, w) == SvgBuilder([OpenPath(c.start, w), CurveToOf(c)], Some(c.end), Some(w))
  {
    assert Added(Empty(), c, w) == [OpenPath(c.start, w), CurveToOf(c)];
  }

  /** From an empty builder, a chained run of curves becomes exactly one path:
      one open piece followed by the curves' curveto pieces in order. */
  lemma ChainIsOnePath(cs: seq<SvgCurve>, widths: seq<int>, width: int)
    requires |cs| == |widths| && 0 < |cs|
    requires Chained(cs, widths, width)
    ensures AppendAll(Empty(), cs, widths).buffer == [OpenPath(cs[0].start, width)] + CurveTos(cs)
  {
    var open := OpenPath(cs[0].start, width);
    var first := CurveToOf(cs[0]);
    FirstCurve(cs[0], width);
    var b1 := AppendSvg(Empty(), cs[0], width);
    assert widths[0] == width;
    assert AppendAll(Empty(), cs, widths) == AppendAll(b1, cs[1..], widths[1..]);
    ChainRest(cs, widths, width);
    if 1 < |cs| {
      assert Joins(cs, 1);
    }
    AppendChain(b1, cs[1..], widths[1..], width);
    var rest := CurveTos(cs[1..]);
    assert CurveTos(cs) == [first] + rest;
    assert b1.buffer == [open] + [first];
    assert AppendAll(b1, cs[1..], widths[1..]).buffer == [open] + [first] + rest;
    Associative([open], [first], rest);
  }
}
