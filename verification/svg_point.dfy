/** `SvgPoint`, and the identical inner class `SvgBuilder.Point`: a sample as
    it appears in the SVG document, its coordinates rounded to ints and
    written as "x,y". */
module SvgPoints {
  import opened JavaMath
  import opened JavaText
  import opened Geometry

  datatype SvgPoint = SvgPoint(svg: string)

  /** The characters a constructed point can hold: digits, minus signs and
      the separating comma. */
  predicate Rendered(q: SvgPoint)
  {
    forall k :: 0 <= k < |q.svg| ==> IsDigit(q.svg[k]) || q.svg[k] == '-' || q.svg[k] == ','
  }

  /** The constructor: `Math.round(x) + "," + Math.round(y)`. */
  function FromPoint(p: TimedPoint): SvgPoint
  {
    SvgPoint(IntToString(Round(p.x)) + [','] + IntToString(Round(p.y)))
  }

  /** The text holds exactly the two rounded coordinates, and nothing but
      digits, minus signs and the comma. */
  lemma DecodeFromPoint(p: TimedPoint)
    ensures Decode(FromPoint(p)) == Some((Round(p.x), Round(p.y)))
    ensures Rendered(FromPoint(p))
  {
    var sx := IntToString(Round(p.x));
    var sy := IntToString(Round(p.y));
    NoCommaInInt(Round(p.x));
    SplitAtJoin(sx, ',', sy);
    ParseIntToString(Round(p.x));
    ParseIntToString(Round(p.y));
    forall k | 0 <= k < |FromPoint(p).svg|
      ensures IsDigit(FromPoint(p).svg[k]) || FromPoint(p).svg[k] == '-' || FromPoint(p).svg[k] == ','
    {
      if k < |sx| {
        IntToStringChars(Round(p.x), k);
      } else if k > |sx| {
        IntToStringChars(Round(p.y), k - |sx| - 1);
      }
    }
  }

  lemma NoCommaInInt(i: int)
    ensures ',' !in IntToString(i)
  {
    if ',' in IntToString(i) {
      var k :| 0 <= k < |IntToString(i)| && IntToString(i)[k] == ',';
      IntToStringChars(i, k);
    }
  }

  /** Markup characters never occur inside a constructed point. */
  lemma CountInRendered(c: char, q: SvgPoint)
    requires Rendered(q)
    requires !IsDigit(c) && c != '-' && c != ','
    ensures Count(c, q.svg) == 0
  {
    CountAbsent(c, q.svg);
  }

  /** Reads the rounded coordinates back from the text. */
  function Decode(q: SvgPoint): Option<(int, int)>
  {
    match SplitAt(q.svg, ',')
    case None => None
    case Some(parts) =>
      match (ParseInt(parts.0), ParseInt(parts.1))
      case (Some(x), Some(y)) => Some((x, y))
      case _ => None
  }

  /** `toString`: the stored text, unchanged. */
  function ToString(q: SvgPoint): string
  {
    q.svg
  }

  /** `equals` against a possibly null reference: equal texts; never equal
      to null. */
  predicate EqualsRef(a: SvgPoint, b: Option<SvgPoint>)
  {
    b.Some? && a.svg == b.value.svg
  }

  /** Two samples give equal points exactly when their coordinates round to
      the same ints. */
  lemma EqualsIffSameRounding(p: TimedPoint, q: TimedPoint)
    ensures EqualsRef(FromPoint(p), Some(FromPoint(q))) <==>
            Round(p.x) == Round(q.x) && Round(p.y) == Round(q.y)
  {
    DecodeFromPoint(p);
    DecodeFromPoint(q);
    if FromPoint(p) == FromPoint(q) {
      assert Decode(FromPoint(p)) == Decode(FromPoint(q));
    }
  }

  /** `equals` is reflexive and symmetric, and null is never equal. */
  lemma EqualsProperties(a: SvgPoint, b: SvgPoint)
    ensures EqualsRef(a, Some(a))
    ensures EqualsRef(a, Some(b)) <==> EqualsRef(b, Some(a))
    ensures !EqualsRef(a, None)
  {
  }

  /** `hashCode`: the hash of the text. */
  function HashCode(q: SvgPoint): (h: int)
    ensures -TwoTo31 <= h < TwoTo31
  {
    StringHash(q.svg)
  }

  /** Equal points have equal hash codes. */
  lemma HashCodeConsistent(a: SvgPoint, b: SvgPoint)
    requires EqualsRef(a, Some(b))
    ensures HashCode(a) == HashCode(b)
  {
  }
}
