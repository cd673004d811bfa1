/** The sliding window of samples behind `addPoint`: every new sample is
    appended, and once four samples are present one curve is produced from
    them and the oldest sample is dropped. The current `SignaturePad` and
    `SketchBoard` duplicate the first sample of a stroke as soon as it
    arrives; the oldest `SignaturePad` duplicates it only when the third
    sample arrives. */
module StrokeWindow {
  import opened JavaMath
  import opened Geometry

  /** The four samples one curve is built from: it runs from `p1` to `p2`,
      and `p0` and `p3` steer its control points. */
  datatype Quad = Quad(p0: TimedPoint, p1: TimedPoint, p2: TimedPoint, p3: TimedPoint)

  function QuadAt(e: seq<TimedPoint>, j: nat): Quad
    requires j + 4 <= |e|
  {
    Quad(e[j], e[j + 1], e[j + 2], e[j + 3])
  }

  /** The quads of every run of four consecutive samples of `e`, in order. */
  function Quads(e: seq<TimedPoint>): (qs: seq<Quad>)
    ensures |e| < 4 ==> |qs| == 0
    ensures 4 <= |e| ==> |qs| == |e| - 3
  {
    var n := if |e| < 4 then 0 else |e| - 3;
    seq(n, j requires 0 <= j < n => QuadAt(e, j))
  }

  /** The last (at most) three samples of `e`. */
  function Tail(e: seq<TimedPoint>): (t: seq<TimedPoint>)
    ensures |t| == Min(3, |e|)
  {
    if |e| <= 3 then e else e[|e| - 3..]
  }

  /** `addPoint` of the current view code. The duplicate made for a lone
      first sample is a fresh point with its coordinates, stamped with the
      clock reading `now`. */
  function AddPoint(window: seq<TimedPoint>, p: TimedPoint, now: int): (r: (seq<TimedPoint>, Option<Quad>))
    ensures |window| == 0 ==> r == ([p, TimedPoint(p.x, p.y, now)], None)
    ensures 1 <= |window| < 3 ==> r == (window + [p], None)
    ensures 3 <= |window| ==> r.1 == Some(QuadAt(window + [p], 0)) && r.0 == (window + [p])[1..]
    ensures |window| <= 3 ==> |r.0| <= 3
  {
    var w := window + [p];
    if |w| > 3 then
      (w[1..], Some(Quad(w[0], w[1], w[2], w[3])))
    else if |w| == 1 then
      assert w + [TimedPoint(w[0].x, w[0].y, now)] == [p, TimedPoint(p.x, p.y, now)];
      (w + [TimedPoint(w[0].x, w[0].y, now)], None)
    else
      (w, None)
  }

  /** `addPoint` of the oldest view code: nothing until three samples are
      present; then the first is copied to the front once, and from there on
      every sample yields a curve. */
  function LegacyAddPoint(window: seq<TimedPoint>, p: TimedPoint): (r: (seq<TimedPoint>, Option<Quad>))
    ensures |window| < 2 ==> r == (window + [p], None)
    ensures |window| == 2 ==> r.1 == Some(Quad(window[0], window[0], window[1], p)) && r.0 == window + [p]
    ensures 3 <= |window| ==> r.1 == Some(QuadAt(window + [p], 0)) && r.0 == (window + [p])[1..]
    ensures |window| <= 3 ==> |r.0| <= 3
  {
    var w := window + [p];
    if |w| > 2 then
      var w4 := if |w| == 3 then [w[0]] + w else w;
      (w4[1..], Some(Quad(w4[0], w4[1], w4[2], w4[3])))
    else
      (w, None)
  }

  function Emitted(q: Option<Quad>): seq<Quad>
  {
    match q
    case None => []
    case Some(x) => [x]
  }

  /** A stroke's samples fed one by one into an empty window; the clock
      reading `now` stamps the duplicate of the first sample. Gives the final
      window and the quads produced, in order. */
  function Feed(ps: seq<TimedPoint>, now: int): (seq<TimedPoint>, seq<Quad>)
  {
    if |ps| == 0 then ([], [])
    else
      var prev := Feed(ps[..|ps| - 1], now);
      var step := AddPoint(prev.0, ps[|ps| - 1], now);
      (step.0, prev.1 + Emitted(step.1))
  }

  function LegacyFeed(ps: seq<TimedPoint>): (seq<TimedPoint>, seq<Quad>)
  {
    if |ps| == 0 then ([], [])
    else
      var prev := LegacyFeed(ps[..|ps| - 1]);
      var step := LegacyAddPoint(prev.0, ps[|ps| - 1]);
      (step.0, prev.1 + Emitted(step.1))
  }

  /** The samples the window sees in the current code: the first sample, its
      duplicate, then the rest. */
  function Expanded(ps: seq<TimedPoint>, now: int): (e: seq<TimedPoint>)
    requires 0 < |ps|
    ensures |e| == |ps| + 1
  {
    [ps[0], TimedPoint(ps[0].x, ps[0].y, now)] + ps[1..]
  }

  lemma QuadsAppend(e: seq<TimedPoint>, p: TimedPoint)
    requires 3 <= |e|
    ensures Quads(e + [p]) == Quads(e) + [QuadAt(e + [p], |e| - 3)]
  {
    var e1 := e + [p];
    assert forall j :: 0 <= j < |e| - 3 ==> QuadAt(e1, j) == QuadAt(e, j);
  }

  /** Appending a sample to a full window and dropping its oldest entry
      leaves the last three samples. */
  lemma SlideTail(e: seq<TimedPoint>, p: TimedPoint)
    requires 3 <= |e|
    ensures (Tail(e) + [p])[1..] == Tail(e + [p])
  {
    var t := e[|e| - 3..];
    assert (t + [p])[1..] == [t[1], t[2], p];
    assert Tail(e + [p]) == (e + [p])[|e| - 2..];
  }

  lemma ExpandedSnoc(ps: seq<TimedPoint>, now: int)
    requires 2 <= |ps|
    ensures Expanded(ps, now) == Expanded(ps[..|ps| - 1], now) + [ps[|ps| - 1]]
  {
    var front := ps[..|ps| - 1];
    var head := [ps[0], TimedPoint(ps[0].x, ps[0].y, now)];
    assert ps[1..] == front[1..] + [ps[|ps| - 1]];
    Associative(head, front[1..], [ps[|ps| - 1]]);
  }

  /** Fed from an empty window, a stroke of `n` samples produces `n - 2`
      curves (none for fewer than three): curve `j` is built from samples
      `j .. j + 3` of the stroke with the first sample duplicated, and the
      window ends holding the last three of those samples. */
  lemma {:induction false} FeedProducesQuads(ps: seq<TimedPoint>, now: int)
    requires 0 < |ps|
    ensures Feed(ps, now).1 == Quads(Expanded(ps, now))
    ensures Feed(ps, now).0 == Tail(Expanded(ps, now))
    ensures |Feed(ps, now).1| == if |ps| < 3 then 0 else |ps| - 2
  {
    var e := Expanded(ps, now);
    if |ps| == 1 {
      assert ps[..0] == [];
    } else {
      var front := ps[..|ps| - 1];
      var p := ps[|ps| - 1];
      FeedProducesQuads(front, now);
      var ef := Expanded(front, now);
      ExpandedSnoc(ps, now);
      var prev := Feed(front, now);
      assert Feed(ps, now) == (AddPoint(prev.0, p, now).0, prev.1 + Emitted(AddPoint(prev.0, p, now).1));
      FeedStep(ef, p, now);
    }
  }

  /** One step of the feed: a window holding the last samples of `e` (at
      least two of them, as after the first sample) takes `p` to the last
      samples of `e + [p]`, and emits the one quad `e + [p]` has beyond the
      quads of `e`. */
  lemma FeedStep(e: seq<TimedPoint>, p: TimedPoint, now: int)
    requires 2 <= |e|
    ensures var step := AddPoint(Tail(e), p, now);
      step.0 == Tail(e + [p]) && Quads(e) + Emitted(step.1) == Quads(e + [p])
  {
    var step := AddPoint(Tail(e), p, now);
    if |e| >= 3 {
      QuadsAppend(e, p);
      var q := QuadAt(e + [p], |e| - 3);
      assert Tail(e) + [p] == e[|e| - 3..] + [p];
      assert QuadAt(Tail(e) + [p], 0) == q;
      assert Emitted(step.1) == [q];
      SlideTail(e, p);
    } else {
      assert Quads(e + [p]) == [];
      assert Emitted(step.1) == [];
    }
  }

  lemma {:induction false} LegacyFeedProducesQuads(ps: seq<TimedPoint>)
    requires 0 < |ps|
    ensures |ps| < 3 ==> LegacyFeed(ps) == (ps, [])
    ensures 3 <= |ps| ==> LegacyFeed(ps).1 == Quads([ps[0]] + ps)
    ensures 3 <= |ps| ==> LegacyFeed(ps).0 == Tail([ps[0]] + ps)
  {
    var front := ps[..|ps| - 1];
    var p := ps[|ps| - 1];
    assert front + [p] == ps;
    if |ps| == 1 {
      assert LegacyFeed(front) == ([], []);
      var none: seq<Quad> := [];
      assert LegacyAddPoint([], p) == ([p], None);
      assert Emitted(None) == none;
      assert none + none == none;
      assert LegacyAddStep(([], none), p) == ([p], none);
      assert LegacyFeed(ps) == LegacyAddStep(([], none), p);
      assert ps == [p];
    } else {
      LegacyFeedProducesQuads(front);
      assert LegacyFeed(ps) == LegacyAddStep(LegacyFeed(front), p);
      if |ps| >= 4 {
        LegacyFeedLong(front, p);
      } else if |ps| == 3 {
        LegacyFeedThird(front, p);
      }
    }
  }

  /** One sample fed to a window state, as `LegacyFeed` does. */
  function LegacyAddStep(prev: (seq<TimedPoint>, seq<Quad>), p: TimedPoint): (seq<TimedPoint>, seq<Quad>)
  {
    var step := LegacyAddPoint(prev.0, p);
    (step.0, prev.1 + Emitted(step.1))
  }

  /** The third sample yields the first curve, over the first sample twice. */
  lemma LegacyFeedThird(front: seq<TimedPoint>, p: TimedPoint)
    requires |front| == 2
    ensures var ps := front + [p]; var r := LegacyAddStep((front, []), p);
      r.1 == Quads([ps[0]] + ps) && r.0 == Tail([ps[0]] + ps)
  {
    var ps := front + [p];
    var e := [ps[0]] + ps;
    assert e == [front[0], front[0], front[1], p];
    assert Quads(e) == [QuadAt(e, 0)];
  }

  /** From the fourth sample on, each sample slides the window by one and
      yields the next curve. */
  lemma LegacyFeedLong(front: seq<TimedPoint>, p: TimedPoint)
    requires 3 <= |front|
    ensures var ps := front + [p]; var ef := [front[0]] + front;
      var r := LegacyAddStep((Tail(ef), Quads(ef)), p);
      r.1 == Quads([ps[0]] + ps) && r.0 == Tail([ps[0]] + ps)
  {
    var ps := front + [p];
    var ef := [front[0]] + front;
    var e := [ps[0]] + ps;
    Associative([ps[0]], front, [p]);
    QuadsAppend(ef, p);
    SlideTail(ef, p);
    assert QuadAt(Tail(ef) + [p], 0) == QuadAt(e, |ef| - 3);
  }

  /** Both windows produce the same curves from the same stroke when the
      duplicate of the first sample carries that sample's own timestamp: the
      oldest code merely defers the duplication to the third sample. */
  lemma LegacyFeedAgrees(ps: seq<TimedPoint>, now: int)
    requires 0 < |ps| && now == ps[0].timestamp
    ensures LegacyFeed(ps).1 == Feed(ps, now).1
  {
    var e := Expanded(ps, now);
    assert e == [ps[0]] + ps;
    FeedProducesQuads(ps, now);
    LegacyFeedProducesQuads(ps);
  }

  /** Consecutive curves join: each one ends on the sample the next one
      starts from, and the first starts on the stroke's first sample. */
  lemma QuadsJoin(ps: seq<TimedPoint>, now: int, j: int)
    requires 0 < |ps|
    requires 0 <= j < |Feed(ps, now).1|
    ensures var qs := Feed(ps, now).1;
      (j + 1 < |qs| ==> qs[j].p2 == qs[j + 1].p1) &&
      qs[0].p1 == TimedPoint(ps[0].x, ps[0].y, now)
  {
    FeedProducesQuads(ps, now);
    QuadsOverlap(Expanded(ps, now), j);
  }

  /** Neighbouring quads share two samples; the first starts at the second
      sample. */
  lemma QuadsOverlap(e: seq<TimedPoint>, j: int)
    requires 0 <= j < |Quads(e)|
    ensures j + 1 < |Quads(e)| ==> Quads(e)[j].p2 == Quads(e)[j + 1].p1
    ensures Quads(e)[0].p1 == e[1]
  {
  }
}
