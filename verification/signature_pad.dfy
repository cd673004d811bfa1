/** The current `SignaturePad` view: touch events feed the stroke pipeline
    and record each gesture as a `Path`; the `PathManager` keeps the
    recorded paths for undo and redo, and restoring replays them through the
    same pipeline. */
module SignaturePadView {
  import opened JavaMath
  import opened Geometry
  import opened Smoothing
  import opened StrokeWindow
  import opened StrokeDrawing
  import opened UndoHistory
  import opened StrokeInk
  import opened TouchInput

  /** `Trail`: a touch position and the clock reading when it was recorded. */
  datatype Trail = Trail(x: real, y: real, timestamp: int)

  /** `Path`: the mode of the gesture (null until `begin`), the DOWN
      position, and the trails, most recent first (`LinkedList.push`). */
  datatype Path = Path(mode: Option<Mode>, touchX: real, touchY: real, trails: seq<Trail>)

  function NewPath(): Path
  {
    Path(None, 0.0, 0.0, [])
  }

  /** `Path.begin`. */
  function Begin(p: Path, mode: Mode, x: real, y: real): Path
  {
    p.(mode := Some(mode), touchX := x, touchY := y)
  }

  /** `Path.move`: a trail pushed onto the head of the list. */
  function Move(p: Path, x: real, y: real, clock: int): Path
  {
    p.(trails := [Trail(x, y, clock)] + p.trails)
  }

  function TrailPoint(t: Trail): TimedPoint
  {
    TimedPoint(t.x, t.y, t.timestamp)
  }

  /** The trails as samples, oldest first: list index `size - 1` down to 0. */
  function Chronological(trails: seq<Trail>): (ps: seq<TimedPoint>)
    ensures |ps| == |trails|
    ensures forall i :: 0 <= i < |trails| ==> ps[i] == TrailPoint(trails[|trails| - 1 - i])
  {
    seq(|trails|, i requires 0 <= i < |trails| => TrailPoint(trails[|trails| - 1 - i]))
  }

  /** The samples `Path.draw` feeds `addPoint`: nothing for a path without
      trails; otherwise the oldest trail (`points.getLast()`), then every
      trail from the oldest to the most recent. */
  function ReplayFeed(p: Path): seq<TimedPoint>
  {
    if |p.trails| == 0 then [] else [TrailPoint(p.trails[|p.trails| - 1])] + Chronological(p.trails)
  }

  /** What `onTouchEvent` does to `mLastPath` for one event when no double
      click is detected: a missing path is created first; DOWN begins it and
      falls through into MOVE, which records a trail; UP hands it to the
      manager and drops it. */
  function TrackPath(last: Option<Path>, mode: Mode, ev: MotionEvent): Option<Path>
  {
    var p := PathOrNew(last);
    match ev.action
    case ActionDown => Some(Move(Begin(p, mode, ev.x, ev.y), ev.x, ev.y, ev.clock))
    case ActionMove => Some(Move(p, ev.x, ev.y, ev.clock))
    case ActionUp => None
    case ActionOther => Some(p)
  }

  function TrackPaths(last: Option<Path>, mode: Mode, evs: seq<MotionEvent>): Option<Path>
    decreases |evs|
  {
    if |evs| == 0 then last else TrackPaths(TrackPath(last, mode, evs[0]), mode, evs[1..])
  }

  /** A run of MOVE events pushes one trail per event, the last one on top. */
  lemma {:induction false} MovesPushTrails(p: Path, mode: Mode, moves: seq<MotionEvent>)
    requires AllMoves(moves)
    ensures var r := TrackPaths(Some(p), mode, moves);
      r.Some? && r.value.mode == p.mode && r.value.touchX == p.touchX && r.value.touchY == p.touchY &&
      |r.value.trails| == |moves| + |p.trails| &&
      r.value.trails[|moves|..] == p.trails &&
      forall i :: 0 <= i < |moves| ==>
        r.value.trails[i] == Trail(moves[|moves| - 1 - i].x, moves[|moves| - 1 - i].y, moves[|moves| - 1 - i].clock)
    decreases |moves|
  {
    if |moves| > 0 {
      var m := moves[0];
      var p1 := Move(p, m.x, m.y, m.clock);
      assert TrackPath(Some(p), mode, m) == Some(p1);
      assert AllMoves(moves[1..]);
      MovesPushTrails(p1, mode, moves[1..]);
      assert TrackPaths(Some(p), mode, moves) == TrackPaths(Some(p1), mode, moves[1..]);
    }
  }

  /** The samples a gesture DOWN, MOVE..., UP feeds `addPoint` when it is
      drawn live: the DOWN sample twice (the DOWN case falls through into
      MOVE), then one sample per later event. */
  function GestureSamples(down: MotionEvent, moves: seq<MotionEvent>, up: MotionEvent): seq<TimedPoint>
  {
    [SampleOf(down), SampleOf(down)] + SamplesOf(moves) + [SampleOf(up)]
  }

  /** Replaying the path a gesture records feeds `addPoint` exactly the
      samples the live gesture fed it, in the same order and with the same
      timestamps; and the path remembers the gesture's mode and DOWN
      position. */
  lemma GestureReplaysAsDrawn(mode: Mode, down: MotionEvent, moves: seq<MotionEvent>, up: MotionEvent)
    requires down.action == ActionDown && AllMoves(moves) && up.action == ActionUp
    ensures var p := TrackPaths(None, mode, [down] + moves);
      p.Some? && p.value.mode == Some(mode) && p.value.touchX == down.x && p.value.touchY == down.y &&
      ReplayFeed(Move(p.value, up.x, up.y, up.clock)) == GestureSamples(down, moves, up)
  {
    var p0 := Move(Begin(NewPath(), mode, down.x, down.y), down.x, down.y, down.clock);
    assert TrackPath(None, mode, down) == Some(p0);
    assert ([down] + moves)[1..] == moves;
    MovesPushTrails(p0, mode, moves);
    var p := TrackPaths(Some(p0), mode, moves).value;
    var recorded := Move(p, up.x, up.y, up.clock);
    var n := |moves|;
    assert recorded.trails[1..] == p.trails;
    assert p.trails[n] == p0.trails[0];
    forall j | 1 <= j <= n
      ensures recorded.trails[j] == TrailOf(moves[n - j])
    {
      assert recorded.trails[j] == p.trails[j - 1];
    }
    GestureFeed(down, moves, up, recorded.trails);
    assert ReplayFeed(recorded) == ReplayFeed(Path(None, 0.0, 0.0, recorded.trails));
  }

  function TrailOf(ev: MotionEvent): Trail
  {
    Trail(ev.x, ev.y, ev.clock)
  }

  /** The trails of a gesture, most recent first: the UP trail, the MOVE
      trails newest first, and the DOWN trail at the bottom. Replayed, they
      give the gesture's samples in order. */
  lemma GestureFeed(down: MotionEvent, moves: seq<MotionEvent>, up: MotionEvent, trails: seq<Trail>)
    requires |trails| == |moves| + 2
    requires trails[0] == TrailOf(up) && trails[|moves| + 1] == TrailOf(down)
    requires forall j :: 1 <= j <= |moves| ==> trails[j] == TrailOf(moves[|moves| - j])
    ensures ReplayFeed(Path(None, 0.0, 0.0, trails)) == GestureSamples(down, moves, up)
  {
    var replay := ReplayFeed(Path(None, 0.0, 0.0, trails));
    var live := GestureSamples(down, moves, up);
    var c := Chronological(trails);
    var n := |trails|;
    assert replay == [TrailPoint(trails[n - 1])] + c;
    assert |live| == n + 1;
    forall i | 0 <= i <= n
      ensures replay[i] == live[i]
    {
      if i == 0 || i == 1 {
        assert replay[i] == TrailPoint(trails[n - 1]);
        assert live[i] == SampleOf(down);
      } else if i == n {
        assert replay[i] == c[n - 1] == TrailPoint(trails[0]);
        assert live[i] == SampleOf(up);
      } else {
        var j := n - i;
        assert replay[i] == c[i - 1] == TrailPoint(trails[j]);
        assert trails[j] == TrailOf(moves[|moves| - j]);
        assert live[i] == SamplesOf(moves)[i - 2] == SampleOf(moves[i - 2]);
      }
    }
  }

  /** The notifications a listener would receive, in order; the view sends
      them only when a listener is set, which the model does not track. */
  datatype Signal = StartSigning | Signed | Cleared | RestoreFromHistory

  /** `mFirstClick` and `mCountClick`. */
  datatype Clicks = Clicks(firstClick: int, countClick: int)

  const DoubleClickDelayMs: int := 200

  /** `isDoubleClick` at clock reading `now` (the clear it triggers is left
      to the caller): the count restarts when more than the delay has passed
      since the first click, and the second click within the delay is a
      double click. */
  function IsDoubleClick(clearOnDoubleClick: bool, c: Clicks, now: int): (r: (Clicks, bool))
    ensures !clearOnDoubleClick ==> r == (c, false)
  {
    if !clearOnDoubleClick then (c, false)
    else
      var restart := c.firstClick != 0 && now - c.firstClick > DoubleClickDelayMs;
      var count := (if restart then 0 else c.countClick) + 1;
      if count == 1 then (Clicks(now, count), false)
      else if count == 2 && now - c.firstClick < DoubleClickDelayMs then (Clicks(c.firstClick, count), true)
      else (Clicks(c.firstClick, count), false)
  }

  /** From a fresh view, the second of two taps clears exactly when it comes
      less than 200 ms after the first; a third quick tap never does. */
  lemma DoubleClickTiming(t1: int, t2: int, t3: int)
    requires t1 != 0
    ensures var first := IsDoubleClick(true, Clicks(0, 0), t1);
      var second := IsDoubleClick(true, first.0, t2);
      !first.1 && (second.1 <==> t2 - t1 < DoubleClickDelayMs) &&
      (second.1 ==> !IsDoubleClick(true, second.0, t3).1)
  {
  }

  datatype Pad = Pad(
    cfg: PenConfig, clearOnDoubleClick: bool, enabled: bool, mode: Mode,
    ink: Ink, isEmpty: bool, lastPath: Option<Path>, paths: Stacks<Path>,
    pathRedraw: bool, pendingOnDraw: bool, clicks: Clicks, signals: seq<Signal>)

  predicate Ready(pad: Pad)
  {
    InkReady(pad.cfg, pad.ink)
  }

  /** `setIsEmpty`: the flag, and one notification either way. */
  function SetIsEmpty(pad: Pad, v: bool): (r: Pad)
    ensures r.isEmpty == v && r.signals == pad.signals + [if v then Cleared else Signed]
    ensures r.(isEmpty := pad.isEmpty, signals := pad.signals) == pad
  {
    pad.(isEmpty := v, signals := pad.signals + [if v then Cleared else Signed])
  }

  /** `addPoint` on the view, in the view's current mode. The board of
      `SketchBoard` has the same step over its own record; each view frames
      the shared `StrokeInk.AddSample` within the fields it has. */
  ghost function AddSample(pad: Pad, p: TimedPoint, clock: int): (r: Pad)
    requires Ready(pad)
    ensures Ready(r)
    ensures r.ink.window == AddPoint(pad.ink.window, p, clock).0
    ensures r.(ink := pad.ink) == pad
  {
    pad.(ink := StrokeInk.AddSample(pad.cfg, pad.mode, pad.ink, p, clock))
  }

  /** `clearInternal`: SVG emptied, window emptied, pen reset, bitmap
      recreated blank, and the view reported empty. */
  function ClearInternal(pad: Pad): (r: Pad)
    ensures r.ink == ClearedInk(pad.cfg, pad.ink) && r.isEmpty
    ensures r.paths == pad.paths && r.lastPath == pad.lastPath && r.mode == pad.mode
    ensures ValidPenConfig(pad.cfg) ==> Ready(r)
  {
    var cleared := pad.(ink := ClearedInk(pad.cfg, pad.ink));
    SetIsEmpty(cleared, true)
  }

  /** `clear`: `clearInternal`, then every recorded path moved to the redo
      list (`pathManager.clear` is `undo(history.size())`). */
  function Clear(pad: Pad): (r: Pad)
    ensures r.paths.history == [] && r.paths.retained == Reverse(pad.paths.history) + pad.paths.retained
    ensures r == ClearInternal(pad).(paths := r.paths)
  {
    var moved := Undo(pad.paths, |pad.paths.history|).0;
    assert pad.paths.history[..|pad.paths.history|] == pad.paths.history;
    ClearInternal(pad).(paths := moved)
  }

  function PathOrNew(last: Option<Path>): Path
  {
    if last.None? then NewPath() else last.value
  }

  /** ACTION_DOWN: the window emptied and the double-click check run; a
      double click clears the view and ends the case. Otherwise the path is
      begun, the sample fed, signing reported started, and the case falls
      through into ACTION_MOVE, which records a trail and feeds the same
      sample again. */
  ghost function TouchDown(pad: Pad, ev: MotionEvent): (r: Pad)
    requires Ready(pad)
    ensures Ready(r)
    ensures IsDoubleClick(pad.clearOnDoubleClick, pad.clicks, ev.clock).1 ==>
              r.paths.history == [] && r.ink.drawn == [] && r.isEmpty && r.ink.window == []
    ensures !IsDoubleClick(pad.clearOnDoubleClick, pad.clicks, ev.clock).1 ==>
              r.ink.window == AddPoint(AddPoint([], SampleOf(ev), ev.clock).0, SampleOf(ev), ev.clock).0 &&
              r.lastPath == Some(Move(Begin(PathOrNew(pad.lastPath), pad.mode, ev.x, ev.y), ev.x, ev.y, ev.clock)) &&
              r.paths == pad.paths &&
              r.signals == pad.signals + [StartSigning]
  {
    var path := PathOrNew(pad.lastPath);
    var sample := SampleOf(ev);
    var click := IsDoubleClick(pad.clearOnDoubleClick, pad.clicks, ev.clock);
    var pressed := pad.(ink := pad.ink.(window := []), clicks := click.0, lastPath := Some(path));
    if click.1 then
      Clear(pressed)
    else
      var begun := Begin(path, pad.mode, ev.x, ev.y);
      var first := AddSample(pressed.(lastPath := Some(begun)), sample, ev.clock);
      var started := first.(signals := first.signals + [StartSigning]);
      AddSample(started.(lastPath := Some(Move(begun, ev.x, ev.y, ev.clock))), sample, ev.clock)
  }

  /** ACTION_MOVE: a trail recorded and the sample fed. */
  ghost function TouchMove(pad: Pad, ev: MotionEvent): (r: Pad)
    requires Ready(pad)
    ensures Ready(r)
    ensures r.ink.window == AddPoint(pad.ink.window, SampleOf(ev), ev.clock).0
    ensures r.lastPath == Some(Move(PathOrNew(pad.lastPath), ev.x, ev.y, ev.clock))
    ensures r.paths == pad.paths && r.isEmpty == pad.isEmpty
  {
    AddSample(pad.(lastPath := Some(Move(PathOrNew(pad.lastPath), ev.x, ev.y, ev.clock))), SampleOf(ev), ev.clock)
  }

  /** ACTION_UP: a last trail recorded and the sample fed, the view reported
      signed, and the path handed to the manager's history. */
  ghost function TouchUp(pad: Pad, ev: MotionEvent): (r: Pad)
    requires Ready(pad)
    ensures Ready(r)
    ensures r.ink.window == AddPoint(pad.ink.window, SampleOf(ev), ev.clock).0
    ensures r.lastPath.None? && !r.isEmpty
    ensures r.paths.history == [Move(PathOrNew(pad.lastPath), ev.x, ev.y, ev.clock)] + pad.paths.history
    ensures r.paths.retained == pad.paths.retained
    ensures r.signals == pad.signals + [Signed]
  {
    var recorded := Move(PathOrNew(pad.lastPath), ev.x, ev.y, ev.clock);
    var fed := AddSample(pad.(lastPath := Some(recorded)), SampleOf(ev), ev.clock);
    var shown := SetIsEmpty(fed, false);
    shown.(paths := Add(shown.paths, Some(recorded)), lastPath := None)
  }

  /** `onTouchEvent` for one event, with the clock reading it takes. Gives
      the view after the event and whether the event was consumed: a
      disabled view and an unknown action consume nothing, though an unknown
      action still creates the missing path. */
  ghost function OnTouchEvent(pad: Pad, ev: MotionEvent): (r: (Pad, bool))
    requires Ready(pad)
    ensures Ready(r.0)
    ensures !pad.enabled ==> r == (pad, false)
    ensures r.1 <==> pad.enabled && !ev.action.ActionOther?
    ensures pad.enabled && ev.action.ActionOther? ==> r.0 == pad.(lastPath := Some(PathOrNew(pad.lastPath)))
  {
    if !pad.enabled then (pad, false)
    else
      match ev.action
      case ActionDown => (TouchDown(pad, ev), true)
      case ActionMove => (TouchMove(pad, ev), true)
      case ActionUp => (TouchUp(pad, ev), true)
      case ActionOther => (pad.(lastPath := Some(PathOrNew(pad.lastPath))), false)
  }

  /** Without a double click, the path `onTouchEvent` keeps is the one
      `TrackPath` describes, and an UP event hands exactly that path, with
      its last trail, to the history. */
  lemma TouchTracksPath(pad: Pad, ev: MotionEvent)
    requires Ready(pad) && pad.enabled
    requires !(ev.action.ActionDown? && IsDoubleClick(pad.clearOnDoubleClick, pad.clicks, ev.clock).1)
    ensures OnTouchEvent(pad, ev).0.lastPath == TrackPath(pad.lastPath, pad.mode, ev)
    ensures ev.action.ActionUp? ==>
              OnTouchEvent(pad, ev).0.paths.history ==
              [Move(PathOrNew(pad.lastPath), ev.x, ev.y, ev.clock)] + pad.paths.history
    ensures !ev.action.ActionUp? ==> OnTouchEvent(pad, ev).0.paths == pad.paths
  {
  }

  /** `undoInternal`: ignored when there is nothing to undo; otherwise the
      restore listener is told, `steps` paths move to the redo list and a
      redraw is requested. The delayed `clearInternal` it posts is
      `ClearInternal`, applied by the caller when it runs. */
  function UndoInternal(pad: Pad, steps: int): (r: Pad)
    ensures |pad.paths.history| == 0 ==> r == pad
    ensures 0 < |pad.paths.history| ==>
              r.pathRedraw && r.paths == Undo(pad.paths, steps).0 &&
              r.signals == pad.signals + [RestoreFromHistory]
    ensures r.(paths := pad.paths, pathRedraw := pad.pathRedraw, signals := pad.signals) == pad
  {
    if |pad.paths.history| == 0 then pad
    else pad.(signals := pad.signals + [RestoreFromHistory], paths := Undo(pad.paths, steps).0, pathRedraw := true)
  }

  /** `redoInternal`: the mirror image over the redo list. */
  function RedoInternal(pad: Pad, steps: int): (r: Pad)
    ensures |pad.paths.retained| == 0 ==> r == pad
    ensures 0 < |pad.paths.retained| ==>
              r.pathRedraw && r.paths == Redo(pad.paths, steps).0 &&
              r.signals == pad.signals + [RestoreFromHistory]
    ensures r.(paths := pad.paths, pathRedraw := pad.pathRedraw, signals := pad.signals) == pad
  {
    if |pad.paths.retained| == 0 then pad
    else pad.(signals := pad.signals + [RestoreFromHistory], paths := Redo(pad.paths, steps).0, pathRedraw := true)
  }

  /** Undoing `k` recorded paths and redoing `k` brings back exactly the
      recorded paths, in order, with an empty redo list restored too. */
  lemma UndoRedoRestoresPaths(pad: Pad, k: int)
    requires 1 <= k <= |pad.paths.history|
    ensures RedoInternal(UndoInternal(pad, k), k).paths == pad.paths
  {
    UndoThenRedo(pad.paths, k);
  }

  /** After `clear`, redoing as many steps as there were paths restores all
      of them. */
  lemma ClearThenRedo(pad: Pad)
    requires 0 < |pad.paths.history|
    ensures RedoInternal(Clear(pad), |pad.paths.history|).paths == pad.paths
  {
    var n := |pad.paths.history|;
    assert pad.paths.history[..n] == pad.paths.history;
    UndoThenRedo(pad.paths, n);
  }

  /** `setMode`: a null mode is ignored. */
  function SetMode(current: Mode, mode: Option<Mode>): (m: Mode)
    ensures mode.Some? ==> m == mode.value
    ensures mode.None? ==> m == current
  {
    if mode.None? then current else mode.value
  }

  /** The runnable `Path.draw` posts: nothing for a path without trails;
      otherwise the path's mode is set for the replay, the window emptied,
      the replay samples fed (timestamps from the trails, `clock` for the
      new points made on the way), the view reported non-empty, and the
      mode put back. */
  ghost function ReplayPath(pad: Pad, p: Path, clock: int): (r: Pad)
    requires Ready(pad)
    ensures Ready(r)
    ensures r.mode == pad.mode && r.paths == pad.paths
    ensures |p.trails| == 0 ==> r == pad
    ensures 0 < |p.trails| ==> !r.isEmpty
  {
    if |p.trails| == 0 then pad
    else
      var mode := SetMode(pad.mode, p.mode);
      var fed := AddSamples(pad.cfg, mode, pad.ink.(window := []), ReplayFeed(p), clock);
      SetIsEmpty(pad.(ink := fed), false)
  }

  /** Replaying a path draws exactly its stroke: the quads of its replay
      samples, in the path's own mode, from the pen the view had; and the
      SVG builder receives those curves with their mean widths. */
  lemma ReplayPathDrawsStroke(pad: Pad, p: Path, clock: int)
    requires Ready(pad) && 0 < |p.trails|
    ensures var d := DrawQuads(pad.cfg, SetMode(pad.mode, p.mode), pad.ink.pen, Feed(ReplayFeed(p), clock).1, clock);
      ReplayPath(pad, p, clock).ink.drawn == pad.ink.drawn + d.1 &&
      ReplayPath(pad, p, clock).ink.pen == d.0 &&
      ReplayPath(pad, p, clock).ink.svg == SvgOfSegments(pad.ink.svg, d.1)
  {
    AddSamplesDrawsStroke(pad.cfg, SetMode(pad.mode, p.mode), pad.ink.(window := []), ReplayFeed(p), clock);
  }

  ghost function ReplayPaths(pad: Pad, ps: seq<Path>, clock: int): (r: Pad)
    requires Ready(pad)
    ensures Ready(r) && r.paths == pad.paths && r.mode == pad.mode
    decreases |ps|
  {
    if |ps| == 0 then pad else ReplayPaths(ReplayPath(pad, ps[0], clock), ps[1..], clock)
  }

  /** Replaying a run of paths is replaying its first part, then the rest
      from the view that left; with `ReplayPathDrawsStroke` this gives what a
      whole restore draws, path by path. */
  lemma {:induction false} ReplayPathsAppend(pad: Pad, ps1: seq<Path>, ps2: seq<Path>, clock: int)
    requires Ready(pad)
    ensures ReplayPaths(pad, ps1 + ps2, clock) == ReplayPaths(ReplayPaths(pad, ps1, clock), ps2, clock)
    decreases |ps1|
  {
    if |ps1| == 0 {
      assert ps1 + ps2 == ps2;
    } else {
      var p1 := ReplayPath(pad, ps1[0], clock);
      assert (ps1 + ps2)[0] == ps1[0] && (ps1 + ps2)[1..] == ps1[1..] + ps2;
      ReplayPathsAppend(p1, ps1[1..], ps2, clock);
    }
  }

  /** `restoreSignatures`, as `onDraw` runs it while a redraw is pending:
      every recorded path replayed from the oldest (`size() - 1`) to the
      newest, then the redraw flag dropped and completion awaited. */
  ghost function RestoreSignatures(pad: Pad, clock: int): (r: Pad)
    requires Ready(pad)
    ensures Ready(r) && r.paths == pad.paths
    ensures !r.pathRedraw && r.pendingOnDraw
  {
    ReplayPaths(pad, Reverse(pad.paths.history), clock).(pathRedraw := false, pendingOnDraw := true)
  }

  /** Paths recorded one after another come back from the history oldest
      first, so restoring replays them in the order they were drawn. */
  lemma {:induction false} RestoreOrderIsRecordingOrder(s: Stacks<Path>, recorded: seq<Path>)
    ensures Reverse(RecordAll(s, recorded).history) == Reverse(s.history) + recorded
    decreases |recorded|
  {
    if |recorded| > 0 {
      var s1 := Add(s, Some(recorded[0]));
      RestoreOrderIsRecordingOrder(s1, recorded[1..]);
      ReverseAppend([recorded[0]], s.history);
      assert Reverse([recorded[0]]) == [recorded[0]];
      assert recorded == [recorded[0]] + recorded[1..];
    }
  }

  /** The manager's history after `add` of each path in turn. */
  function RecordAll(s: Stacks<Path>, recorded: seq<Path>): Stacks<Path>
    decreases |recorded|
  {
    if |recorded| == 0 then s else RecordAll(Add(s, Some(recorded[0])), recorded[1..])
  }
}
