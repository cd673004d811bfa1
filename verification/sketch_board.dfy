/** `SketchBoard`: a drawing surface that records every stroke as `Trails`
    (the touch positions, most recent first), keeps them in a
    `SketchesManager` for undo and redo, and restores the drawing by
    replaying the kept trails through the same stroke pipeline as the
    current `SignaturePad`. A `drawState` gate refuses undo and redo while a
    restore is still on its way to the screen. */
module SketchBoardView {
  import opened JavaMath
  import opened Geometry
  import opened Smoothing
  import opened StrokeWindow
  import opened StrokeDrawing
  import opened UndoHistory
  import opened StrokeInk
  import opened TouchInput

  /** `TrailNode`: a touch position and the timestamp of its sample. */
  datatype TrailNode = TrailNode(x: real, y: real, timestamp: int)

  function NodeOf(p: TimedPoint): (n: TrailNode)
    ensures n.x == p.x && n.y == p.y && n.timestamp == p.timestamp
  {
    TrailNode(p.x, p.y, p.timestamp)
  }

  function NodePoint(n: TrailNode): (p: TimedPoint)
    ensures NodeOf(p) == n
  {
    TimedPoint(n.x, n.y, n.timestamp)
  }

  predicate SameSpot(a: TrailNode, b: TrailNode)
  {
    a.x == b.x && a.y == b.y
  }

  /** `Trails`: the nodes, most recent first (`addNode` is
      `LinkedList.push`), with the screen orientation and size and the mode
      in force when the stroke began. */
  datatype Trails = Trails(nodes: seq<TrailNode>, orientation: int, screenWidth: int, screenHeight: int, mode: Mode)

  function AddNode(t: Trails, n: TrailNode): (r: Trails)
    ensures r.nodes == [n] + t.nodes && r.(nodes := t.nodes) == t
  {
    t.(nodes := [n] + t.nodes)
  }

  /** `firstNode`: the most recent node, null for no nodes. */
  function FirstNode(t: Trails): (n: Option<TrailNode>)
    ensures n.None? <==> |t.nodes| == 0
  {
    if |t.nodes| == 0 then None else Some(t.nodes[0])
  }

  /** `lastNode`: the oldest node, null for no nodes. */
  function LastNode(t: Trails): (n: Option<TrailNode>)
    ensures n.None? <==> |t.nodes| == 0
  {
    if |t.nodes| == 0 then None else Some(t.nodes[|t.nodes| - 1])
  }

  /** The samples a trail's nodes give when read from the last list index
      to the first, as the replay reads them: the oldest first. */
  function OldestFirst(nodes: seq<TrailNode>): (ps: seq<TimedPoint>)
    ensures |ps| == |nodes|
    ensures forall i :: 0 <= i < |nodes| ==> ps[i] == NodePoint(nodes[|nodes| - 1 - i])
  {
    seq(|nodes|, i requires 0 <= i < |nodes| => NodePoint(nodes[|nodes| - 1 - i]))
  }

  /** The copy loop of `cloneTrails`: from the last list index down to the
      first, each node appended at the end of the copy. */
  function CopyBackwards(nodes: seq<TrailNode>): (r: seq<TrailNode>)
    ensures |r| == |nodes|
    ensures forall i :: 0 <= i < |nodes| ==> r[i] == nodes[|nodes| - 1 - i]
    decreases |nodes|
  {
    if |nodes| == 0 then []
    else [nodes[|nodes| - 1]] + CopyBackwards(nodes[..|nodes| - 1])
  }

  /** `cloneTrails` as written: the copy holds the nodes in the opposite
      order, so its first and last nodes are the original's last and first. */
  function CloneTrails(t: Trails): (c: Trails)
    ensures c.(nodes := t.nodes) == t
    ensures FirstNode(c) == LastNode(t) && LastNode(c) == FirstNode(t)
  {
    t.(nodes := CopyBackwards(t.nodes))
  }

  /** Cloning twice gives the original back. */
  lemma CloneTwice(t: Trails)
    ensures CloneTrails(CloneTrails(t)) == t
  {
    var once := CopyBackwards(t.nodes);
    var twice := CopyBackwards(once);
    assert forall i :: 0 <= i < |t.nodes| ==> twice[i] == t.nodes[i];
  }

  /** A two-node trail whose nodes differ is not equal to its clone. */
  lemma CloneIsNotACopy(t: Trails)
    requires |t.nodes| == 2 && t.nodes[0] != t.nodes[1]
    ensures CloneTrails(t) != t
  {
    assert CloneTrails(t).nodes[0] == t.nodes[1];
  }

  /** The copy `cloneTrails` evidently means to make: the nodes in the same
      order, read from the first list index to the last. */
  function CopyForwards(nodes: seq<TrailNode>): (r: seq<TrailNode>)
    ensures r == nodes
    decreases |nodes|
  {
    if |nodes| == 0 then [] else [nodes[0]] + CopyForwards(nodes[1..])
  }

  function CopyTrails(t: Trails): (c: Trails)
    ensures c == t
  {
    t.(nodes := CopyForwards(t.nodes))
  }

  /** What `validTrailNodes` carries through its loop over the list, from
      index 0 (the most recent node) on: the node it remembers and the two
      flags. */
  datatype NodeScan = NodeScan(remembered: Option<TrailNode>, xChanged: bool, yChanged: bool)

  /** The loop of `validTrailNodes` after the nodes `nodes` (in list order):
      the first node is remembered and never replaced, and each later node
      overwrites both flags with its own comparison against it. */
  function ScanNodes(nodes: seq<TrailNode>): (s: NodeScan)
    ensures |nodes| == 0 <==> s.remembered.None?
    ensures 0 < |nodes| ==> s.remembered == Some(nodes[0])
    ensures |nodes| < 2 ==> !s.xChanged && !s.yChanged
    ensures 2 <= |nodes| ==> s.xChanged == (nodes[|nodes| - 1].x != nodes[0].x) &&
                             s.yChanged == (nodes[|nodes| - 1].y != nodes[0].y)
    decreases |nodes|
  {
    if |nodes| == 0 then NodeScan(None, false, false)
    else
      var s := ScanNodes(nodes[..|nodes| - 1]);
      var node := nodes[|nodes| - 1];
      match s.remembered
      case None => NodeScan(Some(node), s.xChanged, s.yChanged)
      case Some(last) => NodeScan(s.remembered, node.x != last.x, node.y != last.y)
  }

  function ValidTrailNodes(nodes: seq<TrailNode>): bool
  {
    var s := ScanNodes(nodes);
    s.xChanged || s.yChanged
  }

  /** `validTrailNodes` holds exactly when there are at least two nodes and
      the oldest one lies somewhere else than the most recent one: whatever
      happens in between is not looked at. */
  lemma ValidTrailNodesIff(nodes: seq<TrailNode>)
    ensures ValidTrailNodes(nodes) <==> 2 <= |nodes| && !SameSpot(nodes[|nodes| - 1], nodes[0])
  {
  }

  /** A stroke whose last MOVE comes back to where it started is rejected as
      a mere click. The test runs before the UP node is added, so the nodes
      it sees for DOWN (0, 0), MOVE (10, 0), MOVE (0, 0) are these three,
      newest first; where the UP event happens does not matter. */
  lemma ClosedLoopRejected(t0: int, t1: int, t2: int)
    ensures !ValidTrailNodes([TrailNode(0.0, 0.0, t2), TrailNode(10.0, 0.0, t1), TrailNode(0.0, 0.0, t0)])
  {
    ValidTrailNodesIff([TrailNode(0.0, 0.0, t2), TrailNode(10.0, 0.0, t1), TrailNode(0.0, 0.0, t0)]);
  }

  /** The test in `validTrailNodes` evidently means (its comment says it
      checks that the nodes show movement): some node lies elsewhere than
      the most recent one. */
  function Moved(nodes: seq<TrailNode>): (r: bool)
    ensures r <==> exists i :: 0 <= i < |nodes| && !SameSpot(nodes[i], nodes[0])
    decreases |nodes|
  {
    if |nodes| < 2 then false
    else !SameSpot(nodes[|nodes| - 1], nodes[0]) || Moved(nodes[..|nodes| - 1])
  }

  /** The intended check accepts everything the written one accepts, and
      also the stroke that comes back to its start. */
  lemma MovedAcceptsMore(nodes: seq<TrailNode>, t0: int, t1: int, t2: int)
    ensures ValidTrailNodes(nodes) ==> Moved(nodes)
    ensures Moved([TrailNode(0.0, 0.0, t2), TrailNode(10.0, 0.0, t1), TrailNode(0.0, 0.0, t0)])
  {
    ValidTrailNodesIff(nodes);
    if ValidTrailNodes(nodes) {
      assert !SameSpot(nodes[|nodes| - 1], nodes[0]);
    }
    var loop := [TrailNode(0.0, 0.0, t2), TrailNode(10.0, 0.0, t1), TrailNode(0.0, 0.0, t0)];
    assert !SameSpot(loop[1], loop[0]);
  }

  /** A history entry: a recorded stroke, or the `ClearedTrails` marker that
      `clear` leaves on the redo list. The marker is a `Trails` without
      nodes, in DRAW mode, with the screen of the entry that was on top of
      the history, and it refers to the entries it cleared. */
  datatype Entry =
    | Stroke(trails: Trails)
    | Marker(orientation: int, screenWidth: int, screenHeight: int, refs: seq<Entry>)

  /** The entry as the `Trails` it is: a marker is one with no nodes, in
      DRAW mode. */
  function AsTrails(e: Entry): (t: Trails)
    ensures e.Marker? ==> |t.nodes| == 0 && t.mode == Draw
  {
    match e
    case Stroke(t) => t
    case Marker(o, w, h, _) => Trails([], o, w, h, Draw)
  }

  function MarkerFor(top: Entry, refs: seq<Entry>): (m: Entry)
    ensures m.Marker? && m.refs == refs
  {
    match top
    case Stroke(t) => Marker(t.orientation, t.screenWidth, t.screenHeight, refs)
    case Marker(o, w, h, _) => Marker(o, w, h, refs)
  }

  /** `SketchesManager.clear`: every entry popped from the history and
      pushed onto the redo list and onto the marker's references, one at a
      time, then the marker pushed on top of the redo list. Gives the number
      of entries moved. */
  function ClearSketches(s: Stacks<Entry>): (r: (Stacks<Entry>, int))
    ensures |s.history| == 0 ==> r == (s, 0)
    ensures 0 < |s.history| ==>
              r.1 == |s.history| && r.0.history == [] &&
              r.0.retained == [MarkerFor(s.history[0], Reverse(s.history))] + Reverse(s.history) + s.retained
  {
    var n := |s.history|;
    if n == 0 then (s, 0)
    else
      var moved := Transfer(s.history, s.retained, n);
      var refs := Transfer(s.history, [], n).1;
      PrefixAll(s.history);
      (Stacks(moved.0, [MarkerFor(s.history[0], refs)] + moved.1), n)
  }

  lemma PrefixAll<T>(s: seq<T>)
    ensures s[..|s|] == s && s[|s|..] == [] && Reverse(s) + [] == Reverse(s)
  {
  }

  /** The part of `buildSketch` that picks what to replay: nothing for an
      empty history; the marker's references, with the marker popped, when
      a marker is on top; the history itself otherwise. */
  function ReplaySource(s: Stacks<Entry>): (r: (Stacks<Entry>, seq<Entry>))
    ensures r.0.retained == s.retained
    ensures 0 < |s.history| && s.history[0].Marker? ==> r.0.history == s.history[1..] && r.1 == s.history[0].refs
    ensures !(0 < |s.history| && s.history[0].Marker?) ==> r.0 == s && r.1 == s.history
  {
    if |s.history| == 0 then (s, [])
    else
      match s.history[0]
      case Marker(_, _, _, refs) => (Stacks(s.history[1..], s.retained), refs)
      case Stroke(_) => (s, s.history)
  }

  /** After `clear`, a single redo brings the marker back, and restoring
      then replays the cleared entries and leaves the history empty again,
      with every cleared entry still on the redo list. */
  lemma ClearThenRedoReplaysCleared(s: Stacks<Entry>)
    requires 0 < |s.history|
    ensures var back := Redo(ClearSketches(s).0, 1).0;
      ReplaySource(back) == (Stacks([], Reverse(s.history) + s.retained), Reverse(s.history))
  {
    var cleared := ClearSketches(s).0;
    assert cleared.retained[..1] == [MarkerFor(s.history[0], Reverse(s.history))];
    assert cleared.retained[1..] == Reverse(s.history) + s.retained;
  }

  /** An entry the drawer can replay: a stroke with at least one node. For
      anything else `firstNode()` is null and reading its position throws. */
  predicate Drawable(e: Entry)
  {
    e.Stroke? && 0 < |e.trails.nodes|
  }

  /** The order in which `TrailsDrawer` replays `data`: from its last index
      down to its first. `None` when it meets an entry it cannot draw. */
  function DrawOrder(data: seq<Entry>): (r: Option<seq<Trails>>)
    ensures r.Some? <==> forall i :: 0 <= i < |data| ==> Drawable(data[i])
    ensures r.Some? ==> r.value == TrailsOf(Reverse(data))
    decreases |data|
  {
    if |data| == 0 then Some([])
    else
      var last := data[|data| - 1];
      if !Drawable(last) then None
      else
        match DrawOrder(data[..|data| - 1])
        case None => None
        case Some(rest) =>
          ReverseAppend(data[..|data| - 1], [last]);
          assert data[..|data| - 1] + [last] == data;
          Some([last.trails] + rest)
  }

  function TrailsOf(es: seq<Entry>): (ts: seq<Trails>)
    ensures |ts| == |es| && forall i :: 0 <= i < |es| ==> ts[i] == AsTrails(es[i])
  {
    seq(|es|, i requires 0 <= i < |es| => AsTrails(es[i]))
  }

  /** Restoring the history replays the strokes in the order they were
      recorded, the oldest first. */
  lemma HistoryReplaysOldestFirst(s: Stacks<Entry>, j: int)
    requires forall i :: 0 <= i < |s.history| ==> Drawable(s.history[i])
    requires 0 <= j < |s.history|
    ensures DrawOrder(s.history).Some?
    ensures DrawOrder(s.history).value[j] == AsTrails(s.history[|s.history| - 1 - j])
  {
  }

  /** Restoring what a `clear` removed replays the same strokes newest
      first, the reverse of the order they were recorded in: the marker's
      references are pushed, so they are already oldest first, and the
      drawer reverses them once more. */
  lemma ClearedReplayNewestFirst(s: Stacks<Entry>)
    requires 0 < |s.history|
    requires forall i :: 0 <= i < |s.history| ==> Drawable(s.history[i])
    ensures var back := Redo(ClearSketches(s).0, 1).0;
      DrawOrder(ReplaySource(back).1) == Some(TrailsOf(s.history))
  {
    ClearThenRedoReplaysCleared(s);
    DrawOrderOfReversed(s.history);
  }

  /** The drawer replays a reversed list in the list's own order. */
  lemma DrawOrderOfReversed(h: seq<Entry>)
    requires forall i :: 0 <= i < |h| ==> Drawable(h[i])
    ensures DrawOrder(Reverse(h)) == Some(TrailsOf(h))
  {
    var refs := Reverse(h);
    DrawableReversed(h);
    ReverseReverse(h);
    assert DrawOrder(refs).Some?;
  }

  lemma DrawableReversed(h: seq<Entry>)
    requires forall i :: 0 <= i < |h| ==> Drawable(h[i])
    ensures forall i :: 0 <= i < |Reverse(h)| ==> Drawable(Reverse(h)[i])
  {
    var refs := Reverse(h);
    forall i | 0 <= i < |refs|
      ensures Drawable(refs[i])
    {
      assert refs[i] == h[|h| - 1 - i];
    }
  }

  /** With a pen stroke `a` and, after it, an eraser stroke `b` over it, the
      restore after `clear` and `redo(1)` replays the eraser first and the
      pen stroke over it, while the drawing showed `a` erased by `b`. */
  lemma EraseLostAfterClearRedo(a: Trails, b: Trails)
    requires 0 < |a.nodes| && 0 < |b.nodes| && a.mode == Draw && b.mode == Erase
    ensures DrawOrder([Stroke(b), Stroke(a)]) == Some([a, b])
    ensures var back := Redo(ClearSketches(Stacks([Stroke(b), Stroke(a)], [])).0, 1).0;
      DrawOrder(ReplaySource(back).1) == Some([b, a])
  {
    var h := [Stroke(b), Stroke(a)];
    ClearedReplayNewestFirst(Stacks(h, []));
    assert TrailsOf(h) == [b, a];
    assert Reverse(h) == [Stroke(a), Stroke(b)] by {
      assert Reverse(h)[0] == h[1];
    }
    assert TrailsOf(Reverse(h)) == [a, b];
  }

  /** `clear` as it evidently means to work: the marker refers to the
      cleared entries in history order, so the drawer replays them oldest
      first, as it replays the history itself. */
  function ClearSketchesInOrder(s: Stacks<Entry>): (r: (Stacks<Entry>, int))
    ensures r.1 == |s.history|
    ensures |s.history| == 0 ==> r.0 == s
    ensures 0 < |s.history| ==>
              r.0.history == [] && 0 < |r.0.retained| && r.0.retained[0].Marker? &&
              r.0.retained[1..] == Reverse(s.history) + s.retained
  {
    var n := |s.history|;
    if n == 0 then (s, 0)
    else
      var moved := Transfer(s.history, s.retained, n);
      PrefixAll(s.history);
      (Stacks(moved.0, [MarkerFor(s.history[0], s.history)] + moved.1), n)
  }

  /** With the corrected marker, restoring after `clear` and `redo(1)`
      replays exactly what restoring the history before the clear would
      have replayed. */
  lemma ClearInOrderRestoresOrder(s: Stacks<Entry>)
    requires 0 < |s.history|
    ensures var back := Redo(ClearSketchesInOrder(s).0, 1).0;
      DrawOrder(ReplaySource(back).1) == DrawOrder(s.history)
  {
    var cleared := ClearSketchesInOrder(s).0;
    assert cleared.retained[..1] == [MarkerFor(s.history[0], s.history)];
  }

  /** `redo(2)` right after clearing a single stroke brings back both the
      marker and the stroke, and the history to replay then holds the
      marker, which the drawer cannot replay. */
  lemma RedoPastMarkerFails(t: Trails)
    requires 0 < |t.nodes|
    ensures var back := Redo(ClearSketches(Stacks([Stroke(t)], [])).0, 2).0;
      back.history[0] == Stroke(t) && back.history[1].Marker? &&
      DrawOrder(ReplaySource(back).1).None?
  {
    var s := Stacks([Stroke(t)], []);
    var cleared := ClearSketches(s).0;
    assert Reverse(s.history) == [Stroke(t)];
    assert cleared.retained[..2] == [MarkerFor(Stroke(t), [Stroke(t)]), Stroke(t)];
    var back := Redo(cleared, 2).0;
    assert !Drawable(back.history[1]);
  }

  /** The replay a drawer that steps over markers would make: the strokes
      of `data`, from its last index down to its first. */
  function StrokesToReplay(data: seq<Entry>): (ts: seq<Trails>)
    ensures |ts| <= |data|
    ensures forall t :: t in ts ==> Stroke(t) in data
    decreases |data|
  {
    if |data| == 0 then []
    else
      var last := data[|data| - 1];
      var rest := StrokesToReplay(data[..|data| - 1]);
      if Drawable(last) then [last.trails] + rest else rest
  }

  /** Where the drawer as written succeeds, stepping over markers changes
      nothing; and after `clear` and `redo(2)` it replays the stroke where
      the drawer as written fails. */
  lemma {:induction false} StrokesToReplayAgrees(data: seq<Entry>)
    requires DrawOrder(data).Some?
    ensures StrokesToReplay(data) == DrawOrder(data).value
    decreases |data|
  {
    if |data| > 0 {
      StrokesToReplayAgrees(data[..|data| - 1]);
    }
  }

  lemma RedoPastMarkerReplaysStroke(t: Trails)
    requires 0 < |t.nodes|
    ensures var back := Redo(ClearSketches(Stacks([Stroke(t)], [])).0, 2).0;
      StrokesToReplay(ReplaySource(back).1) == [t]
  {
    RedoPastMarkerFails(t);
    var back := Redo(ClearSketches(Stacks([Stroke(t)], [])).0, 2).0;
    var data := ReplaySource(back).1;
    assert data == back.history && |data| == 2;
    assert data[..1] == [Stroke(t)];
    assert StrokesToReplay(data[..0]) == [];
  }

  /** `drawState`: AVAILABLE (0), UNDO (1) or REDO (2). */
  datatype DrawState = Available | Undoing | Redoing

  /** The view's orientation and size, as new trails record them. */
  datatype Screen = Screen(orientation: int, width: int, height: int)

  /** The board: its pen settings and mode, the screen, the ink, the trails
      of the stroke in progress, the manager's lists, the gate, the clock
      reading of the last accepted `end` (`mLastBeginTimestamp`), and how
      many double-click notifications a listener would have received. */
  datatype Board = Board(
    cfg: PenConfig, mode: Mode, screen: Screen, ink: Ink, trails: Option<Trails>,
    sketches: Stacks<Entry>, drawState: DrawState, lastEnd: int, doubleClicks: nat)

  predicate Ready(b: Board)
  {
    InkReady(b.cfg, b.ink)
  }

  /** `clear`: pen reset, window and SVG emptied, bitmap blank, the
      manager's history cleared behind a marker, and the gate opened. The
      stroke in progress is kept. */
  function Clear(b: Board): (r: Board)
    ensures ValidPenConfig(b.cfg) ==> Ready(r)
    ensures r.ink == ClearedInk(b.cfg, b.ink) && r.drawState == Available
    ensures r.sketches == ClearSketches(b.sketches).0
    ensures r.(ink := b.ink, sketches := b.sketches, drawState := b.drawState) == b
  {
    b.(ink := ClearedInk(b.cfg, b.ink), sketches := ClearSketches(b.sketches).0, drawState := Available)
  }

  /** `addPoint` on the board, in its current mode: the shared
      `StrokeInk.AddSample` framed within the board, as
      `SignaturePadView.AddSample` frames it within the view. */
  ghost function AddSample(b: Board, p: TimedPoint, clock: int): (r: Board)
    requires Ready(b)
    ensures Ready(r)
    ensures r.ink.window == AddPoint(b.ink.window, p, clock).0
    ensures r.(ink := b.ink) == b
  {
    b.(ink := StrokeInk.AddSample(b.cfg, b.mode, b.ink, p, clock))
  }

  /** The trails `begin` adds to: the ones in progress, or new ones for the
      current screen and mode. */
  function OpenTrails(b: Board): (t: Trails)
    ensures b.trails.None? ==> |t.nodes| == 0 && t.mode == b.mode
  {
    match b.trails
    case None => Trails([], b.screen.orientation, b.screen.width, b.screen.height, b.mode)
    case Some(t) => t
  }

  /** `begin`: window emptied, gate opened, the DOWN sample fed (so the
      window holds it twice), and its node added to the trails. */
  ghost function Begin(b: Board, ev: MotionEvent): (r: Board)
    requires Ready(b)
    ensures Ready(r) && r.drawState == Available
    ensures r.ink.window == [SampleOf(ev), SampleOf(ev)]
    ensures r.trails == Some(AddNode(OpenTrails(b), NodeOf(SampleOf(ev))))
    ensures r.sketches == b.sketches && r.mode == b.mode
  {
    var p := SampleOf(ev);
    var fed := AddSample(b.(ink := b.ink.(window := []), drawState := Available), p, ev.clock);
    fed.(trails := Some(AddNode(OpenTrails(b), NodeOf(p))))
  }

  /** The trail bookkeeping of `moveTo` for the node `n`: with trails in
      progress the node is always added, and the sample is fed unless it
      lies on the most recent node; without trails the sample is fed and
      nothing recorded. Gives the trails and whether the sample is fed. */
  function RecordMove(t: Option<Trails>, n: TrailNode): (r: (Option<Trails>, bool))
    ensures t.Some? && 0 < |t.value.nodes| ==>
              r.0 == Some(AddNode(t.value, n)) && (r.1 <==> !SameSpot(t.value.nodes[0], n))
    ensures !(t.Some? && 0 < |t.value.nodes|) ==> r == (t, true)
  {
    match t
    case Some(trails) =>
      if |trails.nodes| == 0 then (t, true)
      else (Some(AddNode(trails, n)), !SameSpot(trails.nodes[0], n))
    case None => (t, true)
  }

  /** `moveTo`. */
  ghost function MoveTo(b: Board, ev: MotionEvent): (r: Board)
    requires Ready(b)
    ensures Ready(r)
    ensures var step := RecordMove(b.trails, NodeOf(SampleOf(ev)));
      r.trails == step.0 &&
      (step.1 ==> r.ink.window == AddPoint(b.ink.window, SampleOf(ev), ev.clock).0) &&
      (!step.1 ==> r.ink == b.ink)
    ensures r.sketches == b.sketches && r.drawState == b.drawState && r.mode == b.mode
  {
    var p := SampleOf(ev);
    var step := RecordMove(b.trails, NodeOf(p));
    var recorded := b.(trails := step.0);
    if step.1 then AddSample(recorded, p, ev.clock) else recorded
  }

  const DoubleClickMs: int := 200

  /** The double-click test of `end`: an earlier accepted `end` less than
      200 ms before. */
  predicate QuickEnd(lastEnd: int, now: int)
  {
    lastEnd != 0 && now - lastEnd < DoubleClickMs
  }

  /** `end`: a quick second `end` is a double click, which drops the trails
      and calls the listener. Otherwise the clock is remembered; trails that
      fail `validTrailNodes` are dropped with the window; valid ones get the
      UP sample fed and its node added, and go to the manager's history. */
  ghost function End(b: Board, ev: MotionEvent): (r: Board)
    requires Ready(b)
    ensures Ready(r) && r.trails.None? && r.drawState == b.drawState && r.mode == b.mode
    ensures QuickEnd(b.lastEnd, ev.clock) ==> r == b.(trails := None, doubleClicks := b.doubleClicks + 1)
    ensures !QuickEnd(b.lastEnd, ev.clock) ==> r.lastEnd == ev.clock && r.doubleClicks == b.doubleClicks
    ensures !QuickEnd(b.lastEnd, ev.clock) && b.trails.Some? && ValidTrailNodes(b.trails.value.nodes) ==>
              r.sketches == Add(b.sketches, Some(Stroke(AddNode(b.trails.value, NodeOf(SampleOf(ev)))))) &&
              r.ink.window == AddPoint(b.ink.window, SampleOf(ev), ev.clock).0
    ensures !QuickEnd(b.lastEnd, ev.clock) && b.trails.Some? && !ValidTrailNodes(b.trails.value.nodes) ==>
              r.sketches == b.sketches && r.ink == b.ink.(window := [])
    ensures b.trails.None? ==> r.sketches == b.sketches && r.ink == b.ink
  {
    if QuickEnd(b.lastEnd, ev.clock) then
      b.(trails := None, doubleClicks := b.doubleClicks + 1)
    else
      var timed := b.(lastEnd := ev.clock);
      match b.trails
      case None => timed
      case Some(t) =>
        if !ValidTrailNodes(t.nodes) then
          timed.(trails := None, ink := b.ink.(window := []))
        else
          var p := SampleOf(ev);
          var fed := AddSample(timed, p, ev.clock);
          fed.(trails := None, sketches := Add(b.sketches, Some(Stroke(AddNode(t, NodeOf(p))))))
  }

  /** The trails and the samples fed by a run of `moveTo` calls on trails
      in progress. */
  function RecordMoves(t: Trails, moves: seq<MotionEvent>): (r: (Trails, seq<TimedPoint>))
    requires 0 < |t.nodes|
    decreases |moves|
  {
    if |moves| == 0 then (t, [])
    else
      var step := RecordMove(Some(t), NodeOf(SampleOf(moves[0])));
      var rest := RecordMoves(step.0.value, moves[1..]);
      (rest.0, (if step.1 then [SampleOf(moves[0])] else []) + rest.1)
  }

  /** No MOVE lands on the position of the event before it. */
  predicate NoRepeats(start: TrailNode, moves: seq<MotionEvent>)
  {
    (0 < |moves| ==> !SameSpot(start, NodeOf(SampleOf(moves[0])))) &&
    forall i :: 0 < i < |moves| ==> !SameSpot(NodeOf(SampleOf(moves[i - 1])), NodeOf(SampleOf(moves[i])))
  }

  /** A run of MOVE events records one node per event, the last on top,
      and feeds every sample when no event repeats the position before it. */
  lemma {:induction false} RecordMovesNodes(t: Trails, moves: seq<MotionEvent>)
    requires 0 < |t.nodes|
    ensures var r := RecordMoves(t, moves);
      r.0.(nodes := t.nodes) == t &&
      |r.0.nodes| == |t.nodes| + |moves| && r.0.nodes[|moves|..] == t.nodes &&
      (forall i :: 0 <= i < |moves| ==> r.0.nodes[i] == NodeOf(SampleOf(moves[|moves| - 1 - i]))) &&
      (NoRepeats(t.nodes[0], moves) ==> r.1 == SamplesOf(moves))
    decreases |moves|
  {
    if |moves| > 0 {
      var n := NodeOf(SampleOf(moves[0]));
      var t1 := AddNode(t, n);
      RecordMovesNodes(t1, moves[1..]);
      var r := RecordMoves(t, moves);
      var rest := RecordMoves(t1, moves[1..]);
      assert r.0 == rest.0;
      assert rest.0.nodes[|moves| - 1..] == t1.nodes;
      assert rest.0.nodes[|moves|..] == t1.nodes[1..];
      if NoRepeats(t.nodes[0], moves) {
        assert NoRepeats(t1.nodes[0], moves[1..]);
        assert SamplesOf(moves) == [SampleOf(moves[0])] + SamplesOf(moves[1..]);
      }
    }
  }

  /** A stroke DOWN, MOVE..., UP that `end` accepts is replayed from the
      samples of all its events in order; when no MOVE repeats the position
      before it, those are exactly the samples the live stroke fed. A MOVE
      that repeats a position is recorded but was not fed live. */
  lemma StrokeReplaysLive(start: Trails, down: MotionEvent, moves: seq<MotionEvent>, up: MotionEvent)
    requires |start.nodes| == 0
    ensures var t0 := AddNode(start, NodeOf(SampleOf(down)));
      var rec := RecordMoves(t0, moves);
      var recorded := AddNode(rec.0, NodeOf(SampleOf(up)));
      OldestFirst(recorded.nodes) == [SampleOf(down)] + SamplesOf(moves) + [SampleOf(up)] &&
      (NoRepeats(NodeOf(SampleOf(down)), moves) ==> [SampleOf(down)] + rec.1 + [SampleOf(up)] == OldestFirst(recorded.nodes))
  {
    var t0 := AddNode(start, NodeOf(SampleOf(down)));
    RecordMovesNodes(t0, moves);
    var rec := RecordMoves(t0, moves);
    var recorded := AddNode(rec.0, NodeOf(SampleOf(up)));
    var replay := OldestFirst(recorded.nodes);
    var live := [SampleOf(down)] + SamplesOf(moves) + [SampleOf(up)];
    var n := |recorded.nodes|;
    assert n == |moves| + 2;
    forall i | 0 <= i < |live|
      ensures replay[i] == live[i]
    {
      if i == 0 {
        assert recorded.nodes[n - 1] == rec.0.nodes[n - 2] == t0.nodes[0];
      } else if i < |live| - 1 {
        assert recorded.nodes[n - 1 - i] == rec.0.nodes[n - 2 - i];
      }
    }
  }

  /** The replay of one trail's strokes by `TrailsDrawer`, each with its
      own mode, from an emptied window that is emptied again after it; the
      pen carries over from stroke to stroke. `clock` stamps the new points
      made on the way. */
  ghost function ReplayTrails(b: Board, ts: seq<Trails>, clock: int): (r: Board)
    requires Ready(b)
    ensures Ready(r)
    ensures r.(ink := b.ink, mode := b.mode) == b
    ensures 0 < |ts| ==> r.ink.window == []
    decreases |ts|
  {
    if |ts| == 0 then b
    else
      var t := ts[0];
      var fed := AddSamples(b.cfg, t.mode, b.ink.(window := []), OldestFirst(t.nodes), clock);
      ReplayTrails(b.(ink := fed.(window := []), mode := t.mode), ts[1..], clock)
  }

  /** Replaying a run of trails is replaying its first part, then the rest
      from the board that left. */
  lemma {:induction false} ReplayTrailsAppend(b: Board, ts1: seq<Trails>, ts2: seq<Trails>, clock: int)
    requires Ready(b)
    ensures ReplayTrails(b, ts1 + ts2, clock) == ReplayTrails(ReplayTrails(b, ts1, clock), ts2, clock)
    decreases |ts1|
  {
    if |ts1| == 0 {
      assert ts1 + ts2 == ts2;
    } else {
      var t := ts1[0];
      var b1 := ReplayTrails(b, [t], clock);
      var fed := AddSamples(b.cfg, t.mode, b.ink.(window := []), OldestFirst(t.nodes), clock);
      assert [t][1..] == [];
      assert b1 == ReplayTrails(b.(ink := fed.(window := []), mode := t.mode), [], clock);
      assert (ts1 + ts2)[0] == t && (ts1 + ts2)[1..] == ts1[1..] + ts2;
      assert ReplayTrails(b, ts1 + ts2, clock) == ReplayTrails(b1, ts1[1..] + ts2, clock);
      assert ReplayTrails(b, ts1, clock) == ReplayTrails(b1, ts1[1..], clock);
      ReplayTrailsAppend(b1, ts1[1..], ts2, clock);
    }
  }

  /** The drawing of trails one after another, each from the samples of its
      nodes oldest first and in its own mode, the pen carrying over from one
      trail to the next. */
  ghost function DrawTrails(pc: PenConfig, pen: Pen, ts: seq<Trails>, clock: int): (r: (Pen, seq<Segment>))
    requires ValidPenConfig(pc) && PenInRange(pc, pen)
    ensures PenInRange(pc, r.0)
    decreases |ts|
  {
    if |ts| == 0 then (pen, [])
    else
      var d := DrawQuads(pc, ts[0].mode, pen, Feed(OldestFirst(ts[0].nodes), clock).1, clock);
      var rest := DrawTrails(pc, d.0, ts[1..], clock);
      (rest.0, d.1 + rest.1)
  }

  /** Replaying trails draws exactly their strokes, one after another, and
      appends the same curves with their mean widths to the SVG builder. */
  lemma {:induction false} ReplayTrailsDraws(b: Board, ts: seq<Trails>, clock: int)
    requires Ready(b)
    ensures var d := DrawTrails(b.cfg, b.ink.pen, ts, clock);
      var r := ReplayTrails(b, ts, clock);
      r.ink.drawn == b.ink.drawn + d.1 && r.ink.pen == d.0 && r.ink.svg == SvgOfSegments(b.ink.svg, d.1)
    decreases |ts|
  {
    if |ts| == 0 {
      assert b.ink.drawn + [] == b.ink.drawn;
    } else {
      var t := ts[0];
      var b1 := ReplayTrails(b, [t], clock);
      ReplayOneDrawsStroke(b, t, clock);
      assert [t] + ts[1..] == ts;
      ReplayTrailsAppend(b, [t], ts[1..], clock);
      ReplayTrailsDraws(b1, ts[1..], clock);
      var d := DrawQuads(b.cfg, t.mode, b.ink.pen, Feed(OldestFirst(t.nodes), clock).1, clock);
      var rest := DrawTrails(b.cfg, d.0, ts[1..], clock);
      Associative(b.ink.drawn, d.1, rest.1);
      SvgOfSegmentsAppend(b.ink.svg, d.1, rest.1);
    }
  }

  /** Replaying one trail draws exactly its stroke: the quads of its
      samples, oldest first, in the trail's own mode, from the pen the board
      had; and the SVG builder receives those curves with their mean widths. */
  lemma ReplayOneDrawsStroke(b: Board, t: Trails, clock: int)
    requires Ready(b)
    ensures var d := DrawQuads(b.cfg, t.mode, b.ink.pen, Feed(OldestFirst(t.nodes), clock).1, clock);
      ReplayTrails(b, [t], clock).ink.drawn == b.ink.drawn + d.1 &&
      ReplayTrails(b, [t], clock).ink.pen == d.0 &&
      ReplayTrails(b, [t], clock).ink.svg == SvgOfSegments(b.ink.svg, d.1)
  {
    var emptied := b.ink.(window := []);
    AddSamplesDrawsStroke(b.cfg, t.mode, emptied, OldestFirst(t.nodes), clock);
    var fed := AddSamples(b.cfg, t.mode, emptied, OldestFirst(t.nodes), clock);
    var b1 := b.(ink := fed.(window := []), mode := t.mode);
    assert [t][1..] == [];
    assert ReplayTrails(b, [t], clock) == ReplayTrails(b1, [], clock);
  }

  /** `buildSketch` with its drawer run to the end: the bitmap blanked, the
      source picked (popping a marker on top), the trails replayed, and the
      mode put back. `None` is the drawer's null dereference. */
  ghost function BuildSketch(b: Board, clock: int): (r: Option<Board>)
    requires Ready(b)
    ensures r.None? <==> DrawOrder(ReplaySource(b.sketches).1).None?
    ensures r.Some? ==> Ready(r.value) && r.value.sketches == ReplaySource(b.sketches).0
    ensures r.Some? ==> r.value.mode == b.mode && r.value.drawState == b.drawState && r.value.trails == b.trails
    ensures r.Some? ==> var d := DrawTrails(b.cfg, b.ink.pen, DrawOrder(ReplaySource(b.sketches).1).value, clock);
      r.value.ink.drawn == d.1 && r.value.ink.pen == d.0 && r.value.ink.svg == SvgOfSegments(b.ink.svg, d.1)
    ensures r.Some? ==> |b.ink.svg.buffer| <= |r.value.ink.svg.buffer| &&
                        r.value.ink.svg.buffer[..|b.ink.svg.buffer|] == b.ink.svg.buffer
    ensures r.Some? && |b.sketches.history| == 0 ==> r.value.ink.drawn == []
  {
    var blank := b.(ink := b.ink.(drawn := []));
    var src := ReplaySource(b.sketches);
    match DrawOrder(src.1)
    case None => None
    case Some(ts) =>
      ReplayTrailsDraws(blank.(sketches := src.0), ts, clock);
      assert [] + DrawTrails(b.cfg, b.ink.pen, ts, clock).1 == DrawTrails(b.cfg, b.ink.pen, ts, clock).1;
      SvgOfSegmentsExtends(b.ink.svg, DrawTrails(b.cfg, b.ink.pen, ts, clock).1);
      Some(ReplayTrails(blank.(sketches := src.0), ts, clock).(mode := b.mode))
  }

  /** As written, `buildSketch` blanks the bitmap but not the SVG builder:
      after undoing every stroke nothing is drawn, yet the SVG still holds
      every curve written before, so the exported signature keeps the
      undone strokes. */
  lemma UndoAllKeepsSvg(b: Board, clock: int)
    requires Ready(b) && b.drawState == Available && 0 < |b.sketches.history|
    ensures var r := UndoSketch(b, |b.sketches.history|, clock);
      r.Some? && r.value.ink.drawn == [] && r.value.ink.svg == b.ink.svg
  {
    var undone := UndoHistory.Undo(b.sketches, |b.sketches.history|).0;
    assert undone.history == [];
    var b1 := b.(drawState := Undoing, sketches := undone);
    assert ReplaySource(undone).1 == [];
    assert DrawOrder([]) == Some([]);
    assert DrawTrails(b.cfg, b.ink.pen, [], clock).1 == [];
  }

  /** `buildSketch` as evidently intended: the SVG builder is cleared along
      with the bitmap, so that afterwards it holds exactly the curves that
      were redrawn, in drawing order. */
  ghost function BuildSketchFixed(b: Board, clock: int): (r: Option<Board>)
    requires Ready(b)
    ensures r.Some? <==> BuildSketch(b, clock).Some?
    ensures r.Some? ==> r.value.ink.drawn == BuildSketch(b, clock).value.ink.drawn &&
                        r.value.sketches == BuildSketch(b, clock).value.sketches
    ensures r.Some? ==> r.value.ink.svg == SvgOfSegments(SvgDocument.Empty(), r.value.ink.drawn)
  {
    BuildSketch(b.(ink := b.ink.(svg := SvgDocument.Clear(b.ink.svg))), clock)
  }

  /** `undo(steps)`: refused while a restore is pending or with nothing to
      undo; otherwise the gate closes on UNDO, `steps` entries move to the
      redo list, and the sketch is rebuilt. */
  ghost function UndoSketch(b: Board, steps: int, clock: int): (r: Option<Board>)
    requires Ready(b)
    ensures b.drawState != Available || |b.sketches.history| == 0 ==> r == Some(b)
    ensures b.drawState == Available && 0 < |b.sketches.history| && r.Some? ==>
              r.value.drawState == Undoing &&
              r.value.sketches == ReplaySource(UndoHistory.Undo(b.sketches, steps).0).0
    ensures r.Some? ==> Ready(r.value)
  {
    if b.drawState != Available || |b.sketches.history| == 0 then Some(b)
    else BuildSketch(b.(drawState := Undoing, sketches := UndoHistory.Undo(b.sketches, steps).0), clock)
  }

  /** `redo(steps)`: the mirror image over the redo list, closing the gate
      on REDO. */
  ghost function RedoSketch(b: Board, steps: int, clock: int): (r: Option<Board>)
    requires Ready(b)
    ensures b.drawState != Available || |b.sketches.retained| == 0 ==> r == Some(b)
    ensures b.drawState == Available && 0 < |b.sketches.retained| && r.Some? ==>
              r.value.drawState == Redoing &&
              r.value.sketches == ReplaySource(UndoHistory.Redo(b.sketches, steps).0).0
    ensures r.Some? ==> Ready(r.value)
  {
    if b.drawState != Available || |b.sketches.retained| == 0 then Some(b)
    else BuildSketch(b.(drawState := Redoing, sketches := UndoHistory.Redo(b.sketches, steps).0), clock)
  }

  /** `draw`: whatever was composited, the gate opens again. */
  function DrawOnCanvas(b: Board): (r: Board)
    ensures r.drawState == Available && r.(drawState := b.drawState) == b
  {
    b.(drawState := Available)
  }

  /** `clearHistories`. */
  function ClearHistories(b: Board): (r: Board)
    ensures r.sketches.history == [] && r.sketches.retained == []
    ensures r.(sketches := b.sketches) == b
  {
    b.(sketches := Destroy(b.sketches))
  }

  /** The gate: once an undo is accepted, neither undo nor redo is until the
      next `draw`; after it, an undo is accepted again when there is
      something to undo. */
  lemma GateHoldsUntilDraw(b: Board, k: int, j: int, clock: int)
    requires Ready(b) && b.drawState == Available && 0 < |b.sketches.history|
    requires UndoSketch(b, k, clock).Some?
    ensures var u := UndoSketch(b, k, clock).value;
      u.drawState == Undoing && UndoSketch(u, j, clock) == Some(u) && RedoSketch(u, j, clock) == Some(u) &&
      DrawOnCanvas(u).drawState == Available
  {
  }

  predicate AllDrawable(es: seq<Entry>)
  {
    forall i :: 0 <= i < |es| ==> Drawable(es[i])
  }

  /** Without markers in play, undoing `k` strokes, letting the view draw,
      and redoing `k` gives back the manager's lists exactly. */
  lemma UndoDrawRedo(b: Board, k: int, clock: int)
    requires Ready(b) && b.drawState == Available
    requires 1 <= k <= |b.sketches.history|
    requires AllDrawable(b.sketches.history) && AllDrawable(b.sketches.retained)
    ensures UndoSketch(b, k, clock).Some?
    ensures var u := DrawOnCanvas(UndoSketch(b, k, clock).value);
      RedoSketch(u, k, clock).Some? && RedoSketch(u, k, clock).value.sketches == b.sketches
  {
    var moved := UndoHistory.Undo(b.sketches, k).0;
    UndoThenRedo(b.sketches, k);
    assert moved.history == b.sketches.history[k..];
    if 0 < |moved.history| {
      assert moved.history[0] == b.sketches.history[k];
    }
    assert AllDrawable(moved.history) by {
      assert forall i :: 0 <= i < |moved.history| ==> moved.history[i] == b.sketches.history[k + i];
    }
    var u := DrawOnCanvas(UndoSketch(b, k, clock).value);
    assert u.sketches == moved;
    var back := UndoHistory.Redo(moved, k).0;
    assert back == b.sketches;
  }
}
