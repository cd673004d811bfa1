/** Touch input as both views receive it: the event's action and position,
    with the one clock reading taken while the event is handled (the views
    read `System.currentTimeMillis` through `TimedPoint.set`). */
module TouchInput {
  import opened Geometry

  datatype Action = ActionDown | ActionMove | ActionUp | ActionOther

  datatype MotionEvent = MotionEvent(action: Action, x: real, y: real, clock: int)

  /** The sample `getNewPoint` makes for an event. */
  function SampleOf(ev: MotionEvent): (p: TimedPoint)
    ensures p.x == ev.x && p.y == ev.y && p.timestamp == ev.clock
  {
    TimedPoint(ev.x, ev.y, ev.clock)
  }

  function SamplesOf(evs: seq<MotionEvent>): (ps: seq<TimedPoint>)
    ensures |ps| == |evs|
    ensures forall i :: 0 <= i < |evs| ==> ps[i] == SampleOf(evs[i])
  {
    seq(|evs|, i requires 0 <= i < |evs| => SampleOf(evs[i]))
  }

  predicate AllMoves(evs: seq<MotionEvent>)
  {
    forall i :: 0 <= i < |evs| ==> evs[i].action == ActionMove
  }
}
