/** The local cursor (`myCursorData`): pointer moves and wheel scrolls append
    to its history, and each produces the position message that is handed to
    the outbound throttle. */
module LocalCursor {
  import opened CursorModel

  /** One wheel event: its deltas and the time it fired. */
  datatype WheelEvent = WheelEvent(dx: real, dy: real, at: int)

  /** The last recorded local position, or the origin when there is none. */
  function LastOrOrigin(ps: seq<Sample>): Point
  {
    if |ps| == 0 then Point(0.0, 0.0) else Point(ps[|ps| - 1].x, ps[|ps| - 1].y)
  }

  /** The position a wheel event moves the local cursor to. */
  function WheelTarget(ps: seq<Sample>, dx: real, dy: real): (r: Point)
    ensures r == Point(LastOrOrigin(ps).left + dx, LastOrOrigin(ps).top + dy)
  {
    var last := if |ps| > 0 then ps[|ps| - 1] else Sample(0.0, 0.0, 0);
    Point(last.x + dx, last.y + dy)
  }

  /** The local history after a series of wheel events. */
  function AfterWheels(ps: seq<Sample>, es: seq<WheelEvent>): (r: seq<Sample>)
    decreases |es|
  {
    if es == [] then ps
    else
      var p := WheelTarget(ps, es[0].dx, es[0].dy);
      AfterWheels(ps + [Sample(p.left, p.top, es[0].at)], es[1..])
  }

  function SumDx(es: seq<WheelEvent>): real
    decreases |es|
  {
    if es == [] then 0.0 else es[0].dx + SumDx(es[1..])
  }

  function SumDy(es: seq<WheelEvent>): real
    decreases |es|
  {
    if es == [] then 0.0 else es[0].dy + SumDy(es[1..])
  }

  /** Scrolling accumulates: after any series of wheel events the local
      cursor sits at its starting point (the origin when nothing was
      recorded) shifted by the sum of all deltas, and every event added one
      sample to the history, which keeps its earlier samples. */
  lemma {:induction false} WheelsAccumulate(ps: seq<Sample>, es: seq<WheelEvent>)
    ensures |AfterWheels(ps, es)| == |ps| + |es|
    ensures AfterWheels(ps, es)[..|ps|] == ps
    ensures LastOrOrigin(AfterWheels(ps, es))
         == Point(LastOrOrigin(ps).left + SumDx(es), LastOrOrigin(ps).top + SumDy(es))
    decreases |es|
  {
    if es != [] {
      var p := WheelTarget(ps, es[0].dx, es[0].dy);
      var ps1 := ps + [Sample(p.left, p.top, es[0].at)];
      WheelsAccumulate(ps1, es[1..]);
      assert AfterWheels(ps, es)[..|ps|] == AfterWheels(ps1, es[1..])[..|ps1|][..|ps|];
    }
  }

  /** A wheel event right after a pointer move to (x, y) lands at
      (x + dx, y + dy). */
  lemma WheelFollowsPointer(ps: seq<Sample>, x: real, y: real, t: int, dx: real, dy: real)
    ensures WheelTarget(ps + [Sample(x, y, t)], dx, dy) == Point(x + dx, y + dy)
  {
  }

  /** The local client's own cursor record. Its history is never trimmed. */
  class LocalCursorData {
    const id: string
    var lastSeen: int
    var positions: seq<Sample>

    constructor (id: string, now: int)
      ensures this.id == id && lastSeen == now && positions == []
    {
      this.id := id;
      lastSeen := now;
      positions := [];
    }

    /** A pointer move to page coordinates (pageX, pageY) at `now`. */
    method OnMouseMove(pageX: real, pageY: real, now: int) returns (sent: Position)
      modifies this
      ensures positions == old(positions) + [Sample(pageX, pageY, now)]
      ensures lastSeen == old(lastSeen)
      ensures sent == Position(id, pageX, pageY)
    {
      positions := positions + [Sample(pageX, pageY, now)];
      sent := Position(id, pageX, pageY);
    }

    /** A wheel event with deltas (dx, dy) at `now`: the cursor moves by the
        deltas from its last recorded position, or from the origin. */
    method OnWheel(dx: real, dy: real, now: int) returns (sent: Position)
      modifies this
      ensures var p := WheelTarget(old(positions), dx, dy);
              && positions == old(positions) + [Sample(p.left, p.top, now)]
              && sent == Position(id, p.left, p.top)
      ensures lastSeen == old(lastSeen)
    {
      var last := if |positions| > 0 then positions[|positions| - 1] else Sample(0.0, 0.0, now);
      var next := Sample(last.x + dx, last.y + dy, now);
      positions := positions + [next];
      sent := Position(id, next.x, next.y);
    }
  }
}
