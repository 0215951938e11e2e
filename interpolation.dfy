/** Look-back interpolation: a remote cursor is drawn where it was
    `RenderDelayMs` ago, linearly between the two samples that bracket that
    moment. */
module Interpolation {
  import opened CursorModel

  /** The moment a frame drawn at `now` depicts. */
  function VirtualTime(now: int): int
  {
    now - RenderDelayMs
  }

  /** Index of the newest sample stamped at or before `v`, which is the
      first hit of a scan from the end of the history. */
  function LatestAtOrBefore(ps: seq<Sample>, v: int): (r: Option<nat>)
    ensures r.Some? ==> r.value < |ps| && ps[r.value].timestamp <= v
    ensures r.Some? ==> forall j :: r.value < j < |ps| ==> ps[j].timestamp > v
    ensures r.None? <==> forall j :: 0 <= j < |ps| ==> ps[j].timestamp > v
    decreases |ps|
  {
    if |ps| == 0 then None
    else if ps[|ps| - 1].timestamp <= v then Some(|ps| - 1)
    else LatestAtOrBefore(ps[..|ps| - 1], v)
  }

  /** How far `v` lies along the way from `prev` to `next`. */
  function Fraction(prev: Sample, next: Sample, v: int): (t: real)
    requires prev.timestamp <= v < next.timestamp
    ensures 0.0 <= t < 1.0
  {
    var span := (next.timestamp - prev.timestamp) as real;
    var done := (v - prev.timestamp) as real;
    assert done < span;
    FractionBelowOne(done, span);
    done / span
  }

  lemma FractionBelowOne(done: real, span: real)
    requires 0.0 <= done < span
    ensures 0.0 <= done / span < 1.0
  {
    assert done / span * span == done;
  }

  function Lerp(a: real, b: real, t: real): real
  {
    a + (b - a) * t
  }

  function Min(a: real, b: real): real { if a <= b then a else b }
  function Max(a: real, b: real): real { if a <= b then b else a }

  /** The position a peer's marker is given in a frame drawn at `now`. */
  function RenderPosition(ps: seq<Sample>, now: int): Point
  {
    var v := VirtualTime(now);
    match LatestAtOrBefore(ps, v)
    case None => Point(0.0, 0.0)
    case Some(i) =>
      if i + 1 < |ps| then
        var t := Fraction(ps[i], ps[i + 1], v);
        Point(Lerp(ps[i].x, ps[i + 1].x, t), Lerp(ps[i].y, ps[i + 1].y, t))
      else
        Point(ps[i].x, ps[i].y)
  }

  /** One cursor's share of the animation frame: scan backwards for the
      bracketing samples, then interpolate between them. */
  method InterpolateCursor(ps: seq<Sample>, now: int) returns (left: real, top: real)
    ensures Point(left, top) == RenderPosition(ps, now)
  {
    var v := now - RenderDelayMs;
    var found := false;
    var prev, next := 0, 0;
    var i := |ps|;
    while i > 0
      invariant 0 <= i <= |ps|
      invariant forall j :: i <= j < |ps| ==> ps[j].timestamp > v
      invariant !found
    {
      i := i - 1;
      if ps[i].timestamp <= v {
        found := true;
        prev := i;
        next := if i + 1 < |ps| then i + 1 else i;
        break;
      }
    }
    assert v == VirtualTime(now);
    if found {
      LatestAtOrBeforeUnique(ps, v, prev);
      assert LatestAtOrBefore(ps, v) == Some(prev);
    } else {
      assert LatestAtOrBefore(ps, v) == None;
    }
    left, top := 0.0, 0.0;
    if found && prev != next {
      var t := (v - ps[prev].timestamp) as real / (ps[next].timestamp - ps[prev].timestamp) as real;
      assert next == prev + 1 && t == Fraction(ps[prev], ps[next], v);
      left := Lerp(ps[prev].x, ps[next].x, t);
      top := Lerp(ps[prev].y, ps[next].y, t);
    } else if found {
      left := ps[prev].x;
      top := ps[prev].y;
    }
  }

  /** A point on the segment from `a` to `b` stays between them. */
  lemma LerpWithin(a: real, b: real, t: real)
    requires 0.0 <= t <= 1.0
    ensures Min(a, b) <= Lerp(a, b, t) <= Max(a, b)
  {
    LerpAdvances(a, b, 0.0, t);
    assert Lerp(a, b, 0.0) == a;
  }

  /** Scaling `d` by a fraction in [0, 1] keeps it between 0 and `d`. */
  lemma ScaledWithin(d: real, t: real)
    requires 0.0 <= t <= 1.0
    ensures d >= 0.0 ==> 0.0 <= d * t <= d
    ensures d <= 0.0 ==> d <= d * t <= 0.0
  {
    assert d - d * t == d * (1.0 - t);
    if d >= 0.0 {
      ProductNonNegative(d, t);
      ProductNonNegative(d, 1.0 - t);
    } else {
      ProductNonNegative(-d, t);
      ProductNonNegative(-d, 1.0 - t);
    }
  }

  lemma ProductNonNegative(a: real, b: real)
    requires a >= 0.0 && b >= 0.0
    ensures a * b >= 0.0
  {
  }

  /** When a newer sample follows the chosen one, the depicted moment lies
      in between: the divisor is positive and the drawn point lies between
      the two samples on each axis. No ordering of the history is needed,
      because the scan from the end has already passed over the successor. */
  lemma RenderBetweenSamples(ps: seq<Sample>, now: int, i: nat)
    requires LatestAtOrBefore(ps, VirtualTime(now)) == Some(i) && i + 1 < |ps|
    ensures ps[i].timestamp <= VirtualTime(now) < ps[i + 1].timestamp
    ensures Min(ps[i].x, ps[i + 1].x) <= RenderPosition(ps, now).left <= Max(ps[i].x, ps[i + 1].x)
    ensures Min(ps[i].y, ps[i + 1].y) <= RenderPosition(ps, now).top <= Max(ps[i].y, ps[i + 1].y)
  {
    var t := Fraction(ps[i], ps[i + 1], VirtualTime(now));
    RenderInBracket(ps, now, i);
    LerpWithin(ps[i].x, ps[i + 1].x, t);
    LerpWithin(ps[i].y, ps[i + 1].y, t);
  }

  lemma RenderInBracket(ps: seq<Sample>, now: int, i: nat)
    requires LatestAtOrBefore(ps, VirtualTime(now)) == Some(i) && i + 1 < |ps|
    ensures ps[i].timestamp <= VirtualTime(now) < ps[i + 1].timestamp
    ensures var t := Fraction(ps[i], ps[i + 1], VirtualTime(now));
            RenderPosition(ps, now) == Point(Lerp(ps[i].x, ps[i + 1].x, t), Lerp(ps[i].y, ps[i + 1].y, t))
  {
  }

  /** The sample at index `i` is the one the scan picks exactly when it is
      old enough and every later sample is too new. */
  lemma LatestAtOrBeforeUnique(ps: seq<Sample>, v: int, i: nat)
    requires i < |ps|
    ensures LatestAtOrBefore(ps, v) == Some(i)
        <==> ps[i].timestamp <= v && forall j :: i < j < |ps| ==> ps[j].timestamp > v
  {
    var r := LatestAtOrBefore(ps, v);
    if ps[i].timestamp <= v && forall j :: i < j < |ps| ==> ps[j].timestamp > v {
      assert r.Some?;
    }
  }

  /** Once the newest sample is old enough the marker holds on it: there is
      no extrapolation. */
  lemma RenderHoldsNewest(ps: seq<Sample>, now: int)
    requires |ps| > 0 && ps[|ps| - 1].timestamp <= VirtualTime(now)
    ensures RenderPosition(ps, now) == Point(ps[|ps| - 1].x, ps[|ps| - 1].y)
  {
    LatestAtOrBeforeUnique(ps, VirtualTime(now), |ps| - 1);
  }

  /** A history none of whose samples is old enough, the empty one included,
      is drawn at the origin; so is a live peer whose every retained sample
      arrived within the last `RenderDelayMs` milliseconds. */
  lemma RenderOriginWhenAllTooNew(ps: seq<Sample>, now: int)
    requires forall j :: 0 <= j < |ps| ==> ps[j].timestamp > VirtualTime(now)
    ensures RenderPosition(ps, now) == Point(0.0, 0.0)
  {
  }

  /** A frame whose depicted moment is exactly a sample's arrival time, that
      sample being the newest so stamped, shows that sample: the marker
      passes through every sample it interpolates towards. */
  lemma RenderAtSampleTime(ps: seq<Sample>, now: int, i: nat)
    requires i < |ps| && ps[i].timestamp == VirtualTime(now)
    requires forall j :: i < j < |ps| ==> ps[j].timestamp > VirtualTime(now)
    ensures RenderPosition(ps, now) == Point(ps[i].x, ps[i].y)
  {
    var v := VirtualTime(now);
    LatestAtOrBeforeUnique(ps, v, i);
    if i + 1 < |ps| {
      assert Fraction(ps[i], ps[i + 1], v) == 0.0;
    }
  }

  /** Between two arrivals the marker only advances towards the newer
      sample: two frames drawn at `now1 <= now2` with the same bracketing
      pair show the later one no further from that sample on each axis. */
  lemma RenderAdvancesTowardsNext(ps: seq<Sample>, now1: int, now2: int, i: nat)
    requires now1 <= now2 && i + 1 < |ps|
    requires LatestAtOrBefore(ps, VirtualTime(now1)) == Some(i)
    requires LatestAtOrBefore(ps, VirtualTime(now2)) == Some(i)
    ensures ps[i].x <= ps[i + 1].x ==>
      RenderPosition(ps, now1).left <= RenderPosition(ps, now2).left <= ps[i + 1].x
    ensures ps[i + 1].x <= ps[i].x ==>
      ps[i + 1].x <= RenderPosition(ps, now2).left <= RenderPosition(ps, now1).left
    ensures ps[i].y <= ps[i + 1].y ==>
      RenderPosition(ps, now1).top <= RenderPosition(ps, now2).top <= ps[i + 1].y
    ensures ps[i + 1].y <= ps[i].y ==>
      ps[i + 1].y <= RenderPosition(ps, now2).top <= RenderPosition(ps, now1).top
  {
    var v1, v2 := VirtualTime(now1), VirtualTime(now2);
    var p, n := ps[i], ps[i + 1];
    var t1, t2 := Fraction(p, n, v1), Fraction(p, n, v2);
    FractionMonotone(p, n, v1, v2);
    RenderInBracket(ps, now1, i);
    RenderInBracket(ps, now2, i);
    LerpAdvances(p.x, n.x, t1, t2);
    LerpAdvances(p.y, n.y, t1, t2);
  }

  /** On one axis: a larger fraction is at least as far along, and never
      beyond the target `b`. */
  lemma LerpAdvances(a: real, b: real, t1: real, t2: real)
    requires 0.0 <= t1 <= t2 <= 1.0
    ensures a <= b ==> Lerp(a, b, t1) <= Lerp(a, b, t2) <= b
    ensures b <= a ==> b <= Lerp(a, b, t2) <= Lerp(a, b, t1)
  {
    var d := b - a;
    var s1, s2 := d * t1, d * t2;
    assert Lerp(a, b, t1) == a + s1 && Lerp(a, b, t2) == a + s2;
    assert s2 - s1 == d * (t2 - t1);
    if a <= b {
      ProductNonNegative(d, t2 - t1);
      ScaledWithin(d, t2);
    } else {
      ProductNonNegative(-d, t2 - t1);
      ScaledWithin(d, t2);
    }
  }

  /** Later moments lie further along the same bracket. */
  lemma FractionMonotone(p: Sample, n: Sample, v1: int, v2: int)
    requires p.timestamp <= v1 <= v2 < n.timestamp
    ensures Fraction(p, n, v1) <= Fraction(p, n, v2)
  {
    var span := (n.timestamp - p.timestamp) as real;
    var d1, d2 := (v1 - p.timestamp) as real, (v2 - p.timestamp) as real;
    assert Fraction(p, n, v2) - Fraction(p, n, v1) == (d2 - d1) / span;
  }

  /** In a chronological history the scan finds nothing exactly when even
      the oldest sample is too new. */
  lemma ChronologicalNoneIffOldestTooNew(ps: seq<Sample>, v: int)
    requires Chronological(ps) && |ps| > 0
    ensures LatestAtOrBefore(ps, v).None? <==> ps[0].timestamp > v
  {
    if ps[0].timestamp > v {
      forall j | 0 <= j < |ps| ensures ps[j].timestamp > v {
        if j > 0 {
          assert ps[0].timestamp <= ps[j].timestamp;
        }
      }
    }
  }
}
