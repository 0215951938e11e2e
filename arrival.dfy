/** What a frame shows around the arrival of a new sample. The look-back
    design keeps the marker still when a sample arrives while it is moving
    between two older samples, but not in every state: a marker holding on
    its newest sample, a history full enough that the arrival evicts the
    sample being drawn, and a peer heard from for the first time all jump. */
module Arrival {
  import opened CursorModel
  import opened History
  import opened Interpolation
  import opened Registry

  /** A sample arriving while the marker is between two older samples does
      not move it in the current frame, provided the arrival does not evict
      the sample being interpolated from (a history below the limit, or one
      whose chosen sample is not the oldest). */
  lemma ArrivalMidSegmentKeepsFrame(ps: seq<Sample>, s: Sample, now: int, i: nat)
    requires |ps| <= HistoryLimit
    requires s.timestamp > VirtualTime(now)
    requires LatestAtOrBefore(ps, VirtualTime(now)) == Some(i) && i + 1 < |ps|
    requires |ps| < HistoryLimit || i >= 1
    ensures RenderPosition(Pushed(ps, s), now) == RenderPosition(ps, now)
  {
    PushedDropsOnlyOldest(ps, s);
    if |ps| < HistoryLimit {
      ShiftedBracket(ps, ps + [s], 0, now, i);
    } else {
      ShiftedBracket(ps, ps[1..] + [s], 1, now, i);
    }
  }

  /** If `r` is `ps` with its first `d` samples removed and one sample too
      new to be drawn appended, the bracket and the frame carry over. */
  lemma ShiftedBracket(ps: seq<Sample>, r: seq<Sample>, d: nat, now: int, i: nat)
    requires d <= i && i + 1 < |ps| && |r| == |ps| - d + 1
    requires forall k :: 0 <= k < |ps| - d ==> r[k] == ps[k + d]
    requires r[|r| - 1].timestamp > VirtualTime(now)
    requires LatestAtOrBefore(ps, VirtualTime(now)) == Some(i)
    ensures RenderPosition(r, now) == RenderPosition(ps, now)
  {
    var v := VirtualTime(now);
    var j := i - d;
    assert r[j] == ps[i] && r[j + 1] == ps[i + 1];
    forall k | j < k < |r| ensures r[k].timestamp > v {
      if k < |r| - 1 {
        assert r[k] == ps[k + d];
      }
    }
    LatestAtOrBeforeUnique(r, v, j);
    RenderInBracket(ps, now, i);
    RenderInBracket(r, now, j);
  }

  /** The same in registry terms: a `move` for a peer whose marker is
      between two samples leaves that frame's marker where it was. */
  lemma IngestMidSegmentKeepsFrame(m: map<string, CursorData>, p: Position, now: int, i: nat)
    requires WellFormed(m) && p.id in m
    requires LatestAtOrBefore(m[p.id].positions, VirtualTime(now)) == Some(i)
    requires i + 1 < |m[p.id].positions|
    requires |m[p.id].positions| < HistoryLimit || i >= 1
    ensures RenderPosition(Ingested(m, p, now)[p.id].positions, now)
         == RenderPosition(m[p.id].positions, now)
  {
    assert WellFormedEntry(p.id, m[p.id]);
    ArrivalMidSegmentKeepsFrame(m[p.id].positions, Sample(p.x, p.y, now), now, i);
  }

  /** A marker holding on its newest sample jumps when the next sample
      arrives: holding on (0, 0) stamped 0, the frame at 1000 shows (0, 0);
      once (1000, 0) arrives at 1000 the same frame shows (900, 0). */
  lemma HoldThenArrivalJumps()
    ensures var a, b := Sample(0.0, 0.0, 0), Sample(1000.0, 0.0, 1000);
            && RenderPosition([a], 1000) == Point(0.0, 0.0)
            && RenderPosition(Pushed([a], b), 1000) == Point(900.0, 0.0)
  {
    var a, b := Sample(0.0, 0.0, 0), Sample(1000.0, 0.0, 1000);
    RenderHoldsNewest([a], 1000);
    var r := Pushed([a], b);
    PushedDropsOnlyOldest([a], b);
    assert r == [a, b];
    LatestAtOrBeforeUnique(r, VirtualTime(1000), 0);
    RenderInBracket(r, 1000, 0);
    assert Fraction(a, b, 900) == 0.9;
  }

  /** A full history whose oldest sample is the one being drawn loses it to
      the next arrival, and the marker falls back to the origin: with (5, 5)
      stamped 0 followed by nine samples stamped 91 to 99, the frame at 100
      shows (5, 5); after one more arrival at 100 it shows (0, 0). */
  lemma FullHistoryArrivalFallsToOrigin()
    ensures var ps := [Sample(5.0, 5.0, 0)] + seq(9, k => Sample(1.0, 1.0, 91 + k));
            && RenderPosition(ps, 100) == Point(5.0, 5.0)
            && RenderPosition(Pushed(ps, Sample(1.0, 1.0, 100)), 100) == Point(0.0, 0.0)
  {
    var ps := [Sample(5.0, 5.0, 0)] + seq(9, k => Sample(1.0, 1.0, 91 + k));
    var s := Sample(1.0, 1.0, 100);
    assert |ps| == HistoryLimit;
    assert forall j :: 0 < j < |ps| ==> ps[j].timestamp > VirtualTime(100);
    RenderAtSampleTime(ps, 100, 0);
    var r := Pushed(ps, s);
    PushedDropsOnlyOldest(ps, s);
    assert forall j :: 0 <= j < |r| ==> r[j].timestamp > VirtualTime(100);
    RenderOriginWhenAllTooNew(r, 100);
  }

  /** A peer heard from for the first time is drawn at the origin for its
      first `RenderDelayMs` milliseconds, wherever its first move put it. */
  lemma NewPeerStartsAtOrigin(m: map<string, CursorData>, p: Position, t: int, now: int)
    requires p.id !in m
    requires now - RenderDelayMs < t
    ensures RenderPosition(Ingested(m, p, t)[p.id].positions, now) == Point(0.0, 0.0)
  {
    var h := Ingested(m, p, t)[p.id].positions;
    assert h == [Sample(p.x, p.y, t)];
    RenderOriginWhenAllTooNew(h, now);
  }
}
