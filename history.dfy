/** The bounded per-peer sample history: append the new sample, then drop the
    oldest one when the history has grown past the limit. */
module History {
  import opened CursorModel

  /** The newest `n` elements of `s` (all of `s` when it is shorter). */
  function Newest(s: seq<Sample>, n: nat): (r: seq<Sample>)
    ensures |r| == if |s| < n then |s| else n
    ensures forall k :: 0 <= k < |r| ==> r[k] == s[|s| - |r| + k]
  {
    if |s| < n then s else s[|s| - n..]
  }

  /** `positions.push(s)` followed by the `shift()` guarded by
      `positions.length > 10`. */
  function Pushed(ps: seq<Sample>, s: Sample): (r: seq<Sample>)
    ensures 1 <= |r| && r[|r| - 1] == s
    ensures |ps| < HistoryLimit ==> |r| == |ps| + 1
    ensures |ps| >= HistoryLimit ==> |r| == |ps|
    // what survives of the old history is its newest part, in order
    ensures forall k :: 0 <= k < |r| - 1 ==> r[k] == ps[|ps| - (|r| - 1) + k]
  {
    var grown := ps + [s];
    if |grown| > HistoryLimit then grown[1..] else grown
  }

  /** A history within the limit stays within it. */
  lemma PushedBounded(ps: seq<Sample>, s: Sample)
    requires |ps| <= HistoryLimit
    ensures 1 <= |Pushed(ps, s)| <= HistoryLimit
  {
  }

  /** Below the limit nothing is dropped; at the limit exactly the oldest
      sample is dropped and the other nine keep their order. */
  lemma PushedDropsOnlyOldest(ps: seq<Sample>, s: Sample)
    ensures |ps| < HistoryLimit ==> Pushed(ps, s) == ps + [s]
    ensures |ps| == HistoryLimit ==> Pushed(ps, s) == ps[1..] + [s]
  {
    var r := Pushed(ps, s);
    if |ps| < HistoryLimit {
      assert |r| == |ps + [s]|;
      forall k | 0 <= k < |r| ensures r[k] == (ps + [s])[k] {
      }
    } else if |ps| == HistoryLimit {
      assert |r| == |ps[1..] + [s]|;
      forall k | 0 <= k < |r| ensures r[k] == (ps[1..] + [s])[k] {
      }
    }
  }

  /** Arriving samples stamped no earlier than the newest one keep the
      history chronological. */
  lemma PushedChronological(ps: seq<Sample>, s: Sample)
    requires Chronological(ps)
    requires |ps| > 0 ==> ps[|ps| - 1].timestamp <= s.timestamp
    ensures Chronological(Pushed(ps, s))
  {
    var r := Pushed(ps, s);
    forall i, j | 0 <= i < j < |r| ensures r[i].timestamp <= r[j].timestamp {
      if j < |r| - 1 {
        assert r[i] == ps[|ps| - (|r| - 1) + i] && r[j] == ps[|ps| - (|r| - 1) + j];
      } else {
        assert r[i] == ps[|ps| - (|r| - 1) + i];
      }
    }
  }

  /** The history after feeding `ss` one sample at a time. */
  function PushAll(ps: seq<Sample>, ss: seq<Sample>): (r: seq<Sample>)
    decreases |ss|
  {
    if ss == [] then ps else PushAll(Pushed(ps, ss[0]), ss[1..])
  }

  /** Whatever arrives, a history that started within the limit holds exactly
      the ten newest samples ever received, oldest first. */
  lemma {:induction false} PushAllKeepsNewest(ps: seq<Sample>, ss: seq<Sample>)
    requires |ps| <= HistoryLimit
    ensures PushAll(ps, ss) == Newest(ps + ss, HistoryLimit)
    decreases |ss|
  {
    if ss == [] {
      assert ps + ss == ps;
    } else {
      var p1 := Pushed(ps, ss[0]);
      PushedBounded(ps, ss[0]);
      PushAllKeepsNewest(p1, ss[1..]);
      NewestOfPushed(ps, ss[0], ss[1..]);
      assert [ss[0]] + ss[1..] == ss;
    }
  }

  /** Taking the newest ten commutes with one more arrival. */
  lemma NewestOfPushed(ps: seq<Sample>, s: Sample, rest: seq<Sample>)
    requires |ps| <= HistoryLimit
    ensures Newest(Pushed(ps, s) + rest, HistoryLimit) == Newest(ps + ([s] + rest), HistoryLimit)
  {
    var a := Pushed(ps, s) + rest;
    var b := ps + ([s] + rest);
    var na := Newest(a, HistoryLimit);
    var nb := Newest(b, HistoryLimit);
    assert |a| == |Pushed(ps, s)| + |rest|;
    assert |b| == |ps| + 1 + |rest|;
    forall k | 0 <= k < |na| ensures na[k] == nb[k] {
      var ia := |a| - |na| + k;
      var ib := |b| - |nb| + k;
      var d := |b| - |a|;
      assert ib == ia + d;
      if ia >= |Pushed(ps, s)| {
        assert a[ia] == rest[ia - |Pushed(ps, s)|];
        assert b[ib] == rest[ib - |ps| - 1];
      } else if ia == |Pushed(ps, s)| - 1 {
        assert a[ia] == s;
        assert b[ib] == s;
      } else {
        assert a[ia] == ps[|ps| - (|Pushed(ps, s)| - 1) + ia];
        assert b[ib] == ps[ib];
      }
    }
  }
}
