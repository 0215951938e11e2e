/** The `cursors` map of the browser client: remote positions are ingested
    into it, a periodic reaper drops silent peers, and every animation frame
    reads it to place the markers. */
module Registry {
  import opened CursorModel
  import opened History
  import opened Interpolation

  /** An entry as the client keeps it: stored under its own id, with between
      one and `HistoryLimit` samples (so the newest sample always exists when
      a marker is first placed). */
  predicate WellFormedEntry(key: string, c: CursorData)
  {
    c.id == key && 1 <= |c.positions| <= HistoryLimit
  }

  ghost predicate WellFormed(m: map<string, CursorData>)
  {
    forall k :: k in m ==> WellFormedEntry(k, m[k])
  }

  /** The history a `move` for `id` extends: the stored one, or a new empty one. */
  function PriorHistory(m: map<string, CursorData>, id: string): seq<Sample>
  {
    if id in m then m[id].positions else []
  }

  /** The registry after a decoded `move` for `p` arrives at time `now`. */
  function Ingested(m: map<string, CursorData>, p: Position, now: int): (r: map<string, CursorData>)
    ensures r.Keys == m.Keys + {p.id}
    ensures forall k :: k in m && k != p.id ==> r[k] == m[k]
    ensures r[p.id].id == p.id && r[p.id].lastSeen == now
    ensures |r[p.id].positions| >= 1
    ensures r[p.id].positions[|r[p.id].positions| - 1] == Sample(p.x, p.y, now)
  {
    m[p.id := CursorData(p.id, now, Pushed(PriorHistory(m, p.id), Sample(p.x, p.y, now)))]
  }

  /** A peer not heard from for more than `StaleAfterMs` milliseconds. */
  predicate IsStale(c: CursorData, now: int)
  {
    now - c.lastSeen > StaleAfterMs
  }

  /** The registry after one reaper tick at time `now`. */
  function Reaped(m: map<string, CursorData>, now: int): (r: map<string, CursorData>)
    ensures forall k :: k in r <==> k in m && !IsStale(m[k], now)
    ensures forall k :: k in r ==> r[k] == m[k]
  {
    map k | k in m && !IsStale(m[k], now) :: m[k]
  }

  /** Ingest keeps every entry well formed: the moved peer's history holds
      one to ten samples, whatever the registry held before. */
  lemma IngestPreservesWellFormed(m: map<string, CursorData>, p: Position, now: int)
    requires WellFormed(m)
    ensures WellFormed(Ingested(m, p, now))
  {
    PushedBounded(PriorHistory(m, p.id), Sample(p.x, p.y, now));
  }

  /** A first sample starts a one-sample history; below ten the history
      grows by the new sample; at ten the oldest sample makes room for it. */
  lemma IngestHistory(m: map<string, CursorData>, p: Position, now: int)
    requires WellFormed(m)
    ensures var prior := PriorHistory(m, p.id);
            var s := Sample(p.x, p.y, now);
            var h := Ingested(m, p, now)[p.id].positions;
            && (p.id !in m ==> h == [s])
            && (|prior| < HistoryLimit ==> h == prior + [s])
            && (|prior| == HistoryLimit ==> h == prior[1..] + [s])
  {
    PushedDropsOnlyOldest(PriorHistory(m, p.id), Sample(p.x, p.y, now));
  }

  /** A stream of moves for one peer leaves it with the ten newest of them,
      oldest first, provided no reaper tick removes it in between. */
  lemma IngestStreamKeepsNewest(m: map<string, CursorData>, id: string, moves: seq<Sample>)
    requires WellFormed(m)
    ensures PriorHistory(IngestAll(m, id, moves), id)
         == Newest(PriorHistory(m, id) + moves, HistoryLimit)
  {
    var prior := PriorHistory(m, id);
    assert |prior| <= HistoryLimit;
    IngestAllIsPushAll(m, id, moves);
    PushAllKeepsNewest(prior, moves);
  }

  /** The registry after `moves` arrive for `id`, each at its own timestamp. */
  function IngestAll(m: map<string, CursorData>, id: string, moves: seq<Sample>): map<string, CursorData>
    decreases |moves|
  {
    if moves == [] then m
    else IngestAll(Ingested(m, Position(id, moves[0].x, moves[0].y), moves[0].timestamp), id, moves[1..])
  }

  lemma {:induction false} IngestAllIsPushAll(m: map<string, CursorData>, id: string, moves: seq<Sample>)
    ensures PriorHistory(IngestAll(m, id, moves), id) == PushAll(PriorHistory(m, id), moves)
    decreases |moves|
  {
    if moves != [] {
      var s := moves[0];
      var m1 := Ingested(m, Position(id, s.x, s.y), s.timestamp);
      assert PriorHistory(m1, id) == Pushed(PriorHistory(m, id), s);
      IngestAllIsPushAll(m1, id, moves[1..]);
    }
  }

  /** The reaper keeps every entry it does not remove well formed. */
  lemma ReapPreservesWellFormed(m: map<string, CursorData>, now: int)
    requires WellFormed(m)
    ensures WellFormed(Reaped(m, now))
  {
  }

  /** Reaper ticks compose: a later tick removes everything an earlier tick
      would, so ticking at `now1` and then at `now2` is a single tick at
      `now2`, and ticking twice at the same time is ticking once. */
  lemma ReapTicksCompose(m: map<string, CursorData>, now1: int, now2: int)
    requires now1 <= now2
    ensures Reaped(Reaped(m, now1), now2) == Reaped(m, now2)
  {
    var a, b := Reaped(Reaped(m, now1), now2), Reaped(m, now2);
    assert forall k :: k in a <==> k in b;
  }

  /** No peer is removed while its moves keep arriving within the staleness
      window: after a move at `t`, a tick at any `now` with
      `now - t <= StaleAfterMs` keeps its entry as the move left it. */
  lemma FreshPeerSurvivesReap(m: map<string, CursorData>, p: Position, t: int, now: int)
    requires now - t <= StaleAfterMs
    ensures p.id in Reaped(Ingested(m, p, t), now)
    ensures Reaped(Ingested(m, p, t), now)[p.id] == Ingested(m, p, t)[p.id]
  {
    assert !IsStale(Ingested(m, p, t)[p.id], now);
  }

  /** A peer silent for longer than the window after its last move at `t` is
      gone after the next tick, whatever else the registry holds. */
  lemma SilentPeerIsReaped(m: map<string, CursorData>, p: Position, t: int, now: int)
    requires now - t > StaleAfterMs
    ensures p.id !in Reaped(Ingested(m, p, t), now)
  {
    assert IsStale(Ingested(m, p, t)[p.id], now);
  }

  /** A peer that goes quiet after a move at `t` is drawn exactly at that
      move's position from `t + RenderDelayMs` on. */
  lemma QuietPeerRestsOnLastMove(m: map<string, CursorData>, p: Position, t: int, now: int)
    requires now - RenderDelayMs >= t
    ensures RenderPosition(Ingested(m, p, t)[p.id].positions, now) == Point(p.x, p.y)
  {
    RenderHoldsNewest(Ingested(m, p, t)[p.id].positions, now);
  }

  /** The client's registry of remote cursors. */
  class CursorRegistry {
    var cursors: map<string, CursorData>

    ghost predicate Valid()
      reads this
    {
      WellFormed(cursors)
    }

    constructor ()
      ensures Valid() && cursors == map[]
    {
      cursors := map[];
    }

    /** The `move` handler, after decoding: extend the peer's history with
        the arrival, keep the ten newest samples and refresh `lastSeen`. */
    method OnMove(p: Position, now: int)
      requires Valid()
      modifies this
      ensures Valid()
      ensures cursors == Ingested(old(cursors), p, now)
    {
      var positions := if p.id in cursors then cursors[p.id].positions else [];
      positions := positions + [Sample(p.x, p.y, now)];
      if |positions| > HistoryLimit {
        positions := positions[1..];
      }
      cursors := cursors[p.id := CursorData(p.id, now, positions)];
      IngestPreservesWellFormed(old(cursors), p, now);
    }

    /** One reaper tick: visit every entry and delete the stale ones. The
        order of the visit does not matter. */
    method Reap(now: int)
      requires Valid()
      modifies this
      ensures Valid()
      ensures cursors == Reaped(old(cursors), now)
    {
      ghost var start := cursors;
      var pending := cursors.Keys;
      while pending != {}
        invariant pending <= cursors.Keys <= start.Keys
        invariant forall k :: k in cursors ==> cursors[k] == start[k]
        invariant forall k :: k in start && k !in pending ==> (k in cursors <==> !IsStale(start[k], now))
        decreases |pending|
      {
        var id :| id in pending;
        if now - cursors[id].lastSeen > StaleAfterMs {
          cursors := cursors - {id};
        }
        pending := pending - {id};
      }
      assert cursors == Reaped(start, now);
      ReapPreservesWellFormed(start, now);
    }

    /** One animation frame: the marker position of every tracked peer. */
    method AnimateCursors(now: int) returns (frame: map<string, Point>)
      ensures frame.Keys == cursors.Keys
      ensures forall k :: k in frame ==> frame[k] == RenderPosition(cursors[k].positions, now)
    {
      frame := map[];
      var pending := cursors.Keys;
      while pending != {}
        invariant pending <= cursors.Keys
        invariant frame.Keys == cursors.Keys - pending
        invariant forall k :: k in frame ==> frame[k] == RenderPosition(cursors[k].positions, now)
        decreases |pending|
      {
        var id :| id in pending;
        var left, top := InterpolateCursor(cursors[id].positions, now);
        frame := frame[id := Point(left, top)];
        pending := pending - {id};
      }
    }
  }
}
