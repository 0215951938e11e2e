# company-cursor-party: the cursor-tracking core of the browser client

This project models the cursor-tracking state of the browser client in `src/main.ts` and proves properties of it in Dafny 4.11.

The client shares mouse positions between everyone on a page. Each remote peer has an entry in the `cursors` map, keyed by its session id. An entry holds the peer's id, the time it was last heard from (`lastSeen`) and up to ten recent position samples. Each sample is stamped with its arrival time. Four pieces of logic work on this map:

- **Ingest** (`socket.on("move")`). A decoded position `(id, x, y)` arriving at time `now` is appended to the peer's history. When the history then has more than ten samples, the oldest is dropped. The entry is then stored again with `lastSeen = now`.
- **Reaper** (the one-second `setInterval`). It deletes every entry whose `now - lastSeen` exceeds 5000 ms.
- **Look-back interpolation** (`animateCursors`). Each frame depicts the moment `now - 100`. The history is scanned from the newest sample. The first sample stamped at or before that moment is "previous"; its successor, if any, is "next". The marker is placed by linear interpolation between them. It holds on "previous" when there is no successor, and is placed at (0, 0) when no sample is old enough.
- **Local cursor** (the `mousemove` and `wheel` handlers). A pointer move records `(pageX, pageY)` in the client's own history. A wheel event moves the local cursor by `(deltaX, deltaY)` from its last recorded position, or from (0, 0) when nothing is recorded. Either handler returns the position message it hands to the outbound throttle.

Files:

- `cursor_model.dfy` (`CursorModel`): samples, `CursorData`, the decoded `Position` message, the constants 10 / 5000 / 100, and the `Chronological` predicate.
- `history.dfy` (`History`): the bounded history as pure functions (`Pushed`, `PushAll`, `Newest`) and their lemmas.
- `interpolation.dfy` (`Interpolation`): the bracket search `LatestAtOrBefore` and the frame position `RenderPosition` as specification functions; `InterpolateCursor` is the backward scan with `break` from the source, proved equal to `RenderPosition`.
- `registry.dfy` (`Registry`): `Ingested` and `Reaped` as functions on `map<string, CursorData>`, lemmas about them, and the class `CursorRegistry`. Its methods `OnMove`, `Reap` and `AnimateCursors` update or read the `cursors` field and are proved against those functions.
- `arrival.dfy` (`Arrival`): what a frame shows when a sample arrives. Some arrivals leave the marker where it was; the lemmas here pin down which ones do and give concrete states where it jumps.
- `local_cursor.dfy` (`LocalCursor`): the class `LocalCursorData` (`myCursorData`) with `OnMouseMove` and `OnWheel`, and the wheel-accumulation lemma.

How the marker behaves when a sample arrives:

- An arrival while the marker moves between two older samples leaves the current frame unchanged. This holds while the arrival does not evict the sample being drawn from (`Arrival.ArrivalMidSegmentKeepsFrame`).
- A marker holding on its newest sample jumps when the next sample arrives. It moves straight to the point the look-back moment has already reached on the new segment (`Arrival.HoldThenArrivalJumps`).
- In a full history whose oldest sample is the one being drawn from, the arrival evicts that sample. When no other sample is old enough, the marker falls back to (0, 0) (`Arrival.FullHistoryArrivalFallsToOrigin`).
- A peer heard from for the first time is drawn at (0, 0) for its first 100 ms (`Arrival.NewPeerStartsAtOrigin`).

Modelling choices:

- Coordinates are `real`. Timestamps are `int` milliseconds. The current time is a parameter of every operation.
- The source compares `previousPosition !== nextPosition` by object identity. Each sample is its own object, so the two differ exactly when "previous" has a successor. The model tests for the successor.
- The bracket property `prev.timestamp <= now - 100 < next.timestamp` is proved WITHOUT assuming that timestamps increase along a history. The backward scan has already rejected the successor, so its timestamp is later than the depicted moment. The divisor is therefore always positive and the fraction lies in [0, 1), even when the clock steps backwards.
- The `positions` array is mutated in place and then stored in a fresh entry. The model uses value semantics. This changes nothing observable, because the entry is replaced anyway.
- Design features of the cursor-sharing system that `src/main.ts` does not implement are not modelled: scopes/rooms, an inbound `leave` handler, the visibility gate, coordinate normalisation and the off-screen margin. The code sends raw `pageX`/`pageY` values and shows every peer. The model follows the code.

## Model

| member | source | states |
|---|---|---|
| `History.Newest` | src/main.ts:109-111 | the newest `n` samples (all of them when fewer), in their original order |
| `History.Pushed` | src/main.ts:108-112 | one push plus the guarded shift ends with the new sample, grows by one below ten, keeps its length at ten or more, and keeps the newest part of the old history in order |
| `History.PushedBounded` | src/main.ts:109-112 | a history of at most ten samples still has between one and ten after a push |
| `History.PushedDropsOnlyOldest` | src/main.ts:109-111 | below ten the push appends and drops nothing; at exactly ten it drops only the oldest and keeps the other nine in order |
| `History.PushedChronological` | src/main.ts:106-109 | a sample stamped no earlier than the newest keeps the history's timestamps non-decreasing |
| `History.PushAllKeepsNewest` | src/main.ts:108-112 | after any stream of arrivals, the history is exactly the ten newest samples ever received, oldest first |
| `History.NewestOfPushed` | src/main.ts:109-111 | taking the ten newest commutes with one more arrival |
| `Interpolation.LatestAtOrBefore` | src/main.ts:156-163 | the chosen index is stamped at or before the depicted moment and every later sample is after it; nothing is chosen iff every sample is after it |
| `Interpolation.LatestAtOrBeforeUnique` | src/main.ts:156-162 | index `i` is the one chosen iff it is old enough and every later sample is too new |
| `Interpolation.Fraction` | src/main.ts:168-170 | when prev <= moment < next, the interpolation fraction lies in [0, 1) and the divisor is positive |
| `Interpolation.InterpolateCursor` | src/main.ts:154-177 | the backward scan with `break` and the lerp yield exactly `RenderPosition(positions, now)` |
| `Interpolation.RenderBetweenSamples` | src/main.ts:156-172 | when "previous" has a successor, prev.timestamp <= now - 100 < next.timestamp, and the drawn x and y each lie between the two samples' values, for any order of timestamps |
| `Interpolation.RenderHoldsNewest` | src/main.ts:173-177 | when the newest sample is old enough, the marker sits exactly on it (no extrapolation) |
| `Interpolation.RenderOriginWhenAllTooNew` | src/main.ts:165-166 | when no sample is stamped at or before now - 100 (including an empty history), the marker is at (0, 0) |
| `Interpolation.RenderAtSampleTime` | src/main.ts:158-172 | a frame whose depicted moment equals the chosen sample's timestamp shows that sample (fraction 0) |
| `Interpolation.RenderAdvancesTowardsNext` | src/main.ts:167-172 | between arrivals, a later frame with the same bracket is no further from "next" on either axis and never passes it |
| `Interpolation.FractionMonotone` | src/main.ts:168-170 | within one bracket, the fraction does not decrease as time advances |
| `Interpolation.LerpWithin` | src/main.ts:171-172 | linear interpolation with a fraction in [0, 1] stays between its endpoints |
| `Interpolation.LerpAdvances` | src/main.ts:171-172 | a larger fraction is at least as far towards the target and never beyond it |
| `Interpolation.ChronologicalNoneIffOldestTooNew` | src/main.ts:156-163 | in a history with non-decreasing timestamps, nothing is chosen iff the oldest sample is newer than now - 100 |
| `Registry.Ingested` | src/main.ts:106-118 | ingest adds the id to the map's keys, stamps `lastSeen = now`, makes `(x, y, now)` the last sample, and leaves every other id's entry unchanged |
| `Registry.IngestPreservesWellFormed` | src/main.ts:108-118 | every entry stays keyed by its own id with one to ten samples, so the newest sample that `createNewCursor` reads (src/main.ts:127-128) exists |
| `Registry.IngestHistory` | src/main.ts:108-112 | a first move starts a one-sample history; below ten the sample is appended; at ten the oldest is dropped and the other nine keep their order |
| `Registry.IngestStreamKeepsNewest` | src/main.ts:108-118 | a stream of moves for one peer leaves exactly the ten newest samples of its history plus the stream |
| `Registry.IngestAllIsPushAll` | src/main.ts:108-118 | repeated ingest for one id acts on its history as repeated push-and-trim |
| `Registry.Reaped` | src/main.ts:138-146 | an id survives a tick iff it was present and `now - lastSeen <= 5000`, and a survivor's entry is unchanged |
| `Registry.ReapPreservesWellFormed` | src/main.ts:138-145 | the reaper keeps the registry well formed |
| `Registry.ReapTicksCompose` | src/main.ts:136-147 | a tick at `now1` followed by a tick at a later `now2` equals a single tick at `now2`; two ticks at the same time equal one |
| `Registry.FreshPeerSurvivesReap` | src/main.ts:114-118 | a peer whose last move was at most 5000 ms before the tick survives it with its entry unchanged |
| `Registry.SilentPeerIsReaped` | src/main.ts:139-144 | a peer silent for more than 5000 ms since its last move is removed by the tick |
| `Registry.QuietPeerRestsOnLastMove` | src/main.ts:109-177 | from 100 ms after a peer's last move on, its marker is drawn exactly at that move's position |
| `Registry.CursorRegistry.constructor` | src/main.ts:30 | the registry starts empty and well formed |
| `Registry.CursorRegistry.OnMove` | src/main.ts:96-119 | the move handler's new map is `Ingested(old map, p, now)` and stays well formed |
| `Registry.CursorRegistry.Reap` | src/main.ts:136-147 | deleting while visiting the entries in any order leaves exactly `Reaped(old map, now)`, well formed |
| `Registry.CursorRegistry.AnimateCursors` | src/main.ts:149-191 | a frame gives a position for every tracked id and no other, and each is `RenderPosition` of that id's history |
| `Arrival.ArrivalMidSegmentKeepsFrame` | src/main.ts:108-172 | when the marker is between two samples and the history is below ten (or the chosen sample is not the oldest), pushing a sample newer than now - 100 leaves that frame's position unchanged |
| `Arrival.ShiftedBracket` | src/main.ts:110-172 | dropping older samples in front of the chosen one and appending a too-new sample carries the bracket and the frame over unchanged |
| `Arrival.IngestMidSegmentKeepsFrame` | src/main.ts:106-172 | a `move` for a peer whose marker is between two samples leaves that frame's marker where it was |
| `Arrival.HoldThenArrivalJumps` | src/main.ts:158-176 | holding on (0,0)@0, the frame at 1000 shows (0,0); after (1000,0)@1000 arrives the same frame shows (900,0) |
| `Arrival.FullHistoryArrivalFallsToOrigin` | src/main.ts:109-177 | in a full history [(5,5)@0, nine samples @91..99] the frame at 100 shows (5,5); after one arrival @100 it shows (0,0) |
| `Arrival.NewPeerStartsAtOrigin` | src/main.ts:108-166 | a first move at `t` leaves the new peer drawn at (0,0) for every frame before `t + 100` |
| `LocalCursor.WheelTarget` | src/main.ts:67-75 | a wheel event lands at the last recorded local position, or at the origin when there is none, shifted by `(deltaX, deltaY)` |
| `LocalCursor.WheelsAccumulate` | src/main.ts:66-77 | after any series of wheel events, the cursor is at its start (or the origin) shifted by the sum of all deltas; each event adds one sample and keeps the earlier ones |
| `LocalCursor.WheelFollowsPointer` | src/main.ts:50-75 | a wheel event right after a pointer move to (x, y) lands at (x + dx, y + dy) |
| `LocalCursor.LocalCursorData.constructor` | src/main.ts:32-36 | the local record starts with the given id and time and an empty history |
| `LocalCursor.LocalCursorData.OnMouseMove` | src/main.ts:50-62 | a pointer move appends `(pageX, pageY, now)` and hands `(id, pageX, pageY)` to the throttle |
| `LocalCursor.LocalCursorData.OnWheel` | src/main.ts:66-85 | a wheel event appends the wheel target stamped `now` and hands that position to the throttle |

## Left out

- The socket.io transport, event wiring and the Go relay (src/main.ts:9-11, 92, 96; backend/ws) are network I/O. `OnMove` takes an already-decoded `Position`.
- Base64 and protobuf encoding and decoding (src/main.ts:90-91, 97-104) are calls into external codecs and are not part of this model.
- The `lodash.throttle` rate limiter (src/main.ts:89-93) is an external library. `OnMouseMove` and `OnWheel` return the message they hand to it; whether and when it is sent is not modelled.
- All DOM work is presentation and is left out: the red-square demo, the container, the cursor element that `createNewCursor` builds, element removal in the reaper, and the style writes (src/main.ts:6-22, 39-47, 122-133, 140-143, 179-189). `AnimateCursors` returns the computed positions instead of writing them.
- `setInterval`, `requestAnimationFrame`, `Date.now`, `Math.random` and `crypto.randomUUID` are host scheduling, time and randomness. Time and the local id are parameters.
- Floating point: coordinates are exact `real`s, so IEEE rounding in the lerp is not captured. Neither are non-finite coordinates: the source does not check decoded `x`/`y` (src/main.ts:104-109), so a NaN or infinite value would flow into the lerp, and a `real` cannot represent one.
- Interpolation.RenderPosition: the model does not promise that a marker moves continuously, because the source does not keep that promise. `Arrival.HoldThenArrivalJumps`, `Arrival.FullHistoryArrivalFallsToOrigin` and `Arrival.NewPeerStartsAtOrigin` prove jumps that the code as written makes. The model keeps the source's behaviour instead of a corrected one. What is promised is proved: continuity across an arrival mid-segment (`Arrival.ArrivalMidSegmentKeepsFrame`) and monotone progress between arrivals (`Interpolation.RenderAdvancesTowardsNext`).
- `Registry.CursorRegistry.Reap`: JavaScript `Map.forEach` visits entries in insertion order. The model picks entries in an unspecified order. It proves that the result does not depend on the order, so the insertion order is not recorded.
- `LocalCursor.LocalCursorData`: the local history is never trimmed in the source. The model keeps it unbounded too. `lastSeen` of the local record is never updated after creation, and the model preserves that.
