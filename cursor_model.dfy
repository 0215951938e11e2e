/** Values shared by the cursor client: samples, per-peer records, the
    decoded position message and the constants of src/main.ts. */
module CursorModel {

  /** A peer keeps at most this many samples (`positions.length > 10`). */
  const HistoryLimit: nat := 10

  /** A peer silent for more than this many milliseconds is reaped. */
  const StaleAfterMs: int := 5000

  /** Remote cursors are drawn this many milliseconds in the past. */
  const RenderDelayMs: int := 100

  datatype Option<T> = None | Some(value: T)

  /** One position sample with its arrival time in milliseconds. */
  datatype Sample = Sample(x: real, y: real, timestamp: int)

  /** The per-cursor record (`interface CursorData`). */
  datatype CursorData = CursorData(id: string, lastSeen: int, positions: seq<Sample>)

  /** A decoded `models.Position` message: who moved, and where to. */
  datatype Position = Position(id: string, x: real, y: real)

  /** A computed on-screen place for a marker (`left`, `top`). */
  datatype Point = Point(left: real, top: real)

  /** Timestamps never go backwards along a history. */
  ghost predicate Chronological(ps: seq<Sample>)
  {
    forall i, j :: 0 <= i < j < |ps| ==> ps[i].timestamp <= ps[j].timestamp
  }
}
