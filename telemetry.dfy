/**
 * The data the dashboard samples: one reading per tick, the table built from
 * the retained readings, and the tuple the shared calculation returns.
 */
module Telemetry {
  import opened BoundedQueue

  /** Number of readings the history deque retains. */
  const DequeSize: nat := 5

  /** Bounds of the generated temperature, in tenths of a degree Fahrenheit (65.0 to 76.0). */
  const MinTemp: int := 650
  const MaxTemp: int := 760

  /**
   * One reading `{"temp": ..., "timestamp": ...}`. The temperature is kept in
   * tenths of a degree, since the source rounds it to one decimal place; the
   * timestamp is the already formatted wall-clock string.
   */
  datatype Reading = Reading(temp: int, timestamp: string)

  predicate ValidTemp(t: int) {
    MinTemp <= t <= MaxTemp
  }

  predicate AllValid(h: seq<Reading>) {
    forall i :: 0 <= i < |h| ==> ValidTemp(h[i].temp)
  }

  lemma AllValidAppend(h: seq<Reading>, r: Reading)
    requires AllValid(h) && ValidTemp(r.temp)
    ensures AllValid(h + [r])
  {
  }

  /** The table built from the history: one column per key, one row per reading. */
  datatype Frame = Frame(temp: seq<int>, timestamp: seq<string>) {
    /** A table is empty when it has no rows. */
    predicate Empty() {
      |temp| == 0
    }
  }

  /** A table's columns all have one entry per row. */
  type Table = f: Frame | |f.temp| == |f.timestamp| witness Frame([], [])

  /** Builds the table from the readings, oldest row first. */
  function ToFrame(h: seq<Reading>): (f: Table)
    ensures |f.temp| == |h| && |f.timestamp| == |h|
    ensures forall i {:trigger f.temp[i]} :: 0 <= i < |h| ==> f.temp[i] == h[i].temp
    ensures forall i {:trigger f.timestamp[i]} :: 0 <= i < |h| ==> f.timestamp[i] == h[i].timestamp
    ensures f.Empty() <==> h == []
  {
    if h == [] then Frame([], [])
    else
      var rest := ToFrame(h[1..]);
      Frame([h[0].temp] + rest.temp, [h[0].timestamp] + rest.timestamp)
  }

  /** The tuple the shared calculation returns: the history, its table and the newest reading. */
  datatype Snapshot = Snapshot(history: seq<Reading>, frame: Table, latest: Reading)

  /**
   * What every tuple handed to the readers satisfies: the history is non-empty
   * and within the deque's bound, its last entry is `latest`, the table is
   * built from it, and every temperature is in range.
   */
  predicate Consistent(s: Snapshot) {
    && 0 < |s.history| <= DequeSize
    && s.history[|s.history| - 1] == s.latest
    && s.frame == ToFrame(s.history)
    && AllValid(s.history)
  }

  /**
   * The tuple one tick builds: the reading is appended to the deque first, so
   * the captured history ends with it and its table is never empty.
   */
  lemma StepConsistent(items: seq<Reading>, r: Reading)
    requires |items| <= DequeSize && AllValid(items) && ValidTemp(r.temp)
    ensures var h := BoundedAppend(items, r, DequeSize);
      Consistent(Snapshot(h, ToFrame(h), r)) && !ToFrame(h).Empty()
  {
  }
}
