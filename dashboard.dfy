/**
 * The shared calculation `reactive_calc_combined` and the history deque it
 * appends to. The timer's invalidation is an explicit tick counter; the
 * calculation's cache is the tick it last ran in and the tuple it returned.
 */
module Dashboard {
  import opened Options
  import opened BoundedQueue
  import opened Telemetry
  import opened Display

  /** The cached result: the tick it was computed in and the tuple. */
  datatype Memo = Memo(tick: nat, value: Snapshot)

  class ReactiveCalc {
    /** The deque, created with maximum length `DequeSize`, that every tick appends to. */
    const history: BoundedDeque<Reading>
    /** Number of timer invalidations so far. */
    var currentTick: nat
    /** The last computed tuple and the tick it belongs to; none before the first read. */
    var memo: Option<Memo>
    /** Every reading the calculation has produced, oldest first. */
    ghost var produced: seq<Reading>

    /**
     * The deque holds the last `DequeSize` readings ever produced; every
     * produced temperature is in range; the cached tuple, once there is one,
     * is consistent, was computed no later than now, and captures the deque
     * as it is and the newest reading produced.
     */
    ghost predicate Valid()
      reads this, history
    {
      && history.Valid() && history.maxlen == DequeSize
      && history.items == TakeLast(produced, DequeSize)
      && AllValid(produced)
      && (memo.None? ==> produced == [])
      && (memo.Some? ==>
            && memo.value.tick <= currentTick
            && Consistent(memo.value.value)
            && memo.value.value.history == history.items
            && produced != [] && memo.value.value.latest == produced[|produced| - 1])
    }

    /** The cached tuple belongs to the current tick, so a read returns it as it is. */
    predicate Fresh()
      reads this
    {
      memo.Some? && memo.value.tick == currentTick
    }

    /** Session start: an empty deque of maximum length 5, and nothing computed yet. */
    constructor ()
      ensures Valid() && fresh(history)
      ensures history.items == [] && produced == [] && currentTick == 0 && memo == None
      ensures !Fresh()
    {
      history := new BoundedDeque(DequeSize);
      currentTick := 0;
      memo := None;
      produced := [];
    }

    /** The timer fires (`invalidate_later`): the cached tuple goes stale; nothing is sampled. */
    method Tick()
      requires Valid()
      modifies this
      ensures Valid() && !Fresh()
      ensures currentTick == old(currentTick) + 1
      ensures memo == old(memo) && produced == old(produced)
      ensures unchanged(history)
    {
      currentTick := currentTick + 1;
    }

    /**
     * A reader calls `reactive_calc_combined()`. If the cache belongs to this
     * tick, the cached tuple comes back and nothing changes. Otherwise the
     * calculation runs once: `r` (the sampled reading) is appended to the
     * deque, evicting the oldest reading if it was full, and the tuple of the
     * new history, its table and `r` is cached for this tick and returned.
     */
    method Get(r: Reading) returns (s: Snapshot)
      requires Valid() && ValidTemp(r.temp)
      modifies this, history
      ensures Valid() && Fresh() && currentTick == old(currentTick)
      ensures Consistent(s) && s.history == history.items && memo == Some(Memo(currentTick, s))
      ensures old(Fresh()) ==>
        s == old(memo).value.value && produced == old(produced) && history.items == old(history.items)
      ensures !old(Fresh()) ==>
        && produced == old(produced) + [r] && s.latest == r
        && history.items == BoundedAppend(old(history.items), r, DequeSize)
    {
      if Fresh() {
        s := memo.value.value;
        return;
      }
      StepConsistent(history.items, r);
      history.Append(r);
      BoundedAppendTakeLast(produced, r, DequeSize);
      AllValidAppend(produced, r);
      produced := produced + [r];
      s := Snapshot(history.items, ToFrame(history.items), r);
      memo := Some(Memo(currentTick, s));
    }

    /**
     * One render pass: the temperature text, the time text, the data grid and
     * the chart each call the calculation. All four see the same tuple, and
     * at most one reading is produced between them: exactly one if the cache
     * was stale, none otherwise.
     */
    method RenderPass(r: Reading) returns (temp: string, time: string, table: Table, plot: Option<seq<Point>>)
      requires Valid() && ValidTemp(r.temp)
      modifies this, history
      ensures Valid() && Fresh() && currentTick == old(currentTick)
      ensures var s := memo.value.value;
        temp == DisplayTemp(s) && time == DisplayTime(s) && table == DisplayTable(s) && plot == DisplayPlot(s)
      ensures old(Fresh()) ==> memo == old(memo) && produced == old(produced)
      ensures !old(Fresh()) ==> produced == old(produced) + [r] && memo.value.value.latest == r
      ensures plot.Some? && !table.Empty()
    {
      var s1 := Get(r);
      temp := DisplayTemp(s1);
      var s2 := Get(r);
      time := DisplayTime(s2);
      var s3 := Get(r);
      table := DisplayTable(s3);
      var s4 := Get(r);
      plot := DisplayPlot(s4);
    }

    /**
     * Any number of reads, one after another, within one timer period: all
     * of them return the same tuple, and at most one reading is produced
     * between them, by the first read and only if the cache was stale.
     */
    method ReadRepeatedly(rs: seq<Reading>) returns (ss: seq<Snapshot>)
      requires Valid() && AllValid(rs)
      modifies this, history
      ensures Valid() && currentTick == old(currentTick)
      ensures |ss| == |rs|
      ensures rs != [] ==> Fresh() && forall i :: 0 <= i < |ss| ==> ss[i] == memo.value.value
      ensures old(Fresh()) || rs == [] ==> produced == old(produced) && memo == old(memo)
      ensures !old(Fresh()) && rs != [] ==> produced == old(produced) + [rs[0]]
    {
      ss := [];
      var i := 0;
      while i < |rs|
        invariant 0 <= i <= |rs| && |ss| == i
        invariant Valid() && currentTick == old(currentTick)
        invariant 0 < i ==> Fresh()
        invariant 0 < i ==> forall k :: 0 <= k < i ==> ss[k] == memo.value.value
        invariant old(Fresh()) || i == 0 ==> produced == old(produced) && memo == old(memo)
        invariant !old(Fresh()) && 0 < i ==> produced == old(produced) + [rs[0]]
      {
        var s := Get(rs[i]);
        ss := ss + [s];
        i := i + 1;
      }
    }

    /**
     * One timer period: the invalidation fires, then a render pass samples
     * `r` exactly once and every reader shows that reading.
     */
    method Period(r: Reading) returns (temp: string, time: string, table: Table, plot: Option<seq<Point>>)
      requires Valid() && ValidTemp(r.temp)
      modifies this, history
      ensures Valid() && Fresh() && currentTick == old(currentTick) + 1
      ensures produced == old(produced) + [r] && memo.value.value.latest == r
      ensures history.items == BoundedAppend(old(history.items), r, DequeSize)
      ensures time == r.timestamp && 2 <= |temp| && ParseTenths(temp[..|temp| - 2]) == Some(r.temp)
      ensures temp[|temp| - 2..] == " F" && table == ToFrame(history.items) && plot.Some?
    {
      Tick();
      temp, time, table, plot := RenderPass(r);
    }

    /**
     * A session of `|rs|` timer periods, each followed by a render pass that
     * samples `rs[i]`. Every reading is produced exactly once, and the deque
     * ends up holding the last five of everything produced, oldest first.
     */
    method RunSession(rs: seq<Reading>)
      requires Valid() && AllValid(rs)
      modifies this, history
      ensures Valid()
      ensures produced == old(produced) + rs
      ensures history.items == TakeLast(old(produced) + rs, DequeSize)
      ensures history.items == Replay(old(history.items), rs, DequeSize)
      ensures currentTick == old(currentTick) + |rs|
      ensures 0 < |rs| ==> Fresh() && memo.value.value.latest == rs[|rs| - 1]
    {
      var i := 0;
      while i < |rs|
        invariant 0 <= i <= |rs|
        invariant Valid()
        invariant produced == old(produced) + rs[..i]
        invariant currentTick == old(currentTick) + i
        invariant 0 < i ==> Fresh()
      {
        var temp, time, table, plot := Period(rs[i]);
        assert rs[..i + 1] == rs[..i] + [rs[i]];
        i := i + 1;
      }
      assert rs[..i] == rs;
      ReplayKeepsLast(old(history.items), rs, DequeSize);
      TakeLastAppend(old(produced), rs, DequeSize);
    }
  }

  /**
   * A new session run for six timer periods with readings A..F: the deque
   * then holds B, C, D, E, F, and a further read in the same period returns
   * that history with F as the latest reading and F's timestamp as the time.
   */
  method SixTicks(a: Reading, b: Reading, c: Reading, d: Reading, e: Reading, f: Reading)
    returns (s: Snapshot)
    requires AllValid([a, b, c, d, e, f])
    ensures s.history == [b, c, d, e, f] && s.latest == f && DisplayTime(s) == f.timestamp
  {
    assert ValidTemp([a, b, c, d, e, f][0].temp);
    var engine := new ReactiveCalc();
    engine.RunSession([a, b, c, d, e, f]);
    assert [] + [a, b, c, d, e, f] == [a, b, c, d, e, f];
    assert engine.history.items == [b, c, d, e, f];
    s := engine.Get(a);
  }
}
