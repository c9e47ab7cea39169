/** The bounded `statsHistory` buffer of main.go: monitorProcess appends one record per
    sample and drops the oldest record once the buffer holds more than `maxHistory`. */
module History {
  import opened GoStrconv

  /** `maxHistory`, the capacity the monitor runs with. */
  const MaxHistory: nat := 1000

  /** One sample, `ResourceStats`. The CPU and memory figures come from floating-point
      code outside this model and are kept as exact reals; the timestamp is a parameter. */
  datatype ResourceStats = ResourceStats(
    timestamp: int,
    pid: int,
    processName: seq<char>,
    cpuPercent: real,
    memoryMB: real,
    networkRx: Uint64,
    networkTx: Uint64)

  /** The history after appending `rec` to `h` with capacity `cap`: the record goes on
      the end, and if that makes the history longer than `cap` its head is dropped. */
  function Appended(h: seq<ResourceStats>, rec: ResourceStats, cap: nat): (r: seq<ResourceStats>)
    ensures |h| <= |r| <= |h| + 1
    ensures r == (h + [rec])[|h| + 1 - |r|..]
    ensures |r| > cap ==> |h| > cap
  {
    var grown := h + [rec];
    if |grown| > cap then grown[1..] else grown
  }

  /** A history within its capacity stays within it. */
  lemma AppendedBounded(h: seq<ResourceStats>, rec: ResourceStats, cap: nat)
    requires |h| <= cap
    ensures |Appended(h, rec, cap)| <= cap
    ensures |h| == cap ==> |Appended(h, rec, cap)| == cap
  {
  }

  /** The new record is always kept, as the last element, except when an empty history
      with capacity 0 drops it at once. */
  lemma AppendedLast(h: seq<ResourceStats>, rec: ResourceStats, cap: nat)
    requires cap > 0 || h != []
    ensures Appended(h, rec, cap) != []
    ensures Appended(h, rec, cap)[|Appended(h, rec, cap)| - 1] == rec
  {
  }

  /** Below capacity, nothing is evicted: the old contents followed by the new record. */
  lemma AppendedNotFull(h: seq<ResourceStats>, rec: ResourceStats, cap: nat)
    requires |h| < cap
    ensures Appended(h, rec, cap) == h + [rec]
  {
  }

  /** At capacity, exactly the oldest record is evicted. */
  lemma AppendedFull(h: seq<ResourceStats>, rec: ResourceStats, cap: nat)
    requires |h| == cap && cap > 0
    ensures Appended(h, rec, cap) == h[1..] + [rec]
    ensures Appended(h, rec, cap)[..cap - 1] == h[1..]
  {
    assert (h + [rec])[1..] == h[1..] + [rec];
  }

  /** The history reached by appending `recs`, one after the other, to an empty buffer. */
  function Replay(recs: seq<ResourceStats>, cap: nat): seq<ResourceStats> {
    if recs == [] then []
    else Appended(Replay(recs[..|recs| - 1], cap), recs[|recs| - 1], cap)
  }

  /** The last (up to) `cap` elements of `recs`, in order. */
  function Newest(recs: seq<ResourceStats>, cap: nat): (r: seq<ResourceStats>)
    ensures |r| == if |recs| <= cap then |recs| else cap
  {
    if |recs| <= cap then recs else recs[|recs| - cap..]
  }

  /** Starting empty, the history always holds the newest `cap` records appended, oldest
      first: strict FIFO eviction, and no incoming record is ever dropped in favour of an
      older one. */
  lemma {:induction false} ReplayIsNewest(recs: seq<ResourceStats>, cap: nat)
    ensures Replay(recs, cap) == Newest(recs, cap)
  {
    if recs != [] {
      var n := |recs| - 1;
      var init, rec := recs[..n], recs[n];
      assert recs == init + [rec];
      ReplayIsNewest(init, cap);
      NewestStep(init, rec, cap);
    }
  }

  /** Appending a record to the newest records of a sequence gives the newest records of
      the sequence extended by that record. */
  lemma NewestStep(init: seq<ResourceStats>, rec: ResourceStats, cap: nat)
    ensures Appended(Newest(init, cap), rec, cap) == Newest(init + [rec], cap)
  {
    if |init| < cap {
      NewestStepNotFull(init, rec, cap);
    } else if cap == 0 {
      NewestStepNoCapacity(init, rec);
    } else {
      NewestStepFull(init, rec, cap);
    }
  }

  lemma NewestStepNotFull(init: seq<ResourceStats>, rec: ResourceStats, cap: nat)
    requires |init| < cap
    ensures Appended(Newest(init, cap), rec, cap) == Newest(init + [rec], cap)
  {
    AppendedNotFull(init, rec, cap);
  }

  lemma NewestStepNoCapacity(init: seq<ResourceStats>, rec: ResourceStats)
    ensures Appended(Newest(init, 0), rec, 0) == Newest(init + [rec], 0)
  {
    assert Newest(init, 0) == [];
  }

  lemma NewestStepFull(init: seq<ResourceStats>, rec: ResourceStats, cap: nat)
    requires 0 < cap <= |init|
    ensures Appended(Newest(init, cap), rec, cap) == Newest(init + [rec], cap)
  {
    var prev := init[|init| - cap..];
    AppendedFull(prev, rec, cap);
    assert prev[1..] + [rec] == (init + [rec])[|init| + 1 - cap..];
  }

  /** After `maxHistory` + 1 appends to an empty history, it holds exactly `maxHistory`
      records: all but the first, in insertion order, the newest last. */
  lemma ReplayOverflowOnce(recs: seq<ResourceStats>)
    requires |recs| == MaxHistory + 1
    ensures Replay(recs, MaxHistory) == recs[1..]
    ensures |Replay(recs, MaxHistory)| == MaxHistory
    ensures Replay(recs, MaxHistory)[MaxHistory - 1] == recs[MaxHistory]
    ensures recs[0] !in recs[1..] ==> recs[0] !in Replay(recs, MaxHistory)
  {
    ReplayIsNewest(recs, MaxHistory);
  }

  /** `statsHistory` as a buffer object, sequential (the mutex is not modelled). */
  class StatsHistory {
    var records: seq<ResourceStats>
    const capacity: nat

    /** The buffer never holds more than its capacity. */
    ghost predicate Valid()
      reads this
    {
      |records| <= capacity
    }

    /** An empty history with the given capacity. */
    constructor (cap: nat)
      ensures Valid() && records == [] && capacity == cap
    {
      records := [];
      capacity := cap;
    }

    /** The update of monitorProcess: append, then drop the head if over capacity. */
    method Append(rec: ResourceStats)
      requires Valid()
      modifies this
      ensures Valid()
      ensures records == Appended(old(records), rec, capacity)
    {
      records := records + [rec];
      if |records| > capacity {
        records := records[1..];
      }
    }
  }
}
