/**
 * Clock readings and the durations derived from them: `get_time_ns` turns a
 * CLOCK_MONOTONIC `struct timespec` into a `uint64_t` nanosecond count, and
 * `access_memory` subtracts two such counts taken around one read.
 * The readings themselves come from the operating system and are inputs here.
 */
module Clock {
  import opened Machine

  const NS_PER_SEC: int := 1_000_000_000

  /** The last reading whose nanosecond count still fits in 64 bits is (MAX_SEC, MAX_NSEC). */
  const MAX_SEC: int := 18_446_744_073
  const MAX_NSEC: int := 709_551_615

  /** A `struct timespec`: whole seconds (`tv_sec`) and nanoseconds (`tv_nsec`). */
  datatype Timespec = Timespec(sec: int, nsec: int)
  {
    /** The shape of a CLOCK_MONOTONIC reading: no negative seconds, nanoseconds below one second. */
    predicate Normalized()
    {
      sec >= 0 && 0 <= nsec < NS_PER_SEC
    }

    /** The exact nanosecond count the reading denotes. */
    function Nanos(): int
    {
      sec * NS_PER_SEC + nsec
    }

    /** A normalized reading whose nanosecond count is representable as `uint64_t`. */
    predicate Fits()
    {
      Normalized() && Nanos() < TWO_64
    }

    /** Lexicographic order on (seconds, nanoseconds): this reading is strictly earlier. */
    predicate Before(other: Timespec)
    {
      sec < other.sec || (sec == other.sec && nsec < other.nsec)
    }
  }

  /**
   * `get_time_ns`: `(uint64_t)tv_sec * 1000000000ULL + tv_nsec`, every step in
   * `uint64_t`. The result is the exact nanosecond count reduced modulo 2^64.
   */
  function TimeNs(t: Timespec): (r: u64)
    ensures r == ToU64(t.Nanos())
    ensures t.Fits() ==> r == t.Nanos()
  {
    MulWrapped(t.sec, NS_PER_SEC);
    AddWrapped(t.sec * NS_PER_SEC, ToU64(t.nsec));
    AddWrapped(t.nsec, t.sec * NS_PER_SEC);
    ToU64(ToU64(ToU64(t.sec) * NS_PER_SEC) + ToU64(t.nsec))
  }

  /** A reading that fits is recovered from its nanosecond count by division and remainder. */
  lemma TimeNsDecomposes(t: Timespec)
    requires t.Fits()
    ensures TimeNs(t) / NS_PER_SEC == t.sec
    ensures TimeNs(t) % NS_PER_SEC == t.nsec
  {
    assert TimeNs(t) == t.sec * NS_PER_SEC + t.nsec;
  }

  /** The overflow boundary: a normalized reading fits exactly when it is not later than (MAX_SEC, MAX_NSEC). */
  lemma FitsBoundary(t: Timespec)
    requires t.Normalized()
    ensures t.Fits() <==> t.sec < MAX_SEC || (t.sec == MAX_SEC && t.nsec <= MAX_NSEC)
  {
    assert MAX_SEC * NS_PER_SEC + MAX_NSEC == TWO_64 - 1;
    if t.sec < MAX_SEC {
      assert t.sec * NS_PER_SEC <= (MAX_SEC - 1) * NS_PER_SEC;
    } else if t.sec > MAX_SEC {
      assert t.sec * NS_PER_SEC >= (MAX_SEC + 1) * NS_PER_SEC;
    }
  }

  /** Two readings that fit and give the same count are the same reading. */
  lemma TimeNsInjective(a: Timespec, b: Timespec)
    requires a.Fits() && b.Fits()
    requires TimeNs(a) == TimeNs(b)
    ensures a == b
  {
    TimeNsDecomposes(a);
    TimeNsDecomposes(b);
  }

  /** Among readings that fit, the conversion is strictly monotone in (seconds, nanoseconds) order. */
  lemma TimeNsMonotone(a: Timespec, b: Timespec)
    requires a.Fits() && b.Fits()
    ensures a.Before(b) <==> TimeNs(a) < TimeNs(b)
  {
    if a.sec < b.sec {
      assert a.sec * NS_PER_SEC + NS_PER_SEC <= b.sec * NS_PER_SEC;
    } else if a.sec > b.sec {
      assert b.sec * NS_PER_SEC + NS_PER_SEC <= a.sec * NS_PER_SEC;
    }
  }

  /**
   * Beyond the overflow boundary the order is lost: one second after the last
   * whole second that fits, the count wraps to a value below that second's count.
   */
  lemma WrapBreaksMonotonicity()
    ensures Timespec(MAX_SEC, 0).Before(Timespec(MAX_SEC + 1, 0))
    ensures TimeNs(Timespec(MAX_SEC + 1, 0)) < TimeNs(Timespec(MAX_SEC, 0))
  {
    assert TimeNs(Timespec(MAX_SEC, 0)) == MAX_SEC * NS_PER_SEC;
    assert (MAX_SEC + 1) * NS_PER_SEC - TWO_64 == 290_448_384;
    ModShift(290_448_384, 1);
    assert TimeNs(Timespec(MAX_SEC + 1, 0)) == 290_448_384;
  }

  /**
   * The `uint64_t` difference `end - start`: the unique `uint64_t` that, added
   * to `start` with wrap-around, gives `end`.
   */
  function Elapsed(start: u64, end: u64): (d: u64)
    ensures ToU64(start + d) == end
    ensures start <= end ==> d == end - start
    ensures end < start ==> d == end - start + TWO_64
  {
    ModShift(end - start, 1);
    ToU64(end - start)
  }

  /** No other `uint64_t` completes `start` to `end`: the wrapped difference is the only inverse of wrapped addition. */
  lemma ElapsedUnique(start: u64, end: u64, d: u64)
    requires ToU64(start + d) == end
    ensures d == Elapsed(start, end)
  {
    if start + d >= TWO_64 {
      ModShift(start + d - TWO_64, 1);
    }
  }

  /**
   * A clock that did not go backward, read twice within the range that fits,
   * yields a difference that is the true elapsed time: nothing wraps.
   */
  lemma OrderedReadingsElapsed(before: Timespec, after: Timespec)
    ensures before.Fits() && after.Fits() && !after.Before(before) ==>
              Elapsed(TimeNs(before), TimeNs(after)) == after.Nanos() - before.Nanos()
  {
    if before.Fits() && after.Fits() {
      TimeNsMonotone(after, before);
    }
  }

  /**
   * `access_memory`: read a timestamp, read `buffer[index]` (the value is
   * discarded and only the index must be in bounds), read a second timestamp
   * and return their `uint64_t` difference.
   */
  function AccessMemory(buffer: seq<int>, index: int, before: Timespec, after: Timespec): (d: u64)
    requires 0 <= index < |buffer|
    ensures ToU64(TimeNs(before) + d) == TimeNs(after)
    ensures before.Fits() && after.Fits() && !after.Before(before) ==> d == after.Nanos() - before.Nanos()
  {
    OrderedReadingsElapsed(before, after);
    Elapsed(TimeNs(before), TimeNs(after))
  }
}
