/** Clock readings: seconds and nanoseconds, and the arithmetic the program does on them. */
module Time {
  const NS_PER_SEC := 1_000_000_000
  const NS_PER_MS := 1_000_000

  datatype Timespec = Timespec(sec: int, nsec: int)

  predicate Normal(t: Timespec) {
    0 <= t.nsec < NS_PER_SEC
  }

  function Ns(t: Timespec): int {
    t.sec * NS_PER_SEC + t.nsec
  }

  /** `add_timespec`: carries at most one second. */
  function AddTimespec(t1: Timespec, t2: Timespec): (t: Timespec)
    requires Normal(t1) && Normal(t2)
    ensures Normal(t) && Ns(t) == Ns(t1) + Ns(t2)
  {
    var t := Timespec(t2.sec + t1.sec, t2.nsec + t1.nsec);
    if t.nsec >= NS_PER_SEC then Timespec(t.sec + 1, t.nsec - NS_PER_SEC) else t
  }

  /** `timespec_diff`: borrows at most one second. */
  function TimespecDiff(start: Timespec, stop: Timespec): (t: Timespec)
    requires Normal(start) && Normal(stop)
    ensures Normal(t) && Ns(t) == Ns(stop) - Ns(start)
  {
    if stop.nsec - start.nsec < 0 then
      Timespec(stop.sec - start.sec - 1, stop.nsec - start.nsec + NS_PER_SEC)
    else Timespec(stop.sec - start.sec, stop.nsec - start.nsec)
  }

  /** The whole milliseconds between two readings, as the main loop computes them. */
  function ElapsedMs(start: Timespec, stop: Timespec): (ms: int)
    requires Normal(start) && Normal(stop)
    ensures ms * NS_PER_MS <= Ns(stop) - Ns(start) < (ms + 1) * NS_PER_MS
  {
    var diff := TimespecDiff(start, stop);
    diff.sec * 1000 + diff.nsec / NS_PER_MS
  }
}
