/**
 The heartbeat: the main loop adds the length of every poll to a counter, a ping sets it back to zero, and a
 counter that has reached the timeout is taken for a missed ping. While the network interface is down the counter is
 paused at zero.
 */
module HeartBeat {
  import opened Time

  const UINT_RANGE := 0x1_0000_0000

  /** What reaches the timer from elsewhere: a ping or another reset, and the interface going down and up. */
  datatype Signal = Ping(at: int) | Down(at: int) | Up(at: int)

  /** The counter and its pause flag. */
  datatype Clock = Clock(counter: nat, paused: bool)

  function Heard(c: Clock, signal: Signal): Clock {
    match signal
    case Ping(_) => c.(counter := 0)
    case Down(_) => Clock(0, true)
    case Up(_) => c.(paused := false)
  }

  function HeardAll(c: Clock, signals: seq<Signal>): Clock {
    if signals == [] then c else Heard(HeardAll(c, signals[..|signals| - 1]), signals[|signals| - 1])
  }

  predicate Missed(c: Clock, timeoutMs: nat) {
    c.counter >= timeoutMs
  }

  /** After the check: the counter starts again after a miss, and else grows by the poll, unless it is paused. */
  function Counted(c: Clock, ms: int, timeoutMs: nat): Clock {
    if Missed(c, timeoutMs) then c.(counter := 0)
    else if c.paused then c
    else c.(counter := (c.counter + ms) % UINT_RANGE)
  }

  class Timer {
    var counter: nat
    var paused: bool

    function State(): Clock
      reads this
    {
      Clock(counter, paused)
    }

    constructor ()
      ensures State() == Clock(0, false)
    {
      counter, paused := 0, false;
    }

    method Reset()
      modifies this`counter
      ensures counter == 0
    {
      counter := 0;
    }

    /** Unsigned addition wraps. */
    method Increment(ms: int)
      modifies this`counter
      ensures counter == if paused then old(counter) else (old(counter) + ms) % UINT_RANGE
    {
      if !paused {
        counter := (counter + ms) % UINT_RANGE;
      }
    }

    method Pause()
      modifies this
      ensures State() == Clock(0, true)
    {
      counter, paused := 0, true;
    }

    method Resume()
      modifies this`paused
      ensures !paused
    {
      paused := false;
    }

    method Hear(signal: Signal)
      modifies this
      ensures State() == Heard(old(State()), signal)
    {
      match signal {
        case Ping(_) => Reset();
        case Down(_) => Pause();
        case Up(_) => Resume();
      }
    }

    /**
     One round of the main loop after a poll from `start` to `stop` in which the signals arrived: the check, and then a
     reset or the poll's length. Ping_Miss is declared only when `missed` (and no retry is under way).
     */
    method Round(start: Timespec, stop: Timespec, signals: seq<Signal>, timeoutMs: nat) returns (missed: bool)
      requires Normal(start) && Normal(stop)
      modifies this
      ensures missed == Missed(HeardAll(old(State()), signals), timeoutMs)
      ensures State() == Counted(HeardAll(old(State()), signals), ElapsedMs(start, stop), timeoutMs)
    {
      var i := 0;
      while i < |signals|
        invariant i <= |signals| && State() == HeardAll(old(State()), signals[..i])
      {
        assert signals[..i + 1][..i] == signals[..i];
        Hear(signals[i]);
        i := i + 1;
      }
      assert signals[..i] == signals;
      var ms := ElapsedMs(start, stop);
      missed := counter >= timeoutMs;
      if missed {
        Reset();
      } else {
        Increment(ms);
      }
    }
  }

  // ---------- runs ----------

  /** A poll, with the signals that arrived in it, or a signal that arrived elsewhere in the loop. */
  datatype Event =
    | Poll(start: Timespec, stop: Timespec, signals: seq<Signal>)
    | Outside(signal: Signal)

  /**
   The timer, the present, the time of the last ping, pause or reset, and how long the poll in which it arrived had
   been running by then.
   */
  datatype State = State(clock: Clock, now: int, lastReset: int, lead: int)

  /** Time does not run backwards, and signals arrive during their poll. */
  predicate Timed(s: State, e: Event) {
    match e
    case Poll(start, stop, signals) =>
      Normal(start) && Normal(stop) && s.now <= Ns(start) <= Ns(stop) &&
      forall signal <- signals :: Ns(start) <= signal.at <= Ns(stop)
    case Outside(signal) => s.now <= signal.at
  }

  /** A signal heard in a poll that began at `from`. */
  function Hear(s: State, signal: Signal, from: int): State {
    var clock := Heard(s.clock, signal);
    if signal.Up? then s.(clock := clock)
    else State(clock, s.now, signal.at, signal.at - from)
  }

  function HearAll(s: State, signals: seq<Signal>, from: int): (t: State)
    ensures t.clock == HeardAll(s.clock, signals) && t.now == s.now
  {
    if signals == [] then s else Hear(HearAll(s, signals[..|signals| - 1], from), signals[|signals| - 1], from)
  }

  /** The state at the check, after the poll's signals. */
  function Checked(s: State, e: Event): State
    requires e.Poll?
  {
    HearAll(s.(now := Ns(e.stop)), e.signals, Ns(e.start))
  }

  function Step(s: State, e: Event, timeoutMs: nat): State
    requires Timed(s, e)
  {
    match e
    case Outside(signal) => Hear(s.(now := signal.at), signal, signal.at)
    case Poll(start, stop, _) =>
      var c := Checked(s, e);
      var clock := Counted(c.clock, ElapsedMs(start, stop), timeoutMs);
      if Missed(c.clock, timeoutMs) then State(clock, c.now, c.now, 0) else c.(clock := clock)
  }

  /** The events of a run from time `t0`, each in its time. */
  predicate IsRun(t0: int, events: seq<Event>, timeoutMs: nat)
    decreases |events|, 0
  {
    events == [] ||
    (IsRun(t0, events[..|events| - 1], timeoutMs) &&
     Timed(After(t0, events[..|events| - 1], timeoutMs), events[|events| - 1]))
  }

  function After(t0: int, events: seq<Event>, timeoutMs: nat): State
    requires IsRun(t0, events, timeoutMs)
    decreases |events|, 1
  {
    if events == [] then State(Clock(0, false), t0, t0, 0)
    else Step(After(t0, events[..|events| - 1], timeoutMs), events[|events| - 1], timeoutMs)
  }

  /** The counter, in nanoseconds, is at most the time since the last reset plus the lead of its poll. */
  predicate Bounded(s: State) {
    s.clock.counter * NS_PER_MS <= s.now - s.lastReset + s.lead && s.lastReset <= s.now && 0 <= s.lead
  }

  /** At the check the counter does not include the poll yet. */
  predicate BoundedBefore(s: State, ns: int) {
    s.clock.counter * NS_PER_MS <= s.now - ns - s.lastReset + s.lead && s.lastReset <= s.now && 0 <= s.lead
  }

  lemma {:induction false} HearKeepsBound(s: State, signals: seq<Signal>, from: int)
    requires BoundedBefore(s, s.now - from) && forall signal <- signals :: from <= signal.at <= s.now
    ensures BoundedBefore(HearAll(s, signals, from), s.now - from)
  {
    if signals != [] {
      var n := |signals| - 1;
      assert signals[n] in signals;
      HearKeepsBound(s, signals[..n], from);
    }
  }

  lemma WrapIsLess(x: nat)
    ensures x % UINT_RANGE <= x
  {
  }

  lemma CheckedIsBounded(s: State, e: Event)
    requires Bounded(s) && Timed(s, e) && e.Poll?
    ensures BoundedBefore(Checked(s, e), Ns(e.stop) - Ns(e.start)) && Checked(s, e).now == Ns(e.stop)
  {
    HearKeepsBound(s.(now := Ns(e.stop)), e.signals, Ns(e.start));
  }

  lemma StepKeepsBound(s: State, e: Event, timeoutMs: nat)
    requires Bounded(s) && Timed(s, e)
    ensures Bounded(Step(s, e, timeoutMs))
  {
    if e.Poll? {
      CheckedIsBounded(s, e);
      var ms := ElapsedMs(e.start, e.stop);
      assert 0 <= ms;
      WrapIsLess(Checked(s, e).clock.counter + ms);
    }
  }

  lemma {:induction false} RunIsBounded(t0: int, events: seq<Event>, timeoutMs: nat)
    requires IsRun(t0, events, timeoutMs)
    ensures Bounded(After(t0, events, timeoutMs))
  {
    if events != [] {
      var n := |events| - 1;
      RunIsBounded(t0, events[..n], timeoutMs);
      StepKeepsBound(After(t0, events[..n], timeoutMs), events[n], timeoutMs);
    }
  }

  // ---------- no early miss ----------

  /** A poll lasts at most this many nanoseconds. */
  predicate Within(e: Event, longest: nat) {
    e.Poll? ==> Ns(e.stop) - Ns(e.start) <= longest
  }

  /** The lead set by a poll's signals is at most that poll's length. */
  lemma {:induction false} LeadIsWithinPoll(s: State, signals: seq<Signal>, from: int, longest: nat)
    requires s.lead <= longest && s.now - from <= longest && forall signal <- signals :: signal.at <= s.now
    ensures HearAll(s, signals, from).lead <= longest
  {
    if signals != [] {
      var n := |signals| - 1;
      assert signals[n] in signals;
      LeadIsWithinPoll(s, signals[..n], from, longest);
    }
  }

  /** Over a run whose polls are that short, the lead is that short. */
  lemma {:induction false} LeadIsShort(t0: int, events: seq<Event>, timeoutMs: nat, longest: nat)
    requires IsRun(t0, events, timeoutMs) && forall e <- events :: Within(e, longest)
    ensures After(t0, events, timeoutMs).lead <= longest
  {
    if events != [] {
      var n := |events| - 1;
      var s, e := After(t0, events[..n], timeoutMs), events[n];
      assert e in events;
      LeadIsShort(t0, events[..n], timeoutMs, longest);
      if e.Poll? {
        LeadIsWithinPoll(s.(now := Ns(e.stop)), e.signals, Ns(e.start), longest);
      }
    }
  }

  /**
   Over every run, pauses included: at the check that declares a miss, the time since the last ping, pause or reset up
   to the start of that poll is at least the timeout, less the longest poll so far.
   */
  lemma NoEarlyMiss(t0: int, events: seq<Event>, poll: Event, timeoutMs: nat, longest: nat)
    requires IsRun(t0, events + [poll], timeoutMs) && poll.Poll?
    requires forall e <- events + [poll] :: Within(e, longest)
    requires Missed(Checked(Before(t0, events, poll, timeoutMs), poll).clock, timeoutMs)
    ensures var c := Checked(Before(t0, events, poll, timeoutMs), poll);
            timeoutMs * NS_PER_MS <= Ns(poll.start) - c.lastReset + longest
  {
    var s := Before(t0, events, poll, timeoutMs);
    assert poll in events + [poll] && forall e <- events :: e in events + [poll];
    RunIsBounded(t0, events, timeoutMs);
    CheckedIsBounded(s, poll);
    LeadIsShort(t0, events, timeoutMs, longest);
    LeadIsWithinPoll(s.(now := Ns(poll.stop)), poll.signals, Ns(poll.start), longest);
  }

  /** The state before the last poll of a run. */
  function Before(t0: int, events: seq<Event>, poll: Event, timeoutMs: nat): (s: State)
    requires IsRun(t0, events + [poll], timeoutMs)
    ensures IsRun(t0, events, timeoutMs) && s == After(t0, events, timeoutMs) && Timed(s, poll)
  {
    assert (events + [poll])[..|events|] == events;
    After(t0, events, timeoutMs)
  }

  // ---------- the counter is the polled time ----------

  predicate Resets(signals: seq<Signal>) {
    exists signal <- signals :: !signal.Up?
  }

  lemma {:induction false} HeardCounter(c: Clock, signals: seq<Signal>)
    ensures HeardAll(c, signals).counter == if Resets(signals) then 0 else c.counter
  {
    if signals != [] {
      var front, last := signals[..|signals| - 1], signals[|signals| - 1];
      HeardCounter(c, front);
      assert signals == front + [last];
      assert Resets(signals) <==> Resets(front) || !last.Up? by {
        if Resets(front) {
          var signal :| signal in front && !signal.Up?;
          assert signal in signals;
        }
        assert last in signals;
      }
    }
  }

  /** Milliseconds of the polls since the last ping, pause, reset or declared miss, but for those ended in a pause. */
  function PolledMs(t0: int, events: seq<Event>, timeoutMs: nat): nat
    requires IsRun(t0, events, timeoutMs)
  {
    if events == [] then 0
    else
      var n := |events| - 1;
      var s, e, before := After(t0, events[..n], timeoutMs), events[n], PolledMs(t0, events[..n], timeoutMs);
      if e.Outside? then if e.signal.Up? then before else 0
      else if Missed(Checked(s, e).clock, timeoutMs) then 0
      else
        (if Resets(e.signals) then 0 else before) +
        (if Checked(s, e).clock.paused then 0 else ElapsedMs(e.start, e.stop))
  }

  lemma CounterStep(s: State, e: Event, timeoutMs: nat, longest: nat)
    requires Timed(s, e) && timeoutMs + longest < UINT_RANGE && s.clock.counter <= timeoutMs + longest
    requires e.Poll? ==> ElapsedMs(e.start, e.stop) <= longest
    ensures var t := Step(s, e, timeoutMs).clock;
            t.counter <= timeoutMs + longest &&
            t.counter ==
              if e.Outside? then if e.signal.Up? then s.clock.counter else 0
              else if Missed(Checked(s, e).clock, timeoutMs) then 0
              else
                (if Resets(e.signals) then 0 else s.clock.counter) +
                (if Checked(s, e).clock.paused then 0 else ElapsedMs(e.start, e.stop))
  {
    if e.Poll? {
      HeardCounter(s.clock, e.signals);
      assert 0 <= ElapsedMs(e.start, e.stop);
    }
  }

  /**
   With a timeout and polls that leave room below 2^32 the counter is exactly the polled time, so a ping is
   declared missed as soon as that time has reached the timeout.
   */
  lemma {:induction false} CounterIsPolledTime(t0: int, events: seq<Event>, timeoutMs: nat, longest: nat)
    requires IsRun(t0, events, timeoutMs) && timeoutMs + longest < UINT_RANGE
    requires forall e <- events :: e.Poll? && Normal(e.start) && Normal(e.stop) ==>
               ElapsedMs(e.start, e.stop) <= longest
    ensures After(t0, events, timeoutMs).clock.counter == PolledMs(t0, events, timeoutMs) <= timeoutMs + longest
  {
    if events != [] {
      var n := |events| - 1;
      assert events[n] in events;
      CounterIsPolledTime(t0, events[..n], timeoutMs, longest);
      CounterStep(After(t0, events[..n], timeoutMs), events[n], timeoutMs, longest);
    }
  }

  /** With that room a poll ends in a declared miss exactly when the time polled before it has reached the timeout. */
  lemma MissIff(t0: int, events: seq<Event>, poll: Event, timeoutMs: nat, longest: nat)
    requires IsRun(t0, events + [poll], timeoutMs) && poll.Poll? && timeoutMs + longest < UINT_RANGE
    requires forall e <- events :: e.Poll? && Normal(e.start) && Normal(e.stop) ==>
               ElapsedMs(e.start, e.stop) <= longest
    ensures Missed(Checked(Before(t0, events, poll, timeoutMs), poll).clock, timeoutMs) <==>
            (if Resets(poll.signals) then 0 else PolledMs(t0, events, timeoutMs)) >= timeoutMs
  {
    HeardCounter(Before(t0, events, poll, timeoutMs).clock, poll.signals);
    CounterIsPolledTime(t0, events, timeoutMs, longest);
  }

  // ---------- the pause ----------

  /** The interface went down with signal i and did not come up in a later one. */
  predicate DownSince(signals: seq<Signal>, i: nat)
    requires i < |signals|
  {
    signals[i].Down? && forall k :: i < k < |signals| ==> !signals[k].Up?
  }

  predicate AnyUp(signals: seq<Signal>) {
    exists signal <- signals :: signal.Up?
  }

  /** The timer is paused exactly while the interface is down. */
  lemma {:induction false} PausedIff(c: Clock, signals: seq<Signal>)
    ensures HeardAll(c, signals).paused <==>
            (c.paused && !AnyUp(signals)) || exists i :: 0 <= i < |signals| && DownSince(signals, i)
  {
    if signals != [] {
      var n := |signals| - 1;
      var front, last := signals[..n], signals[n];
      PausedIff(c, front);
      assert signals == front + [last] && last in signals;
      assert !last.Up? ==> forall i :: 0 <= i < n ==> DownSince(front, i) == DownSince(signals, i);
      assert last.Down? ==> DownSince(signals, n);
      assert forall signal <- front :: signal in signals;
    }
  }

  lemma {:induction false} HeardPauseIsZero(c: Clock, signals: seq<Signal>)
    requires c.paused ==> c.counter == 0
    ensures var d := HeardAll(c, signals); d.paused ==> d.counter == 0
  {
    if signals != [] {
      HeardPauseIsZero(c, signals[..|signals| - 1]);
    }
  }

  /** Over every run the counter of a paused timer is zero, so nothing is missed while the interface is down. */
  lemma {:induction false} PauseIsZero(t0: int, events: seq<Event>, timeoutMs: nat)
    requires IsRun(t0, events, timeoutMs)
    ensures var c := After(t0, events, timeoutMs).clock; c.paused ==> c.counter == 0
  {
    if events != [] {
      var n := |events| - 1;
      PauseIsZero(t0, events[..n], timeoutMs);
      if events[n].Poll? {
        HeardPauseIsZero(After(t0, events[..n], timeoutMs).clock, events[n].signals);
      }
    }
  }

  lemma NoMissWhilePaused(t0: int, events: seq<Event>, poll: Event, timeoutMs: nat)
    requires IsRun(t0, events + [poll], timeoutMs) && poll.Poll? && timeoutMs > 0
    requires Checked(Before(t0, events, poll, timeoutMs), poll).clock.paused
    ensures !Missed(Checked(Before(t0, events, poll, timeoutMs), poll).clock, timeoutMs)
  {
    PauseIsZero(t0, events, timeoutMs);
    HeardPauseIsZero(Before(t0, events, poll, timeoutMs).clock, poll.signals);
  }
}
