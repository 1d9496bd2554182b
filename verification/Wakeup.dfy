/**
 The protocol around one message queue: any number of producers, one consumer and the main thread, interleaved
 at the level of single lock, wait and signal operations. A producer signals only on the step from empty to
 non-empty; a blocked consumer may also wake up spuriously; main signals once, when its own loop has ended, which
 can be before `g_shutdown` is set.
 */
module Wakeup {
  import opened Wrappers

  datatype Actor = Producer(id: nat) | Consumer | Main

  /** Wanting waits for the lock; Appending, Signalling and Unlocking hold it. */
  datatype ProducerPc<T> = Idle | Wanting(m: T) | Appending(m: T) | Signalling | Unlocking

  /**
   Checking, Took, MustWait, Relocked and Leaving hold the lock. MustWait has found the queue empty and no
   shutdown; Blocked sleeps on the condition; Woken waits to get the lock back.
   */
  datatype ConsumerPc<T> =
    | Top | Checking | Took(m: T) | Processing(m: T)
    | MustWait | Blocked | Woken | Relocked | Leaving | Exited

  datatype MainPc = Running | WantsLock | HasLock | Signalled | Done

  datatype State<T> = State(
    queue: seq<T>,
    owner: Option<Actor>,
    producers: map<nat, ProducerPc<T>>,
    consumer: ConsumerPc<T>,
    main: MainPc,
    shutdown: bool,
    told: bool,         // shutdown was set when main gave the lock back after its signal
    history: seq<T>,    // every message ever appended
    processed: seq<T>)  // every message the consumer is done with

  function Pc<T>(s: State<T>, p: nat): ProducerPc<T> {
    if p in s.producers then s.producers[p] else Idle
  }

  function InFlight<T>(c: ConsumerPc<T>): seq<T> {
    if c.Took? || c.Processing? then [c.m] else []
  }

  predicate Init<T>(s: State<T>) {
    s == State([], None, map[], Top, Running, false, false, [], [])
  }

  datatype Step<T> =
    | Want(p: nat, m: T) | Lock(p: nat) | Append(p: nat) | Signal(p: nat) | Unlock(p: nat)
    | CLock | CPop | CRelease | CDone | CDecideWait | CWait | CSpurious | CRelock | CUnlock | CSeeShutdown | CExit
    | SetShutdown | MStart | MLock | MSignal | MUnlock

  predicate Enabled<T>(s: State<T>, step: Step<T>) {
    match step
    case Want(p, _) => Pc(s, p).Idle?
    case Lock(p) => Pc(s, p).Wanting? && s.owner.None?
    case Append(p) => Pc(s, p).Appending?
    case Signal(p) => Pc(s, p).Signalling?
    case Unlock(p) => Pc(s, p).Unlocking?
    case CLock => s.consumer.Top? && s.owner.None?
    case CPop => s.consumer.Checking? && s.queue != []
    case CRelease => s.consumer.Took?
    case CDone => s.consumer.Processing?
    case CDecideWait => s.consumer.Checking? && s.queue == [] && !s.shutdown
    case CWait => s.consumer.MustWait?
    case CSpurious => s.consumer.Blocked?
    case CRelock => s.consumer.Woken? && s.owner.None?
    case CUnlock => s.consumer.Relocked?
    case CSeeShutdown => s.consumer.Checking? && s.queue == [] && s.shutdown
    case CExit => s.consumer.Leaving?
    case SetShutdown => true
    case MStart => s.main.Running?
    case MLock => s.main.WantsLock? && s.owner.None?
    case MSignal => s.main.HasLock?
    case MUnlock => s.main.Signalled?
  }

  function Wake<T>(c: ConsumerPc<T>): ConsumerPc<T> {
    if c.Blocked? then Woken else c
  }

  function Do<T>(s: State<T>, step: Step<T>): State<T>
    requires Enabled(s, step)
  {
    match step
    case Want(p, m) => s.(producers := s.producers[p := Wanting(m)])
    case Lock(p) => s.(owner := Some(Producer(p)), producers := s.producers[p := Appending(Pc(s, p).m)])
    case Append(p) =>
      var m := Pc(s, p).m;
      s.(queue := s.queue + [m], history := s.history + [m],
         producers := s.producers[p := if s.queue == [] then Signalling else Unlocking])
    case Signal(p) => s.(consumer := Wake(s.consumer), producers := s.producers[p := Unlocking])
    case Unlock(p) => s.(owner := None, producers := s.producers[p := Idle])
    case CLock => s.(owner := Some(Consumer), consumer := Checking)
    case CPop => s.(queue := s.queue[1..], consumer := Took(s.queue[0]))
    case CRelease => s.(owner := None, consumer := Processing(s.consumer.m))
    case CDone => s.(consumer := Top, processed := s.processed + [s.consumer.m])
    case CDecideWait => s.(consumer := MustWait)
    case CWait => s.(owner := None, consumer := Blocked)
    case CSpurious => s.(consumer := Woken)
    case CRelock => s.(owner := Some(Consumer), consumer := Relocked)
    case CUnlock => s.(owner := None, consumer := Top)
    case CSeeShutdown => s.(consumer := Leaving)
    case CExit => s.(owner := None, consumer := Exited)
    case SetShutdown => s.(shutdown := true)
    case MStart => s.(main := WantsLock)
    case MLock => s.(owner := Some(Main), main := HasLock)
    case MSignal => s.(consumer := Wake(s.consumer), main := Signalled)
    case MUnlock => s.(owner := None, main := Done, told := s.shutdown)
  }

  // ---------- the invariant ----------

  predicate ProducerHolds<T>(pc: ProducerPc<T>) {
    pc.Appending? || pc.Signalling? || pc.Unlocking?
  }

  predicate ConsumerHolds<T>(c: ConsumerPc<T>) {
    c.Checking? || c.Took? || c.MustWait? || c.Relocked? || c.Leaving?
  }

  predicate MainHolds(m: MainPc) {
    m.HasLock? || m.Signalled?
  }

  /** Mutual exclusion: exactly the recorded owner is inside. */
  ghost predicate LockInv<T>(s: State<T>) {
    (forall p: nat :: ProducerHolds(Pc(s, p)) <==> s.owner == Some(Producer(p))) &&
    (ConsumerHolds(s.consumer) <==> s.owner == Some(Consumer)) &&
    (MainHolds(s.main) <==> s.owner == Some(Main))
  }

  /** Nothing is lost, duplicated or reordered. */
  predicate FifoInv<T(==)>(s: State<T>) {
    s.history == s.processed + InFlight(s.consumer) + s.queue
  }

  /** A producer that has just made the queue non-empty still owes its signal. */
  predicate SignalOwed<T>(s: State<T>) {
    s.owner.Some? && s.owner.value.Producer? && Pc(s, s.owner.value.id).Signalling?
  }

  predicate WaitInv<T>(s: State<T>) {
    (s.consumer.MustWait? || s.consumer.Leaving? ==> s.queue == []) &&
    (s.consumer.Blocked? ==> s.queue == [] || SignalOwed(s)) &&
    (s.consumer.Leaving? || s.consumer.Exited? ==> s.shutdown) &&
    (s.told ==> s.shutdown && s.main.Done?) &&
    (s.main.Signalled? || s.told ==> !s.consumer.Blocked? && !s.consumer.MustWait?)
  }

  ghost predicate Inv<T>(s: State<T>) {
    LockInv(s) && FifoInv(s) && WaitInv(s)
  }

  lemma StepKeepsLock<T>(s: State<T>, step: Step<T>)
    requires LockInv(s) && Enabled(s, step)
    ensures LockInv(Do(s, step))
  {
    var t := Do(s, step);
    forall p: nat
      ensures ProducerHolds(Pc(t, p)) <==> t.owner == Some(Producer(p))
    {
      assert ProducerHolds(Pc(s, p)) <==> s.owner == Some(Producer(p));
    }
  }

  /** Every atomic step of every thread keeps the invariant. */
  lemma StepKeepsInv<T>(s: State<T>, step: Step<T>)
    requires Inv(s) && Enabled(s, step)
    ensures Inv(Do(s, step))
  {
    StepKeepsLock(s, step);
    var t := Do(s, step);
    if step.CPop? {
      assert s.queue == [s.queue[0]] + t.queue;
    }
    assert FifoInv(t);
    if step.Append? || step.Signal? || step.Unlock? {
      assert ProducerHolds(Pc(s, step.p));
    }
  }

  // ---------- every run ----------

  ghost predicate Next<T(!new)>(s: State<T>, t: State<T>) {
    exists step :: Enabled(s, step) && t == Do(s, step)
  }

  ghost predicate StepAt<T(!new)>(run: seq<State<T>>, i: nat)
    requires i + 1 < |run|
  {
    Next(run[i], run[i + 1])
  }

  ghost predicate IsRun<T(!new)>(run: seq<State<T>>) {
    |run| > 0 && Init(run[0]) && forall i: nat {:trigger StepAt(run, i)} :: i + 1 < |run| ==> StepAt(run, i)
  }

  lemma NextKeepsInv<T(!new)>(s: State<T>, t: State<T>)
    requires Inv(s) && Next(s, t)
    ensures Inv(t)
  {
    var step :| Enabled(s, step) && t == Do(s, step);
    StepKeepsInv(s, step);
  }

  lemma {:induction false} RunKeepsInv<T(!new)>(run: seq<State<T>>, k: nat)
    requires IsRun(run) && k < |run|
    ensures Inv(run[k])
  {
    if k > 0 {
      RunKeepsInv(run, k - 1);
      assert StepAt(run, k - 1);
      NextKeepsInv(run[k - 1], run[k]);
    }
  }

  /** No lost wakeup: a consumer that sleeps while no signal is owed to it has nothing to do. */
  lemma NoLostWakeup<T(!new)>(run: seq<State<T>>, k: nat)
    requires IsRun(run) && k < |run| && run[k].consumer.Blocked?
    ensures SignalOwed(run[k]) || (run[k].queue == [] && run[k].processed == run[k].history)
  {
    RunKeepsInv(run, k);
  }

  /** Messages come out in the order they went in, and at every moment each is processed, in flight or queued. */
  lemma FifoDrain<T(!new)>(run: seq<State<T>>, k: nat)
    requires IsRun(run) && k < |run|
    ensures run[k].history == run[k].processed + InFlight(run[k].consumer) + run[k].queue
  {
    RunKeepsInv(run, k);
  }

  /** The consumer only leaves when everything that was ever queued has been processed. */
  lemma ExitOnlyWhenDrained<T(!new)>(run: seq<State<T>>, k: nat)
    requires IsRun(run) && k + 1 < |run| && !run[k].consumer.Exited? && run[k + 1].consumer.Exited?
    ensures run[k].shutdown && run[k].queue == [] && run[k].processed == run[k].history
  {
    RunKeepsInv(run, k);
    assert StepAt(run, k);
    OnlyLeavingExits(run[k], run[k + 1]);
  }

  lemma ExitStep<T>(s: State<T>, step: Step<T>)
    requires Enabled(s, step) && !s.consumer.Exited? && Do(s, step).consumer.Exited?
    ensures step.CExit?
  {
    match step {
      case Signal(_) =>
      case MSignal =>
      case _ =>
    }
  }

  lemma OnlyLeavingExits<T(!new)>(s: State<T>, t: State<T>)
    requires Next(s, t) && !s.consumer.Exited? && t.consumer.Exited?
    ensures s.consumer.Leaving?
  {
    var step :| Enabled(s, step) && t == Do(s, step);
    ExitStep(s, step);
  }

  // ---------- main's signal ----------

  lemma ToldStays<T(!new)>(s: State<T>, t: State<T>)
    requires WaitInv(s) && Next(s, t) && s.told
    ensures t.told
  {
    var step :| Enabled(s, step) && t == Do(s, step);
    assert !step.MUnlock?;
  }

  lemma {:induction false} RunStaysTold<T(!new)>(run: seq<State<T>>, k: nat, later: nat)
    requires IsRun(run) && k <= later < |run| && run[k].told
    ensures run[later].told
  {
    if k < later {
      RunStaysTold(run, k, later - 1);
      RunKeepsInv(run, later - 1);
      assert StepAt(run, later - 1);
      ToldStays(run[later - 1], run[later]);
    }
  }

  /** Once main has given the lock back with the shutdown flag set, the consumer never sleeps again. */
  lemma ShutdownReachesConsumer<T(!new)>(run: seq<State<T>>, k: nat, later: nat)
    requires IsRun(run) && k <= later < |run| && run[k].told
    ensures !run[later].consumer.Blocked? && !run[later].consumer.MustWait?
  {
    RunStaysTold(run, k, later);
    RunKeepsInv(run, later);
  }

  ghost function Last<T>(run: seq<State<T>>): State<T>
    requires run != []
  {
    run[|run| - 1]
  }

  lemma Extend<T(!new)>(run: seq<State<T>>, step: Step<T>) returns (longer: seq<State<T>>)
    requires IsRun(run) && Enabled(Last(run), step)
    ensures IsRun(longer) && run <= longer && Last(longer) == Do(Last(run), step)
  {
    longer := run + [Do(Last(run), step)];
    forall i: nat | i + 1 < |longer| ensures StepAt(longer, i) {
      if i + 1 < |run| {
        assert StepAt(run, i);
      }
    }
  }

  function Awake<T>(c: ConsumerPc<T>): nat {
    if c.Blocked? then 0 else if c.Top? then 1 else 2
  }

  /** Main is done, shutdown is not set and the lock is free: some continuation ends with the consumer asleep. */
  lemma {:induction false} CanFallAsleep<T(!new)>(run: seq<State<T>>) returns (longer: seq<State<T>>)
    requires IsRun(run) && Last(run).main.Done? && !Last(run).shutdown && Last(run).owner.None?
    ensures IsRun(longer) && run <= longer && Last(longer).main.Done? && Last(longer).owner.None?
    ensures Last(longer).consumer.Blocked? && Last(longer).queue == [] && !Last(longer).shutdown
    decreases |Last(run).queue|, Awake(Last(run).consumer)
  {
    RunKeepsInv(run, |run| - 1);
    longer := run;
    if Last(run).consumer.Processing? {
      longer := Extend(longer, CDone);
      longer := CanFallAsleep(longer);
    } else if Last(run).consumer.Woken? {
      longer := Extend(longer, CRelock);
      longer := Extend(longer, CUnlock);
      longer := CanFallAsleep(longer);
    } else if !Last(run).consumer.Blocked? {
      longer := Extend(longer, CLock);
      if Last(run).queue == [] {
        longer := Extend(longer, CDecideWait);
        longer := Extend(longer, CWait);
      } else {
        longer := Extend(longer, CPop);
        longer := Extend(longer, CRelease);
        longer := CanFallAsleep(longer);
      }
    }
  }

  /**
   Main's one signal puts an end to the consumer's sleeping if and only if the shutdown flag is set when main gives
   the lock back: with it the consumer never sleeps again, without it some continuation ends with it asleep.
   */
  lemma SignalSufficesIff<T(!new)>(run: seq<State<T>>)
    requires IsRun(run) && |run| >= 2 && run[|run| - 2].main.Signalled? && Last(run).main.Done?
    ensures Last(run).shutdown <==>
            forall longer: seq<State<T>> :: IsRun(longer) && run <= longer ==> !Last(longer).consumer.Blocked?
  {
    var k := |run| - 2;
    RunKeepsInv(run, k);
    assert StepAt(run, k);
    assert Last(run) == Do(run[k], MUnlock);
    if Last(run).shutdown {
      forall longer: seq<State<T>> | IsRun(longer) && run <= longer ensures !Last(longer).consumer.Blocked? {
        assert longer[|run| - 1].told;
        ShutdownReachesConsumer(longer, |run| - 1, |longer| - 1);
      }
    } else {
      var longer := CanFallAsleep(run);
    }
  }

  lemma EarlySignal<T(!new)>() returns (run: seq<State<T>>)
    ensures IsRun(run) && Last(run).main.Done? && !Last(run).shutdown && Last(run).owner.None?
  {
    run := [State([], None, map[], Top, Running, false, false, [], [])];
    run := Extend(run, MStart);
    run := Extend(run, MLock);
    run := Extend(run, MSignal);
    run := Extend(run, MUnlock);
  }

  /** A run in which main has signalled, shutdown is set, and the consumer sleeps with nobody left to wake it. */
  lemma LostShutdown<T(!new)>() returns (run: seq<State<T>>)
    ensures IsRun(run) && Last(run).main.Done? && Last(run).shutdown
    ensures Last(run).consumer.Blocked? && Last(run).queue == [] && Last(run).owner.None?
  {
    run := EarlySignal();
    run := CanFallAsleep(run);
    run := Extend(run, SetShutdown);
  }

  // ---------- progress ----------

  /** The steps a thread takes by itself: no new message, no spurious wakeup, and neither shutdown nor main's start. */
  predicate Internal<T>(step: Step<T>) {
    !step.Want? && !step.CSpurious? && !step.SetShutdown? && !step.MStart?
  }

  /** Whoever holds the lock has a step to take. */
  lemma OwnerCanMove<T>(s: State<T>) returns (step: Step<T>)
    requires Inv(s) && s.owner.Some?
    ensures Enabled(s, step) && Internal(step) && !step.CDone?
  {
    match s.owner.value {
      case Producer(p) =>
        assert ProducerHolds(Pc(s, p));
        step := if Pc(s, p).Appending? then Append(p) else if Pc(s, p).Signalling? then Signal(p) else Unlock(p);
      case Consumer =>
        step := match s.consumer
          case Took(_) => CRelease
          case MustWait => CWait
          case Relocked => CUnlock
          case Leaving => CExit
          case _ => if s.queue != [] then CPop else if s.shutdown then CSeeShutdown else CDecideWait;
      case Main =>
        step := if s.main.HasLock? then MSignal else MUnlock;
    }
  }

  /** With the lock free and work queued, or after a signal that told of shutdown, the consumer has a step to take. */
  lemma ConsumerCanMove<T>(s: State<T>) returns (step: Step<T>)
    requires Inv(s) && s.owner.None? && !s.consumer.Exited?
    requires s.queue != [] || s.told
    ensures Enabled(s, step) && step == match s.consumer case Top => CLock case Processing(_) => CDone case _ => CRelock
  {
    step := match s.consumer
      case Top => CLock
      case Processing(_) => CDone
      case _ => CRelock;
  }

  /** No deadlock: in every reachable state with the lock held, work queued, or shutdown told, some thread can move. */
  lemma SomeoneCanMove<T(!new)>(run: seq<State<T>>, k: nat) returns (step: Step<T>)
    requires IsRun(run) && k < |run|
    requires run[k].owner.Some? || (!run[k].consumer.Exited? && (run[k].queue != [] || run[k].told))
    ensures Enabled(run[k], step) && Internal(step)
  {
    RunKeepsInv(run, k);
    if run[k].owner.Some? {
      step := OwnerCanMove(run[k]);
    } else {
      step := ConsumerCanMove(run[k]);
    }
  }
}
