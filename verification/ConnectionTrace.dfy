/**
 What an observer of the cloud connection sees: rounds begun, attempts made, answers, handles opened and closed, waits.
 A sound trace opens one handle at a time, closes only the handle that is open, tries only the server it may try, and
 waits only after an answer that is a failure.
 */
module ConnectionTrace {
  import opened Wrappers

  datatype Which = Default | Jwt | Redirect

  datatype Server = Server(addr: Option<string>, port: nat, allowInsecure: int) {
    function Freed(): Server {
      this.(addr := None)
    }
  }

  datatype Choice = Choice(which: Which, server: Server)

  // ---------- answers ----------

  /**
   What the network answers to an attempt: no connection, one that is not ok, ready, or a status and a location, which
   names a server or does not.
   */
  datatype Answer = NoConnection | NotOk | Ready | Refused(status: int, location: string, names: Option<Server>)

  predicate IsRedirect(status: int) {
    status == 307 || status == 302 || status == 303
  }

  predicate Redirects(a: Answer) {
    a.Refused? && IsRedirect(a.status) && a.names.Some?
  }

  predicate AsksRetry(a: Answer) {
    Redirects(a) || (a.Refused? && a.status == 403)
  }

  predicate Fails(a: Answer) {
    var fails := !a.Ready? && !AsksRetry(a);
    fails
  }

  predicate BadRedirect(a: Answer) {
    a.Refused? && IsRedirect(a.status) && a.names.None?
  }

  // ---------- traces ----------

  /**
   A round is `forced` when a flag about the IP version is set. Handles are numbered in the order they are opened, so a
   number is never used again. `Delayed` is a backoff wait,
   `Down` a wait for the interface, `Stopped` a look at the shutdown flag that found it set.
   */
  datatype Event =
    | RoundStart(server: Choice, jwtKnown: bool, redirectKnown: bool, forced: bool)
    | Attempt(tried: Choice, ipv6: bool)
    | Opened(handle: nat)
    | Answered(answer: Answer)
    | Closed(handle: nat)
    | Delayed
    | Down
    | Stopped

  /** Outside before the first round and after a stop; paused after a wait. */
  datatype Phase = Outside | Choosing | Trying(ipv6: bool) | Told(answer: Answer, ipv6: bool) | Paused

  /** Where a trace stands: the open handles and how many there have been, the server, the answers and tries so far. */
  datatype Stand = Stand(live: set<nat>, handles: nat, current: Option<Choice>, phase: Phase, answers: seq<Answer>,
                         tries: seq<bool>, delays: nat, stopped: bool, forced: bool)

  const START := Stand({}, 0, None, Outside, [], [], 0, false, false)

  /** The server after an answer; a redirect that names none loses a server that came from a redirect itself. */
  function Redirected(current: Option<Choice>, a: Answer): Option<Choice> {
    if Redirects(a) then Some(Choice(Redirect, a.names.value))
    else if BadRedirect(a) && current.Some? && current.value.which.Redirect? then None
    else current
  }

  function After(s: Stand, e: Event): Stand {
    match e
    case RoundStart(server, _, _, forced) => s.(current := Some(server), phase := Choosing, forced := forced)
    case Attempt(_, ipv6) => s.(phase := Trying(ipv6), tries := s.tries + [ipv6])
    case Opened(h) => s.(live := s.live + {h}, handles := s.handles + 1)
    case Answered(a) =>
      s.(phase := Told(a, s.phase.Trying? && s.phase.ipv6), answers := s.answers + [a],
         current := Redirected(s.current, a))
    case Closed(h) => s.(live := s.live - {h})
    case Delayed => s.(phase := Paused, delays := s.delays + 1)
    case Down => s.(phase := Paused)
    case Stopped => s.(phase := Outside, stopped := true)
  }

  /** No attempt is under way, nor an answer to be followed up. */
  predicate Rested(p: Phase) {
    p.Outside? || p.Paused? || (p.Told? && p.answer.Ready?)
  }

  predicate ToFollowUp(p: Phase) {
    p.Choosing? || (p.Told? && AsksRetry(p.answer))
  }

  predicate Failed(p: Phase) {
    p.Told? && Fails(p.answer)
  }

  /** The attempt that failed was over IPv6, at a secure server, and nothing is forced: it is tried again over IPv4. */
  predicate FallbackDue(s: Stand) {
    var due :=
      Failed(s.phase) && s.phase.ipv6 && !s.forced && s.current.Some? && s.current.value.server.allowInsecure == 0;
    due
  }

  /** At the beginning of a round, after an answer that asks for it, or over IPv4 after a failure over IPv6. */
  predicate MayTry(s: Stand, ipv6: bool) {
    ToFollowUp(s.phase) || (FallbackDue(s) && !ipv6)
  }

  predicate StepOk(s: Stand, e: Event) {
    var ok :=
      match e
      case RoundStart(server, jwtKnown, redirectKnown, _) =>
        Rested(s.phase) && !redirectKnown && server.which == (if jwtKnown then Jwt else Default)
      case Attempt(tried, ipv6) =>
        s.live == {} && !s.stopped && tried.server.addr.Some? && s.current == Some(tried) && MayTry(s, ipv6)
      case Opened(h) => s.phase.Trying? && s.live == {} && h == s.handles
      case Answered(_) => s.phase.Trying?
      case Closed(h) => h in s.live
      case Delayed => Failed(s.phase) && !FallbackDue(s)
      case Down => (Failed(s.phase) && !FallbackDue(s)) || Rested(s.phase)
      case Stopped => ToFollowUp(s.phase);
    ok
  }

  ghost function StandOf(t: seq<Event>): Stand {
    if t == [] then START else After(StandOf(t[..|t| - 1]), t[|t| - 1])
  }

  ghost predicate Sound(t: seq<Event>) {
    t == [] || (Sound(t[..|t| - 1]) && StepOk(StandOf(t[..|t| - 1]), t[|t| - 1]))
  }

  ghost function Live(t: seq<Event>): set<nat> {
    StandOf(t).live
  }

  ghost function OpenCount(t: seq<Event>): nat {
    StandOf(t).handles
  }

  lemma Snoc(t: seq<Event>, e: Event)
    ensures Sound(t + [e]) == (Sound(t) && StepOk(StandOf(t), e))
    ensures StandOf(t + [e]) == After(StandOf(t), e)
  {
    assert (t + [e])[..|t + [e]| - 1] == t;
  }

  /** The answers in a trace are those the network has in store. */
  ghost predicate Given(heard: seq<Answer>, answers: nat -> Answer) {
    heard == [] ||
    (Given(heard[..|heard| - 1], answers) && heard[|heard| - 1] == answers(|heard| - 1))
  }

  lemma GivenSnoc(heard: seq<Answer>, a: Answer, answers: nat -> Answer)
    ensures Given(heard + [a], answers) <==> Given(heard, answers) && a == answers(|heard|)
  {
    assert (heard + [a])[..|heard|] == heard;
  }

  predicate Expected(s: Stand, e: Event, answers: nat -> Answer) {
    e.Answered? ==> e.answer == answers(|s.answers|)
  }

  /** A sound trace with the network's answers, and where it stands. */
  ghost predicate Recorded(t: seq<Event>, s: Stand, answers: nat -> Answer) {
    var recorded := Sound(t) && StandOf(t) == s && Given(s.answers, answers);
    recorded
  }

  lemma Record(t: seq<Event>, s: Stand, e: Event, answers: nat -> Answer)
    requires Recorded(t, s, answers) && StepOk(s, e) && Expected(s, e, answers)
    ensures Recorded(t + [e], After(s, e), answers)
  {
    Snoc(t, e);
    if e.Answered? {
      GivenSnoc(s.answers, e.answer, answers);
    }
  }

  /** Every answer of such a trace is one the network gave. */
  lemma {:induction false} HeardWasGiven(t: seq<Event>, answers: nat -> Answer, i: nat) returns (k: nat)
    requires i < |t| && t[i].Answered? && Given(StandOf(t).answers, answers)
    ensures k < |StandOf(t).answers| && t[i].answer == answers(k)
  {
    var n := |t| - 1;
    var s := StandOf(t[..n]);
    if t[n].Answered? {
      assert (s.answers + [t[n].answer])[..|s.answers|] == s.answers;
    }
    if i == n {
      k := |s.answers|;
    } else {
      k := HeardWasGiven(t[..n], answers, i);
    }
  }

  // ---------- what a sound trace tells about a whole run ----------

  lemma {:induction false} SoundPrefix(t: seq<Event>, k: nat)
    requires Sound(t) && k <= |t|
    ensures Sound(t[..k])
  {
    if k < |t| {
      SoundPrefix(t[..|t| - 1], k);
      assert t[..|t| - 1][..k] == t[..k];
    } else {
      assert t[..k] == t;
    }
  }

  lemma LastStep(t: seq<Event>)
    requires Sound(t) && t != []
    ensures var init, e := t[..|t| - 1], t[|t| - 1];
            Sound(init) && StepOk(StandOf(init), e) && StandOf(t) == After(StandOf(init), e)
  {
  }

  /** Each event of a sound trace was allowed where the trace stood. */
  lemma StepAt(t: seq<Event>, j: nat)
    requires Sound(t) && j < |t|
    ensures Sound(t[..j]) && StepOk(StandOf(t[..j]), t[j]) && StandOf(t[..j + 1]) == After(StandOf(t[..j]), t[j])
  {
    var u := t[..j + 1];
    assert u[..|u| - 1] == t[..j] && u[|u| - 1] == t[j];
    SoundPrefix(t, j + 1);
    LastStep(u);
  }

  /** A handle's number is the count of the handles opened before it. */
  lemma {:induction false} HandlesAreNumbered(t: seq<Event>, i: nat)
    requires Sound(t) && i < |t| && t[i].Opened?
    ensures t[i].handle == OpenCount(t[..i]) && t[i].handle < OpenCount(t)
  {
    var init := t[..|t| - 1];
    if i < |init| {
      HandlesAreNumbered(init, i);
      assert init[..i] == t[..i];
    } else {
      assert init == t[..i];
    }
  }

  lemma OpenedAtMostOnce(t: seq<Event>, i: nat, j: nat)
    requires Sound(t) && i < j < |t| && t[i].Opened? && t[j].Opened?
    ensures t[i].handle < t[j].handle
  {
    HandlesAreNumbered(t, j);
    SoundPrefix(t, j);
    HandlesAreNumbered(t[..j], i);
  }

  lemma {:induction false} LiveWasOpened(t: seq<Event>, h: nat)
    requires Sound(t) && h in Live(t)
    ensures h < OpenCount(t) && Opened(h) in t
  {
    var init, e := t[..|t| - 1], t[|t| - 1];
    assert t == init + [e];
    if e != Opened(h) {
      LiveWasOpened(init, h);
    }
  }

  /** A closed handle stays closed. */
  lemma {:induction false} ClosedStaysClosed(t: seq<Event>, i: nat)
    requires Sound(t) && i < |t| && t[i].Closed?
    ensures t[i].handle !in Live(t) && t[i].handle < OpenCount(t)
  {
    var init := t[..|t| - 1];
    if i < |init| {
      ClosedStaysClosed(init, i);
    } else {
      LiveWasOpened(init, t[i].handle);
    }
  }

  /** Whatever the run, a handle is closed at most once. */
  lemma ClosedAtMostOnce(t: seq<Event>, i: nat, j: nat)
    requires Sound(t) && i < j < |t| && t[i].Closed? && t[j].Closed?
    ensures t[i].handle != t[j].handle
  {
    StepAt(t, j);
    ClosedStaysClosed(t[..j], i);
  }

  /** Nothing leaks: a handle that was opened is still live or has been closed since. */
  lemma {:induction false} OpenedIsLiveOrClosed(t: seq<Event>, i: nat)
    requires Sound(t) && i < |t| && t[i].Opened?
    ensures t[i].handle in Live(t) || exists j :: i < j < |t| && t[j] == Closed(t[i].handle)
  {
    var init, e := t[..|t| - 1], t[|t| - 1];
    if i < |init| {
      OpenedIsLiveOrClosed(init, i);
      assert init[i] == t[i];
      if t[i].handle !in Live(init) {
        var j :| i < j < |init| && init[j] == Closed(t[i].handle);
        assert t[j] == Closed(t[i].handle);
      } else if e == Closed(t[i].handle) {
        assert t[|init|] == e;
      }
    }
  }

  // ---------- redirects ----------

  ghost predicate NoRoundSince(t: seq<Event>, i: nat) {
    forall k :: i < k < |t| ==> !t[k].RoundStart?
  }

  lemma CurrentStays(s: Stand, e: Event)
    requires StepOk(s, e) && After(s, e).current.Some? && After(s, e).current.value.which.Redirect?
    requires !(e.Answered? && Redirects(e.answer))
    ensures !e.RoundStart? && s.current == After(s, e).current
  {
  }

  /** The program is at a redirect server only after an answer in the same round that named it. */
  lemma {:induction false} RedirectIsFromThisRound(t: seq<Event>) returns (i: nat)
    requires Sound(t) && StandOf(t).current.Some? && StandOf(t).current.value.which.Redirect?
    ensures i < |t| && t[i].Answered? && Redirects(t[i].answer) && NoRoundSince(t, i)
    ensures StandOf(t).current.value.server == t[i].answer.names.value
  {
    var e := t[|t| - 1];
    if e.Answered? && Redirects(e.answer) {
      i := |t| - 1;
    } else {
      CurrentStays(StandOf(t[..|t| - 1]), e);
      i := RedirectIsFromThisRound(t[..|t| - 1]);
    }
  }

  /** An attempt is made with an address, with nothing open, and at a redirect only after one in the same round. */
  lemma AttemptIsAllowed(t: seq<Event>, j: nat)
    requires Sound(t) && j < |t| && t[j].Attempt?
    ensures t[j].tried.server.addr.Some? && Live(t[..j]) == {} && StandOf(t[..j]).current == Some(t[j].tried)
    ensures t[j].tried.which.Redirect? ==>
              exists i :: 0 <= i < j && t[i].Answered? && Redirects(t[i].answer) && NoRoundSince(t[..j], i) &&
                          t[j].tried.server == t[i].answer.names.value
  {
    StepAt(t, j);
    if t[j].tried.which.Redirect? {
      var i := RedirectIsFromThisRound(t[..j]);
      assert t[i].Answered?;
    }
  }

  // ---------- retries ----------

  /** Nothing is tried or stopped between two places of a trace. */
  ghost predicate Quiet(t: seq<Event>, i: nat, j: nat) {
    forall k :: i < k < j && k < |t| ==> !t[k].Attempt? && !t[k].Stopped?
  }

  /** All that can happen to an answer that asks for a retry, short of an attempt or a stop, is a close. */
  lemma OnlyCloses(s: Stand, e: Event)
    requires s.phase.Told? && AsksRetry(s.phase.answer) && StepOk(s, e) && !e.Attempt? && !e.Stopped?
    ensures After(s, e).phase == s.phase && After(s, e).current == s.current
  {
  }

  lemma AnswerIsTold(s: Stand, e: Event)
    requires e.Answered?
    ensures After(s, e).phase.Told? && After(s, e).phase.answer == e.answer
  {
  }

  /** While an answer waits to be followed up, the trace stays where the answer put it. */
  lemma {:induction false} AnswerStands(t: seq<Event>, i: nat, j: nat)
    requires Sound(t) && i < j <= |t| && t[i].Answered? && AsksRetry(t[i].answer) && Quiet(t, i, j)
    ensures var s := StandOf(t[..j]); s.phase.Told? && s.phase.answer == t[i].answer
    ensures StandOf(t[..j]).current == StandOf(t[..i + 1]).current
  {
    StepAt(t, j - 1);
    if i < j - 1 {
      AnswerStands(t, i, j - 1);
      OnlyCloses(StandOf(t[..j - 1]), t[j - 1]);
    } else {
      AnswerIsTold(StandOf(t[..i]), t[i]);
    }
  }

  /**
   A redirect that names a server, or a 403, is followed up in the same round and without a wait: whatever comes after
   it, until the next attempt or a look at the flag that finds it set, is no wait and no new round. The attempt is at
   the server the redirect names, or at the same server again.
   */
  lemma RetryIsFollowedUp(t: seq<Event>, i: nat, j: nat)
    requires Sound(t) && i < j < |t| && t[i].Answered? && t[i].answer.Refused? && Quiet(t, i, j)
    requires var status := t[i].answer.status;
             status == 403 || ((status == 307 || status == 302 || status == 303) && t[i].answer.names.Some?)
    ensures !t[j].Delayed? && !t[j].Down? && !t[j].RoundStart?
    ensures t[j].Attempt? ==>
              Some(t[j].tried) == if t[i].answer.status == 403 then StandOf(t[..i]).current
                                  else Some(Choice(Redirect, t[i].answer.names.value))
  {
    AnswerStands(t, i, j);
    StepAt(t, i);
    StepAt(t, j);
  }

  /** An attempt that is under way is at the server the trace stands at. */
  lemma {:induction false} TriedIsCurrent(t: seq<Event>, i: nat)
    requires Sound(t) && i < |t| && t[i].Attempt? && forall k :: i < k < |t| ==> t[k].Opened?
    ensures StandOf(t).current == Some(t[i].tried)
  {
    StepAt(t, |t| - 1);
    assert t[..|t|] == t;
    if i < |t| - 1 {
      TriedIsCurrent(t[..|t| - 1], i);
    }
  }

  /** The answer to the last attempt, when the trace stands at it. */
  lemma {:induction false} ToldWas(t: seq<Event>) returns (i: nat)
    requires Sound(t) && StandOf(t).phase.Told?
    ensures i < |t| && t[i].Answered? && t[i].answer == StandOf(t).phase.answer
    ensures forall k :: i < k < |t| ==> t[k].Closed? || t[k].Opened?
  {
    var e := t[|t| - 1];
    if e.Answered? {
      i := |t| - 1;
    } else {
      i := ToldWas(t[..|t| - 1]);
    }
  }

  /** The answer a trace stands at is the last the network gave. */
  lemma {:induction false} ToldIsLast(t: seq<Event>)
    requires Sound(t) && StandOf(t).phase.Told?
    ensures var s := StandOf(t); s.answers != [] && s.answers[|s.answers| - 1] == s.phase.answer
  {
    if !t[|t| - 1].Answered? {
      ToldIsLast(t[..|t| - 1]);
    }
  }

  /** A backoff wait comes only after an answer that is a failure, with nothing in between but the close. */
  lemma WaitIsAfterFailure(t: seq<Event>, j: nat) returns (i: nat)
    requires Sound(t) && j < |t| && t[j].Delayed?
    ensures i < j && t[i].Answered? && Fails(t[i].answer)
    ensures forall k :: i < k < j ==> t[k].Closed? || t[k].Opened?
  {
    StepAt(t, j);
    i := ToldWas(t[..j]);
  }

  /** A trace is paused when the last thing that happened to it, closes aside, is a wait. */
  lemma {:induction false} PausedIsWait(t: seq<Event>) returns (i: nat)
    requires Sound(t) && StandOf(t).phase.Paused?
    ensures i < |t| && (t[i].Delayed? || t[i].Down?)
    ensures forall k :: i < k < |t| ==> t[k].Closed? || t[k].Opened?
  {
    var e := t[|t| - 1];
    if e.Delayed? || e.Down? {
      i := |t| - 1;
    } else {
      i := PausedIsWait(t[..|t| - 1]);
    }
  }

  /** The place of an answer, while nothing but opens and closes follows it. */
  lemma {:induction false} FailureStands(t: seq<Event>, i: nat, j: nat)
    requires Sound(t) && i < j <= |t| && t[i].Answered? && forall k :: i < k < j ==> t[k].Closed?
    ensures StandOf(t[..j]) == StandOf(t[..i + 1]).(live := StandOf(t[..j]).live)
  {
    StepAt(t, j - 1);
    if i < j - 1 {
      FailureStands(t, i, j - 1);
    }
  }

  /**
   After a failure over IPv6 at a secure server, in a round in which nothing is forced, the next thing but closes is
   the attempt at the same server over IPv4.
   */
  lemma FallbackIsTried(t: seq<Event>, i: nat, j: nat)
    requires Sound(t) && i < j < |t| && t[i].Answered? && Fails(t[i].answer) && !BadRedirect(t[i].answer)
    requires StandOf(t[..i]).phase == Trying(true) && !StandOf(t[..i]).forced
    requires StandOf(t[..i]).current.Some? && StandOf(t[..i]).current.value.server.allowInsecure == 0
    requires (forall k :: i < k < j ==> t[k].Closed?) && !t[j].Closed?
    ensures t[j] == Attempt(StandOf(t[..i]).current.value, false)
  {
    StepAt(t, i);
    FailureStands(t, i, j);
    StepAt(t, j);
  }

  /** Once shutdown has been seen, nothing is tried any more. */
  lemma {:induction false} StoppedStays(t: seq<Event>, i: nat)
    requires Sound(t) && i < |t| && t[i].Stopped?
    ensures StandOf(t).stopped
  {
    if i < |t| - 1 {
      StoppedStays(t[..|t| - 1], i);
    }
  }

  lemma NothingAfterStop(t: seq<Event>, i: nat, j: nat)
    requires Sound(t) && i < j < |t| && t[i].Stopped?
    ensures !t[j].Attempt?
  {
    StepAt(t, j);
    StoppedStays(t[..j], i);
  }
}
