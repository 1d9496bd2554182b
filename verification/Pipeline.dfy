/**
 Two queues and the tag store composed: the downstream and the upstream threads put CRUD requests on crudMsgQ,
 the CRUD handler takes them off, runs them against the store and puts each response on the upstream queue,
 to which the nanomsg listener also appends client messages. Every interleaving of the atomic steps is a run.
 */
module Pipeline {
  import opened Wrappers
  import opened CrudMessages
  import opened CrudSpec
  import opened CrudLaws
  import W = Wakeup

  /** A request with a destination; both producers make sure of that before they queue it. */
  type Addressed = r: Request | r.dest.Some?
    witness Request(Retrieve, "", "", Some(Dest("", ["mac"])), NoPayload)

  /** The upstream queue carries CRUD responses and messages from local clients. */
  datatype UpMsg = Crud(resp: Response) | Client(bytes: seq<int>)

  // Producers of crudMsgQ: the downstream consumer and the upstream consumer.
  const DOWNSTREAM: nat := 0
  const UPSTREAM: nat := 1

  // Producers of the upstream queue: the nanomsg listener and the CRUD handler.
  const LISTENER: nat := 0
  const HANDLER: nat := 1

  /** Where the handler is with the request it has taken: not yet run, response in hand, response queued. */
  datatype Stage = Waiting | Replying(resp: Response) | Replied

  datatype State = State(
    crud: W.State<Addressed>,
    up: W.State<UpMsg>,
    start: File,          // the config file the process found
    file: File,
    handler: Stage,
    events: seq<Event>)   // the requests run so far, each with what the environment answered

  predicate Init(s: State) {
    W.Init(s.crud) && W.Init(s.up) && s.file == s.start && s.handler == Waiting && s.events == []
  }

  datatype Step =
    | CrudStep(c: W.Step<Addressed>)
    | UpStep(u: W.Step<UpMsg>)
    | Process(env: Env)
    | Reply
    | Finish
    | Shutdown

  predicate Enabled(s: State, step: Step) {
    match step
    case CrudStep(c) =>
      W.Enabled(s.crud, c) && !c.CDone? && !c.SetShutdown? &&
      // the upstream thread produces only while it handles a message, be it a client's or one of the CRUD responses
      (c.Want? ==> c.p == DOWNSTREAM || (c.p == UPSTREAM && s.up.consumer.Processing?))
    case UpStep(u) =>
      W.Enabled(s.up, u) && !u.SetShutdown? &&
      (u.Want? ==> u.p == LISTENER && u.m.Client?) &&
      (u.CDone? ==> W.Pc(s.crud, UPSTREAM).Idle?)
    case Process(_) => s.crud.consumer.Processing? && s.handler.Waiting?
    case Reply => s.handler.Replying? && W.Pc(s.up, HANDLER).Idle?
    case Finish => s.handler.Replied? && W.Pc(s.up, HANDLER).Idle? && s.crud.consumer.Processing?
    case Shutdown => true
  }

  function Do(s: State, step: Step): State
    requires Enabled(s, step)
  {
    match step
    case CrudStep(c) => s.(crud := W.Do(s.crud, c))
    case UpStep(u) => s.(up := W.Do(s.up, u))
    case Process(env) =>
      var req := s.crud.consumer.m;
      s.(file := HandlerSpec(s.file, req, env).file,
         handler := Replying(ResponseSpec(s.file, req, env)),
         events := s.events + [Event(req, env)])
    case Reply => s.(up := W.Do(s.up, W.Want(HANDLER, Crud(s.handler.resp))), handler := Replied)
    case Finish => s.(crud := W.Do(s.crud, W.CDone), handler := Waiting)
    case Shutdown =>
      s.(crud := W.Do(s.crud, W.SetShutdown), up := W.Do(s.up, W.SetShutdown))
  }

  // ---------- the sequential reference ----------

  predicate AllAddressed(events: seq<Event>) {
    forall i :: 0 <= i < |events| ==> events[i].req.dest.Some?
  }

  /** A response answers its request: same transaction id and kind, addresses swapped. */
  predicate Answers(r: Response, req: Request) {
    r.txid == req.txid && r.kind == req.kind &&
    req.dest.Some? && r.source == req.dest.value.text && r.dest == req.source
  }

  /** The responses of running the requests one after the other against a store that starts with this file. */
  function Sequential(start: File, events: seq<Event>): (r: seq<Response>)
    requires AllAddressed(events)
    ensures |r| == |events|
  {
    if events == [] then []
    else Sequential(start, events[..|events| - 1]) + [LastResponse(start, events)]
  }

  function LastResponse(start: File, events: seq<Event>): (r: Response)
    requires AllAddressed(events) && events != []
    ensures Answers(r, events[|events| - 1].req)
    decreases |events|
  {
    var n := |events| - 1;
    ResponseSpec(Run(start, events[..n]), events[n].req, events[n].env)
  }

  lemma {:induction false} SequentialAnswers(start: File, events: seq<Event>, i: nat)
    requires AllAddressed(events) && i < |events|
    ensures Answers(Sequential(start, events)[i], events[i].req)
  {
    var n := |events| - 1;
    var front, last := Sequential(start, events[..n]), LastResponse(start, events);
    assert Sequential(start, events) == front + [last];
    if i < n {
      SequentialAnswers(start, events[..n], i);
      assert (front + [last])[i] == front[i];
    }
  }

  /** The CRUD responses among upstream messages, in order. */
  function Responses(msgs: seq<UpMsg>): seq<Response> {
    if msgs == [] then []
    else
      var n := |msgs| - 1;
      Responses(msgs[..n]) + (if msgs[n].Crud? then [msgs[n].resp] else [])
  }

  lemma ResponsesSnoc(msgs: seq<UpMsg>, m: UpMsg)
    ensures Responses(msgs + [m]) == Responses(msgs) + (if m.Crud? then [m.resp] else [])
  {
    assert (msgs + [m])[..|msgs|] == msgs;
  }

  lemma {:induction false} ResponsesAppend(a: seq<UpMsg>, b: seq<UpMsg>)
    ensures Responses(a + b) == Responses(a) + Responses(b)
  {
    if b == [] {
      assert a + b == a;
    } else {
      var n := |b| - 1;
      assert a + b == (a + b[..n]) + [b[n]] && b == b[..n] + [b[n]];
      ResponsesAppend(a, b[..n]);
      ResponsesSnoc(a + b[..n], b[n]);
    }
  }

  function Requests(events: seq<Event>): (r: seq<Request>)
    ensures |r| == |events|
  {
    seq(|events|, i requires 0 <= i < |events| => events[i].req)
  }

  // ---------- the invariant ----------

  /** Only the handler puts CRUD responses on the upstream queue, and it puts nothing else. */
  predicate SenderOk(p: nat, pc: W.ProducerPc<UpMsg>) {
    pc.Wanting? || pc.Appending? ==> (pc.m.Crud? <==> p == HANDLER)
  }

  ghost predicate SendersInv(up: W.State<UpMsg>) {
    forall p: nat :: SenderOk(p, W.Pc(up, p))
  }

  /** The response a producer is about to append. */
  function Owed(pc: W.ProducerPc<UpMsg>): seq<Response> {
    if (pc.Wanting? || pc.Appending?) && pc.m.Crud? then [pc.m.resp] else []
  }

  /** The responses on the upstream queue's history, and the one the handler is appending. */
  function Sent(up: W.State<UpMsg>): seq<Response> {
    Responses(up.history) + Owed(W.Pc(up, HANDLER))
  }

  predicate RepliesInv(s: State)
    requires AllAddressed(s.events)
  {
    match s.handler
    case Waiting => W.Pc(s.up, HANDLER).Idle? && Sent(s.up) == Sequential(s.start, s.events)
    case Replying(resp) => W.Pc(s.up, HANDLER).Idle? && Sent(s.up) + [resp] == Sequential(s.start, s.events)
    case Replied => Sent(s.up) == Sequential(s.start, s.events)
  }

  /** The requests run are those dequeued, in crudMsgQ order. */
  predicate OrderInv(s: State) {
    if s.handler.Waiting? then Requests(s.events) == s.crud.processed
    else s.crud.consumer.Processing? && Requests(s.events) == s.crud.processed + [s.crud.consumer.m]
  }

  ghost predicate Inv(s: State) {
    W.Inv(s.crud) && W.Inv(s.up) &&
    s.file == Run(s.start, s.events) &&
    AllAddressed(s.events) &&
    OrderInv(s) && SendersInv(s.up) && RepliesInv(s)
  }

  lemma CrudStepKeepsInv(s: State, c: W.Step<Addressed>)
    requires Inv(s) && Enabled(s, CrudStep(c))
    ensures Inv(Do(s, CrudStep(c)))
  {
    W.StepKeepsInv(s.crud, c);
    var t := Do(s, CrudStep(c));
    assert t.events == s.events && t.up == s.up && t.handler == s.handler && t.file == s.file;
    assert OrderInv(t);
  }

  lemma UpStepKeepsSenders(up: W.State<UpMsg>, u: W.Step<UpMsg>)
    requires SendersInv(up) && W.Enabled(up, u)
    requires u.Want? ==> (u.m.Crud? <==> u.p == HANDLER)
    ensures SendersInv(W.Do(up, u))
  {
    forall p: nat
      ensures SenderOk(p, W.Pc(W.Do(up, u), p))
    {
      assert SenderOk(p, W.Pc(up, p));
    }
  }

  /** No step of the upstream queue but the handler's own decision to reply changes what it has sent. */
  lemma UpStepKeepsSent(up: W.State<UpMsg>, u: W.Step<UpMsg>)
    requires SendersInv(up) && W.Enabled(up, u) && (u.Want? ==> u.p == LISTENER)
    ensures Sent(W.Do(up, u)) == Sent(up)
    ensures W.Pc(up, HANDLER).Idle? ==> W.Pc(W.Do(up, u), HANDLER).Idle?
  {
    if u.Append? {
      assert SenderOk(u.p, W.Pc(up, u.p));
      ResponsesSnoc(up.history, W.Pc(up, u.p).m);
    } else {
      assert W.Do(up, u).history == up.history;
    }
  }

  lemma UpStepKeepsInv(s: State, u: W.Step<UpMsg>)
    requires Inv(s) && Enabled(s, UpStep(u))
    ensures Inv(Do(s, UpStep(u)))
  {
    W.StepKeepsInv(s.up, u);
    UpStepKeepsSenders(s.up, u);
    UpStepKeepsSent(s.up, u);
    var t := Do(s, UpStep(u));
    assert t.events == s.events && t.crud == s.crud && t.handler == s.handler && t.file == s.file;
    assert RepliesInv(t) && OrderInv(t);
  }

  lemma SequentialSnoc(start: File, events: seq<Event>, e: Event)
    requires AllAddressed(events) && e.req.dest.Some?
    ensures AllAddressed(events + [e])
    ensures Sequential(start, events + [e]) ==
            Sequential(start, events) + [ResponseSpec(Run(start, events), e.req, e.env)]
    ensures Requests(events + [e]) == Requests(events) + [e.req]
  {
    assert (events + [e])[..|events|] == events;
  }

  lemma ProcessKeepsInv(s: State, env: Env)
    requires Inv(s) && Enabled(s, Process(env))
    ensures Inv(Do(s, Process(env)))
  {
    var e := Event(s.crud.consumer.m, env);
    RunSnoc(s.start, s.events, e);
    SequentialSnoc(s.start, s.events, e);
  }

  lemma ReplyKeepsInv(s: State)
    requires Inv(s) && Enabled(s, Reply)
    ensures Inv(Do(s, Reply))
  {
    var want := W.Want(HANDLER, Crud(s.handler.resp));
    W.StepKeepsInv(s.up, want);
    UpStepKeepsSenders(s.up, want);
    assert W.Do(s.up, want).history == s.up.history;
  }

  lemma FinishKeepsInv(s: State)
    requires Inv(s) && Enabled(s, Finish)
    ensures Inv(Do(s, Finish))
  {
    W.StepKeepsInv(s.crud, W.CDone);
  }

  lemma StepKeepsInv(s: State, step: Step)
    requires Inv(s) && Enabled(s, step)
    ensures Inv(Do(s, step))
  {
    match step {
      case CrudStep(c) => CrudStepKeepsInv(s, c);
      case UpStep(u) => UpStepKeepsInv(s, u);
      case Process(env) => ProcessKeepsInv(s, env);
      case Reply => ReplyKeepsInv(s);
      case Finish => FinishKeepsInv(s);
      case Shutdown =>
        W.StepKeepsInv(s.crud, W.SetShutdown);
        W.StepKeepsInv(s.up, W.SetShutdown);
    }
  }

  // ---------- every run ----------

  ghost predicate Next(s: State, t: State) {
    exists step :: Enabled(s, step) && t == Do(s, step)
  }

  ghost predicate StepAt(run: seq<State>, i: nat)
    requires i + 1 < |run|
  {
    Next(run[i], run[i + 1])
  }

  ghost predicate IsRun(run: seq<State>) {
    |run| > 0 && Init(run[0]) && forall i: nat {:trigger StepAt(run, i)} :: i + 1 < |run| ==> StepAt(run, i)
  }

  lemma NextKeepsInv(s: State, t: State)
    requires Inv(s) && Next(s, t)
    ensures Inv(t)
  {
    var step :| Enabled(s, step) && t == Do(s, step);
    StepKeepsInv(s, step);
  }

  lemma InitIsInv(s: State)
    requires Init(s)
    ensures Inv(s)
  {
    assert Responses([]) == [] && Sent(s.up) == [];
  }

  lemma {:induction false} RunKeepsInv(run: seq<State>, k: nat)
    requires IsRun(run) && k < |run|
    ensures Inv(run[k])
  {
    if k == 0 {
      InitIsInv(run[0]);
    } else {
      RunKeepsInv(run, k - 1);
      assert StepAt(run, k - 1);
      NextKeepsInv(run[k - 1], run[k]);
    }
  }

  lemma {:induction false} StartStays(run: seq<State>, k: nat)
    requires IsRun(run) && k < |run|
    ensures run[k].start == run[0].file
  {
    if k > 0 {
      StartStays(run, k - 1);
      assert StepAt(run, k - 1);
    }
  }

  lemma RepliesInOrder(s: State)
    requires Inv(s)
    ensures var all, sent := Sequential(s.start, s.events), Responses(s.up.history);
            sent <= all && |all| - 1 <= |sent|
  {
    assert |Owed(W.Pc(s.up, HANDLER))| <= 1;
  }

  lemma RequestsInOrder(s: State)
    requires Inv(s)
    ensures Requests(s.events) <= s.crud.history
  {
    var done := s.crud.processed + W.InFlight(s.crud.consumer);
    assert s.crud.history == done + s.crud.queue;
    assert Requests(s.events) <= done;
  }

  /**
   Linearisation: in every interleaving, whatever config file the process finds, the CRUD responses ever put on the
   upstream queue are the responses of a sequential run of the store, from that file, over the requests in the order of
   crudMsgQ: all of them or all but the last.
   */
  lemma ResponsesAreSequential(run: seq<State>, k: nat)
    requires IsRun(run) && k < |run|
    ensures AllAddressed(run[k].events)
    ensures Requests(run[k].events) <= run[k].crud.history
    ensures run[k].file == Run(run[0].file, run[k].events)
    ensures var all, sent := Sequential(run[0].file, run[k].events), Responses(run[k].up.history);
            sent <= all && |all| - 1 <= |sent|
  {
    RunKeepsInv(run, k);
    StartStays(run, k);
    RepliesInOrder(run[k]);
    RequestsInOrder(run[k]);
  }

  lemma ProcessedIsPrefix(up: W.State<UpMsg>)
    requires W.FifoInv(up)
    ensures Responses(up.processed) <= Responses(up.history)
  {
    var rest := W.InFlight(up.consumer) + up.queue;
    assert up.history == up.processed + rest;
    ResponsesAppend(up.processed, rest);
  }

  /** What the upstream consumer has handled so far starts the same sequential list of responses. */
  lemma DeliveredIsSequential(run: seq<State>, k: nat)
    requires IsRun(run) && k < |run|
    ensures AllAddressed(run[k].events)
    ensures Responses(run[k].up.processed) <= Sequential(run[0].file, run[k].events)
  {
    RunKeepsInv(run, k);
    StartStays(run, k);
    RepliesInOrder(run[k]);
    ProcessedIsPrefix(run[k].up);
  }

  lemma LeavingMeansAnswered(s: State)
    requires Inv(s) && s.crud.consumer.Leaving?
    ensures Requests(s.events) == s.crud.history
    ensures Responses(s.up.history) == Sequential(s.start, s.events)
  {
    assert Owed(W.Pc(s.up, HANDLER)) == [];
  }

  /** When the handler leaves at shutdown, every request ever queued by then has exactly one response. */
  lemma EveryRequestIsAnswered(run: seq<State>, k: nat)
    requires IsRun(run) && k + 1 < |run|
    requires !run[k].crud.consumer.Exited? && run[k + 1].crud.consumer.Exited?
    ensures AllAddressed(run[k].events)
    ensures Requests(run[k].events) == run[k].crud.history
    ensures Responses(run[k].up.history) == Sequential(run[0].file, run[k].events)
  {
    RunKeepsInv(run, k);
    StartStays(run, k);
    assert StepAt(run, k);
    OnlyLeavingExits(run[k], run[k + 1]);
    LeavingMeansAnswered(run[k]);
  }

  lemma OnlyLeavingExits(s: State, t: State)
    requires Next(s, t) && !s.crud.consumer.Exited? && t.crud.consumer.Exited?
    ensures s.crud.consumer.Leaving?
  {
    var step :| Enabled(s, step) && t == Do(s, step);
    if step.CrudStep? {
      W.ExitStep(s.crud, step.c);
    }
  }

  // ---------- progress ----------

  /** The threads' own steps: no new message from outside, no spurious wakeup, neither shutdown nor main's start. */
  predicate Internal(step: Step) {
    match step
    case CrudStep(c) => W.Internal(c)
    case UpStep(u) => W.Internal(u)
    case Process(_) => true
    case Reply => true
    case Finish => true
    case Shutdown => false
  }

  /** A lock is held, a message is being handled, or a consumer has something to look at. */
  predicate Pending<T(==)>(q: W.State<T>) {
    q.owner.Some? || q.consumer.Processing? || (!q.consumer.Exited? && (q.queue != [] || q.told))
  }

  lemma HandlerCanMove(s: State) returns (step: Step)
    requires Inv(s) && s.up.owner.None? && s.crud.consumer.Processing?
    ensures Enabled(s, step) && Internal(step)
  {
    step := match s.handler
      case Waiting => Process(Env(true, true, None, 200))
      case Replying(_) => Reply
      case Replied => if W.Pc(s.up, HANDLER).Idle? then Finish else UpStep(W.Lock(HANDLER));
    assert W.ProducerHolds(W.Pc(s.up, HANDLER)) <==> s.up.owner == Some(W.Producer(HANDLER));
  }

  lemma UpstreamCanMove(s: State) returns (step: Step)
    requires Inv(s) && s.crud.owner.None? && s.up.consumer.Processing?
    ensures Enabled(s, step) && Internal(step)
  {
    step := if W.Pc(s.crud, UPSTREAM).Idle? then UpStep(W.CDone) else CrudStep(W.Lock(UPSTREAM));
    assert W.ProducerHolds(W.Pc(s.crud, UPSTREAM)) <==> s.crud.owner == Some(W.Producer(UPSTREAM));
  }

  /** No deadlock of the queues and the handler: while anything is pending, some thread can take a step by itself. */
  lemma SomeoneCanMove(run: seq<State>, k: nat) returns (step: Step)
    requires IsRun(run) && k < |run| && (Pending(run[k].crud) || Pending(run[k].up))
    ensures Enabled(run[k], step) && Internal(step)
  {
    RunKeepsInv(run, k);
    var s := run[k];
    if s.crud.owner.Some? {
      var c := W.OwnerCanMove(s.crud);
      step := CrudStep(c);
    } else if s.up.owner.Some? {
      var u := W.OwnerCanMove(s.up);
      step := UpStep(u);
    } else if s.crud.consumer.Processing? {
      step := HandlerCanMove(s);
    } else if s.up.consumer.Processing? {
      step := UpstreamCanMove(s);
    } else if Pending(s.crud) {
      var c := W.ConsumerCanMove(s.crud);
      step := CrudStep(c);
    } else {
      var u := W.ConsumerCanMove(s.up);
      step := UpStep(u);
    }
  }

  // ---------- a retrieve that answers itself ----------

  ghost function Last(run: seq<State>): State
    requires run != []
  {
    run[|run| - 1]
  }

  lemma Extend(run: seq<State>, step: Step) returns (longer: seq<State>)
    requires IsRun(run) && Enabled(Last(run), step)
    ensures IsRun(longer) && Last(longer) == Do(Last(run), step)
  {
    longer := run + [Do(Last(run), step)];
    forall i: nat | i + 1 < |longer| ensures StepAt(longer, i) {
      if i + 1 < |run| {
        assert StepAt(run, i);
      }
    }
  }

  /** Nobody is at the queue, and it holds these messages. */
  predicate Quiet<T(==)>(q: W.State<T>, queue: seq<T>) {
    q.owner.None? && q.queue == queue && W.Pc(q, 0).Idle? && W.Pc(q, 1).Idle?
  }

  /** The rest of the system, but for crudMsgQ. */
  predicate SameButCrud(s: State, t: State) {
    t == s.(crud := t.crud)
  }

  predicate SameButUp(s: State, t: State) {
    t == s.(up := t.up)
  }

  lemma AppendRequest(run: seq<State>, p: nat, req: Addressed) returns (longer: seq<State>)
    requires IsRun(run) && Quiet(Last(run).crud, []) && Last(run).crud.consumer.Top?
    requires p == DOWNSTREAM || (p == UPSTREAM && Last(run).up.consumer.Processing?)
    ensures IsRun(longer) && SameButCrud(Last(run), Last(longer))
    ensures var before, after := Last(run).crud, Last(longer).crud;
            after == before.(queue := [req], history := before.history + [req], owner := Some(W.Producer(p)),
                             producers := before.producers[p := W.Signalling])
  {
    longer := Extend(run, CrudStep(W.Want(p, req)));
    longer := Extend(longer, CrudStep(W.Lock(p)));
    longer := Extend(longer, CrudStep(W.Append(p)));
  }

  lemma QueueRequest(run: seq<State>, p: nat, req: Addressed) returns (longer: seq<State>)
    requires IsRun(run) && Quiet(Last(run).crud, []) && Last(run).crud.consumer.Top?
    requires p == DOWNSTREAM || (p == UPSTREAM && Last(run).up.consumer.Processing?)
    ensures IsRun(longer) && SameButCrud(Last(run), Last(longer))
    ensures Quiet(Last(longer).crud, [req]) && Last(longer).crud.consumer.Top?
    ensures Last(longer).crud.history == Last(run).crud.history + [req]
  {
    longer := AppendRequest(run, p, req);
    longer := Extend(longer, CrudStep(W.Signal(p)));
    longer := Extend(longer, CrudStep(W.Unlock(p)));
  }

  lemma TakeRequest(run: seq<State>, req: Addressed) returns (longer: seq<State>)
    requires IsRun(run) && Quiet(Last(run).crud, [req]) && Last(run).crud.consumer.Top?
    ensures IsRun(longer) && SameButCrud(Last(run), Last(longer))
    ensures Quiet(Last(longer).crud, []) && Last(longer).crud.consumer == W.Processing(req)
    ensures Last(longer).crud.history == Last(run).crud.history
  {
    longer := Extend(run, CrudStep(W.CLock));
    longer := Extend(longer, CrudStep(W.CPop));
    longer := Extend(longer, CrudStep(W.CRelease));
  }

  lemma HandleRequest(run: seq<State>, env: Env) returns (longer: seq<State>)
    requires IsRun(run) && Last(run).crud.consumer.Processing? && Last(run).handler.Waiting?
    requires Quiet(Last(run).up, []) && Last(run).up.consumer.Top?
    ensures IsRun(longer) && Last(longer).crud == Last(run).crud && Last(longer).handler.Replied?
    ensures Last(longer).start == Last(run).start
    ensures var resp := ResponseSpec(Last(run).file, Last(run).crud.consumer.m, env);
            Last(longer).up == W.Do(Last(run).up, W.Want(HANDLER, Crud(resp)))
  {
    longer := Extend(run, Process(env));
    longer := Extend(longer, Reply);
  }

  lemma PostResponse(run: seq<State>, m: UpMsg) returns (longer: seq<State>)
    requires IsRun(run) && Last(run).up.owner.None? && Last(run).up.queue == [] && Last(run).up.consumer.Top?
    requires W.Pc(Last(run).up, HANDLER) == W.Wanting(m) && W.Pc(Last(run).up, LISTENER).Idle?
    ensures IsRun(longer) && SameButUp(Last(run), Last(longer))
    ensures Quiet(Last(longer).up, [m]) && Last(longer).up.consumer.Top?
  {
    longer := Extend(run, UpStep(W.Lock(HANDLER)));
    longer := Extend(longer, UpStep(W.Append(HANDLER)));
    longer := Extend(longer, UpStep(W.Signal(HANDLER)));
    longer := Extend(longer, UpStep(W.Unlock(HANDLER)));
  }

  lemma TakeResponse(run: seq<State>, m: UpMsg) returns (longer: seq<State>)
    requires IsRun(run) && Quiet(Last(run).up, [m]) && Last(run).up.consumer.Top?
    ensures IsRun(longer) && SameButUp(Last(run), Last(longer))
    ensures Last(longer).up.consumer == W.Processing(m)
  {
    longer := Extend(run, UpStep(W.CLock));
    longer := Extend(longer, UpStep(W.CPop));
    longer := Extend(longer, UpStep(W.CRelease));
  }

  /** The request that the upstream thread makes of a retrieve response addressed to this device's parodus. */
  function AsRequest(resp: Response, elements: Elements): Request {
    Request(resp.kind, resp.txid, resp.source, Some(Dest(resp.dest, elements)), NoPayload)
  }

  lemma ResponseIsRequest(f: File, req: Request, env: Env)
    requires req.dest.Some? && req.payload.NoPayload? && req.source == req.dest.value.text
    ensures AsRequest(ResponseSpec(f, req, env), req.dest.value.elements) == req
  {
  }

  lemma FirstState(start: File) returns (run: seq<State>)
    ensures IsRun(run) && Last(run).file == Last(run).start == start && Last(run).handler.Waiting?
    ensures Quiet(Last(run).crud, []) && Last(run).crud.consumer.Top? && Last(run).crud.history == []
    ensures Quiet(Last(run).up, []) && Last(run).up.consumer.Top?
  {
    var crud: W.State<Addressed> := W.State([], None, map[], W.Top, W.Running, false, false, [], []);
    var up: W.State<UpMsg> := W.State([], None, map[], W.Top, W.Running, false, false, [], []);
    run := [State(crud, up, start, start, Waiting, [])];
  }

  /**
   A retrieve whose source is its own destination: in some run it is answered, the upstream thread takes the response
   for a request, and that request, the very same one, is on crudMsgQ again.
   */
  lemma RetrieveAnswersItself(start: File, req: Addressed, env: Env) returns (run: seq<State>)
    requires req.kind.Retrieve? && req.payload.NoPayload? && req.source == req.dest.value.text
    ensures IsRun(run) && run[0].file == start
    ensures Last(run).crud.history == [req, req] && Last(run).crud.queue == [req]
    ensures var resp := ResponseSpec(start, req, env);
            Last(run).up.consumer == W.Processing(Crud(resp)) && AsRequest(resp, req.dest.value.elements) == req
  {
    var resp := ResponseSpec(start, req, env);
    ResponseIsRequest(start, req, env);
    run := FirstState(start);
    run := QueueRequest(run, DOWNSTREAM, req);
    run := TakeRequest(run, req);
    run := HandleRequest(run, env);
    run := PostResponse(run, Crud(resp));
    run := Extend(run, Finish);
    run := TakeResponse(run, Crud(resp));
    run := QueueRequest(run, UPSTREAM, req);
    StartStays(run, |run| - 1);
  }
}
