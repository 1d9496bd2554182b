/**
 What the responses on the upstream queue say: the answers of the store, read-your-writes and deletion, told from the
 responses that any interleaving has sent.
 */
module PipelineAnswers {
  import opened Wrappers
  import opened Json
  import opened CrudMessages
  import opened CrudSpec
  import opened CrudLaws
  import opened CrudAnswers
  import opened Pipeline

  /** The file that the first i requests leave. */
  function FileAt(start: File, events: seq<Event>, i: nat): File
    requires i <= |events|
  {
    Run(start, events[..i])
  }

  lemma {:induction false} SequentialIsLast(start: File, events: seq<Event>, i: nat)
    requires AllAddressed(events) && i < |events|
    ensures Sequential(start, events)[i] == LastResponse(start, events[..i + 1])
  {
    var n := |events| - 1;
    var front, last := Sequential(start, events[..n]), LastResponse(start, events);
    assert Sequential(start, events) == front + [last];
    if i < n {
      SequentialIsLast(start, events[..n], i);
      assert (front + [last])[i] == front[i] && events[..n][..i + 1] == events[..i + 1];
    } else {
      assert events[..i + 1] == events;
    }
  }

  /** Response i of a sequential run is the answer to request i in the file that the requests before it left. */
  lemma SequentialAt(start: File, events: seq<Event>, i: nat)
    requires AllAddressed(events) && i < |events|
    ensures Sequential(start, events)[i] == ResponseSpec(FileAt(start, events, i), events[i].req, events[i].env)
  {
    SequentialIsLast(start, events, i);
    assert events[..i + 1][..i] == events[..i];
  }

  lemma {:induction false} RunIsGood(start: File, events: seq<Event>)
    requires Good(start)
    ensures Good(Run(start, events))
  {
    if events != [] {
      var n := |events| - 1;
      RunIsGood(start, events[..n]);
      StepKeepsGood(Run(start, events[..n]), events[n]);
    }
  }

  lemma RunNext(start: File, events: seq<Event>, i: nat)
    requires i < |events|
    ensures FileAt(start, events, i + 1) == CrudLaws.Step(FileAt(start, events, i), events[i]).file
  {
    assert events[..i + 1] == events[..i] + [events[i]];
    RunSnoc(start, events[..i], events[i]);
  }

  predicate SuccessOf(r: Response) {
    r.status == 200 || r.status == 201
  }

  /** The response shows that the request did not touch the record: another name, or no success. */
  predicate ShowsUntouched(e: Event, r: Response, name: string) {
    !SuccessOf(r) || TagName(e.req).None? ||
    (e.env.readOk && (TagName(e.req) != Some(name) || e.req.kind.Retrieve? || e.req.kind.Other?))
  }

  /** The response shows that a stored record was spared: untouched, or a create, which replaces nothing it can read. */
  predicate ShowsSpared(e: Event, r: Response, name: string) {
    (e.env.readOk && e.req.kind.Create?) || ShowsUntouched(e, r, name)
  }

  lemma UntouchedIsShown(f: File, e: Event, name: string)
    requires e.req.dest.Some? && ShowsUntouched(e, ResponseSpec(f, e.req, e.env), name)
    ensures !Touches(f, e, name)
  {
  }

  predicate Holds(f: File, name: string, fields: seq<Member>) {
    Good(f) && Lookup(f, name) == Some(fields)
  }

  lemma SparedStays(f: File, e: Event, name: string, fields: seq<Member>)
    requires Holds(f, name, fields) && e.req.dest.Some?
    requires ShowsSpared(e, ResponseSpec(f, e.req, e.env), name)
    ensures Holds(CrudLaws.Step(f, e).file, name, fields)
  {
    if !(e.env.readOk && e.req.kind.Create?) {
      UntouchedIsShown(f, e, name);
    }
    SurvivesOneRequest(f, e, name);
  }

  predicate Answered(start: File, events: seq<Event>, rs: seq<Response>, m: nat)
    requires m < |events| && m < |rs|
  {
    events[m].req.dest.Some? && rs[m] == ResponseSpec(FileAt(start, events, m), events[m].req, events[m].env)
  }

  /** Response m answers request m, and shows that it spared the record. */
  predicate Spared(start: File, events: seq<Event>, rs: seq<Response>, m: nat, name: string) {
    m < |events| && m < |rs| && Answered(start, events, rs, m) && ShowsSpared(events[m], rs[m], name)
  }

  lemma StoredNext(start: File, events: seq<Event>, rs: seq<Response>, m: nat, name: string, fields: seq<Member>)
    requires Spared(start, events, rs, m, name) && Holds(FileAt(start, events, m), name, fields)
    ensures Holds(FileAt(start, events, m + 1), name, fields)
  {
    SparedStays(FileAt(start, events, m), events[m], name, fields);
    RunNext(start, events, m);
  }

  /** What is stored at request i is there for request j, when the responses in between show that it was spared. */
  lemma {:induction false} StoredBetween(start: File, events: seq<Event>, rs: seq<Response>, i: nat, j: nat,
                                         name: string, fields: seq<Member>)
    requires i <= j < |events| && Holds(FileAt(start, events, i), name, fields)
    requires forall m :: i <= m < j ==> Spared(start, events, rs, m, name)
    ensures Holds(FileAt(start, events, j), name, fields)
    decreases j - i
  {
    if i < j {
      StoredBetween(start, events, rs, i, j - 1, name, fields);
      StoredNext(start, events, rs, j - 1, name, fields);
    }
  }

  /** Response i answers a create with 201, or an update of a record with 200 or 201. */
  predicate ShowsStored(e: Event, r: Response) {
    (e.req.kind.Create? && r.status == 201) ||
    (e.req.kind.Update? && !NamesDisconnect(e.req) && SuccessOf(r))
  }

  /** A retrieve of mac/id/parodus/tag/name by a request that can open the file. */
  predicate Asks(e: Event, name: string) {
    e.req.kind.Retrieve? && NamesTag(e.req, name) && e.env.readOk
  }

  /** What a retrieve answers when the name is stored. */
  lemma AskedIsReported(f: File, e: Event, name: string)
    requires Good(f) && Asks(e, name) && name != "tags" && Lookup(f, name).Some?
    ensures var r := ResponseSpec(f, e.req, e.env);
            r.status == 200 && r.payload == Some(Fields(Lookup(f, name).value))
  {
    LookUpSlots(e.req, name);
    RetrieveAnswers(f, e);
  }

  /** Read your writes, in the responses of a sequential run. */
  lemma SequentialReadYourWrites(start: File, events: seq<Event>, i: nat, j: nat, name: string)
    requires AllAddressed(events) && i < j < |events| && Good(start) && name != "tags"
    requires ShowsStored(events[i], Sequential(start, events)[i]) && NamesTag(events[i].req, name)
    requires Asks(events[j], name)
    requires forall m :: i < m < j ==> ShowsSpared(events[m], Sequential(start, events)[m], name)
    ensures Acceptable(events[i].req.payload)
    ensures var r := Sequential(start, events)[j];
            r.status == 200 && r.payload == Some(Fields(Stored(events[i].req.payload.json.members)))
  {
    var f := FileAt(start, events, i);
    RunIsGood(start, events[..i]);
    SequentialAt(start, events, i);
    SuccessIsStored(f, events[i]);
    TagIff(events[i].req, name);
    RunNext(start, events, i);
    StepKeepsGood(f, events[i]);
    var fields := Stored(events[i].req.payload.json.members);
    forall m | i < m < j ensures Spared(start, events, Sequential(start, events), m, name) {
      SequentialAt(start, events, m);
    }
    StoredBetween(start, events, Sequential(start, events), i + 1, j, name, fields);
    SequentialAt(start, events, j);
    AskedIsReported(FileAt(start, events, j), events[j], name);
  }

  /** The responses sent are answers: response i is that of the sequential run. */
  lemma SentIsSequential(run: seq<State>, k: nat, i: nat)
    requires IsRun(run) && k < |run| && i < |Responses(run[k].up.history)|
    ensures AllAddressed(run[k].events) && i < |run[k].events|
    ensures i < |run[k].crud.history| && run[k].events[i].req == run[k].crud.history[i]
    ensures Responses(run[k].up.history)[i] == Sequential(run[0].file, run[k].events)[i]
  {
    ResponsesAreSequential(run, k);
    assert Requests(run[k].events)[i] == run[k].crud.history[i];
  }

  /**
   Over every interleaving, among the responses ever put on the upstream queue: after a response that reports a
   successful create or update of a name, every response to a retrieve of the name carries that payload, as long as the
   responses in between show no other success on it.
   */
  lemma ReadYourWrites(run: seq<State>, k: nat, i: nat, j: nat, name: string)
    requires IsRun(run) && k < |run| && Good(run[0].file) && name != "tags"
    requires i < j < |Responses(run[k].up.history)| <= |run[k].events|
    requires ShowsStored(run[k].events[i], Responses(run[k].up.history)[i]) && NamesTag(run[k].events[i].req, name)
    requires Asks(run[k].events[j], name)
    requires forall m :: i < m < j ==> ShowsSpared(run[k].events[m], Responses(run[k].up.history)[m], name)
    ensures Acceptable(run[k].events[i].req.payload)
    ensures var r := Responses(run[k].up.history)[j];
            r.status == 200 && r.payload == Some(Fields(Stored(run[k].events[i].req.payload.json.members)))
  {
    var events := run[k].events;
    forall m: nat | m <= j
      ensures AllAddressed(events) && Responses(run[k].up.history)[m] == Sequential(run[0].file, events)[m]
    {
      SentIsSequential(run, k, m);
    }
    SequentialReadYourWrites(run[0].file, events, i, j, name);
  }

  // ---------- deletion ----------

  /** The response shows that the request did not write under the name. */
  predicate ShowsNotWritten(e: Event, r: Response, name: string) {
    !SuccessOf(r) || !NamesTag(e.req, name) || e.req.kind.Retrieve? || e.req.kind.Other?
  }

  predicate Gone(f: File, name: string) {
    Good(f) && f.Config? && Lookup(f, name).None?
  }

  lemma NotWrittenStaysGone(f: File, e: Event, name: string)
    requires Gone(f, name) && e.req.dest.Some? && ShowsNotWritten(e, ResponseSpec(f, e.req, e.env), name)
    ensures Gone(CrudLaws.Step(f, e).file, name)
  {
    TagIff(e.req, name);
    StaysAbsent(f, e, name);
  }

  /** Response m answers request m, and shows that it did not write the name. */
  predicate NotStored(start: File, events: seq<Event>, rs: seq<Response>, m: nat, name: string) {
    m < |events| && m < |rs| && Answered(start, events, rs, m) && ShowsNotWritten(events[m], rs[m], name)
  }

  lemma GoneNext(start: File, events: seq<Event>, rs: seq<Response>, m: nat, name: string)
    requires NotStored(start, events, rs, m, name) && Gone(FileAt(start, events, m), name)
    ensures Gone(FileAt(start, events, m + 1), name)
  {
    NotWrittenStaysGone(FileAt(start, events, m), events[m], name);
    RunNext(start, events, m);
  }

  lemma {:induction false} GoneBetween(start: File, events: seq<Event>, rs: seq<Response>, i: nat, j: nat, name: string)
    requires i <= j < |events| && Gone(FileAt(start, events, i), name)
    requires forall m :: i <= m < j ==> NotStored(start, events, rs, m, name)
    ensures Gone(FileAt(start, events, j), name)
    decreases j - i
  {
    if i < j {
      GoneBetween(start, events, rs, i, j - 1, name);
      GoneNext(start, events, rs, j - 1, name);
    }
  }

  lemma AskedIsGone(f: File, e: Event, name: string)
    requires Gone(f, name) && Asks(e, name) && name != "tags"
    ensures TurnedDown(f, e, 400)
  {
    LookUpSlots(e.req, name);
    RetrieveAnswers(f, e);
  }

  /** The response reports a delete of the name, by a request that could open the file for writing. */
  predicate ShowsDeleted(e: Event, r: Response, name: string) {
    e.req.kind.Delete? && NamesTag(e.req, name) && e.env.writeOk && r.status == 200
  }

  lemma DeletedIsGone(f: File, e: Event, name: string)
    requires Good(f) && e.req.dest.Some? && ShowsDeleted(e, ResponseSpec(f, e.req, e.env), name)
    ensures Gone(CrudLaws.Step(f, e).file, name)
  {
    TagIff(e.req, name);
    WrittenDelete(f, e, name);
  }

  /**
   Over every interleaving: after a response that reports a delete whose file could be written, every response to a
   retrieve of the name is 400, as long as the responses in between show no successful write of it.
   */
  lemma DeletedStaysDeleted(run: seq<State>, k: nat, i: nat, j: nat, name: string)
    requires IsRun(run) && k < |run| && Good(run[0].file) && name != "tags"
    requires i < j < |Responses(run[k].up.history)| <= |run[k].events|
    requires ShowsDeleted(run[k].events[i], Responses(run[k].up.history)[i], name) && Asks(run[k].events[j], name)
    requires forall m :: i < m < j ==> ShowsNotWritten(run[k].events[m], Responses(run[k].up.history)[m], name)
    ensures var r := Responses(run[k].up.history)[j]; r.status == 400 && r.payload.None?
  {
    var start, events, rs := run[0].file, run[k].events, Responses(run[k].up.history);
    forall m: nat | m <= j ensures Answered(start, events, rs, m) {
      SentIsSequential(run, k, m);
      SequentialAt(start, events, m);
    }
    RunIsGood(start, events[..i]);
    assert Answered(start, events, rs, i);
    DeletedIsGone(FileAt(start, events, i), events[i], name);
    RunNext(start, events, i);
    forall m | i < m < j ensures NotStored(start, events, rs, m, name) {
      assert Answered(start, events, rs, m);
    }
    GoneBetween(start, events, rs, i + 1, j, name);
    assert Answered(start, events, rs, j);
    AskedIsGone(FileAt(start, events, j), events[j], name);
  }
}
