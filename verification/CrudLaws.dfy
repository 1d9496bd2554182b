/**
 The laws of the tag store, over every run of requests: what the file can hold, that failures leave no trace,
 that the record list implements a map keyed by name ignoring case, and that a read returns the last write.
 */
module CrudLaws {
  import opened Wrappers
  import opened Json
  import opened CrudMessages
  import opened CrudSpec

  // ---------- runs ----------

  datatype Event = Event(req: Request, env: Env)

  function Step(f: File, e: Event): Outcome {
    HandlerSpec(f, e.req, e.env)
  }

  /** The file after a sequence of requests. */
  function Run(f: File, events: seq<Event>): File {
    if events == [] then f else Step(Run(f, events[..|events| - 1]), events[|events| - 1]).file
  }

  lemma RunSnoc(f: File, events: seq<Event>, e: Event)
    ensures Run(f, events + [e]) == Step(Run(f, events), e).file
  {
    assert (events + [e])[..|events|] == events;
  }

  lemma {:induction false} RunAppend(f: File, before: seq<Event>, after: seq<Event>)
    ensures Run(f, before + after) == Run(Run(f, before), after)
  {
    if after == [] {
      assert before + after == before;
    } else {
      var n := |after| - 1;
      assert (before + after)[..|before + after| - 1] == before + after[..n];
      RunAppend(f, before, after[..n]);
    }
  }

  // ---------- the change a request asks for ----------

  /** The record name a request on mac/id/parodus/tag/name is about. */
  function TagName(req: Request): Option<string> {
    if Target(req).Some? && IsTagDest(Target(req).value) then Target(req).value[4] else None
  }

  datatype Change =
    | NoChange
    | Creates(name: string, members: seq<Member>)
    | Updates(name: string, members: seq<Member>)
    | Deletes(name: string)

  /** Told from the request alone. */
  function Asked(req: Request): Change {
    var name := TagName(req);
    if name.None? then NoChange
    else if req.kind.Delete? then Deletes(name.value)
    else if req.kind.Create? && PayloadOk(req.payload) then Creates(name.value, req.payload.json.members)
    else if req.kind.Update? && PayloadOk(req.payload) then Updates(name.value, req.payload.json.members)
    else NoChange
  }

  function Apply(f: File, c: Change, writeOk: bool): Outcome {
    match c
    case NoChange => Fail(f, 400)
    case Creates(name, members) => CreateTag(f, name, members, writeOk)
    case Updates(name, members) => UpdateTag(f, name, members, writeOk)
    case Deletes(name) => DeleteTag(f, name, writeOk)
  }

  predicate Succeeded(o: Outcome) {
    o.status == 200 || o.status == 201
  }

  /** On a file that parses, a request does exactly the change it asks for to what it sees. */
  lemma StepIsApply(f: File, e: Event)
    requires !Seen(f, e.env).Garbage?
    ensures var seen := Seen(f, e.env);
            Step(f, e).file == KeptFile(Apply(seen, Asked(e.req), e.env.writeOk).file, seen, f)
    ensures !Asked(e.req).NoChange? ==>
              Succeeded(Step(f, e)) == Succeeded(Apply(Seen(f, e.env), Asked(e.req), e.env.writeOk))
  {
  }

  // ---------- what a reachable file holds ----------

  predicate DistinctFold(records: seq<Record>) {
    forall i, j {:trigger Fold(records[i].name), Fold(records[j].name)} ::
      0 <= i < j < |records| ==> Fold(records[i].name) != Fold(records[j].name)
  }

  predicate CleanField(m: Member) {
    m.key != "" &&
    ((m.value.Number? && m.value.n == ValueInt(m.value.n) as real) || (m.value.String? && m.value.s != ""))
  }

  predicate AllClean(fields: seq<Member>) {
    forall i {:trigger CleanField(fields[i])} :: 0 <= i < |fields| ==> CleanField(fields[i])
  }

  predicate CleanFields(fields: seq<Member>) {
    AllClean(fields) && ExpiresOk(Object(fields))
  }

  predicate CleanRecords(records: seq<Record>) {
    forall i :: 0 <= i < |records| ==> CleanFields(records[i].fields)
  }

  /** No file, or exactly {"tags": L} with names in L pairwise distinct ignoring case and clean records. */
  predicate Good(f: File) {
    f.Absent? || (f.Config? && f.tags.Some? && DistinctFold(f.tags.value) && CleanRecords(f.tags.value))
  }

  lemma StoredIsClean(members: seq<Member>)
    requires ExpiresOk(Object(members)) && StringsOk(Object(members)) && TypesOk(members)
    ensures CleanFields(Stored(members))
  {
    var j, s := Object(members), Object(Stored(members));
    forall i | 0 <= i < |members|
      ensures CleanField(Stored(members)[i])
      ensures Key(s, i) == Key(j, i) && IsExpires(s, i) == IsExpires(j, i)
      ensures IsExpires(j, i) ==> ValueInt(Item(s, i).n) == ValueInt(Item(j, i).n)
    {
      assert TypeOk(members[i]) && Key(j, i) != Some("") && Item(j, i) != String("");
      if members[i].value.Number? {
        ValueIntIdempotent(members[i].value.n);
      }
    }
    var i :| 0 <= i < Size(j) && IsExpires(j, i) && ValueInt(Item(j, i).n) != 0 &&
             forall k :: 0 <= k < i ==> !IsExpires(j, k);
    assert IsExpires(s, i) && forall k :: 0 <= k < i ==> !IsExpires(s, k);
  }

  lemma CleanFieldIsCopied(m: Member)
    requires CleanField(m)
    ensures CopyOutField(m) == [m]
  {
  }

  lemma CopyOutSnoc(fields: seq<Member>, m: Member)
    ensures CopyOut(fields + [m]) == CopyOut(fields) + CopyOutField(m)
  {
    assert (fields + [m])[..|fields|] == fields;
  }

  /** On a clean record retrieve takes every field for a number or a string, and copies all of them. */
  lemma {:induction false} CleanIsCopiedWhole(fields: seq<Member>)
    requires AllClean(fields)
    ensures CopyOut(fields) == fields
  {
    if fields != [] {
      var front, last := fields[..|fields| - 1], fields[|fields| - 1];
      assert AllClean(front) && CleanField(last) by {
        forall i | 0 <= i < |front| ensures CleanField(front[i]) {
          assert front[i] == fields[i];
        }
      }
      CleanIsCopiedWhole(front);
      CleanFieldIsCopied(last);
      CopyOutSnoc(front, last);
      assert fields == front + [last];
    }
  }

  lemma AppendKeepsGood(records: seq<Record>, r: Record)
    requires Good(Config(Some(records))) && !Clash(records, r.name) && CleanFields(r.fields)
    ensures Good(Config(Some(records + [r])))
  {
  }

  lemma RemoveKeepsGood(records: seq<Record>, i: nat)
    requires Good(Config(Some(records))) && i < |records|
    ensures Good(Config(Some(RemoveAt(records, i))))
    ensures !Clash(RemoveAt(records, i), records[i].name)
  {
    var rest := RemoveAt(records, i);
    forall k | 0 <= k < |rest|
      ensures rest[k] == records[if k < i then k else k + 1]
    {
    }
  }

  /** The payload of a change has passed the checks made before the file is looked at. */
  predicate Checked(c: Change) {
    c.Creates? || c.Updates? ==> ExpiresOk(Object(c.members)) && StringsOk(Object(c.members))
  }

  lemma AskedIsChecked(req: Request)
    ensures Checked(Asked(req))
  {
    if req.payload.Body? && req.payload.json.Object? {
      assert req.payload.json == Object(req.payload.json.members);
    }
  }

  lemma ApplyKeepsGood(f: File, c: Change, writeOk: bool)
    requires Good(f) && Checked(c)
    ensures Good(Apply(f, c, writeOk).file)
  {
    if !c.NoChange? {
      var records := Listed(f);
      var i := FirstIndex(records, c.name);
      if i < |records| {
        assert Fold(records[i].name) == Fold(c.name);
        RemoveKeepsGood(records, i);
      }
      if !c.Deletes? && TypesOk(c.members) {
        StoredIsClean(c.members);
        var r := Record(c.name, Stored(c.members));
        if i < |records| {
          AppendKeepsGood(RemoveAt(records, i), r);
        } else if !Clash(records, c.name) {
          AppendKeepsGood(records, r);
        }
      }
    }
  }

  /** Every request keeps the file good. */
  lemma StepKeepsGood(f: File, e: Event)
    requires Good(f)
    ensures Good(Step(f, e).file)
  {
    StepIsApply(f, e);
    AskedIsChecked(e.req);
    ApplyKeepsGood(Seen(f, e.env), Asked(e.req), e.env.writeOk);
  }

  /** Over every run that starts without a config file, the file is good. */
  lemma {:induction false} ReachableIsGood(events: seq<Event>)
    ensures Good(Run(Absent, events))
  {
    if events != [] {
      ReachableIsGood(events[..|events| - 1]);
      StepKeepsGood(Run(Absent, events[..|events| - 1]), events[|events| - 1]);
    }
  }

  // ---------- failures leave no trace ----------

  /** A create or update of a record that does not answer 200 or 201 leaves the file as it was. */
  lemma FailureIsAtomic(f: File, name: string, members: seq<Member>, writeOk: bool)
    ensures var o := CreateTag(f, name, members, writeOk);
            (o.status == 201 <==> o.ret == 0) && (o.status != 201 ==> o.file == f)
    ensures var o := UpdateTag(f, name, members, writeOk);
            (Succeeded(o) <==> o.ret == 0) && (!Succeeded(o) ==> o.file == f)
  {
  }

  lemma NoChangeWithoutSuccess(f: File, e: Event)
    requires !Succeeded(Step(f, e))
    ensures Step(f, e).file == f
  {
  }

  /** The requests of a run that answered 200 or 201. */
  function Successes(f: File, events: seq<Event>): seq<Event> {
    if events == [] then []
    else
      var n := |events| - 1;
      var rest := Successes(f, events[..n]);
      if Succeeded(Step(Run(f, events[..n]), events[n])) then rest + [events[n]] else rest
  }

  /** Taking every failed request out of a run, wherever it stands, changes nothing in the final file. */
  lemma {:induction false} FailuresLeaveNoTrace(f: File, events: seq<Event>)
    ensures Run(f, Successes(f, events)) == Run(f, events)
  {
    if events != [] {
      var n := |events| - 1;
      FailuresLeaveNoTrace(f, events[..n]);
      var rest, g := Successes(f, events[..n]), Run(f, events[..n]);
      RunSnoc(f, rest, events[n]);
      if !Succeeded(Step(g, events[n])) {
        NoChangeWithoutSuccess(g, events[n]);
      }
    }
  }

  // ---------- looking a name up ----------

  /** What the exact scan finds under a name. */
  function LookupIn(records: seq<Record>, name: string): Option<seq<Member>> {
    var i := FirstIndex(records, name);
    if i < |records| then Some(records[i].fields) else None
  }

  function Lookup(f: File, name: string): Option<seq<Member>> {
    LookupIn(Listed(f), name)
  }

  /** In a list with distinct names the exact scan finds a record whenever it is there. */
  lemma LookupIsMembership(f: File, name: string, fields: seq<Member>)
    requires DistinctFold(Listed(f))
    ensures Lookup(f, name) == Some(fields) <==> Record(name, fields) in Listed(f)
  {
    var records := Listed(f);
    if Record(name, fields) in records {
      var k :| 0 <= k < |records| && records[k] == Record(name, fields);
      var i := FirstIndex(records, name);
      assert i <= k && Fold(records[i].name) == Fold(records[k].name);
    }
  }

  /** A successful create, update or delete of exactly this name. */
  predicate Writes(f: File, e: Event, name: string) {
    !Asked(e.req).NoChange? && Asked(e.req).name == name && Succeeded(Step(f, e))
  }

  /** A successful create or update whose first look at the file could not open it: the whole file is replaced. */
  predicate Wipes(f: File, e: Event) {
    !e.env.readOk && !Asked(e.req).NoChange? && Succeeded(Step(f, e))
  }

  predicate Touches(f: File, e: Event, name: string) {
    Writes(f, e, name) || Wipes(f, e)
  }

  lemma AppendKeepsOthers(records: seq<Record>, r: Record, name: string)
    requires r.name != name
    ensures LookupIn(records + [r], name) == LookupIn(records, name)
  {
    var i, k := FirstIndex(records, name), FirstIndex(records + [r], name);
    if k < |records| {
      assert (records + [r])[k] == records[k];
    }
    if i < |records| {
      assert (records + [r])[i] == records[i];
    }
  }

  lemma RemoveKeepsOthers(records: seq<Record>, i: nat, name: string)
    requires i < |records| && records[i].name != name
    ensures LookupIn(RemoveAt(records, i), name) == LookupIn(records, name)
  {
    var rest := RemoveAt(records, i);
    var k, m := FirstIndex(records, name), FirstIndex(rest, name);
    if k < |records| {
      assert rest[if k < i then k else k - 1] == records[k];
    }
    if m < |rest| {
      assert rest[m] == records[if m < i then m else m + 1];
    }
  }

  lemma ApplyKeepsOthers(f: File, c: Change, writeOk: bool, name: string)
    requires c.NoChange? || c.name != name || !Succeeded(Apply(f, c, writeOk))
    ensures Lookup(Apply(f, c, writeOk).file, name) == Lookup(f, name)
  {
    if Succeeded(Apply(f, c, writeOk)) {
      var records, i := Listed(f), FirstIndex(Listed(f), c.name);
      if i < |records| {
        RemoveKeepsOthers(records, i, name);
      }
      if !c.Deletes? {
        var r := Record(c.name, Stored(c.members));
        AppendKeepsOthers(if i < |records| then RemoveAt(records, i) else records, r, name);
      }
    }
  }

  lemma ReadableKeepsOthers(f: File, e: Event, name: string)
    requires Good(f) && e.env.readOk && !Writes(f, e, name)
    ensures Lookup(Step(f, e).file, name) == Lookup(f, name)
  {
    StepIsApply(f, e);
    ApplyKeepsOthers(f, Asked(e.req), e.env.writeOk, name);
  }

  lemma UnreadableFails(f: File, e: Event)
    requires !e.env.readOk && !Wipes(f, e)
    ensures Step(f, e).file == f
  {
    StepIsApply(f, e);
    if !Asked(e.req).NoChange? {
      NoChangeWithoutSuccess(f, e);
    }
  }

  /** A request that does not touch a name leaves what is stored under it, or its absence, as it was. */
  lemma UntouchedIsUnchanged(f: File, e: Event, name: string)
    requires Good(f) && !Touches(f, e, name)
    ensures Lookup(Step(f, e).file, name) == Lookup(f, name)
  {
    if e.env.readOk {
      ReadableKeepsOthers(f, e, name);
    } else {
      UnreadableFails(f, e);
    }
  }

  /** After a wipe the file holds the one record just written, and nothing of what was there. */
  lemma WipeLeavesOneRecord(f: File, e: Event)
    requires Wipes(f, e)
    ensures Asked(e.req).Creates? || Asked(e.req).Updates?
    ensures var c := Asked(e.req); Step(f, e).file == Config(Some([Record(c.name, Stored(c.members))]))
  {
    StepIsApply(f, e);
    if !Asked(e.req).Deletes? {
      var record := Record(Asked(e.req).name, Stored(Asked(e.req).members));
      assert [] + [record] == [record];
    }
  }

  /** A stored record survives a successful request on another name if and only if that request could read the file. */
  lemma OthersSurviveIff(f: File, e: Event, name: string)
    requires Good(f) && Lookup(f, name).Some?
    requires !Asked(e.req).NoChange? && Asked(e.req).name != name && Succeeded(Step(f, e))
    ensures Lookup(Step(f, e).file, name) == Lookup(f, name) <==> e.env.readOk
  {
    if e.env.readOk {
      ReadableKeepsOthers(f, e, name);
    } else {
      WipeLeavesOneRecord(f, e);
    }
  }

  lemma ApplyStores(f: File, c: Change, writeOk: bool)
    requires Good(f) && Checked(c) && (c.Creates? || c.Updates?) && Succeeded(Apply(f, c, writeOk))
    ensures Lookup(Apply(f, c, writeOk).file, c.name) == Some(Stored(c.members))
  {
    ApplyKeepsGood(f, c, writeOk);
    var g := Apply(f, c, writeOk).file;
    assert Record(c.name, Stored(c.members)) in Listed(g);
    LookupIsMembership(g, c.name, Stored(c.members));
  }

  /** A successful write stores the payload, numbers cut to ints, under the name. */
  lemma WriteIsStored(f: File, e: Event, name: string)
    requires Good(f) && Writes(f, e, name) && !e.req.kind.Delete?
    ensures e.req.payload.Body? && e.req.payload.json.Object?
    ensures Lookup(Step(f, e).file, name) == Some(Stored(e.req.payload.json.members))
  {
    StepIsApply(f, e);
    AskedIsChecked(e.req);
    ApplyStores(Seen(f, e.env), Asked(e.req), e.env.writeOk);
  }

  lemma DeleteApplied(f: File, name: string, writeOk: bool)
    requires Good(f) && Succeeded(DeleteTag(f, name, writeOk))
    ensures Lookup(DeleteTag(f, name, writeOk).file, name).None? <==> writeOk
  {
    var records := Listed(f);
    var i := FirstIndex(records, name);
    assert Fold(records[i].name) == Fold(name);
    RemoveKeepsGood(records, i);
    assert FirstIndex(RemoveAt(records, i), name) == |records| - 1;
  }

  /** A delete that answers 200 takes the record away exactly when the file could be opened for writing in the end. */
  lemma DeleteTakesAway(f: File, e: Event, name: string)
    requires Good(f) && e.req.kind.Delete?
    ensures Writes(f, e, name) ==> (Lookup(Step(f, e).file, name).None? <==> e.env.writeOk)
  {
    if Writes(f, e, name) {
      StepIsApply(f, e);
      DeleteApplied(f, name, e.env.writeOk);
    }
  }

  predicate IsGet(req: Request, name: string) {
    req.kind.Retrieve? && TagName(req) == Some(name)
  }

  lemma StoredIsCopiedWhole(f: File, name: string)
    requires Good(f) && Lookup(f, name).Some?
    ensures CopyOut(Lookup(f, name).value) == Lookup(f, name).value
  {
    assert CleanFields(Listed(f)[FirstIndex(Listed(f), name)].fields);
    CleanIsCopiedWhole(Lookup(f, name).value);
  }

  lemma GetFromFile(f: File, obj: seq<Option<string>>, name: string)
    requires f.Absent? || (f.Config? && f.tags.Some?)
    requires IsTagDest(obj) && obj[4] == Some(name) && name != "tags"
    ensures var o := RetrieveTag(f, obj);
            o.file == f && o.status == (if Lookup(f, name).Some? then 200 else if f.Absent? then 500 else 400) &&
            (Lookup(f, name).Some? ==> o.payload == Some(Fields(CopyOut(Lookup(f, name).value))))
  {
  }

  lemma GetIsFromFile(f: File, e: Event, name: string)
    requires IsGet(e.req, name)
    ensures var seen := Seen(f, e.env); Step(f, e) == Kept(RetrieveTag(seen, Target(e.req).value), seen, f)
  {
    NotInMemory();
  }

  /**
   A retrieve of mac/id/parodus/tag/name answers with what is stored under the name, 400 without it, and 500 without a
   file that can be read.
   */
  lemma GetReadsTheStore(f: File, e: Event, name: string)
    requires Good(f) && IsGet(e.req, name) && name != "tags"
    ensures Step(f, e).file == f
    ensures Step(f, e).status ==
            (if f.Absent? || !e.env.readOk then 500 else if Lookup(f, name).Some? then 200 else 400)
    ensures Lookup(f, name).Some? && e.env.readOk ==> Step(f, e).payload == Some(Fields(Lookup(f, name).value))
  {
    GetIsFromFile(f, e, name);
    GetFromFile(Seen(f, e.env), Target(e.req).value, name);
    if Lookup(f, name).Some? {
      StoredIsCopiedWhole(f, name);
    }
  }

  /** "tag" does not contain "service-status", so tag destinations are read from the file. */
  lemma NotInMemory()
    ensures !Contains("tag", "service-status")
  {
    forall i | 0 <= i <= |"tag"|
      ensures !("service-status" <= "tag"[i..])
    {
      assert |"tag"[i..]| < |"service-status"|;
    }
  }

  lemma AllAreCopiedWhole(records: seq<Record>)
    requires CleanRecords(records)
    ensures CopyOutAll(records) == records
  {
    forall i | 0 <= i < |records| ensures CopyOutAll(records)[i] == records[i] {
      CleanIsCopiedWhole(records[i].fields);
    }
  }

  /** A retrieve whose destination ends in "tags" and is read from the file. */
  predicate IsGetAll(req: Request) {
    req.kind.Retrieve? && Target(req).Some? && !IsInMemoryDest(Target(req).value) &&
    Target(req).value[|Target(req).value| - 1] == Some("tags")
  }

  /**
   A retrieve of "tags" answers with exactly the stored records in order, 400 without any, and 500 without a file that
   can be read.
   */
  lemma GetAllReadsTheStore(f: File, e: Event)
    requires Good(f) && IsGetAll(e.req)
    ensures Step(f, e).file == f
    ensures Step(f, e).status == if f.Absent? || !e.env.readOk then 500 else if Listed(f) == [] then 400 else 200
    ensures Listed(f) != [] && e.env.readOk ==> Step(f, e).payload == Some(Tags(Listed(f)))
  {
    var seen := Seen(f, e.env);
    assert Step(f, e) == Kept(RetrieveTag(seen, Target(e.req).value), seen, f);
    if Listed(f) != [] {
      AllAreCopiedWhole(Listed(f));
    }
  }

  /**
   No event of the run is a successful update or delete of the name, or a successful write of any other name that could
   not read the file. A create cannot succeed on a name that is stored, if it can read the file.
   */
  predicate NotOverwritten(f: File, events: seq<Event>, name: string) {
    events == [] ||
    var n := |events| - 1;
    NotOverwritten(f, events[..n], name) && Spares(Run(f, events[..n]), events[n], name)
  }

  predicate Spares(f: File, e: Event, name: string) {
    (e.req.kind.Create? && e.env.readOk) || !Touches(f, e, name)
  }

  lemma CreateSpares(f: File, e: Event, name: string)
    requires Good(f) && Lookup(f, name).Some? && e.req.kind.Create? && e.env.readOk
    ensures !Writes(f, e, name)
  {
    StepIsApply(f, e);
    assert Fold(Listed(f)[FirstIndex(Listed(f), name)].name) == Fold(name);
  }

  lemma SurvivesOneRequest(f: File, e: Event, name: string)
    requires Good(f) && Lookup(f, name).Some? && Spares(f, e, name)
    ensures Good(Step(f, e).file) && Lookup(Step(f, e).file, name) == Lookup(f, name)
  {
    StepKeepsGood(f, e);
    if e.req.kind.Create? && e.env.readOk {
      CreateSpares(f, e, name);
    }
    UntouchedIsUnchanged(f, e, name);
  }

  lemma {:induction false} StoredUntilOverwritten(f: File, events: seq<Event>, name: string)
    requires Good(f) && Lookup(f, name).Some? && NotOverwritten(f, events, name)
    ensures Good(Run(f, events)) && Lookup(Run(f, events), name) == Lookup(f, name)
  {
    if events != [] {
      var n := |events| - 1;
      StoredUntilOverwritten(f, events[..n], name);
      SurvivesOneRequest(Run(f, events[..n]), events[n], name);
    }
  }

  /**
   Read your writes: after a successful create or update of a name, whatever requests follow, every retrieve of the
   name that can read the file returns the payload in order, duplicate keys kept and numbers cut to ints, until the
   next successful update or delete of that name, or write of another name that cannot read the file.
   */
  lemma ReadYourWrites(before: seq<Event>, write: Event, after: seq<Event>, get: Event, name: string)
    requires name != "tags" && IsGet(get.req, name) && get.env.readOk
    requires write.req.kind.Create? || write.req.kind.Update?
    requires Writes(Run(Absent, before), write, name)
    requires NotOverwritten(Run(Absent, before + [write]), after, name)
    ensures write.req.payload.Body? && write.req.payload.json.Object?
    ensures var o := Step(Run(Absent, before + [write] + after), get);
            o.status == 200 && o.payload == Some(Fields(Stored(write.req.payload.json.members)))
  {
    var f := Run(Absent, before);
    ReachableIsGood(before);
    ReachableIsGood(before + [write]);
    RunSnoc(Absent, before, write);
    WriteIsStored(f, write, name);
    StoredUntilOverwritten(Run(Absent, before + [write]), after, name);
    RunAppend(Absent, before + [write], after);
    GetReadsTheStore(Run(Absent, before + [write] + after), get, name);
  }

  /** No event of the run is a successful create, update or delete of the name. */
  predicate NotWritten(f: File, events: seq<Event>, name: string) {
    events == [] ||
    var n := |events| - 1;
    NotWritten(f, events[..n], name) && !Writes(Run(f, events[..n]), events[n], name)
  }

  lemma StaysAbsent(f: File, e: Event, name: string)
    requires Good(f) && f.Config? && Lookup(f, name).None? && !Writes(f, e, name)
    ensures var g := Step(f, e).file; Good(g) && g.Config? && Lookup(g, name).None?
  {
    StepKeepsGood(f, e);
    StepIsApply(f, e);
    if e.env.readOk {
      ReadableKeepsOthers(f, e, name);
    } else if Wipes(f, e) {
      WipeLeavesOneRecord(f, e);
    } else {
      UnreadableFails(f, e);
    }
  }

  lemma {:induction false} AbsentUntilWritten(f: File, events: seq<Event>, name: string)
    requires Good(f) && f.Config? && Lookup(f, name).None? && NotWritten(f, events, name)
    ensures var g := Run(f, events); Good(g) && g.Config? && Lookup(g, name).None?
  {
    if events != [] {
      var n := |events| - 1;
      AbsentUntilWritten(f, events[..n], name);
      StaysAbsent(Run(f, events[..n]), events[n], name);
    }
  }

  lemma GetAfterDelete(f: File, get: Event, name: string)
    requires name != "tags" && IsGet(get.req, name) && get.env.readOk
    requires Good(f) && f.Config? && Lookup(f, name).None?
    ensures Step(f, get).status == 400
  {
    GetReadsTheStore(f, get, name);
  }

  lemma WrittenDelete(f: File, delete: Event, name: string)
    requires Good(f) && delete.req.kind.Delete? && delete.env.writeOk && Writes(f, delete, name)
    ensures var g := Step(f, delete).file; Good(g) && g.Config? && Lookup(g, name).None?
  {
    StepKeepsGood(f, delete);
    DeleteTakesAway(f, delete, name);
    StepIsApply(f, delete);
  }

  /** After a delete that was written, a retrieve answers 400 until a create or update of the name succeeds. */
  lemma DeletedStaysDeleted(before: seq<Event>, delete: Event, after: seq<Event>, get: Event, name: string)
    requires name != "tags" && IsGet(get.req, name) && get.env.readOk
    requires delete.req.kind.Delete? && delete.env.writeOk && Writes(Run(Absent, before), delete, name)
    requires NotWritten(Run(Absent, before + [delete]), after, name)
    ensures Step(Run(Absent, before + [delete] + after), get).status == 400
  {
    ReachableIsGood(before);
    RunSnoc(Absent, before, delete);
    WrittenDelete(Run(Absent, before), delete, name);
    AbsentUntilWritten(Run(Absent, before + [delete]), after, name);
    RunAppend(Absent, before + [delete], after);
    GetAfterDelete(Run(Absent, before + [delete] + after), get, name);
  }

  // ---------- two answers at concrete requests ----------

  function TagRequest(kind: Kind, name: string, payload: Payload): Request {
    Request(kind, "", "", Some(Dest("", ["mac", "id", "parodus", "tag/" + name])), payload)
  }

  lemma TagRequestNames(kind: Kind, name: string, payload: Payload)
    requires '/' !in name
    ensures TagName(TagRequest(kind, name, payload)) == Some(name)
  {
    TagDestParses("mac", "id", name);
  }

  const ONE_RECORD := Config(Some([Record("a", [])]))

  /** Delete answers 200 and the record is still there, when the file opens for reading but then not for writing. */
  lemma UnwrittenDeleteExample()
    ensures var o := Step(ONE_RECORD, Event(TagRequest(Delete, "a", NoPayload), Env(true, false, None, 200)));
            o.status == 200 && o.file == ONE_RECORD && Lookup(o.file, "a") == Some([])
  {
    TagRequestNames(Delete, "a", NoPayload);
    StepIsApply(ONE_RECORD, Event(TagRequest(Delete, "a", NoPayload), Env(true, false, None, 200)));
  }

  /** With "a" stored, an update of "b" that could not open the file for reading answers 201, and "a" is gone. */
  lemma WipeExample()
    ensures var payload := Body(Object([Member("expires", Number(1.0))]));
            var o := Step(ONE_RECORD, Event(TagRequest(Update, "b", payload), Env(false, true, None, 200)));
            o.status == 201 && Lookup(ONE_RECORD, "a").Some? && Lookup(o.file, "a").None?
  {
    var json := Object([Member("expires", Number(1.0))]);
    var e := Event(TagRequest(Update, "b", Body(json)), Env(false, true, None, 200));
    assert IsExpires(json, 0) && ValueInt(1.0) == 1;
    assert PayloadOk(Body(json));
    TagRequestNames(Update, "b", Body(json));
    StepIsApply(ONE_RECORD, e);
  }

  /** With "a" stored, create and update of "A" answer 500. */
  lemma OtherSpellingExample(kind: Kind)
    requires kind.Create? || kind.Update?
    ensures var payload := Body(Object([Member("expires", Number(1.0))]));
            Step(ONE_RECORD, Event(TagRequest(kind, "A", payload), Env(true, true, None, 200))).status == 500
  {
    var json := Object([Member("expires", Number(1.0))]);
    assert IsExpires(json, 0) && ValueInt(1.0) == 1;
    assert PayloadOk(Body(json));
    TagRequestNames(kind, "A", Body(json));
    var records := [Record("a", [])];
    assert Fold(records[0].name) == Fold("A") && Clash(records, "A");
  }

  // ---------- the list implements a map ----------

  /** The map a record list stands for: folded name to record. */
  function View(records: seq<Record>): map<string, Record> {
    if records == [] then map[]
    else
      var last := records[|records| - 1];
      View(records[..|records| - 1])[Fold(last.name) := last]
  }

  lemma {:induction false} ViewIsMembership(records: seq<Record>, key: string)
    requires DistinctFold(records)
    ensures key in View(records) <==> exists i :: 0 <= i < |records| && Fold(records[i].name) == key
    ensures forall i :: 0 <= i < |records| && Fold(records[i].name) == key ==> View(records)[key] == records[i]
  {
    if records != [] {
      var n := |records| - 1;
      ViewIsMembership(records[..n], key);
      if key in View(records[..n]) {
        var i :| 0 <= i < n && Fold(records[..n][i].name) == key;
        assert Fold(records[i].name) == key;
      }
      forall i | 0 <= i < |records| && Fold(records[i].name) == key
        ensures key in View(records) && View(records)[key] == records[i]
      {
        if i < n {
          assert records[..n][i] == records[i];
        }
      }
    }
  }

  lemma ViewSnoc(records: seq<Record>, r: Record)
    ensures View(records + [r]) == View(records)[Fold(r.name) := r]
  {
    assert (records + [r])[..|records|] == records;
  }

  lemma LastIsNew(records: seq<Record>)
    requires DistinctFold(records) && records != []
    ensures var n := |records| - 1; Fold(records[n].name) !in View(records[..n])
  {
    var n := |records| - 1;
    ViewIsMembership(records[..n], Fold(records[n].name));
    assert forall k :: 0 <= k < n ==> records[..n][k] == records[k];
  }

  lemma PutThenDrop(m: map<string, Record>, key: string, r: Record)
    requires key !in m
    ensures m[key := r] - {key} == m
  {
  }

  lemma {:induction false} ViewOfRemoveAt(records: seq<Record>, i: nat)
    requires DistinctFold(records) && i < |records|
    ensures View(RemoveAt(records, i)) == View(records) - {Fold(records[i].name)}
  {
    var n := |records| - 1;
    var front, last := records[..n], records[n];
    if i == n {
      LastIsNew(records);
      PutThenDrop(View(front), Fold(last.name), last);
      assert RemoveAt(records, i) == front;
    } else {
      assert Fold(last.name) != Fold(records[i].name);
      ViewOfRemoveAt(front, i);
      ViewSnoc(RemoveAt(front, i), last);
      assert RemoveAt(records, i) == RemoveAt(front, i) + [last];
      DropThenPut(View(front), Fold(records[i].name), Fold(last.name), last);
    }
  }

  lemma DropThenPut(m: map<string, Record>, drop: string, put: string, r: Record)
    requires drop != put
    ensures (m - {drop})[put := r] == m[put := r] - {drop}
  {
  }

  /** The abstract store: nothing yet, or a map from folded names to records. */
  datatype Store = NoStore | Store(m: map<string, Record>)

  function Abs(f: File): Store {
    if f.Config? then Store(View(Listed(f))) else NoStore
  }

  function Held(s: Store): map<string, Record> {
    if s.Store? then s.m else map[]
  }

  /** The name is present in the abstract store in exactly this spelling. */
  predicate Spelled(s: Store, name: string) {
    Fold(name) in Held(s) && Held(s)[Fold(name)].name == name
  }

  /** Create on the map: only when no key clashes. */
  function MapCreate(s: Store, name: string, members: seq<Member>, writeOk: bool): (Store, int) {
    if Fold(name) in Held(s) then (s, if Spelled(s, name) then 409 else 500)
    else if !TypesOk(members) then (s, 400)
    else if !writeOk then (s, 500)
    else (Store(Held(s)[Fold(name) := Record(name, Stored(members))]), 201)
  }

  /** Update on the map: replace or insert. */
  function MapUpdate(s: Store, name: string, members: seq<Member>, writeOk: bool): (Store, int) {
    if Fold(name) in Held(s) && !Spelled(s, name) then (s, 500)
    else if !TypesOk(members) then (s, 400)
    else if !writeOk then (s, 500)
    else (Store(Held(s)[Fold(name) := Record(name, Stored(members))]), if Fold(name) in Held(s) then 200 else 201)
  }

  /** Delete on the map: the exact name goes. */
  function MapDelete(s: Store, name: string, writeOk: bool): (Store, int) {
    if name == "tags" || !Spelled(s, name) then (s, 400)
    else (if writeOk then Store(Held(s) - {Fold(name)}) else s, 200)
  }

  /** The two lookups of the list, read off the map. */
  lemma LookupsAgree(f: File, name: string)
    requires Good(f)
    ensures Clash(Listed(f), name) <==> Fold(name) in Held(Abs(f))
    ensures HasExact(Listed(f), name) <==> Spelled(Abs(f), name)
    ensures Spelled(Abs(f), name) ==> Lookup(f, name) == Some(Held(Abs(f))[Fold(name)].fields)
  {
    var records := Listed(f);
    ViewIsMembership(records, Fold(name));
    var i := FirstIndex(records, name);
    if i < |records| {
      assert Fold(records[i].name) == Fold(name);
    }
  }

  lemma CreateRefinesMap(f: File, name: string, members: seq<Member>, writeOk: bool)
    requires Good(f)
    ensures var o := CreateTag(f, name, members, writeOk);
            (Abs(o.file), o.status) == MapCreate(Abs(f), name, members, writeOk)
  {
    LookupsAgree(f, name);
    ViewSnoc(Listed(f), Record(name, Stored(members)));
  }

  lemma ReplaceInView(records: seq<Record>, r: Record)
    requires DistinctFold(records) && HasExact(records, r.name)
    ensures View(RemoveAt(records, FirstIndex(records, r.name)) + [r]) == View(records)[Fold(r.name) := r]
  {
    var i := FirstIndex(records, r.name);
    ViewOfRemoveAt(records, i);
    ViewSnoc(RemoveAt(records, i), r);
    assert (View(records) - {Fold(r.name)})[Fold(r.name) := r] == View(records)[Fold(r.name) := r];
  }

  lemma ReplaceRefinesMap(f: File, name: string, members: seq<Member>, writeOk: bool)
    requires Good(f) && HasExact(Listed(f), name)
    ensures var o := UpdateTag(f, name, members, writeOk);
            (Abs(o.file), o.status) == MapUpdate(Abs(f), name, members, writeOk)
  {
    LookupsAgree(f, name);
    ReplaceInView(Listed(f), Record(name, Stored(members)));
  }

  lemma InsertRefinesMap(f: File, name: string, members: seq<Member>, writeOk: bool)
    requires Good(f) && !HasExact(Listed(f), name)
    ensures var o := UpdateTag(f, name, members, writeOk);
            (Abs(o.file), o.status) == MapUpdate(Abs(f), name, members, writeOk)
  {
    LookupsAgree(f, name);
    ViewSnoc(Listed(f), Record(name, Stored(members)));
  }

  lemma UpdateRefinesMap(f: File, name: string, members: seq<Member>, writeOk: bool)
    requires Good(f)
    ensures var o := UpdateTag(f, name, members, writeOk);
            (Abs(o.file), o.status) == MapUpdate(Abs(f), name, members, writeOk)
  {
    if HasExact(Listed(f), name) {
      ReplaceRefinesMap(f, name, members, writeOk);
    } else {
      InsertRefinesMap(f, name, members, writeOk);
    }
  }

  lemma DeleteRefinesMap(f: File, name: string, writeOk: bool)
    requires Good(f)
    ensures var o := DeleteTag(f, name, writeOk);
            (Abs(o.file), o.status) == MapDelete(Abs(f), name, writeOk)
  {
    LookupsAgree(f, name);
    var i := FirstIndex(Listed(f), name);
    if i < |Listed(f)| {
      ViewOfRemoveAt(Listed(f), i);
    }
  }

  /** One request on the map; a create or update that cannot read the file starts from nothing. */
  function MapStep(s: Store, e: Event): Store {
    var seen := if e.env.readOk then s else NoStore;
    var after := MapApply(seen, Asked(e.req), e.env.writeOk);
    if after == seen then s else after
  }

  function MapApply(s: Store, c: Change, writeOk: bool): Store {
    match c
    case NoChange => s
    case Creates(name, members) => MapCreate(s, name, members, writeOk).0
    case Updates(name, members) => MapUpdate(s, name, members, writeOk).0
    case Deletes(name) => MapDelete(s, name, writeOk).0
  }

  function MapRun(events: seq<Event>): Store {
    if events == [] then NoStore else MapStep(MapRun(events[..|events| - 1]), events[|events| - 1])
  }

  lemma ApplyRefinesMap(f: File, c: Change, writeOk: bool)
    requires Good(f)
    ensures Abs(Apply(f, c, writeOk).file) == MapApply(Abs(f), c, writeOk)
  {
    match c {
      case NoChange =>
      case Creates(name, members) => CreateRefinesMap(f, name, members, writeOk);
      case Updates(name, members) => UpdateRefinesMap(f, name, members, writeOk);
      case Deletes(name) => DeleteRefinesMap(f, name, writeOk);
    }
  }

  lemma KeptRefinesMap(after: File, seen: File, f: File)
    requires seen == f || seen.Absent?
    requires after.Absent? || after.Config?
    ensures Abs(KeptFile(after, seen, f)) == if Abs(after) == Abs(seen) then Abs(f) else Abs(after)
  {
  }

  lemma StepRefinesMap(f: File, e: Event)
    requires Good(f)
    ensures Abs(Step(f, e).file) == MapStep(Abs(f), e)
  {
    var seen := Seen(f, e.env);
    StepIsApply(f, e);
    AskedIsChecked(e.req);
    ApplyKeepsGood(seen, Asked(e.req), e.env.writeOk);
    ApplyRefinesMap(seen, Asked(e.req), e.env.writeOk);
    KeptRefinesMap(Apply(seen, Asked(e.req), e.env.writeOk).file, seen, f);
  }

  /** Over every run the list, with its two comparisons and its rewriting of the file, implements the map. */
  lemma {:induction false} RunRefinesMap(events: seq<Event>)
    ensures Abs(Run(Absent, events)) == MapRun(events)
  {
    if events != [] {
      var n := |events| - 1;
      RunRefinesMap(events[..n]);
      ReachableIsGood(events[..n]);
      StepRefinesMap(Run(Absent, events[..n]), events[n]);
    }
  }
}
