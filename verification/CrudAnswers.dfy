/**
 What the response to each request says, told from the request, the file and the environment alone: its status, its
 payload, and the file it leaves.
 */
module CrudAnswers {
  import opened Text
  import opened Wrappers
  import opened Json
  import opened CrudMessages
  import opened CrudSpec
  import opened CrudLaws

  // ---------- destinations, by their elements ----------

  function ElementsOf(req: Request): Elements
    requires req.dest.Some?
  {
    req.dest.value.elements
  }

  function LastOf(req: Request): string
    requires req.dest.Some?
  {
    ElementsOf(req)[|ElementsOf(req)| - 1]
  }

  /** Exactly one slash. */
  predicate Halved(s: string) {
    IndexOf(s, '/') < |s| && '/' !in s[IndexOf(s, '/') + 1..]
  }

  function Front(s: string): string {
    s[..IndexOf(s, '/')]
  }

  function Behind(s: string): string
    requires Halved(s)
  {
    s[IndexOf(s, '/') + 1..]
  }

  lemma HalvesJoin(s: string)
    requires Halved(s)
    ensures s == Front(s) + "/" + Behind(s) && '/' !in Front(s) && '/' !in Behind(s)
  {
  }

  lemma JoinHalves(front: string, behind: string)
    requires '/' !in front && '/' !in behind
    ensures var s := front + "/" + behind; Halved(s) && Front(s) == front && Behind(s) == behind
  {
    var s := front + "/" + behind;
    assert s[..|front|] == front && s[|front| + 1..] == behind;
    IndexIs(s, '/', |front|);
  }

  lemma SlashIsIndexed(s: string)
    ensures '/' in s <==> IndexOf(s, '/') < |s|
  {
    if IndexOf(s, '/') == |s| {
      assert s[..|s|] == s;
    }
  }

  /** mac/id/parodus/tag/name */
  predicate NamesTag(req: Request, name: string) {
    req.dest.Some? && var e := ElementsOf(req);
    |e| == 4 && e[2] == "parodus" && e[3] == "tag/" + name && '/' !in name
  }

  predicate NamesDisconnect(req: Request) {
    req.dest.Some? && var e := ElementsOf(req);
    (|e| == 4 && e[3] == "cloud-disconnect") ||
    (|e| == 3 && Halved(e[2]) && Behind(e[2]) == "cloud-disconnect")
  }

  /** A fourth part that has not "tags" in it, and none after it, or one with "service-status" in it, and one more. */
  predicate NamesMemory(req: Request) {
    req.dest.Some? && var e := ElementsOf(req);
    (|e| == 4 && '/' !in e[3] && !Contains(e[3], "tags")) ||
    (|e| == 3 && Halved(e[2]) && !Contains(Behind(e[2]), "tags")) ||
    (|e| == 4 && Halved(e[3]) && Contains(Front(e[3]), "service-status"))
  }

  predicate Splits(req: Request) {
    req.dest.Some? && ('/' in LastOf(req) ==> Halved(LastOf(req)))
  }

  /** The last part of a destination, behind its slash if it has one. */
  function LastPart(req: Request): string
    requires Splits(req)
  {
    if '/' in LastOf(req) then Behind(LastOf(req)) else LastOf(req)
  }

  lemma TargetIff(req: Request)
    ensures Target(req).Some? <==> Splits(req)
    ensures Splits(req) ==>
              var obj, e := Target(req).value, ElementsOf(req);
              |obj| == |e| + (if '/' in LastOf(req) then 1 else 0) &&
              forall i :: 0 <= i < |e| - 1 ==> obj[i] == Some(e[i])
  {
    if req.dest.Some? {
      SlashIsIndexed(LastOf(req));
    }
  }

  /** The slots of a last element without a slash, and with one. */
  lemma LastSlots(req: Request)
    requires Splits(req)
    ensures Target(req).Some? &&
            var obj, n, last := Target(req).value, |ElementsOf(req)|, LastOf(req);
            if '/' in last then
              |obj| == n + 1 && obj[n] == Some(Behind(last)) &&
              obj[n - 1] == if Front(last) == "" then None else Some(Front(last))
            else |obj| == n && obj[n - 1] == Some(last)
  {
    SlashIsIndexed(LastOf(req));
  }

  lemma TagIsNamed(req: Request, name: string)
    requires TagName(req) == Some(name)
    ensures NamesTag(req, name)
  {
    TargetIff(req);
    LastSlots(req);
    HalvesJoin(LastOf(req));
    assert "tag/" + name == "tag" + "/" + name;
  }

  lemma NamedIsTag(req: Request, name: string)
    requires NamesTag(req, name)
    ensures TagName(req) == Some(name)
  {
    var e := ElementsOf(req);
    assert e == [e[0], e[1], "parodus", "tag/" + name];
    TagDestParses(e[0], e[1], name);
  }

  lemma TagIff(req: Request, name: string)
    ensures TagName(req) == Some(name) <==> NamesTag(req, name)
  {
    if TagName(req) == Some(name) {
      TagIsNamed(req, name);
    } else if NamesTag(req, name) {
      NamedIsTag(req, name);
    }
  }

  /** Slot 3 of a destination with four slots, by its elements. */
  lemma FourSlots(req: Request)
    requires Splits(req) && Target(req).Some? && |Target(req).value| == 4
    ensures var obj, e, last := Target(req).value, ElementsOf(req), LastOf(req);
            obj[3] == Some(LastPart(req)) && |e| == if '/' in last then 3 else 4
  {
    TargetIff(req);
    LastSlots(req);
  }

  lemma DisconnectIff(req: Request)
    ensures Target(req).Some? && IsDisconnectDest(Target(req).value) <==> NamesDisconnect(req)
  {
    TargetIff(req);
    if Splits(req) && |Target(req).value| == 4 {
      FourSlots(req);
    }
  }

  lemma MemoryIff(req: Request)
    ensures Target(req).Some? && IsInMemoryDest(Target(req).value) <==> NamesMemory(req)
  {
    TargetIff(req);
    if Splits(req) {
      LastSlots(req);
      NotInNothing();
    }
  }

  lemma NotInNothing()
    ensures !Contains("", "service-status")
  {
    forall i | 0 <= i <= |""| ensures !("service-status" <= ""[i..]) {
      assert |""[i..]| < |"service-status"|;
    }
  }

  lemma LastIsPart(req: Request)
    requires Splits(req)
    ensures Target(req).Some? && var obj := Target(req).value; obj[|obj| - 1] == Some(LastPart(req))
  {
    LastSlots(req);
  }

  // ---------- payloads, by their members ----------

  /** The int of the first numeric "expires". */
  function FirstExpires(members: seq<Member>): Option<int> {
    if members == [] then None
    else if members[0].key == "expires" && members[0].value.Number? then Some(ValueInt(members[0].value.n))
    else FirstExpires(members[1..])
  }

  /** An object with no empty key, no empty string, and a first numeric "expires" that is not cut to zero. */
  predicate Acceptable(p: Payload) {
    p.Body? && p.json.Object? && var members := p.json.members;
    FirstExpires(members).Some? && FirstExpires(members).value != 0 &&
    forall m <- members :: m.key != "" && m.value != String("")
  }

  predicate IsFirstExpires(members: seq<Member>, i: nat)
    requires i < |members|
  {
    IsExpires(Object(members), i) && forall k :: 0 <= k < i ==> !IsExpires(Object(members), k)
  }

  lemma {:induction false} FirstExpiresIs(members: seq<Member>, i: nat)
    requires i < |members| && IsFirstExpires(members, i)
    ensures FirstExpires(members) == Some(ValueInt(members[i].value.n))
  {
    assert IsExpires(Object(members), 0) <==> members[0].key == "expires" && members[0].value.Number?;
    if i > 0 {
      forall k | 0 <= k < i - 1 ensures !IsExpires(Object(members[1..]), k) {
        assert !IsExpires(Object(members), k + 1);
      }
      FirstExpiresIs(members[1..], i - 1);
    }
  }

  lemma {:induction false} FirstExpiresAt(members: seq<Member>) returns (i: nat)
    requires FirstExpires(members).Some?
    ensures i < |members| && IsFirstExpires(members, i)
  {
    if members[0].key == "expires" && members[0].value.Number? {
      i := 0;
    } else {
      i := FirstExpiresAt(members[1..]);
      forall k | 0 <= k < i + 1 ensures !IsExpires(Object(members), k) {
        if k > 0 {
          assert !IsExpires(Object(members[1..]), k - 1);
        }
      }
      i := i + 1;
    }
  }

  lemma ExpiresIff(members: seq<Member>)
    ensures ExpiresOk(Object(members)) <==> FirstExpires(members).Some? && FirstExpires(members).value != 0
  {
    if ExpiresOk(Object(members)) {
      var j := Object(members);
      var i :| 0 <= i < Size(j) && IsExpires(j, i) && ValueInt(Item(j, i).n) != 0 &&
               forall k :: 0 <= k < i ==> !IsExpires(j, k);
      FirstExpiresIs(members, i);
    } else if FirstExpires(members).Some? {
      var i := FirstExpiresAt(members);
      FirstExpiresIs(members, i);
    }
  }

  /** The program's checks accept exactly the acceptable payloads. */
  lemma AcceptableIff(p: Payload)
    ensures PayloadOk(p) <==> Acceptable(p)
  {
    if p.Body? && p.json.Object? {
      var members := p.json.members;
      assert p.json == Object(members);
      ExpiresIff(members);
      if StringsOk(p.json) {
        forall m | m in members ensures m.key != "" && m.value != String("") {
          var i: nat :| i < |members| && members[i] == m;
          assert Key(p.json, i) != Some("") && Item(p.json, i) != String("");
        }
      } else {
        var i :| 0 <= i < Size(p.json) && !(Key(p.json, i) != Some("") && Item(p.json, i) != String(""));
        assert members[i] in members;
      }
    }
  }

  /** Stored fields keep their keys, order and strings; numbers become ints. */
  lemma StoredKeepsFields(members: seq<Member>, i: nat)
    requires i < |members|
    ensures |Stored(members)| == |members| && Stored(members)[i].key == members[i].key
    ensures members[i].value.String? ==> Stored(members)[i].value == members[i].value
    ensures members[i].value.Number? ==> Stored(members)[i].value == Number(ValueInt(members[i].value.n) as real)
  {
  }

  predicate IsInt(n: real) {
    INT_MIN as real <= n <= INT_MAX as real && n == n.Floor as real
  }

  /** Payloads of strings and ints are stored as they are. */
  lemma IntsAreStoredAsTheyAre(members: seq<Member>)
    requires forall m <- members :: m.value.String? || (m.value.Number? && IsInt(m.value.n))
    ensures Stored(members) == members
  {
    forall i | 0 <= i < |members| ensures Stored(members)[i] == members[i] {
      assert members[i] in members;
      if members[i].value.Number? {
        IntsStay(members[i].value.n.Floor);
      }
    }
  }

  /** The types that can be stored. */
  lemma TypesIff(members: seq<Member>)
    ensures TypesOk(members) <==> forall m <- members :: m.value.Number? || m.value.String?
  {
    if TypesOk(members) {
      forall m | m in members ensures m.value.Number? || m.value.String? {
        var i: nat :| i < |members| && members[i] == m;
        assert TypeOk(members[i]);
      }
    } else {
      var i :| 0 <= i < |members| && !TypeOk(members[i]);
      assert members[i] in members;
    }
  }

  // ---------- the order of the list ----------

  function Without(records: seq<Record>, name: string): seq<Record> {
    if records == [] then []
    else
      var last := records[|records| - 1];
      Without(records[..|records| - 1], name) + if last.name == name then [] else [last]
  }

  predicate NoneNamed(records: seq<Record>, name: string) {
    forall i :: 0 <= i < |records| ==> records[i].name != name
  }

  lemma {:induction false} WithoutNone(records: seq<Record>, name: string)
    requires NoneNamed(records, name)
    ensures Without(records, name) == records
  {
    if records != [] {
      var front, last := records[..|records| - 1], records[|records| - 1];
      assert records == front + [last] && last.name != name;
      WithoutNone(front, name);
    }
  }

  lemma {:induction false} WithoutAppend(a: seq<Record>, b: seq<Record>, name: string)
    ensures Without(a + b, name) == Without(a, name) + Without(b, name)
  {
    if b == [] {
      assert a + b == a;
    } else {
      var n := |b| - 1;
      assert (a + b)[..|a + b| - 1] == a + b[..n];
      WithoutAppend(a, b[..n], name);
    }
  }

  lemma WithoutOne(front: seq<Record>, r: Record, back: seq<Record>)
    requires NoneNamed(front, r.name) && NoneNamed(back, r.name)
    ensures Without(front + [r] + back, r.name) == front + back
  {
    WithoutAppend(front + [r], back, r.name);
    WithoutAppend(front, [r], r.name);
    WithoutNone(front, r.name);
    WithoutNone(back, r.name);
  }

  lemma OthersDiffer(records: seq<Record>, i: nat)
    requires DistinctFold(records) && i < |records|
    ensures NoneNamed(records[..i], records[i].name) && NoneNamed(records[i + 1..], records[i].name)
  {
    forall k | 0 <= k < i ensures records[k].name != records[i].name {
      assert Fold(records[k].name) != Fold(records[i].name);
    }
    forall k | i < k < |records| ensures records[k].name != records[i].name {
      assert Fold(records[i].name) != Fold(records[k].name);
    }
  }

  /** Among distinct names, taking the first of a name out is leaving the name out. */
  lemma OthersAreWithout(records: seq<Record>, name: string)
    requires DistinctFold(records)
    ensures var i := FirstIndex(records, name);
            Without(records, name) == if i < |records| then RemoveAt(records, i) else records
  {
    var i := FirstIndex(records, name);
    if i < |records| {
      OthersDiffer(records, i);
      assert records == records[..i] + [records[i]] + records[i + 1..];
      WithoutOne(records[..i], records[i], records[i + 1..]);
    } else {
      WithoutNone(records, name);
    }
  }

  // ---------- the answers ----------

  /** The request found a file that is not JSON. */
  predicate Unparsed(f: File, e: Event) {
    e.env.readOk && f.Garbage?
  }

  /** The response of a request that is turned down: no payload, and the file as it was. */
  predicate TurnedDown(f: File, e: Event, status: int)
    requires e.req.dest.Some?
  {
    var r := ResponseSpec(f, e.req, e.env);
    r.status == status && r.payload.None? && Step(f, e).file == f
  }

  /** Whatever the file: a create is turned down with 500 when the file does not parse, and else with 400. */
  lemma CreateRefused(f: File, e: Event)
    requires e.req.kind.Create? && e.req.dest.Some?
    ensures Unparsed(f, e) ==> TurnedDown(f, e, 500)
    ensures !Unparsed(f, e) && (TagName(e.req).None? || !Acceptable(e.req.payload)) ==> TurnedDown(f, e, 400)
  {
    AcceptableIff(e.req.payload);
  }

  lemma CreateIsOnTag(f: File, e: Event, name: string)
    requires e.req.kind.Create? && e.req.dest.Some? && !Seen(f, e.env).Garbage?
    requires TagName(e.req) == Some(name) && PayloadOk(e.req.payload)
    ensures var seen := Seen(f, e.env);
            var o := Kept(CreateTag(seen, name, e.req.payload.json.members, e.env.writeOk), seen, f);
            Step(f, e) == o && ResponseSpec(f, e.req, e.env).status == o.status &&
            ResponseSpec(f, e.req, e.env).payload == if o.ret == 0 then o.payload else None
  {
  }

  lemma CreateLists(f: File, name: string, members: seq<Member>, writeOk: bool)
    ensures var o, record := CreateTag(f, name, members, writeOk), Record(name, Stored(members));
            (o.ret == 0 <==> o.status == 201) &&
            o.file == (if o.ret == 0 then Config(Some(Listed(f) + [record])) else f) &&
            (o.ret == 0 ==> o.payload == Some(Tags([record])))
  {
  }

  /**
   A create of an acceptable payload under a name: the status is that of inserting it in the map; with 201 the response
   carries the new record and the file has it behind the others, and else there is no payload and no change.
   */
  lemma CreateAnswers(f: File, e: Event, name: string)
    requires e.req.kind.Create? && e.req.dest.Some? && Good(f)
    requires TagName(e.req) == Some(name) && Acceptable(e.req.payload)
    ensures var r, seen := ResponseSpec(f, e.req, e.env), Seen(f, e.env);
            var record := Record(name, Stored(e.req.payload.json.members));
            r.status == MapCreate(Abs(seen), name, e.req.payload.json.members, e.env.writeOk).1 &&
            (if r.status == 201 then
               r.payload == Some(Tags([record])) && Step(f, e).file == Config(Some(Listed(seen) + [record]))
             else TurnedDown(f, e, r.status))
  {
    AcceptableIff(e.req.payload);
    CreateIsOnTag(f, e, name);
    CreateLists(Seen(f, e.env), name, e.req.payload.json.members, e.env.writeOk);
    CreateRefinesMap(Seen(f, e.env), name, e.req.payload.json.members, e.env.writeOk);
  }

  /** An update on a file that does not parse. */
  lemma UpdateUnparsed(f: File, e: Event)
    requires e.req.kind.Update? && e.req.dest.Some? && Unparsed(f, e)
    ensures TurnedDown(f, e, 500)
  {
  }

  /** A cloud-disconnect request gets the status of the disconnect. */
  lemma UpdateDisconnects(f: File, e: Event)
    requires e.req.kind.Update? && e.req.dest.Some? && !Unparsed(f, e) && NamesDisconnect(e.req)
    ensures TurnedDown(f, e, e.env.disconnect)
  {
    DisconnectIff(e.req);
  }

  /** On a file that is empty or holds no tags, create and update answer as without a file. */
  lemma EmptyIsAbsent(f: File, e: Event)
    requires e.req.dest.Some? && (e.req.kind.Create? || e.req.kind.Update?) && (f.Blank? || f == Config(None))
    ensures ResponseSpec(f, e.req, e.env) == ResponseSpec(Absent, e.req, e.env)
    ensures Step(f, e).file == if Step(Absent, e).file.Absent? then f else Step(Absent, e).file
  {
  }

  lemma UpdateBadRequest(f: File, e: Event)
    requires e.req.kind.Update? && e.req.dest.Some? && !Seen(f, e.env).Garbage?
    requires Target(e.req).None? || !IsDisconnectDest(Target(e.req).value)
    requires TagName(e.req).None? || !PayloadOk(e.req.payload)
    ensures TurnedDown(f, e, 400)
  {
  }

  /** Whatever the file: an update is turned down with 500 when the file does not parse, and else with 400. */
  lemma UpdateRefused(f: File, e: Event)
    requires e.req.kind.Update? && e.req.dest.Some? && !NamesDisconnect(e.req)
    ensures Unparsed(f, e) ==> TurnedDown(f, e, 500)
    ensures !Unparsed(f, e) && (TagName(e.req).None? || !Acceptable(e.req.payload)) ==> TurnedDown(f, e, 400)
  {
    if Unparsed(f, e) {
      UpdateUnparsed(f, e);
    } else if TagName(e.req).None? || !Acceptable(e.req.payload) {
      AcceptableIff(e.req.payload);
      DisconnectIff(e.req);
      UpdateBadRequest(f, e);
    }
  }

  lemma ExactClashes(records: seq<Record>, name: string)
    requires HasExact(records, name)
    ensures Clash(records, name)
  {
    assert Fold(records[FirstIndex(records, name)].name) == Fold(name);
  }

  lemma UpdateListsAs(f: File, name: string, members: seq<Member>, writeOk: bool, others: seq<Record>)
    requires HasExact(Listed(f), name) ==> Clash(Listed(f), name)
    requires var i := FirstIndex(Listed(f), name);
             others == if i < |Listed(f)| then RemoveAt(Listed(f), i) else Listed(f)
    ensures var o, record := UpdateTag(f, name, members, writeOk), Record(name, Stored(members));
            o.payload.None? && o.file == if Succeeded(o) then Config(Some(others + [record])) else f
  {
  }

  /** The list after an update: the other records in their order, and the new one. */
  lemma UpdateLists(f: File, name: string, members: seq<Member>, writeOk: bool)
    requires Good(f)
    ensures var o, record := UpdateTag(f, name, members, writeOk), Record(name, Stored(members));
            o.payload.None? &&
            o.file == if Succeeded(o) then Config(Some(Without(Listed(f), name) + [record])) else f
  {
    OthersAreWithout(Listed(f), name);
    if HasExact(Listed(f), name) {
      ExactClashes(Listed(f), name);
    }
    UpdateListsAs(f, name, members, writeOk, Without(Listed(f), name));
  }

  lemma UpdateIsOnTag(f: File, e: Event, name: string)
    requires e.req.kind.Update? && e.req.dest.Some? && !Seen(f, e.env).Garbage?
    requires TagName(e.req) == Some(name) && PayloadOk(e.req.payload)
    ensures var seen := Seen(f, e.env);
            var o := Kept(UpdateTag(seen, name, e.req.payload.json.members, e.env.writeOk), seen, f);
            Step(f, e) == o && ResponseSpec(f, e.req, e.env).status == o.status &&
            ResponseSpec(f, e.req, e.env).payload.None?
  {
  }

  /** No update carries a payload back. With 200 or 201 the new record is behind all others. */
  lemma UpdateAnswers(f: File, e: Event, name: string)
    requires e.req.kind.Update? && e.req.dest.Some? && Good(f)
    requires TagName(e.req) == Some(name) && Acceptable(e.req.payload)
    ensures var r, seen := ResponseSpec(f, e.req, e.env), Seen(f, e.env);
            var record := Record(name, Stored(e.req.payload.json.members));
            r.status == MapUpdate(Abs(seen), name, e.req.payload.json.members, e.env.writeOk).1 &&
            (if r.status == 200 || r.status == 201 then
               r.payload.None? && Step(f, e).file == Config(Some(Without(Listed(seen), name) + [record]))
             else TurnedDown(f, e, r.status))
  {
    AcceptableIff(e.req.payload);
    UpdateIsOnTag(f, e, name);
    UpdateRefinesMap(Seen(f, e.env), name, e.req.payload.json.members, e.env.writeOk);
    UpdateLists(Seen(f, e.env), name, e.req.payload.json.members, e.env.writeOk);
  }

  /** Delete: 500 without a file that can be read and parsed, 400 for another destination. */
  lemma DeleteRefused(f: File, e: Event)
    requires e.req.kind.Delete? && e.req.dest.Some?
    ensures !Seen(f, e.env).Config? ==> TurnedDown(f, e, 500)
    ensures Seen(f, e.env).Config? && TagName(e.req).None? ==> TurnedDown(f, e, 400)
  {
  }

  lemma DeleteLists(f: File, name: string, writeOk: bool)
    requires Good(f)
    ensures var o := DeleteTag(f, name, writeOk);
            o.payload.None? &&
            o.file == if Succeeded(o) && writeOk then Config(Some(Without(Listed(f), name))) else f
  {
    OthersAreWithout(Listed(f), name);
  }

  lemma DeleteIsOnTag(f: File, e: Event, name: string)
    requires e.req.kind.Delete? && e.req.dest.Some? && f.Config? && e.env.readOk && TagName(e.req) == Some(name)
    ensures var o := DeleteTag(f, name, e.env.writeOk);
            Step(f, e) == o && ResponseSpec(f, e.req, e.env).status == o.status &&
            ResponseSpec(f, e.req, e.env).payload.None?
  {
  }

  /** With 200 the record is gone if the file could be written, and all others are there in their order. */
  lemma DeleteAnswers(f: File, e: Event, name: string)
    requires e.req.kind.Delete? && e.req.dest.Some? && Good(f) && Seen(f, e.env).Config?
    requires TagName(e.req) == Some(name)
    ensures var r := ResponseSpec(f, e.req, e.env);
            r.status == MapDelete(Abs(f), name, e.env.writeOk).1 &&
            (if r.status == 200 && e.env.writeOk then
               r.payload.None? && Step(f, e).file == Config(Some(Without(Listed(f), name)))
             else TurnedDown(f, e, r.status))
  {
    DeleteIsOnTag(f, e, name);
    DeleteRefinesMap(f, name, e.env.writeOk);
    DeleteLists(f, name, e.env.writeOk);
  }

  /** A response with this status and payload, and the file as it was. */
  predicate Reports(f: File, e: Event, status: int, payload: Option<Reply>)
    requires e.req.dest.Some?
  {
    var r := ResponseSpec(f, e.req, e.env);
    r.status == status && r.payload == payload && Step(f, e).file == f
  }

  /** Retrieve, whatever the file: 400 for a bad destination, then what is in memory, then 500 without a file. */
  lemma RetrieveElsewhere(f: File, e: Event)
    requires e.req.kind.Retrieve? && e.req.dest.Some?
    ensures !Splits(e.req) ==> TurnedDown(f, e, 400)
    ensures NamesMemory(e.req) ==>
              if e.env.inMemory.Some? then Reports(f, e, 200, Some(InMemory(e.env.inMemory.value)))
              else TurnedDown(f, e, 400)
    ensures Splits(e.req) && !NamesMemory(e.req) && !Seen(f, e.env).Config? ==> TurnedDown(f, e, 500)
  {
    TargetIff(e.req);
    MemoryIff(e.req);
  }

  /** The part of a retrieve that looks a name up does not look at the third element. */
  predicate LooksUp(req: Request, name: string) {
    req.dest.Some? && var e := ElementsOf(req);
    |e| == 4 && e[3] == "tag/" + name && '/' !in name
  }

  /** Slot 3 of such a destination is "tag". */
  lemma LookUpSlots(req: Request, name: string)
    requires LooksUp(req, name)
    ensures Splits(req) && LastPart(req) == name && !NamesMemory(req)
    ensures Target(req).Some? && At(Target(req).value, 3) == Some("tag")
  {
    assert LastOf(req) == "tag" + "/" + name;
    JoinHalves("tag", name);
    TargetIff(req);
    LastSlots(req);
    NotInMemory();
  }

  /** Only a destination that looks a name up has "tag" in slot 3, unless it is read from memory. */
  lemma NotLookUp(req: Request)
    requires Splits(req) && !NamesMemory(req) && !LooksUp(req, LastPart(req))
    ensures Target(req).Some? && At(Target(req).value, 3) != Some("tag")
  {
    TargetIff(req);
    LastSlots(req);
    NoTags();
    if '/' in LastOf(req) {
      HalvesJoin(LastOf(req));
      assert "tag/" + LastPart(req) == "tag" + "/" + LastPart(req);
    }
  }

  lemma NoTags()
    ensures !Contains("tag", "tags")
  {
    forall i | 0 <= i <= |"tag"| ensures !("tags" <= "tag"[i..]) {
      assert |"tag"[i..]| < |"tags"|;
    }
  }

  lemma RetrieveIsFromFile(f: File, e: Event)
    requires e.req.kind.Retrieve? && Splits(e.req) && !NamesMemory(e.req) && f.Config? && e.env.readOk
    ensures Target(e.req).Some?
    ensures var r, o := ResponseSpec(f, e.req, e.env), RetrieveTag(f, Target(e.req).value);
            Step(f, e).file == f && r.status == o.status && r.payload == o.payload
  {
    TargetIff(e.req);
    MemoryIff(e.req);
  }

  /** All records in order, the fields of one, or nothing. */
  lemma RetrieveTagAnswers(f: File, obj: seq<Option<string>>, last: string)
    requires Good(f) && f.Config? && obj != [] && obj[|obj| - 1] == Some(last)
    ensures var o := RetrieveTag(f, obj);
            if Listed(f) == [] then o.status == 400 && o.payload.None?
            else if last == "tags" then o.status == 200 && o.payload == Some(Tags(Listed(f)))
            else if At(obj, 3) != Some("tag") || Lookup(f, last).None? then o.status == 400 && o.payload.None?
            else o.status == 200 && o.payload == Some(Fields(Lookup(f, last).value))
  {
    AllAreCopiedWhole(Listed(f));
    if Lookup(f, last).Some? {
      StoredIsCopiedWhole(f, last);
    }
  }

  lemma SlotThree(req: Request)
    requires Splits(req) && !NamesMemory(req)
    ensures Target(req).Some? && (At(Target(req).value, 3) == Some("tag") <==> LooksUp(req, LastPart(req)))
  {
    if LooksUp(req, LastPart(req)) {
      LookUpSlots(req, LastPart(req));
    } else {
      NotLookUp(req);
    }
  }

  /** From the file: all records in order, the fields of one, or 400. */
  lemma RetrieveAnswers(f: File, e: Event)
    requires e.req.kind.Retrieve? && Splits(e.req) && !NamesMemory(e.req) && Good(f) && Seen(f, e.env).Config?
    ensures var last := LastPart(e.req);
            if Listed(f) == [] then TurnedDown(f, e, 400)
            else if last == "tags" then Reports(f, e, 200, Some(Tags(Listed(f))))
            else if LooksUp(e.req, last) && Lookup(f, last).Some? then
              Reports(f, e, 200, Some(Fields(Lookup(f, last).value)))
            else TurnedDown(f, e, 400)
  {
    LastIsPart(e.req);
    SlotThree(e.req);
    RetrieveIsFromFile(f, e);
    RetrieveTagAnswers(f, Target(e.req).value, LastPart(e.req));
  }

  /** On a file that holds no tags, delete and retrieve find nothing. */
  lemma NoTagsIsEmpty(f: File, e: Event)
    requires e.req.dest.Some? && f == Config(None) && e.env.readOk
    ensures e.req.kind.Delete? ==> TurnedDown(f, e, 400)
    ensures e.req.kind.Retrieve? && Splits(e.req) && !NamesMemory(e.req) ==> TurnedDown(f, e, 400)
  {
    if e.req.kind.Retrieve? && Splits(e.req) && !NamesMemory(e.req) {
      RetrieveIsFromFile(f, e);
    }
  }

  /** Requests of other kinds get status 0 and nothing else. */
  lemma OtherAnswers(f: File, e: Event)
    requires e.req.kind.Other? && e.req.dest.Some?
    ensures TurnedDown(f, e, 0)
  {
  }

  /**
   Every create that answers 201, and every update of a record that answers 200 or 201, had an acceptable payload, and
   leaves it stored under its name.
   */
  lemma SuccessIsStored(f: File, e: Event)
    requires e.req.dest.Some? && Good(f)
    requires var status := ResponseSpec(f, e.req, e.env).status;
             (e.req.kind.Create? && status == 201) ||
             (e.req.kind.Update? && !NamesDisconnect(e.req) && (status == 200 || status == 201))
    ensures TagName(e.req).Some? && Acceptable(e.req.payload)
    ensures Writes(f, e, TagName(e.req).value)
    ensures Lookup(Step(f, e).file, TagName(e.req).value) == Some(Stored(e.req.payload.json.members))
  {
    if e.req.kind.Create? {
      CreateRefused(f, e);
    } else {
      UpdateRefused(f, e);
    }
    AcceptableIff(e.req.payload);
    WriteIsStored(f, e, TagName(e.req).value);
  }
}
