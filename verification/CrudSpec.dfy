/**
 What each CRUD handler does to the config file and answers, as functions of the file and the request.
 The handlers of `CrudStore` are proved equal to these; the laws of the store are proved about them.
 */
module CrudSpec {
  import opened Wrappers
  import opened Json
  import opened CrudMessages

  /** The config file: missing, empty, not JSON, or an object that may have a "tags" member. */
  datatype File = Absent | Blank | Garbage | Config(tags: Option<seq<Record>>)

  /** The file afterwards, the handler's return value, and the status and payload it puts in the response. */
  datatype Outcome = Outcome(file: File, ret: int, status: int, payload: Option<Reply>)

  /** A request that is turned down leaves the file alone. */
  function Fail(f: File, status: int): Outcome {
    Outcome(f, -1, status, None)
  }

  /** Writing the file: 500 when it cannot be opened, and then nothing changes. */
  function Commit(f: File, tags: seq<Record>, writeOk: bool, status: int, payload: Option<Reply>): Outcome {
    if writeOk then Outcome(Config(Some(tags)), 0, status, payload) else Outcome(f, -1, 500, payload)
  }

  /** The file as a request sees it: one that cannot be opened for reading counts as missing. */
  function Seen(f: File, env: Env): File {
    if env.readOk then f else Absent
  }

  /** The file afterwards, when the handler has left what it saw at `after`: unless it wrote, the file is as it was. */
  function KeptFile(after: File, seen: File, f: File): File {
    if after == seen then f else after
  }

  function Kept(o: Outcome, seen: File, f: File): Outcome {
    o.(file := KeptFile(o.file, seen, f))
  }

  function TagsOf(f: File): Option<seq<Record>> {
    if f.Config? then f.tags else None
  }

  function Listed(f: File): seq<Record> {
    if TagsOf(f).Some? then TagsOf(f).value else []
  }

  // ---------- payload checks ----------

  predicate IsExpires(j: Json, i: nat)
    requires i < Size(j)
  {
    Key(j, i) == Some("expires") && Item(j, i).Number?
  }

  /** The first numeric "expires" exists and is not cut to zero. */
  predicate ExpiresOk(j: Json) {
    exists i :: 0 <= i < Size(j) && IsExpires(j, i) && ValueInt(Item(j, i).n) != 0 &&
                forall k :: 0 <= k < i ==> !IsExpires(j, k)
  }

  /** No empty key and no empty string value. */
  predicate StringsOk(j: Json) {
    forall i :: 0 <= i < Size(j) ==> Key(j, i) != Some("") && Item(j, i) != String("")
  }

  predicate TypeOk(m: Member) {
    m.value.Number? || m.value.String?
  }

  predicate TypesOk(members: seq<Member>) {
    forall i :: 0 <= i < |members| ==> TypeOk(members[i])
  }

  /** The checks made before the file's content is looked at. Only an object can pass them. */
  predicate PayloadOk(p: Payload) {
    p.Body? && p.json.Object? && ExpiresOk(p.json) && StringsOk(p.json)
  }

  // ---------- records ----------

  /** A number is stored as its int value, a string as it is. */
  function StoreField(m: Member): Member {
    if m.value.Number? then Member(m.key, Number(ValueInt(m.value.n) as real)) else m
  }

  function Stored(members: seq<Member>): (r: seq<Member>)
    ensures |r| == |members|
  {
    seq(|members|, i requires 0 <= i < |members| => StoreField(members[i]))
  }

  /** What retrieve copies out of a field: a number, a string, or nothing when there is no string to copy. */
  function CopyOutField(m: Member): seq<Member> {
    if m.value.Number? || m.value.String? then [StoreField(m)] else []
  }

  function CopyOut(fields: seq<Member>): seq<Member> {
    if fields == [] then [] else CopyOut(fields[..|fields| - 1]) + CopyOutField(fields[|fields| - 1])
  }

  function CopyOutAll(records: seq<Record>): seq<Record> {
    seq(|records|, i requires 0 <= i < |records| => Record(records[i].name, CopyOut(records[i].fields)))
  }

  /** The lookup by `cJSON_GetObjectItem` ignores case. */
  predicate Clash(records: seq<Record>, name: string) {
    exists i :: 0 <= i < |records| && Fold(records[i].name) == Fold(name)
  }

  /** The scan by `strcmp` is exact: the index of the first record so named, or the length. */
  function FirstIndex(records: seq<Record>, name: string): (i: nat)
    ensures i <= |records|
    ensures i < |records| ==> records[i].name == name
    ensures forall k :: 0 <= k < i ==> records[k].name != name
  {
    FirstFrom(records, name, 0)
  }

  function FirstFrom(records: seq<Record>, name: string, from: nat): (i: nat)
    requires from <= |records|
    ensures from <= i <= |records|
    ensures i < |records| ==> records[i].name == name
    ensures forall k :: from <= k < i ==> records[k].name != name
    decreases |records| - from
  {
    if from == |records| || records[from].name == name then from else FirstFrom(records, name, from + 1)
  }

  predicate HasExact(records: seq<Record>, name: string) {
    FirstIndex(records, name) < |records|
  }

  function RemoveAt(records: seq<Record>, i: nat): seq<Record>
    requires i < |records|
  {
    records[..i] + records[i + 1..]
  }

  // ---------- the four handlers ----------

  /** Create under a record name, once the payload has passed its checks. */
  function CreateTag(f: File, name: string, members: seq<Member>, writeOk: bool): Outcome {
    var records := Listed(f);
    if Clash(records, name) then Fail(f, if HasExact(records, name) then 409 else 500)
    else if !TypesOk(members) then Fail(f, 400)
    else
      var record := Record(name, Stored(members));
      Commit(f, records + [record], writeOk, 201, Some(Tags([record])))
  }

  /** Update under a record name: replaces (moving the record to the end) or inserts. */
  function UpdateTag(f: File, name: string, members: seq<Member>, writeOk: bool): Outcome {
    var records := Listed(f);
    var record := Record(name, Stored(members));
    if Clash(records, name) && !HasExact(records, name) then Fail(f, 500)
    else if !TypesOk(members) then Fail(f, 400)
    else if Clash(records, name) then
      Commit(f, RemoveAt(records, FirstIndex(records, name)) + [record], writeOk, 200, None)
    else Commit(f, records + [record], writeOk, 201, None)
  }

  /** Delete of one record. It answers 200 even when the file cannot be written. */
  function DeleteTag(f: File, name: string, writeOk: bool): Outcome {
    if TagsOf(f).None? || name == "tags" || !HasExact(Listed(f), name) then Fail(f, 400)
    else
      var records := Listed(f);
      Outcome(if writeOk then Config(Some(RemoveAt(records, FirstIndex(records, name)))) else f, 0, 200, None)
  }

  /** Retrieve from the config file; the name "tags" asks for all records. */
  function RetrieveTag(f: File, obj: seq<Option<string>>): Outcome
    requires |obj| > 0
  {
    if !f.Config? then Fail(f, 500)
    else if Listed(f) == [] then Fail(f, 400)
    else if obj[|obj| - 1] == Some("tags") then Outcome(f, 0, 200, Some(Tags(CopyOutAll(Listed(f)))))
    else if At(obj, 3) != Some("tag") || obj[|obj| - 1].None? || !HasExact(Listed(f), obj[|obj| - 1].value) then
      Fail(f, 400)
    else
      var record := Listed(f)[FirstIndex(Listed(f), obj[|obj| - 1].value)];
      Outcome(f, 0, 200, Some(Fields(CopyOut(record.fields))))
  }

  /** The destination's `obj` array, when there is a destination and it is supported. */
  function Target(req: Request): (obj: Option<seq<Option<string>>>)
    ensures obj.Some? ==> |obj.value| > 0 && obj.value[|obj.value| - 1].Some?
  {
    if req.dest.None? then None else ParseDest(req.dest.value.elements)
  }

  function CreateSpec(f: File, req: Request, env: Env): Outcome {
    if f.Garbage? then Fail(f, 500)
    else if Target(req).None? || !IsTagDest(Target(req).value) || !PayloadOk(req.payload) then Fail(f, 400)
    else CreateTag(f, Target(req).value[4].value, req.payload.json.members, env.writeOk)
  }

  function UpdateSpec(f: File, req: Request, env: Env): Outcome {
    if f.Garbage? then Fail(f, 500)
    else if Target(req).None? then Fail(f, 400)
    else if IsTagDest(Target(req).value) then
      if !PayloadOk(req.payload) then Fail(f, 400)
      else UpdateTag(f, Target(req).value[4].value, req.payload.json.members, env.writeOk)
    else if IsDisconnectDest(Target(req).value) then
      Outcome(f, if env.disconnect == 200 then 0 else -1, env.disconnect, None)
    else Fail(f, 400)
  }

  function DeleteSpec(f: File, req: Request, env: Env): Outcome {
    if !f.Config? then Fail(f, 500)
    else if Target(req).None? || !IsTagDest(Target(req).value) then Fail(f, 400)
    else DeleteTag(f, Target(req).value[4].value, env.writeOk)
  }

  function RetrieveSpec(f: File, req: Request, env: Env): Outcome {
    if Target(req).None? then Fail(f, 400)
    else if IsInMemoryDest(Target(req).value) then
      if env.inMemory.Some? then Outcome(f, 0, 200, Some(InMemory(env.inMemory.value))) else Fail(f, 400)
    else RetrieveTag(f, Target(req).value)
  }

  /** The handlers, on the file as the request sees it. */
  function HandlerOn(f: File, req: Request, env: Env): Outcome {
    match req.kind
    case Create => CreateSpec(f, req, env)
    case Retrieve => RetrieveSpec(f, req, env)
    case Update => UpdateSpec(f, req, env)
    case Delete => DeleteSpec(f, req, env)
    case Other(_) => Outcome(f, 0, 0, None)
  }

  function HandlerSpec(f: File, req: Request, env: Env): Outcome {
    Kept(HandlerOn(Seen(f, env), req, env), Seen(f, env), f)
  }

  /** The response to a request: addresses swapped, and the payload dropped where the protocol has none. */
  function ResponseSpec(f: File, req: Request, env: Env): Response
    requires req.dest.Some?
  {
    var o := HandlerSpec(f, req, env);
    var keep := (req.kind.Create? || req.kind.Retrieve?) && o.ret == 0;
    Response(req.kind, req.txid, req.dest.value.text, req.source, o.status, if keep then o.payload else None)
  }
}
