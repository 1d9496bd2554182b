/** CRUD requests and responses, and the splitting of a destination into its elements. */
module CrudMessages {
  import opened Text
  import opened Wrappers
  import opened Json

  datatype Record = Record(name: string, fields: seq<Member>)

  datatype Kind = Create | Retrieve | Update | Delete | Other(code: int)

  /** The request payload: a NULL pointer, text that is not JSON, or a parsed value. */
  datatype Payload = NoPayload | NotJson | Body(json: Json)

  /** The elements that the message library finds in a destination: scheme, id, service, application. */
  type Elements = e: seq<string> | 1 <= |e| <= 4 witness ["mac"]

  datatype Dest = Dest(text: string, elements: Elements)

  datatype Request = Request(kind: Kind, txid: string, source: string, dest: Option<Dest>, payload: Payload)

  /** What a response carries: in-memory data, the fields of one record, or named records. */
  datatype Reply = InMemory(text: string) | Fields(fields: seq<Member>) | Tags(records: seq<Record>)

  datatype Response = Response(kind: Kind, txid: string, source: string, dest: string,
                               status: int, payload: Option<Reply>)

  /**
   What the rest of the process and the system contribute to one request: whether the config file, when it is there,
   can be opened for reading, which the program does with write access too; whether it can be opened for writing later
   in the request; the in-memory lookup; and the status of a cloud-disconnect.
   */
  datatype Env = Env(readOk: bool, writeOk: bool, inMemory: Option<string>, disconnect: int)

  /**
   The `obj` array. The last element found is split at its one '/'; an empty first half is a NULL slot,
   and a second '/' makes the destination unsupported.
   */
  function ParseDest(elements: Elements): (obj: Option<seq<Option<string>>>)
    ensures obj.Some? ==> |elements| <= |obj.value| <= |elements| + 1
    ensures obj.Some? ==> obj.value[|obj.value| - 1].Some?
  {
    var n := |elements| - 1;
    var slots := seq(n, i requires 0 <= i < n => Some(elements[i]));
    var last := elements[n];
    var k := IndexOf(last, '/');
    if k == |last| then Some(slots + [Some(last)])
    else if '/' in last[k + 1..] then None
    else Some(slots + [if k == 0 then None else Some(last[..k]), Some(last[k + 1..])])
  }

  function Slashes(s: string): nat {
    if s == "" then 0 else (if s[0] == '/' then 1 else 0) + Slashes(s[1..])
  }

  lemma {:induction false} NoSlashes(s: string)
    requires '/' !in s
    ensures Slashes(s) == 0
  {
    if s != "" {
      NoSlashes(s[1..]);
    }
  }

  lemma {:induction false} SlashesAfter(s: string, k: nat)
    requires k < |s| && s[k] == '/' && '/' !in s[..k]
    ensures Slashes(s) == 1 + Slashes(s[k + 1..])
  {
    if k > 0 {
      assert s[..k][0] == s[0] && s[..k][1..] == s[1..][..k - 1];
      SlashesAfter(s[1..], k - 1);
      assert s[1..][k..] == s[k + 1..];
    }
  }

  lemma {:induction false} SomeSlash(s: string)
    requires '/' in s
    ensures Slashes(s) >= 1
  {
    if s[0] != '/' {
      SomeSlash(s[1..]);
    }
  }

  /** The elements before the last are slots as they are; the last is one slot, or two that the slash joins again. */
  predicate SlotsOf(obj: seq<Option<string>>, elements: Elements) {
    var n, last := |elements| - 1, elements[|elements| - 1];
    Slashes(last) <= 1 && |obj| == |elements| + Slashes(last) &&
    (forall i :: 0 <= i < n ==> obj[i] == Some(elements[i])) &&
    (if Slashes(last) == 0 then obj[n] == Some(last)
     else
       obj[n + 1].Some? && (obj[n].None? <==> "/" <= last) &&
       (if obj[n].Some? then obj[n].value else "") + "/" + obj[n + 1].value == last)
  }

  /** A destination is refused exactly when its last element has two or more slashes. */
  lemma ParseDestSplits(elements: Elements)
    ensures ParseDest(elements).None? <==> Slashes(elements[|elements| - 1]) >= 2
    ensures ParseDest(elements).Some? ==> SlotsOf(ParseDest(elements).value, elements)
  {
    var last := elements[|elements| - 1];
    var k := IndexOf(last, '/');
    if k == |last| {
      assert last[..k] == last;
      NoSlashes(last);
    } else {
      SlashesAfter(last, k);
      if '/' in last[k + 1..] {
        SomeSlash(last[k + 1..]);
      } else {
        NoSlashes(last[k + 1..]);
      }
      assert last == last[..k] + "/" + last[k + 1..];
    }
  }

  /** Slot `k`, NULL when the destination has fewer elements. */
  function At(obj: seq<Option<string>>, k: nat): Option<string> {
    if k < |obj| then obj[k] else None
  }

  /** The one form of destination that names a record: mac/id/parodus/tag/name. */
  predicate IsTagDest(obj: seq<Option<string>>) {
    |obj| == 5 && obj[2] == Some("parodus") && obj[3] == Some("tag")
  }

  /** Retrieve serves these destinations from memory, without reading the config file. */
  predicate IsInMemoryDest(obj: seq<Option<string>>) {
    At(obj, 3).Some? &&
    ((|obj| == 4 && !Contains(obj[3].value, "tags")) || (|obj| == 5 && Contains(obj[3].value, "service-status")))
  }

  predicate IsDisconnectDest(obj: seq<Option<string>>) {
    |obj| == 4 && obj[3] == Some("cloud-disconnect")
  }

  /** A destination mac/id/parodus/tag/name, written out, parses to the record name. */
  lemma TagDestParses(scheme: string, id: string, name: string)
    requires '/' !in name
    ensures var obj := ParseDest([scheme, id, "parodus", "tag/" + name]);
            obj.Some? && IsTagDest(obj.value) && obj.value[4] == Some(name)
  {
    var last := "tag/" + name;
    assert last[3] == '/' && '/' !in last[..3];
    var k := IndexOf(last, '/');
    assert k == 3;
    assert last[..3] == "tag" && last[4..] == name;
  }
}
