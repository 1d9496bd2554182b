/**
 The CRUD handlers in the form of the program: they parse the file into a tree, change the tree step by step,
 and write the tree back. A rejection can come after the tree has been partly changed.
 */
module CrudStore {
  import opened Wrappers
  import opened Json
  import opened CrudMessages
  import opened CrudSpec

  class CrudConfig {
    var file: File                  // the persisted document
    var tree: Option<seq<Record>>   // the "tags" object of the parsed working copy

    constructor ()
      ensures file == Absent && tree == None
    {
      file, tree := Absent, None;
    }

    /** Reads the file and parses it into the tree. A file that is missing, unreadable or empty parses to no tree. */
    method ParseConfig(env: Env) returns (found: bool, ok: bool)
      modifies this`tree
      ensures found <==> Seen(file, env).Config? || Seen(file, env).Garbage?
      ensures ok <==> !Seen(file, env).Garbage?
      ensures tree == TagsOf(Seen(file, env))
    {
      tree := None;
      if !env.readOk || file.Absent? || file.Blank? {
        return false, true;
      }
      found, ok := true, !file.Garbage?;
      if ok {
        tree := file.tags;
      }
    }

    /** Replaces the file by the tree, when it can be opened for writing. */
    method WriteIntoCrudJson(writeOk: bool) returns (status: int)
      requires tree.Some?
      modifies this`file
      ensures status == if writeOk then 1 else 0
      ensures file == if writeOk then Config(tree) else old(file)
    {
      if !writeOk {
        return 0;
      }
      file := Config(tree);
      status := 1;
    }

    /** Looks for the mandatory numeric "expires". */
    static method CheckExpires(json: Json) returns (ok: bool)
      ensures ok <==> ExpiresOk(json)
      ensures ok ==> json.Object?
    {
      var i := 0;
      while i < Size(json)
        invariant i <= Size(json)
        invariant forall k :: 0 <= k < i ==> !IsExpires(json, k)
      {
        if Key(json, i) == Some("expires") && Item(json, i).Number? {
          assert IsExpires(json, i);
          return ValueInt(Item(json, i).n) != 0;
        }
        i := i + 1;
      }
      return false;
    }

    /** Looks for an empty key or an empty string. */
    static method CheckStrings(json: Json) returns (ok: bool)
      ensures ok <==> StringsOk(json)
    {
      var i := 0;
      while i < Size(json)
        invariant i <= Size(json)
        invariant forall k :: 0 <= k < i ==> Key(json, k) != Some("") && Item(json, k) != String("")
      {
        if Key(json, i) == Some("") || Item(json, i) == String("") {
          return false;
        }
        i := i + 1;
      }
      return true;
    }

    static method CheckPayload(p: Payload) returns (ok: bool)
      ensures ok <==> PayloadOk(p)
    {
      if !p.Body? || Size(p.json) == 0 {
        return false;
      }
      ok := CheckExpires(p.json);
      if ok {
        ok := CheckStrings(p.json);
      }
    }

    /** The case-insensitive lookup among the records of the tree. */
    method GetObjectItem(name: string) returns (found: bool)
      requires tree.Some?
      ensures found <==> Clash(tree.value, name)
    {
      var i := 0;
      while i < |tree.value|
        invariant i <= |tree.value|
        invariant forall k :: 0 <= k < i ==> Fold(tree.value[k].name) != Fold(name)
      {
        if Fold(tree.value[i].name) == Fold(name) {
          return true;
        }
        i := i + 1;
      }
      return false;
    }

    /** The exact scan through the records of the tree. */
    method FindRecord(name: string) returns (j: nat)
      requires tree.Some?
      ensures j == FirstIndex(tree.value, name)
    {
      j := 0;
      while j < |tree.value| && tree.value[j].name != name
        invariant j <= |tree.value|
        invariant forall k :: 0 <= k < j ==> tree.value[k].name != name
      {
        j := j + 1;
      }
    }

    /**
     Appends a record of this name and fills it from the payload, field by field. On a value that is neither
     a number nor a string it stops, leaving the record half built in the tree.
     */
    method AddRecord(name: string, members: seq<Member>) returns (ok: bool)
      requires tree.Some?
      modifies this`tree
      ensures ok <==> TypesOk(members)
      ensures ok ==> tree == Some(old(tree.value) + [Record(name, Stored(members))])
      ensures !ok ==> exists i :: 0 <= i < |members| && TypesOk(members[..i]) && !TypeOk(members[i]) &&
                        tree == Some(old(tree.value) + [Record(name, Stored(members[..i]))])
    {
      ghost var before := tree.value;
      tree := Some(tree.value + [Record(name, [])]);
      var last := |tree.value| - 1;
      var i := 0;
      while i < |members|
        invariant i <= |members| && last == |before|
        invariant TypesOk(members[..i])
        invariant tree == Some(before + [Record(name, Stored(members[..i]))])
      {
        assert members[..i + 1] == members[..i] + [members[i]];
        var record := tree.value[last];
        if members[i].value.Number? {
          var field := Member(members[i].key, Number(ValueInt(members[i].value.n) as real));
          tree := Some(tree.value[last := Record(name, record.fields + [field])]);
        } else if members[i].value.String? {
          tree := Some(tree.value[last := Record(name, record.fields + [members[i]])]);
        } else {
          assert !TypeOk(members[i]);
          return false;
        }
        assert Stored(members[..i + 1]) == record.fields + [StoreField(members[i])];
        assert tree.value == before + [Record(name, record.fields + [StoreField(members[i])])];
        i := i + 1;
      }
      assert members[..i] == members;
      return true;
    }

    method CreateObject(req: Request, env: Env) returns (ret: int, status: int, payload: Option<Reply>)
      requires req.kind.Create?
      modifies this
      ensures Outcome(file, ret, status, payload) ==
              Kept(CreateSpec(Seen(old(file), env), req, env), Seen(old(file), env), old(file))
      ensures ret != 0 ==> file == old(file)
    {
      var _, parsed := ParseConfig(env);
      if !parsed {
        return -1, 500, None;
      }
      var obj := Target(req);
      if obj.None? || !IsTagDest(obj.value) {
        return -1, 400, None;
      }
      var good := CheckPayload(req.payload);
      if !good {
        return -1, 400, None;
      }
      var name, members := obj.value[4].value, req.payload.json.members;
      if tree.Some? {
        var clash := GetObjectItem(name);
        if clash {
          var j := FindRecord(name);
          return -1, if j < |tree.value| then 409 else 500, None;
        }
      } else {
        tree := Some([]);
      }
      var added := AddRecord(name, members);
      if !added {
        return -1, 400, None;
      }
      payload := Some(Tags([tree.value[|tree.value| - 1]]));
      var written := WriteIntoCrudJson(env.writeOk);
      if written != 1 {
        return -1, 500, payload;
      }
      return 0, 201, payload;
    }

    method UpdateObject(req: Request, env: Env) returns (ret: int, status: int)
      requires req.kind.Update?
      modifies this
      ensures Outcome(file, ret, status, None) ==
              Kept(UpdateSpec(Seen(old(file), env), req, env), Seen(old(file), env), old(file))
      ensures ret != 0 ==> file == old(file)
    {
      var _, parsed := ParseConfig(env);
      if !parsed {
        return -1, 500;
      }
      var obj := Target(req);
      if obj.None? {
        return -1, 400;
      }
      if !IsTagDest(obj.value) {
        if IsDisconnectDest(obj.value) {
          return if env.disconnect == 200 then 0 else -1, env.disconnect;
        }
        return -1, 400;
      }
      var good := CheckPayload(req.payload);
      if !good {
        return -1, 400;
      }
      ret, status := UpdateRecord(obj.value[4].value, req.payload.json.members, env.writeOk, Seen(file, env));
    }

    /** The tag branch of update: the old record goes before the new one is known to be well typed. */
    method UpdateRecord(name: string, members: seq<Member>, writeOk: bool, ghost seen: File)
      returns (ret: int, status: int)
      requires !seen.Garbage? && tree == TagsOf(seen) && (seen == file || seen.Absent?)
      modifies this
      ensures Outcome(file, ret, status, None) == Kept(UpdateTag(seen, name, members, writeOk), seen, old(file))
      ensures ret != 0 ==> file == old(file)
    {
      var success := 201;
      if tree.Some? {
        var clash := GetObjectItem(name);
        if clash {
          var j := FindRecord(name);
          if j == |tree.value| {
            return -1, 500;
          }
          tree := Some(tree.value[..j] + tree.value[j + 1..]);
          success := 200;
        }
      } else {
        tree := Some([]);
      }
      var added := AddRecord(name, members);
      if !added {
        return -1, 400;
      }
      var written := WriteIntoCrudJson(writeOk);
      if written != 1 {
        return -1, 500;
      }
      return 0, success;
    }

    method DeleteObject(req: Request, env: Env) returns (ret: int, status: int)
      requires req.kind.Delete?
      modifies this
      ensures Outcome(file, ret, status, None) ==
              Kept(DeleteSpec(Seen(old(file), env), req, env), Seen(old(file), env), old(file))
      ensures ret != 0 ==> file == old(file)
    {
      var found, parsed := ParseConfig(env);
      if !found || !parsed {
        return -1, 500;
      }
      var obj := Target(req);
      if obj.None? || !IsTagDest(obj.value) {
        return -1, 400;
      }
      var name := obj.value[4].value;
      if tree.None? || |tree.value| == 0 || name == "tags" {
        return -1, 400;
      }
      var i := FindRecord(name);
      if i == |tree.value| {
        return -1, 400;
      }
      tree := Some(tree.value[..i] + tree.value[i + 1..]);
      var _ := WriteIntoCrudJson(env.writeOk);
      return 0, 200;
    }

    /** Copies one record's fields into the response; a field that is not a number is taken for a string. */
    static method CopyRecord(fields: seq<Member>) returns (copy: seq<Member>)
      ensures copy == CopyOut(fields)
    {
      copy := [];
      var j := 0;
      while j < |fields|
        invariant j <= |fields|
        invariant copy == CopyOut(fields[..j])
      {
        assert fields[..j + 1][..j] == fields[..j];
        if fields[j].value.Number? {
          copy := copy + [Member(fields[j].key, Number(ValueInt(fields[j].value.n) as real))];
        } else if fields[j].value.String? {
          copy := copy + [fields[j]];
        }
        j := j + 1;
      }
      assert fields[..j] == fields;
    }

    method RetrieveObject(req: Request, env: Env) returns (ret: int, status: int, payload: Option<Reply>)
      requires req.kind.Retrieve?
      modifies this`tree
      ensures Outcome(file, ret, status, payload) ==
              Kept(RetrieveSpec(Seen(old(file), env), req, env), Seen(old(file), env), old(file))
    {
      var target := Target(req);
      if target.None? {
        return -1, 400, None;
      }
      var obj := target.value;
      if IsInMemoryDest(obj) {
        if env.inMemory.Some? {
          return 0, 200, Some(InMemory(env.inMemory.value));
        }
        return -1, 400, None;
      }
      var found, parsed := ParseConfig(env);
      if !found || !parsed {
        return -1, 500, None;
      }
      if tree.None? || |tree.value| == 0 {
        return -1, 400, None;
      }
      var name := obj[|obj| - 1].value;
      if name == "tags" {
        var all := CopyAll();
        return 0, 200, Some(Tags(all));
      }
      if At(obj, 3) != Some("tag") {
        return -1, 400, None;
      }
      var i := FindRecord(name);
      if i == |tree.value| {
        return -1, 400, None;
      }
      var copy := CopyRecord(tree.value[i].fields);
      return 0, 200, Some(Fields(copy));
    }

    method CopyAll() returns (all: seq<Record>)
      requires tree.Some?
      ensures all == CopyOutAll(tree.value)
    {
      all := [];
      var i := 0;
      while i < |tree.value|
        invariant i <= |tree.value|
        invariant all == CopyOutAll(tree.value[..i])
      {
        var copy := CopyRecord(tree.value[i].fields);
        all := all + [Record(tree.value[i].name, copy)];
        i := i + 1;
      }
      assert tree.value[..i] == tree.value;
    }

    /** Dispatches a request and builds its response. The destination is copied, so it must be there. */
    method ProcessCrudRequest(req: Request, env: Env) returns (ret: int, resp: Response)
      requires req.dest.Some?
      modifies this
      ensures file == HandlerSpec(old(file), req, env).file
      ensures ret == HandlerSpec(old(file), req, env).ret
      ensures resp == ResponseSpec(old(file), req, env)
    {
      resp := Response(req.kind, req.txid, req.dest.value.text, req.source, 0, None);
      ret := 0;
      var status, payload := 0, None;
      match req.kind {
        case Create =>
          ret, status, payload := CreateObject(req, env);
          if ret != 0 {
            payload := None;
          }
        case Retrieve =>
          ret, status, payload := RetrieveObject(req, env);
          if ret != 0 {
            payload := None;
          }
        case Update =>
          ret, status := UpdateObject(req, env);
        case Delete =>
          ret, status := DeleteObject(req, env);
        case Other(_) =>
      }
      resp := resp.(status := status, payload := payload);
    }
  }
}
