/**
 The keep-alive sweep: every client is sent a message; a client that cannot be reached is deleted by name and the sweep
 starts again at the head of the list, which the deletion has changed under it.
 */
module KeepAlive {
  import opened ClientList
  import opened Wrappers

  /** What is left of a list, in its order, without some of its nodes. */
  ghost function Keep(was: seq<RegItem>, gone: set<RegItem>): seq<RegItem> {
    if was == [] then []
    else Keep(was[..|was| - 1], gone) + if was[|was| - 1] in gone then [] else [was[|was| - 1]]
  }

  /** Every removed node has the name of a client a send to which failed. */
  ghost predicate Blamed(gone: set<RegItem>, failed: set<RegItem>) {
    forall n :: n in gone ==> Named(failed, n.serviceName)
  }

  ghost predicate Named(nodes: set<RegItem>, name: string) {
    exists n :: n in nodes && n.serviceName == name
  }

  lemma BlameOne(gone: set<RegItem>, failed: set<RegItem>, x: RegItem, temp: RegItem)
    requires Blamed(gone, failed) && x.serviceName == temp.serviceName
    ensures Blamed(gone + {x}, failed + {temp})
  {
    forall n | n in gone + {x} ensures Named(failed + {temp}, n.serviceName) {
      if n in gone && n != x {
        var m :| m in failed && m.serviceName == n.serviceName;
        assert m in failed + {temp};
      } else {
        assert temp in failed + {temp};
      }
    }
  }

  /** The messages of a sweep, latest last, and whether all bytes of each went out. */
  datatype Log = Nothing | More(before: Log, to: RegItem, whole: bool)

  /** The clients whose last send succeeded. */
  ghost function Alive(log: Log): set<RegItem> {
    match log
    case Nothing => {}
    case More(before, to, whole) => if whole then Alive(before) + {to} else Alive(before) - {to}
  }

  /** The clients some send to which failed. */
  ghost function Failed(log: Log): set<RegItem> {
    match log
    case Nothing => {}
    case More(before, to, whole) => if whole then Failed(before) else Failed(before) + {to}
  }

  ghost function Size(log: Log): nat {
    match log
    case Nothing => 0
    case More(before, _, _) => 1 + Size(before)
  }

  /** The outcomes in the log are those the network has in store: `ok(n)` says whether message n goes out whole. */
  ghost predicate Answered(log: Log, ok: nat -> bool) {
    match log
    case Nothing => true
    case More(before, _, whole) => Answered(before, ok) && whole == ok(Size(before))
  }

  /** Sends message n to a client. */
  method Send(to: RegItem, n: nat, ok: nat -> bool, ghost log: Log) returns (whole: bool, ghost after: Log)
    requires !to.freed && n == Size(log)
    ensures whole == ok(n) && after == More(log, to, whole) && Size(after) == n + 1
  {
    whole := ok(n);
    after := More(log, to, whole);
  }

  // ---------- the sweep on names ----------

  /** The position of the first of these names from a position on, or the length. */
  function FirstName(names: seq<string>, name: string, from: nat): (j: nat)
    requires from <= |names|
    ensures from <= j <= |names| && (j < |names| ==> names[j] == name)
    decreases |names| - from
  {
    if from == |names| || names[from] == name then from else FirstName(names, name, from + 1)
  }

  lemma {:induction false} FirstNameIsNotAfter(names: seq<string>, name: string, from: nat, k: nat)
    requires from <= k < |names| && names[k] == name
    ensures FirstName(names, name, from) <= k
    decreases |names| - from
  {
    if names[from] != name {
      FirstNameIsNotAfter(names, name, from + 1, k);
    }
  }

  function Without(names: seq<string>, name: string): seq<string> {
    var j := FirstName(names, name, 0);
    if j < |names| then names[..j] + names[j + 1..] else names
  }

  lemma WithoutIsShorter(names: seq<string>, i: nat)
    requires i < |names|
    ensures |Without(names, names[i])| == |names| - 1
  {
    FirstNameIsNotAfter(names, names[i], 0, i);
  }

  /** The names that are left, and the position of the next client to send to. */
  datatype Course = Course(names: seq<string>, i: nat)

  /** After a message to the client at i: on to the next, or back to the head without the first of its name. */
  function Turn(c: Course, whole: bool): (d: Course)
    requires c.i < |c.names|
    ensures if whole then d == Course(c.names, c.i + 1) else |d.names| == |c.names| - 1 && d.i == 0
  {
    if whole then Course(c.names, c.i + 1)
    else
      WithoutIsShorter(c.names, c.i);
      Course(Without(c.names, c.names[c.i]), 0)
  }

  /** What a sweep that is there and about to send message n leaves. */
  function Swept(c: Course, n: nat, ok: nat -> bool): seq<string>
    decreases |c.names|, |c.names| - c.i
  {
    if |c.names| <= c.i then c.names else Swept(Turn(c, ok(n)), n + 1, ok)
  }

  /** When every message goes out nobody is lost. */
  lemma {:induction false} SweptByAll(c: Course, n: nat, ok: nat -> bool)
    requires forall m :: n <= m ==> ok(m)
    ensures Swept(c, n, ok) == c.names
    decreases |c.names| - c.i
  {
    if c.i < |c.names| {
      SweptByAll(Turn(c, true), n + 1, ok);
    }
  }

  /** When no message goes out nobody is left. */
  lemma {:induction false} SweptByNone(names: seq<string>, n: nat, ok: nat -> bool)
    requires forall m :: n <= m ==> !ok(m)
    ensures Swept(Course(names, 0), n, ok) == []
    decreases |names|
  {
    if names != [] {
      SweptByNone(Turn(Course(names, 0), false).names, n + 1, ok);
    }
  }

  ghost function NamesOf(spine: seq<RegItem>): (names: seq<string>)
    ensures |names| == |spine| && forall k :: 0 <= k < |spine| ==> names[k] == spine[k].serviceName
  {
    seq(|spine|, k requires 0 <= k < |spine| => spine[k].serviceName)
  }

  lemma FirstIsFirstName(spine: seq<RegItem>, name: string, j: nat)
    requires IsFirst(spine, name, j)
    ensures FirstName(NamesOf(spine), name, 0) == j
  {
    var f := FirstName(NamesOf(spine), name, 0);
    if f < j {
      var _ := Nth(spine, f);
    } else if j < |spine| {
      FirstNameIsNotAfter(NamesOf(spine), name, 0, j);
    }
  }

  lemma WithoutFirst(spine: seq<RegItem>, name: string, j: nat)
    requires IsFirst(spine, name, j)
    ensures Without(NamesOf(spine), name) == NamesOf(if j < |spine| then RemoveAt(spine, j) else spine)
  {
    FirstIsFirstName(spine, name, j);
    if j < |spine| {
      assert NamesOf(spine)[..j] + NamesOf(spine)[j + 1..] == NamesOf(RemoveAt(spine, j));
    }
  }

  ghost predicate NoTwice(was: seq<RegItem>) {
    forall i: nat, j: nat {:trigger Nth(was, i), Nth(was, j)} :: i < j < |was| ==> Nth(was, i) != Nth(was, j)
  }

  lemma PlacedOnce(was: seq<RegItem>, pos: map<RegItem, int>)
    requires Placed(was, pos)
    ensures NoTwice(was)
  {
  }

  lemma {:induction false} KeepAll(was: seq<RegItem>)
    ensures Keep(was, {}) == was
  {
    if was != [] {
      KeepAll(was[..|was| - 1]);
    }
  }

  lemma {:induction false} KeepIsPart(was: seq<RegItem>, gone: set<RegItem>)
    ensures forall n :: n in Keep(was, gone) <==> n in was && n !in gone
  {
    if was != [] {
      KeepIsPart(was[..|was| - 1], gone);
      assert was == was[..|was| - 1] + [was[|was| - 1]];
    }
  }

  lemma {:induction false} KeepIgnores(was: seq<RegItem>, gone: set<RegItem>, x: RegItem)
    requires x !in was
    ensures Keep(was, gone + {x}) == Keep(was, gone)
  {
    if was != [] {
      KeepIgnores(was[..|was| - 1], gone, x);
    }
  }

  lemma PrefixNoTwice(was: seq<RegItem>)
    requires NoTwice(was) && was != []
    ensures NoTwice(was[..|was| - 1]) && was[|was| - 1] !in was[..|was| - 1]
  {
    var init := was[..|was| - 1];
    forall i: nat, j: nat | i < j < |init| ensures Nth(init, i) != Nth(init, j) {
      assert Nth(was, i) != Nth(was, j);
    }
    forall i: nat | i < |init| ensures init[i] != was[|was| - 1] {
      assert Nth(was, i) != Nth(was, |was| - 1);
    }
  }

  /** Removing one node of what is left is the same as leaving one more node out. */
  lemma {:induction false} KeepRemove(was: seq<RegItem>, gone: set<RegItem>, j: nat)
    requires NoTwice(was) && j < |Keep(was, gone)|
    ensures Keep(was, gone + {Keep(was, gone)[j]}) == RemoveAt(Keep(was, gone), j)
  {
    if was != [] {
      var init, last := was[..|was| - 1], was[|was| - 1];
      var kept := Keep(init, gone);
      PrefixNoTwice(was);
      KeepIsPart(init, gone);
      if j < |kept| {
        assert kept[j] in kept;
        KeepRemove(init, gone, j);
      } else {
        KeepIgnores(init, gone, last);
      }
    }
  }

  /** What is gone is gone for a reason: a failed send to a client of its name, and its own when names were unique. */
  ghost predicate Justified(was: seq<RegItem>, now: seq<RegItem>, gone: set<RegItem>, failed: set<RegItem>) {
    Blamed(gone, failed) && (UniqueNames(was) ==> UniqueNames(now) && gone == failed)
  }

  /** The first i clients of the list are alive. */
  ghost predicate AliveTo(spine: seq<RegItem>, i: nat, alive: set<RegItem>)
    requires i <= |spine|
  {
    i == 0 || (AliveTo(spine, i - 1, alive) && spine[i - 1] in alive)
  }

  lemma {:induction false} AliveGrows(spine: seq<RegItem>, i: nat, alive: set<RegItem>, client: RegItem)
    requires i <= |spine| && AliveTo(spine, i, alive)
    ensures AliveTo(spine, i, alive + {client})
  {
    if i > 0 {
      AliveGrows(spine, i - 1, alive, client);
    }
  }

  lemma {:induction false} AliveAt(spine: seq<RegItem>, i: nat, alive: set<RegItem>)
    requires i <= |spine| && AliveTo(spine, i, alive)
    ensures forall k :: 0 <= k < i ==> spine[k] in alive
  {
    if i > 0 {
      AliveAt(spine, i - 1, alive);
    }
  }

  // ---------- what a log tells ----------

  /** Where a sweep of these names is after the sends in the log. */
  ghost function Replay(names: seq<string>, log: Log): Course {
    match log
    case Nothing => Course(names, 0)
    case More(before, _, whole) =>
      var c := Replay(names, before);
      if c.i < |c.names| then Turn(c, whole) else c
  }

  /** Every message was sent to the client whose turn it was. */
  ghost predicate InTurn(names: seq<string>, log: Log) {
    match log
    case Nothing => true
    case More(before, to, _) =>
      var c := Replay(names, before);
      InTurn(names, before) && c.i < |c.names| && c.names[c.i] == to.serviceName
  }

  /** A sweep that has followed its turns and the network's outcomes still leaves what it was to leave at first. */
  lemma {:induction false} ReplayIsSwept(names: seq<string>, log: Log, ok: nat -> bool)
    requires InTurn(names, log) && Answered(log, ok)
    ensures Swept(Replay(names, log), Size(log), ok) == Swept(Course(names, 0), 0, ok)
  {
    if log.More? {
      ReplayIsSwept(names, log.before, ok);
      SweptTurns(Replay(names, log.before), Size(log.before), ok);
    }
  }

  lemma SweptTurns(c: Course, n: nat, ok: nat -> bool)
    requires c.i < |c.names|
    ensures Swept(c, n, ok) == Swept(Turn(c, ok(n)), n + 1, ok)
  {
  }

  /** The log is that of a sweep of `names` which has come to position i of the names `now`. */
  ghost predicate Follows(names: seq<string>, log: Log, ok: nat -> bool, now: seq<string>, i: nat) {
    Answered(log, ok) && InTurn(names, log) && Replay(names, log) == Course(now, i)
  }

  lemma FollowSend(names: seq<string>, log: Log, ok: nat -> bool, now: seq<string>, i: nat, to: RegItem, whole: bool)
    requires Follows(names, log, ok, now, i) && i < |now| && to.serviceName == now[i] && whole == ok(Size(log))
    ensures if whole then Follows(names, More(log, to, whole), ok, now, i + 1)
            else Follows(names, More(log, to, whole), ok, Without(now, to.serviceName), 0)
  {
  }

  // ---------- the sweep on the list ----------

  /** A sweep of the list `was` has come to position i of what is left, `spine`. */
  ghost predicate OnCourse(was: seq<RegItem>, spine: seq<RegItem>, gone: set<RegItem>, log: Log, i: nat,
                           ok: nat -> bool)
  {
    NoTwice(was) && i <= |spine| && spine == Keep(was, gone) && Justified(was, spine, gone, Failed(log)) &&
    AliveTo(spine, i, Alive(log)) && Follows(NamesOf(was), log, ok, NamesOf(spine), i)
  }

  lemma JustifyOne(was: seq<RegItem>, spine: seq<RegItem>, j: nat, temp: RegItem, gone: set<RegItem>,
                   failed: set<RegItem>)
    requires Justified(was, spine, gone, failed) && j < |spine| && spine[j].serviceName == temp.serviceName
    requires UniqueNames(spine) ==> spine[j] == temp
    ensures Justified(was, RemoveAt(spine, j), gone + {spine[j]}, failed + {temp})
  {
    BlameOne(gone, failed, spine[j], temp);
    if UniqueNames(was) {
      RemoveKeepsUnique(spine, j);
    }
  }

  lemma StartSweep(was: seq<RegItem>, pos: map<RegItem, int>, ok: nat -> bool)
    requires Placed(was, pos)
    ensures OnCourse(was, was, {}, Nothing, 0, ok)
  {
    KeepAll(was);
    PlacedOnce(was, pos);
  }

  lemma PassAlive(was: seq<RegItem>, spine: seq<RegItem>, gone: set<RegItem>, log: Log, i: nat, ok: nat -> bool)
    requires OnCourse(was, spine, gone, log, i, ok) && i < |spine| && ok(Size(log))
    ensures OnCourse(was, spine, gone, More(log, spine[i], true), i + 1, ok)
  {
    AliveGrows(spine, i, Alive(log), spine[i]);
    FollowSend(NamesOf(was), log, ok, NamesOf(spine), i, spine[i], true);
  }

  lemma PassDead(was: seq<RegItem>, spine: seq<RegItem>, gone: set<RegItem>, log: Log, i: nat, ok: nat -> bool, j: nat)
    requires OnCourse(was, spine, gone, log, i, ok) && i < |spine| && !ok(Size(log))
    requires IsFirst(spine, spine[i].serviceName, j) && j < |spine|
    ensures OnCourse(was, RemoveAt(spine, j), gone + {spine[j]}, More(log, spine[i], false), 0, ok)
  {
    var _ := Nth(spine, i);
    var _ := Nth(spine, j);
    KeepRemove(was, gone, j);
    JustifyOne(was, spine, j, spine[i], gone, Failed(log));
    WithoutFirst(spine, spine[i].serviceName, j);
    FollowSend(NamesOf(was), log, ok, NamesOf(spine), i, spine[i], false);
  }

  ghost predicate Sweeping(r: Registry, was: seq<RegItem>, all: set<RegItem>, gone: set<RegItem>, log: Log, i: nat,
                           ok: nat -> bool)
    reads r, r.nodes, r.nn`open
  {
    r.Valid() && r.nodes <= all && gone <= all && OnCourse(was, r.spine, gone, log, i, ok)
  }

  /**
   A client could not be reached: deletes by its name, so that the first node of that name goes, this one when names
   are unique. The sweep is then back at the head of a shorter list.
   */
  method Bury(r: Registry, temp: RegItem, ghost i: nat, ghost was: seq<RegItem>, ghost all: set<RegItem>,
              ghost gone: set<RegItem>, ghost log: Log, ghost ok: nat -> bool)
    returns (ret: int, ghost nowGone: set<RegItem>)
    requires Sweeping(r, was, all, gone, log, i, ok) && i < |r.spine| && temp == r.spine[i] && !ok(Size(log))
    modifies r`head, r`numOfClients, r`spine, r`nodes, r`pos, r`owner, r.nodes`next, r.nodes`freed, r.nn`open
    ensures Sweeping(r, was, all, nowGone, More(log, temp, false), 0, ok)
    ensures ret == 0 && |r.spine| == |old(r.spine)| - 1
    ensures exists x :: x in old(r.nodes) && x.freed && x.serviceName == temp.serviceName &&
                        r.nodes == old(r.nodes) - {x} && nowGone == gone + {x}
  {
    ghost var spine := r.spine;
    ghost var j;
    r.NodeAt(i);
    ret, j := r.DeleteFromList(temp.serviceName);
    var _ := Nth(spine, i);
    var _ := Nth(spine, j);
    ghost var x := spine[j];
    nowGone := gone + {x};
    PassDead(was, spine, gone, log, i, ok, j);
  }

  /** One turn of the sweep's loop: the next client to send to, and where it stands. */
  method SendTo(r: Registry, temp: RegItem, n: nat, ok: nat -> bool, ghost i: nat, ghost was: seq<RegItem>,
                ghost all: set<RegItem>, ghost gone: set<RegItem>, ghost log: Log)
    returns (next: RegItem?, ghost j: nat, ghost nowGone: set<RegItem>, ghost after: Log)
    requires Sweeping(r, was, all, gone, log, i, ok) && i < |r.spine| && temp == r.spine[i] && n == Size(log)
    modifies r`head, r`numOfClients, r`spine, r`nodes, r`pos, r`owner, r.nodes`next, r.nodes`freed, r.nn`open
    ensures Sweeping(r, was, all, nowGone, after, j, ok) && next == At(r.spine, j)
    ensures after == More(log, temp, ok(n))
    ensures if ok(n) then |r.spine| == |old(r.spine)| && j == i + 1 else |r.spine| == |old(r.spine)| - 1 && j == 0
  {
    r.NodeAt(i);
    var ret := -1;
    var whole;
    whole, after := Send(temp, n, ok, log);
    j, nowGone := i + 1, gone;
    if whole {
      PassAlive(was, r.spine, gone, log, i, ok);
    } else {
      ret, nowGone := Bury(r, temp, i, was, all, gone, log, ok);
    }
    if ret == 0 {
      next, j := r.head, 0;
    } else {
      next := temp.next;
    }
  }

  /** Sends to every client from the head on, starting again after every deletion, up to the end of the list. */
  method SweepToEnd(r: Registry, ok: nat -> bool) returns (ghost gone: set<RegItem>, ghost log: Log)
    requires r.Valid()
    modifies r`head, r`numOfClients, r`spine, r`nodes, r`pos, r`owner, r.nodes`next, r.nodes`freed, r.nn`open
    ensures Sweeping(r, old(r.spine), old(r.nodes), gone, log, |r.spine|, ok)
  {
    gone, log := {}, Nothing;
    ghost var was, all := r.spine, r.nodes;
    StartSweep(r.spine, r.pos, ok);
    var n := 0;
    var temp := r.head;
    ghost var i: nat := 0;
    while temp != null
      invariant Sweeping(r, was, all, gone, log, i, ok) && temp == At(r.spine, i) && n == Size(log)
      decreases |r.spine|, |r.spine| - i
    {
      temp, i, gone, log := SendTo(r, temp, n, ok, i, was, all, gone, log);
      n := n + 1;
    }
  }

  method SweepAll(r: Registry, ok: nat -> bool) returns (ghost gone: set<RegItem>, ghost log: Log)
    requires r.Valid()
    modifies r`head, r`numOfClients, r`spine, r`nodes, r`pos, r`owner, r.nodes`next, r.nodes`freed, r.nn`open
    ensures r.Valid() && r.nodes <= old(r.nodes) && gone <= old(r.nodes)
    ensures r.spine == Keep(old(r.spine), gone) && Justified(old(r.spine), r.spine, gone, Failed(log))
    ensures forall k :: 0 <= k < |r.spine| ==> r.spine[k] in Alive(log)
    ensures Answered(log, ok) && NamesOf(r.spine) == Swept(Course(NamesOf(old(r.spine)), 0), 0, ok)
  {
    gone, log := SweepToEnd(r, ok);
    AliveAt(r.spine, |r.spine|, Alive(log));
    ReplayIsSwept(NamesOf(old(r.spine)), log, ok);
  }

  /**
   The sweep ends, and never touches a freed node, whichever messages go out. The names it leaves are a function of
   that alone.
   */
  method Sweep(r: Registry, ok: nat -> bool) returns (ghost gone: set<RegItem>, ghost log: Log)
    requires r.Valid()
    modifies r`head, r`numOfClients, r`spine, r`nodes, r`pos, r`owner, r.nodes`next, r.nodes`freed, r.nn`open
    ensures r.Valid() && r.nodes <= old(r.nodes) && gone <= old(r.nodes)
    ensures Answered(log, ok)
    ensures NamesOf(r.spine) ==
            if old(r.numOfClients) > 0 then Swept(Course(NamesOf(old(r.spine)), 0), 0, ok) else NamesOf(old(r.spine))
    // the survivors keep their order, and each one's last send succeeded
    ensures r.spine == Keep(old(r.spine), gone)
    ensures old(r.numOfClients) > 0 ==> forall k :: 0 <= k < |r.spine| ==> r.spine[k] in Alive(log)
    ensures old(r.numOfClients) <= 0 ==> gone == {} && log == Nothing
    // a node is only removed because a send to a client of its name failed: its own, when names are unique
    ensures Blamed(gone, Failed(log))
    ensures UniqueNames(old(r.spine)) ==> gone == Failed(log)
  {
    if r.numOfClients > 0 {
      gone, log := SweepAll(r, ok);
    } else {
      gone, log := {}, Nothing;
      KeepAll(r.spine);
    }
  }

  // ---------- runs ----------

  datatype Op = Register(name: string, url: string) | Delete(name: string) | KeepAliveSweep(ok: nat -> bool)

  predicate Fits(op: Op) {
    op.Register? ==> |op.name| < NAME_SIZE && |op.url| < URL_SIZE
  }

  predicate AllFit(ops: seq<Op>) {
    forall k :: 0 <= k < |ops| ==> Fits(ops[k])
  }

  /** The registered names after a run in which no socket or connect call fails and no name or URL is cut. */
  function NamesAfter(ops: seq<Op>): seq<string> {
    if ops == [] then []
    else
      var names := NamesAfter(ops[..|ops| - 1]);
      match ops[|ops| - 1]
      case Register(name, _) => if name in names then names else names + [name]
      case Delete(name) => Without(names, name)
      case KeepAliveSweep(ok) => Swept(Course(names, 0), 0, ok)
  }

  /** What a registration does to the names, when it reconnects the first client of the name or else adds one. */
  lemma RegisteredNames(was: seq<RegItem>, now: seq<RegItem>, name: string, url: string, at: nat)
    requires IsFirst(was, name, at) && |name| < NAME_SIZE
    requires if at < |was| then now == was else Extends(now, was, name, url)
    ensures NamesOf(now) == if name in NamesOf(was) then NamesOf(was) else NamesOf(was) + [name]
  {
    FirstIsFirstName(was, name, at);
    if at < |was| {
      assert NamesOf(was)[at] == name;
    } else {
      forall k | 0 <= k < |was| ensures NamesOf(was)[k] != name {
        var _ := Nth(was, k);
      }
    }
  }

  /** The URL of the last registration of a name. */
  function LastUrl(ops: seq<Op>, name: string): string {
    if ops == [] then ""
    else
      var op := ops[|ops| - 1];
      if op.Register? && op.name == name then op.url else LastUrl(ops[..|ops| - 1], name)
  }

  /** A registration on names that are unique: the one client of the name has the new URL. */
  lemma OnlyOneServes(spine: seq<RegItem>, name: string, at: nat, n: RegItem)
    requires UniqueNames(spine) && at < |spine| && spine[at].serviceName == name
    requires n in spine && n.serviceName == name
    ensures n == spine[at]
  {
    var i: nat :| i < |spine| && spine[i] == n;
    var _, _ := Nth(spine, i), Nth(spine, at);
  }

  /** One registration, on the registry. */
  method Enrol(r: Registry, name: string, url: string)
    requires r.Valid()
    modifies r, r.nodes, r.nn
    ensures r.Valid() && fresh(r.nodes - old(r.nodes))
    ensures Fits(Register(name, url)) ==> r.uncounted == old(r.uncounted) && r.cut == old(r.cut)
    ensures AllWork(r.nn.works) ==> r.reconnectFailed == old(r.reconnectFailed)
    ensures AllWork(r.nn.works) && Fits(Register(name, url)) && old(r.uncounted) == 0 ==>
              NamesOf(r.spine) ==
                if name in NamesOf(old(r.spine)) then NamesOf(old(r.spine)) else NamesOf(old(r.spine)) + [name]
    ensures AllWork(r.nn.works) && Fits(Register(name, url)) && old(r.uncounted) == 0 && !old(r.reconnectFailed) ==>
              forall n :: n in r.spine ==>
                if n.serviceName == name then n.url == url else n in old(r.spine) && n.url == old(n.url)
  {
    ghost var spine, calls := r.spine, r.nn.calls;
    ghost var at;
    var matched;
    matched, at := r.Register(name, url);
    if AllWork(r.nn.works) {
      TryFindsFirst(spine, name, 0, r.nn.works, calls);
      if Fits(Register(name, url)) && old(r.uncounted) == 0 {
        RegisteredNames(spine, r.spine, name, url, at);
        if !old(r.reconnectFailed) {
          forall n | n in r.spine && n.serviceName == name ensures n.url == url {
            OnlyOneServes(r.spine, name, at, n);
          }
        }
      }
    }
  }

  /** One operation, on the registry. */
  method Perform(r: Registry, op: Op)
    requires r.Valid()
    modifies r, r.nodes, r.nn
    ensures r.Valid() && fresh(r.nodes - old(r.nodes))
    ensures Fits(op) ==> r.uncounted == old(r.uncounted) && r.cut == old(r.cut)
    ensures AllWork(r.nn.works) ==> r.reconnectFailed == old(r.reconnectFailed)
    ensures AllWork(r.nn.works) && Fits(op) && old(r.uncounted) == 0 ==>
              NamesOf(r.spine) == match op
                case Register(name, _) =>
                  if name in NamesOf(old(r.spine)) then NamesOf(old(r.spine)) else NamesOf(old(r.spine)) + [name]
                case Delete(name) => Without(NamesOf(old(r.spine)), name)
                case KeepAliveSweep(ok) => Swept(Course(NamesOf(old(r.spine)), 0), 0, ok)
    // each client has the URL just registered for its name, or the one it had
    ensures AllWork(r.nn.works) && Fits(op) && old(r.uncounted) == 0 && !old(r.reconnectFailed) ==>
              forall n :: n in r.spine ==>
                if op.Register? && n.serviceName == op.name then n.url == op.url
                else n in old(r.spine) && n.url == old(n.url)
  {
    ghost var spine := r.spine;
    match op {
      case Register(name, url) =>
        Enrol(r, name, url);
      case Delete(name) =>
        ghost var i;
        var ret;
        ret, i := r.DeleteFromList(name);
        WithoutFirst(spine, name, i);
      case KeepAliveSweep(ok) =>
        ghost var gone, log;
        gone, log := Sweep(r, ok);
        KeepIsPart(spine, gone);
    }
  }

  /** No socket or connect call fails. */
  ghost predicate AllWork(works: nat -> bool) {
    forall n :: works(n)
  }

  /** Performs the operations in turn. */
  method PerformAll(ops: seq<Op>, works: nat -> bool) returns (r: Registry)
    ensures r.Valid() && r.nn.works == works
    ensures AllFit(ops) ==> r.uncounted == 0 && !r.cut
    ensures AllWork(works) ==> !r.reconnectFailed
    ensures AllWork(works) && AllFit(ops) ==>
              NamesOf(r.spine) == NamesAfter(ops) && forall n :: n in r.spine ==> n.url == LastUrl(ops, n.serviceName)
  {
    r := new Registry(works);
    for i := 0 to |ops|
      invariant r.Valid() && fresh(r) && fresh(r.nodes) && fresh(r.nn) && r.nn.works == works
      invariant AllFit(ops[..i]) ==> r.uncounted == 0 && !r.cut
      invariant AllWork(works) && AllFit(ops[..i]) ==>
                  forall n :: n in r.spine ==> n.url == LastUrl(ops[..i], n.serviceName)
      invariant AllWork(works) ==> !r.reconnectFailed
      invariant AllWork(works) && AllFit(ops[..i]) ==>
                  NamesOf(r.spine) == NamesAfter(ops[..i])
    {
      assert ops[..i + 1][..i] == ops[..i];
      assert AllFit(ops[..i + 1]) ==> AllFit(ops[..i]) && Fits(ops[..i + 1][i]);
      Perform(r, ops[i]);
    }
    assert ops[..|ops|] == ops;
  }

  /**
   Any run of registrations, deletions and sweeps, whichever calls of the socket library work: every open socket
   belongs to exactly one node; if everything fitted its buffer, all are counted, and if also no reconnect failed, names
   are unique; and if no call fails, the registered names are a function of the run.
   */
  method Serve(ops: seq<Op>, works: nat -> bool) returns (r: Registry)
    ensures r.Valid()
    ensures forall s :: s in r.nn.open ==> s in r.owner && r.owner[s] in r.spine && r.owner[s].sock == s
    ensures forall n :: n in r.spine && n.sock >= 0 ==> n.sock in r.nn.open && r.owner[n.sock] == n
    ensures AllFit(ops) ==> r.numOfClients == |r.spine|
    ensures AllFit(ops) && !r.reconnectFailed ==> UniqueNames(r.spine)
    // a client's socket is connected, unless a reconnect failed, and then to the URL the client is listed with
    ensures !r.reconnectFailed ==> forall n :: n in r.spine ==>
              n.sock in r.nn.open && r.nn.open[n.sock].Some? && n.url == Trunc(r.nn.open[n.sock].value, URL_SIZE)
    ensures AllWork(works) ==> !r.reconnectFailed
    // when no call fails and everything fits, it is connected to the URL of the last registration of its name
    ensures AllWork(works) && AllFit(ops) ==>
              forall n :: n in r.spine ==> r.nn.open[n.sock] == Some(LastUrl(ops, n.serviceName))
    ensures AllWork(works) && AllFit(ops) ==> NamesOf(r.spine) == NamesAfter(ops)
  {
    r := PerformAll(ops, works);
    r.OwnersAreListed();
    r.PeersAreListed();
  }
}
