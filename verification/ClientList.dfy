/**
 The registry of local clients: a linked list of nodes, each owning one nanomsg socket, changed by registrations,
 by deletions, and by the keep-alive sweep that restarts from the head after every deletion.
 */
module ClientList {
  import opened Wrappers

  const NAME_SIZE := 32
  const URL_SIZE := 100

  /** Copying into a fixed buffer keeps at most size - 1 characters. */
  function Trunc(s: string, size: nat): (r: string)
    requires size > 0
    ensures r <= s && |r| == if |s| < size then |s| else size - 1
  {
    if |s| < size then s else s[..size - 1]
  }

  /** Every number up to some bound may be taken, but not all numbers. */
  lemma {:induction false} SomeNumberIsFree(open: set<int>) returns (bound: nat)
    ensures forall s :: s in open ==> s < bound
    decreases |open|
  {
    bound := 0;
    if s :| s in open {
      bound := SomeNumberIsFree(open - {s});
      if bound <= s {
        bound := s + 1;
      }
      assert forall t :: t in open ==> t == s || t in open - {s};
    }
  }

  /**
   The socket library: which sockets are open, with the URL each is connected to, and for each socket and connect call
   in turn whether it works.
   */
  class Nanomsg {
    const works: nat -> bool
    var calls: nat
    var open: map<int, Option<string>>

    constructor (works: nat -> bool)
      ensures open == map[] && calls == 0 && this.works == works
    {
      this.works, calls, open := works, 0, map[];
    }

    /** A socket that was not open before, or a negative number. */
    method Socket() returns (s: int)
      modifies this
      ensures calls == old(calls) + 1 && (s >= 0 <==> works(old(calls)))
      ensures if s < 0 then open == old(open) else s !in old(open) && open == old(open)[s := None]
    {
      s := -1;
      if works(calls) {
        ghost var bound := SomeNumberIsFree(open.Keys);
        assert bound !in open.Keys;
        s :| s >= 0 && s !in open.Keys;
        open := open[s := None];
      }
      calls := calls + 1;
    }

    /** An endpoint, or a negative number and nothing changes. */
    method Connect(s: int, url: string) returns (endpoint: int)
      requires s in open
      modifies this
      ensures calls == old(calls) + 1 && (endpoint >= 0 <==> works(old(calls)))
      ensures open == if endpoint >= 0 then old(open)[s := Some(url)] else old(open)
    {
      endpoint := -1;
      if works(calls) {
        endpoint, open := 0, open[s := Some(url)];
      }
      calls := calls + 1;
    }

    /** Closing something that is not an open socket does nothing. */
    method Close(s: int)
      modifies this`open
      ensures open == old(open) - {s}
    {
      open := open - {s};
    }
  }

  class RegItem {
    const serviceName: string
    var sock: int
    var endpoint: int
    var url: string
    var next: RegItem?
    ghost var freed: bool

    constructor (serviceName: string, url: string, sock: int, endpoint: int)
      ensures this.serviceName == serviceName && this.url == url && this.sock == sock && this.endpoint == endpoint
      ensures next == null && !freed
    {
      this.serviceName, this.url, this.sock, this.endpoint := serviceName, url, sock, endpoint;
      next, freed := null, false;
    }
  }

  ghost function At(spine: seq<RegItem>, i: nat): RegItem? {
    if i < |spine| then spine[i] else null
  }

  ghost function Nth(spine: seq<RegItem>, i: nat): RegItem
    requires i < |spine|
  {
    spine[i]
  }

  /** Position i is that of the first node of this name, or the length when there is none. */
  ghost predicate IsFirst(spine: seq<RegItem>, name: string, i: nat) {
    i <= |spine| && (i < |spine| ==> spine[i].serviceName == name) && NoneBefore(spine, name, i)
  }

  ghost predicate NoneBefore(spine: seq<RegItem>, name: string, i: nat)
    requires i <= |spine|
  {
    forall k: nat {:trigger Nth(spine, k)} :: k < i ==> Nth(spine, k).serviceName != name
  }

  lemma NoneBeforeNext(spine: seq<RegItem>, name: string, i: nat)
    requires i < |spine|
    ensures NoneBefore(spine, name, i + 1) <==> NoneBefore(spine, name, i) && spine[i].serviceName != name
  {
    var _ := Nth(spine, i);
  }

  /** A connected socket takes two calls that work; when the first does not, there is no second. */
  predicate Connects(works: nat -> bool, calls: nat) {
    works(calls) && works(calls + 1)
  }

  function CallsAfter(works: nat -> bool, calls: nat): nat {
    calls + if works(calls) then 2 else 1
  }

  /**
   Walking the list from position i for a client of this name that can be reconnected: its position, or the length, and
   the calls made by then. A client that could not be reconnected is passed over.
   */
  ghost function TryFrom(spine: seq<RegItem>, name: string, i: nat, works: nat -> bool, calls: nat): (r: (nat, nat))
    requires i <= |spine|
    ensures i <= r.0 <= |spine| && (r.0 < |spine| ==> spine[r.0].serviceName == name)
    decreases |spine| - i
  {
    if i == |spine| then (i, calls)
    else if spine[i].serviceName != name then TryFrom(spine, name, i + 1, works, calls)
    else if Connects(works, calls) then (i, calls + 2)
    else TryFrom(spine, name, i + 1, works, CallsAfter(works, calls))
  }

  /** Where the search ends, and after how many calls; without counted clients there is none. */
  ghost function WalkFrom(spine: seq<RegItem>, counted: int, name: string, works: nat -> bool, calls: nat): (nat, nat) {
    if counted == 0 then (|spine|, calls) else TryFrom(spine, name, 0, works, calls)
  }

  /** When all calls work, no client of the name is passed over. */
  lemma {:induction false} TryFindsFirst(spine: seq<RegItem>, name: string, i: nat, works: nat -> bool, calls: nat)
    requires i <= |spine| && (forall n :: works(n))
    requires NoneBefore(spine, name, i)
    ensures IsFirst(spine, name, TryFrom(spine, name, i, works, calls).0)
    decreases |spine| - i
  {
    if i < |spine| && spine[i].serviceName != name {
      TryFindsFirst(spine, name, i + 1, works, calls);
    }
  }

  /** One node, named as far as the buffers allow, was added at the end. */
  ghost predicate Extends(spine: seq<RegItem>, was: seq<RegItem>, name: string, url: string)
    reads spine
  {
    |spine| == |was| + 1 && spine == was + [spine[|was|]] &&
    spine[|was|].serviceName == Trunc(name, NAME_SIZE) && spine[|was|].url == Trunc(url, URL_SIZE)
  }

  ghost function RemoveAt(spine: seq<RegItem>, i: nat): (r: seq<RegItem>)
    requires i < |spine|
    ensures |r| == |spine| - 1
  {
    spine[..i] + spine[i + 1..]
  }

  /** Every node of the list stands at one position; stated over Nth so that only named positions are looked up. */
  ghost predicate Placed(spine: seq<RegItem>, pos: map<RegItem, int>) {
    (forall i: nat {:trigger Nth(spine, i)} :: i < |spine| ==> Nth(spine, i) in pos && pos[Nth(spine, i)] == i) &&
    (forall n {:trigger pos[n]} :: n in pos ==> 0 <= pos[n] < |spine| && spine[pos[n]] == n)
  }

  ghost predicate UniqueNames(spine: seq<RegItem>) {
    forall i: nat, j: nat {:trigger Nth(spine, i), Nth(spine, j)} ::
      i < j < |spine| ==> Nth(spine, i).serviceName != Nth(spine, j).serviceName
  }

  ghost function Shifted(pos: map<RegItem, int>, node: RegItem): map<RegItem, int>
    requires node in pos
  {
    map n | n in pos && n != node :: if pos[n] < pos[node] then pos[n] else pos[n] - 1
  }

  lemma RemovedIsGone(spine: seq<RegItem>, pos: map<RegItem, int>, i: nat)
    requires Placed(spine, pos) && i < |spine|
    ensures spine[i] in pos && pos[spine[i]] == i && Placed(RemoveAt(spine, i), Shifted(pos, spine[i]))
    ensures Shifted(pos, spine[i]).Keys == pos.Keys - {spine[i]}
  {
    var r := RemoveAt(spine, i);
    var _ := Nth(spine, i);
    var p := Shifted(pos, spine[i]);
    forall k: nat | k < |r| ensures Nth(r, k) in p && p[Nth(r, k)] == k {
      var _ := Nth(spine, if k < i then k else k + 1);
    }
    forall n | n in p ensures 0 <= p[n] < |r| && r[p[n]] == n {
      assert spine[pos[n]] == n;
    }
  }

  lemma AddedIsPlaced(spine: seq<RegItem>, pos: map<RegItem, int>, node: RegItem)
    requires Placed(spine, pos) && node !in pos
    ensures Placed(spine + [node], pos[node := |spine|])
  {
    var r := spine + [node];
    forall k: nat | k < |r| ensures Nth(r, k) in pos[node := |spine|] && pos[node := |spine|][Nth(r, k)] == k {
      if k < |spine| {
        var _ := Nth(spine, k);
      }
    }
    forall n | n in pos ensures 0 <= pos[n] < |r| && r[pos[n]] == n {
      assert spine[pos[n]] == n;
    }
  }

  lemma RemoveKeepsUnique(spine: seq<RegItem>, i: nat)
    requires UniqueNames(spine) && i < |spine|
    ensures UniqueNames(RemoveAt(spine, i))
  {
    var r := RemoveAt(spine, i);
    forall j: nat, k: nat | j < k < |r| ensures Nth(r, j).serviceName != Nth(r, k).serviceName {
      var _ := Nth(spine, if j < i then j else j + 1);
      var _ := Nth(spine, if k < i then k else k + 1);
    }
  }

  lemma AddKeepsUnique(spine: seq<RegItem>, node: RegItem)
    requires UniqueNames(spine) && IsFirst(spine, node.serviceName, |spine|)
    ensures UniqueNames(spine + [node])
  {
    var r := spine + [node];
    forall j: nat, k: nat | j < k < |r| ensures Nth(r, j).serviceName != Nth(r, k).serviceName {
      var _ := Nth(spine, j);
      if k < |spine| {
        var _ := Nth(spine, k);
      }
    }
  }

  /** The nodes are linked in the order of the spine, and none of them is freed. */
  ghost predicate Chained(spine: seq<RegItem>, nodes: set<RegItem>)
    reads nodes`next, nodes`freed
  {
    forall i: nat {:trigger Nth(spine, i)} ::
      i < |spine| ==> spine[i] in nodes && spine[i].next == At(spine, i + 1) && !spine[i].freed
  }

  ghost function SockOf(n: RegItem): int
    reads n`sock
  {
    n.sock
  }

  ghost function OwnerOf(owner: map<int, RegItem>, s: int): RegItem
    requires s in owner
  {
    owner[s]
  }

  /** Every open socket belongs to exactly one node, and every node's socket is open unless negative. */
  ghost predicate OwnedBy(nodes: set<RegItem>, owner: map<int, RegItem>, open: set<int>)
    reads nodes`sock
  {
    owner.Keys == open &&
    (forall s {:trigger OwnerOf(owner, s)} :: s in owner ==> OwnerOf(owner, s) in nodes && owner[s].sock == s) &&
    (forall n {:trigger SockOf(n)} :: n in nodes && SockOf(n) >= 0 ==> n.sock in owner && owner[n.sock] == n)
  }

  /**
   A node whose socket is connected has the URL it is connected to, cut to its buffer. With `connected` every node's
   socket is, and with `whole` no URL had to be cut.
   */
  ghost predicate PeersOf(nodes: set<RegItem>, open: map<int, Option<string>>, connected: bool, whole: bool)
    reads nodes`sock, nodes`url
  {
    forall n {:trigger SockOf(n)} :: n in nodes ==> PeerOf(n, SockOf(n), open, connected, whole)
  }

  ghost predicate PeerOf(n: RegItem, s: int, open: map<int, Option<string>>, connected: bool, whole: bool)
    reads n`url
  {
    (connected ==> s >= 0 && s in open && open[s].Some?) &&
    (s >= 0 && s in open && open[s].Some? ==>
       n.url == Trunc(open[s].value, URL_SIZE) && (whole ==> n.url == open[s].value))
  }

  /** Closing the socket of a node does not concern the others. */
  lemma CloseKeepsPeers(nodes: set<RegItem>, node: RegItem, owner: map<int, RegItem>, open: map<int, Option<string>>,
                        connected: bool, whole: bool)
    requires node in nodes && OwnedBy(nodes, owner, open.Keys) && PeersOf(nodes - {node}, open, connected, whole)
    ensures PeersOf(nodes - {node}, open - {node.sock}, connected, whole)
  {
    var _ := SockOf(node);
    forall n | n in nodes - {node} ensures PeerOf(n, SockOf(n), open - {node.sock}, connected, whole) {
    }
  }

  /** Nor does opening or connecting a socket that none of them has. */
  lemma OpenKeepsPeers(nodes: set<RegItem>, owner: map<int, RegItem>, open: map<int, Option<string>>, s: int,
                       peer: Option<string>, connected: bool, whole: bool)
    requires s !in open && OwnedBy(nodes, owner, open.Keys) && PeersOf(nodes, open, connected, whole)
    ensures PeersOf(nodes, open[s := peer], connected, whole)
  {
    forall n | n in nodes ensures PeerOf(n, SockOf(n), open[s := peer], connected, whole) {
    }
  }

  /** What the socket of one node is connected to does not concern the others. */
  lemma SetPeer(nodes: set<RegItem>, node: RegItem, owner: map<int, RegItem>, open: map<int, Option<string>>,
                peer: Option<string>, connected: bool, whole: bool)
    requires node in nodes && node.sock in open && OwnedBy(nodes, owner, open.Keys)
    requires PeersOf(nodes - {node}, open, connected, whole)
    ensures PeersOf(nodes - {node}, open[node.sock := peer], connected, whole)
  {
    var _ := SockOf(node);
    forall n | n in nodes - {node} ensures PeerOf(n, SockOf(n), open[node.sock := peer], connected, whole) {
    }
  }

  lemma PeersLoosen(nodes: set<RegItem>, open: map<int, Option<string>>, was: bool, connected: bool, whole: bool)
    requires PeersOf(nodes, open, was, whole) && (connected ==> was)
    ensures PeersOf(nodes, open, connected, whole)
  {
  }

  /** One more node. */
  lemma JoinPeers(nodes: set<RegItem>, node: RegItem, open: map<int, Option<string>>, connected: bool, whole: bool)
    requires PeersOf(nodes - {node}, open, connected, whole) && PeerOf(node, node.sock, open, connected, whole)
    ensures PeersOf(nodes, open, connected, whole)
  {
    forall n | n in nodes ensures PeerOf(n, SockOf(n), open, connected, whole) {
      if n != node {
        assert n in nodes - {node};
      }
    }
  }

  lemma NoSocketNoOwner(nodes: set<RegItem>, node: RegItem, owner: map<int, RegItem>, open: set<int>)
    requires node in nodes && node.sock < 0 && OwnedBy(nodes - {node}, owner, open)
    ensures OwnedBy(nodes, owner, open)
  {
    forall s | s in owner ensures OwnerOf(owner, s) in nodes && owner[s].sock == s {
    }
    forall n | n in nodes && SockOf(n) >= 0 ensures n.sock in owner && owner[n.sock] == n {
    }
  }

  class Registry {
    var head: RegItem?
    var numOfClients: int
    const nn: Nanomsg
    ghost var spine: seq<RegItem>         // the nodes from head to end
    ghost var nodes: set<RegItem>
    ghost var pos: map<RegItem, int>
    ghost var owner: map<int, RegItem>    // the node of every open socket
    ghost var uncounted: nat              // nodes whose registration was cut short by a buffer
    ghost var reconnectFailed: bool       // a client that registered again could not be reconnected
    ghost var cut: bool                   // a URL did not fit its buffer

    ghost predicate Linked()
      reads this`head, this`spine, this`nodes, this`pos, nodes`next, nodes`freed
    {
      head == At(spine, 0) && nodes == pos.Keys && Placed(spine, pos) && Chained(spine, nodes)
    }

    ghost predicate Owned()
      reads this`nodes, this`owner, nodes`sock, nn`open
    {
      OwnedBy(nodes, owner, nn.open.Keys)
    }

    /** Every node's socket is connected to the URL of its last registration, unless a reconnect failed. */
    ghost predicate Peered()
      reads this`nodes, this`reconnectFailed, this`cut, nodes`sock, nodes`url, nn`open
    {
      PeersOf(nodes, nn.open, !reconnectFailed, !cut)
    }

    /** The counter misses only the nodes cut short; names are unique unless that or a failed reconnect happened. */
    ghost predicate Counted()
      reads this`numOfClients, this`uncounted, this`reconnectFailed, this`spine
    {
      numOfClients + uncounted == |spine| && (uncounted == 0 && !reconnectFailed ==> UniqueNames(spine))
    }

    ghost predicate Valid()
      reads this, nodes, nn`open
    {
      var valid := Linked() && Owned() && Peered() && Counted();
      valid
    }

    /** The node owns an open socket that is connected to the URL. */
    ghost predicate Serves(node: RegItem, url: string)
      reads this`owner, node`sock, node`url, nn`open
    {
      node.url == Trunc(url, URL_SIZE) && node.sock >= 0 && node.sock in nn.open &&
      nn.open[node.sock] == Some(url) && node.sock in owner && owner[node.sock] == node
    }

    ghost predicate OthersPeered(was: set<RegItem>, node: RegItem)
      reads this`reconnectFailed, this`cut, was`sock, was`url, nn`open
    {
      PeersOf(was - {node}, nn.open, !reconnectFailed, !cut)
    }

    lemma LeaveOneOut(node: RegItem)
      requires Peered()
      ensures OthersPeered(nodes, node)
    {
      forall n | n in nodes - {node} ensures PeerOf(n, SockOf(n), nn.open, !reconnectFailed, !cut) {
      }
    }

    constructor (works: nat -> bool)
      ensures Valid() && spine == [] && uncounted == 0 && !reconnectFailed && !cut && fresh(nn) && nn.works == works
    {
      head, numOfClients := null, 0;
      nn := new Nanomsg(works);
      spine, nodes, pos, owner, uncounted, reconnectFailed, cut := [], {}, map[], map[], 0, false, false;
    }

    /** A socket connected to the URL and its endpoint, or a negative endpoint and nothing left open. */
    method OpenConnected(url: string) returns (sock: int, rc: int)
      modifies nn
      ensures rc >= 0 <==> Connects(nn.works, old(nn.calls))
      ensures nn.calls == CallsAfter(nn.works, old(nn.calls))
      ensures rc < 0 ==> nn.open == old(nn.open)
      ensures rc >= 0 ==> sock >= 0 && sock !in old(nn.open) && nn.open == old(nn.open)[sock := Some(url)]
    {
      rc := -1;
      sock := nn.Socket();
      if sock >= 0 {
        rc := nn.Connect(sock, url);
        if rc < 0 {
          nn.Close(sock);
          assert nn.open == old(nn.open);
        }
      }
    }

    /** Opens and connects a socket and appends a node; nothing is left open when that fails. */
    method AddToList(name: string, url: string) returns (status: int)
      requires Valid() && (uncounted == 0 && !reconnectFailed ==> IsFirst(spine, name, |spine|))
      requires !cut ==> |url| < URL_SIZE
      modifies this`head, this`numOfClients, this`spine, this`nodes, this`pos, this`owner, this`uncounted
      modifies nodes`next, nn
      ensures Valid()
      ensures if Connects(nn.works, old(nn.calls)) then
                Extends(spine, old(spine), name, url) &&
                var node := spine[|old(spine)|];
                Serves(node, url) && node.sock !in old(nn.open) && nn.open == old(nn.open)[node.sock := Some(url)]
              else spine == old(spine) && status == -1 && nn.open == old(nn.open)
      ensures nn.calls == CallsAfter(nn.works, old(nn.calls))
      ensures uncounted == old(uncounted) +
              if |spine| > |old(spine)| && (|name| >= NAME_SIZE || |url| >= URL_SIZE) then 1 else 0
      ensures nodes >= old(nodes) && fresh(nodes - old(nodes))
    {
      status := -1;
      var sock, rc := OpenConnected(url);
      if rc < 0 {
        return;
      }
      OpenKeepsPeers(nodes, owner, old(nn.open), sock, Some(url), !reconnectFailed, !cut);
      var node := AddNode(name, url, sock, rc);
      status := Confirm(node, name, url, old(spine));
    }

    /** A node whose name and URL fitted their buffers is counted and acknowledged. */
    method Confirm(node: RegItem, name: string, url: string, ghost was: seq<RegItem>) returns (status: int)
      requires spine == was + [node] && node.serviceName == Trunc(name, NAME_SIZE) && node.url == Trunc(url, URL_SIZE)
      requires numOfClients + uncounted == |was|
      requires uncounted == 0 && !reconnectFailed ==> UniqueNames(was) && IsFirst(was, name, |was|)
      modifies this`numOfClients, this`uncounted
      ensures Counted()
      ensures uncounted == old(uncounted) + if |name| >= NAME_SIZE || |url| >= URL_SIZE then 1 else 0
    {
      status := -1;
      if node.serviceName == name && node.url == url {
        if uncounted == 0 && !reconnectFailed {
          AddKeepsUnique(was, node);
        }
        numOfClients := numOfClients + 1;
        var sent: bool := *;    // whether the acknowledgement went out
        status := if sent then 0 else -1;
      } else {
        uncounted := uncounted + 1;
      }
    }

    /** The node at a position of the list, with what the chain says about it. */
    lemma NodeAt(i: nat)
      requires Linked() && i < |spine|
      ensures spine[i] in nodes && spine[i].next == At(spine, i + 1) && !spine[i].freed && pos[spine[i]] == i
    {
      var _ := Nth(spine, i);
    }

    lemma OwnersAreListed()
      requires Valid()
      ensures forall s :: s in nn.open ==> s in owner && owner[s] in spine && owner[s].sock == s
      ensures forall n :: n in spine && n.sock >= 0 ==> n.sock in nn.open && owner[n.sock] == n
    {
      forall s | s in nn.open ensures s in owner && owner[s] in spine && owner[s].sock == s {
        var n := OwnerOf(owner, s);
        assert spine[pos[n]] == n;
      }
      forall n | n in spine && n.sock >= 0 ensures n.sock in nn.open && owner[n.sock] == n {
        var i: nat :| i < |spine| && spine[i] == n;
        NodeAt(i);
        var _ := SockOf(n);
      }
    }

    /** The sockets of the listed clients, with what they are connected to. */
    lemma PeersAreListed()
      requires Valid()
      ensures forall n :: n in spine ==> PeerOf(n, n.sock, nn.open, !reconnectFailed, !cut)
    {
      forall n | n in spine ensures PeerOf(n, n.sock, nn.open, !reconnectFailed, !cut) {
        var i: nat :| i < |spine| && spine[i] == n;
        NodeAt(i);
        var _ := SockOf(n);
      }
    }

    method Last() returns (temp: RegItem)
      requires Linked() && spine != []
      ensures temp == spine[|spine| - 1]
    {
      temp := head;
      ghost var i := 0;
      NodeAt(0);
      while temp.next != null
        invariant 0 <= i < |spine| && temp == spine[i] && temp.next == At(spine, i + 1)
        decreases |spine| - i
      {
        temp, i := temp.next, i + 1;
        NodeAt(i);
      }
    }

    /** Links a new node in at the end. */
    method Append(node: RegItem)
      requires Linked() && node !in nodes && node.next == null && !node.freed
      modifies this`head, this`spine, this`nodes, this`pos, nodes`next
      ensures Linked() && spine == old(spine) + [node] && nodes == old(nodes) + {node}
    {
      AddedIsPlaced(spine, pos, node);
      if head == null {
        head := node;
      } else {
        var last := Last();
        NodeAt(|spine| - 1);
        last.next := node;
      }
      spine, nodes, pos := spine + [node], nodes + {node}, pos[node := |spine|];
      forall i: nat | i < |spine|
        ensures spine[i] in nodes && spine[i].next == At(spine, i + 1) && !spine[i].freed
      {
        if i < |old(spine)| {
          var _ := Nth(old(spine), i);
        }
      }
    }

    /** Links in a new node, the owner of a socket just opened. */
    method Enlist(node: RegItem)
      requires Linked() && node !in nodes && node.next == null && !node.freed
      requires node.sock >= 0 && node.sock in nn.open && OwnedBy(nodes, owner, nn.open.Keys - {node.sock})
      modifies this`head, this`spine, this`nodes, this`pos, this`owner, nodes`next
      ensures Linked() && Owned() && spine == old(spine) + [node] && nodes == old(nodes) + {node}
      ensures node.sock in owner && owner[node.sock] == node
    {
      Append(node);
      Own(node, old(nodes), nn.open.Keys - {node.sock});
    }

    /** Makes a node, its name and URL cut to their buffers, for a socket just opened. */
    method AddNode(name: string, url: string, sock: int, rc: int) returns (node: RegItem)
      requires Linked() && sock >= 0 && sock in nn.open && OwnedBy(nodes, owner, nn.open.Keys - {sock})
      requires nn.open[sock] == Some(url) && Peered() && (!cut ==> |url| < URL_SIZE)
      modifies this`head, this`spine, this`nodes, this`pos, this`owner, nodes`next
      ensures Linked() && Owned() && Peered() && fresh(node)
      ensures spine == old(spine) + [node] && nodes == old(nodes) + {node}
      ensures node.serviceName == Trunc(name, NAME_SIZE) && node.url == Trunc(url, URL_SIZE) && node.sock == sock
      ensures sock in owner && owner[sock] == node
    {
      node := new RegItem(Trunc(name, NAME_SIZE), Trunc(url, URL_SIZE), sock, rc);
      Enlist(node);
      assert nodes - {node} == old(nodes);
      JoinPeers(nodes, node, nn.open, !reconnectFailed, !cut);
    }

    /** A socket just opened belongs to a node that had none. */
    ghost method Own(node: RegItem, was: set<RegItem>, wasOpen: set<int>)
      requires nodes == was + {node} && node !in was && node.sock >= 0
      requires nn.open.Keys == wasOpen + {node.sock} && node.sock !in wasOpen && OwnedBy(was, owner, wasOpen)
      modifies this`owner
      ensures Owned() && owner == old(owner)[node.sock := node]
    {
      var before := owner;
      owner := owner[node.sock := node];
      forall s | s in owner ensures OwnerOf(owner, s) in nodes && owner[s].sock == s {
        if s in before {
          var _ := OwnerOf(before, s);
        }
      }
      forall n | n in nodes && SockOf(n) >= 0 ensures n.sock in owner && owner[n.sock] == n {
      }
    }

    /** A socket just closed belonged to this node alone. */
    ghost method Disown(node: RegItem, was: set<RegItem>, wasOpen: set<int>)
      requires node in was && nn.open.Keys == wasOpen - {node.sock} && OwnedBy(was, owner, wasOpen)
      modifies this`owner
      ensures OwnedBy(was - {node}, owner, nn.open.Keys)
    {
      var before := owner;
      owner := owner - {node.sock};
      forall s | s in owner ensures OwnerOf(owner, s) in was - {node} && owner[s].sock == s {
        var _ := OwnerOf(before, s);
      }
      forall n | n in was - {node} && SockOf(n) >= 0 ensures n.sock in owner && owner[n.sock] == n {
        var _ := SockOf(node);
      }
    }

    /** Takes the node at position i out of the chain and frees it. */
    method Unlink(prev: RegItem?, curr: RegItem, ghost i: nat)
      requires Linked() && i < |spine| && curr == spine[i]
      requires prev == if i == 0 then null else spine[i - 1]
      modifies this`head, this`spine, this`nodes, this`pos, (if prev == null then {} else {prev})`next, curr`freed
      ensures Linked() && spine == RemoveAt(old(spine), i) && nodes == old(nodes) - {curr} && curr.freed
      ensures curr in old(nodes)
    {
      RemovedIsGone(spine, pos, i);
      NodeAt(i);
      if prev == null {
        head := curr.next;
      } else {
        NodeAt(i - 1);
        prev.next := curr.next;
      }
      curr.freed := true;
      spine, nodes, pos := RemoveAt(spine, i), nodes - {curr}, Shifted(pos, curr);
      forall k: nat | k < |spine|
        ensures spine[k] in nodes && spine[k].next == At(spine, k + 1) && !spine[k].freed
      {
        var _ := Nth(old(spine), if k < i then k else k + 1);
      }
    }

    /** The first node of this name and its predecessor, or null. */
    method Find(name: string) returns (prev: RegItem?, curr: RegItem?, ghost i: nat)
      requires Linked()
      ensures IsFirst(spine, name, i) && curr == At(spine, i) && prev == if i == 0 then null else spine[i - 1]
    {
      prev, curr, i := null, head, 0;
      while curr != null && curr.serviceName != name
        invariant 0 <= i <= |spine| && curr == At(spine, i)
        invariant prev == if i == 0 then null else spine[i - 1]
        invariant forall k: nat {:trigger Nth(spine, k)} :: k < i ==> Nth(spine, k).serviceName != name
        decreases |spine| - i
      {
        NodeAt(i);
        prev, curr, i := curr, curr.next, i + 1;
      }
    }

    /** Closes the socket of a node. */
    method Release(curr: RegItem, ghost was: set<RegItem>)
      requires curr in was && OwnedBy(was, owner, nn.open.Keys) && OthersPeered(was, curr)
      modifies this`owner, nn`open
      ensures OwnedBy(was - {curr}, owner, nn.open.Keys) && nn.open == old(nn.open) - {curr.sock}
      ensures OthersPeered(was, curr)
    {
      CloseKeepsPeers(was, curr, owner, nn.open, !reconnectFailed, !cut);
      nn.Close(curr.sock);
      Disown(curr, was, old(nn.open).Keys);
    }

    /** Takes a node out of the list and closes its socket. */
    method Drop(prev: RegItem?, curr: RegItem, ghost i: nat)
      requires Linked() && Owned() && Peered() && i < |spine| && curr == spine[i]
      requires prev == if i == 0 then null else spine[i - 1]
      modifies this`head, this`spine, this`nodes, this`pos, this`owner, nodes`next, nodes`freed, nn`open
      ensures Linked() && Owned() && Peered()
      ensures spine == RemoveAt(old(spine), i) && nodes == old(nodes) - {curr} && curr.freed
      ensures nn.open == old(nn.open) - {curr.sock}
    {
      NodeAt(i);
      if i > 0 {
        NodeAt(i - 1);
      }
      LeaveOneOut(curr);
      Unlink(prev, curr, i);
      Release(curr, old(nodes));
    }

    /** Unlinks and frees the first node of this name, closing its socket. */
    method DeleteFromList(name: string) returns (ret: int, ghost i: nat)
      requires Valid()
      modifies this`head, this`numOfClients, this`spine, this`nodes, this`pos, this`owner
      modifies nodes`next, nodes`freed, nn`open
      ensures Valid()
      ensures IsFirst(old(spine), name, i)
      ensures if i < |old(spine)| then
                ret == 0 && spine == RemoveAt(old(spine), i) && nodes == old(nodes) - {old(spine)[i]} &&
                old(spine)[i].freed && nn.open == old(nn.open) - {old(spine)[i].sock}
              else ret == -1 && spine == old(spine) && nodes == old(nodes) && nn.open == old(nn.open)
    {
      var prev: RegItem?, curr: RegItem?;
      prev, curr, i := Find(name);
      ret := -1;
      if curr == null {
        return;
      }
      Drop(prev, curr, i);
      numOfClients := numOfClients - 1;
      if uncounted == 0 && !reconnectFailed {
        RemoveKeepsUnique(old(spine), i);
      }
      ret := 0;
    }

    /** Replaces the socket of a registered client by one not connected yet, as far as the library lets it. */
    method NewSocket(temp: RegItem)
      requires Owned() && OthersPeered(nodes, temp) && temp in nodes
      modifies temp`sock, this`owner, nn
      ensures Owned() && OthersPeered(nodes, temp)
      ensures nn.calls == old(nn.calls) + 1 && (temp.sock >= 0 <==> nn.works(old(nn.calls)))
      ensures var left := old(nn.open) - {old(temp.sock)};
              if temp.sock < 0 then nn.open == left
              else temp.sock !in left && nn.open == left[temp.sock := None] &&
                   temp.sock in owner && owner[temp.sock] == temp
    {
      Release(temp, nodes);
      ghost var left := nn.open.Keys;
      temp.sock := nn.Socket();
      if temp.sock >= 0 {
        OpenKeepsPeers(nodes - {temp}, owner, old(nn.open) - {old(temp.sock)}, temp.sock, None, !reconnectFailed, !cut);
        Own(temp, nodes - {temp}, left);
      } else {
        NoSocketNoOwner(nodes, temp, owner, nn.open.Keys);
      }
    }

    /** Connects the new socket of a registered client. */
    method Attach(temp: RegItem, url: string) returns (ok: bool)
      requires Owned() && OthersPeered(nodes, temp) && temp in nodes && (!cut ==> |url| < URL_SIZE)
      requires temp.url == Trunc(url, URL_SIZE) && temp.sock >= 0 && temp.sock in nn.open && nn.open[temp.sock] == None
      modifies temp`endpoint, nn
      ensures Owned() && OthersPeered(nodes, temp) && PeerOf(temp, temp.sock, nn.open, ok, !cut)
      ensures nn.calls == old(nn.calls) + 1 && (ok <==> nn.works(old(nn.calls)))
      ensures ok ==> Serves(temp, url)
    {
      var _ := SockOf(temp);
      ok := false;
      var rc := nn.Connect(temp.sock, url);
      if rc >= 0 {
        temp.endpoint := rc;
        ok := true;
        SetPeer(nodes, temp, owner, old(nn.open), Some(url), !reconnectFailed, !cut);
      }
    }

    /**
     Gives a registered client a new socket, connected to the URL; on failure its node is left with whatever socket was
     opened.
     */
    method Reconnect(temp: RegItem, url: string) returns (ok: bool)
      requires Owned() && Peered() && temp in nodes && (!cut ==> |url| < URL_SIZE)
      modifies temp`sock, temp`endpoint, temp`url, this`owner, this`reconnectFailed, nn
      ensures Owned() && Peered() && reconnectFailed == (old(reconnectFailed) || !ok)
      ensures temp.url == Trunc(url, URL_SIZE)
      ensures ok <==> Connects(nn.works, old(nn.calls))
      ensures nn.calls == CallsAfter(nn.works, old(nn.calls))
      ensures ok ==> Serves(temp, url)
    {
      LeaveOneOut(temp);
      temp.url := Trunc(url, URL_SIZE);
      NewSocket(temp);
      ok := false;
      if temp.sock >= 0 {
        ok := Attach(temp, url);
      }
      PeersLoosen(nodes - {temp}, nn.open, !reconnectFailed, ok && !reconnectFailed, !cut);
      JoinPeers(nodes, temp, nn.open, ok && !reconnectFailed, !cut);
      reconnectFailed := reconnectFailed || !ok;
    }

    /** The clients of a name. */
    ghost function Namesakes(name: string): set<RegItem>
      reads this`nodes
    {
      set n | n in nodes && n.serviceName == name
    }

    /** Walks the list for a client of this name that can be reconnected. */
    method ReconnectByName(name: string, url: string) returns (matched: bool, ghost at: nat)
      requires Linked() && Owned() && Peered() && (!cut ==> |url| < URL_SIZE)
      modifies Namesakes(name)`sock, Namesakes(name)`endpoint, Namesakes(name)`url
      modifies this`owner, this`reconnectFailed, nn
      ensures Owned() && Peered() && (at, nn.calls) == TryFrom(spine, name, 0, nn.works, old(nn.calls))
      ensures matched <==> at < |spine|
      ensures reconnectFailed == (old(reconnectFailed) || !IsFirst(spine, name, at))
      ensures matched ==> Serves(spine[at], url)
    {
      matched, at := false, 0;
      var temp := head;
      ghost var was, end := reconnectFailed, TryFrom(spine, name, 0, nn.works, nn.calls);
      while temp != null
        invariant Owned() && Peered() && at <= |spine| && temp == At(spine, at) && !matched
        invariant end == TryFrom(spine, name, at, nn.works, nn.calls)
        invariant reconnectFailed == (was || !NoneBefore(spine, name, at))
        decreases |spine| - at
      {
        NodeAt(at);
        NoneBeforeNext(spine, name, at);
        if temp.serviceName == name {
          matched := Reconnect(temp, url);
          if matched {
            break;
          }
        }
        temp, at := temp.next, at + 1;
      }
    }

    /** The search for a client of the name, when any are counted. */
    method Rejoin(name: string, url: string) returns (matched: bool, ghost at: nat)
      requires Valid() && (!cut ==> |url| < URL_SIZE)
      modifies Namesakes(name)`sock, Namesakes(name)`endpoint, Namesakes(name)`url
      modifies this`owner, this`reconnectFailed, nn
      ensures Valid() && (at, nn.calls) == WalkFrom(spine, numOfClients, name, nn.works, old(nn.calls))
      ensures matched <==> at < |spine|
      ensures reconnectFailed == (old(reconnectFailed) || (numOfClients != 0 && !IsFirst(spine, name, at)))
      ensures matched ==> Serves(spine[at], url)
    {
      matched, at := false, |spine|;
      if numOfClients != 0 {
        matched, at := ReconnectByName(name, url);
      }
    }

    /**
     A registration: the first client of this name that can be reconnected is; otherwise a node is added.
     Clients of other names are untouched.
     */
    method Register(name: string, url: string) returns (matched: bool, ghost at: nat)
      requires Valid()
      modifies this, nodes`next, Namesakes(name)`sock, Namesakes(name)`endpoint, Namesakes(name)`url, nn
      ensures Valid()
      ensures var t := WalkFrom(old(spine), old(numOfClients), name, nn.works, old(nn.calls));
              at == t.0 && (matched <==> at < |old(spine)|) &&
              (if matched || !Connects(nn.works, t.1) then spine == old(spine)
               else Extends(spine, old(spine), name, url)) &&
              nn.calls == (if matched then t.1 else CallsAfter(nn.works, t.1)) &&
              reconnectFailed ==
                (old(reconnectFailed) || (old(numOfClients) != 0 && !IsFirst(old(spine), name, at)))
      // the client's socket is new, or its own again, and connected to the URL
      ensures at < |spine| ==> Serves(spine[at], url)
      ensures matched ==> spine[at].serviceName == name
      ensures cut == (old(cut) || |url| >= URL_SIZE)
      ensures uncounted == old(uncounted) +
              if |spine| > |old(spine)| && (|name| >= NAME_SIZE || |url| >= URL_SIZE) then 1 else 0
      ensures nodes >= old(nodes) && fresh(nodes - old(nodes))
      ensures forall n :: n in old(nodes) && n.serviceName != name ==> n.sock == old(n.sock) && n.url == old(n.url)
    {
      cut := cut || |url| >= URL_SIZE;
      matched, at := Rejoin(name, url);
      if !matched || numOfClients == 0 {
        var _ := AddToList(name, url);
      }
    }
  }
}
