/**
 The linked-list message queue that the program writes out for the CRUD, upstream and downstream queues.
 A producer appends at the end by walking the `next` pointers and signals only when the queue was empty;
 a consumer takes the head.
 */
module MsgQueue {
  class Node<T> {
    const msg: T
    var next: Node?<T>

    constructor (msg: T)
      ensures this.msg == msg && next == null
    {
      this.msg := msg;
      next := null;
    }
  }

  class Queue<T> {
    var head: Node?<T>
    ghost var spine: seq<Node<T>>   // the nodes from head to end

    /** The node at a position, null past the end. */
    static ghost function At(spine: seq<Node<T>>, i: nat): Node?<T> {
      if i < |spine| then spine[i] else null
    }

    ghost predicate Valid()
      reads this, spine
    {
      head == At(spine, 0) &&
      (forall i :: 0 <= i < |spine| ==> spine[i].next == At(spine, i + 1)) &&
      (forall i, j :: 0 <= i < j < |spine| ==> spine[i] != spine[j])
    }

    /** The queued messages, oldest first. */
    ghost function Contents(): (s: seq<T>)
      reads this, spine
    {
      seq(|spine|, i requires 0 <= i < |spine| reads this, spine => spine[i].msg)
    }

    constructor ()
      ensures Valid() && Contents() == [] && spine == []
    {
      head, spine := null, [];
    }

    method Append(m: T) returns (signal: bool)
      requires Valid()
      modifies this, spine
      ensures Valid() && fresh(set n | n in spine && n !in old(spine))
      ensures Contents() == old(Contents()) + [m]
      ensures signal <==> old(Contents()) == []
    {
      var node := new Node(m);
      if head == null {
        head := node;
        signal := true;
      } else {
        var temp := head;
        ghost var i := 0;
        while temp.next != null
          invariant 0 <= i < |spine| && temp == spine[i]
          decreases |spine| - i
        {
          assert temp.next == At(spine, i + 1);
          temp := temp.next;
          i := i + 1;
        }
        temp.next := node;
        signal := false;
      }
      spine := spine + [node];
    }

    method Pop() returns (m: T)
      requires Valid() && Contents() != []
      modifies this
      ensures Valid()
      ensures old(Contents()) == [m] + Contents()
    {
      assert |Contents()| == |spine| && head.next == At(spine, 1);
      m := head.msg;
      head := head.next;
      spine := spine[1..];
    }
  }
}
