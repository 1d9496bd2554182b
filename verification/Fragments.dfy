/**
 Sending a message as WebSocket fragments and joining fragments into messages (section 5.4 of RFC 6455).
 The sender cuts a buffer into pieces of at most 60 KiB; the receiver joins fragments until one is final.
 */
module Fragments {
  import opened Wrappers

  const MAX_SEND_SIZE := 60 * 1024

  newtype Byte = b: int | 0 <= b < 256

  type Bytes = seq<Byte>

  datatype OpCode = Binary | Continuation

  datatype Frame = Frame(opcode: OpCode, fin: bool, payload: Bytes)

  // ---------- the sender ----------

  /** The frames of a buffer from some point on, when every send succeeds. */
  function Frames(rest: Bytes, opcode: OpCode): seq<Frame>
    decreases |rest|
  {
    if rest == [] then []
    else if |rest| <= MAX_SEND_SIZE then [Frame(opcode, true, rest)]
    else [Frame(opcode, false, rest[..MAX_SEND_SIZE])] + Frames(rest[MAX_SEND_SIZE..], Continuation)
  }

  /** The payloads of a list of frames, joined. */
  function Payload(frames: seq<Frame>): Bytes {
    if frames == [] then [] else frames[0].payload + Payload(frames[1..])
  }

  /** The length of the next piece of what is left. */
  function PieceLength(rest: Bytes): nat {
    if |rest| > MAX_SEND_SIZE then MAX_SEND_SIZE else |rest|
  }

  lemma FramesStep(rest: Bytes, opcode: OpCode)
    requires rest != []
    ensures var len := PieceLength(rest);
            Frames(rest, opcode) == [Frame(opcode, len == |rest|, rest[..len])] + Frames(rest[len..], Continuation)
  {
    if |rest| <= MAX_SEND_SIZE {
      assert rest[..|rest|] == rest;
    }
  }

  lemma PayloadSnoc(frames: seq<Frame>, f: Frame)
    ensures Payload(frames + [f]) == Payload(frames) + f.payload
  {
    PayloadAppend(frames, [f]);
    assert Payload([f]) == f.payload + Payload([]);
  }

  lemma Advance(buffer: Bytes, sent: nat, len: nat)
    requires sent + len <= |buffer|
    ensures buffer[..sent + len] == buffer[..sent] + buffer[sent..][..len]
    ensures buffer[sent..][len..] == buffer[sent + len..]
  {
  }

  /**
   Sends a buffer; `ok(i)` says whether frame i went out whole, at once or after a flush, and the sending stops
   at the first that did not. Frames handed to the connection are collected in `frames`; the frame that failed
   is not among them.
   */
  method SendResponse(buffer: Bytes, ok: nat -> bool) returns (sent: nat, frames: seq<Frame>)
    ensures frames <= Frames(buffer, Binary)
    ensures sent <= |buffer| && Payload(frames) == buffer[..sent]
    ensures sent == |buffer| <==> forall i :: 0 <= i < |Frames(buffer, Binary)| ==> ok(i)
    ensures sent == |buffer| ==> frames == Frames(buffer, Binary)
    ensures sent < |buffer| ==> !ok(|frames|) && forall i :: 0 <= i < |frames| ==> ok(i)
  {
    ghost var all := Frames(buffer, Binary);
    var cp, opcode := buffer, Binary;
    sent, frames := 0, [];
    while cp != []
      invariant sent + |cp| == |buffer| && cp == buffer[sent..]
      invariant all == frames + Frames(cp, opcode)
      invariant Payload(frames) == buffer[..sent]
      invariant forall i :: 0 <= i < |frames| ==> ok(i)
      decreases |cp|
    {
      var len := PieceLength(cp);
      var frame := Frame(opcode, len == |cp|, cp[..len]);
      FramesStep(cp, opcode);
      if !ok(|frames|) {
        assert all[|frames|] == frame;
        return;
      }
      PayloadSnoc(frames, frame);
      Advance(buffer, sent, len);
      assert all == frames + [frame] + Frames(cp[len..], Continuation);
      frames := frames + [frame];
      cp, sent, opcode := cp[len..], sent + len, Continuation;
    }
  }

  lemma {:induction false} PayloadAppend(a: seq<Frame>, b: seq<Frame>)
    ensures Payload(a + b) == Payload(a) + Payload(b)
  {
    if a == [] {
      assert a + b == b;
    } else {
      assert (a + b)[0] == a[0] && (a + b)[1..] == a[1..] + b;
      PayloadAppend(a[1..], b);
    }
  }

  /** Section 5.4: a first frame with the data opcode, then continuations, FIN on the last frame only. */
  predicate WellFragmented(frames: seq<Frame>) {
    forall i :: 0 <= i < |frames| ==>
      (frames[i].opcode.Binary? <==> i == 0) && (frames[i].fin <==> i == |frames| - 1) &&
      0 < |frames[i].payload| <= MAX_SEND_SIZE
  }

  lemma {:induction false} TailShape(rest: Bytes)
    ensures var fs := Frames(rest, Continuation);
            (rest != [] ==> fs != []) && Payload(fs) == rest &&
            forall i :: 0 <= i < |fs| ==>
              fs[i].opcode.Continuation? && (fs[i].fin <==> i == |fs| - 1) && 0 < |fs[i].payload| <= MAX_SEND_SIZE
    decreases |rest|
  {
    if rest != [] {
      if |rest| <= MAX_SEND_SIZE {
        assert Payload(Frames(rest, Continuation)) == rest + Payload([]);
      } else {
        var head := Frame(Continuation, false, rest[..MAX_SEND_SIZE]);
        var tail := Frames(rest[MAX_SEND_SIZE..], Continuation);
        TailShape(rest[MAX_SEND_SIZE..]);
        assert Frames(rest, Continuation) == [head] + tail;
        assert ([head] + tail)[1..] == tail && rest == rest[..MAX_SEND_SIZE] + rest[MAX_SEND_SIZE..];
      }
    }
  }

  /** The frames of a buffer are well fragmented and carry exactly the buffer. */
  lemma FramesAreWellFragmented(buffer: Bytes)
    ensures WellFragmented(Frames(buffer, Binary)) && Payload(Frames(buffer, Binary)) == buffer
  {
    if buffer != [] {
      if |buffer| <= MAX_SEND_SIZE {
        assert Payload(Frames(buffer, Binary)) == buffer + Payload([]);
      } else {
        var head := Frame(Binary, false, buffer[..MAX_SEND_SIZE]);
        var tail := Frames(buffer[MAX_SEND_SIZE..], Continuation);
        TailShape(buffer[MAX_SEND_SIZE..]);
        assert Frames(buffer, Binary) == [head] + tail;
        assert ([head] + tail)[1..] == tail && buffer == buffer[..MAX_SEND_SIZE] + buffer[MAX_SEND_SIZE..];
      }
    }
  }

  // ---------- the receiver ----------

  /** A frame is a fragment when it is not final or when it continues one. */
  predicate IsFragment(f: Frame) {
    !f.fin || f.opcode.Continuation?
  }

  /** The joined fragments so far, if any, and the messages queued. */
  datatype Inbox = Inbox(previous: Option<Bytes>, queue: seq<Bytes>)

  function JoinMsg(previous: Option<Bytes>, payload: Bytes): Bytes {
    if previous.Some? then previous.value + payload else payload
  }

  /** What receiving one frame does. */
  function Receive(box: Inbox, f: Frame): Inbox {
    var previous := if IsFragment(f) then Some(JoinMsg(box.previous, f.payload)) else box.previous;
    if IsFragment(f) && !f.fin then Inbox(previous, box.queue)
    else Inbox(None, box.queue + [if previous.Some? then previous.value else f.payload])
  }

  function ReceiveAll(box: Inbox, frames: seq<Frame>): Inbox
    decreases |frames|
  {
    if frames == [] then box else ReceiveAll(Receive(box, frames[0]), frames[1..])
  }

  class Listener {
    var previous: Option<Bytes>
    var queue: seq<Bytes>

    ghost function Box(): Inbox
      reads this
    {
      Inbox(previous, queue)
    }

    constructor ()
      ensures Box() == Inbox(None, [])
    {
      previous, queue := None, [];
    }

    /** The message handler of the connection. */
    method OnMessage(f: Frame)
      modifies this
      ensures Box() == Receive(old(Box()), f)
    {
      if IsFragment(f) {
        previous := Some(JoinMsg(previous, f.payload));
        if !f.fin {
          return;
        }
      }
      if previous.Some? {
        queue := queue + [previous.value];
      } else {
        queue := queue + [f.payload];
      }
      previous := None;
    }
  }

  lemma {:induction false} ReceiveAppend(box: Inbox, a: seq<Frame>, b: seq<Frame>)
    ensures ReceiveAll(box, a + b) == ReceiveAll(ReceiveAll(box, a), b)
    decreases |a|
  {
    if a == [] {
      assert a + b == b;
    } else {
      assert (a + b)[1..] == a[1..] + b;
      ReceiveAppend(Receive(box, a[0]), a[1..], b);
    }
  }

  /** Continuation frames of `rest` complete the message that `sofar` began. */
  lemma {:induction false} ReceiveTail(queue: seq<Bytes>, sofar: Bytes, rest: Bytes)
    requires rest != []
    ensures ReceiveAll(Inbox(Some(sofar), queue), Frames(rest, Continuation)) == Inbox(None, queue + [sofar + rest])
    decreases |rest|
  {
    var box, frames := Inbox(Some(sofar), queue), Frames(rest, Continuation);
    if |rest| <= MAX_SEND_SIZE {
      assert frames[1..] == [];
      assert ReceiveAll(box, frames) == ReceiveAll(Receive(box, frames[0]), []);
    } else {
      var tail := Frames(rest[MAX_SEND_SIZE..], Continuation);
      assert frames[1..] == tail;
      ReceiveTail(queue, sofar + rest[..MAX_SEND_SIZE], rest[MAX_SEND_SIZE..]);
      assert sofar + rest == sofar + rest[..MAX_SEND_SIZE] + rest[MAX_SEND_SIZE..];
    }
  }

  lemma ReceiveShort(box: Inbox, msg: Bytes)
    requires 0 < |msg| <= MAX_SEND_SIZE
    ensures ReceiveAll(box, Frames(msg, Binary)) ==
            Inbox(None, box.queue + [if box.previous.Some? then box.previous.value else msg])
  {
    var frames := Frames(msg, Binary);
    assert frames[1..] == [];
    assert ReceiveAll(box, frames) == ReceiveAll(Receive(box, frames[0]), []);
  }

  lemma ReceiveLong(box: Inbox, msg: Bytes)
    requires |msg| > MAX_SEND_SIZE
    ensures ReceiveAll(box, Frames(msg, Binary)) == Inbox(None, box.queue + [JoinMsg(box.previous, msg)])
  {
    var head, rest := msg[..MAX_SEND_SIZE], msg[MAX_SEND_SIZE..];
    var first := JoinMsg(box.previous, head);
    FramesStep(msg, Binary);
    assert Frames(msg, Binary)[1..] == Frames(rest, Continuation);
    ReceiveTail(box.queue, first, rest);
    JoinSplit(box.previous, msg, MAX_SEND_SIZE);
  }

  lemma JoinSplit(previous: Option<Bytes>, msg: Bytes, k: nat)
    requires k <= |msg|
    ensures JoinMsg(previous, msg[..k]) + msg[k..] == JoinMsg(previous, msg)
  {
    assert msg == msg[..k] + msg[k..];
    if previous.Some? {
      assert (previous.value + msg[..k]) + msg[k..] == previous.value + (msg[..k] + msg[k..]);
    }
  }

  /** One message, whatever its length, arrives whole; an empty one sends no frame and is not seen. */
  lemma ReceiveOne(queue: seq<Bytes>, msg: Bytes)
    ensures ReceiveAll(Inbox(None, queue), Frames(msg, Binary)) ==
            Inbox(None, queue + if msg == [] then [] else [msg])
  {
    if |msg| > MAX_SEND_SIZE {
      ReceiveLong(Inbox(None, queue), msg);
    } else if msg != [] {
      ReceiveShort(Inbox(None, queue), msg);
    }
  }

  /** The frames of several messages sent one after the other. */
  function AllFrames(msgs: seq<Bytes>): seq<Frame> {
    if msgs == [] then [] else AllFrames(msgs[..|msgs| - 1]) + Frames(msgs[|msgs| - 1], Binary)
  }

  function NonEmpty(msgs: seq<Bytes>): seq<Bytes> {
    if msgs == [] then []
    else
      var last := msgs[|msgs| - 1];
      NonEmpty(msgs[..|msgs| - 1]) + if last == [] then [] else [last]
  }

  /** Round trip: feeding the frames of any messages to the listener queues exactly the non-empty ones, in order. */
  lemma {:induction false} RoundTrip(msgs: seq<Bytes>)
    ensures ReceiveAll(Inbox(None, []), AllFrames(msgs)) == Inbox(None, NonEmpty(msgs))
  {
    if msgs != [] {
      var n := |msgs| - 1;
      RoundTrip(msgs[..n]);
      ReceiveAppend(Inbox(None, []), AllFrames(msgs[..n]), Frames(msgs[n], Binary));
      ReceiveOne(NonEmpty(msgs[..n]), msgs[n]);
    }
  }

  /**
   A part left over from a message that broke off spoils the next one: a message of one frame is dropped and the
   part is queued in its place, a longer one is queued with the part in front.
   */
  lemma PendingPartSpoils(part: Bytes, queue: seq<Bytes>, msg: Bytes)
    requires msg != []
    ensures ReceiveAll(Inbox(Some(part), queue), Frames(msg, Binary)) ==
            Inbox(None, queue + [if |msg| <= MAX_SEND_SIZE then part else part + msg])
  {
    if |msg| > MAX_SEND_SIZE {
      ReceiveLong(Inbox(Some(part), queue), msg);
    } else {
      ReceiveShort(Inbox(Some(part), queue), msg);
    }
  }

  // ---------- whatever frames arrive ----------

  /** The frames since the last final one. */
  function Rest(frames: seq<Frame>): seq<Frame> {
    if frames == [] || frames[|frames| - 1].fin then []
    else Rest(frames[..|frames| - 1]) + [frames[|frames| - 1]]
  }

  /**
   What a final frame queues, after the frames since the last one: a continuation ends what they began, another frame
   is queued alone if there are none, and is dropped for them if there are some.
   */
  function Message(rest: seq<Frame>, last: Frame): Bytes {
    if rest == [] || last.opcode.Continuation? then Payload(rest) + last.payload else Payload(rest)
  }

  function Messages(frames: seq<Frame>): seq<Bytes> {
    if frames == [] then []
    else
      var front, last := frames[..|frames| - 1], frames[|frames| - 1];
      Messages(front) + if last.fin then [Message(Rest(front), last)] else []
  }

  lemma ReceiveSnoc(frames: seq<Frame>, f: Frame)
    ensures ReceiveAll(Inbox(None, []), frames + [f]) == Receive(ReceiveAll(Inbox(None, []), frames), f)
  {
    ReceiveAppend(Inbox(None, []), frames, [f]);
    var box := ReceiveAll(Inbox(None, []), frames);
    assert ReceiveAll(box, [f]) == ReceiveAll(Receive(box, f), [f][1..]);
  }

  function PartOf(rest: seq<Frame>): Option<Bytes> {
    if rest == [] then None else Some(Payload(rest))
  }

  lemma ReceiveNext(rest: seq<Frame>, queue: seq<Bytes>, f: Frame)
    ensures Receive(Inbox(PartOf(rest), queue), f) ==
            if f.fin then Inbox(None, queue + [Message(rest, f)]) else Inbox(PartOf(rest + [f]), queue)
  {
    PayloadSnoc(rest, f);
    assert Payload([]) == [] && [] + f.payload == f.payload;
  }

  /** Any frames at all: one message for each final frame, and the part since the last one waits. */
  lemma {:induction false} AnyFrames(frames: seq<Frame>)
    ensures ReceiveAll(Inbox(None, []), frames) ==
            Inbox(PartOf(Rest(frames)), Messages(frames))
  {
    if frames != [] {
      var n := |frames| - 1;
      var front, last := frames[..n], frames[n];
      assert frames == front + [last];
      AnyFrames(front);
      ReceiveSnoc(front, last);
      ReceiveNext(Rest(front), Messages(front), last);
    }
  }
}
