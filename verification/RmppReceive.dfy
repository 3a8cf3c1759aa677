// The receiving side of one RMPP transfer: Go-Back-N acceptance, acknowledgement, delivery.
module RmppReceive {
  import opened RmppSizes
  import opened RmppSar
  import opened RmppHeader
  import opened RmppMessages

  // A receive context as a value.
  datatype Ctx = Ctx(sa: bool, expected: nat, rbuf: seq<Mad>)

  const FRESH: Ctx := Ctx(false, 1, [])

  datatype Reply = NoReply | AckOf(seg: nat, newWindow: nat) | AbortBadLen | StopNoMemory

  datatype Status = Success | RemoteError | Error | InsufficientMemory

  // Overrun: joining the blocks would leave their buffers.
  datatype Delivery = NotYet | Whole(data: seq<Byte>) | Overrun

  datatype Result = Result(ctx: Ctx, reply: Reply, status: Status, delivery: Delivery)

  // The joined blocks, with the transaction id of this node's own request.
  function Assembled(c: Ctx, size: nat, tid: nat): Delivery
  {
    if HdrSize(c.sa) <= size && Holdable(c.rbuf, HdrSize(c.sa), DataSize(c.sa), size - HdrSize(c.sa)) then
      Whole(WithTid(Joined(c.rbuf, HdrSize(c.sa), DataSize(c.sa), size), tid))
    else Overrun
  }

  lemma AssembledWhole(c: Ctx, size: nat, tid: nat)
    requires !Assembled(c, size, tid).Overrun?
    ensures Assembled(c, size, tid).Whole?
  {
  }

  // The acknowledgement echoes the segment just received, in order or not.
  function AckFor(c: Ctx, mad: Mad, window: nat): Reply
    requires c.expected + window >= 1
  {
    AckOf(mad.seg, c.expected + window - 1)
  }

  // The size of the message once its last segment has been stored.
  function FinalSize(c: Ctx): nat
    requires c.rbuf != []
  {
    var size := FromFirst(c.sa, c.rbuf[0].paylen, |c.rbuf|);
    if size == 0 then FromLast(c.sa, c.rbuf[|c.rbuf| - 1].paylen, |c.rbuf|) else size
  }

  // One MAD for this context, of the transaction started as tid; store and room say whether memory
  // was there for the segment and for the whole message.
  function Received(c: Ctx, mad: Mad, window: nat, tid: nat, store: bool, room: bool): Result
    requires c.expected + window >= 1
  {
    if mad.kind == Ack then Result(c, NoReply, Success, NotYet)
    else if mad.kind == Abort || mad.kind == Stop then Result(c, NoReply, RemoteError, NotYet)
    else if mad.seg != c.expected then Result(c, AckFor(c, mad, window), Success, NotYet)
    else if !store then Result(c, StopNoMemory, InsufficientMemory, NotYet)
    else
      var n := Ctx(c.sa || mad.sa, mad.seg + 1, c.rbuf + [mad]);
      if mad.last != LengthReached(n.sa, n.rbuf[0].paylen, |n.rbuf|, mad.last) then
        Result(n, AbortBadLen, Error, NotYet)
      else if !mad.last then Result(n, AckFor(n, mad, window), Success, NotYet)
      else if !room then Result(n, AckFor(n, mad, window), InsufficientMemory, NotYet)
      else Result(n.(rbuf := []), AckFor(n, mad, window), Success, Assembled(n, FinalSize(n), tid))
  }

  lemma DeliversOnSuccess(c: Ctx, mad: Mad, window: nat, tid: nat, store: bool, room: bool)
    requires c.expected + window >= 1
    ensures (var r := Received(c, mad, window, tid, store, room); r.delivery != NotYet ==> r.status == Success)
  {
  }

  // osmv_rmpp_recv_ctx_t
  class RecvCtx {
    var sa: bool
    var expected: nat
    const rbuf: MadList

    constructor ()
      ensures View() == FRESH && fresh(rbuf)
    {
      sa, expected := false, 1;
      rbuf := new MadList();
    }

    function View(): Ctx
      reads this, rbuf
    {
      Ctx(sa, expected, rbuf.items)
    }

    // osmv_rmpp_recv_ctx_store_mad_seg
    method StoreMadSeg(mad: Mad, memory: bool) returns (ok: bool)
      modifies this`sa, rbuf
      ensures ok == memory
      ensures View() == if ok then Ctx(old(sa) || mad.sa, old(expected), old(rbuf.items) + [mad]) else old(View())
    {
      ok := memory;
      if ok {
        rbuf.InsertTail(mad);
        if mad.sa {
          sa := true;
        }
      }
    }

    // __osmv_dispatch_accept_seg
    method AcceptSeg(mad: Mad, memory: bool) returns (inOrder: bool, stored: bool)
      modifies this, rbuf
      ensures inOrder <==> mad.seg == old(expected)
      ensures stored <==> inOrder && memory
      ensures View() == if stored then Ctx(old(sa) || mad.sa, mad.seg + 1, old(rbuf.items) + [mad]) else old(View())
    {
      inOrder, stored := mad.seg == expected, false;
      if inOrder {
        stored := StoreMadSeg(mad, memory);
        if stored {
          expected := mad.seg + 1;
        }
      }
    }

    // __osmv_dispatch_rmpp_rcv
    method Receive(mad: Mad, window: nat, tid: nat, store: bool, room: bool)
      returns (reply: Reply, status: Status, message: array?<Byte>)
      requires window >= 1
      requires !Received(View(), mad, window, tid, true, true).delivery.Overrun?
      modifies this, rbuf
      ensures var r := Received(old(View()), mad, window, tid, store, room);
        && View() == r.ctx && reply == r.reply && status == r.status
        && (message == null <==> r.delivery == NotYet)
        && (message != null ==> r.delivery == Whole(message[..]))
      ensures message != null ==> fresh(message)
    {
      hide Assembled, FromLast, Wrap;
      reply, status, message := NoReply, Success, null;
      if mad.kind == Ack {
        return;
      }
      if mad.kind == Abort || mad.kind == Stop {
        status := RemoteError;
        return;
      }
      var inOrder, stored := AcceptSeg(mad, store);
      if !inOrder {
        reply := AckOf(mad.seg, expected + window - 1);
        return;
      }
      if !stored {
        reply, status := StopNoMemory, InsufficientMemory;
        return;
      }
      var isLast1 := mad.last;
      var isLast2 := isLast1;
      var size := FromFirst(sa, rbuf.items[0].paylen, |rbuf.items|);
      if size > 0 {
        isLast2 := CurBytes(sa, |rbuf.items|) >= size;
      }
      if isLast1 != isLast2 {
        reply, status := AbortBadLen, Error;
        return;
      }
      reply := AckOf(mad.seg, expected + window - 1);
      if !isLast1 {
        return;
      }
      if size == 0 {
        size := FromLast(sa, rbuf.items[|rbuf.items| - 1].paylen, |rbuf.items|);
      }
      if !room {
        status := InsufficientMemory;
        return;
      }
      AssembledWhole(View(), size, tid);
      message := Reassemble(size, tid);
    }

    // osmv_rmpp_recv_ctx_reassemble_arbt_mad into a new buffer, and the request's transaction id
    method Reassemble(size: nat, tid: nat) returns (message: array<Byte>)
      requires Assembled(View(), size, tid).Whole?
      modifies rbuf
      ensures fresh(message) && rbuf.items == [] && Assembled(old(View()), size, tid) == Whole(message[..])
    {
      message := new Byte[size];
      var sar := new Sar(message, size, sa);
      sar.Reassemble(rbuf);
      assert message[..size] == message[..];
      PutTid(message, tid);
    }
  }

  // ---------- what a context holds ----------

  // Exactly segments 1..expected - 1 of the message, in order.
  ghost predicate InOrder(c: Ctx, m: Message)
  {
    && Sendable(m) && 1 <= c.expected <= m.Total()
    && c.rbuf == Segs(m, c.expected - 1)
    && (c.sa <==> c.expected > 1 && m.sa)
  }

  lemma FreshInOrder(m: Message)
    requires Sendable(m)
    ensures InOrder(FRESH, m)
  {
    NumSegsCeil(m.sa, |m.bytes|);
  }

  // Whatever segment of the message arrives: the length check never objects, only the expected
  // segment changes the context, delivery happens only at the last one, and it delivers the
  // message as it went onto the wire, with the given transaction id.
  lemma ReceiveStep(c: Ctx, m: Message, k: nat, window: nat, tid: nat, store: bool, room: bool)
    requires InOrder(c, m) && 1 <= k <= m.Total() && window >= 1
    ensures (var r := Received(c, Seg(m, k), window, tid, store, room);
      && r.reply != AbortBadLen && r.delivery != Overrun
      && (r.status == Success ==> r.reply == AckOf(k, r.ctx.expected + window - 1))
      && (store && room ==> r.status == Success)
      && (k != c.expected ==> r.ctx == c && r.status == Success && r.delivery == NotYet)
      && (k == c.expected && r.status == Success ==> r.ctx.expected == k + 1)
      && (r.status == Success && r.delivery == NotYet ==> InOrder(r.ctx, m))
      && (r.delivery != NotYet ==> k == c.expected == m.Total() && r.delivery == Whole(Delivered(m, tid)))
      && (k == c.expected == m.Total() && store && room ==> r.delivery == Whole(Delivered(m, tid))))
  {
    hide NumSegs, Paylen, SegBlock, LengthReached, FromFirst, FromLast, Joined, Holdable, CurBytes, OnWire,
      Delivered, SegFields, WithTid, Written;
    if k == c.expected && store {
      var n := Ctx(c.sa || m.sa, k + 1, c.rbuf + [Seg(m, k)]);
      assert n.rbuf == Segs(m, k) && n.sa == m.sa;
      SegsAt(m, k, 1);
      LastTestExact(m.sa, |m.bytes|, k);
      if k == m.Total() {
        Delivers(n, m, tid);
      }
    }
  }

  // A stray ACK is dropped; an ABORT or a STOP ends the transfer with a remote error; neither is
  // answered.
  lemma ControlVerdict(c: Ctx, mad: Mad, window: nat, tid: nat, store: bool, room: bool)
    requires c.expected + window >= 1 && mad.kind != Data
    ensures (var r := Received(c, mad, window, tid, store, room);
      && r.ctx == c && r.reply == NoReply && r.delivery == NotYet
      && r.status == if mad.kind == Ack then Success else RemoteError)
  {
  }

  // What can go wrong with the expected segment: without memory to store it the sender is told to
  // stop and the context is as before; without memory for the whole message the transfer fails.
  lemma MemoryFails(c: Ctx, m: Message, k: nat, window: nat, tid: nat, room: bool)
    requires InOrder(c, m) && 1 <= k <= m.Total() && k == c.expected && window >= 1
    ensures Received(c, Seg(m, k), window, tid, false, room) == Result(c, StopNoMemory, InsufficientMemory, NotYet)
    ensures k == m.Total() ==> (var r := Received(c, Seg(m, k), window, tid, true, false);
      r.status == InsufficientMemory && r.delivery == NotYet)
  {
    hide NumSegs, Paylen, SegBlock, LengthReached, FromFirst, FromLast, SegFields, Written;
    var n := Ctx(c.sa || m.sa, k + 1, c.rbuf + [Seg(m, k)]);
    assert n.rbuf == Segs(m, k) && n.sa == m.sa;
    SegsAt(m, k, 1);
    LastTestExact(m.sa, |m.bytes|, k);
  }

  // A LAST flag where the message does not end, or none where it does: the sender is told so, and
  // the transfer fails.
  lemma BadLength(c: Ctx, m: Message, k: nat, window: nat, tid: nat, room: bool)
    requires InOrder(c, m) && 1 <= k <= m.Total() && k == c.expected && window >= 1
    ensures (var s := Seg(m, k); var r := Received(c, s.(last := !s.last), window, tid, true, room);
      r.reply == AbortBadLen && r.status == Error && r.delivery == NotYet)
  {
    hide Paylen, SegBlock, FromLast, SegFields, Written, CurBytes;
    var s := Seg(m, k);
    var n := Ctx(c.sa || m.sa, k + 1, c.rbuf + [s.(last := !s.last)]);
    if k > 1 {
      SegsAt(m, k - 1, 1);
    }
    assert n.rbuf[0].paylen == Paylen(m.sa, |m.bytes|, 1) && n.sa == m.sa && |n.rbuf| == k;
    Advertised(m, k);
    LastTestExact(m.sa, |m.bytes|, k);
  }

  // The first segment always advertises a length.
  lemma Advertised(m: Message, k: nat)
    requires Sendable(m) && 1 <= k <= m.Total()
    ensures FromFirst(m.sa, Paylen(m.sa, |m.bytes|, 1), k) > 0
  {
    hide NumSegs, Paylen;
    NumSegsCeil(m.sa, |m.bytes|);
    Paylens(m.sa, |m.bytes|);
    var n, p := m.Total(), Paylen(m.sa, |m.bytes|, 1);
    if m.sa {
      assert p == |m.bytes| - 56 + n * 20 && p < U32;
      assert p - k * 20 + 56 >= 56;
      assert FromFirst(true, p, k) == p - k * 20 + 56;
    } else {
      assert n == 1 ==> p == |m.bytes| - 36;
    }
  }

  // With every segment stored, the size is the message's and joining the blocks restores it.
  lemma Delivers(n: Ctx, m: Message, tid: nat)
    requires Fits(m.sa, |m.bytes|) && (m.sa || |m.bytes| > MAD_RMPP_HDR_SIZE)
    requires n.rbuf == Segs(m, m.Total()) && m.Total() >= 1 && n.sa == m.sa
    ensures n.rbuf != [] && Assembled(n, FinalSize(n), tid) == Whole(Delivered(m, tid))
  {
    SegsAt(m, m.Total(), 1);
    SegsAt(m, m.Total(), m.Total());
    SizesAgree(m.sa, |m.bytes|);
    RoundTrip(m);
    hide NumSegs, Paylen, SegBlock, FromFirst, FromLast, Joined, Holdable, Segs, OnWire, WithTid, Written;
    assert FinalSize(n) == |m.bytes|;
  }

  // ---------- when joining leaves its buffers ----------

  // For stored blocks of full size: exactly when the size worked out is short of a header, or is
  // not one that needs all of the blocks.
  lemma OverrunExactly(c: Ctx, size: nat, tid: nat)
    requires forall i :: 0 <= i < |c.rbuf| ==> |c.rbuf[i].block| == MAD_BLOCK_SIZE
    ensures (var hdr, data, n := HdrSize(c.sa), DataSize(c.sa), |c.rbuf|;
      Assembled(c, size, tid) != Overrun <==> n > 0 && hdr + (n - 1) * data <= size <= hdr + n * data)
  {
    if HdrSize(c.sa) <= size {
      HoldableExactly(c.rbuf, HdrSize(c.sa), DataSize(c.sa), size - HdrSize(c.sa));
    } else if |c.rbuf| > 0 {
      Monotone(0, |c.rbuf| - 1, DataSize(c.sa));
    }
  }

  // Of the messages a sender can cut up, only the bare header without an SA class overruns.
  lemma BareHeaderOverruns(n: Ctx, m: Message, tid: nat)
    requires Fits(m.sa, |m.bytes|) && n.rbuf == Segs(m, m.Total()) && n.sa == m.sa
    ensures n.rbuf != [] && (Assembled(n, FinalSize(n), tid) == Overrun <==> !m.sa && |m.bytes| == MAD_RMPP_HDR_SIZE)
  {
    NumSegsCeil(m.sa, |m.bytes|);
    if m.sa || |m.bytes| > MAD_RMPP_HDR_SIZE {
      Delivers(n, m, tid);
    } else {
      SegsAt(m, m.Total(), 1);
      BareHeader();
    }
  }

  // And it does so on arrival.
  lemma BareArrival(m: Message, window: nat, tid: nat)
    requires !m.sa && |m.bytes| == MAD_RMPP_HDR_SIZE && window >= 1
    ensures Fits(m.sa, |m.bytes|) && m.Total() == 1
    ensures Received(FRESH, Seg(m, 1), window, tid, true, true).delivery == Overrun
  {
    BareHeader();
  }
}
