// The sending side of one RMPP transfer: bursts over a window that acknowledgements move.
module RmppSend {
  import opened RmppSizes
  import opened RmppSar
  import opened RmppHeader
  import opened RmppMessages

  datatype Outcome = Running | Succeeded | Failed

  datatype SendError = RemoteGaveUp | SentTooFar | WindowShrank | TimedOut | TransportFailed

  // The send context as a value.  errors lists what has been reported; any makes the sender fail.
  datatype Snd = Snd(first: nat, last: nat, errors: seq<SendError>, outcome: Outcome)

  const START: Snd := Snd(1, 1, [], Running)

  // __osmv_dispatch_rmpp_snd on an ACK of seg that offers the window up to newWindow
  function Acked(s: Snd, total: nat, seg: nat, newWindow: nat): Snd
  {
    if seg > s.last then s.(errors := s.errors + [SentTooFar])
    else if newWindow < s.last then s.(errors := s.errors + [WindowShrank])
    else if seg == s.last then s.(first := seg + 1, last := if newWindow < total then newWindow else total)
    else s
  }

  // __osmv_dispatch_rmpp_snd on any MAD of the transaction; a stray DATA segment is dropped.
  function Heard(s: Snd, total: nat, mad: Mad): Snd
  {
    match mad.kind
    case Abort => s.(errors := s.errors + [RemoteGaveUp])
    case Stop => s.(errors := s.errors + [RemoteGaveUp])
    case Data => s
    case Ack => Acked(s, total, mad.seg, mad.paylen)
  }

  // How many segments the sender sends when it wakes; limit is how many the transport takes.
  function BurstSize(s: Snd, total: nat, limit: nat): nat
  {
    if s.outcome != Running || s.errors != [] || s.first > total || s.first > s.last then 0
    else Least(s.last - s.first + 1, limit)
  }

  // The sender when it starts or wakes: it fails, has succeeded, or sends its window again.
  function Woken(s: Snd, total: nat, limit: nat): Snd
  {
    if s.outcome != Running then s
    else if s.errors != [] then s.(outcome := Failed)
    else if s.first > total then s.(outcome := Succeeded)
    else if limit < s.last + 1 - s.first then s.(outcome := Failed, errors := [TransportFailed])
    else s
  }

  // osmv_rmpp_send_ctx_t and the MAD it sends
  class SendCtx {
    var windowFirst: nat
    var windowLast: nat
    var errors: seq<SendError>
    const sar: Sar
    const madSz: nat
    const sa: bool
    // the transaction it runs under
    const key: nat
    const resp: bool
    const asked: nat
    const timeout: nat

    constructor (mad: array<Byte>, sa: bool, key: nat, resp: bool, asked: nat, timeout: nat)
      requires Fits(sa, mad.Length)
      ensures Valid() && fresh(sar) && sar.mad == mad && sar.dataLen + sar.hdrSz == mad.Length
      ensures windowFirst == 1 && windowLast == 1 && errors == []
      ensures Sent() == Message(key, sa, resp, asked, timeout, mad[..])
    {
      sar := new Sar(mad, mad.Length, sa);
      madSz := mad.Length;
      this.sa, this.key, this.resp, this.asked, this.timeout := sa, key, resp, asked, timeout;
      windowFirst, windowLast, errors := 1, 1, [];
      new;
      assert mad[..madSz] == mad[..];
    }

    ghost predicate Valid()
      reads this
    {
      && Fits(sa, madSz) && madSz <= sar.mad.Length
      && sar.hdrSz == HdrSize(sa) && sar.dataSz == DataSize(sa) && sar.dataLen == madSz - HdrSize(sa)
    }

    ghost function Sent(): Message
      requires Valid()
      reads this, sar.mad
    {
      Message(key, sa, resp, asked, timeout, sar.mad[..madSz])
    }

    ghost function View(outcome: Outcome): Snd
      reads this
    {
      Snd(windowFirst, windowLast, errors, outcome)
    }

    // osmv_rmpp_send_ctx_get_seg, and the transaction key that the sender writes next
    method GetSeg(k: nat) returns (s: Mad)
      requires Valid() && 1 <= k <= NumSegs(sa, madSz)
      ensures s == Seg(Sent(), k)
    {
      hide NumSegs, Paylen, SegBlock, Fields, Be;
      var buf := new Byte[MAD_BLOCK_SIZE];
      InMessage(Sent(), k);
      var found := sar.GetMadSeg(k, buf);
      StartsBefore(sa, madSz, k);
      assert found && buf[..] == SegBlock(Sent().bytes, HdrSize(sa), DataSize(sa), k);
      HeaderByte(Sent().bytes, HdrSize(sa), DataSize(sa), k, FLAGS_AT);
      assert buf[FLAGS_AT] == buf[..][FLAGS_AT] == Sent().bytes[FLAGS_AT];
      var numSegs := NumSegs(sa, madSz);
      var flags, paylen := buf[FLAGS_AT], Paylen(sa, madSz, k);
      PutFields(buf, Fields(flags, timeout, 1 == k, k == numSegs, k, paylen));
      PutTid(buf, key);
      var first, last := Bit(flags, FIRST_BIT) || 1 == k, Bit(flags, LAST_BIT) || k == numSegs;
      s := Mad(key, sa, resp, Data, first, last, k, paylen, buf[..]);
    }

    // __osmv_dispatch_rmpp_snd; nak says that the caller is to answer with an ABORT, signal that
    // it is to wake the sender.
    method HandleMad(mad: Mad) returns (nak: bool, signal: bool)
      modifies this`windowFirst, this`windowLast, this`errors
      ensures forall o :: View(o) == Heard(old(View(o)), NumSegs(sa, madSz), mad)
      ensures nak <==> mad.kind == Ack && (mad.seg > old(windowLast) || mad.paylen < old(windowLast))
      ensures signal <==>
        mad.kind == Abort || mad.kind == Stop || nak || (mad.kind == Ack && mad.seg == old(windowLast))
    {
      var oldWl, totalSegs := windowLast, NumSegs(sa, madSz);
      var segNum, newWl := mad.seg, mad.paylen;
      nak, signal := false, false;
      if mad.kind == Abort || mad.kind == Stop {
        errors := errors + [RemoteGaveUp];
        return false, true;
      }
      if mad.kind != Ack {
        return;
      }
      if segNum > oldWl {
        errors := errors + [SentTooFar];
        return true, true;
      }
      if newWl < oldWl {
        errors := errors + [WindowShrank];
        return true, true;
      }
      if segNum == oldWl {
        windowFirst := segNum + 1;
        windowLast := if newWl < totalSegs then newWl else totalSegs;
        signal := true;
      }
    }

    // One turn of the send loop: the segments put on the wire, of which the transport takes limit,
    // and how the loop goes on.
    method Turn(limit: nat) returns (sent: seq<Mad>, outcome: Outcome)
      requires Valid() && 1 <= windowFirst <= NumSegs(sa, madSz) + 1 && windowLast <= NumSegs(sa, madSz)
      modifies this`errors
      ensures View(outcome) == Woken(old(View(Running)), NumSegs(sa, madSz), limit)
      ensures |sent| == BurstSize(old(View(Running)), NumSegs(sa, madSz), limit)
      ensures forall i | 0 <= i < |sent| ::
        windowFirst + i <= NumSegs(sa, madSz) && sent[i] == Seg(Sent(), windowFirst + i)
    {
      hide NumSegs, Seg;
      sent := [];
      if errors != [] {
        return sent, Failed;
      }
      var totalSegs := NumSegs(sa, madSz);
      if windowFirst > totalSegs {
        return sent, Succeeded;
      }
      var i := windowFirst;
      while i <= windowLast
        invariant windowFirst <= i && (i <= windowLast + 1 || i == windowFirst) && errors == []
        invariant |sent| == i - windowFirst <= limit
        invariant forall j | 0 <= j < |sent| :: windowFirst + j <= totalSegs && sent[j] == Seg(Sent(), windowFirst + j)
      {
        if |sent| == limit {
          errors := [TransportFailed];
          return sent, Failed;
        }
        var s := GetSeg(i);
        sent := sent + [s];
        i := i + 1;
      }
      return sent, Running;
    }
  }

  // A segment's block starts with the message's own header.
  lemma HeaderByte(bytes: seq<Byte>, hdr: nat, data: nat, k: nat, i: nat)
    requires k >= 1 && Offset(hdr, data, k) <= |bytes| && hdr + data <= MAD_BLOCK_SIZE && i < hdr
    ensures SegBlock(bytes, hdr, data, k)[i] == bytes[i]
  {
  }

  // A segment that exists, other than the first, starts before the end of the data.
  lemma StartsBefore(sa: bool, madSz: nat, k: nat)
    requires Fits(sa, madSz) && 1 <= k <= NumSegs(sa, madSz)
    ensures k == 1 || Before(DataSize(sa), k) < madSz - HdrSize(sa)
  {
    NumSegsCeil(sa, madSz);
    if k > 1 {
      Monotone(k - 1, NumSegs(sa, madSz) - 1, DataSize(sa));
    }
  }
}
