// A message and the segments it is sent as; what the receiver makes of all of them is the message.
module RmppMessages {
  import opened RmppSizes
  import opened RmppSar
  import opened RmppHeader

  // The MAD handed to the sender: the transaction key it goes under, its class, whether it is a
  // response and to a request of which id, the sender's response timeout, and its bytes, header
  // included.
  datatype Message = Message(key: nat, sa: bool, resp: bool, asked: nat, timeout: nat, bytes: seq<Byte>)
  {
    function Hdr(): nat { HdrSize(sa) }
    function Data(): nat { DataSize(sa) }
    function Total(): nat { NumSegs(sa, |bytes|) }
    // the FIRST and LAST flags that the caller's own RMPP header carries
    predicate First() { |bytes| > FLAGS_AT && Bit(bytes[FLAGS_AT], FIRST_BIT) }
    predicate Last() { |bytes| > FLAGS_AT && Bit(bytes[FLAGS_AT], LAST_BIT) }
  }

  // What the protocol needs of its caller: lengths in range, some data in a non-SA message, and
  // no FIRST or LAST flag of the caller's own.
  predicate Sendable(m: Message)
  {
    && Fits(m.sa, |m.bytes|) && (m.sa || |m.bytes| > MAD_RMPP_HDR_SIZE)
    && !m.First() && !m.Last()
  }

  // Segment k starts inside the message.
  lemma InMessage(m: Message, k: nat)
    requires Fits(m.sa, |m.bytes|) && 1 <= k <= m.Total()
    ensures Offset(m.Hdr(), m.Data(), k) <= |m.bytes|
    ensures k < m.Total() ==> Offset(m.Hdr(), m.Data(), k) + m.Data() <= |m.bytes|
    ensures k == m.Total() ==> |m.bytes| <= Offset(m.Hdr(), m.Data(), k) + m.Data()
  {
    NumSegsCeil(m.sa, |m.bytes|);
    var n, d := m.Total(), m.Data();
    assert k < n ==> k * d <= (n - 1) * d;
  }

  // The segmenter, which counts for itself, finds exactly the segments the context counts.
  lemma SegmentersAgree(m: Message, k: nat)
    requires Fits(m.sa, |m.bytes|) && k >= 1
    ensures k == 1 || Before(m.Data(), k) < |m.bytes| - m.Hdr() <==> k <= m.Total()
  {
    NumSegsCeil(m.sa, |m.bytes|);
    if k <= m.Total() {
      Monotone(k - 1, m.Total() - 1, m.Data());
    } else {
      Monotone(m.Total(), k - 1, m.Data());
    }
  }

  // The RMPP bytes of segment k.
  function SegFields(m: Message, k: nat): (f: seq<Byte>)
    requires Fits(m.sa, |m.bytes|) && 1 <= k <= m.Total()
    ensures |f| == MAD_RMPP_HDR_SIZE - RMPP_AT
  {
    Fields(m.bytes[FLAGS_AT], m.timeout, k == 1, k == m.Total(), k, Paylen(m.sa, |m.bytes|, k))
  }

  // osmv_rmpp_send_ctx_get_seg, with the transaction key that the sender then writes: the
  // segment's part of the message under a header of its own.
  function Seg(m: Message, k: nat): (s: Mad)
    requires Fits(m.sa, |m.bytes|) && 1 <= k <= m.Total()
  {
    InMessage(m, k);
    Mad(m.key, m.sa, m.resp, Kind.Data, m.First() || k == 1, m.Last() || k == m.Total(),
        k, Paylen(m.sa, |m.bytes|, k),
        Written(SegBlock(m.bytes, m.Hdr(), m.Data(), k), SegFields(m, k), m.key))
  }

  lemma SegIs(m: Message, k: nat)
    requires Fits(m.sa, |m.bytes|) && 1 <= k <= m.Total()
    ensures Seg(m, k).key == m.key && Seg(m, k).resp == m.resp && Seg(m, k).kind.Data? && Seg(m, k).seg == k
  {
  }

  // The block's bytes encode what the other fields of the segment say.
  lemma SegEncodes(m: Message, k: nat)
    requires Fits(m.sa, |m.bytes|) && 1 <= k <= m.Total() && m.key < Power256(8)
    ensures (var s := Seg(m, k);
      && |s.block| == MAD_BLOCK_SIZE && s.block[RMPP_AT..RMPP_AT + 2] == [1, 1] && s.block[FLAGS_AT + 1] == 0
      && FromBe(s.block[TID_AT..TID_AT + 8]) == s.key
      && FromBe(s.block[RMPP_AT + 4..RMPP_AT + 8]) == s.seg
      && FromBe(s.block[RMPP_AT + 8..RMPP_AT + 12]) == s.paylen
      && (Bit(s.block[FLAGS_AT], FIRST_BIT) <==> s.first) && (Bit(s.block[FLAGS_AT], LAST_BIT) <==> s.last))
  {
    InMessage(m, k);
    NumSegsCeil(m.sa, |m.bytes|);
    PaylenBound(m.sa, |m.bytes|, k);
    FlagBits(m.bytes[FLAGS_AT], m.timeout, k == 1, k == m.Total());
    FromBeBack(m.key, 8);
    assert Power256(4) == U32;
    FromBeBack(k, 4);
    FromBeBack(Paylen(m.sa, |m.bytes|, k), 4);
    WrittenParts(SegBlock(m.bytes, m.Hdr(), m.Data(), k), SegFields(m, k), m.key);
    FieldsApart(m.bytes[FLAGS_AT], m.timeout, k == 1, k == m.Total(), k, Paylen(m.sa, |m.bytes|, k));
    FieldParts(Seg(m, k).block, SegFields(m, k));
    hide NumSegs, Paylen, SegBlock, Flags, Be, FromBe, Fields, Written;
  }

  lemma FieldsApart(b: Byte, timeout: nat, first: bool, last: bool, seg: nat, paylen: nat)
    ensures (var f := Fields(b, timeout, first, last, seg, paylen);
      f[..2] == [1, 1] && f[2] == Flags(b, timeout, first, last) && f[3] == 0 && f[4..8] == Be(seg, 4) &&
        f[8..12] == Be(paylen, 4))
  {
    hide Be, Flags;
  }

  lemma FieldParts(block: seq<Byte>, f: seq<Byte>)
    requires |block| >= MAD_RMPP_HDR_SIZE && |f| == 12 && block[RMPP_AT..MAD_RMPP_HDR_SIZE] == f
    ensures block[RMPP_AT..RMPP_AT + 2] == f[..2] && block[RMPP_AT + 4..RMPP_AT + 8] == f[4..8]
    ensures block[RMPP_AT + 8..RMPP_AT + 12] == f[8..12]
    ensures block[FLAGS_AT] == f[2] && block[FLAGS_AT + 1] == f[3]
  {
    assert forall i :: 0 <= i < 12 ==> block[RMPP_AT + i] == f[i];
  }

  // Segments 1..k in order.
  function Segs(m: Message, k: nat): (s: seq<Mad>)
    requires Fits(m.sa, |m.bytes|) && k <= m.Total()
    ensures |s| == k
  {
    if k == 0 then [] else Segs(m, k - 1) + [Seg(m, k)]
  }

  lemma {:induction false} SegsAt(m: Message, k: nat, i: nat)
    requires Fits(m.sa, |m.bytes|) && 1 <= i <= k <= m.Total()
    ensures Segs(m, k)[i - 1] == Seg(m, i)
  {
    if i < k {
      SegsAt(m, k - 1, i);
    }
  }

  // Only segment 1 carries FIRST and only the last one LAST, exactly when the caller's header
  // had neither flag set or there is a single segment.
  lemma FlagsExact(m: Message)
    requires Fits(m.sa, |m.bytes|)
    ensures (forall k | 1 <= k <= m.Total() :: Seg(m, k).first <==> k == 1) <==> !m.First() || m.Total() == 1
    ensures (forall k | 1 <= k <= m.Total() :: Seg(m, k).last <==> k == m.Total()) <==> !m.Last() || m.Total() == 1
  {
    NumSegsCeil(m.sa, |m.bytes|);
    hide NumSegs, Paylen, SegBlock, SegFields, Written;
    var n := m.Total();
    if n > 1 {
      assert Seg(m, n).first <==> m.First();
      assert Seg(m, 1).last <==> m.Last();
    }
  }

  // ---------- segmenting and reassembling ----------

  // What a segment's block holds of the message.
  lemma BlockIs(m: Message, k: nat)
    requires Fits(m.sa, |m.bytes|) && 1 <= k <= m.Total()
    ensures (var hdr, data, at := m.Hdr(), m.Data(), Offset(m.Hdr(), m.Data(), k);
      var block := Seg(m, k).block;
      && |block| == MAD_BLOCK_SIZE && hdr <= at <= |m.bytes|
      && (k < m.Total() ==>
            at + data <= |m.bytes| && Offset(hdr, data, k + 1) == at + data
            && block[hdr..hdr + data] == m.bytes[at..at + data])
      && (k == m.Total() ==>
            && |m.bytes| - at <= data && block[hdr..hdr + (|m.bytes| - at)] == m.bytes[at..]
            && forall i | hdr + (|m.bytes| - at) <= i < |block| :: block[i] == 0))
  {
    InMessage(m, k);
    NextOffset(m.Hdr(), m.Data(), k);
    var hdr, data, at := m.Hdr(), m.Data(), Offset(m.Hdr(), m.Data(), k);
    var raw := SegBlock(m.bytes, hdr, data, k);
    WrittenSides(raw, raw, SegFields(m, k), m.key, hdr);
    DataOf(m.bytes, hdr, data, k, Seg(m, k).block);
    Padding(m.bytes, hdr, data, k, Seg(m, k).block);
    hide NumSegs, Paylen, SegFields, Written, SegBlock, Chunk, Offset;
  }

  lemma NextOffset(hdr: nat, data: nat, k: nat)
    requires k >= 1
    ensures Offset(hdr, data, k + 1) == Offset(hdr, data, k) + data && hdr <= Offset(hdr, data, k)
  {
  }

  // What the last segment's data does not fill is zero.
  lemma Padding(bytes: seq<Byte>, hdr: nat, data: nat, k: nat, block: seq<Byte>)
    requires k >= 1 && Offset(hdr, data, k) <= |bytes| && hdr + data <= MAD_BLOCK_SIZE == |block|
    requires block[hdr..] == SegBlock(bytes, hdr, data, k)[hdr..]
    ensures (var at := Offset(hdr, data, k);
      |bytes| - at <= data ==> forall i | hdr + (|bytes| - at) <= i < |block| :: block[i] == 0)
  {
    assert forall i | hdr <= i < |block| :: block[i] == block[hdr..][i - hdr];
    hide Offset;
  }

  // The data part of any block that agrees with the segmenter's behind the header.
  lemma DataOf(bytes: seq<Byte>, hdr: nat, data: nat, k: nat, block: seq<Byte>)
    requires k >= 1 && Offset(hdr, data, k) <= |bytes| && hdr + data <= MAD_BLOCK_SIZE == |block|
    requires block[hdr..] == SegBlock(bytes, hdr, data, k)[hdr..]
    ensures (var at := Offset(hdr, data, k);
      && (at + data <= |bytes| ==> block[hdr..hdr + data] == bytes[at..at + data])
      && (|bytes| - at <= data ==> block[hdr..hdr + (|bytes| - at)] == bytes[at..]))
  {
    var at, n := Offset(hdr, data, k), |Chunk(bytes, hdr, data, k)|;
    assert bytes[at..][..n] == bytes[at..at + n];
    assert block[hdr..][..n] == block[hdr..hdr + n] == Chunk(bytes, hdr, data, k);
    hide Offset;
  }

  // From segment k on, the data parts are the rest of the message.
  lemma {:induction false} TailParts(m: Message, k: nat)
    requires Fits(m.sa, |m.bytes|) && 1 <= k <= m.Total()
    ensures Offset(m.Hdr(), m.Data(), k) <= |m.bytes|
    ensures (var left, s := |m.bytes| - Offset(m.Hdr(), m.Data(), k), Segs(m, m.Total())[k - 1..];
      && Holdable(s, m.Hdr(), m.Data(), left)
      && Parts(s, m.Hdr(), m.Data(), left) == m.bytes[Offset(m.Hdr(), m.Data(), k)..])
    decreases m.Total() - k
  {
    hide NumSegs, Segs, Seg, Offset;
    BlockIs(m, k);
    SegsAt(m, m.Total(), k);
    var n, hdr, data := m.Total(), m.Hdr(), m.Data();
    var at := Offset(hdr, data, k);
    var s := Segs(m, n)[k - 1..];
    assert s[0] == Seg(m, k) && |s| == n - k + 1;
    if k < n {
      TailParts(m, k + 1);
      assert s[1..] == Segs(m, n)[k..];
      assert m.bytes[at..at + data] + m.bytes[at + data..] == m.bytes[at..];
    }
  }

  lemma JoinedIs(items: seq<Mad>, hdr: nat, data: nat, bytes: seq<Byte>)
    requires hdr <= |bytes| && Holdable(items, hdr, data, |bytes| - hdr)
    requires items[0].block[..hdr] == bytes[..hdr] && Parts(items, hdr, data, |bytes| - hdr) == bytes[hdr..]
    ensures Joined(items, hdr, data, |bytes|) == bytes
  {
  }

  lemma AllParts(m: Message)
    requires Fits(m.sa, |m.bytes|)
    ensures m.Total() >= 1 && m.Hdr() <= |m.bytes|
    ensures Holdable(Segs(m, m.Total()), m.Hdr(), m.Data(), |m.bytes| - m.Hdr())
    ensures Segs(m, m.Total())[0] == Seg(m, 1)
    ensures Parts(Segs(m, m.Total()), m.Hdr(), m.Data(), |m.bytes| - m.Hdr()) == m.bytes[m.Hdr()..]
  {
    NumSegsCeil(m.sa, |m.bytes|);
    TailParts(m, 1);
    SegsAt(m, m.Total(), 1);
    hide NumSegs, Segs, Seg, Parts, Holdable;
    assert Offset(m.Hdr(), m.Data(), 1) == m.Hdr();
    assert Segs(m, m.Total())[0..] == Segs(m, m.Total());
  }

  // The message as it comes out of reassembly: under segment 1's header.
  function OnWire(m: Message): (w: seq<Byte>)
    requires Fits(m.sa, |m.bytes|)
    ensures |w| == |m.bytes|
  {
    NumSegsCeil(m.sa, |m.bytes|);
    Written(m.bytes, SegFields(m, 1), m.key)
  }

  // The message as the receiver's client gets it: with the transaction id of its own request.
  function Delivered(m: Message, tid: nat): (w: seq<Byte>)
    requires Fits(m.sa, |m.bytes|)
    ensures |w| == |m.bytes|
  {
    WithTid(OnWire(m), tid)
  }

  // Reassembling all the segments of a message restores it, under segment 1's header.
  lemma RoundTrip(m: Message)
    requires Fits(m.sa, |m.bytes|)
    ensures m.Hdr() <= |m.bytes| && Holdable(Segs(m, m.Total()), m.Hdr(), m.Data(), |m.bytes| - m.Hdr())
    ensures Joined(Segs(m, m.Total()), m.Hdr(), m.Data(), |m.bytes|) == OnWire(m)
  {
    hide NumSegs, Segs, Seg, Parts, Holdable, Joined, Fits, OnWire;
    AllParts(m);
    FirstHeader(m);
    JoinedIs(Segs(m, m.Total()), m.Hdr(), m.Data(), OnWire(m));
  }

  lemma FirstHeader(m: Message)
    requires Fits(m.sa, |m.bytes|) && 1 <= m.Total()
    ensures m.Hdr() <= |m.bytes| && |Seg(m, 1).block| == MAD_BLOCK_SIZE
    ensures Seg(m, 1).block[..m.Hdr()] == OnWire(m)[..m.Hdr()] && OnWire(m)[m.Hdr()..] == m.bytes[m.Hdr()..]
  {
    InMessage(m, 1);
    var raw := SegBlock(m.bytes, m.Hdr(), m.Data(), 1);
    assert raw[..m.Hdr()] == m.bytes[..m.Hdr()];
    WrittenSides(raw, m.bytes, SegFields(m, 1), m.key, m.Hdr());
    WrittenSides(m.bytes, raw, SegFields(m, 1), m.key, m.Hdr());
    hide NumSegs, Paylen, SegFields, SegBlock, Written;
  }

  // What arrives: every byte of the message except the eight of the transaction id and the
  // twelve of the RMPP header, which are the given id and segment 1's fields.
  lemma DeliveredBytes(m: Message, tid: nat)
    requires Fits(m.sa, |m.bytes|)
    ensures (var d := Delivered(m, tid);
      && (forall i | 0 <= i < |d| && !(TID_AT <= i < TID_AT + 8) && !(RMPP_AT <= i < MAD_RMPP_HDR_SIZE) ::
         d[i] == m.bytes[i])
      && d[TID_AT..TID_AT + 8] == Be(tid, 8)
      && m.Total() >= 1 && d[RMPP_AT..MAD_RMPP_HDR_SIZE] == SegFields(m, 1)
      && d[m.Hdr()..] == m.bytes[m.Hdr()..])
  {
    NumSegsCeil(m.sa, |m.bytes|);
    hide NumSegs, Paylen, SegFields;
    var d := Delivered(m, tid);
    forall i | 0 <= i < |d|
      ensures d[i] == if TID_AT <= i < TID_AT + 8 then Be(tid, 8)[i - TID_AT]
        else if RMPP_AT <= i < MAD_RMPP_HDR_SIZE then SegFields(m, 1)[i - RMPP_AT] else m.bytes[i]
    {
      TidAt(OnWire(m), tid, i);
      WrittenAt(m.bytes, SegFields(m, 1), m.key, i);
    }
    hide Delivered;
  }

  // The message comes back unchanged exactly when its own header already says what is written.
  lemma UnchangedExactly(m: Message, tid: nat)
    requires Fits(m.sa, |m.bytes|)
    ensures m.Total() >= 1
    ensures Delivered(m, tid) == m.bytes <==>
      m.bytes[TID_AT..TID_AT + 8] == Be(tid, 8) && m.bytes[RMPP_AT..MAD_RMPP_HDR_SIZE] == SegFields(m, 1)
  {
    hide NumSegs, Delivered, SegFields, Be;
    DeliveredBytes(m, tid);
    SameOutside(m.bytes, Delivered(m, tid), Be(tid, 8), SegFields(m, 1));
  }

  // Two messages that differ in the written bytes at most.
  lemma SameOutside(b: seq<Byte>, d: seq<Byte>, t: seq<Byte>, f: seq<Byte>)
    requires |d| == |b| >= MAD_RMPP_HDR_SIZE && |t| == 8 && |f| == MAD_RMPP_HDR_SIZE - RMPP_AT
    requires forall i | 0 <= i < |d| && !(TID_AT <= i < TID_AT + 8) && !(RMPP_AT <= i < MAD_RMPP_HDR_SIZE) ::
      d[i] == b[i]
    requires d[TID_AT..TID_AT + 8] == t && d[RMPP_AT..MAD_RMPP_HDR_SIZE] == f
    ensures d == b <==> b[TID_AT..TID_AT + 8] == t && b[RMPP_AT..MAD_RMPP_HDR_SIZE] == f
  {
    if b[TID_AT..TID_AT + 8] == t && b[RMPP_AT..MAD_RMPP_HDR_SIZE] == f {
      assert forall i | TID_AT <= i < TID_AT + 8 :: d[i] == t[i - TID_AT] == b[i];
      assert forall i | RMPP_AT <= i < MAD_RMPP_HDR_SIZE :: d[i] == f[i - RMPP_AT] == b[i];
    }
  }

  // A message that does not: one byte of data under a header of zeros.
  lemma HeaderChanges(tid: nat)
    ensures (var m := Message(0, false, false, tid, 0, Zeros(37)); Sendable(m) && Delivered(m, tid) != m.bytes)
  {
    var m := Message(0, false, false, tid, 0, Zeros(37));
    UnchangedExactly(m, tid);
    assert m.bytes[RMPP_AT..MAD_RMPP_HDR_SIZE][0] == 0 != SegFields(m, 1)[0];
  }

  // 300 bytes whose flags byte is 2, so that the second segment carries FIRST too.
  lemma FlagsLeak()
    ensures (var m := Message(0, false, false, 0, 0, Zeros(300)[FLAGS_AT := 2]);
      Fits(m.sa, |m.bytes|) && m.Total() == 2 && Seg(m, 2).first)
  {
  }
}
