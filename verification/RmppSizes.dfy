// Segment counts and lengths of an RMPP transfer, as the sender writes them and as the receiver
// works the message size out of them.  All arithmetic is uint32_t.
module RmppSizes {
  const MAD_BLOCK_SIZE: nat := 256
  const MAD_RMPP_HDR_SIZE: nat := 36
  const MAD_RMPP_DATA_SIZE: nat := 220
  const IB_SA_MAD_HDR_SIZE: nat := 56
  const IB_SA_DATA_SIZE: nat := 200

  const U32: nat := 0x1_0000_0000

  function Wrap(x: int): (r: nat)
    ensures r < U32
    ensures 0 <= x < U32 ==> r == x
  {
    x % U32
  }

  function HdrSize(sa: bool): nat
  {
    if sa then IB_SA_MAD_HDR_SIZE else MAD_RMPP_HDR_SIZE
  }

  function DataSize(sa: bool): nat
  {
    if sa then IB_SA_DATA_SIZE else MAD_RMPP_DATA_SIZE
  }

  // The room a block has beyond what an SA segment uses of it.
  const SA_EXTRA: nat := IB_SA_MAD_HDR_SIZE - MAD_RMPP_HDR_SIZE

  // osmv_rmpp_send_ctx_get_num_segs
  function NumSegs(sa: bool, madSz: nat): nat
  {
    var dataLen := Wrap(madSz - HdrSize(sa));
    var num := dataLen / DataSize(sa);
    if dataLen == 0 || dataLen % DataSize(sa) > 0 then num + 1 else num
  }

  // paylen_newwin of segment k, from osmv_rmpp_send_ctx_get_seg: the total on the first, the rest
  // on the last, nothing in between.
  function Paylen(sa: bool, madSz: nat, k: nat): nat
  {
    var n := NumSegs(sa, madSz);
    if k == n then
      if sa then Wrap(madSz - IB_SA_MAD_HDR_SIZE - (n - 1) * IB_SA_DATA_SIZE + SA_EXTRA)
      else Wrap(madSz - MAD_RMPP_HDR_SIZE - (n - 1) * MAD_RMPP_DATA_SIZE)
    else if k == 1 then
      if sa then Wrap(madSz - IB_SA_MAD_HDR_SIZE + n * SA_EXTRA) else Wrap(madSz - MAD_RMPP_HDR_SIZE)
    else 0
  }

  // osmv_rmpp_recv_ctx_get_cur_byte_num, with count segments stored
  function CurBytes(sa: bool, count: nat): nat
  {
    Wrap(count * DataSize(sa) + HdrSize(sa))
  }

  // osmv_rmpp_recv_ctx_get_byte_num_from_first
  function FromFirst(sa: bool, paylen: nat, count: nat): nat
  {
    if paylen == 0 then 0
    else if sa then Wrap(paylen - count * SA_EXTRA + IB_SA_MAD_HDR_SIZE)
    else Wrap(paylen + MAD_RMPP_HDR_SIZE)
  }

  // osmv_rmpp_recv_ctx_get_byte_num_from_last
  function FromLast(sa: bool, paylen: nat, count: nat): nat
  {
    if paylen == 0 then 0 else Wrap(paylen + MAD_RMPP_HDR_SIZE + (count - 1) * DataSize(sa))
  }

  // Criteria 2 of the receiver: the length received so far reaches the advertised one, or, when
  // none was advertised, the LAST flag decides.
  predicate LengthReached(sa: bool, firstPaylen: nat, count: nat, last: bool)
  {
    var size := FromFirst(sa, firstPaylen, count);
    if size > 0 then CurBytes(sa, count) >= size else last
  }

  // What the sender is called with: a whole header, and lengths that stay within uint32_t.
  predicate Fits(sa: bool, madSz: nat)
  {
    && HdrSize(sa) <= madSz
    && madSz + DataSize(sa) + (madSz / DataSize(sa) + 1) * SA_EXTRA < U32
  }

  // The count is the data length over the data size, rounded up, and at least one.
  lemma NumSegsCeil(sa: bool, madSz: nat)
    requires Fits(sa, madSz)
    ensures NumSegs(sa, madSz) >= 1
    ensures madSz - HdrSize(sa) <= NumSegs(sa, madSz) * DataSize(sa)
    ensures NumSegs(sa, madSz) > 1 ==> (NumSegs(sa, madSz) - 1) * DataSize(sa) < madSz - HdrSize(sa)
    ensures NumSegs(sa, madSz) == 1 <==> madSz - HdrSize(sa) <= DataSize(sa)
    ensures NumSegs(sa, madSz) <= madSz / DataSize(sa) + 1
  {
    var len, d := madSz - HdrSize(sa), DataSize(sa);
    assert Wrap(len) == len;
    assert len == len / d * d + len % d;
  }

  // The lengths without the machine arithmetic, which is exact here.
  lemma Paylens(sa: bool, madSz: nat)
    requires Fits(sa, madSz)
    ensures var n, len := NumSegs(sa, madSz), madSz - HdrSize(sa);
      && Paylen(sa, madSz, n) == len - (n - 1) * DataSize(sa) + (if sa then SA_EXTRA else 0)
      && (n > 1 ==> Paylen(sa, madSz, 1) == len + (if sa then n * SA_EXTRA else 0))
      && forall k | 1 < k < n :: Paylen(sa, madSz, k) == 0
  {
    NumSegsCeil(sa, madSz);
    hide NumSegs;
    var n := NumSegs(sa, madSz);
    if sa {
      assert n * SA_EXTRA <= (madSz / DataSize(sa) + 1) * SA_EXTRA;
    }
  }

  lemma PaylenBound(sa: bool, madSz: nat, k: nat)
    ensures Paylen(sa, madSz, k) < U32
  {
  }

  // After k of n segments, accepted in order, the length test holds exactly at the last one, so
  // a correct sender is never told BAD_LEN; although the SA formula uses the count so far.
  lemma LastTestExact(sa: bool, madSz: nat, k: nat)
    requires Fits(sa, madSz) && 1 <= k <= NumSegs(sa, madSz)
    ensures LengthReached(sa, Paylen(sa, madSz, 1), k, k == NumSegs(sa, madSz)) <==> k == NumSegs(sa, madSz)
  {
    NumSegsCeil(sa, madSz);
    Paylens(sa, madSz);
    hide NumSegs, Paylen;
    var n := NumSegs(sa, madSz);
    if n > 1 {
      var p := Paylen(sa, madSz, 1);
      if sa {
        assert p == madSz - 56 + n * 20 && CurBytes(sa, k) == k * 200 + 56;
        assert FromFirst(sa, p, k) == p - k * 20 + 56;
      } else {
        assert p == madSz - 36 && CurBytes(sa, k) == k * 220 + 36;
      }
    }
  }

  // At the last segment the size worked out from the first segment, the one worked out from the
  // last, and the original size agree; unless a non-SA message carries no data at all.
  lemma SizesAgree(sa: bool, madSz: nat)
    requires Fits(sa, madSz)
    ensures (var n := NumSegs(sa, madSz);
      && FromFirst(sa, Paylen(sa, madSz, 1), n) == FromLast(sa, Paylen(sa, madSz, n), n)
      && (FromFirst(sa, Paylen(sa, madSz, 1), n) == madSz <==> sa || madSz > MAD_RMPP_HDR_SIZE))
  {
    NumSegsCeil(sa, madSz);
    Paylens(sa, madSz);
    hide NumSegs, Paylen;
  }

  // The exception: the receiver works out a size of 0 for a message of one bare header.
  lemma BareHeader()
    ensures Fits(false, 36) && NumSegs(false, 36) == 1 && Paylen(false, 36, 1) == 0
    ensures FromFirst(false, Paylen(false, 36, 1), 1) == 0 && FromLast(false, Paylen(false, 36, 1), 1) == 0
  {
  }
}
