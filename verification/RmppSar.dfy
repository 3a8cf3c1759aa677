// Segmentation and reassembly: cutting a message into 256-byte blocks and joining them again.
module RmppSar {
  import opened RmppSizes

  type Byte = x: int | 0 <= x < 256

  datatype Kind = Data | Ack | Abort | Stop

  // One 256-byte block on the wire, with the header fields the protocol reads decoded beside it;
  // key is the on-wire transaction id.
  datatype Mad = Mad(key: nat, sa: bool, resp: bool, kind: Kind, first: bool, last: bool,
                     seg: nat, paylen: nat, block: seq<Byte>)

  function Zeros(n: nat): (z: seq<Byte>)
    ensures |z| == n
  {
    seq(n, i requires 0 <= i < n => 0)
  }

  // How much data the segments before segment k hold, and where its own starts.
  function Before(data: nat, k: nat): nat
    requires k >= 1
  {
    (k - 1) * data
  }

  function Offset(hdr: nat, data: nat, k: nat): nat
    requires k >= 1
  {
    hdr + Before(data, k)
  }

  function Least(a: int, b: int): int
  {
    if a <= b then a else b
  }

  function Chunk(bytes: seq<Byte>, hdr: nat, data: nat, k: nat): (c: seq<Byte>)
    requires k >= 1 && Offset(hdr, data, k) <= |bytes|
    ensures |c| == Least(data, |bytes| - Offset(hdr, data, k))
  {
    bytes[Offset(hdr, data, k)..][..Least(data, |bytes| - Offset(hdr, data, k))]
  }

  // The block of segment k: the message's header, its part of the data, zeros.
  function SegBlock(bytes: seq<Byte>, hdr: nat, data: nat, k: nat): (b: seq<Byte>)
    requires k >= 1 && Offset(hdr, data, k) <= |bytes| && hdr + data <= MAD_BLOCK_SIZE
    ensures |b| == MAD_BLOCK_SIZE
  {
    var c := Chunk(bytes, hdr, data, k);
    bytes[..hdr] + c + Zeros(MAD_BLOCK_SIZE - hdr - |c|)
  }

  // memcpy
  method Copy(src: array<Byte>, from: nat, dst: array<Byte>, to: nat, n: nat)
    requires src != dst && from + n <= src.Length && to + n <= dst.Length
    modifies dst
    ensures dst[..] == old(dst[..])[..to] + src[from..from + n] + old(dst[..])[to + n..]
  {
    forall i | 0 <= i < n {
      dst[to + i] := src[from + i];
    }
    var was, now := old(dst[..])[..to] + src[from..from + n] + old(dst[..])[to + n..], dst[..];
    assert forall i :: 0 <= i < |now| ==> now[i] == was[i];
  }

  // A cl_qlist of received blocks.
  class MadList {
    var items: seq<Mad>

    constructor ()
      ensures items == []
    {
      items := [];
    }

    method InsertTail(m: Mad)
      modifies this
      ensures items == old(items) + [m]
    {
      items := items + [m];
    }

    method RemoveHead() returns (m: Mad)
      requires items != []
      modifies this
      ensures [m] + items == old(items)
    {
      m := items[0];
      items := items[1..];
    }
  }

  // The data parts of a list of blocks that hold left bytes between them.
  function Parts(items: seq<Mad>, hdr: nat, data: nat, left: nat): (p: seq<Byte>)
    requires Holdable(items, hdr, data, left)
    ensures |p| == left
  {
    if |items| == 1 then items[0].block[hdr..hdr + left]
    else items[0].block[hdr..hdr + data] + Parts(items[1..], hdr, data, left - data)
  }

  // All but the last block are full and the last one is not overrun.
  predicate Holdable(items: seq<Mad>, hdr: nat, data: nat, left: nat)
    decreases |items|
  {
    && items != [] && hdr + data <= |items[0].block|
    && if |items| == 1 then left <= data else data <= left && Holdable(items[1..], hdr, data, left - data)
  }

  // Blocks of full size join within their bounds exactly when the bytes wanted need all of them.
  lemma {:induction false} HoldableExactly(items: seq<Mad>, hdr: nat, data: nat, left: nat)
    requires hdr + data == MAD_BLOCK_SIZE && forall i :: 0 <= i < |items| ==> |items[i].block| == MAD_BLOCK_SIZE
    ensures Holdable(items, hdr, data, left) <==> items != [] && (|items| - 1) * data <= left <= |items| * data
    decreases |items|
  {
    if |items| > 1 {
      var rest := |items| - 1;
      assert rest * data == (rest - 1) * data + data;
      if data <= left {
        HoldableExactly(items[1..], hdr, data, left - data);
      } else {
        Monotone(0, rest - 1, data);
      }
    }
  }

  lemma PartsHead(items: seq<Mad>, hdr: nat, data: nat, left: nat, w: seq<Byte>)
    requires Holdable(items, hdr, data, left)
    ensures items != [] && hdr + data <= |items[0].block|
    ensures |items| == 1 ==> left <= data && Parts(items, hdr, data, left) == items[0].block[hdr..hdr + left]
    ensures |items| > 1 ==>
      && data <= left && Holdable(items[1..], hdr, data, left - data)
      && w + Parts(items, hdr, data, left) ==
         w + items[0].block[hdr..hdr + data] + Parts(items[1..], hdr, data, left - data)
  {
  }

  function Joined(items: seq<Mad>, hdr: nat, data: nat, size: nat): (b: seq<Byte>)
    requires hdr <= size && Holdable(items, hdr, data, size - hdr)
    ensures |b| == size
  {
    items[0].block[..hdr] + Parts(items, hdr, data, size - hdr)
  }

  // osmv_rmpp_sar_t
  class Sar {
    const mad: array<Byte>
    const hdrSz: nat
    const dataSz: nat
    const dataLen: nat

    constructor (mad: array<Byte>, size: nat, sa: bool)
      requires HdrSize(sa) <= size <= mad.Length
      ensures this.mad == mad && hdrSz == HdrSize(sa) && dataSz == DataSize(sa) && dataLen == size - HdrSize(sa)
    {
      this.mad := mad;
      hdrSz, dataSz, dataLen := HdrSize(sa), DataSize(sa), size - HdrSize(sa);
    }

    ghost predicate Ready()
    {
      hdrSz + dataSz <= MAD_BLOCK_SIZE && dataSz > 0 && hdrSz + dataLen <= mad.Length
    }

    // The block with the message's header and n bytes of its data.
    method Fill(at: nat, n: nat, buf: array<Byte>)
      requires Ready() && buf != mad && buf.Length == MAD_BLOCK_SIZE && n <= dataSz && at + n <= mad.Length
      modifies buf
      ensures buf[..] == mad[..hdrSz] + mad[at..at + n] + Zeros(MAD_BLOCK_SIZE - hdrSz - n)
    {
      forall i | 0 <= i < buf.Length {
        buf[i] := 0;
      }
      Copy(mad, 0, buf, 0, hdrSz);
      Copy(mad, at, buf, hdrSz, n);
    }

    // Cuts out segment k; a number past the end is refused and nothing is written.
    method GetMadSeg(k: nat, buf: array<Byte>) returns (found: bool)
      requires Ready() && k >= 1 && buf != mad && buf.Length == MAD_BLOCK_SIZE
      modifies buf
      ensures found <==> k == 1 || Before(dataSz, k) < dataLen
      ensures found ==>
        && Offset(hdrSz, dataSz, k) <= hdrSz + dataLen
        && buf[..] == SegBlock(mad[..hdrSz + dataLen], hdrSz, dataSz, k)
      ensures !found ==> buf[..] == old(buf[..])
    {
      hide Before, SegBlock;
      var numSegs := dataLen / dataSz;
      if dataLen % dataSz > 0 {
        numSegs := numSegs + 1;
      }
      CeilBound(dataLen, dataSz, k);
      if k > numSegs && k != 1 {
        return false;
      }
      var at := Before(dataSz, k);
      var szLeft := dataLen - at;
      var n := if szLeft > dataSz then dataSz else szLeft;
      Fill(hdrSz + at, n, buf);
      ChunkIs(mad[..], hdrSz, dataSz, dataLen, k, at);
      found := true;
    }

    // Joins the blocks of the list, which it empties.
    method Reassemble(bufs: MadList)
      requires Ready() && Holdable(bufs.items, hdrSz, dataSz, dataLen)
      modifies mad, bufs
      ensures bufs.items == []
      ensures mad[..hdrSz + dataLen] == Joined(old(bufs.items), hdrSz, dataSz, hdrSz + dataLen)
    {
      hide Parts, Holdable;
      PartsHead(bufs.items, hdrSz, dataSz, dataLen, []);
      var spaceLeft: nat := dataLen + hdrSz;
      Write(bufs.items[0].block, 0, 0, hdrSz);
      var p: nat := hdrSz;
      spaceLeft := spaceLeft - hdrSz;
      ghost var all := Joined(bufs.items, hdrSz, dataSz, hdrSz + dataLen);
      while bufs.items != []
        invariant p + spaceLeft == hdrSz + dataLen && (bufs.items == [] ==> spaceLeft == 0)
        invariant bufs.items != [] ==> Holdable(bufs.items, hdrSz, dataSz, spaceLeft)
        invariant bufs.items != [] ==> all == mad[..p] + Parts(bufs.items, hdrSz, dataSz, spaceLeft)
        invariant bufs.items == [] ==> all == mad[..p]
        decreases |bufs.items|
      {
        p, spaceLeft := TakeOne(bufs, p, spaceLeft);
      }
    }

    // The head of the list goes to position p.
    method TakeOne(bufs: MadList, p: nat, spaceLeft: nat) returns (p': nat, left: nat)
      requires bufs.items != [] && Holdable(bufs.items, hdrSz, dataSz, spaceLeft) && p + spaceLeft <= mad.Length
      modifies mad, bufs
      ensures bufs.items == old(bufs.items)[1..] && p' + left == p + spaceLeft && p <= p'
      ensures bufs.items != [] ==>
        && Holdable(bufs.items, hdrSz, dataSz, left)
        && mad[..p'] + Parts(bufs.items, hdrSz, dataSz, left) ==
           old(mad[..p]) + Parts(old(bufs.items), hdrSz, dataSz, spaceLeft)
      ensures bufs.items == [] ==> left == 0
      ensures bufs.items == [] ==>
        mad[..p'] == old(mad[..p]) + Parts(old(bufs.items), hdrSz, dataSz, spaceLeft)
    {
      ghost var items, w := bufs.items, mad[..p];
      PartsHead(items, hdrSz, dataSz, spaceLeft, w);
      hide Parts, Holdable;
      var m := bufs.RemoveHead();
      assert bufs.items == items[1..] && m == items[0];
      if bufs.items != [] {
        Write(m.block, hdrSz, p, dataSz);
        p', left := p + dataSz, spaceLeft - dataSz;
      } else {
        Write(m.block, hdrSz, p, spaceLeft);
        p', left := p + spaceLeft, 0;
      }
    }

    // memcpy of n bytes of a block to position p of the message
    method Write(block: seq<Byte>, from: nat, p: nat, n: nat)
      requires from + n <= |block| && p + n <= mad.Length
      modifies mad
      ensures mad[..p + n] == old(mad[..p]) + block[from..from + n]
    {
      forall i | 0 <= i < n {
        mad[p + i] := block[from + i];
      }
    }
  }

  lemma ChunkIs(mad: seq<Byte>, hdr: nat, data: nat, len: nat, k: nat, at: nat)
    requires k >= 1 && at == Before(data, k) && at <= len && hdr + len <= |mad| && hdr + data <= MAD_BLOCK_SIZE
    ensures var n := if len - at > data then data else len - at;
      mad[..hdr] + mad[hdr + at..hdr + at + n] + Zeros(MAD_BLOCK_SIZE - hdr - n) ==
        SegBlock(mad[..hdr + len], hdr, data, k)
  {
    var n := if len - at > data then data else len - at;
    assert mad[..hdr + len][hdr + at..][..n] == mad[hdr + at..hdr + at + n];
    assert mad[..hdr + len][..hdr] == mad[..hdr];
  }

  lemma Monotone(a: int, b: int, d: nat)
    requires a <= b
    ensures a * d <= b * d
  {
  }

  // Rounding up agrees with the segment that still has data.
  lemma CeilBound(len: nat, d: nat, k: nat)
    requires d > 0 && k >= 1
    ensures k <= len / d + (if len % d > 0 then 1 else 0) <==> Before(d, k) < len
    ensures Before(d, k) < len || k == 1 ==> Before(d, k) <= len
  {
    var q, r := len / d, len % d;
    assert len == q * d + r;
    if k <= q {
      Monotone(k - 1, q - 1, d);
    } else if k >= q + 2 {
      Monotone(q + 1, k - 1, d);
    }
  }
}
