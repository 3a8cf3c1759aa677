// The header bytes that sender and receiver write: transaction id and RMPP fields, in network
// byte order.
module RmppHeader {
  import opened RmppSizes
  import opened RmppSar

  // ---------- numbers as bytes ----------

  function Power256(n: nat): nat
  {
    if n == 0 then 1 else 256 * Power256(n - 1)
  }

  // The last n bytes of a number, most significant first.
  function Be(v: nat, n: nat): (s: seq<Byte>)
    ensures |s| == n
  {
    if n == 0 then [] else Be(v / 256, n - 1) + [v % 256]
  }

  function FromBe(s: seq<Byte>): nat
  {
    if s == [] then 0 else 256 * FromBe(s[..|s| - 1]) + s[|s| - 1]
  }

  lemma {:induction false} FromBeBack(v: nat, n: nat)
    requires v < Power256(n)
    ensures FromBe(Be(v, n)) == v
  {
    if n > 0 {
      FromBeBack(v / 256, n - 1);
      assert Be(v, n)[..n - 1] == Be(v / 256, n - 1);
    }
  }

  // ---------- the flags byte ----------

  const FIRST_BIT: nat := 2
  const LAST_BIT: nat := 4

  predicate Bit(b: nat, weight: nat)
    requires weight > 0
  {
    b / weight % 2 == 1
  }

  function BitOf(b: bool): nat
  {
    if b then 1 else 0
  }

  function Power2(n: nat): nat
  {
    if n == 0 then 1 else 2 * Power2(n - 1)
  }

  // Bitwise or of the low bits of two numbers.
  function Or(a: nat, b: nat, bits: nat): (r: nat)
    ensures r < Power2(bits)
  {
    if bits == 0 then 0 else 2 * Or(a / 2, b / 2, bits - 1) + BitOf(Bit(a, 1) || Bit(b, 1))
  }

  // ACTIVE, the response timeout from bit 3 on, FIRST and LAST, or-ed into the byte that is there.
  function Flags(b: Byte, timeout: nat, first: bool, last: bool): (f: Byte)
  {
    assert Power2(5) == 32;
    8 * Or(b / 8, timeout, 5) + 4 * BitOf(last || Bit(b, LAST_BIT)) + 2 * BitOf(first || Bit(b, FIRST_BIT)) + 1
  }

  lemma FlagBits(b: Byte, timeout: nat, first: bool, last: bool)
    ensures Bit(Flags(b, timeout, first, last), 1)
    ensures Bit(Flags(b, timeout, first, last), FIRST_BIT) <==> first || Bit(b, FIRST_BIT)
    ensures Bit(Flags(b, timeout, first, last), LAST_BIT) <==> last || Bit(b, LAST_BIT)
  {
    hide Or;
    var o, l, f := Or(b / 8, timeout, 5), BitOf(last || Bit(b, LAST_BIT)), BitOf(first || Bit(b, FIRST_BIT));
    var x := 8 * o + 4 * l + 2 * f + 1;
    assert x / 2 == 4 * o + 2 * l + f && x / 4 == 2 * o + l;
  }

  // Each bit of the result is set exactly when it is set in one of the two numbers.
  lemma {:induction false} OrBits(a: nat, b: nat, bits: nat, i: nat)
    requires i < bits
    ensures Power2(i) > 0 && (Bit(Or(a, b, bits), Power2(i)) <==> Bit(a, Power2(i)) || Bit(b, Power2(i)))
  {
    var o := Or(a / 2, b / 2, bits - 1);
    if i == 0 {
      assert Or(a, b, bits) == 2 * o + BitOf(Bit(a, 1) || Bit(b, 1));
    } else {
      OrBits(a / 2, b / 2, bits - 1, i - 1);
      Halved(a, i);
      Halved(b, i);
      Halved(Or(a, b, bits), i);
      assert Or(a, b, bits) / 2 == o;
    }
  }

  lemma Halved(a: nat, i: nat)
    requires i > 0
    ensures Power2(i - 1) > 0 && Power2(i) > 0 && (Bit(a, Power2(i)) <==> Bit(a / 2, Power2(i - 1)))
  {
    PowerPositive(i - 1);
    var p := Power2(i - 1);
    DivTwice(a, p);
  }

  lemma {:induction false} PowerPositive(i: nat)
    ensures Power2(i) > 0
  {
    if i > 0 {
      PowerPositive(i - 1);
    }
  }

  lemma DivTwice(a: nat, p: nat)
    requires p > 0
    ensures a / (2 * p) == a / 2 / p
  {
    var q, r := a / 2 / p, a / 2 % p;
    assert a / 2 == q * p + r;
    var x := 2 * r + a % 2;
    assert a == (2 * p) * q + x && 0 <= x < 2 * p;
    Quotient(a, 2 * p, q, x);
  }

  lemma Quotient(a: nat, d: nat, q: nat, r: nat)
    requires a == d * q + r && r < d
    ensures a / d == q
  {
    var k := a / d - q;
    assert a == d * (a / d) + a % d;
    assert d * k == r - a % d;
    AtLeast(d, k);
  }

  lemma AtLeast(d: nat, k: int)
    ensures k >= 1 ==> d * k >= d
    ensures k <= -1 ==> d * k <= 0 - d
  {
    if k >= 1 {
      assert d * k == d + d * (k - 1);
    } else if k <= -1 {
      assert d * k == 0 - d + d * (k + 1);
    }
  }

  // The upper five bits of the flags byte: those already there, and those of the response timeout.
  lemma TimeoutBits(b: Byte, timeout: nat, first: bool, last: bool, i: nat)
    requires i < 5
    ensures Power2(i) > 0
    ensures Bit(Flags(b, timeout, first, last) / 8, Power2(i)) <==> Bit(b / 8, Power2(i)) || Bit(timeout, Power2(i))
  {
    OrBits(b / 8, timeout, 5, i);
    hide Or, Bit;
    assert Flags(b, timeout, first, last) / 8 == Or(b / 8, timeout, 5);
  }

  // Byte i of a number in network order.
  lemma {:induction false} BeAt(v: nat, n: nat, i: nat)
    requires i < n
    ensures Power256(n - 1 - i) > 0 && Be(v, n)[i] == v / Power256(n - 1 - i) % 256
  {
    if i < n - 1 {
      BeAt(v / 256, n - 1, i);
      var p := Power256(n - 2 - i);
      DivBy(v, p);
    }
  }

  lemma DivBy(v: nat, p: nat)
    requires p > 0
    ensures v / (256 * p) == v / 256 / p
  {
    var q, r := v / 256 / p, v / 256 % p;
    assert v / 256 == q * p + r;
    var x := 256 * r + v % 256;
    assert v == (256 * p) * q + x && 0 <= x < 256 * p;
    Quotient(v, 256 * p, q, x);
  }

  // ---------- writing the header ----------

  const TID_AT: nat := 8
  const RMPP_AT: nat := 24
  const FLAGS_AT: nat := 26

  // The twelve RMPP bytes of a DATA segment: version 1, type 1, flags, status 0, number, length.
  function Fields(b: Byte, timeout: nat, first: bool, last: bool, seg: nat, paylen: nat): (s: seq<Byte>)
    ensures |s| == MAD_RMPP_HDR_SIZE - RMPP_AT
  {
    [1, 1, Flags(b, timeout, first, last), 0] + Be(seg, 4) + Be(paylen, 4)
  }

  function WithTid(block: seq<Byte>, tid: nat): (s: seq<Byte>)
    requires |block| >= MAD_RMPP_HDR_SIZE
    ensures |s| == |block|
  {
    block[..TID_AT] + Be(tid, 8) + block[TID_AT + 8..]
  }

  function WithFields(block: seq<Byte>, fields: seq<Byte>): (s: seq<Byte>)
    requires |block| >= MAD_RMPP_HDR_SIZE && |fields| == MAD_RMPP_HDR_SIZE - RMPP_AT
    ensures |s| == |block|
  {
    block[..RMPP_AT] + fields + block[MAD_RMPP_HDR_SIZE..]
  }

  // Byte i after either.
  lemma TidAt(block: seq<Byte>, tid: nat, i: nat)
    requires |block| >= MAD_RMPP_HDR_SIZE && i < |block|
    ensures WithTid(block, tid)[i] == if TID_AT <= i < TID_AT + 8 then Be(tid, 8)[i - TID_AT] else block[i]
  {
  }

  lemma FieldsAt(block: seq<Byte>, fields: seq<Byte>, i: nat)
    requires |block| >= MAD_RMPP_HDR_SIZE && |fields| == MAD_RMPP_HDR_SIZE - RMPP_AT && i < |block|
    ensures WithFields(block, fields)[i] == if RMPP_AT <= i < MAD_RMPP_HDR_SIZE then fields[i - RMPP_AT] else block[i]
  {
  }

  function Written(block: seq<Byte>, fields: seq<Byte>, tid: nat): (s: seq<Byte>)
    requires |block| >= MAD_RMPP_HDR_SIZE && |fields| == MAD_RMPP_HDR_SIZE - RMPP_AT
    ensures |s| == |block|
  {
    WithTid(WithFields(block, fields), tid)
  }

  lemma WrittenAt(block: seq<Byte>, fields: seq<Byte>, tid: nat, i: nat)
    requires |block| >= MAD_RMPP_HDR_SIZE && |fields| == MAD_RMPP_HDR_SIZE - RMPP_AT && i < |block|
    ensures Written(block, fields, tid)[i] ==
      if TID_AT <= i < TID_AT + 8 then Be(tid, 8)[i - TID_AT]
      else if RMPP_AT <= i < MAD_RMPP_HDR_SIZE then fields[i - RMPP_AT]
      else block[i]
  {
    TidAt(WithFields(block, fields), tid, i);
    FieldsAt(block, fields, i);
  }

  lemma WrittenParts(block: seq<Byte>, fields: seq<Byte>, tid: nat)
    requires |block| >= MAD_RMPP_HDR_SIZE && |fields| == MAD_RMPP_HDR_SIZE - RMPP_AT
    ensures (var s := Written(block, fields, tid);
      s[TID_AT..TID_AT + 8] == Be(tid, 8) && s[RMPP_AT..MAD_RMPP_HDR_SIZE] == fields)
  {
    var s := Written(block, fields, tid);
    forall i | 0 <= i < MAD_RMPP_HDR_SIZE
      ensures TID_AT <= i < TID_AT + 8 ==> s[i] == Be(tid, 8)[i - TID_AT]
      ensures RMPP_AT <= i ==> s[i] == fields[i - RMPP_AT]
    {
      WrittenAt(block, fields, tid, i);
    }
    hide Written, Be;
  }

  // What follows the header is not touched, and what is written does not depend on it.
  lemma WrittenSides(a: seq<Byte>, b: seq<Byte>, fields: seq<Byte>, tid: nat, hdr: nat)
    requires |a| >= hdr && |b| >= hdr >= MAD_RMPP_HDR_SIZE && |fields| == MAD_RMPP_HDR_SIZE - RMPP_AT
    requires a[..hdr] == b[..hdr]
    ensures Written(a, fields, tid)[hdr..] == a[hdr..]
    ensures Written(a, fields, tid)[..hdr] == Written(b, fields, tid)[..hdr]
  {
    forall i | 0 <= i < |a|
      ensures i >= hdr ==> Written(a, fields, tid)[i] == a[i]
      ensures i < hdr ==> Written(a, fields, tid)[i] == Written(b, fields, tid)[i]
    {
      WrittenAt(a, fields, tid, i);
      if i < hdr {
        WrittenAt(b, fields, tid, i);
        assert a[i] == a[..hdr][i] == b[..hdr][i] == b[i];
      }
    }
    hide Written;
  }

  // The RMPP header fields, and the transaction id, of a block in place.
  method PutFields(buf: array<Byte>, fields: seq<Byte>)
    requires buf.Length >= MAD_RMPP_HDR_SIZE && |fields| == MAD_RMPP_HDR_SIZE - RMPP_AT
    modifies buf
    ensures buf[..] == WithFields(old(buf[..]), fields)
  {
    forall i | 0 <= i < |fields| {
      buf[RMPP_AT + i] := fields[i];
    }
    var was := WithFields(old(buf[..]), fields);
    assert forall i :: 0 <= i < buf.Length ==> buf[i] == was[i];
  }

  method PutTid(buf: array<Byte>, tid: nat)
    requires buf.Length >= MAD_RMPP_HDR_SIZE
    modifies buf
    ensures buf[..] == WithTid(old(buf[..]), tid)
  {
    var bytes := Be(tid, 8);
    forall i | 0 <= i < 8 {
      buf[TID_AT + i] := bytes[i];
    }
    var was := WithTid(old(buf[..]), tid);
    assert forall i :: 0 <= i < buf.Length ==> buf[i] == was[i];
  }
}
