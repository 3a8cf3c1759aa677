// One transfer from end to end: a sender, a receiving node, a data channel that neither loses nor
// reorders, and acknowledgements that may be lost, repeated and reordered.
module RmppTransfer {
  import opened RmppSizes
  import opened RmppSar
  import opened RmppMessages
  import opened RmppReceive
  import opened RmppRun
  import opened RmppSend

  // data: segment numbers on their way.  node.sent keeps every reply, so that any of them may
  // reach the sender at any time.  accepted: how many segments some receive context has accepted,
  // in order.  picked: the last reply that reached the sender.
  datatype Sys = Sys(snd: Snd, data: seq<nat>, node: Node, accepted: nat, picked: nat)

  datatype Move =
    | Wakes(limit: nat)                    // start, resend after a timeout, or go on after an ACK
    | Brings(store: bool, room: bool)      // the oldest segment arrives
    | Replies(i: nat)                      // some reply arrives at the sender
    | GivesUp                              // the sender's retries are used up
    | Forgets                              // the receiver's transaction times out

  function Max(a: nat, b: nat): nat
  {
    if a >= b then a else b
  }

  function Pred(e: nat): nat
  {
    if e > 0 then e - 1 else 0
  }

  // Segment numbers a, a + 1, ..., count of them.
  function Numbers(a: nat, count: nat): (s: seq<nat>)
    ensures |s| == count && forall i :: 0 <= i < count ==> s[i] == a + i
  {
    seq(count, i requires 0 <= i < count => a + i)
  }

  // How many segments the context that takes this MAD has accepted afterwards.
  function AcceptedBy(n: Node, mad: Mad, window: nat, store: bool, room: bool): nat
    requires window >= 1
  {
    var o := Opened(n, mad);
    if mad.key in o.txns && o.txns[mad.key].Receiving? then
      Pred(Received(o.txns[mad.key].ctx, mad, window, o.txns[mad.key].tid, store, room).ctx.expected)
    else 0
  }

  // The control MAD that carries a reply, as far as the sender looks at it.
  function MadOf(r: Reply): Mad
    requires !r.NoReply?
  {
    match r
    case AckOf(seg, newWindow) => Mad(0, false, false, Kind.Ack, false, false, seg, newWindow, [])
    case AbortBadLen => Mad(0, false, false, Kind.Abort, false, false, 0, 0, [])
    case StopNoMemory => Mad(0, false, false, Kind.Stop, false, false, 0, 0, [])
  }

  // The sender when a reply reaches it.
  function Answered(s: Snd, total: nat, r: Reply): Snd
  {
    if r.NoReply? then s else Heard(s, total, MadOf(r))
  }

  function Next(y: Sys, v: Move, m: Message, window: nat): Sys
    requires Sendable(m) && window >= 1
  {
    match v
    case Wakes(limit) =>
      y.(snd := Woken(y.snd, m.Total(), limit),
         data := y.data + Numbers(y.snd.first, BurstSize(y.snd, m.Total(), limit)))
    case Brings(store, room) =>
      if y.data == [] || y.data[0] < 1 || y.data[0] > m.Total() then y else
        var mad := Seg(m, y.data[0]);
        y.(data := y.data[1..],
           node := Step(y.node, Arrives(mad, store, room), window),
           accepted := Max(y.accepted, AcceptedBy(y.node, mad, window, store, room)))
    case Replies(i) =>
      if i >= |y.node.sent| || y.snd.outcome != Running then y else
        y.(snd := Answered(y.snd, m.Total(), y.node.sent[i]), picked := i)
    case GivesUp => y.(snd := y.snd.(errors := y.snd.errors + [TimedOut]))
    case Forgets => y.(node := Step(y.node, Expires(m.key), window))
  }

  // The peer starts the transfer, or answers a request that the receiving node has made.
  function Begin(m: Message): Sys
  {
    var asked := Node(map[m.key := Waiting(0, m.asked)], [Start(m.key, false, m.asked)], [], []);
    Sys(START, [], if m.resp then asked else IDLE, 0, 0)
  }

  function Moves(m: Message, vs: seq<Move>, window: nat): Sys
    requires Sendable(m) && window >= 1
  {
    if vs == [] then Begin(m) else Next(Moves(m, vs[..|vs| - 1], window), vs[|vs| - 1], m, window)
  }

  // ---------- the invariant ----------

  // What a receiver expecting e finds on the channel: never a segment beyond the one it expects.
  ghost predicate Gapless(e: nat, data: seq<nat>)
    decreases |data|
  {
    data == [] || (data[0] <= e && Gapless(if data[0] == e then e + 1 else e, data[1..]))
  }

  ghost predicate SndOk(s: Snd, total: nat, accepted: nat, window: nat)
  {
    && 1 <= s.first <= total + 1 && 1 <= s.last <= total
    && (s.first <= s.last || s.first == total + 1)
    && (s.first == 1 ==> s.last == 1)
    && s.first - 1 <= accepted <= s.last <= accepted + window
    && SentTooFar !in s.errors
    && (s.outcome == Succeeded ==> accepted == total)
  }

  ghost predicate ChannelOk(data: seq<nat>, s: Snd, accepted: nat)
  {
    && (forall i :: 0 <= i < |data| ==> 1 <= data[i] <= s.last)
    && (s.first == 1 ==> forall i :: 0 <= i < |data| ==> data[i] == 1)
    && (forall i, j :: 0 <= i < j < |data| && data[j] == 1 ==> data[i] == 1)
    && (data != [] && data[0] == 1 ==> accepted <= 1 && Gapless(2, data))
  }

  // The transaction id under which the receiver's client knows the transfer.
  function ClientTid(m: Message): nat
  {
    if m.resp then m.asked else m.key
  }

  ghost predicate NodeOk(n: Node, data: seq<nat>, accepted: nat, m: Message)
  {
    && (m.key in n.txns ==>
      match n.txns[m.key]
      case Waiting(_, tid) => accepted == 0 && m.resp && tid == m.asked
      case Receiving(_, _, tid, c) =>
        tid == ClientTid(m) &&
        InOrder(c, m) && c.expected == accepted + 1 && c.expected >= 2 && Gapless(c.expected, data))
  }

  ghost predicate RepliesOk(sent: seq<Reply>, accepted: nat, window: nat)
  {
    && (forall i :: 0 <= i < |sent| && sent[i].AckOf? ==>
          1 <= sent[i].seg <= accepted && sent[i].seg + window <= sent[i].newWindow <= accepted + window)
    && (forall i, j :: 0 <= i < j < |sent| && sent[i].AckOf? && sent[j].AckOf? ==>
       sent[i].newWindow <= sent[j].newWindow)
  }

  ghost predicate Inv(y: Sys, m: Message, window: nat)
  {
    && Sendable(m) && SndOk(y.snd, m.Total(), y.accepted, window)
    && ChannelOk(y.data, y.snd, y.accepted)
    && NodeOk(y.node, y.data, y.accepted, m)
    && RepliesOk(y.node.sent, y.accepted, window)
  }

  // ---------- the channel ----------

  // A window that starts no later than the segment expected leaves no gap.
  lemma {:induction false} GaplessBurst(e: nat, data: seq<nat>, a: nat, count: nat)
    requires Gapless(e, data) && a <= e
    ensures Gapless(e, data + Numbers(a, count))
    decreases |data|, count
  {
    if data != [] {
      var t := data + Numbers(a, count);
      GaplessBurst(if data[0] == e then e + 1 else e, data[1..], a, count);
      assert t[0] == data[0] && t[1..] == data[1..] + Numbers(a, count);
    } else {
      assert data + Numbers(a, count) == Numbers(a, count);
      GaplessNumbers(e, a, count);
    }
  }

  lemma {:induction false} GaplessNumbers(e: nat, a: nat, count: nat)
    requires a <= e
    ensures Gapless(e, Numbers(a, count))
    decreases count
  {
    if count > 0 {
      var t := Numbers(a, count);
      GaplessNumbers(if a == e then e + 1 else e, a + 1, count - 1);
      assert t[1..] == Numbers(a + 1, count - 1);
    }
  }

  // ---------- the sender's moves ----------

  // The window on the channel: not before what the receiver has accepted.
  lemma ChannelMore(data: seq<nat>, s: Snd, total: nat, accepted: nat, window: nat, count: nat)
    requires ChannelOk(data, s, accepted) && SndOk(s, total, accepted, window)
    requires 1 <= count <= s.last + 1 - s.first
    ensures ChannelOk(data + Numbers(s.first, count), s, accepted)
  {
    if data != [] && data[0] == 1 {
      GaplessBurst(2, data, s.first, count);
    } else if data == [] && s.first == 1 {
      assert data + Numbers(1, count) == Numbers(1, count);
      GaplessNumbers(2, 1, count);
    }
  }

  lemma NodeMore(n: Node, data: seq<nat>, s: Snd, accepted: nat, m: Message, count: nat)
    requires NodeOk(n, data, accepted, m) && s.first <= accepted + 1
    ensures NodeOk(n, data + Numbers(s.first, count), accepted, m)
  {
    hide InOrder;
    if m.key in n.txns && n.txns[m.key].Receiving? {
      GaplessBurst(n.txns[m.key].ctx.expected, data, s.first, count);
    }
  }

  lemma ChannelSame(data: seq<nat>, s: Snd, s': Snd, accepted: nat)
    requires ChannelOk(data, s, accepted) && s'.first == s.first && s'.last == s.last
    ensures ChannelOk(data, s', accepted)
  {
    hide Gapless;
  }

  lemma WakeKeeps(y: Sys, m: Message, window: nat, limit: nat)
    requires Inv(y, m, window) && window >= 1
    ensures Inv(Next(y, Wakes(limit), m, window), m, window)
  {
    hide NumSegs, Fits, ChannelOk, NodeOk, RepliesOk;
    var z := Next(y, Wakes(limit), m, window);
    var count := BurstSize(y.snd, m.Total(), limit);
    if count > 0 {
      ChannelMore(y.data, y.snd, m.Total(), y.accepted, window, count);
      NodeMore(y.node, y.data, y.snd, y.accepted, m, count);
    } else {
      assert z.data == y.data;
    }
    ChannelSame(z.data, y.snd, z.snd, y.accepted);
  }

  lemma ReplyKeeps(y: Sys, m: Message, window: nat, i: nat)
    requires Inv(y, m, window) && window >= 1
    ensures Inv(Next(y, Replies(i), m, window), m, window)
  {
    hide InOrder, Fits, NumSegs, Gapless;
  }

  // ---------- the receiver's moves ----------

  // The context that a segment leaves behind, and the answer.
  lemma Verdict(c: Ctx, m: Message, s: nat, window: nat, tid: nat, store: bool, room: bool)
    requires InOrder(c, m) && 1 <= s <= m.Total() && (s <= c.expected || c.expected >= 2) && window >= 1
    ensures (var r := Received(c, Seg(m, s), window, tid, store, room);
      && (r.delivery != NotYet ==> r.ctx.expected == m.Total() + 1)
      && r.ctx.expected == (if s == c.expected && store then c.expected + 1 else c.expected)
      && (r.reply == AckOf(s, r.ctx.expected + window - 1) || (r.reply == StopNoMemory && r.status != Success))
      && (r.reply.AckOf? && s <= c.expected ==> s < r.ctx.expected)
      && (r.status == Success && r.delivery == NotYet ==> InOrder(r.ctx, m) && r.ctx.expected >= 2))
  {
    ReceiveStep(c, m, s, window, tid, store, room);
    hide InOrder, NumSegs, Fits, LengthReached, FromFirst, FromLast, SegBlock, Paylen, Assembled, FinalSize;
  }

  // The context the oldest segment meets, if any.
  ghost predicate Meets(y: Sys, m: Message, c: Ctx)
    requires y.data != []
  {
    && InOrder(c, m) && y.data[0] <= c.expected
    && if c.expected == 1 then y.data[0] == 1 && y.accepted <= 1 && Gapless(2, y.data)
       else c.expected == y.accepted + 1 && Gapless(c.expected, y.data)
  }

  lemma BringOpens(y: Sys, m: Message, window: nat)
    requires Inv(y, m, window) && y.data != [] && y.data[0] <= m.Total()
    ensures 1 <= y.data[0]
    ensures (var o := Opened(y.node, Seg(m, y.data[0]));
      && o.sent == y.node.sent
      && if m.key in o.txns then
           o.txns[m.key].Receiving? && o.txns[m.key].tid == ClientTid(m) && Meets(y, m, o.txns[m.key].ctx)
         else o == y.node)
  {
    hide InOrder, Fits, NumSegs;
    FreshInOrder(m);
  }

  // One segment off the channel.
  lemma ChannelTail(y: Sys, m: Message, window: nat, e: nat, accepted: nat)
    requires Inv(y, m, window) && y.data != []
    requires accepted == Max(y.accepted, Pred(e))
    requires e > y.accepted + 1 ==> e == y.data[0] + 1
    ensures ChannelOk(y.data[1..], y.snd, accepted) && SndOk(y.snd, m.Total(), accepted, window)
  {
    hide InOrder, Fits, NumSegs;
    assert y.data[0] <= y.snd.last;
    var t := y.data[1..];
    assert forall i :: 0 <= i < |t| ==> t[i] == y.data[i + 1];
  }

  lemma BringKeeps(y: Sys, m: Message, window: nat, store: bool, room: bool)
    requires Inv(y, m, window) && window >= 1 && y.data != [] && y.data[0] <= m.Total()
    ensures Inv(Next(y, Brings(store, room), m, window), m, window)
  {
    hide InOrder, Fits, NumSegs, Received, ChannelOk, SndOk, Opened, Seg;
    BringOpens(y, m, window);
    var s, o := y.data[0], Opened(y.node, Seg(m, y.data[0]));
    SegIs(m, s);
    if m.key in o.txns {
      var c, tid := o.txns[m.key].ctx, o.txns[m.key].tid;
      var r := Received(c, Seg(m, s), window, tid, store, room);
      Verdict(c, m, s, window, tid, store, room);
      ChannelTail(y, m, window, r.ctx.expected, Max(y.accepted, Pred(r.ctx.expected)));
    } else {
      ChannelTail(y, m, window, 0, y.accepted);
    }
  }

  // ---------- every run ----------

  lemma NextKeeps(y: Sys, v: Move, m: Message, window: nat)
    requires Inv(y, m, window) && window >= 1
    ensures Inv(Next(y, v, m, window), m, window)
  {
    match v
    case Wakes(limit) => WakeKeeps(y, m, window, limit);
    case Replies(i) => ReplyKeeps(y, m, window, i);
    case Brings(store, room) =>
      if y.data != [] && 1 <= y.data[0] <= m.Total() {
        BringKeeps(y, m, window, store, room);
      }
    case GivesUp =>
    case Forgets =>
      hide InOrder, Gapless, ChannelOk;
  }

  lemma BeginOk(m: Message, window: nat)
    requires Sendable(m) && window >= 1
    ensures Inv(Begin(m), m, window)
  {
    NumSegsCeil(m.sa, |m.bytes|);
  }

  lemma {:induction false} MovesKeep(m: Message, vs: seq<Move>, window: nat)
    requires Sendable(m) && window >= 1
    ensures Inv(Moves(m, vs, window), m, window)
  {
    hide Inv, Next;
    if vs == [] {
      BeginOk(m, window);
    } else {
      MovesKeep(m, vs[..|vs| - 1], window);
      NextKeeps(Moves(m, vs[..|vs| - 1], window), vs[|vs| - 1], m, window);
    }
  }

  // Whatever the acknowledgements, the timeouts and the memory do: the sender succeeds only when
  // every segment has been accepted in order; it is never told of a segment it has not sent; and
  // a window that has been acknowledged in full is followed by a new one until all is done.
  lemma SuccessMeansComplete(m: Message, vs: seq<Move>, window: nat)
    requires Sendable(m) && window >= 1
    ensures (var y := Moves(m, vs, window);
      && (y.snd.outcome == Succeeded ==> y.accepted == m.Total())
      && SentTooFar !in y.snd.errors
      && (y.snd.first <= y.snd.last || y.snd.first == m.Total() + 1))
  {
    MovesKeep(m, vs, window);
  }

  // ---------- what success delivers ----------

  // Runs in which memory never runs out at the receiver and its transaction timer does not expire.
  ghost predicate Untroubled(vs: seq<Move>)
  {
    forall v | v in vs :: v != Forgets && (v.Brings? ==> v.store && v.room)
  }

  ghost predicate HandedOver(n: Node, m: Message)
    requires Fits(m.sa, |m.bytes|)
  {
    exists i :: 0 <= i < |n.ends| && n.ends[i].Handed? && n.ends[i].key == m.key && n.ends[i].tid == ClientTid(m) &&
      n.ends[i].what == Whole(Delivered(m, ClientTid(m)))
  }

  lemma BringHands(y: Sys, m: Message, window: nat)
    requires Inv(y, m, window) && window >= 1 && y.data != [] && y.data[0] <= m.Total()
    requires y.accepted == m.Total() ==> HandedOver(y.node, m)
    ensures (var z := Next(y, Brings(true, true), m, window); z.accepted == m.Total() ==> HandedOver(z.node, m))
  {
    hide InOrder, Fits, NumSegs, Received, ChannelOk, SndOk, Opened;
    BringOpens(y, m, window);
    var s, o := y.data[0], Opened(y.node, Seg(m, y.data[0]));
    var z := Next(y, Brings(true, true), m, window);
    OpenedHands(y.node, Seg(m, s));
    if m.key in o.txns {
      var c, tid := o.txns[m.key].ctx, o.txns[m.key].tid;
      var r := Received(c, Seg(m, s), window, tid, true, true);
      ReceiveStep(c, m, s, window, tid, true, true);
      Verdict(c, m, s, window, tid, true, true);
      HandedLater(y.node, z.node, m);
      if y.accepted < m.Total() == z.accepted {
        assert s == c.expected == m.Total();
        var last := z.node.ends[|z.node.ends| - 1];
        assert last.what == Whole(Delivered(m, tid)) && last.tid == tid;
      }
    }
  }

  lemma OpenedHands(n: Node, mad: Mad)
    ensures Opened(n, mad).ends == n.ends
  {
  }

  lemma HandedLater(n: Node, n': Node, m: Message)
    requires Fits(m.sa, |m.bytes|)
    requires HandedOver(n, m) ==> n.ends <= n'.ends
    ensures HandedOver(n, m) ==> HandedOver(n', m)
  {
  }

  lemma NextHands(y: Sys, v: Move, m: Message, window: nat)
    requires Inv(y, m, window) && window >= 1 && v != Forgets && (v.Brings? ==> v.store && v.room)
    requires y.accepted == m.Total() ==> HandedOver(y.node, m)
    ensures (var z := Next(y, v, m, window); z.accepted == m.Total() ==> HandedOver(z.node, m))
  {
    if v.Brings? && y.data != [] && 1 <= y.data[0] <= m.Total() {
      BringHands(y, m, window);
    }
    hide Fits, NumSegs, Received, HandedOver, Inv;
  }

  lemma {:induction false} HandsOver(m: Message, vs: seq<Move>, window: nat)
    requires Sendable(m) && window >= 1 && Untroubled(vs)
    ensures Moves(m, vs, window).accepted == m.Total() ==> HandedOver(Moves(m, vs, window).node, m)
  {
    hide Fits, NumSegs, HandedOver, Next, Inv;
    if vs == [] {
      NumSegsCeil(m.sa, |m.bytes|);
    } else {
      assert vs[|vs| - 1] in vs;
      assert forall v | v in vs[..|vs| - 1] :: v in vs;
      HandsOver(m, vs[..|vs| - 1], window);
      MovesKeep(m, vs[..|vs| - 1], window);
      NextHands(Moves(m, vs[..|vs| - 1], window), vs[|vs| - 1], m, window);
    }
  }

  // A sender that succeeds has had its message handed to the receiver, as it is delivered.
  lemma SuccessMeansDelivered(m: Message, vs: seq<Move>, window: nat)
    requires Sendable(m) && window >= 1 && Untroubled(vs)
    ensures Moves(m, vs, window).snd.outcome == Succeeded ==> HandedOver(Moves(m, vs, window).node, m)
  {
    hide Moves, HandedOver;
    SuccessMeansComplete(m, vs, window);
    HandsOver(m, vs, window);
  }

  // ---------- acknowledgements in order ----------

  // Replies may be lost or repeated, but none overtakes another.
  ghost predicate InOrderReplies(m: Message, vs: seq<Move>, window: nat)
    requires Sendable(m) && window >= 1
  {
    vs == [] || (
      && InOrderReplies(m, vs[..|vs| - 1], window)
      && (vs[|vs| - 1].Replies? ==> vs[|vs| - 1].i >= Moves(m, vs[..|vs| - 1], window).picked))
  }

  // No reply still to come offers less than the window the sender has.
  ghost predicate Wide(y: Sys)
  {
    && WindowShrank !in y.snd.errors
    && forall j :: y.picked <= j < |y.node.sent| && y.node.sent[j].AckOf? ==> y.node.sent[j].newWindow >= y.snd.last
  }

  lemma NextWide(y: Sys, v: Move, m: Message, window: nat)
    requires Inv(y, m, window) && window >= 1 && Wide(y) && (v.Replies? ==> v.i >= y.picked)
    ensures Wide(Next(y, v, m, window))
  {
    hide InOrder, Fits, NumSegs, Gapless, ChannelOk;
    match v
    case Brings(store, room) =>
      if y.data != [] && 1 <= y.data[0] <= m.Total() {
        BringKeeps(y, m, window, store, room);
        BringSends(y, m, window, store, room);
      }
    case _ =>
  }

  // The receiver adds at most one reply, which offers at least what has been accepted before.
  lemma BringSends(y: Sys, m: Message, window: nat, store: bool, room: bool)
    requires Inv(y, m, window) && window >= 1 && y.data != [] && y.data[0] <= m.Total()
    ensures (var z := Next(y, Brings(store, room), m, window);
      && y.node.sent <= z.node.sent && |z.node.sent| <= |y.node.sent| + 1
      && forall j :: |y.node.sent| <= j < |z.node.sent| && z.node.sent[j].AckOf? ==>
         z.node.sent[j].newWindow >= y.accepted + window)
  {
    hide InOrder, Fits, NumSegs, Received, ChannelOk, SndOk, Opened;
    BringOpens(y, m, window);
    var s, o := y.data[0], Opened(y.node, Seg(m, y.data[0]));
    if m.key in o.txns {
      Verdict(o.txns[m.key].ctx, m, s, window, o.txns[m.key].tid, store, room);
    }
  }

  // With acknowledgements in order as well, the sender never sees its window shrink.
  lemma {:induction false} NeverShrinks(m: Message, vs: seq<Move>, window: nat)
    requires Sendable(m) && window >= 1 && InOrderReplies(m, vs, window)
    ensures Wide(Moves(m, vs, window))
  {
    hide Inv, Next, Wide;
    if vs == [] {
      BeginWide(m);
    } else {
      NeverShrinks(m, vs[..|vs| - 1], window);
      MovesKeep(m, vs[..|vs| - 1], window);
      NextWide(Moves(m, vs[..|vs| - 1], window), vs[|vs| - 1], m, window);
    }
  }

  lemma BeginWide(m: Message)
    ensures Wide(Begin(m))
  {
  }
}
