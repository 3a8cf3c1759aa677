// The same transfer over a network that loses, repeats and reorders segments as well: exactly
// when the sender can succeed although the receiver has never held all of the message.
module RmppLossy {
  import opened RmppSizes
  import opened RmppSar
  import opened RmppMessages
  import opened RmppReceive
  import opened RmppRun
  import opened RmppSend
  import opened RmppTransfer
  import opened RmppServe

  // wire: every segment number ever sent; any of them may arrive at any time, again, or never.
  // accepted: the most segments that one receive context has accepted.
  datatype Net = Net(snd: Snd, wire: seq<nat>, node: Node, accepted: nat)

  datatype NetMove =
    | Sends(limit: nat)                           // start, resend after a timeout, or go on after an ACK
    | Comes(i: nat, store: bool, room: bool)      // some segment arrives
    | Hears(i: nat)                               // some reply arrives at the sender
    | Quits                                       // the sender's retries are used up
    | Lapses                                      // the receiver's transaction times out

  function After(y: Net, v: NetMove, m: Message, window: nat): Net
    requires Sendable(m) && window >= 1
  {
    match v
    case Sends(limit) =>
      y.(snd := Woken(y.snd, m.Total(), limit),
         wire := y.wire + Numbers(y.snd.first, BurstSize(y.snd, m.Total(), limit)))
    case Comes(i, store, room) =>
      if i >= |y.wire| || y.wire[i] < 1 || y.wire[i] > m.Total() then y else
        var mad := Seg(m, y.wire[i]);
        y.(node := Step(y.node, Arrives(mad, store, room), window),
           accepted := Max(y.accepted, AcceptedBy(y.node, mad, window, store, room)))
    case Hears(i) =>
      if i >= |y.node.sent| || y.snd.outcome != Running then y else
        y.(snd := Answered(y.snd, m.Total(), y.node.sent[i]))
    case Quits => y.(snd := y.snd.(errors := y.snd.errors + [TimedOut]))
    case Lapses => y.(node := Step(y.node, Expires(m.key), window))
  }

  function Lossy(m: Message, vs: seq<NetMove>, window: nat): Net
    requires Sendable(m) && window >= 1
  {
    if vs == [] then Net(START, [], Begin(m).node, 0)
    else After(Lossy(m, vs[..|vs| - 1], window), vs[|vs| - 1], m, window)
  }

  ghost predicate Attainable(y: Net, m: Message, window: nat)
    requires Sendable(m) && window >= 1
  {
    exists vs :: Lossy(m, vs, window) == y
  }

  lemma Move1(y: Net, v: NetMove, m: Message, window: nat)
    requires Sendable(m) && window >= 1 && Attainable(y, m, window)
    ensures Attainable(After(y, v, m, window), m, window)
  {
    hide After;
    var vs :| Lossy(m, vs, window) == y;
    assert (vs + [v])[..|vs + [v]| - 1] == vs;
    assert Lossy(m, vs + [v], window) == After(y, v, m, window);
  }

  // ---------- what holds in every run ----------

  ghost predicate SndIn(s: Snd, total: nat, accepted: nat)
  {
    && 1 <= s.first <= total + 1 && 1 <= s.last <= total && accepted <= s.last
    && (s.first == 1 ==> s.last == 1) && (s.first > 1 ==> accepted >= 1)
    && (s.outcome == Succeeded ==> s.first == total + 1) && SentTooFar !in s.errors
  }

  ghost predicate WireIn(wire: seq<nat>, s: Snd, accepted: nat)
  {
    && (forall i :: 0 <= i < |wire| ==> 1 <= wire[i] <= s.last)
    && (s.first == 1 ==> forall i :: 0 <= i < |wire| ==> wire[i] == 1)
    && (forall k :: 1 <= k <= accepted ==> k in wire)
  }

  ghost predicate NodeIn(n: Node, accepted: nat, m: Message)
  {
    && (forall e | e in n.ends :: e.Handed? ==> accepted == m.Total())
    && (m.key in n.txns ==>
      match n.txns[m.key]
      case Waiting(_, _) => accepted == 0
      case Receiving(_, _, _, c) => InOrder(c, m) && 2 <= c.expected <= accepted + 1)
  }

  // A segment acknowledged ahead of its turn comes with a window that ends short of its own.
  ghost predicate AckIn(r: Reply, last: nat, accepted: nat, window: nat)
  {
    r.AckOf? ==>
      && 1 <= r.seg <= last && accepted >= 1 && r.newWindow <= accepted + window
      && (r.seg <= accepted || (r.seg >= 3 && r.newWindow + 2 <= r.seg + window))
  }

  ghost predicate NetInv(y: Net, m: Message, window: nat)
  {
    && Sendable(m) && SndIn(y.snd, m.Total(), y.accepted) && WireIn(y.wire, y.snd, y.accepted)
    && NodeIn(y.node, y.accepted, m)
    && (forall i :: 0 <= i < |y.node.sent| ==> AckIn(y.node.sent[i], y.snd.last, y.accepted, window))
  }

  // The context that meets segment s, if any does.
  lemma ComesOpens(y: Net, m: Message, window: nat, s: nat)
    requires NetInv(y, m, window) && s in y.wire && 1 <= s <= m.Total()
    ensures (var o := Opened(y.node, Seg(m, s));
      && o.sent == y.node.sent && o.ends == y.node.ends
      && if m.key in o.txns then
           && o.txns[m.key].Receiving? && InOrder(o.txns[m.key].ctx, m)
           && (if o.txns[m.key].ctx.expected == 1 then s == 1 else 2 <= o.txns[m.key].ctx.expected <= y.accepted + 1)
           && (m.key in y.node.txns && y.node.txns[m.key].Receiving? ==> o == y.node)
           && (m.key !in y.node.txns ==> !m.resp)
         else o == y.node)
  {
    hide InOrder, Fits, NumSegs;
    FreshInOrder(m);
  }

  lemma SendKeeps(y: Net, m: Message, window: nat, limit: nat)
    requires NetInv(y, m, window) && window >= 1
    ensures NetInv(After(y, Sends(limit), m, window), m, window)
  {
    hide InOrder, Fits, NumSegs;
  }

  lemma HearKeeps(y: Net, m: Message, window: nat, i: nat)
    requires NetInv(y, m, window) && window >= 1
    ensures NetInv(After(y, Hears(i), m, window), m, window)
  {
    hide InOrder, Fits, NumSegs;
  }

  lemma OnWire(y: Net, total: nat, s: nat)
    requires SndIn(y.snd, total, y.accepted) && WireIn(y.wire, y.snd, y.accepted) && s in y.wire
    ensures 1 <= s <= y.snd.last
  {
  }

  // One more segment has been accepted, which was on the wire.
  lemma WireAccepted(y: Net, total: nat, accepted: nat)
    requires SndIn(y.snd, total, y.accepted) && WireIn(y.wire, y.snd, y.accepted)
    requires accepted == y.accepted || (accepted == y.accepted + 1 && accepted in y.wire)
    ensures SndIn(y.snd, total, accepted) && WireIn(y.wire, y.snd, accepted)
  {
  }

  lemma ComeKeeps(y: Net, m: Message, window: nat, i: nat, store: bool, room: bool)
    requires NetInv(y, m, window) && window >= 1 && i < |y.wire| && 1 <= y.wire[i] <= m.Total()
    ensures NetInv(After(y, Comes(i, store, room), m, window), m, window)
  {
    hide InOrder, Fits, NumSegs, Received, Opened, Seg, SndIn, WireIn;
    var s, o, z := y.wire[i], Opened(y.node, Seg(m, y.wire[i])), After(y, Comes(i, store, room), m, window);
    SegIs(m, s);
    ComesOpens(y, m, window, s);
    if m.key in o.txns {
      Verdict(o.txns[m.key].ctx, m, s, window, o.txns[m.key].tid, store, room);
    }
    OnWire(y, m.Total(), s);
    WireAccepted(y, m.Total(), z.accepted);
  }

  lemma AfterKeeps(y: Net, v: NetMove, m: Message, window: nat)
    requires NetInv(y, m, window) && window >= 1
    ensures NetInv(After(y, v, m, window), m, window)
  {
    match v
    case Sends(limit) => SendKeeps(y, m, window, limit);
    case Hears(i) => HearKeeps(y, m, window, i);
    case Comes(i, store, room) =>
      if i < |y.wire| && 1 <= y.wire[i] <= m.Total() {
        ComeKeeps(y, m, window, i, store, room);
      }
    case Quits =>
    case Lapses =>
      hide InOrder;
  }

  lemma {:induction false} LossyKeeps(m: Message, vs: seq<NetMove>, window: nat)
    requires Sendable(m) && window >= 1
    ensures NetInv(Lossy(m, vs, window), m, window)
  {
    hide NetInv, After;
    if vs == [] {
      LossyStart(m, window);
    } else {
      LossyKeeps(m, vs[..|vs| - 1], window);
      AfterKeeps(Lossy(m, vs[..|vs| - 1], window), vs[|vs| - 1], m, window);
    }
  }

  lemma LossyStart(m: Message, window: nat)
    requires Sendable(m) && window >= 1
    ensures NetInv(Lossy(m, [], window), m, window)
  {
    NumSegsCeil(m.sa, |m.bytes|);
  }

  // ---------- when the sender cannot be fooled ----------

  // A window of one, or at most two segments.
  ghost predicate Tight(y: Net)
  {
    y.snd.first <= y.accepted + 1
  }

  lemma TightKeeps(y: Net, v: NetMove, m: Message, window: nat)
    requires NetInv(y, m, window) && window >= 1 && Tight(y) && (window == 1 || m.Total() <= 2)
    ensures Tight(After(y, v, m, window))
  {
    hide InOrder, Fits, NumSegs, WireIn, NodeIn, AcceptedBy;
  }

  // A window of two, an even number of segments, and a context that is created only once.
  ghost predicate EvenIn(y: Net, m: Message)
  {
    && (m.key in y.node.txns && y.node.txns[m.key].Receiving? ==> y.node.txns[m.key].ctx.expected == y.accepted + 1)
    && (forall i :: 0 <= i < |y.node.sent| ==> EvenAck(y.node.sent[i], y.accepted, m.Total()))
    && (y.snd.last % 2 == 1 || (y.snd.last == m.Total() && y.accepted + 1 >= m.Total()))
    && (y.snd.first == m.Total() + 1 ==> y.accepted == m.Total())
  }

  ghost predicate EvenAck(r: Reply, accepted: nat, total: nat)
  {
    r.AckOf? ==>
      && (r.newWindow <= r.seg || (r.seg <= accepted && r.newWindow >= r.seg + 2))
      && (r.seg == total ==> accepted == total)
  }

  lemma EvenKeeps(y: Net, v: NetMove, m: Message)
    requires NetInv(y, m, 2) && EvenIn(y, m) && m.resp && m.Total() % 2 == 0
    ensures EvenIn(After(y, v, m, 2), m)
  {
    hide InOrder, Fits, NumSegs;
    match v
    case Comes(i, store, room) =>
      if i < |y.wire| && 1 <= y.wire[i] <= m.Total() {
        EvenComes(y, m, i, store, room);
      }
    case _ =>
  }

  lemma EvenComes(y: Net, m: Message, i: nat, store: bool, room: bool)
    requires NetInv(y, m, 2) && EvenIn(y, m) && m.resp && m.Total() % 2 == 0
    requires i < |y.wire| && 1 <= y.wire[i] <= m.Total()
    ensures EvenIn(After(y, Comes(i, store, room), m, 2), m)
  {
    hide InOrder, Fits, NumSegs, Received, Opened;
    var s, o := y.wire[i], Opened(y.node, Seg(m, y.wire[i]));
    ComesOpens(y, m, 2, s);
    if m.key in o.txns {
      var c := o.txns[m.key].ctx;
      Verdict(c, m, s, 2, o.txns[m.key].tid, store, room);
      ExpectsOne(c, m);
    }
  }

  lemma ExpectsOne(c: Ctx, m: Message)
    requires InOrder(c, m)
    ensures 1 <= c.expected <= m.Total()
  {
  }

  // Messages and windows that leave the sender no way to be fooled.
  lemma {:induction false} NotFooled(m: Message, vs: seq<NetMove>, window: nat)
    requires Sendable(m) && window >= 1 && !Foolable(m, window)
    ensures (var y := Lossy(m, vs, window);
      (window == 1 || m.Total() <= 2 ==> Tight(y)) && (m.resp && window == 2 && m.Total() % 2 == 0 ==> EvenIn(y, m)))
  {
    hide NetInv, After, Tight, EvenIn;
    if vs == [] {
      StartEven(m, window);
    } else {
      var y := Lossy(m, vs[..|vs| - 1], window);
      NotFooled(m, vs[..|vs| - 1], window);
      LossyKeeps(m, vs[..|vs| - 1], window);
      if window == 1 || m.Total() <= 2 {
        TightKeeps(y, vs[|vs| - 1], m, window);
      }
      if m.resp && window == 2 && m.Total() % 2 == 0 {
        EvenKeeps(y, vs[|vs| - 1], m);
      }
    }
  }

  lemma StartEven(m: Message, window: nat)
    requires Sendable(m) && window >= 1
    ensures (var y := Lossy(m, [], window); Tight(y) && EvenIn(y, m))
  {
    NumSegsCeil(m.sa, |m.bytes|);
  }

  // At least three segments and a window of two or more; in an answer, whose receiving context
  // cannot be created again, with a window of exactly two, an odd number of segments.
  predicate Foolable(m: Message, window: nat)
  {
    window >= 2 && m.Total() >= 3 && (m.resp ==> window >= 3 || m.Total() % 2 == 1)
  }

  // ---------- when it can ----------

  // Every run of the network that loses and reorders nothing is a run of this one.
  lemma {:induction false} Embed(m: Message, vs: seq<Move>, window: nat) returns (z: Net)
    requires Sendable(m) && window >= 1
    ensures Attainable(z, m, window) && Like(Moves(m, vs, window), z)
  {
    hide Next, After, Attainable, Like;
    if vs == [] {
      z := Net(START, [], Begin(m).node, 0);
      StartLike(m, window);
    } else {
      var y := Embed(m, vs[..|vs| - 1], window);
      z := EmbedMove(Moves(m, vs[..|vs| - 1], window), y, vs[|vs| - 1], m, window);
    }
  }

  // The same state, where the channel holds the latest segments of the wire.
  ghost predicate Like(y: Sys, z: Net)
  {
    && z.snd == y.snd && z.node == y.node && z.accepted == y.accepted
    && |y.data| <= |z.wire| && y.data == z.wire[|z.wire| - |y.data|..]
  }

  lemma StartLike(m: Message, window: nat)
    requires Sendable(m) && window >= 1
    ensures Attainable(Net(START, [], Begin(m).node, 0), m, window) && Like(Begin(m), Net(START, [], Begin(m).node, 0))
  {
    assert Lossy(m, [], window) == Net(START, [], Begin(m).node, 0);
  }

  lemma EmbedMove(y: Sys, z: Net, v: Move, m: Message, window: nat) returns (z': Net)
    requires Sendable(m) && window >= 1 && Attainable(z, m, window) && Like(y, z)
    ensures Attainable(z', m, window) && Like(Next(y, v, m, window), z')
  {
    hide Attainable, Step, AcceptedBy, NumSegs, Fits, Seg;
    var nv := match v
      case Wakes(limit) => Sends(limit)
      case Brings(store, room) => Comes(|z.wire| - |y.data|, store, room)
      case Replies(i) => Hears(i)
      case GivesUp => Quits
      case Forgets => Lapses;
    Move1(z, nv, m, window);
    z' := After(z, nv, m, window);
  }

  // A state of a run, in which the receiver holds segments 1..e.
  ghost predicate At(y: Net, m: Message, e: nat, window: nat)
  {
    Sendable(m) && window >= 1 && Attainable(y, m, window) && Holds(y.node, m, e) && e <= y.accepted
  }

  // The sender wakes and sends its window.
  lemma SendsAll(y: Net, m: Message, e: nat, window: nat) returns (z: Net)
    requires At(y, m, e, window) && 1 <= y.snd.first <= y.snd.last <= m.Total() && y.snd.outcome == Running &&
      y.snd.errors == []
    ensures At(z, m, e, window) && z == y.(wire := z.wire)
    ensures forall s :: s in y.wire || y.snd.first <= s <= y.snd.last ==> s in z.wire
  {
    hide Attainable, Holds, NumSegs, Fits;
    var limit := y.snd.last;
    Move1(y, Sends(limit), m, window);
    z := After(y, Sends(limit), m, window);
    forall s | s in y.wire || y.snd.first <= s <= y.snd.last
      ensures s in z.wire
    {
      if y.snd.first <= s {
        assert y.snd.first <= s <= y.snd.last ==> z.wire[|y.wire| + s - y.snd.first] == s;
      }
    }
  }

  // Segment s arrives out of turn: it is acknowledged all the same, with the receiver's window.
  lemma OutOfTurn(y: Net, m: Message, e: nat, s: nat, window: nat) returns (z: Net)
    requires At(y, m, e, window) && s in y.wire && 1 <= s <= m.Total() && s != e + 1
    ensures At(z, m, e, window) && z == y.(node := z.node) && z.node.sent == y.node.sent + [AckOf(s, e + window)]
  {
    hide Attainable, InOrder, NumSegs, Fits, SegBlock, Paylen, SegFields, Received;
    var i :| 0 <= i < |y.wire| && y.wire[i] == s;
    Move1(y, Comes(i, true, true), m, window);
    z := After(y, Comes(i, true, true), m, window);
    ReceiveStep(y.node.txns[m.key].ctx, m, s, window, y.node.txns[m.key].tid, true, true);
  }

  // The next segment in turn arrives.
  lemma InTurnComes(y: Net, m: Message, e: nat, window: nat) returns (z: Net)
    requires Sendable(m) && window >= 1 && Attainable(y, m, window) && e + 1 in y.wire && e + 1 < m.Total()
    requires if e == 0 then Unopened(y.node, m) else Holds(y.node, m, e)
    ensures At(z, m, e + 1, window) && z == y.(node := z.node, accepted := Max(y.accepted, e + 1))
  {
    hide Attainable, Holds, NumSegs, Fits, Seg, Step, AcceptedBy;
    var i :| 0 <= i < |y.wire| && y.wire[i] == e + 1;
    Move1(y, Comes(i, true, true), m, window);
    z := After(y, Comes(i, true, true), m, window);
    InTurnStep(y.node, m, e, window);
  }

  // The latest reply reaches the sender.
  lemma HearsLast(y: Net, m: Message, e: nat, window: nat) returns (z: Net)
    requires At(y, m, e, window) && y.node.sent != [] && y.snd.outcome == Running
    ensures At(z, m, e, window) && z == y.(snd := Answered(y.snd, m.Total(), y.node.sent[|y.node.sent| - 1]))
  {
    hide Attainable, Holds;
    Move1(y, Hears(|y.node.sent| - 1), m, window);
    z := After(y, Hears(|y.node.sent| - 1), m, window);
  }

  // Segment s closes the sender's window, although the receiver has only e segments.
  lemma Closes(y: Net, m: Message, e: nat, s: nat, window: nat) returns (z: Net)
    requires At(y, m, e, window) && y.snd.last == s <= m.Total() && 1 <= s && s != e + 1 && s in y.wire
    requires y.snd.outcome == Running && s <= e + window
    ensures At(z, m, e, window) && z.wire == y.wire && z.accepted == y.accepted
    ensures z.snd == Snd(s + 1, if e + window < m.Total() then e + window else m.Total(), y.snd.errors, Running)
  {
    hide At, NumSegs, Fits;
    z := OutOfTurn(y, m, e, s, window);
    z := HearsLast(z, m, e, window);
  }

  ghost predicate Fooled(y: Net, m: Message)
  {
    y.snd.outcome == Succeeded && y.accepted < m.Total()
  }

  // The last segment closes the last window: the sender wakes and succeeds.
  lemma Finishes(y: Net, m: Message, e: nat, window: nat) returns (z: Net)
    requires At(y, m, e, window) && y.accepted < m.Total() && m.Total() in y.wire && m.Total() <= e + window
    requires y.snd.last == m.Total() > e + 1 && y.snd.outcome == Running && y.snd.errors == []
    ensures Attainable(z, m, window) && Fooled(z, m)
  {
    hide Attainable, Holds, NumSegs, Fits;
    z := Closes(y, m, e, m.Total(), window);
    Move1(z, Sends(0), m, window);
    z := After(z, Sends(0), m, window);
  }

  // The same point of the transfer in this network.
  lemma Meet(y: Sys, m: Message, k: nat, window: nat) returns (z: Net)
    requires window >= 1 && 1 <= k && Between(y, m, k, window) && Reachable(y, m, window)
    ensures At(z, m, k, window) && z.snd == Window(k, m.Total(), window) && z.accepted == k
  {
    hide Moves, Attainable, Holds, NumSegs, Fits;
    var vs :| Moves(m, vs, window) == y;
    z := Embed(m, vs, window);
  }

  // Two segments or more are left: only the last one comes through.
  lemma LosesRest(y: Net, m: Message, k: nat, window: nat) returns (z: Net)
    requires At(y, m, k, window) && y.snd == Window(k, m.Total(), window) && y.accepted == k
    requires 1 <= k && k + 2 <= m.Total() <= k + window
    ensures Attainable(z, m, window) && Fooled(z, m)
  {
    hide At, Attainable, NumSegs, Fits;
    z := SendsAll(y, m, k, window);
    z := Finishes(z, m, k, window);
  }

  // One segment would be left: in the window before that, the first and the last come through.
  lemma LosesMiddle(y: Net, m: Message, k: nat, window: nat) returns (z: Net)
    requires At(y, m, k, window) && y.snd == Window(k, m.Total(), window) && y.accepted == k
    requires 1 <= k && k + window + 1 == m.Total() && window >= 3
    ensures Attainable(z, m, window) && Fooled(z, m)
  {
    hide Attainable, Holds, NumSegs, Fits;
    z := SendsAll(y, m, k, window);
    z := InTurnComes(z, m, k, window);
    z := Closes(z, m, k + 1, m.Total() - 1, window);
    z := SendsAll(z, m, k + 1, window);
    z := Finishes(z, m, k + 1, window);
  }

  // One segment is left and the peer started the transfer: the receiver forgets it, starts again
  // from old copies, and gets as far as the last but two.
  lemma StartsAgain(y: Net, m: Message, k: nat, window: nat) returns (z: Net)
    requires At(y, m, k, window) && y.snd == Window(k, m.Total(), window) && y.accepted == k
    requires 2 <= k && k + 1 == m.Total() && window >= 2 && !m.resp
    ensures Attainable(z, m, window) && Fooled(z, m)
  {
    hide Attainable, Holds, NumSegs, Fits;
    z := SendsAll(y, m, k, window);
    SentBefore(z, m, window);
    Move1(z, Lapses, m, window);
    z := After(z, Lapses, m, window);
    z := Again(z, m, k - 1, window);
    z := Finishes(z, m, k - 1, window);
  }

  lemma SentBefore(y: Net, m: Message, window: nat)
    requires Sendable(m) && window >= 1 && Attainable(y, m, window)
    ensures forall s :: 1 <= s <= y.accepted ==> s in y.wire
  {
    var vs :| Lossy(m, vs, window) == y;
    LossyKeeps(m, vs, window);
  }

  lemma {:induction false} Again(y: Net, m: Message, e: nat, window: nat) returns (z: Net)
    requires Sendable(m) && window >= 1 && Attainable(y, m, window) && Unopened(y.node, m)
    requires 1 <= e < m.Total() && e <= y.accepted && forall s :: 1 <= s <= y.accepted ==> s in y.wire
    ensures At(z, m, e, window) && z == y.(node := z.node)
  {
    hide Attainable, Holds, NumSegs, Fits;
    if e == 1 {
      z := InTurnComes(y, m, 0, window);
    } else {
      z := Again(y, m, e - 1, window);
      z := InTurnComes(z, m, e - 1, window);
    }
  }

  lemma CanBeFooled(m: Message, window: nat) returns (z: Net)
    requires Sendable(m) && window >= 1 && Foolable(m, window)
    ensures Attainable(z, m, window) && Fooled(z, m)
  {
    hide Reachable, Attainable, Between, At, NumSegs, Fits;
    StartBetween(m, window);
    var y := ServeWindow(Begin(m), m, 0, window);
    var a, b, k := Climb(m, y, 1, window);
    if k + 2 <= m.Total() {
      z := Meet(b, m, k, window);
      z := LosesRest(z, m, k, window);
    } else if window >= 3 {
      z := Meet(a, m, k - window, window);
      z := LosesMiddle(z, m, k - window, window);
    } else {
      z := Meet(b, m, k, window);
      z := StartsAgain(z, m, k, window);
    }
  }

  // A run in which the sender succeeds with segments missing, and one in which something has been
  // handed over.
  ghost predicate Fools(m: Message, vs: seq<NetMove>, window: nat)
    requires Sendable(m) && window >= 1
  {
    Fooled(Lossy(m, vs, window), m)
  }

  ghost predicate Hands(m: Message, vs: seq<NetMove>, window: nat)
    requires Sendable(m) && window >= 1
  {
    exists e :: e in Lossy(m, vs, window).node.ends && e.Handed?
  }

  lemma FoolsOnly(m: Message, vs: seq<NetMove>, window: nat)
    requires Sendable(m) && window >= 1 && Fools(m, vs, window)
    ensures Foolable(m, window) && !Hands(m, vs, window)
  {
    LossyKeeps(m, vs, window);
    if !Foolable(m, window) {
      NotFooled(m, vs, window);
    }
  }

  // Over a network that loses and reorders segments, the sender can succeed with segments missing
  // if and only if the window is two or more and the message has three segments or more; with a
  // window of exactly two an answer must also have an odd number of them.  The receiver's client
  // has then been handed nothing.
  lemma LossFoolsSender(m: Message, window: nat)
    requires Sendable(m) && window >= 1
    ensures (exists vs :: Fools(m, vs, window)) <==> Foolable(m, window)
    ensures forall vs :: Fools(m, vs, window) ==> !Hands(m, vs, window)
  {
    hide Lossy, NumSegs, Fits, Foolable, Hands;
    if Foolable(m, window) {
      var z := CanBeFooled(m, window);
      var vs :| Lossy(m, vs, window) == z;
      assert Fools(m, vs, window);
    }
    forall vs | Fools(m, vs, window)
      ensures Foolable(m, window) && !Hands(m, vs, window)
    {
      FoolsOnly(m, vs, window);
    }
  }
}
