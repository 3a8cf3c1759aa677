// Whole runs of the receiving node: any number of transfers over a network that may lose, repeat
// and reorder MADs, with contexts created, completed, failed and timed out along the way.
module RmppRun {
  import opened RmppSizes
  import opened RmppSar
  import opened RmppHeader
  import opened RmppMessages
  import opened RmppReceive

  // What has been started: a request of this node, or a transfer of the peer's; tid is the
  // transaction id its client knows.
  datatype Start = Start(key: nat, byPeer: bool, tid: nat)

  // A transaction of the node, as far as receiving goes: a request of its own that awaits the
  // answer, or a transfer being received.  id is its number in the order of starting.
  datatype Txn = Waiting(id: nat, tid: nat) | Receiving(id: nat, byPeer: bool, tid: nat, ctx: Ctx)

  // How a transaction has ended: a receive callback, with what it was given and how many segments
  // had been accepted; an error callback; or, a transfer of the peer's, without any.
  datatype End =
    | Handed(key: nat, id: nat, byPeer: bool, tid: nat, segments: int, what: Delivery)
    | Errored(key: nat, id: nat)
    | Dropped(key: nat, id: nat)

  datatype Node = Node(txns: map<nat, Txn>, started: seq<Start>, ends: seq<End>, sent: seq<Reply>)

  const IDLE: Node := Node(map[], [], [], [])

  datatype Event =
    | Arrives(mad: Mad, store: bool, room: bool)
    | Asks(key: nat, tid: nat)
    | Expires(key: nat)

  // The transfer that a MAD belongs to, created when it may be: by the first DATA segment of a
  // transfer the peer initiates, or by any RMPP answer to a request of this node.
  function Opened(n: Node, mad: Mad): Node
  {
    if mad.key in n.txns then
      if n.txns[mad.key].Waiting? then
        n.(txns := n.txns[mad.key := Receiving(n.txns[mad.key].id, false, n.txns[mad.key].tid, FRESH)])
      else n
    else if mad.resp || mad.kind != Data || !mad.first then n
    else
      n.(txns := n.txns[mad.key := Receiving(|n.started|, true, mad.key, FRESH)],
         started := n.started + [Start(mad.key, true, mad.key)])
  }

  // The transaction is given up: the client of a request is told, by its error callback.
  function GivenUp(n: Node, key: nat): Node
    requires key in n.txns
  {
    var t := n.txns[key];
    n.(txns := n.txns - {key},
       ends := n.ends + [if t.Receiving? && t.byPeer then Dropped(key, t.id) else Errored(key, t.id)])
  }

  // What the receiver's verdict does to the transaction: delivery and failure both end it.
  function Settled(n: Node, key: nat, t: Txn, r: Result): Node
    requires t.Receiving? && key in n.txns && n.txns[key] == t
  {
    var said := n.(sent := n.sent + [r.reply]);
    if r.status != Success then GivenUp(said, key)
    else if r.delivery != NotYet then
      said.(txns := n.txns - {key},
            ends := n.ends + [Handed(key, t.id, t.byPeer, t.tid, r.ctx.expected - 1, r.delivery)])
    else said.(txns := n.txns[key := t.(ctx := r.ctx)])
  }

  function Step(n: Node, e: Event, window: nat): Node
    requires window >= 1
  {
    match e
    case Asks(key, tid) =>
      if key in n.txns then n
      else n.(txns := n.txns[key := Waiting(|n.started|, tid)], started := n.started + [Start(key, false, tid)])
    case Expires(key) => if key in n.txns then GivenUp(n, key) else n
    case Arrives(mad, store, room) =>
      var o := Opened(n, mad);
      if mad.key in o.txns && o.txns[mad.key].Receiving? then
        var t := o.txns[mad.key];
        Settled(o, mad.key, t, Received(t.ctx, mad, window, t.tid, store, room))
      else o
  }

  function Run(n: Node, es: seq<Event>, window: nat): Node
    requires window >= 1
  {
    if es == [] then n else Step(Run(n, es[..|es| - 1], window), es[|es| - 1], window)
  }

  // The network: any segment of the messages being sent, any number of times, in any order, and
  // control MADs; never a damaged segment.
  ghost predicate Carried(msgs: map<nat, Message>, e: Event)
  {
    e.Arrives? ==>
      && e.mad.key in msgs
      && (e.mad.kind == Data ==> exists k :: SegOf(msgs[e.mad.key], k, e.mad))
  }

  ghost predicate SegOf(m: Message, k: nat, mad: Mad)
  {
    Sendable(m) && 1 <= k <= m.Total() && mad == Seg(m, k)
  }

  ghost predicate AllSendable(msgs: map<nat, Message>)
  {
    forall key | key in msgs :: Sendable(msgs[key]) && msgs[key].key == key
  }

  // ---------- the invariant of every run ----------

  ghost predicate TxnOk(msgs: map<nat, Message>, key: nat, t: Txn)
  {
    t.Receiving? ==> key in msgs && InOrder(t.ctx, msgs[key]) && (t.byPeer ==> t.tid == key)
  }

  ghost predicate HandedOk(msgs: map<nat, Message>, h: End)
    requires AllSendable(msgs)
  {
    h.Handed? ==>
      && h.key in msgs && h.segments == msgs[h.key].Total() && h.what == Whole(Delivered(msgs[h.key], h.tid))
      && (h.byPeer ==> h.tid == h.key)
  }

  ghost predicate Safe(msgs: map<nat, Message>, n: Node)
    requires AllSendable(msgs)
  {
    && (forall key | key in n.txns :: TxnOk(msgs, key, n.txns[key]))
    && (forall h | h in n.ends :: HandedOk(msgs, h))
    && AbortBadLen !in n.sent
  }

  // ---------- every transaction ends once ----------

  ghost predicate InProgress(n: Node, id: nat)
  {
    exists key :: key in n.txns && n.txns[key].id == id
  }

  ghost predicate HasEnded(n: Node, id: nat)
  {
    exists i :: 0 <= i < |n.ends| && n.ends[i].id == id
  }

  // A transaction in progress is the one that was started under its number.
  ghost predicate TxnKnown(n: Node, key: nat)
    requires key in n.txns
  {
    var t := n.txns[key];
    t.id < |n.started| && n.started[t.id] == Start(key, t.Receiving? && t.byPeer, t.tid)
  }

  // So is one that has ended; an error callback goes to a request of this node's, and what is
  // dropped without one was the peer's.
  ghost predicate EndKnown(n: Node, e: End)
  {
    && e.id < |n.started| && n.started[e.id].key == e.key
    && match e
       case Handed(key, id, byPeer, tid, _, _) => n.started[id] == Start(key, byPeer, tid)
       case Errored(_, id) => !n.started[id].byPeer
       case Dropped(_, id) => n.started[id].byPeer
  }

  // Whatever has been started is either in progress, under one key, or has ended, once.
  ghost predicate Ledger(n: Node)
  {
    && (forall key | key in n.txns :: TxnKnown(n, key))
    && (forall i | 0 <= i < |n.ends| :: EndKnown(n, n.ends[i]))
    && (forall i, j :: 0 <= i < j < |n.ends| ==> n.ends[i].id != n.ends[j].id)
    && (forall key, i | key in n.txns && 0 <= i < |n.ends| :: n.ends[i].id != n.txns[key].id)
    && (forall a, b | a in n.txns && b in n.txns && a != b :: n.txns[a].id != n.txns[b].id)
    && (forall id | 0 <= id < |n.started| :: InProgress(n, id) || HasEnded(n, id))
  }

  // A transaction that keeps its number.
  lemma SameTxn(n: Node, v: Node, key: nat)
    requires Ledger(n) && v.started == n.started && v.ends == n.ends
    requires key in n.txns && key in v.txns && v.txns == n.txns[key := v.txns[key]]
    requires v.txns[key].id == n.txns[key].id && TxnKnown(v, key)
    ensures Ledger(v)
  {
    forall id | 0 <= id < |v.started|
      ensures InProgress(v, id) || HasEnded(v, id)
    {
      if InProgress(n, id) {
        var k :| k in n.txns && n.txns[k].id == id;
        assert k in v.txns && v.txns[k].id == id;
      } else {
        assert HasEnded(n, id);
      }
    }
    forall k | k in v.txns
      ensures TxnKnown(v, k)
    {
      assert TxnKnown(n, k);
    }
    forall i | 0 <= i < |v.ends|
      ensures EndKnown(v, v.ends[i])
    {
      assert EndKnown(n, n.ends[i]);
    }
  }

  lemma NewTxn(n: Node, v: Node, key: nat)
    requires Ledger(n) && key !in n.txns && key in v.txns && v.txns == n.txns[key := v.txns[key]] && v.ends == n.ends
    requires |v.started| == |n.started| + 1 && n.started <= v.started
    requires v.txns[key].id == |n.started| && TxnKnown(v, key)
    ensures Ledger(v)
  {
    forall id | 0 <= id < |v.started|
      ensures InProgress(v, id) || HasEnded(v, id)
    {
      if id == |n.started| {
        assert v.txns[key].id == id;
      } else if InProgress(n, id) {
        var k :| k in n.txns && n.txns[k].id == id;
        assert k in v.txns && v.txns[k].id == id;
      } else {
        assert HasEnded(n, id);
      }
    }
    forall k | k in v.txns
      ensures TxnKnown(v, k)
    {
      assert k != key ==> TxnKnown(n, k);
    }
    forall i | 0 <= i < |v.ends|
      ensures EndKnown(v, v.ends[i])
    {
      assert EndKnown(n, n.ends[i]);
    }
  }

  lemma EndTxn(n: Node, v: Node, key: nat, e: End)
    requires Ledger(n) && key in n.txns && e.id == n.txns[key].id && v.started == n.started
    requires v.txns == n.txns - {key} && v.ends == n.ends + [e] && EndKnown(v, e)
    ensures Ledger(v)
  {
    forall id | 0 <= id < |v.started|
      ensures InProgress(v, id) || HasEnded(v, id)
    {
      if id == e.id {
        assert v.ends[|n.ends|].id == id;
      } else if InProgress(n, id) {
        var k :| k in n.txns && n.txns[k].id == id;
        assert k in v.txns && v.txns[k].id == id;
      } else {
        var i :| 0 <= i < |n.ends| && n.ends[i].id == id;
        assert v.ends[i].id == id;
      }
    }
    forall k | k in v.txns
      ensures TxnKnown(v, k)
    {
      assert TxnKnown(n, k);
    }
    forall i | 0 <= i < |v.ends|
      ensures EndKnown(v, v.ends[i])
    {
      assert i < |n.ends| ==> EndKnown(n, n.ends[i]);
    }
  }

  lemma OpenedLedger(n: Node, mad: Mad)
    requires Ledger(n)
    ensures Ledger(Opened(n, mad))
  {
    var o := Opened(n, mad);
    if mad.key in n.txns {
      if n.txns[mad.key].Waiting? {
        assert TxnKnown(n, mad.key);
        SameTxn(n, o, mad.key);
      }
    } else if o != n {
      NewTxn(n, o, mad.key);
    }
  }

  lemma GivenUpLedger(n: Node, key: nat)
    requires Ledger(n) && key in n.txns
    ensures Ledger(GivenUp(n, key))
  {
    var v := GivenUp(n, key);
    assert TxnKnown(n, key);
    EndTxn(n, v, key, v.ends[|n.ends|]);
  }

  lemma SettledLedger(n: Node, key: nat, t: Txn, r: Result)
    requires Ledger(n) && key in n.txns && n.txns[key] == t && t.Receiving?
    ensures Ledger(Settled(n, key, t, r))
  {
    var v := Settled(n, key, t, r);
    assert TxnKnown(n, key);
    if r.status != Success || r.delivery != NotYet {
      EndTxn(n, v, key, v.ends[|n.ends|]);
    } else {
      SameTxn(n, v, key);
    }
  }

  lemma StepLedger(n: Node, e: Event, window: nat)
    requires Ledger(n) && window >= 1
    ensures Ledger(Step(n, e, window))
  {
    hide Received, Ledger, Settled, Opened;
    match e
    case Asks(key, tid) =>
      if key !in n.txns {
        NewTxn(n, Step(n, e, window), key);
      }
    case Expires(key) =>
      if key in n.txns {
        GivenUpLedger(n, key);
      }
    case Arrives(mad, store, room) =>
      OpenedLedger(n, mad);
      var o := Opened(n, mad);
      if mad.key in o.txns && o.txns[mad.key].Receiving? {
        var t := o.txns[mad.key];
        SettledLedger(o, mad.key, t, Received(t.ctx, mad, window, t.tid, store, room));
      }
  }

  // Whatever arrives, honest or not: every request of this node's and every transfer of the
  // peer's is in progress or has ended exactly once.
  lemma {:induction false} RunLedger(es: seq<Event>, window: nat)
    requires window >= 1
    ensures Ledger(Run(IDLE, es, window))
  {
    if es != [] {
      RunLedger(es[..|es| - 1], window);
      StepLedger(Run(IDLE, es[..|es| - 1], window), es[|es| - 1], window);
    }
  }

  // A request of this node's that is no longer in progress has had one callback, a delivery for
  // the transaction id it was made with or an error, never both; a transfer of the peer's never
  // gets an error callback.
  lemma OneCallback(es: seq<Event>, window: nat, id: nat)
    requires window >= 1
    ensures (var n := Run(IDLE, es, window);
      id < |n.started| ==>
        && (InProgress(n, id) <==> !HasEnded(n, id))
        && (forall i, j | 0 <= i < |n.ends| && 0 <= j < |n.ends| && n.ends[i].id == id == n.ends[j].id :: i == j)
        && (forall i | 0 <= i < |n.ends| && n.ends[i].id == id ::
              if n.started[id].byPeer then !n.ends[i].Errored?
              else n.ends[i] == Errored(n.started[id].key, id) ||
                   (n.ends[i].Handed? && !n.ends[i].byPeer && n.ends[i].tid == n.started[id].tid)))
  {
    RunLedger(es, window);
    hide Run;
    var n := Run(IDLE, es, window);
    forall i | 0 <= i < |n.ends| && n.ends[i].id == id
      ensures EndKnown(n, n.ends[i])
    {
    }
  }

  // A request is started under its key and with its client's transaction id.
  lemma AskStarts(n: Node, key: nat, tid: nat, window: nat)
    requires window >= 1
    ensures (var v := Step(n, Asks(key, tid), window);
      if key in n.txns then v == n else
        && v.txns.Keys == n.txns.Keys + {key} && v.txns[key].Waiting? && v.txns[key].id == |n.started|
        && (forall k | k in n.txns :: v.txns[k] == n.txns[k])
        && v.started == n.started + [Start(key, false, tid)] && v.ends == n.ends)
  {
  }

  // ---------- control MADs ----------

  // A control MAD starts nothing.  A stray ACK ends nothing and changes no context.  An ABORT or
  // a STOP ends the transaction it meets: the client of a request is told by its error callback,
  // a transfer of the peer's is dropped; nothing is handed over.
  lemma ControlMads(n: Node, mad: Mad, store: bool, room: bool, window: nat)
    requires Ledger(n) && window >= 1 && mad.kind != Data
    ensures (var v := Step(n, Arrives(mad, store, room), window);
      && v.started == n.started
      && (mad.key !in n.txns ==> v == n)
      && (mad.key in n.txns && mad.kind == Ack ==>
            && v.ends == n.ends && v.sent == n.sent + [NoReply] && v.txns.Keys == n.txns.Keys
            && (forall k | k in n.txns :: n.txns[k].Receiving? || k != mad.key ==> v.txns[k] == n.txns[k])
            && v.txns[mad.key].id == n.txns[mad.key].id)
      && (mad.key in n.txns && mad.kind != Ack ==>
            var id := n.txns[mad.key].id;
            && id < |n.started| && v.sent == n.sent + [NoReply] && v.txns == n.txns - {mad.key}
            && v.ends == n.ends + [if n.started[id].byPeer then Dropped(mad.key, id) else Errored(mad.key, id)]))
  {
    if mad.key in n.txns {
      assert TxnKnown(n, mad.key);
    }
  }

  // A transaction whose time is up ends in the same way; the others are left alone.
  lemma ExpiryEnds(n: Node, key: nat, window: nat)
    requires Ledger(n) && window >= 1
    ensures (var v := Step(n, Expires(key), window);
      if key !in n.txns then v == n else
        var id := n.txns[key].id;
        && id < |n.started| && v.started == n.started && v.sent == n.sent && v.txns == n.txns - {key}
        && v.ends == n.ends + [if n.started[id].byPeer then Dropped(key, id) else Errored(key, id)])
  {
    if key in n.txns {
      assert TxnKnown(n, key);
    }
  }

  lemma {:induction false} EndsGrow(es: seq<Event>, i: nat, window: nat)
    requires i <= |es| && window >= 1
    ensures Run(IDLE, es[..i], window).ends <= Run(IDLE, es, window).ends
  {
    if i == |es| {
      assert es[..i] == es;
    } else {
      assert es[..|es| - 1][..i] == es[..i];
      EndsGrow(es[..|es| - 1], i, window);
      hide Received;
    }
  }

  // Over whole runs: what an ABORT or a STOP has ended is never handed over, before or after.
  lemma StoppedStays(es: seq<Event>, i: nat, window: nat)
    requires i < |es| && window >= 1 && es[i].Arrives? && (es[i].mad.kind == Abort || es[i].mad.kind == Stop)
    requires es[i].mad.key in Run(IDLE, es[..i], window).txns
    ensures (var n, id := Run(IDLE, es, window), Run(IDLE, es[..i], window).txns[es[i].mad.key].id;
      HasEnded(n, id) && !InProgress(n, id) && forall j | 0 <= j < |n.ends| && n.ends[j].id == id :: !n.ends[j].Handed?)
  {
    var b, n := Run(IDLE, es[..i], window), Run(IDLE, es, window);
    RunLedger(es[..i], window);
    ControlMads(b, es[i].mad, es[i].store, es[i].room, window);
    var t := es[..i + 1];
    assert t[..|t| - 1] == es[..i] && t[|t| - 1] == es[i];
    EndsGrow(es, i + 1, window);
    RunLedger(es, window);
    hide Run;
    assert n.ends[|b.ends|].id == b.txns[es[i].mad.key].id && !n.ends[|b.ends|].Handed?;
  }

  // ---------- what is handed over ----------

  lemma OpenedSafe(msgs: map<nat, Message>, n: Node, mad: Mad)
    requires AllSendable(msgs) && Safe(msgs, n) && mad.key in msgs
    ensures Safe(msgs, Opened(n, mad))
  {
    FreshInOrder(msgs[mad.key]);
    hide InOrder, HandedOk;
    var o := Opened(n, mad);
    forall key | key in o.txns
      ensures TxnOk(msgs, key, o.txns[key])
    {
      if key in n.txns {
        assert TxnOk(msgs, key, n.txns[key]);
      }
    }
  }

  lemma SettledSafe(msgs: map<nat, Message>, n: Node, key: nat, t: Txn, r: Result)
    requires AllSendable(msgs) && Safe(msgs, n) && key in n.txns && n.txns[key] == t && t.Receiving? && key in msgs
    requires r.reply != AbortBadLen
    requires r.status == Success && r.delivery == NotYet ==> InOrder(r.ctx, msgs[key])
    requires r.delivery != NotYet ==>
      r.delivery == Whole(Delivered(msgs[key], t.tid)) && r.ctx.expected == msgs[key].Total() + 1
    ensures Safe(msgs, Settled(n, key, t, r))
  {
    hide InOrder;
    var s := Settled(n, key, t, r);
    forall k | k in s.txns
      ensures TxnOk(msgs, k, s.txns[k])
    {
      assert k in n.txns && TxnOk(msgs, k, n.txns[k]);
    }
    assert TxnOk(msgs, key, t);
    forall h | h in s.ends
      ensures HandedOk(msgs, h)
    {
      if h in n.ends {
        assert HandedOk(msgs, h);
      }
    }
  }

  lemma StepSafe(msgs: map<nat, Message>, n: Node, e: Event, window: nat)
    requires AllSendable(msgs) && Safe(msgs, n) && Carried(msgs, e) && window >= 1
    ensures Safe(msgs, Step(n, e, window))
  {
    match e
    case Asks(key, tid) =>
      hide HandedOk, InOrder;
    case Expires(key) =>
      hide InOrder;
      if key in n.txns {
        var v := Step(n, e, window);
        assert v.ends[..|n.ends|] == n.ends && v.sent == n.sent;
        forall h | h in v.ends
          ensures HandedOk(msgs, h)
        {
          assert h in n.ends || h == v.ends[|n.ends|];
        }
      }
    case Arrives(mad, store, room) =>
      hide HandedOk, Opened;
      OpenedSafe(msgs, n, mad);
      var o := Opened(n, mad);
      if mad.key in o.txns && o.txns[mad.key].Receiving? {
        var t := o.txns[mad.key];
        assert TxnOk(msgs, mad.key, t);
        VerdictSafe(msgs, t.ctx, mad, window, t.tid, store, room);
        SettledSafe(msgs, o, mad.key, t, Received(t.ctx, mad, window, t.tid, store, room));
      }
  }

  lemma VerdictSafe(msgs: map<nat, Message>, c: Ctx, mad: Mad, window: nat, tid: nat, store: bool, room: bool)
    requires window >= 1 && mad.key in msgs && InOrder(c, msgs[mad.key]) && Carried(msgs, Arrives(mad, store, room))
    ensures (var r := Received(c, mad, window, tid, store, room);
      && r.reply != AbortBadLen
      && (r.status == Success && r.delivery == NotYet ==> InOrder(r.ctx, msgs[mad.key]))
      && (r.delivery != NotYet ==>
            r.delivery == Whole(Delivered(msgs[mad.key], tid)) && r.ctx.expected == msgs[mad.key].Total() + 1))
  {
    hide InOrder, Seg, NumSegs, Fits, LengthReached, FromFirst, FromLast, Assembled, FinalSize, Delivered;
    if mad.kind == Data {
      var e := Arrives(mad, store, room);
      assert exists k :: SegOf(msgs[e.mad.key], k, e.mad);
      var k :| SegOf(msgs[mad.key], k, mad);
      ReceiveStep(c, msgs[mad.key], k, window, tid, store, room);
    }
  }

  // In every run, every receive context holds exactly the segments before the one it expects, in
  // order; it delivers at most once, only when the last segment has been accepted; and what it
  // delivers is the message that was sent, under segment 1's header and the client's transaction id.
  lemma {:induction false} RunSafe(msgs: map<nat, Message>, es: seq<Event>, window: nat)
    requires AllSendable(msgs) && window >= 1 && forall e | e in es :: Carried(msgs, e)
    ensures Safe(msgs, Run(IDLE, es, window)) && Ledger(Run(IDLE, es, window))
  {
    RunLedger(es, window);
    hide Ledger;
    if es != [] {
      RunSafe(msgs, es[..|es| - 1], window);
      assert es[|es| - 1] in es;
      StepSafe(msgs, Run(IDLE, es[..|es| - 1], window), es[|es| - 1], window);
    }
  }

  // ---------- a run that delivers ----------

  function InTurn(m: Message, k: nat): (es: seq<Event>)
    requires Fits(m.sa, |m.bytes|) && k <= m.Total()
    ensures |es| == k
  {
    if k == 0 then [] else InTurn(m, k - 1) + [Arrives(Seg(m, k), true, true)]
  }

  // After k segments in turn: none yet, some, or all of them.
  ghost predicate Reached(n: Node, m: Message, k: nat)
    requires Fits(m.sa, |m.bytes|)
  {
    if k == 0 then n == IDLE
    else if k == m.Total() then n.ends == [Handed(m.key, 0, true, m.key, k, Whole(Delivered(m, m.key)))] &&
      n.txns == map[]
    else
      exists c :: InOrder(c, m) && c.expected == k + 1 && n.ends == [] &&
        n.txns == map[m.key := Receiving(0, true, m.key, c)]
  }

  lemma OneMore(n: Node, m: Message, k: nat, window: nat)
    requires Sendable(m) && !m.resp && window >= 1 && 1 <= k <= m.Total() && Reached(n, m, k - 1)
    ensures Reached(Step(n, Arrives(Seg(m, k), true, true), window), m, k)
  {
    hide InOrder, NumSegs, Fits, SegBlock, Paylen, Received, Settled;
    var mad := Seg(m, k);
    var c := OpensTo(n, m, k);
    ReceiveStep(c, m, k, window, m.key, true, true);
    var o, r := Opened(n, mad), Received(c, mad, window, m.key, true, true);
    assert Step(n, Arrives(mad, true, true), window) == Settled(o, m.key, Receiving(0, true, m.key, c), r);
    SettledTo(o, m, k, c, r);
  }

  lemma OpensTo(n: Node, m: Message, k: nat) returns (c: Ctx)
    requires Sendable(m) && !m.resp && 1 <= k <= m.Total() && Reached(n, m, k - 1)
    ensures InOrder(c, m) && c.expected == k
    ensures Opened(n, Seg(m, k)).txns == map[m.key := Receiving(0, true, m.key, c)] && Opened(n, Seg(m, k)).ends == []
  {
    FreshInOrder(m);
    hide InOrder, NumSegs, Fits, SegBlock, Paylen;
    if k == 1 {
      c := FRESH;
    } else {
      c :| InOrder(c, m) && c.expected == k && n.ends == [] && n.txns == map[m.key := Receiving(0, true, m.key, c)];
    }
  }

  lemma SettledTo(o: Node, m: Message, k: nat, c: Ctx, r: Result)
    requires Sendable(m) && 1 <= k <= m.Total()
    requires o.txns == map[m.key := Receiving(0, true, m.key, c)] && o.ends == []
    requires r.status == Success && r.ctx.expected == k + 1
    requires if k == m.Total() then r.delivery == Whole(Delivered(m, m.key))
      else r.delivery == NotYet && InOrder(r.ctx, m)
    ensures Reached(Settled(o, m.key, Receiving(0, true, m.key, c), r), m, k)
  {
    hide InOrder, NumSegs, Fits;
    var s := Settled(o, m.key, Receiving(0, true, m.key, c), r);
    if k < m.Total() {
      assert s.txns == map[m.key := Receiving(0, true, m.key, r.ctx)];
    } else {
      assert s.txns == map[];
    }
  }

  // Segments that all arrive, in turn, are delivered as soon as the last one is in.
  lemma {:induction false} InTurnDelivers(m: Message, k: nat, window: nat)
    requires Sendable(m) && !m.resp && window >= 1 && k <= m.Total()
    ensures Reached(Run(IDLE, InTurn(m, k), window), m, k)
  {
    hide Reached, Step;
    if k == 0 {
      ReachedStart(m);
    } else {
      InTurnDelivers(m, k - 1, window);
      assert InTurn(m, k)[..k - 1] == InTurn(m, k - 1);
      OneMore(Run(IDLE, InTurn(m, k - 1), window), m, k, window);
    }
  }

  lemma ReachedStart(m: Message)
    requires Sendable(m)
    ensures Reached(IDLE, m, 0)
  {
  }
}
