// Runs in which all goes well: window after window is sent, received in turn and acknowledged,
// until the sender succeeds.
module RmppServe {
  import opened RmppSizes
  import opened RmppSar
  import opened RmppMessages
  import opened RmppReceive
  import opened RmppRun
  import opened RmppSend
  import opened RmppTransfer

  // By a run in which the receiver has memory and time.
  ghost predicate Reachable(y: Sys, m: Message, window: nat)
    requires Sendable(m) && window >= 1
  {
    exists vs :: Untroubled(vs) && Moves(m, vs, window) == y
  }

  lemma Go(y: Sys, v: Move, m: Message, window: nat)
    requires Sendable(m) && window >= 1 && Reachable(y, m, window)
    requires v != Forgets && (v.Brings? ==> v.store && v.room)
    ensures Reachable(Next(y, v, m, window), m, window)
  {
    hide Next;
    var vs :| Untroubled(vs) && Moves(m, vs, window) == y;
    assert (vs + [v])[..|vs + [v]| - 1] == vs;
    assert Moves(m, vs + [v], window) == Next(y, v, m, window);
  }

  // The sender once segments 1..k have been acknowledged in time.
  function Window(k: nat, total: nat, window: nat): Snd
  {
    if k == 0 then START else Snd(k + 1, if k + window < total then k + window else total, [], Running)
  }

  // The replies to segments 1..e that came in turn.
  function Acks(e: nat, window: nat): (a: seq<Reply>)
    ensures |a| == e && forall i :: 0 <= i < e ==> a[i] == AckOf(i + 1, i + 1 + window)
  {
    seq(e, i requires 0 <= i < e => AckOf(i + 1, i + 1 + window))
  }

  ghost predicate Holds(n: Node, m: Message, e: nat)
  {
    && m.key in n.txns && n.txns[m.key].Receiving?
    && InOrder(n.txns[m.key].ctx, m) && n.txns[m.key].ctx.expected == e + 1
  }

  // No context yet, but one may be created.
  ghost predicate Unopened(n: Node, m: Message)
  {
    if m.resp then m.key in n.txns && n.txns[m.key].Waiting? else m.key !in n.txns
  }

  // The node once segments 1..e have come in turn.
  ghost predicate NodeAt(n: Node, m: Message, e: nat, window: nat)
  {
    && n.sent == Acks(e, window)
    && if e == 0 then n == Begin(m).node else Holds(n, m, e)
  }

  // Segments 1..e accepted, the rest of the window that follows segment k on its way.
  ghost predicate Served(y: Sys, m: Message, k: nat, e: nat, window: nat)
  {
    && Sendable(m) && k <= e <= y.snd.last && y.snd == Window(k, m.Total(), window)
    && y.data == Numbers(e + 1, y.snd.last - e) && y.accepted == e && NodeAt(y.node, m, e, window)
  }

  // Between two windows.
  ghost predicate Between(y: Sys, m: Message, k: nat, window: nat)
  {
    && Sendable(m) && k < m.Total() && y.snd == Window(k, m.Total(), window)
    && y.data == [] && y.accepted == k && NodeAt(y.node, m, k, window)
  }

  // Segment e + 1 comes in turn.
  lemma InTurnStep(n: Node, m: Message, e: nat, window: nat)
    requires Sendable(m) && window >= 1 && e + 1 <= m.Total()
    requires if e == 0 then Unopened(n, m) else Holds(n, m, e)
    ensures (var n' := Step(n, Arrives(Seg(m, e + 1), true, true), window);
      && (e + 1 < m.Total() ==> Holds(n', m, e + 1)) && n'.sent == n.sent + [AckOf(e + 1, e + 1 + window)]
      && AcceptedBy(n, Seg(m, e + 1), window, true, true) == e + 1)
  {
    hide InOrder, NumSegs, Fits, SegBlock, Paylen, Received, SegFields;
    FreshInOrder(m);
    var o := Opened(n, Seg(m, e + 1));
    assert m.key in o.txns && o.txns[m.key].Receiving?;
    ReceiveStep(o.txns[m.key].ctx, m, e + 1, window, o.txns[m.key].tid, true, true);
  }

  // The receiver takes the window as far as segment stop, which is not the message's last.
  lemma {:induction false} ServeRest(y: Sys, m: Message, k: nat, e: nat, stop: nat, window: nat) returns (z: Sys)
    requires Served(y, m, k, e, window) && window >= 1 && e <= stop <= y.snd.last && stop < m.Total() &&
      Reachable(y, m, window)
    ensures Served(z, m, k, stop, window) && Reachable(z, m, window)
    decreases stop - e
  {
    hide InOrder, NumSegs, Fits, Seg, Step, AcceptedBy, Reachable, Holds;
    if e == stop {
      z := y;
    } else {
      InTurnStep(y.node, m, e, window);
      Go(y, Brings(true, true), m, window);
      z := Next(y, Brings(true, true), m, window);
      assert y.data[0] == e + 1 && y.data[1..] == Numbers(e + 2, y.snd.last - e - 1);
      assert z.node.sent == Acks(e + 1, window);
      z := ServeRest(z, m, k, e + 1, stop, window);
    }
  }

  lemma ServeWindow(y: Sys, m: Message, k: nat, window: nat) returns (z: Sys)
    requires Between(y, m, k, window) && window >= 1 && y.snd.last < m.Total() && Reachable(y, m, window)
    ensures Between(z, m, y.snd.last, window) && Reachable(z, m, window)
  {
    hide InOrder, NumSegs, Fits, NodeAt, Step, AcceptedBy, Reachable;
    Go(y, Wakes(window), m, window);
    z := Next(y, Wakes(window), m, window);
    assert z.data == Numbers(k + 1, y.snd.last - k);
    z := ServeRest(z, m, k, k, y.snd.last, window);
    var last := y.snd.last;
    LastAck(z.node, m, last, window);
    Go(z, Replies(last - 1), m, window);
    z := Next(z, Replies(last - 1), m, window);
  }

  lemma LastAck(n: Node, m: Message, e: nat, window: nat)
    requires NodeAt(n, m, e, window) && e >= 1
    ensures |n.sent| == e && n.sent[e - 1] == AckOf(e, e + window) && n.sent[0] == AckOf(1, 1 + window)
  {
    hide Holds;
  }

  lemma StartBetween(m: Message, window: nat)
    requires Sendable(m) && window >= 1
    ensures Between(Begin(m), m, 0, window) && Reachable(Begin(m), m, window)
  {
    NumSegsCeil(m.sa, |m.bytes|);
    assert Moves(m, [], window) == Begin(m);
  }

  // Window after window, up to the last but one and the last.
  lemma {:induction false} Climb(m: Message, y: Sys, k: nat, window: nat) returns (a: Sys, b: Sys, last: nat)
    requires window >= 1 && 1 <= k && Between(y, m, k, window) && Reachable(y, m, window)
    ensures k <= last < m.Total() <= last + window && Between(b, m, last, window) && Reachable(b, m, window)
    ensures (last == k && b == y) ||
      (k + window <= last && Between(a, m, last - window, window) && Reachable(a, m, window))
    ensures window == 2 ==> last % 2 == k % 2
    decreases m.Total() - k
  {
    hide NodeAt, NumSegs, Fits, Reachable;
    if m.Total() <= k + window {
      a, b, last := y, y, k;
    } else {
      var z := ServeWindow(y, m, k, window);
      a, b, last := Climb(m, z, k + window, window);
      if last == k + window {
        a := y;
      }
    }
  }

  // ---------- the last window ----------

  lemma ServeLast(y: Sys, m: Message, k: nat, window: nat) returns (z: Sys)
    requires Between(y, m, k, window) && window >= 1 && y.snd.last == m.Total() && Reachable(y, m, window)
    ensures Reachable(z, m, window) && z.snd.outcome == Succeeded
  {
    hide InOrder, NumSegs, Fits, Holds, Seg, Step, AcceptedBy, Reachable;
    var last := m.Total();
    Go(y, Wakes(window), m, window);
    z := Next(y, Wakes(window), m, window);
    assert z.data == Numbers(k + 1, last - k);
    z := ServeRest(z, m, k, k, last - 1, window);
    InTurnStep(z.node, m, last - 1, window);
    Go(z, Brings(true, true), m, window);
    z := Next(z, Brings(true, true), m, window);
    Go(z, Replies(last - 1), m, window);
    z := Next(z, Replies(last - 1), m, window);
    Go(z, Wakes(window), m, window);
    z := Next(z, Wakes(window), m, window);
  }

  ghost predicate Completes(m: Message, vs: seq<Move>, window: nat)
    requires Sendable(m) && window >= 1
  {
    Untroubled(vs) && Moves(m, vs, window).snd.outcome == Succeeded && HandedOver(Moves(m, vs, window).node, m)
  }

  // Every message can be sent and handed over, with every window.
  lemma CanComplete(m: Message, window: nat)
    requires Sendable(m) && window >= 1
    ensures exists vs :: Completes(m, vs, window)
  {
    hide NumSegs, Fits, Between, Moves, HandedOver;
    StartBetween(m, window);
    var y, k := Begin(m), 0;
    if m.Total() > 1 {
      FirstLast(y, m, window);
      y := ServeWindow(y, m, 0, window);
      var a;
      a, y, k := Climb(m, y, 1, window);
    }
    LastWindow(y, m, k, window);
    var z := ServeLast(y, m, k, window);
    var vs :| Untroubled(vs) && Moves(m, vs, window) == z;
    SuccessMeansDelivered(m, vs, window);
    assert Completes(m, vs, window);
  }

  lemma FirstLast(y: Sys, m: Message, window: nat)
    requires Between(y, m, 0, window)
    ensures y.snd.last == 1
  {
  }

  lemma LastWindow(y: Sys, m: Message, k: nat, window: nat)
    requires Between(y, m, k, window) && (if k == 0 then m.Total() == 1 else m.Total() <= k + window)
    ensures y.snd.last == m.Total()
  {
  }
}
