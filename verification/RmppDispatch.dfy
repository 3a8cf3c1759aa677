// __osmv_dispatch_rmpp_mad on the objects themselves: the transaction map holds receive contexts
// that arriving MADs change in place.
module RmppDispatch {
  import opened RmppSar
  import opened RmppReceive
  import opened RmppRun

  datatype Entry = Awaiting(id: nat, tid: nat) | Receiver(id: nat, byPeer: bool, tid: nat, ctx: RecvCtx)

  // The node at one moment, before anything further ends or is sent.
  function Now(txns: map<nat, Txn>, started: seq<Start>): Node
  {
    Node(txns, started, [], [])
  }

  class RmppNode {
    var txns: map<nat, Entry>
    var born: nat
    ghost var started: seq<Start>
    ghost var repr: set<object>

    constructor ()
      ensures Valid() && txns == map[] && started == [] && fresh(repr)
    {
      txns, born, started, repr := map[], 0, [], {};
    }

    // The contexts are apart from each other, and so are their lists.
    ghost predicate Valid()
      reads this, repr
    {
      && this !in repr && born == |started|
      && (forall k | k in txns && txns[k].Receiver? :: txns[k].ctx in repr && txns[k].ctx.rbuf in repr)
      && (forall a, b | a in txns && b in txns && a != b && txns[a].Receiver? && txns[b].Receiver? ::
            txns[a].ctx != txns[b].ctx && txns[a].ctx.rbuf != txns[b].ctx.rbuf)
    }

    ghost function TxnView(k: nat): Txn
      requires Valid() && k in txns
      reads this, repr
    {
      match txns[k]
      case Awaiting(id, tid) => Waiting(id, tid)
      case Receiver(id, byPeer, tid, ctx) => Receiving(id, byPeer, tid, ctx.View())
    }

    ghost function View(): map<nat, Txn>
      requires Valid()
      reads this, repr
    {
      map k | k in txns :: TxnView(k)
    }

    // osmv_txn_init for a request; a key in use is refused.
    method Ask(key: nat, tid: nat) returns (ok: bool)
      requires Valid()
      modifies this
      ensures Valid() && repr == old(repr) && (ok <==> key !in old(txns))
      ensures Step(Now(old(View()), old(started)), Asks(key, tid), 1) == Now(View(), started)
    {
      ok := key !in txns;
      if ok {
        ghost var was := View();
        txns := txns[key := Awaiting(born, tid)];
        born, started := born + 1, started + [Start(key, false, tid)];
        assert View() == was[key := Waiting(born - 1, tid)];
      }
    }

    // The transaction's time is up: __osmv_txn_timeout_cb for a receiver, or for a request that
    // has no retries left.
    method Expire(key: nat) returns (errCb: bool)
      requires Valid()
      modifies this`txns
      ensures Valid()
      ensures (var n := Step(Now(old(View()), started), Expires(key), 1);
        && View() == n.txns && n.sent == []
        && n.ends == if key !in old(txns) then [] else if errCb then [Errored(key, old(View())[key].id)]
                     else [Dropped(key, old(View())[key].id)])
    {
      errCb := false;
      if key in txns {
        errCb := !(txns[key].Receiver? && txns[key].byPeer);
        Drop(key, View());
      }
    }

    // The context that takes a MAD of this key, created when the MAD may start a transfer.
    method Open(mad: Mad)
      requires Valid()
      modifies this
      ensures Valid() && fresh(repr - old(repr)) && old(repr) <= repr
      ensures Opened(Now(old(View()), old(started)), mad) == Now(View(), started)
    {
      if mad.key in txns && txns[mad.key].Receiver? {
        return;
      }
      if mad.key !in txns && (mad.resp || mad.kind != Data || !mad.first) {
        return;
      }
      var ctx := new RecvCtx();
      if mad.key in txns {
        Put(mad.key, Receiver(txns[mad.key].id, false, txns[mad.key].tid, ctx));
      } else {
        born, started := born + 1, started + [Start(mad.key, true, mad.key)];
        Put(mad.key, Receiver(born - 1, true, mad.key, ctx));
      }
    }

    // A new context enters the map.
    method Put(key: nat, e: Entry)
      requires Valid() && e.Receiver? && e.ctx !in repr && e.ctx.rbuf !in repr
      requires this != (e.ctx as object) && this != (e.ctx.rbuf as object)
      requires key in txns ==> !txns[key].Receiver?
      modifies this`txns, this`repr
      ensures Valid() && repr == old(repr) + {e.ctx, e.ctx.rbuf}
      ensures View() == old(View())[key := Receiving(e.id, e.byPeer, e.tid, e.ctx.View())]
    {
      txns := txns[key := e];
      repr := repr + {e.ctx, e.ctx.rbuf};
    }

    // Whether joining would stay within its buffers, which the run's invariant guarantees.
    ghost predicate Joinable(mad: Mad, window: nat)
      requires Valid() && window >= 1
      reads this, repr
    {
      mad.key in txns && txns[mad.key].Receiver? ==>
        !Received(txns[mad.key].ctx.View(), mad, window, txns[mad.key].tid, true, true).delivery.Overrun?
    }

    // The context takes the MAD; delivery and failure both end the transaction.
    method Take(mad: Mad, window: nat, store: bool, room: bool)
      returns (reply: Reply, status: Status, message: array?<Byte>)
      requires Valid() && window >= 1 && Joinable(mad, window) && mad.key in txns && txns[mad.key].Receiver?
      modifies this`txns, repr
      ensures Valid() && repr == old(repr) && (message != null ==> fresh(message))
      ensures (var t := old(TxnView(mad.key));
        var r := Received(t.ctx, mad, window, t.tid, store, room);
        && reply == r.reply && status == r.status
        && (message == null <==> r.delivery == NotYet) && (message != null ==> r.delivery == Whole(message[..]))
        && View() == (if r.status != Success || r.delivery != NotYet then old(View()) - {mad.key}
                      else old(View())[mad.key := t.(ctx := r.ctx)]))
    {
      hide Received, Assembled;
      var e := txns[mad.key];
      ghost var was := View();
      reply, status, message := e.ctx.Receive(mad, window, e.tid, store, room);
      Others(mad.key, was);
      if status != Success || message != null {
        Drop(mad.key, was);
      }
    }

    // One RMPP MAD: what the receiver does with it is one step of the node.  errCb: the error
    // callback of a request of this node is called.
    method Dispatch(mad: Mad, window: nat, store: bool, room: bool)
      returns (taken: bool, reply: Reply, errCb: bool, message: array?<Byte>)
      requires Valid() && window >= 1
      requires (var o := Opened(Now(View(), started), mad);
        mad.key in o.txns && o.txns[mad.key].Receiving? ==>
          !Received(o.txns[mad.key].ctx, mad, window, o.txns[mad.key].tid, true, true).delivery.Overrun?)
      modifies this, repr
      ensures Valid() && fresh(repr - old(repr))
      ensures (var n := Step(Now(old(View()), old(started)), Arrives(mad, store, room), window);
        && View() == n.txns && started == n.started
        && n.sent == (if taken then [reply] else [])
        && (errCb <==> |n.ends| == 1 && n.ends[0].Errored?)
        && (message != null <==> |n.ends| == 1 && n.ends[0].Handed?)
        && (message != null ==> n.ends[0].key == mad.key && n.ends[0].what == Whole(message[..])))
    {
      hide Received, Opened;
      taken, reply, errCb, message := false, NoReply, false, null;
      Open(mad);
      if mad.key in txns && txns[mad.key].Receiver? {
        var byPeer := txns[mad.key].byPeer;
        ghost var o, t := Now(View(), started), TxnView(mad.key);
        taken := true;
        var status;
        reply, status, message := Take(mad, window, store, room);
        errCb := status != Success && !byPeer;
        ghost var r := Received(t.ctx, mad, window, t.tid, store, room);
        DeliversOnSuccess(t.ctx, mad, window, t.tid, store, room);
        assert Settled(o, mad.key, t, r).txns == View();
      }
    }

    // A transaction leaves the map.
    method Drop(key: nat, ghost was: map<nat, Txn>)
      requires Valid() && key in txns && View().Keys == was.Keys
      requires forall k | k in was && k != key :: View()[k] == was[k]
      modifies this`txns
      ensures Valid() && View() == was - {key}
    {
      txns := txns - {key};
    }

    lemma Others(key: nat, was: map<nat, Txn>)
      requires Valid() && key in txns && was.Keys == txns.Keys
      requires forall k | k in txns && k != key :: TxnView(k) == was[k]
      ensures View() == was[key := TxnView(key)]
      ensures forall k | k in was && k != key :: View()[k] == was[k]
    {
    }
  }
}
