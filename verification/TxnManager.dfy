// The transaction manager of a bind handle: a map of transactions and an event wheel, changed by
// sends, responses and timeouts.
module TxnManager {
  import opened EventWheel
  import opened WheelObject
  import opened Requests

  datatype Status = Success | InsufficientMemory | NotUnique | Failed

  class Manager {
    const wheel: EventWheelObj
    // the transaction map: key to request number
    var txnMap: map<nat, nat>
    // what has happened to every request so far
    var sends: seq<nat>
    var serves: seq<nat>
    var ends: seq<End>

    constructor ()
      ensures Valid() && fresh(wheel) && View() == START
    {
      wheel := new EventWheelObj();
      txnMap, sends, serves, ends := map[], [], [], [];
      new;
      assert Reaches([], START);
      ReachesKeeps([], START);
    }

    function View(): Node
      reads this, wheel
    {
      Node(txnMap, wheel.events, sends, serves, ends)
    }

    // What holds between the writes of one operation.
    ghost predicate Ready()
      reads this, wheel
    {
      wheel.Valid() && Formed(View())
    }

    // What holds between operations: the invariant of every run.
    ghost predicate Valid()
      reads this, wheel
    {
      wheel.Valid() && Inv(View())
    }

    // osmv_txn_done, outside the timeout callback
    method Finish(key: nat)
      requires Ready()
      modifies this`txnMap, wheel
      ensures Ready() && View() == Done(old(View()), key)
    {
      hide Unregistered, Wheel, Agree;
      wheel.Unreg(key);
      txnMap := txnMap - {key};
    }

    // osm_vendor_send of a non-RMPP request
    method SendRequest(key: nat, deadline: nat, memory: bool, wire: bool, room: bool) returns (status: Status)
      requires Valid()
      modifies this, wheel
      ensures Valid() && View() == Sent(old(View()), key, memory, wire, deadline, room)
      ensures status == if key in old(txnMap) then NotUnique else if !memory then InsufficientMemory
        else if wire && room then Success else Failed
    {
      hide Unregistered, Registered, Wheel, Agree, Tracked, Requests.Settled;
      SentKeeps(View(), key, memory, wire, deadline, room);
      if key in txnMap {
        return NotUnique;
      }
      if !memory {
        return InsufficientMemory;
      }
      NotHeld(key);
      var id := |sends|;
      txnMap := txnMap[key := id];
      serves := serves + [0];
      // the transport send, and then the timeout for the answer
      sends := sends + [if wire then 1 else 0];
      var armed := false;
      if wire {
        armed := SetTimeout(key, deadline, room);
      }
      if armed {
        return Success;
      }
      Finish(key);
      ends := ends + [SendFailed(id)];
      return Failed;
    }

    // A key without a transaction is not in the wheel.
    lemma NotHeld(key: nat)
      requires Valid() && key !in txnMap
      ensures key !in wheel.eventsMap
    {
      assert key in wheel.eventsMap ==> wheel.eventsMap[key] in wheel.events && EventOk(View(), wheel.eventsMap[key]);
    }

    // osmv_txn_set_timeout_ev
    method SetTimeout(key: nat, deadline: nat, room: bool) returns (ok: bool)
      requires Ready()
      modifies wheel
      ensures Ready() && (ok <==> room || key in old(wheel.eventsMap))
      ensures View() == if ok then old(View()).(wheel := Registered(old(wheel.events), key, deadline, true))
        else old(View())
    {
      hide Registered, Wheel, Agree;
      var start;
      ok, start := wheel.Reg(key, deadline, true, room);
    }

    // __osmv_dispatch_route and __osmv_dispatch_simple_mad, for a MAD without RMPP
    method Dispatch(key: nat, response: bool, memory: bool)
      requires Valid()
      modifies this, wheel
      ensures Valid() && View() == Arrived(old(View()), key, response, memory)
    {
      hide Unregistered, Wheel, Agree, Tracked, Requests.Settled;
      ArrivedKeeps(View(), key, response, memory);
      if (key !in txnMap && response) || (key in txnMap && !response) {
        return;
      }
      if memory && key in txnMap {
        var id := txnMap[key];
        Finish(key);
        ends := ends + [Answered(id)];
      }
    }

    // __osmv_txn_timeout_cb for a transaction without RMPP state
    method TimeoutCb(key: nat, numRegs: nat, wire: bool, later: nat) returns (next: nat)
      requires Ready()
      modifies this
      ensures Ready() && wheel.events == old(wheel.events)
      ensures next == if key in old(txnMap) && numRegs <= OSM_DEFAULT_RETRY_COUNT && wire then later else 0
      ensures key !in old(txnMap) ==> View() == old(View())
      ensures key in old(txnMap) ==> (var id := old(txnMap)[key];
        && serves == Bump(old(serves), id)
        && sends == (if numRegs <= OSM_DEFAULT_RETRY_COUNT && wire then Bump(old(sends), id) else old(sends))
        && txnMap == (if numRegs <= OSM_DEFAULT_RETRY_COUNT && wire then old(txnMap) else old(txnMap) - {key})
        && ends == old(ends) + (if numRegs > OSM_DEFAULT_RETRY_COUNT then [TimedOut(id)] else if wire then []
           else [SendFailed(id)]))
    {
      hide Wheel, Agree;
      next := 0;
      if key !in txnMap {
        return;
      }
      var id := txnMap[key];
      serves := Bump(serves, id);
      if numRegs <= OSM_DEFAULT_RETRY_COUNT {
        if wire {
          sends := Bump(sends, id);
          next := later;
        } else {
          txnMap := txnMap - {key};
          ends := ends + [SendFailed(id)];
        }
      } else {
        txnMap := txnMap - {key};
        ends := ends + [TimedOut(id)];
      }
    }

    // One turn of the wheel's expiry loop, with that callback.
    method ServeHead(now: nat, wire: bool, later: nat)
      requires Valid() && wheel.events != [] && wheel.events[0].aging <= now
      // the deadline is worked out from a later time stamp
      requires 0 < now <= later
      modifies this, wheel
      ensures Valid() && View() == Expired(old(View()), now, wire, later)
    {
      hide Wheel, Agree, Turn, Tracked, Requests.Settled;
      ghost var n := View();
      HeadOk(n);
      var e := wheel.events[0];
      var next := TimeoutCb(e.key, e.numRegs, wire, later);
      wheel.Serve((_, _) => next, now);
      assert next == TimeoutAnswer(n, e, wire, later);
      assert View() == Expired(n, now, wire, later);
      ExpiredKeeps(n, now, wire, later);
    }
  }
}
