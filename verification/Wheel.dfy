// cl_event_wheel_t: the events in a list sorted by aging time and in a map by key.  One event
// record is linked into both in the source; here the map holds its current value.
module WheelObject {
  import opened Options
  import opened EventWheel

  // The map holds exactly the events of the list.
  ghost predicate Agree(s: seq<Event>, m: map<nat, Event>)
  {
    && (forall e | e in s :: e.key in m && m[e.key] == e)
    && (forall k | k in m :: m[k] in s && m[k].key == k)
  }

  lemma FindAgrees(s: seq<Event>, m: map<nat, Event>, key: nat)
    requires Agree(s, m)
    ensures key in m <==> Find(s, key) < |s|
    ensures key in m ==> s[Find(s, key)] == m[key]
  {
    var i := Find(s, key);
    if i < |s| {
      assert s[i] in s;
    }
  }

  lemma TurnIs(s: seq<Event>, cb: Callback, now: nat)
    requires s != []
    ensures (var next := Answer(cb, s[0]);
      Turn(s, cb, now) ==
        if next < now then Without(s, 0) else Placed(Without(s, 0), s[0].(aging := next, numRegs := s[0].numRegs + 1)))
  {
    assert Without(s, 0) == s[1..];
  }

  lemma RegisteredIs(s: seq<Event>, m: map<nat, Event>, key: nat, aging: nat, callback: bool)
    requires Agree(s, m)
    ensures key in m ==>
      && Find(s, key) < |s|
      && Registered(s, key, aging, callback) ==
         Placed(Without(s, Find(s, key)), Event(key, aging, m[key].numRegs + 1, callback))
    ensures key !in m ==>
      !HasKey(s, key) && Registered(s, key, aging, callback) == Placed(s, Event(key, aging, 1, callback))
  {
    hide Placed, Without, Slot, Agree;
    FindAgrees(s, m, key);
  }

  // The same links, in and out, keep list and map in agreement.
  lemma PlacedAgrees(s: seq<Event>, m: map<nat, Event>, e: Event)
    requires Wheel(s) && Agree(s, m) && !HasKey(s, e.key)
    ensures Agree(Placed(s, e), m[e.key := e])
  {
    hide Placed, Wheel;
    PlacedWheel(s, e);
    assert forall x | x in s :: x.key != e.key;
  }

  lemma WithoutAgrees(s: seq<Event>, m: map<nat, Event>, i: nat)
    requires Wheel(s) && Agree(s, m) && i < |s|
    ensures Agree(Without(s, i), m - {s[i].key})
  {
    hide Without, Wheel;
    WithoutWheel(s, i);
    assert s[i] in s;
    forall x | x in Without(s, i)
      ensures x.key != s[i].key
    {
      assert m[x.key] == x;
    }
  }

  class EventWheelObj {
    var events: seq<Event>
    var eventsMap: map<nat, Event>

    constructor ()
      ensures Valid() && events == []
    {
      events, eventsMap := [], map[];
    }

    // The list is sorted by aging time and holds exactly the events of the key map.
    ghost predicate Valid()
      reads this
    {
      Wheel(events) && Agree(events, eventsMap)
    }

    // cl_qlist_find_from_tail
    method FindFromTail(t: nat) returns (p: nat)
      ensures p == Slot(events, t)
    {
      p := |events|;
      while p > 0 && !(events[p - 1].aging < t)
        invariant p <= |events|
        invariant Slot(events, t) == Slot(events[..p], t)
      {
        assert events[..p][..p - 1] == events[..p - 1];
        p := p - 1;
      }
    }

    method Insert(e: Event)
      requires Valid() && !HasKey(events, e.key)
      modifies this
      ensures Valid() && events == Placed(old(events), e)
    {
      PlacedWheel(events, e);
      PlacedAgrees(events, eventsMap, e);
      hide Wheel, Agree, Slot;
      var p := FindFromTail(e.aging);
      events := events[..p] + [e] + events[p..];
      eventsMap := eventsMap[e.key := e];
    }

    method Remove(i: nat)
      requires Valid() && i < |events|
      modifies this
      ensures Valid() && events == Without(old(events), i) && !HasKey(events, old(events)[i].key)
    {
      WithoutWheel(events, i);
      WithoutAgrees(events, eventsMap, i);
      hide Wheel, Agree;
      var e := events[i];
      events := events[..i] + events[i + 1..];
      eventsMap := eventsMap - {e.key};
    }

    // cl_event_wheel_reg; start says that the timer has been started for this event.
    method Reg(key: nat, aging: nat, callback: bool, memory: bool) returns (ok: bool, start: bool)
      requires Valid()
      modifies this
      ensures Valid()
      ensures ok <==> memory || key in old(eventsMap)
      ensures ok ==> events == Registered(old(events), key, aging, callback)
      ensures !ok ==> events == old(events)
      ensures start <==> ok && |events| == 1
    {
      hide Wheel, Agree, Placed, Slot, Without, Registered;
      RegisteredIs(events, eventsMap, key, aging, callback);
      if key in eventsMap {
        start := Move(Find(events, key), Event(key, aging, eventsMap[key].numRegs + 1, callback));
        return true, start;
      }
      if !memory {
        return false, false;
      }
      start := |events| == 0;
      Insert(Event(key, aging, 1, callback));
      return true, start;
    }

    // The event at position i gets a new place under the same key.
    method Move(i: nat, e: Event) returns (start: bool)
      requires Valid() && i < |events| && e.key == events[i].key
      modifies this
      ensures Valid() && events == Placed(Without(old(events), i), e)
      ensures start <==> |events| == 1
    {
      hide Wheel, Agree, Placed, Slot, HasKey;
      Remove(i);
      start := |events| == 0;
      Insert(e);
    }

    // cl_event_wheel_unreg
    method Unreg(key: nat)
      requires Valid()
      modifies this
      ensures Valid() && events == Unregistered(old(events), key)
    {
      FindAgrees(events, eventsMap, key);
      hide Wheel, Agree;
      if key in eventsMap {
        Remove(Find(events, key));
      }
    }

    // cl_event_wheel_num_regs
    method NumRegs(key: nat) returns (n: nat)
      requires Valid()
      ensures n == if HasKey(events, key) then events[Find(events, key)].numRegs else 0
    {
      FindAgrees(events, eventsMap, key);
      hide Agree;
      n := if key in eventsMap then eventsMap[key].numRegs else 0;
    }

    // __cl_event_wheel_callback: the head is served until it has not aged.  What is left is the
    // outcome of every event, none of them aged; restart says that the timer is to be started.
    method Expire(cb: Callback, now: nat) returns (restart: bool)
      requires Valid() && AllSettle(cb, events, now)
      modifies this
      ensures Valid() && restart == (events != [])
      ensures forall e | e in events :: e.aging > now
      ensures (set e | e in events) == Outcomes(cb, old(events), now)
    {
      ghost var outcomes := Outcomes(cb, events, now);
      while events != [] && events[0].aging <= now
        invariant Valid() && AllSettle(cb, events, now) && Outcomes(cb, events, now) == outcomes
        decreases Left(cb, events, now)
      {
        TurnOutcomes(cb, events, now);
        Serve(cb, now);
      }
      Leaves(events, cb, now);
      restart := events != [];
    }

    // The loop body: the head's callback is called, and the event retired or armed again.
    method Serve(cb: Callback, now: nat)
      requires Valid() && events != [] && events[0].aging <= now
      modifies this
      ensures Valid() && events == Turn(old(events), cb, now)
    {
      hide Wheel, Agree, Placed, Slot, HasKey, Without, Turn;
      TurnIs(events, cb, now);
      var e := events[0];
      var next := if e.callback then cb(e.key, e.numRegs) else 0;
      if next < now {
        Remove(0);
      } else {
        var start := Move(0, e.(aging := next, numRegs := e.numRegs + 1));
      }
    }
  }
}
