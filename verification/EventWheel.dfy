// The event wheel as values: a list of events sorted by aging time, and the loop that serves the
// aged ones.
module EventWheel {
  import opened Options

  // callback: whether the event has an aged callback.
  datatype Event = Event(key: nat, aging: nat, numRegs: nat, callback: bool)

  // What the aged callback of a key answers at its n-th registration: when to age next.
  type Callback = (nat, nat) -> nat

  function Answer(cb: Callback, e: Event): nat
  {
    if e.callback then cb(e.key, e.numRegs) else 0
  }

  // ---------- the sorted list ----------

  ghost predicate Sorted(s: seq<Event>)
  {
    forall i, j :: 0 <= i < j < |s| ==> s[i].aging <= s[j].aging
  }

  ghost predicate Unique(s: seq<Event>)
  {
    forall i, j :: 0 <= i < j < |s| ==> s[i].key != s[j].key
  }

  ghost predicate Wheel(s: seq<Event>)
  {
    Sorted(s) && Unique(s)
  }

  // cl_qlist_find_from_tail, then insert after: behind the last event that ages before t.
  function Slot(s: seq<Event>, t: nat): (p: nat)
    ensures p <= |s|
    ensures p > 0 ==> s[p - 1].aging < t
    ensures forall i :: p <= i < |s| ==> s[i].aging >= t
  {
    if s == [] then 0 else if s[|s| - 1].aging < t then |s| else Slot(s[..|s| - 1], t)
  }

  function Placed(s: seq<Event>, e: Event): (r: seq<Event>)
    ensures |r| == |s| + 1
  {
    s[..Slot(s, e.aging)] + [e] + s[Slot(s, e.aging)..]
  }

  ghost predicate HasKey(s: seq<Event>, key: nat)
  {
    exists i :: 0 <= i < |s| && s[i].key == key
  }

  lemma PlacedAt(s: seq<Event>, e: Event, i: nat)
    requires i <= |s|
    ensures Placed(s, e)[i] == (var p := Slot(s, e.aging); if i < p then s[i] else if i == p then e else s[i - 1])
  {
  }

  lemma PlacedSorted(s: seq<Event>, e: Event)
    requires Sorted(s)
    ensures Sorted(Placed(s, e))
  {
    var p := Slot(s, e.aging);
    var r := Placed(s, e);
    forall i | 0 <= i < |r|
      ensures r[i] == if i < p then s[i] else if i == p then e else s[i - 1]
      ensures i < p ==> r[i].aging < e.aging
      ensures i >= p ==> r[i].aging >= e.aging
    {
      PlacedAt(s, e, i);
    }
    hide Placed;
  }

  lemma PlacedUnique(s: seq<Event>, e: Event)
    requires Unique(s) && !HasKey(s, e.key)
    ensures Unique(Placed(s, e))
  {
    var p := Slot(s, e.aging);
    var r := Placed(s, e);
    forall i | 0 <= i < |r|
      ensures r[i] == if i < p then s[i] else if i == p then e else s[i - 1]
    {
      PlacedAt(s, e, i);
    }
    hide Placed;
  }

  lemma PlacedWheel(s: seq<Event>, e: Event)
    requires Wheel(s) && !HasKey(s, e.key)
    ensures Wheel(Placed(s, e))
    ensures forall x :: x in Placed(s, e) <==> x == e || x in s
  {
    PlacedSorted(s, e);
    PlacedUnique(s, e);
    assert s == s[..Slot(s, e.aging)] + s[Slot(s, e.aging)..];
    hide Sorted, Unique;
  }

  // Where a key's event is.
  function Find(s: seq<Event>, key: nat): (i: nat)
    ensures i <= |s|
    ensures i < |s| ==> s[i].key == key
    ensures i == |s| ==> forall j :: 0 <= j < |s| ==> s[j].key != key
  {
    if s == [] then 0 else if s[0].key == key then 0 else 1 + Find(s[1..], key)
  }

  function Without(s: seq<Event>, i: nat): seq<Event>
    requires i < |s|
  {
    s[..i] + s[i + 1..]
  }

  lemma WithoutWheel(s: seq<Event>, i: nat)
    requires Wheel(s) && i < |s|
    ensures Wheel(Without(s, i)) && !HasKey(Without(s, i), s[i].key)
    ensures forall x :: x in Without(s, i) <==> x in s && x != s[i]
  {
    var r := Without(s, i);
    assert forall j :: 0 <= j < |r| ==> r[j] == s[if j < i then j else j + 1];
    forall x | x in s && x != s[i]
      ensures x in r
    {
      var k :| 0 <= k < |s| && s[k] == x;
      assert r[if k < i then k else k - 1] == x;
    }
  }

  // cl_event_wheel_reg: a key that is there keeps its count and gets its new place.
  function Registered(s: seq<Event>, key: nat, aging: nat, callback: bool): seq<Event>
  {
    var i := Find(s, key);
    if i < |s| then Placed(Without(s, i), Event(key, aging, s[i].numRegs + 1, callback))
    else Placed(s, Event(key, aging, 1, callback))
  }

  // cl_event_wheel_unreg
  function Unregistered(s: seq<Event>, key: nat): seq<Event>
  {
    var i := Find(s, key);
    if i < |s| then Without(s, i) else s
  }

  lemma RegisteredWheel(s: seq<Event>, key: nat, aging: nat, callback: bool)
    requires Wheel(s)
    ensures Wheel(Registered(s, key, aging, callback))
    ensures forall x :: x in Registered(s, key, aging, callback) && x.key != key <==> x in s && x.key != key
    ensures Event(key, aging, (if Find(s, key) < |s| then s[Find(s, key)].numRegs else 0) + 1, callback)
      in Registered(s, key, aging, callback)
  {
    hide Placed, Without, Slot, Sorted;
    var i := Find(s, key);
    if i < |s| {
      WithoutWheel(s, i);
      PlacedWheel(Without(s, i), Event(key, aging, s[i].numRegs + 1, callback));
      assert forall x | x in s && x.key == key :: x == s[i];
    } else {
      PlacedWheel(s, Event(key, aging, 1, callback));
    }
  }

  lemma UnregisteredWheel(s: seq<Event>, key: nat)
    requires Wheel(s)
    ensures Wheel(Unregistered(s, key))
    ensures forall x :: x in Unregistered(s, key) <==> x in s && x.key != key
  {
    var i := Find(s, key);
    if i < |s| {
      WithoutWheel(s, i);
    }
  }

  // ---------- one turn of the expiry loop ----------

  // The head has aged: it is retired, or armed again and put in its place.
  function Turn(s: seq<Event>, cb: Callback, now: nat): seq<Event>
    requires s != []
  {
    var next := Answer(cb, s[0]);
    if next < now then s[1..] else Placed(s[1..], s[0].(aging := next, numRegs := s[0].numRegs + 1))
  }

  lemma TurnWheel(s: seq<Event>, cb: Callback, now: nat)
    requires Wheel(s) && s != []
    ensures Wheel(Turn(s, cb, now))
    ensures var next := Answer(cb, s[0]);
      forall x :: x in Turn(s, cb, now) <==>
        (x in s && x != s[0]) || (next >= now && x == s[0].(aging := next, numRegs := s[0].numRegs + 1))
  {
    WithoutWheel(s, 0);
    assert Without(s, 0) == s[1..];
    if Answer(cb, s[0]) >= now {
      PlacedWheel(s[1..], s[0].(aging := Answer(cb, s[0]), numRegs := s[0].numRegs + 1));
    }
  }

  // What the callback is asked and what comes of its answer: the head's key and how often it has
  // been registered; an event without a callback is retired once time has begun.
  lemma TurnCalls(s: seq<Event>, cb: Callback, now: nat)
    requires Wheel(s) && s != [] && now > 0
    ensures (var e, t := s[0], Turn(s, cb, now);
      && (forall x | x in s && x != e :: x in t)
      && if e.callback && cb(e.key, e.numRegs) >= now then
           Event(e.key, cb(e.key, e.numRegs), e.numRegs + 1, true) in t && |t| == |s|
         else t == s[1..] && !HasKey(t, e.key))
  {
    TurnWheel(s, cb, now);
    WithoutWheel(s, 0);
    assert Without(s, 0) == s[1..];
    hide Wheel, Slot;
  }

  // ---------- when the loop ends ----------

  // The event's callback sooner or later answers something other than the current time.
  ghost predicate Settles(cb: Callback, e: Event, now: nat)
  {
    exists n :: n >= e.numRegs && Answer(cb, e.(numRegs := n)) != now
  }

  // At which registration it first does.
  ghost function First(cb: Callback, e: Event, now: nat, bound: nat): (n: nat)
    requires e.numRegs <= bound && Answer(cb, e.(numRegs := bound)) != now
    ensures e.numRegs <= n <= bound && Answer(cb, e.(numRegs := n)) != now
    ensures forall m | e.numRegs <= m < n :: Answer(cb, e.(numRegs := m)) == now
    decreases bound - e.numRegs
  {
    if Answer(cb, e) != now then
      assert e.(numRegs := e.numRegs) == e;
      e.numRegs
    else
      First(cb, e.(numRegs := e.numRegs + 1), now, bound)
  }

  ghost function Settled(cb: Callback, e: Event, now: nat): (n: nat)
    requires Settles(cb, e, now)
    ensures e.numRegs <= n && Answer(cb, e.(numRegs := n)) != now
    ensures forall m | e.numRegs <= m < n :: Answer(cb, e.(numRegs := m)) == now
  {
    var bound :| bound >= e.numRegs && Answer(cb, e.(numRegs := bound)) != now;
    First(cb, e, now, bound)
  }

  ghost predicate AllSettle(cb: Callback, s: seq<Event>, now: nat)
  {
    forall e | e in s && e.aging <= now :: Settles(cb, e, now)
  }

  // What becomes of an event at time now: it stays, is retired, or is armed again for later.
  ghost function Outcome(cb: Callback, e: Event, now: nat): Option<Event>
    requires e.aging <= now ==> Settles(cb, e, now)
  {
    if e.aging > now then Some(e) else
      var n := Settled(cb, e, now);
      var next := Answer(cb, e.(numRegs := n));
      if next < now then None else Some(e.(aging := next, numRegs := n + 1))
  }

  ghost function Outcomes(cb: Callback, s: seq<Event>, now: nat): set<Event>
    requires AllSettle(cb, s, now)
  {
    set e | e in s && Outcome(cb, e, now).Some? :: Outcome(cb, e, now).value
  }

  // How often the loop can still serve an event.
  ghost function Patience(cb: Callback, e: Event, now: nat): nat
    requires e.aging <= now ==> Settles(cb, e, now)
  {
    if e.aging > now then 0 else Settled(cb, e, now) - e.numRegs + 1
  }

  ghost function Left(cb: Callback, s: seq<Event>, now: nat): nat
    requires AllSettle(cb, s, now)
  {
    if s == [] then 0 else
      assert forall e | e in s[1..] :: e in s;
      assert s[0] in s;
      Patience(cb, s[0], now) + Left(cb, s[1..], now)
  }

  lemma {:induction false} LeftSplit(cb: Callback, a: seq<Event>, b: seq<Event>, now: nat)
    requires AllSettle(cb, a, now) && AllSettle(cb, b, now) && AllSettle(cb, a + b, now)
    ensures Left(cb, a + b, now) == Left(cb, a, now) + Left(cb, b, now)
  {
    hide Patience;
    if a == [] {
      assert a + b == b;
    } else {
      assert (a + b)[0] == a[0] && (a + b)[1..] == a[1..] + b;
      assert forall e | e in a[1..] :: e in a;
      assert forall e | e in a[1..] + b :: e in a + b;
      LeftSplit(cb, a[1..], b, now);
    }
  }

  lemma LeftPlaced(cb: Callback, s: seq<Event>, e: Event, now: nat)
    requires AllSettle(cb, s, now) && (e.aging <= now ==> Settles(cb, e, now))
    ensures AllSettle(cb, Placed(s, e), now)
    ensures Left(cb, Placed(s, e), now) == Left(cb, s, now) + Patience(cb, e, now)
  {
    hide Settles, Patience;
    var p := Slot(s, e.aging);
    var a, b := s[..p], s[p..];
    assert s == a + b && Placed(s, e) == (a + [e]) + b;
    assert forall x | x in a :: x in s;
    assert forall x | x in b :: x in s;
    LeftSplit(cb, a, b, now);
    LeftSplit(cb, a, [e], now);
    LeftSplit(cb, a + [e], b, now);
    assert Left(cb, [e], now) == Patience(cb, e, now) by {
      assert [e][1..] == [];
    }
  }

  // Serving an event once does not change what becomes of it, and uses up one of its turns.
  lemma ServeOne(cb: Callback, e: Event, now: nat)
    requires e.aging <= now && Settles(cb, e, now) && Answer(cb, e) >= now
    ensures (var x := e.(aging := Answer(cb, e), numRegs := e.numRegs + 1);
      && (x.aging <= now ==> Settles(cb, x, now))
      && Outcome(cb, x, now) == Outcome(cb, e, now) && Patience(cb, x, now) < Patience(cb, e, now))
  {
    var x := e.(aging := Answer(cb, e), numRegs := e.numRegs + 1);
    var n := Settled(cb, e, now);
    assert e.(numRegs := e.numRegs) == e;
    assert Answer(cb, x.(numRegs := n)) == Answer(cb, e.(numRegs := n));
    if Answer(cb, e) == now {
      assert n >= x.numRegs;
      assert Settles(cb, x, now);
      var k := Settled(cb, x, now);
      assert Answer(cb, x.(numRegs := k)) == Answer(cb, e.(numRegs := k));
    }
  }

  // An event whose callback answers with a time in the past is retired.
  lemma ServeLast(cb: Callback, e: Event, now: nat)
    requires e.aging <= now && Settles(cb, e, now) && Answer(cb, e) < now
    ensures Outcome(cb, e, now) == None && Patience(cb, e, now) > 0
  {
    assert e.(numRegs := e.numRegs) == e;
  }

  // One turn keeps the outcomes and makes progress.
  lemma TurnOutcomes(cb: Callback, s: seq<Event>, now: nat)
    requires Wheel(s) && s != [] && s[0].aging <= now && AllSettle(cb, s, now)
    ensures AllSettle(cb, Turn(s, cb, now), now)
    ensures Outcomes(cb, Turn(s, cb, now), now) == Outcomes(cb, s, now)
    ensures Left(cb, Turn(s, cb, now), now) < Left(cb, s, now)
  {
    var t, e := Turn(s, cb, now), s[0];
    assert e in s;
    assert forall x | x in s[1..] :: x in s;
    TurnWheel(s, cb, now);
    var next := Answer(cb, e);
    var y := e.(aging := next, numRegs := e.numRegs + 1);
    if next < now {
      ServeLast(cb, e, now);
    } else {
      ServeOne(cb, e, now);
      LeftPlaced(cb, s[1..], y, now);
    }
    hide Settles, Outcome, Patience, Wheel, Placed;
    OutcomesSame(cb, s, t, e, y, next >= now, now);
  }

  lemma OutcomesSame(cb: Callback, s: seq<Event>, t: seq<Event>, e: Event, y: Event, kept: bool, now: nat)
    requires AllSettle(cb, s, now) && AllSettle(cb, t, now) && e in s
    requires forall x :: x in t <==> (x in s && x != e) || (kept && x == y)
    requires kept ==> (y.aging <= now ==> Settles(cb, y, now)) && Outcome(cb, y, now) == Outcome(cb, e, now)
    requires !kept ==> Outcome(cb, e, now) == None
    ensures Outcomes(cb, t, now) == Outcomes(cb, s, now)
  {
    hide Settles, Outcome;
    forall o
      ensures o in Outcomes(cb, t, now) <==> o in Outcomes(cb, s, now)
    {
      if o in Outcomes(cb, s, now) {
        var x :| x in s && Outcome(cb, x, now) == Some(o);
        assert x == e ==> y in t;
      }
    }
  }

  // ---------- the whole loop ----------

  predicate Ended(s: seq<Event>, now: nat)
  {
    s == [] || s[0].aging > now
  }

  function Turns(s: seq<Event>, cb: Callback, now: nat, k: nat): seq<Event>
    decreases k
  {
    if k == 0 || Ended(s, now) then s else Turns(Turn(s, cb, now), cb, now, k - 1)
  }

  lemma {:induction false} Ends(s: seq<Event>, cb: Callback, now: nat, k: nat)
    requires Wheel(s) && AllSettle(cb, s, now) && Left(cb, s, now) <= k
    ensures Ended(Turns(s, cb, now, k), now)
    decreases k
  {
    if !Ended(s, now) {
      TurnWheel(s, cb, now);
      TurnOutcomes(cb, s, now);
      Ends(Turn(s, cb, now), cb, now, k - 1);
    }
  }

  lemma SettlesLater(cb: Callback, e: Event, now: nat)
    ensures Settles(cb, e.(aging := now, numRegs := e.numRegs + 1), now) ==> Settles(cb, e, now)
  {
    var y := e.(aging := now, numRegs := e.numRegs + 1);
    if Settles(cb, y, now) {
      var n :| n >= y.numRegs && Answer(cb, y.(numRegs := n)) != now;
      assert Answer(cb, e.(numRegs := n)) != now;
    }
  }

  lemma NeverSettles(cb: Callback, e: Event, now: nat)
    requires !Settles(cb, e, now)
    ensures Answer(cb, e) == now
    ensures !Settles(cb, e.(aging := now, numRegs := e.numRegs + 1), now)
  {
    SettlesLater(cb, e, now);
    assert e.(numRegs := e.numRegs) == e;
  }

  lemma HeadFirst(s: seq<Event>, e: Event)
    requires Wheel(s) && e in s
    ensures s != [] && s[0].aging <= e.aging
  {
  }

  lemma {:induction false} Endless(s: seq<Event>, cb: Callback, now: nat, e: Event, k: nat)
    requires Wheel(s) && e in s && e.aging <= now && !Settles(cb, e, now)
    ensures !Ended(Turns(s, cb, now, k), now)
    decreases k
  {
    hide Settles, Turn, Wheel;
    HeadFirst(s, e);
    if k > 0 {
      TurnWheel(s, cb, now);
      NeverSettles(cb, e, now);
      Endless(Turn(s, cb, now), cb, now, if e == s[0] then e.(aging := now, numRegs := e.numRegs + 1) else e, k - 1);
    }
  }

  ghost predicate EndsAfter(s: seq<Event>, cb: Callback, now: nat, k: nat)
  {
    Ended(Turns(s, cb, now, k), now)
  }

  // The expiry loop ends exactly when every aged event's callback sooner or later answers
  // something other than the current time.
  lemma EndsExactly(s: seq<Event>, cb: Callback, now: nat)
    requires Wheel(s)
    ensures (exists k: nat :: EndsAfter(s, cb, now, k)) <==> AllSettle(cb, s, now)
  {
    if AllSettle(cb, s, now) {
      var k := Left(cb, s, now);
      Ends(s, cb, now, k);
      assert EndsAfter(s, cb, now, k);
    } else {
      var e :| e in s && e.aging <= now && !Settles(cb, e, now);
      forall k: nat
        ensures !EndsAfter(s, cb, now, k)
      {
        Endless(s, cb, now, e, k);
      }
    }
  }

  // One aged event whose callback always answers the current time keeps the loop running.
  lemma NeverEnds(now: nat, cb: Callback)
    requires forall key, n :: cb(key, n) == now
    ensures forall k: nat :: !EndsAfter([Event(1, 0, 1, true)], cb, now, k)
  {
    var s := [Event(1, 0, 1, true)];
    EndsExactly(s, cb, now);
    assert !Settles(cb, s[0], now) && s[0] in s;
  }

  // What the loop leaves: exactly the outcomes of the events it found, none of them aged.
  lemma Leaves(s: seq<Event>, cb: Callback, now: nat)
    requires Wheel(s) && AllSettle(cb, s, now) && Ended(s, now)
    ensures forall e :: e in s <==> e in Outcomes(cb, s, now)
    ensures forall e | e in s :: e.aging > now
  {
    hide Settles;
    forall e | e in s
      ensures e.aging > now && Outcome(cb, e, now) == Some(e)
    {
      assert s[0].aging <= e.aging;
    }
  }
}
