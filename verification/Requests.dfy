// Requests sent in a single MAD that expect a single-MAD answer: their transactions, timeouts and
// retries, from osm_vendor_send to one callback.
module Requests {
  import opened EventWheel

  const OSM_DEFAULT_RETRY_COUNT: nat := 3

  datatype End = Answered(id: nat) | TimedOut(id: nat) | SendFailed(id: nat)

  // txns: which request each transaction key stands for; requests are numbered as they start.
  // sends and serves count, by request, MADs on the wire and timeouts served; ends lists the
  // callbacks made: receive callbacks and error callbacks.
  datatype Node = Node(txns: map<nat, nat>, wheel: seq<Event>, sends: seq<nat>, serves: seq<nat>, ends: seq<End>)

  datatype Step =
    | Send(key: nat, memory: bool, wire: bool, deadline: nat, room: bool)
    | Arrives(key: nat, response: bool, memory: bool)
    | Expires(now: nat, wire: bool, later: nat)

  function Bump(s: seq<nat>, i: nat): (t: seq<nat>)
    requires i < |s|
    ensures |t| == |s|
  {
    s[i := s[i] + 1]
  }

  // osmv_txn_done: the timeout is cancelled and the transaction forgotten.
  function Done(n: Node, key: nat): Node
  {
    n.(txns := n.txns - {key}, wheel := Unregistered(n.wheel, key))
  }

  // osm_vendor_send of a request.  A key in use, or no memory, is reported to the caller only;
  // a failed send, or no room for the timeout, calls the error callback.
  function Sent(n: Node, key: nat, memory: bool, wire: bool, deadline: nat, room: bool): Node
  {
    if key in n.txns || !memory then n else
      var id := |n.sends|;
      var started := n.(txns := n.txns[key := id], sends := n.sends + [if wire then 1 else 0],
        serves := n.serves + [0]);
      if wire && room then started.(wheel := Registered(n.wheel, key, deadline, true))
      else Done(started, key).(ends := n.ends + [SendFailed(id)])
  }

  // __osmv_dispatch_route and __osmv_dispatch_simple_mad: a response completes its request.
  function Arrived(n: Node, key: nat, response: bool, memory: bool): Node
  {
    if response && key in n.txns && memory then Done(n, key).(ends := n.ends + [Answered(n.txns[key])]) else n
  }

  // __osmv_txn_timeout_cb: when to age next, 0 to retire.
  function TimeoutAnswer(n: Node, e: Event, wire: bool, later: nat): nat
  {
    if e.key in n.txns && e.numRegs <= OSM_DEFAULT_RETRY_COUNT && wire then later else 0
  }

  // The wheel serves its head, which has aged: one more send, or the end of the request.
  function Expired(n: Node, now: nat, wire: bool, later: nat): Node
    requires n.wheel != []
    requires forall key | key in n.txns :: n.txns[key] < |n.sends| == |n.serves|
  {
    var e := n.wheel[0];
    var next := TimeoutAnswer(n, e, wire, later);
    var turned := n.(wheel := Turn(n.wheel, (_, _) => next, now));
    if e.key !in n.txns then turned else
      var id := n.txns[e.key];
      var counted := turned.(serves := Bump(n.serves, id));
      if e.numRegs > OSM_DEFAULT_RETRY_COUNT then
        counted.(txns := n.txns - {e.key}, ends := n.ends + [TimedOut(id)])
      else if !wire then counted.(txns := n.txns - {e.key}, ends := n.ends + [SendFailed(id)])
      else counted.(sends := Bump(n.sends, id))
  }

  ghost predicate Formed(n: Node)
  {
    |n.sends| == |n.serves| && forall key | key in n.txns :: n.txns[key] < |n.sends|
  }

  // The wheel serves what has aged; a retry's deadline is not in the past.
  predicate Enabled(n: Node, s: Step)
  {
    s.Expires? ==> n.wheel != [] && n.wheel[0].aging <= s.now && 0 < s.now <= s.later
  }

  function Next(n: Node, s: Step): Node
    requires Formed(n) && Enabled(n, s)
  {
    match s
    case Send(key, memory, wire, deadline, room) => Sent(n, key, memory, wire, deadline, room)
    case Arrives(key, response, memory) => Arrived(n, key, response, memory)
    case Expires(now, wire, later) => Expired(n, now, wire, later)
  }

  // ---------- the invariant ----------

  const ROUNDS: nat := OSM_DEFAULT_RETRY_COUNT + 1

  // How often an ended request was sent and served.
  ghost predicate EndOk(n: Node, e: End)
    requires |n.sends| == |n.serves|
  {
    && e.id < |n.sends|
    && match e
       case Answered(id) => 1 <= n.sends[id] <= ROUNDS && n.serves[id] == n.sends[id] - 1
       case TimedOut(id) => n.sends[id] == ROUNDS && n.serves[id] == ROUNDS
       case SendFailed(id) => n.sends[id] < ROUNDS && n.serves[id] < ROUNDS
  }

  // The event of a transaction counts its sends.
  ghost predicate EventOk(n: Node, e: Event)
    requires Formed(n)
  {
    && e.key in n.txns && e.callback && 1 <= e.numRegs <= ROUNDS
    && n.sends[n.txns[e.key]] == e.numRegs && n.serves[n.txns[e.key]] == e.numRegs - 1
  }

  ghost predicate Live(n: Node, id: nat)
  {
    exists key :: key in n.txns && n.txns[key] == id
  }

  ghost predicate Ended(n: Node, id: nat)
  {
    exists i :: 0 <= i < |n.ends| && n.ends[i].id == id
  }

  // Map and wheel hold the same keys, and every event the count of its request.
  ghost predicate Tracked(n: Node)
    requires Formed(n)
  {
    && Wheel(n.wheel)
    && (forall e | e in n.wheel :: EventOk(n, e))
    && (forall key | key in n.txns :: HasKey(n.wheel, key))
  }

  // A request is either under way, under one key, or has ended, once.
  ghost predicate Settled(n: Node)
    requires Formed(n)
  {
    && (forall a, b | a in n.txns && b in n.txns && a != b :: n.txns[a] != n.txns[b])
    && (forall i, j :: 0 <= i < j < |n.ends| ==> n.ends[i].id != n.ends[j].id)
    && (forall i | 0 <= i < |n.ends| :: EndOk(n, n.ends[i]))
    && (forall key, i | key in n.txns && 0 <= i < |n.ends| :: n.ends[i].id != n.txns[key])
    && (forall id | 0 <= id < |n.sends| :: Live(n, id) || Ended(n, id))
  }

  ghost predicate Inv(n: Node)
  {
    Formed(n) && Tracked(n) && Settled(n)
  }

  // Every event of the wheel belongs to a transaction and has its callback.
  lemma HeadOk(n: Node)
    requires Inv(n) && n.wheel != []
    ensures EventOk(n, n.wheel[0])
  {
    assert n.wheel[0] in n.wheel;
  }

  // A request that was under way ends.
  lemma EndSettles(n: Node, v: Node, key: nat, e: End)
    requires Formed(n) && Formed(v) && Settled(n) && key in n.txns && e.id == n.txns[key]
    requires v.txns == n.txns - {key} && v.ends == n.ends + [e] && |v.sends| == |n.sends|
    requires forall i | 0 <= i < |n.sends| && i != e.id :: v.sends[i] == n.sends[i] && v.serves[i] == n.serves[i]
    requires EndOk(v, e)
    ensures Settled(v)
  {
    forall id | 0 <= id < |v.sends|
      ensures Live(v, id) || Ended(v, id)
    {
      if id == e.id {
        assert v.ends[|n.ends|].id == id;
      } else if Ended(n, id) {
        var i :| 0 <= i < |n.ends| && n.ends[i].id == id;
        assert v.ends[i].id == id;
      } else {
        assert Live(n, id);
        var k :| k in n.txns && n.txns[k] == id;
        assert k in v.txns;
      }
    }
    forall i | 0 <= i < |v.ends|
      ensures EndOk(v, v.ends[i])
    {
      assert i < |n.ends| ==> EndOk(n, n.ends[i]) && n.ends[i].id != e.id;
    }
  }

  // Its key leaves the wheel as well.
  lemma DoneTracks(n: Node, key: nat)
    requires Formed(n) && Tracked(n)
    ensures Tracked(Done(n, key))
  {
    var v := Done(n, key);
    UnregisteredWheel(n.wheel, key);
    hide Wheel, Unregistered;
    forall e | e in v.wheel
      ensures EventOk(v, e)
    {
      assert EventOk(n, e);
    }
    forall k | k in v.txns
      ensures HasKey(v.wheel, k)
    {
      KeyStays(n.wheel, v.wheel, k, key);
    }
  }

  lemma KeyStays(s: seq<Event>, t: seq<Event>, k: nat, key: nat)
    requires HasKey(s, k) && k != key && forall x :: x in t <==> x in s && x.key != key
    ensures HasKey(t, k)
  {
    var i :| 0 <= i < |s| && s[i].key == k;
    assert s[i] in t;
  }

  lemma ArrivedKeeps(n: Node, key: nat, response: bool, memory: bool)
    requires Inv(n)
    ensures Inv(Arrived(n, key, response, memory))
  {
    if response && key in n.txns && memory {
      var e := Answered(n.txns[key]);
      var v := Done(n, key).(ends := n.ends + [e]);
      var k :| 0 <= k < |n.wheel| && n.wheel[k].key == key;
      assert EventOk(n, n.wheel[k]);
      DoneTracks(n, key);
      TrackedSame(Done(n, key), v);
      hide Tracked;
      EndSettles(n, v, key, e);
    }
  }

  lemma TrackedSame(n: Node, v: Node)
    requires Formed(n) && Formed(v) && Tracked(n) && v == n.(ends := v.ends)
    ensures Tracked(v)
  {
    forall e | e in v.wheel
      ensures EventOk(v, e)
    {
      assert EventOk(n, e);
    }
  }

  // ---------- sending ----------

  // Requests already there do not notice a new one.
  lemma OldEvents(n: Node, v: Node, key: nat, e: Event)
    requires Formed(n) && Formed(v) && EventOk(n, e) && e.key != key
    requires e.key in v.txns && v.txns[e.key] == n.txns[e.key] && n.sends <= v.sends && n.serves <= v.serves
    ensures EventOk(v, e)
  {
  }

  lemma NewSettles(n: Node, v: Node, key: nat)
    requires Formed(n) && Formed(v) && Settled(n) && key !in n.txns
    requires v.txns == n.txns[key := |n.sends|] && v.ends == n.ends
    requires n.sends <= v.sends && n.serves <= v.serves && |v.sends| == |n.sends| + 1
    ensures Settled(v)
  {
    forall id | 0 <= id < |v.sends|
      ensures Live(v, id) || Ended(v, id)
    {
      if id == |n.sends| {
        assert key in v.txns && v.txns[key] == id;
      } else if Live(n, id) {
        var k :| k in n.txns && n.txns[k] == id;
        assert k in v.txns && v.txns[k] == id;
      } else {
        assert Ended(n, id);
      }
    }
    forall i | 0 <= i < |v.ends|
      ensures EndOk(v, v.ends[i])
    {
      assert EndOk(n, n.ends[i]);
    }
  }

  lemma FailedSettles(n: Node, v: Node, wire: bool)
    requires Formed(n) && Formed(v) && Settled(n) && v.txns == n.txns && v.ends == n.ends + [SendFailed(|n.sends|)]
    requires v.sends == n.sends + [if wire then 1 else 0] && v.serves == n.serves + [0]
    ensures Settled(v)
  {
    forall id | 0 <= id < |v.sends|
      ensures Live(v, id) || Ended(v, id)
    {
      if id == |n.sends| {
        assert v.ends[|n.ends|].id == id;
      } else if Live(n, id) {
        var k :| k in n.txns && n.txns[k] == id;
        assert k in v.txns && v.txns[k] == id;
      } else {
        var i :| 0 <= i < |n.ends| && n.ends[i].id == id;
        assert v.ends[i].id == id;
      }
    }
    forall i | 0 <= i < |v.ends|
      ensures EndOk(v, v.ends[i])
    {
      assert i < |n.ends| ==> EndOk(n, n.ends[i]);
    }
  }

  lemma FindIn(s: seq<Event>, key: nat)
    ensures Find(s, key) < |s| ==> s[Find(s, key)] in s
  {
  }

  lemma NotWaiting(n: Node, key: nat)
    requires Formed(n) && Tracked(n) && key !in n.txns
    ensures Find(n.wheel, key) == |n.wheel| && !HasKey(n.wheel, key) && Unregistered(n.wheel, key) == n.wheel
  {
    FindIn(n.wheel, key);
  }

  lemma SentTracks(n: Node, key: nat, deadline: nat, v: Node)
    requires Formed(n) && Formed(v) && Tracked(n) && key !in n.txns
    requires v.txns == n.txns[key := |n.sends|] && v.wheel == Registered(n.wheel, key, deadline, true)
    requires v.sends == n.sends + [1] && v.serves == n.serves + [0]
    ensures Tracked(v)
  {
    var e := Event(key, deadline, 1, true);
    NotWaiting(n, key);
    PlacedWheel(n.wheel, e);
    hide Wheel, Placed, Unregistered;
    forall x | x in v.wheel
      ensures EventOk(v, x)
    {
      if x != e {
        assert EventOk(n, x);
        OldEvents(n, v, key, x);
      }
    }
    forall k | k in v.txns
      ensures HasKey(v.wheel, k)
    {
      if k == key {
        KeyIn(v.wheel, e);
      } else {
        var i :| 0 <= i < |n.wheel| && n.wheel[i].key == k;
        KeyIn(v.wheel, n.wheel[i]);
      }
    }
  }

  lemma KeyIn(s: seq<Event>, e: Event)
    requires e in s
    ensures HasKey(s, e.key)
  {
    var i :| 0 <= i < |s| && s[i] == e;
  }

  lemma SentKeeps(n: Node, key: nat, memory: bool, wire: bool, deadline: nat, room: bool)
    requires Inv(n)
    ensures Inv(Sent(n, key, memory, wire, deadline, room))
  {
    hide Registered;
    if key !in n.txns && memory {
      var v := Sent(n, key, memory, wire, deadline, room);
      NotWaiting(n, key);
      hide Tracked, Settled;
      if wire && room {
        SentTracks(n, key, deadline, v);
        NewSettles(n, v, key);
      } else {
        assert v.txns == n.txns && v.wheel == n.wheel;
        FailedTracks(n, v);
        FailedSettles(n, v, wire);
      }
    }
  }

  lemma FailedTracks(n: Node, v: Node)
    requires Formed(n) && Formed(v) && Tracked(n) && v.txns == n.txns && v.wheel == n.wheel
    requires n.sends <= v.sends && n.serves <= v.serves
    ensures Tracked(v)
  {
    forall e | e in v.wheel
      ensures EventOk(v, e)
    {
      assert EventOk(n, e);
    }
  }

  // ---------- expiring ----------

  lemma ExpiredKeeps(n: Node, now: nat, wire: bool, later: nat)
    requires Inv(n) && Enabled(n, Expires(now, wire, later))
    ensures Inv(Expired(n, now, wire, later))
  {
    hide Wheel, Turn, Placed;
    var e, v := n.wheel[0], Expired(n, now, wire, later);
    assert EventOk(n, e);
    var id, next := n.txns[e.key], TimeoutAnswer(n, e, wire, later);
    TurnWheel(n.wheel, (_, _) => next, now);
    ExpiredTracks(n, v, e, wire, later);
    hide Tracked;
    if e.numRegs > OSM_DEFAULT_RETRY_COUNT {
      EndSettles(n, v, e.key, TimedOut(id));
    } else if !wire {
      EndSettles(n, v, e.key, SendFailed(id));
    } else {
      RetrySettles(n, v, e.key);
    }
  }

  lemma ExpiredTracks(n: Node, v: Node, e: Event, wire: bool, later: nat)
    requires Formed(n) && Formed(v) && Inv(n) && e in n.wheel && Wheel(v.wheel)
    requires var kept := e.numRegs <= OSM_DEFAULT_RETRY_COUNT && wire;
      && (forall x :: x in v.wheel <==>
            (x in n.wheel && x != e) || (kept && x == e.(aging := later, numRegs := e.numRegs + 1)))
      && v.txns == (if kept then n.txns else n.txns - {e.key})
      && e.key in n.txns && v.serves == Bump(n.serves, n.txns[e.key])
      && v.sends == if kept then Bump(n.sends, n.txns[e.key]) else n.sends
    ensures Tracked(v)
  {
    var kept := e.numRegs <= OSM_DEFAULT_RETRY_COUNT && wire;
    var y := e.(aging := later, numRegs := e.numRegs + 1);
    assert EventOk(n, e);
    forall x | x in v.wheel
      ensures EventOk(v, x)
    {
      if x in n.wheel && x != e {
        assert EventOk(n, x);
        OtherKey(n.wheel, x, e);
      }
    }
    forall k | k in v.txns
      ensures HasKey(v.wheel, k)
    {
      if k == e.key {
        KeyIn(v.wheel, y);
      } else {
        var i :| 0 <= i < |n.wheel| && n.wheel[i].key == k;
        KeyIn(v.wheel, n.wheel[i]);
      }
    }
  }

  lemma OtherKey(s: seq<Event>, x: Event, e: Event)
    requires Wheel(s) && x in s && e in s && x != e
    ensures x.key != e.key
  {
  }

  lemma RetrySettles(n: Node, v: Node, key: nat)
    requires Formed(n) && Formed(v) && Settled(n) && key in n.txns
    requires v.txns == n.txns && v.ends == n.ends
    requires v.sends == Bump(n.sends, n.txns[key]) && v.serves == Bump(n.serves, n.txns[key])
    ensures Settled(v)
  {
    forall id | 0 <= id < |v.sends|
      ensures Live(v, id) || Ended(v, id)
    {
      assert Live(n, id) || Ended(n, id);
    }
    forall i | 0 <= i < |v.ends|
      ensures EndOk(v, v.ends[i])
    {
      assert EndOk(n, n.ends[i]) && n.ends[i].id != n.txns[key];
    }
  }

  // ---------- every run ----------

  const START: Node := Node(map[], [], [], [], [])

  ghost predicate Reaches(ss: seq<Step>, n: Node)
    decreases |ss|, 1
  {
    if ss == [] then n == START else exists b :: After(ss, b, n)
  }

  ghost predicate After(ss: seq<Step>, b: Node, n: Node)
    requires ss != []
    decreases |ss|, 0
  {
    && Reaches(ss[..|ss| - 1], b) && Formed(b) && Enabled(b, ss[|ss| - 1])
    && n == Next(b, ss[|ss| - 1])
  }

  lemma {:induction false} ReachesKeeps(ss: seq<Step>, n: Node)
    requires Reaches(ss, n)
    ensures Inv(n)
    decreases |ss|
  {
    if ss != [] {
      hide Inv, Sent, Arrived, Expired;
      var b :| After(ss, b, n);
      ReachesKeeps(ss[..|ss| - 1], b);
      match ss[|ss| - 1]
      case Send(key, memory, wire, deadline, room) => SentKeeps(b, key, memory, wire, deadline, room);
      case Arrives(key, response, memory) => ArrivedKeeps(b, key, response, memory);
      case Expires(now, wire, later) => ExpiredKeeps(b, now, wire, later);
    }
  }

  // In every run a request gets at most one callback, and one that has had it is no longer under
  // way: its key is in the transaction map or the wheel only if a later request uses it.
  lemma AtMostOneCallback(ss: seq<Step>, n: Node, i: nat, j: nat)
    requires Reaches(ss, n) && i < |n.ends| && j < |n.ends|
    ensures n.ends[i].id == n.ends[j].id ==> i == j
    ensures !Live(n, n.ends[i].id)
    ensures forall e | e in n.wheel :: e.key in n.txns && n.txns[e.key] != n.ends[i].id
  {
    ReachesKeeps(ss, n);
    forall e | e in n.wheel
      ensures e.key in n.txns && n.txns[e.key] != n.ends[i].id
    {
      assert EventOk(n, e);
    }
  }

  // A request that is neither answered nor hit by a failed send: after k timeouts, k at most
  // OSM_DEFAULT_RETRY_COUNT, it is under way and has been sent 1 + k times; the timeout after
  // that ends it, with one error callback and 1 + OSM_DEFAULT_RETRY_COUNT sends.
  lemma UnansweredEnds(ss: seq<Step>, n: Node, id: nat)
    requires Reaches(ss, n) && id < |n.sends|
    requires Answered(id) !in n.ends && SendFailed(id) !in n.ends
    ensures |n.sends| == |n.serves| && n.serves[id] <= OSM_DEFAULT_RETRY_COUNT + 1
    ensures n.serves[id] <= OSM_DEFAULT_RETRY_COUNT <==> Live(n, id)
    ensures Live(n, id) ==> n.sends[id] == 1 + n.serves[id] && TimedOut(id) !in n.ends
    ensures !Live(n, id) ==> TimedOut(id) in n.ends && n.sends[id] == 1 + OSM_DEFAULT_RETRY_COUNT
  {
    ReachesKeeps(ss, n);
    if Live(n, id) {
      var key :| key in n.txns && n.txns[key] == id;
      assert HasKey(n.wheel, key);
      var i :| 0 <= i < |n.wheel| && n.wheel[i].key == key;
      assert EventOk(n, n.wheel[i]);
    } else {
      assert Ended(n, id);
      var i :| 0 <= i < |n.ends| && n.ends[i].id == id;
      assert EndOk(n, n.ends[i]) && n.ends[i] in n.ends;
    }
  }

  // ---------- what each step does to the requests ----------

  // The events of v are those of n without any under the key.
  ghost predicate WheelWithout(v: seq<Event>, n: seq<Event>, key: nat)
  {
    forall e :: e in v <==> e in n && e.key != key
  }

  // A response to a request under way ends that request as answered, cancels its timeout and
  // touches no other; anything else that arrives changes nothing.
  lemma ResponseCompletes(n: Node, key: nat, response: bool, memory: bool)
    requires Inv(n)
    ensures (var v := Arrived(n, key, response, memory);
      if response && key in n.txns && memory then
        && v.ends == n.ends + [Answered(n.txns[key])] && v.txns == n.txns - {key} && WheelWithout(v.wheel, n.wheel, key)
        && v.sends == n.sends && v.serves == n.serves
      else v == n)
  {
    UnregisteredWheel(n.wheel, key);
    hide Unregistered, Wheel;
  }

  // A send that works puts one MAD on the wire, starts a transaction under the key and arms one
  // timeout at the deadline; one that fails is reported by one error callback and leaves nothing
  // behind; a key in use and a lack of memory change nothing.
  lemma SendStarts(n: Node, key: nat, memory: bool, wire: bool, deadline: nat, room: bool)
    requires Inv(n)
    ensures (var v := Sent(n, key, memory, wire, deadline, room);
      if key in n.txns || !memory then v == n else
        && v.sends == n.sends + [if wire then 1 else 0] && v.serves == n.serves + [0]
        && if wire && room then
             && v.txns == n.txns[key := |n.sends|] && v.ends == n.ends
             && (forall e :: e in v.wheel <==> e in n.wheel || e == Event(key, deadline, 1, true))
           else v.txns == n.txns && v.wheel == n.wheel && v.ends == n.ends + [SendFailed(|n.sends|)])
  {
    if key !in n.txns && memory {
      NotWaiting(n, key);
      PlacedWheel(n.wheel, Event(key, deadline, 1, true));
      hide Wheel, Placed, Tracked, Settled, Unregistered;
    }
  }

  // The timeout that ages first is served: while the retries last, one more MAD and the next
  // timeout, later; then, or when that send fails, one error callback and the end.
  lemma TimeoutServes(n: Node, now: nat, wire: bool, later: nat)
    requires Inv(n) && Enabled(n, Expires(now, wire, later))
    ensures (var v, e := Expired(n, now, wire, later), n.wheel[0];
      && (forall x | x in n.wheel :: e.aging <= x.aging)
      && e.key in n.txns && v.serves == Bump(n.serves, n.txns[e.key])
      && if e.numRegs <= OSM_DEFAULT_RETRY_COUNT && wire then
           && v.txns == n.txns && v.ends == n.ends && v.sends == Bump(n.sends, n.txns[e.key])
           && (forall x :: x in v.wheel <==>
                 (x in n.wheel && x.key != e.key) || x == Event(e.key, later, e.numRegs + 1, true))
         else
           && v.txns == n.txns - {e.key} && v.sends == n.sends && WheelWithout(v.wheel, n.wheel, e.key)
           && v.ends == n.ends + [if e.numRegs <= OSM_DEFAULT_RETRY_COUNT then SendFailed(n.txns[e.key])
                                  else TimedOut(n.txns[e.key])])
  {
    var e := n.wheel[0];
    HeadOk(n);
    forall x | x in n.wheel
      ensures e.aging <= x.aging && (x.key == e.key <==> x == e)
    {
      HeadFirst(n.wheel, x);
      if x != e {
        OtherKey(n.wheel, x, e);
      }
    }
    var next := TimeoutAnswer(n, e, wire, later);
    TurnWheel(n.wheel, (_, _) => next, now);
    hide Wheel, Turn, Tracked, Settled, Placed;
  }

  // ---------- answered requests over whole runs ----------

  lemma {:induction false} ReachesOnce(ss: seq<Step>, a: Node, b: Node)
    requires Reaches(ss, a) && Reaches(ss, b)
    ensures a == b
    decreases |ss|
  {
    if ss != [] {
      hide Next;
      var a' :| After(ss, a', a);
      var b' :| After(ss, b', b);
      ReachesOnce(ss[..|ss| - 1], a', b');
    }
  }

  // Callbacks that have been made stay made.
  lemma {:induction false} EndsGrow(ss: seq<Step>, i: nat, b: Node, n: Node)
    requires i <= |ss| && Reaches(ss[..i], b) && Reaches(ss, n)
    ensures b.ends <= n.ends
    decreases |ss|
  {
    if i == |ss| {
      assert ss[..i] == ss;
      ReachesOnce(ss, b, n);
    } else {
      var a :| After(ss, a, n);
      assert ss[..|ss| - 1][..i] == ss[..i];
      EndsGrow(ss[..|ss| - 1], i, b, a);
      hide Registered, Unregistered, Turn;
    }
  }

  // A request whose response arrives, with memory for it, while it is under way ends as answered
  // and in no other way, whatever happens before or after.
  lemma AnsweredEnds(ss: seq<Step>, i: nat, b: Node, n: Node, key: nat)
    requires i < |ss| && Reaches(ss[..i], b) && Reaches(ss, n)
    requires ss[i] == Arrives(key, true, true) && key in b.txns
    ensures (var id := b.txns[key];
      && Answered(id) in n.ends && !Live(n, id)
      && forall j | 0 <= j < |n.ends| && n.ends[j].id == id :: n.ends[j] == Answered(id))
  {
    hide Reaches;
    var id, c := b.txns[key], Arrived(b, key, true, true);
    ReachesKeeps(ss[..i], b);
    ResponseCompletes(b, key, true, true);
    OneMore(ss, i, b, c);
    EndsGrow(ss, i + 1, c, n);
    assert n.ends[|b.ends|] == c.ends[|b.ends|] == Answered(id);
    forall j | 0 <= j < |n.ends| && n.ends[j].id == id
      ensures j == |b.ends|
    {
      AtMostOneCallback(ss, n, j, |b.ends|);
    }
    AtMostOneCallback(ss, n, |b.ends|, |b.ends|);
  }

  lemma OneMore(ss: seq<Step>, i: nat, b: Node, c: Node)
    requires i < |ss| && Reaches(ss[..i], b) && Formed(b) && Enabled(b, ss[i]) && c == Next(b, ss[i])
    ensures Reaches(ss[..i + 1], c)
  {
    var t := ss[..i + 1];
    assert t[..|t| - 1] == ss[..i] && t[|t| - 1] == ss[i];
    assert After(t, b, c);
  }
}
