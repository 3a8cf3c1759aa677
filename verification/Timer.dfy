// The timer provider: one queue of timers in expiration order, and the state of every timer.
module Timers {
  datatype TimeSpec = TimeSpec(sec: int, nsec: int)

  // __cl_timer_is_earlier
  predicate Earlier(a: TimeSpec, b: TimeSpec)
  {
    a.sec < b.sec || (a.sec == b.sec && a.nsec < b.nsec)
  }

  const NSEC: int := 1_000_000_000

  function Nanos(t: TimeSpec): int
  {
    t.sec * NSEC + t.nsec
  }

  // For times with less than a second of nanoseconds that is the order of the nanosecond counts.
  lemma EarlierExactly(a: TimeSpec, b: TimeSpec)
    requires 0 <= a.nsec < NSEC && 0 <= b.nsec < NSEC
    ensures Earlier(a, b) <==> Nanos(a) < Nanos(b)
  {
  }

  datatype State = Idle | Queued | Running

  datatype Timer = Timer(state: State, timeout: TimeSpec)

  // ---------- the queue ----------

  ghost predicate Known(queue: seq<nat>, timers: map<nat, Timer>)
  {
    forall t | t in queue :: t in timers
  }

  // A timer is in the queue, once, exactly while its state is QUEUED.
  ghost predicate Exact(queue: seq<nat>, timers: map<nat, Timer>)
  {
    && (forall i, j :: 0 <= i < j < |queue| ==> queue[i] != queue[j])
    && (forall t | t in timers :: t in queue <==> timers[t].state == Queued)
  }

  ghost predicate InOrder(queue: seq<nat>, timers: map<nat, Timer>)
    requires Known(queue, timers)
  {
    forall i, j :: 0 <= i < j < |queue| ==>
      queue[i] in timers && queue[j] in timers && !Earlier(timers[queue[j]].timeout, timers[queue[i]].timeout)
  }

  ghost predicate Ready(queue: seq<nat>, timers: map<nat, Timer>)
  {
    Known(queue, timers) && Exact(queue, timers) && InOrder(queue, timers)
  }

  // The head of the queue, which the provider waits for, expires no later than any other.
  lemma HeadEarliest(queue: seq<nat>, timers: map<nat, Timer>, t: nat)
    requires Ready(queue, timers) && t in queue
    requires forall x | x in timers :: 0 <= timers[x].timeout.nsec < NSEC
    ensures queue[0] in timers && t in timers && Nanos(timers[queue[0]].timeout) <= Nanos(timers[t].timeout)
  {
    var i :| 0 <= i < |queue| && queue[i] == t;
    if i > 0 {
      assert queue[i] in timers && !Earlier(timers[queue[i]].timeout, timers[queue[0]].timeout);
      EarlierExactly(timers[t].timeout, timers[queue[0]].timeout);
    }
  }

  // Behind the last timer that expires before time.
  function Slot(queue: seq<nat>, timers: map<nat, Timer>, time: TimeSpec): (p: nat)
    requires forall t | t in queue :: t in timers
    ensures p <= |queue|
    ensures p > 0 ==> queue[p - 1] in timers && Earlier(timers[queue[p - 1]].timeout, time)
    ensures forall i :: p <= i < |queue| ==> queue[i] in timers && !Earlier(timers[queue[i]].timeout, time)
  {
    if queue == [] then 0
    else if Earlier(timers[queue[|queue| - 1]].timeout, time) then |queue|
    else Slot(queue[..|queue| - 1], timers, time)
  }

  function Find(queue: seq<nat>, t: nat): (i: nat)
    requires t in queue
    ensures i < |queue| && queue[i] == t
  {
    if queue[0] == t then 0 else 1 + Find(queue[1..], t)
  }

  function Without(queue: seq<nat>, t: nat): seq<nat>
  {
    if t in queue then queue[..Find(queue, t)] + queue[Find(queue, t) + 1..] else queue
  }

  // One timer stands before the other.
  ghost predicate Apart(queue: seq<nat>, a: nat, b: nat)
  {
    exists k, l :: 0 <= k < l < |queue| && a == queue[k] && b == queue[l]
  }

  lemma WithoutWhere(queue: seq<nat>, t: nat)
    requires forall i, j :: 0 <= i < j < |queue| ==> queue[i] != queue[j]
    ensures (var r := Without(queue, t);
      && (forall i, j :: 0 <= i < j < |r| ==> Apart(queue, r[i], r[j]))
      && (forall x :: x in r <==> x in queue && x != t))
  {
    var r, p := Without(queue, t), if t in queue then Find(queue, t) else |queue|;
    assert forall i | 0 <= i < |r| :: r[i] == queue[if i < p then i else i + 1];
    forall i, j | 0 <= i < j < |r|
      ensures Apart(queue, r[i], r[j])
    {
      var k, l := if i < p then i else i + 1, if j < p then j else j + 1;
      assert r[i] == queue[k] && r[j] == queue[l];
    }
    forall x | x in queue && x != t
      ensures x in r
    {
      var k :| 0 <= k < |queue| && queue[k] == x;
      assert r[if k < p then k else k - 1] == x;
    }
  }

  // The queue without timer t, whose state becomes s.
  lemma Leaves(queue: seq<nat>, timers: map<nat, Timer>, t: nat, s: State)
    requires Ready(queue, timers) && t in timers && s != Queued
    ensures Ready(Without(queue, t), timers[t := timers[t].(state := s)])
    ensures t !in Without(queue, t)
  {
    hide Without;
    WithoutWhere(queue, t);
    var r, q := Without(queue, t), timers[t := timers[t].(state := s)];
    forall i, j | 0 <= i < j < |r|
      ensures r[i] != r[j]
      ensures r[i] in q && r[j] in q && !Earlier(q[r[j]].timeout, q[r[i]].timeout)
    {
      assert Apart(queue, r[i], r[j]);
      var k, l :| 0 <= k < l < |queue| && r[i] == queue[k] && r[j] == queue[l];
    }
  }

  function Entered(queue: seq<nat>, timers: map<nat, Timer>, t: nat, time: TimeSpec): seq<nat>
    requires forall x | x in queue :: x in timers
  {
    var p := Slot(queue, timers, time);
    queue[..p] + [t] + queue[p..]
  }

  // Timer t stands at p of the new queue r, behind those that expire earlier.
  ghost predicate Standing(queue: seq<nat>, timers: map<nat, Timer>, t: nat, time: TimeSpec, p: nat, r: seq<nat>)
  {
    && p <= |queue| && |r| == |queue| + 1
    && (forall i {:trigger r[i]} | 0 <= i < |r| ::
          r[i] == if i < p then queue[i] else if i == p then t else queue[i - 1])
    && (forall i | 0 <= i < p :: queue[i] in timers && Earlier(timers[queue[i]].timeout, time))
    && (forall i | p <= i < |queue| :: queue[i] in timers && !Earlier(timers[queue[i]].timeout, time))
    && (forall x :: x in r <==> x == t || x in queue)
  }

  lemma EntersWhere(queue: seq<nat>, timers: map<nat, Timer>, t: nat, time: TimeSpec)
    requires Ready(queue, timers)
    ensures Standing(queue, timers, t, time, Slot(queue, timers, time), Entered(queue, timers, t, time))
  {
    hide Exact, InOrder;
    var p := Slot(queue, timers, time);
    SlotSplits(queue, timers, time, p);
    JoinWhere(queue, t, p);
  }

  lemma JoinWhere(queue: seq<nat>, t: nat, p: nat)
    requires p <= |queue|
    ensures var r := queue[..p] + [t] + queue[p..];
      forall i {:trigger r[i]} | 0 <= i < |r| :: r[i] == if i < p then queue[i] else if i == p then t else queue[i - 1]
    ensures forall x :: x in queue[..p] + [t] + queue[p..] <==> x == t || x in queue
  {
    assert queue == queue[..p] + queue[p..];
  }

  lemma SlotSplits(queue: seq<nat>, timers: map<nat, Timer>, time: TimeSpec, p: nat)
    requires Ready(queue, timers) && p <= |queue|
    requires p > 0 ==> queue[p - 1] in timers && Earlier(timers[queue[p - 1]].timeout, time)
    ensures forall i | 0 <= i < p :: queue[i] in timers && Earlier(timers[queue[i]].timeout, time)
  {
    forall i | 0 <= i < p
      ensures queue[i] in timers && Earlier(timers[queue[i]].timeout, time)
    {
      assert queue[i] in queue;
      assert i < p - 1 ==> !Earlier(timers[queue[p - 1]].timeout, timers[queue[i]].timeout);
    }
  }

  lemma EntersPair(queue: seq<nat>, timers: map<nat, Timer>, t: nat, time: TimeSpec, p: nat, r: seq<nat>, i: nat,
    j: nat)
    requires Ready(queue, timers) && t in timers && t !in queue && i < j < |r|
    requires Standing(queue, timers, t, time, p, r)
    ensures (var q := timers[t := Timer(Queued, time)];
      r[i] in q && r[j] in q && r[i] != r[j] && !Earlier(q[r[j]].timeout, q[r[i]].timeout))
  {
    assert r[i] in r && r[j] in r;
    if i != p && j != p {
      var a, b := if i < p then i else i - 1, if j < p then j else j - 1;
      assert r[i] == queue[a] && r[j] == queue[b];
      assert queue[a] != queue[b] && !Earlier(timers[queue[b]].timeout, timers[queue[a]].timeout);
    }
  }

  // Timer t, which is not in the queue, enters it at its time.
  lemma Enters(queue: seq<nat>, timers: map<nat, Timer>, t: nat, time: TimeSpec)
    requires Ready(queue, timers) && t in timers && t !in queue
    ensures Ready(Entered(queue, timers, t, time), timers[t := Timer(Queued, time)])
  {
    EntersWhere(queue, timers, t, time);
    Enlisted(queue, timers, t, time, Slot(queue, timers, time), Entered(queue, timers, t, time));
  }

  lemma Enlisted(queue: seq<nat>, timers: map<nat, Timer>, t: nat, time: TimeSpec, p: nat, r: seq<nat>)
    requires Ready(queue, timers) && t in timers && t !in queue && Standing(queue, timers, t, time, p, r)
    ensures Ready(r, timers[t := Timer(Queued, time)])
  {
    var q := timers[t := Timer(Queued, time)];
    forall i, j | 0 <= i < j < |r|
      ensures r[i] != r[j]
      ensures r[i] in q && r[j] in q && !Earlier(q[r[j]].timeout, q[r[i]].timeout)
    {
      EntersPair(queue, timers, t, time, p, r, i, j);
    }
  }

  // ---------- the provider ----------

  class Provider {
    var queue: seq<nat>
    var timers: map<nat, Timer>

    constructor ()
      ensures Valid() && queue == [] && timers == map[]
    {
      queue, timers := [], map[];
    }

    ghost predicate Valid()
      reads this
    {
      Ready(queue, timers)
    }

    // cl_timer_init
    method Init(t: nat)
      requires Valid() && t !in timers
      modifies this
      ensures Valid() && queue == old(queue) && timers == old(timers)[t := Timer(Idle, TimeSpec(0, 0))]
    {
      timers := timers[t := Timer(Idle, TimeSpec(0, 0))];
    }

    // cl_timer_start: a queued timer is moved, a running one is queued again.
    method Start(t: nat, time: TimeSpec)
      requires Valid() && t in timers
      modifies this
      ensures Valid() && timers == old(timers)[t := Timer(Queued, time)]
      ensures forall x | x in Without(old(queue), t) :: x in old(timers)
      ensures queue == Entered(Without(old(queue), t), old(timers), t, time)
    {
      hide Exact, InOrder, Slot, Without, Entered;
      Leaves(queue, timers, t, Idle);
      WithoutSame(queue, timers, t, time);
      if timers[t].state == Queued {
        queue := Without(queue, t);
      }
      Enqueue(t, time);
    }

    method Enqueue(t: nat, time: TimeSpec)
      requires t in timers && t !in queue && Ready(queue, timers[t := timers[t].(state := Idle)])
      modifies this
      ensures Valid() && timers == old(timers)[t := Timer(Queued, time)]
      ensures queue == Entered(old(queue), old(timers), t, time)
    {
      hide Exact, InOrder, Slot;
      ghost var idle := timers[t := timers[t].(state := Idle)];
      Enters(queue, idle, t, time);
      EntersWhere(queue, idle, t, time);
      SlotSame(queue, timers, idle, time);
      var p := FindFromTail(time);
      queue := queue[..p] + [t] + queue[p..];
      timers := timers[t := Timer(Queued, time)];
      assert timers == idle[t := Timer(Queued, time)];
    }

    method FindFromTail(time: TimeSpec) returns (p: nat)
      requires forall t | t in queue :: t in timers
      ensures p == Slot(queue, timers, time)
    {
      p := |queue|;
      while p > 0 && !Earlier(timers[queue[p - 1]].timeout, time)
        invariant p <= |queue|
        invariant Slot(queue, timers, time) == Slot(queue[..p], timers, time)
      {
        assert queue[..p][..p - 1] == queue[..p - 1];
        p := p - 1;
      }
    }

    // cl_timer_stop up to where it may have to wait for the running callback
    method StopFirst(t: nat) returns (wait: bool)
      requires Valid() && t in timers
      modifies this
      ensures Valid() && (wait <==> old(timers)[t].state == Running)
      ensures timers == if wait then old(timers) else old(timers)[t := old(timers)[t].(state := Idle)]
      ensures queue == if wait then old(queue) else Without(old(queue), t)
    {
      Leaves(queue, timers, t, Idle);
      wait := timers[t].state == Running;
      if timers[t].state == Queued {
        timers := timers[t := timers[t].(state := Idle)];
        queue := Without(queue, t);
      }
    }

    // cl_timer_stop after that wait: the timer may have been queued meanwhile
    method StopAgain(t: nat)
      requires Valid() && t in timers
      modifies this
      ensures Valid() && t !in queue
      ensures queue == if old(timers)[t].state == Queued then Without(old(queue), t) else old(queue)
      ensures timers == if old(timers)[t].state == Queued then old(timers)[t := old(timers)[t].(state := Idle)]
        else old(timers)
    {
      Leaves(queue, timers, t, Idle);
      if timers[t].state == Queued {
        timers := timers[t := timers[t].(state := Idle)];
        queue := Without(queue, t);
      }
    }

    // The provider's wait for timer t has timed out: unless it was stopped meanwhile, it leaves
    // the queue, wherever it stands by now, and its callback is to be called.
    method Expire(t: nat) returns (fire: bool)
      requires Valid() && t in timers
      modifies this
      ensures Valid() && (fire <==> old(timers)[t].state == Queued)
      ensures timers == if fire then old(timers)[t := old(timers)[t].(state := Running)] else old(timers)
      ensures queue == if fire then Without(old(queue), t) else old(queue)
    {
      Leaves(queue, timers, t, Running);
      fire := timers[t].state == Queued;
      if fire {
        timers := timers[t := timers[t].(state := Running)];
        queue := Without(queue, t);
      }
    }

    // The callback has returned: idle, unless it was started again meanwhile.
    method Done(t: nat)
      requires Valid() && t in timers
      modifies this
      ensures Valid() && queue == old(queue)
      ensures timers == if old(timers)[t].state == Running then old(timers)[t := old(timers)[t].(state := Idle)]
        else old(timers)
    {
      if timers[t].state == Running {
        timers := timers[t := timers[t].(state := Idle)];
      }
    }
  }

  lemma {:induction false} SlotSame(queue: seq<nat>, a: map<nat, Timer>, b: map<nat, Timer>, time: TimeSpec)
    requires forall t | t in queue :: t in a && t in b && a[t] == b[t]
    ensures Slot(queue, a, time) == Slot(queue, b, time)
  {
    if queue != [] {
      SlotSame(queue[..|queue| - 1], a, b, time);
    }
  }

  lemma WithoutSame(queue: seq<nat>, timers: map<nat, Timer>, t: nat, time: TimeSpec)
    requires Ready(queue, timers) && t in timers
    ensures timers[t].state != Queued ==> Without(queue, t) == queue
    ensures forall x :: x in Without(queue, t) || x == t <==> x in queue || x == t
  {
    if t in queue {
      assert queue == queue[..Find(queue, t)] + [t] + queue[Find(queue, t) + 1..];
    }
  }
}
