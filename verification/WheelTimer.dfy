// The wheel together with its timer: between lock operations the wheel never sleeps on pending
// work.
module WheelTimer {
  import opened EventWheel
  import Timers

  // Where the timer's callback is: not called, called but still without the wheel's lock, or done
  // with the wheel but not yet back in the provider.
  datatype Phase = Out | Entered | Served

  datatype State = State(events: seq<Event>, timer: Timers.State, phase: Phase, closing: bool)

  const START: State := State([], Timers.Idle, Out, false)

  // cl_timer_start, by any thread: whatever the state was, the timer is queued.
  function Armed(w: State): State
  {
    w.(timer := Timers.Queued)
  }

  // Registering starts the timer when the list is empty, the event's old entry aside.
  ghost predicate Registers(w: State, v: State, key: nat, aging: nat, callback: bool)
  {
    var rest := Unregistered(w.events, key);
    v == (if rest == [] then Armed(w) else w).(events := Registered(w.events, key, aging, callback))
  }

  ghost predicate Unregisters(w: State, v: State, key: nat)
  {
    v == w.(events := Unregistered(w.events, key))
  }

  // The provider calls the timer's callback.
  ghost predicate Fires(w: State, v: State)
  {
    w.timer == Timers.Queued && w.phase == Out && v == w.(timer := Timers.Running, phase := Entered)
  }

  // The callback has the lock: it serves the aged events and starts the timer again if any event
  // is left; when the wheel is closing it does nothing.
  ghost predicate Serves(w: State, v: State, cb: Callback, now: nat)
  {
    && w.phase == Entered
    && if w.closing then v == w.(phase := Served) else
      && AllSettle(cb, w.events, now) && Wheel(v.events) && (set e | e in v.events) == Outcomes(cb, w.events, now)
      && v == (if v.events != [] then Armed(w) else w).(events := v.events, phase := Served)
  }

  // Back in the provider: idle unless started meanwhile.
  ghost predicate Returns(w: State, v: State)
  {
    w.phase == Served && v == w.(phase := Out, timer := if w.timer == Timers.Running then Timers.Idle else w.timer)
  }

  ghost predicate Closes(w: State, v: State)
  {
    v == w.(closing := true)
  }

  datatype Step =
    | Reg(key: nat, aging: nat, callback: bool)
    | Unreg(key: nat)
    | Fire
    | Serve(cb: Callback, now: nat)
    | Return
    | Close

  ghost predicate Next(w: State, v: State, s: Step)
  {
    match s
    case Reg(key, aging, callback) => Registers(w, v, key, aging, callback)
    case Unreg(key) => Unregisters(w, v, key)
    case Fire => Fires(w, v)
    case Serve(cb, now) => Serves(w, v, cb, now)
    case Return => Returns(w, v)
    case Close => Closes(w, v)
  }

  // Pending work is waited for: the timer is queued, or its callback has yet to take the lock.
  ghost predicate Watched(w: State)
  {
    && Wheel(w.events)
    && (!w.closing && w.events != [] ==> w.timer == Timers.Queued || w.phase == Entered)
    && (w.timer == Timers.Running ==> w.phase != Out)
  }

  lemma NextWatched(w: State, v: State, s: Step)
    requires Watched(w) && Next(w, v, s)
    ensures Watched(v)
  {
    hide Wheel, Unregistered, Registered;
    match s
    case Reg(key, aging, callback) =>
      RegisteredWheel(w.events, key, aging, callback);
      LeftOver(w.events, key);
    case Unreg(key) =>
      UnregisteredWheel(w.events, key);
      LeftOver(w.events, key);
    case _ =>
  }

  lemma LeftOver(s: seq<Event>, key: nat)
    ensures Unregistered(s, key) != [] ==> s != []
  {
  }

  // Registering starts the timer exactly when the event is the only one.
  lemma RegistersTimer(w: State, v: State, key: nat, aging: nat, callback: bool)
    requires Wheel(w.events) && Registers(w, v, key, aging, callback)
    ensures v.timer == if |v.events| == 1 then Timers.Queued else w.timer
    ensures v.events == Registered(w.events, key, aging, callback) && v.phase == w.phase && v.closing == w.closing
  {
    hide Wheel, Slot;
  }

  // Unregistering takes out that key's event and leaves the timer alone.
  lemma UnregistersOnly(w: State, v: State, key: nat)
    requires Wheel(w.events) && Unregisters(w, v, key)
    ensures v == w.(events := v.events) && forall e :: e in v.events <==> e in w.events && e.key != key
  {
    UnregisteredWheel(w.events, key);
  }

  // A run: states and the steps between them.
  ghost predicate Run(ws: seq<State>, ss: seq<Step>)
  {
    && |ws| == |ss| + 1 && ws[0] == START
    && forall i | 0 <= i < |ss| :: Next(ws[i], ws[i + 1], ss[i])
  }

  // In every run, while the wheel is not closing, pending events are being waited for.
  lemma {:induction false} NeverSleeps(ws: seq<State>, ss: seq<Step>)
    requires Run(ws, ss)
    ensures Watched(ws[|ss|])
  {
    if ss != [] {
      var n := |ss| - 1;
      assert forall i | 0 <= i < n :: Next(ws[..n + 1][i], ws[..n + 1][i + 1], ss[..n][i]) by {
        forall i | 0 <= i < n
          ensures Next(ws[..n + 1][i], ws[..n + 1][i + 1], ss[..n][i])
        {
          assert Next(ws[i], ws[i + 1], ss[i]);
        }
      }
      NeverSleeps(ws[..n + 1], ss[..n]);
      assert Next(ws[n], ws[n + 1], ss[n]);
      NextWatched(ws[n], ws[n + 1], ss[n]);
    }
  }

  // What that means when nobody is in the callback: a timer that is not queued has nothing to wait for.
  lemma QuietMeansEmpty(ws: seq<State>, ss: seq<Step>)
    requires Run(ws, ss) && !ws[|ss|].closing && ws[|ss|].phase != Entered
    ensures ws[|ss|].events != [] ==> ws[|ss|].timer == Timers.Queued
    ensures ws[|ss|].timer == Timers.Running ==> ws[|ss|].phase == Served && ws[|ss|].events == []
  {
    NeverSleeps(ws, ss);
  }

  // The timer's next steps are possible and get the work done: while the wheel is not closing,
  // events are pending and the callback has not just served them, it can be entered, if it is not
  // already, and then serves them; nothing that has aged is left.
  lemma WorkGetsDone(ws: seq<State>, ss: seq<Step>, cb: Callback, now: nat)
    returns (entered: State, served: State)
    requires Run(ws, ss) && !ws[|ss|].closing && ws[|ss|].events != [] && ws[|ss|].phase != Served
    requires AllSettle(cb, ws[|ss|].events, now)
    ensures entered == ws[|ss|] || Next(ws[|ss|], entered, Fire)
    ensures entered.phase == Entered && entered.events == ws[|ss|].events
    ensures Next(entered, served, Serve(cb, now)) && (forall e | e in served.events :: e.aging > now)
    ensures served.events != [] ==> served.timer == Timers.Queued
  {
    NeverSleeps(ws, ss);
    var w := ws[|ss|];
    entered := if w.phase == Entered then w else w.(timer := Timers.Running, phase := Entered);
    var left := AllTurns(w.events, cb, now);
    served := (if left != [] then Armed(entered) else entered).(events := left, phase := Served);
  }

  // The list the loop leaves.
  lemma {:induction false} AllTurns(s: seq<Event>, cb: Callback, now: nat) returns (left: seq<Event>)
    requires Wheel(s) && AllSettle(cb, s, now)
    ensures Wheel(left) && (set e | e in left) == Outcomes(cb, s, now) && forall e | e in left :: e.aging > now
    decreases Left(cb, s, now)
  {
    if Ended(s, now) {
      Leaves(s, cb, now);
      left := s;
    } else {
      TurnWheel(s, cb, now);
      TurnOutcomes(cb, s, now);
      left := AllTurns(Turn(s, cb, now), cb, now);
    }
  }
}
