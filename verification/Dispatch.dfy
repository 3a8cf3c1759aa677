// The message dispatcher and its pool of worker threads, as the atomic steps between lock
// operations and atomic decrements.
module Dispatch {
  import opened Options

  // Leaving: cl_disp_unregister has cleared the registrant's vector entry and awaits ref_cnt 0.
  datatype Phase = Live | Leaving | Gone

  datatype Reg = Reg(msgId: Option<nat>, refCnt: int, phase: Phase)

  // wantsDone: the sender gave a completion callback.
  datatype Msg = Msg(src: nat, dest: nat, wantsDone: bool)

  // What a worker thread is about to do.
  datatype Worker =
    | Idle                    // waits for the pool's event counter
    | Woken                   // has taken an event; will look at the FIFO
    | Receiving(msg: Msg)     // is in the receiver's callback
    | Completing(msg: Msg)    // is in the sender's completion callback
    | Returning(msg: Msg)     // will return the message to its pool and look at the FIFO

  // Registrants are named by order of registration; vec is the message id vector; signals counts
  // posters between queueing and signalling; events is the thread pool's counter.
  datatype Disp = Disp(regs: seq<Reg>, vec: map<nat, nat>, fifo: seq<Msg>, workers: seq<Worker>, signals: nat,
    events: nat)

  datatype Step =
    | Register(msgId: Option<nat>, memory: bool)
    | Leave(r: nat)                                         // unregister, up to the wait
    | Free(r: nat)                                          // unregister, after the wait
    | Post(src: nat, to: nat, wantsDone: bool, memory: bool)
    | Signal
    | Wake(w: nat)
    | Take(w: nat)
    | Received(w: nat)
    | Completed(w: nat)

  // ---------- the steps ----------

  function AddRef(regs: seq<Reg>, r: nat, k: int): (t: seq<Reg>)
    requires r < |regs|
    ensures |t| == |regs|
  {
    regs[r := regs[r].(refCnt := regs[r].refCnt + k)]
  }

  // cl_disp_register: a message id that is taken is refused.
  function Registered(d: Disp, msgId: Option<nat>, memory: bool): Disp
  {
    if !memory || (msgId.Some? && msgId.value in d.vec) then d
    else
      d.(regs := d.regs + [Reg(msgId, 0, Live)],
         vec := if msgId.Some? then d.vec[msgId.value := |d.regs|] else d.vec)
  }

  function Left(d: Disp, r: nat): Disp
    requires r < |d.regs|
  {
    d.(regs := d.regs[r := d.regs[r].(phase := Leaving)],
       vec := if d.regs[r].msgId.Some? then d.vec - {d.regs[r].msgId.value} else d.vec)
  }

  function Freed(d: Disp, r: nat): Disp
    requires r < |d.regs|
  {
    if d.regs[r].refCnt > 0 then d else d.(regs := d.regs[r := d.regs[r].(phase := Gone)])
  }

  // cl_disp_post: an id without a registrant is CL_NOT_FOUND.
  function Posted(d: Disp, src: nat, msgId: nat, wantsDone: bool, memory: bool): Disp
    requires src < |d.regs| && forall id | id in d.vec :: d.vec[id] < |d.regs|
  {
    if msgId !in d.vec || !memory then d
    else
      var dest := d.vec[msgId];
      d.(regs := AddRef(if wantsDone then AddRef(d.regs, src, 1) else d.regs, dest, 1),
         fifo := d.fifo + [Msg(src, dest, wantsDone)],
         signals := d.signals + 1)
  }

  function SetWorker(d: Disp, w: nat, to: Worker): Disp
    requires w < |d.workers|
  {
    d.(workers := d.workers[w := to])
  }

  // The head of the worker's loop: the FIFO's head, or back to sleep.
  function Took(d: Disp, w: nat): Disp
    requires w < |d.workers|
  {
    if d.fifo == [] then SetWorker(d, w, Idle)
    else SetWorker(d.(fifo := d.fifo[1..]), w, Worker.Receiving(d.fifo[0]))
  }

  predicate MsgOk(m: Msg, regs: nat)
  {
    m.src < regs && m.dest < regs
  }

  predicate WorkerOk(w: Worker, regs: nat)
  {
    match w
    case Idle => true
    case Woken => true
    case Receiving(m) => MsgOk(m, regs)
    case Completing(m) => MsgOk(m, regs) && m.wantsDone
    case Returning(m) => true
  }

  // Every index means something.
  predicate Formed(d: Disp)
  {
    && (forall id | id in d.vec :: d.vec[id] < |d.regs|)
    && (forall i | 0 <= i < |d.fifo| :: MsgOk(d.fifo[i], |d.regs|))
    && (forall i | 0 <= i < |d.workers| :: WorkerOk(d.workers[i], |d.regs|))
  }

  // Whether the step can be taken at all.
  predicate Enabled(d: Disp, s: Step)
  {
    match s
    case Register(msgId, memory) => true
    case Leave(r) => r < |d.regs|
    case Free(r) => r < |d.regs|
    case Post(src, msgId, wantsDone, memory) => src < |d.regs|
    case Signal => d.signals > 0
    case Wake(w) => w < |d.workers| && d.workers[w].Idle? && d.events > 0
    case Take(w) => w < |d.workers| && (d.workers[w].Woken? || d.workers[w].Returning?)
    case Received(w) => w < |d.workers| && d.workers[w].Receiving?
    case Completed(w) => w < |d.workers| && d.workers[w].Completing?
  }

  function Next(d: Disp, s: Step): Disp
    requires Formed(d) && Enabled(d, s)
  {
    match s
    case Register(msgId, memory) => Registered(d, msgId, memory)
    case Leave(r) => Left(d, r)
    case Free(r) => Freed(d, r)
    case Post(src, msgId, wantsDone, memory) => Posted(d, src, msgId, wantsDone, memory)
    case Signal => d.(signals := d.signals - 1, events := d.events + 1)
    case Wake(w) => SetWorker(d, w, Woken).(events := d.events - 1)
    case Take(w) => Took(d, w)
    case Received(w) =>
      var m := d.workers[w].msg;
      assert WorkerOk(d.workers[w], |d.regs|);
      SetWorker(d.(regs := AddRef(d.regs, m.dest, -1)), w, if m.wantsDone then Completing(m) else Returning(m))
    case Completed(w) =>
      var m := d.workers[w].msg;
      assert WorkerOk(d.workers[w], |d.regs|);
      SetWorker(d.(regs := AddRef(d.regs, m.src, -1)), w, Returning(m))
  }

  // ---------- reference counts ----------

  function One(b: bool): nat
  {
    if b then 1 else 0
  }

  // What a queued message, or one in progress, counts for registrant r.
  function MsgOwes(m: Msg, r: nat): nat
  {
    One(m.dest == r) + One(m.wantsDone && m.src == r)
  }

  function WorkerOwes(w: Worker, r: nat): nat
  {
    match w
    case Idle => 0
    case Woken => 0
    case Receiving(m) => MsgOwes(m, r)
    case Completing(m) => One(m.src == r)
    case Returning(m) => 0
  }

  function QueueOwes(ms: seq<Msg>, r: nat): nat
  {
    if ms == [] then 0 else MsgOwes(ms[0], r) + QueueOwes(ms[1..], r)
  }

  function WorkersOwe(ws: seq<Worker>, r: nat): nat
  {
    if ws == [] then 0 else WorkerOwes(ws[0], r) + WorkersOwe(ws[1..], r)
  }

  // Undelivered incoming messages, and posted ones that still owe a completion callback.
  function Owed(d: Disp, r: nat): nat
  {
    QueueOwes(d.fifo, r) + WorkersOwe(d.workers, r)
  }

  lemma {:induction false} QueueAppend(ms: seq<Msg>, m: Msg, r: nat)
    ensures QueueOwes(ms + [m], r) == QueueOwes(ms, r) + MsgOwes(m, r)
  {
    if ms == [] {
      assert ms + [m] == [m];
    } else {
      QueueAppend(ms[1..], m, r);
      assert (ms + [m])[1..] == ms[1..] + [m];
    }
  }

  lemma {:induction false} WorkerChange(ws: seq<Worker>, w: nat, to: Worker, r: nat)
    requires w < |ws|
    ensures WorkersOwe(ws[w := to], r) == WorkersOwe(ws, r) - WorkerOwes(ws[w], r) + WorkerOwes(to, r)
  {
    if w > 0 {
      WorkerChange(ws[1..], w - 1, to, r);
      assert ws[w := to][1..] == ws[1..][w - 1 := to];
    } else {
      assert ws[w := to][1..] == ws[1..];
    }
  }

  lemma {:induction false} QueueMember(ms: seq<Msg>, i: nat, r: nat)
    requires i < |ms|
    ensures QueueOwes(ms, r) >= MsgOwes(ms[i], r)
  {
    if i > 0 {
      QueueMember(ms[1..], i - 1, r);
    }
  }

  lemma {:induction false} WorkerMember(ws: seq<Worker>, i: nat, r: nat)
    requires i < |ws|
    ensures WorkersOwe(ws, r) >= WorkerOwes(ws[i], r)
  {
    if i > 0 {
      WorkerMember(ws[1..], i - 1, r);
    }
  }

  // ---------- the invariant ----------

  ghost predicate Counted(d: Disp, r: nat)
    requires r < |d.regs|
  {
    d.regs[r].refCnt == Owed(d, r) && (d.regs[r].phase == Gone ==> Owed(d, r) == 0)
  }

  ghost predicate Inv(d: Disp)
  {
    && Formed(d)
    && (forall r | 0 <= r < |d.regs| :: Counted(d, r))
    && (forall r | r >= |d.regs| :: Owed(d, r) == 0)
    && (forall id | id in d.vec :: d.regs[d.vec[id]].phase == Live && d.regs[d.vec[id]].msgId == Some(id))
    // nothing waits in the FIFO without somebody who will look at it
    && (d.fifo != [] ==> d.signals > 0 || d.events > 0 || exists w :: 0 <= w < |d.workers| && !d.workers[w].Idle?)
  }

  // A worker is in one of the registrant's own callbacks.
  ghost predicate InCallback(d: Disp, r: nat)
  {
    exists w :: 0 <= w < |d.workers| && (
      (d.workers[w].Receiving? && d.workers[w].msg.dest == r) ||
        (d.workers[w].Completing? && d.workers[w].msg.src == r))
  }

  // What the dispatcher asks of its users: a registrant posts while it is registered, and while
  // it is leaving only from within its own callbacks; it is unregistered once.
  ghost predicate Proper(d: Disp, s: Step)
  {
    match s
    case Post(src, _, _, _) => src < |d.regs| &&
      (d.regs[src].phase == Live || (d.regs[src].phase == Leaving && InCallback(d, src)))
    case Leave(r) => r < |d.regs| && d.regs[r].phase == Live
    case Free(r) => r < |d.regs| && d.regs[r].phase == Leaving
    case _ => true
  }

  // ---------- one step keeps the invariant ----------

  lemma PostKeeps(d: Disp, src: nat, msgId: nat, wantsDone: bool, memory: bool)
    requires Inv(d) && src < |d.regs| && d.regs[src].phase != Gone
    ensures Inv(Posted(d, src, msgId, wantsDone, memory))
  {
    if msgId in d.vec && memory {
      var n, m := Posted(d, src, msgId, wantsDone, memory), Msg(src, d.vec[msgId], wantsDone);
      forall r: nat
        ensures Owed(n, r) == Owed(d, r) + MsgOwes(m, r)
      {
        QueueAppend(d.fifo, m, r);
      }
      hide Owed;
      forall r | 0 <= r < |n.regs|
        ensures Counted(n, r)
      {
        assert Counted(d, r);
      }
    }
  }

  // The worker takes the head of the FIFO: what it owed in the queue it now owes in hand.
  lemma TakeKeeps(d: Disp, w: nat)
    requires Inv(d) && Enabled(d, Take(w))
    ensures Inv(Took(d, w))
  {
    var n := Took(d, w);
    forall r: nat
      ensures Owed(n, r) == Owed(d, r)
    {
      WorkerChange(d.workers, w, n.workers[w], r);
    }
    hide Owed;
    forall r | 0 <= r < |n.regs|
      ensures Counted(n, r)
    {
      assert Counted(d, r);
    }
    assert n.fifo != [] ==> !n.workers[w].Idle?;
    if d.fifo != [] {
      assert MsgOk(d.fifo[0], |d.regs|);
    }
  }

  // A callback has returned: one reference goes, and one obligation with it.
  lemma CallbackKeeps(d: Disp, w: nat, s: Step)
    requires Inv(d) && (s == Received(w) || s == Completed(w)) && Enabled(d, s)
    ensures Inv(Next(d, s))
  {
    var n, m := Next(d, s), d.workers[w].msg;
    var x := if s == Received(w) then m.dest else m.src;
    assert WorkerOk(d.workers[w], |d.regs|);
    forall r: nat
      ensures Owed(n, r) == Owed(d, r) - One(x == r)
    {
      WorkerChange(d.workers, w, n.workers[w], r);
    }
    hide Owed;
    forall r | 0 <= r < |n.regs|
      ensures Counted(n, r)
    {
      assert Counted(d, r);
    }
    assert !n.workers[w].Idle?;
  }

  lemma SleepKeeps(d: Disp, s: Step)
    requires Inv(d) && (s == Signal || s.Wake?) && Enabled(d, s)
    ensures Inv(Next(d, s))
  {
    var n := Next(d, s);
    forall r: nat
      ensures Owed(n, r) == Owed(d, r)
    {
      if s.Wake? {
        WorkerChange(d.workers, s.w, Woken, r);
      }
    }
    hide Owed;
    forall r | 0 <= r < |n.regs|
      ensures Counted(n, r)
    {
      assert Counted(d, r);
    }
    assert s.Wake? ==> !n.workers[s.w].Idle?;
  }

  lemma RegistryKeeps(d: Disp, s: Step)
    requires Inv(d) && (s.Register? || s.Leave? || s.Free?) && Enabled(d, s) && Proper(d, s)
    ensures Inv(Next(d, s))
  {
    var n := Next(d, s);
    assert forall r: nat :: Owed(n, r) == Owed(d, r);
    hide Owed;
    forall r | 0 <= r < |n.regs|
      ensures Counted(n, r)
    {
      assert r < |d.regs| ==> Counted(d, r);
    }
  }

  lemma NextKeeps(d: Disp, s: Step)
    requires Inv(d) && Enabled(d, s) && Proper(d, s)
    ensures Inv(Next(d, s))
  {
    match s
    case Post(src, msgId, wantsDone, memory) => PostKeeps(d, src, msgId, wantsDone, memory);
    case Take(w) => TakeKeeps(d, w);
    case Received(w) => CallbackKeeps(d, w, s);
    case Completed(w) => CallbackKeeps(d, w, s);
    case Signal => SleepKeeps(d, s);
    case Wake(w) => SleepKeeps(d, s);
    case _ => RegistryKeeps(d, s);
  }

  // ---------- every run ----------

  function Start(threads: nat): Disp
  {
    Disp([], map[], [], seq(threads, i => Idle), 0, 0)
  }

  // The states reached from the start, by steps that are enabled and proper.
  ghost predicate Reaches(threads: nat, steps: seq<Step>, d: Disp)
    decreases |steps|, 1
  {
    if steps == [] then d == Start(threads)
    else exists b :: Before(threads, steps, b, d)
  }

  ghost predicate Before(threads: nat, steps: seq<Step>, b: Disp, d: Disp)
    requires steps != []
    decreases |steps|, 0
  {
    var s := steps[|steps| - 1];
    Reaches(threads, steps[..|steps| - 1], b) && Formed(b) && Enabled(b, s) && Proper(b, s) && d == Next(b, s)
  }

  lemma {:induction false} StartOwes(threads: nat, r: nat)
    ensures WorkersOwe(seq(threads, i => Idle), r) == 0
  {
    var ws: seq<Worker> := seq(threads, i => Idle);
    if threads > 0 {
      StartOwes(threads - 1, r);
      var rest: seq<Worker> := seq(threads - 1, i => Idle);
      assert ws[1..] == rest;
    }
  }

  lemma {:induction false} ReachesKeeps(threads: nat, steps: seq<Step>, d: Disp)
    requires Reaches(threads, steps, d)
    ensures Inv(d)
    decreases |steps|
  {
    if steps == [] {
      forall r: nat
        ensures Owed(d, r) == 0
      {
        StartOwes(threads, r);
      }
    } else {
      var b :| Before(threads, steps, b, d);
      ReachesKeeps(threads, steps[..|steps| - 1], b);
      NextKeeps(b, steps[|steps| - 1]);
    }
  }

  // ---------- what the reference counts are for ----------

  // A message that is queued or in progress will touch registrant r: it delivers to it, or owes
  // it a completion.
  ghost predicate Touched(d: Disp, r: nat)
  {
    || (exists i :: 0 <= i < |d.fifo| && MsgOwes(d.fifo[i], r) > 0)
    || (exists w :: 0 <= w < |d.workers| && WorkerOwes(d.workers[w], r) > 0)
  }

  lemma {:induction false} QueueZero(ms: seq<Msg>, r: nat)
    requires forall i | 0 <= i < |ms| :: MsgOwes(ms[i], r) == 0
    ensures QueueOwes(ms, r) == 0
  {
    if ms != [] {
      assert forall i | 0 <= i < |ms| - 1 :: ms[1..][i] == ms[i + 1];
      QueueZero(ms[1..], r);
    }
  }

  lemma {:induction false} WorkersZero(ws: seq<Worker>, r: nat)
    requires forall i | 0 <= i < |ws| :: WorkerOwes(ws[i], r) == 0
    ensures WorkersOwe(ws, r) == 0
  {
    if ws != [] {
      assert forall i | 0 <= i < |ws| - 1 :: ws[1..][i] == ws[i + 1];
      WorkersZero(ws[1..], r);
    }
  }

  // A count of zero means exactly that nothing will touch the registrant any more.
  lemma ZeroMeansUntouched(d: Disp, r: nat)
    requires Inv(d) && r < |d.regs|
    ensures d.regs[r].refCnt == 0 <==> !Touched(d, r)
  {
    assert Counted(d, r);
    forall i | 0 <= i < |d.fifo|
      ensures QueueOwes(d.fifo, r) >= MsgOwes(d.fifo[i], r)
    {
      QueueMember(d.fifo, i, r);
    }
    forall w | 0 <= w < |d.workers|
      ensures WorkersOwe(d.workers, r) >= WorkerOwes(d.workers[w], r)
    {
      WorkerMember(d.workers, w, r);
    }
    if !Touched(d, r) {
      QueueZero(d.fifo, r);
      WorkersZero(d.workers, r);
    }
  }

  // In every reachable state the count of a registrant is what is owed to it, and no message,
  // queued or in a worker's hands, will touch one that has been freed.
  lemma NothingDangles(threads: nat, steps: seq<Step>, d: Disp, r: nat)
    requires Reaches(threads, steps, d) && r < |d.regs|
    ensures d.regs[r].refCnt == Owed(d, r)
    ensures d.regs[r].phase == Gone ==> !Touched(d, r)
  {
    ReachesKeeps(threads, steps, d);
    assert Counted(d, r);
    ZeroMeansUntouched(d, r);
  }

  // ---------- nothing is stranded ----------

  // In every reachable state with a message waiting, a poster is still to signal, an event is
  // still to be taken, or a worker is still to look at the FIFO.
  lemma NothingStranded(threads: nat, steps: seq<Step>, d: Disp)
    requires Reaches(threads, steps, d) && d.fifo != []
    ensures d.signals > 0 || d.events > 0 || exists w :: 0 <= w < |d.workers| && !d.workers[w].Idle?
  {
    ReachesKeeps(threads, steps, d);
  }

  // The steps that threads take by themselves once they run.
  predicate Own(s: Step)
  {
    s.Signal? || s.Wake? || s.Take? || s.Received? || s.Completed?
  }

  function Rank(w: Worker): nat
  {
    match w
    case Idle => 0
    case Woken => 1
    case Receiving(_) => 3
    case Completing(_) => 2
    case Returning(_) => 1
  }

  function Ranks(ws: seq<Worker>): nat
  {
    if ws == [] then 0 else Rank(ws[0]) + Ranks(ws[1..])
  }

  function Work(d: Disp): nat
  {
    3 * |d.fifo| + 3 * d.signals + 2 * d.events + Ranks(d.workers)
  }

  lemma {:induction false} RankChange(ws: seq<Worker>, w: nat, to: Worker)
    requires w < |ws|
    ensures Ranks(ws[w := to]) == Ranks(ws) - Rank(ws[w]) + Rank(to)
  {
    if w > 0 {
      RankChange(ws[1..], w - 1, to);
      assert ws[w := to][1..] == ws[1..][w - 1 := to];
    } else {
      assert ws[w := to][1..] == ws[1..];
    }
  }

  // Every such step leaves less to do, so between posts the threads come to rest.
  lemma OwnStepsEnd(d: Disp, s: Step)
    requires Formed(d) && Own(s) && Enabled(d, s)
    ensures Work(Next(d, s)) < Work(d)
  {
    if !s.Signal? {
      RankChange(d.workers, s.w, Next(d, s).workers[s.w]);
    }
  }

  // At rest, with at least one thread, every message has been delivered and every count is zero:
  // an unregister that waits gets through.
  lemma RestMeansDone(d: Disp)
    requires Inv(d) && d.workers != [] && forall s :: Own(s) ==> !Enabled(d, s)
    ensures d.fifo == [] && forall r | 0 <= r < |d.regs| :: d.regs[r].refCnt == 0
  {
    assert !Enabled(d, Signal) && !Enabled(d, Wake(0));
    forall w | 0 <= w < |d.workers|
      ensures d.workers[w].Idle?
    {
      assert !Enabled(d, Take(w)) && !Enabled(d, Received(w)) && !Enabled(d, Completed(w));
    }
    forall r | 0 <= r < |d.regs|
      ensures d.regs[r].refCnt == 0
    {
      ZeroMeansUntouched(d, r);
    }
  }
}
