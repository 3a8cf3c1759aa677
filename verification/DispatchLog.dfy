// What the dispatcher is for, over whole runs: a log of what its users asked for, kept apart from
// its own state, and what the threads made of it.
module DispatchLog {
  import opened Options
  import opened Dispatch

  // registered: the message ids asked for, in order; left and freed: the registrants that have
  // begun, and finished, unregistering; posted: the accepted posts; taken, received and completed:
  // the messages that workers have picked up and whose callbacks have returned.
  datatype Log = Log(registered: seq<Option<nat>>, left: set<nat>, freed: set<nat>,
                     posted: seq<Msg>, taken: seq<Msg>, received: seq<Msg>, completed: seq<Msg>)

  const BLANK: Log := Log([], {}, {}, [], [], [], [])

  // Registrant r answers to a message id.
  predicate Holder(g: Log, id: nat, r: nat)
  {
    r < |g.registered| && g.registered[r] == Some(id) && r !in g.left
  }

  // A registration is accepted when there is memory and nobody answers to the id.
  ghost predicate RegisterLogged(g: Log, s: Step, h: Log)
    requires s.Register?
  {
    h == if s.memory && (s.msgId.Some? ==> forall r :: !Holder(g, s.msgId.value, r))
      then g.(registered := g.registered + [s.msgId]) else g
  }

  // A post is accepted when there is memory and somebody answers to the id: that registrant's.
  ghost predicate PostLogged(g: Log, s: Step, h: Log)
    requires s.Post?
  {
    if s.memory && exists r :: Holder(g, s.to, r) then
      exists r :: Holder(g, s.to, r) && h == g.(posted := g.posted + [Msg(s.src, r, s.wantsDone)])
    else h == g
  }

  // What the step from d to n adds to the log.
  ghost predicate Logged(d: Disp, g: Log, s: Step, n: Disp, h: Log)
    requires Enabled(d, s)
  {
    match s
    case Register(_, _) => RegisterLogged(g, s, h)
    case Leave(r) => h == g.(left := g.left + {r})
    case Free(r) => h == if Touched(d, r) then g else g.(freed := g.freed + {r})
    case Post(_, _, _, _) => PostLogged(g, s, h)
    case Signal => h == g
    case Wake(_) => h == g
    // the message the worker is now handing to its receiver
    case Take(w) =>
      w < |n.workers| && h == if n.workers[w].Receiving? then g.(taken := g.taken + [n.workers[w].msg]) else g
    case Received(w) => h == g.(received := g.received + [d.workers[w].msg])
    case Completed(w) => h == g.(completed := g.completed + [d.workers[w].msg])
  }

  ghost predicate Runs(threads: nat, steps: seq<Step>, d: Disp, g: Log)
    decreases |steps|, 1
  {
    if steps == [] then d == Start(threads) && g == BLANK else exists b, f :: Before(threads, steps, b, f, d, g)
  }

  ghost predicate Before(threads: nat, steps: seq<Step>, b: Disp, f: Log, d: Disp, g: Log)
    requires steps != []
    decreases |steps|, 0
  {
    var s := steps[|steps| - 1];
    && Runs(threads, steps[..|steps| - 1], b, f) && Formed(b) && Enabled(b, s) && Proper(b, s)
    && d == Next(b, s) && Logged(b, f, s, d, g)
  }

  // ---------- messages by what is still to be done ----------

  // What a worker is handing to its receiver, and what it is completing.
  function Held(w: Worker): multiset<Msg>
  {
    if w.Receiving? then multiset{w.msg} else multiset{}
  }

  function Ending(w: Worker): multiset<Msg>
  {
    if w.Completing? then multiset{w.msg} else multiset{}
  }

  function InHand(ws: seq<Worker>): multiset<Msg>
  {
    if ws == [] then multiset{} else Held(ws[0]) + InHand(ws[1..])
  }

  function Owing(ws: seq<Worker>): multiset<Msg>
  {
    if ws == [] then multiset{} else Ending(ws[0]) + Owing(ws[1..])
  }

  // Those whose sender wants to be told.
  function Wanted(ms: seq<Msg>): multiset<Msg>
  {
    if ms == [] then multiset{}
    else Wanted(ms[..|ms| - 1]) + if ms[|ms| - 1].wantsDone then multiset{ms[|ms| - 1]} else multiset{}
  }

  lemma {:induction false} HandChange(ws: seq<Worker>, w: nat, to: Worker)
    requires w < |ws|
    ensures InHand(ws[w := to]) + Held(ws[w]) == InHand(ws) + Held(to)
    ensures Owing(ws[w := to]) + Ending(ws[w]) == Owing(ws) + Ending(to)
  {
    hide Held, Ending;
    var vs := ws[w := to];
    if w > 0 {
      HandChange(ws[1..], w - 1, to);
      assert vs[1..] == ws[1..][w - 1 := to];
      Swapped(Held(ws[0]), InHand(vs[1..]), Held(ws[w]), InHand(ws[1..]), Held(to));
      Swapped(Ending(ws[0]), Owing(vs[1..]), Ending(ws[w]), Owing(ws[1..]), Ending(to));
    } else {
      assert vs[1..] == ws[1..];
    }
  }

  lemma Swapped(a: multiset<Msg>, x: multiset<Msg>, p: multiset<Msg>, y: multiset<Msg>, q: multiset<Msg>)
    requires x + p == y + q
    ensures a + x + p == a + y + q
  {
    assert a + x + p == a + (x + p) && a + y + q == a + (y + q);
  }

  lemma WantedMore(ms: seq<Msg>, m: Msg)
    ensures Wanted(ms + [m]) == Wanted(ms) + if m.wantsDone then multiset{m} else multiset{}
  {
    assert (ms + [m])[..|ms|] == ms;
  }

  // ---------- the log explains the state ----------

  ghost predicate Registry(d: Disp, g: Log)
  {
    && |d.regs| == |g.registered|
    && (forall r | r in g.left || r in g.freed :: r < |g.registered|)
    && (forall r | 0 <= r < |d.regs| :: d.regs[r].msgId == g.registered[r]
          && (d.regs[r].phase == Live <==> r !in g.left) && (d.regs[r].phase == Gone <==> r in g.freed))
    && (forall id, r :: id in d.vec && d.vec[id] == r <==> Holder(g, id, r))
  }

  ghost predicate Queue(d: Disp, g: Log)
  {
    g.posted == g.taken + d.fifo
  }

  ghost predicate Callbacks(d: Disp, g: Log)
  {
    && multiset(g.taken) == multiset(g.received) + InHand(d.workers)
    && Wanted(g.received) == multiset(g.completed) + Owing(d.workers)
  }

  // ---------- one step ----------

  lemma LeaveRegistry(d: Disp, g: Log, r: nat, h: Log)
    requires Registry(d, g) && r < |d.regs| && d.regs[r].phase == Live && h == g.(left := g.left + {r})
    ensures Registry(Left(d, r), h)
  {
    var n, mine := Left(d, r), d.regs[r].msgId;
    assert mine.Some? ==> Holder(g, mine.value, r) && mine.value in d.vec && d.vec[mine.value] == r;
    forall id: nat, x: nat
      ensures id in n.vec && n.vec[id] == x <==> Holder(h, id, x)
    {
      assert id in d.vec && d.vec[id] == x <==> Holder(g, id, x);
    }
  }

  lemma FreeRegistry(d: Disp, g: Log, r: nat, h: Log)
    requires Registry(d, g) && r < |d.regs| && d.regs[r].phase == Leaving && d.regs[r].refCnt >= 0
    requires h == if d.regs[r].refCnt == 0 then g.(freed := g.freed + {r}) else g
    ensures Registry(Freed(d, r), h)
  {
    assert forall id, x: nat :: Holder(h, id, x) <==> Holder(g, id, x);
  }

  lemma RegisterRegistry(d: Disp, g: Log, msgId: Option<nat>, memory: bool, h: Log)
    requires Registry(d, g) && RegisterLogged(g, Register(msgId, memory), h)
    ensures Registry(Registered(d, msgId, memory), h)
  {
    if msgId.Some? {
      var id := msgId.value;
      assert id in d.vec ==> Holder(g, id, d.vec[id]);
    }
    forall id: nat, x: nat
      ensures Holder(h, id, x) <==> Holder(g, id, x) || (h != g && x == |g.registered| && msgId == Some(id))
    {
      assert h != g ==> h.registered == g.registered + [msgId];
    }
  }

  // Steps that change counts, queue and workers only.
  lemma CountsRegistry(d: Disp, g: Log, n: Disp, h: Log)
    requires Registry(d, g) && n.vec == d.vec && |n.regs| == |d.regs|
    requires forall r | 0 <= r < |d.regs| :: n.regs[r] == d.regs[r].(refCnt := n.regs[r].refCnt)
    requires h.registered == g.registered && h.left == g.left && h.freed == g.freed
    ensures Registry(n, h)
  {
    assert forall id, r :: Holder(h, id, r) <==> Holder(g, id, r);
  }

  lemma RegistryStep(d: Disp, g: Log, s: Step, h: Log)
    requires Inv(d) && Registry(d, g) && Enabled(d, s) && Proper(d, s) && Logged(d, g, s, Next(d, s), h)
    ensures Registry(Next(d, s), h)
  {
    hide Owed, Registry, Touched, Holder;
    assert |d.regs| == |g.registered| by {
      Sizes(d, g);
    }
    match s
    case Register(msgId, memory) => RegisterRegistry(d, g, msgId, memory, h);
    case Leave(r) => LeaveRegistry(d, g, r, h);
    case Free(r) =>
      ZeroMeansUntouched(d, r);
      assert Counted(d, r);
      FreeRegistry(d, g, r, h);
    case _ => CountsRegistry(d, g, Next(d, s), h);
  }

  lemma Sizes(d: Disp, g: Log)
    requires Registry(d, g)
    ensures |d.regs| == |g.registered|
  {
  }

  lemma QueueStep(d: Disp, g: Log, s: Step, h: Log)
    requires Formed(d) && Registry(d, g) && Queue(d, g) && Enabled(d, s) && Logged(d, g, s, Next(d, s), h)
    ensures Queue(Next(d, s), h)
  {
    match s
    case Post(src, to, wantsDone, memory) =>
      if memory && to in d.vec {
        assert Holder(g, to, d.vec[to]);
        assert forall r :: Holder(g, to, r) ==> r == d.vec[to];
      }
    case Take(w) =>
    case _ =>
  }

  lemma CallbacksStep(d: Disp, g: Log, s: Step, h: Log)
    requires Formed(d) && Callbacks(d, g) && Enabled(d, s) && Logged(d, g, s, Next(d, s), h)
    ensures Callbacks(Next(d, s), h)
  {
    hide InHand, Owing, Wanted, Callbacks, Held;
    var n := Next(d, s);
    match s
    case Take(w) =>
      HandsChanged(d, w, n);
      TakeStep(d, g, w, n, h);
    case Received(w) =>
      HandsChanged(d, w, n);
      ReceivedStep(d, g, w, n, h);
    case Completed(w) =>
      HandsChanged(d, w, n);
      CompletedStep(d, g, w, n, h);
    case Wake(w) =>
      HandsChanged(d, w, n);
      WakeStep(d, g, w, n, h);
    case _ => OtherStep(d, g, n, h);
  }

  lemma HandsChanged(d: Disp, w: nat, n: Disp)
    requires w < |d.workers| == |n.workers| && n.workers == d.workers[w := n.workers[w]]
    ensures Changed(d, w, n)
  {
    HandChange(d.workers, w, n.workers[w]);
  }

  lemma OtherStep(d: Disp, g: Log, n: Disp, h: Log)
    requires Callbacks(d, g) && n.workers == d.workers
    requires h.taken == g.taken && h.received == g.received && h.completed == g.completed
    ensures Callbacks(n, h)
  {
  }

  lemma WakeStep(d: Disp, g: Log, w: nat, n: Disp, h: Log)
    requires Callbacks(d, g) && Changed(d, w, n) && d.workers[w].Idle? && n.workers[w].Woken? && h == g
    ensures Callbacks(n, h)
  {
    hide InHand, Owing, Wanted;
    Same(InHand(n.workers), InHand(d.workers));
    Same(Owing(n.workers), Owing(d.workers));
  }

  // The open parts before and after a worker's change.
  ghost predicate Changed(d: Disp, w: nat, n: Disp)
  {
    && w < |d.workers| && w < |n.workers|
    && InHand(n.workers) + Held(d.workers[w]) == InHand(d.workers) + Held(n.workers[w])
    && Owing(n.workers) + Ending(d.workers[w]) == Owing(d.workers) + Ending(n.workers[w])
  }

  lemma Same(a: multiset<Msg>, b: multiset<Msg>)
    requires a + multiset{} == b + multiset{}
    ensures a == b
  {
    assert a == a + multiset{} && b == b + multiset{};
  }

  lemma TakeStep(d: Disp, g: Log, w: nat, n: Disp, h: Log)
    requires Callbacks(d, g) && Changed(d, w, n) && (d.workers[w].Woken? || d.workers[w].Returning?)
    requires n.workers[w].Idle? || n.workers[w].Receiving?
    requires h == if n.workers[w].Receiving? then g.(taken := g.taken + [n.workers[w].msg]) else g
    ensures Callbacks(n, h)
  {
    hide InHand, Owing, Wanted;
    Balanced(multiset(g.taken), multiset(g.received),
      InHand(d.workers), InHand(n.workers), Held(n.workers[w]), multiset{});
    Same(Owing(n.workers), Owing(d.workers));
  }

  lemma ReceivedStep(d: Disp, g: Log, w: nat, n: Disp, h: Log)
    requires Callbacks(d, g) && Changed(d, w, n) && d.workers[w].Receiving? && !n.workers[w].Receiving?
    requires Ending(n.workers[w]) == if d.workers[w].msg.wantsDone then multiset{d.workers[w].msg} else multiset{}
    requires h == g.(received := g.received + [d.workers[w].msg])
    ensures Callbacks(n, h)
  {
    WantedMore(g.received, d.workers[w].msg);
    hide InHand, Owing, Wanted;
    assert multiset(h.received) == multiset(g.received) + Held(d.workers[w]);
    Balanced(multiset(g.taken), multiset(g.received),
      InHand(d.workers), InHand(n.workers), multiset{}, Held(d.workers[w]));
    Balanced(Wanted(g.received), multiset(g.completed),
      Owing(d.workers), Owing(n.workers), Ending(n.workers[w]), multiset{});
  }

  lemma CompletedStep(d: Disp, g: Log, w: nat, n: Disp, h: Log)
    requires Callbacks(d, g) && Changed(d, w, n) && d.workers[w].Completing? && n.workers[w].Returning?
    requires h == g.(completed := g.completed + [d.workers[w].msg])
    ensures Callbacks(n, h)
  {
    hide InHand, Owing, Wanted;
    Same(InHand(n.workers), InHand(d.workers));
    Balanced(Wanted(g.received), multiset(g.completed),
      Owing(d.workers), Owing(n.workers), multiset{}, Ending(d.workers[w]));
  }

  // What comes in raises the whole, what goes out moves from the open part to the finished one.
  lemma Balanced(whole: multiset<Msg>, done: multiset<Msg>, open: multiset<Msg>, open': multiset<Msg>,
                 come: multiset<Msg>, go: multiset<Msg>)
    requires whole == done + open && open' + go == open + come
    ensures whole + come == done + go + open'
    ensures come == multiset{} ==> whole == done + go + open'
    ensures go == multiset{} ==> whole + come == done + open'
  {
    assert whole + multiset{} == whole && done + multiset{} == done;
    assert done + go + open' == done + (open' + go) && done + open + come == done + (open + come);
  }

  // ---------- every run ----------

  lemma {:induction false} LogExplains(threads: nat, steps: seq<Step>, d: Disp, g: Log)
    requires Runs(threads, steps, d, g)
    ensures Inv(d) && Registry(d, g) && Queue(d, g) && Callbacks(d, g)
    decreases |steps|
  {
    if steps == [] {
      StartExplained(threads);
    } else {
      hide Next, Logged, Proper, Inv, Registry, Queue, Callbacks;
      var s := steps[|steps| - 1];
      var b, f :| Before(threads, steps, b, f, d, g);
      LogExplains(threads, steps[..|steps| - 1], b, f);
      NextKeeps(b, s);
      RegistryStep(b, f, s, g);
      QueueStep(b, f, s, g);
      CallbacksStep(b, f, s, g);
    }
  }

  lemma StartExplained(threads: nat)
    ensures Inv(Start(threads)) && Registry(Start(threads), BLANK) && Queue(Start(threads), BLANK)
    ensures Callbacks(Start(threads), BLANK)
  {
    ReachesKeeps(threads, [], Start(threads));
    IdleHands(threads);
  }

  lemma {:induction false} IdleHands(threads: nat)
    ensures InHand(seq(threads, i => Idle)) == multiset{} && Owing(seq(threads, i => Idle)) == multiset{}
  {
    var ws: seq<Worker> := seq(threads, i => Idle);
    if threads > 0 {
      IdleHands(threads - 1);
      var rest: seq<Worker> := seq(threads - 1, i => Idle);
      assert ws[1..] == rest;
    }
  }

  // Messages are picked up in the order of the accepted posts, none skipped and none twice, with
  // their source, destination and completion wish.
  lemma PickedInOrder(threads: nat, steps: seq<Step>, d: Disp, g: Log)
    requires Runs(threads, steps, d, g)
    ensures g.posted == g.taken + d.fifo
  {
    LogExplains(threads, steps, d, g);
  }

  // At rest every accepted post has been picked up in order, received once, and completed once if
  // its sender wanted that.
  lemma AllDelivered(threads: nat, steps: seq<Step>, d: Disp, g: Log)
    requires Runs(threads, steps, d, g) && threads > 0 && forall s :: Own(s) ==> !Enabled(d, s)
    ensures g.taken == g.posted && multiset(g.received) == multiset(g.posted)
    ensures multiset(g.completed) == Wanted(g.received)
  {
    hide Inv, Runs, Registry, InHand, Owing, Wanted;
    LogExplains(threads, steps, d, g);
    WorkersStay(threads, steps, d, g);
    RestMeansDone(d);
    AtRest(d);
    assert g.posted == g.taken;
    Same(multiset(g.received), multiset(g.taken));
    Same(multiset(g.completed), Wanted(g.received));
  }

  lemma AtRest(d: Disp)
    requires forall s :: Own(s) ==> !Enabled(d, s)
    ensures InHand(d.workers) == multiset{} && Owing(d.workers) == multiset{}
  {
    forall w | 0 <= w < |d.workers|
      ensures d.workers[w].Idle?
    {
      assert !Enabled(d, Take(w)) && !Enabled(d, Received(w)) && !Enabled(d, Completed(w));
    }
    assert d.workers == seq(|d.workers|, i => Idle);
    IdleHands(|d.workers|);
  }

  lemma {:induction false} WorkersStay(threads: nat, steps: seq<Step>, d: Disp, g: Log)
    requires Runs(threads, steps, d, g)
    ensures |d.workers| == threads
    decreases |steps|
  {
    if steps != [] {
      var b, f :| Before(threads, steps, b, f, d, g);
      WorkersStay(threads, steps[..|steps| - 1], b, f);
    }
  }

  // In every run a message id leads to the one registrant that has asked for it and not begun to
  // leave; and a registrant is freed exactly when it has left and an unregister found no message
  // that would still touch it.
  lemma HoldersExact(threads: nat, steps: seq<Step>, d: Disp, g: Log, id: nat, r: nat)
    requires Runs(threads, steps, d, g)
    ensures |d.regs| == |g.registered|
    ensures id in d.vec && d.vec[id] == r <==> Holder(g, id, r)
    ensures r < |d.regs| ==> (d.regs[r].phase == Live <==> r !in g.left) && (d.regs[r].phase == Gone <==> r in g.freed)
  {
    LogExplains(threads, steps, d, g);
  }
}
