// cl_dispatcher_t with its thread pool: every section that runs under a lock, or atomically, as
// a method on the shared fields.
module Dispatcher {
  import opened Options
  import opened Dispatch

  datatype PostStatus = Success | NotFound | InsufficientMemory

  class Dispatcher {
    var regs: seq<Reg>
    var regVec: map<nat, nat>
    var msgFifo: seq<Msg>
    var threads: seq<Worker>
    var signals: nat
    var events: nat

    constructor (count: nat)
      ensures View() == Start(count) && Valid()
    {
      regs, regVec, msgFifo, signals, events := [], map[], [], 0, 0;
      threads := seq(count, i => Idle);
      new;
      ReachesKeeps(count, [], Start(count));
    }

    function View(): Disp
      reads this
    {
      Disp(regs, regVec, msgFifo, threads, signals, events)
    }

    // Every count is what is owed, the vector names live registrants, nothing waits unattended.
    ghost predicate Valid()
      reads this
    {
      Inv(View())
    }

    // cl_disp_register
    method Register(msgId: Option<nat>, memory: bool) returns (handle: Option<nat>)
      requires Valid()
      modifies this
      ensures Valid() && View() == Next(old(View()), Step.Register(msgId, memory))
      ensures handle.Some? <==> memory && (msgId.Some? ==> msgId.value !in old(regVec))
      ensures handle.Some? ==> handle.value == |old(regs)| && |regs| == handle.value + 1
      ensures handle.None? ==> View() == old(View())
    {
      NextKeeps(View(), Step.Register(msgId, memory));
      if msgId.Some? && msgId.value in regVec {
        return None;
      }
      if !memory {
        return None;
      }
      handle := Some(|regs|);
      regs := regs + [Reg(msgId, 0, Live)];
      if msgId.Some? {
        regVec := regVec[msgId.value := handle.value];
      }
    }

    // cl_disp_unregister up to the wait: further posts to the id fail
    method UnregisterFirst(r: nat)
      requires Valid() && r < |regs| && Proper(View(), Leave(r))
      modifies this
      ensures Valid() && View() == Next(old(View()), Leave(r))
    {
      NextKeeps(View(), Leave(r));
      if regs[r].msgId.Some? {
        regVec := regVec - {regs[r].msgId.value};
      }
      regs := regs[r := regs[r].(phase := Leaving)];
    }

    // one turn of the wait; done says that the registrant has been freed
    method UnregisterPoll(r: nat) returns (done: bool)
      requires Valid() && r < |regs| && Proper(View(), Free(r))
      modifies this
      ensures Valid() && View() == Next(old(View()), Free(r))
      ensures done <==> old(regs[r].refCnt) <= 0
    {
      NextKeeps(View(), Free(r));
      done := !(regs[r].refCnt > 0);
      if done {
        regs := regs[r := regs[r].(phase := Gone)];
      }
    }

    // cl_disp_post, up to the unlock; the signal is still to come
    method Post(src: nat, msgId: nat, callback: bool, memory: bool) returns (status: PostStatus)
      requires Valid() && src < |regs| && Proper(View(), Step.Post(src, msgId, callback, memory))
      modifies this
      ensures Valid() && View() == Next(old(View()), Step.Post(src, msgId, callback, memory))
      ensures status == if msgId !in old(regVec) then NotFound else if !memory then InsufficientMemory else Success
    {
      NextKeeps(View(), Step.Post(src, msgId, callback, memory));
      if msgId !in regVec {
        return NotFound;
      }
      var dest := regVec[msgId];
      if !memory {
        return InsufficientMemory;
      }
      if callback {
        regs := AddRef(regs, src, 1);
      }
      regs := AddRef(regs, dest, 1);
      msgFifo := msgFifo + [Msg(src, dest, callback)];
      signals := signals + 1;
      return Success;
    }

    // cl_thread_pool_signal
    method SignalPool()
      requires Valid() && signals > 0
      modifies this
      ensures Valid() && View() == Next(old(View()), Signal)
    {
      NextKeeps(View(), Signal);
      signals, events := signals - 1, events + 1;
    }

    // thread_pool_routine: an event is there
    method WakeUp(w: nat)
      requires Valid() && Enabled(View(), Wake(w))
      modifies this
      ensures Valid() && View() == Next(old(View()), Wake(w))
    {
      NextKeeps(View(), Wake(w));
      events := events - 1;
      threads := threads[w := Woken];
    }

    // __cl_disp_worker at the head of its loop
    method TakeMessage(w: nat)
      requires Valid() && Enabled(View(), Take(w))
      modifies this
      ensures Valid() && View() == Next(old(View()), Take(w))
    {
      NextKeeps(View(), Take(w));
      if |msgFifo| != 0 {
        var msg := msgFifo[0];
        msgFifo := msgFifo[1..];
        threads := threads[w := Receiving(msg)];
      } else {
        threads := threads[w := Idle];
      }
    }

    // the receive callback has returned
    method AfterReceive(w: nat)
      requires Valid() && Enabled(View(), Received(w))
      modifies this
      ensures Valid() && View() == Next(old(View()), Received(w))
    {
      NextKeeps(View(), Received(w));
      assert WorkerOk(threads[w], |regs|);
      var msg := threads[w].msg;
      regs := AddRef(regs, msg.dest, -1);
      threads := threads[w := if msg.wantsDone then Completing(msg) else Returning(msg)];
    }

    // the completion callback has returned
    method AfterComplete(w: nat)
      requires Valid() && Enabled(View(), Completed(w))
      modifies this
      ensures Valid() && View() == Next(old(View()), Completed(w))
    {
      NextKeeps(View(), Completed(w));
      assert WorkerOk(threads[w], |regs|);
      var msg := threads[w].msg;
      regs := AddRef(regs, msg.src, -1);
      threads := threads[w := Returning(msg)];
    }
  }
}
