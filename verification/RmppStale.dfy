// When a late or repeated acknowledgement aborts a healthy transfer: exactly when the message has at least
// two segments more than the receive window, for every window.
module RmppStale {
  import opened RmppSizes
  import opened RmppSar
  import opened RmppMessages
  import opened RmppReceive
  import opened RmppRun
  import opened RmppSend
  import opened RmppTransfer
  import opened RmppServe

  // ---------- messages that are safe ----------

  lemma NextSafe(y: Sys, v: Move, m: Message, window: nat)
    requires Inv(y, m, window) && window >= 1 && m.Total() <= window + 1 && WindowShrank !in y.snd.errors
    ensures WindowShrank !in Next(y, v, m, window).snd.errors
  {
    hide InOrder, Fits, NumSegs, Gapless, ChannelOk, NodeOk;
  }

  lemma {:induction false} ShortIsSafe(m: Message, vs: seq<Move>, window: nat)
    requires Sendable(m) && window >= 1 && m.Total() <= window + 1
    ensures WindowShrank !in Moves(m, vs, window).snd.errors
  {
    if vs != [] {
      ShortIsSafe(m, vs[..|vs| - 1], window);
      MovesKeep(m, vs[..|vs| - 1], window);
      NextSafe(Moves(m, vs[..|vs| - 1], window), vs[|vs| - 1], m, window);
    }
  }

  // ---------- messages that are not ----------

  // The first window, the second, and then the acknowledgement of segment 1 once more; on waking
  // the sender fails for that alone.
  lemma StaleAck(m: Message, window: nat) returns (z: Sys)
    requires Sendable(m) && window >= 1 && m.Total() >= window + 2
    ensures Reachable(z, m, window) && z.snd.errors == [WindowShrank] && z.snd.outcome == Failed
  {
    hide InOrder, NumSegs, Fits, NodeAt, Reachable, Step, AcceptedBy;
    StartBetween(m, window);
    z := ServeWindow(Begin(m), m, 0, window);
    z := ServeWindow(z, m, 1, window);
    LastAck(z.node, m, 1 + window, window);
    Go(z, Replies(0), m, window);
    z := Next(z, Replies(0), m, window);
    Go(z, Wakes(window), m, window);
    z := Next(z, Wakes(window), m, window);
  }

  // A run in which the sender is told of a smaller window.
  ghost predicate Shrinks(m: Message, vs: seq<Move>, window: nat)
    requires Sendable(m) && window >= 1
  {
    WindowShrank in Moves(m, vs, window).snd.errors
  }

  // A run in which it fails for that alone.
  ghost predicate FailsForIt(m: Message, vs: seq<Move>, window: nat)
    requires Sendable(m) && window >= 1
  {
    var s := Moves(m, vs, window).snd;
    s.outcome == Failed && s.errors == [WindowShrank]
  }

  // Over a data channel that loses and reorders nothing, with acknowledgements that may come late
  // or repeatedly: the sender can see its window shrink, and fail for it, if and only if the message has
  // two segments more than the window.
  lemma StaleAckAborts(m: Message, window: nat)
    requires Sendable(m) && window >= 1
    ensures (exists vs :: Shrinks(m, vs, window)) <==> m.Total() >= window + 2
    ensures (exists vs :: FailsForIt(m, vs, window)) <==> m.Total() >= window + 2
  {
    hide Moves, NumSegs, Fits;
    if m.Total() >= window + 2 {
      var z := StaleAck(m, window);
      var vs :| Moves(m, vs, window) == z;
      assert FailsForIt(m, vs, window) && Shrinks(m, vs, window);
    } else {
      forall vs
        ensures !Shrinks(m, vs, window) && !FailsForIt(m, vs, window)
      {
        ShortIsSafe(m, vs, window);
      }
    }
  }
}
