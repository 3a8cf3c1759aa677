// The sender against any peer at all: MADs of every kind may reach it, and what they do to a
// transfer over whole runs.
module RmppControl {
  import opened RmppSar
  import opened RmppSend
  import RmppTransfer

  // The send context, and the numbers of the segments it has put on the wire.
  datatype Out = Out(snd: Snd, sent: seq<nat>)

  datatype Event =
    | Wakes(limit: nat)     // start, resend after a timeout, or go on after a MAD
    | Hears(mad: Mad)       // a MAD of the transaction arrives
    | RunsOut               // the retries are used up

  function After(o: Out, e: Event, total: nat): Out
  {
    if o.snd.outcome != Running then o else
      match e
      case Wakes(limit) =>
        Out(Woken(o.snd, total, limit), o.sent + RmppTransfer.Numbers(o.snd.first, BurstSize(o.snd, total, limit)))
      case Hears(mad) => o.(snd := Heard(o.snd, total, mad))
      case RunsOut => o.(snd := o.snd.(errors := o.snd.errors + [TimedOut]))
  }

  function Run(es: seq<Event>, total: nat): Out
  {
    if es == [] then Out(START, []) else After(Run(es[..|es| - 1], total), es[|es| - 1], total)
  }

  // An ABORT, a STOP, an ACK of a segment beyond the window, or one that takes the window back.
  predicate Fatal(s: Snd, mad: Mad)
  {
    || mad.kind == Abort || mad.kind == Stop
    || (mad.kind == Ack && (mad.seg > s.last || mad.paylen < s.last))
  }

  // What makes a transfer fail: such a MAD, no retries left, or a transport that refuses a segment.
  predicate Spoils(s: Snd, e: Event, total: nat)
  {
    && s.outcome == Running
    && match e
       case Wakes(limit) => s.errors == [] && s.first <= total && limit < s.last + 1 - s.first
       case Hears(mad) => Fatal(s, mad)
       case RunsOut => true
  }

  lemma SpoilStep(o: Out, e: Event, total: nat)
    ensures o.snd.errors != [] ==> After(o, e, total).snd.errors != [] && After(o, e, total).sent == o.sent
    ensures o.snd.errors == [] ==> (After(o, e, total).snd.errors != [] <==> Spoils(o.snd, e, total))
    ensures o.snd.errors != [] && o.snd.outcome != Succeeded ==> After(o, e, total).snd.outcome != Succeeded
    ensures o.snd.errors != [] && o.snd.outcome == Running && e.Wakes? ==> After(o, e, total).snd.outcome == Failed
    ensures o.snd.outcome == Failed ==> o == After(o, e, total)
    ensures o.snd.outcome == Succeeded ==> o == After(o, e, total)
  {
    assert o.sent + RmppTransfer.Numbers(o.snd.first, 0) == o.sent;
  }

  ghost predicate SpoiltAt(es: seq<Event>, i: nat, total: nat)
    requires i < |es|
  {
    Spoils(Run(es[..i], total).snd, es[i], total)
  }

  lemma Prefix(es: seq<Event>, i: nat, total: nat)
    requires es != [] && i < |es| - 1
    ensures SpoiltAt(es[..|es| - 1], i, total) <==> SpoiltAt(es, i, total)
  {
    assert es[..|es| - 1][..i] == es[..i];
  }

  // A run has an error exactly when one of its events was of that kind.
  lemma {:induction false} FailsExactly(es: seq<Event>, total: nat)
    ensures Run(es, total).snd.errors != [] <==> exists i :: 0 <= i < |es| && SpoiltAt(es, i, total)
  {
    if es != [] {
      var n := |es| - 1;
      FailsExactly(es[..n], total);
      SpoilStep(Run(es[..n], total), es[n], total);
      forall i | 0 <= i < n
        ensures SpoiltAt(es[..n], i, total) <==> SpoiltAt(es, i, total)
      {
        Prefix(es, i, total);
      }
      hide Spoils, After;
      assert SpoiltAt(es, n, total) <==> Spoils(Run(es[..n], total).snd, es[n], total);
    }
  }

  // Once a running sender has an error nothing more is sent, it never succeeds, and the next time
  // it wakes it has failed.
  lemma {:induction false} ErrorStays(es: seq<Event>, i: nat, total: nat)
    requires i <= |es| && Run(es[..i], total).snd.errors != [] && Run(es[..i], total).snd.outcome != Succeeded
    ensures (var o := Run(es, total);
      && o.snd.errors != [] && o.snd.outcome != Succeeded && o.sent == Run(es[..i], total).sent
      && (Run(es[..i], total).snd.outcome == Failed || (exists j :: i <= j < |es| && es[j].Wakes?) ==>
            o.snd.outcome == Failed))
    decreases |es|
  {
    hide After, Spoils;
    if i == |es| {
      assert es[..i] == es;
    } else {
      var n := |es| - 1;
      assert es[..n][..i] == es[..i];
      ErrorStays(es[..n], i, total);
      SpoilStep(Run(es[..n], total), es[n], total);
      if j :| i <= j < |es| && es[j].Wakes? {
        assert j < n ==> es[..n][j].Wakes?;
      }
    }
  }

  // A running sender that the peer's ABORT or STOP reaches, or an ACK it cannot have earned, puts
  // no further segment on the wire, never succeeds, and fails as soon as it wakes.
  lemma FatalEnds(es: seq<Event>, i: nat, total: nat)
    requires i < |es| && es[i].Hears? && Run(es[..i], total).snd.outcome == Running
    requires Fatal(Run(es[..i], total).snd, es[i].mad)
    ensures (var o := Run(es, total);
      && o.snd.outcome != Succeeded && o.sent == Run(es[..i], total).sent
      && ((exists j :: i < j < |es| && es[j].Wakes?) ==> o.snd.outcome == Failed))
  {
    var t := es[..i + 1];
    assert t[..|t| - 1] == es[..i] && t[|t| - 1] == es[i];
    SpoilStep(Run(es[..i], total), es[i], total);
    ErrorStays(es, i + 1, total);
    if j :| i < j < |es| && es[j].Wakes? {
      assert i + 1 <= j;
    }
    hide Run;
  }

  // A stray DATA segment might as well not have come.
  lemma {:induction false} StrayData(es: seq<Event>, i: nat, total: nat)
    requires i < |es| && es[i].Hears? && es[i].mad.kind == Data
    ensures Run(es[..i] + es[i + 1..], total) == Run(es, total)
    decreases |es|
  {
    var n := |es| - 1;
    if i == n {
      assert es[..i] + es[i + 1..] == es[..n];
    } else {
      StrayData(es[..n], i, total);
      var t := es[..i] + es[i + 1..];
      assert t[..|t| - 1] == es[..n][..i] + es[..n][i + 1..] && t[|t| - 1] == es[n];
    }
  }

  // An ACK in the window: of its last segment, it opens the next window, up to the end of the
  // message at most; of another one, it changes nothing.
  lemma AckInWindow(o: Out, mad: Mad, total: nat)
    requires o.snd.outcome == Running && mad.kind == Ack && !Fatal(o.snd, mad)
    ensures (var p := After(o, Hears(mad), total);
      && p.sent == o.sent && p.snd.errors == o.snd.errors && p.snd.outcome == Running
      && (mad.seg < o.snd.last ==> p == o)
      && (mad.seg == o.snd.last ==>
            p.snd.first == o.snd.last + 1 && p.snd.last <= total && p.snd.last <= mad.paylen &&
            (p.snd.last == total || p.snd.last == mad.paylen)))
  {
  }

  // What is recorded of a MAD that ends the transfer.
  lemma FatalReason(o: Out, mad: Mad, total: nat)
    requires o.snd.outcome == Running && Fatal(o.snd, mad)
    ensures (var reason := if mad.kind == Abort || mad.kind == Stop then RemoteGaveUp
                           else if mad.seg > o.snd.last then SentTooFar else WindowShrank;
      After(o, Hears(mad), total) == o.(snd := o.snd.(errors := o.snd.errors + [reason])))
  {
  }
}
