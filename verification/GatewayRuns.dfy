/**
 Whole runs of the gateway, judged by their events alone: what the camera offered, how often the socket
 was opened, failed and was written to, and what of all that the receivers end up with.
 */
module GatewayRuns {
  import opened Bytes
  import opened FrameCodec
  import opened Gateway
  import M = Monitor
  import RB = RingBuffer

  lemma RunPrefix(ss: seq<System>, es: seq<Event>, n: nat)
    requires Run(ss, es) && n <= |es|
    ensures Run(ss[..n + 1], es[..n])
  {
  }

  // ---- the ring inside the system ----

  /** The steps of a run that belong to the ring. */
  function Acts(es: seq<Event>): seq<M.Action> {
    if es == [] then [] else
    var e := es[|es| - 1];
    Acts(es[..|es| - 1]) + if e.Shared? then [e.action] else []
  }

  /** The states that the ring goes through. */
  function Rings(ss: seq<System>, es: seq<Event>): (ms: seq<M.State>)
    requires |ss| == |es| + 1
    ensures |ms| == |Acts(es)| + 1
    decreases |es|
  {
    if es == [] then [ss[0].mon] else
    var n := |es| - 1;
    Rings(ss[..n + 1], es[..n]) + if es[n].Shared? then [ss[n + 1].mon] else []
  }

  lemma OneMoreAction(ms: seq<M.State>, acts: seq<M.Action>, a: M.Action)
    requires M.Run(ms, acts) && RB.Valid(ms[|acts|].ring) && M.Enabled(ms[|acts|], a)
    ensures M.Run(ms + [M.Step(ms[|acts|], a)], acts + [a])
  {
  }

  lemma StepOfRing(s: System, e: Event)
    requires Enabled(s, e)
    ensures Step(s, e).mon == if e.Shared? then M.Step(s.mon, e.action) else s.mon
    ensures e.Shared? && e.action.EnterPush? ==> e.action.thread == CAPTURE && e.action.frame != []
  {
  }

  /** A run of the system is a run of its ring, in which only the capture thread pushes. */
  lemma {:induction false} RunsItsRing(ss: seq<System>, es: seq<Event>)
    requires Run(ss, es)
    ensures var ms := Rings(ss, es);
            M.Run(ms, Acts(es)) && ms[0] == ss[0].mon && ms[|Acts(es)|] == ss[|es|].mon
    ensures forall i :: 0 <= i < |Acts(es)| && Acts(es)[i].EnterPush? ==>
              Acts(es)[i].thread == CAPTURE && Acts(es)[i].frame != []
    decreases |es|
  {
    if es == [] {
    } else {
      var n := |es| - 1;
      RunPrefix(ss, es, n);
      RunsItsRing(ss[..n + 1], es[..n]);
      StepOfRing(ss[n], es[n]);
      if es[n].Shared? {
        OneMoreAction(Rings(ss[..n + 1], es[..n]), Acts(es[..n]), es[n].action);
      }
    }
  }

  /** What the camera offered, each frame cut to its first 614400 bytes, in order. */
  function OfferedFrames(es: seq<Event>): seq<Frame> {
    M.Offered(Acts(es))
  }

  lemma PushedIsOffered(ss: seq<System>, es: seq<Event>)
    requires Run(ss, es) && Initial(ss[0])
    ensures ss[|es|].mon.pushed <= OfferedFrames(es)
  {
    RunsItsRing(ss, es);
    M.OnePusherInOrder(Rings(ss, es), Acts(es), CAPTURE);
  }

  // ---- end to end ----

  /**
   After every run, whatever part of its bytes each connection has delivered, in whatever pieces: each
   receiver has exactly the frames wholly inside its bytes, in order and byte for byte; the frames whose
   sending began are those popped, a prefix of those pushed, which are a prefix of those the camera
   offered; and all frames received, connection after connection, are a subsequence of those offered.
   Frames are lost only to bytes that never arrived and, at most one to a connection, to a failed write.
   */
  lemma EndToEnd(ss: seq<System>, es: seq<Event>)
    requires Run(ss, es) && Initial(ss[0])
    ensures var u := ss[|es|];
            && (forall j :: 0 <= j < |u.conns| ==> Exact(u.conns[j]))
            && Started(u.conns) == u.mon.popped <= u.mon.pushed <= OfferedFrames(es)
            && Subsequence(Got(u.conns), OfferedFrames(es))
            && (forall j :: 0 <= j < |u.conns| && AllArrived(u.conns[j]) ==> OnlyFailedLost(u.conns[j]))
  {
    var u := ss[|es|];
    EveryReachableSystem(ss, es, |es|);
    PushedIsOffered(ss, es);
    EachIsExact(u);
    GotIsSubsequence(u.conns);
    Within(u.mon.popped, u.mon.pushed, OfferedFrames(es));
    SubsequenceOfPrefix(Got(u.conns), u.mon.popped, OfferedFrames(es));
  }

  lemma Within(a: seq<Frame>, b: seq<Frame>, c: seq<Frame>)
    requires a <= b <= c
    ensures a <= c
  {
  }

  lemma EachIsExact(u: System)
    requires Inv(u)
    ensures forall j :: 0 <= j < |u.conns| ==> Exact(u.conns[j])
    ensures forall j :: 0 <= j < |u.conns| && AllArrived(u.conns[j]) ==> OnlyFailedLost(u.conns[j])
  {
    forall j | 0 <= j < |u.conns|
      ensures Exact(u.conns[j]) && (AllArrived(u.conns[j]) ==> OnlyFailedLost(u.conns[j]))
    {
      WrittenIsPrefix(u, j);
      ConnectionIsExact(u.conns[j]);
      if AllArrived(u.conns[j]) {
        SettledAndDelivered(u.conns[j]);
      }
    }
  }

  // ---- what the events tell ----

  function Count(es: seq<Event>, which: Event -> bool): nat {
    if es == [] then 0 else Count(es[..|es| - 1], which) + if which(es[|es| - 1]) then 1 else 0
  }

  function Connects(es: seq<Event>): nat { Count(es, (e: Event) => e.Connect?) }
  function Failures(es: seq<Event>): nat { Count(es, (e: Event) => e.SendFails?) }
  function Successes(es: seq<Event>): nat { Count(es, (e: Event) => e.Sent?) }
  function Stops(es: seq<Event>): nat { Count(es, (e: Event) => e.Stop?) }

  function BytesWritten(es: seq<Event>): nat {
    if es == [] then 0 else
    var e := es[|es| - 1];
    BytesWritten(es[..|es| - 1]) + if e.Write? then e.n else 0
  }

  function BytesDelivered(es: seq<Event>): nat {
    if es == [] then 0 else
    var e := es[|es| - 1];
    BytesDelivered(es[..|es| - 1]) + if e.Deliver? then e.n else 0
  }

  function Sum(xs: seq<nat>): nat {
    if xs == [] then 0 else Sum(xs[..|xs| - 1]) + xs[|xs| - 1]
  }

  lemma {:induction false} SumReplaced(xs: seq<nat>, i: nat, y: nat)
    requires i < |xs|
    ensures Sum(xs[i := y]) + xs[i] == Sum(xs) + y
    decreases |xs|
  {
    var n := |xs| - 1;
    if i == n {
      assert xs[i := y][..n] == xs[..n];
    } else {
      SumReplaced(xs[..n], i, y);
      assert xs[i := y][..n] == xs[..n][i := y];
    }
  }

  lemma SumSnoc(xs: seq<nat>, y: nat)
    ensures Sum(xs + [y]) == Sum(xs) + y
  {
    assert (xs + [y])[..|xs|] == xs;
  }

  function Wholes(cs: seq<Connection>): (xs: seq<nat>)
    ensures |xs| == |cs| && forall i :: 0 <= i < |cs| ==> xs[i] == cs[i].whole
  {
    seq(|cs|, i requires 0 <= i < |cs| => cs[i].whole)
  }

  function Writtens(cs: seq<Connection>): (xs: seq<nat>)
    ensures |xs| == |cs| && forall i :: 0 <= i < |cs| ==> xs[i] == |cs[i].written|
  {
    seq(|cs|, i requires 0 <= i < |cs| => |cs[i].written|)
  }

  function Delivereds(cs: seq<Connection>): (xs: seq<nat>)
    ensures |xs| == |cs| && forall i :: 0 <= i < |cs| ==> xs[i] == cs[i].delivered
  {
    seq(|cs|, i requires 0 <= i < |cs| => cs[i].delivered)
  }

  lemma TotalsReplaced(cs: seq<Connection>, i: nat, d: Connection)
    requires i < |cs|
    ensures var ds := cs[i := d];
            && Sum(Wholes(ds)) + cs[i].whole == Sum(Wholes(cs)) + d.whole
            && Sum(Writtens(ds)) + |cs[i].written| == Sum(Writtens(cs)) + |d.written|
            && Sum(Delivereds(ds)) + cs[i].delivered == Sum(Delivereds(cs)) + d.delivered
  {
    SumReplaced(Wholes(cs), i, d.whole);
    SumReplaced(Writtens(cs), i, |d.written|);
    SumReplaced(Delivereds(cs), i, d.delivered);
    assert Wholes(cs[i := d]) == Wholes(cs)[i := d.whole];
    assert Writtens(cs[i := d]) == Writtens(cs)[i := |d.written|];
    assert Delivereds(cs[i := d]) == Delivereds(cs)[i := d.delivered];
  }

  lemma WholesAppended(cs: seq<Connection>)
    ensures Sum(Wholes(cs + [NEW_CONNECTION])) == Sum(Wholes(cs))
  {
    SumSnoc(Wholes(cs), 0);
    assert Wholes(cs + [NEW_CONNECTION]) == Wholes(cs) + [0];
  }

  lemma WrittensAppended(cs: seq<Connection>)
    ensures Sum(Writtens(cs + [NEW_CONNECTION])) == Sum(Writtens(cs))
  {
    SumSnoc(Writtens(cs), 0);
    assert Writtens(cs + [NEW_CONNECTION]) == Writtens(cs) + [0];
  }

  lemma DeliveredsAppended(cs: seq<Connection>)
    ensures Sum(Delivereds(cs + [NEW_CONNECTION])) == Sum(Delivereds(cs))
  {
    SumSnoc(Delivereds(cs), 0);
    assert Delivereds(cs + [NEW_CONNECTION]) == Delivereds(cs) + [0];
  }

  /** How the state reached is told by the events so far. */
  predicate Ledger(u: System, es: seq<Event>) {
    && (u.net.Stopped? <==> Stops(es) > 0)
    && |u.conns| == Connects(es)
    && (if u.net.Stopped? then Failures(es) <= Connects(es) <= Failures(es) + 1
        else Connects(es) == Failures(es) + if u.net.Disconnected? then 0 else 1)
    && Sum(Wholes(u.conns)) == Successes(es)
    && Sum(Writtens(u.conns)) == BytesWritten(es) && Sum(Delivereds(u.conns)) == BytesDelivered(es)
    && |u.mon.popped| == Successes(es) + Failures(es) + if u.net.Sending? then 1 else 0
  }

  lemma CountSnoc(es: seq<Event>, e: Event)
    ensures var more := es + [e];
            && Connects(more) == Connects(es) + (if e.Connect? then 1 else 0)
            && Failures(more) == Failures(es) + (if e.SendFails? then 1 else 0)
            && Successes(more) == Successes(es) + (if e.Sent? then 1 else 0)
            && Stops(more) == Stops(es) + (if e.Stop? then 1 else 0)
            && BytesWritten(more) == BytesWritten(es) + (if e.Write? then e.n else 0)
            && BytesDelivered(more) == BytesDelivered(es) + (if e.Deliver? then e.n else 0)
  {
    assert (es + [e])[..|es|] == es;
  }

  lemma SharedKeepsLedger(s: System, e: Event, es: seq<Event>)
    requires Inv(s) && Enabled(s, e) && Ledger(s, es) && e.Shared?
    ensures Ledger(Step(s, e), es + [e])
  {
    CountSnoc(es, e);
    if Pops(s, e) {
      PoppedIsSendable(s.mon, e.action);
      var c := Last(s.conns);
      TotalsReplaced(s.conns, |s.conns| - 1, c.(started := c.started + [RB.Pop(s.mon.ring).frame]));
    } else {
      OnlyPopsPop(s.mon, e.action);
    }
  }

  lemma MoreBytesWritten(cs: seq<Connection>, b: seq<byte>, k: nat, n: nat)
    requires cs != [] && k + n <= |b|
    ensures var ds := WithLast(cs, Written(Last(cs), b, k, n));
            && |ds| == |cs| && Sum(Writtens(ds)) == Sum(Writtens(cs)) + n
            && Sum(Wholes(ds)) == Sum(Wholes(cs)) && Sum(Delivereds(ds)) == Sum(Delivereds(cs))
  {
    TotalsReplaced(cs, |cs| - 1, Written(Last(cs), b, k, n));
  }

  lemma WriteKeepsLedger(s: System, f: Frame, b: seq<byte>, k: nat, n: nat, es: seq<Event>)
    requires s.net.Sending? && s.conns != [] && k + n <= |b| && Ledger(s, es)
    ensures Ledger(s.(net := Sending(f, k + n), conns := WithLast(s.conns, Written(Last(s.conns), b, k, n))),
                   es + [Write(n)])
  {
    CountSnoc(es, Write(n));
    MoreBytesWritten(s.conns, b, k, n);
  }

  lemma OneMoreWhole(cs: seq<Connection>)
    requires cs != []
    ensures var ds := WithLast(cs, Last(cs).(whole := Last(cs).whole + 1));
            && |ds| == |cs| && Sum(Wholes(ds)) == Sum(Wholes(cs)) + 1
            && Sum(Writtens(ds)) == Sum(Writtens(cs)) && Sum(Delivereds(ds)) == Sum(Delivereds(cs))
  {
    TotalsReplaced(cs, |cs| - 1, Last(cs).(whole := Last(cs).whole + 1));
  }

  lemma SentKeepsLedger(s: System, es: seq<Event>)
    requires s.net.Sending? && s.conns != [] && Ledger(s, es)
    ensures Ledger(s.(net := Ready, conns := WithLast(s.conns, Last(s.conns).(whole := Last(s.conns).whole + 1))),
                   es + [Sent])
  {
    CountSnoc(es, Sent);
    OneMoreWhole(s.conns);
  }

  lemma FailureKeepsLedger(s: System, es: seq<Event>)
    requires Enabled(s, SendFails) && Ledger(s, es)
    ensures Ledger(Step(s, SendFails), es + [SendFails])
  {
    CountSnoc(es, SendFails);
    assert Step(s, SendFails) == s.(net := Disconnected);
  }

  lemma OutsideKeepsLedger(s: System, e: Event, es: seq<Event>)
    requires Enabled(s, e) && Ledger(s, es) && (e.Connect? || e.Deliver? || e.Stop?)
    ensures Ledger(Step(s, e), es + [e])
  {
    CountSnoc(es, e);
    if e.Connect? {
      WholesAppended(s.conns);
      WrittensAppended(s.conns);
      DeliveredsAppended(s.conns);
    } else if e.Deliver? {
      TotalsReplaced(s.conns, e.i, Deliver1(s.conns[e.i], e.n));
    }
  }

  /**
   Nothing happens without its event: the network thread has stopped only if it was told to, there is
   one connection for each connect and never more than one beyond the failed sends, and frames popped,
   frames reported sent and bytes written and delivered are those the events say.
   */
  lemma {:induction false} EveryStateHasItsCauses(ss: seq<System>, es: seq<Event>)
    requires Run(ss, es) && Initial(ss[0])
    ensures Ledger(ss[|es|], es)
    decreases |es|
  {
    if es == [] {
      LedgerAtStart(ss[0]);
    } else {
      var n := |es| - 1;
      RunPrefix(ss, es, n);
      EveryStateHasItsCauses(ss[..n + 1], es[..n]);
      EveryReachableSystem(ss, es, n);
      StepKeepsLedger(ss[n], es[n], es[..n]);
      InitAndLast(es);
    }
  }

  lemma LedgerAtStart(s: System)
    requires Initial(s)
    ensures Ledger(s, [])
  {
  }

  lemma StepKeepsLedger(s: System, e: Event, es: seq<Event>)
    requires Inv(s) && Enabled(s, e) && Ledger(s, es)
    ensures Ledger(Step(s, e), es + [e])
  {
    match e {
      case Shared(_) => SharedKeepsLedger(s, e, es);
      case Write(n) => WriteKeepsLedger(s, s.net.frame, EncodeFrame(s.net.frame), s.net.done, n, es);
      case Sent => SentKeepsLedger(s, es);
      case SendFails => FailureKeepsLedger(s, es);
      case Connect | Deliver(_, _) | Stop => OutsideKeepsLedger(s, e, es);
    }
  }
}
