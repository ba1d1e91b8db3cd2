/**
 What the network thread can always go on to do: as long as nobody stops it, the frames in the ring can
 all be popped, sent and received, over the connection it has.
 */
module GatewayProgress {
  import opened Bytes
  import opened FrameCodec
  import opened FrameStreams
  import opened Gateway
  import M = Monitor
  import RB = RingBuffer
  import Py = AiReceiver

  // ---- who is where ----

  predicate InsidePop(p: M.Place) {
    p.Popping? || p.PopAsleep? || p.PopWoken?
  }

  /** Only the capture thread is ever inside push, and only the network thread inside pop. */
  predicate Places(ts: M.Threads) {
    && NET in ts && CAPTURE in ts
    && (forall t :: t in ts && M.InsidePush(ts[t]) ==> t == CAPTURE)
    && (forall t :: t in ts && InsidePop(ts[t]) ==> t == NET)
  }

  /** ... and that only when it is ready. */
  predicate Roles(s: System) {
    Places(s.mon.threads) && (s.net.Ready? || !InsidePop(s.mon.threads[NET]))
  }

  predicate SameSide(p: M.Place, q: M.Place) {
    (M.InsidePush(p) <==> M.InsidePush(q)) && (InsidePop(p) <==> InsidePop(q))
  }

  lemma OthersStayOnSide(m: M.State, a: M.Action, x: M.Thread)
    requires M.Inv(m) && M.Enabled(m, a) && x in m.threads && (!a.CloseRing? ==> x != a.thread)
    ensures var ts := M.Step(m, a).threads; x in ts && SameSide(m.threads[x], ts[x])
  {
    M.WhoMoves(m, a, x);
  }

  lemma MoverStaysOnSide(m: M.State, a: M.Action)
    requires M.Inv(m) && M.Enabled(m, a) && !a.CloseRing?
    ensures var p := M.Step(m, a).threads[a.thread];
            && (M.InsidePush(p) ==> a.EnterPush? || M.InsidePush(m.threads[a.thread]))
            && (InsidePop(p) ==> a.EnterPop? || InsidePop(m.threads[a.thread]))
            && (a.RunPop? && RB.Pop(m.ring).outcome == RB.Done ==> !InsidePop(p))
  {
  }

  lemma SameThreads(m: M.State, a: M.Action)
    requires M.Inv(m) && M.Enabled(m, a)
    ensures M.Step(m, a).threads.Keys == m.threads.Keys
  {
  }

  lemma RingKeepsPlaces(m: M.State, a: M.Action)
    requires M.Inv(m) && M.Enabled(m, a) && Places(m.threads)
    requires (a.EnterPush? ==> a.thread == CAPTURE) && (a.EnterPop? ==> a.thread == NET)
    ensures var ts := M.Step(m, a).threads;
            && Places(ts)
            && (InsidePop(ts[NET]) ==> a.EnterPop? || InsidePop(m.threads[NET]))
            && (a.RunPop? && RB.Pop(m.ring).outcome == RB.Done && a.thread == NET ==> !InsidePop(ts[NET]))
  {
    var ts := M.Step(m, a).threads;
    SameThreads(m, a);
    forall x | x in ts
      ensures M.InsidePush(ts[x]) ==> (a.EnterPush? && x == a.thread) || M.InsidePush(m.threads[x])
      ensures InsidePop(ts[x]) ==> (a.EnterPop? && x == a.thread) || InsidePop(m.threads[x])
    {
      if !a.CloseRing? && x == a.thread {
        MoverStaysOnSide(m, a);
      } else {
        OthersStayOnSide(m, a, x);
      }
    }
    if a.RunPop? {
      MoverStaysOnSide(m, a);
    }
  }

  lemma SharedStep(s: System, a: M.Action)
    requires Enabled(s, Shared(a))
    ensures var u := Step(s, Shared(a)); var pops := a.RunPop? && RB.Pop(s.mon.ring).outcome == RB.Done;
            && u.mon == M.Step(s.mon, a)
            && (if pops then u.net.Sending? else u.net == s.net && u.conns == s.conns)
            && (a.EnterPush? ==> a.thread == CAPTURE) && (a.EnterPop? || a.RunPop? ==> a.thread == NET && s.net.Ready?)
  {
  }

  lemma StepKeepsRoles(s: System, e: Event)
    requires Inv(s) && Enabled(s, e) && Roles(s)
    ensures Roles(Step(s, e))
  {
    if e.Shared? {
      SharedStep(s, e.action);
      RingKeepsPlaces(s.mon, e.action);
    }
  }

  lemma {:induction false} EveryReachableRoles(ss: seq<System>, es: seq<Event>, i: nat)
    requires Run(ss, es) && Initial(ss[0]) && i < |ss|
    ensures Inv(ss[i]) && Roles(ss[i])
    decreases i
  {
    EveryReachableSystem(ss, es, i);
    if i == 0 {
    } else {
      EveryReachableRoles(ss, es, i - 1);
      StepKeepsRoles(ss[i - 1], es[i - 1]);
    }
  }

  // ---- paths ----

  /** The events es are possible one after the other from s, and lead to u. */
  predicate Leads(s: System, es: seq<Event>, u: System)
    decreases |es|
  {
    if es == [] then s == u else Enabled(s, es[0]) && Leads(Step(s, es[0]), es[1..], u)
  }

  /** What the network thread does by itself when the socket does not fail, and arriving bytes. */
  predicate Own(e: Event) {
    match e
    case Shared(a) => (a.EnterPop? || a.RunPop?) && a.thread == NET
    case Write(_) | Sent | Connect | Deliver(_, _) => true
    case SendFails | Stop => false
  }

  predicate AllOwn(es: seq<Event>) {
    forall i :: 0 <= i < |es| ==> Own(es[i])
  }

  lemma {:induction false} LeadsOn(s: System, es: seq<Event>, t: System, fs: seq<Event>, u: System)
    requires Leads(s, es, t) && Leads(t, fs, u)
    ensures Leads(s, es + fs, u)
    decreases |es|
  {
    if es == [] {
      assert es + fs == fs;
    } else {
      LeadsOn(Step(s, es[0]), es[1..], t, fs, u);
      assert (es + fs)[1..] == es[1..] + fs;
    }
  }

  lemma LeadsOneStep(s: System, e: Event)
    requires Enabled(s, e)
    ensures Leads(s, [e], Step(s, e))
  {
    assert [e][1..] == [];
  }

  lemma {:induction false} LeadsKeepsInv(s: System, es: seq<Event>, u: System)
    requires Inv(s) && Roles(s) && Leads(s, es, u)
    ensures Inv(u) && Roles(u)
    decreases |es|
  {
    if es == [] {
    } else {
      StepKeepsInv(s, es[0]);
      StepKeepsRoles(s, es[0]);
      LeadsKeepsInv(Step(s, es[0]), es[1..], u);
    }
  }

  // ---- the next frame ----

  lemma OnlyNetWakes(ts: M.Threads)
    requires Places(ts)
    ensures M.PopWokens(ts) <= {NET}
  {
  }

  /** The network thread never sleeps while there is a frame. */
  lemma AwakeForFrames(s: System)
    requires Inv(s) && Roles(s) && s.mon.ring.count > 0
    ensures !s.mon.threads[NET].PopAsleep?
  {
    var ts := s.mon.threads;
    OnlyNetWakes(ts);
    assert NET in M.PopSleepers(ts) <==> ts[NET].PopAsleep?;
    assert NET !in M.PopWokens(ts) ==> M.PopWokens(ts) == {};
  }

  /** s after the network thread took the oldest frame f and began to send it. */
  predicate Begins(s: System, u: System, f: Frame)
    requires s.conns != []
  {
    && u.net == Sending(f, 0)
    && u.conns == WithLast(s.conns, Last(s.conns).(started := Last(s.conns).started + [f]))
    && RB.Valid(s.mon.ring) && RB.Valid(u.mon.ring) && RB.Live(s.mon.ring) == [f] + RB.Live(u.mon.ring)
  }

  lemma RunPopBegins(s: System, w: M.Thread)
    requires Inv(s) && Roles(s) && s.net.Ready? && s.mon.ring.count > 0
    requires Enabled(s, Shared(M.RunPop(NET, w)))
    ensures Begins(s, Step(s, Shared(M.RunPop(NET, w))), RB.Live(s.mon.ring)[0])
  {
    RB.PopTakesOldest(s.mon.ring);
  }

  /** A network thread that is not inside pop calls it; one that is inside stays there. */
  lemma EntersPop(s: System) returns (es: seq<Event>, u: System)
    requires Inv(s) && Roles(s) && s.net.Ready?
    ensures Leads(s, es, u) && AllOwn(es) && Inv(u) && Roles(u)
    ensures u.net == Ready && u.conns == s.conns && u.mon.ring == s.mon.ring && InsidePop(u.mon.threads[NET])
  {
    if InsidePop(s.mon.threads[NET]) {
      es, u := [], s;
    } else {
      var e := Shared(M.EnterPop(NET));
      es, u := [e], Step(s, e);
      LeadsOneStep(s, e);
      StepKeepsInv(s, e);
      StepKeepsRoles(s, e);
    }
  }

  lemma TakesFrame(s: System) returns (e: Event, u: System)
    requires Inv(s) && Roles(s) && s.net.Ready? && s.mon.ring.count > 0 && InsidePop(s.mon.threads[NET])
    ensures Enabled(s, e) && Own(e) && u == Step(s, e) && Begins(s, u, RB.Live(s.mon.ring)[0])
  {
    AwakeForFrames(s);
    var w := M.Pick(M.PushSleepers(s.mon.threads));
    e := Shared(M.RunPop(NET, w));
    u := Step(s, e);
    RunPopBegins(s, w);
  }

  /**
   A network thread that is ready and has a frame in the ring can begin to send the oldest one, on the
   connection it has, with steps of its own.
   */
  lemma NextFrameBegins(s: System) returns (es: seq<Event>, u: System)
    requires Inv(s) && Roles(s) && s.net.Ready? && s.mon.ring.count > 0
    ensures Leads(s, es, u) && AllOwn(es) && Begins(s, u, RB.Live(s.mon.ring)[0])
  {
    var es1, t := EntersPop(s);
    var e, v := TakesFrame(t);
    u := v;
    LeadsOneStep(t, e);
    LeadsOn(s, es1, t, [e], u);
    es := es1 + [e];
  }

  /** s after the frame being sent went out whole on the same connection. */
  predicate Finishes(s: System, u: System)
    requires s.conns != []
  {
    && u.net == Ready && u.mon == s.mon && |u.conns| == |s.conns|
    && Last(u.conns).started == Last(s.conns).started
  }

  lemma FrameFinishes(s: System) returns (es: seq<Event>, u: System)
    requires Inv(s) && Roles(s) && s.net.Sending?
    ensures s.conns != [] && Leads(s, es, u) && AllOwn(es) && Finishes(s, u)
  {
    var e := Write(|EncodeFrame(s.net.frame)| - s.net.done);
    var t := Step(s, e);
    LeadsOneStep(s, e);
    LeadsOneStep(t, Sent);
    u := Step(t, Sent);
    LeadsOn(s, [e], t, [Sent], u);
    es := [e] + [Sent];
  }

  // ---- all frames ----

  /** s after all frames of its ring were sent whole on the connection it has. */
  predicate Emptied(s: System, u: System)
    requires s.conns != [] && RB.Valid(s.mon.ring)
  {
    && u.net == Ready && |u.conns| == |s.conns| && RB.Valid(u.mon.ring) && u.mon.ring.count == 0
    && Last(u.conns).started == Last(s.conns).started + RB.Live(s.mon.ring)
  }

  lemma NextFrameGoes(s: System) returns (es: seq<Event>, u: System)
    requires Inv(s) && Roles(s) && s.net.Ready? && s.mon.ring.count > 0
    ensures Leads(s, es, u) && AllOwn(es) && Inv(u) && Roles(u)
    ensures var f := RB.Live(s.mon.ring)[0];
            && u.net == Ready && |u.conns| == |s.conns| && Last(u.conns).started == Last(s.conns).started + [f]
            && RB.Live(s.mon.ring) == [f] + RB.Live(u.mon.ring)
  {
    var es1, t := NextFrameBegins(s);
    LeadsKeepsInv(s, es1, t);
    var es2, v := FrameFinishes(t);
    LeadsKeepsInv(t, es2, v);
    LeadsOn(s, es1, t, es2, v);
    es, u := es1 + es2, v;
  }

  lemma {:induction false} RingEmpties(s: System) returns (es: seq<Event>, u: System)
    requires Inv(s) && Roles(s) && s.net.Ready?
    ensures Leads(s, es, u) && AllOwn(es) && Emptied(s, u)
    decreases s.mon.ring.count
  {
    if s.mon.ring.count == 0 {
      es, u := [], s;
      assert Last(s.conns).started + [] == Last(s.conns).started;
    } else {
      var es1, t := NextFrameGoes(s);
      var es2, v := RingEmpties(t);
      LeadsOn(s, es1, t, es2, v);
      es, u := es1 + es2, v;
      StartedInOrder(Last(s.conns).started, RB.Live(s.mon.ring), RB.Live(t.mon.ring));
    }
  }

  lemma StartedInOrder(started: seq<Frame>, live: seq<Frame>, rest: seq<Frame>)
    requires live != [] && live == [live[0]] + rest
    ensures (started + [live[0]]) + rest == started + live
  {
  }

  /** From any state in which the network thread goes on, it can be made ready on a connection. */
  lemma BecomesReady(s: System) returns (es: seq<Event>, u: System)
    requires Inv(s) && Roles(s) && !s.net.Stopped?
    ensures Leads(s, es, u) && AllOwn(es) && u.net.Ready? && u.conns != [] && u.mon == s.mon
    ensures if s.net.Disconnected? then u.conns == s.conns + [NEW_CONNECTION]
            else s.conns != [] && |u.conns| == |s.conns| && Last(u.conns).started == Last(s.conns).started
  {
    if s.net.Ready? {
      es, u := [], s;
    } else if s.net.Disconnected? {
      es, u := [Connect], Step(s, Connect);
      LeadsOneStep(s, Connect);
    } else {
      es, u := FrameFinishes(s);
    }
  }

  lemma LastReceived(c: Connection)
    requires Received(c) && Settled(c) && c.whole == |c.started|
    ensures Py.Valid(c.client.reader) && c.delivered <= |c.written|
    ensures var d := Deliver1(c, |c.written| - c.delivered); d.client.frames.got == c.started
  {
    var d := Deliver1(c, |c.written| - c.delivered);
    Delivered(c, |c.written| - c.delivered);
    SettledAndDelivered(d);
    assert d.started[..d.whole] == d.started;
  }

  /** s after everything written on the last connection was delivered. */
  lemma AllDelivered(s: System) returns (e: Event)
    requires Inv(s) && Roles(s) && s.net.Ready?
    ensures Enabled(s, e) && Own(e)
    ensures var u := Step(s, e);
            && u.mon == s.mon && |u.conns| == |s.conns| && u.net == s.net
            && Last(u.conns).started == Last(s.conns).started
            && Last(u.conns).client.frames.got == Last(s.conns).started
  {
    var n, c := |s.conns| - 1, Last(s.conns);
    e := Deliver(n, |c.written| - c.delivered);
    LastReceived(c);
    assert Last(Step(s, e).conns) == Deliver1(c, |c.written| - c.delivered);
  }

  /** u is s with the ring empty and all its frames received on the connection s has, or a new one. */
  predicate Arrived(s: System, u: System) {
    && RB.Valid(s.mon.ring) && RB.Valid(u.mon.ring) && u.mon.ring.count == 0 && u.conns != []
    && if s.net.Disconnected? then
         |u.conns| == |s.conns| + 1 && Last(u.conns).client.frames.got == RB.Live(s.mon.ring)
       else
         |u.conns| == |s.conns| && Last(u.conns).client.frames.got == Last(s.conns).started + RB.Live(s.mon.ring)
  }

  lemma AllFramesArrive(s: System) returns (es: seq<Event>, u: System)
    requires Inv(s) && Roles(s) && s.net.Ready?
    ensures Leads(s, es, u) && AllOwn(es)
    ensures RB.Valid(u.mon.ring) && u.mon.ring.count == 0 && |u.conns| == |s.conns|
    ensures Last(u.conns).client.frames.got == Last(s.conns).started + RB.Live(s.mon.ring)
  {
    var es1, t := RingEmpties(s);
    LeadsKeepsInv(s, es1, t);
    var e := AllDelivered(t);
    u := Step(t, e);
    LeadsOneStep(t, e);
    LeadsOn(s, es1, t, [e], u);
    es := es1 + [e];
  }

  /**
   No frame is ever stranded: from every reachable state in which the network thread was not stopped,
   steps of its own and arriving bytes, none of them a failure, lead to a state in which the ring is
   empty and the receiver of its connection has every frame that began there before and every frame
   that was in the ring. The connection is the one it had, or a new one if it had lost it.
   */
  lemma EveryFrameCanArrive(ss: seq<System>, es: seq<Event>) returns (more: seq<Event>, u: System)
    requires Run(ss, es) && Initial(ss[0]) && !ss[|es|].net.Stopped?
    ensures Leads(ss[|es|], more, u) && AllOwn(more) && Arrived(ss[|es|], u)
  {
    var s := ss[|es|];
    EveryReachableRoles(ss, es, |es|);
    var es1, t := BecomesReady(s);
    LeadsKeepsInv(s, es1, t);
    var es2, v := AllFramesArrive(t);
    LeadsOn(s, es1, t, es2, v);
    more, u := es1 + es2, v;
    assert [] + RB.Live(s.mon.ring) == RB.Live(s.mon.ring);
  }

  /** After a frame was sent whole the thread goes on to the next one on the same connection. */
  lemma SentGoesOn(ss: seq<System>, es: seq<Event>) returns (more: seq<Event>, u: System)
    requires Run(ss, es) && Initial(ss[0]) && es != [] && es[|es| - 1] == Sent
    requires ss[|es|].mon.ring.count > 0
    ensures var s := ss[|es|];
            && Leads(s, more, u) && AllOwn(more) && RB.Valid(s.mon.ring) && RB.Live(s.mon.ring) != []
            && |u.conns| == |s.conns| > 0 && u.net == Sending(RB.Live(s.mon.ring)[0], 0)
            && Last(u.conns).started == Last(s.conns).started + [RB.Live(s.mon.ring)[0]]
  {
    EveryReachableRoles(ss, es, |es|);
    assert Step(ss[|es| - 1], es[|es| - 1]) == ss[|es|];
    more, u := NextFrameBegins(ss[|es|]);
  }

  lemma ReaderIsValid(c: Connection)
    requires Received(c)
    ensures Py.Valid(c.client.reader) && c.delivered <= |c.written|
  {
  }

  /** Any bytes that were written and not yet delivered may arrive, on any connection, old or new. */
  lemma AnyBytesMayArrive(s: System, i: nat, n: nat)
    requires AllReceived(s.conns)
    ensures Enabled(s, Deliver(i, n)) <==> i < |s.conns| && s.conns[i].delivered + n <= |s.conns[i].written|
  {
    if i < |s.conns| {
      ReaderIsValid(s.conns[i]);
    }
  }

  /** The socket may take any part of what is left of a frame, or fail while something is left. */
  lemma TheSocketIsFree(s: System, n: nat)
    requires Inv(s)
    ensures Enabled(s, Write(n)) <==> s.net.Sending? && s.net.done + n <= |EncodeFrame(s.net.frame)|
    ensures Enabled(s, SendFails) <==> s.net.Sending? && s.net.done < |EncodeFrame(s.net.frame)|
  {
  }

  /** The camera may push any frame but the empty one whenever it is outside, and the ring may be closed. */
  lemma TheCameraIsFree(s: System, f: Frame)
    requires Inv(s) && Roles(s)
    ensures Enabled(s, Shared(M.EnterPush(CAPTURE, f))) <==> f != [] && s.mon.threads[CAPTURE].Outside?
    ensures Enabled(s, Shared(M.CloseRing))
  {
  }
}
