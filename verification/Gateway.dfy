/**
 gateway_app.cpp with ai_receiver.py at the far end: frames go through the ring, the network thread
 pops each one and writes it to the connection it has, drops it and reconnects when the write fails,
 and every connection has a receiver of its own that gets any prefix of the bytes, in any pieces.
 */
module Gateway {
  import opened Bytes
  import opened FrameCodec
  import opened FrameStreams
  import RB = RingBuffer
  import M = Monitor
  import Py = AiReceiver

  /** The network thread, the only one that pops. */
  const NET: M.Thread := 0

  /** The capture thread, the only one that pushes. */
  const CAPTURE: M.Thread := 1

  /** Where the network thread is: done bytes of the frame's encoding have been written. */
  datatype Net = Disconnected | Ready | Sending(frame: Frame, done: nat) | Stopped

  /**
   started: the frames whose sending began here; whole: how many of them were reported sent;
   written: the bytes the socket took; delivered: how many of those reached the receiver.
   */
  datatype Connection = Connection(started: seq<Frame>, whole: nat, written: seq<byte>,
                                   delivered: nat, client: Py.Client)

  datatype System = System(mon: M.State, net: Net, conns: seq<Connection>)

  datatype Event =
    | Shared(action: M.Action)
    | Write(n: nat)
    | Sent
    | SendFails
    | Connect
    | Deliver(i: nat, n: nat)
    | Stop

  const NEW_CONNECTION := Connection([], 0, [], 0, Py.NEW_CLIENT)

  /** The connection that the network thread has, if it has one: the newest. */
  function Last(cs: seq<Connection>): Connection
    requires cs != []
  {
    cs[|cs| - 1]
  }

  function WithLast(cs: seq<Connection>, c: Connection): seq<Connection>
    requires cs != []
  {
    cs[|cs| - 1 := c]
  }

  /** The capture thread pushes, but no empty frame; the network thread pops, and only when ready. */
  predicate Allowed(s: System, a: M.Action) {
    && (a.EnterPush? ==> a.thread == CAPTURE && a.frame != [])
    && (a.EnterPop? ==> a.thread == NET && s.net.Ready?)
    && (a.RunPop? ==> a.thread == NET && s.net.Ready?)
  }

  predicate Enabled(s: System, e: Event) {
    match e
    case Shared(a) => RB.Valid(s.mon.ring) && M.Enabled(s.mon, a) && Allowed(s, a) && (s.net.Ready? ==> s.conns != [])
    case Write(n) => s.net.Sending? && s.conns != [] && s.net.done + n <= |EncodeFrame(s.net.frame)|
    case Sent => s.net.Sending? && s.conns != [] && s.net.done == |EncodeFrame(s.net.frame)|
    case SendFails => s.net.Sending? && s.net.done < |EncodeFrame(s.net.frame)|
    case Connect => s.net.Disconnected?
    case Deliver(i, n) => i < |s.conns| && s.conns[i].delivered + n <= |s.conns[i].written|
                          && Py.Valid(s.conns[i].client.reader)
    case Stop => s.net.Disconnected? || (s.net.Ready? && NET in s.mon.threads && s.mon.threads[NET].Outside?)
  }

  function Deliver1(c: Connection, n: nat): Connection
    requires c.delivered + n <= |c.written| && Py.Valid(c.client.reader)
  {
    c.(delivered := c.delivered + n,
       client := Py.ClientRun(c.client, c.written[c.delivered..c.delivered + n]))
  }

  /** The connection after the socket took n more bytes of b, of which it had k. */
  function Written(c: Connection, b: seq<byte>, k: nat, n: nat): Connection
    requires k + n <= |b|
  {
    c.(written := c.written + b[k..k + n])
  }

  function Step(s: System, e: Event): System
    requires Enabled(s, e)
  {
    match e
    case Shared(a) =>
      var mon := M.Step(s.mon, a);
      if a.RunPop? && RB.Pop(s.mon.ring).outcome == RB.Done then
        var f := RB.Pop(s.mon.ring).frame;
        System(mon, Sending(f, 0), WithLast(s.conns, Last(s.conns).(started := Last(s.conns).started + [f])))
      else s.(mon := mon)
    case Write(n) =>
      var f, k := s.net.frame, s.net.done;
      s.(net := Sending(f, k + n),
         conns := WithLast(s.conns, Written(Last(s.conns), EncodeFrame(f), k, n)))
    case Sent =>
      s.(net := Ready, conns := WithLast(s.conns, Last(s.conns).(whole := Last(s.conns).whole + 1)))
    case SendFails => s.(net := Disconnected)
    case Connect => s.(net := Ready, conns := s.conns + [NEW_CONNECTION])
    case Deliver(i, n) => s.(conns := s.conns[i := Deliver1(s.conns[i], n)])
    case Stop => s.(net := Stopped)
  }

  predicate Initial(s: System) {
    && M.Initial(s.mon) && NET in s.mon.threads && CAPTURE in s.mon.threads
    && s.net == Disconnected && s.conns == []
  }

  predicate Run(ss: seq<System>, es: seq<Event>) {
    && |ss| == |es| + 1
    && forall i :: 0 <= i < |es| ==> Enabled(ss[i], es[i]) && ss[i + 1] == Step(ss[i], es[i])
  }

  // ---- what every step keeps ----

  /** The receiver of a connection has run on exactly the bytes delivered to it. */
  predicate Received(c: Connection) {
    && c.delivered <= |c.written|
    && c.client == Py.ClientRun(Py.NEW_CLIENT, c.written[..c.delivered])
  }

  /** A connection on which nothing is being sent: every frame but perhaps the last is complete. */
  predicate Settled(c: Connection) {
    && AllSendable(c.started)
    && if c.whole == |c.started| then c.written == EncodeFrames(c.started)
       else c.whole == |c.started| - 1 && c.written < EncodeFrames(c.started)
            && EncodeFrames(c.started[..c.whole]) <= c.written
  }

  /** A connection on which k bytes of its last frame f have been written. */
  predicate InFlight(c: Connection, f: Frame, k: nat) {
    && AllSendable(c.started)
    && c.whole == |c.started| - 1 && c.started[c.whole] == f
    && k <= |EncodeFrame(f)|
    && c.written == EncodeFrames(c.started[..c.whole]) + EncodeFrame(f)[..k]
  }

  predicate NetOk(net: Net, cs: seq<Connection>) {
    match net
    case Ready => cs != [] && Settled(Last(cs)) && Last(cs).whole == |Last(cs).started|
    case Sending(f, k) => cs != [] && InFlight(Last(cs), f, k)
    case _ => cs != [] ==> Settled(Last(cs))
  }

  function Started(cs: seq<Connection>): seq<Frame> {
    if cs == [] then [] else Started(cs[..|cs| - 1]) + cs[|cs| - 1].started
  }

  predicate FramesOk(m: M.State) {
    && AllSendable(m.pushed)
    && forall t :: t in m.threads ==> match m.threads[t]
       case Pushing(f) => f != []
       case PushAsleep(f) => f != []
       case PushWoken(f) => f != []
       case _ => true
  }

  /** The connections carry the popped frames, and all but the last have come to rest. */
  predicate Links(net: Net, cs: seq<Connection>, popped: seq<Frame>) {
    Started(cs) == popped && AllReceived(cs) && OldSettled(cs) && NetOk(net, cs)
  }

  predicate AllReceived(cs: seq<Connection>) {
    forall i :: 0 <= i < |cs| ==> Received(cs[i])
  }

  predicate OldSettled(cs: seq<Connection>) {
    forall i :: 0 <= i < |cs| - 1 ==> Settled(cs[i])
  }

  predicate Inv(s: System) {
    M.Inv(s.mon) && FramesOk(s.mon) && Links(s.net, s.conns, s.mon.popped)
  }

  lemma StartedLast(cs: seq<Connection>, c: Connection)
    requires cs != []
    ensures Started(cs[|cs| - 1 := c]) == Started(cs[..|cs| - 1]) + c.started
  {
    var ds := cs[|cs| - 1 := c];
    assert ds[..|ds| - 1] == cs[..|cs| - 1];
  }

  lemma {:induction false} StartedSame(cs: seq<Connection>, i: nat, c: Connection)
    requires i < |cs| && c.started == cs[i].started
    ensures Started(cs[i := c]) == Started(cs)
    decreases |cs|
  {
    var ds, n := cs[i := c], |cs| - 1;
    if i < n {
      StartedSame(cs[..n], i, c);
      assert ds[..n] == cs[..n][i := c];
    } else {
      assert ds[..n] == cs[..n];
    }
  }

  lemma MonitorKeepsFrames(m: M.State, a: M.Action)
    requires M.Inv(m) && FramesOk(m) && M.Enabled(m, a) && (a.EnterPush? ==> a.frame != [])
    ensures FramesOk(M.Step(m, a))
  {
    var u := M.Step(m, a);
    if a.RunPush? {
      var f := m.threads[a.thread].frame;
      assert Sendable(RB.Clip(f));
    }
    forall t | t in u.threads ensures match u.threads[t]
       case Pushing(f) => f != []
       case PushAsleep(f) => f != []
       case PushWoken(f) => f != []
       case _ => true
    {
    }
  }

  predicate Pops(s: System, e: Event)
    requires e.Shared? && Enabled(s, e)
  {
    e.action.RunPop? && RB.Pop(s.mon.ring).outcome == RB.Done
  }

  lemma QuietStep(s: System, e: Event)
    requires Inv(s) && e.Shared? && Enabled(s, e) && !Pops(s, e)
    ensures Inv(Step(s, e))
  {
    M.StepKeepsInv(s.mon, e.action);
    MonitorKeepsFrames(s.mon, e.action);
    OnlyPopsPop(s.mon, e.action);
  }

  lemma OnlyPopsPop(m: M.State, a: M.Action)
    requires RB.Valid(m.ring) && M.Enabled(m, a) && !(a.RunPop? && RB.Pop(m.ring).outcome == RB.Done)
    ensures M.Step(m, a).popped == m.popped
  {
  }

  lemma PoppedIsSendable(m: M.State, a: M.Action)
    requires M.Inv(m) && FramesOk(m) && M.Enabled(m, a) && a.RunPop? && RB.Pop(m.ring).outcome == RB.Done
    ensures var f := RB.Pop(m.ring).frame; Sendable(f) && M.Step(m, a).popped == m.popped + [f]
  {
    RB.PopTakesOldest(m.ring);
    assert m.pushed[|m.popped|] == RB.Pop(m.ring).frame;
  }

  /** The popped frame begins on a settled connection with no byte written. */
  lemma Begun(c: Connection, f: Frame)
    requires Settled(c) && c.whole == |c.started| && Sendable(f)
    ensures InFlight(c.(started := c.started + [f]), f, 0)
  {
    var d := c.(started := c.started + [f]);
    assert d.started[..d.whole] == c.started;
    assert EncodeFrame(f)[..0] == [] && c.written + [] == c.written;
  }

  lemma PopStep(s: System, e: Event)
    requires Inv(s) && e.Shared? && Enabled(s, e) && Pops(s, e)
    ensures Inv(Step(s, e))
  {
    M.StepKeepsInv(s.mon, e.action);
    MonitorKeepsFrames(s.mon, e.action);
    PoppedIsSendable(s.mon, e.action);
    FrameBegins(s.conns, s.mon.popped, RB.Pop(s.mon.ring).frame);
  }

  lemma FrameBegins(cs: seq<Connection>, popped: seq<Frame>, f: Frame)
    requires cs != [] && Links(Ready, cs, popped) && Sendable(f)
    ensures var d := Last(cs).(started := Last(cs).started + [f]);
            Links(Sending(f, 0), WithLast(cs, d), popped + [f])
  {
    var d := Last(cs).(started := Last(cs).started + [f]);
    Begun(Last(cs), f);
    ReceiversStay(cs, d);
    OldStay(cs, d);
    OneMoreStarted(cs, f);
  }

  lemma OneMoreStarted(cs: seq<Connection>, f: Frame)
    requires cs != []
    ensures var c := cs[|cs| - 1];
            Started(cs[|cs| - 1 := c.(started := c.started + [f])]) == Started(cs) + [f]
  {
    var c := cs[|cs| - 1];
    StartedLast(cs, c.(started := c.started + [f]));
    ConcatAssociative(Started(cs[..|cs| - 1]), c.started, [f]);
  }

  /** Replacing the last connection by one whose receiver has not moved disturbs no other. */
  lemma ReceiversStay(cs: seq<Connection>, d: Connection)
    requires cs != [] && AllReceived(cs)
    requires d.delivered == Last(cs).delivered && d.client == Last(cs).client
    requires Last(cs).written <= d.written
    ensures AllReceived(WithLast(cs, d))
  {
    assert Received(Last(cs));
    assert d.written[..d.delivered] == Last(cs).written[..d.delivered];
  }

  lemma OldStay(cs: seq<Connection>, d: Connection)
    requires cs != [] && OldSettled(cs)
    ensures OldSettled(WithLast(cs, d))
  {
  }

  /** The sender moves on and nothing changes but what is written on the last connection. */
  lemma SenderMoves(net: Net, cs: seq<Connection>, popped: seq<Frame>, next: Net, d: Connection)
    requires cs != [] && Links(net, cs, popped) && NetOk(next, WithLast(cs, d))
    requires d.started == Last(cs).started && Last(cs).written <= d.written
    requires d.delivered == Last(cs).delivered && d.client == Last(cs).client
    ensures Links(next, WithLast(cs, d), popped)
  {
    ReceiversStay(cs, d);
    OldStay(cs, d);
    StartedSame(cs, |cs| - 1, d);
  }

  lemma MoreWritten(c: Connection, f: Frame, k: nat, n: nat)
    requires InFlight(c, f, k) && k + n <= |EncodeFrame(f)|
    ensures InFlight(Written(c, EncodeFrame(f), k, n), f, k + n)
  {
    var b := EncodeFrame(f);
    assert b[..k] + b[k..k + n] == b[..k + n];
    ConcatAssociative(EncodeFrames(c.started[..c.whole]), b[..k], b[k..k + n]);
  }

  lemma WriteStep(cs: seq<Connection>, popped: seq<Frame>, f: Frame, k: nat, n: nat)
    requires cs != [] && Links(Sending(f, k), cs, popped) && k + n <= |EncodeFrame(f)|
    ensures Links(Sending(f, k + n), WithLast(cs, Written(Last(cs), EncodeFrame(f), k, n)), popped)
  {
    MoreWritten(Last(cs), f, k, n);
    var d := Written(Last(cs), EncodeFrame(f), k, n);
    SenderMoves(Sending(f, k), cs, popped, Sending(f, k + n), d);
  }

  lemma InFlightEncodes(c: Connection, f: Frame, k: nat)
    requires InFlight(c, f, k)
    ensures EncodeFrames(c.started) == EncodeFrames(c.started[..c.whole]) + EncodeFrame(f)
    ensures k == |EncodeFrame(f)| ==> c.written == EncodeFrames(c.started)
    ensures k < |EncodeFrame(f)| ==> c.written < EncodeFrames(c.started)
    ensures EncodeFrames(c.started[..c.whole]) <= c.written <= EncodeFrames(c.started)
  {
    LastFrame(c.started, c.whole);
    assert k == |EncodeFrame(f)| ==> EncodeFrame(f)[..k] == EncodeFrame(f);
  }

  lemma Finished(c: Connection, f: Frame)
    requires InFlight(c, f, |EncodeFrame(f)|)
    ensures var d := c.(whole := c.whole + 1); Settled(d) && d.whole == |d.started|
  {
    InFlightEncodes(c, f, |EncodeFrame(f)|);
  }

  lemma SentStep(cs: seq<Connection>, popped: seq<Frame>, f: Frame)
    requires cs != [] && Links(Sending(f, |EncodeFrame(f)|), cs, popped)
    ensures Links(Ready, WithLast(cs, Last(cs).(whole := Last(cs).whole + 1)), popped)
  {
    Finished(Last(cs), f);
    var d := Last(cs).(whole := Last(cs).whole + 1);
    SenderMoves(Sending(f, |EncodeFrame(f)|), cs, popped, Ready, d);
  }

  lemma FailStep(cs: seq<Connection>, popped: seq<Frame>, f: Frame, k: nat)
    requires cs != [] && Links(Sending(f, k), cs, popped) && k < |EncodeFrame(f)|
    ensures Links(Disconnected, cs, popped)
  {
    InFlightEncodes(Last(cs), f, k);
    assert Settled(Last(cs));
  }

  lemma ConnectStep(cs: seq<Connection>, popped: seq<Frame>)
    requires Links(Disconnected, cs, popped)
    ensures Links(Ready, cs + [NEW_CONNECTION], popped)
  {
    NewConnection();
    Appended(cs);
  }

  lemma NewConnection()
    ensures Settled(NEW_CONNECTION) && Received(NEW_CONNECTION)
  {
    assert PacketsOf([]) == [];
    assert EncodeFrames([]) == [];
    assert NEW_CONNECTION.written[..0] == [];
  }

  lemma Appended(cs: seq<Connection>)
    ensures Started(cs + [NEW_CONNECTION]) == Started(cs)
  {
    assert (cs + [NEW_CONNECTION])[..|cs|] == cs;
    assert Started(cs) + [] == Started(cs);
  }

  lemma ClientGoesOn(c: Py.Client, w: seq<byte>, k: nat, n: nat)
    requires Py.Valid(c.reader) && k + n <= |w|
    ensures Py.ClientRun(Py.ClientRun(c, w[..k]), w[k..k + n]) == Py.ClientRun(c, w[..k + n])
  {
    assert w[..k + n] == w[..k] + w[k..k + n];
    ClientConcat(c, w[..k], w[k..k + n]);
  }

  lemma Delivered(c: Connection, n: nat)
    requires Received(c) && c.delivered + n <= |c.written|
    ensures Received(Deliver1(c, n))
  {
    ClientGoesOn(Py.NEW_CLIENT, c.written, c.delivered, n);
  }

  lemma DeliveryLeavesSending(c: Connection, n: nat, f: Frame, k: nat)
    requires c.delivered + n <= |c.written| && Py.Valid(c.client.reader)
    ensures Settled(c) ==> Settled(Deliver1(c, n))
    ensures InFlight(c, f, k) ==> InFlight(Deliver1(c, n), f, k)
  {
  }

  lemma DeliveryLeavesNet(net: Net, cs: seq<Connection>, i: nat, n: nat)
    requires i < |cs| && cs[i].delivered + n <= |cs[i].written| && Py.Valid(cs[i].client.reader)
    requires NetOk(net, cs)
    ensures NetOk(net, cs[i := Deliver1(cs[i], n)])
  {
    var ds := cs[i := Deliver1(cs[i], n)];
    if i == |cs| - 1 {
      var (f, k) := if net.Sending? then (net.frame, net.done) else ([], 0);
      DeliveryLeavesSending(Last(cs), n, f, k);
    } else {
      assert Last(ds) == Last(cs);
    }
  }

  lemma DeliverStep(net: Net, cs: seq<Connection>, popped: seq<Frame>, i: nat, n: nat)
    requires Links(net, cs, popped)
    requires i < |cs| && cs[i].delivered + n <= |cs[i].written| && Py.Valid(cs[i].client.reader)
    ensures Links(net, cs[i := Deliver1(cs[i], n)], popped)
  {
    Delivered(cs[i], n);
    OneReplaced(cs, i, Deliver1(cs[i], n));
    DeliveryLeavesSending(cs[i], n, [], 0);
    DeliveryLeavesNet(net, cs, i, n);
    StartedSame(cs, i, Deliver1(cs[i], n));
  }

  lemma OneReplaced(cs: seq<Connection>, i: nat, d: Connection)
    requires i < |cs| && AllReceived(cs) && OldSettled(cs)
    requires Received(d) && (Settled(cs[i]) ==> Settled(d))
    ensures AllReceived(cs[i := d]) && OldSettled(cs[i := d])
  {
  }

  lemma WriteEvent(s: System, n: nat)
    requires Links(s.net, s.conns, s.mon.popped) && Enabled(s, Write(n))
    ensures var u := Step(s, Write(n)); u.mon == s.mon && Links(u.net, u.conns, u.mon.popped)
  {
    var cs, f, k := s.conns, s.net.frame, s.net.done;
    WriteStep(cs, s.mon.popped, f, k, n);
    var u := Step(s, Write(n));
    assert u.net == Sending(f, k + n) && u.conns == WithLast(cs, Written(Last(cs), EncodeFrame(f), k, n));
  }

  lemma VerdictEvent(s: System, e: Event)
    requires Links(s.net, s.conns, s.mon.popped) && Enabled(s, e) && (e.Sent? || e.SendFails?)
    ensures var u := Step(s, e); u.mon == s.mon && Links(u.net, u.conns, u.mon.popped)
  {
    if e.Sent? {
      SentStep(s.conns, s.mon.popped, s.net.frame);
    } else {
      FailStep(s.conns, s.mon.popped, s.net.frame, s.net.done);
    }
  }

  /** Events that touch neither the ring nor the sender. */
  lemma OutsideEvent(s: System, e: Event)
    requires Links(s.net, s.conns, s.mon.popped) && Enabled(s, e) && (e.Connect? || e.Deliver? || e.Stop?)
    ensures var u := Step(s, e); u.mon == s.mon && Links(u.net, u.conns, u.mon.popped)
  {
    match e {
      case Connect => ConnectStep(s.conns, s.mon.popped);
      case Deliver(i, n) => DeliverStep(s.net, s.conns, s.mon.popped, i, n);
      case Stop =>
    }
  }

  lemma StepKeepsInv(s: System, e: Event)
    requires Inv(s) && Enabled(s, e)
    ensures Inv(Step(s, e))
  {
    match e {
      case Shared(_) => if Pops(s, e) { PopStep(s, e); } else { QuietStep(s, e); }
      case Write(n) => WriteEvent(s, n);
      case Sent | SendFails => VerdictEvent(s, e);
      case Connect | Deliver(_, _) | Stop => OutsideEvent(s, e);
    }
  }

  lemma {:induction false} EveryReachableSystem(ss: seq<System>, es: seq<Event>, i: nat)
    requires Run(ss, es) && Initial(ss[0]) && i < |ss|
    ensures Inv(ss[i])
  {
    if i == 0 {
      assert RB.Live(ss[0].mon.ring) == [];
      assert M.Inv(ss[0].mon);
    } else {
      EveryReachableSystem(ss, es, i - 1);
      StepKeepsInv(ss[i - 1], es[i - 1]);
    }
  }

  /** Whatever fs_send_frame may do to the socket, by its contract, is a write followed by its verdict. */
  lemma SendFrameIsCovered(s: System, wire: seq<byte>, ok: bool)
    requires Inv(s) && s.net.Sending? && s.net.done == 0
    requires var before := Last(s.conns).written; var f := s.net.frame;
             before <= wire <= before + EncodeFrame(f) && (ok <==> wire == before + EncodeFrame(f))
    ensures var n := |wire| - |Last(s.conns).written|;
            && Enabled(s, Write(n)) && Last(Step(s, Write(n)).conns).written == wire
            && Enabled(Step(s, Write(n)), if ok then Sent else SendFails)
  {
    var before, f := Last(s.conns).written, s.net.frame;
    var n := |wire| - |before|;
    assert wire == before + EncodeFrame(f)[..n];
    assert EncodeFrame(f)[0..n] == EncodeFrame(f)[..n];
  }

  // ---- end to end ----

  function Got(cs: seq<Connection>): seq<Frame> {
    if cs == [] then [] else Got(cs[..|cs| - 1]) + cs[|cs| - 1].client.frames.got
  }

  /** a is b with some elements left out: at says where each element of a stands in b. */
  predicate Picks(a: seq<Frame>, b: seq<Frame>, at: seq<nat>) {
    && |at| == |a|
    && (forall k :: 0 <= k < |a| ==> at[k] < |b| && a[k] == b[at[k]])
    && (forall k, l :: 0 <= k < l < |at| ==> at[k] < at[l])
  }

  ghost predicate Subsequence(a: seq<Frame>, b: seq<Frame>) {
    exists at :: Picks(a, b, at)
  }

  lemma SubsequenceConcat(a: seq<Frame>, b: seq<Frame>, m: nat, c: seq<Frame>)
    requires Subsequence(a, b) && m <= |c|
    ensures Subsequence(a + c[..m], b + c)
  {
    var at :| Picks(a, b, at);
    var more: seq<nat> := seq(m, (k: nat) => |b| + k);
    assert Picks(a + c[..m], b + c, at + more);
  }

  lemma SubsequenceOfPrefix(a: seq<Frame>, b: seq<Frame>, c: seq<Frame>)
    requires Subsequence(a, b) && b <= c
    ensures Subsequence(a, c)
  {
    var at :| Picks(a, b, at);
    assert Picks(a, c, at);
  }

  /** What the receiver of a connection has is told by the bytes delivered to it. */
  predicate Exact(c: Connection) {
    && !c.client.frames.raised
    && c.client.frames.got == c.started[..WholeFrames(c.started, c.delivered)]
  }

  lemma WrittenIsPrefix(s: System, i: nat)
    requires Inv(s) && i < |s.conns|
    ensures AllSendable(s.conns[i].started) && s.conns[i].written <= EncodeFrames(s.conns[i].started)
  {
    if i == |s.conns| - 1 && s.net.Sending? {
      InFlightEncodes(s.conns[i], s.net.frame, s.net.done);
    } else {
      assert Settled(s.conns[i]);
    }
  }

  lemma ConnectionIsExact(c: Connection)
    requires Received(c) && AllSendable(c.started) && c.written <= EncodeFrames(c.started)
    ensures Exact(c)
  {
    ConnectionDelivers(Py.NEW_CLIENT, c.started, c.delivered);
    assert c.written[..c.delivered] == EncodeFrames(c.started)[..c.delivered];
  }

  predicate AllArrived(c: Connection) {
    Settled(c) && c.delivered == |c.written|
  }

  predicate OnlyFailedLost(c: Connection) {
    c.whole <= |c.started| <= c.whole + 1 && c.client.frames.got == c.started[..c.whole]
  }

  /** Only one frame can be lost without a byte being lost: the one whose sending failed. */
  lemma SettledAndDelivered(c: Connection)
    requires Received(c) && AllArrived(c)
    ensures OnlyFailedLost(c)
  {
    ConnectionIsExact(c);
    if c.whole == |c.started| {
      assert c.started[..c.whole] == c.started;
    } else {
      LastFrame(c.started, c.whole);
    }
    WholeFramesIs(c.started, |c.written|, c.whole);
  }

  lemma LastFrame(fs: seq<Frame>, m: nat)
    requires |fs| == m + 1
    ensures EncodeFrames(fs) == EncodeFrames(fs[..m]) + EncodeFrame(fs[m])
  {
    EncodeFramesSnoc(fs[..m], fs[m]);
    assert fs == fs[..m] + [fs[m]];
  }

  lemma FirstFrameSize(fs: seq<Frame>, m: nat)
    requires 0 < m <= |fs|
    ensures |EncodeFrames(fs[..m])| == |EncodeFrame(fs[0])| + |EncodeFrames(fs[1..][..m - 1])|
  {
    assert fs[..m] == [fs[0]] + fs[1..][..m - 1];
    EncodeFramesCons(fs[0], fs[1..][..m - 1]);
  }

  lemma {:induction false} WholeFramesIs(fs: seq<Frame>, n: nat, m: nat)
    requires m <= |fs| && |EncodeFrames(fs[..m])| <= n
    requires m < |fs| ==> n < |EncodeFrames(fs[..m])| + |EncodeFrame(fs[m])|
    ensures WholeFrames(fs, n) == m
    decreases |fs|
  {
    if m == 0 {
      NoFramesNoBytes(fs[..0]);
    } else {
      FirstFrameSize(fs, m);
      WholeFramesIs(fs[1..], n - |EncodeFrame(fs[0])|, m - 1);
    }
  }

  lemma NoFramesNoBytes(fs: seq<Frame>)
    requires fs == []
    ensures EncodeFrames(fs) == []
  {
    assert PacketsOf(fs) == [];
  }

  lemma {:induction false} GotIsSubsequence(cs: seq<Connection>)
    requires forall i :: 0 <= i < |cs| ==> Exact(cs[i])
    ensures Subsequence(Got(cs), Started(cs))
    decreases |cs|
  {
    if cs == [] {
      assert Picks(Got(cs), Started(cs), []);
    } else {
      var init, c := cs[..|cs| - 1], cs[|cs| - 1];
      GotIsSubsequence(init);
      assert Exact(c);
      SubsequenceConcat(Got(init), Started(init), WholeFrames(c.started, c.delivered), c.started);
    }
  }
}
