/**
 The ring shared by any number of threads: a state machine over the sections of push, pop and close.
 The mutex makes each section one step. Threads sleep on two condition variables, are woken by
 notify_one, notify_all or for no reason, and then have to take the mutex again like anyone else.
 */
module Monitor {
  import opened Bytes
  import opened FrameCodec
  import opened RingBuffer

  type Thread = nat

  datatype Place =
    | Outside
    | Pushing(frame: Frame)
    | PushAsleep(frame: Frame)
    | PushWoken(frame: Frame)
    | Popping
    | PopAsleep
    | PopWoken

  type Threads = map<Thread, Place>

  /** pushed and popped are the frames of all successful calls so far, in order. */
  datatype State = State(ring: Ring, threads: Threads, pushed: seq<Frame>, popped: seq<Frame>)

  /** other is the thread that notify_one picks, if anyone sleeps. */
  datatype Action =
    | EnterPush(thread: Thread, frame: Frame)
    | EnterPop(thread: Thread)
    | RunPush(thread: Thread, other: Thread)
    | RunPop(thread: Thread, other: Thread)
    | WakeUp(thread: Thread)
    | CloseRing

  function PushSleepers(ts: Threads): set<Thread> { set t | t in ts && ts[t].PushAsleep? }
  function PushWokens(ts: Threads): set<Thread> { set t | t in ts && ts[t].PushWoken? }
  function PopSleepers(ts: Threads): set<Thread> { set t | t in ts && ts[t].PopAsleep? }
  function PopWokens(ts: Threads): set<Thread> { set t | t in ts && ts[t].PopWoken? }
  function Inside(ts: Threads): set<Thread> { set t | t in ts && !ts[t].Outside? }

  function Woken(p: Place): Place {
    match p
    case PushAsleep(f) => PushWoken(f)
    case PopAsleep => PopWoken
    case _ => p
  }

  function NotifyOne(ts: Threads, sleepers: set<Thread>, other: Thread): Threads
    requires sleepers <= ts.Keys
  {
    if other in sleepers then ts[other := Woken(ts[other])] else ts
  }

  function NotifyAll(ts: Threads): (us: Threads)
    ensures us.Keys == ts.Keys
  {
    map t | t in ts :: Woken(ts[t])
  }

  // ---- steps ----

  predicate Enabled(s: State, a: Action) {
    match a
    case EnterPush(t, _) => t in s.threads && s.threads[t].Outside?
    case EnterPop(t) => t in s.threads && s.threads[t].Outside?
    case RunPush(t, w) =>
      t in s.threads && (s.threads[t].Pushing? || s.threads[t].PushWoken?)
      && (PopSleepers(s.threads) == {} || w in PopSleepers(s.threads))
    case RunPop(t, w) =>
      t in s.threads && (s.threads[t].Popping? || s.threads[t].PopWoken?)
      && (PushSleepers(s.threads) == {} || w in PushSleepers(s.threads))
    case WakeUp(t) => t in s.threads && (s.threads[t].PushAsleep? || s.threads[t].PopAsleep?)
    case CloseRing => true
  }

  function StepPush(s: State, t: Thread, w: Thread): State
    requires Valid(s.ring) && Enabled(s, RunPush(t, w))
  {
    var f := s.threads[t].frame;
    var p := Push(s.ring, f);
    match p.outcome
    case Waits => s.(threads := s.threads[t := PushAsleep(f)])
    case Refused => s.(threads := s.threads[t := Outside])
    case Done =>
      var ts := s.threads[t := Outside];
      State(p.ring, NotifyOne(ts, PopSleepers(ts), w), s.pushed + [Clip(f)], s.popped)
  }

  function StepPop(s: State, t: Thread, w: Thread): State
    requires Valid(s.ring) && Enabled(s, RunPop(t, w))
  {
    var p := Pop(s.ring);
    match p.outcome
    case Waits => s.(threads := s.threads[t := PopAsleep])
    case Refused => s.(threads := s.threads[t := Outside])
    case Done =>
      var ts := s.threads[t := Outside];
      State(p.ring, NotifyOne(ts, PushSleepers(ts), w), s.pushed, s.popped + [p.frame])
  }

  function Step(s: State, a: Action): State
    requires Valid(s.ring) && Enabled(s, a)
  {
    match a
    case EnterPush(t, f) => s.(threads := s.threads[t := Pushing(f)])
    case EnterPop(t) => s.(threads := s.threads[t := Popping])
    case RunPush(t, w) => StepPush(s, t, w)
    case RunPop(t, w) => StepPop(s, t, w)
    case WakeUp(t) => s.(threads := s.threads[t := Woken(s.threads[t])])
    case CloseRing => s.(ring := s.ring.(closed := true), threads := NotifyAll(s.threads))
  }

  predicate Initial(s: State) {
    && Valid(s.ring) && s.ring.count == 0 && !s.ring.closed
    && s.pushed == [] && s.popped == []
    && forall t :: t in s.threads ==> s.threads[t].Outside?
  }

  /** ss is a run: each state comes from the one before by the action beside it. */
  predicate Run(ss: seq<State>, acts: seq<Action>) {
    && |ss| == |acts| + 1
    && forall i :: 0 <= i < |acts| ==>
         Valid(ss[i].ring) && Enabled(ss[i], acts[i]) && ss[i + 1] == Step(ss[i], acts[i])
  }

  // ---- what every step keeps ----

  /** The ring is a FIFO queue of what was pushed and not yet popped. */
  predicate Fifo(s: State) {
    Valid(s.ring) && s.pushed == s.popped + Live(s.ring)
  }

  /** No wake-up is lost: whoever sleeps is outnumbered by nothing but woken threads yet to run. */
  predicate NobodyForgotten(s: State) {
    && (PopSleepers(s.threads) != {} ==> s.ring.count <= |PopWokens(s.threads)|)
    && (PushSleepers(s.threads) != {} ==> RING_BUF_COUNT - s.ring.count <= |PushWokens(s.threads)|)
    && (s.ring.closed ==> PopSleepers(s.threads) == {} && PushSleepers(s.threads) == {})
  }

  predicate Inv(s: State) {
    Fifo(s) && NobodyForgotten(s)
  }

  function If(c: bool, t: Thread): set<Thread> {
    if c then {t} else {}
  }

  lemma Moved(ts: Threads, t: Thread, p: Place)
    ensures var us := ts[t := p];
            && PushSleepers(us) == PushSleepers(ts) - {t} + If(p.PushAsleep?, t)
            && PushWokens(us) == PushWokens(ts) - {t} + If(p.PushWoken?, t)
            && PopSleepers(us) == PopSleepers(ts) - {t} + If(p.PopAsleep?, t)
            && PopWokens(us) == PopWokens(ts) - {t} + If(p.PopWoken?, t)
            && Inside(us) == Inside(ts) - {t} + If(!p.Outside?, t)
  {
  }

  lemma FifoStep(s: State, a: Action)
    requires Fifo(s) && Enabled(s, a)
    ensures Fifo(Step(s, a))
  {
    match a {
      case RunPush(t, _) =>
        PushAppends(s.ring, s.threads[t].frame);
        ConcatAssociative(s.popped, Live(s.ring), [Clip(s.threads[t].frame)]);
      case RunPop(_, _) =>
        PopTakesOldest(s.ring);
        var p := Pop(s.ring);
        ConcatAssociative(s.popped, [p.frame], Live(p.ring));
      case CloseRing =>
        assert Live(s.ring.(closed := true)) == Live(s.ring);
      case _ =>
    }
  }

  lemma PopSleeperWakes(ts: Threads, w: Thread)
    requires w in PopSleepers(ts)
    ensures var us := ts[w := PopWoken];
            && PushSleepers(us) == PushSleepers(ts) && PushWokens(us) == PushWokens(ts)
            && PopSleepers(us) == PopSleepers(ts) - {w}
            && PopWokens(us) == PopWokens(ts) + {w} && w !in PopWokens(ts)
            && Inside(us) == Inside(ts)
  {
  }

  lemma PushSleeperWakes(ts: Threads, w: Thread)
    requires w in PushSleepers(ts)
    ensures var us := ts[w := PushWoken(ts[w].frame)];
            && PopSleepers(us) == PopSleepers(ts) && PopWokens(us) == PopWokens(ts)
            && PushSleepers(us) == PushSleepers(ts) - {w}
            && PushWokens(us) == PushWokens(ts) + {w} && w !in PushWokens(ts)
            && Inside(us) == Inside(ts)
  {
  }

  /** A notification moves one sleeper, if there is one, to the woken threads. */
  lemma PopNotified(ts: Threads, w: Thread)
    requires PopSleepers(ts) == {} || w in PopSleepers(ts)
    ensures var us := NotifyOne(ts, PopSleepers(ts), w);
            && PushSleepers(us) == PushSleepers(ts) && PushWokens(us) == PushWokens(ts)
            && PopSleepers(us) == PopSleepers(ts) - {w}
            && |PopWokens(us)| == |PopWokens(ts)| + (if PopSleepers(ts) != {} then 1 else 0)
            && Inside(us) == Inside(ts)
  {
    if PopSleepers(ts) != {} {
      PopSleeperWakes(ts, w);
    }
  }

  lemma PushNotified(ts: Threads, w: Thread)
    requires PushSleepers(ts) == {} || w in PushSleepers(ts)
    ensures var us := NotifyOne(ts, PushSleepers(ts), w);
            && PopSleepers(us) == PopSleepers(ts) && PopWokens(us) == PopWokens(ts)
            && PushSleepers(us) == PushSleepers(ts) - {w}
            && |PushWokens(us)| == |PushWokens(ts)| + (if PushSleepers(ts) != {} then 1 else 0)
            && Inside(us) == Inside(ts)
  {
    if PushSleepers(ts) != {} {
      PushSleeperWakes(ts, w);
    }
  }

  lemma AllNotified(ts: Threads)
    ensures var us := NotifyAll(ts);
            PopSleepers(us) == {} && PushSleepers(us) == {} && Inside(us) == Inside(ts)
  {
  }

  predicate OnPushSide(p: Place) {
    p.Pushing? || p.PushAsleep? || p.PushWoken? || p.Outside?
  }

  predicate OnPopSide(p: Place) {
    p.Popping? || p.PopAsleep? || p.PopWoken? || p.Outside?
  }

  lemma Without(a: set<Thread>, t: Thread, back: bool)
    ensures |a - {t} + If(back, t)| >= |a| - (if t in a then 1 else 0)
    ensures t !in a && !back ==> a - {t} + If(back, t) == a
    ensures !back ==> a - {t} + If(back, t) == a - {t}
  {
    Larger(a - {t}, a - {t} + If(back, t));
  }

  /** A move on the push side leaves the sets of the pop side alone. */
  lemma MovedPusher(ts: Threads, t: Thread, p: Place)
    requires t in ts && OnPushSide(ts[t]) && OnPushSide(p)
    ensures var us := ts[t := p];
            && PopSleepers(us) == PopSleepers(ts) && PopWokens(us) == PopWokens(ts)
            && |PushWokens(us)| >= |PushWokens(ts)| - (if ts[t].PushWoken? then 1 else 0)
            && (!p.PushAsleep? ==> PushSleepers(us) == PushSleepers(ts) - {t})
  {
    Moved(ts, t, p);
    Without(PopSleepers(ts), t, false);
    Without(PopWokens(ts), t, false);
    Without(PushWokens(ts), t, p.PushWoken?);
    Without(PushSleepers(ts), t, p.PushAsleep?);
  }

  lemma MovedPopper(ts: Threads, t: Thread, p: Place)
    requires t in ts && OnPopSide(ts[t]) && OnPopSide(p)
    ensures var us := ts[t := p];
            && PushSleepers(us) == PushSleepers(ts) && PushWokens(us) == PushWokens(ts)
            && |PopWokens(us)| >= |PopWokens(ts)| - (if ts[t].PopWoken? then 1 else 0)
            && (!p.PopAsleep? ==> PopSleepers(us) == PopSleepers(ts) - {t})
  {
    Moved(ts, t, p);
    Without(PushSleepers(ts), t, false);
    Without(PushWokens(ts), t, false);
    Without(PopWokens(ts), t, p.PopWoken?);
    Without(PopSleepers(ts), t, p.PopAsleep?);
  }

  lemma PushKeepsNobodyForgotten(s: State, t: Thread, w: Thread)
    requires Inv(s) && Enabled(s, RunPush(t, w))
    ensures NobodyForgotten(Step(s, RunPush(t, w)))
  {
    match Push(s.ring, s.threads[t].frame).outcome {
      case Waits => MovedPusher(s.threads, t, PushAsleep(s.threads[t].frame));
      case Refused => MovedPusher(s.threads, t, Outside);
      case Done => PushDone(s, t, w);
    }
  }

  lemma PushDone(s: State, t: Thread, w: Thread)
    requires Inv(s) && Enabled(s, RunPush(t, w)) && Push(s.ring, s.threads[t].frame).outcome == Done
    ensures NobodyForgotten(Step(s, RunPush(t, w)))
  {
    var ts := s.threads[t := Outside];
    MovedPusher(s.threads, t, Outside);
    PopNotified(ts, w);
    var u := Step(s, RunPush(t, w));
    assert u.threads == NotifyOne(ts, PopSleepers(ts), w);
    assert u.ring.count == s.ring.count + 1;
  }

  lemma PopKeepsNobodyForgotten(s: State, t: Thread, w: Thread)
    requires Inv(s) && Enabled(s, RunPop(t, w))
    ensures NobodyForgotten(Step(s, RunPop(t, w)))
  {
    match Pop(s.ring).outcome {
      case Waits => MovedPopper(s.threads, t, PopAsleep);
      case Refused => MovedPopper(s.threads, t, Outside);
      case Done => PopDone(s, t, w);
    }
  }

  lemma PopDone(s: State, t: Thread, w: Thread)
    requires Inv(s) && Enabled(s, RunPop(t, w)) && Pop(s.ring).outcome == Done
    ensures NobodyForgotten(Step(s, RunPop(t, w)))
  {
    var ts := s.threads[t := Outside];
    MovedPopper(s.threads, t, Outside);
    PushNotified(ts, w);
    var u := Step(s, RunPop(t, w));
    assert u.threads == NotifyOne(ts, PushSleepers(ts), w);
    assert u.ring.count == s.ring.count - 1;
  }

  lemma OtherStepsForgetNobody(s: State, a: Action)
    requires Inv(s) && Enabled(s, a) && !a.RunPush? && !a.RunPop?
    ensures NobodyForgotten(Step(s, a))
  {
    match a {
      case EnterPush(t, f) => MovedPusher(s.threads, t, Pushing(f));
      case EnterPop(t) => MovedPopper(s.threads, t, Popping);
      case WakeUp(t) =>
        if s.threads[t].PopAsleep? {
          MovedPopper(s.threads, t, PopWoken);
        } else {
          MovedPusher(s.threads, t, Woken(s.threads[t]));
        }
      case CloseRing => AllNotified(s.threads);
    }
  }

  lemma {:induction false} Larger(a: set<Thread>, b: set<Thread>)
    requires a <= b
    ensures |a| <= |b|
  {
    if a == {} {
    } else {
      var t :| t in a;
      Larger(a - {t}, b - {t});
    }
  }

  lemma StepKeepsInv(s: State, a: Action)
    requires Inv(s) && Enabled(s, a)
    ensures Inv(Step(s, a))
  {
    FifoStep(s, a);
    match a {
      case RunPush(t, w) => PushKeepsNobodyForgotten(s, t, w);
      case RunPop(t, w) => PopKeepsNobodyForgotten(s, t, w);
      case _ => OtherStepsForgetNobody(s, a);
    }
  }

  /** In every reachable state the ring is a FIFO queue and no wake-up has been lost. */
  lemma {:induction false} EveryReachableState(ss: seq<State>, acts: seq<Action>, i: nat)
    requires Run(ss, acts) && Initial(ss[0]) && i < |ss|
    ensures Inv(ss[i])
  {
    if i == 0 {
      assert Live(ss[0].ring) == [];
    } else {
      EveryReachableState(ss, acts, i - 1);
      StepKeepsInv(ss[i - 1], acts[i - 1]);
    }
  }

  // ---- what that means for threads ----

  /** What the thread waits for is true. */
  predicate MayGo(s: State, t: Thread)
    requires t in s.threads
  {
    match s.threads[t]
    case PushAsleep(_) => s.ring.count < RING_BUF_COUNT || s.ring.closed
    case PopAsleep => s.ring.count > 0 || s.ring.closed
    case _ => true
  }

  /**
   No thread is stuck: one that sleeps although it may go has a thread of its own side woken and
   ready to run, and as many of those as there are frames to take, or slots to fill. Producers and
   consumers never sleep on each other with fewer than four woken threads between them.
   */
  lemma NoThreadStuck(s: State, t: Thread)
    requires Inv(s) && t in s.threads && MayGo(s, t)
    ensures s.threads[t].PopAsleep? ==> exists w, v :: Enabled(s, RunPop(w, v)) && s.threads[w].PopWoken?
    ensures s.threads[t].PopAsleep? ==> |PopWokens(s.threads)| >= s.ring.count > 0
    ensures s.threads[t].PushAsleep? ==> exists w, v :: Enabled(s, RunPush(w, v)) && s.threads[w].PushWoken?
    ensures s.threads[t].PushAsleep? ==> |PushWokens(s.threads)| >= RING_BUF_COUNT - s.ring.count > 0
    ensures PushSleepers(s.threads) != {} && PopSleepers(s.threads) != {} ==>
              |PushWokens(s.threads)| + |PopWokens(s.threads)| >= RING_BUF_COUNT
  {
    if s.threads[t].PopAsleep? {
      assert t in PopSleepers(s.threads);
      var w :| w in PopWokens(s.threads);
      var v := Pick(PushSleepers(s.threads));
      assert Enabled(s, RunPop(w, v));
    }
    if s.threads[t].PushAsleep? {
      assert t in PushSleepers(s.threads);
      var w :| w in PushWokens(s.threads);
      var v := Pick(PopSleepers(s.threads));
      assert Enabled(s, RunPush(w, v));
    }
  }

  lemma Pick(ts: set<Thread>) returns (t: Thread)
    ensures ts == {} || t in ts
  {
    if ts == {} {
      t := 0;
    } else {
      t :| t in ts;
    }
  }

  /**
   A thread has a step of its own if and only if it is not asleep; one that is outside may call push
   with any frame, and one that is asleep may wake up for no reason.
   */
  lemma OwnStepIffAwake(s: State, t: Thread)
    requires Inv(s) && t in s.threads
    ensures forall f :: Enabled(s, EnterPush(t, f)) <==> s.threads[t].Outside?
    ensures Enabled(s, EnterPop(t)) <==> s.threads[t].Outside?
    ensures (exists w :: Enabled(s, RunPush(t, w))) <==> s.threads[t].Pushing? || s.threads[t].PushWoken?
    ensures (exists w :: Enabled(s, RunPop(t, w))) <==> s.threads[t].Popping? || s.threads[t].PopWoken?
    ensures Enabled(s, WakeUp(t)) <==> s.threads[t].PushAsleep? || s.threads[t].PopAsleep?
    ensures Enabled(s, CloseRing)
  {
    var v := Pick(PopSleepers(s.threads));
    var w := Pick(PushSleepers(s.threads));
    assert s.threads[t].Pushing? || s.threads[t].PushWoken? ==> Enabled(s, RunPush(t, v));
    assert s.threads[t].Popping? || s.threads[t].PopWoken? ==> Enabled(s, RunPop(t, w));
  }

  /**
   A step moves the thread that takes it and nobody else, except that a successful call wakes the one
   sleeper of the other side that notify_one picks, and close wakes every sleeper.
   */
  lemma WhoMoves(s: State, a: Action, x: Thread)
    requires Inv(s) && Enabled(s, a) && x in s.threads && (!a.CloseRing? ==> x != a.thread)
    ensures var u, p := Step(s, a), s.threads[x];
            && u.threads.Keys == s.threads.Keys
            && u.threads[x] ==
               if p.PopAsleep? && (a.CloseRing? || (a.RunPush? && a.other == x && u.pushed != s.pushed)) then PopWoken
               else if p.PushAsleep? && (a.CloseRing? || (a.RunPop? && a.other == x && u.popped != s.popped))
               then PushWoken(p.frame)
               else p
  {
  }

  // ---- every call is accounted for ----

  function Pushers(ts: Threads): set<Thread> {
    set t | t in ts && (ts[t].Pushing? || ts[t].PushAsleep? || ts[t].PushWoken?)
  }

  function Poppers(ts: Threads): set<Thread> {
    set t | t in ts && (ts[t].Popping? || ts[t].PopAsleep? || ts[t].PopWoken?)
  }

  function PushCalls(acts: seq<Action>): nat {
    if acts == [] then 0 else PushCalls(acts[..|acts| - 1]) + if acts[|acts| - 1].EnterPush? then 1 else 0
  }

  function PopCalls(acts: seq<Action>): nat {
    if acts == [] then 0 else PopCalls(acts[..|acts| - 1]) + if acts[|acts| - 1].EnterPop? then 1 else 0
  }

  lemma NotifyKeepsSides(ts: Threads, sleepers: set<Thread>, w: Thread)
    requires sleepers <= ts.Keys
    ensures Pushers(NotifyOne(ts, sleepers, w)) == Pushers(ts)
    ensures Poppers(NotifyOne(ts, sleepers, w)) == Poppers(ts)
  {
  }

  lemma MovedSides(ts: Threads, t: Thread, p: Place)
    ensures var us := ts[t := p];
            && Pushers(us) == Pushers(ts) - {t} + If(OnPushSide(p) && !p.Outside?, t)
            && Poppers(us) == Poppers(ts) - {t} + If(OnPopSide(p) && !p.Outside?, t)
  {
  }

  lemma SetSizes(a: set<Thread>, t: Thread, back: bool)
    ensures |a - {t} + If(back, t)| == |a| - (if t in a then 1 else 0) + (if back then 1 else 0)
    ensures (t in a) == back ==> a - {t} + If(back, t) == a
  {
    if back {
      assert a - {t} + {t} == a + {t};
      assert t in a ==> a + {t} == a;
    } else {
      assert t !in a ==> a - {t} == a;
      assert a - {t} + {} == a - {t};
    }
  }

  /** A thread that moves on one side changes the number inside that side, and not the other side. */
  lemma SidesCounted(ts: Threads, t: Thread, p: Place)
    requires t in ts && ((OnPushSide(ts[t]) && OnPushSide(p)) || (OnPopSide(ts[t]) && OnPopSide(p)))
    ensures var us := ts[t := p];
            && |Pushers(us)| == |Pushers(ts)| - (if t in Pushers(ts) then 1 else 0)
                                + (if OnPushSide(p) && !p.Outside? then 1 else 0)
            && |Poppers(us)| == |Poppers(ts)| - (if t in Poppers(ts) then 1 else 0)
                                + (if OnPopSide(p) && !p.Outside? then 1 else 0)
  {
    MovedSides(ts, t, p);
    SetSizes(Pushers(ts), t, OnPushSide(p) && !p.Outside?);
    SetSizes(Poppers(ts), t, OnPopSide(p) && !p.Outside?);
  }

  /** The calls that a step sends away with false. */
  predicate RefusesPush(s: State, a: Action) {
    a.RunPush? && s.ring.closed
  }

  predicate RefusesPop(s: State, a: Action) {
    a.RunPop? && s.ring.closed && s.ring.count == 0
  }

  function PushesRefused(ss: seq<State>, acts: seq<Action>): nat
    requires |ss| == |acts| + 1
    decreases |acts|
  {
    if acts == [] then 0 else
    var n := |acts| - 1;
    PushesRefused(ss[..n + 1], acts[..n]) + if RefusesPush(ss[n], acts[n]) then 1 else 0
  }

  function PopsRefused(ss: seq<State>, acts: seq<Action>): nat
    requires |ss| == |acts| + 1
    decreases |acts|
  {
    if acts == [] then 0 else
    var n := |acts| - 1;
    PopsRefused(ss[..n + 1], acts[..n]) + if RefusesPop(ss[n], acts[n]) then 1 else 0
  }

  lemma AccountOfPush(s: State, t: Thread, w: Thread)
    requires Inv(s) && Enabled(s, RunPush(t, w))
    ensures var u := Step(s, RunPush(t, w));
            && |u.pushed| + |Pushers(u.threads)| + (if s.ring.closed then 1 else 0)
               == |s.pushed| + |Pushers(s.threads)|
            && u.popped == s.popped && |Poppers(u.threads)| == |Poppers(s.threads)|
  {
    var f := s.threads[t].frame;
    var p := if Push(s.ring, f).outcome == Waits then PushAsleep(f) else Outside;
    SidesCounted(s.threads, t, p);
    var ts := s.threads[t := p];
    NotifyKeepsSides(ts, PopSleepers(ts), w);
  }

  lemma AccountOfPop(s: State, t: Thread, w: Thread)
    requires Inv(s) && Enabled(s, RunPop(t, w))
    ensures var u := Step(s, RunPop(t, w));
            && |u.popped| + |Poppers(u.threads)| + (if s.ring.closed && s.ring.count == 0 then 1 else 0)
               == |s.popped| + |Poppers(s.threads)|
            && u.pushed == s.pushed && |Pushers(u.threads)| == |Pushers(s.threads)|
  {
    var p := if Pop(s.ring).outcome == Waits then PopAsleep else Outside;
    SidesCounted(s.threads, t, p);
    var ts := s.threads[t := p];
    NotifyKeepsSides(ts, PushSleepers(ts), w);
  }

  lemma AccountOfClose(s: State)
    requires Inv(s)
    ensures var u := Step(s, CloseRing);
            && u.pushed == s.pushed && u.popped == s.popped
            && Pushers(u.threads) == Pushers(s.threads) && Poppers(u.threads) == Poppers(s.threads)
  {
  }

  lemma AccountOfOthers(s: State, a: Action)
    requires Inv(s) && Enabled(s, a) && !IsRun(a) && !a.CloseRing?
    ensures var u := Step(s, a);
            && u.pushed == s.pushed && u.popped == s.popped
            && |Pushers(u.threads)| == |Pushers(s.threads)| + (if a.EnterPush? then 1 else 0)
            && |Poppers(u.threads)| == |Poppers(s.threads)| + (if a.EnterPop? then 1 else 0)
  {
    SidesCounted(s.threads, a.thread, Step(s, a).threads[a.thread]);
  }

  /**
   Over every run, closed or not, every call is accounted for: the calls of push begun are the frames
   put in, the calls sent away with false and the threads still inside push; likewise for pop.
   */
  lemma {:induction false} EveryCallAccounted(ss: seq<State>, acts: seq<Action>)
    requires Run(ss, acts) && Initial(ss[0])
    ensures var u := ss[|acts|];
            && PushCalls(acts) == |u.pushed| + PushesRefused(ss, acts) + |Pushers(u.threads)|
            && PopCalls(acts) == |u.popped| + PopsRefused(ss, acts) + |Poppers(u.threads)|
    decreases |acts|
  {
    if acts == [] {
      assert Pushers(ss[0].threads) == {} && Poppers(ss[0].threads) == {};
    } else {
      var n := |acts| - 1;
      RunPrefix(ss, acts, n);
      EveryReachableState(ss, acts, n);
      EveryCallAccounted(ss[..n + 1], acts[..n]);
      StepAccounted(ss[n], acts[n]);
    }
  }

  lemma StepAccounted(s: State, a: Action)
    requires Inv(s) && Enabled(s, a)
    ensures var u := Step(s, a);
            && |u.pushed| + |Pushers(u.threads)| + (if RefusesPush(s, a) then 1 else 0)
               == |s.pushed| + |Pushers(s.threads)| + (if a.EnterPush? then 1 else 0)
            && |u.popped| + |Poppers(u.threads)| + (if RefusesPop(s, a) then 1 else 0)
               == |s.popped| + |Poppers(s.threads)| + (if a.EnterPop? then 1 else 0)
  {
    if a.RunPush? {
      AccountOfPush(s, a.thread, a.other);
    } else if a.RunPop? {
      AccountOfPop(s, a.thread, a.other);
    } else if a.CloseRing? {
      AccountOfClose(s);
    } else {
      AccountOfOthers(s, a);
    }
  }

  // ---- every frame is accounted for ----

  /** A frame as it is kept: its first 614400 bytes. */
  function Cut(f: Frame): Frame {
    if |f| <= 614400 then f else f[..614400]
  }

  /** The frames with which push was called, in order. */
  function Offered(acts: seq<Action>): seq<Frame> {
    if acts == [] then [] else Offered(acts[..|acts| - 1]) + OfferedBy(acts[|acts| - 1])
  }

  function OfferedBy(a: Action): seq<Frame> {
    if a.EnterPush? then [Cut(a.frame)] else []
  }

  /** The frames whose push returned false, in order. */
  function RefusedFrames(ss: seq<State>, acts: seq<Action>): seq<Frame>
    requires Run(ss, acts)
    decreases |acts|
  {
    if acts == [] then [] else
    var n := |acts| - 1;
    RefusedFrames(ss[..n + 1], acts[..n]) + RefusedBy(ss[n], acts[n])
  }

  function RefusedBy(s: State, a: Action): seq<Frame>
    requires Enabled(s, a)
  {
    if RefusesPush(s, a) then [Cut(s.threads[a.thread].frame)] else []
  }

  predicate InsidePush(p: Place) {
    p.Pushing? || p.PushAsleep? || p.PushWoken?
  }

  predicate Holds(p: Place, x: Frame) {
    InsidePush(p) && Cut(p.frame) == x
  }

  /** The threads inside push with the frame x. */
  function Holders(ts: Threads, x: Frame): set<Thread> {
    set t | t in ts && Holds(ts[t], x)
  }

  function Times(fs: seq<Frame>, x: Frame): nat {
    multiset(fs)[x]
  }

  lemma TimesSnoc(fs: seq<Frame>, gs: seq<Frame>, x: Frame)
    ensures Times(fs + gs, x) == Times(fs, x) + Times(gs, x)
  {
  }

  lemma HoldersAfterMove(ts: Threads, t: Thread, p: Place, x: Frame, holds: bool)
    requires holds == Holds(p, x)
    ensures Holders(ts[t := p], x) == Holders(ts, x) - {t} + If(holds, t)
  {
  }

  lemma HoldersMoved(ts: Threads, t: Thread, p: Place, x: Frame)
    requires t in ts
    ensures |Holders(ts[t := p], x)| ==
            |Holders(ts, x)| - (if Holds(ts[t], x) then 1 else 0) + (if Holds(p, x) then 1 else 0)
  {
    HoldersAfterMove(ts, t, p, x, Holds(p, x));
    SetSizes(Holders(ts, x), t, Holds(p, x));
  }

  lemma NotifyKeepsHolders(ts: Threads, sleepers: set<Thread>, w: Thread, x: Frame)
    requires sleepers <= ts.Keys
    ensures Holders(NotifyOne(ts, sleepers, w), x) == Holders(ts, x)
  {
  }

  lemma PushKeepsFrames(s: State, t: Thread, w: Thread, x: Frame)
    requires Inv(s) && Enabled(s, RunPush(t, w))
    ensures var a := RunPush(t, w); var u := Step(s, a);
            Times(u.pushed, x) + Times(RefusedBy(s, a), x) + |Holders(u.threads, x)|
            == Times(s.pushed, x) + |Holders(s.threads, x)|
  {
    var f := s.threads[t].frame;
    var p := if Push(s.ring, f).outcome == Waits then PushAsleep(f) else Outside;
    HoldersMoved(s.threads, t, p, x);
    var ts := s.threads[t := p];
    NotifyKeepsHolders(ts, PopSleepers(ts), w, x);
    TimesSnoc(s.pushed, [Cut(f)], x);
    assert Clip(f) == Cut(f);
  }

  lemma PopKeepsHolders(s: State, t: Thread, w: Thread, x: Frame)
    requires Inv(s) && Enabled(s, RunPop(t, w))
    ensures var u := Step(s, RunPop(t, w));
            u.pushed == s.pushed && |Holders(u.threads, x)| == |Holders(s.threads, x)|
  {
    var p := if Pop(s.ring).outcome == Waits then PopAsleep else Outside;
    HoldersMoved(s.threads, t, p, x);
    var ts := s.threads[t := p];
    NotifyKeepsHolders(ts, PushSleepers(ts), w, x);
  }

  lemma CloseKeepsHolders(ts: Threads, x: Frame)
    ensures Holders(NotifyAll(ts), x) == Holders(ts, x)
  {
  }

  lemma OthersKeepFrames(s: State, a: Action, x: Frame)
    requires Inv(s) && Enabled(s, a) && !IsRun(a) && !a.CloseRing?
    ensures var u := Step(s, a);
            u.pushed == s.pushed && |Holders(u.threads, x)| == |Holders(s.threads, x)| + Times(OfferedBy(a), x)
  {
    HoldersMoved(s.threads, a.thread, Step(s, a).threads[a.thread], x);
  }

  lemma StepKeepsFrames(s: State, a: Action, x: Frame)
    requires Inv(s) && Enabled(s, a)
    ensures var u := Step(s, a);
            Times(u.pushed, x) + Times(RefusedBy(s, a), x) + |Holders(u.threads, x)|
            == Times(s.pushed, x) + |Holders(s.threads, x)| + Times(OfferedBy(a), x)
  {
    if a.RunPush? {
      PushKeepsFrames(s, a.thread, a.other, x);
    } else if a.RunPop? {
      PopKeepsHolders(s, a.thread, a.other, x);
    } else if a.CloseRing? {
      CloseKeepsHolders(s.threads, x);
    } else {
      OthersKeepFrames(s, a, x);
    }
  }

  /**
   Over every run no frame is invented, lost, altered or doubled on its way in: each frame x was offered
   to push, cut to its first 614400 bytes, as often as it was put in, was refused, or is still with a
   thread inside push.
   */
  lemma {:induction false} EveryFrameAccounted(ss: seq<State>, acts: seq<Action>, x: Frame)
    requires Run(ss, acts) && Initial(ss[0])
    ensures var u := ss[|acts|];
            multiset(Offered(acts))[x]
            == multiset(u.pushed)[x] + multiset(RefusedFrames(ss, acts))[x] + |Holders(u.threads, x)|
    decreases |acts|
  {
    if acts == [] {
      assert Holders(ss[0].threads, x) == {};
    } else {
      var n := |acts| - 1;
      RunPrefix(ss, acts, n);
      EveryReachableState(ss, acts, n);
      EveryFrameAccounted(ss[..n + 1], acts[..n], x);
      StepKeepsFrames(ss[n], acts[n], x);
      TimesSnoc(Offered(acts[..n]), OfferedBy(acts[n]), x);
      TimesSnoc(RefusedFrames(ss[..n + 1], acts[..n]), RefusedBy(ss[n], acts[n]), x);
    }
  }

  // ---- one thread that pushes ----

  /** Only c is ever inside push. */
  predicate OnlyPusher(ts: Threads, c: Thread) {
    forall t :: t in ts && t != c ==> !InsidePush(ts[t])
  }

  /** The frame with which c is inside push, if it is. */
  function InHand(ts: Threads, c: Thread): seq<Frame> {
    if c in ts && InsidePush(ts[c]) then [Cut(ts[c].frame)] else []
  }

  lemma OnlyPusherStep(s: State, a: Action, c: Thread)
    requires Inv(s) && Enabled(s, a) && OnlyPusher(s.threads, c) && (a.EnterPush? ==> a.thread == c)
    ensures OnlyPusher(Step(s, a).threads, c)
    ensures var u := Step(s, a);
            u.pushed + RefusedBy(s, a) + InHand(u.threads, c) == s.pushed + InHand(s.threads, c) + OfferedBy(a)
    ensures s.ring.closed || RefusedBy(s, a) == []
    ensures s.ring.closed ==> Step(s, a).pushed == s.pushed && Step(s, a).ring.closed
  {
    if a.RunPush? {
      assert a.thread == c;
      assert Clip(s.threads[c].frame) == Cut(s.threads[c].frame);
    }
  }

  /**
   When one thread does all the pushing, what was put in is, in order, what it offered, up to the
   frames refused after close and the one still in its hand.
   */
  lemma {:induction false} OnePusherInOrder(ss: seq<State>, acts: seq<Action>, c: Thread)
    requires Run(ss, acts) && Initial(ss[0])
    requires forall i :: 0 <= i < |acts| && acts[i].EnterPush? ==> acts[i].thread == c
    ensures var u := ss[|acts|];
            && Offered(acts) == u.pushed + RefusedFrames(ss, acts) + InHand(u.threads, c)
            && (RefusedFrames(ss, acts) != [] ==> u.ring.closed)
            && OnlyPusher(u.threads, c)
    decreases |acts|
  {
    if acts == [] {
    } else {
      var n := |acts| - 1;
      var s, a := ss[n], acts[n];
      RunPrefix(ss, acts, n);
      EveryReachableState(ss, acts, n);
      OnePusherInOrder(ss[..n + 1], acts[..n], c);
      OnlyPusherStep(s, a, c);
      OneMoreInOrder(s.pushed, RefusedFrames(ss[..n + 1], acts[..n]), InHand(s.threads, c), OfferedBy(a),
                     Step(s, a).pushed, RefusedBy(s, a), InHand(Step(s, a).threads, c));
    }
  }

  /** Frames are refused only behind those put in: either none was refused before, or none is put in now. */
  lemma OneMoreInOrder(pushed: seq<Frame>, refused: seq<Frame>, hand: seq<Frame>, offer: seq<Frame>,
                       pushed': seq<Frame>, refusal: seq<Frame>, hand': seq<Frame>)
    requires pushed' + refusal + hand' == pushed + hand + offer
    requires refused == [] || pushed' == pushed
    ensures pushed' + (refused + refusal) + hand' == (pushed + refused + hand) + offer
  {
    if refused == [] {
      assert pushed + refused == pushed && refused + refusal == refusal;
    } else {
      assert pushed' + refusal + hand' == pushed + (refusal + hand');
      assert pushed + hand + offer == pushed + (hand + offer);
      SameTails(pushed, refusal + hand', hand + offer);
      assert pushed + (refused + refusal) + hand' == pushed + refused + (refusal + hand');
      assert (pushed + refused + hand) + offer == pushed + refused + (hand + offer);
    }
  }

  lemma SameTails(a: seq<Frame>, b: seq<Frame>, c: seq<Frame>)
    requires a + b == a + c
    ensures b == c
  {
    assert (a + b)[|a|..] == b && (a + c)[|a|..] == c;
  }

  // ---- shutdown ----

  predicate IsRun(a: Action) {
    a.RunPush? || a.RunPop?
  }

  predicate IsEnter(a: Action) {
    a.EnterPush? || a.EnterPop?
  }

  /** Once the ring is closed, whoever is inside push or pop returns with its next own step. */
  lemma ClosedMeansNextStepReturns(s: State, t: Thread, w: Thread)
    requires Inv(s) && s.ring.closed && t in Inside(s.threads)
    ensures exists a :: IsRun(a) && a.thread == t && Enabled(s, a)
    ensures forall a :: IsRun(a) && a.thread == t && Enabled(s, a) ==>
              Inside(Step(s, a).threads) == Inside(s.threads) - {t}
  {
    assert t !in PushSleepers(s.threads) && t !in PopSleepers(s.threads);
    assert PushSleepers(s.threads) == {} == PopSleepers(s.threads);
    if s.threads[t].Pushing? || s.threads[t].PushWoken? {
      assert Enabled(s, RunPush(t, w));
    } else {
      assert Enabled(s, RunPop(t, w));
    }
    forall a | IsRun(a) && a.thread == t && Enabled(s, a)
      ensures Inside(Step(s, a).threads) == Inside(s.threads) - {t}
    {
      ClosedRunReturns(s, a);
    }
  }

  lemma ClosedRunReturns(s: State, a: Action)
    requires Inv(s) && s.ring.closed && IsRun(a) && Enabled(s, a)
    ensures Inside(Step(s, a).threads) == Inside(s.threads) - {a.thread}
    ensures a.thread in Inside(s.threads)
  {
    Moved(s.threads, a.thread, Outside);
    var ts := s.threads[a.thread := Outside];
    assert PushSleepers(ts) == {} == PopSleepers(ts);
  }

  function Runs(acts: seq<Action>): nat {
    if acts == [] then 0 else Runs(acts[..|acts| - 1]) + if IsRun(acts[|acts| - 1]) then 1 else 0
  }

  /** The measure of shutdown: with nobody entering any more, every own step takes one thread out. */
  lemma {:induction false} ShutdownIsBounded(ss: seq<State>, acts: seq<Action>)
    requires Run(ss, acts) && Inv(ss[0]) && ss[0].ring.closed
    requires forall i :: 0 <= i < |acts| ==> !IsEnter(acts[i])
    ensures Inv(ss[|acts|]) && ss[|acts|].ring.closed
    ensures Runs(acts) + |Inside(ss[|acts|].threads)| == |Inside(ss[0].threads)|
    decreases |acts|
  {
    if acts == [] {
    } else {
      var n := |acts| - 1;
      RunPrefix(ss, acts, n);
      ShutdownIsBounded(ss[..n + 1], acts[..n]);
      ShutdownStep(ss[n], acts[n]);
    }
  }

  lemma ShutdownStep(s: State, a: Action)
    requires Inv(s) && s.ring.closed && Enabled(s, a) && !IsEnter(a)
    ensures var u := Step(s, a);
            && Inv(u) && u.ring.closed
            && |Inside(s.threads)| == |Inside(u.threads)| + (if IsRun(a) then 1 else 0)
  {
    StepKeepsInv(s, a);
    if IsRun(a) {
      ClosedRunReturns(s, a);
    } else if a.CloseRing? {
      AllNotified(s.threads);
    } else {
      NobodyWakesUpAgain(s, a);
    }
  }

  lemma NobodyWakesUpAgain(s: State, a: Action)
    requires Inv(s) && s.ring.closed && Enabled(s, a)
    ensures !a.WakeUp?
  {
    forall t | t in s.threads ensures !s.threads[t].PushAsleep? && !s.threads[t].PopAsleep? {
      assert t !in PushSleepers(s.threads) && t !in PopSleepers(s.threads);
    }
  }

  lemma RunPrefix(ss: seq<State>, acts: seq<Action>, n: nat)
    requires Run(ss, acts) && n <= |acts|
    ensures Run(ss[..n + 1], acts[..n])
  {
  }

  /**
   After close no push succeeds, and the pops that still succeed give out, in order,
   the frames that were left over: at most four.
   */
  lemma {:induction false} ClosedRingDrains(ss: seq<State>, acts: seq<Action>)
    requires Run(ss, acts) && Inv(ss[0]) && ss[0].ring.closed
    ensures var s, u := ss[0], ss[|acts|];
            && Inv(u) && u.ring.closed && u.pushed == s.pushed
            && s.popped <= u.popped && u.popped[|s.popped|..] <= Live(s.ring)
            && |u.popped| - |s.popped| <= RING_BUF_COUNT
    decreases |acts|
  {
    if acts == [] {
      Leftovers(ss[0], ss[0]);
    } else {
      var n := |acts| - 1;
      RunPrefix(ss, acts, n);
      ClosedRingDrains(ss[..n + 1], acts[..n]);
      ClosedStep(ss[n], acts[n]);
      StepKeepsInv(ss[n], acts[n]);
      Leftovers(ss[0], ss[n + 1]);
    }
  }

  lemma ClosedStep(s: State, a: Action)
    requires Inv(s) && s.ring.closed && Enabled(s, a)
    ensures var u := Step(s, a); u.ring.closed && u.pushed == s.pushed && s.popped <= u.popped
  {
  }

  lemma Leftovers(s: State, u: State)
    requires Fifo(s) && Fifo(u) && u.pushed == s.pushed && s.popped <= u.popped
    ensures u.popped[|s.popped|..] <= Live(s.ring)
    ensures |u.popped| - |s.popped| <= RING_BUF_COUNT
  {
    var more := u.popped[|s.popped|..];
    assert u.popped == s.popped + more;
    ConcatAssociative(s.popped, more, Live(u.ring));
    assert Live(s.ring) == s.pushed[|s.popped|..];
    assert more + Live(u.ring) == u.pushed[|s.popped|..];
  }
}
