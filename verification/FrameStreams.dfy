/** Frames over byte streams: sender, stream reader and reassembler put together. */
module FrameStreams {
  import opened Bytes
  import opened Tlv
  import opened FrameCodec
  import opened FrameAssembly
  import G = StreamGuarantees
  import R = ReaderAgreement
  import S = StreamReading
  import T = TlvProtocol
  import C = FrameReceiver
  import Py = AiReceiver

  // ---- one connection of the Python receiver ----

  lemma {:induction false} ClientConcat(c: Py.Client, a: seq<byte>, b: seq<byte>)
    requires Py.Valid(c.reader)
    ensures Py.ClientRun(c, a + b) == Py.ClientRun(Py.ClientRun(c, a), b)
    decreases |b|
  {
    if b == [] {
      assert a + b == a;
    } else {
      ClientConcat(c, a, b[..|b| - 1]);
      assert (a + b)[..|a + b| - 1] == a + b[..|b| - 1];
    }
  }

  /** The loop gathers exactly the packets that the reader hands out, until an exception ends it. */
  lemma {:induction false} ClientGathers(c: Py.Client, data: seq<byte>)
    requires Py.Valid(c.reader) && !c.frames.raised
    ensures var d := Py.ClientRun(c, data); var s := R.PyRun(c.reader, data);
            d.frames == Py.GatherAll(c.frames, s.packets) && (d.frames.raised || d.reader == s.reader)
    decreases |data|
  {
    if data == [] {
    } else {
      var init, x := data[..|data| - 1], data[|data| - 1];
      ClientGathers(c, init);
      var s := R.PyRun(c.reader, init);
      var t := Py.Step(s.reader, x);
      if t.1.Some? {
        PyConcat(c.frames, s.packets, [t.1.value]);
        PyOne(Py.GatherAll(c.frames, s.packets), t.1.value);
      } else {
        assert s.packets + [] == s.packets;
      }
    }
  }

  // ---- frames wholly inside a prefix of what was sent ----

  /** How many of the frames fs have all their bytes among the first n bytes of their encoding. */
  function WholeFrames(fs: seq<Frame>, n: nat): (m: nat)
    ensures m <= |fs|
    decreases |fs|
  {
    if fs == [] || n < |EncodeFrame(fs[0])| then 0
    else 1 + WholeFrames(fs[1..], n - |EncodeFrame(fs[0])|)
  }

  predicate Sendable(f: Frame) {
    0 < |f| <= MAX_FRAME
  }

  predicate AllSendable(fs: seq<Frame>) {
    forall i :: 0 <= i < |fs| ==> Sendable(fs[i])
  }

  lemma {:induction false} WholeFramesMeansInside(fs: seq<Frame>, n: nat)
    ensures var m := WholeFrames(fs, n);
            |EncodeFrames(fs[..m])| <= n && (m < |fs| ==> n < |EncodeFrames(fs[..m])| + |EncodeFrame(fs[m])|)
    decreases |fs|
  {
    if fs == [] || n < |EncodeFrame(fs[0])| {
      assert fs[..0] == [] && SealAll([]) == [];
    } else {
      var m := WholeFrames(fs, n);
      WholeFramesMeansInside(fs[1..], n - |EncodeFrame(fs[0])|);
      EncodeFramesCons(fs[0], fs[1..][..m - 1]);
      assert fs[..m] == [fs[0]] + fs[1..][..m - 1];
    }
  }

  lemma EncodeFramesCons(f: Frame, fs: seq<Frame>)
    ensures PacketsOf([f] + fs) == FramePackets(f) + PacketsOf(fs)
    ensures EncodeFrames([f] + fs) == EncodeFrame(f) + EncodeFrames(fs)
  {
    assert ([f] + fs)[1..] == fs;
    EncodeAllConcat(FramePackets(f), PacketsOf(fs));
  }

  lemma {:induction false} WholeSkips(ps: seq<Packet>, qs: seq<Packet>, n: nat)
    ensures G.Whole(ps + qs, n) ==
            if n < |EncodeAll(ps)| then G.Whole(ps, n) else |ps| + G.Whole(qs, n - |EncodeAll(ps)|)
    ensures n < |EncodeAll(ps)| ==> G.Whole(ps, n) < |ps|
    decreases |ps|
  {
    if ps == [] {
      assert ps + qs == qs && SealAll(ps) == [];
    } else {
      assert ps == [ps[0]] + ps[1..] && (ps + qs)[1..] == ps[1..] + qs;
      EncodeAllConcat([ps[0]], ps[1..]);
      EncodeAllOne(ps[0]);
      if n >= |Encode(ps[0])| {
        WholeSkips(ps[1..], qs, n - |Encode(ps[0])|);
      }
    }
  }

  // ---- what the Python reassembler makes of those packets ----

  /** Feeding ps to a Python reassembler that no exception has ended delivers fs after what it had. */
  predicate Delivers(g: Py.Gathered, ps: seq<Packet>, fs: seq<Frame>) {
    var h := Py.GatherAll(g, ps);
    !h.raised && h.got == g.got + fs
  }

  lemma DeliversMore(g: Py.Gathered, ps: seq<Packet>, fs: seq<Frame>, f: Frame, j: nat)
    requires Delivers(g, ps, fs) && Sendable(f) && j <= |FramePackets(f)|
    ensures Delivers(g, ps + FramePackets(f)[..j], if j < |FramePackets(f)| then fs else fs + [f])
  {
    PyConcat(g, ps, FramePackets(f)[..j]);
    PyFrame(Py.GatherAll(g, ps), f, j);
    ConcatAssociative(g.got, fs, [f]);
  }

  lemma {:induction false} PyAllFrames(g: Py.Gathered, fs: seq<Frame>)
    requires !g.raised && AllSendable(fs)
    ensures Delivers(g, PacketsOf(fs), fs)
    decreases |fs|
  {
    if fs == [] {
    } else {
      var init, f := fs[..|fs| - 1], fs[|fs| - 1];
      assert fs == init + [f];
      PyAllFrames(g, init);
      PacketsOfConcat(init, [f]);
      PacketsOfOne(f);
      var ps := FramePackets(f);
      DeliversMore(g, PacketsOf(init), init, f, |ps|);
      assert ps[..|ps|] == ps;
    }
  }

  lemma InsideSplits(ps: seq<Packet>, qs: seq<Packet>, n: nat)
    requires n >= |EncodeAll(ps)|
    ensures var j := G.Whole(qs, n - |EncodeAll(ps)|);
            (ps + qs)[..G.Whole(ps + qs, n)] == ps + qs[..j]
  {
    WholeSkips(ps, qs, n);
    var j := G.Whole(qs, n - |EncodeAll(ps)|);
    assert (ps + qs)[..|ps| + j] == ps + qs[..j];
  }

  /** The packets wholly inside n bytes: those of the whole frames, and some of the next frame's. */
  lemma PacketsInside(fs: seq<Frame>, n: nat) returns (j: nat)
    ensures var m := WholeFrames(fs, n); var ps := PacketsOf(fs);
            && (m < |fs| ==> j < |FramePackets(fs[m])|)
            && ps[..G.Whole(ps, n)] ==
               PacketsOf(fs[..m]) + if m < |fs| then FramePackets(fs[m])[..j] else []
  {
    var m := WholeFrames(fs, n);
    WholeFramesMeansInside(fs, n);
    var ms, rest := PacketsOf(fs[..m]), PacketsOf(fs[m..]);
    FramesCutInTwo(fs, m);
    InsideSplits(ms, rest, n);
    var left := n - |EncodeAll(ms)|;
    j := G.Whole(rest, left);
    if m < |fs| {
      NextFrameIsCut(fs[m], fs[m..], left);
    } else {
      assert rest == [];
    }
  }

  lemma FramesCutInTwo(fs: seq<Frame>, m: nat)
    requires m <= |fs|
    ensures PacketsOf(fs) == PacketsOf(fs[..m]) + PacketsOf(fs[m..])
  {
    CutInTwo(fs, m);
    PacketsOfConcat(fs[..m], fs[m..]);
  }

  lemma NextFrameIsCut(f: Frame, fs: seq<Frame>, left: nat)
    requires fs != [] && fs[0] == f && left < |EncodeFrame(f)|
    ensures var j := G.Whole(PacketsOf(fs), left);
            j < |FramePackets(f)| && PacketsOf(fs)[..j] == FramePackets(f)[..j]
  {
    WholeSkips(FramePackets(f), PacketsOf(fs[1..]), left);
  }

  /** The packets wholly inside a prefix deliver the frames wholly inside it. */
  lemma PyFramesInside(g: Py.Gathered, fs: seq<Frame>, n: nat)
    requires !g.raised && AllSendable(fs)
    ensures Delivers(g, PacketsOf(fs)[..G.Whole(PacketsOf(fs), n)], fs[..WholeFrames(fs, n)])
  {
    var m := WholeFrames(fs, n);
    var j := PacketsInside(fs, n);
    if m < |fs| {
      PyFramesAndSome(g, fs, m, j);
    } else {
      assert fs[..m] == fs && PacketsOf(fs) + [] == PacketsOf(fs);
      PyAllFrames(g, fs);
    }
  }

  lemma PyFramesAndSome(g: Py.Gathered, fs: seq<Frame>, m: nat, j: nat)
    requires !g.raised && AllSendable(fs) && m < |fs| && j < |FramePackets(fs[m])|
    ensures Delivers(g, PacketsOf(fs[..m]) + FramePackets(fs[m])[..j], fs[..m])
  {
    PyAllFrames(g, fs[..m]);
    DeliversMore(g, PacketsOf(fs[..m]), fs[..m], fs[m], j);
  }

  /**
   A connection on which any prefix of the encoding of the frames fs arrives, behind whatever
   the reassembler held before, delivers exactly the frames that are wholly inside that prefix,
   byte for byte and in order.
   */
  lemma ConnectionDelivers(c: Py.Client, fs: seq<Frame>, n: nat)
    requires R.PyFresh(c.reader) && !c.frames.raised
    requires AllSendable(fs) && n <= |EncodeFrames(fs)|
    ensures var d := Py.ClientRun(c, EncodeFrames(fs)[..n]);
            !d.frames.raised && d.frames.got == c.frames.got + fs[..WholeFrames(fs, n)]
  {
    var cut, ps := EncodeFrames(fs)[..n], PacketsOf(fs);
    PacketsOfFramesNonEmpty(fs);
    ClientGathers(c, cut);
    G.CutSplits(ps, n);
    R.SealedAreHanded(ps[..G.Whole(ps, n)]);
    R.PyRunFollowsSplit(c.reader, cut);
    PyFramesInside(c.frames, fs, n);
  }

  // ---- the same for the C receiver ----

  /** Feeding ps to the C assembly saves fs after what was saved. */
  predicate Saves(g: C.Gathered, ps: seq<Packet>, fs: seq<Frame>)
    requires C.Valid(g.asm)
  {
    C.GatherAll(g, ps).saved == g.saved + fs
  }

  lemma SavesMore(g: C.Gathered, ps: seq<Packet>, fs: seq<Frame>, f: Frame, j: nat)
    requires C.Valid(g.asm) && Saves(g, ps, fs) && Sendable(f) && j <= |FramePackets(f)|
    ensures Saves(g, ps + FramePackets(f)[..j], if j < |FramePackets(f)| then fs else fs + [f])
  {
    C.GatherConcat(g, ps, FramePackets(f)[..j]);
    CFrame(C.GatherAll(g, ps), f, j);
    ConcatFrames(g.saved, fs, f);
  }

  lemma ConcatFrames(a: seq<Frame>, b: seq<Frame>, f: Frame)
    ensures a + b + [f] == a + (b + [f])
  {
  }

  lemma {:induction false} CAllFrames(g: C.Gathered, fs: seq<Frame>)
    requires C.Valid(g.asm) && AllSendable(fs)
    ensures Saves(g, PacketsOf(fs), fs)
    decreases |fs|
  {
    if fs == [] {
      assert g.saved + fs == g.saved;
    } else {
      var init, f := fs[..|fs| - 1], fs[|fs| - 1];
      assert fs == init + [f];
      CAllFrames(g, init);
      PacketsOfConcat(init, [f]);
      PacketsOfOne(f);
      var ps := FramePackets(f);
      SavesMore(g, PacketsOf(init), init, f, |ps|);
      assert ps[..|ps|] == ps;
    }
  }

  lemma CFramesInside(g: C.Gathered, fs: seq<Frame>, n: nat)
    requires C.Valid(g.asm) && AllSendable(fs)
    ensures Saves(g, PacketsOf(fs)[..G.Whole(PacketsOf(fs), n)], fs[..WholeFrames(fs, n)])
  {
    var m := WholeFrames(fs, n);
    var j := PacketsInside(fs, n);
    if m < |fs| {
      CFramesAndSome(g, fs, m, j);
    } else {
      assert fs[..m] == fs && PacketsOf(fs) + [] == PacketsOf(fs);
      CAllFrames(g, fs);
    }
  }

  lemma CFramesAndSome(g: C.Gathered, fs: seq<Frame>, m: nat, j: nat)
    requires C.Valid(g.asm) && AllSendable(fs) && m < |fs| && j < |FramePackets(fs[m])|
    ensures Saves(g, PacketsOf(fs[..m]) + FramePackets(fs[m])[..j], fs[..m])
  {
    CAllFrames(g, fs[..m]);
    SavesMore(g, PacketsOf(fs[..m]), fs[..m], fs[m], j);
  }

  /** Whatever frame was still open, the C receiver saves exactly the frames wholly inside the prefix. */
  lemma ConnectionDeliversC(r: T.Reader, buf: S.Buffer, g: C.Gathered, fs: seq<Frame>, n: nat)
    requires S.Holds(r, buf, []) && C.Valid(g.asm)
    requires AllSendable(fs) && n <= |EncodeFrames(fs)|
    ensures var handed := S.Handed(S.Run(r, buf, EncodeFrames(fs)[..n]).events);
            C.GatherAll(g, handed).saved == g.saved + fs[..WholeFrames(fs, n)]
  {
    PacketsOfFramesNonEmpty(fs);
    R.CHandsWhole(PacketsOf(fs), n, r, buf);
    CFramesInside(g, fs, n);
  }

  // ---- one frame from the sender through reader and reassembler ----

  lemma SplitOfPackets(ps: seq<Packet>)
    ensures Split(EncodeAll(ps)) == Parse(SealAll(ps), [])
  {
    SplitIsUnique(SealAll(ps), []);
    assert EncodeAll(ps) + [] == EncodeAll(ps);
  }

  lemma FrameRoundTripPy(c: Py.Client, f: Frame)
    requires R.PyFresh(c.reader) && !c.frames.raised && Sendable(f)
    ensures var d := Py.ClientRun(c, EncodeFrame(f));
            && d.frames == Py.Gathered(Py.Reassembler(0, []), c.frames.got + [f], false)
            && R.PyFresh(d.reader)
  {
    ClientGathers(c, EncodeFrame(f));
    PyPacketsRead(c.reader, FramePackets(f));
    PyWholeFrame(c.frames, f);
  }

  lemma PyWholeFrame(g: Py.Gathered, f: Frame)
    requires !g.raised && Sendable(f)
    ensures Py.GatherAll(g, FramePackets(f)) == Py.Gathered(Py.Reassembler(0, []), g.got + [f], false)
  {
    var ps := FramePackets(f);
    PyFrame(g, f, |ps|);
    assert ps[..|ps|] == ps;
  }

  lemma PyPacketsRead(q: Py.Reader, ps: seq<Packet>)
    requires R.PyFresh(q) && NonEmpty(ps)
    ensures var s := R.PyRun(q, EncodeAll(ps)); s.packets == ps && R.PyFresh(s.reader)
  {
    SplitOfPackets(ps);
    R.SealedAreHanded(ps);
    R.PyRunFollowsSplit(q, EncodeAll(ps));
    R.SealedAreLive(ps);
  }

  lemma FrameRoundTripC(r: T.Reader, buf: S.Buffer, g: C.Gathered, f: Frame)
    requires S.Holds(r, buf, []) && C.Valid(g.asm) && Sendable(f)
    ensures var s := S.Run(r, buf, EncodeFrame(f)); var h := C.GatherAll(g, S.Handed(s.events));
            h.saved == g.saved + [f] && !h.asm.active && S.Holds(s.reader, s.buf, [])
  {
    PacketsRead(r, buf, FramePackets(f));
    CWholeFrame(g, f);
  }

  lemma CWholeFrame(g: C.Gathered, f: Frame)
    requires C.Valid(g.asm) && Sendable(f)
    ensures var h := C.GatherAll(g, FramePackets(f)); h.saved == g.saved + [f] && !h.asm.active
  {
    var ps := FramePackets(f);
    CFrame(g, f, |ps|);
    assert ps[..|ps|] == ps;
  }

  lemma PacketsRead(r: T.Reader, buf: S.Buffer, ps: seq<Packet>)
    requires S.Holds(r, buf, []) && NonEmpty(ps)
    ensures var s := S.Run(r, buf, EncodeAll(ps));
            S.Handed(s.events) == ps && S.Holds(s.reader, s.buf, [])
  {
    SplitOfPackets(ps);
    S.RunFollowsSplit(r, buf, [], EncodeAll(ps));
    assert [] + EncodeAll(ps) == EncodeAll(ps);
    VerdictsOfSealed(ps);
    R.SealedAreHanded(ps);
  }

  lemma {:induction false} PacketsOfFramesNonEmpty(fs: seq<Frame>)
    ensures NonEmpty(PacketsOf(fs))
    decreases |fs|
  {
    if fs == [] {
    } else {
      PacketsOfFramesNonEmpty(fs[1..]);
    }
  }
}
