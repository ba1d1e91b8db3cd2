/**
 The two programs that put frames together again, compared with the packets of a frame,
 with the history of a connection, and with each other.
 */
module FrameAssembly {
  import opened Bytes
  import opened Tlv
  import opened FrameCodec
  import C = FrameReceiver
  import Py = AiReceiver

  // ---- feeding packet lists in parts ----

  lemma {:induction false} PyConcat(g: Py.Gathered, ps: seq<Packet>, qs: seq<Packet>)
    ensures Py.GatherAll(g, ps + qs) == Py.GatherAll(Py.GatherAll(g, ps), qs)
    decreases |qs|
  {
    if qs == [] {
      assert ps + qs == ps;
    } else {
      PyConcat(g, ps, qs[..|qs| - 1]);
      assert (ps + qs)[..|ps + qs| - 1] == ps + qs[..|qs| - 1];
    }
  }

  lemma PyOne(g: Py.Gathered, p: Packet)
    ensures Py.GatherAll(g, [p]) == Py.Gather(g, p)
  {
    assert [p][..0] == [];
  }

  lemma PyCons(g: Py.Gathered, p: Packet, ps: seq<Packet>)
    ensures Py.GatherAll(g, [p] + ps) == Py.GatherAll(Py.Gather(g, p), ps)
  {
    PyConcat(g, [p], ps);
    PyOne(g, p);
  }

  lemma CCons(g: C.Gathered, p: Packet, ps: seq<Packet>)
    requires C.Valid(g.asm)
    ensures C.GatherAll(g, [p] + ps) == C.GatherAll(C.Gather(g, p), ps)
  {
    C.GatherConcat(g, [p], ps);
    C.GatherOne(g, p);
  }

  // ---- one frame, there and back ----

  lemma FirstChunk(f: Frame, j: nat) returns (p: Packet, rest: Frame)
    requires f != [] && 0 < j <= |Chunks(f)|
    ensures p.tag == FRAME_DATA && p.value != [] && p.value + rest == f
    ensures |Chunks(f)| == 1 + |Chunks(rest)| && Chunks(f)[..j] == [p] + Chunks(rest)[..j - 1]
    ensures rest == [] ==> Chunks(f)[..j] == [p] && Chunks(rest)[..j - 1] == [] && p.value == f
  {
    p, rest := Packet(FRAME_DATA, f[..ChunkSize(f)]), f[ChunkSize(f)..];
  }

  /** The chunks still to come complete the frame with the last one and not before. */
  lemma {:induction false} PyChunks(g: Py.Gathered, f: Frame, j: nat)
    requires f != [] && j <= |Chunks(f)|
    requires !g.raised && g.asm.expectedSize == |g.asm.buffer| + |f|
    ensures var h := Py.GatherAll(g, Chunks(f)[..j]);
            if j < |Chunks(f)| then h.got == g.got && !h.raised
            else h == Py.Gathered(Py.Reassembler(0, []), g.got + [g.asm.buffer + f], false)
    decreases |f|
  {
    if j == 0 {
    } else {
      var p, rest := FirstChunk(f, j);
      PyCons(g, p, Chunks(rest)[..j - 1]);
      if rest == [] {
        assert (g.asm.buffer + f)[..g.asm.expectedSize] == g.asm.buffer + f;
      } else {
        assert f == p.value + rest;
        ConcatAssociative(g.asm.buffer, p.value, rest);
        PyChunks(Py.Gather(g, p), rest, j - 1);
      }
    }
  }

  lemma PyFrame(g: Py.Gathered, f: Frame, j: nat)
    requires 0 < |f| < 0x1_0000_0000 && j <= |FramePackets(f)| && !g.raised
    ensures var h := Py.GatherAll(g, FramePackets(f)[..j]);
            if j < |FramePackets(f)| then h.got == g.got && !h.raised
            else h == Py.Gathered(Py.Reassembler(0, []), g.got + [f], false)
  {
    if j > 0 {
      var p := StartPacket(|f|);
      FrameStartsWith(f, j);
      PyConcat(g, [p], Chunks(f)[..j - 1]);
      PyOne(g, p);
      Be32RoundTrip(|f|);
      PyChunks(Py.Gather(g, p), f, j - 1);
      assert [] + f == f;
    }
  }

  /** The bytes so far stand at the front of the C assembly's array. */
  predicate CHolding(a: C.Assembly, b: seq<byte>) {
    && C.Valid(a) && a.active
    && a.received == |b| && a.data[..a.received] == b
  }

  lemma CCopies(a: C.Assembly, b: seq<byte>, v: seq<byte>)
    requires CHolding(a, b) && a.total <= MAX_FRAME
    ensures var c := C.OnData(a, v);
            var n := if |v| > a.total - |b| then a.total - |b| else |v|;
            c.received == |b| + n && c.data[..c.received] == b + v[..n]
  {
  }

  lemma CTakesChunk(g: C.Gathered, b: seq<byte>, p: Packet, rest: Frame)
    requires p.tag == FRAME_DATA && p.value != []
    requires CHolding(g.asm, b) && g.asm.total == |b| + |p.value| + |rest| <= MAX_FRAME
    ensures var h := C.Gather(g, p);
            if rest == [] then h.saved == g.saved + [b + p.value] && !h.asm.active
            else h.saved == g.saved && CHolding(h.asm, b + p.value) && h.asm.total == g.asm.total
  {
    CCopies(g.asm, b, p.value);
    assert p.value[..|p.value|] == p.value;
  }

  lemma {:induction false} CChunks(g: C.Gathered, b: seq<byte>, f: Frame, j: nat)
    requires f != [] && j <= |Chunks(f)|
    requires CHolding(g.asm, b) && g.asm.total == |b| + |f| <= MAX_FRAME
    ensures var h := C.GatherAll(g, Chunks(f)[..j]);
            if j < |Chunks(f)| then h.saved == g.saved
            else h.saved == g.saved + [b + f] && !h.asm.active
    decreases |f|
  {
    if j == 0 {
    } else {
      var p, rest := FirstChunk(f, j);
      CCons(g, p, Chunks(rest)[..j - 1]);
      CTakesChunk(g, b, p, rest);
      if rest != [] {
        ConcatAssociative(b, p.value, rest);
        CChunks(C.Gather(g, p), b + p.value, rest, j - 1);
      }
    }
  }

  lemma CFrame(g: C.Gathered, f: Frame, j: nat)
    requires 0 < |f| <= 614400 && j <= |FramePackets(f)| && C.Valid(g.asm)
    ensures var h := C.GatherAll(g, FramePackets(f)[..j]);
            if j < |FramePackets(f)| then h.saved == g.saved
            else h.saved == g.saved + [f] && !h.asm.active
  {
    if j > 0 {
      var p := StartPacket(|f|);
      FrameStartsWith(f, j);
      C.GatherConcat(g, [p], Chunks(f)[..j - 1]);
      C.GatherOne(g, p);
      CStarts(g, |f|);
      CChunks(C.Gather(g, p), [], f, j - 1);
      assert [] + f == f;
    }
  }

  lemma FrameStartsWith(f: Frame, j: nat)
    requires 0 < j <= |FramePackets(f)|
    ensures FramePackets(f)[..j] == [StartPacket(|f|)] + Chunks(f)[..j - 1]
    ensures |FramePackets(f)| == 1 + |Chunks(f)|
  {
  }

  lemma CStarts(g: C.Gathered, n: nat)
    requires 0 < n <= MAX_FRAME && C.Valid(g.asm)
    ensures var h := C.Gather(g, StartPacket(n));
            h.saved == g.saved && CHolding(h.asm, []) && h.asm.total == n
  {
    Be32RoundTrip(n);
  }

  // ---- no holes: the C receiver against the history of its connection ----

  predicate IsStart(p: Packet) {
    p.tag == FRAME_START && |p.value| >= 4
  }

  /** The latest packet that begins a frame, or -1. */
  function LastStart(ps: seq<Packet>): (j: int)
    ensures -1 <= j < |ps|
    ensures j >= 0 ==> IsStart(ps[j])
    ensures forall i :: j < i < |ps| ==> !IsStart(ps[i])
    decreases |ps|
  {
    if ps == [] then -1
    else if IsStart(ps[|ps| - 1]) then |ps| - 1
    else LastStart(ps[..|ps| - 1])
  }

  /** All FRAME_DATA bytes of some packets, in order. */
  function DataOf(ps: seq<Packet>): seq<byte>
    decreases |ps|
  {
    if ps == [] then [] else
    var p := ps[|ps| - 1];
    DataOf(ps[..|ps| - 1]) + if p.tag == FRAME_DATA then p.value else []
  }

  /** The declared total of the frame in progress, and its data so far. */
  datatype Story = NoStart | Since(total: nat, bytes: seq<byte>)

  function Tell(ps: seq<Packet>): Story {
    var j := LastStart(ps);
    if j < 0 then NoStart else Since(Be32(ps[j].value), DataOf(ps[j + 1..]))
  }

  lemma TellSnoc(ps: seq<Packet>, p: Packet)
    ensures Tell(ps + [p]) ==
            if IsStart(p) then Since(Be32(p.value), [])
            else if p.tag == FRAME_DATA && Tell(ps).Since?
            then Since(Tell(ps).total, Tell(ps).bytes + p.value)
            else Tell(ps)
  {
    LastStartSnoc(ps, p);
    if IsStart(p) {
      TellStart(ps, p);
    } else if LastStart(ps) >= 0 {
      DataSince(ps, p, LastStart(ps));
    }
  }

  lemma TellStart(ps: seq<Packet>, p: Packet)
    requires IsStart(p) && LastStart(ps + [p]) == |ps|
    ensures Tell(ps + [p]) == Since(Be32(p.value), [])
  {
    assert (ps + [p])[|ps|] == p;
    assert (ps + [p])[|ps| + 1..] == [];
  }

  lemma DataSince(ps: seq<Packet>, p: Packet, j: nat)
    requires j < |ps|
    ensures (ps + [p])[j] == ps[j]
    ensures DataOf((ps + [p])[j + 1..]) ==
            if p.tag == FRAME_DATA then DataOf(ps[j + 1..]) + p.value else DataOf(ps[j + 1..])
  {
    assert (ps + [p])[j + 1..] == ps[j + 1..] + [p];
    DataOfSnoc(ps[j + 1..], p);
  }

  lemma LastStartSnoc(ps: seq<Packet>, p: Packet)
    ensures LastStart(ps + [p]) == if IsStart(p) then |ps| else LastStart(ps)
  {
    assert (ps + [p])[..|ps|] == ps;
  }

  lemma DataOfSnoc(ps: seq<Packet>, p: Packet)
    ensures DataOf(ps + [p]) == if p.tag == FRAME_DATA then DataOf(ps) + p.value else DataOf(ps)
  {
    assert (ps + [p])[..|ps|] == ps;
    assert DataOf(ps) + [] == DataOf(ps);
  }

  /** A frame of declared total t is open after the bytes b: it would be saved with enough more. */
  predicate Open(t: nat, b: seq<byte>) {
    b == [] || |b| < t
  }

  /** The assembly agrees with the story of the packets so far. */
  predicate Consistent(a: C.Assembly, story: Story) {
    C.Valid(a) &&
    match story
    case NoStart => !a.active
    case Since(t, b) =>
      if t <= MAX_FRAME then
        (a.active <==> Open(t, b)) && (a.active ==> a.total == t && CHolding(a, b))
      else a.active && a.total == t
  }

  /** What the next packet must save, told from the history alone. */
  function Due(story: Story, p: Packet): seq<Frame> {
    if p.tag == FRAME_DATA && story.Since? && story.total <= MAX_FRAME
       && Open(story.total, story.bytes) && |story.bytes + p.value| >= story.total
    then [(story.bytes + p.value)[..story.total]]
    else []
  }

  lemma PacketKeepsStory(g: C.Gathered, ps: seq<Packet>, p: Packet)
    requires Consistent(g.asm, Tell(ps)) && p.value != []
    ensures C.Gather(g, p).saved == g.saved + Due(Tell(ps), p)
    ensures Consistent(C.Gather(g, p).asm, Tell(ps + [p]))
  {
    TellSnoc(ps, p);
    if p.tag == FRAME_DATA && g.asm.active && g.asm.total <= MAX_FRAME {
      CCopies(g.asm, Tell(ps).bytes, p.value);
      DataKeepsStory(g, Tell(ps), p);
    }
  }

  lemma DataKeepsStory(g: C.Gathered, story: Story, p: Packet)
    requires p.tag == FRAME_DATA && p.value != []
    requires story.Since? && story.total <= MAX_FRAME && g.asm.active && Consistent(g.asm, story)
    ensures C.Gather(g, p).saved == g.saved + Due(story, p)
    ensures Consistent(C.Gather(g, p).asm, Since(story.total, story.bytes + p.value))
  {
    var t, b, v, a := story.total, story.bytes, p.value, g.asm;
    CCopies(a, b, v);
    var n := if |v| > t - |b| then t - |b| else |v|;
    assert |b + v| >= t ==> b + v[..n] == (b + v)[..t];
    assert |b + v| < t ==> v[..n] == v;
  }

  /**
   No holes, ever: whatever packets arrive, in whatever order and size, a packet makes the C receiver
   save a frame if and only if it completes a frame of at most MAX_FRAME bytes that is still open,
   and what is saved is exactly the first declared-total bytes sent since that frame's start.
   */
  lemma {:induction false} NoHoles(g: C.Gathered, ps: seq<Packet>, p: Packet)
    requires C.Valid(g.asm) && !g.asm.active && NonEmpty(ps) && p.value != []
    ensures Consistent(C.GatherAll(g, ps).asm, Tell(ps))
    ensures C.GatherAll(g, ps + [p]).saved == C.GatherAll(g, ps).saved + Due(Tell(ps), p)
    decreases |ps|
  {
    if ps == [] {
    } else {
      var init, last := ps[..|ps| - 1], ps[|ps| - 1];
      assert ps == init + [last];
      NoHoles(g, init, last);
      PacketKeepsStory(C.GatherAll(g, init), init, last);
    }
    C.GatherSnoc(g, ps, p);
    PacketKeepsStory(C.GatherAll(g, ps), ps, p);
  }

  /** The four bytes at the front, the highest first. */
  function Total(v: seq<byte>): nat
    requires |v| >= 4
  {
    v[0] as nat * 16777216 + v[1] as nat * 65536 + v[2] as nat * 256 + v[3] as nat
  }

  /** The values of tag 0x20 behind packet j, joined. */
  function DataBehind(ps: seq<Packet>, j: nat): seq<byte> {
    if j + 1 >= |ps| then [] else
    var p := ps[|ps| - 1];
    DataBehind(ps[..|ps| - 1], j) + if p.tag == 0x20 then p.value else []
  }

  lemma {:induction false} DataBehindIs(ps: seq<Packet>, j: nat)
    requires j < |ps|
    ensures DataBehind(ps, j) == DataOf(ps[j + 1..])
    decreases |ps|
  {
    if j + 1 == |ps| {
    } else {
      var init, p := ps[..|ps| - 1], ps[|ps| - 1];
      DataBehindIs(init, j);
      assert ps[j + 1..] == init[j + 1..] + [p];
      DataOfSnoc(init[j + 1..], p);
    }
  }

  lemma {:induction false} LatestStart(ps: seq<Packet>, j: nat)
    requires j < |ps| && ps[j].tag == 0x22 && |ps[j].value| >= 4
    requires forall i :: j < i < |ps| ==> !(ps[i].tag == 0x22 && |ps[i].value| >= 4)
    ensures LastStart(ps) == j
    decreases |ps|
  {
    if j == |ps| - 1 {
    } else {
      LatestStart(ps[..|ps| - 1], j);
    }
  }

  /**
   The same in plain numbers. Packet j, of tag 0x22 and at least four bytes, is the latest that declares a
   total; the next packet p saves a frame exactly if its tag is 0x20, the total is at most 614400, not all
   of it was there before (or nothing at all), and now it is; and what is saved is its first total bytes.
   */
  lemma SavedExactly(g: C.Gathered, ps: seq<Packet>, j: nat, p: Packet)
    requires C.Valid(g.asm) && !g.asm.active && NonEmpty(ps) && p.value != []
    requires j < |ps| && ps[j].tag == 0x22 && |ps[j].value| >= 4
    requires forall i :: j < i < |ps| ==> !(ps[i].tag == 0x22 && |ps[i].value| >= 4)
    ensures var total, b := Total(ps[j].value), DataBehind(ps, j);
            C.GatherAll(g, ps + [p]).saved ==
            C.GatherAll(g, ps).saved +
            if p.tag == 0x20 && total <= 614400 && (b == [] || |b| < total) && |b| + |p.value| >= total
            then [(b + p.value)[..total]] else []
  {
    NoHoles(g, ps, p);
    StoryInPlainNumbers(ps, j);
    DueInPlainNumbers(Total(ps[j].value), DataBehind(ps, j), p);
  }

  lemma StoryInPlainNumbers(ps: seq<Packet>, j: nat)
    requires j < |ps| && ps[j].tag == 0x22 && |ps[j].value| >= 4
    requires forall i :: j < i < |ps| ==> !(ps[i].tag == 0x22 && |ps[i].value| >= 4)
    ensures Tell(ps) == Since(Total(ps[j].value), DataBehind(ps, j))
  {
    LatestStart(ps, j);
    DataBehindIs(ps, j);
    TotalIs(ps[j].value);
    TellFrom(ps, j);
  }

  lemma TellFrom(ps: seq<Packet>, j: nat)
    requires LastStart(ps) == j
    ensures Tell(ps) == Since(Be32(ps[j].value), DataOf(ps[j + 1..]))
  {
  }

  lemma TotalIs(v: seq<byte>)
    requires |v| >= 4
    ensures Be32(v) == Total(v)
  {
  }

  lemma DueInPlainNumbers(total: nat, b: seq<byte>, p: Packet)
    ensures Due(Since(total, b), p) ==
            if p.tag == 0x20 && total <= 614400 && (b == [] || |b| < total) && |b| + |p.value| >= total
            then [(b + p.value)[..total]] else []
  {
  }

  /** Before any packet declared a total nothing is saved. */
  lemma NothingSavedBeforeStart(g: C.Gathered, ps: seq<Packet>, p: Packet)
    requires C.Valid(g.asm) && !g.asm.active && NonEmpty(ps) && p.value != []
    requires forall i :: 0 <= i < |ps| ==> !(ps[i].tag == 0x22 && |ps[i].value| >= 4)
    ensures C.GatherAll(g, ps + [p]).saved == C.GatherAll(g, ps).saved
  {
    NoHoles(g, ps, p);
    NoStartYet(ps);
  }

  lemma {:induction false} NoStartYet(ps: seq<Packet>)
    requires forall i :: 0 <= i < |ps| ==> !(ps[i].tag == 0x22 && |ps[i].value| >= 4)
    ensures LastStart(ps) == -1
    decreases |ps|
  {
    if ps == [] {
    } else {
      NoStartYet(ps[..|ps| - 1]);
    }
  }

  /** The branch that skips a copy, and so leaves a hole, is taken only for totals that are never saved. */
  lemma SkippedCopyIsNeverSaved(g: C.Gathered, ps: seq<Packet>, p: Packet)
    requires C.Valid(g.asm) && !g.asm.active && NonEmpty(ps) && p.value != []
    requires var a := C.GatherAll(g, ps).asm; a.active && a.received + C.CopySize(a, |p.value|) > MAX_FRAME
    ensures Tell(ps).Since? && Tell(ps).total > MAX_FRAME
  {
    NoHoles(g, ps, p);
  }

  // ---- the Python reassembler against the history of its connection ----

  predicate BadStart(p: Packet) {
    p.tag == 0x22 && |p.value| != 4
  }

  /** The thread of a connection is ended by the first start that does not carry four bytes, and only by that. */
  lemma {:induction false} RaisesIff(g: Py.Gathered, ps: seq<Packet>)
    requires !g.raised
    ensures Py.GatherAll(g, ps).raised <==> exists i :: 0 <= i < |ps| && BadStart(ps[i])
    decreases |ps|
  {
    if ps == [] {
    } else {
      var n := |ps| - 1;
      RaisesIff(g, ps[..n]);
      assert BadStart(ps[n]) ==> exists i :: 0 <= i < |ps| && BadStart(ps[i]);
      forall i | 0 <= i < n ensures BadStart(ps[..n][i]) <==> BadStart(ps[i]) {
      }
    }
  }

  /** Once ended it stays as it was, whatever arrives. */
  lemma {:induction false} EndedForGood(c: Py.Client, data: seq<byte>)
    requires Py.Valid(c.reader) && c.frames.raised
    ensures Py.ClientRun(c, data) == c
    decreases |data|
  {
    if data == [] {
    } else {
      EndedForGood(c, data[..|data| - 1]);
    }
  }

  /** What the reassembler holds after the data b behind a start that declared total bytes. */
  predicate PyHolding(a: Py.Reassembler, total: nat, b: seq<byte>) {
    if |b| < total then a == Py.Reassembler(total, b) else a.expectedSize == 0
  }

  lemma PyHoldsOn(g: Py.Gathered, total: nat, b: seq<byte>, p: Packet)
    requires !g.raised && PyHolding(g.asm, total, b) && p.tag != 0x22
    ensures var h := Py.Gather(g, p);
            && !h.raised && PyHolding(h.asm, total, if p.tag == 0x20 then b + p.value else b)
            && h.got == g.got + if p.tag == 0x20 && |b| < total <= |b| + |p.value| then [(b + p.value)[..total]] else []
  {
  }

  lemma {:induction false} PyHoldsBehind(g: Py.Gathered, ps: seq<Packet>, j: nat)
    requires !g.raised && j < |ps| && forall i :: 0 <= i < |ps| ==> !BadStart(ps[i])
    requires ps[j].tag == 0x22 && |ps[j].value| == 4 && forall i :: j < i < |ps| ==> ps[i].tag != 0x22
    ensures var h := Py.GatherAll(g, ps);
            !h.raised && PyHolding(h.asm, Total(ps[j].value), DataBehind(ps, j))
    decreases |ps|
  {
    var init, p := ps[..|ps| - 1], ps[|ps| - 1];
    if j == |ps| - 1 {
      NoBadStart(g, init);
      assert !BadStart(p);
      TotalIs(p.value);
    } else {
      PyHoldsBehind(g, init, j);
      PyHoldsOn(Py.GatherAll(g, init), Total(ps[j].value), DataBehind(init, j), p);
      assert DataBehind(init, j) + [] == DataBehind(init, j);
    }
  }

  lemma NoBadStart(g: Py.Gathered, ps: seq<Packet>)
    requires !g.raised && forall i :: 0 <= i < |ps| ==> !BadStart(ps[i])
    ensures !Py.GatherAll(g, ps).raised
  {
    RaisesIff(g, ps);
  }

  /**
   Whatever packets arrived, if no start was bad: behind the latest start, packet j, a packet delivers a
   frame exactly if its tag is 0x20 and it brings the data since that start up to the declared total, and
   what is delivered is the first total bytes of that data.
   */
  lemma DeliveredExactly(g: Py.Gathered, ps: seq<Packet>, j: nat, p: Packet)
    requires !g.raised && j < |ps| && forall i :: 0 <= i < |ps| ==> !BadStart(ps[i])
    requires ps[j].tag == 0x22 && |ps[j].value| == 4 && forall i :: j < i < |ps| ==> ps[i].tag != 0x22
    requires p.tag != 0x22
    ensures var total, b := Total(ps[j].value), DataBehind(ps, j);
            Py.GatherAll(g, ps + [p]).got ==
            Py.GatherAll(g, ps).got +
            if p.tag == 0x20 && |b| < total <= |b| + |p.value| then [(b + p.value)[..total]] else []
  {
    PyHoldsBehind(g, ps, j);
    PyHoldsOn(Py.GatherAll(g, ps), Total(ps[j].value), DataBehind(ps, j), p);
    PyConcat(g, ps, [p]);
    PyOne(Py.GatherAll(g, ps), p);
  }

  // ---- the two reassemblers against each other ----

  /** What the sender of frames sends: a start declares 1 to MAX_FRAME bytes in four, data is not empty. */
  predicate Usual(p: Packet) {
    && (p.tag == FRAME_START ==> |p.value| == 4 && 1 <= Be32(p.value) <= MAX_FRAME)
    && (p.tag == FRAME_DATA ==> p.value != [])
  }

  predicate Coupled(g: C.Gathered, h: Py.Gathered) {
    && C.Valid(g.asm) && !h.raised && g.saved == h.got
    && (g.asm.active <==> h.asm.expectedSize > 0)
    && (g.asm.active ==> g.asm.total == h.asm.expectedSize <= MAX_FRAME && CHolding(g.asm, h.asm.buffer))
  }

  lemma CoupledStep(g: C.Gathered, h: Py.Gathered, p: Packet)
    requires Coupled(g, h) && Usual(p)
    ensures Coupled(C.Gather(g, p), Py.Gather(h, p))
  {
    if p.tag == FRAME_DATA && g.asm.active {
      var b, v, t := h.asm.buffer, p.value, g.asm.total;
      CCopies(g.asm, b, v);
      var n := if |v| > t - |b| then t - |b| else |v|;
      assert |b + v| >= t ==> b + v[..n] == (b + v)[..t];
      assert |b + v| < t ==> v[..n] == v;
    }
  }

  /** In any order of usual packets both reassemblers deliver the same frames at the same packets. */
  lemma {:induction false} ReassemblersAgree(g: C.Gathered, h: Py.Gathered, ps: seq<Packet>)
    requires Coupled(g, h) && forall i :: 0 <= i < |ps| ==> Usual(ps[i])
    ensures Coupled(C.GatherAll(g, ps), Py.GatherAll(h, ps))
    ensures C.GatherAll(g, ps).saved == Py.GatherAll(h, ps).got
    decreases |ps|
  {
    if ps == [] {
    } else {
      ReassemblersAgree(g, h, ps[..|ps| - 1]);
      CoupledStep(C.GatherAll(g, ps[..|ps| - 1]), Py.GatherAll(h, ps[..|ps| - 1]), ps[|ps| - 1]);
    }
  }

  predicate AllData(ps: seq<Packet>) {
    forall i :: 0 <= i < |ps| ==> ps[i].tag == FRAME_DATA && ps[i].value != []
  }

  predicate SameFrames(g: C.Gathered, h: Py.Gathered, ps: seq<Packet>)
    requires C.Valid(g.asm)
  {
    C.GatherAll(g, ps).saved == Py.GatherAll(h, ps).got && !Py.GatherAll(h, ps).raised
  }

  lemma {:induction false} OversizeNeverSaves(g: C.Gathered, ps: seq<Packet>)
    requires C.Valid(g.asm) && g.asm.active && g.asm.total > MAX_FRAME && AllData(ps)
    ensures var h := C.GatherAll(g, ps);
            h.saved == g.saved && h.asm.active && h.asm.total == g.asm.total
    decreases |ps|
  {
    if ps == [] {
    } else {
      OversizeNeverSaves(g, ps[..|ps| - 1]);
    }
  }

  /** Data that tells the two reassemblers apart after a start that is not usual. */
  lemma StartTellsApart(g: C.Gathered, h: Py.Gathered, start: Packet) returns (ds: seq<Packet>)
    requires start.tag == FRAME_START && !Usual(start)
    requires Coupled(g, h)
    ensures AllData(ds) && !SameFrames(g, h, [start] + ds)
  {
    C.GatherOne(g, start);
    PyOne(h, start);
    if |start.value| != 4 {
      ds := [];
      assert [start] + [] == [start];
    } else if Be32(start.value) == 0 {
      var p := Packet(FRAME_DATA, [0]);
      ds := [p];
      C.GatherConcat(g, [start], [p]);
      PyConcat(h, [start], [p]);
      C.GatherOne(C.Gather(g, start), p);
      PyOne(Py.Gather(h, start), p);
    } else {
      var f: Frame := seq(Be32(start.value), _ => 0);
      ds := Chunks(f);
      C.GatherConcat(g, [start], ds);
      PyConcat(h, [start], ds);
      OversizeNeverSaves(C.Gather(g, start), ds);
      PyChunks(Py.Gather(h, start), f, |ds|);
      assert ds[..|ds|] == ds;
    }
  }

  /**
   After a start packet both reassemblers deliver the same frames, whatever data follows,
   if and only if the packet declares 1 to MAX_FRAME bytes in exactly four.
   */
  lemma StartAgreesIff(g: C.Gathered, h: Py.Gathered, start: Packet)
    requires start.tag == FRAME_START && Coupled(g, h)
    ensures (forall ds :: AllData(ds) ==> SameFrames(g, h, [start] + ds)) <==>
            |start.value| == 4 && 1 <= Be32(start.value) <= 614400
  {
    if Usual(start) {
      forall ds | AllData(ds) ensures SameFrames(g, h, [start] + ds) {
        ReassemblersAgree(g, h, [start] + ds);
      }
    } else {
      var ds := StartTellsApart(g, h, start);
      assert AllData(ds);
    }
  }
}
