/**
 What the C stream reader reports, byte by byte, compared with the wire format.
 Every caller in the repository feeds one byte at a time, with a value buffer
 of at least MAX_VALUE bytes that it owns.
 */
module StreamReading {
  import opened Bytes
  import opened Tlv
  import opened TlvProtocol

  datatype RunResult = RunResult(reader: Reader, buf: seq<byte>, events: seq<Event>)

  type Buffer = b: seq<byte> | |b| >= MAX_VALUE witness seq(MAX_VALUE, _ => 0)

  /** The report of one completed packet, as a caller reads it from ret, *tag and the buffer. */
  function Report(o: Outcome, buf: Buffer): (es: seq<Event>)
    requires o.Returns? ==> -1 <= o.ret <= MAX_VALUE
  {
    match o
    case ReadsOn => []
    case Returns(tag, ret) => [if ret == -1 then Rejected(tag) else Accepted(Packet(tag, buf[..ret]))]
  }

  /** Feeding data one byte at a time with one buffer that nobody else writes. */
  function Run(r: Reader, buf: Buffer, data: seq<byte>): (s: RunResult)
    requires Valid(r)
    ensures Valid(s.reader) && |s.buf| == |buf|
  {
    if data == [] then RunResult(r, buf, []) else
    var before := Run(r, buf, data[..|data| - 1]);
    var s := Step(before.reader, before.buf, data[|data| - 1]);
    RunResult(s.reader, s.buf, before.events + Report(s.outcome, s.buf))
  }

  /** The reader's fields and the value buffer hold exactly the bytes rest of an unfinished packet. */
  predicate Holds(r: Reader, buf: Buffer, rest: seq<byte>) {
    && Valid(r)
    && Incomplete(rest)
    && r.headerPos == (if |rest| < HEADER_SIZE then |rest| else HEADER_SIZE)
    && r.header[..r.headerPos] == rest[..r.headerPos]
    && if |rest| < HEADER_SIZE then r.phase.HEADER? else
         && r.phase == (if |rest| - HEADER_SIZE < LenField(rest) then BODY else CRC)
         && r.bodyPos == |rest| - HEADER_SIZE
         && buf[..r.bodyPos] == rest[HEADER_SIZE..]
  }

  /** Every valid state holds some unfinished packet. */
  function Pending(r: Reader, buf: Buffer): (rest: seq<byte>)
    requires Valid(r)
    ensures Holds(r, buf, rest)
  {
    if r.phase.HEADER? then r.header[..r.headerPos] else
      assert (r.header + buf[..r.bodyPos])[..HEADER_SIZE] == r.header;
      r.header + buf[..r.bodyPos]
  }

  lemma ExpectedIsChecksum(r: Reader, buf: Buffer)
    requires r.bodyPos <= MAX_VALUE
    ensures Expected(r, buf) == Checksum(r.tag, buf[..r.bodyPos])
  {
    var seen := if r.bodyPos < |buf| then r.bodyPos else |buf|;
    assert seen == r.bodyPos;
    assert seen % 0x1_0000 == seen;
  }

  lemma StepCompletes(r: Reader, buf: Buffer, rest: seq<byte>, x: byte)
    requires Holds(r, buf, rest) && !Incomplete(rest + [x])
    ensures HeadSize(rest + [x]) == |rest + [x]|
    ensures var s := Step(r, buf, x);
            Holds(s.reader, s.buf, []) && Report(s.outcome, s.buf) == [Verdict(HeadUnit(rest + [x]))]
  {
    var b := rest + [x];
    assert b[..HEADER_SIZE] == rest[..HEADER_SIZE] == r.header;
    assert LenField(b) == LenField(rest) == r.len;
    assert |b| == FRAME_OVERHEAD + r.len;
    assert r.phase.CRC? && b[HEADER_SIZE..|b| - 1] == rest[HEADER_SIZE..];
    var u := Unit(r.tag, buf[..r.len], x);
    assert HeadUnit(b) == u;
    ExpectedIsChecksum(r, buf);
    assert Step(r, buf, x).outcome == Returns(r.tag, if Sound(u) then r.len else -1);
  }

  lemma StepReadsOn(r: Reader, buf: Buffer, rest: seq<byte>, x: byte)
    requires Holds(r, buf, rest) && Incomplete(rest + [x])
    ensures var s := Step(r, buf, x);
            s.outcome.ReadsOn? && Holds(s.reader, s.buf, rest + [x])
  {
    var b := rest + [x];
    var s := Step(r, buf, x);
    if |rest| < HEADER_SIZE {
      assert r.header[r.headerPos := x][..|b|] == b;
    } else {
      assert b[..HEADER_SIZE] == rest[..HEADER_SIZE] == r.header;
      assert LenField(b) == LenField(rest);
      assert s.buf[..r.bodyPos + 1] == buf[..r.bodyPos] + [x];
      assert b[HEADER_SIZE..] == rest[HEADER_SIZE..] + [x];
    }
  }

  lemma VerdictsSnoc(us: seq<Unit>, u: Unit)
    ensures Verdicts(us + [u]) == Verdicts(us) + [Verdict(u)]
  {
  }

  lemma CompletedUnitFills(rest: seq<byte>, x: byte)
    requires Incomplete(rest) && !Incomplete(rest + [x])
    ensures HeadSize(rest + [x]) == |rest + [x]|
    ensures UnitBytes(HeadUnit(rest + [x])) == rest + [x]
  {
    var b := rest + [x];
    assert |rest| >= HEADER_SIZE && LenField(b) == LenField(rest);
    HeadUnitBytes(b);
    assert b[..|b|] == b;
  }

  lemma FlattenSnoc(us: seq<Unit>, u: Unit)
    ensures Flatten(us + [u]) == Flatten(us) + UnitBytes(u)
  {
    FlattenConcat(us, [u]);
    FlattenCons(u, []);
    assert [u] + [] == [u];
    assert UnitBytes(u) + [] == UnitBytes(u);
  }

  /** One more byte either extends the unfinished packet or completes it. */
  lemma SplitOneMore(us: seq<Unit>, rest: seq<byte>, x: byte)
    requires Incomplete(rest)
    ensures var last := rest + [x];
            Split(Flatten(us) + last) ==
            if Incomplete(last) then Parse(us, last) else Parse(us + [HeadUnit(last)], [])
  {
    var last := rest + [x];
    if Incomplete(last) {
      SplitIsUnique(us, last);
    } else {
      CompletedUnitFills(rest, x);
      FlattenSnoc(us, HeadUnit(last));
      var all := us + [HeadUnit(last)];
      assert Flatten(all) + [] == Flatten(us) + last;
      SplitIsUnique(all, []);
    }
  }

  lemma Regroup(a: seq<byte>, b: seq<byte>, c: seq<byte>, d: seq<byte>, x: byte)
    requires a + b == c + d
    ensures a + (b + [x]) == c + (d + [x])
  {
    ConcatAssociative(a, b, [x]);
    ConcatAssociative(c, d, [x]);
  }

  /** One byte takes a reader that has followed the split so far to one that still does. */
  lemma StepFollowsSplit(r: Reader, buf: Buffer, us: seq<Unit>, rest: seq<byte>, x: byte)
    requires Holds(r, buf, rest)
    ensures var s := Step(r, buf, x); var q := Split(Flatten(us) + (rest + [x]));
            Verdicts(us) + Report(s.outcome, s.buf) == Verdicts(q.units) && Holds(s.reader, s.buf, q.rest)
  {
    SplitOneMore(us, rest, x);
    if Incomplete(rest + [x]) {
      StepReadsOn(r, buf, rest, x);
    } else {
      StepCompletes(r, buf, rest, x);
      VerdictsSnoc(us, HeadUnit(rest + [x]));
    }
  }

  /**
   The reader reports, for every byte stream and from every state, exactly the verdicts of the
   units into which the format splits the stream, and keeps exactly what the split leaves over.
   */
  lemma {:induction false} RunFollowsSplit(r: Reader, buf: Buffer, rest: seq<byte>, data: seq<byte>)
    requires Holds(r, buf, rest)
    ensures var s := Run(r, buf, data); var p := Split(rest + data);
            s.events == Verdicts(p.units) && Holds(s.reader, s.buf, p.rest)
  {
    if data == [] {
      assert rest + data == rest;
    } else {
      var init, x := data[..|data| - 1], data[|data| - 1];
      assert data == init + [x];
      RunFollowsSplit(r, buf, rest, init);
      var before, p := Run(r, buf, init), Split(rest + init);
      SplitCoversAllBytes(rest + init);
      StepFollowsSplit(before.reader, before.buf, p.units, p.rest, x);
      Regroup(Flatten(p.units), p.rest, rest, init, x);
    }
  }

  lemma EventsAssociative(a: seq<Event>, b: seq<Event>, c: seq<Event>)
    ensures (a + b) + c == a + (b + c)
  {
  }

  lemma {:induction false} RunConcat(r: Reader, buf: Buffer, a: seq<byte>, b: seq<byte>)
    requires Valid(r)
    ensures var s := Run(r, buf, a); var t := Run(s.reader, s.buf, b);
            Run(r, buf, a + b) == RunResult(t.reader, t.buf, s.events + t.events)
    decreases |b|
  {
    if b == [] {
      assert a + b == a;
      var s := Run(r, buf, a);
      assert s.events + [] == s.events;
    } else {
      var init, x := b[..|b| - 1], b[|b| - 1];
      assert (a + b)[..|a + b| - 1] == a + init;
      RunConcat(r, buf, a, init);
      var s := Run(r, buf, a);
      var t := Run(s.reader, s.buf, init);
      var last := Step(t.reader, t.buf, x);
      EventsAssociative(s.events, t.events, Report(last.outcome, last.buf));
    }
  }

  // ---- what a caller does with the reports ----

  /** What a C caller acts on: a return value above zero. */
  function Handed(es: seq<Event>): seq<Packet> {
    if es == [] then [] else
    var e := es[|es| - 1];
    Handed(es[..|es| - 1]) + if e.Accepted? && e.packet.value != [] then [e.packet] else []
  }

  lemma HandedReport(es: seq<Event>, o: Outcome, buf: Buffer)
    requires o.Returns? ==> -1 <= o.ret <= MAX_VALUE
    ensures Handed(es + Report(o, buf)) ==
            Handed(es) + if o.Returns? && o.ret > 0 then [Packet(o.tag, buf[..o.ret])] else []
  {
    if o.Returns? {
      var all := es + Report(o, buf);
      assert all[..|all| - 1] == es;
    } else {
      assert es + [] == es;
    }
  }

  lemma FeedOne(r: Reader, buf: Buffer, x: byte)
    requires Valid(r)
    ensures Feed(r, buf, [x]) == Step(r, buf, x)
  {
    assert [x][1..] == [];
  }

  /** What a caller's byte loop carries: the reader, the value buffer and the packets acted on so far. */
  datatype Session = Session(reader: Reader, buf: Buffer, handed: seq<Packet>)

  function SessionStep(c: Session, x: byte): (d: Session)
    requires Valid(c.reader)
    ensures Valid(d.reader) && c.handed <= d.handed
  {
    var s := Step(c.reader, c.buf, x);
    Session(s.reader, s.buf,
            c.handed + if s.outcome.Returns? && s.outcome.ret > 0
                       then [Packet(s.outcome.tag, s.buf[..s.outcome.ret])] else [])
  }

  function SessionRun(c: Session, input: seq<byte>): (d: Session)
    requires Valid(c.reader)
    ensures Valid(d.reader)
    decreases |input|
  {
    if input == [] then c else SessionStep(SessionRun(c, input[..|input| - 1]), input[|input| - 1])
  }

  /** One more round of the loop, seen from the bytes read so far. */
  lemma SessionGoesOn(c: Session, input: seq<byte>, i: nat)
    requires Valid(c.reader) && i < |input|
    ensures var d := SessionRun(c, input[..i]);
            var e := SessionStep(Session(d.reader, d.buf, []), input[i]);
            SessionRun(c, input[..i + 1]) == Session(e.reader, e.buf, d.handed + e.handed)
  {
    assert input[..i + 1][..i] == input[..i];
    StepAdds(SessionRun(c, input[..i]), input[i]);
  }

  lemma StepAdds(c: Session, x: byte)
    requires Valid(c.reader)
    ensures var e := SessionStep(Session(c.reader, c.buf, []), x);
            SessionStep(c, x) == Session(e.reader, e.buf, c.handed + e.handed)
  {
  }

  /** The byte loop acts on exactly the packets that the reader hands out. */
  lemma {:induction false} SessionHands(c: Session, input: seq<byte>)
    requires Valid(c.reader)
    ensures var s := Run(c.reader, c.buf, input);
            SessionRun(c, input) == Session(s.reader, s.buf, c.handed + Handed(s.events))
    decreases |input|
  {
    if input == [] {
      assert c.handed + [] == c.handed;
    } else {
      var init, x := input[..|input| - 1], input[|input| - 1];
      SessionHands(c, init);
      var before := Run(c.reader, c.buf, init);
      var s := Step(before.reader, before.buf, x);
      HandedReport(before.events, s.outcome, s.buf);
    }
  }

  lemma SessionFromStart(r: Reader, buf: Buffer, input: seq<byte>, i: nat)
    requires Valid(r) && i == |input|
    ensures var s := Run(r, buf, input);
            SessionRun(Session(r, buf, []), input[..i]) == Session(s.reader, s.buf, Handed(s.events))
  {
    var handed := Handed(Run(r, buf, input).events);
    assert input[..i] == input && [] + handed == handed;
    SessionHands(Session(r, buf, []), input);
  }
}
