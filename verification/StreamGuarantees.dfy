/**
 What the C stream reader guarantees on streams that were cut, damaged or fed in bulk.
 All of it follows from StreamReading.RunFollowsSplit.
 */
module StreamGuarantees {
  import opened Bytes
  import opened Tlv
  import opened TlvProtocol
  import opened StreamReading

  // ---- cut streams ----

  /** How many packets lie wholly inside the first n bytes of the encoding of ps. */
  function Whole(ps: seq<Packet>, n: nat): (m: nat)
    ensures m <= |ps|
  {
    if ps == [] || n < |Encode(ps[0])| then 0 else 1 + Whole(ps[1..], n - |Encode(ps[0])|)
  }

  lemma {:induction false} WholeMeansWhollyInside(ps: seq<Packet>, n: nat)
    ensures var m := Whole(ps, n);
            |EncodeAll(ps[..m])| <= n && (m < |ps| ==> n < |EncodeAll(ps[..m])| + |Encode(ps[m])|)
  {
    if ps == [] || n < |Encode(ps[0])| {
    } else {
      var m := Whole(ps, n);
      WholeMeansWhollyInside(ps[1..], n - |Encode(ps[0])|);
      assert ps[..m] == [ps[0]] + ps[1..][..m - 1];
      EncodeAllConcat([ps[0]], ps[1..][..m - 1]);
      EncodeAllOne(ps[0]);
    }
  }

  /** The bytes after the last whole packet are an unfinished packet. */
  lemma CutSplits(ps: seq<Packet>, n: nat)
    requires n <= |EncodeAll(ps)|
    ensures var m := Whole(ps, n); var at := |EncodeAll(ps[..m])|;
            at <= n && Incomplete(EncodeAll(ps)[at..n])
            && Split(EncodeAll(ps)[..n]) == Parse(SealAll(ps[..m]), EncodeAll(ps)[at..n])
  {
    var m := Whole(ps, n);
    WholeMeansWhollyInside(ps, n);
    CutInTwo(ps, m);
    EncodeAllConcat(ps[..m], ps[m..]);
    var tail, k := EncodeAll(ps[m..]), n - |EncodeAll(ps[..m])|;
    TakeConcat(EncodeAll(ps[..m]), tail, n);
    CutTail(ps[m..], k);
    SplitIsUnique(SealAll(ps[..m]), tail[..k]);
  }

  lemma CutTail(ps: seq<Packet>, k: nat)
    requires k <= |EncodeAll(ps)| && (ps != [] ==> k < |Encode(ps[0])|)
    ensures Incomplete(EncodeAll(ps)[..k])
  {
    if ps == [] {
      assert SealAll(ps) == [];
    } else {
      CutPacket(ps, k);
    }
  }

  lemma TakeConcat(a: seq<byte>, b: seq<byte>, n: nat)
    requires |a| <= n <= |a| + |b|
    ensures (a + b)[..n] == a + b[..n - |a|] && (a + b)[|a|..n] == b[..n - |a|]
  {
  }

  lemma CutPacket(ps: seq<Packet>, k: nat)
    requires ps != [] && k < |Encode(ps[0])|
    ensures k <= |EncodeAll(ps)| && Incomplete(EncodeAll(ps)[..k])
  {
    assert ps == [ps[0]] + ps[1..];
    EncodeAllConcat([ps[0]], ps[1..]);
    EncodeAllOne(ps[0]);
    ProperPrefixIncomplete(Seal(ps[0]), k);
    assert EncodeAll(ps)[..k] == Encode(ps[0])[..k];
  }

  /**
   On any prefix of packed packets the reader accepts exactly the packets wholly inside the prefix,
   and its counters and the value buffer hold exactly the bytes of the packet that was cut.
   */
  lemma PrefixDecoding(ps: seq<Packet>, n: nat, r: Reader, buf: Buffer)
    requires n <= |EncodeAll(ps)| && Holds(r, buf, [])
    ensures var m := Whole(ps, n); var at := |EncodeAll(ps[..m])|;
            var s := Run(r, buf, EncodeAll(ps)[..n]);
            && at <= n && (m < |ps| ==> n < at + |Encode(ps[m])|)
            && s.events == AcceptAll(ps[..m])
            && Holds(s.reader, s.buf, EncodeAll(ps)[at..n])
  {
    WholeMeansWhollyInside(ps, n);
    CutSplits(ps, n);
    var cut := EncodeAll(ps)[..n];
    RunFollowsSplit(r, buf, [], cut);
    assert [] + cut == cut;
    VerdictsOfSealed(ps[..Whole(ps, n)]);
  }

  // ---- damaged streams ----

  /** Packet p with byte j of its encoding replaced by y; the two length bytes stay. */
  function Damaged(p: Packet, j: nat, y: byte): (u: Unit)
    requires j < |Encode(p)| && j != 1 && j != 2
    ensures UnitBytes(u) == Encode(p)[j := y]
  {
    var u := Seal(p);
    if j == 0 then u.(tag := y)
    else if j < HEADER_SIZE + |p.value| then
      var v := u.(value := p.value[j - HEADER_SIZE := y]);
      assert UnitBytes(v) == Encode(p)[j := y];
      v
    else u.(check := y)
  }

  lemma XorAllSeesChange(acc: byte, v: seq<byte>, i: nat, y: byte)
    requires i < |v| && v[i] != y
    ensures XorAll(acc, v[i := y]) != XorAll(acc, v)
  {
    var a, tail := XorAll(acc, v[..i]), v[i + 1..];
    assert v == v[..i] + [v[i]] + tail && v[i := y] == v[..i] + [y] + tail;
    XorAllConcat(acc, v[..i] + [v[i]], tail);
    XorAllConcat(acc, v[..i] + [y], tail);
    XorAllConcat(acc, v[..i], [v[i]]);
    XorAllConcat(acc, v[..i], [y]);
    assert XorAll(a, [v[i]]) == Xor(a, v[i]) && XorAll(a, [y]) == Xor(a, y);
    XorCancel(v[i], y, a);
    XorAllCancel(Xor(a, v[i]), Xor(a, y), tail);
  }

  lemma DamageIsSeen(p: Packet, j: nat, y: byte)
    requires j < |Encode(p)| && j != 1 && j != 2 && Encode(p)[j] != y
    ensures !Sound(Damaged(p, j, y))
  {
    var hi, lo := ByteOf(|p.value| / 256), ByteOf(|p.value|);
    if j == 0 {
      XorCancel(p.tag, y, hi);
      XorCancel(Xor(p.tag, hi), Xor(y, hi), lo);
      XorAllCancel(Xor(Xor(p.tag, hi), lo), Xor(Xor(y, hi), lo), p.value);
    } else if j < HEADER_SIZE + |p.value| {
      XorAllSeesChange(Xor(Xor(p.tag, hi), lo), p.value, j - HEADER_SIZE, y);
    }
  }

  /**
   The damage done by writing y at byte j of packet p is contained: p is rejected exactly when its
   last byte arrives, and the packets around it are accepted as if nothing had happened.
   */
  predicate Contained(before: seq<Packet>, p: Packet, after: seq<Packet>, j: nat, y: byte, r: Reader, buf: Buffer)
    requires j < |Encode(p)| && Valid(r)
  {
    var hurt := Encode(p)[j := y];
    var noise := [Rejected(if j == 0 then y else p.tag)];
    && Run(r, buf, EncodeAll(before) + hurt[..|hurt| - 1]).events == AcceptAll(before)
    && Run(r, buf, EncodeAll(before) + hurt).events == AcceptAll(before) + noise
    && Run(r, buf, EncodeAll(before) + hurt + EncodeAll(after)).events
       == AcceptAll(before) + noise + AcceptAll(after)
  }

  /** Changing any byte outside the length field of one packet costs that packet and no other. */
  lemma DamageAndResynchronise(before: seq<Packet>, p: Packet, after: seq<Packet>, j: nat, y: byte,
                               r: Reader, buf: Buffer)
    requires j < |Encode(p)| && j != 1 && j != 2 && Encode(p)[j] != y
    requires Holds(r, buf, [])
    ensures Contained(before, p, after, j, y, r, buf)
  {
    var u := Damaged(p, j, y);
    DamageIsSeen(p, j, y);
    ProperPrefixIncomplete(u, |UnitBytes(u)| - 1);
    UnitsAreReported(SealAll(before), UnitBytes(u)[..|UnitBytes(u)| - 1], r, buf);
    VerdictsOfSealed(before);
    UnitAmongPackets(before, u, [], r, buf);
    UnitAmongPackets(before, u, after, r, buf);
    NoneAfter(EncodeAll(before) + UnitBytes(u), AcceptAll(before) + [Verdict(u)]);
    assert u.tag == if j == 0 then y else p.tag;
  }

  /** Whatever follows the packets, what is reported of them comes first. */
  lemma AfterPackets(ps: seq<Packet>, b: seq<byte>, r: Reader, buf: Buffer)
    requires Holds(r, buf, [])
    ensures Run(r, buf, EncodeAll(ps) + b).events == AcceptAll(ps) + Verdicts(Split(b).units)
  {
    var p := Split(b);
    SplitCoversAllBytes(b);
    ConcatAssociative(EncodeAll(ps), Flatten(p.units), p.rest);
    FlattenConcat(SealAll(ps), p.units);
    UnitsAreReported(SealAll(ps) + p.units, p.rest, r, buf);
    VerdictsConcat(SealAll(ps), p.units);
    VerdictsOfSealed(ps);
  }

  /** Another length than the true one moves the end of the packet: too late, or too early. */
  lemma WrongLengthMovesEnd(p: Packet, j: nat, y: byte)
    requires j == 1 || j == 2
    requires Encode(p)[j] != y
    ensures var hurt := Encode(p)[j := y];
            LenField(hurt) != |p.value| && if LenField(hurt) > |p.value| then Incomplete(hurt)
                                           else !Incomplete(hurt[..|hurt| - 1])
  {
    var sent, hurt := Encode(p), Encode(p)[j := y];
    HeaderRoundTrip(p.tag, |p.value|);
    assert sent[..HEADER_SIZE] == Header(p.tag, |p.value|);
    assert LenField(sent) == |p.value|;
    assert LenField(hurt) == LenField(hurt[..|hurt| - 1]);
  }

  lemma WrongLengthIsNotContained(before: seq<Packet>, p: Packet, after: seq<Packet>, j: nat, y: byte,
                                  r: Reader, buf: Buffer)
    requires j == 1 || j == 2
    requires Encode(p)[j] != y && Holds(r, buf, [])
    ensures !Contained(before, p, after, j, y, r, buf)
  {
    var hurt := Encode(p)[j := y];
    WrongLengthMovesEnd(p, j, y);
    if LenField(hurt) > |p.value| {
      AfterPackets(before, hurt, r, buf);
    } else {
      AfterPackets(before, hurt[..|hurt| - 1], r, buf);
    }
  }

  /**
   The damage of one changed byte is contained, for every packet, every new byte and whatever
   packets stand around it, if and only if the byte is not one of the two length bytes.
   */
  lemma DamageContainedIff(before: seq<Packet>, p: Packet, after: seq<Packet>, j: nat, y: byte,
                           r: Reader, buf: Buffer)
    requires j < |Encode(p)| && Encode(p)[j] != y && Holds(r, buf, [])
    ensures Contained(before, p, after, j, y, r, buf) <==> j != 1 && j != 2
  {
    if j == 1 || j == 2 {
      WrongLengthIsNotContained(before, p, after, j, y, r, buf);
    } else {
      DamageAndResynchronise(before, p, after, j, y, r, buf);
    }
  }

  lemma NoneAfter(b: seq<byte>, es: seq<Event>)
    ensures b + EncodeAll([]) == b && es + AcceptAll([]) == es
  {
    assert SealAll([]) == [];
  }

  lemma NoneBefore(b: seq<byte>, es: seq<Event>)
    ensures EncodeAll([]) + b == b && AcceptAll([]) + es == es
  {
    assert SealAll([]) == [];
  }

  lemma UnitAmongPackets(before: seq<Packet>, u: Unit, after: seq<Packet>, r: Reader, buf: Buffer)
    requires Holds(r, buf, [])
    ensures Run(r, buf, EncodeAll(before) + UnitBytes(u) + EncodeAll(after)).events
            == AcceptAll(before) + [Verdict(u)] + AcceptAll(after)
  {
    var us := SealAll(before) + [u];
    FlattenSnoc(SealAll(before), u);
    FlattenConcat(us, SealAll(after));
    UnitsAreReported(us + SealAll(after), [], r, buf);
    VerdictsConcat(us, SealAll(after));
    VerdictsSnoc(SealAll(before), u);
    VerdictsOfSealed(before);
    VerdictsOfSealed(after);
    var all := Flatten(us + SealAll(after));
    assert all + [] == all;
  }

  lemma VerdictsConcat(us: seq<Unit>, vs: seq<Unit>)
    ensures Verdicts(us + vs) == Verdicts(us) + Verdicts(vs)
  {
  }

  lemma UnitsAreReported(us: seq<Unit>, rest: seq<byte>, r: Reader, buf: Buffer)
    requires Incomplete(rest) && Holds(r, buf, [])
    ensures Run(r, buf, Flatten(us) + rest).events == Verdicts(us)
  {
    RunFollowsSplit(r, buf, [], Flatten(us) + rest);
    assert [] + (Flatten(us) + rest) == Flatten(us) + rest;
    SplitIsUnique(us, rest);
  }

  /** An example: one changed length byte makes the reader swallow the next packet as well. */
  lemma LengthDamageSwallowsNextPacket(r: Reader, buf: Buffer)
    requires Holds(r, buf, [])
    ensures var p := Packet(0, []);
            && Run(r, buf, Encode(p) + Encode(p)).events == [Accepted(p), Accepted(p)]
            && Run(r, buf, Encode(p)[2 := 4] + Encode(p)).events == [Rejected(0)]
  {
    var p := Packet(0, []);
    EncodeAllOne(p);
    UnitAmongPackets([], Seal(p), [p], r, buf);
    NoneBefore(Encode(p), [Accepted(p)]);
    assert [Accepted(p)] + AcceptAll([p]) == [Accepted(p), Accepted(p)];
    SwallowedUnit();
    var u := Unit(0, Zeros(4), 0);
    UnitAmongPackets([], u, [], r, buf);
    NoneAfter(UnitBytes(u), [Rejected(0)]);
    NoneBefore(UnitBytes(u), [Rejected(0)]);
  }

  function Zeros(n: nat): seq<byte> {
    seq(n, _ => 0)
  }

  lemma SwallowedUnit()
    ensures var u := Unit(0, Zeros(4), 0); var e := Encode(Packet(0, []));
            !Sound(u) && UnitBytes(u) == e[2 := 4] + e
  {
    XorZero(0);
    XorZero(4);
    assert Encode(Packet(0, [])) == Zeros(4);
    assert Header(0, 4) == [0, 0, 4];
    XorAllZeros(4, 4);
  }

  lemma {:induction false} XorAllZeros(acc: byte, n: nat)
    ensures XorAll(acc, Zeros(n)) == acc
  {
    if n == 0 {
    } else {
      XorAllZeros(acc, n - 1);
      assert Zeros(n)[..n - 1] == Zeros(n - 1);
      XorZero(acc);
    }
  }

  // ---- any stream at all ----

  /** Any MAX_VALUE + 4 consecutive bytes bring the reader back to an empty header. */
  lemma ReturnsToHeader(r: Reader, buf: Buffer, rest: seq<byte>, data: seq<byte>)
    requires Holds(r, buf, rest) && |data| >= 65539
    ensures exists k | 1 <= k <= 65539 ::
              var s := Run(r, buf, data[..k]); Holds(s.reader, s.buf, [])
  {
    var b := rest + data;
    var u, h := HeadUnit(b), HeadSize(b);
    assert |rest| >= HEADER_SIZE ==> LenField(b) == LenField(rest);
    var k := h - |rest|;
    assert rest + data[..k] == b[..h];
    HeadUnitBytes(b);
    FlattenCons(u, []);
    SplitIsUnique([u], []);
    assert Flatten([u]) + [] == b[..h];
    RunFollowsSplit(r, buf, rest, data[..k]);
    var s := Run(r, buf, data[..k]);
    assert Holds(s.reader, s.buf, []);
  }

  // ---- feeding in bulk ----

  /**
   One call of tlv_reader_feed with many bytes does what single-byte calls do up to and
   including the byte that completes the first packet; what follows that byte is never read.
   */
  lemma {:induction false} FeedStopsAtFirstReport(r: Reader, buf: Buffer, data: seq<byte>)
    requires Valid(r)
    ensures var s := Feed(r, buf, data);
            s.outcome.ReadsOn? ==> Run(r, buf, data) == RunResult(s.reader, s.buf, [])
    ensures var s := Feed(r, buf, data);
            s.outcome.Returns? ==> exists k | 0 <= k < |data| :: StopsAt(r, buf, data, k, s)
    decreases |data|
  {
    if data == [] {
    } else {
      var s := Step(r, buf, data[0]);
      if s.outcome.ReadsOn? {
        FeedStopsAtFirstReport(s.reader, s.buf, data[1..]);
        if Feed(r, buf, data).outcome.Returns? {
          var k :| 0 <= k < |data[1..]| && StopsAt(s.reader, s.buf, data[1..], k, Feed(r, buf, data));
          StopsOneLater(r, buf, data, k);
        } else {
          RunSkipsReadByte(r, buf, data);
        }
      } else {
        StopsAtOnce(r, buf, data);
      }
    }
  }

  /** The bytes of data through index k, with any tail behind them. */
  function Upto(data: seq<byte>, k: nat, tail: seq<byte>): seq<byte>
    requires k < |data|
  {
    data[..k + 1] + tail
  }

  ghost predicate StopsAt(r: Reader, buf: Buffer, data: seq<byte>, k: nat, s: StepResult)
    requires Valid(r) && k < |data|
  {
    && Run(r, buf, data[..k]).events == []
    && s.outcome.Returns? && -1 <= s.outcome.ret <= MAX_VALUE && |s.buf| >= MAX_VALUE
    && Run(r, buf, data[..k + 1]) == RunResult(s.reader, s.buf, Report(s.outcome, s.buf))
    && forall tail :: Feed(r, buf, Upto(data, k, tail)) == s
  }

  lemma RunOne(r: Reader, buf: Buffer, x: byte)
    requires Valid(r)
    ensures var s := Step(r, buf, x);
            Run(r, buf, [x]) == RunResult(s.reader, s.buf, Report(s.outcome, s.buf))
  {
    assert [x][..0] == [];
    assert Run(r, buf, []) == RunResult(r, buf, []);
  }

  lemma StopsAtOnce(r: Reader, buf: Buffer, data: seq<byte>)
    requires Valid(r) && 0 < |data| && Step(r, buf, data[0]).outcome.Returns?
    ensures StopsAt(r, buf, data, 0, Feed(r, buf, data))
  {
    RunOne(r, buf, data[0]);
    assert data[..0] == [] && data[..1] == [data[0]];
    forall tail ensures Feed(r, buf, Upto(data, 0, tail)) == Step(r, buf, data[0]) {
      assert Upto(data, 0, tail)[0] == data[0];
    }
  }

  lemma RunOneMore(r: Reader, buf: Buffer, data: seq<byte>, k: nat)
    requires Valid(r) && k < |data|
    requires Step(r, buf, data[0]).outcome.ReadsOn?
    ensures var s := Step(r, buf, data[0]);
            Run(r, buf, data[..k + 1]) == Run(s.reader, s.buf, data[1..][..k])
  {
    var some := data[1..][..k];
    assert data[..k + 1] == [data[0]] + some;
    RunOne(r, buf, data[0]);
    RunConcat(r, buf, [data[0]], some);
  }

  lemma RunSkipsReadByte(r: Reader, buf: Buffer, data: seq<byte>)
    requires Valid(r) && data != [] && Step(r, buf, data[0]).outcome.ReadsOn?
    ensures var s := Step(r, buf, data[0]); Run(r, buf, data) == Run(s.reader, s.buf, data[1..])
  {
    RunOneMore(r, buf, data, |data| - 1);
    assert data[..|data|] == data && data[1..][..|data| - 1] == data[1..];
  }

  lemma FeedSkipsReadByte(r: Reader, buf: Buffer, data: seq<byte>, k: nat, tail: seq<byte>)
    requires Valid(r) && k < |data| - 1 && Step(r, buf, data[0]).outcome.ReadsOn?
    ensures var s := Step(r, buf, data[0]);
            Feed(r, buf, Upto(data, k + 1, tail)) == Feed(s.reader, s.buf, Upto(data[1..], k, tail))
  {
    var d := Upto(data, k + 1, tail);
    assert d[0] == data[0] && d[1..] == Upto(data[1..], k, tail);
  }

  lemma StopsOneLater(r: Reader, buf: Buffer, data: seq<byte>, k: nat)
    requires Valid(r) && k < |data| - 1
    requires var s := Step(r, buf, data[0]);
             s.outcome.ReadsOn? && StopsAt(s.reader, s.buf, data[1..], k, Feed(r, buf, data))
    ensures StopsAt(r, buf, data, k + 1, Feed(r, buf, data))
  {
    var s, f, n := Step(r, buf, data[0]), Feed(r, buf, data), k + 1;
    RunOneMore(r, buf, data, k);
    RunOneMore(r, buf, data, k + 1);
    forall tail ensures Feed(r, buf, Upto(data, n, tail)) == f {
      FeedSkipsReadByte(r, buf, data, k, tail);
      assert Feed(s.reader, s.buf, Upto(data[1..], k, tail)) == f;
    }
  }

  // ---- a value buffer of any size ----

  /** The buffer after the bytes v were offered to it from place at on; what does not fit is dropped. */
  function Filled(buf: seq<byte>, at: nat, v: seq<byte>): seq<byte> {
    if at >= |buf| then buf
    else if at + |v| >= |buf| then buf[..at] + v[..|buf| - at]
    else buf[..at] + v + buf[at + |v|..]
  }

  lemma FilledCons(buf: seq<byte>, at: nat, x: byte, v: seq<byte>)
    ensures Filled(if at < |buf| then buf[at := x] else buf, at + 1, v) == Filled(buf, at, [x] + v)
  {
    if at < |buf| {
      var c := buf[at := x];
      assert c[..at + 1] == buf[..at] + [x];
      assert at + 1 + |v| < |buf| ==> c[at + 1 + |v|..] == buf[at + 1 + |v|..];
    }
  }

  lemma FeedReadsOn(r: Reader, buf: seq<byte>, data: seq<byte>)
    requires Valid(r) && data != [] && Step(r, buf, data[0]).outcome.ReadsOn?
    ensures var s := Step(r, buf, data[0]); Feed(r, buf, data) == Feed(s.reader, s.buf, data[1..])
  {
  }

  lemma BodyByte(r: Reader, buf: seq<byte>, x: byte)
    requires Valid(r) && r.phase.BODY?
    ensures Step(r, buf, x) ==
            StepResult(r.(bodyPos := r.bodyPos + 1, phase := if r.bodyPos + 1 >= r.len then CRC else BODY),
                       if r.bodyPos < |buf| then buf[r.bodyPos := x] else buf, ReadsOn)
  {
  }

  lemma {:induction false} FeedBody(r: Reader, buf: seq<byte>, v: seq<byte>, tail: seq<byte>)
    requires Valid(r) && r.phase.BODY? && |v| == r.len - r.bodyPos
    ensures Valid(r.(phase := CRC, bodyPos := r.len))
    ensures Feed(r, buf, v + tail) == Feed(r.(phase := CRC, bodyPos := r.len), Filled(buf, r.bodyPos, v), tail)
    decreases |v|
  {
    var x, more := v[0], v[1..];
    assert v == [x] + more && (v + tail)[0] == x && (v + tail)[1..] == more + tail;
    BodyByte(r, buf, x);
    FeedReadsOn(r, buf, v + tail);
    FilledCons(buf, r.bodyPos, x, more);
    var s := Step(r, buf, x);
    if more == [] {
      assert more + tail == tail;
      FilledNone(s.buf, r.bodyPos + 1);
    } else {
      FeedBody(s.reader, s.buf, more, tail);
    }
  }

  lemma FilledNone(buf: seq<byte>, at: nat)
    ensures Filled(buf, at, []) == buf
  {
  }

  lemma ThirdHeaderByte(r: Reader, tag: byte, len: nat)
    requires Valid(r) && r.phase.HEADER? && r.headerPos == 2 && len <= MAX_VALUE
    requires r.header[..2] == Header(tag, len)[..2]
    ensures StepHeader(r, Header(tag, len)[2]) ==
            Reader(if len == 0 then CRC else BODY, Header(tag, len), HEADER_SIZE, tag, len, 0)
  {
    HeaderRoundTrip(tag, len);
    assert r.header[2 := Header(tag, len)[2]] == Header(tag, len);
  }

  lemma FeedHeader(r: Reader, buf: seq<byte>, tag: byte, len: nat, tail: seq<byte>)
    requires Valid(r) && r.phase.HEADER? && r.headerPos == 0 && len <= MAX_VALUE
    ensures var h := Reader(if len == 0 then CRC else BODY, Header(tag, len), HEADER_SIZE, tag, len, 0);
            Valid(h) && Feed(r, buf, Header(tag, len) + tail) == Feed(h, buf, tail)
  {
    HeaderRoundTrip(tag, len);
    var h := Header(tag, len);
    var b := h + tail;
    var s1 := StepHeader(r, h[0]);
    var s2 := StepHeader(s1, h[1]);
    FeedReadsOn(r, buf, b);
    FeedReadsOn(s1, buf, b[1..]);
    FeedReadsOn(s2, buf, b[1..][1..]);
    assert s2.header[..2] == h[..2];
    ThirdHeaderByte(s2, tag, len);
    assert b[1..][1..][1..] == tail;
  }

  /**
   With a value buffer of any size the reader keeps the value as far as it fits, judges the packet by
   what it kept, and still returns the length of the whole value.
   */
  lemma AnyBufferSize(r: Reader, buf: seq<byte>, u: Unit)
    requires Valid(r) && r.phase.HEADER? && r.headerPos == 0
    ensures var s := Feed(r, buf, UnitBytes(u));
            var kept := u.value[..if |u.value| <= |buf| then |u.value| else |buf|];
            && s.buf == kept + buf[|kept|..]
            && s.outcome == Returns(u.tag, if u.check == Checksum(u.tag, kept) then |u.value| else -1)
            && s.reader.phase.HEADER? && s.reader.headerPos == 0
  {
    var h := Reader(if |u.value| == 0 then CRC else BODY, Header(u.tag, |u.value|), HEADER_SIZE, u.tag, |u.value|, 0);
    ConcatAssociative(Header(u.tag, |u.value|), u.value, [u.check]);
    FeedHeader(r, buf, u.tag, |u.value|, u.value + [u.check]);
    if u.value == [] {
      assert u.value + [u.check] == [u.check];
      FilledNone(buf, 0);
    } else {
      FeedBody(h, buf, u.value, [u.check]);
    }
    FilledFromStart(buf, u.value);
    JudgedByKept(h.(phase := CRC, bodyPos := |u.value|), Filled(buf, 0, u.value), u.check);
  }

  lemma FilledFromStart(buf: seq<byte>, v: seq<byte>)
    ensures var kept, full := v[..if |v| <= |buf| then |v| else |buf|], Filled(buf, 0, v);
            |full| == |buf| && full == kept + buf[|kept|..]
            && full[..if |v| <= |full| then |v| else |full|] == kept
  {
  }

  lemma ExpectedOfKept(r: Reader, buf: seq<byte>)
    requires r.bodyPos == r.len <= MAX_VALUE
    ensures Expected(r, buf) == Checksum(r.tag, buf[..if r.len <= |buf| then r.len else |buf|])
  {
    var seen := if r.len <= |buf| then r.len else |buf|;
    assert seen % 0x1_0000 == seen;
  }

  lemma JudgedByKept(r: Reader, buf: seq<byte>, check: byte)
    requires Valid(r) && r.phase.CRC?
    ensures var s := Feed(r, buf, [check]);
            var kept := buf[..if r.len <= |buf| then r.len else |buf|];
            && s.buf == buf && s.reader == Reset(r)
            && s.outcome == Returns(r.tag, if check == Checksum(r.tag, kept) then r.len else -1)
  {
    ExpectedOfKept(r, buf);
    assert Feed(r, buf, [check]) == Step(r, buf, check);
  }
}
