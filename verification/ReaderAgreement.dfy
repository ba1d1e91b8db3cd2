/**
 The Python stream reader claims to be compatible with the C one. What it hands out is
 compared here with the wire format, and then with what the C reader hands to its callers.
 */
module ReaderAgreement {
  import opened Bytes
  import opened Options
  import opened Tlv
  import C = StreamReading
  import T = TlvProtocol
  import G = StreamGuarantees
  import Py = AiReceiver

  // ---- the Python reader against the format ----

  datatype PyResult = PyResult(reader: Py.Reader, packets: seq<Packet>)

  function PyRun(r: Py.Reader, data: seq<byte>): (s: PyResult)
    requires Py.Valid(r)
    ensures Py.Valid(s.reader)
    decreases |data|
  {
    if data == [] then PyResult(r, []) else
    var before := PyRun(r, data[..|data| - 1]);
    var s := Py.Step(before.reader, data[|data| - 1]);
    PyResult(s.0, before.packets + if s.1.Some? then [s.1.value] else [])
  }

  /** The units before the first one with an empty value. */
  function Live(us: seq<Unit>): (vs: seq<Unit>)
    ensures vs <= us && forall i :: 0 <= i < |vs| ==> vs[i].value != []
    ensures |vs| < |us| ==> us[|vs|].value == []
  {
    if us == [] then [] else
    var vs := Live(us[..|us| - 1]);
    if |vs| == |us| - 1 && us[|us| - 1].value != [] then us else vs
  }

  function Opened(us: seq<Unit>): (ps: seq<Packet>)
    ensures |ps| == |us| && forall i :: 0 <= i < |us| ==> ps[i] == Packet(us[i].tag, us[i].value)
  {
    seq(|us|, i requires 0 <= i < |us| => Packet(us[i].tag, us[i].value))
  }

  /** A zero-length header was read: the reader waits for a body that is never complete. */
  predicate Stuck(r: Py.Reader) {
    r.state.BODY? && |r.header| == HEADER_SIZE && r.tag == r.header[0]
    && r.length == LenField(r.header) == 0
  }

  predicate EmptyHeader(rest: seq<byte>) {
    |rest| >= HEADER_SIZE && LenField(rest) == 0
  }

  /** Where the Python reader stands after a stream that splits into us and rest. */
  predicate Follows(r: Py.Reader, us: seq<Unit>, rest: seq<byte>) {
    && Py.Valid(r)
    && if Live(us) == us && !EmptyHeader(rest) then
         r.header + r.body == rest && !(r.state.HEADER? && |rest| >= HEADER_SIZE)
       else Stuck(r)
  }

  lemma LiveSnoc(us: seq<Unit>, u: Unit)
    ensures Live(us + [u]) == if Live(us) == us && u.value != [] then us + [u] else Live(us)
  {
    assert (us + [u])[..|us|] == us;
  }

  lemma PyReadsOn(r: Py.Reader, rest: seq<byte>, x: byte)
    requires Py.Valid(r) && r.header + r.body == rest && !(r.state.HEADER? && |rest| >= HEADER_SIZE)
    requires !EmptyHeader(rest) && Incomplete(rest) && Incomplete(rest + [x])
    ensures var s := Py.Step(r, x); var last := rest + [x];
            s.1.None? && Py.Valid(s.0) && s.0.header + s.0.body == last
            && if EmptyHeader(last) then Stuck(s.0) else !(s.0.state.HEADER? && |last| >= HEADER_SIZE)
  {
    var last := rest + [x];
    if r.state.HEADER? {
      assert r.header == rest;
    } else {
      assert rest[..HEADER_SIZE] == last[..HEADER_SIZE] == r.header;
      assert LenField(last) == r.length;
    }
  }

  lemma PyCompletes(r: Py.Reader, rest: seq<byte>, x: byte)
    requires Py.Valid(r) && r.header + r.body == rest && !(r.state.HEADER? && |rest| >= HEADER_SIZE)
    requires !EmptyHeader(rest) && Incomplete(rest) && !Incomplete(rest + [x])
    ensures var s := Py.Step(r, x); var u := HeadUnit(rest + [x]);
            && s.1 == Some(Packet(u.tag, u.value)) && u.value != []
            && Py.Valid(s.0) && s.0.state.HEADER? && s.0.header == [] && s.0.body == []
  {
    var last := rest + [x];
    assert |rest| >= HEADER_SIZE;
    assert rest[..HEADER_SIZE] == last[..HEADER_SIZE] == r.header;
    assert LenField(last) == LenField(rest) == r.length;
    assert r.body == rest[HEADER_SIZE..] == last[HEADER_SIZE..|last| - 1];
  }

  lemma PyStuckStays(r: Py.Reader, x: byte)
    requires Stuck(r)
    ensures Stuck(Py.Step(r, x).0) && Py.Step(r, x).1.None?
  {
  }

  function UnitsAfter(us: seq<Unit>, last: seq<byte>): seq<Unit> {
    if Incomplete(last) then us else us + [HeadUnit(last)]
  }

  function RestAfter(last: seq<byte>): seq<byte> {
    if Incomplete(last) then last else []
  }

  lemma PyStepFollows(r: Py.Reader, us: seq<Unit>, rest: seq<byte>, x: byte)
    requires Follows(r, us, rest) && Incomplete(rest)
    ensures var s := Py.Step(r, x); var last := rest + [x];
            && Follows(s.0, UnitsAfter(us, last), RestAfter(last))
            && Opened(Live(UnitsAfter(us, last))) == Opened(Live(us)) + if s.1.Some? then [s.1.value] else []
  {
    var last := rest + [x];
    if !Incomplete(last) {
      LiveSnoc(us, HeadUnit(last));
      assert LenField(last) == LenField(rest);
    }
    if Live(us) != us || EmptyHeader(rest) {
      PyStuckStays(r, x);
      if Live(us) == us {
        assert LenField(last) == LenField(rest) == 0;
      }
    } else if Incomplete(last) {
      PyReadsOn(r, rest, x);
    } else {
      PyCompletes(r, rest, x);
    }
  }

  lemma SplitGrows(b: seq<byte>, x: byte)
    ensures var p := Split(b);
            Split(b + [x]) == Parse(UnitsAfter(p.units, p.rest + [x]), RestAfter(p.rest + [x]))
  {
    var p := Split(b);
    SplitCoversAllBytes(b);
    ConcatAssociative(Flatten(p.units), p.rest, [x]);
    C.SplitOneMore(p.units, p.rest, x);
  }

  /** The Python reader hands out every unit before the first empty one, damaged or not. */
  lemma {:induction false} PyRunFollowsSplit(r: Py.Reader, data: seq<byte>)
    requires Py.Valid(r) && r.state.HEADER? && r.header == []
    ensures var s := PyRun(r, data); var p := Split(data);
            s.packets == Opened(Live(p.units)) && Follows(s.reader, p.units, p.rest)
    decreases |data|
  {
    if data == [] {
    } else {
      var init, x := data[..|data| - 1], data[|data| - 1];
      assert data == init + [x];
      PyRunFollowsSplit(r, init);
      var p := Split(init);
      SplitCoversAllBytes(init);
      PyStepFollows(PyRun(r, init).reader, p.units, p.rest, x);
      SplitGrows(init, x);
    }
  }

  // ---- feeding the Python reader in bulk ----

  /** A byte that completes nothing may be read beforehand. */
  lemma {:induction false} PyRunCons(r: Py.Reader, x: byte, data: seq<byte>)
    requires Py.Valid(r) && Py.Step(r, x).1.None?
    ensures PyRun(r, [x] + data) == PyRun(Py.Step(r, x).0, data)
    decreases |data|
  {
    if data == [] {
      assert [x] + data == [x];
      PyRunOne(r, x);
    } else {
      PyRunCons(r, x, data[..|data| - 1]);
      InitOfCons(x, data);
    }
  }

  lemma PyRunOne(r: Py.Reader, x: byte)
    requires Py.Valid(r)
    ensures var s := Py.Step(r, x); PyRun(r, [x]) == PyResult(s.0, if s.1.Some? then [s.1.value] else [])
  {
    assert [x][..0] == [];
    assert PyRun(r, []) == PyResult(r, []);
  }

  lemma InitOfCons(x: byte, data: seq<byte>)
    requires data != []
    ensures var all := [x] + data;
            all[..|all| - 1] == [x] + data[..|data| - 1] && all[|all| - 1] == data[|data| - 1]
  {
  }

  /** data is read through byte k, which completes the first packet; result is that packet. */
  predicate PyStopsAt(r: Py.Reader, data: seq<byte>, k: nat, s: (Py.Reader, Option<Packet>))
    requires Py.Valid(r) && k < |data|
  {
    PyRun(r, data[..k]).packets == [] && s.1.Some? && PyRun(r, data[..k + 1]) == PyResult(s.0, [s.1.value])
  }

  /**
   One call of feed with many bytes reads them one by one until a packet is complete, hands that one
   out and drops the bytes behind it; if none becomes complete all of them are read.
   */
  lemma {:induction false} PyFeedStopsAtFirstPacket(r: Py.Reader, data: seq<byte>)
    requires Py.Valid(r)
    ensures var s := Py.FeedAll(r, data);
            if s.1.None? then PyRun(r, data) == PyResult(s.0, [])
            else exists k | 0 <= k < |data| :: PyStopsAt(r, data, k, s)
    decreases |data|
  {
    if data == [] {
    } else {
      var x, more := data[0], data[1..];
      var s, f := Py.Step(r, x), Py.FeedAll(r, data);
      FirstAndMore(data, |data| - 1);
      assert more[..|more|] == more && data[..|data|] == data;
      if s.1.Some? {
        PyStopsAtOnce(r, data);
      } else {
        PyFeedStopsAtFirstPacket(s.0, more);
        if f.1.None? {
          PyRunCons(r, x, more);
        } else {
          var k :| 0 <= k < |more| && PyStopsAt(s.0, more, k, f);
          PyStopsOneLater(r, data, k, f);
        }
      }
    }
  }

  lemma PyStopsAtOnce(r: Py.Reader, data: seq<byte>)
    requires Py.Valid(r) && data != [] && Py.Step(r, data[0]).1.Some?
    ensures PyStopsAt(r, data, 0, Py.Step(r, data[0]))
  {
    PyRunOne(r, data[0]);
    assert data[..1] == [data[0]] && data[..0] == [];
  }

  lemma FirstAndMore(data: seq<byte>, k: nat)
    requires k < |data|
    ensures data[..k + 1] == [data[0]] + data[1..][..k]
  {
  }

  lemma PyRunSkips(r: Py.Reader, data: seq<byte>, k: nat)
    requires Py.Valid(r) && k < |data| && Py.Step(r, data[0]).1.None?
    ensures PyRun(r, data[..k + 1]) == PyRun(Py.Step(r, data[0]).0, data[1..][..k])
  {
    FirstAndMore(data, k);
    PyRunCons(r, data[0], data[1..][..k]);
  }

  lemma PyStopsOneLater(r: Py.Reader, data: seq<byte>, k: nat, f: (Py.Reader, Option<Packet>))
    requires Py.Valid(r) && k + 1 < |data| && Py.Step(r, data[0]).1.None?
    requires PyStopsAt(Py.Step(r, data[0]).0, data[1..], k, f)
    ensures PyStopsAt(r, data, k + 1, f)
  {
    PyRunSkips(r, data, k);
    PyRunSkips(r, data, k + 1);
  }

  // ---- the two readers against each other ----

  function Good(u: Unit): bool {
    Sound(u) && u.value != []
  }

  /** Before the first empty packet every check byte is right; after it nothing good follows. */
  predicate Clean(us: seq<Unit>) {
    forall i :: 0 <= i < |us| ==> (Good(us[i]) <==> i < |Live(us)|)
  }

  lemma HandedSnoc(us: seq<Unit>, u: Unit)
    ensures C.Handed(Verdicts(us + [u])) ==
            C.Handed(Verdicts(us)) + if Good(u) then [Packet(u.tag, u.value)] else []
  {
    C.VerdictsSnoc(us, u);
    assert Verdicts(us + [u])[..|us|] == Verdicts(us);
  }

  lemma OpenedSnoc(us: seq<Unit>, u: Unit)
    ensures Opened(Live(us + [u])) ==
            Opened(Live(us)) + if |Live(us)| == |us| && u.value != [] then [Packet(u.tag, u.value)] else []
  {
    LiveSnoc(us, u);
  }

  lemma CleanSnoc(us: seq<Unit>, u: Unit)
    ensures Clean(us + [u]) <==> Clean(us) && (Good(u) <==> |Live(us)| == |us| && u.value != [])
  {
    LiveSnoc(us, u);
    var vs := us + [u];
    assert vs[|us|] == u;
    assert forall i :: 0 <= i < |us| ==> vs[i] == us[i] && (i < |Live(vs)| <==> i < |Live(us)|);
    if Clean(vs) {
      assert Clean(us);
    }
  }

  /** Both readers have handed out the same packets after all units. */
  predicate SameAfter(us: seq<Unit>) {
    C.Handed(Verdicts(us)) == Opened(Live(us))
  }

  /** ... and after each unit before. */
  predicate SameThroughout(us: seq<Unit>)
    decreases |us|
  {
    SameAfter(us) && (us == [] || SameThroughout(us[..|us| - 1]))
  }

  lemma {:induction false} SameAfterPrefix(us: seq<Unit>, vs: seq<Unit>)
    requires SameThroughout(us) && vs <= us
    ensures SameAfter(vs)
    decreases |us|
  {
    if |vs| == |us| {
      assert vs == us;
    } else {
      assert vs <= us[..|us| - 1];
      SameAfterPrefix(us[..|us| - 1], vs);
    }
  }

  lemma {:induction false} SameAfterEach(us: seq<Unit>)
    requires forall m :: 0 <= m <= |us| ==> SameAfter(us[..m])
    ensures SameThroughout(us)
    decreases |us|
  {
    assert us[..|us|] == us;
    if us == [] {
    } else {
      var init := us[..|us| - 1];
      forall m | 0 <= m <= |init| ensures SameAfter(init[..m]) {
        assert init[..m] == us[..m];
      }
      SameAfterEach(init);
    }
  }

  lemma {:induction false} SameUnitsIff(us: seq<Unit>)
    ensures SameThroughout(us) <==> Clean(us)
    decreases |us|
  {
    if us == [] {
    } else {
      var init, u := us[..|us| - 1], us[|us| - 1];
      assert us == init + [u];
      SameUnitsIff(init);
      CleanSnoc(init, u);
      if SameThroughout(init) {
        HandedSnoc(init, u);
        OpenedSnoc(init, u);
      }
    }
  }

  lemma {:induction false} UnitsOnlyGrow(a: seq<byte>, c: seq<byte>)
    ensures Split(a).units <= Split(a + c).units
    decreases |c|
  {
    if c == [] {
      assert a + c == a;
    } else {
      var init, x := c[..|c| - 1], c[|c| - 1];
      assert a + c == a + init + [x];
      UnitsOnlyGrow(a, init);
      SplitGrows(a + init, x);
    }
  }

  /** Both readers have handed out the same packets after the bytes b. */
  predicate SameOn(r: T.Reader, buf: C.Buffer, q: Py.Reader, b: seq<byte>)
    requires T.Valid(r) && Py.Valid(q)
  {
    C.Handed(C.Run(r, buf, b).events) == PyRun(q, b).packets
  }

  predicate PyFresh(q: Py.Reader) {
    Py.Valid(q) && q.state.HEADER? && q.header == []
  }

  lemma SameOnUnits(r: T.Reader, buf: C.Buffer, q: Py.Reader, b: seq<byte>)
    requires C.Holds(r, buf, []) && PyFresh(q)
    ensures SameOn(r, buf, q, b) <==> SameAfter(Split(b).units)
  {
    C.RunFollowsSplit(r, buf, [], b);
    assert [] + b == b;
    PyRunFollowsSplit(q, b);
  }

  /**
   On any byte stream the two readers hand out the same packets at the same bytes if and only if
   the stream is clean: every check byte before the first empty packet is right, and no good
   packet comes after it.
   */
  lemma ReadersAgreeIff(r: T.Reader, buf: C.Buffer, q: Py.Reader, b: seq<byte>)
    requires C.Holds(r, buf, []) && PyFresh(q)
    ensures (forall n :: 0 <= n <= |b| ==> SameOn(r, buf, q, b[..n])) <==> Clean(Split(b).units)
  {
    var us := Split(b).units;
    SameUnitsIff(us);
    if SameThroughout(us) {
      forall n | 0 <= n <= |b| ensures SameOn(r, buf, q, b[..n]) {
        SameUnitsSameBytes(r, buf, q, b, n);
      }
    }
    if forall n :: 0 <= n <= |b| ==> SameOn(r, buf, q, b[..n]) {
      forall m | 0 <= m <= |us| ensures SameAfter(us[..m]) {
        var n := UnitBoundary(b, m);
        assert SameOn(r, buf, q, b[..n]);
        SameOnUnits(r, buf, q, b[..n]);
      }
      SameAfterEach(us);
    }
  }

  lemma SameUnitsSameBytes(r: T.Reader, buf: C.Buffer, q: Py.Reader, b: seq<byte>, n: nat)
    requires C.Holds(r, buf, []) && PyFresh(q)
    requires SameThroughout(Split(b).units) && n <= |b|
    ensures SameOn(r, buf, q, b[..n])
  {
    CutInTwo(b, n);
    UnitsOnlyGrow(b[..n], b[n..]);
    SameAfterPrefix(Split(b).units, Split(b[..n]).units);
    SameOnUnits(r, buf, q, b[..n]);
  }

  lemma UnitBoundary(b: seq<byte>, m: nat) returns (n: nat)
    requires m <= |Split(b).units|
    ensures n <= |b| && Split(b[..n]).units == Split(b).units[..m]
  {
    var us := Split(b).units;
    SplitCoversAllBytes(b);
    FlattenConcat(us[..m], us[m..]);
    assert us == us[..m] + us[m..];
    n := |Flatten(us[..m])|;
    assert b[..n] == Flatten(us[..m]) + [];
    SplitIsUnique(us[..m], []);
  }

  // ---- streams of packed packets ----

  lemma {:induction false} SealedAreHanded(ps: seq<Packet>)
    requires NonEmpty(ps)
    ensures C.Handed(AcceptAll(ps)) == ps && Opened(Live(SealAll(ps))) == ps
    decreases |ps|
  {
    if ps == [] {
    } else {
      var init, p := ps[..|ps| - 1], ps[|ps| - 1];
      assert ps == init + [p];
      SealedAreHanded(init);
      assert AcceptAll(ps)[..|ps| - 1] == AcceptAll(init);
      assert SealAll(ps) == SealAll(init) + [Seal(p)];
      assert |Live(SealAll(init))| == |Opened(Live(SealAll(init)))|;
      OpenedSnoc(SealAll(init), Seal(p));
    }
  }

  lemma SealedAreLive(ps: seq<Packet>)
    requires NonEmpty(ps)
    ensures Live(SealAll(ps)) == SealAll(ps)
  {
  }

  /** On any prefix of packed non-empty packets both readers hand out the packets wholly inside. */
  lemma PackedStreamsAgree(ps: seq<Packet>, n: nat, r: T.Reader, buf: C.Buffer, q: Py.Reader)
    requires NonEmpty(ps) && n <= |EncodeAll(ps)|
    requires C.Holds(r, buf, []) && PyFresh(q)
    ensures C.Handed(C.Run(r, buf, EncodeAll(ps)[..n]).events) == ps[..G.Whole(ps, n)]
    ensures PyRun(q, EncodeAll(ps)[..n]).packets == ps[..G.Whole(ps, n)]
  {
    CHandsWhole(ps, n, r, buf);
    G.CutSplits(ps, n);
    SealedAreHanded(ps[..G.Whole(ps, n)]);
    PyRunFollowsSplit(q, EncodeAll(ps)[..n]);
  }

  lemma CHandsWhole(ps: seq<Packet>, n: nat, r: T.Reader, buf: C.Buffer)
    requires NonEmpty(ps) && n <= |EncodeAll(ps)| && C.Holds(r, buf, [])
    ensures C.Handed(C.Run(r, buf, EncodeAll(ps)[..n]).events) == ps[..G.Whole(ps, n)]
  {
    G.PrefixDecoding(ps, n, r, buf);
    SealedAreHanded(ps[..G.Whole(ps, n)]);
  }

  // ---- inputs on which the readers differ ----

  /** A damaged packet: the C reader hands out nothing, the Python reader hands it out all the same. */
  lemma ReadersDifferOnDamage(p: Packet, j: nat, y: byte, r: T.Reader, buf: C.Buffer, q: Py.Reader)
    requires p.value != [] && j < |Encode(p)| && j != 1 && j != 2 && Encode(p)[j] != y
    requires C.Holds(r, buf, []) && PyFresh(q)
    ensures var u := G.Damaged(p, j, y); var b := Encode(p)[j := y];
            && C.Handed(C.Run(r, buf, b).events) == []
            && PyRun(q, b).packets == [Packet(u.tag, u.value)]
  {
    var u := G.Damaged(p, j, y);
    G.DamageIsSeen(p, j, y);
    OneUnit(u, r, buf, q);
  }

  lemma OneUnit(u: Unit, r: T.Reader, buf: C.Buffer, q: Py.Reader)
    requires u.value != [] && !Sound(u) && C.Holds(r, buf, []) && PyFresh(q)
    ensures C.Handed(C.Run(r, buf, UnitBytes(u)).events) == []
    ensures PyRun(q, UnitBytes(u)).packets == [Packet(u.tag, u.value)]
  {
    SplitOfOne(u);
    C.RunFollowsSplit(r, buf, [], UnitBytes(u));
    assert [] + UnitBytes(u) == UnitBytes(u);
    PyRunFollowsSplit(q, UnitBytes(u));
    BadUnitHanded(u);
  }

  lemma SplitOfOne(u: Unit)
    ensures Split(UnitBytes(u)) == Parse([u], [])
  {
    SplitCons(u, []);
    assert UnitBytes(u) + [] == UnitBytes(u) && [u] + [] == [u];
  }

  lemma BadUnitHanded(u: Unit)
    requires u.value != [] && !Sound(u)
    ensures C.Handed(Verdicts([u])) == [] && Opened(Live([u])) == [Packet(u.tag, u.value)]
  {
    HandedSnoc([], u);
    OpenedSnoc([], u);
    assert [] + [u] == [u] && Verdicts([]) == [];
  }

  /** An empty packet: the C reader goes on, the Python reader never hands out anything again. */
  lemma ReadersDifferAfterEmpty(tag: byte, ps: seq<Packet>, r: T.Reader, buf: C.Buffer, q: Py.Reader)
    requires NonEmpty(ps) && C.Holds(r, buf, []) && PyFresh(q)
    ensures var b := Encode(Packet(tag, [])) + EncodeAll(ps);
            && C.Handed(C.Run(r, buf, b).events) == ps
            && PyRun(q, b).packets == []
  {
    var e := Packet(tag, []);
    var b, us := Encode(e) + EncodeAll(ps), [Seal(e)] + SealAll(ps);
    FlattenCons(Seal(e), SealAll(ps));
    SplitIsUnique(us, []);
    assert b == Flatten(us) + [];
    C.RunFollowsSplit(r, buf, [], b);
    assert [] + b == b;
    PyRunFollowsSplit(q, b);
    NothingLive(us);
    HandedAfterEmpty(e, ps);
  }

  lemma NothingLive(us: seq<Unit>)
    requires us != [] && us[0].value == []
    ensures Opened(Live(us)) == []
  {
    assert forall i :: 0 <= i < |Live(us)| ==> us[i].value != [];
  }

  lemma {:induction false} HandedAfterEmpty(e: Packet, ps: seq<Packet>)
    requires e.value == [] && NonEmpty(ps)
    ensures C.Handed(Verdicts([Seal(e)] + SealAll(ps))) == ps
    decreases |ps|
  {
    if ps == [] {
      HandedSnoc([], Seal(e));
      assert [] + [Seal(e)] == [Seal(e)] == [Seal(e)] + SealAll(ps);
    } else {
      var init, p := ps[..|ps| - 1], ps[|ps| - 1];
      assert ps == init + [p];
      HandedAfterEmpty(e, init);
      ConcatAssociative([Seal(e)], SealAll(init), [Seal(p)]);
      assert SealAll(ps) == SealAll(init) + [Seal(p)];
      HandedSnoc([Seal(e)] + SealAll(init), Seal(p));
    }
  }
}
