/** The part of gateway_app.cpp that reads AI results back and raises the alarm. */
module AiAlarm {
  import opened Bytes
  import opened Tlv
  import opened MesHandler
  import opened AiResultText
  import opened StreamReading
  import opened ValueBuffer
  import opened Selections
  import T = TlvProtocol
  import G = StreamGuarantees
  import R = ReaderAgreement

  predicate Alarms(p: Packet) {
    p.tag == AI_RESULT && DefectIn(Searched(p.value)) != 0
  }

  /** The packets that raise the alarm, in order. */
  function AlarmsOf(ps: seq<Packet>): seq<Packet>
    decreases |ps|
  {
    if ps == [] then [] else
    AlarmsOf(ps[..|ps| - 1]) + AlarmOf(ps[|ps| - 1])
  }

  function AlarmOf(p: Packet): seq<Packet> {
    if Alarms(p) then [p] else []
  }

  class NetworkThread {
    const reader: T.TlvReader
    /** The packets for which trigger_alarm was called. */
    var alarms: seq<Packet>

    constructor ()
      ensures T.Valid(reader.Value()) && reader.Value() == T.Reset(reader.Value()) && alarms == []
      ensures fresh(reader) && fresh(reader.header)
    {
      reader := new T.TlvReader();
      alarms := [];
    }

    method OnPacket(p: Packet)
      modifies this`alarms
      ensures alarms == old(alarms) + AlarmOf(p)
    {
      if p.tag == AI_RESULT {
        var dtype := new char[32](_ => '\0');
        var hasDefect, conf, overrun := ParseAiResult(p.value, dtype);
        if hasDefect != 0 {
          alarms := alarms + [p];
        }
      }
    }

    method ReceiveByte(x: byte, val: array<byte>)
      requires T.Valid(reader.Value()) && val.Length >= MAX_VALUE && val != reader.header
      modifies this`alarms, reader, reader.header, val
      ensures T.Valid(reader.Value())
      ensures var c := SessionStep(Session(old(reader.Value()), old(val[..]), []), x);
              && reader.Value() == c.reader && val[..] == c.buf
              && alarms == old(alarms) + AlarmsOf(c.handed)
    {
      FeedOne(reader.Value(), val[..], x);
      var ret, tag := reader.Read([x], 0, val);
      if ret > 0 {
        assert val[..][..ret] == val[..ret];
        OnPacket(Packet(tag, val[..ret]));
        AlarmsOne(Packet(tag, val[..ret]));
      }
    }

    /** handle_ai_result: the bytes of one read, and the value buffer of this call. */
    method HandleAiResult(input: seq<byte>, val: array<byte>)
      requires T.Valid(reader.Value()) && val.Length >= MAX_VALUE && val != reader.header
      modifies this`alarms, reader, reader.header, val
      ensures T.Valid(reader.Value())
      ensures var s := Run(old(reader.Value()), old(val[..]), input);
              && reader.Value() == s.reader && val[..] == s.buf
              && alarms == old(alarms) + AlarmsOf(Handed(s.events))
    {
      ghost var before, start := alarms, Session(reader.Value(), val[..], []);
      ghost var c := start;
      var i := 0;
      while i < |input|
        invariant 0 <= i <= |input| && T.Valid(reader.Value())
        invariant c == SessionRun(start, input[..i])
        invariant reader.Value() == c.reader && val[..] == c.buf
        invariant alarms == before + AlarmsOf(c.handed)
      {
        ghost var d := SessionStep(Session(c.reader, c.buf, []), input[i]);
        SessionGoesOn(start, input, i);
        AlarmsGrow(before, c.handed, d.handed);
        ReceiveByte(input[i], val);
        c := Session(d.reader, d.buf, c.handed + d.handed);
        i := i + 1;
      }
      SessionFromStart(start.reader, start.buf, input, i);
    }
  }

  lemma AlarmsOne(p: Packet)
    ensures AlarmsOf([p]) == AlarmOf(p)
  {
    assert [p][..0] == [];
  }

  lemma {:induction false} AlarmsConcat(ps: seq<Packet>, qs: seq<Packet>)
    ensures AlarmsOf(ps + qs) == AlarmsOf(ps) + AlarmsOf(qs)
    decreases |qs|
  {
    if qs == [] {
      assert ps + qs == ps;
    } else {
      var init, q := qs[..|qs| - 1], qs[|qs| - 1];
      AlarmsConcat(ps, init);
      assert (ps + qs)[..|ps + qs| - 1] == ps + init && (ps + qs)[|ps + qs| - 1] == q;
      ConcatAssociative(AlarmsOf(ps), AlarmsOf(init), AlarmOf(q));
    }
  }

  lemma AlarmsGrow(before: seq<Packet>, ps: seq<Packet>, qs: seq<Packet>)
    ensures before + AlarmsOf(ps + qs) == before + AlarmsOf(ps) + AlarmsOf(qs)
  {
    AlarmsConcat(ps, qs);
  }

  // ---- streams of Python results ----

  /** A message to the gateway: an AI result printed by Python, or any packet of another kind. */
  datatype Message = Result(defect: int, kind: string, conf: string, box: Box) | Other(packet: Packet)

  /** The message fits a packet, and its text is what json.dumps may print. */
  predicate Sendable(m: Message) {
    match m
    case Result(d, kind, conf, box) =>
      FitsInt(d) && IsText(PyResult(d, kind, conf, box)) && |PyResult(d, kind, conf, box)| <= MAX_VALUE
    case Other(p) => p.tag != AI_RESULT && p.value != []
  }

  function PacketOf(m: Message): Packet
    requires Sendable(m)
  {
    match m
    case Result(d, kind, conf, box) => Packet(AI_RESULT, BytesOf(PyResult(d, kind, conf, box)))
    case Other(p) => p
  }

  predicate AllSendable(ms: seq<Message>) {
    forall i :: 0 <= i < |ms| ==> Sendable(ms[i])
  }

  function PacketsOf(ms: seq<Message>): (ps: seq<Packet>)
    requires AllSendable(ms)
    ensures |ps| == |ms| && forall i :: 0 <= i < |ms| ==> ps[i] == PacketOf(ms[i])
  {
    seq(|ms|, i requires 0 <= i < |ms| => PacketOf(ms[i]))
  }

  /** The messages whose packets lie wholly inside the first n bytes of the stream. */
  function WhollyIn(ms: seq<Message>, n: nat): (whole: seq<Message>)
    requires AllSendable(ms)
    ensures AllSendable(whole) && whole <= ms
  {
    ms[..G.Whole(PacketsOf(ms), n)]
  }

  predicate Defective(m: Message) {
    m.Result? && m.defect != 0
  }

  function Defects(ms: seq<Message>): (ds: seq<Message>)
    ensures AllSendable(ms) ==> AllSendable(ds)
    decreases |ms|
  {
    if ms == [] then [] else
    Defects(ms[..|ms| - 1]) + if Defective(ms[|ms| - 1]) then [ms[|ms| - 1]] else []
  }

  lemma AlarmIffDefective(m: Message)
    requires Sendable(m)
    ensures Alarms(PacketOf(m)) <==> Defective(m)
    ensures PacketOf(m).value != []
  {
    if m.Result? {
      PyDefectParsed(m.defect, PyRest(m.kind, m.conf, m.box));
    }
  }

  lemma AlarmsOneMore(ps: seq<Packet>, m: Message)
    requires Sendable(m)
    ensures AlarmsOf(ps + [PacketOf(m)]) == AlarmsOf(ps) + if Defective(m) then [PacketOf(m)] else []
  {
    var p := PacketOf(m);
    assert (ps + [p])[..|ps|] == ps;
    AlarmIffDefective(m);
  }

  lemma DefectsOneMore(ms: seq<Message>, m: Message)
    requires AllSendable(ms) && Sendable(m)
    ensures AllSendable(ms + [m])
    ensures PacketsOf(Defects(ms + [m])) == PacketsOf(Defects(ms)) + if Defective(m) then [PacketOf(m)] else []
  {
    assert (ms + [m])[..|ms|] == ms;
    OneMessageMore(Defects(ms), m);
    assert Defects(ms) + [] == Defects(ms);
  }

  lemma {:induction false} AlarmsAreDefects(ms: seq<Message>)
    requires AllSendable(ms)
    ensures AlarmsOf(PacketsOf(ms)) == PacketsOf(Defects(ms))
    decreases |ms|
  {
    if ms == [] {
    } else {
      var init, m := ms[..|ms| - 1], ms[|ms| - 1];
      InitAndLast(ms);
      AlarmsAreDefects(init);
      OneMessageMore(init, m);
      AlarmsOneMore(PacketsOf(init), m);
      DefectsOneMore(init, m);
    }
  }

  lemma MessagesNonEmpty(ms: seq<Message>)
    requires AllSendable(ms)
    ensures NonEmpty(PacketsOf(ms))
  {
    forall i | 0 <= i < |ms| ensures PacketsOf(ms)[i].value != [] {
      AlarmIffDefective(ms[i]);
    }
  }

  lemma OneMessageMore(ms: seq<Message>, m: Message)
    requires AllSendable(ms) && Sendable(m)
    ensures PacketsOf(ms + [m]) == PacketsOf(ms) + [PacketOf(m)]
  {
  }

  lemma AlarmsOfFirst(ms: seq<Message>, m: nat)
    requires AllSendable(ms) && m <= |ms|
    ensures AlarmsOf(PacketsOf(ms)[..m]) == PacketsOf(Defects(ms[..m]))
  {
    AlarmsAreDefects(ms[..m]);
    FirstPackets(ms, m);
  }

  lemma AllAlarmsInside(ms: seq<Message>, n: nat, r: T.Reader, buf: Buffer)
    requires AllSendable(ms) && n <= |EncodeAll(PacketsOf(ms))|
    requires T.Valid(r) && r.phase.HEADER? && r.headerPos == 0
    ensures AlarmsOf(Handed(Run(r, buf, EncodeAll(PacketsOf(ms))[..n]).events))
            == PacketsOf(Defects(WhollyIn(ms, n)))
  {
    MessagesNonEmpty(ms);
    R.CHandsWhole(PacketsOf(ms), n, r, buf);
    AlarmsOfFirst(ms, G.Whole(PacketsOf(ms), n));
  }

  /** The alarms are the results at the places at, and those are exactly the results with a nonzero flag. */
  predicate Alarming(ms: seq<Message>, alarms: seq<Packet>, at: seq<nat>) {
    && Chosen(ms, (m: Message) => m.Result? && m.defect != 0, at)
    && |alarms| == |at|
    && forall k :: 0 <= k < |at| ==>
         var m := ms[at[k]];
         m.Result? && alarms[k].tag == 0x30 && alarms[k].value == BytesOf(PyResult(m.defect, m.kind, m.conf, m.box))
  }

  lemma {:induction false} DefectsPicked(ms: seq<Message>) returns (at: seq<nat>)
    ensures Picked(ms, (m: Message) => m.Result? && m.defect != 0, Defects(ms), at)
    decreases |ms|
  {
    if ms == [] {
      at := [];
    } else {
      var init, m := ms[..|ms| - 1], ms[|ms| - 1];
      var before := DefectsPicked(init);
      InitAndLast(ms);
      PickedSnoc(init, (x: Message) => x.Result? && x.defect != 0, Defects(init), before, m);
      at := before;
      if m.Result? && m.defect != 0 {
        at := before + [|init|];
      } else {
        assert Defects(init) + [] == Defects(init);
      }
    }
  }

  lemma ResultPacket(m: Message)
    requires m.Result? && Sendable(m)
    ensures var p := PacketOf(m); p.tag == 0x30 && p.value == BytesOf(PyResult(m.defect, m.kind, m.conf, m.box))
  {
  }

  lemma PickedAlarm(ms: seq<Message>, ds: seq<Message>, at: seq<nat>)
    requires Picked(ms, (m: Message) => m.Result? && m.defect != 0, ds, at) && AllSendable(ds)
    ensures Alarming(ms, PacketsOf(ds), at)
  {
    forall k | 0 <= k < |at|
      ensures var m, p := ms[at[k]], PacketsOf(ds)[k];
              m.Result? && p.tag == 0x30 && p.value == BytesOf(PyResult(m.defect, m.kind, m.conf, m.box))
    {
      ResultPacket(ds[k]);
    }
  }

  lemma DefectsTell(ms: seq<Message>) returns (at: seq<nat>)
    requires AllSendable(ms)
    ensures Alarming(ms, PacketsOf(Defects(ms)), at)
  {
    at := DefectsPicked(ms);
    PickedAlarm(ms, Defects(ms), at);
  }

  /**
   With one value buffer that survives, however the stream is split and wherever it is cut: the alarm is
   raised once for each result wholly received whose flag is not zero, in order, and for nothing else.
   */
  lemma AlarmsInside(ms: seq<Message>, n: nat, r: T.Reader, buf: Buffer) returns (at: seq<nat>)
    requires AllSendable(ms) && n <= |EncodeAll(PacketsOf(ms))|
    requires T.Valid(r) && r.phase.HEADER? && r.headerPos == 0
    ensures var alarms := AlarmsOf(Handed(Run(r, buf, EncodeAll(PacketsOf(ms))[..n]).events));
            var whole := WhollyIn(ms, n);
            alarms == PacketsOf(Defects(whole)) && Alarming(whole, alarms, at)
  {
    AllAlarmsInside(ms, n, r, buf);
    at := DefectsTell(WhollyIn(ms, n));
  }

  /**
   The same however the stream is split over calls and whatever their buffers held, when no call that
   begins inside a body completes a packet.
   */
  lemma AlarmCount(ms: seq<Message>, n: nat, r: T.Reader, calls: seq<Call>, ds: seq<seq<byte>>)
    returns (at: seq<nat>)
    requires AllSendable(ms) && n <= |EncodeAll(PacketsOf(ms))|
    requires T.Valid(r) && r.phase.HEADER? && r.headerPos == 0
    requires Carry(calls, ds) && Joined(ds) == EncodeAll(PacketsOf(ms))[..n] && Undisturbed(r, ds)
    ensures var alarms := AlarmsOf(Handed(RunCalls(r, calls)));
            var whole := WhollyIn(ms, n);
            alarms == PacketsOf(Defects(whole)) && Alarming(whole, alarms, at)
  {
    UndisturbedCallsAgree(r, calls, ds, G.Zeros(MAX_VALUE));
    at := AlarmsInside(ms, n, r, G.Zeros(MAX_VALUE));
  }

  // ---- when the alarms are exact ----

  /** Whatever the buffers of the calls hold, the alarms are ps. */
  ghost predicate AlarmsAlways(r: T.Reader, ds: seq<seq<byte>>, ps: seq<Packet>)
    requires T.Valid(r)
  {
    forall calls :: Carry(calls, ds) ==> AlarmsOf(Handed(RunCalls(r, calls))) == ps
  }

  predicate AllDefective(ms: seq<Message>) {
    forall i :: 0 <= i < |ms| ==> Defective(ms[i])
  }

  lemma {:induction false} AllAreDefects(ms: seq<Message>)
    requires AllDefective(ms)
    ensures Defects(ms) == ms
  {
    if ms == [] {
    } else {
      var init, m := ms[..|ms| - 1], ms[|ms| - 1];
      AllAreDefects(init);
      InitAndLast(ms);
    }
  }

  /** As many alarms as reports: every report was the acceptance of the packet that alarmed. */
  lemma {:induction false} AllReportsAlarm(es: seq<Event>)
    ensures var alarms := AlarmsOf(Handed(es));
            |alarms| <= |es| && (|alarms| == |es| ==> es == AcceptAll(alarms))
  {
    if es == [] {
    } else {
      var init, e := es[..|es| - 1], es[|es| - 1];
      AllReportsAlarm(init);
      InitAndLast(es);
      OneReportMore(init, e);
      NoMoreThanReports(init, AlarmsOf(Handed(init)), e, AlarmsOf(Handed(es)));
    }
  }

  lemma NoMoreThanReports(es: seq<Event>, ps: seq<Packet>, e: Event, qs: seq<Packet>)
    requires |ps| <= |es| && (|ps| == |es| ==> es == AcceptAll(ps))
    requires qs == ps || (e.Accepted? && qs == ps + [e.packet])
    ensures |qs| <= |es + [e]| && (|qs| == |es + [e]| ==> es + [e] == AcceptAll(qs))
  {
  }

  lemma OneReportMore(es: seq<Event>, e: Event)
    ensures var alarms := AlarmsOf(Handed(es));
            || AlarmsOf(Handed(es + [e])) == alarms
            || (e.Accepted? && AlarmsOf(Handed(es + [e])) == alarms + [e.packet])
  {
    assert (es + [e])[..|es|] == es;
    if e.Accepted? && e.packet.value != [] {
      AlarmsConcat(Handed(es), [e.packet]);
      AlarmsOne(e.packet);
      assert AlarmsOf(Handed(es)) + [] == AlarmsOf(Handed(es));
    } else {
      assert Handed(es) + [] == Handed(es);
    }
  }

  lemma WrongAlarms(ms: seq<Message>, n: nat, r: T.Reader, ds: seq<seq<byte>>) returns (calls: seq<Call>)
    requires AllSendable(ms) && n <= |EncodeAll(PacketsOf(ms))|
    requires T.Valid(r) && r.phase.HEADER? && r.headerPos == 0
    requires Joined(ds) == EncodeAll(PacketsOf(ms))[..n] && !Undisturbed(r, ds)
    ensures Carry(calls, ds)
    ensures AlarmsOf(Handed(RunCalls(r, calls))) != PacketsOf(WhollyIn(ms, n))
  {
    var zeros := G.Zeros(MAX_VALUE);
    calls := Disturb(r, ds, zeros);
    G.PrefixDecoding(PacketsOf(ms), n, r, zeros);
    CallsCount(r, calls, ds, zeros);
    AllReportsAlarm(RunCalls(r, calls));
    FirstPackets(ms, G.Whole(PacketsOf(ms), n));
  }

  /**
   For results that all report a defect the condition is exact: the alarms are right whatever the
   buffers of the calls held, if and only if no call that begins inside a body completes a packet.
   */
  lemma AlarmCountIff(ms: seq<Message>, n: nat, r: T.Reader, ds: seq<seq<byte>>)
    requires AllSendable(ms) && AllDefective(ms) && n <= |EncodeAll(PacketsOf(ms))|
    requires T.Valid(r) && r.phase.HEADER? && r.headerPos == 0
    requires Joined(ds) == EncodeAll(PacketsOf(ms))[..n]
    ensures AlarmsAlways(r, ds, PacketsOf(WhollyIn(ms, n))) <==> Undisturbed(r, ds)
  {
    AllAreDefects(WhollyIn(ms, n));
    if Undisturbed(r, ds) {
      AlarmsAlwaysRight(ms, n, r, ds);
    } else {
      AlarmsSometimesWrong(ms, n, r, ds);
    }
  }

  lemma AlarmsSometimesWrong(ms: seq<Message>, n: nat, r: T.Reader, ds: seq<seq<byte>>)
    requires AllSendable(ms) && n <= |EncodeAll(PacketsOf(ms))|
    requires T.Valid(r) && r.phase.HEADER? && r.headerPos == 0
    requires Joined(ds) == EncodeAll(PacketsOf(ms))[..n] && !Undisturbed(r, ds)
    ensures !AlarmsAlways(r, ds, PacketsOf(WhollyIn(ms, n)))
  {
    var calls := WrongAlarms(ms, n, r, ds);
    assert Carry(calls, ds);
  }

  lemma AlarmsAlwaysRight(ms: seq<Message>, n: nat, r: T.Reader, ds: seq<seq<byte>>)
    requires AllSendable(ms) && n <= |EncodeAll(PacketsOf(ms))|
    requires T.Valid(r) && r.phase.HEADER? && r.headerPos == 0
    requires Joined(ds) == EncodeAll(PacketsOf(ms))[..n] && Undisturbed(r, ds)
    ensures AlarmsAlways(r, ds, PacketsOf(Defects(WhollyIn(ms, n))))
  {
    forall calls | Carry(calls, ds)
      ensures AlarmsOf(Handed(RunCalls(r, calls))) == PacketsOf(Defects(WhollyIn(ms, n)))
    {
      var at := AlarmCount(ms, n, r, calls, ds);
    }
  }

  lemma FirstPackets(ms: seq<Message>, m: nat)
    requires AllSendable(ms) && m <= |ms|
    ensures PacketsOf(ms[..m]) == PacketsOf(ms)[..m]
  {
  }
}
