/** tcp_server.c: what the simulated MES server answers to the packets of one client. */
module TcpServer {
  import opened Bytes
  import opened Tlv
  import opened MesHandler
  import opened StreamReading
  import opened Selections
  import T = TlvProtocol
  import F = FrameStreams
  import R = ReaderAgreement

  function AckText(tag: byte): string {
    "{\"ack\":" + Decimal(tag) + "}"
  }

  const PONG_TEXT := "{\"pong\":1}"

  /** What the protocol promises in answer to a request. */
  function Answer(p: Packet): seq<Packet> {
    if p.tag == HEARTBEAT_REQ then [Packet(HEARTBEAT_RSP, BytesOf(PONG_TEXT))]
    else if p.tag == MES_EVENT then AckText16(); [Packet(MES_ACK, BytesOf(AckText(MES_EVENT)))]
    else []
  }

  function Answers(ps: seq<Packet>): (qs: seq<Packet>)
    decreases |ps|
  {
    if ps == [] then [] else Answers(ps[..|ps| - 1]) + Answer(ps[|ps| - 1])
  }

  lemma AckText16()
    ensures AckText(MES_EVENT) == "{\"ack\":16}"
  {
    assert Decimal(1) == [Digit(1)];
    assert Decimal(16) == Decimal(1) + [Digit(6)] == "16";
  }

  /** The acknowledgement of any tag is the JSON text with that number in it. */
  lemma AckTextReads(tag: byte)
    ensures var t := AckText(tag);
            && |t| >= 9 && t[..7] == "{\"ack\":" && t[|t| - 1] == '}'
            && (forall i :: 7 <= i < |t| - 1 ==> '0' <= t[i] <= '9') && Atoi(t[7..]) == tag
  {
    var t := AckText(tag);
    AtoiOfSigned(tag, "}");
    assert t[7..] == Decimal(tag) + "}";
  }

  lemma DecimalOfByte(n: byte)
    ensures |Decimal(n)| <= 3
  {
    if n >= 10 {
      assert |Decimal(n)| == |Decimal(n / 10)| + 1;
      if n >= 100 {
        assert |Decimal(n / 10)| == |Decimal(n / 100)| + 1 by {
          assert n / 10 / 10 == n / 100;
        }
      }
    }
  }

  /** mes_pack_ack: the text always fits its sixteen bytes. */
  method MesPackAck(frame: array<byte>, tag: byte) returns (total: nat)
    modifies frame
    ensures |AckText(tag)| < 16
    ensures total == if FRAME_OVERHEAD + |AckText(tag)| <= frame.Length then FRAME_OVERHEAD + |AckText(tag)| else 0
    ensures total != 0 ==> frame[..total] == Encode(Packet(MES_ACK, BytesOf(AckText(tag))))
  {
    DecimalOfByte(tag);
    total := T.TlvPack(MES_ACK, BytesOf(AckText(tag)), frame);
  }

  class Client {
    const reader: T.TlvReader
    /** The reply bytes written so far; each reply is assumed to be written whole. */
    var wire: seq<byte>

    ghost predicate Ok()
      reads reader, reader.header
    {
      T.Valid(reader.Value())
    }

    constructor ()
      ensures Ok() && wire == [] && fresh(reader) && fresh(reader.header)
      ensures T.Valid(reader.Value()) && reader.Value() == T.Reset(reader.Value())
    {
      reader := new T.TlvReader();
      wire := [];
    }

    method OnPacket(p: Packet)
      modifies this`wire
      ensures wire == old(wire) + EncodeAll(Answer(p))
      ensures wire == old(wire) + (if p.tag == 0x01 then Encode(Packet(0x02, BytesOf("{\"pong\":1}")))
                                   else if p.tag == 0x10 then Encode(Packet(0x11, BytesOf("{\"ack\":16}")))
                                   else [])
    {
      if p.tag == HEARTBEAT_REQ {
        var resp := new byte[FRAME_OVERHEAD + 16];
        var sz := T.TlvPack(HEARTBEAT_RSP, BytesOf(PONG_TEXT), resp);
        if sz > 0 {
          wire := wire + resp[..sz];
        }
        EncodeAllOne(Packet(HEARTBEAT_RSP, BytesOf(PONG_TEXT)));
      }
      if p.tag == MES_EVENT {
        AckText16();
        var ack := new byte[FRAME_OVERHEAD + 16];
        var sz := MesPackAck(ack, p.tag);
        if sz > 0 {
          wire := wire + ack[..sz];
        }
        EncodeAllOne(Packet(MES_ACK, BytesOf(AckText(MES_EVENT))));
      }
      assert EncodeAll([]) == [] && wire + [] == wire;
    }

    method ReceiveByte(x: byte, valBuf: array<byte>)
      requires Ok() && valBuf.Length >= MAX_VALUE && valBuf != reader.header
      modifies this`wire, reader, reader.header, valBuf
      ensures Ok()
      ensures var c := SessionStep(Session(old(reader.Value()), old(valBuf[..]), []), x);
              && reader.Value() == c.reader && valBuf[..] == c.buf
              && wire == old(wire) + EncodeAll(Answers(c.handed))
    {
      FeedOne(reader.Value(), valBuf[..], x);
      var ret, tag := reader.Read([x], 0, valBuf);
      if ret > 0 {
        assert valBuf[..][..ret] == valBuf[..ret];
        OnPacket(Packet(tag, valBuf[..ret]));
        AnswersOne(Packet(tag, valBuf[..ret]));
      } else {
        assert EncodeAll(Answers([])) == [] && wire + [] == wire;
      }
    }

    /** The loop over the bytes of one read; valBuf is the value buffer on the caller's stack. */
    method Receive(input: seq<byte>, valBuf: array<byte>)
      requires Ok() && valBuf.Length >= MAX_VALUE && valBuf != reader.header
      modifies this`wire, reader, reader.header, valBuf
      ensures Ok()
      ensures var s := Run(old(reader.Value()), old(valBuf[..]), input);
              && reader.Value() == s.reader && valBuf[..] == s.buf
              && wire == old(wire) + EncodeAll(Answers(Handed(s.events)))
    {
      ghost var sent, start := wire, Session(reader.Value(), valBuf[..], []);
      ghost var c := start;
      var i := 0;
      assert EncodeAll(Answers([])) == [] && wire + [] == wire;
      while i < |input|
        invariant 0 <= i <= |input| && Ok()
        invariant c == SessionRun(start, input[..i])
        invariant reader.Value() == c.reader && valBuf[..] == c.buf
        invariant wire == sent + EncodeAll(Answers(c.handed))
      {
        ghost var d := SessionStep(Session(c.reader, c.buf, []), input[i]);
        SessionGoesOn(start, input, i);
        WireGrows(sent, c.handed, d.handed);
        ReceiveByte(input[i], valBuf);
        c := Session(d.reader, d.buf, c.handed + d.handed);
        i := i + 1;
      }
      SessionFromStart(start.reader, start.buf, input, i);
    }
  }

  lemma AnswersOne(p: Packet)
    ensures Answers([p]) == Answer(p)
  {
    assert [p][..0] == [];
  }

  lemma {:induction false} AnswersConcat(ps: seq<Packet>, qs: seq<Packet>)
    ensures Answers(ps + qs) == Answers(ps) + Answers(qs)
    decreases |qs|
  {
    if qs == [] {
      assert ps + qs == ps;
    } else {
      var init, q := qs[..|qs| - 1], qs[|qs| - 1];
      AnswersConcat(ps, init);
      assert (ps + qs)[..|ps + qs| - 1] == ps + init && (ps + qs)[|ps + qs| - 1] == q;
      ConcatAssociative(Answers(ps), Answers(init), Answer(q));
    }
  }

  lemma WireGrows(sent: seq<byte>, ps: seq<Packet>, qs: seq<Packet>)
    ensures sent + EncodeAll(Answers(ps + qs)) == sent + EncodeAll(Answers(ps)) + EncodeAll(Answers(qs))
  {
    AnswersConcat(ps, qs);
    EncodeAllConcat(Answers(ps), Answers(qs));
    ConcatAssociative(sent, EncodeAll(Answers(ps)), EncodeAll(Answers(qs)));
  }

  lemma {:induction false} AnswersNonEmpty(ps: seq<Packet>)
    ensures NonEmpty(Answers(ps))
    decreases |ps|
  {
    if ps == [] {
    } else {
      AnswersNonEmpty(ps[..|ps| - 1]);
      AckText16();
    }
  }

  /** The one answer to a heartbeat or to an event, in plain numbers. */
  function PlainAnswer(request: Packet): Packet {
    if request.tag == 0x01 then Packet(0x02, BytesOf("{\"pong\":1}"))
    else Packet(0x11, BytesOf("{\"ack\":16}"))
  }

  lemma AnswerIsPlain(p: Packet)
    ensures Answer(p) == if p.tag == 0x01 || p.tag == 0x10 then [PlainAnswer(p)] else []
  {
    AckText16();
  }

  /** The replies answer the requests that stand at the places at. */
  predicate Answered(requests: seq<Packet>, replies: seq<Packet>, at: seq<nat>) {
    && Chosen(requests, (p: Packet) => p.tag == 0x01 || p.tag == 0x10, at)
    && |replies| == |at| && forall k :: 0 <= k < |at| ==> replies[k] == PlainAnswer(requests[at[k]])
  }

  lemma AnsweredOneMore(requests: seq<Packet>, replies: seq<Packet>, at: seq<nat>, p: Packet)
    requires Answered(requests, replies, at)
    ensures if p.tag == 0x01 || p.tag == 0x10
            then Answered(requests + [p], replies + [PlainAnswer(p)], at + [|requests|])
            else Answered(requests + [p], replies, at)
  {
    ChosenSnoc(requests, p, (q: Packet) => q.tag == 0x01 || q.tag == 0x10, at);
  }

  lemma {:induction false} AnswersTell(ps: seq<Packet>) returns (at: seq<nat>)
    ensures Answered(ps, Answers(ps), at)
    decreases |ps|
  {
    if ps == [] {
      at := [];
    } else {
      var init, p := ps[..|ps| - 1], ps[|ps| - 1];
      var before := AnswersTell(init);
      assert ps == init + [p];
      AnsweredOneMore(init, Answers(init), before, p);
      OneMoreAnswer(init, p);
      at := before;
      if p.tag == 0x01 || p.tag == 0x10 {
        at := before + [|init|];
      }
    }
  }

  lemma OneMoreAnswer(ps: seq<Packet>, p: Packet)
    ensures Answers(ps + [p]) ==
            if p.tag == 0x01 || p.tag == 0x10 then Answers(ps) + [PlainAnswer(p)] else Answers(ps)
  {
    assert (ps + [p])[..|ps|] == ps;
    AnswerIsPlain(p);
    assert Answers(ps) + [] == Answers(ps);
  }

  /**
   For every input stream the reply bytes decode to one packet for each accepted request of tag 0x01 or
   0x10, in request order and nothing else: tag 0x02 with the text {"pong":1} for the former, tag 0x11
   with the text {"ack":16} for the latter. at tells which of the accepted packets those are.
   */
  lemma RepliesMatchRequests(c: T.Reader, val: Buffer, input: seq<byte>, r: T.Reader, buf: Buffer)
    returns (at: seq<nat>)
    requires T.Valid(c) && Holds(r, buf, [])
    ensures var requests := Handed(Run(c, val, input).events);
            var replies := Run(r, buf, EncodeAll(Answers(requests)));
            && Handed(replies.events) == Answers(requests) && Holds(replies.reader, replies.buf, [])
            && Answered(requests, Handed(replies.events), at)
  {
    var requests := Handed(Run(c, val, input).events);
    AnswersNonEmpty(requests);
    F.PacketsRead(r, buf, Answers(requests));
    at := AnswersTell(requests);
  }
}
