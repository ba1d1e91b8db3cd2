/** frame_receiver.c: the frame being put together for one client, and the client's read loop. */
module FrameReceiver {
  import opened Bytes
  import opened Tlv
  import opened FrameCodec
  import T = TlvProtocol
  import opened MesHandler
  import opened StreamReading

  datatype Assembly = Assembly(active: bool, total: nat, received: nat, data: seq<byte>)

  predicate Valid(a: Assembly) {
    && |a.data| == MAX_FRAME
    && a.received <= MAX_FRAME
    && (a.active ==> a.received <= a.total && (a.received < a.total || a.total == 0))
  }

  /** The frames passed to save_frame, oldest first, beside the assembly itself. */
  datatype Gathered = Gathered(asm: Assembly, saved: seq<Frame>)

  function CopySize(a: Assembly, len: nat): (copy: nat)
    requires Valid(a) && a.active
    ensures copy <= len && a.received + copy <= a.total
  {
    if len > a.total - a.received then a.total - a.received else len
  }

  function OnData(a: Assembly, v: seq<byte>): (b: Assembly)
    requires Valid(a) && a.active
    ensures |b.data| == MAX_FRAME && a.received <= b.received <= MAX_FRAME && b.received <= b.total
  {
    var copy := CopySize(a, |v|);
    if a.received + copy <= MAX_FRAME then
      a.(data := a.data[..a.received] + v[..copy] + a.data[a.received + copy..],
         received := a.received + copy)
    else a
  }

  /** What the switch of do_read does with a packet that the reader accepted. */
  function Gather(g: Gathered, p: Packet): (h: Gathered)
    requires Valid(g.asm)
    ensures Valid(h.asm)
  {
    if p.tag == FRAME_START then
      if |p.value| >= 4 then g.(asm := g.asm.(active := true, total := Be32(p.value), received := 0)) else g
    else if p.tag == FRAME_DATA && g.asm.active then
      var a := OnData(g.asm, p.value);
      if a.received >= a.total then Gathered(a.(active := false), g.saved + [a.data[..a.total]])
      else g.(asm := a)
    else g
  }

  function GatherAll(g: Gathered, ps: seq<Packet>): (h: Gathered)
    requires Valid(g.asm)
    ensures Valid(h.asm)
    decreases |ps|
  {
    if ps == [] then g else Gather(GatherAll(g, ps[..|ps| - 1]), ps[|ps| - 1])
  }

  class Client {
    const reader: T.TlvReader
    var active: bool
    var total: nat
    var received: nat
    const data: array<byte>
    var saved: seq<Frame>
    var replies: seq<byte>

    function Value(): Gathered
      reads this, data
    {
      Gathered(Assembly(active, total, received, data[..]), saved)
    }

    ghost predicate Ok()
      reads this, data, reader, reader.header
    {
      && reader.header != data
      && T.Valid(reader.Value())
      && Valid(Value().asm)
    }

    /** do_accept: a fresh reader and an assembly set to zero. */
    constructor ()
      ensures Ok() && Value() == Gathered(Assembly(false, 0, 0, seq(MAX_FRAME, _ => 0)), [])
      ensures Holds(reader.Value(), seq(MAX_VALUE, _ => 0), []) && replies == []
      ensures fresh(reader) && fresh(reader.header) && fresh(data)
    {
      reader := new T.TlvReader();
      active, total, received, saved, replies := false, 0, 0, [], [];
      data := new byte[MAX_FRAME](_ => 0);
      new;
      assert data[..] == seq(MAX_FRAME, _ => 0);
    }

    /** memcpy of the first n bytes of v into the array. */
    method CopyIn(at: nat, v: seq<byte>, n: nat)
      requires n <= |v| && at + n <= data.Length
      modifies data
      ensures data[..] == old(data[..at]) + v[..n] + old(data[at + n..])
    {
      forall i | 0 <= i < n {
        data[at + i] := v[i];
      }
      assert data[..at] == old(data[..at]) && data[at..at + n] == v[..n] && data[at + n..] == old(data[at + n..]);
    }

    method StoreData(v: Value)
      requires Valid(Value().asm) && active
      modifies this`active, this`received, this`saved, data
      ensures Value() == Gather(old(Value()), Packet(FRAME_DATA, v))
    {
      ghost var a := Value().asm;
      var space := total - received;
      var copy := |v|;
      if copy > space {
        copy := space;
      }
      if received + copy <= MAX_FRAME {
        CopyIn(received, v, copy);
        received := received + copy;
      }
      assert Value().asm == OnData(a, v);
      if received >= total {
        assert data[..total] == data[..][..total];
        saved := saved + [data[..total]];
        active := false;
      }
    }

    /** The heartbeat reply needs 14 bytes and has room for 12: nothing is ever written. */
    method OnPacket(p: Packet)
      requires Ok()
      modifies this`active, this`total, this`received, this`saved, this`replies, data
      ensures Ok() && Value() == Gather(old(Value()), p)
      ensures replies == old(replies)
    {
      if p.tag == FRAME_START {
        if |p.value| >= 4 {
          total := Be32(p.value);
          received := 0;
          active := true;
        }
      } else if p.tag == FRAME_DATA {
        if active {
          StoreData(p.value);
        }
      } else if p.tag == HEARTBEAT_REQ {
        var resp := new byte[FRAME_OVERHEAD + 8];
        var sz := T.TlvPack(HEARTBEAT_RSP, BytesOf("{\"pong\":1}"), resp);
        if sz > 0 {
          assert false;
        }
      }
    }

    /** The body of the loop: one byte through the reader, and the switch if a packet came out. */
    method ReceiveByte(x: byte, valBuf: array<byte>)
      requires Ok() && valBuf.Length >= MAX_VALUE && valBuf != data && valBuf != reader.header
      modifies this`active, this`total, this`received, this`saved, this`replies
      modifies reader, reader.header, data, valBuf
      ensures Ok() && replies == old(replies)
      ensures var c := SessionStep(Session(old(reader.Value()), old(valBuf[..]), []), x);
              && reader.Value() == c.reader && valBuf[..] == c.buf
              && Value() == GatherAll(old(Value()), c.handed)
    {
      FeedOne(reader.Value(), valBuf[..], x);
      var ret, tag := reader.Read([x], 0, valBuf);
      if ret > 0 {
        assert valBuf[..][..ret] == valBuf[..ret];
        GatherOne(Value(), Packet(tag, valBuf[..ret]));
        OnPacket(Packet(tag, valBuf[..ret]));
      }
    }

    /** The loop over the bytes of one read; valBuf is the value buffer on the caller's stack. */
    method Receive(input: seq<byte>, valBuf: array<byte>)
      requires Ok() && valBuf.Length >= MAX_VALUE && valBuf != data && valBuf != reader.header
      modifies this`active, this`total, this`received, this`saved, this`replies
      modifies reader, reader.header, data, valBuf
      ensures Ok() && replies == old(replies)
      ensures var s := Run(old(reader.Value()), old(valBuf[..]), input);
              reader.Value() == s.reader && valBuf[..] == s.buf
              && Value() == GatherAll(old(Value()), Handed(s.events))
    {
      ghost var g, start := Value(), Session(reader.Value(), valBuf[..], []);
      ghost var c := start;
      var i := 0;
      while i < |input|
        invariant 0 <= i <= |input| && Ok() && replies == old(replies)
        invariant c == SessionRun(start, input[..i])
        invariant reader.Value() == c.reader && valBuf[..] == c.buf
        invariant Value() == GatherAll(g, c.handed)
      {
        ghost var d := SessionStep(Session(c.reader, c.buf, []), input[i]);
        SessionGoesOn(start, input, i);
        GatherConcat(g, c.handed, d.handed);
        ReceiveByte(input[i], valBuf);
        c := Session(d.reader, d.buf, c.handed + d.handed);
        i := i + 1;
      }
      SessionFromStart(start.reader, start.buf, input, i);
    }
  }

  lemma GatherSnoc(g: Gathered, ps: seq<Packet>, p: Packet)
    requires Valid(g.asm)
    ensures GatherAll(g, ps + [p]) == Gather(GatherAll(g, ps), p)
  {
    assert (ps + [p])[..|ps|] == ps;
  }

  lemma GatherOne(g: Gathered, p: Packet)
    requires Valid(g.asm)
    ensures GatherAll(g, [p]) == Gather(g, p)
  {
    assert [p][..0] == [];
  }

  lemma {:induction false} GatherConcat(g: Gathered, ps: seq<Packet>, qs: seq<Packet>)
    requires Valid(g.asm)
    ensures GatherAll(g, ps + qs) == GatherAll(GatherAll(g, ps), qs)
    decreases |qs|
  {
    if qs == [] {
      assert ps + qs == ps;
    } else {
      GatherConcat(g, ps, qs[..|qs| - 1]);
      assert (ps + qs)[..|ps + qs| - 1] == ps + qs[..|qs| - 1];
    }
  }
}
