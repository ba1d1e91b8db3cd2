/** ai_receiver.py: packer, stream reader, frame reassembler and the byte loop of one connection. */
module AiReceiver {
  import opened Bytes
  import opened Tlv
  import opened FrameCodec
  import opened Options

  // ---- packing ----

  method Crc8(data: seq<byte>) returns (crc: byte)
    ensures crc == XorAll(0, data)
    ensures forall k :: 0 <= k < 8 ==> Bit(crc, k) == Ones(data, k) % 2
  {
    crc := 0;
    for i := 0 to |data|
      invariant crc == XorAll(0, data[..i])
    {
      crc := Xor(crc, data[i]);
      assert data[..i + 1][..i] == data[..i];
    }
    assert data[..|data|] == data;
    forall k | 0 <= k < 8 ensures Bit(crc, k) == Ones(data, k) % 2 {
      XorAllBits(0, data, k);
      ZeroBits(k);
    }
  }

  function LengthBytes(n: nat): seq<byte> {
    [ByteOf(n / 256), ByteOf(n)]
  }

  /** tlv_pack: None stands for the ValueError. */
  method TlvPack(tag: byte, value: seq<byte>) returns (packed: Option<seq<byte>>)
    ensures packed == if |value| > 65535 then None else Some(Encode(Packet(tag, value)))
  {
    if |value| > MAX_VALUE {
      return None;
    }
    var header := [tag] + LengthBytes(|value|);
    var crc := Crc8([tag] + LengthBytes(|value|) + value);
    ChecksumIsCrc8(tag, value);
    assert header == Header(tag, |value|);
    return Some(header + value + [crc]);
  }

  /** The Python check over the packed bytes is the C check over tag, length and value. */
  lemma ChecksumIsCrc8(tag: byte, value: seq<byte>)
    ensures XorAll(0, [tag] + LengthBytes(|value|) + value) == Checksum(tag, value)
  {
    var hi, lo := ByteOf(|value| / 256), ByteOf(|value|);
    var head := [tag] + LengthBytes(|value|);
    XorAllConcat(0, head, value);
    XorAllConcat(0, [tag], [hi]);
    XorAllConcat(0, [tag] + [hi], [lo]);
    assert head == [tag] + [hi] + [lo];
    XorAllOne(0, tag);
    XorAllOne(tag, hi);
    XorAllOne(Xor(tag, hi), lo);
    XorZero(tag);
  }

  // ---- the stream reader ----

  datatype Phase = HEADER | BODY | CRC

  datatype Reader = Reader(state: Phase, header: seq<byte>, tag: byte, length: nat, body: seq<byte>)

  predicate Valid(r: Reader) {
    match r.state
    case HEADER => |r.header| < HEADER_SIZE && r.body == []
    case BODY => AtBody(r) && (r.length == 0 || |r.body| < r.length)
    case CRC => AtBody(r) && |r.body| == r.length > 0
  }

  predicate AtBody(r: Reader) {
    |r.header| == HEADER_SIZE && r.tag == r.header[0] && r.length == LenField(r.header)
  }

  /** One byte; a packet is handed out whatever its check byte, which is computed and dropped. */
  function Step(r: Reader, x: byte): (s: (Reader, Option<Packet>))
    requires Valid(r)
    ensures Valid(s.0)
  {
    match r.state
    case HEADER =>
      var h := r.header + [x];
      if |h| == HEADER_SIZE then
        (r.(header := h, tag := h[0], length := LenField(h), body := [], state := BODY), None)
      else
        (r.(header := h), None)
    case BODY =>
      var b := r.body + [x];
      (r.(body := b, state := if |b| == r.length then CRC else BODY), None)
    case CRC =>
      (r.(header := [], body := [], state := HEADER), Some(Packet(r.tag, r.body)))
  }

  function FeedAll(r: Reader, data: seq<byte>): (s: (Reader, Option<Packet>))
    requires Valid(r)
    ensures Valid(s.0)
    decreases |data|
  {
    if data == [] then (r, None) else
    var s := Step(r, data[0]);
    if s.1.Some? then s else FeedAll(s.0, data[1..])
  }

  class TLVReader {
    var state: Phase
    var header: seq<byte>
    var tag: byte
    var length: nat
    var body: seq<byte>

    function Value(): Reader
      reads this
    {
      Reader(state, header, tag, length, body)
    }

    constructor ()
      ensures Value() == Reader(HEADER, [], 0, 0, [])
    {
      state, header, tag, length, body := HEADER, [], 0, 0, [];
    }

    method Feed(data: seq<byte>) returns (result: Option<Packet>)
      requires Valid(Value())
      modifies this
      ensures (Value(), result) == FeedAll(old(Value()), data)
    {
      for i := 0 to |data|
        invariant Valid(Value())
        invariant FeedAll(Value(), data[i..]) == FeedAll(old(Value()), data)
      {
        var x := data[i];
        assert data[i..][1..] == data[i + 1..];
        match state {
          case HEADER =>
            header := header + [x];
            if |header| == HEADER_SIZE {
              tag := header[0];
              length := header[1] as nat * 256 + header[2] as nat;
              body := [];
              state := BODY;
            }
          case BODY =>
            body := body + [x];
            if |body| == length {
              state := CRC;
            }
          case CRC =>
            var expected := Crc8(header + body);
            header := [];
            state := HEADER;
            var value := body;
            body := [];
            return Some(Packet(tag, value));
        }
      }
      return None;
    }
  }

  // ---- the frame reassembler ----

  datatype Reassembler = Reassembler(expectedSize: nat, buffer: seq<byte>)

  /** Raises stands for the struct.error of a FRAME_START that does not carry four bytes. */
  datatype Fed = NoFrame | Whole(frame: Frame) | Raises

  function Take(a: Reassembler, p: Packet): (Reassembler, Fed) {
    if p.tag == FRAME_START then
      if |p.value| != 4 then (a, Raises) else (Reassembler(Be32(p.value), []), NoFrame)
    else if p.tag == FRAME_DATA then
      var b := a.buffer + p.value;
      if |b| >= a.expectedSize > 0 then (Reassembler(0, []), Whole(b[..a.expectedSize]))
      else (a.(buffer := b), NoFrame)
    else (a, NoFrame)
  }

  class FrameReassembler {
    var expectedSize: nat
    var buffer: seq<byte>

    function Value(): Reassembler
      reads this
    {
      Reassembler(expectedSize, buffer)
    }

    constructor ()
      ensures Value() == Reassembler(0, [])
    {
      expectedSize, buffer := 0, [];
    }

    method Feed(tag: byte, value: Value) returns (fed: Fed)
      modifies this
      ensures (Value(), fed) == Take(old(Value()), Packet(tag, value))
    {
      if tag == FRAME_START {
        if |value| != 4 {
          return Raises;
        }
        expectedSize := Be32(value);
        buffer := [];
        return NoFrame;
      } else if tag == FRAME_DATA {
        buffer := buffer + value;
        if |buffer| >= expectedSize > 0 {
          var frame := buffer[..expectedSize];
          buffer := [];
          expectedSize := 0;
          return Whole(frame);
        }
      }
      return NoFrame;
    }
  }

  // ---- one connection ----

  /** What a connection's thread has: its reader, its reassembler, the frames so far, and
      whether an exception has ended it. */
  datatype Client = Client(reader: Reader, frames: Gathered)

  datatype Gathered = Gathered(asm: Reassembler, got: seq<Frame>, raised: bool)

  const NEW_GATHERED := Gathered(Reassembler(0, []), [], false)
  const NEW_READER := Reader(HEADER, [], 0, 0, [])
  const NEW_CLIENT := Client(NEW_READER, NEW_GATHERED)

  function Gather(g: Gathered, p: Packet): Gathered {
    if g.raised then g else
    var t := Take(g.asm, p);
    match t.1
    case NoFrame => g.(asm := t.0)
    case Whole(f) => g.(asm := t.0, got := g.got + [f])
    case Raises => g.(asm := t.0, raised := true)
  }

  function GatherAll(g: Gathered, ps: seq<Packet>): Gathered {
    if ps == [] then g else Gather(GatherAll(g, ps[..|ps| - 1]), ps[|ps| - 1])
  }

  function ClientStep(c: Client, x: byte): (d: Client)
    requires Valid(c.reader)
    ensures Valid(d.reader)
  {
    if c.frames.raised then c else
    var s := Step(c.reader, x);
    Client(s.0, if s.1.Some? then Gather(c.frames, s.1.value) else c.frames)
  }

  function ClientRun(c: Client, data: seq<byte>): (d: Client)
    requires Valid(c.reader)
    ensures Valid(d.reader)
  {
    if data == [] then c else ClientStep(ClientRun(c, data[..|data| - 1]), data[|data| - 1])
  }

  class ClientThread {
    const reader: TLVReader
    const reassembler: FrameReassembler
    var got: seq<Frame>
    var raised: bool

    function Value(): Client
      reads this, reader, reassembler
    {
      Client(reader.Value(), Gathered(reassembler.Value(), got, raised))
    }

    constructor ()
      ensures fresh(reader) && fresh(reassembler) && Value() == NEW_CLIENT
    {
      reader := new TLVReader();
      reassembler := new FrameReassembler();
      got, raised := [], false;
    }

    /** The loop over the bytes of one recv; an exception leaves it for good. */
    method Receive(data: seq<byte>)
      requires Valid(reader.Value())
      modifies this, reader, reassembler
      ensures Valid(reader.Value()) && Value() == ClientRun(old(Value()), data)
    {
      for i := 0 to |data|
        invariant Valid(reader.Value()) && Value() == ClientRun(old(Value()), data[..i])
      {
        assert data[..i + 1][..i] == data[..i];
        if raised {
          continue;
        }
        var result := reader.Feed([data[i]]);
        if result.Some? {
          var p := result.value;
          if p.tag == FRAME_START || p.tag == FRAME_DATA {
            var fed := reassembler.Feed(p.tag, p.value);
            match fed {
              case Whole(frame) => got := got + [frame];
              case NoFrame =>
              case Raises => raised := true;
            }
          }
        }
      }
      assert data[..|data|] == data;
    }
  }
}
