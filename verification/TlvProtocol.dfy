/**
 tlv_protocol.c: the packer and the byte-at-a-time stream reader of the gateway.
 The reader's arithmetic is on uint8_t and uint16_t counters, so every increment
 here wraps; that no counter ever does wrap is part of what is proved.
 */
module TlvProtocol {
  import opened Bytes
  import opened Tlv
  import opened WireBytes

  // ---- packing ----

  method TlvChecksum(tag: byte, value: seq<byte>) returns (crc: byte)
    requires |value| <= MAX_VALUE
    ensures crc == Checksum(tag, value)
    ensures forall k :: 0 <= k < 8 ==>
              Bit(crc, k) == (Bit(tag, k) + Bit(|value| / 256, k) + Bit(|value| % 256, k) + Ones(value, k)) % 2
  {
    crc := Xor(Xor(tag, ByteOf(|value| / 256)), ByteOf(|value|));
    ghost var start := crc;
    var i := 0;
    while i < |value|
      invariant 0 <= i <= |value|
      invariant crc == XorAll(start, value[..i])
    {
      crc := Xor(crc, value[i]);
      assert value[..i + 1][..i] == value[..i];
      i := i + 1;
    }
    assert value[..i] == value;
    forall k | 0 <= k < 8
      ensures Bit(crc, k) == (Bit(tag, k) + Bit(|value| / 256, k) + Bit(|value| % 256, k) + Ones(value, k)) % 2
    {
      ChecksumBits(tag, value, k);
    }
  }

  /** Writes one packet into the caller's buffer, or nothing at all when it does not fit. */
  method TlvPack(tag: byte, value: Value, frame: array<byte>) returns (total: nat)
    modifies frame
    ensures total == if |value| + 4 <= frame.Length then |value| + 4 else 0
    ensures total != 0 ==> frame[..total] == Encode(Packet(tag, value))
    ensures frame[total..] == old(frame[total..])
  {
    total := FRAME_OVERHEAD + |value|;
    if total > frame.Length {
      return 0;
    }
    frame[0] := tag;
    frame[1] := ByteOf(|value| / 256);
    frame[2] := ByteOf(|value|);
    forall i | 0 <= i < |value| {
      frame[HEADER_SIZE + i] := value[i];
    }
    var crc := TlvChecksum(tag, value);
    frame[HEADER_SIZE + |value|] := crc;
    assert frame[..total] == Header(tag, |value|) + value + [crc];
  }

  // ---- the stream reader, as a value ----

  datatype Phase = HEADER | BODY | CRC

  datatype Reader = Reader(phase: Phase, header: seq<byte>, headerPos: nat,
                           tag: byte, len: nat, bodyPos: nat)

  /** What one byte makes tlv_reader_feed do: read on, or set *tag and return. */
  datatype Outcome = ReadsOn | Returns(tag: byte, ret: int)

  datatype StepResult = StepResult(reader: Reader, buf: seq<byte>, outcome: Outcome)

  predicate Valid(r: Reader) {
    && |r.header| == HEADER_SIZE
    && r.len <= MAX_VALUE
    && match r.phase
       case HEADER => r.headerPos < HEADER_SIZE && r.bodyPos == 0
       case BODY => AtBody(r) && r.bodyPos < r.len
       case CRC => AtBody(r) && r.bodyPos == r.len
  }

  predicate AtBody(r: Reader)
    requires |r.header| == HEADER_SIZE
  {
    r.headerPos == HEADER_SIZE && r.tag == r.header[0] && r.len == LenField(r.header)
  }

  /** tlv_reader_init: the tag and the length of the last packet stay behind. */
  function Reset(r: Reader): Reader {
    r.(phase := HEADER, header := [0, 0, 0], headerPos := 0, bodyPos := 0)
  }

  function StepHeader(r: Reader, x: byte): (s: Reader)
    requires Valid(r) && r.phase.HEADER?
  {
    var h := r.header[r.headerPos := x];
    var pos := (r.headerPos + 1) % 0x100;
    if pos == HEADER_SIZE then
      var len := LenField(h);
      r.(header := h, headerPos := pos, tag := h[0], len := len, bodyPos := 0,
         phase := if len == 0 then CRC else BODY)
    else
      r.(header := h, headerPos := pos)
  }

  /** A byte past the end of the caller's buffer is counted but not kept. */
  function StepBody(r: Reader, buf: seq<byte>, x: byte): (s: (Reader, seq<byte>))
  {
    var pos := (r.bodyPos + 1) % 0x1_0000;
    (r.(bodyPos := pos, phase := if pos >= r.len then CRC else BODY),
     if r.bodyPos < |buf| then buf[r.bodyPos := x] else buf)
  }

  /** The check byte that the reader expects; the length is passed as a uint16_t. */
  function Expected(r: Reader, buf: seq<byte>): byte {
    var seen := (if r.bodyPos < |buf| then r.bodyPos else |buf|) % 0x1_0000;
    Checksum(r.tag, buf[..seen])
  }

  function Step(r: Reader, buf: seq<byte>, x: byte): (s: StepResult)
    requires Valid(r)
    ensures Valid(s.reader) && |s.buf| == |buf|
    ensures s.outcome.Returns? ==> -1 <= s.outcome.ret <= MAX_VALUE && s.reader == Reset(r)
  {
    match r.phase
    case HEADER => StepResult(StepHeader(r, x), buf, ReadsOn)
    case BODY => var s := StepBody(r, buf, x); StepResult(s.0, s.1, ReadsOn)
    case CRC => StepResult(Reset(r), buf, Returns(r.tag, if x == Expected(r, buf) then r.len else -1))
  }

  /** One call of tlv_reader_feed: it returns at the first completed packet. */
  function Feed(r: Reader, buf: seq<byte>, data: seq<byte>): (s: StepResult)
    requires Valid(r)
    ensures Valid(s.reader) && |s.buf| == |buf|
    decreases |data|
  {
    if data == [] then StepResult(r, buf, ReadsOn) else
    var s := Step(r, buf, data[0]);
    if s.outcome.Returns? then s else Feed(s.reader, s.buf, data[1..])
  }

  // ---- the stream reader, as it updates its fields ----

  class TlvReader {
    var state: Phase
    const header: array<byte>
    var headerPos: nat
    var tag: byte
    var len: nat
    var bodyPos: nat

    function Value(): Reader
      reads this, header
    {
      Reader(state, header[..], headerPos, tag, len, bodyPos)
    }

    constructor ()
      ensures fresh(header) && header.Length == HEADER_SIZE
      ensures Valid(Value()) && Value() == Reset(Value())
    {
      header := new byte[HEADER_SIZE](_ => 0);
      state, headerPos, tag, len, bodyPos := HEADER, 0, 0, 0, 0;
    }

    method Init()
      requires header.Length == HEADER_SIZE
      modifies this, header
      ensures Value() == Reset(old(Value()))
    {
      state := HEADER;
      headerPos := 0;
      bodyPos := 0;
      forall i | 0 <= i < header.Length { header[i] := 0; }
      assert header[..] == [0, 0, 0];
    }

    /** The TLV_STATE_HEADER case of the loop. */
    method TakeHeader(x: byte)
      requires Valid(Value()) && state.HEADER?
      modifies this, header
      ensures Value() == StepHeader(old(Value()), x)
    {
      header[headerPos] := x;
      headerPos := (headerPos + 1) % 0x100;
      if headerPos == HEADER_SIZE {
        tag := header[0];
        len := header[1] as nat * 256 + header[2] as nat;
        if len > MAX_VALUE {
          assert false;
        }
        bodyPos := 0;
        state := if len == 0 then CRC else BODY;
      }
    }

    /** The TLV_STATE_BODY case of the loop. */
    method TakeBody(x: byte, buf: array<byte>)
      requires Valid(Value()) && state.BODY? && buf != header
      modifies this, buf
      ensures (Value(), buf[..]) == StepBody(old(Value()), old(buf[..]), x)
    {
      if bodyPos < buf.Length {
        buf[bodyPos] := x;
      }
      bodyPos := (bodyPos + 1) % 0x1_0000;
      if bodyPos >= len {
        state := CRC;
      }
    }

    /** The TLV_STATE_CRC case of the loop, which always returns. */
    method TakeCrc(x: byte, buf: array<byte>) returns (ret: int, tagOut: byte)
      requires Valid(Value()) && state.CRC? && buf != header
      modifies this, header
      ensures Value() == Reset(old(Value())) && tagOut == old(tag)
      ensures ret == if x == Expected(old(Value()), buf[..]) then old(len) else -1
    {
      var seen := (if bodyPos < buf.Length then bodyPos else buf.Length) % 0x1_0000;
      var expected := TlvChecksum(tag, buf[..seen]);
      assert buf[..][..seen] == buf[..seen];
      tagOut := tag;
      Init();
      ret := if x == expected then len else -1;
    }

    /** tlv_reader_feed: *tag keeps the caller's value unless a packet completes. */
    method Read(data: seq<byte>, tagIn: byte, buf: array<byte>) returns (ret: int, tagOut: byte)
      requires Valid(Value()) && buf != header
      modifies this, header, buf
      ensures var s := Feed(old(Value()), old(buf[..]), data);
              Value() == s.reader && buf[..] == s.buf
              && ret == (if s.outcome.Returns? then s.outcome.ret else 0)
              && tagOut == (if s.outcome.Returns? then s.outcome.tag else tagIn)
    {
      tagOut := tagIn;
      var consumed := 0;
      while consumed < |data|
        invariant 0 <= consumed <= |data| && tagOut == tagIn
        invariant Valid(Value())
        invariant Feed(Value(), buf[..], data[consumed..]) == Feed(old(Value()), old(buf[..]), data)
      {
        var x := data[consumed];
        assert data[consumed..][1..] == data[consumed + 1..];
        consumed := consumed + 1;
        match state {
          case HEADER => TakeHeader(x);
          case BODY => TakeBody(x, buf);
          case CRC =>
            ret, tagOut := TakeCrc(x, buf);
            return;
        }
      }
      ret := 0;
    }
  }
}
