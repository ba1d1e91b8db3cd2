/** How a video frame travels: one FRAME_START packet, then FRAME_DATA packets of at most 32 KB. */
module FrameCodec {
  import opened Bytes
  import opened Tlv

  type Frame = seq<byte>

  const CHUNK_SIZE := 32768
  const MAX_FRAME := 640 * 480 * 2

  /** The four bytes of n, big-endian; what exceeds 32 bits is lost. */
  function Be32Bytes(n: nat): (v: seq<byte>)
    ensures |v| == 4
  {
    [ByteOf(n / 0x100_0000), ByteOf(n / 0x1_0000), ByteOf(n / 0x100), ByteOf(n)]
  }

  function Be32(v: seq<byte>): nat
    requires |v| >= 4
  {
    v[0] as nat * 0x100_0000 + v[1] as nat * 0x1_0000 + v[2] as nat * 0x100 + v[3] as nat
  }

  lemma Be32RoundTrip(n: nat)
    requires n < 0x1_0000_0000
    ensures Be32(Be32Bytes(n)) == n
  {
    assert n / 0x1_0000 == n / 0x100_0000 * 0x100 + n / 0x1_0000 % 0x100;
    assert n / 0x100 == n / 0x1_0000 * 0x100 + n / 0x100 % 0x100;
  }

  function ChunkSize(f: Frame): (n: nat)
    ensures n <= |f| && n <= CHUNK_SIZE && (f != [] ==> n > 0)
  {
    if |f| > CHUNK_SIZE then CHUNK_SIZE else |f|
  }

  function Chunks(f: Frame): (ps: seq<Packet>)
    ensures forall i :: 0 <= i < |ps| ==> ps[i].tag == FRAME_DATA && ps[i].value != []
    decreases |f|
  {
    if f == [] then [] else [Packet(FRAME_DATA, f[..ChunkSize(f)])] + Chunks(f[ChunkSize(f)..])
  }

  function StartPacket(n: nat): Packet {
    Packet(FRAME_START, Be32Bytes(n))
  }

  function FramePackets(f: Frame): seq<Packet> {
    [StartPacket(|f|)] + Chunks(f)
  }

  function EncodeFrame(f: Frame): seq<byte> {
    EncodeAll(FramePackets(f))
  }

  /** The packets of several frames sent one after the other. */
  function PacketsOf(fs: seq<Frame>): seq<Packet> {
    if fs == [] then [] else FramePackets(fs[0]) + PacketsOf(fs[1..])
  }

  function EncodeFrames(fs: seq<Frame>): seq<byte> {
    EncodeAll(PacketsOf(fs))
  }

  function ChunksSize(n: nat): nat {
    n + FRAME_OVERHEAD * ((n + CHUNK_SIZE - 1) / CHUNK_SIZE)
  }

  /** Every byte of the frame costs one byte; every 32 KB started costs one packet overhead. */
  lemma {:induction false} EncodeChunksSize(f: Frame)
    ensures |EncodeAll(Chunks(f))| == ChunksSize(|f|)
    decreases |f|
  {
    if f == [] {
      assert SealAll([]) == [];
    } else {
      EncodeChunksSize(f[ChunkSize(f)..]);
      FirstChunkSize(f);
      ChunkCount(|f|, ChunkSize(f));
    }
  }

  lemma FirstChunkSize(f: Frame)
    requires f != []
    ensures var n := ChunkSize(f);
            |EncodeAll(Chunks(f))| == FRAME_OVERHEAD + n + |EncodeAll(Chunks(f[n..]))|
  {
    var n := ChunkSize(f);
    EncodeAllConcat([Packet(FRAME_DATA, f[..n])], Chunks(f[n..]));
    EncodeAllOne(Packet(FRAME_DATA, f[..n]));
  }

  lemma ChunkCount(size: nat, n: nat)
    requires size > 0 && n == if size > CHUNK_SIZE then CHUNK_SIZE else size
    ensures ChunksSize(size) == FRAME_OVERHEAD + n + ChunksSize(size - n)
  {
  }

  lemma EncodeFrameSize(f: Frame)
    ensures |EncodeFrame(f)| == 8 + |f| + 4 * ((|f| + 32767) / 32768)
  {
    EncodeChunksSize(f);
    EncodeAllConcat([StartPacket(|f|)], Chunks(f));
    EncodeAllOne(StartPacket(|f|));
  }

  lemma {:induction false} PacketsOfConcat(fs: seq<Frame>, gs: seq<Frame>)
    ensures PacketsOf(fs + gs) == PacketsOf(fs) + PacketsOf(gs)
  {
    if fs == [] {
      assert fs + gs == gs;
    } else {
      PacketsOfConcat(fs[1..], gs);
      assert (fs + gs)[1..] == fs[1..] + gs;
      ConcatAssociative(FramePackets(fs[0]), PacketsOf(fs[1..]), PacketsOf(gs));
    }
  }

  lemma PacketsOfOne(f: Frame)
    ensures PacketsOf([f]) == FramePackets(f)
  {
    assert [f][1..] == [];
    assert FramePackets(f) + [] == FramePackets(f);
  }

  lemma EncodeFramesSnoc(fs: seq<Frame>, f: Frame)
    ensures EncodeFrames(fs + [f]) == EncodeFrames(fs) + EncodeFrame(f)
  {
    PacketsOfConcat(fs, [f]);
    PacketsOfOne(f);
    EncodeAllConcat(PacketsOf(fs), FramePackets(f));
  }
}
