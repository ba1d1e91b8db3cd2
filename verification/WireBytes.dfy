/**
 What stands on the wire, in plain numbers: the check byte as a parity over the bits of a packet,
 and the tags, lengths and byte order of the packets that carry a frame.
 */
module WireBytes {
  import opened Bytes
  import opened Tlv
  import opened FrameCodec

  // ---- the check byte ----

  lemma XorOfThree(t: byte, h: byte, l: byte, k: nat)
    requires k < 8
    ensures Bit(Xor(Xor(t, h), l), k) == ((Bit(t, k) + Bit(h, k)) % 2 + Bit(l, k)) % 2
  {
    XorIsBitwise(t, h, k);
    XorIsBitwise(Xor(t, h), l, k);
  }

  lemma BitsFromStart(start: byte, v: seq<byte>, t: nat, h: nat, l: nat, k: nat)
    requires k < 8 && Bit(start, k) == ((t + h) % 2 + l) % 2
    ensures Bit(XorAll(start, v), k) == (t + h + l + Ones(v, k)) % 2
  {
    XorAllBits(start, v, k);
    ParityOfFour(t, h, l, Ones(v, k));
  }

  lemma LengthBytes(n: nat)
    requires n <= MAX_VALUE
    ensures ByteOf(n / 256) == n / 256 && ByteOf(n) == n % 256
  {
  }

  /** Each bit of the check byte is the parity of that bit over tag, length and value. */
  lemma ChecksumBits(tag: byte, value: Value, k: nat)
    requires k < 8
    ensures Bit(Checksum(tag, value), k) ==
            (Bit(tag, k) + Bit(|value| / 256, k) + Bit(|value| % 256, k) + Ones(value, k)) % 2
  {
    var hi, lo := ByteOf(|value| / 256), ByteOf(|value|);
    var start := Xor(Xor(tag, hi), lo);
    LengthBytes(|value|);
    StartOfChecksum(tag, value, start);
    XorOfThree(tag, hi, lo, k);
    BitsFromStart(start, value, Bit(tag, k), Bit(hi, k), Bit(lo, k), k);
  }

  lemma ParityOfFour(t: nat, h: nat, l: nat, o: nat)
    ensures (((t + h) % 2 + l) % 2 + o) % 2 == (t + h + l + o) % 2
  {
  }

  lemma OnesSnoc(v: seq<byte>, x: byte, k: nat)
    ensures Ones(v + [x], k) == Ones(v, k) + Bit(x, k)
  {
    assert (v + [x])[..|v|] == v;
  }

  lemma OnesOfThree(a: byte, b: byte, c: byte, k: nat)
    ensures Ones([a, b, c], k) == Bit(a, k) + Bit(b, k) + Bit(c, k)
  {
    OnesOne(a, k);
    OnesSnoc([a], b, k);
    OnesSnoc([a, b], c, k);
    assert [a] + [b] == [a, b] && [a, b] + [c] == [a, b, c];
  }

  lemma UnitOnes(u: Unit, k: nat)
    ensures Ones(UnitBytes(u), k) ==
            Bit(u.tag, k) + Bit(|u.value| / 256, k) + Bit(|u.value| % 256, k) + Ones(u.value, k) + Bit(u.check, k)
  {
    var h := Header(u.tag, |u.value|);
    LengthBytes(|u.value|);
    OnesOfThree(u.tag, ByteOf(|u.value| / 256), ByteOf(|u.value|), k);
    OnesConcat(h, u.value, k);
    OnesSnoc(h + u.value, u.check, k);
  }

  /** Every bit is set in an even number of the bytes. */
  predicate EvenParity(b: seq<byte>) {
    forall k :: 0 <= k < 8 ==> Ones(b, k) % 2 == 0
  }

  /** A unit is sound if and only if all its bytes together, the check byte included, have even parity. */
  lemma SoundIffEvenParity(u: Unit)
    ensures Sound(u) <==> EvenParity(UnitBytes(u))
  {
    if Sound(u) {
      forall k | 0 <= k < 8 ensures Ones(UnitBytes(u), k) % 2 == 0 {
        CheckBitIffEven(u, k);
      }
    }
    if EvenParity(UnitBytes(u)) {
      forall k | 0 <= k < 8 ensures Bit(u.check, k) == Bit(Checksum(u.tag, u.value), k) {
        CheckBitIffEven(u, k);
      }
      ByteBits(u.check, Checksum(u.tag, u.value));
    }
  }

  lemma CheckBitIffEven(u: Unit, k: nat)
    requires k < 8
    ensures Ones(UnitBytes(u), k) % 2 == 0 <==> Bit(u.check, k) == Bit(Checksum(u.tag, u.value), k)
  {
    UnitOnes(u, k);
    ChecksumBits(u.tag, u.value, k);
    EvenIffSameParity(
      Bit(u.tag, k) + Bit(|u.value| / 256, k) + Bit(|u.value| % 256, k) + Ones(u.value, k), Bit(u.check, k));
  }

  lemma EvenIffSameParity(n: nat, bit: nat)
    requires bit < 2
    ensures (n + bit) % 2 == 0 <==> bit == n % 2
  {
  }

  // ---- the packets ----

  /** A packed packet byte by byte. */
  lemma PackedBytes(p: Packet)
    ensures var b := Encode(p);
            && |b| == |p.value| + 4
            && b[0] == p.tag && b[1] == |p.value| / 256 && b[2] == |p.value| % 256
            && b[3..|p.value| + 3] == p.value
            && EvenParity(b)
  {
    SoundIffEvenParity(Seal(p));
    UnitLayout(Seal(p));
  }

  lemma UnitLayout(u: Unit)
    ensures var b := UnitBytes(u);
            && |b| == |u.value| + 4
            && b[0] == u.tag && b[1] == |u.value| / 256 && b[2] == |u.value| % 256
            && b[3..|u.value| + 3] == u.value
  {
    LengthBytes(|u.value|);
  }

  /** A frame of n bytes is announced with tag 0x22 and n in four bytes, the highest first. */
  lemma StartBytes(n: nat)
    requires n < 0x1_0000_0000
    ensures var b := Encode(StartPacket(n));
            && |b| == 8 && b[0] == 0x22 && b[1] == 0 && b[2] == 4
            && b[3] as nat * 16777216 + b[4] as nat * 65536 + b[5] as nat * 256 + b[6] as nat == n
  {
    Be32RoundTrip(n);
    PackedBytes(StartPacket(n));
  }

  /** The announcement of a full frame of 614400 bytes, as it is sent. */
  lemma FullFrameStart()
    ensures Encode(StartPacket(614400)) == [0x22, 0x00, 0x04, 0x00, 0x09, 0x60, 0x00, 0x4F]
  {
    assert Be32Bytes(614400) == [0x00, 0x09, 0x60, 0x00];
    HeaderOfStart();
    XorOfStart();
    StartOfChecksum(0x22, [0x00, 0x09, 0x60, 0x00], 0x26);
  }

  lemma XorStep(a: nat, b: nat, k: nat, low: nat, high: nat)
    requires low == (a + b) % 2 && high == XorBits(a / 2, b / 2, k)
    ensures XorBits(a, b, k + 1) == low + 2 * high
  {
  }

  lemma Xor22And04()
    ensures XorBits(0x22, 0x04, 8) == 0x26
  {
    XorBitsZero(2, 4);
    XorBitsSymmetric(0, 2, 4);
    XorStep(4, 0, 4, 0, 2);
    XorStep(8, 1, 5, 1, 4);
    XorStep(17, 2, 6, 1, 9);
    XorStep(34, 4, 7, 0, 19);
  }

  lemma Xor26And09()
    ensures XorBits(0x26, 0x09, 8) == 0x2F
  {
    XorBitsZero(2, 4);
    XorBitsSymmetric(0, 2, 4);
    XorStep(4, 1, 4, 1, 2);
    XorStep(9, 2, 5, 1, 5);
    XorStep(19, 4, 6, 1, 11);
    XorStep(38, 9, 7, 1, 23);
  }

  lemma Xor2FAnd60()
    ensures XorBits(0x2F, 0x60, 8) == 0x4F
  {
    XorBitsZero(1, 2);
    XorStep(1, 3, 2, 0, 1);
    XorStep(2, 6, 3, 0, 2);
    XorStep(5, 12, 4, 1, 4);
    XorStep(11, 24, 5, 1, 9);
    XorStep(23, 48, 6, 1, 19);
    XorStep(47, 96, 7, 1, 39);
  }

  lemma XorAllSnoc(acc: byte, v: seq<byte>, x: byte)
    ensures XorAll(acc, v + [x]) == Xor(XorAll(acc, v), x)
  {
    assert (v + [x])[..|v|] == v;
  }

  lemma XorOfStart()
    ensures XorAll(0x26, [0x00, 0x09, 0x60, 0x00]) == 0x4F
  {
    Xor26And09();
    Xor2FAnd60();
    XorZero(0x26);
    XorZero(0x4F);
    XorAllOne(0x26, 0x00);
    XorAllSnoc(0x26, [0x00], 0x09);
    XorAllSnoc(0x26, [0x00, 0x09], 0x60);
    XorAllSnoc(0x26, [0x00, 0x09, 0x60], 0x00);
    assert [0x00] + [0x09] == [0x00, 0x09] && [0x00, 0x09] + [0x60] == [0x00, 0x09, 0x60];
    assert [0x00, 0x09, 0x60] + [0x00] == [0x00, 0x09, 0x60, 0x00];
  }

  lemma StartOfChecksum(tag: byte, v: Value, start: byte)
    requires start == Xor(Xor(tag, ByteOf(|v| / 256)), ByteOf(|v|))
    ensures Checksum(tag, v) == XorAll(start, v)
  {
  }

  lemma HeaderOfStart()
    ensures Xor(Xor(0x22, 0), 4) == 0x26
  {
    XorZero(0x22);
    Xor22And04();
  }

  function Least(a: nat, b: nat): nat {
    if a < b then a else b
  }

  /** The packets behind the announcement carry tag 0x20 and 32768 bytes each, the last one the rest. */
  lemma {:induction false} ChunkIs(f: Frame, i: nat)
    ensures |Chunks(f)| == (|f| + 32767) / 32768
    ensures i < |Chunks(f)| ==> Chunks(f)[i] == Packet(0x20, f[32768 * i..Least(32768 * (i + 1), |f|)])
    decreases |f|
  {
    if f == [] {
    } else if |f| <= 32768 {
      assert Chunks(f[|f|..]) == [];
      assert f[..|f|] == f;
    } else {
      var rest := f[32768..];
      ChunkIs(rest, if i == 0 then 0 else i - 1);
      if 0 < i < |Chunks(f)| {
        assert Chunks(f)[i] == Chunks(rest)[i - 1];
        SliceOfRest(f, 32768 * (i - 1), Least(32768 * i, |rest|));
      }
    }
  }

  lemma SliceOfRest(f: Frame, i: nat, j: nat)
    requires 32768 <= |f| && i <= j <= |f| - 32768
    ensures f[32768..][i..j] == f[32768 + i..32768 + j]
  {
  }
}
