/**
 The TLV wire format, stated without reference to any program that writes or reads it:
 what one packet looks like on the wire, and how any byte stream splits into packets.
 */
module Tlv {
  import opened Bytes

  const HEARTBEAT_REQ: byte := 0x01
  const HEARTBEAT_RSP: byte := 0x02
  const MES_EVENT: byte := 0x10
  const MES_ACK: byte := 0x11
  const FRAME_DATA: byte := 0x20
  const FRAME_START: byte := 0x22
  const AI_RESULT: byte := 0x30

  const HEADER_SIZE := 3
  const FRAME_OVERHEAD := 4
  const MAX_VALUE := 65535

  type Value = v: seq<byte> | |v| <= MAX_VALUE

  datatype Packet = Packet(tag: byte, value: Value)

  /** One packet as it stands on the wire, whatever its check byte. */
  datatype Unit = Unit(tag: byte, value: Value, check: byte)

  /** What a reader reports when a unit is complete. */
  datatype Event = Accepted(packet: Packet) | Rejected(tag: byte)

  // ---- one unit ----

  function Header(tag: byte, len: nat): (h: seq<byte>) {
    [tag, ByteOf(len / 256), ByteOf(len)]
  }

  function LenField(b: seq<byte>): (n: nat)
    requires |b| >= HEADER_SIZE
    ensures n <= MAX_VALUE
  {
    b[1] as nat * 256 + b[2] as nat
  }

  function Checksum(tag: byte, value: seq<byte>): byte {
    XorAll(Xor(Xor(tag, ByteOf(|value| / 256)), ByteOf(|value|)), value)
  }

  function UnitBytes(u: Unit): (b: seq<byte>) {
    Header(u.tag, |u.value|) + u.value + [u.check]
  }

  function Seal(p: Packet): Unit {
    Unit(p.tag, p.value, Checksum(p.tag, p.value))
  }

  function Encode(p: Packet): seq<byte> {
    UnitBytes(Seal(p))
  }

  predicate Sound(u: Unit) {
    u.check == Checksum(u.tag, u.value)
  }

  function Verdict(u: Unit): Event {
    if Sound(u) then Accepted(Packet(u.tag, u.value)) else Rejected(u.tag)
  }

  // ---- streams ----

  function Flatten(us: seq<Unit>): seq<byte> {
    if us == [] then [] else UnitBytes(us[0]) + Flatten(us[1..])
  }

  function SealAll(ps: seq<Packet>): (us: seq<Unit>)
    ensures |us| == |ps| && forall i :: 0 <= i < |ps| ==> us[i] == Seal(ps[i])
  {
    seq(|ps|, i requires 0 <= i < |ps| => Seal(ps[i]))
  }

  function EncodeAll(ps: seq<Packet>): seq<byte> {
    Flatten(SealAll(ps))
  }

  predicate NonEmpty(ps: seq<Packet>) {
    forall i :: 0 <= i < |ps| ==> ps[i].value != []
  }

  function Verdicts(us: seq<Unit>): (es: seq<Event>)
    ensures |es| == |us| && forall i :: 0 <= i < |us| ==> es[i] == Verdict(us[i])
  {
    seq(|us|, i requires 0 <= i < |us| => Verdict(us[i]))
  }

  function AcceptAll(ps: seq<Packet>): (es: seq<Event>)
    ensures |es| == |ps| && forall i :: 0 <= i < |ps| ==> es[i] == Accepted(ps[i])
  {
    seq(|ps|, i requires 0 <= i < |ps| => Accepted(ps[i]))
  }

  /** No unit is complete yet. */
  predicate Incomplete(b: seq<byte>) {
    |b| < HEADER_SIZE || |b| < FRAME_OVERHEAD + LenField(b)
  }

  function HeadSize(b: seq<byte>): (n: nat)
    requires !Incomplete(b)
    ensures FRAME_OVERHEAD <= n <= |b|
  {
    FRAME_OVERHEAD + LenField(b)
  }

  function HeadUnit(b: seq<byte>): Unit
    requires !Incomplete(b)
  {
    Unit(b[0], b[HEADER_SIZE..HeadSize(b) - 1], b[HeadSize(b) - 1])
  }

  datatype Parse = Parse(units: seq<Unit>, rest: seq<byte>)

  function Split(b: seq<byte>): Parse {
    if Incomplete(b) then
      Parse([], b)
    else
      var tail := Split(b[HeadSize(b)..]);
      Parse([HeadUnit(b)] + tail.units, tail.rest)
  }

  // ---- facts about the format ----

  lemma HeaderRoundTrip(tag: byte, len: nat)
    requires len <= MAX_VALUE
    ensures LenField(Header(tag, len)) == len
  {
  }

  /** A complete unit at the head of b is what b starts with, and it is the only one. */
  lemma HeadUnitBytes(b: seq<byte>)
    requires !Incomplete(b)
    ensures UnitBytes(HeadUnit(b)) == b[..HeadSize(b)]
  {
    var n := LenField(b);
    assert ByteOf(n / 256) == b[1] && ByteOf(n) == b[2];
    assert b[..HeadSize(b)] == b[..3] + b[3..HeadSize(b) - 1] + [b[HeadSize(b) - 1]];
    assert b[..3] == Header(b[0], n);
  }

  lemma HeadUnitUnique(u: Unit, tail: seq<byte>)
    ensures var b := UnitBytes(u) + tail;
            !Incomplete(b) && HeadSize(b) == |UnitBytes(u)| == 4 + |u.value|
            && HeadUnit(b) == u && b[HeadSize(b)..] == tail
  {
    var b := UnitBytes(u) + tail;
    HeaderRoundTrip(u.tag, |u.value|);
    assert b[..3] == Header(u.tag, |u.value|);
    assert LenField(b) == LenField(b[..3]);
    assert b[3..3 + |u.value|] == u.value;
  }

  lemma FlattenCons(u: Unit, us: seq<Unit>)
    ensures Flatten([u] + us) == UnitBytes(u) + Flatten(us)
  {
    assert ([u] + us)[1..] == us;
  }

  lemma {:induction false} FlattenConcat(us: seq<Unit>, vs: seq<Unit>)
    ensures Flatten(us + vs) == Flatten(us) + Flatten(vs)
  {
    if us == [] {
      assert us + vs == vs;
    } else {
      FlattenConcat(us[1..], vs);
      FlattenCons(us[0], us[1..] + vs);
      assert [us[0]] + (us[1..] + vs) == us + vs;
      ConcatAssociative(UnitBytes(us[0]), Flatten(us[1..]), Flatten(vs));
    }
  }

  lemma HeadThenTail(b: seq<byte>)
    requires !Incomplete(b)
    ensures UnitBytes(HeadUnit(b)) + b[HeadSize(b)..] == b
  {
    HeadUnitBytes(b);
    CutInTwo(b, HeadSize(b));
  }

  lemma SplitCons(u: Unit, b: seq<byte>)
    ensures Split(UnitBytes(u) + b) == Parse([u] + Split(b).units, Split(b).rest)
  {
    HeadUnitUnique(u, b);
  }

  /** Every byte string, garbage included, is a run of units and an incomplete rest. */
  lemma {:induction false} SplitCoversAllBytes(b: seq<byte>)
    ensures Flatten(Split(b).units) + Split(b).rest == b
    ensures Incomplete(Split(b).rest)
    decreases |b|
  {
    if Incomplete(b) {
      assert [] + b == b;
    } else {
      var u, tail := HeadUnit(b), b[HeadSize(b)..];
      var us, rest := Split(tail).units, Split(tail).rest;
      SplitCoversAllBytes(tail);
      HeadThenTail(b);
      FlattenCons(u, us);
      ConcatAssociative(UnitBytes(u), Flatten(us), rest);
    }
  }

  /** ... and it is so in exactly one way. */
  lemma {:induction false} SplitIsUnique(us: seq<Unit>, rest: seq<byte>)
    requires Incomplete(rest)
    ensures Split(Flatten(us) + rest) == Parse(us, rest)
    decreases |us|
  {
    if us == [] {
      assert Flatten(us) + rest == rest;
    } else {
      var u, more := us[0], us[1..];
      assert us == [u] + more;
      SplitIsUnique(more, rest);
      SplitCons(u, Flatten(more) + rest);
      FlattenCons(u, more);
      ConcatAssociative(UnitBytes(u), Flatten(more), rest);
    }
  }

  lemma VerdictsOfSealed(ps: seq<Packet>)
    ensures Verdicts(SealAll(ps)) == AcceptAll(ps)
  {
  }

  lemma EncodeAllConcat(ps: seq<Packet>, qs: seq<Packet>)
    ensures EncodeAll(ps + qs) == EncodeAll(ps) + EncodeAll(qs)
  {
    assert SealAll(ps + qs) == SealAll(ps) + SealAll(qs);
    FlattenConcat(SealAll(ps), SealAll(qs));
  }

  lemma EncodeAllOne(p: Packet)
    ensures EncodeAll([p]) == Encode(p)
  {
    assert SealAll([p]) == [Seal(p)] + [];
    FlattenCons(Seal(p), []);
    assert Encode(p) + [] == Encode(p);
  }

  lemma ProperPrefixIncomplete(u: Unit, k: nat)
    requires k < |UnitBytes(u)|
    ensures Incomplete(UnitBytes(u)[..k])
  {
    HeadUnitUnique(u, []);
    assert UnitBytes(u) + [] == UnitBytes(u);
    if k >= HEADER_SIZE {
      assert LenField(UnitBytes(u)[..k]) == LenField(UnitBytes(u));
    }
  }
}
