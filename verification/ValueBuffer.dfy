/**
 The C reader keeps a packet's value in a buffer that its caller passes to every call. The callers
 declare that buffer inside the function that reads the socket, so it does not survive from one
 call of that function to the next. Here is exactly when that is harmless.
 */
module ValueBuffer {
  import opened Bytes
  import opened Tlv
  import opened TlvProtocol
  import opened StreamReading
  import G = StreamGuarantees

  lemma {:induction false} FieldsIgnoreBuffer(r: Reader, b1: Buffer, b2: Buffer, data: seq<byte>)
    requires Valid(r)
    ensures Run(r, b1, data).reader == Run(r, b2, data).reader
  {
    if data == [] {
    } else {
      FieldsIgnoreBuffer(r, b1, b2, data[..|data| - 1]);
    }
  }

  /** A reader with no body byte taken yet reports the same with any two buffers. */
  lemma NoBodyNoMemory(r: Reader, b1: Buffer, b2: Buffer, data: seq<byte>)
    requires Valid(r) && r.bodyPos == 0
    ensures Run(r, b1, data).events == Run(r, b2, data).events
  {
    var rest := Pending(r, b1);
    assert b1[..0] == b2[..0];
    assert rest == Pending(r, b2);
    RunFollowsSplit(r, b1, rest, data);
    RunFollowsSplit(r, b2, rest, data);
  }

  lemma PendingCompletes(r: Reader, buf: Buffer, more: seq<byte>, check: byte)
    requires Valid(r) && r.bodyPos > 0 && |more| == r.len - r.bodyPos
    ensures Pending(r, buf) + (more + [check]) == UnitBytes(Unit(r.tag, buf[..r.bodyPos] + more, check))
  {
    assert r.header == Header(r.tag, r.len);
    ConcatAssociative(r.header, buf[..r.bodyPos], more + [check]);
    ConcatAssociative(buf[..r.bodyPos], more, [check]);
    ConcatAssociative(r.header, buf[..r.bodyPos] + more, [check]);
  }

  lemma FinishBody(r: Reader, buf: Buffer, more: seq<byte>, check: byte)
    requires Valid(r) && r.bodyPos > 0 && |more| == r.len - r.bodyPos
    ensures Run(r, buf, more + [check]).events
            == [Verdict(Unit(r.tag, buf[..r.bodyPos] + more, check))]
  {
    var u := Unit(r.tag, buf[..r.bodyPos] + more, check);
    PendingCompletes(r, buf, more, check);
    RunFollowsSplit(r, buf, Pending(r, buf), more + [check]);
    FlattenCons(u, []);
    SplitIsUnique([u], []);
    assert Flatten([u]) + [] == UnitBytes(u);
  }

  /** Once a body byte was taken, some two buffers tell the reader apart. */
  lemma BodyIsRemembered(r: Reader) returns (b1: Buffer, b2: Buffer, data: seq<byte>)
    requires Valid(r) && r.bodyPos > 0
    ensures Run(r, b1, data).events != Run(r, b2, data).events
  {
    b1 := G.Zeros(MAX_VALUE);
    b2 := b1[0 := 1];
    var more: seq<byte> := seq(r.len - r.bodyPos, _ => 0);
    var v1, v2 := b1[..r.bodyPos] + more, b2[..r.bodyPos] + more;
    var check := Checksum(r.tag, v1);
    data := more + [check];
    FinishBody(r, b1, more, check);
    FinishBody(r, b2, more, check);
    assert v1[0] != v2[0];
    assert Verdict(Unit(r.tag, v1, check)) == Accepted(Packet(r.tag, v1));
  }

  /**
   The value buffer may be replaced between two calls, whatever comes next,
   if and only if no body byte of an unfinished packet has been taken.
   */
  lemma BufferReplaceableIff(r: Reader)
    requires Valid(r)
    ensures (forall b1: Buffer, b2: Buffer, data ::
               Run(r, b1, data).events == Run(r, b2, data).events) <==> r.bodyPos == 0
  {
    if r.bodyPos == 0 {
      forall b1: Buffer, b2: Buffer, data
        ensures Run(r, b1, data).events == Run(r, b2, data).events
      {
        NoBodyNoMemory(r, b1, b2, data);
      }
    } else {
      var b1, b2, data := BodyIsRemembered(r);
    }
  }

  // ---- whole histories of calls ----

  /** One call of the reading function: the buffer it happens to find, and the bytes it reads. */
  datatype Call = Call(buf: Buffer, data: seq<byte>)

  function Joined(ds: seq<seq<byte>>): seq<byte> {
    if ds == [] then [] else ds[0] + Joined(ds[1..])
  }

  /** The calls read the pieces ds of the stream, whatever their buffers hold. */
  predicate Carry(calls: seq<Call>, ds: seq<seq<byte>>) {
    |calls| == |ds| && forall i :: 0 <= i < |ds| ==> calls[i].data == ds[i]
  }

  function RunCalls(r: Reader, calls: seq<Call>): seq<Event>
    requires Valid(r)
    decreases |calls|
  {
    if calls == [] then [] else
    var s := Run(r, calls[0].buf, calls[0].data);
    s.events + RunCalls(s.reader, calls[1..])
  }

  /** No call that begins with body bytes already taken completes a packet. */
  predicate Undisturbed(r: Reader, ds: seq<seq<byte>>)
    requires Valid(r)
    decreases |ds|
  {
    ds == [] ||
    var s := Run(r, G.Zeros(MAX_VALUE), ds[0]);
    (r.bodyPos == 0 || s.events == []) && Undisturbed(s.reader, ds[1..])
  }

  lemma {:induction false} CountIgnoresBuffer(r: Reader, b1: Buffer, b2: Buffer, data: seq<byte>)
    requires Valid(r)
    ensures |Run(r, b1, data).events| == |Run(r, b2, data).events|
  {
    if data == [] {
    } else {
      CountIgnoresBuffer(r, b1, b2, data[..|data| - 1]);
      FieldsIgnoreBuffer(r, b1, b2, data[..|data| - 1]);
    }
  }

  /** What one undisturbed call reports does not depend on its buffer. */
  lemma CallAgrees(r: Reader, b1: Buffer, b2: Buffer, data: seq<byte>)
    requires Valid(r) && (r.bodyPos == 0 || Run(r, G.Zeros(MAX_VALUE), data).events == [])
    ensures Run(r, b1, data).events == Run(r, b2, data).events
  {
    if r.bodyPos == 0 {
      NoBodyNoMemory(r, b1, b2, data);
    } else {
      CountIgnoresBuffer(r, b1, G.Zeros(MAX_VALUE), data);
      CountIgnoresBuffer(r, b2, G.Zeros(MAX_VALUE), data);
    }
  }

  lemma {:induction false} UndisturbedCallsAgree(r: Reader, calls: seq<Call>, ds: seq<seq<byte>>, buf: Buffer)
    requires Valid(r) && Carry(calls, ds) && Undisturbed(r, ds)
    ensures RunCalls(r, calls) == Run(r, buf, Joined(ds)).events
    decreases |ds|
  {
    if ds == [] {
      assert Joined(ds) == [];
    } else {
      var s := Run(r, buf, ds[0]);
      FieldsIgnoreBuffer(r, calls[0].buf, buf, ds[0]);
      FieldsIgnoreBuffer(r, G.Zeros(MAX_VALUE), buf, ds[0]);
      CallAgrees(r, calls[0].buf, buf, ds[0]);
      UndisturbedCallsAgree(s.reader, calls[1..], ds[1..], s.buf);
      RunConcat(r, buf, ds[0], Joined(ds[1..]));
    }
  }

  /** Some first body byte makes the unit at the head of b sound. */
  lemma SoundFirstByte(b: seq<byte>) returns (y: byte)
    requires !Incomplete(b) && LenField(b) > 0
    ensures var c := b[HEADER_SIZE := y];
            !Incomplete(c) && LenField(c) == LenField(b) && Sound(HeadUnit(c))
  {
    var u := HeadUnit(b);
    var start := Xor(Xor(u.tag, ByteOf(|u.value| / 256)), ByteOf(|u.value|));
    var acc := XorAllReaches(u.value[1..], u.check);
    y := Xor(acc, start);
    XorUndone(acc, start);
    var v := u.value[0 := y];
    assert v == [y] + u.value[1..];
    XorAllConcat(start, [y], u.value[1..]);
    XorAllOne(start, y);
    var c := b[HEADER_SIZE := y];
    assert LenField(c) == LenField(b);
    assert HeadUnit(c) == u.(value := v);
  }

  /** Of the units that differ in the first body byte alone, exactly one is sound. */
  lemma FirstBodyByte(b: seq<byte>, y: byte)
    requires !Incomplete(b) && LenField(b) > 0 && b[HEADER_SIZE] != y
    ensures var c := b[HEADER_SIZE := y];
            !Incomplete(c) && LenField(c) == LenField(b) && (Sound(HeadUnit(b)) ==> !Sound(HeadUnit(c)))
  {
    var c := b[HEADER_SIZE := y];
    assert LenField(c) == LenField(b);
    var u := HeadUnit(b);
    assert HeadUnit(c) == u.(value := u.value[0 := y]);
    G.XorAllSeesChange(Xor(Xor(u.tag, ByteOf(|u.value| / 256)), ByteOf(|u.value|)), u.value, 0, y);
  }

  /** Some first body byte gives the unit at the head of b the other verdict. */
  lemma OtherVerdict(b: seq<byte>) returns (y: byte)
    requires !Incomplete(b) && LenField(b) > 0
    ensures var c := b[HEADER_SIZE := y];
            !Incomplete(c) && Verdict(HeadUnit(c)) != Verdict(HeadUnit(b))
  {
    if Sound(HeadUnit(b)) {
      y := if b[HEADER_SIZE] == 0 then 1 else 0;
      FirstBodyByte(b, y);
    } else {
      y := SoundFirstByte(b);
    }
  }

  lemma PendingChanged(r: Reader, buf: Buffer, y: byte, data: seq<byte>)
    requires Valid(r) && r.bodyPos > 0
    ensures var b := Pending(r, buf) + data;
            && |Pending(r, buf)| > HEADER_SIZE && LenField(b) > 0
            && Pending(r, buf[0 := y]) + data == b[HEADER_SIZE := y]
  {
    assert r.header == Header(r.tag, r.len);
    HeaderRoundTrip(r.tag, r.len);
    assert LenField(Pending(r, buf)) == r.len;
    assert Pending(r, buf[0 := y]) == Pending(r, buf)[HEADER_SIZE := y];
  }

  /** The first report is the verdict on the unit at the head of the bytes held and read. */
  lemma FirstVerdict(r: Reader, buf: Buffer, data: seq<byte>)
    requires Valid(r)
    ensures var b, es := Pending(r, buf) + data, Run(r, buf, data).events;
            if Incomplete(b) then es == [] else es != [] && es[0] == Verdict(HeadUnit(b))
  {
    RunFollowsSplit(r, buf, Pending(r, buf), data);
  }

  /** A buffer with which the packet whose body was begun is reported otherwise. */
  lemma BodyForgotten(r: Reader, buf: Buffer, data: seq<byte>) returns (bad: Buffer)
    requires Valid(r) && r.bodyPos > 0 && Run(r, buf, data).events != []
    ensures var es := Run(r, bad, data).events;
            es != [] && es[0] != Run(r, buf, data).events[0]
  {
    PendingChanged(r, buf, 0, data);
    FirstVerdict(r, buf, data);
    var y := OtherVerdict(Pending(r, buf) + data);
    bad := buf[0 := y];
    PendingChanged(r, buf, y, data);
    FirstVerdict(r, bad, data);
  }

  lemma {:induction false} CallsCount(r: Reader, calls: seq<Call>, ds: seq<seq<byte>>, buf: Buffer)
    requires Valid(r) && Carry(calls, ds)
    ensures |RunCalls(r, calls)| == |Run(r, buf, Joined(ds)).events|
    decreases |ds|
  {
    if ds == [] {
      assert Joined(ds) == [];
    } else {
      var s := Run(r, buf, ds[0]);
      FieldsIgnoreBuffer(r, calls[0].buf, buf, ds[0]);
      CountIgnoresBuffer(r, calls[0].buf, buf, ds[0]);
      CallsCount(s.reader, calls[1..], ds[1..], s.buf);
      RunConcat(r, buf, ds[0], Joined(ds[1..]));
    }
  }

  /** Calls that carry the pieces ds and report something else than one uninterrupted reading. */
  lemma {:induction false} Disturb(r: Reader, ds: seq<seq<byte>>, buf: Buffer) returns (calls: seq<Call>)
    requires Valid(r) && !Undisturbed(r, ds)
    ensures Carry(calls, ds) && RunCalls(r, calls) != Run(r, buf, Joined(ds)).events
    decreases |ds|
  {
    var s := Run(r, buf, ds[0]);
    RunConcat(r, buf, ds[0], Joined(ds[1..]));
    if r.bodyPos == 0 || s.events == [] {
      FieldsIgnoreBuffer(r, G.Zeros(MAX_VALUE), buf, ds[0]);
      CountIgnoresBuffer(r, G.Zeros(MAX_VALUE), buf, ds[0]);
      var rest := Disturb(s.reader, ds[1..], s.buf);
      calls := [Call(buf, ds[0])] + rest;
      CarryCons(Call(buf, ds[0]), rest, ds);
      DifferentTails(s.events, RunCalls(s.reader, rest), Run(s.reader, s.buf, Joined(ds[1..])).events);
    } else {
      var bad := BodyForgotten(r, buf, ds[0]);
      var rest := seq(|ds| - 1, i requires 0 <= i < |ds| - 1 => Call(buf, ds[i + 1]));
      calls := [Call(bad, ds[0])] + rest;
      CarryCons(Call(bad, ds[0]), rest, ds);
      assert RunCalls(r, calls)[0] == Run(r, bad, ds[0]).events[0];
    }
  }

  lemma CarryCons(call: Call, rest: seq<Call>, ds: seq<seq<byte>>)
    requires ds != [] && call.data == ds[0] && Carry(rest, ds[1..])
    ensures Carry([call] + rest, ds) && ([call] + rest)[1..] == rest
  {
  }

  lemma DifferentTails(a: seq<Event>, b: seq<Event>, c: seq<Event>)
    requires b != c
    ensures a + b != a + c
  {
    assert (a + b)[|a|..] == b && (a + c)[|a|..] == c;
  }

  /**
   Separate calls report every stream, whatever their buffers hold, as one uninterrupted reading
   with one buffer does, if and only if no call that begins inside a body completes a packet.
   */
  lemma CallsAgreeIff(r: Reader, ds: seq<seq<byte>>, buf: Buffer)
    requires Valid(r)
    ensures (forall calls :: Carry(calls, ds) ==> RunCalls(r, calls) == Run(r, buf, Joined(ds)).events)
            <==> Undisturbed(r, ds)
  {
    if Undisturbed(r, ds) {
      forall calls | Carry(calls, ds) ensures RunCalls(r, calls) == Run(r, buf, Joined(ds)).events {
        UndisturbedCallsAgree(r, calls, ds, buf);
      }
    } else {
      var calls := Disturb(r, ds, buf);
      assert Carry(calls, ds);
    }
  }
}
