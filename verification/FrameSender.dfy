/**
 frame_sender.c: writing a frame to a socket that may take any part of a write, ask to try again,
 or fail. The kernel's answers are a list that the socket carries; every terminating run of the
 program consumes some finite list, and a list that has run out answers with a failure.
 */
module FrameSender {
  import opened Bytes
  import opened Tlv
  import opened TlvProtocol
  import opened FrameCodec

  /** What write(2) answers: at most n bytes taken, EAGAIN, or any other error. */
  datatype Answer = Takes(n: nat) | TryAgain | Fails

  /** The answers that make fs_send_all give up: an error, or nothing taken at all. */
  predicate Stops(a: Answer) {
    a == Fails || a == Takes(0)
  }

  /** Of the answers before, those not left after were used up, and none of them stopped anything. */
  predicate GoesThrough(before: seq<Answer>, after: seq<Answer>) {
    && |after| <= |before| && before[|before| - |after|..] == after
    && forall i :: 0 <= i < |before| - |after| ==> !Stops(before[i])
  }

  /** The last answer used up was the first to stop the sending, or the answers ran out. */
  predicate BreaksOff(before: seq<Answer>, after: seq<Answer>) {
    || (after == [] && GoesThrough(before, after))
    || (|after| < |before| && Stops(before[|before| - |after| - 1])
        && before[|before| - |after|..] == after && GoesThrough(before, [before[|before| - |after| - 1]] + after))
  }

  predicate Remains(before: seq<bool>, after: seq<bool>) {
    forall m :: m in after ==> m in before
  }

  lemma GoesOn(a: seq<Answer>, b: seq<Answer>, c: seq<Answer>)
    requires GoesThrough(a, b)
    ensures GoesThrough(b, c) ==> GoesThrough(a, c)
    ensures BreaksOff(b, c) ==> BreaksOff(a, c)
  {
    var n := |a| - |b|;
    assert forall i :: 0 <= i < |b| ==> b[i] == a[n + i];
    if GoesThrough(b, c) {
      GoesThroughTwice(a, b, c);
    }
    if |c| < |b| {
      var d := [b[|b| - |c| - 1]] + c;
      if GoesThrough(b, d) {
        GoesThroughTwice(a, b, d);
      }
    }
    if |c| <= |b| {
      assert a[|a| - |c|..] == b[|b| - |c|..];
    }
  }

  lemma GoesThroughTwice(a: seq<Answer>, b: seq<Answer>, c: seq<Answer>)
    requires GoesThrough(a, b) && GoesThrough(b, c)
    ensures GoesThrough(a, c)
  {
    var n := |a| - |b|;
    assert forall i :: 0 <= i < |b| ==> b[i] == a[n + i];
    assert a[|a| - |c|..] == b[|b| - |c|..];
    forall i | 0 <= i < |a| - |c| ensures !Stops(a[i]) {
      assert i >= n ==> a[i] == b[i - n];
    }
  }

  class Socket {
    var wire: seq<byte>
    var answers: seq<Answer>
    /** What malloc answers, one entry a call; calls beyond the list succeed. */
    var memory: seq<bool>

    constructor (answers: seq<Answer>, memory: seq<bool>)
      ensures wire == [] && this.answers == answers && this.memory == memory
    {
      this.wire, this.answers, this.memory := [], answers, memory;
    }

    method Allocate() returns (ok: bool)
      modifies this`memory
      ensures ok <==> old(memory) == [] || old(memory)[0]
      ensures Remains(old(memory), memory)
    {
      ok := true;
      if memory != [] {
        ok := memory[0];
        memory := memory[1..];
      }
    }

    method Write(data: seq<byte>) returns (n: int, again: bool)
      modifies this`wire, this`answers
      ensures answers == if old(answers) == [] then [] else old(answers)[1..]
      ensures again <==> old(answers) != [] && old(answers)[0] == TryAgain
      ensures n == if old(answers) == [] || !old(answers)[0].Takes? then -1
                   else if old(answers)[0].n <= |data| then old(answers)[0].n else |data|
      ensures wire == old(wire) + if n > 0 then data[..n] else []
    {
      if answers == [] {
        return -1, false;
      }
      var a := answers[0];
      answers := answers[1..];
      match a {
        case Takes(m) =>
          n := if m <= |data| then m else |data|;
          again := false;
          wire := wire + data[..n];
        case TryAgain => return -1, true;
        case Fails => return -1, false;
      }
    }

    /** fs_send_all: true stands for 0, false for -1. It gives up only when an answer makes it. */
    method SendAll(data: seq<byte>) returns (ok: bool)
      modifies this`wire, this`answers
      ensures old(wire) <= wire <= old(wire) + data
      ensures ok <==> wire == old(wire) + data
      ensures if ok then GoesThrough(old(answers), answers) else BreaksOff(old(answers), answers)
    {
      var sent := 0;
      while sent < |data|
        invariant 0 <= sent <= |data|
        invariant wire == old(wire) + data[..sent]
        invariant GoesThrough(old(answers), answers)
        decreases |data| - sent + |answers|
      {
        ghost var left := answers;
        var n, again := Write(data[sent..]);
        GoesOn(old(answers), left, answers);
        if n <= 0 {
          if again {
            continue;
          }
          StoppedHere(left, answers);
          return false;
        }
        assert data[..sent] + data[sent..][..n] == data[..sent + n];
        sent := sent + n;
      }
      return true;
    }

    /** Packs one packet into a buffer of just its size and sends it. */
    method SendPacket(p: Packet) returns (ok: bool)
      modifies this`wire, this`answers
      ensures old(wire) <= wire <= old(wire) + Encode(p)
      ensures ok <==> wire == old(wire) + Encode(p)
      ensures if ok then GoesThrough(old(answers), answers) else BreaksOff(old(answers), answers)
    {
      var frame := new byte[FRAME_OVERHEAD + |p.value|];
      var packed := TlvPack(p.tag, p.value, frame);
      assert frame[..packed] == Encode(p);
      ok := false;
      if packed > 0 {
        ok := SendAll(frame[..packed]);
      }
    }

    /** One round of the loop of fs_send_frame: the next chunk of at most 32 KB, in a buffer from malloc. */
    method SendChunk(data: Frame, offset: nat) returns (ok: bool, chunk: nat)
      requires offset < |data|
      modifies this
      ensures 0 < chunk <= |data| - offset
      ensures old(wire) <= wire
      ensures var all := old(wire) + EncodeAll(Chunks(data[offset..]));
              if ok then wire + EncodeAll(Chunks(data[offset + chunk..])) == all
              else wire <= all && wire != all
      ensures if ok then GoesThrough(old(answers), answers)
              else BreaksOff(old(answers), answers) || false in old(memory)
      ensures Remains(old(memory), memory)
    {
      chunk := |data| - offset;
      if chunk > CHUNK_SIZE {
        chunk := CHUNK_SIZE;
      }
      var p := Packet(FRAME_DATA, data[offset..offset + chunk]);
      ghost var here, more := wire, EncodeAll(Chunks(data[offset + chunk..]));
      NextChunk(here, data, offset, chunk);
      ok := Allocate();
      if ok {
        ok := SendPacket(p);
      }
      if !ok {
        ProperPrefix(here, Encode(p), more, wire);
      }
    }

    /** The loop of fs_send_frame over the chunks of the frame. */
    method SendChunks(data: Frame) returns (ok: bool)
      modifies this
      ensures old(wire) <= wire <= old(wire) + EncodeAll(Chunks(data))
      ensures ok <==> wire == old(wire) + EncodeAll(Chunks(data))
      ensures if ok then GoesThrough(old(answers), answers)
              else BreaksOff(old(answers), answers) || false in old(memory)
    {
      ghost var before, all := wire, wire + EncodeAll(Chunks(data));
      assert data[0..] == data;
      var offset := 0;
      while offset < |data|
        invariant 0 <= offset <= |data|
        invariant before <= wire
        invariant wire + EncodeAll(Chunks(data[offset..])) == all
        invariant GoesThrough(old(answers), answers) && Remains(old(memory), memory)
      {
        ghost var here, left := wire, answers;
        var sent, chunk := SendChunk(data, offset);
        PrefixOfPrefix(before, here, wire);
        GoesOn(old(answers), left, answers);
        if !sent {
          return false;
        }
        offset := offset + chunk;
      }
      NothingLeft(wire, data[offset..]);
      return true;
    }

    /**
     fs_send_frame: on success the wire carries the whole encoding of the frame, on failure a proper
     prefix of it; and it fails only when the socket stopped it or memory ran short.
     */
    method SendFrame(data: Frame) returns (ok: bool)
      modifies this
      ensures old(wire) <= wire <= old(wire) + EncodeFrame(data)
      ensures ok <==> wire == old(wire) + EncodeFrame(data)
      ensures if ok then GoesThrough(old(answers), answers)
              else BreaksOff(old(answers), answers) || false in old(memory)
    {
      FrameParts(wire, data);
      ghost var before := wire;
      ok := SendPacket(StartPacket(|data|));
      if ok {
        ghost var left := answers;
        ok := SendChunks(data);
        GoesOn(old(answers), left, answers);
      } else {
        ProperPrefix(before, Encode(StartPacket(|data|)), EncodeAll(Chunks(data)), wire);
      }
    }
  }

  lemma StoppedHere(before: seq<Answer>, after: seq<Answer>)
    requires if before == [] then after == [] else Stops(before[0]) && after == before[1..]
    ensures BreaksOff(before, after)
  {
    if before != [] {
      assert [before[0]] + after == before;
    }
  }

  lemma FrameParts(before: seq<byte>, data: Frame)
    ensures before + Encode(StartPacket(|data|)) + EncodeAll(Chunks(data)) == before + EncodeFrame(data)
  {
    EncodeAllConcat([StartPacket(|data|)], Chunks(data));
    EncodeAllOne(StartPacket(|data|));
    ConcatAssociative(before, Encode(StartPacket(|data|)), EncodeAll(Chunks(data)));
  }

  lemma NextChunk(here: seq<byte>, data: Frame, offset: nat, chunk: nat)
    requires offset < |data| && chunk == if |data| - offset > CHUNK_SIZE then CHUNK_SIZE else |data| - offset
    ensures var p := Packet(FRAME_DATA, data[offset..offset + chunk]);
            here + EncodeAll(Chunks(data[offset..])) == here + Encode(p) + EncodeAll(Chunks(data[offset + chunk..]))
  {
    var p := Packet(FRAME_DATA, data[offset..offset + chunk]);
    assert data[offset..][..chunk] == p.value && data[offset..][chunk..] == data[offset + chunk..];
    EncodeAllConcat([p], Chunks(data[offset + chunk..]));
    EncodeAllOne(p);
    ConcatAssociative(here, Encode(p), EncodeAll(Chunks(data[offset + chunk..])));
  }

  lemma PrefixOfPrefix(a: seq<byte>, b: seq<byte>, c: seq<byte>)
    requires a <= b <= c
    ensures a <= c
  {
  }

  lemma NothingLeft(wire: seq<byte>, left: Frame)
    requires left == []
    ensures wire + EncodeAll(Chunks(left)) == wire
  {
    assert EncodeAll([]) == [];
  }

  /** What stops inside one packet stops inside the frame. */
  lemma ProperPrefix(before: seq<byte>, packet: seq<byte>, more: seq<byte>, wire: seq<byte>)
    requires before <= wire <= before + packet && wire != before + packet
    ensures before <= wire <= before + packet + more && wire != before + packet + more
  {
  }
}
