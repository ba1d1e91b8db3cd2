/**
 ring_buffer.h: four frame slots between the capture thread and the network thread.
 A call of push or pop is a series of critical sections: each one takes the mutex, finds the wait
 predicate false and sleeps, or finds it true and finishes. One section is one method here.
 */
module RingBuffer {
  import opened Bytes
  import opened FrameCodec

  const FRAME_BUF_SIZE := 640 * 480 * 2
  const RING_BUF_COUNT := 4

  // ---- the ring as a value ----

  /** slots[i] is what buf_[i] holds in its first len_[i] bytes. */
  datatype Ring = Ring(slots: seq<Frame>, head: nat, tail: nat, count: nat, closed: bool)

  /** How a section ends: asleep on the condition variable, or returning false or true. */
  datatype Outcome = Waits | Refused | Done

  datatype Pushed = Pushed(ring: Ring, outcome: Outcome)
  datatype Popped = Popped(ring: Ring, outcome: Outcome, frame: Frame)

  predicate Valid(r: Ring) {
    && |r.slots| == RING_BUF_COUNT
    && (forall i :: 0 <= i < RING_BUF_COUNT ==> |r.slots[i]| <= FRAME_BUF_SIZE)
    && r.head < RING_BUF_COUNT && r.count <= RING_BUF_COUNT
    && r.tail == (r.head + r.count) % RING_BUF_COUNT
  }

  /** The frames in the ring, oldest first. */
  function Live(r: Ring): (fs: seq<Frame>)
    requires Valid(r)
    ensures |fs| == r.count
  {
    seq(r.count, i requires 0 <= i < r.count => r.slots[(r.head + i) % RING_BUF_COUNT])
  }

  function Clip(f: Frame): (g: Frame)
    ensures |g| <= FRAME_BUF_SIZE
  {
    if |f| > FRAME_BUF_SIZE then f[..FRAME_BUF_SIZE] else f
  }

  function Push(r: Ring, f: Frame): Pushed
    requires Valid(r)
  {
    if !(r.count < RING_BUF_COUNT || r.closed) then Pushed(r, Waits)
    else if r.closed then Pushed(r, Refused)
    else Pushed(r.(slots := r.slots[r.tail := Clip(f)],
                   tail := (r.tail + 1) % RING_BUF_COUNT,
                   count := r.count + 1), Done)
  }

  function Pop(r: Ring): Popped
    requires Valid(r)
  {
    if !(r.count > 0 || r.closed) then Popped(r, Waits, [])
    else if r.closed && r.count == 0 then Popped(r, Refused, [])
    else Popped(r.(head := (r.head + 1) % RING_BUF_COUNT, count := r.count - 1), Done, r.slots[r.head])
  }

  /** push is an append to the queue of live frames, unless the ring is full or closed. */
  lemma PushAppends(r: Ring, f: Frame)
    requires Valid(r)
    ensures var p := Push(r, f);
            && Valid(p.ring) && p.ring.closed == r.closed
            && (p.outcome == Done <==> !r.closed && |Live(r)| < 4)
            && (p.outcome == Refused <==> r.closed)
            && Live(p.ring) ==
               if p.outcome == Done then Live(r) + [if |f| <= 614400 then f else f[..614400]] else Live(r)
  {
    var q := Push(r, f).ring;
    assert forall i :: 0 <= i < r.count ==> Live(q)[i] == Live(r)[i];
  }

  lemma PushStaysValid(r: Ring, f: Frame)
    requires Valid(r)
    ensures Valid(Push(r, f).ring)
  {
  }

  lemma NextSlot(head: nat, i: nat)
    requires head < RING_BUF_COUNT
    ensures ((head + 1) % RING_BUF_COUNT + i) % RING_BUF_COUNT == (head + (i + 1)) % RING_BUF_COUNT
  {
  }

  lemma LiveWithoutOldest(r: Ring)
    requires Valid(r) && r.count > 0
    ensures Valid(Pop(r).ring) && Live(r) == [r.slots[r.head]] + Live(Pop(r).ring)
  {
    PopStaysValid(r);
    var all, rest := Live(r), Live(Pop(r).ring);
    forall i | 0 <= i < r.count - 1 ensures rest[i] == all[i + 1] {
      LiveShifts(r, i);
    }
    assert all[0] == r.slots[r.head];
    ConsOfShift(all, rest);
  }

  lemma LiveShifts(r: Ring, i: nat)
    requires Valid(r) && i < r.count - 1 && Valid(Pop(r).ring)
    ensures Live(Pop(r).ring)[i] == Live(r)[i + 1]
  {
    NextSlot(r.head, i);
  }

  lemma ConsOfShift(all: seq<Frame>, rest: seq<Frame>)
    requires |all| == |rest| + 1 && forall i :: 0 <= i < |rest| ==> rest[i] == all[i + 1]
    ensures all == [all[0]] + rest
  {
  }

  lemma PopStaysValid(r: Ring)
    requires Valid(r) && r.count > 0
    ensures Valid(Pop(r).ring) && Pop(r).ring.count == r.count - 1
  {
    NextSlot(r.head, r.count - 1);
  }

  /** pop takes the oldest live frame; a closed ring still gives out what it holds. */
  lemma PopTakesOldest(r: Ring)
    requires Valid(r)
    ensures var p := Pop(r);
            && Valid(p.ring) && p.ring.closed == r.closed
            && (p.outcome == Done <==> Live(r) != [])
            && (p.outcome == Refused <==> Live(r) == [] && r.closed)
            && if p.outcome == Done then Live(r) == [p.frame] + Live(p.ring) else p.ring == r
  {
    if r.count > 0 {
      LiveWithoutOldest(r);
    }
  }

  // ---- the ring as it is laid out and updated in memory ----

  method NewRows() returns (rows: seq<array<byte>>)
    ensures |rows| == RING_BUF_COUNT
    ensures forall i :: 0 <= i < RING_BUF_COUNT ==> fresh(rows[i]) && rows[i].Length == FRAME_BUF_SIZE
    ensures forall i, j :: 0 <= i < j < RING_BUF_COUNT ==> rows[i] != rows[j]
  {
    var row0 := new byte[FRAME_BUF_SIZE];
    var row1 := new byte[FRAME_BUF_SIZE];
    var row2 := new byte[FRAME_BUF_SIZE];
    var row3 := new byte[FRAME_BUF_SIZE];
    rows := [row0, row1, row2, row3];
  }

  class RingBuffer {
    /** The four rows of buf_. */
    const buf: seq<array<byte>>
    const len: array<nat>
    var head: nat
    var tail: nat
    var count: nat
    var closed: bool

    ghost predicate Laid() {
      && |buf| == RING_BUF_COUNT && len.Length == RING_BUF_COUNT
      && (forall i :: 0 <= i < RING_BUF_COUNT ==> buf[i].Length == FRAME_BUF_SIZE)
      && (forall i, j :: 0 <= i < j < RING_BUF_COUNT ==> buf[i] != buf[j])
    }

    ghost predicate Ok()
      reads this, buf, len
    {
      && Laid()
      && (forall i :: 0 <= i < RING_BUF_COUNT ==> len[i] <= FRAME_BUF_SIZE)
      && Valid(Value())
    }

    ghost function Slot(i: nat): (f: Frame)
      requires Laid() && i < RING_BUF_COUNT
      reads buf, len
    {
      buf[i][..if len[i] <= FRAME_BUF_SIZE then len[i] else FRAME_BUF_SIZE]
    }

    ghost function Slots(): (fs: seq<Frame>)
      requires Laid()
      ensures |fs| == RING_BUF_COUNT
      reads buf, len
    {
      [Slot(0), Slot(1), Slot(2), Slot(3)]
    }

    ghost function Value(): Ring
      requires Laid()
      reads this, buf, len
    {
      Ring(Slots(), head, tail, count, closed)
    }

    constructor ()
      ensures Ok() && count == 0 && !closed
      ensures fresh(len) && forall i :: 0 <= i < RING_BUF_COUNT ==> fresh(buf[i])
    {
      var rows := NewRows();
      buf := rows;
      len := new nat[RING_BUF_COUNT](_ => 0);
      head, tail, count, closed := 0, 0, 0, false;
    }

    /** memcpy of one frame into slot i, cut to the size of the slot, and its length. */
    method CopyIn(i: nat, data: seq<byte>)
      requires Laid() && i < RING_BUF_COUNT
      modifies buf[i], len
      ensures Slot(i) == Clip(data) && len[i] == |Clip(data)|
      ensures forall k :: 0 <= k < RING_BUF_COUNT && k != i ==> len[k] == old(len[k])
    {
      var copyLen := if |data| > FRAME_BUF_SIZE then FRAME_BUF_SIZE else |data|;
      var row := buf[i];
      forall j | 0 <= j < copyLen {
        row[j] := data[j];
      }
      len[i] := copyLen;
    }

    method Store(i: nat, data: seq<byte>)
      requires Laid() && i < RING_BUF_COUNT
      requires forall k :: 0 <= k < RING_BUF_COUNT ==> len[k] <= FRAME_BUF_SIZE
      modifies buf[i], len
      ensures Slots() == old(Slots())[i := Clip(data)]
      ensures forall k :: 0 <= k < RING_BUF_COUNT ==> len[k] <= FRAME_BUF_SIZE
    {
      ghost var was := Slots();
      CopyIn(i, data);
      assert i != 0 ==> Slot(0) == was[0];
      assert i != 1 ==> Slot(1) == was[1];
      assert i != 2 ==> Slot(2) == was[2];
      assert i != 3 ==> Slot(3) == was[3];
    }

    method PushSection(data: seq<byte>) returns (outcome: Outcome)
      requires Ok()
      modifies this`tail, this`count, buf, len
      ensures Ok() && Pushed(Value(), outcome) == Push(old(Value()), data)
    {
      if !(count < RING_BUF_COUNT || closed) {
        return Waits;
      }
      if closed {
        return Refused;
      }
      ghost var p := Push(Value(), data);
      PushStaysValid(Value(), data);
      Store(tail, data);
      tail := (tail + 1) % RING_BUF_COUNT;
      count := count + 1;
      assert Value() == p.ring;
      return Done;
    }

    method PopSection(data: array<byte>) returns (outcome: Outcome, size: nat)
      requires Ok() && data.Length >= FRAME_BUF_SIZE && data !in buf
      modifies this`head, this`count, data
      ensures Ok()
      ensures size <= FRAME_BUF_SIZE && data[size..] == old(data[size..])
      ensures Popped(Value(), outcome, data[..size]) == Pop(old(Value()))
    {
      size := 0;
      if !(count > 0 || closed) {
        return Waits, 0;
      }
      if closed && count == 0 {
        return Refused, 0;
      }
      size := len[head];
      var row := buf[head];
      forall j | 0 <= j < size {
        data[j] := row[j];
      }
      assert data[..size] == Slot(head);
      head := (head + 1) % RING_BUF_COUNT;
      count := count - 1;
      return Done, size;
    }

    method Close()
      requires Ok()
      modifies this`closed
      ensures Ok() && Value() == old(Value()).(closed := true)
    {
      closed := true;
    }
  }
}
