/** The packet ring of the current engine generation (`PacketBuffer` in
    PulseRtpOboeEngine.cpp): a fixed array of sample slots, a `head_` index the
    playback puller advances, a `tail_` index the network receiver advances, an
    occupancy counter `size_` and four diagnostic counters. The atomics are
    plain fields here; producer and consumer calls interleave as whole calls. */
module PulseRtpPacketBuffer {
  import opened HostTypes

  /** `num_buffer`: one more slot than the number of whole packets (of
      `mtu / kNumChannel / kSampleSize` frames each) that fit in `maxLatency`
      milliseconds at `sampleRate`, computed in 32-bit unsigned arithmetic. */
  function NumBuffers(mtu: u32, sampleRate: u32, maxLatency: u32): (n: nat)
    requires mtu >= kNumChannel * kSampleSize
    ensures 1 <= n < U32Limit
    ensures (n - 1) * (mtu / kNumChannel / kSampleSize) <= Wrap32(sampleRate * maxLatency) / 1000
    ensures Wrap32(sampleRate * maxLatency) / 1000 < n * (mtu / kNumChannel / kSampleSize)
  {
    var frames := Wrap32(sampleRate * maxLatency) / 1000;
    var perPacket := mtu / kNumChannel / kSampleSize;
    var q := frames / perPacket;
    assert frames == q * perPacket + frames % perPacket;
    assert (q + 1) * perPacket == q * perPacket + perPacket;
    1 + q
  }

  /** A slot as the constructor allocates it: `mtu / kSampleSize` zero samples. */
  function Zeros(n: nat): (s: seq<bv16>)
    ensures |s| == n && forall k :: 0 <= k < n ==> s[k] == 0
  {
    seq(n, _ => 0)
  }

  /** The ring's indices and counters, as one value. */
  datatype Ring = Ring(capacity: nat, head: nat, tail: nat, size: nat,
                       headMoveReq: nat, headMove: nat, tailMoveReq: nat, tailMove: nat)
  {
    /** What every sequential trace from construction keeps: the indices are
        the successful moves counted modulo the capacity, `size_` is what the
        producer committed and the consumer has not yet taken, and no ring ever
        holds as many packets as it has slots. */
    ghost predicate Valid()
    {
      && capacity >= 1
      && size < capacity
      && headMove <= headMoveReq && tailMove <= tailMoveReq
      && tailMove == headMove + size
      && head == headMove % capacity && tail == tailMove % capacity
    }
  }

  /** The ring right after `PacketBuffer`'s constructor. */
  function Init(capacity: nat): (r: Ring)
    requires capacity >= 1
    ensures r.Valid() && r.capacity == capacity
    ensures r.size == 0 && r.head == r.tail == 0
  {
    Ring(capacity, 0, 0, 0, 0, 0, 0, 0)
  }

  /** The occupancy counter agrees with the indices: `size_` is the distance
      from `head_` to `tail_` around the ring, so the ring is empty exactly
      when the two indices meet. */
  lemma {:induction false} SizeIsIndexDistance(r: Ring)
    requires r.Valid()
    ensures r.size == (r.tail - r.head) % r.capacity
    ensures r.size == 0 <==> r.head == r.tail
  {
    var n := r.capacity;
    ModAddLeft(r.tailMove, -(r.head as int), n);
    assert r.headMove == (r.headMove / n) * n + r.head;
    ModMultiple(r.tailMove - r.headMove, r.headMove / n, n);
    assert (r.tail - r.head) % n == r.size % n;
    DivModUnique(r.size, 0, r.size, n);
    IndexDistance(r.head, r.tail, n);
  }

  /** The full test of `NextTail`: for indices inside the ring, the two cases
      the code writes out are "advancing `tail_` would meet `head_`". */
  predicate IsFull(r: Ring)
    requires r.capacity >= 1
    ensures r.head < r.capacity && r.tail < r.capacity ==>
              (IsFull(r) <==> (r.tail + 1) % r.capacity == r.head)
  {
    var full := r.tail + 1 == r.head || (r.head == 0 && r.tail == r.capacity - 1);
    if r.tail < r.capacity then ModNext(r.tail, r.capacity); full else full
  }

  /** The full test is "advancing `tail_` would meet `head_`", and it holds
      exactly when the ring holds `capacity - 1` packets: one slot always
      stays unused. */
  lemma {:induction false} FullMeansOneSlotFree(r: Ring)
    requires r.Valid()
    ensures IsFull(r) <==> (r.tail + 1) % r.capacity == r.head
    ensures IsFull(r) <==> r.size == r.capacity - 1
  {
    ModNext(r.tail, r.capacity);
    SizeIsIndexDistance(r);
    IndexDistance(r.head, r.tail, r.capacity);
  }

  /** `RefNextHeadForRead`: counts the request; on an empty ring returns null;
      otherwise advances `head_` and hands out the slot at the NEW head. */
  function ReadNext(r: Ring): (res: (Ring, SlotRef))
    requires r.Valid()
    ensures res.0.Valid()
    ensures res.0.capacity == r.capacity && res.0.tail == r.tail
    ensures res.0.tailMove == r.tailMove && res.0.tailMoveReq == r.tailMoveReq
    ensures res.0.headMoveReq == r.headMoveReq + 1
    ensures res.1.Null? <==> r.size == 0
    ensures res.1.Null? ==> res.0.head == r.head && res.0.headMove == r.headMove && res.0.size == 0
    ensures res.1.Slot? ==> && res.0.size == r.size - 1
                            && res.0.headMove == r.headMove + 1
                            && res.1.index == res.0.head == (r.head + 1) % r.capacity
  {
    SizeIsIndexDistance(r);
    ModNext(r.head, r.capacity);
    var counted := r.(headMoveReq := r.headMoveReq + 1);
    if r.head == r.tail then
      (counted, Null)
    else
      var head := if r.head + 1 >= r.capacity then 0 else r.head + 1;
      NextIndex(r.head, r.headMove, r.capacity);
      (counted.(head := head, headMove := r.headMove + 1, size := r.size - 1), Slot(head))
  }

  /** `NextTail`: counts the request; on a full ring changes nothing else and
      fails; otherwise advances `tail_` by one around the ring, publishing the
      slot the producer has just filled. */
  function CommitWrite(r: Ring): (res: (Ring, bool))
    requires r.Valid()
    ensures res.0.Valid()
    ensures res.1 <==> r.size < r.capacity - 1
    ensures !res.1 ==> res.0 == r.(tailMoveReq := r.tailMoveReq + 1)
    ensures res.1 ==> res.0 == r.(tail := (r.tail + 1) % r.capacity, size := r.size + 1,
                                  tailMove := r.tailMove + 1, tailMoveReq := r.tailMoveReq + 1)
  {
    FullMeansOneSlotFree(r);
    ModNext(r.tail, r.capacity);
    var counted := r.(tailMoveReq := r.tailMoveReq + 1);
    if IsFull(r) then
      (counted, false)
    else
      var tail := if r.tail + 1 >= r.capacity then 0 else r.tail + 1;
      NextIndex(r.tail, r.tailMove, r.capacity);
      (counted.(tail := tail, tailMove := r.tailMove + 1, size := r.size + 1), true)
  }

  /** The two calls the ring offers its users. */
  datatype Call = Read | Commit

  /** The ring after `calls`, made one after the other from `r`. */
  function Run(r: Ring, calls: seq<Call>): (r': Ring)
    requires r.Valid()
    ensures r'.Valid() && r'.capacity == r.capacity
    decreases |calls|
  {
    if |calls| == 0 then r
    else
      var prev := Run(r, calls[..|calls| - 1]);
      match calls[|calls| - 1]
      case Read => ReadNext(prev).0
      case Commit => CommitWrite(prev).0
  }

  /** How many of `calls` are `call`. */
  function Occurrences(calls: seq<Call>, call: Call): (n: nat)
    ensures n <= |calls|
    decreases |calls|
  {
    if |calls| == 0 then 0
    else Occurrences(calls[..|calls| - 1], call) + (if calls[|calls| - 1] == call then 1 else 0)
  }

  /** Diagnostic counters over any sequence of calls from construction:
      `head_move_req_` and `tail_move_req_` count every read and every commit
      made, the successful moves never exceed them, the occupancy is the
      commits published minus the packets taken, and each index is its
      successful moves modulo the slot count. */
  lemma {:induction false} RunFromInit(capacity: nat, calls: seq<Call>)
    requires capacity >= 1
    ensures var r := Run(Init(capacity), calls);
            && r.headMoveReq == Occurrences(calls, Read)
            && r.tailMoveReq == Occurrences(calls, Commit)
            && r.headMove <= r.headMoveReq && r.tailMove <= r.tailMoveReq
            && r.size == r.tailMove - r.headMove
            && r.head == r.headMove % capacity && r.tail == r.tailMove % capacity
    decreases |calls|
  {
    if |calls| > 0 {
      RunFromInit(capacity, calls[..|calls| - 1]);
    }
  }

  /** The `k`-th successful read since construction hands out slot `k % N`,
      while the `k`-th successful commit publishes slot `(k - 1) % N`: the
      reader's slots run one ahead of the slots the producer filled. */
  lemma {:induction false} MoveCountsPickSlots(r: Ring)
    requires r.Valid()
    ensures r.size > 0 ==> ReadNext(r).1 == Slot((r.headMove + 1) % r.capacity)
    ensures CommitWrite(r).1 ==> r.tail == r.tailMove % r.capacity
  {
    if r.size > 0 {
      NextIndex(r.head, r.headMove, r.capacity);
      ModNext(r.head, r.capacity);
    }
  }

  /** The index mismatch of this generation: with exactly one packet
      published, the reader is handed the slot at `tail_`, which is the slot
      the producer fills next, not the one it published. */
  lemma {:induction false} SinglePacketReadsWriteSlot(r: Ring)
    requires r.Valid() && r.size == 1
    ensures ReadNext(r).1 == Slot(r.tail)
    ensures ReadNext(r).0.head == r.tail
  {
    SizeIsIndexDistance(r);
    IndexDistance(r.head, r.tail, r.capacity);
    ModNext(r.head, r.capacity);
  }

  /** The slot the reader is handed `i` reads from now (`i` from 0). */
  function ReadIndex(r: Ring, i: nat): (k: nat)
    requires r.capacity >= 1
    ensures k < r.capacity
  {
    (r.head + 1 + i) % r.capacity
  }

  /** The contents the reader will be handed, in order, by the next `size_`
      successful reads, if no producer call intervenes. */
  function ReaderView(r: Ring, slots: seq<seq<bv16>>): (v: seq<seq<bv16>>)
    requires r.Valid() && |slots| == r.capacity
    ensures |v| == r.size
    ensures forall i :: 0 <= i < r.size ==> v[i] == slots[ReadIndex(r, i)]
  {
    seq(r.size, i requires 0 <= i < r.size => slots[ReadIndex(r, i)])
  }

  /** A successful read hands out the front of the reader's view and leaves
      the rest of it, in order. */
  lemma {:induction false} ReadPopsView(r: Ring, slots: seq<seq<bv16>>)
    requires r.Valid() && |slots| == r.capacity && r.size > 0
    ensures ReadNext(r).1.Slot?
    ensures slots[ReadNext(r).1.index] == ReaderView(r, slots)[0]
    ensures ReaderView(ReadNext(r).0, slots) == ReaderView(r, slots)[1..]
  {
    var r' := ReadNext(r).0;
    var v, v' := ReaderView(r, slots), ReaderView(r', slots);
    forall i | 0 <= i < |v'|
      ensures v'[i] == v[i + 1]
    {
      ModAddLeft(r.head + 1, 1 + i, r.capacity);
    }
  }

  /** The read convention under which the ring is a queue: hand out the slot
      at `head_` (the oldest published one), then advance `head_`. This is the
      corrected counterpart of `ReadNext`. */
  function ReadAtHead(r: Ring): (res: (Ring, SlotRef))
    requires r.Valid()
    ensures res.0.Valid()
    ensures res.0 == ReadNext(r).0
    ensures res.1.Null? <==> r.size == 0
    ensures res.1.Slot? ==> res.1.index == r.head
  {
    var (r', ref) := ReadNext(r);
    (r', if ref.Null? then Null else Slot(r.head))
  }

  /** The packets a reader that follows `ReadAtHead` will be handed, oldest
      first: the `size_` slots from `head_` on. */
  function QueueView(r: Ring, slots: seq<seq<bv16>>): (v: seq<seq<bv16>>)
    requires r.Valid() && |slots| == r.capacity
    ensures |v| == r.size
    ensures forall i :: 0 <= i < r.size ==> v[i] == slots[(r.head + i) % r.capacity]
  {
    seq(r.size, i requires 0 <= i < r.size => slots[(r.head + i) % r.capacity])
  }

  /** Under the corrected convention a successful read hands out the oldest
      published packet and leaves the others in order. */
  lemma {:induction false} ReadAtHeadPopsQueue(r: Ring, slots: seq<seq<bv16>>)
    requires r.Valid() && |slots| == r.capacity && r.size > 0
    ensures ReadAtHead(r).1.Slot?
    ensures slots[ReadAtHead(r).1.index] == QueueView(r, slots)[0]
    ensures QueueView(ReadAtHead(r).0, slots) == QueueView(r, slots)[1..]
  {
    var r' := ReadAtHead(r).0;
    var v, v' := QueueView(r, slots), QueueView(r', slots);
    DivModUnique(r.head, 0, r.head, r.capacity);
    forall i | 0 <= i < |v'|
      ensures v'[i] == v[i + 1]
    {
      ModAddLeft(r.head + 1, i, r.capacity);
    }
  }

  /** The ring's storage: a fixed array of slots allocated once, and the
      indices and counters that the two sides update in place. */
  class PacketBuffer {
    const pkts: array<seq<bv16>>
    /** `mtu / kSampleSize`: the length every slot starts with. */
    ghost const slotLength: nat
    var head: nat
    var tail: nat
    var size: nat
    var headMoveReq: nat
    var headMove: nat
    var tailMoveReq: nat
    var tailMove: nat

    function Model(): Ring
      reads this
    {
      Ring(pkts.Length, head, tail, size, headMoveReq, headMove, tailMoveReq, tailMove)
    }

    function Slots(): seq<seq<bv16>>
      reads pkts
    {
      pkts[..]
    }

    /** The ring invariant, and no slot ever holds more samples than it was
        allocated with. */
    ghost predicate Valid()
      reads this, pkts
    {
      && Model().Valid()
      && forall k :: 0 <= k < pkts.Length ==> |pkts[k]| <= slotLength
    }

    constructor (mtu: u32, sampleRate: u32, maxLatency: u32)
      requires mtu >= kNumChannel * kSampleSize
      ensures Valid() && fresh(pkts)
      ensures Model() == Init(NumBuffers(mtu, sampleRate, maxLatency))
      ensures slotLength == mtu / kSampleSize
      ensures forall k :: 0 <= k < pkts.Length ==> pkts[k] == Zeros(mtu / kSampleSize)
    {
      var numBuffer := NumBuffers(mtu, sampleRate, maxLatency);
      var slots := new seq<bv16>[numBuffer];
      for i := 0 to numBuffer
        invariant forall k :: 0 <= k < i ==> slots[k] == Zeros(mtu / kSampleSize)
      {
        slots[i] := Zeros(mtu / kSampleSize);
      }
      pkts := slots;
      slotLength := mtu / kSampleSize;
      head, tail, size := 0, 0, 0;
      headMoveReq, headMove, tailMoveReq, tailMove := 0, 0, 0, 0;
    }

    /** `capacity()`: the slot count, fixed at construction. */
    function Capacity(): (n: nat)
      reads this
      ensures n == Model().capacity
    {
      pkts.Length
    }

    method RefNextHeadForRead() returns (slot: SlotRef)
      requires Valid()
      modifies this
      ensures Valid()
      ensures (Model(), slot) == ReadNext(old(Model()))
    {
      ghost var before := Model();
      SizeIsIndexDistance(before);
      ModNext(head, pkts.Length);
      headMoveReq := headMoveReq + 1;
      var h, t := head, tail;
      if h == t {
        return Null;
      }
      h := h + 1;
      if h >= pkts.Length {
        h := 0;
      }
      head := h;
      headMove := headMove + 1;
      size := size - 1;
      slot := Slot(h);
      assert (Model(), slot) == ReadNext(before);
    }

    /** `RefTailForWrite`: the slot at `tail_`, which the producer fills
        before it tries to publish it. */
    method RefTailForWrite() returns (index: nat)
      requires Valid()
      ensures index == tail && index < pkts.Length
    {
      index := tail;
    }

    method NextTail() returns (ok: bool)
      requires Valid()
      modifies this
      ensures Valid()
      ensures (Model(), ok) == CommitWrite(old(Model()))
    {
      ghost var before := Model();
      FullMeansOneSlotFree(before);
      ModNext(tail, pkts.Length);
      tailMoveReq := tailMoveReq + 1;
      var h, t := head, tail;
      if t + 1 == h || (h == 0 && t == pkts.Length - 1) {
        return false;
      }
      t := t + 1;
      if t >= pkts.Length {
        t := 0;
      }
      tail := t;
      tailMove := tailMove + 1;
      size := size + 1;
      ok := true;
      assert (Model(), ok) == CommitWrite(before);
    }
  }
}
