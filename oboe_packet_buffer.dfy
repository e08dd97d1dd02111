/** The packet ring and the receive side of the older engine generation
    (`PacketBuffer` and `RtpReceiveThread::HandleReceive` in OboeEngine.cpp):
    `kPacketBufferSize` slots of `kSlotSamples` samples each, which are never
    resized, and the two indices `head_` and `tail_`. Unlike the newer ring,
    the writer first reserves the slot after `tail_` and then fills it, and
    the reader hands out the slot after `head_`, so the ring is a FIFO. The
    atomics are plain fields; producer and consumer calls interleave as whole
    calls. */
module OboePacketBuffer {
  import opened HostTypes
  import opened OboeConstants
  import PulseRtpPacketBuffer

  datatype Ring = Ring(head: nat, tail: nat)
  {
    predicate Valid()
    {
      head < kPacketBufferSize && tail < kPacketBufferSize
    }
  }

  /** Every slot keeps the length it was allocated with. */
  predicate SlotsSized(slots: seq<seq<bv16>>)
  {
    |slots| == kPacketBufferSize && forall k :: 0 <= k < |slots| ==> |slots[k]| == kSlotSamples
  }

  /** The packets published and not yet read: the distance from `head_` to
      `tail_` around the ring. */
  function Count(r: Ring): (n: nat)
    requires r.Valid()
    ensures n < kPacketBufferSize
    ensures n == (r.tail - r.head) % kPacketBufferSize
    ensures r.tail == (r.head + n) % kPacketBufferSize
  {
    IndexDistance(r.head, r.tail, kPacketBufferSize);
    if r.tail >= r.head then
      DivModUnique(r.tail, 0, r.tail, kPacketBufferSize);
      r.tail - r.head
    else
      DivModUnique(r.tail + kPacketBufferSize, 1, r.tail, kPacketBufferSize);
      r.tail + kPacketBufferSize - r.head
  }

  /** An index moved one slot on, wrapping to 0 as the code does. */
  function Advance(i: nat): (j: nat)
    requires i < kPacketBufferSize
    ensures j < kPacketBufferSize && j == (i + 1) % kPacketBufferSize
  {
    ModNext(i, kPacketBufferSize);
    if i + 1 >= kPacketBufferSize then 0 else i + 1
  }

  /** The full test of `RefNextTailForWrite`: on a valid ring it holds exactly
      when `kPacketBufferSize - 1` packets are queued, so one slot always
      stays unused. */
  predicate IsFull(r: Ring)
    ensures r.Valid() ==> (IsFull(r) <==> Count(r) == kPacketBufferSize - 1)
  {
    r.tail + 1 == r.head || (r.head == 0 && r.tail == kPacketBufferSize - 1)
  }

  /** `RefNextHeadForRead`: null on an empty ring; otherwise `head_` moves on
      and the slot at the new head is handed out. */
  function ReadNext(r: Ring): (res: (Ring, SlotRef))
    requires r.Valid()
    ensures res.0.Valid()
  {
    if r.head == r.tail then (r, Null)
    else
      var h := Advance(r.head);
      (r.(head := h), Slot(h))
  }

  /** `RefNextTailForWrite`: null on a full ring; otherwise `tail_` moves on
      and the slot at the new tail is handed to the writer. */
  function ReserveWrite(r: Ring): (res: (Ring, SlotRef))
    requires r.Valid()
    ensures res.0.Valid()
  {
    if IsFull(r) then (r, Null)
    else
      var t := Advance(r.tail);
      (r.(tail := t), Slot(t))
  }

  /** A read fails, changing nothing, exactly when the ring is empty;
      otherwise it hands out the slot one after the old head, which becomes
      the new head, and the ring holds one packet less. */
  lemma ReadNextSpec(r: Ring)
    requires r.Valid()
    ensures var (r', ref) := ReadNext(r);
            && (ref.Null? <==> Count(r) == 0)
            && (ref.Null? ==> r' == r)
            && (ref.Slot? ==> && ref.index == r'.head == (r.head + 1) % kPacketBufferSize
                              && r'.tail == r.tail && Count(r') == Count(r) - 1)
  {
  }

  /** A reservation fails, changing nothing, exactly when the ring holds
      `kPacketBufferSize - 1` packets, so one slot always stays unused;
      otherwise it hands out the slot one after the old tail, which becomes
      the new tail, and the ring holds one packet more. */
  lemma ReserveWriteSpec(r: Ring)
    requires r.Valid()
    ensures var (r', ref) := ReserveWrite(r);
            && (ref.Null? <==> Count(r) == kPacketBufferSize - 1)
            && (ref.Null? ==> r' == r)
            && (ref.Slot? ==> && ref.index == r'.tail == (r.tail + 1) % kPacketBufferSize
                              && r'.head == r.head && Count(r') == Count(r) + 1)
  {
  }

  /** The packets a reader will be handed, in order: the `Count` slots after
      `head_`. */
  function QueueView(r: Ring, slots: seq<seq<bv16>>): (q: seq<seq<bv16>>)
    requires r.Valid() && |slots| == kPacketBufferSize
    ensures |q| == Count(r)
  {
    seq(Count(r), i requires 0 <= i < Count(r) => slots[(r.head + 1 + i) % kPacketBufferSize])
  }

  /** Filling the slot a successful reservation hands out appends exactly
      that slot's contents to the reader's queue. */
  lemma {:induction false} WriteAppendsToQueue(r: Ring, slots: seq<seq<bv16>>, p: seq<bv16>)
    requires r.Valid() && |slots| == kPacketBufferSize
    requires ReserveWrite(r).1.Slot?
    ensures var (r', ref) := ReserveWrite(r);
            QueueView(r', slots[ref.index := p]) == QueueView(r, slots) + [p]
  {
    ReserveWriteSpec(r);
    var (r', ref) := ReserveWrite(r);
    var n := Count(r);
    var q, q' := QueueView(r, slots), QueueView(r', slots[ref.index := p]);
    ModAddLeft(r.head + n, 1, kPacketBufferSize);
    forall i | 0 <= i < |q'|
      ensures q'[i] == (q + [p])[i]
    {
      ModShiftInjective(r.head + 1, i, n, kPacketBufferSize);
    }
    assert q' == q + [p];
  }

  /** A successful read hands out the first packet of the queue and leaves
      the rest of it in order. */
  lemma {:induction false} ReadPopsQueue(r: Ring, slots: seq<seq<bv16>>)
    requires r.Valid() && |slots| == kPacketBufferSize
    requires Count(r) > 0
    ensures var (r', ref) := ReadNext(r);
            && ref.Slot? && slots[ref.index] == QueueView(r, slots)[0]
            && QueueView(r', slots) == QueueView(r, slots)[1..]
  {
    ReadNextSpec(r);
    var (r', ref) := ReadNext(r);
    var q, q' := QueueView(r, slots), QueueView(r', slots);
    forall i | 0 <= i < |q'|
      ensures q'[i] == q[1..][i]
    {
      ModAddLeft(r.head + 1, 1 + i, kPacketBufferSize);
    }
    assert q' == q[1..];
  }

  /** `HandleReceive` on a datagram of at most `kRtpPacketSize` bytes: one of
      at most 12 bytes, or one that finds the ring full, changes nothing;
      otherwise the payload is copied over the front of the reserved slot,
      which keeps its length. */
  function Receive(r: Ring, slots: seq<seq<bv16>>, datagram: seq<bv8>): (res: (Ring, seq<seq<bv16>>))
    requires r.Valid() && SlotsSized(slots) && |datagram| <= kRtpPacketSize
    ensures res.0.Valid() && SlotsSized(res.1)
  {
    if |datagram| <= kRtpHeader then
      (r, slots)
    else
      var (r', ref) := ReserveWrite(r);
      if ref.Null? then
        (r, slots)
      else
        (r', slots[ref.index := CopyInto(slots[ref.index], datagram[kRtpHeader..])])
  }

  /** A datagram with a payload is queued behind everything already queued
      unless the ring is full. The queued slot starts with the payload's
      samples and, past the payload, still holds what the slot's previous
      packet left there: a packet shorter than `kRtpPacketSize` is played
      with the stale end of an older one. */
  lemma ReceiveQueuesPacket(r: Ring, slots: seq<seq<bv16>>, datagram: seq<bv8>)
    requires r.Valid() && SlotsSized(slots) && |datagram| <= kRtpPacketSize
    ensures var (r', slots') := Receive(r, slots, datagram);
            if |datagram| <= kRtpHeader || Count(r) == kPacketBufferSize - 1 then
              (r', slots') == (r, slots)
            else
              var stale := slots[(r.tail + 1) % kPacketBufferSize];
              var payload := datagram[kRtpHeader..];
              var entry := CopyInto(stale, payload);
              && QueueView(r', slots') == QueueView(r, slots) + [entry]
              && entry[..|payload| / 2] == LoadSamples(payload)
              && entry[(|payload| + 1) / 2..] == stale[(|payload| + 1) / 2..]
  {
    ReserveWriteSpec(r);
    if |datagram| > kRtpHeader && Count(r) < kPacketBufferSize - 1 {
      var (r', ref) := ReserveWrite(r);
      WriteAppendsToQueue(r, slots, CopyInto(slots[ref.index], datagram[kRtpHeader..]));
    }
  }

  class PacketBuffer {
    const pkts: array<seq<bv16>>
    var head: nat
    var tail: nat

    function Model(): Ring
      reads this
    {
      Ring(head, tail)
    }

    function Slots(): seq<seq<bv16>>
      reads pkts
    {
      pkts[..]
    }

    ghost predicate Valid()
      reads this, pkts
    {
      Model().Valid() && SlotsSized(pkts[..])
    }

    /** `kPacketBufferSize` slots of `kSlotSamples` zero samples, both
        indices at 0. */
    constructor ()
      ensures Valid() && fresh(pkts)
      ensures Model() == Ring(0, 0)
      ensures forall k :: 0 <= k < pkts.Length ==> pkts[k] == PulseRtpPacketBuffer.Zeros(kSlotSamples)
    {
      var slots := new seq<bv16>[kPacketBufferSize];
      for i := 0 to kPacketBufferSize
        invariant forall k :: 0 <= k < i ==> slots[k] == PulseRtpPacketBuffer.Zeros(kSlotSamples)
      {
        slots[i] := PulseRtpPacketBuffer.Zeros(kSlotSamples);
      }
      pkts := slots;
      head, tail := 0, 0;
    }

    method RefNextHeadForRead() returns (slot: SlotRef)
      requires Valid()
      modifies this`head
      ensures Valid()
      ensures (Model(), slot) == ReadNext(old(Model()))
    {
      var h, t := head, tail;
      if h == t {
        return Null;
      }
      h := h + 1;
      if h >= kPacketBufferSize {
        h := 0;
      }
      head := h;
      slot := Slot(h);
    }

    method RefNextTailForWrite() returns (slot: SlotRef)
      requires Valid()
      modifies this`tail
      ensures Valid()
      ensures (Model(), slot) == ReserveWrite(old(Model()))
    {
      var h, t := head, tail;
      if t + 1 == h || (h == 0 && t == kPacketBufferSize - 1) {
        return Null;
      }
      t := t + 1;
      if t >= kPacketBufferSize {
        t := 0;
      }
      tail := t;
      slot := Slot(t);
    }
  }

  /** The receive side: the ring it fills and the fixed `kRtpPacketSize`-byte
      receive buffer every datagram lands in. */
  class RtpReceiveThread {
    const pktBuffer: PacketBuffer
    const data: array<bv8>

    ghost predicate Valid()
      reads this, pktBuffer, pktBuffer.pkts
    {
      && pktBuffer.Valid()
      && data.Length == kRtpPacketSize
      && data as object != pktBuffer.pkts as object
    }

    constructor (pktBuffer: PacketBuffer)
      requires pktBuffer.Valid()
      ensures Valid() && fresh(data) && this.pktBuffer == pktBuffer
    {
      this.pktBuffer := pktBuffer;
      data := new bv8[kRtpPacketSize];
    }

    /** `HandleReceive(bytes_recvd)` for a datagram held in the first
        `bytesRecvd` bytes of the receive buffer. */
    method HandleReceive(bytesRecvd: nat)
      requires Valid() && bytesRecvd <= data.Length
      modifies pktBuffer`tail, pktBuffer.pkts
      ensures Valid()
      ensures (pktBuffer.Model(), pktBuffer.Slots())
              == Receive(old(pktBuffer.Model()), old(pktBuffer.Slots()), data[..bytesRecvd])
    {
      if bytesRecvd <= kRtpHeader {
        return;
      }
      var slot := pktBuffer.RefNextTailForWrite();
      if slot.Null? {
        return;
      }
      assert data[kRtpHeader..bytesRecvd] == data[..bytesRecvd][kRtpHeader..];
      pktBuffer.pkts[slot.index] := CopyInto(pktBuffer.pkts[slot.index], data[kRtpHeader..bytesRecvd]);
    }
  }
}
