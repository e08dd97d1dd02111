/** The producer side of the current engine (`RtpReceiveThread::HandleReceive`
    in PulseRtpOboeEngine.cpp): one received datagram, already in the receive
    buffer, is turned into a slot of the packet ring. Socket handling and the
    re-arming of the asynchronous receive are not part of this model. */
module PulseRtpReceiver {
  import opened HostTypes
  import opened PulseRtpPacketBuffer

  /** The samples a datagram carries: the bytes after the 12-byte RTP header
      (section 5.1 of RFC 3550), which is dropped uninterpreted. */
  function Payload(datagram: seq<bv8>): (p: seq<bv16>)
    requires |datagram| > kRtpHeader
    ensures |p| == (|datagram| - kRtpHeader) / kSampleSize
  {
    LoadSamples(datagram[kRtpHeader..])
  }

  /** `HandleReceive` on a datagram: one of at most 12 bytes changes nothing;
      otherwise the slot at `tail_` is resized to the payload and receives its
      samples, still in network byte order, and then `NextTail` tries to
      publish it. On a full ring the slot is overwritten all the same. */
  function Receive(r: Ring, slots: seq<seq<bv16>>, datagram: seq<bv8>): (res: (Ring, seq<seq<bv16>>))
    requires r.Valid() && |slots| == r.capacity
    ensures res.0.Valid() && |res.1| == |slots|
    ensures |datagram| <= kRtpHeader ==> res == (r, slots)
    ensures |datagram| > kRtpHeader ==> res.0 == CommitWrite(r).0 && res.1[r.tail] == Payload(datagram)
    ensures forall k :: 0 <= k < |slots| && k != r.tail ==> res.1[k] == slots[k]
  {
    if |datagram| <= kRtpHeader then
      (r, slots)
    else
      (CommitWrite(r).0, slots[r.tail := Payload(datagram)])
  }

  lemma ReceiveCommitsPayload(r: Ring, slots: seq<seq<bv16>>, datagram: seq<bv8>)
    requires r.Valid() && |slots| == r.capacity && |datagram| > kRtpHeader
    ensures Receive(r, slots, datagram) == (CommitWrite(r).0, slots[r.tail := Payload(datagram)])
  {
  }

  /** The slot the reader reaches `i` reads from now is the one at `tail_`
      exactly when `i` is the last of the published packets. */
  lemma {:induction false} ReadIndexHitsTail(r: Ring, i: nat)
    requires r.Valid() && i + 1 < r.capacity
    ensures ReadIndex(r, i) == r.tail <==> i + 1 == r.size
  {
    var n := r.capacity;
    ModAddLeft(r.headMove, 1 + i, n);
    ModShiftInjective(r.headMove, 1 + i, r.size, n);
  }

  /** A receive into a ring with room, as the code is written: the new packet
      does not join the end of the reader's view. It replaces the packet that
      was last in the view, and the slot the producer fills next, still
      holding whatever it held before, becomes the new last entry. */
  lemma {:induction false} ReceiveShiftsReaderView(r: Ring, slots: seq<seq<bv16>>, datagram: seq<bv8>)
    requires r.Valid() && |slots| == r.capacity
    requires |datagram| > kRtpHeader && r.size < r.capacity - 1
    ensures var (r', slots') := Receive(r, slots, datagram);
            var v := ReaderView(r, slots);
            ReaderView(r', slots') ==
              (if r.size == 0 then [] else v[..r.size - 1] + [Payload(datagram)])
              + [slots[(r.tail + 1) % r.capacity]]
  {
    var (r', slots') := Receive(r, slots, datagram);
    var v, v' := ReaderView(r, slots), ReaderView(r', slots');
    var want := (if r.size == 0 then [] else v[..r.size - 1] + [Payload(datagram)])
                + [slots[(r.tail + 1) % r.capacity]];
    assert |v'| == |want|;
    forall i | 0 <= i < |v'|
      ensures v'[i] == want[i]
    {
      assert ReadIndex(r', i) == ReadIndex(r, i);
      ReadIndexHitsTail(r, i);
      if i == r.size {
        ModAddLeft(r.tailMove, 1, r.capacity);
        ModAddLeft(r.headMove, 1 + i, r.capacity);
        assert ReadIndex(r, i) == (r.tail + 1) % r.capacity;
      }
    }
    assert v' == want;
  }

  /** A receive into a full ring, as the code is written: `tail_` does not
      move, but the slot at `tail_` is the last one of the reader's view, so
      the dropped packet still replaces a packet that was published and not
      yet read. */
  lemma {:induction false} ReceiveWhenFullOverwritesUnread(r: Ring, slots: seq<seq<bv16>>, datagram: seq<bv8>)
    requires r.Valid() && |slots| == r.capacity
    requires |datagram| > kRtpHeader && r.size == r.capacity - 1
    ensures Receive(r, slots, datagram).0 == r.(tailMoveReq := r.tailMoveReq + 1)
    ensures var v := ReaderView(r, slots);
            ReaderView(Receive(r, slots, datagram).0, Receive(r, slots, datagram).1) ==
              (if r.size == 0 then [] else v[..r.size - 1] + [Payload(datagram)])
  {
    var (r', slots') := Receive(r, slots, datagram);
    var v, v' := ReaderView(r, slots), ReaderView(r', slots');
    var want := if r.size == 0 then [] else v[..r.size - 1] + [Payload(datagram)];
    assert |v'| == |want|;
    forall i | 0 <= i < |v'|
      ensures v'[i] == want[i]
    {
      ReadIndexHitsTail(r, i);
    }
    assert v' == want;
  }

  /** The first packet after construction is never handed out first: it goes
      to slot 0, while the first successful read hands out slot 1, which still
      holds what the constructor put there. */
  lemma FirstPacketIsSkipped(capacity: nat, slots: seq<seq<bv16>>, datagram: seq<bv8>)
    requires capacity >= 2 && |slots| == capacity && |datagram| > kRtpHeader
    ensures var (r', slots') := Receive(Init(capacity), slots, datagram);
            && slots'[0] == Payload(datagram)
            && ReadNext(r').1 == Slot(1)
            && slots'[1] == slots[1]
  {
    var r := Init(capacity);
    ModNext(0, capacity);
    ModNext(1, capacity);
    DivModUnique(1, 0, 1, capacity);
    assert CommitWrite(r).0.tail == 1;
  }

  /** With the corrected read convention a receive into a ring with room
      appends the new packet to the queue. */
  lemma {:induction false} ReceiveAppendsToQueue(r: Ring, slots: seq<seq<bv16>>, datagram: seq<bv8>)
    requires r.Valid() && |slots| == r.capacity
    requires |datagram| > kRtpHeader && r.size < r.capacity - 1
    ensures var (r', slots') := Receive(r, slots, datagram);
            QueueView(r', slots') == QueueView(r, slots) + [Payload(datagram)]
  {
    var (r', slots') := Receive(r, slots, datagram);
    var v, v' := QueueView(r, slots), QueueView(r', slots');
    var want := v + [Payload(datagram)];
    forall i | 0 <= i < |v'|
      ensures v'[i] == want[i]
    {
      ModAddLeft(r.headMove, i, r.capacity);
      ModShiftInjective(r.headMove, i, r.size, r.capacity);
      ModAddLeft(r.headMove, r.size, r.capacity);
    }
    assert v' == want;
  }

  /** With the corrected read convention the slot at `tail_` is never part of
      the queue, so a receive into a full ring drops the packet without
      touching anything the reader will be handed. */
  lemma {:induction false} ReceiveWhenFullKeepsQueue(r: Ring, slots: seq<seq<bv16>>, datagram: seq<bv8>)
    requires r.Valid() && |slots| == r.capacity
    requires r.size == r.capacity - 1
    ensures var (r', slots') := Receive(r, slots, datagram);
            QueueView(r', slots') == QueueView(r, slots)
  {
    var (r', slots') := Receive(r, slots, datagram);
    var v, v' := QueueView(r, slots), QueueView(r', slots');
    forall i | 0 <= i < |v'|
      ensures v'[i] == v[i]
    {
      ModAddLeft(r.headMove, i, r.capacity);
      ModShiftInjective(r.headMove, i, r.size, r.capacity);
      ModAddLeft(r.headMove, r.size, r.capacity);
    }
  }

  /** The receive side of the engine: the ring it fills and the fixed
      receive buffer of `12 + mtu` bytes that every datagram lands in. */
  class RtpReceiveThread {
    const pktBuffer: PacketBuffer
    const data: array<bv8>
    const mtu: u32

    /** The buffer is sized so that no payload is longer than a slot was
        allocated. */
    ghost predicate Valid()
      reads this, pktBuffer, pktBuffer.pkts
    {
      && pktBuffer.Valid()
      && data.Length == kRtpHeader + mtu
      && data as object != pktBuffer.pkts as object
      && pktBuffer.slotLength == mtu / kSampleSize
    }

    constructor (pktBuffer: PacketBuffer, mtu: u32)
      requires pktBuffer.Valid() && pktBuffer.slotLength == mtu / kSampleSize
      ensures Valid() && fresh(data)
      ensures this.pktBuffer == pktBuffer && this.mtu == mtu
    {
      this.pktBuffer := pktBuffer;
      this.mtu := mtu;
      data := new bv8[kRtpHeader + mtu];
    }

    /** `HandleReceive(bytes_recvd)` for a datagram held in the first
        `bytesRecvd` bytes of the receive buffer. */
    method HandleReceive(bytesRecvd: nat)
      requires Valid() && bytesRecvd <= data.Length
      modifies pktBuffer, pktBuffer.pkts
      ensures Valid()
      ensures (pktBuffer.Model(), pktBuffer.Slots())
              == Receive(old(pktBuffer.Model()), old(pktBuffer.Slots()), data[..bytesRecvd])
    {
      if bytesRecvd <= kRtpHeader {
        return;
      }
      ghost var ring, slots, datagram := pktBuffer.Model(), pktBuffer.Slots(), data[..bytesRecvd];
      var t := pktBuffer.RefTailForWrite();
      var samples := LoadSamples(data[kRtpHeader..bytesRecvd]);
      assert data[kRtpHeader..bytesRecvd] == data[..bytesRecvd][kRtpHeader..];
      assert samples == Payload(data[..bytesRecvd]);
      assert |samples| <= pktBuffer.slotLength;
      pktBuffer.pkts[t] := samples;
      assert pktBuffer.Slots() == slots[t := samples];
      assert pktBuffer.Model() == ring;
      var ok := pktBuffer.NextTail();
      assert pktBuffer.Slots() == slots[t := samples];
      ReceiveCommitsPayload(ring, slots, datagram);
      assert data[..bytesRecvd] == datagram;
    }
  }
}
