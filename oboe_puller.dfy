/** The playback logic of the older engine generation (`OboeEngine` in
    OboeEngine.cpp) as functions of the cursor and the slot contents: a
    cursor into the slot last read from the ring, drawn sample by sample
    into the output, with no jitter control and no concealment. When the
    ring runs dry the rest of the callback's output is silence. */
module OboePuller {
  import opened HostTypes
  import opened OboeConstants
  import opened OboePacketBuffer
  import PulseRtpPacketBuffer

  /** What the playback callback reads the ring through: the ring indices
      it shares with the receiver, `buffer_` and `offset_`. */
  datatype Cursor = Cursor(ring: Ring, buffer: SlotRef, offset: nat)

  /** The cursor's indices are in the ring and the slot array is the
      ring's. */
  predicate Fits(c: Cursor, slots: seq<seq<bv16>>)
  {
    && c.ring.Valid() && |slots| == kPacketBufferSize
    && (c.buffer.Slot? ==> c.buffer.index < kPacketBufferSize)
  }

  /** The current slot still has a sample to play. */
  predicate HasData(c: Cursor, slots: seq<seq<bv16>>)
    requires Fits(c, slots)
  {
    c.buffer.Slot? && c.offset < |slots[c.buffer.index]|
  }

  /** `EnsureBuffer`: while there is no slot or it is used up, restart at
      offset 0 on the next slot the ring hands out; fail when there is none. */
  function EnsureBuffer(c: Cursor, slots: seq<seq<bv16>>): (res: (Cursor, bool))
    requires Fits(c, slots)
    ensures Fits(res.0, slots) && res.1 == HasData(res.0, slots)
    decreases Count(c.ring), if c.buffer.Null? then 1 else 0
  {
    if HasData(c, slots) then (c, true)
    else
      var (r', ref) := ReadNext(c.ring);
      var c' := Cursor(r', ref, 0);
      if ref.Null? then (c', false)
      else
        ReadNextSpec(c.ring);
        EnsureBuffer(c', slots)
  }

  /** A cursor with a sample left is kept. Otherwise the next packet is
      fetched; since every slot keeps `kSlotSamples > 0` samples, a fetched
      slot always has data, so success means the cursor is at the start of
      the first queued packet. Failure means the ring is empty and the
      cursor is null at offset 0. The tail is never touched. */
  lemma EnsureBufferSpec(c: Cursor, slots: seq<seq<bv16>>)
    requires Fits(c, slots) && SlotsSized(slots)
    ensures var (c', ok) := EnsureBuffer(c, slots);
            && c'.ring.tail == c.ring.tail
            && (HasData(c, slots) ==> c' == c)
            && (!HasData(c, slots) && Count(c.ring) > 0 ==>
                  var (r', ref) := ReadNext(c.ring);
                  ok && c' == Cursor(r', ref, 0))
            && (!HasData(c, slots) && Count(c.ring) == 0 ==>
                  !ok && c' == Cursor(c.ring, Null, 0))
  {
    ReadNextSpec(c.ring);
    if !HasData(c, slots) && Count(c.ring) > 0 {
      var (r', ref) := ReadNext(c.ring);
      assert HasData(Cursor(r', ref, 0), slots);
    }
  }

  /** One sample position of the callback's loop: `EnsureBuffer`, then the
      sample at the offset in host order, and the offset moved on. */
  datatype Draw = Draw(cursor: Cursor, ok: bool, sample: bv16)

  function DrawSample(c: Cursor, slots: seq<seq<bv16>>): (res: Draw)
    requires Fits(c, slots)
    ensures Fits(res.cursor, slots)
  {
    var e := EnsureBuffer(c, slots);
    if !e.1 then Draw(e.0, false, 0)
    else
      var s := e.0;
      Draw(s.(offset := s.offset + 1), true, NetToHost16(slots[s.buffer.index][s.offset]))
  }

  /** A draw takes the sample at the cursor when there is one left, and
      otherwise the first sample of the next queued packet; it fails, with
      the cursor null, only on an empty ring. */
  lemma DrawSampleSpec(c: Cursor, slots: seq<seq<bv16>>)
    requires Fits(c, slots) && SlotsSized(slots)
    ensures var d := DrawSample(c, slots);
            && d.cursor.ring.tail == c.ring.tail
            && (HasData(c, slots) ==>
                  d.ok && d.sample == NetToHost16(slots[c.buffer.index][c.offset])
                  && d.cursor == c.(offset := c.offset + 1))
            && (!HasData(c, slots) ==>
                  (d.ok <==> Count(c.ring) > 0)
                  && (d.ok ==> d.sample == NetToHost16(QueueView(c.ring, slots)[0][0]))
                  && (!d.ok ==> d.cursor == Cursor(c.ring, Null, 0)))
  {
    EnsureBufferSpec(c, slots);
    if !HasData(c, slots) && Count(c.ring) > 0 {
      ReadPopsQueue(c.ring, slots);
    }
  }

  /** The samples a callback draws before it runs dry, read left to right. */
  datatype Drained = Drained(cursor: Cursor, samples: seq<bv16>, stopped: bool)

  /** The first `k` sample positions of the callback's loop; the first
      failed draw stops the loop for good. */
  function Drain(c: Cursor, slots: seq<seq<bv16>>, k: nat): (res: Drained)
    requires Fits(c, slots)
    ensures Fits(res.cursor, slots) && |res.samples| <= k
  {
    if k == 0 then Drained(c, [], false)
    else
      var prev := Drain(c, slots, k - 1);
      if prev.stopped then prev
      else
        var d := DrawSample(prev.cursor, slots);
        if !d.ok then Drained(d.cursor, prev.samples, true)
        else Drained(d.cursor, prev.samples + [d.sample], false)
  }

  /** `Drain` unfolded by one position. */
  lemma DrainNext(c: Cursor, slots: seq<seq<bv16>>, k: nat)
    requires Fits(c, slots)
    ensures var prev := Drain(c, slots, k);
            var d := DrawSample(prev.cursor, slots);
            Drain(c, slots, k + 1)
            == if prev.stopped then prev
               else if !d.ok then Drained(d.cursor, prev.samples, true)
               else Drained(d.cursor, prev.samples + [d.sample], false)
  {
  }

  /** A loop that has not stopped has drawn one sample per position; one
      that has stopped left the ring empty and the cursor null at offset 0.
      The tail, the receiver's index, is never touched. */
  lemma {:induction false} DrainSpec(c: Cursor, slots: seq<seq<bv16>>, k: nat)
    requires Fits(c, slots) && SlotsSized(slots)
    ensures var d := Drain(c, slots, k);
            && d.cursor.ring.tail == c.ring.tail
            && (!d.stopped ==> |d.samples| == k)
            && (d.stopped ==> d.cursor.buffer.Null? && d.cursor.offset == 0 && Count(d.cursor.ring) == 0)
  {
    if k > 0 {
      DrainSpec(c, slots, k - 1);
      var prev := Drain(c, slots, k - 1);
      if !prev.stopped {
        DrawSampleSpec(prev.cursor, slots);
      }
    }
  }

  /** A stopped loop stays put for one more position. */
  lemma DrainStoppedStep(c: Cursor, slots: seq<seq<bv16>>, k: nat)
    requires Fits(c, slots) && k > 0 && Drain(c, slots, k - 1).stopped
    ensures Drain(c, slots, k) == Drain(c, slots, k - 1)
  {
  }

  /** Once the loop has stopped, more positions draw nothing more. */
  lemma {:induction false} DrainStopped(c: Cursor, slots: seq<seq<bv16>>, k: nat, m: nat)
    requires Fits(c, slots) && k <= m && Drain(c, slots, k).stopped
    ensures Drain(c, slots, m) == Drain(c, slots, k)
    decreases m
  {
    if m > k {
      DrainStopped(c, slots, k, m - 1);
      DrainStoppedStep(c, slots, m);
    }
  }

  /** The first sample drawn stays the first sample however many more
      positions the loop runs: later positions only append. */
  lemma {:induction false} DrainFirst(c: Cursor, slots: seq<seq<bv16>>, m: nat)
    requires Fits(c, slots) && m >= 1 && |Drain(c, slots, 1).samples| == 1
    ensures |Drain(c, slots, m).samples| >= 1
    ensures Drain(c, slots, m).samples[0] == Drain(c, slots, 1).samples[0]
  {
    if m > 1 {
      DrainFirst(c, slots, m - 1);
      DrainNext(c, slots, m - 1);
    }
  }

  /** One callback of `numFrames` frames: the samples drawn, then silence up
      to `numFrames * kNumChannel` samples. */
  function Tick(c: Cursor, slots: seq<seq<bv16>>, numFrames: nat): (res: (Cursor, seq<bv16>))
    requires Fits(c, slots)
    ensures Fits(res.0, slots) && |res.1| == numFrames * kNumChannel
  {
    var d := Drain(c, slots, numFrames * kNumChannel);
    (d.cursor, d.samples + PulseRtpPacketBuffer.Zeros(numFrames * kNumChannel - |d.samples|))
  }

  /** The output starts with the samples drawn and every sample after them
      is zero; a callback that comes up short leaves the ring empty. */
  lemma TickSpec(c: Cursor, slots: seq<seq<bv16>>, numFrames: nat)
    requires Fits(c, slots) && SlotsSized(slots)
    ensures var d := Drain(c, slots, numFrames * kNumChannel);
            var (c', out) := Tick(c, slots, numFrames);
            && out[..|d.samples|] == d.samples
            && (forall k :: |d.samples| <= k < |out| ==> out[k] == 0)
            && (|d.samples| < |out| ==> c'.buffer.Null? && Count(c'.ring) == 0)
  {
    DrainSpec(c, slots, numFrames * kNumChannel);
  }

  /** How the callback's loop ends: either every one of the `total` sample
      positions was drawn (`drawn == n == total`), or the draw at position
      `n` failed (`drawn == n + 1`). Either way the full run of `total`
      positions ends where the last draw left the cursor, holding the `n`
      samples drawn. */
  lemma {:induction false} DrainAtLoopExit(c: Cursor, slots: seq<seq<bv16>>, total: nat, n: nat, drawn: nat)
    requires Fits(c, slots) && SlotsSized(slots) && n <= total
    requires !Drain(c, slots, n).stopped
    requires drawn == n ==> n == total
    requires drawn != n ==> n < total && drawn == n + 1 && Drain(c, slots, drawn).stopped
    ensures Drain(c, slots, total) == Drain(c, slots, drawn)
    ensures Drain(c, slots, total).samples == Drain(c, slots, n).samples
  {
    if drawn != n {
      DrainStopped(c, slots, n + 1, total);
      DrainNext(c, slots, n);
    }
  }

  /** An output holding the `n` samples the loop drew, then zeros, is the
      callback's output. */
  lemma TickOfLoopExit(c: Cursor, slots: seq<seq<bv16>>, numFrames: nat, n: nat, drawn: nat, out: seq<bv16>)
    requires Fits(c, slots) && SlotsSized(slots) && n <= numFrames * kNumChannel == |out|
    requires !Drain(c, slots, n).stopped
    requires drawn == n ==> n == |out|
    requires drawn != n ==> n < |out| && drawn == n + 1 && Drain(c, slots, drawn).stopped
    requires out[..n] == Drain(c, slots, n).samples
    requires forall k :: n <= k < |out| ==> out[k] == 0
    ensures Tick(c, slots, numFrames) == (Drain(c, slots, drawn).cursor, out)
  {
    var total := numFrames * kNumChannel;
    DrainAtLoopExit(c, slots, total, n, drawn);
    DrainSpec(c, slots, n);
    var silence := PulseRtpPacketBuffer.Zeros(total - n);
    assert out == Drain(c, slots, n).samples + silence by {
      assert out[n..] == silence;
      assert out == out[..n] + out[n..];
    }
  }

  /** Starting from a fresh cursor, a callback plays the queued packets in
      the order they were received: its first sample is the first sample of
      the first queued packet, converted to host order. */
  lemma FirstSampleIsQueueHead(r: Ring, slots: seq<seq<bv16>>, numFrames: nat)
    requires r.Valid() && SlotsSized(slots) && Count(r) > 0 && numFrames > 0
    ensures Tick(Cursor(r, Null, 0), slots, numFrames).1[0] == NetToHost16(QueueView(r, slots)[0][0])
  {
    var c := Cursor(r, Null, 0);
    DrawSampleSpec(c, slots);
    DrainFirst(c, slots, numFrames * kNumChannel);
  }

  /** The queued packets' samples one after the other, in queue order. */
  function Flatten(q: seq<seq<bv16>>): seq<bv16>
  {
    if |q| == 0 then [] else q[0] + Flatten(q[1..])
  }

  /** Every sample the cursor still has to play, in order: the rest of the
      current slot, then each queued packet in full. */
  function Pending(c: Cursor, slots: seq<seq<bv16>>): seq<bv16>
    requires Fits(c, slots)
  {
    (if HasData(c, slots) then slots[c.buffer.index][c.offset..] else [])
    + Flatten(QueueView(c.ring, slots))
  }

  /** A draw plays the next pending sample, converted to host order, and
      leaves the rest pending; it fails exactly when nothing is pending. */
  lemma DrawSamplePending(c: Cursor, slots: seq<seq<bv16>>)
    requires Fits(c, slots) && SlotsSized(slots)
    ensures var p := Pending(c, slots);
            var d := DrawSample(c, slots);
            && (d.ok <==> |p| > 0)
            && (d.ok ==> d.sample == NetToHost16(p[0]) && Pending(d.cursor, slots) == p[1..])
            && (!d.ok ==> Pending(d.cursor, slots) == [])
  {
    if HasData(c, slots) {
      DrawPendingInSlot(c, slots);
    } else if Count(c.ring) > 0 {
      DrawPendingFetch(c, slots);
    } else {
      DrawSampleSpec(c, slots);
      assert QueueView(c.ring, slots) == [];
    }
  }

  /** A draw with a sample left in the current slot plays it. */
  lemma DrawPendingInSlot(c: Cursor, slots: seq<seq<bv16>>)
    requires Fits(c, slots) && SlotsSized(slots) && HasData(c, slots)
    ensures var p := Pending(c, slots);
            var d := DrawSample(c, slots);
            && d.ok && |p| > 0 && d.sample == NetToHost16(p[0]) && Pending(d.cursor, slots) == p[1..]
  {
    DrawSampleSpec(c, slots);
    var rest := slots[c.buffer.index][c.offset..];
    var q := Flatten(QueueView(c.ring, slots));
    assert Pending(c, slots) == rest + q;
    assert (rest + q)[1..] == rest[1..] + q;
  }

  /** A draw with the current slot used up plays the first sample of the
      first queued packet, and the rest of that packet is pending next. */
  lemma DrawPendingFetch(c: Cursor, slots: seq<seq<bv16>>)
    requires Fits(c, slots) && SlotsSized(slots) && !HasData(c, slots) && Count(c.ring) > 0
    ensures var p := Pending(c, slots);
            var d := DrawSample(c, slots);
            && d.ok && |p| > 0 && d.sample == NetToHost16(p[0]) && Pending(d.cursor, slots) == p[1..]
  {
    DrawSampleSpec(c, slots);
    EnsureBufferSpec(c, slots);
    ReadPopsQueue(c.ring, slots);
    var (r', ref) := ReadNext(c.ring);
    var q := QueueView(c.ring, slots);
    assert DrawSample(c, slots).cursor == Cursor(r', ref, 1);
    assert Pending(c, slots) == q[0] + Flatten(q[1..]);
    assert |q[0]| == kSlotSamples;
    assert Pending(Cursor(r', ref, 1), slots) == q[0][1..] + Flatten(q[1..]);
  }

  /** The first `k` sample positions play the pending samples in order,
      each in host order, and stop exactly when they outnumber them; what is
      left pending afterwards is the rest. */
  lemma {:induction false} DrainPlaysPending(c: Cursor, slots: seq<seq<bv16>>, k: nat)
    requires Fits(c, slots) && SlotsSized(slots)
    ensures var p := Pending(c, slots);
            var d := Drain(c, slots, k);
            && |d.samples| == (if k <= |p| then k else |p|)
            && d.samples == ToHost(p[..|d.samples|])
            && Pending(d.cursor, slots) == p[|d.samples|..]
            && (d.stopped <==> k > |p|)
  {
    if k > 0 {
      DrainPlaysPending(c, slots, k - 1);
      var p := Pending(c, slots);
      var prev := Drain(c, slots, k - 1);
      if prev.stopped {
        assert Drain(c, slots, k) == prev;
      } else {
        DrawSamplePending(prev.cursor, slots);
        var d := DrawSample(prev.cursor, slots);
        if d.ok {
          PlayOneMore(p, k - 1, prev.samples, Pending(prev.cursor, slots));
          assert Drain(c, slots, k) == Drained(d.cursor, prev.samples + [d.sample], false);
        } else {
          assert Drain(c, slots, k) == Drained(d.cursor, prev.samples, true);
        }
      }
    }
  }

  /** The sequence bookkeeping of playing one more pending sample. */
  lemma PlayOneMore(p: seq<bv16>, n: nat, played: seq<bv16>, rest: seq<bv16>)
    requires n < |p| && played == ToHost(p[..n]) && rest == p[n..]
    ensures rest[0] == p[n] && rest[1..] == p[n + 1..]
    ensures played + [NetToHost16(rest[0])] == ToHost(p[..n + 1])
  {
  }

  /** A whole callback plays the next `numFrames * kNumChannel` pending
      samples in host order, consecutive across packets, and pads with
      silence only once nothing is pending; the next callback resumes right
      after the last sample played. */
  lemma TickPlaysPending(c: Cursor, slots: seq<seq<bv16>>, numFrames: nat)
    requires Fits(c, slots) && SlotsSized(slots)
    ensures var p := Pending(c, slots);
            var total := numFrames * kNumChannel;
            var n := if total <= |p| then total else |p|;
            var (c', out) := Tick(c, slots, numFrames);
            && out == ToHost(p[..n]) + PulseRtpPacketBuffer.Zeros(total - n)
            && Pending(c', slots) == p[n..]
  {
    DrainPlaysPending(c, slots, numFrames * kNumChannel);
  }
}
