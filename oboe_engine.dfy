/** The older engine object: the ring it shares with its receiver and the
    playback cursor `buffer_`/`offset_`, updated in place by the playback
    callback. */
module OboeEngine {
  import opened HostTypes
  import opened OboeConstants
  import opened OboePacketBuffer
  import OboePuller

  class OboeEngine {
    const pktBuffer: PacketBuffer
    const receiveThread: RtpReceiveThread
    var buffer: SlotRef
    var offset: nat

    function Cursor(): OboePuller.Cursor
      reads this, pktBuffer
    {
      OboePuller.Cursor(pktBuffer.Model(), buffer, offset)
    }

    ghost predicate Valid()
      reads this, pktBuffer, pktBuffer.pkts, receiveThread
    {
      && receiveThread.pktBuffer == pktBuffer
      && receiveThread.Valid()
      && OboePuller.Fits(Cursor(), pktBuffer.Slots())
    }

    /** A zeroed ring shared with a fresh receiver, no slot and offset 0. */
    constructor ()
      ensures Valid() && fresh(pktBuffer) && fresh(pktBuffer.pkts)
      ensures Cursor() == OboePuller.Cursor(Ring(0, 0), Null, 0)
    {
      var ring := new PacketBuffer();
      pktBuffer := ring;
      receiveThread := new RtpReceiveThread(ring);
      buffer, offset := Null, 0;
    }

    method EnsureBuffer() returns (ok: bool)
      requires Valid()
      modifies this`buffer, this`offset, pktBuffer`head
      ensures Valid()
      ensures (Cursor(), ok) == OboePuller.EnsureBuffer(old(Cursor()), pktBuffer.Slots())
    {
      ghost var slots := pktBuffer.Slots();
      while buffer.Null? || offset >= |pktBuffer.pkts[buffer.index]|
        invariant Valid() && pktBuffer.Slots() == slots
        invariant OboePuller.EnsureBuffer(Cursor(), slots) == OboePuller.EnsureBuffer(old(Cursor()), slots)
        decreases Count(pktBuffer.Model()), if buffer.Null? then 1 else 0
      {
        ReadNextSpec(pktBuffer.Model());
        offset := 0;
        buffer := pktBuffer.RefNextHeadForRead();
        if buffer.Null? {
          return false;
        }
      }
      return true;
    }

    /** One pass of the inner loop's body: `EnsureBuffer`, then the sample
        at the offset written to `output[pos]` in host order. */
    method PullSample(output: array<bv16>, pos: nat) returns (ok: bool)
      requires Valid() && pos < output.Length
      requires output as object != pktBuffer.pkts as object
      modifies this`buffer, this`offset, pktBuffer`head, output
      ensures Valid() && pktBuffer.Slots() == old(pktBuffer.Slots())
      ensures var d := OboePuller.DrawSample(old(Cursor()), pktBuffer.Slots());
              && Cursor() == d.cursor && ok == d.ok
              && output[pos] == (if ok then d.sample else old(output[pos]))
      ensures forall k :: 0 <= k < output.Length && k != pos ==> output[k] == old(output[k])
    {
      ok := EnsureBuffer();
      if !ok {
        return;
      }
      output[pos] := NetToHost16(pktBuffer.pkts[buffer.index][offset]);
      offset := offset + 1;
    }

    /** The nested loops of `onAudioReady`, up to the `no_more_data` label:
        fills interleaved frames until `numFrames` are written or a sample
        cannot be supplied. Returns the samples written and, as `drawn`, the
        draws made: one more than the samples written when the last draw
        failed. */
    method PullFrames(output: array<bv16>, numFrames: nat) returns (numSample: nat, ghost drawn: nat)
      requires Valid() && numFrames * kNumChannel <= output.Length
      requires output as object != pktBuffer.pkts as object
      modifies this`buffer, this`offset, pktBuffer`head, output
      ensures Valid() && pktBuffer.Slots() == old(pktBuffer.Slots())
      ensures var d := OboePuller.Drain(old(Cursor()), pktBuffer.Slots(), numSample);
              && numSample <= numFrames * kNumChannel
              && !d.stopped && output[..numSample] == d.samples
      ensures drawn == numSample ==> numSample == numFrames * kNumChannel
      ensures drawn != numSample ==>
                && numSample < numFrames * kNumChannel && drawn == numSample + 1
                && OboePuller.Drain(old(Cursor()), pktBuffer.Slots(), drawn).stopped
      ensures Cursor() == OboePuller.Drain(old(Cursor()), pktBuffer.Slots(), drawn).cursor
      ensures forall k :: numSample <= k < output.Length ==> output[k] == old(output[k])
    {
      ghost var slots := pktBuffer.Slots();
      ghost var start := Cursor();
      drawn := 0;
      numSample := 0;
      var i := 0;
      label frames:
      while i < numFrames
        invariant 0 <= i <= numFrames && numSample == i * kNumChannel
        invariant Valid() && pktBuffer.Slots() == slots && drawn == numSample
        invariant Cursor() == OboePuller.Drain(start, slots, numSample).cursor
        invariant !OboePuller.Drain(start, slots, numSample).stopped
        invariant output[..numSample] == OboePuller.Drain(start, slots, numSample).samples
        invariant forall k :: numSample <= k < output.Length ==> output[k] == old(output[k])
      {
        var j := 0;
        while j < kNumChannel
          invariant 0 <= j <= kNumChannel && numSample == i * kNumChannel + j
          invariant Valid() && pktBuffer.Slots() == slots && drawn == numSample
          invariant Cursor() == OboePuller.Drain(start, slots, numSample).cursor
          invariant !OboePuller.Drain(start, slots, numSample).stopped
          invariant output[..numSample] == OboePuller.Drain(start, slots, numSample).samples
          invariant forall k :: numSample <= k < output.Length ==> output[k] == old(output[k])
        {
          OboePuller.DrainNext(start, slots, numSample);
          ghost var before := output[..numSample];
          var ok := PullSample(output, i * kNumChannel + j);
          if !ok {
            drawn := numSample + 1;
            break frames;
          }
          assert output[..numSample] == before;
          numSample := numSample + 1;
          drawn := numSample;
          j := j + 1;
          assert output[..numSample] == output[..numSample - 1] + [output[numSample - 1]];
        }
        i := i + 1;
      }
    }

    /** `onAudioReady`: fills `numFrames` interleaved frames, stopping at
        the first sample the ring cannot supply, and zeroes the rest of the
        `numFrames * kNumChannel` samples. */
    method OnAudioReady(output: array<bv16>, numFrames: nat)
      requires Valid() && numFrames * kNumChannel <= output.Length
      requires output as object != pktBuffer.pkts as object
      modifies this`buffer, this`offset, pktBuffer`head, output
      ensures Valid() && pktBuffer.Slots() == old(pktBuffer.Slots())
      ensures var t := OboePuller.Tick(old(Cursor()), pktBuffer.Slots(), numFrames);
              Cursor() == t.0 && output[..numFrames * kNumChannel] == t.1
      ensures forall k :: numFrames * kNumChannel <= k < output.Length ==> output[k] == old(output[k])
    {
      ghost var start := Cursor();
      var numSample, drawn := PullFrames(output, numFrames);
      if numSample < numFrames * kNumChannel {
        forall k | numSample <= k < numFrames * kNumChannel {
          output[k] := 0;
        }
      }
      OboePuller.TickOfLoopExit(start, pktBuffer.Slots(), numFrames, numSample, drawn,
                                output[..numFrames * kNumChannel]);
    }
  }
}
