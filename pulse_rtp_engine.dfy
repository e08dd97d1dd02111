/** `PulseRtpOboeEngine`: the packet ring, the receive side that fills it and
    the render callback's cursor over it. The render callback is proved to
    compute exactly `PulseRtpPuller.Tick`; the stream itself (Oboe), the
    latency tuner and the thread-affinity set-up are not part of this model,
    and the two diagnostics the callback copies from the stream are
    parameters. */
module PulseRtpOboeEngine {
  import opened HostTypes
  import opened PulseRtpPacketBuffer
  import opened PulseRtpReceiver
  import opened PulseRtpJitter
  import PulseRtpPuller

  class PulseRtpOboeEngine {
    const pktBuffer: PacketBuffer
    const receiveThread: RtpReceiveThread
    /** `buffer_`: the slot being played, or none. */
    var buffer: SlotRef
    /** `last_samples_`: the sample last played on each channel. */
    var lastSamples: seq<bv16>
    /** `offset_`: the next sample of `buffer_` to play. */
    var offset: u32
    var state: State
    var numUnderrun: int
    var audioBufferSize: int

    /** The consumer's view of the engine: ring indices and cursor. */
    function Consumer(): PulseRtpPuller.Consumer
      reads this, pktBuffer
    {
      PulseRtpPuller.Consumer(pktBuffer.Model(), buffer, offset, state, lastSamples)
    }

    ghost predicate Valid()
      reads this, pktBuffer, pktBuffer.pkts, receiveThread
    {
      && receiveThread.pktBuffer == pktBuffer
      && receiveThread.Valid()
      && PulseRtpPuller.Fits(Consumer(), pktBuffer.Slots())
    }

    /** The engine as constructed: an empty ring sized for `maxLatency`
        milliseconds at the stream's default `sampleRate`, no slot under the
        cursor, state `None`, and a last sample of 0 on every channel. */
    constructor (mtu: u32, maxLatency: u32, sampleRate: u32)
      requires mtu >= kNumChannel * kSampleSize
      ensures Valid()
      ensures Consumer() == PulseRtpPuller.Consumer(Init(NumBuffers(mtu, sampleRate, maxLatency)),
                                                    Null, 0, None, [0, 0])
      ensures receiveThread.data.Length == kRtpHeader + mtu
      ensures numUnderrun == 0 && audioBufferSize == 0
    {
      var ring := new PacketBuffer(mtu, sampleRate, maxLatency);
      pktBuffer := ring;
      receiveThread := new RtpReceiveThread(ring, mtu);
      buffer := Null;
      lastSamples := [0, 0];
      offset := 0;
      state := None;
      numUnderrun := 0;
      audioBufferSize := 0;
    }

    /** `pkt_buffer_capacity()`. */
    function PktBufferCapacity(): (n: nat)
      reads this, pktBuffer
      ensures n == Consumer().ring.capacity
    {
      pktBuffer.Capacity()
    }

    /** `pkt_buffer_size()`. */
    function PktBufferSize(): (n: nat)
      reads this, pktBuffer
      ensures n == Consumer().ring.size
    {
      pktBuffer.size
    }

    /** `pkt_buffer_head_move_req()`. */
    function PktBufferHeadMoveReq(): (n: nat)
      reads this, pktBuffer
      ensures n == Consumer().ring.headMoveReq
    {
      pktBuffer.headMoveReq
    }

    /** `pkt_buffer_head_move()`. */
    function PktBufferHeadMove(): (n: nat)
      reads this, pktBuffer
      ensures n == Consumer().ring.headMove
    {
      pktBuffer.headMove
    }

    /** `pkt_buffer_tail_move_req()`. */
    function PktBufferTailMoveReq(): (n: nat)
      reads this, pktBuffer
      ensures n == Consumer().ring.tailMoveReq
    {
      pktBuffer.tailMoveReq
    }

    /** `pkt_buffer_tail_move()`. */
    function PktBufferTailMove(): (n: nat)
      reads this, pktBuffer
      ensures n == Consumer().ring.tailMove
    {
      pktBuffer.tailMove
    }

    method EnsureBuffer() returns (ok: bool)
      requires Valid()
      modifies this`buffer, this`offset, pktBuffer
      ensures Valid()
      ensures (Consumer(), ok) == PulseRtpPuller.EnsureBuffer(old(Consumer()), pktBuffer.Slots())
    {
      ghost var slots := pktBuffer.Slots();
      while !(buffer.Slot? && offset < |pktBuffer.pkts[buffer.index]|)
        invariant Valid() && pktBuffer.Slots() == slots
        invariant PulseRtpPuller.EnsureBuffer(Consumer(), slots)
                  == PulseRtpPuller.EnsureBuffer(old(Consumer()), slots)
        decreases pktBuffer.size
      {
        offset := 0;
        buffer := pktBuffer.RefNextHeadForRead();
        if buffer.Null? {
          return false;
        }
      }
      return true;
    }

    /** One channel of one frame of `onAudioReady`: play the next sample, or
        hold the last one once the tick is depleted. */
    method PullChannel(j: nat) returns (sample: bv16)
      requires Valid() && j < kNumChannel
      modifies this`buffer, this`offset, this`state, this`lastSamples, pktBuffer
      ensures Valid()
      ensures (Consumer(), sample) == PulseRtpPuller.ChannelStep(old(Consumer()), pktBuffer.Slots(), j)
    {
      var depleted := state == Depleted;
      if !depleted {
        var ok := EnsureBuffer();
        depleted := !ok;
      }
      if depleted {
        state := Depleted;
      } else {
        lastSamples := lastSamples[j := NetToHost16(pktBuffer.pkts[buffer.index][offset])];
        offset := Wrap32(offset + 1);
      }
      sample := lastSamples[j];
    }

    /** The end of one frame of `onAudioReady`: the per-frame recheck while
        the state is not `None`, and the tick's single cursor correction. */
    method RecheckFrame(hasAdjustment: bool) returns (adjusted: bool)
      requires Valid()
      modifies this`state, this`offset
      ensures Valid()
      ensures var f := PulseRtpPuller.FrameRecheck(old(Consumer()), hasAdjustment);
              Consumer() == f.consumer && adjusted == f.hasAdjustment
    {
      adjusted := hasAdjustment;
      if state != None {
        state := Recheck(state, pktBuffer.size, pktBuffer.Capacity());
        if !adjusted {
          adjusted := true;
          if state == Overrun {
            offset := Wrap32(offset + kNumChannel);
          } else if state == Underrun {
            offset := Wrap32(offset - kNumChannel);
          }
        }
      }
    }

    /** Frame `i` of `onAudioReady`: every channel in order into the output,
        then the recheck. */
    method PullFrame(output: array<bv16>, i: nat, hasAdjustment: bool) returns (adjusted: bool)
      requires Valid()
      requires (i + 1) * kNumChannel <= output.Length
      requires output as object != pktBuffer.pkts as object
      modifies this`buffer, this`offset, this`state, this`lastSamples, pktBuffer, output
      ensures Valid()
      ensures pktBuffer.Slots() == old(pktBuffer.Slots())
      ensures var f := PulseRtpPuller.FrameStep(old(Consumer()), old(pktBuffer.Slots()), hasAdjustment);
              && Consumer() == f.consumer && adjusted == f.hasAdjustment
              && output[..(i + 1) * kNumChannel] == old(output[..i * kNumChannel]) + f.samples
      ensures forall k :: (i + 1) * kNumChannel <= k < output.Length ==> output[k] == old(output[k])
    {
      ghost var slots := pktBuffer.Slots();
      ghost var frameStart := Consumer();
      ghost var before := output[..i * kNumChannel];
      var j := 0;
      while j < kNumChannel
        invariant 0 <= j <= kNumChannel
        invariant Valid() && pktBuffer.Slots() == slots
        invariant var ch := PulseRtpPuller.Channels(frameStart, slots, j);
                  && Consumer() == ch.0
                  && output[..i * kNumChannel + j] == before + ch.1
        invariant forall k :: i * kNumChannel + j <= k < output.Length ==> output[k] == old(output[k])
      {
        ghost var done := output[..i * kNumChannel + j];
        PulseRtpPuller.ChannelsNext(frameStart, slots, j);
        var sample := PullChannel(j);
        output[i * kNumChannel + j] := sample;
        assert output[..i * kNumChannel + j + 1] == done + [sample];
        j := j + 1;
      }
      adjusted := RecheckFrame(hasAdjustment);
    }

    /** `onAudioReady` for a stream whose buffer `output` holds at least
        `numFrames` stereo frames; `xrunCount` and `bufferSize` are what the
        stream reports for `getXRunCount()` and `getBufferSizeInFrames()`. */
    method OnAudioReady(output: array<bv16>, numFrames: nat, xrunCount: int, bufferSize: int)
      requires Valid()
      requires numFrames * kNumChannel <= output.Length
      requires output as object != pktBuffer.pkts as object
      modifies this, pktBuffer, output
      ensures Valid()
      ensures pktBuffer.Slots() == old(pktBuffer.Slots())
      ensures numUnderrun == xrunCount && audioBufferSize == bufferSize
      ensures var t := PulseRtpPuller.Tick(old(Consumer()), old(pktBuffer.Slots()), numFrames);
              Consumer() == t.consumer && output[..numFrames * kNumChannel] == t.output
      ensures forall k :: numFrames * kNumChannel <= k < output.Length ==> output[k] == old(output[k])
    {
      numUnderrun := xrunCount;
      audioBufferSize := bufferSize;
      StartTick();
      PullFrames(output, numFrames);
    }

    /** The frame loop of `onAudioReady`: `numFrames` frames into the front of
        `output`, starting with no correction made in this tick. */
    method PullFrames(output: array<bv16>, numFrames: nat)
      requires Valid()
      requires numFrames * kNumChannel <= output.Length
      requires output as object != pktBuffer.pkts as object
      modifies this`buffer, this`offset, this`state, this`lastSamples, pktBuffer, output
      ensures Valid()
      ensures pktBuffer.Slots() == old(pktBuffer.Slots())
      ensures var t := PulseRtpPuller.Frames(old(Consumer()), old(pktBuffer.Slots()), false, numFrames);
              Consumer() == t.consumer && output[..numFrames * kNumChannel] == t.output
      ensures forall k :: numFrames * kNumChannel <= k < output.Length ==> output[k] == old(output[k])
    {
      ghost var slots := pktBuffer.Slots();
      ghost var start := Consumer();
      var hasAdjustment := false;
      var i := 0;
      while i < numFrames
        invariant 0 <= i <= numFrames
        invariant Valid() && pktBuffer.Slots() == slots
        invariant var t := PulseRtpPuller.Frames(start, slots, false, i);
                  Consumer() == t.consumer && hasAdjustment == t.hasAdjustment
                  && output[..i * kNumChannel] == t.output
        invariant forall k :: i * kNumChannel <= k < output.Length ==> output[k] == old(output[k])
      {
        PulseRtpPuller.FramesNext(start, slots, false, i);
        hasAdjustment := PullFrame(output, i, hasAdjustment);
        i := i + 1;
      }
    }

    /** The start of `onAudioReady`: the coarse check, made only in state
        `None`. */
    method StartTick()
      requires Valid()
      modifies this`state
      ensures Valid()
      ensures Consumer() == PulseRtpPuller.TickStart(old(Consumer()))
    {
      if state == None {
        state := CoarseCheck(pktBuffer.size, pktBuffer.Capacity());
      }
    }
  }
}
