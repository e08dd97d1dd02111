/** What one render tick of the current engine computes (`EnsureBuffer` and
    `onAudioReady` in PulseRtpOboeEngine.cpp), as functions of the ring, the
    slot contents and the consumer's cursor. The engine's methods are proved
    to compute exactly these functions; the properties of a tick are proved
    here. No producer call runs during a tick, so the slots do not change. */
module PulseRtpPuller {
  import opened HostTypes
  import opened PulseRtpPacketBuffer
  import opened PulseRtpJitter

  /** Everything the render callback reads and writes apart from the output:
      the ring's indices and counters, `buffer_`, `offset_`, `state_` and
      `last_samples_`. */
  datatype Consumer = Consumer(ring: Ring, buffer: SlotRef, offset: u32, state: State,
                               lastSamples: seq<bv16>)

  ghost predicate Fits(c: Consumer, slots: seq<seq<bv16>>)
  {
    && c.ring.Valid()
    && |slots| == c.ring.capacity
    && (c.buffer.Slot? ==> c.buffer.index < |slots|)
    && |c.lastSamples| == kNumChannel
  }

  /** The cursor points at a sample not yet played. */
  predicate HasData(c: Consumer, slots: seq<seq<bv16>>)
    requires c.buffer.Slot? ==> c.buffer.index < |slots|
  {
    c.buffer.Slot? && c.offset < |slots[c.buffer.index]|
  }

  /** The producer side of the ring is not touched by the consumer. */
  predicate SameProducerSide(r: Ring, r': Ring)
  {
    r'.capacity == r.capacity && r'.tail == r.tail
    && r'.tailMove == r.tailMove && r'.tailMoveReq == r.tailMoveReq
  }

  /** `EnsureBuffer`: while the cursor has nothing to play, fetch the next
      slot from the ring with the offset reset to 0; fail with a null buffer
      when the ring is empty. Slots of length 0 are passed over. */
  function EnsureBuffer(c: Consumer, slots: seq<seq<bv16>>): (res: (Consumer, bool))
    requires Fits(c, slots)
    ensures Fits(res.0, slots)
    ensures res.1 == HasData(res.0, slots)
    decreases c.ring.size
  {
    if HasData(c, slots) then
      (c, true)
    else
      var (ring', ref) := ReadNext(c.ring);
      var c' := c.(ring := ring', buffer := ref, offset := 0);
      if ref.Null? then
        (c', false)
      else
        EnsureBuffer(c', slots)
  }

  /** `EnsureBuffer` leaves a cursor with data alone; when it fails the ring
      is empty and the cursor is null at offset 0; it never touches the state,
      the last samples or the producer's side of the ring, never moves the
      head back, moves it whenever it had to fetch, and after a fetch the cursor is at the start of the slot at
      the new head. */
  lemma {:induction false} EnsureBufferSpec(c: Consumer, slots: seq<seq<bv16>>)
    requires Fits(c, slots)
    ensures var res := EnsureBuffer(c, slots);
            && (HasData(c, slots) ==> res == (c, true))
            && (!res.1 ==> res.0.buffer == Null && res.0.offset == 0 && res.0.ring.size == 0)
            && res.0.state == c.state && res.0.lastSamples == c.lastSamples
            && SameProducerSide(c.ring, res.0.ring)
            && c.ring.headMove <= res.0.ring.headMove
            && (res.1 && !HasData(c, slots) ==> res.0.ring.headMove > c.ring.headMove)
            && (res.1 && res.0.ring.headMove > c.ring.headMove ==>
                  res.0.buffer == Slot(res.0.ring.head) && res.0.offset == 0)
    decreases c.ring.size
  {
    if !HasData(c, slots) {
      var (ring', ref) := ReadNext(c.ring);
      var c' := c.(ring := ring', buffer := ref, offset := 0);
      if ref.Slot? {
        EnsureBufferSpec(c', slots);
      }
    }
  }

  /** Entry `j` of `v` is the first with a sample. */
  predicate FirstNonEmptyAt(v: seq<seq<bv16>>, j: int)
  {
    0 <= j < |v| && |v[j]| > 0 && forall i :: 0 <= i < j ==> |v[i]| == 0
  }

  /** No entry of `v` has a sample. */
  predicate AllEmpty(v: seq<seq<bv16>>)
  {
    forall i :: 0 <= i < |v| ==> |v[i]| == 0
  }

  /** Behind an empty front entry, the first entry with a sample is one
      further on, and all entries stay empty. */
  lemma EmptyFrontShifts(v: seq<seq<bv16>>, j: int)
    requires |v| > 0 && |v[0]| == 0
    ensures FirstNonEmptyAt(v[1..], j) ==> FirstNonEmptyAt(v, j + 1)
    ensures AllEmpty(v[1..]) ==> AllEmpty(v)
  {
    if FirstNonEmptyAt(v[1..], j) {
      assert forall i :: 0 < i < j + 1 ==> v[i] == v[1..][i - 1];
    }
    if AllEmpty(v[1..]) {
      assert forall i :: 0 < i < |v| ==> v[i] == v[1..][i - 1];
    }
  }

  /** One round of `EnsureBuffer` on a cursor without data and a non-empty
      ring: the slot at the front of the reader's view is taken with the
      offset reset, and the rest of the view is what remains to search. */
  lemma EnsureBufferRound(c: Consumer, slots: seq<seq<bv16>>)
    requires Fits(c, slots) && !HasData(c, slots) && c.ring.size > 0
    ensures var (ring', ref) := ReadNext(c.ring);
            var v := ReaderView(c.ring, slots);
            && ref == Slot(ReadIndex(c.ring, 0)) && slots[ref.index] == v[0]
            && ring'.headMove == c.ring.headMove + 1
            && ReaderView(ring', slots) == v[1..]
            && (forall i: nat :: ReadIndex(ring', i) == ReadIndex(c.ring, i + 1))
  {
    ReadPopsView(c.ring, slots);
    var ring' := ReadNext(c.ring).0;
    forall i: nat
      ensures ReadIndex(ring', i) == ReadIndex(c.ring, i + 1)
    {
      ModAddLeft(c.ring.head + 1, 1 + i, c.ring.capacity);
    }
  }

  /** A fetch passes over the empty slots at the front of the reader's view
      and stops at the first one with a sample: the cursor is at the start
      of view entry `j`, `j + 1` packets were taken, and every entry before
      `j` is empty. It fails only when every entry of the view is empty. */
  lemma {:induction false} EnsureBufferFetchesFirstNonEmpty(c: Consumer, slots: seq<seq<bv16>>)
    requires Fits(c, slots) && !HasData(c, slots)
    ensures var res := EnsureBuffer(c, slots);
            var v := ReaderView(c.ring, slots);
            var j := res.0.ring.headMove - c.ring.headMove - 1;
            && (res.1 ==> && FirstNonEmptyAt(v, j) && res.0.offset == 0
                          && res.0.buffer == Slot(ReadIndex(c.ring, j)))
            && (!res.1 ==> AllEmpty(v))
    decreases c.ring.size
  {
    if c.ring.size > 0 {
      EnsureBufferRound(c, slots);
      var (ring', ref) := ReadNext(c.ring);
      var c' := c.(ring := ring', buffer := ref, offset := 0);
      var v := ReaderView(c.ring, slots);
      if HasData(c', slots) {
        assert EnsureBuffer(c, slots) == (c', true);
      } else {
        assert EnsureBuffer(c, slots) == EnsureBuffer(c', slots);
        EnsureBufferFetchesFirstNonEmpty(c', slots);
        var res := EnsureBuffer(c', slots);
        var j' := res.0.ring.headMove - ring'.headMove - 1;
        EmptyFrontShifts(v, j');
        if res.1 {
          assert res.0.buffer == Slot(ReadIndex(c.ring, j' + 1));
        }
      }
    }
  }

  /** One channel of one frame: a depleted tick, or a failed `EnsureBuffer`,
      holds the channel's last sample and records the depletion; otherwise the
      sample under the cursor, put through `ntohs`, becomes the channel's last
      sample and the cursor moves past it. Either way the output is the
      channel's last sample. */
  function ChannelStep(c: Consumer, slots: seq<seq<bv16>>, j: nat): (res: (Consumer, bv16))
    requires Fits(c, slots) && j < kNumChannel
    ensures Fits(res.0, slots)
  {
    if c.state == Depleted then
      (c, c.lastSamples[j])
    else
      var (e, ok) := EnsureBuffer(c, slots);
      if !ok then
        (e.(state := Depleted), e.lastSamples[j])
      else
        var sample := NetToHost16(slots[e.buffer.index][e.offset]);
        (e.(lastSamples := e.lastSamples[j := sample], offset := Wrap32(e.offset + 1)), sample)
  }

  /** A channel step outputs the channel's new last sample, leaves the
      other channels' last samples and the producer side of the ring alone,
      and changes nothing in a depleted tick. */
  lemma ChannelStepKeeps(c: Consumer, slots: seq<seq<bv16>>, j: nat)
    requires Fits(c, slots) && j < kNumChannel
    ensures var res := ChannelStep(c, slots, j);
            && res.1 == res.0.lastSamples[j]
            && (forall k :: 0 <= k < kNumChannel && k != j ==> res.0.lastSamples[k] == c.lastSamples[k])
            && (c.state == Depleted ==> res.0 == c)
            && SameProducerSide(c.ring, res.0.ring)
  {
    EnsureBufferSpec(c, slots);
  }

  /** The state becomes `Depleted` exactly when the tick already was or
      `EnsureBuffer` fails; otherwise the output is the host-order sample
      under the fetched cursor, which moves one sample on. */
  lemma ChannelStepPlays(c: Consumer, slots: seq<seq<bv16>>, j: nat)
    requires Fits(c, slots) && j < kNumChannel
    ensures var res := ChannelStep(c, slots, j);
            && res.0.state == (if c.state == Depleted || !EnsureBuffer(c, slots).1 then Depleted else c.state)
            && (res.0.state != Depleted ==>
                  var e := EnsureBuffer(c, slots).0;
                  && res.1 == NetToHost16(slots[e.buffer.index][e.offset])
                  && res.0.offset == Wrap32(e.offset + 1)
                  && res.0.ring == e.ring && res.0.buffer == e.buffer)
  {
    EnsureBufferSpec(c, slots);
  }

  /** The first `n` channels of a frame, in order. */
  function Channels(c: Consumer, slots: seq<seq<bv16>>, n: nat): (res: (Consumer, seq<bv16>))
    requires Fits(c, slots) && n <= kNumChannel
    ensures Fits(res.0, slots) && |res.1| == n
    decreases n
  {
    if n == 0 then
      (c, [])
    else
      var (c', out) := Channels(c, slots, n - 1);
      var (c'', sample) := ChannelStep(c', slots, n - 1);
      (c'', out + [sample])
  }

  /** The first `n + 1` channels are the first `n` and one more. */
  lemma ChannelsNext(c: Consumer, slots: seq<seq<bv16>>, n: nat)
    requires Fits(c, slots) && n < kNumChannel
    ensures var prev := Channels(c, slots, n);
            var step := ChannelStep(prev.0, slots, n);
            Channels(c, slots, n + 1) == (step.0, prev.1 + [step.1])
  {
  }

  /** After the first `n` channels, each of them has output its new last
      sample, the remaining channels keep theirs, and the producer side of
      the ring is untouched. */
  lemma {:induction false} ChannelsSpec(c: Consumer, slots: seq<seq<bv16>>, n: nat)
    requires Fits(c, slots) && n <= kNumChannel
    ensures var res := Channels(c, slots, n);
            && (forall k :: 0 <= k < n ==> res.1[k] == res.0.lastSamples[k])
            && (forall k :: n <= k < kNumChannel ==> res.0.lastSamples[k] == c.lastSamples[k])
            && SameProducerSide(c.ring, res.0.ring)
    decreases n
  {
    if n > 0 {
      ChannelsSpec(c, slots, n - 1);
      ChannelsNext(c, slots, n - 1);
      var prev := Channels(c, slots, n - 1);
      ChannelStepKeeps(prev.0, slots, n - 1);
      var step := ChannelStep(prev.0, slots, n - 1);
      ChannelAppend(prev.1, prev.0.lastSamples, step.1, step.0.lastSamples, c.lastSamples, n - 1);
    }
  }

  /** The bookkeeping of one more channel, apart from how its sample is
      found: channel `j` outputs its new last sample and only channel `j`
      changes. */
  lemma ChannelAppend(out: seq<bv16>, last: seq<bv16>, sample: bv16, last': seq<bv16>,
                      first: seq<bv16>, j: nat)
    requires |out| == j && j < kNumChannel && |last| == |last'| == |first| == kNumChannel
    requires forall k :: 0 <= k < j ==> out[k] == last[k]
    requires forall k :: j <= k < kNumChannel ==> last[k] == first[k]
    requires sample == last'[j]
    requires forall k :: 0 <= k < kNumChannel && k != j ==> last'[k] == last[k]
    ensures forall k :: 0 <= k < j + 1 ==> (out + [sample])[k] == last'[k]
    ensures forall k :: j + 1 <= k < kNumChannel ==> last'[k] == first[k]
  {
  }

  datatype FrameResult = FrameResult(consumer: Consumer, hasAdjustment: bool,
                                     samples: seq<bv16>, adjustment: int)

  /** The per-frame recheck after the channels of a frame, made unless the
      state is `None`; the first rechecked frame of a tick uses up the tick's
      single correction, which moves the cursor one frame forward on overrun
      (a skip) and one frame back on underrun (a repeat), in 32-bit unsigned
      arithmetic. `adjustment` records the correction applied. */
  function FrameRecheck(c: Consumer, hasAdjustment: bool): (res: FrameResult)
    ensures res.consumer == c.(state := res.consumer.state, offset := res.consumer.offset)
  {
    if c.state == None then
      FrameResult(c, hasAdjustment, [], 0)
    else
      var c2 := c.(state := Recheck(c.state, c.ring.size, c.ring.capacity));
      if hasAdjustment then
        FrameResult(c2, true, [], 0)
      else if c2.state == Overrun then
        FrameResult(c2.(offset := Wrap32(c2.offset + kNumChannel)), true, [], kNumChannel)
      else if c2.state == Underrun then
        FrameResult(c2.(offset := Wrap32(c2.offset - kNumChannel)), true, [], -(kNumChannel as int))
      else
        FrameResult(c2, true, [], 0)
  }

  /** The recheck in terms of the jitter checks: nothing happens in state
      `None`; otherwise the state is rechecked and the tick's correction is
      used up, and it is a skip exactly when it is the first and the ring is
      overrun, a repeat exactly when it is the first and the ring is
      underrun, and otherwise nothing; the offset moves by the correction
      modulo 2^32. */
  lemma FrameRecheckSpec(c: Consumer, hasAdjustment: bool)
    ensures var res := FrameRecheck(c, hasAdjustment);
            && res.samples == []
            && res.hasAdjustment == (hasAdjustment || c.state != None)
            && (c.state == None ==> res.consumer == c)
            && (c.state != None ==> res.consumer.state == Recheck(c.state, c.ring.size, c.ring.capacity))
            && IsCorrection(res.adjustment)
            && (hasAdjustment || c.state == None ==> res.adjustment == 0)
            && (res.adjustment == kNumChannel <==>
                  !hasAdjustment && c.state != None && res.consumer.state == Overrun)
            && (res.adjustment == -(kNumChannel as int) <==>
                  !hasAdjustment && c.state != None && res.consumer.state == Underrun)
            && res.consumer.offset == Wrap32(c.offset + res.adjustment)
  {
  }

  /** One output frame: every channel, then the per-frame recheck. */
  function FrameStep(c: Consumer, slots: seq<seq<bv16>>, hasAdjustment: bool): (res: FrameResult)
    requires Fits(c, slots)
    ensures Fits(res.consumer, slots) && |res.samples| == kNumChannel
  {
    var (c1, out) := Channels(c, slots, kNumChannel);
    FrameRecheck(c1, hasAdjustment).(samples := out)
  }

  /** A frame outputs the last sample of every channel, leaves the producer
      side alone, and makes a correction only if none was made before it in
      the tick, after which the tick counts as corrected. */
  lemma FrameStepSpec(c: Consumer, slots: seq<seq<bv16>>, hasAdjustment: bool)
    requires Fits(c, slots)
    ensures var res := FrameStep(c, slots, hasAdjustment);
            && res.samples == res.consumer.lastSamples
            && SameProducerSide(c.ring, res.consumer.ring)
            && (hasAdjustment ==> res.hasAdjustment && res.adjustment == 0)
            && (res.adjustment != 0 ==> res.hasAdjustment)
            && IsCorrection(res.adjustment)
  {
    var (c1, out) := Channels(c, slots, kNumChannel);
    ChannelsSpec(c, slots, kNumChannel);
    FrameRecheckSpec(c1, hasAdjustment);
    assert out == c1.lastSamples;
  }

  datatype TickResult = TickResult(consumer: Consumer, hasAdjustment: bool,
                                   output: seq<bv16>, adjustments: seq<int>)

  /** The first `n` frames of a tick, in order. */
  function Frames(c: Consumer, slots: seq<seq<bv16>>, hasAdjustment: bool, n: nat): (res: TickResult)
    requires Fits(c, slots)
    ensures Fits(res.consumer, slots)
    ensures |res.output| == n * kNumChannel && |res.adjustments| == n
    decreases n
  {
    if n == 0 then
      TickResult(c, hasAdjustment, [], [])
    else
      var prev := Frames(c, slots, hasAdjustment, n - 1);
      var f := FrameStep(prev.consumer, slots, prev.hasAdjustment);
      TickResult(f.consumer, f.hasAdjustment, prev.output + f.samples, prev.adjustments + [f.adjustment])
  }

  /** The first `n + 1` frames are the first `n` and one more. */
  lemma FramesNext(c: Consumer, slots: seq<seq<bv16>>, hasAdjustment: bool, n: nat)
    requires Fits(c, slots)
    ensures var prev := Frames(c, slots, hasAdjustment, n);
            var f := FrameStep(prev.consumer, slots, prev.hasAdjustment);
            Frames(c, slots, hasAdjustment, n + 1)
              == TickResult(f.consumer, f.hasAdjustment, prev.output + f.samples, prev.adjustments + [f.adjustment])
  {
  }

  /** The frames of a tick never touch the producer side of the ring. */
  lemma {:induction false} FramesKeepProducerSide(c: Consumer, slots: seq<seq<bv16>>, hasAdjustment: bool, n: nat)
    requires Fits(c, slots)
    ensures SameProducerSide(c.ring, Frames(c, slots, hasAdjustment, n).consumer.ring)
    decreases n
  {
    if n > 0 {
      FramesKeepProducerSide(c, slots, hasAdjustment, n - 1);
      var prev := Frames(c, slots, hasAdjustment, n - 1);
      FrameStepSpec(prev.consumer, slots, prev.hasAdjustment);
      FramesNext(c, slots, hasAdjustment, n - 1);
    }
  }

  /** Over the first `n` frames every frame's adjustment is a correction
      and at most one of them is non-zero; none is once the tick had
      corrected before it started, and a correction marks the tick as
      corrected. */
  lemma {:induction false} FramesCorrectAtMostOnce(c: Consumer, slots: seq<seq<bv16>>, hasAdjustment: bool, n: nat)
    requires Fits(c, slots)
    ensures var res := Frames(c, slots, hasAdjustment, n);
            && AllCorrections(res.adjustments)
            && CorrectionCount(res.adjustments) <= 1
            && (hasAdjustment ==> res.hasAdjustment && CorrectionCount(res.adjustments) == 0)
            && (CorrectionCount(res.adjustments) > 0 ==> res.hasAdjustment)
    decreases n
  {
    if n > 0 {
      FramesCorrectAtMostOnce(c, slots, hasAdjustment, n - 1);
      var prev := Frames(c, slots, hasAdjustment, n - 1);
      var f := FrameStep(prev.consumer, slots, prev.hasAdjustment);
      FrameStepSpec(prev.consumer, slots, prev.hasAdjustment);
      FramesNext(c, slots, hasAdjustment, n - 1);
      AppendCorrection(prev.adjustments, prev.hasAdjustment, f.adjustment, f.hasAdjustment);
    }
  }

  /** The coarse check, made only when a tick starts in state `None`. */
  function TickStart(c: Consumer): (c': Consumer)
    ensures c' == c.(state := c'.state)
    ensures c.state != None ==> c' == c
  {
    if c.state == None then c.(state := CoarseCheck(c.ring.size, c.ring.capacity)) else c
  }

  /** `onAudioReady` for `numFrames` frames. */
  function Tick(c: Consumer, slots: seq<seq<bv16>>, numFrames: nat): (res: TickResult)
    requires Fits(c, slots)
    ensures Fits(res.consumer, slots)
    ensures |res.output| == numFrames * kNumChannel && |res.adjustments| == numFrames
  {
    Frames(TickStart(c), slots, false, numFrames)
  }

  /** A tick outputs exactly `numFrames` interleaved stereo frames, leaves
      the producer side of the ring alone and corrects the cursor at most
      once, by one frame either way. */
  lemma TickSpec(c: Consumer, slots: seq<seq<bv16>>, numFrames: nat)
    requires Fits(c, slots)
    ensures var res := Tick(c, slots, numFrames);
            && SameProducerSide(c.ring, res.consumer.ring)
            && AllCorrections(res.adjustments) && CorrectionCount(res.adjustments) <= 1
  {
    FramesKeepProducerSide(TickStart(c), slots, false, numFrames);
    FramesCorrectAtMostOnce(TickStart(c), slots, false, numFrames);
  }

  /** `n` copies of `frame`, one after the other. */
  function Repeat(frame: seq<bv16>, n: nat): seq<bv16>
  {
    if n == 0 then [] else Repeat(frame, n - 1) + frame
  }

  /** The consumer has nothing to play: the ring is empty and the cursor
      holds no unplayed sample. */
  predicate Starved(c: Consumer, slots: seq<seq<bv16>>)
    requires c.buffer.Slot? ==> c.buffer.index < |slots|
  {
    c.ring.size == 0 && !HasData(c, slots)
  }

  /** With nothing to play, a channel outputs its last sample again, the
      tick is depleted, and no packet is taken from the ring. */
  lemma ChannelStepOnEmpty(c: Consumer, slots: seq<seq<bv16>>, j: nat)
    requires Fits(c, slots) && j < kNumChannel && Starved(c, slots)
    ensures var (c', sample) := ChannelStep(c, slots, j);
            && sample == c.lastSamples[j] && c'.lastSamples == c.lastSamples
            && c'.state == Depleted && Starved(c', slots)
            && c'.ring.head == c.ring.head && c'.ring.headMove == c.ring.headMove
  {
    EnsureBufferSpec(c, slots);
  }

  /** With nothing to play, the first `n` channels output their last
      samples again. */
  lemma {:induction false} ChannelsOnEmpty(c: Consumer, slots: seq<seq<bv16>>, n: nat)
    requires Fits(c, slots) && n <= kNumChannel && Starved(c, slots)
    ensures var (c', out) := Channels(c, slots, n);
            && out == c.lastSamples[..n] && c'.lastSamples == c.lastSamples
            && (n > 0 ==> c'.state == Depleted) && Starved(c', slots)
            && c'.ring.head == c.ring.head && c'.ring.headMove == c.ring.headMove
    decreases n
  {
    if n > 0 {
      ChannelsOnEmpty(c, slots, n - 1);
      ChannelsNext(c, slots, n - 1);
      var prev := Channels(c, slots, n - 1);
      ChannelStepOnEmpty(prev.0, slots, n - 1);
      assert c.lastSamples[..n] == c.lastSamples[..n - 1] + [c.lastSamples[n - 1]];
    }
  }

  /** With nothing to play, a frame repeats the last frame and makes no
      correction: an empty ring is never overrun, and a depleted tick is
      never underrun. */
  lemma FrameOnEmpty(c: Consumer, slots: seq<seq<bv16>>, hasAdjustment: bool)
    requires Fits(c, slots) && Starved(c, slots)
    ensures var f := FrameStep(c, slots, hasAdjustment);
            && f.samples == c.lastSamples && f.adjustment == 0
            && f.consumer.lastSamples == c.lastSamples && Starved(f.consumer, slots)
            && f.consumer.ring.head == c.ring.head && f.consumer.ring.headMove == c.ring.headMove
  {
    ChannelsOnEmpty(c, slots, kNumChannel);
    var (c1, out) := Channels(c, slots, kNumChannel);
    FrameRecheckSpec(c1, hasAdjustment);
    assert c.lastSamples[..kNumChannel] == c.lastSamples;
  }

  /** With nothing to play, the frames of a tick stay starved, keep the
      last frame and never move the head. */
  lemma {:induction false} FramesStayStarved(c: Consumer, slots: seq<seq<bv16>>, hasAdjustment: bool, n: nat)
    requires Fits(c, slots) && Starved(c, slots)
    ensures var res := Frames(c, slots, hasAdjustment, n).consumer;
            && res.lastSamples == c.lastSamples && Starved(res, slots)
            && res.ring.head == c.ring.head && res.ring.headMove == c.ring.headMove
    decreases n
  {
    if n > 0 {
      FramesStayStarved(c, slots, hasAdjustment, n - 1);
      FramesNext(c, slots, hasAdjustment, n - 1);
      var prev := Frames(c, slots, hasAdjustment, n - 1);
      FrameOnEmpty(prev.consumer, slots, prev.hasAdjustment);
    }
  }

  /** With nothing to play, the first `n` frames repeat the last frame and
      make no correction. */
  lemma {:induction false} FramesOnEmpty(c: Consumer, slots: seq<seq<bv16>>, hasAdjustment: bool, n: nat)
    requires Fits(c, slots) && Starved(c, slots)
    ensures var res := Frames(c, slots, hasAdjustment, n);
            && res.output == Repeat(c.lastSamples, n)
            && forall k :: 0 <= k < n ==> res.adjustments[k] == 0
    decreases n
  {
    if n > 0 {
      FramesOnEmpty(c, slots, hasAdjustment, n - 1);
      FramesStayStarved(c, slots, hasAdjustment, n - 1);
      FramesNext(c, slots, hasAdjustment, n - 1);
      var prev := Frames(c, slots, hasAdjustment, n - 1);
      FrameOnEmpty(prev.consumer, slots, prev.hasAdjustment);
      FrameAppend(prev.output, prev.adjustments, c.lastSamples, n - 1);
    }
  }

  /** The bookkeeping of one more repeated frame without a correction. */
  lemma FrameAppend(out: seq<bv16>, adjustments: seq<int>, frame: seq<bv16>, n: nat)
    requires out == Repeat(frame, n) && |adjustments| == n
    requires forall k :: 0 <= k < n ==> adjustments[k] == 0
    ensures out + frame == Repeat(frame, n + 1)
    ensures forall k :: 0 <= k < n + 1 ==> (adjustments + [0])[k] == 0
  {
  }

  /** Concealment: a tick on an empty ring with nothing left under the
      cursor outputs the last frame played, `numFrames` times, corrects
      nothing, and leaves the head where it was. */
  lemma TickOnEmptyRing(c: Consumer, slots: seq<seq<bv16>>, numFrames: nat)
    requires Fits(c, slots) && Starved(c, slots)
    ensures var res := Tick(c, slots, numFrames);
            && res.output == Repeat(c.lastSamples, numFrames)
            && (forall k :: 0 <= k < numFrames ==> res.adjustments[k] == 0)
            && res.consumer.lastSamples == c.lastSamples
            && res.consumer.ring.head == c.ring.head && res.consumer.ring.headMove == c.ring.headMove
  {
    FramesOnEmpty(TickStart(c), slots, false, numFrames);
    FramesStayStarved(TickStart(c), slots, false, numFrames);
  }

  /** No correction, a skip of one frame, or a repeat of one frame. */
  predicate IsCorrection(a: int)
  {
    a == 0 || a == kNumChannel || a == -(kNumChannel as int)
  }

  predicate AllCorrections(s: seq<int>)
  {
    forall k :: 0 <= k < |s| ==> IsCorrection(s[k])
  }

  /** One more frame, which corrects only if the tick had not corrected
      before it and is marked corrected if it does, keeps the corrections
      well formed. */
  lemma AppendCorrection(s: seq<int>, corrected: bool, a: int, corrected': bool)
    requires AllCorrections(s) && CorrectionCount(s) <= 1
    requires CorrectionCount(s) > 0 ==> corrected
    requires IsCorrection(a)
    requires corrected ==> corrected' && a == 0
    requires a != 0 ==> corrected'
    ensures AllCorrections(s + [a]) && CorrectionCount(s + [a]) <= 1
    ensures CorrectionCount(s + [a]) > 0 ==> corrected'
    ensures corrected ==> CorrectionCount(s + [a]) == CorrectionCount(s)
  {
    CorrectionCountAppend(s, a);
    assert forall k :: 0 <= k < |s| ==> (s + [a])[k] == s[k];
  }

  /** How many entries of `s` are an actual correction. */
  function CorrectionCount(s: seq<int>): (n: nat)
    ensures n <= |s|
  {
    if |s| == 0 then 0
    else CorrectionCount(s[..|s| - 1]) + (if s[|s| - 1] != 0 then 1 else 0)
  }

  /** Appending one entry counts it. */
  lemma CorrectionCountAppend(s: seq<int>, a: int)
    ensures CorrectionCount(s + [a]) == CorrectionCount(s) + (if a != 0 then 1 else 0)
  {
    assert (s + [a])[..|s|] == s;
  }

  /** A count of at most one means that once a correction is made, no later
      entry is one. */
  lemma {:induction false} AtMostOneCorrection(s: seq<int>, k1: nat, k2: nat)
    requires CorrectionCount(s) <= 1 && k1 < k2 < |s| && s[k1] != 0
    ensures s[k2] == 0
    decreases |s|
  {
    var last := |s| - 1;
    var init := s[..last];
    if k2 < last {
      assert init[k1] == s[k1] && init[k2] == s[k2];
      AtMostOneCorrection(init, k1, k2);
    } else {
      CorrectionCountPositive(init, k1);
    }
  }

  /** A non-zero entry is counted. */
  lemma {:induction false} CorrectionCountPositive(s: seq<int>, k: nat)
    requires k < |s| && s[k] != 0
    ensures CorrectionCount(s) >= 1
    decreases |s|
  {
    if k < |s| - 1 {
      assert s[..|s| - 1][k] == s[k];
      CorrectionCountPositive(s[..|s| - 1], k);
    }
  }
}
