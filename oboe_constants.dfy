/** The compile-time sizing of the older engine generation (OboeEngine.h):
    a fixed 1280-byte payload, a 48 kHz stereo stream of 16-bit samples and a
    ring sized for 500 ms. */
module OboeConstants {
  import opened HostTypes
  import PulseRtpPacketBuffer

  const kRtpMtu: nat := 1280
  const kRtpPacketSize: nat := kRtpHeader + kRtpMtu
  const kSampleRate: nat := 48000
  const kMaxLatency: nat := 500

  /** `kPacketBufferSize`, evaluated in `unsigned` arithmetic left to right. */
  const kPacketBufferSize: nat :=
    1 + Wrap32(kSampleRate * kMaxLatency) / 1000 / (kRtpMtu / kNumChannel / kSampleSize)

  /** The length every slot is allocated with and keeps: `kRtpMtu / kSampleSize`. */
  const kSlotSamples: nat := kRtpMtu / kSampleSize

  /** Frames one full packet carries: its payload split into stereo frames of
      16-bit samples. */
  function FramesPerPacket(): (n: nat)
    ensures n * kNumChannel * kSampleSize == kRtpMtu
    ensures n == 320
  {
    kRtpMtu / kNumChannel / kSampleSize
  }

  /** Full packets the stream consumes per second at the fixed rate. */
  function PacketsPerSecond(): (n: nat)
    ensures n * FramesPerPacket() == kSampleRate
    ensures n == 150
  {
    kSampleRate / FramesPerPacket()
  }

  /** Full packets that cover `ms` milliseconds of playback, rounded down. */
  function PacketsFor(ms: nat): (n: nat)
    ensures n * 1000 <= ms * PacketsPerSecond() < (n + 1) * 1000
  {
    ms * PacketsPerSecond() / 1000
  }

  /** The sizing notes of the header: 100 ms of playback is 15 full packets,
      and a full datagram is the 12-byte header and a 1280-byte payload. */
  lemma SizingNotes()
    ensures PacketsFor(100) == 15
    ensures kRtpPacketSize == 1292
  {
  }

  /** The ring has 76 slots: one more than the 75 full packets that 500 ms
      of playback takes, which is the same count the newer engine computes
      from the same MTU, rate and latency. */
  lemma PacketBufferSize()
    ensures kPacketBufferSize == 76
    ensures (kPacketBufferSize - 1) * FramesPerPacket() == kSampleRate * kMaxLatency / 1000
    ensures kPacketBufferSize == PulseRtpPacketBuffer.NumBuffers(kRtpMtu, kSampleRate, kMaxLatency)
  {
    assert Wrap32(kSampleRate * kMaxLatency) == 24000000;
  }

  /** The receive buffer holds one header and at most one slot's worth of
      payload bytes. */
  lemma PayloadFitsSlot()
    ensures kRtpPacketSize - kRtpHeader == kSampleSize * kSlotSamples
  {
  }
}
