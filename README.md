# PulseDroid RTP playback core in Dafny

This project models the playback core of PulseDroid RTP, an Android player
for the uncompressed RTP audio stream that PulseAudio's `module-rtp-send`
multicasts: 16-bit big-endian stereo samples behind a 12-byte RTP header.
The player has two engine generations, and a Kotlin front end that
configures the newer one:

- **The current engine** (`PulseRtpOboeEngine`). A receive thread copies each
  datagram's payload into a slot of a ring of packets. The ring is sized from
  the MTU, the sample rate and the maximum latency, and it counts every
  request and every successful move of its two indices. The render callback
  `onAudioReady` pulls samples from the ring through a cursor
  (`buffer_`, `offset_`). It conceals a shortage by repeating each channel's
  last sample. A jitter state machine (`None`, `Underrun`, `Overrun`,
  `Depleted`) skips or repeats at most one frame per callback.
- **The older engine** (`OboeEngine`). It uses fixed compile-time sizing: 76
  slots of 640 samples. Its ring reserves the next slot before writing it.
  Its callback fills the output until the ring runs dry and then writes
  silence.
- **The Kotlin front** (`PulseRtpAudioEngine.kt`). Its `Params` setters
  silently reject out-of-range values. `Params` can be loaded from stored
  preferences or from a `udp://` URI. The front also keeps the native engine
  handle behind `create`, `destroy` and `isPlaying`.

Each operation that changes state in place is a method of a class with the
source's fields. Each method is proved against a function of the old state:
a ring function, a tick of the puller, or a setter on a `Settings` value.
The properties of those functions are proved as lemmas: FIFO order, counter
invariants, the bounds of the jitter control, at most one correction per
tick, silence after the data, and save/load round trips.

Modules, one per source concern:

| module | file | models |
|---|---|---|
| `HostTypes` | host_types.dfy | 32-bit `unsigned` wrap-around, `ntohs` and `memcpy` on a little-endian host, ring-index arithmetic |
| `PulseRtpPacketBuffer` | pulse_rtp_packet_buffer.dfy | the current `PacketBuffer`: sizing, read, write commit, counters |
| `PulseRtpReceiver` | pulse_rtp_receiver.dfy | the current `RtpReceiveThread::HandleReceive` |
| `PulseRtpJitter` | pulse_rtp_jitter.dfy | the coarse and per-frame occupancy checks of `onAudioReady` |
| `PulseRtpPuller` | pulse_rtp_puller.dfy | `EnsureBuffer` and one render tick of the current engine, as functions |
| `PulseRtpOboeEngine` | pulse_rtp_engine.dfy | the current engine object, its getters and its callback loops |
| `OboeConstants` | oboe_constants.dfy | the older engine's compile-time sizing |
| `OboePacketBuffer` | oboe_packet_buffer.dfy | the older ring and its receive handler |
| `OboePuller` | oboe_puller.dfy | the older `EnsureBuffer` and callback, as functions |
| `OboeEngine` | oboe_engine.dfy | the older engine object and its callback loops |
| `AudioEngineSpec` | audio_engine_spec.dfy | the Kotlin settings, their loading and the engine handle, as values |
| `PulseRtpAudioEngine` | pulse_rtp_audio_engine.dfy | the Kotlin `Params` class and the engine singleton |

References into the slot vector (`const std::vector<int16_t>*`) are slot
indices (`SlotRef`). The consumer reads a slot's contents when it plays
them, so a producer write into the slot being played is visible to it, as in
the C++. Atomics are plain fields: producer and consumer calls interleave as
whole calls.

The current engine's ring is meant to be a FIFO, but as written it is not
one (see "## Findings"). The engine's methods model the code as written.
The lemmas of `PulseRtpReceiver` state what that does to the packets the
reader is handed. The corrected read, `ReadAtHead`, is proved to make the
ring a FIFO. The older ring is a FIFO as written.

## Model

| member | source | states |
|---|---|---|
| HostTypes.Wrap32 | app/src/main/cpp/PulseRtpOboeEngine.cpp:38-39 | the value an `unsigned` keeps is the arithmetic result modulo 2^32, and an in-range result is kept as is |
| HostTypes.NetToHost16Involution | app/src/main/cpp/PulseRtpOboeEngine.cpp:297 | `ntohs` on a little-endian host undoes itself |
| HostTypes.NetToHostOfStored | app/src/main/cpp/PulseRtpOboeEngine.cpp:297 | `ntohs` of a sample that `memcpy` stored from two wire bytes is the big-endian value the sender meant |
| HostTypes.NetToHost16SwapsBytes | app/src/main/cpp/PulseRtpOboeEngine.cpp:297 | `ntohs` exchanges the two bytes of a sample: the high byte of the result is the low byte of the argument and the other way round |
| HostTypes.LoadSamples | app/src/main/cpp/PulseRtpOboeEngine.cpp:174-176 | a vector resized to half the payload length and filled by `memcpy` holds each byte pair in little-endian order |
| HostTypes.CopyInto | app/src/main/cpp/OboeEngine.cpp:104 | `memcpy` over the front of a slot fills whole samples from byte pairs, replaces only the low byte of the sample an odd trailing byte lands in, keeps the rest of the slot, and keeps its length |
| HostTypes.ToHost | app/src/main/cpp/OboeEngine.cpp:167 | each sample handed to the device is the stored sample through `ntohs` |
| HostTypes.EncodeNetworkOrder | app/src/main/cpp/OboeEngine.h:17-20 | a sender's payload has two bytes per sample |
| HostTypes.EncodeNetworkOrderAt | app/src/main/cpp/OboeEngine.h:17-20 | each sample goes on the wire high byte first |
| HostTypes.WireRoundTrip | app/src/main/cpp/PulseRtpOboeEngine.cpp:174-176 | samples encoded in network order, stored by `memcpy` and converted by `ntohs` come out exactly as sent |
| HostTypes.IndexDistance | app/src/main/cpp/PulseRtpOboeEngine.cpp:66-79 | the distance from head to tail around the ring, with both cases of the wrap |
| HostTypes.ModNext | app/src/main/cpp/PulseRtpOboeEngine.cpp:52-54 | "increment, and reset to 0 at the size" is increment modulo the size |
| HostTypes.NextIndex | app/src/main/cpp/PulseRtpOboeEngine.cpp:72-76 | one more successful move keeps an index equal to its move count modulo the slot count |
| PulseRtpPacketBuffer.NumBuffers | app/src/main/cpp/PulseRtpOboeEngine.cpp:38-39 | the slot count is one more than the whole packets that fit in the (32-bit wrapped) latency budget, bounded both ways, and fits in 32 bits |
| PulseRtpPacketBuffer.Zeros | app/src/main/cpp/PulseRtpOboeEngine.cpp:42 | a freshly allocated slot holds the given number of zero samples |
| PulseRtpPacketBuffer.Init | app/src/main/cpp/PulseRtpOboeEngine.cpp:30-37 | the constructed ring satisfies the ring invariant, is empty and has both indices and every counter at 0 |
| PulseRtpPacketBuffer.SizeIsIndexDistance | app/src/main/cpp/PulseRtpOboeEngine.h:37-39 | `size_` always equals the distance from `head_` to `tail_`, and it is 0 exactly when they are equal |
| PulseRtpPacketBuffer.IsFull | app/src/main/cpp/PulseRtpOboeEngine.cpp:69 | for indices inside the ring, the two-case full test of `NextTail` holds exactly when advancing the tail by one around the ring meets the head |
| PulseRtpPacketBuffer.FullMeansOneSlotFree | app/src/main/cpp/PulseRtpOboeEngine.cpp:69 | the two-case full test is exactly "advancing the tail would meet the head", which is exactly a size of capacity - 1 |
| PulseRtpPacketBuffer.ReadNext | app/src/main/cpp/PulseRtpOboeEngine.cpp:46-59 | a read counts its request, fails on an empty ring (exactly when `size_` is 0), and otherwise advances the head, moves one count and hands out the slot at the new head |
| PulseRtpPacketBuffer.CommitWrite | app/src/main/cpp/PulseRtpOboeEngine.cpp:66-79 | a commit counts its request, succeeds exactly when the ring has more than one free slot, changes nothing else on failure, and otherwise advances the tail and increments the size and the move count |
| PulseRtpPacketBuffer.RunFromInit | app/src/main/cpp/PulseRtpOboeEngine.cpp:30-79 | over any sequence of reads and commits from construction: `head_move_req_` and `tail_move_req_` count exactly the reads and the commits made, the successful moves never exceed them, `size_` is the tail moves minus the head moves, and each index is its move count modulo the capacity |
| PulseRtpPacketBuffer.MoveCountsPickSlots | app/src/main/cpp/PulseRtpOboeEngine.cpp:52-58 | the k-th successful read hands out slot k mod N, and writes land at the tail-move count mod N |
| PulseRtpPacketBuffer.SinglePacketReadsWriteSlot | app/src/main/cpp/PulseRtpOboeEngine.cpp:46-64 | with one packet queued, the read hands out the slot at `tail_`, which is the slot the producer writes next |
| PulseRtpPacketBuffer.ReadIndex | app/src/main/cpp/PulseRtpOboeEngine.cpp:52-58 | the slot the i-th next read hands out is in the ring |
| PulseRtpPacketBuffer.ReaderView | app/src/main/cpp/PulseRtpOboeEngine.cpp:46-59 | the contents the next `size_` reads will hand out, in order |
| PulseRtpPacketBuffer.ReadPopsView | app/src/main/cpp/PulseRtpOboeEngine.cpp:46-59 | a successful read hands out the front of the reader's view and leaves the rest in order |
| PulseRtpPacketBuffer.ReadAtHead | app/src/main/cpp/PulseRtpOboeEngine.cpp:46-59 | the corrected read: the same ring update as the code, but handing out the slot at the old head |
| PulseRtpPacketBuffer.QueueView | app/src/main/cpp/PulseRtpOboeEngine.cpp:61-79 | the packets written and not yet read, oldest first: the `size_` slots starting at `head_` |
| PulseRtpPacketBuffer.ReadAtHeadPopsQueue | app/src/main/cpp/PulseRtpOboeEngine.cpp:46-59 | under the corrected read the ring is a FIFO: a read hands out the oldest packet and leaves the rest in order |
| PulseRtpPacketBuffer.PacketBuffer.constructor | app/src/main/cpp/PulseRtpOboeEngine.cpp:30-44 | the slot array is sized by `NumBuffers`; every slot holds `mtu / 2` zeros; the ring is `Init` |
| PulseRtpPacketBuffer.PacketBuffer.Capacity | app/src/main/cpp/PulseRtpOboeEngine.h:29 | `capacity()` is the ring's slot count |
| PulseRtpPacketBuffer.PacketBuffer.RefNextHeadForRead | app/src/main/cpp/PulseRtpOboeEngine.cpp:46-59 | the method's new ring and returned slot are `ReadNext` of the old ring |
| PulseRtpPacketBuffer.PacketBuffer.RefTailForWrite | app/src/main/cpp/PulseRtpOboeEngine.cpp:61-64 | returns the slot at `tail_`, which is in the ring |
| PulseRtpPacketBuffer.PacketBuffer.NextTail | app/src/main/cpp/PulseRtpOboeEngine.cpp:66-79 | the method's new ring and result are `CommitWrite` of the old ring |
| PulseRtpReceiver.Payload | app/src/main/cpp/PulseRtpOboeEngine.cpp:174-176 | a datagram carries half as many samples as it has bytes after the 12-byte header |
| PulseRtpReceiver.Receive | app/src/main/cpp/PulseRtpOboeEngine.cpp:165-182 | a datagram of at most 12 bytes changes nothing; otherwise the slot at the tail is replaced by the payload, the write is committed (even when the ring is full), and no other slot changes |
| PulseRtpReceiver.ReadIndexHitsTail | app/src/main/cpp/PulseRtpOboeEngine.cpp:52-63 | the reader reaches the producer's slot at `tail_` exactly at its last queued read |
| PulseRtpReceiver.ReceiveShiftsReaderView | app/src/main/cpp/PulseRtpOboeEngine.cpp:165-182 | as written, a receive into a ring with room replaces the last entry of the reader's view by the new packet and appends the stale next slot |
| PulseRtpReceiver.ReceiveWhenFullOverwritesUnread | app/src/main/cpp/PulseRtpOboeEngine.cpp:173-179 | as written, a receive into a full ring counts only the request, yet overwrites the last packet the reader was still to be handed |
| PulseRtpReceiver.FirstPacketIsSkipped | app/src/main/cpp/PulseRtpOboeEngine.cpp:165-182 | after construction the first packet goes to slot 0, but the first read hands out slot 1, which still holds its old contents |
| PulseRtpReceiver.ReceiveAppendsToQueue | app/src/main/cpp/PulseRtpOboeEngine.cpp:165-182 | with the corrected read, a receive into a ring with room appends the payload to the queue |
| PulseRtpReceiver.ReceiveWhenFullKeepsQueue | app/src/main/cpp/PulseRtpOboeEngine.cpp:177-179 | with the corrected read, a receive into a full ring leaves the queue unchanged |
| PulseRtpReceiver.RtpReceiveThread.constructor | app/src/main/cpp/PulseRtpOboeEngine.cpp:81-85 | the receive buffer holds a header and `mtu` payload bytes, and the thread shares the given ring |
| PulseRtpReceiver.RtpReceiveThread.HandleReceive | app/src/main/cpp/PulseRtpOboeEngine.cpp:165-182 | the ring and slots after the call are `Receive` of the old ones and the received bytes |
| PulseRtpJitter.CoarseCheck | app/src/main/cpp/PulseRtpOboeEngine.cpp:280-289 | at tick start: `Depleted` below capacity/32, `Underrun` below capacity/16, `Overrun` above capacity/2, else `None`, each as an if-and-only-if |
| PulseRtpJitter.Recheck | app/src/main/cpp/PulseRtpOboeEngine.cpp:302-314 | per frame: `Depleted` below capacity/32 or when already depleted below capacity/8, `Underrun` below capacity/8 otherwise, `Overrun` above capacity/4, else `None`, each as an if-and-only-if |
| PulseRtpJitter.RecheckIsTighter | app/src/main/cpp/PulseRtpOboeEngine.cpp:280-314 | the per-frame band that restores `None` lies inside the start-of-tick band, and every coarse alarm is confirmed by the recheck |
| PulseRtpJitter.DepletedIsSticky | app/src/main/cpp/PulseRtpOboeEngine.cpp:306-309 | a depleted tick never reports `Underrun`, and stays depleted below capacity/8 |
| PulseRtpPuller.EnsureBuffer | app/src/main/cpp/PulseRtpOboeEngine.cpp:245-254 | on return the result is true exactly when the cursor points at an unplayed sample |
| PulseRtpPuller.EnsureBufferSpec | app/src/main/cpp/PulseRtpOboeEngine.cpp:245-254 | a cursor with data is kept; a failure leaves the ring empty and the cursor null at offset 0; state, last samples and the producer side are untouched; a fetch advances the head and restarts at offset 0 of the new head |
| PulseRtpPuller.EnsureBufferFetchesFirstNonEmpty | app/src/main/cpp/PulseRtpOboeEngine.cpp:245-254 | a fetch from a cursor without data passes over the empty slots at the front of the reader's view and stops at the first one with a sample, at offset 0, every earlier entry being empty; it fails only when every entry of the view is empty |
| PulseRtpPuller.ChannelStep | app/src/main/cpp/PulseRtpOboeEngine.cpp:292-300 | one channel step keeps the cursor inside the ring |
| PulseRtpPuller.ChannelStepKeeps | app/src/main/cpp/PulseRtpOboeEngine.cpp:292-300 | the output is the channel's new last sample, other channels keep theirs, a depleted tick changes nothing, and the producer side is untouched |
| PulseRtpPuller.ChannelStepPlays | app/src/main/cpp/PulseRtpOboeEngine.cpp:293-299 | the state becomes `Depleted` exactly when it was or `EnsureBuffer` fails; otherwise the output is the fetched sample through `ntohs` and the offset moves one on |
| PulseRtpPuller.Channels | app/src/main/cpp/PulseRtpOboeEngine.cpp:292-301 | the first n channels output n samples |
| PulseRtpPuller.ChannelsSpec | app/src/main/cpp/PulseRtpOboeEngine.cpp:292-301 | after n channels each played channel output its new last sample, the rest kept theirs, and the producer side is untouched |
| PulseRtpPuller.FrameRecheck | app/src/main/cpp/PulseRtpOboeEngine.cpp:302-327 | the recheck changes only the state and the offset |
| PulseRtpPuller.FrameRecheckSpec | app/src/main/cpp/PulseRtpOboeEngine.cpp:302-327 | nothing happens in `None`; otherwise the state is `Recheck`ed and the tick's correction is used; a skip happens exactly on the first rechecked frame in `Overrun`, a repeat exactly in `Underrun`; the offset moves by that correction modulo 2^32 |
| PulseRtpPuller.FrameStep | app/src/main/cpp/PulseRtpOboeEngine.cpp:291-328 | a frame outputs one sample per channel |
| PulseRtpPuller.FrameStepSpec | app/src/main/cpp/PulseRtpOboeEngine.cpp:291-328 | a frame outputs the last sample of every channel, leaves the producer side alone, and corrects only if the tick had not corrected before |
| PulseRtpPuller.Frames | app/src/main/cpp/PulseRtpOboeEngine.cpp:291-328 | n frames output n interleaved stereo frames and one adjustment per frame |
| PulseRtpPuller.FramesKeepProducerSide | app/src/main/cpp/PulseRtpOboeEngine.cpp:291-328 | the frames of a tick never touch the tail, the tail counters or the capacity |
| PulseRtpPuller.FramesCorrectAtMostOnce | app/src/main/cpp/PulseRtpOboeEngine.cpp:290-328 | every frame's adjustment is 0 or one frame either way, at most one is non-zero, none is after an earlier correction, and a correction marks the tick |
| PulseRtpPuller.TickStart | app/src/main/cpp/PulseRtpOboeEngine.cpp:280-289 | the start of a tick changes only the state, and only from `None` |
| PulseRtpPuller.Tick | app/src/main/cpp/PulseRtpOboeEngine.cpp:256-332 | a tick outputs exactly `numFrames` interleaved stereo frames |
| PulseRtpPuller.TickSpec | app/src/main/cpp/PulseRtpOboeEngine.cpp:256-332 | a tick leaves the producer side of the ring alone and corrects the cursor at most once, by one frame either way |
| PulseRtpPuller.ChannelStepOnEmpty | app/src/main/cpp/PulseRtpOboeEngine.cpp:293-300 | with the ring empty and nothing under the cursor, a channel outputs its last sample again, the tick becomes depleted and no packet is taken |
| PulseRtpPuller.FrameOnEmpty | app/src/main/cpp/PulseRtpOboeEngine.cpp:291-328 | with nothing to play, a frame outputs the last frame again and makes no correction: an empty ring is never overrun and a depleted tick is never underrun |
| PulseRtpPuller.FramesOnEmpty | app/src/main/cpp/PulseRtpOboeEngine.cpp:290-328 | with nothing to play, the first n frames are the last frame repeated n times, with no correction |
| PulseRtpPuller.TickOnEmptyRing | app/src/main/cpp/PulseRtpOboeEngine.cpp:256-332 | concealment: a tick on an empty ring with nothing under the cursor outputs the last frame `numFrames` times, corrects nothing, keeps the last samples and leaves the head and its move count where they were |
| PulseRtpPuller.CorrectionCount | app/src/main/cpp/PulseRtpOboeEngine.cpp:315-326 | the number of corrections is at most the number of frames |
| PulseRtpPuller.AtMostOneCorrection | app/src/main/cpp/PulseRtpOboeEngine.cpp:315-326 | with at most one correction counted, no frame after a correcting frame corrects |
| PulseRtpPuller.CorrectionCountPositive | app/src/main/cpp/PulseRtpOboeEngine.cpp:315-326 | a correcting frame is counted |
| PulseRtpOboeEngine.PulseRtpOboeEngine.constructor | app/src/main/cpp/PulseRtpOboeEngine.cpp:184-196 | the engine starts with an empty `Init` ring, no buffer, offset 0, state `None`, zero last samples and zero statistics |
| PulseRtpOboeEngine.PulseRtpOboeEngine.PktBufferCapacity | app/src/main/cpp/PulseRtpOboeEngine.h:73 | the getter is the ring's slot count |
| PulseRtpOboeEngine.PulseRtpOboeEngine.PktBufferSize | app/src/main/cpp/PulseRtpOboeEngine.h:74 | the getter is the ring's occupancy |
| PulseRtpOboeEngine.PulseRtpOboeEngine.PktBufferHeadMoveReq | app/src/main/cpp/PulseRtpOboeEngine.h:75 | the getter is the count of read requests |
| PulseRtpOboeEngine.PulseRtpOboeEngine.PktBufferHeadMove | app/src/main/cpp/PulseRtpOboeEngine.h:76 | the getter is the count of successful reads |
| PulseRtpOboeEngine.PulseRtpOboeEngine.PktBufferTailMoveReq | app/src/main/cpp/PulseRtpOboeEngine.h:77 | the getter is the count of write commits requested |
| PulseRtpOboeEngine.PulseRtpOboeEngine.PktBufferTailMove | app/src/main/cpp/PulseRtpOboeEngine.h:78 | the getter is the count of successful commits |
| PulseRtpOboeEngine.PulseRtpOboeEngine.EnsureBuffer | app/src/main/cpp/PulseRtpOboeEngine.cpp:245-254 | the loop leaves the engine's cursor and result equal to `PulseRtpPuller.EnsureBuffer` of the old cursor |
| PulseRtpOboeEngine.PulseRtpOboeEngine.PullChannel | app/src/main/cpp/PulseRtpOboeEngine.cpp:293-300 | one channel step of the engine is `ChannelStep` of its old cursor |
| PulseRtpOboeEngine.PulseRtpOboeEngine.RecheckFrame | app/src/main/cpp/PulseRtpOboeEngine.cpp:302-327 | the end-of-frame recheck of the engine is `FrameRecheck` of its old cursor |
| PulseRtpOboeEngine.PulseRtpOboeEngine.PullFrame | app/src/main/cpp/PulseRtpOboeEngine.cpp:291-328 | frame i of the output and the new cursor are `FrameStep` of the old cursor; the slots and the output after the frame are unchanged |
| PulseRtpOboeEngine.PulseRtpOboeEngine.PullFrames | app/src/main/cpp/PulseRtpOboeEngine.cpp:290-328 | the first `numFrames` frames of the output and the new cursor are `Frames` of the old cursor; nothing past them changes |
| PulseRtpOboeEngine.PulseRtpOboeEngine.StartTick | app/src/main/cpp/PulseRtpOboeEngine.cpp:280-289 | the start-of-callback check is `TickStart` of the old cursor |
| PulseRtpOboeEngine.PulseRtpOboeEngine.OnAudioReady | app/src/main/cpp/PulseRtpOboeEngine.cpp:256-332 | the output's first `numFrames` frames and the new cursor are `Tick` of the old cursor and slots; the stream statistics are stored; the slots and the rest of the output are unchanged |
| OboeConstants.FramesPerPacket | app/src/main/cpp/OboeEngine.h:17 | a 1280-byte payload is 320 stereo frames of 16-bit samples |
| OboeConstants.PacketsPerSecond | app/src/main/cpp/OboeEngine.h:18 | 48000 frames per second is 150 full packets per second |
| OboeConstants.PacketsFor | app/src/main/cpp/OboeEngine.h:19 | the full packets covering a duration, rounded down, bounded both ways |
| OboeConstants.SizingNotes | app/src/main/cpp/OboeEngine.h:17-20 | 100 ms is 15 packets and a full datagram is 1292 bytes |
| OboeConstants.PacketBufferSize | app/src/main/cpp/OboeEngine.h:22-29 | the ring has 76 slots, one more than 500 ms of full packets, the same count the newer sizing formula gives |
| OboeConstants.PayloadFitsSlot | app/src/main/cpp/OboeEngine.cpp:12 | a full payload exactly fills a slot of `kRtpMtu / kSampleSize` samples |
| OboePacketBuffer.Count | app/src/main/cpp/OboeEngine.h:38-39 | the packets in the ring are the distance from head to tail, less than the slot count |
| OboePacketBuffer.IsFull | app/src/main/cpp/OboeEngine.cpp:30 | on a valid ring, the two-case full test of `RefNextTailForWrite` holds exactly when `kPacketBufferSize - 1` packets are queued |
| OboePacketBuffer.Advance | app/src/main/cpp/OboeEngine.cpp:21-23 | moving an index on wraps it modulo the slot count |
| OboePacketBuffer.ReadNext | app/src/main/cpp/OboeEngine.cpp:16-26 | a read keeps the ring indices valid |
| OboePacketBuffer.ReserveWrite | app/src/main/cpp/OboeEngine.cpp:28-38 | a reservation keeps the ring indices valid |
| OboePacketBuffer.ReadNextSpec | app/src/main/cpp/OboeEngine.cpp:16-26 | a read fails and changes nothing exactly on an empty ring; otherwise it hands out the slot after the old head, which becomes the head, and the count drops by one |
| OboePacketBuffer.ReserveWriteSpec | app/src/main/cpp/OboeEngine.cpp:28-38 | a reservation fails and changes nothing exactly when 75 packets are queued; otherwise it hands out the slot after the old tail, which becomes the tail, and the count grows by one |
| OboePacketBuffer.QueueView | app/src/main/cpp/OboeEngine.cpp:16-38 | the queued packets, one per queued slot after the head |
| OboePacketBuffer.WriteAppendsToQueue | app/src/main/cpp/OboeEngine.cpp:28-38 | filling a reserved slot appends exactly its contents to the queue |
| OboePacketBuffer.ReadPopsQueue | app/src/main/cpp/OboeEngine.cpp:16-26 | a successful read hands out the oldest packet and leaves the rest in order (FIFO) |
| OboePacketBuffer.Receive | app/src/main/cpp/OboeEngine.cpp:91-108 | a receive keeps the indices valid and every slot at its allocated length |
| OboePacketBuffer.ReceiveQueuesPacket | app/src/main/cpp/OboeEngine.cpp:91-108 | a datagram of at most 12 bytes, or one that finds the ring full, changes nothing; otherwise the queue gets one entry that starts with the payload's samples and keeps the stale end of the slot's previous packet |
| OboePacketBuffer.PacketBuffer.constructor | app/src/main/cpp/OboeEngine.cpp:8-14 | 76 slots of 640 zero samples, both indices 0 |
| OboePacketBuffer.PacketBuffer.RefNextHeadForRead | app/src/main/cpp/OboeEngine.cpp:16-26 | the new indices and returned slot are `ReadNext` of the old indices |
| OboePacketBuffer.PacketBuffer.RefNextTailForWrite | app/src/main/cpp/OboeEngine.cpp:28-38 | the new indices and returned slot are `ReserveWrite` of the old indices |
| OboePacketBuffer.RtpReceiveThread.constructor | app/src/main/cpp/OboeEngine.h:55 | the receive buffer holds `kRtpPacketSize` bytes and the thread shares the given ring |
| OboePacketBuffer.RtpReceiveThread.HandleReceive | app/src/main/cpp/OboeEngine.cpp:91-108 | the ring and slots after the call are `Receive` of the old ones and the received bytes |
| OboePuller.EnsureBuffer | app/src/main/cpp/OboeEngine.cpp:144-153 | on return the result is true exactly when the cursor points at an unplayed sample |
| OboePuller.EnsureBufferSpec | app/src/main/cpp/OboeEngine.cpp:144-153 | a cursor with data is kept; otherwise success is exactly a non-empty ring and lands at offset 0 of the next queued slot; failure leaves the cursor null at offset 0; the tail is never touched |
| OboePuller.DrawSample | app/src/main/cpp/OboeEngine.cpp:162-169 | a draw keeps the cursor inside the ring |
| OboePuller.DrawSampleSpec | app/src/main/cpp/OboeEngine.cpp:162-169 | a draw plays the sample at the cursor when one is left, otherwise the first sample of the oldest queued packet; it fails only on an empty ring |
| OboePuller.DrawSamplePending | app/src/main/cpp/OboeEngine.cpp:162-169 | a draw plays the next pending sample (the rest of the current slot, then the queued packets in order) in host order and leaves the rest pending; it fails exactly when nothing is pending |
| OboePuller.Drain | app/src/main/cpp/OboeEngine.cpp:159-172 | k sample positions draw at most k samples |
| OboePuller.DrainSpec | app/src/main/cpp/OboeEngine.cpp:159-172 | a loop that has not stopped drew one sample per position; a stopped one left the ring empty and the cursor null at offset 0; the tail is untouched |
| OboePuller.DrainPlaysPending | app/src/main/cpp/OboeEngine.cpp:159-172 | the first k positions play min(k, pending) samples, which are the pending samples in order, each byte-swapped; the rest stays pending, and the loop stops exactly when k exceeds what is pending |
| OboePuller.DrainStopped | app/src/main/cpp/OboeEngine.cpp:165 | once the loop has stopped, later positions draw nothing |
| OboePuller.DrainFirst | app/src/main/cpp/OboeEngine.cpp:160-172 | the first sample drawn stays first however many positions follow |
| OboePuller.Tick | app/src/main/cpp/OboeEngine.cpp:155-184 | a callback outputs exactly `numFrames * 2` samples |
| OboePuller.TickSpec | app/src/main/cpp/OboeEngine.cpp:155-184 | the output is the samples drawn followed only by zeros, and a short callback leaves the ring empty |
| OboePuller.TickPlaysPending | app/src/main/cpp/OboeEngine.cpp:155-184 | a callback outputs the next `numFrames * 2` pending samples in host order, consecutive across packet boundaries, then zeros only once nothing is pending; the next callback resumes right after the last sample played |
| OboePuller.DrainAtLoopExit | app/src/main/cpp/OboeEngine.cpp:160-173 | whether the loop completes or jumps to `no_more_data`, the full run ends with the samples drawn and the cursor the last draw left |
| OboePuller.TickOfLoopExit | app/src/main/cpp/OboeEngine.cpp:173-181 | the drawn samples followed by the zero fill are the callback's output |
| OboePuller.FirstSampleIsQueueHead | app/src/main/cpp/OboeEngine.cpp:155-172 | from a fresh cursor the first sample played is the host-order first sample of the oldest queued packet |
| OboeEngine.OboeEngine.constructor | app/src/main/cpp/OboeEngine.cpp:110-113 | the engine shares a fresh zeroed ring with its receiver, with no buffer at offset 0 |
| OboeEngine.OboeEngine.EnsureBuffer | app/src/main/cpp/OboeEngine.cpp:144-153 | the loop leaves the cursor and result equal to `OboePuller.EnsureBuffer` of the old cursor |
| OboeEngine.OboeEngine.PullSample | app/src/main/cpp/OboeEngine.cpp:162-169 | one pass of the inner loop is `DrawSample`: on success the sample is written at its position, and no other position changes |
| OboeEngine.OboeEngine.PullFrames | app/src/main/cpp/OboeEngine.cpp:159-172 | the samples written are `Drain` of the old cursor; either all `numFrames * 2` were written or the next draw failed; nothing past them changes |
| OboeEngine.OboeEngine.OnAudioReady | app/src/main/cpp/OboeEngine.cpp:155-184 | the output's first `numFrames * 2` samples and the new cursor are `Tick` of the old cursor; the slots and the rest of the output are unchanged |
| AudioEngineSpec.Defaults | app/src/main/java/me/wenxinwang/pulsedroidrtp/PulseRtpAudioEngine.kt:30-54 | the default parameters pass every setter's check |
| AudioEngineSpec.SetLatencyOption | app/src/main/java/me/wenxinwang/pulsedroidrtp/PulseRtpAudioEngine.kt:30-33 | only the latency option can change; an index in 0..3 replaces it, any other value leaves the parameters as they were |
| AudioEngineSpec.SetIp | app/src/main/java/me/wenxinwang/pulsedroidrtp/PulseRtpAudioEngine.kt:34-37 | only the ip can change; a non-empty string replaces it, an empty one leaves the parameters as they were |
| AudioEngineSpec.SetPort | app/src/main/java/me/wenxinwang/pulsedroidrtp/PulseRtpAudioEngine.kt:38-41 | only the port can change; a port in 1..65535 replaces it, any other value leaves the parameters as they were |
| AudioEngineSpec.SetMtu | app/src/main/java/me/wenxinwang/pulsedroidrtp/PulseRtpAudioEngine.kt:42-45 | only the MTU can change; a positive value replaces it, any other leaves the parameters as they were |
| AudioEngineSpec.SetMaxLatency | app/src/main/java/me/wenxinwang/pulsedroidrtp/PulseRtpAudioEngine.kt:46-49 | only the maximum latency can change; a positive value replaces it, any other leaves the parameters as they were |
| AudioEngineSpec.SetNumChannel | app/src/main/java/me/wenxinwang/pulsedroidrtp/PulseRtpAudioEngine.kt:50-53 | only the channel count can change; a positive value replaces it, any other leaves the parameters as they were |
| AudioEngineSpec.SettersKeepAdmissible | app/src/main/java/me/wenxinwang/pulsedroidrtp/PulseRtpAudioEngine.kt:30-54 | no setter call can make admissible parameters inadmissible |
| AudioEngineSpec.SettersIdempotent | app/src/main/java/me/wenxinwang/pulsedroidrtp/PulseRtpAudioEngine.kt:30-53 | setting a field twice to the same value is setting it once |
| AudioEngineSpec.FromSharedPref | app/src/main/java/me/wenxinwang/pulsedroidrtp/PulseRtpAudioEngine.kt:56-65 | loading keeps admissible parameters admissible, takes every stored value its setter accepts, and takes the stored channel mask unchecked (0 when missing) |
| AudioEngineSpec.FromSharedPrefSpec | app/src/main/java/me/wenxinwang/pulsedroidrtp/PulseRtpAudioEngine.kt:56-65 | field by field: an accepted stored value is taken, a missing or rejected one keeps the old value, except that a missing latency option and a missing mask become 0 |
| AudioEngineSpec.FromSharedPrefStable | app/src/main/java/me/wenxinwang/pulsedroidrtp/PulseRtpAudioEngine.kt:56-65 | loading keeps admissible parameters admissible, and loading again changes nothing |
| AudioEngineSpec.SavedPrefs | app/src/main/java/me/wenxinwang/pulsedroidrtp/PulseRtpAudioEngine.kt:67-78 | saving stores every field under its key |
| AudioEngineSpec.SaveThenLoad | app/src/main/java/me/wenxinwang/pulsedroidrtp/PulseRtpAudioEngine.kt:56-78 | saving admissible parameters and loading them back, over any parameters, restores them exactly |
| AudioEngineSpec.EmptyPrefsKeepSettings | app/src/main/java/me/wenxinwang/pulsedroidrtp/PulseRtpAudioEngine.kt:56-65 | with nothing stored, loading keeps every field but the latency option and the mask, which become 0 |
| AudioEngineSpec.FromUri | app/src/main/java/me/wenxinwang/pulsedroidrtp/PulseRtpAudioEngine.kt:80-88 | reading a URI keeps admissible parameters admissible, takes the host, the port and every query value its setter accepts, and takes the mask unchecked (0 when missing) |
| AudioEngineSpec.FromUriSpec | app/src/main/java/me/wenxinwang/pulsedroidrtp/PulseRtpAudioEngine.kt:80-88 | field by field: an accepted URI value is taken, anything else keeps the old value, except that a missing latency option and a missing mask become 0 |
| AudioEngineSpec.FromUriStable | app/src/main/java/me/wenxinwang/pulsedroidrtp/PulseRtpAudioEngine.kt:80-88 | reading a URI keeps admissible parameters admissible, and reading it again changes nothing |
| AudioEngineSpec.ToUri | app/src/main/java/me/wenxinwang/pulsedroidrtp/PulseRtpAudioEngine.kt:90-101 | the URI's authority carries the ip and the port |
| AudioEngineSpec.ToUriThenFromUri | app/src/main/java/me/wenxinwang/pulsedroidrtp/PulseRtpAudioEngine.kt:80-101 | a URI built from admissible parameters, read back over any parameters, restores them exactly, as abstract URI parts (the URI text is not modelled) |
| AudioEngineSpec.Create | app/src/main/java/me/wenxinwang/pulsedroidrtp/PulseRtpAudioEngine.kt:108-116 | `create` returns true exactly when the handle afterwards is non-zero, and keeps an existing handle whatever the native constructor would return |
| AudioEngineSpec.IsPlaying | app/src/main/java/me/wenxinwang/pulsedroidrtp/PulseRtpAudioEngine.kt:122-124 | a playing handle is kept by every `create`; from a handle that is not playing, `create` takes the native handle |
| AudioEngineSpec.Destroy | app/src/main/java/me/wenxinwang/pulsedroidrtp/PulseRtpAudioEngine.kt:135-140 | after `destroy` nothing plays |
| AudioEngineSpec.CreateSpec | app/src/main/java/me/wenxinwang/pulsedroidrtp/PulseRtpAudioEngine.kt:108-116 | `create` reports exactly whether an engine exists afterwards; a running engine is kept; otherwise the native handle is taken |
| AudioEngineSpec.Lifecycle | app/src/main/java/me/wenxinwang/pulsedroidrtp/PulseRtpAudioEngine.kt:108-140 | after `destroy` nothing plays and the next `create` calls the native constructor; a second `create` after a successful one changes nothing |
| PulseRtpAudioEngine.Params.constructor | app/src/main/java/me/wenxinwang/pulsedroidrtp/PulseRtpAudioEngine.kt:29-54 | a new `Params` holds the defaults |
| PulseRtpAudioEngine.Params.SetLatencyOption | app/src/main/java/me/wenxinwang/pulsedroidrtp/PulseRtpAudioEngine.kt:30-33 | the fields after the call are `SetLatencyOption` of the old ones: taken only in 0..3 |
| PulseRtpAudioEngine.Params.SetIp | app/src/main/java/me/wenxinwang/pulsedroidrtp/PulseRtpAudioEngine.kt:34-37 | the fields after the call are `SetIp` of the old ones: taken only if non-empty |
| PulseRtpAudioEngine.Params.SetPort | app/src/main/java/me/wenxinwang/pulsedroidrtp/PulseRtpAudioEngine.kt:38-41 | the fields after the call are `SetPort` of the old ones: taken only in 1..65535 |
| PulseRtpAudioEngine.Params.SetMtu | app/src/main/java/me/wenxinwang/pulsedroidrtp/PulseRtpAudioEngine.kt:42-45 | the fields after the call are `SetMtu` of the old ones: taken only if positive |
| PulseRtpAudioEngine.Params.SetMaxLatency | app/src/main/java/me/wenxinwang/pulsedroidrtp/PulseRtpAudioEngine.kt:46-49 | the fields after the call are `SetMaxLatency` of the old ones: taken only if positive |
| PulseRtpAudioEngine.Params.SetNumChannel | app/src/main/java/me/wenxinwang/pulsedroidrtp/PulseRtpAudioEngine.kt:50-53 | the fields after the call are `SetNumChannel` of the old ones: taken only if positive |
| PulseRtpAudioEngine.Params.FromSharedPref | app/src/main/java/me/wenxinwang/pulsedroidrtp/PulseRtpAudioEngine.kt:56-65 | the fields after the call are `FromSharedPref` of the old ones and the stored values |
| PulseRtpAudioEngine.Params.FromUri | app/src/main/java/me/wenxinwang/pulsedroidrtp/PulseRtpAudioEngine.kt:80-88 | the fields after the call are `FromUri` of the old ones and the URI's parts |
| PulseRtpAudioEngine.AudioEngine.constructor | app/src/main/java/me/wenxinwang/pulsedroidrtp/PulseRtpAudioEngine.kt:104 | no engine at start |
| PulseRtpAudioEngine.AudioEngine.Create | app/src/main/java/me/wenxinwang/pulsedroidrtp/PulseRtpAudioEngine.kt:108-116 | the new handle and the result are `Create` of the old handle |
| PulseRtpAudioEngine.AudioEngine.IsPlaying | app/src/main/java/me/wenxinwang/pulsedroidrtp/PulseRtpAudioEngine.kt:122-124 | playing exactly when a handle is held |
| PulseRtpAudioEngine.AudioEngine.Destroy | app/src/main/java/me/wenxinwang/pulsedroidrtp/PulseRtpAudioEngine.kt:135-140 | the handle is cleared, and the old handle is passed to the native delete exactly when it was non-zero |

## Left out

- Sockets and the asio receive loop (`Start`, `Stop`, `StartReceive`), the
  Oboe stream, its builder and the `LatencyTuner`, thread affinity, logging
  and tracing are I/O. `OnAudioReady` takes the stream's xrun count and
  buffer size as parameters.
- Concurrency: atomics are plain fields, and producer and consumer calls
  interleave only as whole calls. The old engine's `HandleReceive` publishes
  `tail_` before its `memcpy`, so the reader can see a slot before it is
  filled. That race is not captured.
- The ring counters (`head_move_req_` and the others) and the older
  engine's `offset_` are unbounded `nat`s; their 32-bit wrap-around after
  2^32 calls is not modelled. The current engine's `offset_` is a 32-bit
  `unsigned` with explicit wrap.
- `numFrames` is a `nat`: Oboe never passes a negative frame count.
- PulseRtpPacketBuffer.PacketBuffer.constructor: requires `mtu >= 4`. The
  C++ divides by zero for a smaller MTU, and the Kotlin `mtu` setter lets
  1..3 through to it.
- PulseRtpOboeEngine.PulseRtpOboeEngine.constructor: requires `mtu >= 4`,
  for the same reason.
- PulseRtpReceiver.Receive: for an odd payload length, the `memcpy` writes
  one byte past the resized vector's end; the model drops that byte.
- The output array of both callbacks is required to be distinct from the
  slot array; Dafny cannot see that an `int16_t*` from Oboe never aliases a
  vector of the ring.
- The Kotlin `maskChannel` and `numChannel` go nowhere: the C++ engine
  implements no channel mask and no watchdog, and its constructor takes
  five parameters (PulseRtpOboeEngine.h:67-68, PulseRtpOboeEngine.cpp:184-188),
  while the JNI bridge (jni_bridge.cpp:40-41) passes it seven, a mismatch
  the model does not reproduce. The model keeps the two values in the
  Kotlin parameters only.
- Stored preferences and URI parsing are abstract inputs (`StoredPrefs`,
  `UriParts`, where `None` is a missing key or an unparsable number).
  `saveToSharedPref` and `toUri` are the value records `SavedPrefs` and
  `ToUri`.
- In the Kotlin: `setDefaultStreamValues`, `restoreUri` and `commitUri`,
  play-state persistence, and the native getters are left out, being
  Android system and JNI calls. `jni_bridge.cpp` is not part of this model.
- The native engine getters beyond the ring statistics
  (`getBufferCapacityInFrames` and the others) read the Oboe stream and are
  left out.

## Findings

| source | as written | input that shows it | evidently intended | confidence | as-written member | corrected member |
|---|---|---|---|---|---|---|
| app/src/main/cpp/PulseRtpOboeEngine.cpp:46-79 | the writer fills `pkts_[tail_]` and then advances `tail_`, but the reader advances `head_` first and then hands out `pkts_[head_]`; the reader skips the oldest packet and, with one packet queued, hands out the slot the producer writes next | a fresh ring of capacity 2 or more receives one datagram with a payload: it lands in slot 0, but the next read hands out slot 1, still all zeros | a reader that hands out `pkts_[head_]` and then advances, so the ring is a FIFO like the older engine's | high, not executed | PulseRtpReceiver.FirstPacketIsSkipped | PulseRtpPacketBuffer.ReadAtHeadPopsQueue |
