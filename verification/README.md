# A verified model of the media and signaling core

This project models the in-tree protocol logic of a small video conferencing system and
proves properties of it with Dafny. It follows one packet's way through the program and
then the services around that way:

- **Media over RTP.** Splitting an H.264 access unit into NAL units, sending them whole or
  as FU-A fragments, the RTP wire format, the jitter buffer that reorders, deduplicates and
  plays out, and the two receivers that drain it. The main theorem,
  `EndToEnd.ChannelSafety`, is about all of it at once: whatever a channel loses, repeats or
  reorders, what comes out is an order-preserving selection of the access units that went
  in, each at most once, each from one of its NAL units to its last, and whole if all of it
  arrived in time. It is proved by refinement: `Receiver` describes the intended receiver in
  terms of unit and packet positions, without wrapping numbers, header bytes or fragments, and
  `EndToEnd.RunRefines` shows that the buffer hands out exactly what this reference picks.
  The same for audio: `AudioReceiver` is a reference for any packets at all, and
  `AudioEndToEnd.OpusChannelSafety` follows Opus frames from the packetizer over a lossy
  channel. `RouterRun.EveryStreamIsItsRun` does it for the router: each stream, and all that
  is fired for it, is told from the run of packets and ticks alone.
- **Signaling.** The room manager's two indexes and the rosters that clients rebuild from
  its messages; WebSocket framing, streaming SHA-1 and base64 as the signaling client
  writes them out.
- **Forwarding.** The rooms of the forwarding unit, their bitrate targets and deliveries.
- **Time and estimates.** RTP and NTP time, lip-sync, loss estimation and latency
  percentiles.
- **Frame memory.** The buffer pool, I420 planes over its buffers and the decoder's pool.

Code that changes state is a class or a method with loops, proved against a specification
function or predicate; the properties are lemmas about those specifications. What a
specification takes from a standard or a wire format, such as rotations, masks, alphabets,
header fields and constants, is pinned down once more, bit by bit or byte by byte, apart from
how it is computed. `dafny verify
dfyconfig.toml` checks everything.

| files | part of the program |
|---|---|
| `Common`, `Arithmetic`, `Serial`, `Bits`, `ByteOrder` | integers, results, products and quotients, serial arithmetic, bit operations |
| `RtpPacket` | `src/network/RtpPacket.h` |
| `AnnexB`, `Media`, `H264Payload`, `RtpHandler` | `src/network/RTPHandler.cpp` |
| `JitterFrame`, `JitterBuffer`, `JitterDrain`, `JitterRun` | `src/network/JitterBuffer.h`, `JitterBuffer.cpp` |
| `Receiver`, `EndToEnd` | the reference receiver for video and the end-to-end refinement |
| `AudioReceiver`, `AudioEndToEnd` | the same for audio |
| `ReceivePipeline` | `src/media/MediaPipeline.cpp` |
| `CallbackProtocol`, `ReceiveRouter`, `RouterRun` | `src/media/ReceiveRouter.cpp` |
| `SignalingRooms`, `SignalingNotices`, `RoomManager` | `signaling-server/RoomManager.cpp` |
| `WebSocket`, `BlockStream`, `Sha1`, `Sha1Standard`, `Base64` | `src/signaling/SignalingClient.cpp` |
| `Clock`, `AvSync` | `src/common/Clock.h`, `src/media/AVSync.cpp` |
| `LossEstimator`, `LatencyHistogram` | `src/metrics/Metrics.cpp` |
| `Forwarding`, `SfuRoom`, `SfuServer` | `src/sfu/` |
| `FramePool`, `VideoFrame`, `VideoDecoder` | `src/common/FramePool.h`, `src/common/VideoFrame.h`, `src/codec/VideoDecoder.cpp` |

## Where the code does less than it says

Each of these is modelled as the code is, and the theorem says exactly when it holds.

- `src/network/JitterBuffer.h:14-17` says that a newer timestamp completes a frame. The code
  (`src/network/JitterBuffer.cpp:52-65`) asks for the marker and a gap-free run, and cannot see a lost
  head: see `Receiver.LostHeadStillPlays`.
- A comment at `src/network/JitterBuffer.cpp:53` asks for the marker of an audio packet. The code does not:
  whatever is held of a timestamp plays, by the packet of the lowest number
  (`AudioReceiver.RunRefines`).
- A payload type above 127 loses its highest bit on the way (`RtpHandling.SentHeader`).
- Timestamps are not totally ordered by the comparison that orders the pending frames
  (`Serial.TsLessIsNotAnOrder`). The ordered map can work with it exactly on key sets within
  half of the timestamp space and on two keys half the space apart, which it takes for one
  (`Serial.StrictWeakExactly`), so the later of these packets is filed in the other's frame
  (`JitterBuffering.KeyExactly`). After the first frame has left, the late check keeps the
  keys in one half (`JitterRun.RunsAfterEmissionAreOrderly`).
- A NAL unit of type 28 that is small enough to be sent whole is read back as an FU-A
  fragment (`H264Payload.SmallFuAIsMisread`).
- Reassembly does not look for most of what section 5.8 of RFC 6184 forbids: a fragment with
  both bits, fragments whose indicator or type changes within a unit, a set R bit, unit types
  other than 1 to 23 (`H264Payload.ForbiddenIsAccepted`). What it accepts is legal if and
  only if every payload is regular by itself and against the one before it
  (`H264Payload.LegalExactly`).
- With a payload budget below three bytes fragments exceed it, and a two-byte unit under a
  budget of one byte becomes a single fragment with both the S and the E bit, against
  section 5.8 of RFC 6184 (`H264Payload.PayloadsFitExactly`,
  `H264Payload.StartAndEndTogetherExactly`). The sender is legal exactly if it avoids that
  and is given unit types 1 to 23 only (`H264Payload.SplitsLegallyExactly`).
- `serialize` writes the P and X bits but no padding and no extension
  (`Rtp.SerializeRoundTripExactly`).
- A join that finds the room full has already taken the connection out of its old room
  (`Signaling.JoinOutcome`), and a relay directed to the sender's own id comes back to it
  (`Signaling.RelayReaches`).
- An instant before 1970 with a fraction of a second comes back from NTP one second late
  (`MediaClock.NtpRoundTripExactly`).
- `src/metrics/Metrics.h:16-18` says that samples above the limit go to the last bucket. The last bucket
  starts at the last whole multiple of the bucket width up to the limit, so the promise
  fails exactly for the samples from there up to the limit
  (`LatencyHistograms.LastBucketExactly`), and the limit itself is one of them whatever the
  width (`LatencyHistograms.LimitIsInLastBucket`).
- `src/sfu/Room.h:66-69` promises the minimum over the receivers at any time; a newcomer's target
  is 0 until the next report or departure (`Forwarding.NewcomerIsOffExactly`).

## Model

| member | source | states |
|---|---|---|
| `Serial.SeqLessInWindow` | src/network/RtpPacket.h:168-180 | inside half of the sequence space, comparing serially is comparing distances from its base |
| `Serial.OrderableExactly` | src/network/JitterBuffer.h:105-120 | the timestamp comparison is a strict total order on exactly those key sets that fit in one half of the space |
| `Serial.StrictWeakExactly` | src/network/JitterBuffer.h:105-120 | the comparison is a strict weak order, as the ordered map demands, on exactly those sets and the pairs half the space apart |
| `Serial.TsLessIsNotAnOrder` | src/network/JitterBuffer.h:105-108 | three timestamps that precede each other in a circle, and two that are not ordered at all |
| `Serial.Oldest` | src/network/JitterBuffer.cpp:70-73 | an orderable, non-empty key set has one first element, so the ordered map's front is well defined |
| `Rtp.Serialize` | src/network/RtpPacket.h:63-87 | the writer produces the datagram: fixed header with the contributor count clamped to 15, those contributors, the payload |
| `Rtp.Parse` | src/network/RtpPacket.h:89-140 | the reader computes the declarative decoder on every input, rejections included |
| `Rtp.HeaderReadBack` | src/network/RtpPacket.h:97-110 | every fixed-header field is read back from what was written, version and payload type reduced to their width |
| `Rtp.HeaderLayout` | src/network/RtpPacket.h:70-82 | the fixed header byte by byte: which bits and bytes hold which field, highest byte first |
| `Rtp.DatagramLayout` | src/network/RtpPacket.h:66-86 | after the fixed header each of the first fifteen contributors at its place, then the payload and nothing else |
| `Rtp.FullLayout` | src/network/RtpPacket.h:110-140 | where the full format has the profile, the count of words, the extension body, the payload and the count of padding octets |
| `Rtp.DecodeInvertsFullEncode` | src/network/RtpPacket.h:92-140 | the parser inverts a full encoder of section 5.1 of RFC 3550, extension body and padding included |
| `Rtp.AcceptedIsFullEncoding` | src/network/RtpPacket.h:92-140 | every accepted datagram is the full encoding of the packet returned, so nothing else is accepted |
| `Rtp.SerializeRoundTripExactly` | src/network/RtpPacket.h:65-140 | a packet survives writing and parsing if and only if its fields fit and neither P nor X is set |
| `Rtp.PlainIsRead` | src/network/RtpPacket.h:65-140 | a packet of version 2 without P, X and contributors is read as it was written, its payload type cut to seven bits |
| `Rtp.ParseThenSerialize` | src/network/RtpPacket.h:65-140 | writing an accepted packet without P and X restores the datagram byte for byte |
| `AnnexB.FindNalUnits` | src/network/RTPHandler.cpp:27-62 | the ranges are in bounds, non-empty, in order and disjoint, and hold exactly the units of the reference cut |
| `AnnexB.FoundUnitsAreNals` | src/network/RTPHandler.cpp:55-61 | every unit found is non-empty and holds no start code |
| `AnnexB.SplitOfCanonical` | src/network/RTPHandler.cpp:27-62 | splitting the canonical form gives back exactly the units it was made of |
| `AnnexB.CanonicalIsIdempotent` | src/network/RTPHandler.cpp:27-62 | canonicalizing twice is canonicalizing once |
| `AnnexB.CanonicalExactly` | src/network/RTPHandler.cpp:205-222 | in the rebuilt byte stream every unit stands behind the bytes 0, 0, 0, 1 and right before the next |
| `AnnexB.SplitOfStream` | src/network/RTPHandler.cpp:40-53 | units behind 3-byte and 4-byte start codes in any mix are found exactly, if a unit ending in zero is followed by a 4-byte code |
| `H264Payload.ReassemblyExactly` | src/network/RTPHandler.cpp:92-143 | splitting into payloads and reassembling restores the units if and only if none of type 28 is sent whole |
| `H264Payload.SmallFuAIsMisread` | src/network/RTPHandler.cpp:98-106 | two concrete units of type 28, one rejected and one changed |
| `H264Payload.AcceptsExactly` | src/network/RTPHandler.cpp:183-226 | reassembly of arbitrary payloads succeeds exactly when they can be cut into single payloads and runs of fragments from S to E, and yields exactly the units these are read as |
| `H264Payload.LegalExactly` | src/network/RTPHandler.cpp:183-226 | everything that sections 5.6 and 5.8 of RFC 6184 allow is accepted and read right, and an accepted list is against them if and only if some payload is irregular by itself or after the one before it |
| `H264Payload.ForbiddenIsAccepted` | src/network/RTPHandler.cpp:187-217 | three lists of payloads that section 5.8 forbids and the code accepts |
| `H264Payload.SuffixReassembles` | src/network/RTPHandler.cpp:183-226 | without its first payloads an access unit reassembles only from a unit boundary on, to exactly the remaining units |
| `H264Payload.FragmentedUnit` | src/network/RTPHandler.cpp:107-141 | exactly the first fragment of a unit has the S bit, exactly the last the E bit, and all repeat its header |
| `H264Payload.FragmentsAreFull` | src/network/RTPHandler.cpp:98-126 | a unit is fragmented exactly if it exceeds the budget, and every fragment but the last uses all of it, or three bytes if it is less |
| `H264Payload.SplitsLegallyExactly` | src/network/RTPHandler.cpp:86-149 | what is sent for an access unit is legal if and only if every unit has a type from 1 to 23 and none of two bytes meets a budget of one |
| `H264Payload.StartAndEndTogetherExactly` | src/network/RTPHandler.cpp:115-126 | a fragment with both the S and the E bit is sent if and only if a two-byte unit meets a budget of one byte |
| `H264Payload.PayloadsFitExactly` | src/network/RTPHandler.cpp:98-141 | all payloads of a unit fit the budget exactly when the budget is at least three or the unit fits whole |
| `RtpHandling.RtpHandler.constructor` | src/network/RTPHandler.cpp:20-25 | a budget of zero becomes the default, numbering starts at zero |
| `RtpHandling.RtpHandler.Packetize` | src/network/RTPHandler.cpp:64-73 | result and next sequence number are those of the specification, for every kind of frame and every rejection |
| `RtpHandling.RtpHandler.PacketizeOpus` | src/network/RTPHandler.cpp:75-84 | one marked packet with the frame as payload |
| `RtpHandling.RtpHandler.PacketizeH264` | src/network/RTPHandler.cpp:86-149 | the stamped payloads of the units found, or a protocol error that uses up no number |
| `RtpHandling.RtpHandler.EmitFragments` | src/network/RTPHandler.cpp:107-141 | the fragmenting loop emits exactly the fragments of the unit |
| `RtpHandling.RunIsConsecutive` | src/network/RTPHandler.cpp:64-149 | over any run of calls the packets are numbered consecutively modulo 2^16, and failed calls use up none |
| `RtpHandling.MarkerOnExactlyTheLast` | src/network/RTPHandler.cpp:145-148 | the packets of a unit share its timestamp and exactly the last is marked |
| `RtpHandling.SentHeader` | src/network/RTPHandler.cpp:75-148 | every packet sent has version 2, the handler's payload type and SSRC, and neither P, X nor contributors; the peer reads it as sent if and only if the type is below 128 |
| `RtpHandling.Depacketize` | src/network/RTPHandler.cpp:151-231 | the reassembling loop computes the specification, key-frame flag and all rejections included |
| `RtpHandling.RebuiltExactly` | src/network/RTPHandler.cpp:157-231 | kind, codec, timestamp and bytes of a rebuilt video frame, and it is a keyframe if and only if some unit has type 5, 7 or 8 |
| `RtpHandling.PacketizeRoundTripExactly` | src/network/RTPHandler.cpp:86-231 | for every accepted access unit and every budget, depacketizing rebuilds the canonical form if and only if no unit of type 28 was sent whole |
| `RtpHandling.OpusRoundTrip` | src/network/RTPHandler.cpp:75-167 | an Opus frame comes back unchanged |
| `JitterFrame.CompleteExactly` | src/network/JitterBuffer.cpp:52-65 | counting packets against the span of the extremes finds a frame complete exactly when no number between them is missing, in any arrival order |
| `JitterFrame.OrderedPackets` | src/network/JitterBuffer.cpp:90-100 | the walk from lowest to highest collects the packets in serial order across a wrap |
| `JitterFrame.WalkWithoutGap` | src/network/JitterBuffer.cpp:90-100 | without gaps these are numbered one after the other |
| `JitterFrame.CollectGaps` | src/network/JitterBuffer.cpp:128-151 | the gap loop computes the gap report of a frame |
| `JitterFrame.GapReportExactly` | src/network/JitterBuffer.cpp:120-154 | the report lists exactly the maximal missing runs between the true serial extremes, in order, across a wrap |
| `JitterFrame.CompleteIffNoGapReported` | src/network/JitterBuffer.cpp:58-64 | a video frame is complete if and only if it has its marker and reports no gap |
| `JitterBuffering.PendingTimestampsAreOrdered` | src/network/JitterBuffer.h:113-120 | in every valid state the comparison is a strict total order on the pending timestamps |
| `JitterBuffering.LateExactly` | src/network/JitterBuffer.cpp:12-18 | the late check passes exactly the half of the space after the last timestamp played out |
| `JitterBuffering.KeyExactly` | src/network/JitterBuffer.cpp:20-25 | a packet is filed under its own timestamp, unless the only frame there lies exactly half the space away and takes it |
| `JitterBuffering.PushKeepsValid` | src/network/JitterBuffer.cpp:9-50 | a push keeps the extremes true, the timestamps ordered and every frame non-empty, for every timestamp that the ordered map can take |
| `JitterBuffering.PushIsCountedOnce` | src/network/JitterBuffer.cpp:9-50 | each push is counted in exactly one of pushed, duplicates and late, and only the first changes the frames |
| `JitterBuffering.ReorderedExactly` | src/network/JitterBuffer.cpp:32-35 | a packet is counted as reordered if and only if it is accepted and its frame holds one with a later number |
| `JitterBuffering.JitterBuffer.Push` | src/network/JitterBuffer.cpp:9-50 | the object's new state and result are the specification's, and it stays valid |
| `JitterBuffering.JitterBuffer.Pop` | src/network/JitterBuffer.cpp:67-118 | the loop returns and leaves what the recursive specification says, and the state stays valid |
| `JitterBuffering.JitterBuffer.Gaps` | src/network/JitterBuffer.cpp:120-154 | the gaps of all pending frames, oldest frame first |
| `JitterDrain.AllGapsInOrder` | src/network/JitterBuffer.cpp:120-154 | the report is that of every pending frame, none left out, oldest first |
| `JitterDrain.DrainExactly` | src/network/JitterBuffer.cpp:67-118 | popping until nothing is ready removes exactly the longest timestamp-ordered prefix of frames whose delay has elapsed and returns, in order, the complete and well-formed ones |
| `JitterDrain.SortedIsSorted` | src/network/JitterBuffer.h:115-120 | the ordered map's keys, each once, oldest first |
| `JitterRun.RunsAfterEmissionAreOrderly` | src/network/JitterBuffer.cpp:12-18 | once a frame has left, no push can break the order of the pending timestamps |
| `JitterRun.RunNeverGoesBack` | src/network/JitterBuffer.cpp:67-118 | over any run the timestamps of emitted and abandoned frames keep advancing, across any number of wraps |
| `JitterRun.RunIsAccountedFor` | src/network/JitterBuffer.cpp:9-118 | over any run pushed, duplicates and late add up to the pushes, and emitted to the frames handed out |
| `Receiver.PickIsValid` | src/network/JitterBuffer.cpp:52-65 | what plays out is a unit from one of its NAL units on, and whole exactly when its first packet was held |
| `Receiver.PicksAreInOrder` | src/network/JitterBuffer.h:75-78 | over any run units play out in stream order and at most once |
| `Receiver.RemembersArrivals` | src/network/JitterBuffer.cpp:9-50 | at any time of a run, of every unit not yet passed exactly the packets that have arrived are held |
| `Receiver.PicksFollowArrivals` | src/network/JitterBuffer.cpp:52-118 | over any run, what plays out of a unit starts at its first NAL unit if and only if the first packet arrived before it was asked for |
| `Receiver.WholeUnitsArePicked` | src/network/JitterBuffer.cpp:52-118 | over any run, a unit that has arrived completely before its turn plays out whole at its turn |
| `Receiver.WholeUnitPlays` | src/network/JitterBuffer.cpp:58-64 | a unit whose packets have all arrived plays out whole |
| `Receiver.LostHeadStillPlays` | src/network/JitterBuffer.cpp:58-64 | a unit whose first NAL unit is lost entirely plays out from the second |
| `Receiver.ShortStreamsAreTimely` | src/network/JitterBuffer.cpp:12-18 | a stream within 2^31 ticks meets the timeliness assumption whatever arrives when |
| `EndToEnd.PacketsAreThePacketizers` | src/network/RTPHandler.cpp:86-149 | the packets on the channel are those the packetizer returns |
| `EndToEnd.ArrivesOverTheWire` | src/network/RtpPacket.h:65-140 | written as a datagram and parsed, each packet of the stream arrives with its payload type cut to seven bits and all else unchanged |
| `EndToEnd.CompleteIffTail` | src/network/JitterBuffer.cpp:52-65 | the buffer finds a frame complete exactly when the unit's last packets are there |
| `EndToEnd.PlayoutRefines` | src/network/JitterBuffer.cpp:78-115 | playing a frame out yields exactly what the reference picks |
| `EndToEnd.ArriveRefines` | src/network/JitterBuffer.cpp:9-50 | a packet takes the buffer where it takes the reference |
| `EndToEnd.PopRefines` | src/network/JitterBuffer.cpp:67-118 | a pop gives the frame that the reference picks and the matching state |
| `EndToEnd.RunRefines` | src/network/JitterBuffer.cpp:9-118 | over every run the buffer hands out exactly the frames that the reference picks |
| `EndToEnd.ChannelSafety` | src/network/JitterBuffer.cpp:9-118 | end to end over a channel that loses, reorders and duplicates: an order-preserving selection of the access units, each at most once, each the canonical form of a non-empty suffix of its NAL units, whole exactly if its first packet had arrived, and none left out that had arrived completely before its turn |
| `AudioReceiver.LowestIsLowest` | src/network/JitterBuffer.cpp:37-44 | the packet that plays is the one all others held come after, as long as they fit in one half of the number space |
| `AudioReceiver.TakeRefines` | src/network/JitterBuffer.cpp:9-50 | any packet takes the buffer where it takes the reference, which only keeps lists of packets |
| `AudioReceiver.AskRefines` | src/network/JitterBuffer.cpp:67-118 | asking plays the oldest timestamp, always, once its delay has elapsed, and nothing else |
| `AudioReceiver.RunRefines` | src/network/JitterBuffer.cpp:9-118 | over every run of any audio packets the buffer plays exactly what the reference does: each timestamp with a packet in its turn, by the packet of the lowest number, marked or not |
| `AudioEndToEnd.OnePacketEach` | src/network/RTPHandler.cpp:75-84 | the packetizer sends one marked packet for each Opus frame, numbered one after the other |
| `AudioEndToEnd.PicksRise` | src/network/JitterBuffer.cpp:67-118 | frames play in order and at most once |
| `AudioEndToEnd.EveryArrivalCounts` | src/network/JitterBuffer.cpp:9-118 | a frame that arrives before it or a later one has played is played in the run or still waits |
| `AudioEndToEnd.OpusChannelSafety` | src/network/JitterBuffer.cpp:9-118 | end to end from the packetizer through datagrams that are lost, repeated or reordered: an order-preserving selection of the frames, each at most once, with its own timestamp and bytes, and none left out that arrived in time |
| `ReceivePipelining.Drain` | src/media/MediaPipeline.cpp:103-118 | the drain loop hands exactly the drained frames to the decoder, in order |
| `ReceivePipelining.ReceivePipeline.PushPacket` | src/media/MediaPipeline.cpp:95-101 | a packet goes to the audio buffer exactly if there is one and the SSRC is its own |
| `ReceivePipelining.ReceivePipeline.Tick` | src/media/MediaPipeline.cpp:103-118 | every ripe frame reaches its decoder in timestamp order; without a decoder the buffer is left alone |
| `ReceiveRouting.TickKeepsProtocol` | src/media/ReceiveRouter.cpp:54-115 | a tick keeps the callbacks of every SSRC in the form (Added Picture* Removed)*, live exactly while the stream is announced |
| `ReceiveRouting.PushKeepsProtocol` | src/media/ReceiveRouter.cpp:28-52 | a packet fires no callback and announces nothing |
| `CallbackProtocol.AnyRunFollows` | src/media/ReceiveRouter.cpp:28-115 | in every interleaving of packets and ticks, whatever the timestamps and whatever the jitter buffers hand out, each SSRC's callbacks follow the protocol |
| `CallbackProtocol.TurnKeepsFollowing` | src/media/ReceiveRouter.cpp:54-115 | one tick keeps that, for any frames handed out |
| `ReceiveRouting.EveryRunIsInProtocol` | src/media/ReceiveRouter.cpp:28-115 | with the jitter buffers as they are, in every run that their ordered maps can take each SSRC's callbacks follow the protocol and agree with the streams held |
| `RouterRun.PopsDrain` | src/media/ReceiveRouter.cpp:85-92 | popping more often than there are frames is draining, and popping on changes nothing |
| `RouterRun.EveryStreamIsItsRun` | src/media/ReceiveRouter.cpp:28-115 | over every run, for every SSRC: a stream is held exactly until its last packet lies more than the timeout back, of the kind of its first packet, its jitter buffer in the state that its own packets and ticks make, announced exactly if it is video and has played; and the pictures and sounds fired for it are exactly the frames handed out that decoded |
| `ReceiveRouting.ReceiveRouter.PushPacket` | src/media/ReceiveRouter.cpp:28-52 | a stream appears with its first packet, audio or video by payload type, and its jitter buffer takes the packet |
| `ReceiveRouting.ReceiveRouter.Collect` | src/media/ReceiveRouter.cpp:70-95 | the walk over the streams reaps the idle ones, drains the others and collects what is ready |
| `ReceiveRouting.ReceiveRouter.Deliver` | src/media/ReceiveRouter.cpp:97-110 | a stream's announcement precedes its pictures, and exactly the decoded frames are delivered |
| `ReceiveRouting.ReceiveRouter.Tick` | src/media/ReceiveRouter.cpp:54-115 | the new streams and the callbacks fired are those of the specification, and the protocol is kept |
| `Signaling.LeaveKeepsAgreement` | signaling-server/RoomManager.cpp:81-115 | leaving keeps the two indexes in agreement and unbinds the connection |
| `Signaling.LeaveKeepsRosters` | signaling-server/RoomManager.cpp:81-115 | after a leave every remaining member's roster is right |
| `Signaling.JoinKeepsRosters` | signaling-server/RoomManager.cpp:30-79 | after a join, successful or not, the indexes agree and every roster is right |
| `Signaling.JoinOutcome` | signaling-server/RoomManager.cpp:30-79 | exactly what a join does to membership, the loss of the old room on a full one included |
| `SignalingNotices.LeaveTells` | signaling-server/RoomManager.cpp:81-115 | a leave tells each member left behind once, with the room and the id, and nobody else anything |
| `SignalingNotices.JoinTells` | signaling-server/RoomManager.cpp:30-79 | exactly what everyone is told by a join: nothing if it is invalid; else the farewell once to each member of the old room; and unless eight are in the new one, room, id and each other id once to the newcomer, and the new id once to each of them |
| `SignalingNotices.EveryNoticeIsNews` | signaling-server/RoomManager.cpp:30-145 | over any run no client is told of an arrival it already knows or of a departure it does not |
| `Signaling.RelayReaches` | signaling-server/RoomManager.cpp:117-145 | exactly who gets a relayed message and how often: on a broadcast, which a member's never fails, every other member of its room once; on a directed one the member with that id; nobody on a failure |
| `Signaling.RelayOutcome` | signaling-server/RoomManager.cpp:117-145 | a relay succeeds if and only if its kind is relayable, the sender is in a room and the addressee, if there is one, is too; it sends nothing but its text, and nothing when it fails |
| `Signaling.DirectedRelayExactly` | signaling-server/RoomManager.cpp:129-138 | a directed relay succeeds exactly if the sender's room has a member with that id |
| `Signaling.EveryRosterIsRight` | signaling-server/RoomManager.cpp:30-145 | in every reachable state the indexes agree, rooms hold one to eight members with fresh ids, and the roster folded from each member's messages is exactly the others in its room |
| `RoomManaging.RoomManager.Join` | signaling-server/RoomManager.cpp:30-79 | registry, result and messages are the specification's, whose messages `SignalingNotices.JoinTells` gives for each connection, and all rosters stay right |
| `RoomManaging.RoomManager.Leave` | signaling-server/RoomManager.cpp:81-115 | the same for leaving |
| `RoomManaging.RoomManager.Relay` | signaling-server/RoomManager.cpp:117-145 | the same for relaying |
| `WebSocket.TextFrame` | src/signaling/SignalingClient.cpp:265-298 | the writer produces the masked text frame in its shortest form |
| `WebSocket.HeaderExactly` | src/signaling/SignalingClient.cpp:265-298 | section 5.2 of RFC 6455 byte by byte: FIN and opcode, MASK and the length in its three forms, highest byte first, the mask and the payload |
| `WebSocket.MaskedExactly` | src/signaling/SignalingClient.cpp:286-294 | each byte is combined bit by bit with the byte of the mask at its position modulo four |
| `WebSocket.TakeFrame` | src/signaling/SignalingClient.cpp:305-338 | the reader takes the frame that starts at a position if all its bytes are there, length and mask loops included |
| `WebSocket.FrameRoundTrip` | src/signaling/SignalingClient.cpp:265-338 | a frame reads back as itself wherever it stands and whatever follows |
| `WebSocket.WriterUsesShortestForm` | src/signaling/SignalingClient.cpp:272-284 | no readable header announces a length in fewer bytes than the writer uses |
| `WebSocket.ReceiveLoop` | src/signaling/SignalingClient.cpp:300-349 | the loop computes the texts, the reason it ends and the bytes consumed |
| `WebSocket.OpcodesExactly` | src/signaling/SignalingClient.cpp:340-349 | 8 ends the loop, 9 and 10 are skipped, 1 delivers its text, other opcodes nothing |
| `WebSocket.StreamRoundTrip` | src/signaling/SignalingClient.cpp:265-349 | of any frames the loop delivers exactly the texts up to a close or a fragment |
| `WebSocket.TextsRoundTrip` | src/signaling/SignalingClient.cpp:265-349 | any texts under any masks are read back exactly, with every byte consumed |
| `BlockStream.StreamingIsOneShot` | src/signaling/SignalingClient.cpp:30-59 | for any compression step, however a message is cut into updates, the streamed result is the one-shot one |
| `BlockStream.ZeroCounts` | src/signaling/SignalingClient.cpp:45-46 | each zero byte brings the buffer one byte closer to 56 from every fill, so the padding loop ends |
| `Sha1Hash.StreamedDigest` | src/signaling/SignalingClient.cpp:26-115 | the streamed SHA-1 of any pieces is the digest, by section 4 of RFC 3174, of their concatenation |
| `Sha1Hash.ProcessBlock` | src/signaling/SignalingClient.cpp:72-109 | the round loop computes the compression of a block |
| `Sha1Standard.RotationsExactly` | src/signaling/SignalingClient.cpp:68-70 | bit i of a word rotated by 1, 5 or 30 is bit i - 1, i - 5 or i - 30 of the word, modulo 32 |
| `Sha1Standard.FunctionExactly` | src/signaling/SignalingClient.cpp:84-96 | bit by bit the round functions are choice, parity, majority and parity |
| `Sha1Standard.ConstantsExactly` | src/signaling/SignalingClient.cpp:84-96 | the round constants are the square roots of 2, 3, 5 and 10 times 2^30, rounded down |
| `Sha1Standard.InitialExactly` | src/signaling/SignalingClient.cpp:63 | the initial hash is the counting nibbles of section 6.1 of RFC 3174 |
| `Sha1Standard.ScheduleExactly` | src/signaling/SignalingClient.cpp:74-80 | the first words are the bytes of the block, and bit i of a later one is the parity of bits i - 1 of the words 3, 8, 14 and 16 back |
| `Sha1Standard.RoundsRecur` | src/signaling/SignalingClient.cpp:81-103 | the rounds are one recurrence over single words |
| `Sha1Standard.CompressionExactly` | src/signaling/SignalingClient.cpp:72-109 | the compression is that recurrence over the schedule, added to the hash word by word |
| `Sha1Standard.PaddingExactly` | src/signaling/SignalingClient.cpp:41-50 | a one bit, then fewer than 512 zero bits up to eight bytes before the end of a block, then the length in bits |
| `Sha1Standard.DigestExactly` | src/signaling/SignalingClient.cpp:30-59 | every chain of compressions over the blocks of the padded message, from the initial hash on, ends in the digest; its twenty bytes are the five words, highest byte first |
| `Sha1Hash.Sha1.Update` | src/signaling/SignalingClient.cpp:30-39 | updating in place absorbs the bytes one by one |
| `Sha1Hash.Sha1.FillWithZeros` | src/signaling/SignalingClient.cpp:45-46 | the padding loop ends and has absorbed exactly the zeros needed |
| `Sha1Hash.Sha1.Finalize` | src/signaling/SignalingClient.cpp:41-59 | finishing gives the twenty bytes of the digest of everything absorbed |
| `Sha1Hash.DigestOfPieces` | src/signaling/SignalingClient.cpp:256-260 | an object fed piece by piece returns the digest of the whole |
| `Base64.Base64Of` | src/signaling/SignalingClient.cpp:117-139 | the encoding loop computes the encoding, the last group included |
| `Base64.DecodeInvertsEncode` | src/signaling/SignalingClient.cpp:117-139 | a decoder by section 4 of RFC 4648 gives back every byte string |
| `Base64.EncodedLength` | src/signaling/SignalingClient.cpp:121 | four characters for every three bytes begun, as reserved |
| `Base64.AlphabetExactly` | src/signaling/SignalingClient.cpp:118-119 | capitals, small letters and decimal digits in order, then plus and slash |
| `Base64.TestVectors` | src/signaling/SignalingClient.cpp:117-139 | the vectors of section 10 of RFC 4648 for "f", "fo", "foo" and "foobar" |
| `MediaClock.NtpRoundTripExactly` | src/common/Clock.h:47-58 | exactly what a wall time becomes through NTP and back, for every instant, before 1970 and past the era included |
| `MediaClock.NtpRoundTrip` | src/media/AVSync.cpp:5-15 | from 1970 to the end of the first era the round trip loses at most a nanosecond |
| `MediaClock.NtpEpochExactly` | src/common/Clock.h:47-58 | NTP counts from seventy years and seventeen leap days before 1970, in fractions of 2^-32 seconds |
| `MediaClock.TicksBracket` | src/common/Clock.h:40-45 | from the epoch on the ticks are the whole part of the elapsed time at the rate |
| `AvSyncing.AvSync.OnSenderReport` | src/media/AVSync.cpp:17-21 | a report replaces the anchor of its stream, and one with rate zero changes nothing |
| `AvSyncing.AnchorIsLastReport` | src/media/AVSync.cpp:17-21 | after any mix of reports a stream's anchor is that of its own last report |
| `AvSyncing.PlayoutIsAccurateExactly` | src/media/AVSync.cpp:23-34 | playout is within one tick and two nanoseconds of the true wall time if and only if the frame is less than half a turn of the timestamp from the last report |
| `AvSyncing.LipSync` | src/media/AVSync.cpp:17-34 | two streams at one instant, each with its own epoch, rate and reports, are played less than a tick of each and three nanoseconds apart |
| `LossEstimating.LossEstimator.Observe` | src/metrics/Metrics.cpp:51-70 | the 16-bit mark and the wrap count move as the unwrapped mark of the specification |
| `LossEstimating.LossEstimator.LostPackets` | src/metrics/Metrics.cpp:72-81 | the loss, never below zero |
| `LossEstimating.MarkIsTrueExactly` | src/metrics/Metrics.cpp:59-67 | the mark is the highest true number after every arrival if and only if every arrival was one that 16 bits can tell apart |
| `LossEstimating.NearIsReadable` | src/metrics/Metrics.cpp:59-67 | every arrival from half a turn behind the mark to less than half a turn ahead is one that 16 bits can tell apart |
| `LossEstimating.LostExactly` | src/metrics/Metrics.cpp:72-81 | the estimate never exceeds the number of missing packets, and equals it exactly when none is missing or no packet came twice and none is older than the first |
| `LatencyHistograms.LatencyHistogram.Record` | src/metrics/Metrics.cpp:17-26 | counts, sum and extremes stay true to the samples recorded |
| `LatencyHistograms.LatencyHistogram.Percentile` | src/metrics/Metrics.cpp:28-42 | the value stands for the bucket of the sample of that rank, and the scan never falls through |
| `LatencyHistograms.RankExists` | src/metrics/Metrics.cpp:28-42 | every rank up to the number of samples has its sample |
| `LatencyHistograms.FirstReachingBucket` | src/metrics/Metrics.cpp:32-40 | the bucket where the running count reaches a rank holds the sample of that rank |
| `LatencyHistograms.NearTheSample` | src/metrics/Metrics.cpp:35-39 | the value is within half a bucket of the sample outside the last bucket; in the last it is the limit, and less than a bucket above the sample |
| `LatencyHistograms.LastBucketExactly` | src/metrics/Metrics.cpp:10-20 | the last bucket holds exactly the samples from the last whole multiple of the width up to the limit on, so it holds just those above the limit except for the samples between |
| `LatencyHistograms.LimitIsInLastBucket` | src/metrics/Metrics.cpp:10-20 | a sample of exactly the limit is counted with those above it, whatever the width |
| `LatencyHistograms.PercentileMonotone` | src/metrics/Metrics.cpp:28-42 | a higher rank never gives a smaller value |
| `Forwarding.TargetOfIsTarget` | src/sfu/Room.cpp:87-103 | the computed target is the least estimate any other participant has reported, or 0 if none has |
| `Forwarding.TargetsAreRight` | src/sfu/Room.cpp:13-103 | in every reachable room every stored target is that minimum, except that participants added since the last recompute have 0 |
| `Forwarding.NewcomerIsOffExactly` | src/sfu/Room.cpp:28-31 | a newcomer's target is wrong exactly while somebody else has reported |
| `Forwarding.DeliveriesAreExact` | src/sfu/Room.cpp:59-66 | in every reachable room each endpoint has been given exactly the packets known others sent since it was added, once each, in order, and its last sequence numbers follow from them |
| `Forwarding.NeverOverfull` | src/sfu/Room.cpp:21-23 | a room never holds more than its limit |
| `Forwarding.JoinExactly` | src/sfu/Room.cpp:13-31 | a join is refused exactly to somebody present or, else, when the room is full; it adds an endpoint of which nothing is known and changes no other |
| `Forwarding.RoomsKnowWhatWasSaid` | src/sfu/Room.cpp:68-74 | in every reachable room the estimates and video SSRCs that targets and keyframe requests go by are those last reported |
| `SfuRooms.Participant.Deliver` | src/sfu/Participant.cpp:10-17 | the last sequence number of the source is kept and the sink, if any, gets the packet |
| `SfuRooms.Room.Add` | src/sfu/Room.cpp:13-42 | contents and result are the specification's, and exactly the present video senders are asked for a keyframe, once each |
| `SfuRooms.Room.Remove` | src/sfu/Room.cpp:44-51 | the participant goes and all targets are recomputed |
| `SfuRooms.Room.Forward` | src/sfu/Room.cpp:59-66 | everyone but the sender gets the packet; an unknown sender changes nothing |
| `SfuRooms.Room.OnRemb` | src/sfu/Room.cpp:68-74 | the estimate is stored and all targets are recomputed |
| `SfuRooms.Room.LeastEstimate` | src/sfu/Room.cpp:91-101 | the inner loop finds the least non-zero estimate of the others, or 0 |
| `SfuRooms.Room.RecomputeTargets` | src/sfu/Room.cpp:87-103 | the outer loop stores everyone's target, in whatever order it visits them |
| `SfuServing.RoomsAreIndependent` | src/sfu/SFUServer.cpp:7-52 | every room is what its own events alone make of it, and exactly the rooms with somebody in them are kept |
| `SfuServing.EightAtMost` | src/sfu/Room.h:41-44 | no room of any run holds more than eight, and a newcomer is turned away exactly when it holds eight |
| `SfuServing.SfuServer.AddParticipant` | src/sfu/SFUServer.cpp:7-22 | the room is created if need be and no other room changes; the new participant or the refusal is returned, and exactly the room's video senders are asked for a keyframe |
| `SfuServing.SfuServer.RemoveParticipant` | src/sfu/SFUServer.cpp:24-32 | the last participant takes the room along, and no other room changes |
| `SfuServing.SfuServer.RoutePacket` | src/sfu/SFUServer.cpp:34-38 | the packet reaches the room's other participants and nobody else |
| `SfuServing.SfuServer.OnRemb` | src/sfu/SFUServer.cpp:40-43 | only the room's own targets change |
| `FramePooling.RunKeepsPartition` | src/common/FramePool.h:50-84 | over any run free and live slots partition all slots |
| `FramePooling.ExhaustedExactly` | src/common/FramePool.h:49-57 | nothing can be taken exactly when every slot is live |
| `FramePooling.LastBackFirstOut` | src/common/FramePool.h:55-56 | the slot given back last is handed out next |
| `FramePooling.SlotsAreDisjoint` | src/common/FramePool.h:59 | slots are byte ranges inside the storage and no two overlap |
| `FramePooling.FramePool.Acquire` | src/common/FramePool.h:49-65 | a buffer nobody else holds, or none exactly when all are in use |
| `FramePooling.FramePool.Release` | src/common/FramePool.h:81-84 | the slot is free again |
| `VideoFrames.FrameFitsExactly` | src/common/VideoFrame.h:52-72 | a frame is built exactly if there is a buffer large enough and the picture has an area |
| `VideoFrames.SizeMonotone` | src/common/VideoFrame.h:74-79 | a buffer for a larger picture fits a smaller one |
| `VideoFrames.PlanesAreDisjoint` | src/common/VideoFrame.h:66-68 | the three planes follow each other without overlap within the computed size |
| `VideoFrames.ChromaIsHalved` | src/common/VideoFrame.h:57-58 | each luma sample has its chroma samples at half its column and row, and no chroma sample is without a luma sample |
| `VideoFrames.SamplesAreDistinct` | src/common/VideoFrame.h:62-68 | walking the planes by pointer and stride reaches every sample at its own byte of the buffer |
| `VideoFrames.FramesShareNothing` | src/common/VideoFrame.h:52-72 | no two samples of live frames of one pool share a byte, whatever their dimensions |
| `VideoDecoding.VideoDecoder.EnsurePool` | src/codec/VideoDecoder.cpp:57-64 | the pool fits this picture and all before it, and is replaced only if it did not |
| `VideoDecoding.VideoDecoder.FrameFor` | src/codec/VideoDecoder.cpp:95-109 | after sizing the pool a frame is had unless eight are still held or the picture has no area |

## Left out

- Sockets, ICE, DTLS, SRTP, the WebSocket server library, JSON text and environment
  parsing: foreign calls and plumbing. Reading from a socket is taking bytes from a
  sequence, messages are datatypes, random masks are parameters.
- Video and audio codecs: a decoder is an arbitrary outcome per frame; encoders, PixelConvert,
  capture, rendering, the user interface, the browser client and logging do not appear.
- Threads: each public method is one atomic step, as the mutexes make it. Nothing is said
  about a room's lifetime between looking it up and using it in `SFUServer`.
- 64-bit counters, ids and byte offsets are unbounded. 16-bit and 32-bit wrap-around is
  exact everywhere. Picture sizes stay below the largest 32-bit integer, where the program's
  own rounding would overflow.
- Floating point: a percentile is asked for by rank and its value is a real number; the loss
  percentage and the mean do not appear.
- Capture times of frames, stream counters that no property is about, and `reset` methods.
- The needs-keyframe flag of a participant: it is set on joining and nothing ever clears it.
- The system clock ticks in nanoseconds, so the last conversion in `AVSync` is the identity.
- The name stored inside a signaling room: it is the key the room is filed under.
- JitterBuffering.JitterBuffer.Push: asks, until the first frame has left, that the new
  timestamp leave the comparison a strict weak order on the pending ones, which is the
  ordered map's own demand (`Serial.StrictWeakExactly` says when it is met). Outside it, as
  with timestamps that precede each other in a circle, the map's behaviour is undefined.
- ReceivePipelining.ReceivePipeline.PushPacket: passes that demand on.
- ReceiveRouting.EveryRunIsInProtocol: covers the runs whose packets meet that demand, since
  it is about the frames the maps hand out. `CallbackProtocol.AnyRunFollows` is the same
  protocol for every run.
- EndToEnd.ChannelSafety: assumes units of at most 2^15 packets, increasing capture times,
  no unit of type 28 sent whole, and arrivals no more than 2^31 ticks from what left last,
  or, before anything left, from what is held. `Receiver.ShortStreamsAreTimely` discharges
  the last for streams that span less than 2^31 ticks.
- AudioEndToEnd.OpusChannelSafety: assumes increasing capture times and arrivals no more than
  2^31 ticks from what left last, or, before anything left, from what waits.
  `AudioReceiver.RunRefines` assumes neither.
- RouterRun.EveryStreamIsItsRun: covers the runs that the ordered maps can take.
- ReceiveRouting.ReceiveRouter.PushPacket: makes the same demand, and keeps each stream's jitter buffer as the value of
  its state rather than as an object, since the stream is its only owner; `JitterBuffer`
  itself is modelled as an object.
- FramePooling.FramePool.Acquire: the reference count of a shared buffer is not modelled;
  `Release` is the step its last owner takes.
