# Verified model of the ST 2110 engine

A Dafny 4.11 model of the timing, framing and coding arithmetic of the ST 2110 engine, with proofs over every
input and every run. Check it with `dafny verify dfyconfig.toml`.

The modules follow the program:

- **Transmit schedule** (`TxServo`, `ServoRuns`, `ServoHistory`, `MediaClock`, `TxPacer`, `PacingSchedule`,
  `Transmitter`, `FixedLatency`): the genlock servo as a class whose one method computes a specified step, what
  every run of it keeps and what decides each frame of a run, the send time of every packet, the RTP media clock,
  and the fixed-latency schedule of video and audio.
- **RFC 4175 packets** (`VideoFormat`, `Planner`, `Packetizer`, `Wire`, `PacketBuffers`, `Reassembly`,
  `Receiver`): the greedy planner, the printer and parser at the byte level, reassembly in any order, and streams
  of frames from sender to receiver.
- **Blackmagic IP10** (`RowCode`, `Ip10Sample`, `Rows`, `Ip10Plane`, `Ip10Gpu`, `Ip10Transport`): the
  context-adaptive code, its row walk, its lane-parallel GPU form, and a picture sent end to end.
- **Time** (`Arithmetic`, `RtpTime`, `EpochGuard`): division laws, unwrapping of 32-bit stamps, and the guard
  against broken sender epochs.
- **Frame-rate conversion** (`FrcGrid`, `FrcOperator`): the uniform output grid and the operator that drives it.
- **Buffers** (`RxQueue`, `BufferRing`, `Parking`): the two-thread frame queue as interleaved steps, and the
  buffer rings.
- **Smaller cores**: the SRW1 weight format (`Srw1`, `Srw1Weights`, `Srw1Files`), the Internet checksum and the
  IGMPv3 join (`Checksum`, `Igmp`), and the filter chain shared by dashboard and engine (`TokenLists`,
  `FilterChain`, `FilterPanel`).

Where the source updates state or loops, there is a class or a method with the same fields and branches, proved
against a specification function; the properties are lemmas about that function. Every lemma carries
`{:induction false}`: all inductions are written out. Clocks, network input, GPU completion and the results of
reference-count checks are arbitrary inputs.

Some properties that the source states or relies on do not hold in general. For each there is the exact condition,
and a concrete input that breaks the property or the statement that every input outside the condition does:

- A latched epoch correction does not always go away when the sender recovers, as the comments at
  `engine/operators/st2110_rx/st2110_rx.cpp:152` and `:189` say: see `EpochGuard.RecoversExactlyWhen`,
  `EpochGuard.LargeLatchRecovers` and `EpochGuard.LatchCanOutliveRecovery`.
- Segment lengths are cut to 16 bits when a line is longer than that and the payload budget allows it: the
  exact condition is in `Planner.LengthsExactlyFit`.
- Gapped pacing can put packets out of order when the pixel budget is not a whole number of pgroups:
  `PacingSchedule.GappedOrder` and `PacingSchedule.InexactEstimateBreaksOrder`.
- A tick of the uniform grid can have phase 0 after a missing capture time, outside the (0, 1] that
  `engine/operators/frc/frc_grid.hpp:30` gives: `FrcOperator.PhasesPositiveExactlyWhen` and
  `FrcOperator.MissingCaptureGivesPhaseZero`.
- An explicit chain that ends in rate conversion and has no `scale` announces `pack` as the operator that takes
  the burst, but a scale is appended in between: `FilterChain.SinkIsNext` and `FilterChain.SinkCanMissScale`.
- The dashboard shows a repeated filter once, as its own comment says, while the engine composes it each time, so the
  two agree exactly when nothing repeats: `FilterChain.PanelShowsChain` and `FilterChain.RepeatsDisagree`.
- The packer's pool index survives a change of frame size although the pool is shortened: `BufferRing.Resize`,
  and `BufferRing.ResizeAfterGrowth` for a pool that comes to that.
- A packet that arrives after its frame's marked one gives the next frame its stamp, and a repeated marked packet
  completes a frame of its own: `Receiver.StrayPacketsStampNext` and `Receiver.RepeatedMarkerCompletes`.
- The dashboard trims the names in a filter list and the engine does not: `FilterChain.PaddedNamesShow` and
  `FilterChain.BlankTextRunsScale`.

## Model

| member | source | states |
|---|---|---|
| `TxServo.TxSchedule.Compute` | engine/operators/st2110_tx/st2110_tx.cpp:335-637 | One frame changes the twelve schedule fields and yields the outcome exactly as the specification `Step`; everything below is proved about `Step` and runs of it. |
| `TxServo.TxSchedule.Genlock` | engine/operators/st2110_tx/st2110_tx.cpp:395-511 | The genlock branch: a late frame is skipped exactly when its lead is under a quarter of the target, the streak is under 32 and the window is not chronically clipped; else it is sent. `ServoHistory.SkipsExactlyWhen` tells the same by outcomes. |
| `TxServo.TxSchedule.SkipLate` | engine/operators/st2110_tx/st2110_tx.cpp:435-478 | A skipped frame leaves the base alone, gives latency back exactly when trimming was armed, and counts: that every shallow skip enters the buckets is `ServoHistory.ShallowSkipsBounded`. |
| `TxServo.TxSchedule.SetBase` | engine/operators/st2110_tx/st2110_tx.cpp:479-510 | A sent frame is re-centred exactly when its lead is out of the band, and shaved exactly when trimming is armed and it is in the band. |
| `TxServo.TxSchedule.Fallback` | engine/operators/st2110_tx/st2110_tx.cpp:511-527 | Without a capture time the base follows the NIC clock by an eighth of the error, truncated, or resyncs beyond one interval. |
| `TxServo.TxSchedule.Stamp` | engine/operators/st2110_tx/st2110_tx.cpp:537-565 | Which media time a sent frame carries, and how base and media clock move on, in fixed and in servo mode. |
| `ServoRuns.InvRun` | engine/operators/st2110_tx/st2110_tx.cpp:422-448 | Over every run and in every mode: the two skip buckets sum to at most 33, the streak is at most 32, the re-arm delay stays in 512..8192. |
| `ServoRuns.EveryWindowSends` | engine/operators/st2110_tx/st2110_tx.cpp:435-447 | In genlock mode any 33 consecutive frames include one that is sent. |
| `ServoHistory.SkipsExactlyWhen` | engine/operators/st2110_tx/st2110_tx.cpp:410-478 | From the initial servo, told by the outcomes alone: a frame is skipped exactly when its lead is under a quarter of the target, fewer than 32 frames right before it were skipped, and at most 32 of the frames back to the last re-anchor, or of the last 64 to 127, were skips by less than one interval. |
| `ServoHistory.ShallowSkipsBounded` | engine/operators/st2110_tx/st2110_tx.cpp:422-448 | Of any 64 frames in a row from the initial servo among which none re-anchors, at most 33 are skipped with a lead above minus one interval: the chronic rule acts. |
| `ServoHistory.AnchorsExactlyWhen` | engine/operators/st2110_tx/st2110_tx.cpp:410-510 | A sent frame is anchored exactly when it is the first or its lead is under a quarter of the target or over two intervals; out of that band it goes out at the target lead, else at its own less what is shaved. |
| `ServoHistory.TrimsExactlyWhen` | engine/operators/st2110_tx/st2110_tx.cpp:449-505 | Told by the outcomes alone, with the trim on: every frame sent in the band after more than 512, 1024, .. 8192 clean frames is shaved by the trim step and no other is; a skip gives latency back exactly then, the greatest of what restores twice the target, half of what was shaved and 4 ms. |
| `ServoRuns.RunSentLead` | engine/operators/st2110_tx/st2110_tx.cpp:410-510 | Every frame sent in a genlocked run has a lead between a quarter of the target less one trim step and the larger of two intervals and the target. |
| `ServoRuns.FallbackLead` | engine/operators/st2110_tx/st2110_tx.cpp:511-527 | Without a capture time every frame is sent, within one interval of the target lead. |
| `ServoRuns.TrimConserved` | engine/operators/st2110_tx/st2110_tx.cpp:456-504 | The trim total is the shaves less the back-offs of the run, in any mode. |
| `ServoRuns.OffsetSinceAnchor` | engine/operators/st2110_tx/st2110_tx.cpp:410-510 | The offset is the offset of the last anchor less the net trim since, over any genlocked run. |
| `ServoRuns.TrimAfterCleanRun` | engine/operators/st2110_tx/st2110_tx.cpp:456-505 | Latency is shaved or given back only after more than 512 frames in a row were sent. |
| `ServoRuns.BackOffRestoresMargin` | engine/operators/st2110_tx/st2110_tx.cpp:456-471 | A back-off restores the probing frame's lead to at least twice the target, gives back at least 4 ms and half of what was shaved, and doubles the re-arm delay up to its cap. |
| `ServoRuns.FixedNeverShifts` | engine/operators/st2110_tx/st2110_tx.cpp:357-394 | In fixed-latency mode every sent frame leaves at capture plus latency, and a frame is skipped exactly when it is less than 2 ms ahead. |
| `ServoRuns.FixedTouchesNothing` | engine/operators/st2110_tx/st2110_tx.cpp:368-394 | Fixed-latency mode moves the base, the offset and the mode only. |
| `ServoRuns.BaseFollows` | engine/operators/st2110_tx/st2110_tx.cpp:389-565 | In every mode the next frame is expected one interval after a sent one, and a skip moves nothing. |
| `ServoRuns.FallbackNudges` | engine/operators/st2110_tx/st2110_tx.cpp:511-527 | The fallback takes out an eighth of the error, rounded to zero, in the direction of the error; at the start or beyond one interval it goes to the target lead. |
| `ServoRuns.FallbackSettles` | engine/operators/st2110_tx/st2110_tx.cpp:511-527 | On a steady clock n fallback frames bring the error down by at least n, to at most 7 ns. |
| `ServoRuns.LegacyGrid` | engine/operators/st2110_tx/st2110_tx.cpp:528-536 | With no target every frame is sent, frame i at i intervals after the first, as long as none is handed over more than an interval behind its place. |
| `ServoRuns.LegacyRestarts` | engine/operators/st2110_tx/st2110_tx.cpp:528-536 | It starts anew at the horizon exactly when it is the first or more than an interval behind. |
| `MediaClock.MediaStrictlyIncreases` | engine/operators/st2110_tx/st2110_tx.cpp:476-565 | With latency 0, trim below the interval and clock readings above the trim, from the initial servo or any later one, over any mix of sends, skips, trims and re-anchors: of two sent frames the later has the greater media time, by between interval less trim and interval plus trim for every frame from one to the other. |
| `MediaClock.StampsAdvance` | engine/operators/st2110_tx/rtp_st2110.hpp:45-51 | Media times at least 11112 ns apart have strictly increasing 90 kHz ticks, so the stamps move on as the media clock does. |
| `MediaClock.MediaBetween` | engine/operators/st2110_tx/st2110_tx.cpp:476-565 | Over any stretch of a run the media clock moves by between interval less trim and interval plus trim per frame. |
| `MediaClock.MediaStarts` | engine/operators/st2110_tx/st2110_tx.cpp:546 | The first sent frame's media time is its wire time. |
| `MediaClock.SlewConverges` | engine/operators/st2110_tx/st2110_tx.cpp:553-565 | While the base moves one interval per frame, the distance of the media clock to it shrinks by up to trim per frame without overshoot. |
| `MediaClock.MediaOnWireExactlyWhen` | engine/operators/st2110_tx/st2110_tx.cpp:553-565 | While the base moves one interval per frame, the media clock is on it after n frames if and only if n is at least the distance divided by the trim, rounded up. |
| `MediaClock.MediaUnslewed` | engine/operators/st2110_tx/st2110_tx.cpp:545-565 | Without genlock a running media clock moves by exactly one interval a frame. |
| `TxPacer.StampPacket` | engine/operators/st2110_tx/st2110_tx.cpp:569-599 | One packet's send time in each pacing mode, and the pacer's memory of line and place in line. |
| `TxPacer.SendFrame` | engine/operators/st2110_tx/st2110_tx.cpp:567-634 | The packet loop sends every planned packet of the frame in order, with consecutive sequence numbers modulo 2^32, one timestamp, and the send time of its place. |
| `TxPacer.SendNext` | engine/operators/st2110_tx/st2110_tx.cpp:569-632 | One turn of that loop. |
| `PacingSchedule.FrameSchedule` | engine/operators/st2110_tx/st2110_tx.cpp:239-302 | Whatever mode the pacer chooses: due times are in order and inside the window from the base, and stamps that are not back to back are in order; only gapped pacing needs a pixel budget in whole pgroups. Which packets have a stamp is `PacingSchedule.StampsExactlyWhen`. |
| `PacingSchedule.StampsExactlyWhen` | engine/operators/st2110_tx/st2110_tx.cpp:239-302 | Whatever mode the pacer chooses: a packet goes back to back after the one before it exactly when both are on one line of a raw frame of 2160 lines or more, or of an IP10 frame that is forced to bursts or is under 20 ms with no override; every other packet has a send time. |
| `PacingSchedule.LinesOnSlots` | engine/operators/st2110_tx/st2110_tx.cpp:239-302 | In those frames and in IP10 frames with gaps, the first packet of a line is due at its line's slot: base plus line times the window over the lines. |
| `PacingSchedule.LineSpread` | engine/operators/st2110_tx/st2110_tx.cpp:273-282 | In an IP10 frame with gaps the packets of a line are spread over 73% of its slot, to within the rounding of the gap. |
| `PacingSchedule.EvenlySpread` | engine/operators/st2110_tx/st2110_tx.cpp:284-302 | In any other frame the packets are due from the base on, equally spaced over the whole window to within the rounding of the gap. |
| `PacingSchedule.NeverPast` | engine/operators/st2110_tx/st2110_tx.cpp:567-599 | A send time is the due time, or the present if that is later. |
| `PacingSchedule.AlignedFrame` | engine/operators/st2110_tx/rtp_st2110.cpp:20-57 | A line-aligned frame is the same number of one-segment packets for every line, line by line. |
| `PacingSchedule.EvenSchedule` | engine/operators/st2110_tx/st2110_tx.cpp:595-598 | Even pacing: in order and inside the window. |
| `PacingSchedule.BurstSchedule` | engine/operators/st2110_tx/st2110_tx.cpp:571-581 | Line bursts: in order and inside the window. |
| `PacingSchedule.OneStampPerLine` | engine/operators/st2110_tx/st2110_tx.cpp:571-581 | A line burst stamps exactly one packet of each line, its first. |
| `PacingSchedule.GappedOrder` | engine/operators/st2110_tx/st2110_tx.cpp:582-594 | Gapped pacing keeps the packets in order if and only if the frame has one line or the packets of a line fit in its slot. |
| `PacingSchedule.GappedSchedule` | engine/operators/st2110_tx/st2110_tx.cpp:273-282 | With an exact estimate of packets per line, gapped pacing is in order and inside the window. |
| `PacingSchedule.EstimateExact` | engine/operators/st2110_tx/st2110_tx.cpp:275-276 | The estimate equals the planner's packets per line when the pixel budget is a whole number of pgroups. |
| `PacingSchedule.BunchedInSlot` | engine/operators/st2110_tx/st2110_tx.cpp:277-279 | The gaps of a line take up at most 73% of its slot. |
| `PacingSchedule.InexactEstimateBreaksOrder` | engine/operators/st2110_tx/st2110_tx.cpp:273-282 | A pixel budget that is not whole pgroups can break the order: a 28-octet line with a 7-octet budget. |
| `Transmitter.VideoTx.SendVideo` | engine/operators/st2110_tx/st2110_tx.cpp:335-637 | One received frame end to end: nothing on a skip; else every packet of the frame, all with the stamp of its media time, numbered on from the last frame. |
| `Transmitter.GenlockedPacketsOnTime` | engine/operators/st2110_tx/st2110_tx.cpp:395-599 | In a genlocked run whose trim is at most a quarter of the lead, no packet of a sent frame is squeezed against the present, and each leaves inside a known band after its frame was handed over. |
| `Transmitter.FixedPacketsOnTime` | engine/operators/st2110_tx/st2110_tx.cpp:368-599 | With a fixed latency every packet of a sent frame is due from capture plus latency, at least 2 ms ahead. |
| `Planner.PacketsTile` | engine/operators/st2110_tx/rtp_st2110.cpp:20-57 | Packet i covers exactly the octets after those of the packets before it, in whole pgroups inside lines, within the payload budget, in one to three segments, one if line-aligned. |
| `Planner.PacketsFull` | engine/operators/st2110_tx/rtp_st2110.cpp:20-57 | Packets are filled greedily: every segment but the last ends its line, the last one does too or leaves less than a pgroup, and a packet of one or two segments ends the frame, is line-aligned or has no room for another header and pgroup. |
| `Planner.PixelPlace` | engine/operators/st2110_tx/st2110_format.hpp:48-60 | A pixel lies at its place in a raster of 16 or 20 bits a pixel. |
| `Planner.PacketsTotal` | engine/operators/st2110_tx/rtp_st2110.cpp:20-87 | The packets together cover the whole frame. |
| `Planner.PacketOf` | engine/operators/st2110_tx/rtp_st2110.cpp:20-87 | Every octet of the frame is in a packet. |
| `Planner.PacketsLeft` | engine/operators/st2110_tx/rtp_st2110.cpp:20-28 | A cursor inside the frame always yields a packet and the end of the frame yields none, so the walk ends exactly there. |
| `Planner.MarkerOnLast` | engine/operators/st2110_tx/rtp_st2110.cpp:84-85 | The walk is past the last line after the last packet of a frame and after no other, which is when the marker is set. |
| `Planner.FillCovers` | engine/operators/st2110_tx/rtp_st2110.cpp:28-51 | The segments of one packet are good and cover the octets from the cursor before it to the cursor after it. |
| `Planner.FillBudget` | engine/operators/st2110_tx/rtp_st2110.cpp:26-55 | Headers and octets of one packet stay within its budget. |
| `Planner.LengthsExactlyFit` | engine/operators/st2110_tx/rtp_st2110.cpp:20-57 | The first packet of a frame names all the octets that the walk moves past if and only if the line, or the budget, is below the 16-bit limit of a segment length; otherwise it names fewer. |
| `Planner.FillAtMost` | engine/operators/st2110_tx/rtp_st2110.cpp:28-51 | Whatever the lengths, a packet never names more octets than the walk moves past. |
| `Packetizer.WalkOne` | engine/operators/st2110_tx/rtp_st2110.cpp:20-57 | The loop that plans one packet computes the planner's function, whose packets are full: `Planner.PacketsFull`. |
| `Packetizer.FramePacketizer.Next` | engine/operators/st2110_tx/rtp_st2110.cpp:73-87 | One call yields the first packet still to come and leaves the rest, counts the sequence modulo 2^32, and marks the last packet of the frame and no other. |
| `Packetizer.FramePacketizer.StartFrame` | engine/operators/st2110_tx/rtp_st2110.cpp:66-71 | A new frame has all its packets to come, and the sequence number runs on. |
| `Packetizer.FramePacketizer.PacketsPerFrame` | engine/operators/st2110_tx/rtp_st2110.cpp:129-135 | The count is the number of packets of one frame. |
| `Wire.ParsePrinted` | engine/operators/st2110_tx/rtp_st2110.cpp:89-176 | Parsing a printed packet returns its numbers, its marker, its segments and where its octets start. |
| `Wire.ParsePrintedSrds` | engine/operators/st2110_tx/rtp_st2110.cpp:112-163 | One to three printed segment headers read back as they were, whatever follows. |
| `Wire.DatagramOctets` | engine/operators/st2110_tx/rtp_st2110.cpp:89-127 | Every octet of a datagram by its offset: version 2, marker and payload type, both halves of the sequence, stamp, SSRC, the segment headers with their continuation bits, and the data. |
| `Wire.ParseExactly` | engine/operators/st2110_tx/rtp_st2110.cpp:137-176 | The parser returns exactly what those offsets hold, and accepts if and only if there are 20 octets, version 2, one to three segments as the continuation bits say, each inside the frame and in whole pgroups, and all their octets. |
| `Wire.GoodIsAcceptable` | engine/operators/st2110_tx/rtp_st2110.cpp:166-175 | Every segment the planner makes passes the checks of the parser. |
| `PacketBuffers.WritePayload` | engine/operators/st2110_tx/rtp_st2110.cpp:89-127 | The writer fills the start of the buffer with exactly the datagram and leaves the rest alone. |
| `PacketBuffers.ParsePacket` | engine/operators/st2110_tx/rtp_st2110.cpp:137-176 | The parser accepts exactly the well-formed datagrams and reads them as specified. |
| `PacketBuffers.ScatterPacket` | engine/operators/st2110_tx/rtp_st2110.cpp:178-185 | The scatter writes exactly the packet's octets to their places in the frame. |
| `PacketBuffers.ReceiveInto` | engine/operators/st2110_rx/st2110_rx.cpp:300-311 | One datagram is parsed and scattered, or leaves the frame untouched. |
| `Reassembly.ReceivePacket` | engine/operators/st2110_tx/rtp_st2110.cpp:137-185 | Receiving a packet of a frame lays exactly its stretch of the source into the frame. |
| `Reassembly.ReassemblyExact` | engine/operators/st2110_tx/rtp_st2110.cpp:20-185 | In any order, with duplicates and rejected datagrams in between: an octet is the source's if a packet that holds it arrived, and keeps its old value if none did. |
| `Reassembly.LastPacketWins` | engine/operators/st2110_tx/rtp_st2110.cpp:178-185 | When packets of different frames meet in one buffer, every octet is that of the last packet that holds it, or what it was before. |
| `Reassembly.ReassemblyComplete` | engine/operators/st2110_tx/rtp_st2110.cpp:20-185 | Once every packet has arrived the frame is the source byte for byte. |
| `Reassembly.GatherCovers` | engine/operators/st2110_tx/rtp_st2110.cpp:121-126 | The segments of a packet gather exactly the stretch of the source that they cover. |
| `Reassembly.ScatterCovers` | engine/operators/st2110_tx/rtp_st2110.cpp:178-185 | Scattering them overwrites exactly that stretch. |
| `Receiver.VideoRx.Poll` | engine/operators/st2110_rx/st2110_rx.cpp:285-358 | One datagram through the receiver: rejected, or scattered into the frame being assembled; the first one of a frame gives it stamp and arrival, and the marked one completes it, hands its buffer over and goes on with another. |
| `Receiver.FrameDelivered` | engine/operators/st2110_rx/st2110_rx.cpp:297-357 | A frame whose marked packet comes once and last, with the others in any order, repeated or missing and rejected datagrams in between, is completed by exactly that packet: next number, the octets that arrived over what the buffer held, and the capture that the guard gives the sender's stamp at the first arrival. |
| `Receiver.WholeFrameDelivered` | engine/operators/st2110_rx/st2110_rx.cpp:297-357 | If no packet is missing, the completed frame is the sender's octet for octet. |
| `Receiver.EveryMarkerCompletes` | engine/operators/st2110_rx/st2110_rx.cpp:285-358 | Whatever datagrams come in, in whatever order: every accepted datagram with a marker completes a frame and no other does, frames are numbered on, and each capture is near the arrival of one of the datagrams. |
| `Receiver.FrameCompletes` | engine/operators/st2110_rx/st2110_rx.cpp:297-357 | Any run of datagrams of whatever frames up to the first marked one completes one frame: all their octets in order over what the buffer held, with the stamp and the arrival of the first one accepted. |
| `Receiver.StrayPacketsStampNext` | engine/operators/st2110_rx/st2110_rx.cpp:306-309 | Packets of a frame that come after its marked one, or whose marked one is lost, begin the next frame, which is completed once but with the stamp of the frame before and the arrival of the stray packet. |
| `Receiver.StrayPacketsOverwritten` | engine/operators/st2110_rx/st2110_rx.cpp:306-311 | Its octets are its own all the same if all its packets come after the stray ones. |
| `Receiver.RepeatedMarkerCompletes` | engine/operators/st2110_rx/st2110_rx.cpp:306-320 | A repeated marked packet completes a further frame by itself: its own octets over what the buffer held. |
| `Receiver.StreamDelivered` | engine/operators/st2110_rx/st2110_rx.cpp:285-358 | Frame after frame, with no packet crossing its frame's marked one: every frame of a stream is completed once, in order, numbered on and intact, whatever the buffers held before. |
| `Receiver.MediaTimeTravels` | engine/operators/st2110_rx/st2110_rx.cpp:199-224 | The sender's media time comes through the 32-bit stamp: the capture is the instant of its own tick, at most a tick and 1 ns early. |
| `Receiver.SentIsWellSent` | engine/operators/st2110_tx/rtp_st2110.cpp:73-127 | What the transmitter sends for a frame is what those results ask of a sender. |
| `Receiver.PacketParses` | engine/operators/st2110_tx/rtp_st2110.cpp:89-176 | Every packet of a sent frame parses with the frame's stamp, and the last one and no other with the marker. |
| `Ip10Sample.CfgIsTenToEight` | engine/operators/codec/ip10_codec.hpp:51-65 | The derived constants for 10 and 8 bits. |
| `Ip10Sample.CodeWordMeans` | engine/operators/codec/ip10_codec.hpp:83-91 | What each code word stands for, in plain numbers: 128 exact levels from seven times the table, steps of seven below and above. |
| `Ip10Sample.WindowIsLossless` | engine/operators/codec/ip10_codec.hpp:75-82 | A sample has an exact code word if and only if it is in the 128 levels from seven times the table. |
| `Ip10Sample.WindowFollows` | engine/operators/codec/ip10_codec.hpp:68-74 | The next table is the one that centres those levels on the sample to within 3, and it is the only one. |
| `Ip10Sample.FirstSampleCode` | engine/operators/codec/ip10_codec.cpp:16-46 | The first sample of every lane is coded around mid-grey: exactly, as its distance from 448, if and only if it is in 448..575. |
| `Ip10Sample.LaterSampleCode` | engine/operators/codec/ip10_codec.cpp:16-46 | Every later sample is coded with the table of the reconstruction of the sample before it in its lane. |
| `Ip10Sample.SampleRetraction` | engine/operators/codec/ip10_codec.hpp:75-91 | For every table, encoding the decoding of any code word returns that word. |
| `Ip10Sample.SampleErrorBound` | engine/operators/codec/ip10_codec.hpp:75-91 | For every table and sample the reconstruction is within 3. |
| `Ip10Sample.NearSampleExact` | engine/operators/codec/ip10_codec.hpp:68-91 | A sample within 60 of the previous reconstruction of its lane is exact. |
| `Ip10Sample.SmoothRowExact` | engine/operators/codec/ip10_codec.cpp:16-46 | If the samples of every lane step by at most 58, every sample after the first of its lane is exact. |
| `Ip10Sample.SmoothStepIsTight` | engine/operators/codec/ip10_codec.hpp:68-91 | 58 is the most: a step of 59 can lose exactness. |
| `Ip10Sample.RowErrorBound` | engine/operators/codec/ip10_codec.cpp:16-46 | Every reconstructed sample of a row is within 3 of its source. |
| `RowCode.RowRetraction` | engine/operators/codec/ip10_codec.cpp:16-46 | For any context-adaptive code whose samples retract, encoding a decoded row returns its code words. |
| `RowCode.Reconstruction` | engine/operators/codec/ip10_codec.cpp:16-46 | The decoder sees the encoder's table at every sample, so a row decodes sample by sample from the encoder's own tables. |
| `RowCode.SameLaneSameTable` | engine/operators/codec/ip10_codec.cpp:22-28 | The table of a sample depends on its own lane only. |
| `Ip10Plane.EncodePlane` | engine/operators/codec/ip10_codec.cpp:16-30 | The encoding loops leave every row coded, samples masked to 10 bits, lanes at the given distance, each from mid-grey: `Ip10Plane.FirstSamplesSent`. |
| `Ip10Plane.DecodePlane` | engine/operators/codec/ip10_codec.cpp:32-46 | The decoding loops leave every row reconstructed, each lane from mid-grey: `Ip10Plane.FirstSamplesSent`. |
| `Ip10Plane.FirstSamplesSent` | engine/operators/codec/ip10_codec.cpp:16-46 | In every row of an encoded plane the first sample of each lane has its code around 448, and the decoded plane has it back. |
| `Ip10Plane.PlaneRetraction` | engine/operators/codec/ip10_codec.cpp:16-46 | Encoding the decoding of any byte plane returns that plane, for every lane distance. |
| `Ip10Plane.SecondGenerationLossless` | engine/operators/codec/ip10_codec.cpp:16-46 | A second coding generation loses nothing more. |
| `Ip10Plane.PlaneErrorBound` | engine/operators/codec/ip10_codec.cpp:16-46 | Every sample of a plane comes back in 0..1023 and within 3. |
| `Ip10Plane.SmoothPlaneExact` | engine/operators/codec/ip10_codec.cpp:16-46 | Rows whose lanes step by at most 58 come back exact after the first sample of each lane. |
| `Ip10Plane.LaneIndependence` | engine/operators/codec/ip10_codec.cpp:16-46 | A change in one lane of one row changes the code of no other lane and no other row. |
| `Ip10Gpu.LanePtr` | engine/operators/codec/ip10_codec.cu:27-35 | Which plane, start and stride a thread scans. |
| `Ip10Gpu.EncodeThread` | engine/operators/codec/ip10_codec.cu:37-55 | A thread codes its lane into its column and writes no other octet. |
| `Ip10Gpu.Pack422` | engine/operators/codec/ip10_codec.cu:77-89 | The launch, its threads in any order and repeated at will, leaves every column coded. |
| `Ip10Gpu.ScansEqualRowWalk` | engine/operators/codec/ip10_codec.cu:37-55 | For every even width the scans leave exactly the row walks' planes (distance 2 on Y, 1 on Cb and Cr) interleaved as {Cb, Y0, Cr, Y1}. |
| `Ip10Gpu.InterleavedMeans` | engine/operators/codec/ip10_codec.cu:46-52 | Interleaved planes, octet by octet: Cb, Y, Cr, Y of every pgroup of every row. |
| `Ip10Gpu.CellsDistinct` | engine/operators/codec/ip10_codec.cu:46-52 | No two threads write the same octet. |
| `Ip10Gpu.CellsCover` | engine/operators/codec/ip10_codec.cu:46-52 | Every octet is written by some thread. |
| `Ip10Gpu.DecodeThread` | engine/operators/codec/ip10_codec.cu:57-75 | A decoding thread reconstructs its lane and writes no other sample. |
| `Ip10Gpu.Unpack422` | engine/operators/codec/ip10_codec.cu:90-95 | The decoding launch leaves every lane reconstructed. |
| `Ip10Gpu.DecodeScansEqualRowWalk` | engine/operators/codec/ip10_codec.cu:57-75 | For every even width the decoding scans leave what the row walk decodes from the planes' codes. |
| `Ip10Gpu.SamplesDistinct` | engine/operators/codec/ip10_codec.cu:27-35 | No two threads share a sample of a plane. |
| `Ip10Transport.PictureArrives` | engine/operators/codec/codec_ops.cpp:83-135 | Coded, packetized, delivered in any order with repeats, reassembled and decoded: every sample is within 3 of what was sent, and exact where the lane is smooth. |
| `Ip10Transport.NextHopSame` | engine/operators/codec/codec_ops.cpp:83-270 | A received picture codes into the very same octets again, so further hops lose nothing. |
| `RtpTime.UnwrapRecovers` | engine/operators/common/rtp_time.hpp:22-37 | When reference and capture are less than 2^31 ticks apart, unwrapping recovers the one matching tick: never later than the true instant, and less than a tick and 1 ns early. |
| `RtpTime.UnwrapStrictlyMonotone` | engine/operators/common/rtp_time.hpp:31-37 | Captures in different ticks unwrap to different instants in the same order. |
| `RtpTime.SplitStampExact` | engine/operators/st2110_tx/rtp_st2110.hpp:45-51 | The stamp computed in two 64-bit parts is the exact one modulo 2^32. |
| `RtpTime.RestampLandsOnReference` | engine/operators/common/rtp_time.hpp:45-48 | A restamped packet unwraps to the tick that holds the reference. |
| `RtpTime.TicksFit` | engine/operators/common/rtp_time.hpp:22-24 | The tick count fits in 64 bits for every rate up to one per nanosecond. |
| `EpochGuard.StreamGuard.CaptureNs` | engine/operators/st2110_rx/st2110_rx.cpp:199-224 | One stamp through the guard, with its latched delta and count of relatches; the audio guard is the same with its own rate and bound. |
| `EpochGuard.RunNearArrivals` | engine/operators/st2110_rx/st2110_rx.cpp:138-224 | Over any sequence of stamps every capture is within the bound of its arrival. |
| `EpochGuard.StreamsNearArrivals` | engine/operators/st2110_rx/st2110_rx.cpp:138-224 | In plain integers, over any sequence of stamps and from any correction: every video capture is within 150 ms of its arrival and every audio capture within 500 ms. |
| `EpochGuard.MediaClockLands` | engine/operators/st2110_rx/st2110_rx.cpp:160-162 | A restamped packet is always sane, at any rate whose tick fits in the bound. |
| `EpochGuard.StreamBounds` | engine/operators/st2110_rx/st2110_rx.cpp:146-200 | The video bound of 150 ms and the audio bound of 500 ms meet that requirement. |
| `EpochGuard.SaneIsClose` | engine/operators/st2110_rx/st2110_rx.cpp:148-202 | Away from the ends of the clock, sane means within the bound in plain integers. |
| `EpochGuard.SaneSenderVerbatim` | engine/operators/st2110_rx/st2110_rx.cpp:147-158 | A sender whose raw stamps are always sane is never corrected. |
| `EpochGuard.StreamsVerbatim` | engine/operators/st2110_rx/st2110_rx.cpp:138-224 | In plain integers: a video sender that stays within 150 ms and an audio sender that stays within 500 ms of their arrivals are never corrected. |
| `EpochGuard.CorrectionHolds` | engine/operators/st2110_rx/st2110_rx.cpp:147-156 | As long as the corrected stamps are sane the correction is kept and used. |
| `EpochGuard.LatchLandsOnArrival` | engine/operators/st2110_rx/st2110_rx.cpp:157-166 | A stamp that is not sane, raw or corrected, is taken to have arrived in its own tick, and is counted. |
| `EpochGuard.RecoversExactlyWhen` | engine/operators/st2110_rx/st2110_rx.cpp:157-158 | On a sane raw stamp the correction is gone if and only if there was none or the corrected stamp missed its arrival. |
| `EpochGuard.LargeLatchRecovers` | engine/operators/st2110_rx/st2110_rx.cpp:199-210 | A latched correction above twice the bound plus rounding is dropped on the first sane raw stamp, across the 32-bit wrap, if both stamps name ticks of the epoch and none before it. |
| `EpochGuard.LatchCanOutliveRecovery` | engine/operators/st2110_rx/st2110_rx.cpp:189-210 | A smaller one can stay: a sender that recovers from 200 ms to 100 ms ahead keeps the correction. |
| `FixedLatency.RelayPacket` | engine/operators/st2110_tx/st2110_tx.cpp:176-201 | A held audio packet is ignored, dropped when more than 50 ms late, sent at once when due, or sent when due; only its stamp changes, by the shift and the correction modulo 2^32. |
| `FixedLatency.ShiftForward` | engine/operators/common/rtp_time.hpp:22-37 | The tick of an instant shifted forward is the tick plus the ticks of the shift, less one exactly when the rounding of the instant exceeds that of the shift. |
| `FixedLatency.ShiftBack` | engine/operators/common/rtp_time.hpp:22-37 | Shifted back it is less by zero, one or two, exactly as the two roundings add up. |
| `FixedLatency.GuardedCapture` | engine/operators/st2110_rx/st2110_rx.cpp:138-224 | Whatever the guard did, the capture is the instant of the stamp with the correction now in force, if that stamp names a tick of the epoch and none before it. |
| `FixedLatency.VideoStamp` | engine/operators/st2110_tx/st2110_tx.cpp:540-544 | The output stamp of a sent video frame is its input stamp plus the ticks of the latency, or exactly one less, and when. |
| `FixedLatency.AudioStampIsDue` | engine/operators/st2110_tx/st2110_tx.cpp:160-196 | The relayed audio stamp is the tick of the time it is due, or later by at most one tick for a shift forward and two for a shift back, exactly. |
| `FixedLatency.LipSync` | engine/operators/st2110_tx/st2110_tx.cpp:160-394 | At any audio rate, sound and picture of one instant are scheduled apart by the A/V offset to within the longer of the two ticks and 1 ns. |
| `FrcGrid.UniformGrid.Ticks` | engine/operators/frc/frc_grid.hpp:39-64 | One bracket fills the output with the ticks of the specification, advances the grid and counts what it drops; the ticks are those of `FrcOperator.TicksExactlyDue` with the phases of `FrcOperator.PhasesExact`. |
| `FrcGrid.UniformGrid.Emit` | engine/operators/frc/frc_grid.hpp:51-62 | The loop over the ticks up to the newer frame. |
| `FrcGrid.BracketAdvances` | engine/operators/frc/frc_grid.hpp:39-64 | The grid moves by one interval for every tick emitted or dropped, to the first tick after the newer frame. |
| `FrcGrid.BracketTick` | engine/operators/frc/frc_grid.hpp:44-56 | Every emitted tick is on the grid, at its place after the skipped ones, inside the bracket or before it, with its true phase, which `FrcGrid.PhaseIsPlace` gives as a ratio. |
| `FrcGrid.PhaseIsPlace` | engine/operators/frc/frc_grid.hpp:53-56 | Phase times bracket is the distance from the older frame, and 0 before it. |
| `FrcGrid.StallEmitsLast` | engine/operators/frc/frc_grid.hpp:44-62 | A bracket over the stall bound emits the one last tick it holds. |
| `FrcGrid.DueTicksEmitted` | engine/operators/frc/frc_grid.hpp:44-62 | A bracket within the stall bound emits every tick it holds, up to the burst. |
| `FrcGrid.StallFreezes` | engine/operators/frc/frc_grid.hpp:44-49 | A bracket longer than the stall bound emits at most one tick. |
| `FrcGrid.NothingDropped` | engine/operators/frc/frc_grid.hpp:44-60 | A bracket within the stall bound and the burst drops nothing. |
| `FrcGrid.PhaseRange` | engine/operators/frc/frc_grid.hpp:53-56 | The phase is in 0..1, is 0 exactly at or before the older frame and 1 exactly at the newer. |
| `FrcOperator.FrcOp.Compute` | engine/operators/frc/frc.cpp:100-170 | One source frame: passed through, or its ticks emitted as synthetic frames of the pool and at most one restamped source frame; the original capture time is kept. |
| `FrcOperator.FrcOp.EmitAll` | engine/operators/frc/frc.cpp:124-142 | The emission loop and its round-robin pool index. |
| `FrcOperator.GridRigid` | engine/operators/frc/frc.cpp:100-120 | Over any capture times whatever: all emitted ticks are on one grid from the anchor, no two on one place, and emitted plus dropped is the distance of the next tick from the anchor. |
| `FrcOperator.RigidOrder` | engine/operators/frc/frc_grid.hpp:51-62 | Emitted ticks are at least an interval apart, in order. |
| `FrcOperator.GridExact` | engine/operators/frc/frc_grid.hpp:39-64 | With increasing captures: emitted plus dropped is the number of ticks from the anchor to the last capture, the next tick is in the interval after it, and every phase is in (0, 1]. |
| `FrcOperator.PhasesExact` | engine/operators/frc/frc.cpp:100-120 | Every tick of every bracket has the exact ratio of its distance from the older frame to the bracket as its phase. |
| `FrcOperator.TicksExactlyDue` | engine/operators/frc/frc.cpp:100-120 | Which ticks a bracket emits: those due, up to 16 and the burst; beyond eight intervals only the last; none if none is due. |
| `FrcOperator.OutsFollowTicks` | engine/operators/frc/frc.cpp:122-142 | There is one frame for every tick, at its time and with its phase. |
| `FrcOperator.RealExactlyWhen` | engine/operators/frc/frc.cpp:122-133 | A frame is the restamped source frame if and only if it is the last of its bracket and at most a hundredth of it early. |
| `FrcOperator.PassesExactlyWhen` | engine/operators/frc/frc.cpp:100-107 | A frame is passed through if and only if it is the first, follows a missing capture time, or is not later than the frame before it. |
| `FrcOperator.UnbrokenCadence` | engine/operators/frc/frc_grid.hpp:39-64 | With brackets within the stall bound and the burst, tick i is exactly i intervals after the anchor and nothing is dropped. |
| `FrcOperator.PhasesPositiveExactlyWhen` | engine/operators/frc/frc_grid.hpp:44-56 | All phases of a bracket are positive if and only if the grid is not anchored yet, or the older frame is before the next tick, or the bracket is longer than the stall bound. |
| `FrcOperator.MissingCaptureGivesPhaseZero` | engine/operators/frc/frc.cpp:100-107 | A missing capture time leads to ticks with phase 0 in the bracket after it. |
| `FrcOperator.RestampIsSmall` | engine/operators/frc/frc.cpp:122-133 | A source frame taken for a tick moves back by at most a hundredth of its bracket. |
| `FrcOperator.PoolInTurn` | engine/operators/frc/frc.cpp:134-135 | Over any run the synthetic frames use the pool in turn. |
| `FrcOperator.PoolRoundRobin` | engine/operators/frc/frc.cpp:134-135 | The n-th synthetic frame uses slot n modulo 2 * burst + 6. |
| `FrcOperator.PoolNeverAliases` | engine/operators/frc/frc.cpp:70-77 | No two of the last 2 * burst + 6 synthetic frames share a buffer. |
| `RxQueue.InvRun` | engine/operators/st2110_rx/st2110_rx.cpp:226-373 | Under every interleaving of filling, completion, scan, pop, copy and release: the buffer being filled is held by nobody else, no two live frames share a buffer, each still holds its completed image, numbers leave in strictly increasing order, completed = emitted + queued + dropped + drained, and the queue is within its depth. |
| `RxQueue.GrowsOnlyWhenFull` | engine/operators/st2110_rx/st2110_rx.cpp:237-242 | The ring grows only if every slot was in use when the scan began. |
| `RxQueue.RingBounded` | engine/operators/st2110_rx/st2110_rx.cpp:226-243 | If the operators downstream never refer to more than d buffers, the ring never exceeds the queue depth plus d plus two (or its first eight). |
| `RxQueue.EnqueueAccounts` | engine/operators/st2110_rx/st2110_rx.cpp:321-351 | The section under the lock keeps order and account, whether it sheds, pushes or drops. |
| `RxQueue.ShedsStandingQueue` | engine/operators/st2110_rx/st2110_rx.cpp:329-342 | A frame is shed exactly at the end of a window of 32 completions none of which saw fewer than two queued frames. |
| `RxQueue.DrainsExactlyWhen` | engine/operators/st2110_rx/st2110_rx.cpp:321-342 | In every run: the oldest frame is shed exactly when the draining is on and this completion ends a block of 32, all of which saw two or more queued frames. |
| `RxQueue.DropsOnlyWhenFull` | engine/operators/st2110_rx/st2110_rx.cpp:343-351 | A completed frame goes to the end of the queue, or is dropped exactly when that holds its depth and at least two; nothing else moves. |
| `RxQueue.DrainIsRare` | engine/operators/st2110_rx/st2110_rx.cpp:329-342 | At most one frame is shed for every 32 completed. |
| `RxQueue.FrameQueue.Push` | engine/operators/st2110_rx/st2110_rx.cpp:321-351 | The locked section of the polling thread, with its window counters, is the specified step. |
| `RxQueue.FrameQueue.PopFront` | engine/operators/st2110_rx/st2110_rx.cpp:362-373 | The consumer takes the oldest frame or finds none. |
| `BufferRing.HostRing.NextBuffer` | engine/operators/st2110_rx/st2110_rx.cpp:226-243 | The scan takes the first slot found free, going round from the index; if every look finds users it grows by a new buffer. |
| `BufferRing.ScanVisitsAll` | engine/operators/codec/codec_ops.cpp:201-210 | A scan looks at every slot. |
| `BufferRing.Resize` | engine/operators/codec/codec_ops.cpp:165-185 | After a size change the packer's next pick is inside its pool if and only if the index had not passed the pool's first size. |
| `BufferRing.ResizeAfterGrowth` | engine/operators/codec/codec_ops.cpp:165-210 | A pool can come to that: it grows to eleven, ten picks find free buffers, and a size change leaves the index past the end. |
| `Parking.InFlight.Park` | engine/operators/codec/codec_ops.cpp:118-127 | A buffer is parked behind an event that guards no other parked buffer. |
| `Parking.InFlight.Drain` | engine/operators/codec/codec_ops.cpp:80-90 | Exactly the longest finished prefix of parked buffers is let go, in order, and its events are back in the pool. |
| `Srw1Files.ParseBlob` | engine/operators/resize/sr_model.cpp:52-107 | The cursor parser accepts and rejects exactly as the format specification, with the same error. |
| `Srw1Files.BlobCursor.OneLayer` | engine/operators/resize/sr_model.cpp:77-101 | One layer is read and checked against the layers before it. |
| `Srw1Files.BlobCursor.Floats` | engine/operators/resize/sr_model.cpp:28-40 | A run of words is taken whole or not at all. |
| `Srw1Files.Serialize` | tools/sr_weights/convert.py:263-278 | The converter's blob is the printed form of the converted net. |
| `Srw1Files.SerializedParses` | tools/sr_weights/convert.py:254-278 | Round trip: a trained net of a supported shape parses back with its own shapes, biases and slopes, and its trained weights are recovered from it. |
| `Srw1.ParsePrinted` | engine/operators/resize/sr_model.cpp:52-107 | Every well-formed net prints to a blob that parses to it. |
| `Srw1.AcceptsExactlyPrints` | engine/operators/resize/sr_model.cpp:52-107 | The parser accepts exactly the printed forms of well-formed nets, with any non-zero bias flags, and returns that net. |
| `Srw1.BlobStarts` | engine/operators/resize/sr_model.cpp:55-73 | Every accepted blob starts with SRW1, version 1 and scale 2. |
| `Srw1.FirstFault` | engine/operators/resize/sr_model.cpp:55-73 | Exactly which blobs get each of the first four errors. |
| `Srw1.ParsedNetOk` | engine/operators/resize/sr_model.cpp:74-105 | Every accepted net chains its channels from 1 to a single final shuffle and has the weights of its shapes. |
| `Srw1.PrefixFree` | engine/operators/resize/sr_model.cpp:105-106 | No accepted blob is a proper prefix of another: the longer one has trailing bytes. |
| `Srw1Weights.ToOihw` | tools/sr_weights/convert.py:254-262 | The nested loops put every weight in its OIHW place. |
| `Srw1Weights.OihwBijection` | tools/sr_weights/convert.py:254-262 | The reordering has an inverse on both sides. |
| `Srw1Weights.OihwKeepsTaps` | tools/sr_weights/convert.py:259-261 | Every tap of the kernel has the same weight before and after. |
| `Srw1Weights.DstOfTap` | tools/sr_weights/convert.py:261 | The OIHW index numbers the taps one to one. |
| `Srw1Weights.SrcOfTap` | tools/sr_weights/convert.py:259-261 | So does the HWIO index. |
| `Checksum.InetChecksum` | engine/operators/common/net_addr.hpp:32-38 | The loops compute the one's-complement checksum, in 32-bit arithmetic, for any length. |
| `Checksum.VerifiesExactlyWhen` | engine/operators/common/net_addr.hpp:32-38 | Up to 131074 octets a buffer verifies if and only if its words sum to a positive multiple of 65535. |
| `Checksum.SumAppend` | engine/operators/common/net_addr.hpp:32-35 | The word sum is additive and each word is big-endian. |
| `Checksum.OddPads` | engine/operators/common/net_addr.hpp:35 | An odd octet at the end counts as a word padded with zero. |
| `Checksum.SelfVerifies` | engine/operators/common/net_addr.hpp:32-38 | Storing the checksum in a zeroed, even-aligned field makes the buffer verify. |
| `Checksum.DetectsChangedWord` | engine/operators/common/net_addr.hpp:32-38 | Changing one aligned word of a verifying buffer is noticed, unless it swaps the two zeros. |
| `Checksum.FoldMeans` | engine/operators/common/net_addr.hpp:36 | Folding the carries keeps the value modulo 65535 and never makes a zero of anything else. |
| `Igmp.BuildJoin` | engine/operators/common/net_addr.hpp:54-97 | The builder writes exactly the join frame and nothing after it. |
| `Igmp.JoinVerifies` | engine/operators/common/net_addr.hpp:54-97 | For every interface, group and source both checksums of the join verify, and its length field counts what follows the Ethernet header. |
| `Igmp.JoinOctets` | engine/operators/common/net_addr.hpp:54-97 | Every octet of the join but the checksums, by its offset: record type 4 without a source and 3 with one, group, source, TTL 1, Router Alert, 224.0.0.22. |
| `Igmp.MulticastRange` | engine/operators/common/net_addr.hpp:20 | Multicast is 224.0.0.0 to 239.255.255.255. |
| `Igmp.MacIsLow23` | engine/operators/common/net_addr.hpp:22-29 | Two groups share an Ethernet address if and only if they agree in their low 23 bits. |
| `FilterChain.Compose` | engine/apps/st2110_pipeline.cpp:344-397 | The composition loop makes the operators of the composed tokens, uniquely named, and a scale in any case. |
| `FilterChain.AnnounceSink` | engine/apps/st2110_pipeline.cpp:241-268 | The scan ahead finds what follows the first rate converter in the composed list. |
| `FilterChain.SinkIsNext` | engine/apps/st2110_pipeline.cpp:241-268 | The announced operator is the one composed right after the first rate converter if and only if the list has a scale or another operator after it. |
| `FilterChain.SinkCanMissScale` | engine/apps/st2110_pipeline.cpp:241-268 | A list of rate conversion alone announces the packer while a scale is composed after it. |
| `FilterChain.RepeatsDisagree` | web/app.js:238-241 | A repeated filter runs twice and is shown once. |
| `FilterChain.PanelShowsChain` | web/app.js:232-257 | For an automatic chain or any text in which no filter name has spaces around it: the operators that run are the rows shown, in order, if and only if no composed token repeats; and the delay marker agrees. |
| `FilterChain.PaddedNamesShow` | web/app.js:236-245 | For any other text whose trimmed operators do not repeat: what runs is what is shown if and only if no operator has spaces around its name, except a scale that no operator follows. |
| `FilterChain.BlankTextRunsScale` | web/app.js:236-247 | Text of spaces only is shown as the automatic chain and runs as a scale alone. |
| `FilterChain.AutoAgrees` | web/app.js:247-256 | With no explicit list the automatic chains agree outright. |
| `FilterChain.AutoOrder` | web/app.js:247-256 | The automatic chain is the active ones of nr, frc, scale, sharpen, procamp, grain, delay in this order. |
| `FilterChain.ExplicitAgrees` | web/app.js:236-245 | The same for a list of tokens, however they were read. |
| `FilterChain.NamesUnique` | engine/apps/st2110_pipeline.cpp:344-350 | The operators of a chain have distinct names, as text too: nr, nr2 and so on. |
| `FilterChain.NumbersCount` | engine/apps/st2110_pipeline.cpp:347-350 | Each is numbered by how many of its filter come before it. |
| `FilterChain.NameTexts` | engine/apps/st2110_pipeline.cpp:349-350 | The first of a filter has its name and the others a number behind it, as in nr12. |
| `FilterChain.TrimIs` | web/app.js:238 | Trimming takes off all the spaces around a text and nothing else. |
| `FilterPanel.Panel.FillForm` | web/app.js:284-307 | Enabled rows and row order after a configuration is taken over. |
| `FilterPanel.Panel.LayRows` | web/app.js:302-305 | The chain is laid over the enabled rows, and what is left over goes to the end. |
| `FilterPanel.RebuiltRows` | web/app.js:284-307 | Whatever the saved and displayed orders, the rebuilt rows are the catalogue, each filter once, and the enabled ones in order are the chain. |
| `FilterPanel.RowsMoveLeast` | web/app.js:284-307 | A saved order that shows the chain leads the rows; else a displayed order that shows it stays as it is; else only the rows of the chain move. |
| `FilterPanel.ChainIsRows` | web/app.js:232-257 | The derived chain is made of catalogue rows, each once, with a scale. |
| `FilterPanel.PostedChainDerives` | web/app.js:334-349 | The chain that the form posts derives the same chain again. |
| `FilterPanel.PostedChainRuns` | web/app.js:334-349 | And the engine composes its operators in its order. |

## Left out

- TxServo.TxSchedule.Compute: does not model the telemetry counters (skips, re-anchors, last and least lead, frames and packets sent), the buffer-size check and the warm-up sleep, none of which feed back into the schedule.
- TxServo.TxSchedule.Stamp: nanosecond values are integers, because 64-bit wrap of absolute times is centuries away; the 32-bit wrap of stamps and sequence numbers is modelled.
- TxPacer.SendFrame: does not model the throttle's waiting on the NIC clock, which delays submission but changes no send time.
- PacingSchedule.FrameSchedule: the paced window and the frame interval are integers given to the pacer, because their derivation from frame rate, active ratio and fill is floating point.
- FrcGrid.UniformGrid.Ticks: the phase is an exact rational where the source rounds to a float, and the counter of drops is always counted.
- FrcOperator.FrcOp.Compute: the optical flow and the interpolated pixels are left out; a synthetic frame is its slot, its time and its phase.
- RxQueue.InvRun: the reference counts are sets of references; the memory order of the atomic counts is taken to be sequential, and a popped frame becomes downstream's in one step.
- BufferRing.HostRing.NextBuffer: what each look at a use count finds is an input, so that another thread may release a buffer between two looks.
- EpochGuard.LargeLatchRecovers: says nothing of a stamp that names a tick before the epoch, whose unwrapped tick wraps below zero; only an arrival in the first 2^31 ticks of the epoch can have one.
- FixedLatency.GuardedCapture: likewise says nothing of a stamp that names a tick before the epoch.
- Receiver.FrameDelivered: the marked packet comes once and last, and packets that cross it are the subject of `Receiver.FrameCompletes`, `Receiver.StrayPacketsStampNext`, `Receiver.RepeatedMarkerCompletes` and `Reassembly.LastPacketWins`.
- Receiver.StreamDelivered: no packet crosses its frame's marked one; for a stream in which some do, `Receiver.EveryMarkerCompletes` says what is completed.
- EpochGuard.StreamGuard.CaptureNs: does not model the rate-limited warnings.
- FixedLatency.RelayPacket: the wait until four milliseconds before the due time is left out; the clock reading after it is an input.
- Srw1Files.ParseBlob: weights are 32-bit words, and the net's name, used in messages only, is left out.
- FilterChain.PanelShowsChain: amounts are exact numbers, so the six decimals to which the control daemon prints them are not modelled; names with spaces around them, which the dashboard trims and the engine does not, are the subject of `FilterChain.PaddedNamesShow` where nothing repeats, and blank text of `FilterChain.BlankTextRunsScale`.
- FilterChain.Compose: the parameters of the operators are left out.
- PacketBuffers.ReceiveInto: loss and latency accounting and the capture log of the receiver are left out.
- DPDK backends, CUDA kernels other than the IP10 scans, NMOS, the HTTP daemon and the rest of the dashboard are not part of this model.
- The `AudioBridge` queue and `AudioDelayLine` are left out: they would add only simpler queues.
- The retiming and classic up-convert modes of rate conversion are left out: they emit a fixed count per frame and keep no grid.
