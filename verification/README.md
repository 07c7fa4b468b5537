# Verified model of the XR17V358 UART data path

The driver carries packets of 1 to 1024 bytes over a serial line. A packet is encoded as one frame (`7E`, the payload
with `7E` and `7D` replaced by `7D` and the byte XOR `20`, `7E`; octet stuffing in the manner of section 4.2 of
RFC 1662, without a checksum and without shared flags). Frames travel through circular byte buffers that are filled and
drained in pieces: a poll moves at most 256 bytes and cuts frames anywhere, a device FIFO accepts as many bytes as
its level register allows, and a read returns any number of decoded bytes. This project models the codec, the ring
buffers, the modelled FIFO path, the memory-mapped FIFO path and a full-duplex link of two ports, and proves what
arrives, for all payloads, all call sequences and all device behaviours.

## How it is built

- `Uart.dfy`: bytes (`bv8`), sizes, status codes.
- `Framing.dfy`, `Codec.dfy`: the packet format as functions, with the exact set of frames the decoder accepts; the
  encoder and decoder as methods over caller buffers.
- `FrameStream.dfy`: the two scanners and the frame reader on any byte sequence, and unique parsing of packet streams.
- `Draining.dfy`: the receive loop and the transmit-side drain loop, and exactly when they lose data.
- `Weighing.dfy`: a measure of what any bytes, aligned or not, can still deliver; no call increases it.
- `FrameTransfer.dfy`, `Ring.dfy`: the circular buffer as a class over an array, with the frame operations.
- `Ledger.dfy`: what it means for one direction to conserve what it accepted, and the steps that keep it so.
- `PortModel.dfy`, `PortRuns.dfy`, `PortTiming.dfy`, `PortLimits.dfy`: a port as the contents of its five rings, whole
  runs of calls on it, how long polling takes, and concrete runs in which it loses data.
- `PortCalls.dfy`, `LinkCalls.dfy`: what each call promises in every reachable state, in numbers a caller can check.
- `Mmio.dfy`, `HwModel.dfy`, `HwLink.dfy`, `HwProgress.dfy`: window access by words and bytes, the calls through the
  device, two ports joined by a line, and a proof that such a link catches up.
- `RingIo.dfy`, `Port.dfy`: the driver's own methods on real rings, each proved to do what the functions above say.
- `Replay.dfy`, `LinkReplay.dfy`: a replay of any run of calls on a real port, and of any run of a link on two.

The methods are proved against functions on ring contents (`PortModel.Poll`, `HwModel.WriteHw`, ...); the theorems
are about runs of those functions, and `Replay.Run` and `LinkReplay.Run` tie the two together. The branches in which
the driver reports that a ring took or gave fewer bytes than asked are kept in the methods as `assert false`: they are
proved unreachable.

## When data is lost

Two loops take a packet off a FIFO before they know that it fits. The receive loop tests only that the read queue is not
full; the drain loop tests only that the caller's buffer is not full. `Draining.Fits` is the exact condition: going
through the packets that wait in full, each fits in what is left, or the room is used up to the last byte by whole packets.
On the receive side every run conserves every accepted byte, in order, if and only if `Fits` held at each read
(`PortRuns.ReceiveConserves`, `HwLink.LinkConserves`). Comparing two sizes before a read is enough to guarantee it
(`PortRuns.SizesSuffice`, `HwLink.LinkSizesSuffice`).

On the transmit side the frame-level step is a third way to lose data. It keeps the byte stream if and only if it refuses,
or finds a flag in front of the queue and a frame that fits the frame buffer (`PortModel.TransferNextConserves`). Every run
conserves every accepted byte, in order, if and only if `Fits` held at each drain and each frame-level step was of that kind
(`PortRuns.TransmitConserves`). `PortLimits` shows, on runs from reset, that all three losses happen, and that after the third
the next packet still comes out whole (`PortLimits.MixingKeepsNext`).

## Where the code and its documentation differ

- `include/hw_test_helpers.h:100-107` says that the frame-level transmit step mirrors one unit of what a poll does. A poll
  moves bytes, not frames; after a poll has cut a frame, the frame-level step drops the rest of it
  (`PortModel.PollThenTransferCorrupts`), and a drain then hands over the packet cut short, or meets an invalid frame
  (`PortLimits.MixingCanTruncate`). The model follows the code.
- `include/xr17v358.h:172-177` says that a read decodes the messages waiting in the FIFO. It decodes them also when
  asked for zero bytes, and loses the end of a message that does not fit (`PortLimits.DecodeCanLose`).

## Model

| member | source | states |
|---|---|---|
| Framing.FrameShape | src/xr17v358.c:355-376 | an encoded packet has between n+2 and 2n+2 bytes, never more than the 2050-byte frame buffer, and no delimiter strictly inside |
| Framing.RoundTrip | src/xr17v358.c:343-436 | decoding the encoding of any packet gives the packet, for any output buffer that holds it |
| Framing.DecodeAcceptsExactlyEncodings | src/xr17v358.c:379-436 | for every frame and output capacity, decoding succeeds with p if and only if the frame is the encoding of p, p has 1 to 1024 bytes, and p fits |
| Framing.DecodeOverrun | src/xr17v358.c:392-426 | the output buffer is blamed if and only if it holds fewer than 1024 bytes and the delimited body starts with one encoded byte more than it holds; every other rejection is an invalid frame |
| Framing.DecodeAccepts | src/xr17v358.c:379-436 | in literal octets: a frame is accepted if and only if it is 7E, a body, 7E, the body has no 7E, each 7D in it is followed by 5E or 5D, and it counts, each pair once, 1 to 1024 payload bytes that fit the buffer |
| Framing.FrameOctets | src/xr17v358.c:343-377 | in literal octets: a frame is 7E, then 7D 5E for each 7E, 7D 5D for each 7D and every other byte as it is, then 7E |
| Framing.EscapePairs | src/xr17v358.c:364-426 | 7E 7D 5E 7E and 7E 7D 5D 7E are the frames of 7E and of 7D, both ways, for every buffer that holds a byte |
| Framing.DecodePartial | src/xr17v358.c:396-431 | a rejected frame leaves the longest decodable front of its body that the buffer and the 1024-byte limit allow |
| Framing.FrameInjective | src/xr17v358.c:343-377 | distinct packets have distinct encodings |
| Codec.MeasureBody | src/xr17v358.c:354-358 | the sizing pass computes the exact number of bytes the writing pass emits between the flags |
| Codec.WriteBody | src/xr17v358.c:364-374 | the writing pass stores the flag and the stuffed payload, in bounds, and nothing behind them |
| Codec.EncodeSerialData | src/xr17v358.c:343-377 | returns the frame's length and the frame, or zero and an untouched buffer exactly when the packet's size or the buffer rules it out |
| Codec.DecodeSerialData | src/xr17v358.c:379-436 | the one-pass decoder computes the specified decoding over the caller's buffer: the status, and in every case, rejections too, the bytes it leaves |
| FrameStream.ReadFrameSplits | src/ring_buffer.c:87-119 | on success the contents were delimiter-free noise, a delimited frame with a delimiter-free body, and the rest that stays |
| FrameStream.ReadFrameFinds | src/ring_buffer.c:87-119 | conversely, any contents of that form with a frame that fits give exactly that frame and that rest |
| FrameStream.ReadFrameFails | src/ring_buffer.c:93-118 | success if and only if two delimiters are there and the first frame fits; a failure uses the contents up, or stops one byte after the buffer is full |
| FrameStream.ScannerAgreesWithReader | src/ring_buffer.c:67-119 | on any contents a complete frame is seen if and only if the reader with enough capacity succeeds |
| FrameStream.FrameCountPositive | src/ring_buffer.c:42-65 | on any contents the frame count is positive if and only if some byte other than a delimiter lies between two delimiters |
| FrameStream.FrameCountIs | src/ring_buffer.c:42-65 | on any contents the frame count is the number of delimiters that follow another delimiter, though not directly |
| FrameStream.FrameCountImpliesComplete | src/ring_buffer.c:42-85 | on any contents a positive frame count implies a complete frame |
| FrameStream.CompleteWithoutCount | src/ring_buffer.c:42-85 | the converse fails exactly on contents with at least two delimiters, all of them adjacent, such as two delimiters alone |
| FrameStream.ScannersOnStream | src/ring_buffer.c:42-119 | on encoded packets followed by part of a frame, the frame count is the number of reads that will succeed, and a complete frame is seen if and only if there is a packet |
| FrameStream.ParseStream | src/xr17v358.c:97-110 | scanning, reading and decoding over and over recovers exactly the packets of a stream, in order, and leaves exactly the tail |
| FrameStream.UniquelyDecodable | src/xr17v358.c:97-110 | two streams are equal only if they carry the same packets and the same tail |
| FrameStream.CutStream | src/xr17v358.c:44-74 | a stream of packets cut anywhere has whole packets and a partial frame on the left |
| Draining.DecodeStream | src/xr17v358.c:89-119 | what the receive loop does to every stream and every queue: which packets go, what the queue holds, and success if and only if no packet straddles the end of the queue |
| Draining.DecodeNeverOverflows | src/xr17v358.c:89-119 | if the encoded bytes waiting do not exceed the free space, the loop succeeds, appends every complete packet in order and leaves only the partial tail |
| Draining.FitsMeansWholePackets | src/xr17v358.c:97-115 | the loss condition in terms of sizes, both ways |
| Draining.DrainStream | src/hw_test_helpers.c:149-171 | what the drain loop does to every stream and every buffer: which packets go, which bytes are handed over, and refusal if and only if a packet does not fit |
| Draining.DecodeAny | src/xr17v358.c:89-119 | on any contents, well-formed or not: which packets the receive loop appends, clipped to the room, the exact condition for success, and what stays in the FIFO: everything behind the last packet taken, or behind the invalid frame it met |
| Draining.DrainAny | src/hw_test_helpers.c:149-171 | on any contents: refusal for room exactly when a packet straddles the end of the buffer, an invalid frame exactly when all packets in front of one leave room; in every case which packets have been copied, and that everything behind the last packet taken, or behind the invalid frame, stays in the FIFO |
| Draining.ParseLeaves | src/xr17v358.c:97-110 | where parsing stops is right behind the last packet it found |
| Draining.DecodeGoesOn | src/xr17v358.c:97-98 | on any contents whatever, the receive loop ends with success only when no frame is complete or the queue is full |
| Draining.DrainGoesOn | src/hw_test_helpers.c:149-152 | on any contents, the drain loop ends with success only when no frame is complete or the buffer is full |
| Draining.BrokenIsInvalid | src/xr17v358.c:99-110 | with the driver's buffers a frame that is not a packet is always reported as invalid, never for want of room |
| Weighing.ParseWeight | src/xr17v358.c:97-110 | what can be read and decoded out of any contents has no more bytes than the contents have bytes other than flags and escapes |
| Weighing.DrainWeight | src/hw_test_helpers.c:149-171 | on any contents a drain hands over no more bytes than the FIFO loses of them |
| Weighing.TransferWeight | src/ring_buffer.c:121-139 | a frame-level transfer makes none, and loses those of the noise it skips |
| FrameTransfer.TransferStream | src/ring_buffer.c:147-170 | from an aligned source into complete packets: no error, and exactly the movable leading packets move, whole and in order |
| FrameTransfer.MovableIsMaximal | src/ring_buffer.c:141-166 | they are the longest run of leading packets for which both guards held each time |
| FrameTransfer.TransferFrameMoves | src/ring_buffer.c:121-139 | on any contents that hold a frame: moved whole with the noise in front dropped, given up one byte behind 2050 if longer, or cut at the end of the destination |
| FrameTransfer.TransferFrameFindsNone | src/ring_buffer.c:121-139 | on contents that hold none: an invalid frame, the destination unchanged, and what is used up of the source |
| FrameTransfer.TransferFramesIs | src/ring_buffer.c:147-170 | on any two rings: the loop transfers as long as both guards hold, ends with success and the count when one does not, and otherwise with the first transfer that fails |
| FrameTransfer.TransferKeepsCount | src/ring_buffer.c:121-170 | a whole-frame transfer conserves the number of frames and the byte stream |
| Ring.SlotsPush | src/ring_buffer.c:18-23 | storing at the tail appends, across the wrap-around |
| Ring.SlotsPop | src/ring_buffer.c:32-37 | advancing the head removes the oldest byte, across the wrap-around |
| Ring.RingBuffer.Reset | src/ring_buffer.c:7-12 | an empty ring of the given capacity |
| Ring.RingBuffer.WriteBytes | src/ring_buffer.c:14-26 | appends the longest prefix that fits and says how long it is |
| Ring.RingBuffer.ReadBytes | src/ring_buffer.c:28-40 | removes the longest available prefix into the buffer and leaves the rest of the buffer alone |
| Ring.RingBuffer.CountFrames | src/ring_buffer.c:42-65 | the counting scan computes the specified frame count of the contents |
| Ring.RingBuffer.FindCompleteFrame | src/ring_buffer.c:67-85 | true if and only if two delimiters are buffered |
| Ring.RingBuffer.ReadFrame | src/ring_buffer.c:87-119 | status, frame and remaining contents are those of the specified frame reader; a failed read leaves the specified bytes in the frame buffer, and the rest of that buffer as it was |
| Ring.RingBuffer.CanAcceptFrame | src/ring_buffer.c:141-145 | the frame-count and byte guards on the contents |
| Ring.TransferOneFrame | src/ring_buffer.c:121-139 | moves one frame as specified, including the short write |
| Ring.TransferAllFrames | src/ring_buffer.c:147-170 | terminates for any two rings and does what the specified transfer does |
| PortModel.PollKeepsStreams | src/xr17v358.c:44-87 | a poll changes neither direction's byte stream and moves exactly the least of source, 256 and room |
| PortModel.TransferNextConserves | src/hw_test_helpers.c:100-120 | from any state the frame-level step keeps the transmit byte stream if and only if it refuses, or the queue starts at a flag and its first frame fits the frame buffer |
| PortModel.TransferNextMoves | src/hw_test_helpers.c:100-120 | on any queue that holds a frame: refusal exactly at a zero count, 256 frames in the FIFO or less than 2050 bytes of room; else the frame is given up if longer than 2050 bytes, or moved |
| PortModel.TransferNextWaits | src/hw_test_helpers.c:109-111 | on any queue without a complete frame it refuses and changes nothing |
| PortModel.PollThenTransferCorrupts | src/hw_test_helpers.c:100-120 | after a poll that cut the first of two packets, the frame-level step drops the rest of it: FIFO and queue are then a cut-short frame followed by the intact second frame, of which the queue lacks the opening flag |
| PortRuns.ReceiveConserves | src/xr17v358.c:76-136 | over every run of all six calls from reset, the bytes read, the bytes decoded and the packets still encoded are exactly the packets accepted, in order, if and only if every read had room |
| PortRuns.ReceiveStaysAligned | src/xr17v358.c:76-136 | even after a loss the encoded bytes are whole packets, the last ones accepted |
| PortRuns.ReceiveDeliversInOrder | src/xr17v358.c:89-136 | the caller has read a prefix of what was accepted, and all of it once the rings are empty |
| PortRuns.ChunkingIsInvisible | src/xr17v358.c:44-136 | two runs that accepted the same packets read the same bytes, however polls and reads cut them |
| PortRuns.SizesSuffice | src/xr17v358.c:97-115 | comparing two ring sizes before every read makes a run lossless |
| PortRuns.TransmitConserves | src/hw_test_helpers.c:130-175 | over every run of all six calls from reset, the bytes drained and the packets still encoded are exactly the packets accepted, in order, if and only if every drain had room and every frame-level step refused or found a whole frame in front |
| PortRuns.DrainsHandOverPackets | src/hw_test_helpers.c:149-174 | over every run the bytes handed over are those of the packets the successful drains took out of the FIFO |
| PortRuns.TransmitDrainsWholePackets | src/hw_test_helpers.c:149-174 | over every aligned run, refused drains included, those are among the first packets accepted, in order, none twice and none in part, and all of the first ones if every drain had room |
| PortRuns.TransferNextAligned | src/hw_test_helpers.c:100-120 | with whole packets queued, the frame-level step moves the first one whole if and only if there is one, the FIFO counts fewer than 256 frames and has room for 2050 bytes; otherwise it refuses and changes nothing |
| PortRuns.UnmixedIsAligned | src/hw_test_helpers.c:100-120 | runs that use only one of poll and frame-level step are aligned |
| PortRuns.RxScannersInRuns | src/hw_test_helpers.c:24-31 | in every reachable state the reported level of the receive FIFO is the number of packets that can be read from it |
| PortRuns.TxScannersInRuns | src/hw_test_helpers.c:33-40 | in every state an aligned run reaches the reported level of the transmit FIFO is the number of packets that can be read from it |
| PortRuns.QueueReadReports | src/hw_test_helpers.c:130-175 | in every reachable state a drain refuses for room exactly when a packet straddles the buffer, reports an invalid frame exactly when one is met with room left, and else hands over whole packets and stops only when it must; in states an aligned run reaches it never meets an invalid frame |
| PortRuns.ReadReports | src/xr17v358.c:121-136 | what a read reports in every reachable state; with a complete frame and room a positive read returns at least one byte and stops only when it must, and with only part of a frame it refuses and changes nothing |
| PortCalls.WriteAccepted | src/xr17v358.c:478-515 | after any run a packet written is accepted if and only if it has 1 to 1024 bytes and its encoding and what is queued come to at most 524800; accepted it is queued behind the rest, else nothing changes |
| PortCalls.ReceiveAccepted | src/hw_test_helpers.c:42-82 | the same for a packet received and what is pending |
| PortCalls.BurstAccepted | src/xr17v358.c:495-514 | after any run that leaves the queue empty, any 256 packets written in a row are all accepted and queued in order |
| PortCalls.ReadinessInRuns | src/xr17v358.c:630-654 | in every reachable state readiness is reported if and only if a whole packet can be read out of the receive FIFO |
| PortCalls.ReadinessMeansRead | src/xr17v358.c:121-136 | in every reachable state: ready with room means that a read of positive length returns bytes; not ready, with nothing decoded and part of a frame, that it refuses and changes nothing |
| PortCalls.ReadinessLasts | src/xr17v358.c:649-653 | once ready, a port stays ready until the next read |
| PortCalls.CallsTouch | src/xr17v358.c:44-136 | which rings each call changes and how: only polls fill the receive FIFO, only polls and frame-level steps the transmit FIFO, at the end; reads and drains take off the front |
| PortCalls.QueueReadLeaves | src/hw_test_helpers.c:130-175 | all a drain does on any contents of the FIFO: status, bytes, and what stays |
| PortCalls.ReadLeaves | src/xr17v358.c:89-136 | all a read does on any contents of FIFO and queue: status, the bytes decoded and how many are returned, and what stays |
| PortCalls.StepsInRuns | src/hw_test_helpers.c:100-120 | after any run without polls, k frame-level steps move exactly the first packets of the queue: k, or all, or as many as bring the FIFO to 256 frames |
| PortCalls.WritesThenSteps | src/hw_test_helpers.c:100-120 | from reset, up to 256 writes and then k steps leave exactly the first k packets in the FIFO, or all |
| PortTiming.Progress | src/xr17v358.c:44-87 | in each direction, after k polls exactly the first 256k waiting bytes have reached the FIFO, or as many as it had room for |
| PortTiming.ReadyAtPoll | src/xr17v358.c:630-654 | a packet received into empty rings is ready from poll ceil(length/256) on and not before; at most nine polls |
| PortLimits.DecodeCanLose | src/xr17v358.c:97-115 | a run from reset in which the receive loop's guard lets accepted bytes be lost |
| PortLimits.DrainCanLose | src/hw_test_helpers.c:165-167 | a run from reset in which a short drain loses the packet it refuses, for every small packet and every shorter buffer |
| PortLimits.MixingCanLose | src/hw_test_helpers.c:100-120 | a run of two writes, a poll and a frame-level step in which accepted bytes are lost, for every packet longer than one poll moves |
| PortLimits.MixingCanTruncate | src/hw_test_helpers.c:149-171 | a drain after that run hands over the first packet cut short, as a success, or meets an invalid frame, exactly when the poll cut an escape pair |
| PortLimits.MixingKeepsNext | src/hw_test_helpers.c:149-174 | after that drain, valid or not, the next poll and drain hand over the second packet whole |
| Mmio.PackKeepsBytes | src/xr17v358.c:564-566 | every byte of a packed word is in its place, the first one lowest |
| Mmio.WriteTxFifo | src/xr17v358.c:534-576 | for every length and port, word and byte stores leave exactly the first min(length, 256) bytes in the window and all other memory as it was |
| Mmio.WindowHolds | src/xr17v358.c:558-572 | so the window holds the bytes and no other port's window changes |
| Mmio.WindowAddresses | src/xr17v358.c:558-559 | the window of port p starts at 0x400 p + 0x100: a write to it changes exactly the addresses from there on, and loads come from there |
| Mmio.ReadRxFifo | src/xr17v358.c:578-628 | returns the first min(length, level) window bytes in order and leaves the rest of the buffer alone |
| RingIo.TransferRingBytes | src/xr17v358.c:44-74 | moves the least of source, limit and room in order; both defensive errors are unreachable |
| RingIo.EnqueuePacket | src/xr17v358.c:495-514 | accepts a packet whole if and only if its size is legal and its encoding fits, else changes nothing; never an error |
| RingIo.DecodeFifoIntoQueue | src/xr17v358.c:89-119 | the receive loop on rings does what the specified loop does |
| RingIo.DrainFifo | src/hw_test_helpers.c:149-174 | the drain loop on a ring and a buffer does what the specified loop does |
| RingIo.FlushToWindow | src/xr17v358.c:178-217 | takes exactly min(queued, level) bytes off the queue and leaves them in the window, in order |
| RingIo.StageFromWindow | src/xr17v358.c:138-176 | appends exactly the window bytes both level readings and the room allow |
| Port.UartPort.Write | src/xr17v358.c:478-515 | all or nothing, other rings untouched |
| Port.UartPort.Receive | src/hw_test_helpers.c:42-82 | all or nothing, other rings untouched |
| Port.UartPort.Poll | src/xr17v358.c:630-654 | both transfers, and readiness exactly when a complete frame is in the receive FIFO |
| Port.UartPort.Read | src/xr17v358.c:121-136 | decodes, then hands over the front of the read queue, or reports the specified error |
| Port.UartPort.QueueRead | src/hw_test_helpers.c:130-175 | the specified drain of the transmit FIFO; whether it succeeds or not, the buffer holds the packets copied so far and is otherwise unchanged |
| Port.UartPort.TransferNextTxFrame | src/hw_test_helpers.c:100-120 | the specified frame-level step |
| Port.UartPort.WriteHw | src/xr17v358.c:656-700 | all or nothing; an accepted packet is followed by a flush, a refused one by nothing |
| Port.UartPort.PollHw | src/xr17v358.c:726-755 | flush, then stage, then readiness |
| Port.UartPort.ReadHw | src/xr17v358.c:702-724 | stage, then read |
| HwModel.WriteHwEmits | src/xr17v358.c:680-699 | an accepted packet goes behind what was queued, and as much of it all as the level allows goes to the window at once; a refused one emits nothing |
| HwModel.PollHwMoves | src/xr17v358.c:726-755 | a poll emits as much as the level allows and stages as much as both readings and the room allow, losing and reordering nothing |
| HwModel.PollsEmitInOrder | src/xr17v358.c:178-217 | over any polls, what was emitted and what is queued is the queue as it was |
| HwModel.PollsEmptyQueue | src/xr17v358.c:726-755 | if the level is never below m, ceil(size/m) polls emit the whole queue in order |
| HwLink.LinkConserves | src/xr17v358.c:656-755 | over every run of both ports of a link and every device behaviour, bytes delivered, decoded, buffered, on the line and queued are exactly the packets accepted at the other side, in order, if and only if every read on the receiving side had room |
| HwLink.LinkSizesSuffice | src/xr17v358.c:97-176 | comparing the receive FIFO, the read queue and the largest level with the capacity before every read of the receiving side makes a run lossless, whatever the device reports |
| HwLink.LinkDeliversInOrder | src/xr17v358.c:656-755 | what one side reads is a prefix of what the other side wrote, and all of it once nothing is left between |
| HwLink.LinkStaysAligned | src/xr17v358.c:138-217 | even after a loss the bytes between the two sides are whole packets, the last ones accepted |
| HwLink.ReadHwReports | src/xr17v358.c:702-724 | what a hardware read reports in every reachable state of the link |
| LinkCalls.WriteHwAccepted | src/xr17v358.c:656-700 | after any run of a link a packet is accepted if and only if it has 1 to 1024 bytes and its encoding and what is queued come to at most 524800; then as much of it all as the level allows is on the line at once, else nothing changes |
| LinkCalls.ReadinessOnLink | src/xr17v358.c:702-755 | in every reachable state of a link: ready if and only if a whole packet is in the receive FIFO; staging keeps readiness; ready with room means bytes, not ready with part of a frame a refusal |
| HwProgress.LinkCatchesUp | src/xr17v358.c:702-755 | in either direction, from every lossless reachable state with room: enough polls of a sender whose device has room for `level` bytes, enough polls of a receiver whose device reports `level` bytes or all that have arrived, and one read deliver everything accepted |
| HwProgress.HonestDeviceStages | src/xr17v358.c:138-176 | a device whose level register says at each reading how many bytes have arrived, up to 255, always reports enough for that |
| Replay.Run | src/xr17v358.c:478-532 | making any sequence of the six modelled calls on a real port gives the state and the bytes the runs of `PortRuns` speak about |
| LinkReplay.Run | src/xr17v358.c:656-755 | making any sequence of device calls on two real ports, each storing to and loading from its window, gives the states and the bytes the runs of `HwLink` speak about |

## Left out

- Null-pointer and invalid-port checks: preconditions and types; each port is an object of its own.
- Level registers and window contents: arguments chosen by the device at each access; the receive side of a window is a value and its transmit side an array, because the device decodes loads and stores to the same address differently.
- The clamp of a level to 256: a level is one byte, so it never acts.
- Mixing the modelled and the hardware path on one port, raw injection of frame bytes, and ring states corrupted from outside.
- Device timing, interrupts, the discrete output, loopback, port configuration and address getters: single-branch facts.
- Lazy initialisation and the clearing of storage: the model starts from the reset state.
- src/hw_abstraction.c and src/ghs_interface.c: forwarding and platform calls.
