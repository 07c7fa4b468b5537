/**
  One port as a value: the contents of its five rings, and what each call makes of them.
  The class in Port.dfy is proved to do exactly this; the theorems about runs are proved here and in PortRuns.dfy.
 */
module PortModel {
  import opened Uart
  import opened Framing
  import opened FrameStream
  import opened Draining
  import opened FrameTransfer

  datatype PortState = PortState(
    txQueue: seq<uint8>,
    txFifo: seq<uint8>,
    rxPending: seq<uint8>,
    rxFifo: seq<uint8>,
    rxQueue: seq<uint8>)
  {
    ghost predicate WithinCapacity() {
      && |txQueue| <= RING_STORAGE_CAPACITY
      && |txFifo| <= RING_STORAGE_CAPACITY
      && |rxPending| <= RING_STORAGE_CAPACITY
      && |rxFifo| <= RING_STORAGE_CAPACITY
      && |rxQueue| <= RING_STORAGE_CAPACITY
    }
  }

  const RESET_STATE := PortState([], [], [], [], [])

  // ------------------------------------------------------------ accepting a packet

  /** A packet is taken whole or not at all. */
  predicate Accepts(ring: seq<uint8>, data: seq<uint8>) {
    IsPayload(data) && |ring| + |Frame(data)| <= RING_STORAGE_CAPACITY
  }

  function Enqueue(ring: seq<uint8>, data: seq<uint8>): seq<uint8> {
    if Accepts(ring, data) then ring + Frame(data) else ring
  }

  function Write(s: PortState, data: seq<uint8>): PortState {
    s.(txQueue := Enqueue(s.txQueue, data))
  }

  function Receive(s: PortState, data: seq<uint8>): PortState {
    s.(rxPending := Enqueue(s.rxPending, data))
  }

  // ------------------------------------------------------------ polling

  /** How many bytes go from one ring to the front of another with the given capacity. */
  function MoveCount(source: seq<uint8>, destination: seq<uint8>, capacity: nat, maxBytes: nat): (n: nat)
    requires |destination| <= capacity
    ensures n <= |source| && n <= maxBytes && |destination| + n <= capacity
    ensures n == |source| || n == maxBytes || |destination| + n == capacity
  {
    Min(Min(|source|, maxBytes), capacity - |destination|)
  }

  function Poll(s: PortState): (r: PortState)
    requires s.WithinCapacity()
    ensures r.WithinCapacity()
  {
    var tx := MoveCount(s.txQueue, s.txFifo, RING_STORAGE_CAPACITY, FIFO_CAPACITY);
    var rx := MoveCount(s.rxPending, s.rxFifo, RING_STORAGE_CAPACITY, FIFO_CAPACITY);
    PortState(s.txQueue[tx..], s.txFifo + s.txQueue[..tx],
              s.rxPending[rx..], s.rxFifo + s.rxPending[..rx],
              s.rxQueue)
  }

  ghost function Readiness(s: PortState): Status {
    if HasCompleteFrame(s.rxFifo) then MessageReady else Ok
  }

  /** Polling moves bytes along each direction and changes neither direction's stream. */
  lemma PollKeepsStreams(s: PortState)
    requires s.WithinCapacity()
    ensures var r := Poll(s);
      && r.txFifo + r.txQueue == s.txFifo + s.txQueue
      && r.rxFifo + r.rxPending == s.rxFifo + s.rxPending
      && r.rxQueue == s.rxQueue
      && |r.txFifo| - |s.txFifo| == MoveCount(s.txQueue, s.txFifo, RING_STORAGE_CAPACITY, FIFO_CAPACITY)
      && |r.rxFifo| - |s.rxFifo| == MoveCount(s.rxPending, s.rxFifo, RING_STORAGE_CAPACITY, FIFO_CAPACITY)
  {
  }

  // ------------------------------------------------------------ reading

  /** The state a read leaves, its status, and the bytes it returns. */
  datatype ReadResult = ReadResult(state: PortState, status: Status, bytes: seq<uint8>)

  function Read(s: PortState, length: nat): ReadResult {
    var d := DecodeIntoQueue(s.rxFifo, s.rxQueue, RING_STORAGE_CAPACITY);
    var decoded := s.(rxFifo := d.fifo, rxQueue := d.target);
    if d.status != Ok then
      ReadResult(decoded, d.status, [])
    else if d.target == [] && d.fifo != [] then
      ReadResult(decoded, InvalidFrame, [])
    else
      var n := Min(length, |d.target|);
      ReadResult(decoded.(rxQueue := d.target[n..]), Ok, d.target[..n])
  }

  /** No packet waiting in full would straddle the end of the read queue. */
  predicate RoomToDecode(s: PortState)
    requires |s.rxQueue| <= RING_STORAGE_CAPACITY
  {
    Fits(Payloads(s.rxFifo), RING_STORAGE_CAPACITY - |s.rxQueue|)
  }

  /** Reading from the transmit FIFO, the way tests look at what would go out. */
  function QueueRead(s: PortState, length: nat): ReadResult {
    var d := DrainPackets(s.txFifo, [], length);
    ReadResult(s.(txFifo := d.fifo), d.status, if d.status == Ok then d.target else [])
  }

  /** The frame-level step finds nothing to move, or no room for the largest frame. */
  predicate RefusesTransfer(s: PortState) {
    FrameCount(s.txQueue) == 0 || !CanAcceptFrame(s.txFifo, RING_STORAGE_CAPACITY, FIFO_CAPACITY)
  }

  /** Moving one whole frame from the transmit queue to the transmit FIFO. */
  function TransferNext(s: PortState): (r: (PortState, Status))
    requires s.WithinCapacity()
  {
    if RefusesTransfer(s) then
      (s, InvalidFrame)
    else
      var t := TransferFrame(s.txQueue, s.txFifo, RING_STORAGE_CAPACITY);
      (s.(txQueue := t.source, txFifo := t.destination), t.status)
  }

  /** The step refuses, or the queue starts at a flag whose frame fits the frame buffer. */
  predicate TransferKeeps(s: PortState) {
    RefusesTransfer(s) || (s.txQueue[0] == FRAME_DELIMITER && SecondDelimiter(s.txQueue) < MAX_ENCODED_BYTE_COUNT)
  }

  /**
    What the frame-level step does to any queue that holds a frame: it refuses, gives up a frame that is too long, or
    moves the frame and drops the noise in front of it.
   */
  lemma TransferNextMoves(s: PortState, skip: seq<uint8>, body: seq<uint8>, rest: seq<uint8>)
    requires s.WithinCapacity() && FRAME_DELIMITER !in skip && FRAME_DELIMITER !in body
    requires s.txQueue == skip + ([FRAME_DELIMITER] + body + [FRAME_DELIMITER]) + rest
    ensures var frame := [FRAME_DELIMITER] + body + [FRAME_DELIMITER];
      TransferNext(s) ==
        if FrameCount(s.txQueue) == 0 || FrameCount(s.txFifo) >= 256 || |s.txFifo| + 2050 > 524800 then
          (s, InvalidFrame)
        else if |frame| > 2050 then
          (s.(txQueue := (frame + rest)[2051..]), InvalidFrame)
        else
          (s.(txQueue := rest, txFifo := s.txFifo + frame), Ok)
  {
    hide FrameCount, TransferFrame;
    TransferFrameMoves(skip, body, rest, s.txFifo, RING_STORAGE_CAPACITY);
  }

  /** Without a complete frame in the queue it always refuses. */
  lemma TransferNextWaits(s: PortState)
    requires s.WithinCapacity() && !HasCompleteFrame(s.txQueue)
    ensures TransferNext(s) == (s, InvalidFrame)
  {
    FrameCountImpliesComplete(s.txQueue);
  }

  /** From any state, the frame-level step keeps the transmit byte stream exactly then. */
  lemma TransferNextConserves(s: PortState)
    requires s.WithinCapacity()
    ensures var r := TransferNext(s).0;
      r.txFifo + r.txQueue == s.txFifo + s.txQueue <==> TransferKeeps(s)
  {
    hide CountFrames, FirstDelimiter;
    if !RefusesTransfer(s) {
      var r := ReadFrame(s.txQueue, MAX_ENCODED_BYTE_COUNT);
      FrameCountImpliesComplete(s.txQueue);
      HasCompleteFrameIff(s.txQueue);
      FirstIsFlag(s.txQueue);
      if TransferKeeps(s) {
        assert s.txQueue == r.frame + r.rest;
        Associate(s.txFifo, r.frame, r.rest);
      } else {
        var t := TransferFrame(s.txQueue, s.txFifo, RING_STORAGE_CAPACITY);
        assert |t.destination| + |t.source| < |s.txFifo| + |s.txQueue|;
        assert |t.destination + t.source| != |s.txFifo + s.txQueue|;
      }
    }
  }

  /**
    Mixing the byte-level poll with the frame-level step is not safe: once a poll has cut a frame at 256 bytes,
    the next step drops the rest of that frame, closes what was sent of it, and takes the opening flag off the next packet.
    The bytes are then a cut-short frame followed by the next packet, which is left in two pieces.
   */
  lemma PollThenTransferCorrupts(p: seq<uint8>, q: seq<uint8>)
    requires IsPayload(p) && IsPayload(q) && |Frame(p)| > FIFO_CAPACITY + 1
    ensures var s := Poll(Write(Write(RESET_STATE, p), q));
      var (r, status) := TransferNext(s);
      && s.txFifo + s.txQueue == Frame(p) + Frame(q)
      && status == Ok
      && r.txFifo == Frame(p)[..FIFO_CAPACITY] + [FRAME_DELIMITER, FRAME_DELIMITER]
      && r.txQueue == Stuff(q) + [FRAME_DELIMITER]
      && r.txFifo + r.txQueue == Frame(p)[..FIFO_CAPACITY] + [FRAME_DELIMITER] + Frame(q)
  {
    var s := Poll(Write(Write(RESET_STATE, p), q));
    PollCuts(p, q);
    FramePrefixIsPartial(p, FIFO_CAPACITY);
    TransferSkipsCut(s, Stuff(p)[FIFO_CAPACITY - 1..], q);
    FlagsMeet(Frame(p)[..FIFO_CAPACITY], q);
  }

  lemma FlagsMeet(sent: seq<uint8>, q: seq<uint8>)
    ensures sent + [FRAME_DELIMITER, FRAME_DELIMITER] + (Stuff(q) + [FRAME_DELIMITER]) == sent + [FRAME_DELIMITER] + Frame(q)
  {
    assert [FRAME_DELIMITER, FRAME_DELIMITER] + (Stuff(q) + [FRAME_DELIMITER]) == [FRAME_DELIMITER] + Frame(q);
    Associate(sent, [FRAME_DELIMITER, FRAME_DELIMITER], Stuff(q) + [FRAME_DELIMITER]);
    Associate(sent, [FRAME_DELIMITER], Frame(q));
  }

  lemma PollCuts(p: seq<uint8>, q: seq<uint8>)
    requires IsPayload(p) && IsPayload(q) && |Frame(p)| > FIFO_CAPACITY + 1
    ensures var s := Poll(Write(Write(RESET_STATE, p), q));
      && s.txFifo + s.txQueue == Frame(p) + Frame(q)
      && s.txFifo == Frame(p)[..FIFO_CAPACITY]
      && s.txQueue == Stuff(p)[FIFO_CAPACITY - 1..] + [FRAME_DELIMITER] + Frame(q)
  {
    hide Stuff;
    var written := Write(Write(RESET_STATE, p), q);
    assert [] + Frame(p) == Frame(p);
    assert written.txQueue == Frame(p) + Frame(q);
    CutFrame(p, FIFO_CAPACITY, Frame(q));
    Rejoin([], written.txQueue, FIFO_CAPACITY);
    assert [] + Frame(p)[..FIFO_CAPACITY] == Frame(p)[..FIFO_CAPACITY];
  }

  lemma TransferSkipsCut(s: PortState, cut: seq<uint8>, q: seq<uint8>)
    requires s.WithinCapacity() && IsPayload(q) && FRAME_DELIMITER !in cut
    requires IsPartial(s.txFifo) && |s.txFifo| <= FIFO_CAPACITY
    requires s.txQueue == cut + [FRAME_DELIMITER] + Frame(q)
    ensures var flags := [FRAME_DELIMITER, FRAME_DELIMITER];
      TransferNext(s) == (s.(txFifo := s.txFifo + flags, txQueue := Stuff(q) + [FRAME_DELIMITER]), Ok)
  {
    SplitFrameCounts(cut, q);
    PartialHasNoFrame(s.txFifo);
    FrameCountImpliesComplete(s.txFifo);
    CutFrameTransfers(s.txFifo, cut, q);
  }

  lemma CutFrameTransfers(fifo: seq<uint8>, cut: seq<uint8>, q: seq<uint8>)
    requires FRAME_DELIMITER !in cut && |fifo| + 2 <= RING_STORAGE_CAPACITY
    ensures TransferFrame(cut + [FRAME_DELIMITER] + Frame(q), fifo, RING_STORAGE_CAPACITY)
         == Transfer(Ok, Stuff(q) + [FRAME_DELIMITER], fifo + [FRAME_DELIMITER, FRAME_DELIMITER], 1)
  {
    var rest := Stuff(q) + [FRAME_DELIMITER];
    var flags := [FRAME_DELIMITER] + [] + [FRAME_DELIMITER];
    assert flags == [FRAME_DELIMITER, FRAME_DELIMITER];
    assert cut + [FRAME_DELIMITER] + Frame(q) == cut + flags + rest;
    ReadFrameFinds(cut, [], rest, MAX_ENCODED_BYTE_COUNT);
  }

  lemma {:induction false} SplitFrameCounts(cut: seq<uint8>, q: seq<uint8>)
    requires FRAME_DELIMITER !in cut && IsPayload(q)
    ensures FrameCount(cut + [FRAME_DELIMITER] + Frame(q)) == 1
  {
    var s := cut + [FRAME_DELIMITER] + Frame(q);
    if cut == [] {
      assert s[1..] == Frame(q) + [];
      CountFrame(q, [], true);
    } else {
      assert cut[0] in cut;
      assert s[1..] == cut[1..] + [FRAME_DELIMITER] + Frame(q);
      SplitFrameCounts(cut[1..], q);
    }
  }
}
