/**
  The three ways the driver loses data, each on a run from reset: a read that finds the read queue almost full, a drain
  into a buffer shorter than the next packet, and a frame-level step after a poll has cut a frame.
 */
module PortLimits {
  import opened Uart
  import opened Framing
  import opened FrameStream
  import opened Draining
  import opened Ledger
  import opened PortModel
  import opened PortRuns
  import opened PortCalls
  import opened PortTiming
  import opened Weighing

  /** The run `es` followed by n polls. */
  function ThenPolls(es: seq<Event>, n: nat): seq<Event> {
    if n == 0 then es else ThenPolls(es, n - 1) + [Polls]
  }

  lemma {:induction false} AfterPolls(es: seq<Event>, n: nat)
    ensures After(ThenPolls(es, n)).port == PollTimes(After(es).port, n)
  {
    hide Read, QueueRead, TransferNext, Write, Receive, Poll;
    if n > 0 {
      AfterPolls(es, n - 1);
      AfterOne(ThenPolls(es, n - 1), Polls);
    }
  }

  /** One packet received and polled into the receive FIFO in full. */
  function Arrival(es: seq<Event>, p: seq<uint8>): seq<Event> {
    ThenPolls(es + [Receives(p)], 9)
  }

  lemma AfterArrival(es: seq<Event>, p: seq<uint8>)
    requires IsPayload(p) && After(es).port.rxFifo == [] && After(es).port.rxPending == []
    ensures var s := After(Arrival(es, p)).port;
      s.rxFifo == Frame(p) && s.rxPending == [] && s.rxQueue == After(es).port.rxQueue
  {
    hide PollTimes, Frame;
    AfterOne(es, Receives(p));
    AfterPolls(es + [Receives(p)], 9);
    assert [] + Frame(p) == Frame(p);
    PolledIn(After(es + [Receives(p)]).port, p);
  }

  lemma PolledIn(s: PortState, p: seq<uint8>)
    requires s.WithinCapacity() && IsPayload(p) && s.rxFifo == [] && s.rxPending == Frame(p)
    ensures var r := PollTimes(s, 9);
      r.rxFifo == Frame(p) && r.rxPending == [] && r.rxQueue == s.rxQueue
  {
    hide PollTimes;
    Progress(s, 9);
    LoadsIs(9);
    assert Frame(p)[..|Frame(p)|] == Frame(p);
    assert [] + Frame(p) == Frame(p);
    PollsKeepReadQueue(s, 9);
  }

  lemma {:induction false} PollsKeepReadQueue(s: PortState, n: nat)
    requires s.WithinCapacity()
    ensures PollTimes(s, n).rxQueue == s.rxQueue
  {
    if n > 0 {
      PollsKeepReadQueue(s, n - 1);
    }
  }

  /** k packets received, polled in, and decoded by a read of length zero each. */
  function Filling(p: seq<uint8>, k: nat): seq<Event> {
    if k == 0 then [] else Arrival(Filling(p, k - 1), p) + [Reads(0)]
  }

  lemma DecodeOne(p: seq<uint8>, queue: seq<uint8>, capacity: nat)
    requires IsPayload(p) && |queue| <= capacity
    ensures Payloads(Frame(p)) == [p]
    ensures |queue| + |p| <= capacity ==> DecodeIntoQueue(Frame(p), queue, capacity) == Drained(Ok, [], queue + p)
  {
    One(p);
    StreamOf(Frame(p), [p]);
    if |queue| + |p| <= capacity {
      hide Parse, Frame;
      EnoughRoom([p], capacity - |queue|);
      assert !HasCompleteFrame([]);
      DecodeStream([p], [], queue, capacity);
      assert Concat([p]) + [] == Frame(p);
      assert [p][..1] == [p];
      assert Concat([p][1..]) + [] == [];
    }
  }

  lemma {:induction false} FillingFills(p: seq<uint8>, k: nat)
    requires |p| == QUEUE_CAPACITY && k <= 512
    ensures var s := After(Filling(p, k)).port;
      s.rxFifo == [] && s.rxPending == [] && |s.rxQueue| == 1024 * k
  {
    hide Frame, Parse, DecodeIntoQueue, Arrival, Fits;
    if k > 0 {
      FillingFills(p, k - 1);
      AfterArrival(Filling(p, k - 1), p);
      var arrived := Arrival(Filling(p, k - 1), p);
      AfterOne(arrived, Reads(0));
      DecodeOne(p, After(arrived).port.rxQueue, RING_STORAGE_CAPACITY);
    }
  }

  /**
    The decode loop's guard lets it lose bytes: after 512 packets of 1024 bytes have been decoded and not read,
    one more is cut in half and reported as an invalid frame.
   */
  lemma DecodeCanLose(p: seq<uint8>)
    requires |p| == QUEUE_CAPACITY
    ensures var es := Arrival(Filling(p, 512), p) + [Reads(0)];
      && !RoomAtReads(es)
      && !Conserved(After(es).received, After(es).delivered + After(es).port.rxQueue, RxOnWay(After(es)))
  {
    hide Frame, Parse, DecodeIntoQueue, Arrival, Filling, Conserved, Step;
    FillingFills(p, 512);
    var before := Arrival(Filling(p, 512), p);
    AfterArrival(Filling(p, 512), p);
    DecodeOne(p, After(before).port.rxQueue, RING_STORAGE_CAPACITY);
    var es := before + [Reads(0)];
    assert es[..|es| - 1] == before;
    assert !Fits([p], 512);
    ReceiveConserves(es);
  }

  lemma AfterWriteAndPoll(p: seq<uint8>)
    requires IsPayload(p) && |Frame(p)| <= FIFO_CAPACITY
    ensures After([Writes(p), Polls]).port.txFifo == Frame(p)
  {
    assert [] + [Writes(p)] == [Writes(p)] && [Writes(p)] + [Polls] == [Writes(p), Polls];
    AfterOne([], Writes(p));
    AfterOne([Writes(p)], Polls);
    assert [] + Frame(p) == Frame(p);
    assert Frame(p)[..|Frame(p)|] == Frame(p);
  }

  /** A drain into fewer bytes than the packet it finds refuses the packet, and the packet is gone. */
  lemma DrainCanLose(p: seq<uint8>, length: nat)
    requires IsPayload(p) && |Frame(p)| <= FIFO_CAPACITY && 0 < length < |p|
    ensures var before := [Writes(p), Polls];
      var es := before + [QueueReads(length)];
      && QueueRead(After(before).port, length).status == InvalidArgument
      && AlignedTransfers(es) && !RoomAtDrains(es)
      && !Conserved(After(es).sent, After(es).drained, TxOnWay(After(es)))
  {
    hide Parse, Frame, DrainPackets, QueueRead, Conserved, TransferKeeps, Poll, Write;
    var before := [Writes(p), Polls];
    var es := before + [QueueReads(length)];
    AfterWriteAndPoll(p);
    DecodeOne(p, [], RING_STORAGE_CAPACITY);
    UnmixedIsAligned(before);
    UnmixedIsAligned(es);
    QueueReadReports(before, length);
    assert !Fits([p], length);
    assert es[..|es| - 1] == before;
    TransmitConserves(es);
  }

  /**
    A run that mixes the byte-level poll with the frame-level step: no drain is made, and what was accepted is not what
    is on its way.
   */
  lemma MixingCanLose(p: seq<uint8>, q: seq<uint8>)
    requires IsPayload(p) && IsPayload(q) && |Frame(p)| > FIFO_CAPACITY + 1
    ensures var es := [Writes(p), Writes(q), Polls, TransfersNext];
      && RoomAtDrains(es) && !AlignedTransfers(es)
      && !Conserved(After(es).sent, After(es).drained, TxOnWay(After(es)))
  {
    hide Parse, Frame, TransferKeeps, TransferNext, Conserved;
    var es := [Writes(p), Writes(q), Polls, TransfersNext];
    var s := Poll(Write(Write(RESET_STATE, p), q));
    ThreeCalls(p, q);
    PollThenTransferCorrupts(p, q);
    TransferNextConserves(s);
    assert |Frame(p)[..FIFO_CAPACITY] + [FRAME_DELIMITER] + Frame(q)| < |Frame(p) + Frame(q)|;
    TransmitConserves(es);
  }

  lemma {:induction false} NoDrains(es: seq<Event>)
    requires forall i :: 0 <= i < |es| ==> !es[i].QueueReads?
    ensures RoomAtDrains(es)
  {
    if es != [] {
      NoDrains(es[..|es| - 1]);
    }
  }

  lemma ThreeCalls(p: seq<uint8>, q: seq<uint8>)
    ensures var es := [Writes(p), Writes(q), Polls, TransfersNext];
      && es[..3] == [Writes(p), Writes(q), Polls]
      && After(es[..3]).port == Poll(Write(Write(RESET_STATE, p), q))
      && RoomAtDrains(es)
      && (AlignedTransfers(es) ==> TransferKeeps(After(es[..3]).port))
      && After(es).port == TransferNext(After(es[..3]).port).0
  {
    hide Frame, TransferKeeps, TransferNext, Poll, Read, QueueRead;
    var es := [Writes(p), Writes(q), Polls, TransfersNext];
    assert es[..3][..2] == [Writes(p), Writes(q)];
    assert es[..3][..2][..1] == [Writes(p)];
    NoDrains(es);
    AfterOne([], Writes(p));
    assert [] + [Writes(p)] == [Writes(p)];
    AfterOne([Writes(p)], Writes(q));
    assert [Writes(p)] + [Writes(q)] == [Writes(p), Writes(q)];
    AfterOne([Writes(p), Writes(q)], Polls);
    assert [Writes(p), Writes(q)] + [Polls] == es[..3];
  }

  /**
    A drain after such a run: the packet comes out cut short, as a success, or the frame is invalid, exactly when the poll
    cut an escape pair in two.
   */
  lemma MixingCanTruncate(p: seq<uint8>, q: seq<uint8>) returns (m: nat)
    requires IsPayload(p) && IsPayload(q) && |Frame(p)| > FIFO_CAPACITY + 1
    ensures 0 < m < |p|
    ensures Stuff(p)[..FIFO_CAPACITY - 1]
         == Stuff(p[..m]) + (if Frame(p)[FIFO_CAPACITY - 1] == FRAME_ESCAPE then [FRAME_ESCAPE] else [])
    ensures var s := After([Writes(p), Writes(q), Polls, TransfersNext]).port;
      var r := QueueRead(s, QUEUE_CAPACITY);
      && (if Frame(p)[FIFO_CAPACITY - 1] == FRAME_ESCAPE then r.status == InvalidFrame
          else r.status == Ok && r.bytes == p[..m])
      && r.state.txFifo == [FRAME_DELIMITER] && r.state.txQueue == Stuff(q) + [FRAME_DELIMITER]
  {
    hide Parse, Stuff, TransferNext, DrainPackets, After, Poll, Write, RoomAtDrains, AlignedTransfers;
    ThreeCalls(p, q);
    PollThenTransferCorrupts(p, q);
    var body, flag := Stuff(p)[..FIFO_CAPACITY - 1], [FRAME_DELIMITER];
    m := CutBody(p, FIFO_CAPACITY - 1);
    assert Frame(p)[..FIFO_CAPACITY] == flag + body;
    assert flag + body + [FRAME_DELIMITER, FRAME_DELIMITER] == (flag + body + flag) + flag;
    LastIsPlain(p[..m]);
    TruncatedDrain(p, m, body);
  }

  /**
    Only the packet that was cut is lost: after the next poll, which brings the rest of the second packet behind the flag
    that the first drain left, a second drain hands that packet over whole.
   */
  lemma MixingKeepsNext(p: seq<uint8>, q: seq<uint8>)
    requires IsPayload(p) && IsPayload(q) && |Frame(p)| > FIFO_CAPACITY + 1 && |Frame(q)| <= FIFO_CAPACITY + 1
    ensures var es := [Writes(p), Writes(q), Polls, TransfersNext] + [QueueReads(QUEUE_CAPACITY)] + [Polls];
      var r := QueueRead(After(es).port, QUEUE_CAPACITY);
      r.status == Ok && r.bytes == q && r.state.txFifo == [] && r.state.txQueue == []
  {
    hide Parse, Stuff, DrainPackets, After, RoomAtDrains, AlignedTransfers;
    var es := [Writes(p), Writes(q), Polls, TransfersNext];
    var _ := MixingCanTruncate(p, q);
    AfterOne(es, QueueReads(QUEUE_CAPACITY));
    AfterOne(es + [QueueReads(QUEUE_CAPACITY)], Polls);
    var s := After(es + [QueueReads(QUEUE_CAPACITY)]).port;
    assert s.txFifo == [FRAME_DELIMITER] && s.txQueue == Stuff(q) + [FRAME_DELIMITER];
    assert Poll(s).txFifo == Frame(q) by {
      assert s.txQueue[..|s.txQueue|] == s.txQueue;
      assert [FRAME_DELIMITER] + (Stuff(q) + [FRAME_DELIMITER]) == Frame(q);
    }
    DrainsOne(q);
  }

  lemma DrainsOne(q: seq<uint8>)
    requires IsPayload(q)
    ensures DrainPackets(Frame(q), [], QUEUE_CAPACITY) == Drained(Ok, [], q)
  {
    hide Decode, FirstDelimiter, Stuff;
    assert Frame(q) + [] == Frame(q) && [] + q == q;
    NextOfStream(q, []);
    NextOfTail([]);
  }

  lemma TruncatedDrain(p: seq<uint8>, m: nat, body: seq<uint8>)
    requires IsPayload(p) && m <= |p| && 1 < |body| < |Stuff(p)| && |body| + 2 <= MAX_ENCODED_BYTE_COUNT
    requires body == Stuff(p[..m]) || body == Stuff(p[..m]) + [FRAME_ESCAPE]
    requires FRAME_DELIMITER !in body
    ensures 0 < m < |p|
    ensures var flag := [FRAME_DELIMITER];
      var d := DrainPackets((flag + body + flag) + flag, [], QUEUE_CAPACITY);
      && (if body[|body| - 1] == FRAME_ESCAPE then d.status == InvalidFrame
          else d.status == Ok && d.target == p[..m])
      && d.fifo == flag
  {
    hide Decode, FirstDelimiter, SecondDelimiter, Stuff, NextPacket;
    StuffNothing();
    assert p[..|p|] == p;
    LastIsPlain(p[..m]);
    if body[|body| - 1] == FRAME_ESCAPE {
      BrokenCut(body, [FRAME_DELIMITER]);
    } else {
      NextOfStream(p[..m], [FRAME_DELIMITER]);
      NothingBehind();
    }
  }

  lemma NothingBehind()
    ensures NextPacket([FRAME_DELIMITER]) == Waiting
  {
  }

  /** A frame whose body ends in an escape byte is no packet. */
  lemma BrokenCut(body: seq<uint8>, rest: seq<uint8>)
    requires body != [] && body[|body| - 1] == FRAME_ESCAPE && FRAME_DELIMITER !in body
    requires |body| + 2 <= MAX_ENCODED_BYTE_COUNT
    ensures var flag := [FRAME_DELIMITER];
      NextPacket((flag + body + flag) + rest) == Broken(InvalidFrame, rest)
  {
    hide Decode, FirstDelimiter, SecondDelimiter, HasCompleteFrame, ReadFrame;
    var frame := [FRAME_DELIMITER] + body + [FRAME_DELIMITER];
    assert [] + frame == frame;
    ReadFrameFinds([], body, rest, MAX_ENCODED_BYTE_COUNT);
    ReadFrameFails(frame + rest, MAX_ENCODED_BYTE_COUNT);
    HasCompleteFrameIff(frame + rest);
    BrokenIsInvalid(frame + rest);
    EndsInsidePair(body, Decode(frame, QUEUE_CAPACITY));
  }

  lemma EndsInsidePair(body: seq<uint8>, decoding: Decoding)
    requires body != [] && body[|body| - 1] == FRAME_ESCAPE
    requires decoding == Decode([FRAME_DELIMITER] + body + [FRAME_DELIMITER], QUEUE_CAPACITY)
    ensures decoding.Rejected?
  {
    hide Decode, Stuff;
    if decoding.Decoded? {
      var frame := [FRAME_DELIMITER] + body + [FRAME_DELIMITER];
      DecodeAcceptsExactlyEncodings(frame, decoding.payload, QUEUE_CAPACITY);
      assert Frame(decoding.payload)[1..|frame| - 1] == Stuff(decoding.payload);
      assert frame[1..|frame| - 1] == body;
      LastIsPlain(decoding.payload);
    }
  }
}
