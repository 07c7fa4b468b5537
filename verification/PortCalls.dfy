/**
  What each call promises its caller in every state a run can reach, in numbers a caller can check: when a packet is
  accepted, when a poll reports readiness and what a read then does, how many frames the frame-level step moves,
  and what every call leaves alone.
 */
module PortCalls {
  import opened Uart
  import opened Framing
  import opened FrameStream
  import opened Draining
  import opened FrameTransfer
  import opened Ledger
  import opened PortModel
  import opened PortRuns

  lemma AfterOne(es: seq<Event>, e: Event)
    ensures After(es + [e]) == Step(After(es), e)
  {
    assert (es + [e])[..|es|] == es;
  }

  // ------------------------------------------------------------ acceptance

  /** A packet fits behind what waits in a ring of the driver. */
  predicate HasPlace(ring: seq<uint8>, data: seq<uint8>) {
    1 <= |data| <= 1024 && |ring| + |Frame(data)| <= 524800
  }

  /** After any run, a packet written is accepted if and only if its size is legal and its encoding fits behind what waits. */
  lemma WriteAccepted(es: seq<Event>, data: seq<uint8>)
    ensures var before, after := After(es), After(es + [Writes(data)]);
      && (after.sent == before.sent + [data] <==> HasPlace(before.port.txQueue, data))
      && (!HasPlace(before.port.txQueue, data) ==> after == before)
      && (HasPlace(before.port.txQueue, data) ==> after.port.txQueue == before.port.txQueue + Frame(data))
  {
    hide Frame;
    AfterOne(es, Writes(data));
  }

  /** Likewise a packet received. */
  lemma ReceiveAccepted(es: seq<Event>, data: seq<uint8>)
    ensures var before, after := After(es), After(es + [Receives(data)]);
      && (after.received == before.received + [data] <==> HasPlace(before.port.rxPending, data))
      && (!HasPlace(before.port.rxPending, data) ==> after == before)
      && (HasPlace(before.port.rxPending, data) ==> after.port.rxPending == before.port.rxPending + Frame(data))
  {
    hide Frame;
    AfterOne(es, Receives(data));
  }

  /** The run `es` followed by writes of the packets `ps`. */
  function ThenWrites(es: seq<Event>, ps: seq<seq<uint8>>): seq<Event> {
    if ps == [] then es else ThenWrites(es, ps[..|ps| - 1]) + [Writes(ps[|ps| - 1])]
  }

  lemma {:induction false} ConcatSize(ps: seq<seq<uint8>>)
    requires ArePayloads(ps)
    ensures |Concat(ps)| <= 2050 * |ps|
  {
    if ps != [] {
      hide Frame;
      FrameShape(ps[0]);
      ConcatSize(ps[1..]);
    }
  }

  lemma ConcatSnoc(ps: seq<seq<uint8>>)
    requires ps != []
    ensures Concat(ps) == Concat(ps[..|ps| - 1]) + Frame(ps[|ps| - 1])
  {
    hide Frame, Concat;
    var init, last := ps[..|ps| - 1], ps[|ps| - 1];
    assert init + [last] == ps;
    ConcatAppend(init, [last]);
    One(last);
  }

  lemma OneMoreWrite(h: History, data: seq<uint8>)
    requires h.port.WithinCapacity() && HasPlace(h.port.txQueue, data)
    ensures Step(h, Writes(data)) ==
      h.(port := h.port.(txQueue := h.port.txQueue + Frame(data)), sent := h.sent + [data])
  {
    hide Frame;
  }

  /** An empty queue takes any 256 packets in a row, of whatever bytes, without a poll between. */
  lemma {:induction false} BurstAccepted(es: seq<Event>, ps: seq<seq<uint8>>)
    requires ArePayloads(ps) && |ps| <= 256 && After(es).port.txQueue == []
    ensures var r := After(ThenWrites(es, ps));
      r.sent == After(es).sent + ps && r.port == After(es).port.(txQueue := Concat(ps))
  {
    if ps != [] {
      hide Frame, Concat, After, Step, ThenWrites;
      var init, last := ps[..|ps| - 1], ps[|ps| - 1];
      BurstAccepted(es, init);
      ConcatSize(init);
      ConcatSnoc(ps);
      OneMoreWrite(After(ThenWrites(es, init)), last);
      LastWrite(es, ps);
      Sent(After(es).sent, ps);
    } else {
      assert After(es).sent + [] == After(es).sent;
    }
  }

  lemma LastWrite(es: seq<Event>, ps: seq<seq<uint8>>)
    requires ps != []
    ensures After(ThenWrites(es, ps)) == Step(After(ThenWrites(es, ps[..|ps| - 1])), Writes(ps[|ps| - 1]))
  {
    hide Step, After;
    AfterOne(ThenWrites(es, ps[..|ps| - 1]), Writes(ps[|ps| - 1]));
  }

  lemma Sent(sent: seq<seq<uint8>>, ps: seq<seq<uint8>>)
    requires ps != []
    ensures sent + ps == sent + ps[..|ps| - 1] + [ps[|ps| - 1]]
  {
  }

  // ------------------------------------------------------------ readiness

  /** In every reachable state a poll reports readiness if and only if a whole packet can be read out of the receive FIFO. */
  lemma ReadinessInRuns(es: seq<Event>)
    ensures var s := After(es).port;
      && Readiness(s) in {MessageReady, Ok}
      && (Readiness(s) == MessageReady <==> Payloads(s.rxFifo) != [])
  {
    RxScannersInRuns(es);
  }

  /** And what a read then does: ready and room means bytes; not ready, nothing decoded, and part of a frame mean a refusal. */
  lemma ReadinessMeansRead(es: seq<Event>, length: nat)
    ensures var s := After(es).port;
      var r := Read(s, length);
      && (Readiness(s) == MessageReady && RoomToDecode(s) && length > 0 ==> r.status == Ok && |r.bytes| > 0)
      && (Readiness(s) != MessageReady && s.rxQueue == [] && s.rxFifo != [] ==> r == ReadResult(s, InvalidFrame, []))
  {
    hide Read;
    ReadReports(es, length);
  }

  /** Readiness lasts until the next read. */
  lemma ReadinessLasts(es: seq<Event>, e: Event)
    requires Readiness(After(es).port) == MessageReady && !e.Reads?
    ensures Readiness(After(es + [e]).port) == MessageReady
  {
    hide Payloads, HasCompleteFrame;
    AfterOne(es, e);
    CallsTouch(After(es), e);
    var before, after := After(es).port.rxFifo, After(es + [e]).port.rxFifo;
    CompleteStays(before, after[|before|..]);
    assert before + after[|before|..] == after;
  }

  lemma CompleteStays(s: seq<uint8>, more: seq<uint8>)
    requires HasCompleteFrame(s)
    ensures HasCompleteFrame(s + more)
  {
    var i, j :| 0 <= i < j < |s| && s[i] == FRAME_DELIMITER && s[j] == FRAME_DELIMITER;
    assert (s + more)[i] == FRAME_DELIMITER && (s + more)[j] == FRAME_DELIMITER;
  }

  // ------------------------------------------------------------ what every call leaves alone

  /** `left` is the end of `fifo`. */
  predicate IsSuffix(left: seq<uint8>, fifo: seq<uint8>) {
    |left| <= |fifo| && fifo[|fifo| - |left|..] == left
  }

  /**
    Each call changes only its own rings. Only polls fill the receive FIFO, only polls and frame-level steps the
    transmit FIFO, always at the end; reads and drains take bytes off the front.
   */
  lemma CallsTouch(h: History, e: Event)
    requires h.port.WithinCapacity()
    ensures var s, r := h.port, Step(h, e).port;
      match e
      case Writes(_) => r == s.(txQueue := r.txQueue) && s.txQueue <= r.txQueue
      case Receives(_) => r == s.(rxPending := r.rxPending) && s.rxPending <= r.rxPending
      case Polls =>
        && r.rxQueue == s.rxQueue
        && s.rxFifo <= r.rxFifo && IsSuffix(r.rxPending, s.rxPending)
        && s.txFifo <= r.txFifo && IsSuffix(r.txQueue, s.txQueue)
      case Reads(_) => r == s.(rxFifo := r.rxFifo, rxQueue := r.rxQueue) && IsSuffix(r.rxFifo, s.rxFifo)
      case QueueReads(_) => r == s.(txFifo := r.txFifo) && IsSuffix(r.txFifo, s.txFifo)
      case TransfersNext => r == s.(txQueue := r.txQueue, txFifo := r.txFifo) && s.txFifo <= r.txFifo
  {
    hide Frame, DecodeIntoQueue, DrainPackets, LoopLeaves, FirstDelimiter, CountFrames, Parse;
    match e
    case Writes(_) =>
    case Receives(_) =>
    case Polls =>
    case Reads(_) =>
      DecodeAny(h.port.rxFifo, h.port.rxQueue, RING_STORAGE_CAPACITY);
      LoopLeavesSuffix(h.port.rxFifo, RING_STORAGE_CAPACITY - |h.port.rxQueue|,
                       DecodeIntoQueue(h.port.rxFifo, h.port.rxQueue, RING_STORAGE_CAPACITY).fifo);
    case QueueReads(length) =>
      DrainAny(h.port.txFifo, [], length);
      LoopLeavesSuffix(h.port.txFifo, length, DrainPackets(h.port.txFifo, [], length).fifo);
    case TransfersNext =>
  }

  lemma LoopLeavesSuffix(fifo: seq<uint8>, room: nat, left: seq<uint8>)
    requires LoopLeaves(fifo, room, left)
    ensures IsSuffix(left, fifo)
  {
    hide Parse, Frame, Taken, DrainStatus, FirstDelimiter, SecondDelimiter;
    var (ps, tail) := Parse(fifo);
    ParseLeaves(fifo);
    LeavesSuffix(fifo, |ps|, tail);
    if DrainStatus(ps, tail, room) != InvalidFrame {
      LeavesSuffix(fifo, Taken(ps, room), left);
    }
  }

  lemma LeavesSuffix(fifo: seq<uint8>, n: nat, left: seq<uint8>)
    requires Leaves(fifo, n, left)
    ensures IsSuffix(left, fifo)
  {
    hide Parse, Frame;
    if n > 0 {
      var p := Parse(fifo).0[n - 1];
      var front :| fifo == front + Frame(p) + left;
    }
  }

  // ------------------------------------------------------------ reads and drains, from any state

  lemma {:induction false} ParsedArePayloads(s: seq<uint8>)
    ensures ArePayloads(Payloads(s))
    decreases |s|
  {
    hide Decode, FirstDelimiter;
    ParseStep(s);
    if NextPacket(s).Packet? {
      DecodeAcceptsExactlyEncodings(ReadFrame(s, MAX_ENCODED_BYTE_COUNT).frame, NextPacket(s).payload, QUEUE_CAPACITY);
      ParsedArePayloads(NextPacket(s).rest);
    }
  }

  /** All that a drain does, whatever is in the transmit FIFO. */
  lemma QueueReadLeaves(s: PortState, length: nat)
    ensures var (ps, tail) := Parse(s.txFifo);
      var r := QueueRead(s, length);
      && r.status == DrainStatus(ps, tail, length)
      && r.bytes == (if r.status == Ok then Flatten(ps[..Taken(ps, length)]) else [])
      && r.state == s.(txFifo := r.state.txFifo)
      && LoopLeaves(s.txFifo, length, r.state.txFifo)
  {
    hide Parse, DrainPackets, LoopLeaves, Taken, Flatten;
    DrainAny(s.txFifo, [], length);
    QueueReadHandsOver(s, length);
  }

  /** All that a read does, whatever is in the receive FIFO and the read queue. */
  lemma ReadLeaves(s: PortState, length: nat)
    requires s.WithinCapacity()
    ensures var (ps, tail) := Parse(s.rxFifo);
      var room := RING_STORAGE_CAPACITY - |s.rxQueue|;
      var r := Read(s, length);
      && r.status == (if DrainStatus(ps, tail, room) == Ok && (s.rxQueue != [] || ps != [] || s.rxFifo == []) then Ok
                      else InvalidFrame)
      && r.bytes + r.state.rxQueue == s.rxQueue + Take(Flatten(ps[..Taken(ps, room)]), room)
      && |r.bytes| == (if r.status == Ok then Min(length, |r.bytes + r.state.rxQueue|) else 0)
      && r.state == s.(rxFifo := r.state.rxFifo, rxQueue := r.state.rxQueue)
      && LoopLeaves(s.rxFifo, room, r.state.rxFifo)
  {
    hide Parse, DecodeIntoQueue, LoopLeaves, Taken, Flatten, DrainStatus;
    var (ps, tail) := Parse(s.rxFifo);
    var room := RING_STORAGE_CAPACITY - |s.rxQueue|;
    var d := DecodeIntoQueue(s.rxFifo, s.rxQueue, RING_STORAGE_CAPACITY);
    DecodeAny(s.rxFifo, s.rxQueue, RING_STORAGE_CAPACITY);
    ReadHandsOver(s, length);
    NothingDecoded(s.rxFifo, s.rxQueue);
  }

  /** Into an empty queue nothing is decoded exactly when no packet is there, and then nothing is taken with success. */
  lemma NothingDecoded(fifo: seq<uint8>, queue: seq<uint8>)
    requires |queue| <= RING_STORAGE_CAPACITY
    ensures var ps := Payloads(fifo);
      var d := DecodeIntoQueue(fifo, queue, RING_STORAGE_CAPACITY);
      && (d.target == [] <==> queue == [] && ps == [])
      && (d.target == [] && d.status == Ok ==> d.fifo == fifo)
  {
    hide Parse, FirstDelimiter, Decode;
    var ps := Payloads(fifo);
    var room := RING_STORAGE_CAPACITY - |queue|;
    ParseStep(fifo);
    DecodeAny(fifo, queue, RING_STORAGE_CAPACITY);
    ParsedArePayloads(fifo);
    if queue == [] && ps != [] {
      TakesSome(ps, room);
      FlattenFirst(ps, Taken(ps, room));
    }
  }

  // ------------------------------------------------------------ frame-level steps

  /** The run `es` followed by k frame-level steps. */
  function ThenSteps(es: seq<Event>, k: nat): seq<Event> {
    if k == 0 then es else ThenSteps(es, k - 1) + [TransfersNext]
  }

  /** How many packets k steps move out of `waiting` ones into a FIFO that holds `held`. */
  function MovedBySteps(held: nat, waiting: nat, k: nat): (n: nat)
    ensures n <= k && n <= waiting && (n == k || n == waiting || held + n >= 256)
  {
    Min(Min(k, waiting), if held < 256 then 256 - held else 0)
  }

  /** In a run without polls both the transmit queue and the transmit FIFO hold whole packets. */
  lemma {:induction false} WholeWithoutPolls(es: seq<Event>)
    requires forall i :: 0 <= i < |es| ==> !es[i].Polls?
    ensures IsStream(After(es).port.txQueue) && IsStream(After(es).port.txFifo)
  {
    UnmixedIsAligned(es);
    if es == [] {
      StreamOf([], []);
    } else {
      hide IsStream, Step;
      var init := es[..|es| - 1];
      WholeWithoutPolls(init);
      FifoStaysWhole(After(init), es[|es| - 1]);
    }
  }

  lemma DrainStaysWhole(fifo: seq<uint8>, length: nat)
    requires IsStream(fifo)
    ensures IsStream(DrainPackets(fifo, [], length).fifo)
  {
    hide Payloads, DrainPackets, Taken, Fits;
    assert fifo + [] == fifo;
    var ps := Payloads(fifo);
    var n := DrainFromStream(fifo, [], ps, length);
    var left := DrainPackets(fifo, [], length).fifo;
    assert left + [] == left;
    StreamOf(left, ps[n..]);
  }

  lemma FifoStaysWhole(h: History, e: Event)
    requires h.port.WithinCapacity() && IsStream(h.port.txQueue) && IsStream(h.port.txFifo) && !e.Polls?
    ensures IsStream(Step(h, e).port.txFifo)
  {
    hide Parse, DecodeIntoQueue, DrainPackets, Frame, TransferNext;
    var s := h.port;
    if e.QueueReads? {
      DrainStaysWhole(s.txFifo, e.length);
    } else if e.TransfersNext? {
      TransferNextAligned(s);
      if Payloads(s.txQueue) != [] {
        StreamAppend(s.txFifo, Payloads(s.txQueue)[0]);
      }
    }
  }

  /**
    After any run without polls, k frame-level steps move exactly the first packets of the queue, whole and in order:
    k of them, or all there are, or as many as bring the FIFO to 256 frames. Room in bytes never decides.
   */
  lemma {:induction false} StepsInRuns(es: seq<Event>, k: nat)
    requires forall i :: 0 <= i < |es| ==> !es[i].Polls?
    ensures var before, after := After(es), After(ThenSteps(es, k));
      var held, ps := Payloads(before.port.txFifo), Payloads(before.port.txQueue);
      var n := MovedBySteps(|held|, |ps|, k);
      after == before.(port := before.port.(txFifo := Concat(held + ps[..n]), txQueue := Concat(ps[n..])))
  {
    hide After, Payloads, Concat, TransferNext;
    var s := After(es).port;
    var held, ps := Payloads(s.txFifo), Payloads(s.txQueue);
    WholeWithoutPolls(es);
    if k == 0 {
      assert held + ps[..0] == held && ps[0..] == ps;
    } else {
      var n := MovedBySteps(|held|, |ps|, k - 1);
      StepsInRuns(es, k - 1);
      AfterOne(ThenSteps(es, k - 1), TransfersNext);
      OneStep(After(ThenSteps(es, k - 1)).port, held + ps[..n], ps[n..]);
      if n < |ps| {
        assert held + ps[..n] + [ps[n]] == held + ps[..n + 1];
      }
    }
  }

  lemma OneStep(s: PortState, held: seq<seq<uint8>>, ps: seq<seq<uint8>>)
    requires s.WithinCapacity() && ArePayloads(held) && ArePayloads(ps)
    requires s.txFifo == Concat(held) && s.txQueue == Concat(ps)
    ensures TransferNext(s).0 ==
      if ps != [] && |held| < 256 then s.(txFifo := Concat(held + [ps[0]]), txQueue := Concat(ps[1..])) else s
  {
    hide Parse, Frame, TransferNext, FrameCount, Concat;
    StreamOf(s.txQueue, ps);
    CompleteCount(held);
    ConcatSize(held);
    TransferNextAligned(s);
    if ps != [] {
      ConcatSnoc(held + [ps[0]]);
      assert (held + [ps[0]])[..|held|] == held;
    }
  }

  /** From an empty port: any packets written, up to 256, then any number of steps. */
  lemma WritesThenSteps(ps: seq<seq<uint8>>, k: nat)
    requires ArePayloads(ps) && |ps| <= 256
    ensures After(ThenSteps(ThenWrites([], ps), k)).port.txFifo == Concat(ps[..Min(k, |ps|)])
  {
    hide After, Payloads, Parse;
    var es := ThenWrites([], ps);
    AfterNothing();
    BurstAccepted([], ps);
    WritesAreNoPolls(ps);
    StepsInRuns(es, k);
    StreamOf([], []);
    StreamOf(Concat(ps), ps);
    assert [] + ps[..Min(k, |ps|)] == ps[..Min(k, |ps|)];
  }

  lemma AfterNothing()
    ensures After([]).port == RESET_STATE
  {
  }

  lemma {:induction false} WritesAreNoPolls(ps: seq<seq<uint8>>)
    ensures forall i :: 0 <= i < |ThenWrites([], ps)| ==> !ThenWrites([], ps)[i].Polls?
  {
    if ps != [] {
      WritesAreNoPolls(ps[..|ps| - 1]);
    }
  }
}
