/**
  Whole runs of one port through its modelled FIFOs: any interleaving of calls, with any arguments,
  from reset. Each direction is proved to conserve every accepted byte, in order, exactly when no
  read was made without room for the packets waiting and, on the transmit side, no frame-level step
  found its queue cut.
 */
module PortRuns {
  import opened Uart
  import opened Framing
  import opened FrameStream
  import opened Draining
  import opened FrameTransfer
  import opened Ledger
  import opened PortModel
  import opened Weighing

  datatype Event =
    | Writes(data: seq<uint8>)
    | Receives(data: seq<uint8>)
    | Polls
    | Reads(length: nat)
    | QueueReads(length: nat)
    | TransfersNext

  /** A port, and what its callers have seen: packets accepted and bytes returned, per direction. */
  datatype History = History(
    port: PortState,
    sent: seq<seq<uint8>>,
    drained: seq<uint8>,
    received: seq<seq<uint8>>,
    delivered: seq<uint8>)

  function Step(h: History, e: Event): (r: History)
    requires h.port.WithinCapacity()
  {
    match e
    case Writes(data) =>
      h.(port := Write(h.port, data), sent := if Accepts(h.port.txQueue, data) then h.sent + [data] else h.sent)
    case Receives(data) =>
      h.(port := Receive(h.port, data),
         received := if Accepts(h.port.rxPending, data) then h.received + [data] else h.received)
    case Polls =>
      h.(port := Poll(h.port))
    case Reads(length) =>
      var r := Read(h.port, length);
      h.(port := r.state, delivered := h.delivered + r.bytes)
    case QueueReads(length) =>
      var r := QueueRead(h.port, length);
      h.(port := r.state, drained := h.drained + r.bytes)
    case TransfersNext =>
      h.(port := TransferNext(h.port).0)
  }

  lemma {:induction false} DecodeFits(fifo: seq<uint8>, queue: seq<uint8>, capacity: nat)
    requires |queue| <= capacity
    ensures var d := DecodeIntoQueue(fifo, queue, capacity);
      |d.fifo| <= |fifo| && |d.target| <= capacity
    decreases |fifo|
  {
    var next := NextPacket(fifo);
    if |queue| < capacity && next.Packet? && |next.payload| <= capacity - |queue| {
      DecodeFits(next.rest, queue + next.payload, capacity);
    }
  }

  lemma {:induction false} DrainFits(fifo: seq<uint8>, data: seq<uint8>, length: nat)
    ensures |DrainPackets(fifo, data, length).fifo| <= |fifo|
    ensures |data| <= length ==> |DrainPackets(fifo, data, length).target| <= length
    decreases |fifo|
  {
    var next := NextPacket(fifo);
    if |data| < length && next.Packet? && |next.payload| <= length - |data| {
      DrainFits(next.rest, data + next.payload, length);
    }
  }

  /** No call overfills a ring. */
  lemma StepFits(h: History, e: Event)
    requires h.port.WithinCapacity()
    ensures Step(h, e).port.WithinCapacity()
  {
    DecodeFits(h.port.rxFifo, h.port.rxQueue, RING_STORAGE_CAPACITY);
    if e.QueueReads? {
      DrainFits(h.port.txFifo, [], e.length);
    }
  }

  /** The history after a run from reset. */
  function After(es: seq<Event>): (h: History)
    ensures h.port.WithinCapacity()
  {
    if es == [] then History(RESET_STATE, [], [], [], []) else
      var before := After(es[..|es| - 1]);
      StepFits(before, es[|es| - 1]);
      Step(before, es[|es| - 1])
  }

  // ------------------------------------------------------------ receive direction

  /** At every read of the run, no packet waiting in full straddled the end of the read queue. */
  predicate RoomAtReads(es: seq<Event>) {
    es == [] ||
    (RoomAtReads(es[..|es| - 1]) && (es[|es| - 1].Reads? ==> RoomToDecode(After(es[..|es| - 1]).port)))
  }

  ghost predicate RxSound(h: History, lossless: bool) {
    Sound(h.received, h.delivered + h.port.rxQueue, h.port.rxFifo, h.port.rxPending, lossless)
  }

  lemma RxStep(h: History, e: Event, lossless: bool)
    requires h.port.WithinCapacity() && RxSound(h, lossless)
    ensures RxSound(Step(h, e), lossless && (e.Reads? ==> RoomToDecode(h.port)))
  {
    hide Parse, DecodeIntoQueue, Fits;
    var p := h.port;
    match e
    case Writes(_) =>
    case Receives(data) =>
      if Accepts(p.rxPending, data) {
        SoundAccept(h.received, h.delivered + p.rxQueue, p.rxFifo, p.rxPending, lossless, data);
      }
    case Polls => PollKeepsStreams(p);
    case Reads(length) => RxRead(h, length, lossless);
    case QueueReads(_) =>
    case TransfersNext =>
  }

  lemma RxRead(h: History, length: nat, lossless: bool)
    requires h.port.WithinCapacity() && RxSound(h, lossless)
    ensures RxSound(Step(h, Reads(length)), lossless && RoomToDecode(h.port))
  {
    hide Parse, DecodeIntoQueue, Fits;
    var p := h.port;
    SoundDecode(h.received, h.delivered, p.rxQueue, p.rxFifo, p.rxPending, lossless, RING_STORAGE_CAPACITY);
    ReadHandsOver(p, length);
    var r := Read(p, length);
    Associate(h.delivered, r.bytes, r.state.rxQueue);
  }

  /** A read decodes, then moves the front of the queue to the caller. */
  lemma ReadHandsOver(s: PortState, length: nat)
    ensures var d := DecodeIntoQueue(s.rxFifo, s.rxQueue, RING_STORAGE_CAPACITY);
      var r := Read(s, length);
      && r.bytes + r.state.rxQueue == d.target
      && r.state == s.(rxFifo := d.fifo, rxQueue := r.state.rxQueue)
  {
    var d := DecodeIntoQueue(s.rxFifo, s.rxQueue, RING_STORAGE_CAPACITY);
    Rejoin([], d.target, Min(length, |d.target|));
    assert [] + d.target == d.target;
  }

  lemma {:induction false} RxRun(es: seq<Event>)
    ensures RxSound(After(es), RoomAtReads(es))
  {
    if es == [] {
      SoundStart();
      assert After(es).delivered + After(es).port.rxQueue == [];
    } else {
      var init := es[..|es| - 1];
      RxRun(init);
      RxStep(After(init), es[|es| - 1], RoomAtReads(init));
    }
  }

  ghost function RxOnWay(h: History): seq<seq<uint8>> {
    Payloads(h.port.rxFifo + h.port.rxPending)
  }

  /**
    The receive direction, over every run: what was read, what waits decoded, and the packets still
    encoded are together exactly the packets accepted, in order, if and only if every read had room.
   */
  lemma ReceiveConserves(es: seq<Event>)
    ensures var h := After(es);
      Conserved(h.received, h.delivered + h.port.rxQueue, RxOnWay(h)) <==> RoomAtReads(es)
  {
    RxRun(es);
    var h := After(es);
    BalancedConserves(h.received, h.delivered + h.port.rxQueue, RxOnWay(h), RoomAtReads(es));
  }

  /** Whatever was lost, the encoded bytes are always whole packets: the last ones accepted. */
  lemma ReceiveStaysAligned(es: seq<Event>)
    ensures var h := After(es);
      && h.port.rxFifo + h.port.rxPending == Concat(RxOnWay(h))
      && |RxOnWay(h)| <= |h.received|
      && RxOnWay(h) == h.received[|h.received| - |RxOnWay(h)|..]
  {
    RxRun(es);
  }

  /** With room at every read, the caller has read a prefix of what was accepted, and all of it once the rings are empty. */
  lemma ReceiveDeliversInOrder(es: seq<Event>)
    requires RoomAtReads(es)
    ensures var h := After(es);
      && h.delivered <= Flatten(h.received)
      && (h.port.rxPending == h.port.rxFifo == h.port.rxQueue == [] ==> h.delivered == Flatten(h.received))
  {
    ReceiveConserves(es);
    var h := After(es);
    ConservedInOrder(h.received, h.delivered, h.port.rxQueue, RxOnWay(h));
    NothingOnWay(h.port.rxFifo + h.port.rxPending);
  }

  /** How polls cut the stream and how reads were sized makes no difference to the bytes read. */
  lemma ChunkingIsInvisible(es: seq<Event>, fs: seq<Event>)
    requires RoomAtReads(es) && RoomAtReads(fs)
    requires After(es).received == After(fs).received
    requires |After(es).delivered| <= |After(fs).delivered|
    ensures After(es).delivered <= After(fs).delivered
  {
    ReceiveDeliversInOrder(es);
    ReceiveDeliversInOrder(fs);
  }

  /** The room condition from two sizes: what waits encoded is no more than the free space of the read queue. */
  predicate RoomBySize(s: PortState) {
    |s.rxQueue| + |s.rxFifo| <= RING_STORAGE_CAPACITY
  }

  lemma RoomBySizeSuffices(s: PortState, behind: seq<uint8>, ps: seq<seq<uint8>>)
    requires s.WithinCapacity() && ArePayloads(ps) && s.rxFifo + behind == Concat(ps) && RoomBySize(s)
    ensures RoomToDecode(s)
  {
    hide Parse;
    var k, tail := FifoOfStream(s.rxFifo, behind, ps);
    EncodingCosts(ps[..k]);
    EnoughRoom(ps[..k], RING_STORAGE_CAPACITY - |s.rxQueue|);
  }

  predicate SizesAtReads(es: seq<Event>) {
    es == [] ||
    (SizesAtReads(es[..|es| - 1]) && (es[|es| - 1].Reads? ==> RoomBySize(After(es[..|es| - 1]).port)))
  }

  /** Checking the two sizes before every read is enough for a lossless run. */
  lemma {:induction false} SizesSuffice(es: seq<Event>)
    requires SizesAtReads(es)
    ensures RoomAtReads(es)
  {
    if es != [] {
      var init := es[..|es| - 1];
      SizesSuffice(init);
      if es[|es| - 1].Reads? {
        RxRun(init);
        var h := After(init);
        RoomBySizeSuffices(h.port, h.port.rxPending, RxOnWay(h));
      }
    }
  }

  // ------------------------------------------------------------ transmit direction

  /** At every drain of the run, no packet waiting in full straddled the end of the caller's buffer. */
  predicate RoomAtDrains(es: seq<Event>) {
    es == [] ||
    (RoomAtDrains(es[..|es| - 1])
     && (es[|es| - 1].QueueReads? ==> Fits(Payloads(After(es[..|es| - 1]).port.txFifo), es[|es| - 1].length)))
  }

  /** Every frame-level step of the run refused, or found a flag, and a frame that fits the frame buffer, in front. */
  predicate AlignedTransfers(es: seq<Event>) {
    es == [] ||
    (AlignedTransfers(es[..|es| - 1])
     && (es[|es| - 1].TransfersNext? ==> TransferKeeps(After(es[..|es| - 1]).port)))
  }

  ghost predicate TxSound(h: History, lossless: bool) {
    Sound(h.sent, h.drained, h.port.txFifo, h.port.txQueue, lossless)
  }

  function TxStream(h: History): seq<uint8> {
    h.port.txFifo + h.port.txQueue
  }

  /** Too little is left in the transmit rings to hand over everything accepted, whatever happens next. */
  ghost predicate TxShort(h: History) {
    |h.drained| + Weight(TxStream(h)) < |Flatten(h.sent)|
  }

  lemma TxStep(h: History, e: Event, lossless: bool)
    requires h.port.WithinCapacity() && TxSound(h, lossless)
    requires e.TransfersNext? ==> TransferKeeps(h.port)
    ensures TxSound(Step(h, e), lossless && (e.QueueReads? ==> Fits(Payloads(h.port.txFifo), e.length)))
  {
    hide Parse, DrainPackets, Fits;
    var p := h.port;
    match e
    case Writes(data) =>
      if Accepts(p.txQueue, data) {
        SoundAccept(h.sent, h.drained, p.txFifo, p.txQueue, lossless, data);
      }
    case Receives(_) =>
    case Polls => PollKeepsStreams(p);
    case Reads(_) =>
    case QueueReads(length) =>
      SoundDrain(h.sent, h.drained, p.txFifo, p.txQueue, lossless, length);
      assert h.drained + [] == h.drained;
    case TransfersNext => TransferNextConserves(p);
  }

  /** A sound direction holds the weight of the packets on their way, and no more than what is missing at the caller. */
  lemma SoundWeighs(h: History, lossless: bool)
    requires TxSound(h, lossless)
    ensures |h.drained| + Weight(TxStream(h)) <= |Flatten(h.sent)|
  {
    hide Parse, Weight, Flatten, Concat;
    WeightConcat(TxOnWay(h));
    SplitConcat(h.sent, |h.sent| - |TxOnWay(h)|);
  }

  /** A step that is not aligned leaves too little. */
  lemma MisalignedStepIsShort(h: History, lossless: bool)
    requires h.port.WithinCapacity() && TxSound(h, lossless) && !TransferKeeps(h.port)
    ensures TxShort(Step(h, TransfersNext))
  {
    hide Parse, Weight, Flatten, Concat, FirstDelimiter, SecondDelimiter, CountFrames;
    var s := h.port;
    SoundWeighs(h, lossless);
    CountNeedsMore(s.txQueue);
    if s.txQueue[0] == FRAME_DELIMITER {
      FlaggedQueueReads(s.txFifo, s.txQueue, TxOnWay(h));
    } else {
      UnflaggedQueueWeighs(s.txFifo, s.txQueue, TxOnWay(h));
      TransferWeight(s.txQueue, s.txFifo, RING_STORAGE_CAPACITY);
    }
  }

  /** And nothing makes up for it. */
  lemma ShortStaysShort(h: History, e: Event)
    requires h.port.WithinCapacity() && TxShort(h)
    ensures TxShort(Step(h, e))
  {
    hide Parse, Weight, Flatten, DrainPackets, DecodeIntoQueue, FirstDelimiter, CountFrames;
    var p := h.port;
    match e
    case Writes(data) =>
      if Accepts(p.txQueue, data) {
        Associate(p.txFifo, p.txQueue, Frame(data));
        WeightAppend(TxStream(h), Frame(data));
        WeightFrame(data);
        FlattenAppend(h.sent, [data]);
        One(data);
      }
    case Receives(_) =>
    case Polls => PollKeepsStreams(p);
    case Reads(_) =>
    case QueueReads(length) =>
      var d := DrainPackets(p.txFifo, [], length);
      DrainWeight(p.txFifo, [], length);
      WeightAppend(p.txFifo, p.txQueue);
      WeightAppend(d.fifo, p.txQueue);
    case TransfersNext =>
      if !RefusesTransfer(p) {
        TransferWeight(p.txQueue, p.txFifo, RING_STORAGE_CAPACITY);
      }
  }

  /** Every run either is aligned and sound, or has dropped bytes it can never make good. */
  lemma {:induction false} TxRun(es: seq<Event>)
    ensures AlignedTransfers(es) ==> TxSound(After(es), RoomAtDrains(es))
    ensures !AlignedTransfers(es) ==> TxShort(After(es))
  {
    if es == [] {
      SoundStart();
    } else {
      hide TxSound, TxShort, Step;
      var init, e := es[..|es| - 1], es[|es| - 1];
      TxRun(init);
      if !AlignedTransfers(init) {
        ShortStaysShort(After(init), e);
      } else if AlignedTransfers(es) {
        TxStep(After(init), e, RoomAtDrains(init));
      } else {
        MisalignedStepIsShort(After(init), RoomAtDrains(init));
      }
    }
  }

  ghost function TxOnWay(h: History): seq<seq<uint8>> {
    Payloads(TxStream(h))
  }

  /**
    The transmit direction, over every run: what was drained and the packets still encoded are together exactly the
    packets accepted, in order, if and only if every drain had room and every frame-level step was aligned.
   */
  lemma TransmitConserves(es: seq<Event>)
    ensures var h := After(es);
      Conserved(h.sent, h.drained, TxOnWay(h)) <==> RoomAtDrains(es) && AlignedTransfers(es)
  {
    hide Parse, Weight, Flatten;
    TxRun(es);
    var h := After(es);
    if AlignedTransfers(es) {
      BalancedConserves(h.sent, h.drained, TxOnWay(h), RoomAtDrains(es));
    } else {
      ParseWeight(TxStream(h));
      assert |h.drained + Flatten(TxOnWay(h))| < |Flatten(h.sent)|;
    }
  }

  // ------------------------------------------------------------ what drains hand over

  /** The packets handed over by the drains of a run that succeeded. */
  function Handed(es: seq<Event>): seq<seq<uint8>> {
    if es == [] then [] else
      var init, e := es[..|es| - 1], es[|es| - 1];
      var s := After(init).port;
      if e.QueueReads? && QueueRead(s, e.length).status == Ok then
        Handed(init) + Payloads(s.txFifo)[..Taken(Payloads(s.txFifo), e.length)]
      else
        Handed(init)
  }

  /** `a` is `b` with some packets left out. */
  predicate Subsequence(a: seq<seq<uint8>>, b: seq<seq<uint8>>) {
    a == [] ||
    (b != [] &&
     ((a[|a| - 1] == b[|b| - 1] && Subsequence(a[..|a| - 1], b[..|b| - 1])) || Subsequence(a, b[..|b| - 1])))
  }

  lemma {:induction false} SubsequenceGrows(a: seq<seq<uint8>>, b: seq<seq<uint8>>, c: seq<seq<uint8>>)
    requires Subsequence(a, b)
    ensures Subsequence(a, b + c) && Subsequence(a + c, b + c)
  {
    if c == [] {
      assert a + c == a && b + c == b;
    } else {
      var init := c[..|c| - 1];
      SubsequenceGrows(a, b, init);
      assert (a + c)[..|a + c| - 1] == a + init;
      assert (b + c)[..|b + c| - 1] == b + init;
    }
  }

  /** What one drain hands over, from any state. */
  lemma QueueReadHandsOver(s: PortState, length: nat)
    ensures var ps := Payloads(s.txFifo);
      QueueRead(s, length).bytes
        == if QueueRead(s, length).status == Ok then Flatten(ps[..Taken(ps, length)]) else []
  {
    hide Parse, DrainPackets, Flatten, Taken;
    var ps := Payloads(s.txFifo);
    DrainAny(s.txFifo, [], length);
    assert [] + Flatten(ps[..Taken(ps, length)]) == Flatten(ps[..Taken(ps, length)]);
  }

  /** Drains hand over whole packets only, in every run. */
  lemma {:induction false} DrainsHandOverPackets(es: seq<Event>)
    ensures After(es).drained == Flatten(Handed(es))
  {
    if es != [] {
      hide Payloads, QueueRead, Flatten, Taken;
      var init, e := es[..|es| - 1], es[|es| - 1];
      DrainsHandOverPackets(init);
      if e.QueueReads? {
        var ps := Payloads(After(init).port.txFifo);
        QueueReadHandsOver(After(init).port, e.length);
        FlattenAppend(Handed(init), ps[..Taken(ps, e.length)]);
      }
    }
  }

  /** The packets accepted and neither on their way nor waiting: handed over or refused. */
  ghost function TxDone(h: History): seq<seq<uint8>>
    requires |TxOnWay(h)| <= |h.sent|
  {
    h.sent[..|h.sent| - |TxOnWay(h)|]
  }

  lemma OnWayIsLast(h: History, lossless: bool)
    requires TxSound(h, lossless)
    ensures ArePayloads(TxOnWay(h)) && TxStream(h) == Concat(TxOnWay(h))
    ensures |TxOnWay(h)| <= |h.sent| && h.sent[|h.sent| - |TxOnWay(h)|..] == TxOnWay(h)
  {
    hide Payloads;
  }

  /** Without a drain nothing is done with. */
  lemma DoneWithoutDrain(h: History, e: Event, lossless: bool)
    requires h.port.WithinCapacity() && TxSound(h, lossless) && !e.QueueReads?
    requires e.TransfersNext? ==> TransferKeeps(h.port)
    ensures |TxOnWay(h)| <= |h.sent| && |TxOnWay(Step(h, e))| <= |Step(h, e).sent|
    ensures TxDone(Step(h, e)) == TxDone(h)
  {
    hide Payloads, TxSound, Frame, TransferKeeps, Step;
    OnWayIsLast(h, lossless);
    StepWithoutDrain(h, e);
    if e.Writes? && Accepts(h.port.txQueue, e.data) {
      StreamAppend(TxStream(h), e.data);
    }
  }

  /** Without a drain, the stream changes only when a packet is accepted. */
  lemma StepWithoutDrain(h: History, e: Event)
    requires h.port.WithinCapacity() && !e.QueueReads?
    requires e.TransfersNext? ==> TransferKeeps(h.port)
    ensures var r := Step(h, e);
      if e.Writes? && Accepts(h.port.txQueue, e.data) then
        r.sent == h.sent + [e.data] && TxStream(r) == TxStream(h) + Frame(e.data)
      else
        r.sent == h.sent && TxStream(r) == TxStream(h)
  {
    hide Frame, FrameCount;
    match e
    case Writes(data) => Associate(h.port.txFifo, h.port.txQueue, Frame(data));
    case Receives(_) =>
    case Polls => PollKeepsStreams(h.port);
    case Reads(_) =>
    case TransfersNext => TransferNextConserves(h.port);
  }

  /** A drain is done with the packets it takes. */
  lemma DoneDrain(h: History, length: nat, lossless: bool) returns (n: nat)
    requires h.port.WithinCapacity() && TxSound(h, lossless)
    ensures var r, waiting := Step(h, QueueReads(length)), Payloads(h.port.txFifo);
      && n <= |TxOnWay(h)| <= |h.sent| && |TxOnWay(r)| <= |r.sent|
      && TxDone(r) == TxDone(h) + TxOnWay(h)[..n]
      && TxOnWay(h)[..n] == waiting[..Taken(waiting, length)]
      && (QueueRead(h.port, length).status == Ok <==> Fits(waiting, length))
  {
    hide Payloads, TxSound, DrainPackets, Fits, Taken, Flatten, Concat;
    OnWayIsLast(h, lossless);
    var s, ps := h.port, TxOnWay(h);
    n := DrainFromStream(s.txFifo, s.txQueue, ps, length);
    StreamOf(DrainPackets(s.txFifo, [], length).fifo + s.txQueue, ps[n..]);
    FrontOfStream(s.txFifo, s.txQueue, ps, n);
    TakeMoreOf(h.sent, ps, n);
  }

  lemma FrontOfStream(fifo: seq<uint8>, behind: seq<uint8>, ps: seq<seq<uint8>>, n: nat)
    requires ArePayloads(ps) && fifo + behind == Concat(ps) && n <= |Payloads(fifo)|
    ensures n <= |ps| && Payloads(fifo)[..n] == ps[..n]
  {
    hide Parse;
    var _, _ := FifoOfStream(fifo, behind, ps);
  }

  lemma TakeMoreOf(sent: seq<seq<uint8>>, onWay: seq<seq<uint8>>, n: nat)
    requires n <= |onWay| <= |sent| && sent[|sent| - |onWay|..] == onWay
    ensures sent[..|sent| - |onWay[n..]|] == sent[..|sent| - |onWay|] + onWay[..n]
  {
  }

  /**
    Over every aligned run, refused drains included: the packets handed over are among the first ones accepted, in order,
    none twice and none in part, and they are all of those if every drain had room.
   */
  lemma {:induction false} TransmitDrainsWholePackets(es: seq<Event>)
    requires AlignedTransfers(es)
    ensures var h := After(es);
      && h.drained == Flatten(Handed(es))
      && |TxOnWay(h)| <= |h.sent| && TxOnWay(h) == h.sent[|TxDone(h)|..]
      && Subsequence(Handed(es), TxDone(h))
      && (RoomAtDrains(es) ==> Handed(es) == TxDone(h))
  {
    hide Parse, Taken, Fits, Subsequence, Step;
    DrainsHandOverPackets(es);
    TxRun(es);
    if es == [] {
      NothingSent();
    } else {
      var init, e := es[..|es| - 1], es[|es| - 1];
      TransmitDrainsWholePackets(init);
      TxRun(init);
      if e.QueueReads? {
        var n := DoneDrain(After(init), e.length, RoomAtDrains(init));
        SubsequenceGrows(Handed(init), TxDone(After(init)), TxOnWay(After(init))[..n]);
      } else {
        DoneWithoutDrain(After(init), e, RoomAtDrains(init));
      }
    }
  }

  lemma NothingSent()
    ensures Handed([]) == [] && After([]).sent == [] && Subsequence([], [])
  {
  }

  /** Runs that use only one of the byte-level poll and the frame-level step are aligned. */
  lemma {:induction false} UnmixedIsAligned(es: seq<Event>)
    requires (forall i :: 0 <= i < |es| ==> !es[i].Polls?) || (forall i :: 0 <= i < |es| ==> !es[i].TransfersNext?)
    ensures AlignedTransfers(es)
    ensures (forall i :: 0 <= i < |es| ==> !es[i].Polls?) ==> IsStream(After(es).port.txQueue)
  {
    if es == [] {
      StreamOf([], []);
    } else {
      hide IsStream, TransferKeeps, Step;
      var init := es[..|es| - 1];
      UnmixedIsAligned(init);
      if !es[|es| - 1].Polls? && IsStream(After(init).port.txQueue) {
        TransferNextAligned(After(init).port);
        QueueStaysWhole(After(init), es[|es| - 1]);
      }
    }
  }

  /**
    With whole packets queued, a frame-level step moves the first one whole exactly when the FIFO counts fewer than 256
    frames and has room for the largest; otherwise it refuses and changes nothing.
   */
  lemma TransferNextAligned(s: PortState)
    requires s.WithinCapacity() && IsStream(s.txQueue)
    ensures TransferKeeps(s)
    ensures var ps := Payloads(s.txQueue);
      TransferNext(s) ==
        if ps != [] && FrameCount(s.txFifo) < 256 && |s.txFifo| + 2050 <= 524800 then
          (s.(txFifo := s.txFifo + Frame(ps[0]), txQueue := Concat(ps[1..])), Ok)
        else
          (s, InvalidFrame)
  {
    hide Parse, FirstDelimiter, SecondDelimiter, CountFrames, ReadFrame;
    var ps := Payloads(s.txQueue);
    CompleteCount(ps);
    if !RefusesTransfer(s) {
      FirstOfConcat(ps);
      TransfersFrame(ps[0], Concat(ps[1..]), s.txFifo, RING_STORAGE_CAPACITY);
      assert [] + s.txQueue == Concat(ps);
      FlaggedQueueReads([], s.txQueue, ps);
    }
  }

  lemma QueueStaysWhole(h: History, e: Event)
    requires h.port.WithinCapacity() && IsStream(h.port.txQueue) && !e.Polls?
    ensures IsStream(Step(h, e).port.txQueue)
  {
    hide Parse, DecodeIntoQueue, DrainPackets, Frame;
    if e.Writes? && Accepts(h.port.txQueue, e.data) {
      StreamAppend(h.port.txQueue, e.data);
    } else if e.TransfersNext? {
      var ps := Payloads(h.port.txQueue);
      TransferNextAligned(h.port);
      if TransferNext(h.port).1 == Ok {
        StreamOf(Concat(ps[1..]), ps[1..]);
      }
    }
  }

  // ------------------------------------------------------------ what the scanners see

  /** In every reachable state both scanners tell the truth about the receive FIFO: how many packets can be read from it. */
  lemma RxScannersInRuns(es: seq<Event>)
    ensures var fifo := After(es).port.rxFifo;
      && FrameCount(fifo) == ReadableFrames(fifo) == |Payloads(fifo)|
      && (HasCompleteFrame(fifo) <==> FrameCount(fifo) > 0)
  {
    RxRun(es);
    ScannersOnFifo(After(es).port.rxFifo, After(es).port.rxPending, RxOnWay(After(es)));
  }

  /** And in every state an aligned run reaches, about the transmit FIFO. */
  lemma TxScannersInRuns(es: seq<Event>)
    requires AlignedTransfers(es)
    ensures var fifo := After(es).port.txFifo;
      && FrameCount(fifo) == ReadableFrames(fifo) == |Payloads(fifo)|
      && (HasCompleteFrame(fifo) <==> FrameCount(fifo) > 0)
  {
    TxRun(es);
    ScannersOnFifo(After(es).port.txFifo, After(es).port.txQueue, TxOnWay(After(es)));
  }

  lemma ScannersOnFifo(fifo: seq<uint8>, behind: seq<uint8>, ps: seq<seq<uint8>>)
    requires ArePayloads(ps) && fifo + behind == Concat(ps)
    ensures FrameCount(fifo) == ReadableFrames(fifo) == |Payloads(fifo)|
    ensures HasCompleteFrame(fifo) <==> FrameCount(fifo) > 0
  {
    hide Parse;
    var k, tail := FifoOfStream(fifo, behind, ps);
    ScannersOnStream(ps[..k], tail);
  }

  // ------------------------------------------------------------ what each call reports

  /**
    What a drain reports in every reachable state: a refusal for room exactly when a packet straddles the buffer, an invalid
    frame exactly when one is met with room left, which no aligned run lets happen, and whole packets otherwise.
   */
  lemma QueueReadReports(es: seq<Event>, length: nat)
    ensures var s := After(es).port;
      var (ps, tail) := Parse(s.txFifo);
      var r := QueueRead(s, length);
      && r.status == DrainStatus(ps, tail, length)
      && (r.status == Ok ==> r.bytes == Flatten(ps[..Taken(ps, length)]) && |r.bytes| <= length)
      && (r.status == Ok ==> |r.bytes| == length || !HasCompleteFrame(r.state.txFifo))
      && (AlignedTransfers(es) ==> !HasCompleteFrame(tail) && r.status != InvalidFrame)
  {
    hide Parse, DrainPackets, Taken, Flatten, HasCompleteFrame;
    var s := After(es).port;
    var (ps, _) := Parse(s.txFifo);
    DrainAny(s.txFifo, [], length);
    DrainFits(s.txFifo, [], length);
    DrainGoesOn(s.txFifo, [], length);
    assert [] + Flatten(ps[..Taken(ps, length)]) == Flatten(ps[..Taken(ps, length)]);
    if AlignedTransfers(es) {
      TxRun(es);
      TailOfStream(s.txFifo, s.txQueue, TxOnWay(After(es)));
    }
  }

  lemma TailOfStream(fifo: seq<uint8>, behind: seq<uint8>, ps: seq<seq<uint8>>)
    requires ArePayloads(ps) && fifo + behind == Concat(ps)
    ensures !HasCompleteFrame(Parse(fifo).1)
  {
    hide Parse, HasCompleteFrame;
    var k, tail := FifoOfStream(fifo, behind, ps);
    PartialHasNoFrame(tail);
    ParseStream(ps[..k], tail);
  }

  /**
    What a read reports in every reachable state. Readiness is sound: with a complete frame waiting and room
    to decode, a read of positive length succeeds with at least one byte. Without one, the read returns what
    is queued, or refuses, changing nothing, exactly when only part of a frame is there.
   */
  lemma ReadReports(es: seq<Event>, length: nat)
    ensures var s := After(es).port;
      var r := Read(s, length);
      if HasCompleteFrame(s.rxFifo) then
        && (r.status == Ok <==> RoomToDecode(s))
        && (r.status == Ok && length > 0 ==> 0 < |r.bytes| <= length)
        && (r.status == Ok ==> ReadsOn(r, length))
        && (r.status != Ok ==> r.status == InvalidFrame && |r.state.rxQueue| == RING_STORAGE_CAPACITY)
      else if s.rxQueue == [] && s.rxFifo != [] then
        r == ReadResult(s, InvalidFrame, [])
      else
        r.status == Ok && r.bytes == Take(s.rxQueue, length) && r.bytes + r.state.rxQueue == s.rxQueue
  {
    var s := After(es).port;
    RxRun(es);
    if HasCompleteFrame(s.rxFifo) {
      ReadWithFrame(s, s.rxPending, RxOnWay(After(es)), length);
    } else {
      ReadWithoutFrame(s, length);
    }
  }

  lemma ReadWithoutFrame(s: PortState, length: nat)
    requires s.WithinCapacity() && !HasCompleteFrame(s.rxFifo)
    ensures var r := Read(s, length);
      if s.rxQueue == [] && s.rxFifo != [] then
        r == ReadResult(s, InvalidFrame, [])
      else
        r.status == Ok && r.bytes == Take(s.rxQueue, length) && r.bytes + r.state.rxQueue == s.rxQueue
  {
    hide NextPacket, HasCompleteFrame;
    NextOfTail(s.rxFifo);
  }

  /** A successful read stops decoding and copying only when it must. */
  ghost predicate ReadsOn(r: ReadResult, length: nat) {
    && (|r.bytes| == length || r.state.rxQueue == [])
    && (!HasCompleteFrame(r.state.rxFifo) || |r.bytes| + |r.state.rxQueue| >= RING_STORAGE_CAPACITY)
  }

  lemma ReadGoesOn(s: PortState, length: nat)
    ensures Read(s, length).status == Ok ==> ReadsOn(Read(s, length), length)
  {
    hide DecodeIntoQueue, HasCompleteFrame;
    DecodeGoesOn(s.rxFifo, s.rxQueue, RING_STORAGE_CAPACITY);
  }

  lemma ReadWithFrame(s: PortState, behind: seq<uint8>, ps: seq<seq<uint8>>, length: nat)
    requires s.WithinCapacity() && ArePayloads(ps) && s.rxFifo + behind == Concat(ps) && HasCompleteFrame(s.rxFifo)
    ensures var r := Read(s, length);
      && (r.status == Ok <==> RoomToDecode(s))
      && (r.status == Ok && length > 0 ==> 0 < |r.bytes| <= length)
      && (r.status == Ok ==> ReadsOn(r, length))
      && (r.status != Ok ==> r.status == InvalidFrame && |r.state.rxQueue| == RING_STORAGE_CAPACITY)
  {
    hide *;
    ReadGoesOn(s, length);
    ReadOutcome(s, length);
    DecodesSome(s, behind, ps);
  }

  /** With a complete frame waiting, decoding fills the queue with at least one byte, and fails only by filling it up. */
  lemma DecodesSome(s: PortState, behind: seq<uint8>, ps: seq<seq<uint8>>)
    requires s.WithinCapacity() && ArePayloads(ps) && s.rxFifo + behind == Concat(ps) && HasCompleteFrame(s.rxFifo)
    ensures var d := DecodeIntoQueue(s.rxFifo, s.rxQueue, RING_STORAGE_CAPACITY);
      && d.target != []
      && (d.status == Ok <==> RoomToDecode(s))
      && (d.status != Ok ==> d.status == InvalidFrame && |d.target| == RING_STORAGE_CAPACITY)
  {
    hide Payloads, DecodeIntoQueue, Fits, Taken, Flatten, Concat, ReadableFrames, FrameCount, HasCompleteFrame;
    ScannersOnFifo(s.rxFifo, behind, ps);
    var room := RING_STORAGE_CAPACITY - |s.rxQueue|;
    var n := DecodeFromStream(s.rxFifo, behind, ps, s.rxQueue, RING_STORAGE_CAPACITY);
    if room > 0 {
      TakesSome(Payloads(s.rxFifo), room);
      NonEmptyFlatten(ps[..n]);
    }
  }

  lemma TakesSome(ps: seq<seq<uint8>>, room: nat)
    requires ps != [] && room > 0
    ensures Taken(ps, room) > 0
  {
  }

  /** How a read's report follows from what decoding left. */
  lemma ReadOutcome(s: PortState, length: nat)
    ensures var d := DecodeIntoQueue(s.rxFifo, s.rxQueue, RING_STORAGE_CAPACITY);
      var r := Read(s, length);
      && (r.status == Ok <==> d.status == Ok && (d.target != [] || d.fifo == []))
      && (r.status == Ok ==> |r.bytes| == Min(length, |d.target|))
      && (r.status != Ok ==> r.status == if d.status != Ok then d.status else InvalidFrame)
      && (r.status != Ok ==> r.state.rxQueue == d.target)
  {
    hide DecodeIntoQueue;
  }
}
