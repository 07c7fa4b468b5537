/**
  Two ports joined by a full-duplex line that neither loses nor reorders bytes. Either side makes any calls, with any
  arguments, at any time; the device on each side reports any levels. Each direction conserves every
  accepted byte, end to end, exactly when the receiving side never decoded without room.
 */
module HwLink {
  import opened Uart
  import opened Framing
  import opened FrameStream
  import opened Draining
  import opened Ledger
  import opened Mmio
  import opened PortModel
  import opened HwModel
  import PortRuns

  /** One side: its port, the bytes sent to it that it has not staged, and what its callers have seen. */
  datatype Endpoint = Endpoint(
    port: PortState,
    inbound: seq<uint8>,
    accepted: seq<seq<uint8>>,
    delivered: seq<uint8>)

  datatype Link = Link(near: Endpoint, far: Endpoint) {
    function Swap(): Link {
      Link(far, near)
    }

    ghost predicate WithinCapacity() {
      near.port.WithinCapacity() && far.port.WithinCapacity()
    }
  }

  /**
    What the receive side of the device does around one staging step: the level register reads `first`, then
    `second`, but on the second reading never more than has arrived; behind the arrived bytes the window is stale.
   */
  datatype Device = Device(first: Level, second: Level, stale: seq<uint8>)

  datatype Call =
    | WritesHw(data: seq<uint8>, txLevel: Level)
    | PollsHw(txLevel: Level, device: Device)
    | ReadsHw(device: Device, length: nat)

  datatype Event = Event(atFar: bool, call: Call)

  function Presented(inbound: seq<uint8>, stale: seq<uint8>): WindowBytes {
    (inbound + stale + seq(FIFO_CAPACITY, _ => 0))[..FIFO_CAPACITY]
  }

  function Arrived(e: Endpoint, d: Device): Level {
    Min(d.second, |e.inbound|)
  }

  function StagedPort(e: Endpoint, d: Device): (s: PortState)
    requires e.port.WithinCapacity()
    ensures s.WithinCapacity()
  {
    Stage(e.port, Presented(e.inbound, d.stale), d.first, Arrived(e, d))
  }

  /** The near side makes a call. */
  function NearCall(link: Link, call: Call): (r: Link)
    requires link.WithinCapacity()
  {
    var near := link.near;
    match call
    case WritesHw(data, txLevel) =>
      var r := WriteHw(near.port, data, txLevel);
      Link(near.(port := r.state, accepted := if Accepts(near.port.txQueue, data) then near.accepted + [data] else near.accepted),
           link.far.(inbound := link.far.inbound + r.emitted))
    case PollsHw(txLevel, device) =>
      var r := PollHw(near.port, txLevel, Presented(near.inbound, device.stale), device.first, Arrived(near, device));
      var n := StageCount(near.port, device.first, Arrived(near, device));
      Link(near.(port := r.state, inbound := near.inbound[n..]),
           link.far.(inbound := link.far.inbound + r.emitted))
    case ReadsHw(device, length) =>
      var r := ReadHw(near.port, Presented(near.inbound, device.stale), device.first, Arrived(near, device), length);
      var n := StageCount(near.port, device.first, Arrived(near, device));
      Link(near.(port := r.state, inbound := near.inbound[n..], delivered := near.delivered + r.bytes), link.far)
  }

  function Step(link: Link, e: Event): Link
    requires link.WithinCapacity()
  {
    if e.atFar then NearCall(link.Swap(), e.call).Swap() else NearCall(link, e.call)
  }

  lemma CallFits(link: Link, call: Call)
    requires link.WithinCapacity()
    ensures NearCall(link, call).WithinCapacity()
  {
    if call.ReadsHw? {
      var s := StagedPort(link.near, call.device);
      PortRuns.DecodeFits(s.rxFifo, s.rxQueue, RING_STORAGE_CAPACITY);
    }
  }

  const IDLE_ENDPOINT := Endpoint(RESET_STATE, [], [], [])

  /** The link after a run of calls from reset. */
  function After(es: seq<Event>): (link: Link)
    ensures link.WithinCapacity()
  {
    if es == [] then Link(IDLE_ENDPOINT, IDLE_ENDPOINT) else
      var before := After(es[..|es| - 1]);
      var e := es[|es| - 1];
      CallFits(if e.atFar then before.Swap() else before, e.call);
      Step(before, e)
  }

  // ------------------------------------------------------------ one direction

  /** The direction from `tx` to `rx`: the receive FIFO, the line and the transmit queue are one stream of packets. */
  ghost predicate Channel(tx: Endpoint, rx: Endpoint, lossless: bool) {
    Sound(tx.accepted, rx.delivered + rx.port.rxQueue, rx.port.rxFifo, rx.inbound + tx.port.txQueue, lossless)
  }

  /** The packets on their way from `tx` to the decoder of `rx`. */
  ghost function OnWay(tx: Endpoint, rx: Endpoint): seq<seq<uint8>> {
    Payloads(rx.port.rxFifo + (rx.inbound + tx.port.txQueue))
  }

  lemma StageKeepsStream(e: Endpoint, d: Device, behind: seq<uint8>)
    requires e.port.WithinCapacity()
    ensures var n := StageCount(e.port, d.first, Arrived(e, d));
      && n <= |e.inbound|
      && StagedPort(e, d) == e.port.(rxFifo := e.port.rxFifo + e.inbound[..n])
      && e.port.rxFifo + e.inbound[..n] + (e.inbound[n..] + behind) == e.port.rxFifo + (e.inbound + behind)
  {
  }

  /** The sending side of a channel, for a call of `tx`. */
  lemma SendStep(link: Link, call: Call, lossless: bool)
    requires link.WithinCapacity() && Channel(link.near, link.far, lossless)
    ensures Channel(NearCall(link, call).near, NearCall(link, call).far, lossless)
  {
    hide Parse, DecodeIntoQueue, Frame;
    var tx, rx := link.near, link.far;
    match call
    case WritesHw(data, txLevel) =>
      if Accepts(tx.port.txQueue, data) {
        var queue := tx.port.txQueue + Frame(data);
        SoundAccept(tx.accepted, rx.delivered + rx.port.rxQueue, rx.port.rxFifo, rx.inbound + tx.port.txQueue, lossless, data);
        Associate(rx.inbound, tx.port.txQueue, Frame(data));
        Rejoin(rx.inbound, queue, FlushCount(queue, txLevel));
      } else {
        assert rx.inbound + [] == rx.inbound;
      }
    case PollsHw(txLevel, device) =>
      Rejoin(rx.inbound, tx.port.txQueue, FlushCount(tx.port.txQueue, txLevel));
    case ReadsHw(_, _) =>
      ReadKeepsTx(StagedPort(tx, call.device), call.length);
  }

  lemma ReadKeepsTx(s: PortState, length: nat)
    ensures Read(s, length).state.txQueue == s.txQueue
  {
  }

  /** Whether a call decodes with room, staging first as `ReadHw` does. */
  predicate RoomInCall(e: Endpoint, call: Call)
    requires e.port.WithinCapacity()
  {
    call.ReadsHw? ==> RoomToDecode(StagedPort(e, call.device))
  }

  /** The receiving side of a channel, for a call of `rx`. */
  lemma ReceiveStep(link: Link, call: Call, lossless: bool)
    requires link.WithinCapacity() && Channel(link.far, link.near, lossless)
    ensures Channel(NearCall(link, call).far, NearCall(link, call).near, lossless && RoomInCall(link.near, call))
  {
    hide Parse, DecodeIntoQueue, Fits, Presented;
    var tx, rx := link.far, link.near;
    match call
    case WritesHw(_, _) =>
    case PollsHw(txLevel, device) =>
      StageKeepsStream(rx, device, tx.port.txQueue);
    case ReadsHw(device, length) =>
      ReceiveRead(tx, rx, device, length, lossless);
  }

  lemma ReceiveRead(tx: Endpoint, rx: Endpoint, device: Device, length: nat, lossless: bool)
    requires rx.port.WithinCapacity() && Channel(tx, rx, lossless)
    ensures var n := StageCount(rx.port, device.first, Arrived(rx, device));
      var r := Read(StagedPort(rx, device), length);
      && n <= |rx.inbound|
      && Sound(tx.accepted, rx.delivered + r.bytes + r.state.rxQueue, r.state.rxFifo, rx.inbound[n..] + tx.port.txQueue,
               lossless && RoomToDecode(StagedPort(rx, device)))
  {
    StageKeepsStream(rx, device, tx.port.txQueue);
    var n := StageCount(rx.port, device.first, Arrived(rx, device));
    ReadOnChannel(tx.accepted, rx.delivered, StagedPort(rx, device), rx.inbound[n..] + tx.port.txQueue, length, lossless);
  }

  lemma ReadOnChannel(accepted: seq<seq<uint8>>, delivered: seq<uint8>, s: PortState, behind: seq<uint8>,
                      length: nat, lossless: bool)
    requires s.WithinCapacity() && Sound(accepted, delivered + s.rxQueue, s.rxFifo, behind, lossless)
    ensures var r := Read(s, length);
      Sound(accepted, delivered + r.bytes + r.state.rxQueue, r.state.rxFifo, behind, lossless && RoomToDecode(s))
  {
    hide Parse, DecodeIntoQueue, Fits, Read, Sound;
    SoundDecode(accepted, delivered, s.rxQueue, s.rxFifo, behind, lossless, RING_STORAGE_CAPACITY);
    PortRuns.ReadHandsOver(s, length);
    var r := Read(s, length);
    Associate(delivered, r.bytes, r.state.rxQueue);
  }

  // ------------------------------------------------------------ runs

  /** The side that receives in one of the two directions, and the side that sends to it. */
  function Receiver(link: Link, rxAtFar: bool): Endpoint {
    if rxAtFar then link.far else link.near
  }

  function Sender(link: Link, rxAtFar: bool): Endpoint {
    if rxAtFar then link.near else link.far
  }

  /** Every read of the side that receives in this direction had room to decode. */
  predicate RoomAtReads(es: seq<Event>, rxAtFar: bool) {
    es == [] ||
    var init, e := es[..|es| - 1], es[|es| - 1];
    && RoomAtReads(init, rxAtFar)
    && (e.atFar == rxAtFar ==> RoomInCall(Receiver(After(init), rxAtFar), e.call))
  }

  lemma {:induction false} ChannelRun(es: seq<Event>, rxAtFar: bool)
    ensures Channel(Sender(After(es), rxAtFar), Receiver(After(es), rxAtFar), RoomAtReads(es, rxAtFar))
  {
    if es == [] {
      SoundStart();
      assert IDLE_ENDPOINT.delivered + IDLE_ENDPOINT.port.rxQueue == [];
      assert IDLE_ENDPOINT.inbound + IDLE_ENDPOINT.port.txQueue == [];
    } else {
      var init, e := es[..|es| - 1], es[|es| - 1];
      ChannelRun(init, rxAtFar);
      var link := if e.atFar then After(init).Swap() else After(init);
      if e.atFar == rxAtFar {
        ReceiveStep(link, e.call, RoomAtReads(init, rxAtFar));
      } else {
        SendStep(link, e.call, RoomAtReads(init, rxAtFar));
      }
    }
  }

  /**
    End to end, in either direction, over every run: the bytes delivered, the bytes decoded, and the packets in the
    receive FIFO, on the line and in the transmit queue are exactly the packets accepted at the other side, in order,
    if and only if every read on the receiving side had room.
   */
  lemma LinkConserves(es: seq<Event>, rxAtFar: bool)
    ensures var tx, rx := Sender(After(es), rxAtFar), Receiver(After(es), rxAtFar);
      Conserved(tx.accepted, rx.delivered + rx.port.rxQueue, OnWay(tx, rx)) <==> RoomAtReads(es, rxAtFar)
  {
    ChannelRun(es, rxAtFar);
    var tx, rx := Sender(After(es), rxAtFar), Receiver(After(es), rxAtFar);
    BalancedConserves(tx.accepted, rx.delivered + rx.port.rxQueue, OnWay(tx, rx), RoomAtReads(es, rxAtFar));
  }

  /** What one side reads is always a prefix of what the other side wrote, and all of it once nothing is left between them. */
  lemma LinkDeliversInOrder(es: seq<Event>, rxAtFar: bool)
    requires RoomAtReads(es, rxAtFar)
    ensures var tx, rx := Sender(After(es), rxAtFar), Receiver(After(es), rxAtFar);
      && rx.delivered <= Flatten(tx.accepted)
      && (tx.port.txQueue == rx.inbound == rx.port.rxFifo == rx.port.rxQueue == []
          ==> rx.delivered == Flatten(tx.accepted))
  {
    LinkConserves(es, rxAtFar);
    var tx, rx := Sender(After(es), rxAtFar), Receiver(After(es), rxAtFar);
    ConservedInOrder(tx.accepted, rx.delivered, rx.port.rxQueue, OnWay(tx, rx));
    NothingOnWay(rx.port.rxFifo + (rx.inbound + tx.port.txQueue));
  }

  /** The FIFO and the read queue, with all that one staging step can add, fit the ring. */
  predicate RoomBySize(s: PortState) {
    |s.rxQueue| + |s.rxFifo| + 0xFF <= RING_STORAGE_CAPACITY
  }

  /** At every read of the receiving side in the run, those two sizes alone left room. */
  predicate SizesAtReads(es: seq<Event>, rxAtFar: bool) {
    es == [] ||
    var init, e := es[..|es| - 1], es[|es| - 1];
    && SizesAtReads(init, rxAtFar)
    && (e.atFar == rxAtFar && e.call.ReadsHw? ==> RoomBySize(Receiver(After(init), rxAtFar).port))
  }

  /** A condition that callers can check before each read, whatever the device then reports, makes a run lossless. */
  lemma {:induction false} LinkSizesSuffice(es: seq<Event>, rxAtFar: bool)
    requires SizesAtReads(es, rxAtFar)
    ensures RoomAtReads(es, rxAtFar)
  {
    if es != [] {
      var init, e := es[..|es| - 1], es[|es| - 1];
      LinkSizesSuffice(init, rxAtFar);
      if e.atFar == rxAtFar && e.call.ReadsHw? {
        hide After, RoomToDecode;
        ChannelRun(init, rxAtFar);
        RoomAfterStaging(Sender(After(init), rxAtFar), Receiver(After(init), rxAtFar), e.call.device,
                         RoomAtReads(init, rxAtFar));
      }
    }
  }

  lemma RoomAfterStaging(tx: Endpoint, rx: Endpoint, device: Device, lossless: bool)
    requires rx.port.WithinCapacity() && Channel(tx, rx, lossless) && RoomBySize(rx.port)
    ensures RoomToDecode(StagedPort(rx, device))
  {
    hide Parse, RoomToDecode, Presented;
    var n := StageCount(rx.port, device.first, Arrived(rx, device));
    StageKeepsStream(rx, device, tx.port.txQueue);
    PortRuns.RoomBySizeSuffices(StagedPort(rx, device), rx.inbound[n..] + tx.port.txQueue, OnWay(tx, rx));
  }

  /** Even after a loss, the encoded bytes between the two sides are whole packets: the last ones accepted. */
  lemma LinkStaysAligned(es: seq<Event>, rxAtFar: bool)
    ensures var tx, rx := Sender(After(es), rxAtFar), Receiver(After(es), rxAtFar);
      var onWay := OnWay(tx, rx);
      && rx.port.rxFifo + (rx.inbound + tx.port.txQueue) == Concat(onWay)
      && |onWay| <= |tx.accepted|
      && onWay == tx.accepted[|tx.accepted| - |onWay|..]
  {
    hide Parse, After;
    ChannelRun(es, rxAtFar);
  }

  /**
    What a hardware read reports in every reachable state, once it has staged: with a complete frame and room, success
    with at least one byte for a positive length; without a frame, the queued bytes, or a refusal that changes nothing
    exactly when only part of a frame is there.
   */
  lemma ReadHwReports(es: seq<Event>, rxAtFar: bool, device: Device, length: nat)
    ensures var rx := Receiver(After(es), rxAtFar);
      var s := StagedPort(rx, device);
      var r := ReadHw(rx.port, Presented(rx.inbound, device.stale), device.first, Arrived(rx, device), length);
      if HasCompleteFrame(s.rxFifo) then
        && (r.status == Ok <==> RoomToDecode(s))
        && (r.status == Ok && length > 0 ==> 0 < |r.bytes| <= length)
        && (r.status == Ok ==> PortRuns.ReadsOn(r, length))
        && (r.status != Ok ==> r.status == InvalidFrame && |r.state.rxQueue| == RING_STORAGE_CAPACITY)
      else if s.rxQueue == [] && s.rxFifo != [] then
        r == ReadResult(s, InvalidFrame, [])
      else
        r.status == Ok && r.bytes == Take(s.rxQueue, length) && r.bytes + r.state.rxQueue == s.rxQueue
  {
    hide Parse, Presented, Read, Fits, PortRuns.ReadsOn;
    ChannelRun(es, rxAtFar);
    var tx, rx := Sender(After(es), rxAtFar), Receiver(After(es), rxAtFar);
    StageKeepsStream(rx, device, tx.port.txQueue);
    var s := StagedPort(rx, device);
    var n := StageCount(rx.port, device.first, Arrived(rx, device));
    if HasCompleteFrame(s.rxFifo) {
      PortRuns.ReadWithFrame(s, rx.inbound[n..] + tx.port.txQueue, OnWay(tx, rx), length);
    } else {
      PortRuns.ReadWithoutFrame(s, length);
    }
  }
}
