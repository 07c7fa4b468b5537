/**
  The link catches up, in either direction: from any reachable state with room on the receiving side, enough polls and
  one read deliver everything that was accepted. The sender's device must have room for `level` bytes at every poll;
  the receiver's must report `level` bytes, or all that have arrived, at both readings.
 */
module HwProgress {
  import opened Uart
  import opened FrameStream
  import opened Draining
  import opened PortModel
  import opened HwModel
  import opened HwLink
  import PortRuns

  /** The run `es` followed by calls of one side. */
  function Then(es: seq<Event>, atFar: bool, calls: seq<Call>): seq<Event> {
    if calls == [] then es else Then(es, atFar, calls[..|calls| - 1]) + [Event(atFar, calls[|calls| - 1])]
  }

  lemma AfterOne(es: seq<Event>, e: Event, rxAtFar: bool)
    ensures After(es + [e]) == Step(After(es), e)
    ensures RoomAtReads(es, rxAtFar) && (e.atFar == rxAtFar ==> RoomInCall(Receiver(After(es), rxAtFar), e.call))
         ==> RoomAtReads(es + [e], rxAtFar)
  {
    assert (es + [e])[..|es|] == es;
  }

  /** What is left of `size` after n rounds that each take `level` or everything. */
  function Left(size: nat, n: nat, level: nat): nat {
    if size > n * level then size - n * level else 0
  }

  lemma LeftStep(size: nat, n: nat, level: nat, before: nat, after: nat)
    requires n > 0 && before <= Left(size, n - 1, level)
    requires after == 0 || after <= before - level
    ensures after <= Left(size, n, level)
  {
  }

  lemma LeftNothing(size: nat, n: nat, level: nat)
    requires level > 0 && n >= CeilDiv(size, level)
    ensures Left(size, n, level) == 0
  {
  }

  /** A poll whose device has room for `level` bytes. */
  predicate Sends(call: Call, level: nat) {
    call.PollsHw? && call.txLevel >= level
  }

  predicate AllSend(calls: seq<Call>, level: nat) {
    forall i :: 0 <= i < |calls| ==> Sends(calls[i], level)
  }

  /** A poll whose device twice reports `level` bytes or more, or at least all that have arrived. */
  predicate Stages(e: Endpoint, call: Call, level: nat) {
    call.PollsHw? && call.device.first >= Min(level, |e.inbound|) && call.device.second >= Min(level, |e.inbound|)
  }

  /** Every one of these calls of the receiving side, made after the run `es`, is such a poll when its turn comes. */
  predicate AllStage(es: seq<Event>, rxAtFar: bool, calls: seq<Call>, level: nat) {
    calls == [] ||
    var init, call := calls[..|calls| - 1], calls[|calls| - 1];
    && AllStage(es, rxAtFar, init, level)
    && Stages(Receiver(After(Then(es, rxAtFar, init)), rxAtFar), call, level)
  }

  /** The polls of a device whose level register says, at both readings, how many bytes have arrived, up to 255. */
  function HonestPolls(es: seq<Event>, rxAtFar: bool, n: nat): (calls: seq<Call>)
    ensures |calls| == n
  {
    if n == 0 then [] else
      var init := HonestPolls(es, rxAtFar, n - 1);
      var arrived := Min(0xFF, |Receiver(After(Then(es, rxAtFar, init)), rxAtFar).inbound|);
      init + [PollsHw(0, Device(arrived, arrived, []))]
  }

  /** Such a device always reports enough. */
  lemma {:induction false} HonestDeviceStages(es: seq<Event>, rxAtFar: bool, n: nat, level: nat)
    requires level <= 0xFF
    ensures AllStage(es, rxAtFar, HonestPolls(es, rxAtFar, n), level)
  {
    if n > 0 {
      hide After, Then, AllStage, Sender, NearCall;
      var init := HonestPolls(es, rxAtFar, n - 1);
      var e := Receiver(After(Then(es, rxAtFar, init)), rxAtFar);
      var arrived := Min(0xFF, |e.inbound|);
      var call := PollsHw(0, Device(arrived, arrived, []));
      assert Stages(e, call, level) && HonestPolls(es, rxAtFar, n) == init + [call];
      HonestDeviceStages(es, rxAtFar, n - 1, level);
      OneMoreStages(es, rxAtFar, init, call, level);
    }
  }

  lemma OneMoreStages(es: seq<Event>, rxAtFar: bool, init: seq<Call>, call: Call, level: nat)
    requires AllStage(es, rxAtFar, init, level)
    requires Stages(Receiver(After(Then(es, rxAtFar, init)), rxAtFar), call, level)
    ensures AllStage(es, rxAtFar, init + [call], level)
  {
    hide After, Then, Stages;
    assert (init + [call])[..|init|] == init;
  }

  /** Polls of the sending side move its queue onto the line. */
  lemma {:induction false} SenderPolls(es: seq<Event>, rxAtFar: bool, calls: seq<Call>, level: nat)
    requires AllSend(calls, level)
    ensures var before, after := After(es), After(Then(es, !rxAtFar, calls));
      var queue, line := Sender(before, rxAtFar).port.txQueue, Receiver(before, rxAtFar).inbound;
      && |Sender(after, rxAtFar).port.txQueue| <= Left(|queue|, |calls|, level)
      && Receiver(after, rxAtFar).inbound + Sender(after, rxAtFar).port.txQueue == line + queue
      && Receiver(after, rxAtFar).port == Receiver(before, rxAtFar).port
    ensures RoomAtReads(es, rxAtFar) ==> RoomAtReads(Then(es, !rxAtFar, calls), rxAtFar)
  {
    if calls != [] {
      hide After, RoomAtReads, Left, NearCall;
      var init, call := calls[..|calls| - 1], calls[|calls| - 1];
      SenderPolls(es, rxAtFar, init, level);
      var sofar := Then(es, !rxAtFar, init);
      AfterOne(sofar, Event(!rxAtFar, call), rxAtFar);
      SenderPoll(Oriented(After(sofar), !rxAtFar), call, level);
      LeftStep(|Sender(After(es), rxAtFar).port.txQueue|, |calls|, level, |Sender(After(sofar), rxAtFar).port.txQueue|,
               |Sender(After(Then(es, !rxAtFar, calls)), rxAtFar).port.txQueue|);
    }
  }

  /** The link seen from one side: that side is near. */
  function Oriented(link: Link, atFar: bool): Link {
    if atFar then link.Swap() else link
  }

  lemma SenderPoll(link: Link, call: Call, level: nat)
    requires link.WithinCapacity() && Sends(call, level)
    ensures var r := NearCall(link, call);
      && (|r.near.port.txQueue| == 0 || |r.near.port.txQueue| <= |link.near.port.txQueue| - level)
      && r.far.inbound + r.near.port.txQueue == link.far.inbound + link.near.port.txQueue
      && r.far.port == link.far.port
  {
  }

  /** Polls of the receiving side take the line into its FIFO. */
  lemma {:induction false} ReceiverPolls(es: seq<Event>, rxAtFar: bool, calls: seq<Call>, level: nat)
    requires AllStage(es, rxAtFar, calls, level)
    requires var rx := Receiver(After(es), rxAtFar); |rx.port.rxFifo| + |rx.inbound| <= RING_STORAGE_CAPACITY
    requires Sender(After(es), rxAtFar).port.txQueue == []
    ensures var before, after := Receiver(After(es), rxAtFar), Receiver(After(Then(es, rxAtFar, calls)), rxAtFar);
      && |after.inbound| <= Left(|before.inbound|, |calls|, level)
      && after.port.rxFifo + after.inbound == before.port.rxFifo + before.inbound
      && after.port.rxQueue == before.port.rxQueue
    ensures Sender(After(Then(es, rxAtFar, calls)), rxAtFar).port.txQueue == []
    ensures RoomAtReads(es, rxAtFar) ==> RoomAtReads(Then(es, rxAtFar, calls), rxAtFar)
  {
    if calls != [] {
      hide After, RoomAtReads, Left, NearCall;
      var init, call := calls[..|calls| - 1], calls[|calls| - 1];
      ReceiverPolls(es, rxAtFar, init, level);
      var sofar := Then(es, rxAtFar, init);
      var before, now := Receiver(After(es), rxAtFar), Receiver(After(sofar), rxAtFar);
      assert |now.port.rxFifo + now.inbound| == |before.port.rxFifo + before.inbound|;
      AfterOne(sofar, Event(rxAtFar, call), rxAtFar);
      ReceiverPoll(Oriented(After(sofar), rxAtFar), call, level);
      LeftStep(|before.inbound|, |calls|, level, |now.inbound|,
               |Receiver(After(Then(es, rxAtFar, calls)), rxAtFar).inbound|);
    }
  }

  lemma ReceiverPoll(link: Link, call: Call, level: nat)
    requires link.WithinCapacity() && Stages(link.near, call, level)
    requires |link.near.port.rxFifo + link.near.inbound| <= RING_STORAGE_CAPACITY
    ensures var r := NearCall(link, call);
      && (|r.near.inbound| == 0 || |r.near.inbound| <= |link.near.inbound| - level)
      && r.near.port.rxFifo + r.near.inbound == link.near.port.rxFifo + link.near.inbound
      && r.near.port.rxQueue == link.near.port.rxQueue
      && r.far.port == link.far.port
  {
  }

  /** A read that finds every packet in full and room for them returns everything. */
  lemma ReadEverything(s: PortState, ps: seq<seq<uint8>>, length: nat)
    requires s.WithinCapacity() && ArePayloads(ps) && s.rxFifo == Concat(ps)
    requires |s.rxQueue| + |s.rxFifo| <= Min(length, RING_STORAGE_CAPACITY)
    ensures RoomToDecode(s)
    ensures var r := Read(s, length);
      r.state.rxFifo == [] && r.state.rxQueue == [] && r.state.txQueue == s.txQueue
  {
    hide Parse, DecodeIntoQueue;
    assert s.rxFifo + [] == s.rxFifo;
    PortRuns.RoomBySizeSuffices(s, [], ps);
    DecodeNeverOverflows(ps, [], s.rxQueue, RING_STORAGE_CAPACITY);
    EncodingCosts(ps);
  }

  /** All bytes on their way to the callers of `rx`, counted encoded. */
  function Pending(tx: Endpoint, rx: Endpoint): nat {
    |rx.port.rxQueue| + |rx.port.rxFifo| + |rx.inbound| + |tx.port.txQueue|
  }

  /** The receiving side and the reader have room for all bytes on their way, and the polls are enough to bring them there. */
  predicate CanCatchUp(tx: Endpoint, rx: Endpoint, sends: nat, stages: nat, level: nat, length: nat)
    requires level > 0
  {
    && Pending(tx, rx) <= Min(length, RING_STORAGE_CAPACITY)
    && sends >= CeilDiv(|tx.port.txQueue|, level)
    && stages >= CeilDiv(|rx.inbound| + |tx.port.txQueue|, level)
  }

  /**
    Everything arrives, in either direction: whatever state a run left the link in, if the receiving side and the reader
    have room for all bytes still on their way, then enough polls of the sender, enough polls of the receiver, and one
    read leave the receiver's caller with exactly the packets accepted at the sender.
   */
  lemma LinkCatchesUp(es: seq<Event>, rxAtFar: bool, sends: seq<Call>, stages: seq<Call>, level: nat, device: Device,
                      length: nat)
    requires level > 0 && RoomAtReads(es, rxAtFar)
    requires CanCatchUp(Sender(After(es), rxAtFar), Receiver(After(es), rxAtFar), |sends|, |stages|, level, length)
    requires AllSend(sends, level)
    requires AllStage(Then(es, !rxAtFar, sends), rxAtFar, stages, level)
    ensures var staged := Then(Then(es, !rxAtFar, sends), rxAtFar, stages);
      var end := After(staged + [Event(rxAtFar, ReadsHw(device, length))]);
      Receiver(end, rxAtFar).delivered == Flatten(Sender(end, rxAtFar).accepted)
  {
    hide After, RoomAtReads, CeilDiv, Left, AllSend, AllStage, Then, Flatten, Sender, Receiver;
    var sent := Then(es, !rxAtFar, sends);
    var staged := Then(sent, rxAtFar, stages);
    var tx, rx := Sender(After(es), rxAtFar), Receiver(After(es), rxAtFar);
    LeftNothing(|tx.port.txQueue|, |sends|, level);
    SenderPolls(es, rxAtFar, sends, level);
    var rx' := Receiver(After(sent), rxAtFar);
    SameLength(rx'.inbound, Sender(After(sent), rxAtFar).port.txQueue, rx.inbound, tx.port.txQueue);
    assert |rx'.inbound| == |rx.inbound| + |tx.port.txQueue|;
    ReceiverPolls(sent, rxAtFar, stages, level);
    LeftNothing(|rx'.inbound|, |stages|, level);
    var rx'' := Receiver(After(staged), rxAtFar);
    SameLength(rx''.port.rxFifo, rx''.inbound, rx'.port.rxFifo, rx'.inbound);
    FinalRead(staged, rxAtFar, device, length);
  }

  lemma SameLength(a: seq<uint8>, b: seq<uint8>, c: seq<uint8>, d: seq<uint8>)
    requires a + b == c + d
    ensures |a| + |b| == |c| + |d|
  {
    assert |a + b| == |c + d|;
  }

  lemma FinalRead(es: seq<Event>, rxAtFar: bool, device: Device, length: nat)
    requires RoomAtReads(es, rxAtFar)
    requires Sender(After(es), rxAtFar).port.txQueue == Receiver(After(es), rxAtFar).inbound == []
    requires Pending(Sender(After(es), rxAtFar), Receiver(After(es), rxAtFar)) <= Min(length, RING_STORAGE_CAPACITY)
    ensures var end := After(es + [Event(rxAtFar, ReadsHw(device, length))]);
      Receiver(end, rxAtFar).delivered == Flatten(Sender(end, rxAtFar).accepted)
  {
    hide Parse, After, Concat, RoomAtReads, RoomInCall, NearCall;
    var e := Event(rxAtFar, ReadsHw(device, length));
    var tx, rx := Sender(After(es), rxAtFar), Receiver(After(es), rxAtFar);
    ChannelRun(es, rxAtFar);
    FinalCall(Oriented(After(es), rxAtFar), device, length, OnWay(tx, rx));
    AfterOne(es, e, rxAtFar);
    LinkDeliversInOrder(es + [e], rxAtFar);
  }

  lemma FinalCall(link: Link, device: Device, length: nat, ps: seq<seq<uint8>>)
    requires link.WithinCapacity() && ArePayloads(ps)
    requires link.near.port.rxFifo + (link.near.inbound + link.far.port.txQueue) == Concat(ps)
    requires link.far.port.txQueue == link.near.inbound == []
    requires Pending(link.far, link.near) <= Min(length, RING_STORAGE_CAPACITY)
    ensures RoomInCall(link.near, ReadsHw(device, length))
    ensures var r := NearCall(link, ReadsHw(device, length));
      r.near.port.rxFifo == r.near.port.rxQueue == r.near.inbound == r.far.port.txQueue == []
  {
    hide Payloads, Read, Fits, Concat, NearCall, StagedPort;
    assert link.near.port.rxFifo + (link.near.inbound + link.far.port.txQueue) == link.near.port.rxFifo;
    NothingToStage(link, device, length);
    ReadEverything(link.near.port, ps, length);
  }

  lemma NothingToStage(link: Link, device: Device, length: nat)
    requires link.WithinCapacity() && link.near.inbound == []
    ensures StagedPort(link.near, device) == link.near.port
    ensures var r := NearCall(link, ReadsHw(device, length));
      r.near.port == Read(link.near.port, length).state && r.near.inbound == [] && r.far == link.far
  {
    hide Read, Presented;
    StageKeepsStream(link.near, device, []);
    assert link.near.port.rxFifo + link.near.inbound[..0] == link.near.port.rxFifo;
  }
}
