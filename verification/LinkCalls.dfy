/** What each call through the device promises its caller, in every state of a link that a run can reach. */
module LinkCalls {
  import opened Uart
  import opened Framing
  import opened FrameStream
  import opened Mmio
  import opened PortModel
  import opened HwModel
  import opened HwLink
  import opened HwProgress
  import PortRuns
  import PortCalls

  /**
    After any run, a packet written is accepted if and only if its size is legal and its encoding fits behind what is
    queued, whatever the level. Then the front of it all goes onto the line at once; otherwise nothing happens.
   */
  lemma WriteHwAccepted(es: seq<Event>, atFar: bool, data: seq<uint8>, txLevel: Level)
    ensures var before := Oriented(After(es), atFar);
      var after := Oriented(After(es + [Event(atFar, WritesHw(data, txLevel))]), atFar);
      && (after.near.accepted == before.near.accepted + [data] <==> PortCalls.HasPlace(before.near.port.txQueue, data))
      && if PortCalls.HasPlace(before.near.port.txQueue, data) then
           var bytes := before.near.port.txQueue + Frame(data);
           var n := Min(|bytes|, txLevel);
           && after.near == before.near.(port := before.near.port.(txQueue := bytes[n..]), accepted := after.near.accepted)
           && after.far == before.far.(inbound := before.far.inbound + bytes[..n])
         else
           after == before
  {
    hide Frame, After;
    AfterOne(es, Event(atFar, WritesHw(data, txLevel)), true);
    var before := Oriented(After(es), atFar);
    assert before.far.inbound + [] == before.far.inbound;
  }

  /**
    In every reachable state a poll reports readiness if and only if a whole packet can be read out of the receive FIFO.
    Readiness survives staging, and with room every read of positive length then returns bytes; a side that is
    not ready even after staging, with nothing decoded and part of a frame there, refuses and changes nothing more.
   */
  lemma ReadinessOnLink(es: seq<Event>, atFar: bool, device: Device, length: nat)
    ensures var side := Receiver(After(es), atFar);
      var staged := StagedPort(side, device);
      var r := ReadHw(side.port, Presented(side.inbound, device.stale), device.first, Arrived(side, device), length);
      && (Readiness(side.port) == MessageReady <==> Payloads(side.port.rxFifo) != [])
      && (Readiness(staged) == MessageReady <==> Payloads(staged.rxFifo) != [])
      && (Readiness(side.port) == MessageReady ==> Readiness(staged) == MessageReady)
      && (Readiness(staged) == MessageReady && RoomToDecode(staged) && length > 0 ==> r.status == Ok && |r.bytes| > 0)
      && (Readiness(staged) != MessageReady && staged.rxQueue == [] && staged.rxFifo != []
          ==> r == ReadResult(staged, InvalidFrame, []))
      && (Arrived(side, device) == 0 ==> staged == side.port)
  {
    hide Payloads, Presented, ReadHw, HasCompleteFrame, FrameCount, ReadableFrames, After, RoomToDecode, Concat;
    ChannelRun(es, atFar);
    var tx, side := Sender(After(es), atFar), Receiver(After(es), atFar);
    var n := StageCount(side.port, device.first, Arrived(side, device));
    StageKeepsStream(side, device, tx.port.txQueue);
    PortRuns.ScannersOnFifo(side.port.rxFifo, side.inbound + tx.port.txQueue, OnWay(tx, side));
    PortRuns.ScannersOnFifo(StagedPort(side, device).rxFifo, side.inbound[n..] + tx.port.txQueue, OnWay(tx, side));
    ReadHwReports(es, atFar, device, length);
    if HasCompleteFrame(side.port.rxFifo) {
      PortCalls.CompleteStays(side.port.rxFifo, side.inbound[..n]);
    }
    assert n == 0 ==> side.port.rxFifo + side.inbound[..n] == side.port.rxFifo;
  }
}
