/** The runs of PortRuns.dfy are the runs of the driver: replaying any sequence of calls on a port gives what `After` says. */
module Replay {
  import opened Uart
  import opened PortModel
  import opened PortRuns
  import opened Port

  /** Makes one call, returning the bytes it handed over on the receive and on the transmit side. */
  method Perform(port: UartPort, e: Event) returns (delivered: seq<uint8>, drained: seq<uint8>)
    requires port.Valid()
    modifies port.Repr
    ensures port.Valid()
    ensures var h := Step(History(old(port.State()), [], [], [], []), e);
      port.State() == h.port && delivered == h.delivered && drained == h.drained
  {
    hide Read, QueueRead, Write, Receive, Poll, TransferNext;
    delivered, drained := [], [];
    match e
    case Writes(data) => var _, _ := port.Write(data);
    case Receives(data) => var _, _ := port.Receive(data);
    case Polls => var _ := port.Poll();
    case Reads(length) => delivered := PerformRead(port, length);
    case QueueReads(length) => drained := PerformQueueRead(port, length);
    case TransfersNext => var _ := port.TransferNextTxFrame();
  }

  method PerformRead(port: UartPort, length: nat) returns (bytes: seq<uint8>)
    requires port.Valid()
    modifies port.Repr
    ensures port.Valid()
    ensures var r := Read(old(port.State()), length);
      port.State() == r.state && bytes == [] + r.bytes
  {
    hide Read;
    var data := new uint8[length];
    var status, count := port.Read(data, length);
    bytes := data[..count];
  }

  method PerformQueueRead(port: UartPort, length: nat) returns (bytes: seq<uint8>)
    requires port.Valid()
    modifies port.Repr
    ensures port.Valid()
    ensures var r := QueueRead(old(port.State()), length);
      port.State() == r.state && bytes == [] + r.bytes
  {
    hide QueueRead;
    CopiedOnSuccess(port.State(), length);
    var data := new uint8[length];
    var status, count := port.QueueRead(data, length);
    bytes := if status == Ok then data[..count] else [];
  }

  lemma CopiedOnSuccess(s: PortState, length: nat)
    ensures QueueRead(s, length).status != Ok ==> QueueRead(s, length).bytes == []
  {
  }

  /** Any sequence of calls, from reset. */
  method Run(events: seq<Event>) returns (port: UartPort, delivered: seq<uint8>, drained: seq<uint8>)
    ensures port.Valid()
    ensures port.State() == After(events).port
    ensures delivered == After(events).delivered
    ensures drained == After(events).drained
  {
    port := new UartPort();
    delivered, drained := [], [];
    assert events[..0] == [];
    for i := 0 to |events|
      invariant port.Valid() && fresh(port.Repr)
      invariant port.State() == After(events[..i]).port
      invariant delivered == After(events[..i]).delivered
      invariant drained == After(events[..i]).drained
    {
      assert events[..i + 1][..i] == events[..i];
      StepFrom(After(events[..i]), events[i]);
      var more, whole := Perform(port, events[i]);
      delivered := delivered + more;
      drained := drained + whole;
    }
    assert events[..|events|] == events;
  }

  /** What a call does to the port and hands over does not depend on what was seen before. */
  lemma StepFrom(h: History, e: Event)
    requires h.port.WithinCapacity()
    ensures var alone := Step(History(h.port, [], [], [], []), e);
      var r := Step(h, e);
      && r.port == alone.port
      && r.delivered == h.delivered + alone.delivered
      && r.drained == h.drained + alone.drained
  {
  }
}
