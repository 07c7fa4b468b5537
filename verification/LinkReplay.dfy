/**
  The runs of HwLink.dfy are runs of the driver too: two ports, a register file each of them stores to and loads from,
  and a line that carries what one stores to what the other is presented with.
 */
module LinkReplay {
  import opened Uart
  import opened Framing
  import opened Mmio
  import opened PortModel
  import opened HwModel
  import opened HwLink
  import opened Port

  /** What one side's line and callers have seen. */
  datatype Seen = Seen(inbound: seq<uint8>, accepted: seq<seq<uint8>>, delivered: seq<uint8>)

  function Side(port: PortState, seen: Seen): Endpoint {
    Endpoint(port, seen.inbound, seen.accepted, seen.delivered)
  }

  /** A register file that presents `window` at one port. */
  function Image(id: nat, window: WindowBytes): (memory: seq<uint8>)
    requires id < PORT_COUNT
    ensures |memory| == MMIO_SIZE && UartPort.WindowOf(memory, id) == window
  {
    var zeros := seq(MMIO_SIZE, _ => 0);
    WindowHolds(zeros, id, id, window);
    Overlay(zeros, Window(id), window)
  }

  /** Makes one call at a port and carries what it stored to the other side's line. */
  method Perform(port: UartPort, stores: array<uint8>, id: nat, call: Call, near: Seen, far: Seen,
                 ghost other: PortState)
    returns (near': Seen, far': Seen)
    requires port.Valid() && stores !in port.Repr && stores.Length == MMIO_SIZE && id < PORT_COUNT
    requires other.WithinCapacity()
    modifies port.Repr, stores
    ensures port.Valid()
    ensures Link(Side(port.State(), near'), Side(other, far'))
         == NearCall(Link(Side(old(port.State()), near), Side(other, far)), call)
  {
    near', far' := near, far;
    match call
    case WritesHw(data, txLevel) =>
      var ok, emitted := PerformWrite(port, stores, id, data, txLevel);
      far' := far.(inbound := far.inbound + emitted);
      if ok {
        near' := near.(accepted := near.accepted + [data]);
      }
    case PollsHw(txLevel, device) =>
      var staged, emitted := PerformPoll(port, stores, id, txLevel, device, near.inbound);
      far' := far.(inbound := far.inbound + emitted);
      near' := near.(inbound := near.inbound[staged..]);
    case ReadsHw(device, length) =>
      var staged, bytes := PerformRead(port, id, device, near.inbound, length);
      near' := near.(inbound := near.inbound[staged..], delivered := near.delivered + bytes);
  }

  method PerformWrite(port: UartPort, stores: array<uint8>, id: nat, data: seq<uint8>, txLevel: Level)
    returns (ok: bool, emitted: seq<uint8>)
    requires port.Valid() && stores !in port.Repr && stores.Length == MMIO_SIZE && id < PORT_COUNT
    modifies port.Repr, stores
    ensures port.Valid()
    ensures HwResult(port.State(), emitted) == WriteHw(old(port.State()), data, txLevel)
    ensures ok <==> Accepts(old(port.State()).txQueue, data)
  {
    hide Frame, Overlay;
    var size := port.txQueue.size;
    ghost var r := WriteHw(port.State(), data, txLevel);
    WriteHwEmits(port.State(), data, txLevel);
    WindowHolds(stores[..], id, id, r.emitted);
    var _, written := port.WriteHw(stores, id, data, txLevel);
    ok := written > 0;
    var count := if ok then size + |Frame(data)| - port.txQueue.size else 0;
    emitted := stores[Window(id)..Window(id) + count];
  }

  method PerformPoll(port: UartPort, stores: array<uint8>, id: nat, txLevel: Level, device: Device, inbound: seq<uint8>)
    returns (staged: nat, emitted: seq<uint8>)
    requires port.Valid() && stores !in port.Repr && stores.Length == MMIO_SIZE && id < PORT_COUNT
    modifies port.Repr, stores
    ensures port.Valid()
    ensures var arrived := Min(device.second, |inbound|);
      && HwResult(port.State(), emitted)
         == PollHw(old(port.State()), txLevel, Presented(inbound, device.stale), device.first, arrived)
      && staged == StageCount(old(port.State()), device.first, arrived)
  {
    hide Presented, Overlay;
    var queued, fifo := port.txQueue.size, port.rxFifo.size;
    var window, arrived := Presented(inbound, device.stale), Min(device.second, |inbound|);
    ghost var r := PollHw(port.State(), txLevel, window, device.first, arrived);
    PollHwMoves(port.State(), txLevel, window, device.first, arrived);
    WindowHolds(stores[..], id, id, r.emitted);
    var _ := port.PollHw(stores, Image(id, window), id, txLevel, device.first, arrived);
    emitted := stores[Window(id)..Window(id) + (queued - port.txQueue.size)];
    staged := port.rxFifo.size - fifo;
  }

  method PerformRead(port: UartPort, id: nat, device: Device, inbound: seq<uint8>, length: nat)
    returns (staged: nat, bytes: seq<uint8>)
    requires port.Valid() && id < PORT_COUNT
    modifies port.Repr
    ensures port.Valid()
    ensures var arrived := Min(device.second, |inbound|);
      var r := ReadHw(old(port.State()), Presented(inbound, device.stale), device.first, arrived, length);
      && port.State() == r.state && bytes == r.bytes
      && staged == StageCount(old(port.State()), device.first, arrived)
  {
    hide Presented, ReadHw;
    var window, arrived := Presented(inbound, device.stale), Min(device.second, |inbound|);
    staged := Min(Min(device.first, RING_STORAGE_CAPACITY - port.rxFifo.size), arrived);
    var data := new uint8[length];
    var _, count := port.ReadHw(Image(id, window), id, device.first, arrived, data, length);
    bytes := data[..count];
  }

  /** Makes the next call of a run, at the side it belongs to. */
  method Turn(near: UartPort, far: UartPort, stores: array<uint8>, nearId: nat, farId: nat, e: Event,
              nearSeen: Seen, farSeen: Seen)
    returns (nearSeen': Seen, farSeen': Seen)
    requires near.Valid() && far.Valid() && near.Repr !! far.Repr && stores !in near.Repr + far.Repr
    requires stores.Length == MMIO_SIZE && nearId < PORT_COUNT && farId < PORT_COUNT
    modifies near.Repr, far.Repr, stores
    ensures near.Valid() && far.Valid()
    ensures Link(Side(near.State(), nearSeen'), Side(far.State(), farSeen'))
         == Step(Link(Side(old(near.State()), nearSeen), Side(old(far.State()), farSeen)), e)
  {
    hide NearCall;
    if e.atFar {
      farSeen', nearSeen' := Perform(far, stores, farId, e.call, farSeen, nearSeen, near.State());
    } else {
      nearSeen', farSeen' := Perform(near, stores, nearId, e.call, nearSeen, farSeen, far.State());
    }
  }

  lemma AfterNone(events: seq<Event>)
    ensures After(events[..0]) == Link(IDLE_ENDPOINT, IDLE_ENDPOINT)
  {
  }

  lemma AfterNext(events: seq<Event>, i: nat)
    requires i < |events|
    ensures After(events[..i + 1]) == Step(After(events[..i]), events[i])
  {
    hide Step;
    assert events[..i + 1][..i] == events[..i];
  }

  /** Any sequence of calls on the two sides, from reset. */
  method Run(events: seq<Event>, nearId: nat, farId: nat)
    returns (near: UartPort, far: UartPort, nearSeen: Seen, farSeen: Seen)
    requires nearId < PORT_COUNT && farId < PORT_COUNT
    ensures near.Valid() && far.Valid() && near.Repr !! far.Repr
    ensures Link(Side(near.State(), nearSeen), Side(far.State(), farSeen)) == After(events)
  {
    hide Step, After, NearCall, UartPort.State, UartPort.Valid;
    near := new UartPort();
    far := new UartPort();
    var stores := new uint8[MMIO_SIZE];
    nearSeen, farSeen := Seen([], [], []), Seen([], [], []);
    AfterNone(events);
    for i := 0 to |events|
      invariant near.Valid() && far.Valid() && near.Repr !! far.Repr
      invariant fresh(near.Repr) && fresh(far.Repr) && stores !in near.Repr + far.Repr
      invariant Link(Side(near.State(), nearSeen), Side(far.State(), farSeen)) == After(events[..i])
    {
      AfterNext(events, i);
      nearSeen, farSeen := Turn(near, far, stores, nearId, farId, events[i], nearSeen, farSeen);
    }
    assert events[..|events|] == events;
  }
}
