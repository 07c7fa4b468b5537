/** One port of the driver: five rings, and every call that moves bytes between them and the outside. */
module Port {
  import opened Uart
  import opened FrameStream
  import opened Draining
  import opened Ring
  import opened Mmio
  import opened PortModel
  import opened HwModel
  import opened RingIo

  class UartPort {
    const txQueue: RingBuffer
    const txFifo: RingBuffer
    const rxPending: RingBuffer
    const rxFifo: RingBuffer
    const rxQueue: RingBuffer

    ghost const Repr: set<object> := {txQueue, txFifo, rxPending, rxFifo, rxQueue,
      txQueue.storage, txFifo.storage, rxPending.storage, rxFifo.storage, rxQueue.storage}

    /** The five rings are distinct, consistent, and of full capacity. */
    ghost predicate Valid()
      reads Repr
    {
      && txQueue !in {txFifo, rxPending, rxFifo, rxQueue}
      && txFifo !in {rxPending, rxFifo, rxQueue}
      && rxPending !in {rxFifo, rxQueue}
      && rxFifo != rxQueue
      && txQueue.storage !in {txFifo.storage, rxPending.storage, rxFifo.storage, rxQueue.storage}
      && txFifo.storage !in {rxPending.storage, rxFifo.storage, rxQueue.storage}
      && rxPending.storage !in {rxFifo.storage, rxQueue.storage}
      && rxFifo.storage != rxQueue.storage
      && Full(txQueue) && Full(txFifo) && Full(rxPending) && Full(rxFifo) && Full(rxQueue)
    }

    static ghost predicate Full(ring: RingBuffer)
      reads ring
    {
      ring.Valid() && ring.capacity == RING_STORAGE_CAPACITY
    }

    /** The contents of the five rings. */
    ghost function State(): (s: PortState)
      requires Valid()
      reads Repr
      ensures s.WithinCapacity()
    {
      PortState(txQueue.Contents(), txFifo.Contents(), rxPending.Contents(), rxFifo.Contents(), rxQueue.Contents())
    }

    constructor ()
      ensures Valid() && fresh(Repr)
      ensures State() == RESET_STATE
    {
      txQueue := new RingBuffer(RING_STORAGE_CAPACITY);
      txFifo := new RingBuffer(RING_STORAGE_CAPACITY);
      rxPending := new RingBuffer(RING_STORAGE_CAPACITY);
      rxFifo := new RingBuffer(RING_STORAGE_CAPACITY);
      rxQueue := new RingBuffer(RING_STORAGE_CAPACITY);
    }

    /** Queues one packet for transmission. */
    method Write(data: seq<uint8>) returns (status: Status, written: nat)
      requires Valid()
      modifies Repr
      ensures Valid() && State() == PortModel.Write(old(State()), data)
      ensures status == Ok
      ensures written == if Accepts(old(State()).txQueue, data) then |data| else 0
    {
      status, written := EnqueuePacket(txQueue, data);
    }

    /** Queues one packet as if it had arrived. */
    method Receive(data: seq<uint8>) returns (status: Status, received: nat)
      requires Valid()
      modifies Repr
      ensures Valid() && State() == PortModel.Receive(old(State()), data)
      ensures status == Ok
      ensures received == if Accepts(old(State()).rxPending, data) then |data| else 0
    {
      status, received := EnqueuePacket(rxPending, data);
    }

    /** Services both directions once and reports whether a received frame is complete. */
    method Poll() returns (status: Status)
      requires Valid()
      modifies Repr
      ensures Valid() && State() == PortModel.Poll(old(State()))
      ensures status == Readiness(State())
    {
      hide MoveCount, HasCompleteFrame;
      ghost var polled := PortModel.Poll(State());
      status := TransferRingBytes(txQueue, txFifo, FIFO_CAPACITY);
      assert txQueue.Contents() == polled.txQueue && txFifo.Contents() == polled.txFifo;
      status := TransferRingBytes(rxPending, rxFifo, FIFO_CAPACITY);
      assert rxPending.Contents() == polled.rxPending && rxFifo.Contents() == polled.rxFifo;
      var ready := rxFifo.FindCompleteFrame();
      return if ready then MessageReady else Ok;
    }

    /** Decodes complete received frames, then returns up to `length` decoded bytes. */
    method Read(data: array<uint8>, length: nat) returns (status: Status, count: nat)
      requires Valid() && data !in Repr && length <= data.Length
      modifies Repr, data
      ensures Valid()
      ensures var r := PortModel.Read(old(State()), length);
        && State() == r.state && status == r.status
        && count == |r.bytes| && data[..] == r.bytes + old(data[..])[count..]
    {
      hide DecodeIntoQueue;
      count := 0;
      status := DecodeFifoIntoQueue(rxFifo, rxQueue);
      if status != Ok {
        return;
      }
      if rxQueue.size == 0 && rxFifo.size > 0 {
        return InvalidFrame, 0;
      }
      count := rxQueue.ReadBytes(data, length);
    }

    /** Reads whole packets out of the transmit FIFO. The buffer keeps those copied before a refusal; `count` is their size. */
    method QueueRead(data: array<uint8>, length: nat) returns (status: Status, count: nat)
      requires Valid() && data !in Repr && length <= data.Length
      modifies Repr, data
      ensures Valid()
      ensures count <= length && data[count..] == old(data[..])[count..]
      ensures var r := PortModel.QueueRead(old(State()), length);
        && State() == r.state && status == r.status
        && (status == Ok ==> data[..count] == r.bytes)
      ensures data[..count] == DrainPackets(old(State()).txFifo, [], length).target
    {
      status, count := DrainFifo(txFifo, data, length);
    }

    /** Moves the next whole frame from the transmit queue to the transmit FIFO. */
    method TransferNextTxFrame() returns (status: Status)
      requires Valid()
      modifies Repr
      ensures Valid()
      ensures (State(), status) == TransferNext(old(State()))
    {
      var frames := txQueue.CountFrames();
      if frames == 0 {
        return InvalidFrame;
      }
      var can := txFifo.CanAcceptFrame(FIFO_CAPACITY);
      if !can {
        return InvalidFrame;
      }
      status := TransferOneFrame(txQueue, txFifo);
    }

    // ---------------------------------------------------------- through the device

    /** The bytes this port's window holds in an image of the register file. */
    static function WindowOf(memory: seq<uint8>, port: nat): WindowBytes
      requires |memory| == MMIO_SIZE && port < PORT_COUNT
    {
      memory[Window(port)..Window(port) + FIFO_CAPACITY]
    }

    /** Stores what the device has room for, in order, in the port's window. */
    method FlushTxQueueToHw(stores: array<uint8>, port: nat, txLevel: Level) returns (status: Status)
      requires Valid() && stores !in Repr && stores.Length == MMIO_SIZE && port < PORT_COUNT
      modifies Repr, stores
      ensures Valid() && status == Ok
      ensures var r := Flush(old(State()), txLevel);
        && State() == r.state
        && stores[..] == Overlay(old(stores[..]), Window(port), r.emitted)
    {
      status := FlushToWindow(txQueue, stores, port, txLevel);
    }

    /** Takes the bytes the device presents into the receive FIFO. */
    method StageRxBytesFromHw(loads: seq<uint8>, port: nat, first: Level, second: Level) returns (status: Status)
      requires Valid() && |loads| == MMIO_SIZE && port < PORT_COUNT
      modifies Repr
      ensures Valid() && status == Ok
      ensures State() == Stage(old(State()), WindowOf(loads, port), first, second)
    {
      WindowPrefix(loads, port, StageCount(State(), first, second));
      status := StageFromWindow(rxFifo, loads, port, first, second);
    }

    static lemma WindowPrefix(memory: seq<uint8>, port: nat, n: nat)
      requires |memory| == MMIO_SIZE && port < PORT_COUNT && n <= FIFO_CAPACITY
      ensures memory[Window(port)..Window(port) + n] == WindowOf(memory, port)[..n]
    {
    }

    /** Queues one packet and stores what the device has room for. */
    method WriteHw(stores: array<uint8>, port: nat, data: seq<uint8>, txLevel: Level) returns (status: Status, written: nat)
      requires Valid() && stores !in Repr && stores.Length == MMIO_SIZE && port < PORT_COUNT
      modifies Repr, stores
      ensures Valid() && status == Ok
      ensures written == if Accepts(old(State()).txQueue, data) then |data| else 0
      ensures var r := HwModel.WriteHw(old(State()), data, txLevel);
        && State() == r.state
        && stores[..] == Overlay(old(stores[..]), Window(port), r.emitted)
    {
      hide Overlay;
      OverlayNone(stores[..], Window(port), []);
      status, written := Write(data);
      if written == 0 {
        return;
      }
      status := FlushTxQueueToHw(stores, port, txLevel);
    }

    /** Services both directions through the device once and reports whether a received frame is complete. */
    method PollHw(stores: array<uint8>, loads: seq<uint8>, port: nat, txLevel: Level, first: Level, second: Level)
      returns (status: Status)
      requires Valid() && stores !in Repr && stores.Length == |loads| == MMIO_SIZE && port < PORT_COUNT
      modifies Repr, stores
      ensures Valid()
      ensures var r := HwModel.PollHw(old(State()), txLevel, WindowOf(loads, port), first, second);
        && State() == r.state
        && stores[..] == Overlay(old(stores[..]), Window(port), r.emitted)
      ensures status == Readiness(State())
    {
      hide Overlay, Flush, Stage;
      status := FlushTxQueueToHw(stores, port, txLevel);
      status := StageRxBytesFromHw(loads, port, first, second);
      var ready := rxFifo.FindCompleteFrame();
      return if ready then MessageReady else Ok;
    }

    /** Stages received bytes from the device, then reads as `Read` does. */
    method ReadHw(loads: seq<uint8>, port: nat, first: Level, second: Level, data: array<uint8>, length: nat)
      returns (status: Status, count: nat)
      requires Valid() && data !in Repr && length <= data.Length
      requires |loads| == MMIO_SIZE && port < PORT_COUNT
      modifies Repr, data
      ensures Valid()
      ensures var r := HwModel.ReadHw(old(State()), WindowOf(loads, port), first, second, length);
        && State() == r.state && status == r.status
        && count == |r.bytes| && data[..] == r.bytes + old(data[..])[count..]
    {
      hide PortModel.Read, Stage;
      status := StageRxBytesFromHw(loads, port, first, second);
      status, count := Read(data, length);
    }
  }
}
