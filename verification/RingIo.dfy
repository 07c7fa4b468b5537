/** The driver's internal steps, each on the one or two rings it touches. */
module RingIo {
  import opened Uart
  import opened Draining
  import opened Codec
  import opened Ring
  import opened Mmio
  import opened PortModel
  import opened HwModel

  /** Moves up to `maxBytes` bytes, at most one FIFO's worth, between two rings. */
  method TransferRingBytes(source: RingBuffer, destination: RingBuffer, maxBytes: nat) returns (status: Status)
    requires source.Valid() && destination.Valid()
    requires source != destination && source.storage != destination.storage
    requires maxBytes <= FIFO_CAPACITY
    modifies source, destination, destination.storage
    ensures source.Valid() && destination.Valid()
    ensures source.capacity == old(source.capacity) && destination.capacity == old(destination.capacity)
    ensures status == Ok
    ensures var n := MoveCount(old(source.Contents()), old(destination.Contents()), destination.capacity, maxBytes);
      && source.Contents() == old(source.Contents())[n..]
      && destination.Contents() == old(destination.Contents()) + old(source.Contents())[..n]
  {
    var bytesToMove := source.size;
    if bytesToMove > maxBytes {
      bytesToMove := maxBytes;
    }
    if bytesToMove > destination.capacity - destination.size {
      bytesToMove := destination.capacity - destination.size;
    }
    if bytesToMove == 0 {
      return Ok;
    }
    var bytes := new uint8[FIFO_CAPACITY];
    var moved := source.ReadBytes(bytes, bytesToMove);
    if moved != bytesToMove {
      assert false;  // the driver's first defensive error
    }
    var written := destination.WriteBytes(bytes[..bytesToMove]);
    if written != bytesToMove {
      assert false;  // the driver's second defensive error
    }
    return Ok;
  }

  /** Encodes one packet into a ring, whole or not at all. */
  method EnqueuePacket(ring: RingBuffer, data: seq<uint8>) returns (status: Status, accepted: nat)
    requires ring.Valid() && ring.capacity == RING_STORAGE_CAPACITY
    modifies ring, ring.storage
    ensures ring.Valid() && ring.capacity == old(ring.capacity)
    ensures status == Ok
    ensures accepted == if Accepts(old(ring.Contents()), data) then |data| else 0
    ensures ring.Contents() == Enqueue(old(ring.Contents()), data)
  {
    if |data| == 0 {
      return Ok, 0;
    }
    var frame := new uint8[MAX_ENCODED_BYTE_COUNT];
    var frameLength := EncodeSerialData(data, frame, MAX_ENCODED_BYTE_COUNT);
    if frameLength == 0 || ring.size + frameLength > ring.capacity {
      return Ok, 0;
    }
    var written := ring.WriteBytes(frame[..frameLength]);
    if written != frameLength {
      assert false;  // the driver's defensive error
    }
    return Ok, |data|;
  }

  /** Takes one complete frame off the FIFO and decodes it into `payload`. */
  method TakePacket(fifo: RingBuffer, payload: array<uint8>) returns (status: Status, length: nat)
    requires fifo.Valid() && payload != fifo.storage && payload.Length == QUEUE_CAPACITY
    requires NextPacket(fifo.Contents()) != Waiting
    modifies fifo, payload
    ensures fifo.Valid() && fifo.capacity == old(fifo.capacity)
    ensures match NextPacket(old(fifo.Contents()))
      case Waiting => true
      case Broken(error, rest) => status == error != Ok && fifo.Contents() == rest
      case Packet(p, rest) =>
        status == Ok && length == |p| <= QUEUE_CAPACITY && payload[..length] == p && fifo.Contents() == rest
  {
    var frame := new uint8[MAX_ENCODED_BYTE_COUNT];
    length := 0;
    var frameLength;
    status, frameLength := fifo.ReadFrame(frame, MAX_ENCODED_BYTE_COUNT);
    if status != Ok {
      return;
    }
    ghost var encoded := FrameStream.ReadFrame(old(fifo.Contents()), MAX_ENCODED_BYTE_COUNT).frame;
    assert frame[..frameLength] == encoded;
    BrokenIsInvalid(old(fifo.Contents()));
    status, length := DecodeSerialData(frame[..frameLength], payload, QUEUE_CAPACITY);
  }

  /** Takes one complete frame off the FIFO and decodes it into the queue. */
  method DecodeOneFrame(fifo: RingBuffer, queue: RingBuffer) returns (status: Status)
    requires fifo.Valid() && queue.Valid() && fifo != queue && fifo.storage != queue.storage
    requires NextPacket(fifo.Contents()) != Waiting
    modifies fifo, queue, queue.storage
    ensures fifo.Valid() && queue.Valid()
    ensures fifo.capacity == old(fifo.capacity) && queue.capacity == old(queue.capacity)
    ensures match NextPacket(old(fifo.Contents()))
      case Waiting => true
      case Broken(error, rest) =>
        status == error != Ok && fifo.Contents() == rest && queue.Contents() == old(queue.Contents())
      case Packet(p, rest) =>
        var n := Min(|p|, queue.capacity - |old(queue.Contents())|);
        && status == (if n == |p| then Ok else InvalidFrame)
        && fifo.Contents() == rest && queue.Contents() == old(queue.Contents()) + p[..n]
  {
    hide NextPacket;
    var payload := new uint8[QUEUE_CAPACITY];
    var length;
    status, length := TakePacket(fifo, payload);
    if status != Ok {
      return;
    }
    ghost var p := payload[..length];
    assert queue.Contents() == old(queue.Contents());
    var written := queue.WriteBytes(payload[..length]);
    assert queue.Contents() == old(queue.Contents()) + p[..written];
    return if written == length then Ok else InvalidFrame;
  }

  /** Decodes complete received frames until there are none or the read queue is full. */
  method DecodeFifoIntoQueue(fifo: RingBuffer, queue: RingBuffer) returns (status: Status)
    requires fifo.Valid() && queue.Valid() && fifo != queue && fifo.storage != queue.storage
    modifies fifo, queue, queue.storage
    ensures fifo.Valid() && queue.Valid()
    ensures fifo.capacity == old(fifo.capacity) && queue.capacity == old(queue.capacity)
    ensures Drained(status, fifo.Contents(), queue.Contents())
         == DecodeIntoQueue(old(fifo.Contents()), old(queue.Contents()), queue.capacity)
  {
    hide NextPacket;
    ghost var whole := DecodeIntoQueue(fifo.Contents(), queue.Contents(), queue.capacity);
    while true
      invariant fifo.Valid() && queue.Valid()
      invariant fifo.capacity == old(fifo.capacity) && queue.capacity == old(queue.capacity)
      invariant DecodeIntoQueue(fifo.Contents(), queue.Contents(), queue.capacity) == whole
      decreases fifo.size
    {
      NextOfTail(fifo.Contents());
      var complete := fifo.FindCompleteFrame();
      if !complete || queue.size >= queue.capacity {
        break;
      }
      ghost var next := NextPacket(fifo.Contents());
      status := DecodeOneFrame(fifo, queue);
      if status != Ok {
        return;
      }
      assert next.payload[..|next.payload|] == next.payload;
    }
    return Ok;
  }

  /** Takes one whole packet off the FIFO and appends it to the `count` bytes already in `data`, if it fits. */
  method DrainOnePacket(fifo: RingBuffer, data: array<uint8>, count: nat, length: nat) returns (status: Status, next: nat)
    requires fifo.Valid() && data != fifo.storage && count <= length <= data.Length
    requires NextPacket(fifo.Contents()) != Waiting
    modifies fifo, data
    ensures fifo.Valid() && fifo.capacity == old(fifo.capacity)
    ensures count <= next <= length
    ensures match NextPacket(old(fifo.Contents()))
      case Waiting => true
      case Broken(error, rest) =>
        status == error != Ok && fifo.Contents() == rest && data[..] == old(data[..]) && next == count
      case Packet(p, rest) =>
        && fifo.Contents() == rest
        && if |p| > length - count then status == InvalidArgument && data[..] == old(data[..]) && next == count
           else status == Ok && next == count + |p| && data[..] == Overlay(old(data[..]), count, p)
  {
    hide NextPacket;
    var payload := new uint8[QUEUE_CAPACITY];
    var payloadLength;
    status, payloadLength := TakePacket(fifo, payload);
    if status != Ok {
      return status, count;
    }
    if payloadLength > length - count {
      return InvalidArgument, count;
    }
    CopyBytes(data, count, payload[..payloadLength]);
    next := count + payloadLength;
  }

  lemma OverlayAppends(data: seq<uint8>, original: seq<uint8>, count: nat, p: seq<uint8>)
    requires count + |p| <= |data| && |data| == |original| && data[count..] == original[count..]
    ensures Overlay(data, count, p)[..count + |p|] == data[..count] + p
    ensures Overlay(data, count, p)[count + |p|..] == original[count + |p|..]
  {
  }

  /** Reads whole packets off the FIFO into `data`; a packet that does not fit is taken and refused. */
  method DrainFifo(fifo: RingBuffer, data: array<uint8>, length: nat) returns (status: Status, count: nat)
    requires fifo.Valid() && data != fifo.storage && length <= data.Length
    modifies fifo, data
    ensures fifo.Valid() && fifo.capacity == old(fifo.capacity)
    ensures count <= length
    ensures Drained(status, fifo.Contents(), data[..count]) == DrainPackets(old(fifo.Contents()), [], length)
    ensures data[count..] == old(data[..])[count..]
  {
    hide NextPacket, Overlay;
    count := 0;
    ghost var whole := DrainPackets(fifo.Contents(), [], length);
    while count < length && fifo.size > 0
      invariant fifo.Valid() && fifo.capacity == old(fifo.capacity)
      invariant count <= length
      invariant DrainPackets(fifo.Contents(), data[..count], length) == whole
      invariant data[count..] == old(data[..])[count..]
      decreases fifo.size
    {
      NextOfTail(fifo.Contents());
      var complete := fifo.FindCompleteFrame();
      if !complete {
        break;
      }
      ghost var next := NextPacket(fifo.Contents());
      if next.Packet? && |next.payload| <= length - count {
        OverlayAppends(data[..], old(data[..]), count, next.payload);
      }
      status, count := DrainOnePacket(fifo, data, count, length);
      if status != Ok {
        return;
      }
    }
    NextOfTail(fifo.Contents());
    return Ok, count;
  }

  /** Copies `bytes` into `data` from position `at` on. */
  method CopyBytes(data: array<uint8>, at: nat, bytes: seq<uint8>)
    requires at + |bytes| <= data.Length
    modifies data
    ensures data[..] == Overlay(old(data[..]), at, bytes)
  {
    forall i | 0 <= i < |bytes| {
      data[at + i] := bytes[i];
    }
  }

  /** Stores as much of the transmit queue as the device has room for into the window of a port. */
  method FlushToWindow(queue: RingBuffer, memory: array<uint8>, port: nat, txLevel: Level) returns (status: Status)
    requires queue.Valid() && memory != queue.storage && memory.Length == MMIO_SIZE && port < PORT_COUNT
    modifies queue, memory
    ensures queue.Valid() && queue.capacity == old(queue.capacity)
    ensures status == Ok
    ensures var n := FlushCount(old(queue.Contents()), txLevel);
      && queue.Contents() == old(queue.Contents())[n..]
      && memory[..] == Overlay(old(memory[..]), Window(port), old(queue.Contents())[..n])
  {
    hide Overlay;
    ghost var waiting := queue.Contents();
    if txLevel == 0 || queue.size == 0 {
      OverlayNone(memory[..], Window(port), waiting);
      return Ok;
    }
    var bytesToWrite := queue.size;
    if bytesToWrite > txLevel {
      bytesToWrite := txLevel;
    }
    if bytesToWrite > FIFO_CAPACITY {
      bytesToWrite := FIFO_CAPACITY;
    }
    var bytes := new uint8[FIFO_CAPACITY];
    bytesToWrite := queue.ReadBytes(bytes, bytesToWrite);
    assert bytes[..bytesToWrite] == waiting[..bytesToWrite];
    var written := WriteTxFifo(memory, port, bytes[..bytesToWrite]);
    assert waiting[..bytesToWrite][..written] == waiting[..bytesToWrite];
    if written != bytesToWrite {
      assert false;  // the driver's defensive error
    }
    return Ok;
  }

  /** Appends what the window of a port presents to the FIFO, as far as both level readings and the room allow. */
  method StageFromWindow(fifo: RingBuffer, memory: seq<uint8>, port: nat, first: Level, second: Level)
    returns (status: Status)
    requires fifo.Valid() && fifo.capacity == RING_STORAGE_CAPACITY && |memory| == MMIO_SIZE && port < PORT_COUNT
    modifies fifo, fifo.storage
    ensures fifo.Valid() && fifo.capacity == old(fifo.capacity)
    ensures status == Ok
    ensures var n := Min(Min(first, RING_STORAGE_CAPACITY - |old(fifo.Contents())|), second);
      fifo.Contents() == old(fifo.Contents()) + memory[Window(port)..Window(port) + n]
  {
    if first == 0 {
      return Ok;
    }
    var bytesToStage := fifo.capacity - fifo.size;
    if bytesToStage > first {
      bytesToStage := first;
    }
    if bytesToStage > FIFO_CAPACITY {
      bytesToStage := FIFO_CAPACITY;
    }
    if bytesToStage == 0 {
      return Ok;
    }
    var bytes := new uint8[FIFO_CAPACITY];
    var count := ReadRxFifo(memory, port, bytes, bytesToStage, second);
    assert bytes[..count] == memory[Window(port)..Window(port) + count];
    var written := fifo.WriteBytes(bytes[..count]);
    if written != count {
      assert false;  // the driver's defensive error
    }
    return Ok;
  }
}
