/** The circular byte buffer, and the frame operations on it. */
module Ring {
  import opened Uart
  import opened FrameStream
  import opened FrameTransfer

  // ------------------------------------------------------------ slots of a circular store

  /** The slot `i` places behind `head`. */
  function SlotIndex(head: nat, i: nat, capacity: nat): (slot: nat)
    requires head < capacity && i <= capacity
    ensures slot == if head + i < capacity then head + i else head + i - capacity
    ensures slot < capacity
  {
    (head + i) % capacity
  }

  /** The `size` bytes from `head` on, going round a store of `capacity` slots. */
  function Slots(store: seq<uint8>, head: nat, size: nat, capacity: nat): (contents: seq<uint8>)
    requires size <= capacity <= |store| && (size > 0 ==> head < capacity)
    ensures |contents| == size
  {
    seq(size, i requires 0 <= i < size => store[SlotIndex(head, i, capacity)])
  }

  /** Storing one byte in the slot after the last appends it, wherever that slot is. */
  lemma SlotsPush(store: seq<uint8>, head: nat, size: nat, capacity: nat, value: uint8)
    requires size < capacity <= |store| && head < capacity
    ensures var tail := SlotIndex(head, size, capacity);
      Slots(store[tail := value], head, size + 1, capacity) == Slots(store, head, size, capacity) + [value]
  {
  }

  /** Advancing the head takes the first byte off, wherever it is. */
  lemma SlotsPop(store: seq<uint8>, head: nat, size: nat, capacity: nat)
    requires 0 < size <= capacity <= |store| && head < capacity
    ensures var next := SlotIndex(head, 1, capacity);
      [store[head]] + Slots(store, next, size - 1, capacity) == Slots(store, head, size, capacity)
  {
  }

  // ------------------------------------------------------------ the ring

  class RingBuffer {
    const storage: array<uint8>
    var head: nat
    var tail: nat
    var size: nat
    var capacity: nat

    ghost predicate Valid()
      reads this
    {
      && size <= capacity <= storage.Length
      && if capacity == 0 then head == tail == 0 else head < capacity && tail == SlotIndex(head, size, capacity)
    }

    /** The bytes in the ring, oldest first. */
    ghost function Contents(): (contents: seq<uint8>)
      requires Valid()
      reads this, storage
      ensures |contents| == size
    {
      Slots(storage[..], head, size, capacity)
    }

    constructor (capacity: nat)
      requires capacity <= RING_STORAGE_CAPACITY
      ensures Valid() && fresh(storage)
      ensures Contents() == [] && this.capacity == capacity
    {
      storage := new uint8[RING_STORAGE_CAPACITY];
      head, tail, size := 0, 0, 0;
      this.capacity := capacity;
    }

    /** Empties the ring and gives it a new capacity. */
    method Reset(capacity: nat)
      requires capacity <= storage.Length
      modifies this
      ensures Valid()
      ensures Contents() == [] && this.capacity == capacity
    {
      head := 0;
      tail := 0;
      size := 0;
      this.capacity := capacity;
    }

    /** Appends one byte. */
    method Push(value: uint8)
      requires Valid() && size < capacity
      modifies this, storage
      ensures Valid() && capacity == old(capacity)
      ensures Contents() == old(Contents()) + [value]
    {
      SlotsPush(storage[..], head, size, capacity, value);
      ghost var before := storage[..];
      storage[tail] := value;
      assert storage[..] == before[tail := value];
      tail := SlotIndex(tail, 1, capacity);
      size := size + 1;
    }

    /** Removes the oldest byte. */
    method Pop() returns (value: uint8)
      requires Valid() && size > 0
      modifies this
      ensures Valid() && capacity == old(capacity)
      ensures old(Contents()) == [value] + Contents()
    {
      SlotsPop(storage[..], head, size, capacity);
      value := storage[head];
      head := SlotIndex(head, 1, capacity);
      size := size - 1;
    }

    /** Appends the longest prefix of `data` that fits. */
    method WriteBytes(data: seq<uint8>) returns (written: nat)
      requires Valid()
      modifies this, storage
      ensures Valid() && capacity == old(capacity)
      ensures written == Min(|data|, capacity - old(size))
      ensures Contents() == old(Contents()) + data[..written]
    {
      written := 0;
      assert old(Contents()) + data[..0] == old(Contents());
      while written < |data| && size < capacity
        invariant Valid() && capacity == old(capacity)
        invariant written <= |data| && size == old(size) + written
        invariant Contents() == old(Contents()) + data[..written]
      {
        Push(data[written]);
        written := written + 1;
        Grow(old(Contents()), data, written);
      }
    }

    /** Removes the oldest bytes into `data`, up to `length` of them. */
    method ReadBytes(data: array<uint8>, length: nat) returns (count: nat)
      requires Valid() && data != storage
      requires length <= data.Length
      modifies this, data
      ensures Valid() && capacity == old(capacity)
      ensures count == Min(length, old(size))
      ensures data[..] == old(Contents())[..count] + old(data[count..])
      ensures Contents() == old(Contents())[count..]
    {
      hide Slots;
      count := 0;
      while count < length && size > 0
        invariant Valid() && capacity == old(capacity)
        invariant count <= length && size + count == old(size)
        invariant Contents() == old(Contents())[count..]
        invariant data[..] == old(Contents())[..count] + old(data[..])[count..]
      {
        ghost var before := data[..];
        var value := Pop();
        data[count] := value;
        assert data[..] == before[count := value];
        Fill(old(Contents()), old(data[..]), count);
        count := count + 1;
      }
    }

    /** The byte `i` places behind the oldest. */
    function Peek(i: nat): (value: uint8)
      requires Valid() && i < size
      reads this, storage
      ensures value == Contents()[i]
    {
      storage[SlotIndex(head, i, capacity)]
    }

    /** Counts delimiter pairs with something between them. */
    method CountFrames() returns (frames: nat)
      requires Valid()
      ensures frames == FrameCount(Contents())
    {
      var i := 0;
      frames := 0;
      var payloadBytes := 0;
      var inFrame := false;
      assert Contents()[0..] == Contents();
      while i < size
        invariant i <= size
        invariant frames + FrameStream.CountFrames(Contents()[i..], inFrame, payloadBytes) == FrameCount(Contents())
      {
        var value := Peek(i);
        assert Contents()[i..][1..] == Contents()[i + 1..];
        if value == FRAME_DELIMITER {
          if inFrame && payloadBytes > 0 {
            frames := frames + 1;
          }
          inFrame := true;
          payloadBytes := 0;
        } else if inFrame {
          payloadBytes := payloadBytes + 1;
        }
        i := i + 1;
      }
    }

    /** Looks for a second delimiter. */
    method FindCompleteFrame() returns (found: bool)
      requires Valid()
      ensures found <==> HasCompleteFrame(Contents())
    {
      var i := 0;
      var sawStart := false;
      while i < size
        invariant i <= size
        invariant sawStart <==> exists j :: 0 <= j < i && Contents()[j] == FRAME_DELIMITER
        invariant forall j, k :: 0 <= j < k < i ==> Contents()[j] != FRAME_DELIMITER || Contents()[k] != FRAME_DELIMITER
      {
        var value := Peek(i);
        if value == FRAME_DELIMITER {
          if sawStart {
            return true;
          }
          sawStart := true;
        }
        i := i + 1;
      }
      return false;
    }

    /**
      Takes one delimited frame off the ring into `frame`, skipping noise before it. The length is meaningful
      only when the status is `Ok`; a failed read leaves the bytes it took in the buffer.
     */
    method ReadFrame(frame: array<uint8>, frameCapacity: nat) returns (status: Status, frameLength: nat)
      requires Valid() && frame != storage
      requires frameCapacity <= frame.Length
      modifies this, frame
      ensures Valid() && capacity == old(capacity)
      ensures var r := FrameStream.ReadFrame(old(Contents()), frameCapacity);
        && status == r.status
        && Contents() == r.rest
        && (status == Ok ==> frameLength == |r.frame|)
        && frame[..] == r.frame + old(frame[..])[|r.frame|..]
    {
      if frameCapacity == 0 {
        return InvalidArgument, 0;
      }
      hide FrameStream.ReadFrame, Slots;
      var count := 0;
      ghost var skip, taken: seq<uint8> := [], [];
      assert IsPartial(taken);
      hide IsPartial;
      while size > 0
        invariant Valid() && capacity == old(capacity)
        invariant old(Contents()) == skip + taken + Contents()
        invariant FRAME_DELIMITER !in skip && IsPartial(taken)
        invariant count == |taken| <= frameCapacity
        invariant frame[..] == taken + old(frame[..])[count..]
        decreases size
      {
        ghost var buffer := frame[..];
        var value := Pop();
        if count == 0 {
          if value != FRAME_DELIMITER {
            Skip(skip, value, Contents());
            skip := skip + [value];
            continue;
          }
          frame[count] := value;
        } else {
          if count >= frameCapacity {
            Overrun(skip, taken, value, Contents(), frameCapacity);
            return InvalidFrame, 0;
          }
          frame[count] := value;
          if value == FRAME_DELIMITER {
            Close(skip, taken, Contents(), frameCapacity);
            assert frame[..] == buffer[count := value];
            Place(taken, old(frame[..]), value);
            return Ok, count + 1;
          }
        }
        assert frame[..] == buffer[count := value];
        Place(taken, old(frame[..]), value);
        Extend(skip, taken, value, Contents());
        taken := taken + [value];
        count := count + 1;
      }
      assert skip + taken + Contents() == skip + taken;
      ReadFrameExhausts(skip, taken, frameCapacity);
      return InvalidFrame, 0;
    }

    method CanAcceptFrame(maxFrameCount: nat) returns (can: bool)
      requires Valid()
      ensures can <==> FrameTransfer.CanAcceptFrame(Contents(), capacity, maxFrameCount)
    {
      var count := CountFrames();
      can := count < maxFrameCount && size + MAX_ENCODED_BYTE_COUNT <= capacity;
    }
  }

  lemma Skip(skip: seq<uint8>, value: uint8, rest: seq<uint8>)
    requires FRAME_DELIMITER !in skip && value != FRAME_DELIMITER
    ensures skip + [] + ([value] + rest) == skip + [value] + [] + rest
    ensures FRAME_DELIMITER !in skip + [value]
  {
  }

  lemma Extend(skip: seq<uint8>, taken: seq<uint8>, value: uint8, rest: seq<uint8>)
    requires IsPartial(taken) && (taken == [] <==> value == FRAME_DELIMITER)
    ensures skip + taken + ([value] + rest) == skip + (taken + [value]) + rest
    ensures IsPartial(taken + [value])
  {
  }

  lemma Place(taken: seq<uint8>, buffer: seq<uint8>, value: uint8)
    requires |taken| < |buffer|
    ensures (taken + buffer[|taken|..])[|taken| := value] == taken + [value] + buffer[|taken| + 1..]
  {
  }

  lemma Close(skip: seq<uint8>, taken: seq<uint8>, rest: seq<uint8>, capacity: nat)
    requires FRAME_DELIMITER !in skip && taken != [] && IsPartial(taken) && |taken| < capacity
    ensures FrameStream.ReadFrame(skip + taken + ([FRAME_DELIMITER] + rest), capacity)
         == FrameRead(Ok, taken + [FRAME_DELIMITER], rest)
  {
    hide FrameStream.ReadFrame;
    ReadFrameFinds(skip, taken[1..], rest, capacity);
    assert taken + [FRAME_DELIMITER] == [FRAME_DELIMITER] + taken[1..] + [FRAME_DELIMITER];
    assert skip + taken + ([FRAME_DELIMITER] + rest) == skip + (taken + [FRAME_DELIMITER]) + rest;
  }

  lemma Overrun(skip: seq<uint8>, taken: seq<uint8>, value: uint8, rest: seq<uint8>, capacity: nat)
    requires FRAME_DELIMITER !in skip && taken != [] && IsPartial(taken) && |taken| == capacity
    ensures FrameStream.ReadFrame(skip + taken + ([value] + rest), capacity) == FrameRead(InvalidFrame, taken, rest)
  {
    hide FrameStream.ReadFrame;
    assert (taken + [value])[1..capacity] == taken[1..];
    assert (taken + [value])[..capacity] == taken;
    ReadFrameOverflows(skip, taken + [value], rest, capacity);
    assert skip + taken + ([value] + rest) == skip + (taken + [value]) + rest;
  }

  lemma Grow(contents: seq<uint8>, data: seq<uint8>, n: nat)
    requires 0 < n <= |data|
    ensures contents + data[..n - 1] + [data[n - 1]] == contents + data[..n]
  {
  }

  lemma Fill(contents: seq<uint8>, buffer: seq<uint8>, n: nat)
    requires n < |contents| && n < |buffer|
    ensures (contents[..n] + buffer[n..])[n := contents[n]] == contents[..n + 1] + buffer[n + 1..]
  {
  }

  /** Moves one whole frame between rings; a frame that does not fit is cut short and reported. */
  method TransferOneFrame(source: RingBuffer, destination: RingBuffer) returns (status: Status)
    requires source.Valid() && destination.Valid()
    requires source != destination && source.storage != destination.storage
    modifies source, destination, destination.storage
    ensures source.Valid() && destination.Valid()
    ensures source.capacity == old(source.capacity) && destination.capacity == old(destination.capacity)
    ensures var t := TransferFrame(old(source.Contents()), old(destination.Contents()), destination.capacity);
      status == t.status && source.Contents() == t.source && destination.Contents() == t.destination
  {
    hide FrameStream.ReadFrame;
    var frame := new uint8[MAX_ENCODED_BYTE_COUNT];
    var length;
    status, length := source.ReadFrame(frame, MAX_ENCODED_BYTE_COUNT);
    if status != Ok {
      return;
    }
    var written := destination.WriteBytes(frame[..length]);
    if written != length {
      return InvalidFrame;
    }
    return Ok;
  }

  /** Moves whole frames while there is one and the destination can take the largest. */
  method TransferAllFrames(source: RingBuffer, destination: RingBuffer, maxFrameCount: nat)
    returns (status: Status, transferred: nat)
    requires source.Valid() && destination.Valid()
    requires source != destination && source.storage != destination.storage
    modifies source, destination, destination.storage
    ensures source.Valid() && destination.Valid()
    ensures source.capacity == old(source.capacity) && destination.capacity == old(destination.capacity)
    ensures Transfer(status, source.Contents(), destination.Contents(), transferred)
         == TransferFrames(old(source.Contents()), old(destination.Contents()), destination.capacity, maxFrameCount)
  {
    hide FrameCount, FrameStream.ReadFrame;
    transferred := 0;
    ghost var whole := TransferFrames(source.Contents(), destination.Contents(), destination.capacity, maxFrameCount);
    while true
      invariant source.Valid() && destination.Valid()
      invariant source.capacity == old(source.capacity) && destination.capacity == old(destination.capacity)
      invariant var left := TransferFrames(source.Contents(), destination.Contents(), destination.capacity, maxFrameCount);
        whole == left.(count := if left.status == Ok then transferred + left.count else 0)
      decreases source.size
    {
      var frames := source.CountFrames();
      if frames == 0 {
        break;
      }
      var can := destination.CanAcceptFrame(maxFrameCount);
      if !can {
        break;
      }
      status := TransferOneFrame(source, destination);
      if status != Ok {
        return status, 0;
      }
      transferred := transferred + 1;
    }
    return Ok, transferred;
  }
}
