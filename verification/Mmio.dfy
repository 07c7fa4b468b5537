/**
  The memory-mapped FIFO windows: bytes packed into little-endian 32-bit words, with the last few bytes
  moved one at a time.
 */
module Mmio {
  import opened Uart

  const PORT_COUNT: nat := 8
  const PORT_STRIDE: nat := 0x400
  const FIFO_REGISTER_OFFSET: nat := 0x100
  /** Bytes of the device's register file. */
  const MMIO_SIZE: nat := PORT_COUNT * PORT_STRIDE

  /** A FIFO level register is one byte wide. */
  type Level = level: nat | level <= 0xFF

  /** Where the FIFO window of a port starts. */
  function Window(port: nat): (address: nat)
    requires port < PORT_COUNT
    ensures address + FIFO_CAPACITY <= (port + 1) * PORT_STRIDE <= MMIO_SIZE
  {
    port * PORT_STRIDE + FIFO_REGISTER_OFFSET
  }

  /** Memory with `bytes` laid over it from `at` on. */
  function Overlay(memory: seq<uint8>, at: nat, bytes: seq<uint8>): (r: seq<uint8>)
    requires at + |bytes| <= |memory|
    ensures |r| == |memory|
  {
    memory[..at] + bytes + memory[at + |bytes|..]
  }

  // ------------------------------------------------------------ words

  function Pack(b0: uint8, b1: uint8, b2: uint8, b3: uint8): bv32 {
    b0 as bv32 | (b1 as bv32 << 8) | (b2 as bv32 << 16) | (b3 as bv32 << 24)
  }

  function ByteOf(word: bv32, i: nat): uint8
    requires i < 4
  {
    if i == 0 then (word & 0xFF) as uint8
    else if i == 1 then ((word >> 8) & 0xFF) as uint8
    else if i == 2 then ((word >> 16) & 0xFF) as uint8
    else ((word >> 24) & 0xFF) as uint8
  }

  /** Packing loses nothing: each byte comes back from its place in the word. */
  lemma PackKeepsBytes(b0: uint8, b1: uint8, b2: uint8, b3: uint8)
    ensures var word := Pack(b0, b1, b2, b3);
      && ByteOf(word, 0) == b0 && ByteOf(word, 1) == b1 && ByteOf(word, 2) == b2 && ByteOf(word, 3) == b3
      && word & 0xFF == b0 as bv32 && (word >> 8) & 0xFF == b1 as bv32
      && (word >> 16) & 0xFF == b2 as bv32 && word >> 24 == b3 as bv32
  {
  }

  /** Stores four bytes as one little-endian word. */
  method StoreWord(memory: array<uint8>, at: nat, bytes: seq<uint8>)
    requires |bytes| == 4 && at + 4 <= memory.Length
    modifies memory
    ensures memory[..] == Overlay(old(memory[..]), at, bytes)
  {
    var word := Pack(bytes[0], bytes[1], bytes[2], bytes[3]);
    PackKeepsBytes(bytes[0], bytes[1], bytes[2], bytes[3]);
    forall i | 0 <= i < 4 {
      memory[at + i] := ByteOf(word, i);
    }
  }

  /** Stores one byte. */
  method StoreByte(memory: array<uint8>, at: nat, value: uint8)
    requires at < memory.Length
    modifies memory
    ensures memory[..] == Overlay(old(memory[..]), at, [value])
  {
    memory[at] := value;
  }

  /** Loads four bytes as one little-endian word and lays them into `data`. */
  method LoadWord(bytes: seq<uint8>, data: array<uint8>, i: nat)
    requires |bytes| == 4 && i + 4 <= data.Length
    modifies data
    ensures data[..] == Overlay(old(data[..]), i, bytes)
  {
    var word := Pack(bytes[0], bytes[1], bytes[2], bytes[3]);
    PackKeepsBytes(bytes[0], bytes[1], bytes[2], bytes[3]);
    forall k | 0 <= k < 4 {
      data[i + k] := ByteOf(word, k);
    }
  }

  // ------------------------------------------------------------ windows

  lemma OverlayMore(memory: seq<uint8>, at: nat, data: seq<uint8>, i: nat, j: nat)
    requires i <= j <= |data| && at + j <= |memory|
    ensures Overlay(Overlay(memory, at, data[..i]), at + i, data[i..j]) == Overlay(memory, at, data[..j])
  {
  }

  lemma OverlayNone(memory: seq<uint8>, at: nat, data: seq<uint8>)
    requires at <= |memory|
    ensures Overlay(memory, at, data[..0]) == memory
  {
  }

  lemma OverlayNext(memory: seq<uint8>, at: nat, data: seq<uint8>, i: nat)
    requires i < |data| && at + i < |memory|
    ensures Overlay(Overlay(memory, at, data[..i]), at + i, [data[i]]) == Overlay(memory, at, data[..i + 1])
  {
  }

  /** Stores `data` from position `i` on, byte by byte, behind what is already stored. */
  method StoreBytes(memory: array<uint8>, address: nat, data: seq<uint8>, from: nat, ghost original: seq<uint8>)
    requires from <= |data| && |original| == memory.Length && address + |data| <= memory.Length
    requires memory[..] == Overlay(original, address, data[..from])
    modifies memory
    ensures memory[..] == Overlay(original, address, data)
  {
    var i := from;
    assert data[..|data|] == data;
    hide Overlay;
    while i < |data|
      invariant from <= i <= |data|
      invariant memory[..] == Overlay(original, address, data[..i])
    {
      OverlayNext(original, address, data, i);
      StoreByte(memory, address + i, data[i]);
      i := i + 1;
    }
  }

  /** Stores as many whole words of `data` as there are, returning where they end. */
  method StoreWords(memory: array<uint8>, address: nat, data: seq<uint8>) returns (i: nat)
    requires address + |data| <= memory.Length
    modifies memory
    ensures i <= |data| < i + 4
    ensures memory[..] == Overlay(old(memory[..]), address, data[..i])
  {
    i := 0;
    hide Overlay;
    OverlayNone(memory[..], address, data);
    while i + 4 <= |data|
      invariant i <= |data|
      invariant memory[..] == Overlay(old(memory[..]), address, data[..i])
    {
      OverlayMore(old(memory[..]), address, data, i, i + 4);
      StoreWord(memory, address + i, data[i..i + 4]);
      i := i + 4;
    }
  }

  /** Writes the first bytes of `data`, at most a FIFO's worth, to the window of a port. */
  method WriteTxFifo(memory: array<uint8>, port: nat, data: seq<uint8>) returns (written: nat)
    requires memory.Length == MMIO_SIZE && port < PORT_COUNT
    modifies memory
    ensures written == Min(|data|, FIFO_CAPACITY)
    ensures memory[..] == Overlay(old(memory[..]), Window(port), data[..written])
  {
    var count := |data|;
    if count > FIFO_CAPACITY {
      count := FIFO_CAPACITY;
    }
    var i := StoreWords(memory, Window(port), data[..count]);
    StoreBytes(memory, Window(port), data[..count], i, old(memory[..]));
    return count;
  }

  /** Loads as many whole words of `source` as there are, returning where they end. */
  method LoadWords(source: seq<uint8>, data: array<uint8>) returns (i: nat)
    requires |source| <= data.Length
    modifies data
    ensures i <= |source| < i + 4
    ensures data[..] == Overlay(old(data[..]), 0, source[..i])
  {
    i := 0;
    hide Overlay;
    OverlayNone(data[..], 0, source);
    while i + 4 <= |source|
      invariant i <= |source|
      invariant data[..] == Overlay(old(data[..]), 0, source[..i])
    {
      OverlayMore(old(data[..]), 0, source, i, i + 4);
      LoadWord(source[i..i + 4], data, i);
      i := i + 4;
    }
  }

  /**
    Reads from the window of a port, no more than the level register reports at that moment.
    `memory` is what the register file presents to loads.
   */
  method ReadRxFifo(memory: seq<uint8>, port: nat, data: array<uint8>, length: nat, available: Level)
    returns (count: nat)
    requires |memory| == MMIO_SIZE && port < PORT_COUNT
    requires length <= data.Length
    modifies data
    ensures count == Min(length, available)
    ensures data[..] == Overlay(old(data[..]), 0, memory[Window(port)..Window(port) + count])
  {
    count := length;
    if count > available {
      count := available;
    }
    if count > FIFO_CAPACITY {
      count := FIFO_CAPACITY;
    }
    var i := LoadWords(memory[Window(port)..Window(port) + count], data);
    StoreBytes(data, 0, memory[Window(port)..Window(port) + count], i, old(data[..]));
  }

  /** What lies in the windows after a write to one of them: its bytes there, and nothing new anywhere else. */
  lemma WindowHolds(memory: seq<uint8>, port: nat, other: nat, bytes: seq<uint8>)
    requires |memory| == MMIO_SIZE && port < PORT_COUNT && other < PORT_COUNT && |bytes| <= FIFO_CAPACITY
    ensures var written := Overlay(memory, Window(port), bytes);
      && written[Window(port)..Window(port) + |bytes|] == bytes
      && (other != port ==>
           written[Window(other)..Window(other) + FIFO_CAPACITY] == memory[Window(other)..Window(other) + FIFO_CAPACITY])
  {
  }

  /** Where the windows are: that of port p starts at 0x400 * p + 0x100, and a write to it stores there and nowhere else. */
  lemma WindowAddresses(memory: seq<uint8>, port: nat, bytes: seq<uint8>)
    requires |memory| == 0x2000 && port < 8 && |bytes| <= 256
    ensures var written := Overlay(memory, Window(port), bytes);
      forall a :: 0 <= a < 0x2000 ==>
        written[a] == if 0x400 * port + 0x100 <= a < 0x400 * port + 0x100 + |bytes| then bytes[a - 0x400 * port - 0x100]
                      else memory[a]
    ensures var window := memory[Window(port)..Window(port) + 256];
      forall i :: 0 <= i < 256 ==> window[i] == memory[0x400 * port + 0x100 + i]
  {
  }
}
