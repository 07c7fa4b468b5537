/**
  The calls that move bytes through the device's FIFO windows, as functions on a port's rings.
  The level registers and the bytes a window presents are the device's choice at every access, so they are
  arguments; the receive level is read twice by one staging step, and the two readings may differ.
 */
module HwModel {
  import opened Uart
  import opened Framing
  import opened Mmio
  import opened PortModel

  /** The bytes one port's window presents to loads. */
  type WindowBytes = w: seq<uint8> | |w| == FIFO_CAPACITY witness seq(FIFO_CAPACITY, _ => 0)

  /** A port after a call, and the bytes the call stored to the window, in order. */
  datatype HwResult = HwResult(state: PortState, emitted: seq<uint8>)

  function FlushCount(queue: seq<uint8>, txLevel: Level): (n: nat)
    ensures n <= |queue| && n <= txLevel && (n == |queue| || n == txLevel)
  {
    Min(|queue|, txLevel)
  }

  function Flush(s: PortState, txLevel: Level): HwResult {
    var n := FlushCount(s.txQueue, txLevel);
    HwResult(s.(txQueue := s.txQueue[n..]), s.txQueue[..n])
  }

  /** How many bytes staging takes, the level reading `first` and then `second`. */
  function StageCount(s: PortState, first: Level, second: Level): (n: nat)
    requires |s.rxFifo| <= RING_STORAGE_CAPACITY
    ensures n <= first && n <= second && |s.rxFifo| + n <= RING_STORAGE_CAPACITY
  {
    Min(Min(first, RING_STORAGE_CAPACITY - |s.rxFifo|), second)
  }

  function Stage(s: PortState, window: WindowBytes, first: Level, second: Level): PortState
    requires |s.rxFifo| <= RING_STORAGE_CAPACITY
  {
    s.(rxFifo := s.rxFifo + window[..StageCount(s, first, second)])
  }

  /** An accepted packet is queued and the queue flushed; a refused one leaves everything alone, the window too. */
  function WriteHw(s: PortState, data: seq<uint8>, txLevel: Level): HwResult {
    if Accepts(s.txQueue, data) then Flush(Write(s, data), txLevel) else HwResult(s, [])
  }

  function PollHw(s: PortState, txLevel: Level, window: WindowBytes, first: Level, second: Level): HwResult
    requires |s.rxFifo| <= RING_STORAGE_CAPACITY
  {
    var flushed := Flush(s, txLevel);
    HwResult(Stage(flushed.state, window, first, second), flushed.emitted)
  }

  function ReadHw(s: PortState, window: WindowBytes, first: Level, second: Level, length: nat): ReadResult
    requires |s.rxFifo| <= RING_STORAGE_CAPACITY
  {
    Read(Stage(s, window, first, second), length)
  }

  /**
    A write through the device keeps every byte in order between the window and the queue, and emits as much as the
    level allows; a refused packet emits nothing, not even what was queued before.
   */
  lemma WriteHwEmits(s: PortState, data: seq<uint8>, txLevel: Level)
    ensures var r := WriteHw(s, data, txLevel);
      if Accepts(s.txQueue, data) then
        && r.emitted + r.state.txQueue == s.txQueue + Frame(data)
        && |r.emitted| <= txLevel && (|r.emitted| == txLevel || r.state.txQueue == [])
        && r.state == s.(txQueue := r.state.txQueue)
      else
        r == HwResult(s, [])
  {
    var queue := s.txQueue + Frame(data);
    assert queue[..FlushCount(queue, txLevel)] + queue[FlushCount(queue, txLevel)..] == queue;
  }

  /** A poll through the device does the same for the queue, and takes as much as both readings and the room allow. */
  lemma PollHwMoves(s: PortState, txLevel: Level, window: WindowBytes, first: Level, second: Level)
    requires s.WithinCapacity()
    ensures var r := PollHw(s, txLevel, window, first, second);
      && r.emitted + r.state.txQueue == s.txQueue
      && |r.emitted| <= txLevel && (|r.emitted| == txLevel || r.state.txQueue == [])
      && s.rxFifo <= r.state.rxFifo <= s.rxFifo + window
      && |r.state.rxFifo| - |s.rxFifo| <= first && |r.state.rxFifo| - |s.rxFifo| <= second
      && (|r.state.rxFifo| - |s.rxFifo| in {first, second} || |r.state.rxFifo| == RING_STORAGE_CAPACITY)
      && r.state == s.(txQueue := r.state.txQueue, rxFifo := r.state.rxFifo)
  {
    assert s.txQueue[..FlushCount(s.txQueue, txLevel)] + s.txQueue[FlushCount(s.txQueue, txLevel)..] == s.txQueue;
  }

  // ------------------------------------------------------------ draining the transmit queue

  datatype HwPoll = HwPoll(txLevel: Level, window: WindowBytes, first: Level, second: Level)

  /** A port after a run of polls without writes, and everything they emitted. */
  function PollAll(s: PortState, polls: seq<HwPoll>): (r: HwResult)
    requires s.WithinCapacity()
    ensures r.state.WithinCapacity()
  {
    if polls == [] then HwResult(s, []) else
      var before := PollAll(s, polls[..|polls| - 1]);
      var p := polls[|polls| - 1];
      var last := PollHw(before.state, p.txLevel, p.window, p.first, p.second);
      HwResult(last.state, before.emitted + last.emitted)
  }

  /** Whatever the levels, what was emitted and what is still queued is the queue as it was. */
  lemma {:induction false} PollsEmitInOrder(s: PortState, polls: seq<HwPoll>)
    requires s.WithinCapacity()
    ensures var r := PollAll(s, polls);
      r.emitted + r.state.txQueue == s.txQueue
  {
    if polls != [] {
      PollsEmitInOrder(s, polls[..|polls| - 1]);
      var before := PollAll(s, polls[..|polls| - 1]);
      Rejoin(before.emitted, before.state.txQueue, FlushCount(before.state.txQueue, polls[|polls| - 1].txLevel));
    }
  }

  lemma {:induction false} PollsShrinkQueue(s: PortState, polls: seq<HwPoll>, level: nat)
    requires s.WithinCapacity()
    requires forall i :: 0 <= i < |polls| ==> polls[i].txLevel >= level
    ensures |PollAll(s, polls).state.txQueue| <= if |s.txQueue| > |polls| * level then |s.txQueue| - |polls| * level else 0
  {
    if polls != [] {
      var init := polls[..|polls| - 1];
      PollsShrinkQueue(s, init, level);
      OneMore(|init|, level);
    }
  }

  lemma OneMore(k: nat, m: nat)
    ensures (k + 1) * m == k * m + m
  {
  }

  function CeilDiv(a: nat, m: nat): nat
    requires m > 0
  {
    (a + m - 1) / m
  }

  lemma EnoughRounds(a: nat, k: nat, m: nat)
    requires m > 0 && k >= CeilDiv(a, m)
    ensures k * m >= a
  {
  }

  /** If the device always reports room for `level` bytes or more, enough polls empty the queue onto the wire, in order. */
  lemma PollsEmptyQueue(s: PortState, polls: seq<HwPoll>, level: nat)
    requires s.WithinCapacity() && level > 0
    requires forall i :: 0 <= i < |polls| ==> polls[i].txLevel >= level
    requires |polls| >= CeilDiv(|s.txQueue|, level)
    ensures PollAll(s, polls).state.txQueue == []
    ensures PollAll(s, polls).emitted == s.txQueue
  {
    PollsShrinkQueue(s, polls, level);
    PollsEmitInOrder(s, polls);
    EnoughRounds(|s.txQueue|, |polls|, level);
    assert PollAll(s, polls).emitted + [] == PollAll(s, polls).emitted;
  }
}
