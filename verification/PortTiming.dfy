/** How long polling takes: bytes move at most one FIFO's worth at a time, and never less than they can. */
module PortTiming {
  import opened Uart
  import opened Framing
  import opened FrameStream
  import opened PortModel

  function PollTimes(s: PortState, k: nat): (r: PortState)
    requires s.WithinCapacity()
    ensures r.WithinCapacity()
  {
    if k == 0 then s else Poll(PollTimes(s, k - 1))
  }

  /** The bytes k rounds can move. */
  function Loads(k: nat): nat {
    if k == 0 then 0 else Loads(k - 1) + FIFO_CAPACITY
  }

  lemma {:induction false} LoadsIs(k: nat)
    ensures Loads(k) == k * 256
  {
    if k > 0 {
      LoadsIs(k - 1);
    }
  }

  /** The bytes k rounds do move from `source` to `destination`. */
  function Moved(source: seq<uint8>, destination: seq<uint8>, k: nat): (n: nat)
    requires |destination| <= RING_STORAGE_CAPACITY
    ensures n <= |source| && |destination| + n <= RING_STORAGE_CAPACITY
  {
    Min(Min(Loads(k), |source|), RING_STORAGE_CAPACITY - |destination|)
  }

  /** One more round, after k of them. */
  lemma MoveRound(front: seq<uint8>, back: seq<uint8>, destination: seq<uint8>, source: seq<uint8>, k: nat)
    requires |destination| <= RING_STORAGE_CAPACITY
    requires front == destination + source[..Moved(source, destination, k)] && back == source[Moved(source, destination, k)..]
    ensures var n := MoveCount(back, front, RING_STORAGE_CAPACITY, FIFO_CAPACITY);
      var next := Moved(source, destination, k + 1);
      && back[n..] == source[next..]
      && front + back[..n] == destination + source[..next]
  {
    var moved, next := Moved(source, destination, k), Moved(source, destination, k + 1);
    assert MoveCount(back, front, RING_STORAGE_CAPACITY, FIFO_CAPACITY) == next - moved;
    assert source[..next] == source[..moved] + source[moved..][..next - moved];
    Associate(destination, source[..moved], source[moved..][..next - moved]);
  }

  /** `fifo` and `queue` are what k rounds make of `fifo0` and `queue0`. */
  ghost predicate AfterRounds(fifo: seq<uint8>, queue: seq<uint8>, fifo0: seq<uint8>, queue0: seq<uint8>, k: nat) {
    && |fifo0| <= RING_STORAGE_CAPACITY
    && var moved := Moved(queue0, fifo0, k);
       fifo == fifo0 + queue0[..moved] && queue == queue0[moved..]
  }

  lemma NoRounds(fifo: seq<uint8>, queue: seq<uint8>)
    requires |fifo| <= RING_STORAGE_CAPACITY
    ensures AfterRounds(fifo, queue, fifo, queue, 0)
  {
  }

  lemma RoundOfPoll(s: PortState, r: PortState, k: nat)
    requires s.WithinCapacity() && r.WithinCapacity()
    ensures AfterRounds(r.rxFifo, r.rxPending, s.rxFifo, s.rxPending, k)
        ==> AfterRounds(Poll(r).rxFifo, Poll(r).rxPending, s.rxFifo, s.rxPending, k + 1)
    ensures AfterRounds(r.txFifo, r.txQueue, s.txFifo, s.txQueue, k)
        ==> AfterRounds(Poll(r).txFifo, Poll(r).txQueue, s.txFifo, s.txQueue, k + 1)
  {
    hide Moved, MoveCount;
    if AfterRounds(r.rxFifo, r.rxPending, s.rxFifo, s.rxPending, k) {
      MoveRound(r.rxFifo, r.rxPending, s.rxFifo, s.rxPending, k);
    }
    if AfterRounds(r.txFifo, r.txQueue, s.txFifo, s.txQueue, k) {
      MoveRound(r.txFifo, r.txQueue, s.txFifo, s.txQueue, k);
    }
  }

  /**
    In each direction bytes reach the FIFO 256 at a time, in order, until none are left or the FIFO is full;
    in particular enough polls empty a queue for which the FIFO has room.
   */
  lemma {:induction false} Progress(s: PortState, k: nat)
    requires s.WithinCapacity()
    ensures AfterRounds(PollTimes(s, k).rxFifo, PollTimes(s, k).rxPending, s.rxFifo, s.rxPending, k)
    ensures AfterRounds(PollTimes(s, k).txFifo, PollTimes(s, k).txQueue, s.txFifo, s.txQueue, k)
  {
    hide AfterRounds, Poll;
    if k == 0 {
      NoRounds(s.rxFifo, s.rxPending);
      NoRounds(s.txFifo, s.txQueue);
    } else {
      Progress(s, k - 1);
      RoundOfPoll(s, PollTimes(s, k - 1), k - 1);
    }
  }

  function PollsNeeded(length: nat): nat {
    (length + 255) / 256
  }

  /**
    A packet received into empty receive rings becomes ready at one definite poll, the first by which
    its last byte can have moved, and stays ready; nine polls are enough for any packet.
   */
  lemma ReadyAtPoll(s: PortState, data: seq<uint8>, k: nat)
    requires s.WithinCapacity() && s.rxFifo == [] && s.rxPending == [] && IsPayload(data)
    ensures Receive(s, data).WithinCapacity()
    ensures Readiness(PollTimes(Receive(s, data), k)) == MessageReady <==> k >= PollsNeeded(|Frame(data)|)
    ensures PollsNeeded(|Frame(data)|) <= 9
  {
    LoadsIs(k);
    var received := Receive(s, data);
    var frame := Frame(data);
    assert received.rxPending == [] + frame == frame;
    Progress(received, k);
    var moved := Moved(frame, [], k);
    assert PollTimes(received, k).rxFifo == [] + frame[..moved] == frame[..moved];
    if k >= PollsNeeded(|frame|) {
      assert frame[..moved] == frame;
      assert frame[0] == FRAME_DELIMITER && frame[|frame| - 1] == FRAME_DELIMITER;
    } else {
      FramePrefixIsPartial(data, moved);
      PartialHasNoFrame(frame[..moved]);
    }
  }
}
