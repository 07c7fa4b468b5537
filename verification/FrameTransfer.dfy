/** Moving whole frames between two rings, as functions on the rings' contents. */
module FrameTransfer {
  import opened Uart
  import opened Framing
  import opened FrameStream
  import opened Draining

  /** The state in which a transfer leaves both rings, its status, and how many frames it moved. */
  datatype Transfer = Transfer(status: Status, source: seq<uint8>, destination: seq<uint8>, count: nat)

  /** Moves one frame; a frame that does not fit is cut short and reported. */
  function TransferFrame(source: seq<uint8>, destination: seq<uint8>, capacity: nat): Transfer
    requires |destination| <= capacity
  {
    var r := ReadFrame(source, MAX_ENCODED_BYTE_COUNT);
    if r.status != Ok then
      Transfer(r.status, r.rest, destination, 0)
    else if |r.frame| > capacity - |destination| then
      Transfer(InvalidFrame, r.rest, destination + r.frame[..capacity - |destination|], 0)
    else
      Transfer(Ok, r.rest, destination + r.frame, 1)
  }

  predicate CanAcceptFrame(ring: seq<uint8>, capacity: nat, maxFrameCount: nat) {
    FrameCount(ring) < maxFrameCount && |ring| + MAX_ENCODED_BYTE_COUNT <= capacity
  }

  /** Moves frames while the source counts one and the destination can accept one. */
  function TransferFrames(source: seq<uint8>, destination: seq<uint8>, capacity: nat, maxFrameCount: nat): Transfer
    requires |destination| <= capacity
    decreases |source|
  {
    if FrameCount(source) == 0 || !CanAcceptFrame(destination, capacity, maxFrameCount) then
      Transfer(Ok, source, destination, 0)
    else
      var one := TransferFrame(source, destination, capacity);
      if one.status != Ok then one else
        var more := TransferFrames(one.source, one.destination, capacity, maxFrameCount);
        more.(count := if more.status == Ok then more.count + 1 else 0)
  }

  lemma TransfersFrame(p: seq<uint8>, rest: seq<uint8>, destination: seq<uint8>, capacity: nat)
    requires IsPayload(p) && |destination| + MAX_ENCODED_BYTE_COUNT <= capacity
    ensures TransferFrame(Frame(p) + rest, destination, capacity) == Transfer(Ok, rest, destination + Frame(p), 1)
  {
    ReadsFrame(p, rest);
  }

  /** What moving one frame does to any contents that hold one: moved whole, given up as too long, or cut for want of room. */
  lemma TransferFrameMoves(skip: seq<uint8>, body: seq<uint8>, rest: seq<uint8>, destination: seq<uint8>, capacity: nat)
    requires FRAME_DELIMITER !in skip && FRAME_DELIMITER !in body && |destination| <= capacity
    ensures var frame := [FRAME_DELIMITER] + body + [FRAME_DELIMITER];
      TransferFrame(skip + frame + rest, destination, capacity) ==
        if |frame| > MAX_ENCODED_BYTE_COUNT then
          Transfer(InvalidFrame, (frame + rest)[MAX_ENCODED_BYTE_COUNT + 1..], destination, 0)
        else if |destination| + |frame| > capacity then
          Transfer(InvalidFrame, rest, destination + frame[..capacity - |destination|], 0)
        else
          Transfer(Ok, rest, destination + frame, 1)
  {
    hide ReadFrame;
    var frame := [FRAME_DELIMITER] + body + [FRAME_DELIMITER];
    if |frame| <= MAX_ENCODED_BYTE_COUNT {
      ReadFrameFinds(skip, body, rest, MAX_ENCODED_BYTE_COUNT);
    } else {
      TooLong(skip, body, rest, MAX_ENCODED_BYTE_COUNT);
    }
  }

  lemma TooLong(skip: seq<uint8>, body: seq<uint8>, rest: seq<uint8>, capacity: nat)
    requires FRAME_DELIMITER !in skip && FRAME_DELIMITER !in body && |body| + 2 > capacity > 0
    ensures var frame := [FRAME_DELIMITER] + body + [FRAME_DELIMITER];
      var r := ReadFrame(skip + frame + rest, capacity);
      r.status == InvalidFrame && r.rest == (frame + rest)[capacity + 1..]
  {
    hide ReadFrame;
    var whole := [FRAME_DELIMITER] + body + [FRAME_DELIMITER] + rest;
    var taken, left := whole[..capacity + 1], whole[capacity + 1..];
    assert whole == taken + left;
    assert taken[1..capacity] == body[..capacity - 1];
    Associate(skip, [FRAME_DELIMITER] + body + [FRAME_DELIMITER], rest);
    Associate(skip, taken, left);
    ReadFrameOverflows(skip, taken, left, capacity);
  }

  /** And to contents that hold none: the noise goes, and so does the start of a frame, or as much as is read of it. */
  lemma TransferFrameFindsNone(skip: seq<uint8>, taken: seq<uint8>, destination: seq<uint8>, capacity: nat)
    requires FRAME_DELIMITER !in skip && IsPartial(taken) && |destination| <= capacity
    ensures var left := if |taken| > MAX_ENCODED_BYTE_COUNT then taken[MAX_ENCODED_BYTE_COUNT + 1..] else [];
      TransferFrame(skip + taken, destination, capacity) == Transfer(InvalidFrame, left, destination, 0)
  {
    hide ReadFrame;
    if |taken| <= MAX_ENCODED_BYTE_COUNT {
      ReadFrameExhausts(skip, taken, MAX_ENCODED_BYTE_COUNT);
    } else {
      NoneFound(skip, taken, MAX_ENCODED_BYTE_COUNT);
    }
  }

  lemma NoneFound(skip: seq<uint8>, taken: seq<uint8>, capacity: nat)
    requires FRAME_DELIMITER !in skip && IsPartial(taken) && |taken| > capacity > 0
    ensures var r := ReadFrame(skip + taken, capacity);
      r.status == InvalidFrame && r.rest == taken[capacity + 1..]
  {
    hide ReadFrame;
    var front := taken[..capacity + 1];
    assert front[1..capacity] == taken[1..][..capacity - 1];
    ReadFrameOverflows(skip, front, taken[capacity + 1..], capacity);
    assert skip + front + taken[capacity + 1..] == skip + taken;
  }

  // ------------------------------------------------------------ the transfer loop on any contents

  /** The contents of the two rings of a transfer. */
  datatype Rings = Rings(source: seq<uint8>, destination: seq<uint8>)

  /** Both rings after n transfers of one frame. */
  ghost function AfterMoves(r: Rings, capacity: nat, n: nat): (t: Rings)
    requires |r.destination| <= capacity
    ensures |t.destination| <= capacity
  {
    if n == 0 then r else
      var before := AfterMoves(r, capacity, n - 1);
      var one := TransferFrame(before.source, before.destination, capacity);
      Rings(one.source, one.destination)
  }

  ghost predicate MayMove(r: Rings, capacity: nat, maxFrameCount: nat) {
    FrameCount(r.source) > 0 && FrameCount(r.destination) < maxFrameCount && |r.destination| + 2050 <= capacity
  }

  /** A frame may move, and does. */
  ghost predicate Moves(r: Rings, capacity: nat, maxFrameCount: nat)
    requires |r.destination| <= capacity
  {
    MayMove(r, capacity, maxFrameCount) && TransferFrame(r.source, r.destination, capacity).status == Ok
  }

  /** The loop moves frames as long as it may, and stops with success when it may not, or at the first one that fails. */
  lemma {:induction false} TransferFramesIs(r: Rings, capacity: nat, maxFrameCount: nat) returns (n: nat)
    requires |r.destination| <= capacity
    ensures forall j: nat :: j < n ==> Moves(AfterMoves(r, capacity, j), capacity, maxFrameCount)
    ensures var end := AfterMoves(r, capacity, n);
      && !Moves(end, capacity, maxFrameCount)
      && TransferFrames(r.source, r.destination, capacity, maxFrameCount) ==
           if MayMove(end, capacity, maxFrameCount) then TransferFrame(end.source, end.destination, capacity)
           else Transfer(Ok, end.source, end.destination, n)
    decreases |r.source|
  {
    hide FrameCount, TransferFrame;
    n := 0;
    FailedCountsNone(r, capacity);
    if Moves(r, capacity, maxFrameCount) {
      var one := TransferFrame(r.source, r.destination, capacity);
      TransferShrinks(r.source, r.destination, capacity);
      var next := Rings(one.source, one.destination);
      var m := TransferFramesIs(next, capacity, maxFrameCount);
      FailedCountsNone(AfterMoves(next, capacity, m), capacity);
      forall j: nat | j <= m
        ensures AfterMoves(r, capacity, j + 1) == AfterMoves(next, capacity, j)
      {
        FirstMove(r, capacity, j);
      }
      n := m + 1;
      forall j: nat | j < n
        ensures Moves(AfterMoves(r, capacity, j), capacity, maxFrameCount)
      {
        if j > 0 {
          assert AfterMoves(r, capacity, j - 1 + 1) == AfterMoves(next, capacity, j - 1);
        }
      }
    }
  }

  lemma FailedCountsNone(r: Rings, capacity: nat)
    requires |r.destination| <= capacity
    ensures var one := TransferFrame(r.source, r.destination, capacity);
      one.status != Ok ==> one.count == 0
  {
  }

  lemma TransferShrinks(source: seq<uint8>, destination: seq<uint8>, capacity: nat)
    requires |destination| <= capacity && TransferFrame(source, destination, capacity).status == Ok
    ensures var one := TransferFrame(source, destination, capacity);
      |one.source| < |source| && |one.destination| <= capacity && one.count == 1
  {
  }

  /** Moving one frame first, and n more, is moving n + 1. */
  lemma {:induction false} FirstMove(r: Rings, capacity: nat, n: nat)
    requires |r.destination| <= capacity
    ensures AfterMoves(r, capacity, n + 1) == AfterMoves(AfterMoves(r, capacity, 1), capacity, n)
  {
    hide TransferFrame;
    if n > 0 {
      FirstMove(r, capacity, n - 1);
    }
  }

  /** The guard under which the next frame goes, when the destination already holds the packets `held`. */
  ghost predicate Room(held: seq<seq<uint8>>, capacity: nat, maxFrameCount: nat) {
    |held| < maxFrameCount && |Concat(held)| + MAX_ENCODED_BYTE_COUNT <= capacity
  }

  lemma RoomIsAccepted(held: seq<seq<uint8>>, capacity: nat, maxFrameCount: nat)
    requires ArePayloads(held)
    ensures CanAcceptFrame(Concat(held), capacity, maxFrameCount) <==> Room(held, capacity, maxFrameCount)
  {
    ScannersOnStream(held, []);
    assert Concat(held) + [] == Concat(held);
  }

  /** How many leading packets go, one at a time, while there is room for the largest frame. */
  ghost function Movable(ps: seq<seq<uint8>>, held: seq<seq<uint8>>, capacity: nat, maxFrameCount: nat): (n: nat)
    ensures n <= |ps|
  {
    if ps == [] || !Room(held, capacity, maxFrameCount) then 0
    else 1 + Movable(ps[1..], held + [ps[0]], capacity, maxFrameCount)
  }

  /** That number is the longest run of leading packets for which there was room each time. */
  lemma {:induction false} MovableIsMaximal(ps: seq<seq<uint8>>, held: seq<seq<uint8>>, capacity: nat, maxFrameCount: nat)
    ensures var n := Movable(ps, held, capacity, maxFrameCount);
      && (forall j :: 0 <= j < n ==> Room(held + ps[..j], capacity, maxFrameCount))
      && (n == |ps| || !Room(held + ps[..n], capacity, maxFrameCount))
  {
    var n := Movable(ps, held, capacity, maxFrameCount);
    assert held + ps[..0] == held;
    if n > 0 {
      MovableIsMaximal(ps[1..], held + [ps[0]], capacity, maxFrameCount);
      forall j | 0 < j <= n
        ensures held + ps[..j] == held + [ps[0]] + ps[1..][..j - 1]
      {
        assert ps[..j] == [ps[0]] + ps[1..][..j - 1];
      }
    }
  }

  /**
    From a stream of packets into a ring holding only complete packets: no error, and exactly the movable
    packets go, every one of them whole and in order.
   */
  lemma {:induction false} TransferStream(ps: seq<seq<uint8>>, tail: seq<uint8>, held: seq<seq<uint8>>,
                                          capacity: nat, maxFrameCount: nat)
    requires ArePayloads(ps) && IsPartial(tail) && ArePayloads(held) && |Concat(held)| <= capacity
    ensures var n := Movable(ps, held, capacity, maxFrameCount);
      TransferFrames(Concat(ps) + tail, Concat(held), capacity, maxFrameCount)
        == Transfer(Ok, Concat(ps[n..]) + tail, Concat(held + ps[..n]), n)
  {
    hide Concat, TransferFrames;
    var n := Movable(ps, held, capacity, maxFrameCount);
    if n == 0 {
      TransferStops(ps, tail, held, capacity, maxFrameCount);
      assert held + ps[..0] == held;
      assert ps[0..] == ps;
    } else {
      TransferStep(ps, tail, held, capacity, maxFrameCount);
      TransferStream(ps[1..], tail, held + [ps[0]], capacity, maxFrameCount);
      Shift(ps, held, n);
    }
  }

  lemma Shift(ps: seq<seq<uint8>>, held: seq<seq<uint8>>, n: nat)
    requires 0 < n <= |ps|
    ensures ps[1..][n - 1..] == ps[n..]
    ensures held + [ps[0]] + ps[1..][..n - 1] == held + ps[..n]
  {
  }

  lemma TransferStops(ps: seq<seq<uint8>>, tail: seq<uint8>, held: seq<seq<uint8>>, capacity: nat, maxFrameCount: nat)
    requires ArePayloads(ps) && IsPartial(tail) && ArePayloads(held) && |Concat(held)| <= capacity
    requires ps == [] || !Room(held, capacity, maxFrameCount)
    ensures TransferFrames(Concat(ps) + tail, Concat(held), capacity, maxFrameCount)
         == Transfer(Ok, Concat(ps) + tail, Concat(held), 0)
  {
    CountStream(ps, tail, false);
    RoomIsAccepted(held, capacity, maxFrameCount);
  }

  lemma TransferStep(ps: seq<seq<uint8>>, tail: seq<uint8>, held: seq<seq<uint8>>, capacity: nat, maxFrameCount: nat)
    requires ArePayloads(ps) && IsPartial(tail) && ArePayloads(held)
    requires ps != [] && Room(held, capacity, maxFrameCount)
    ensures |Concat(held + [ps[0]])| <= capacity
    ensures var more := TransferFrames(Concat(ps[1..]) + tail, Concat(held + [ps[0]]), capacity, maxFrameCount);
      TransferFrames(Concat(ps) + tail, Concat(held), capacity, maxFrameCount)
        == more.(count := if more.status == Ok then more.count + 1 else 0)
  {
    CountStream(ps, tail, false);
    RoomIsAccepted(held, capacity, maxFrameCount);
    TransferFirst(ps, tail, held, capacity);
  }

  lemma TransferFirst(ps: seq<seq<uint8>>, tail: seq<uint8>, held: seq<seq<uint8>>, capacity: nat)
    requires ps != [] && IsPayload(ps[0]) && |Concat(held)| + MAX_ENCODED_BYTE_COUNT <= capacity
    ensures TransferFrame(Concat(ps) + tail, Concat(held), capacity)
         == Transfer(Ok, Concat(ps[1..]) + tail, Concat(held + [ps[0]]), 1)
    ensures |Concat(held + [ps[0]])| <= capacity
  {
    var rest := Concat(ps[1..]) + tail;
    assert Concat(ps) + tail == Frame(ps[0]) + rest;
    TransfersFrame(ps[0], rest, Concat(held), capacity);
    One(ps[0]);
    ConcatAppend(held, [ps[0]]);
  }

  /** No frame is gained or lost by a whole-frame transfer. */
  lemma TransferKeepsCount(ps: seq<seq<uint8>>, tail: seq<uint8>, held: seq<seq<uint8>>,
                           capacity: nat, maxFrameCount: nat)
    requires ArePayloads(ps) && IsPartial(tail) && ArePayloads(held) && |Concat(held)| <= capacity
    ensures var source, destination := Concat(ps) + tail, Concat(held);
      var t := TransferFrames(source, destination, capacity, maxFrameCount);
      && FrameCount(t.source) + FrameCount(t.destination) == FrameCount(source) + FrameCount(destination)
      && t.destination + t.source == destination + source
  {
    hide Concat, FrameCount, TransferFrames;
    var n := Movable(ps, held, capacity, maxFrameCount);
    TransferStream(ps, tail, held, capacity, maxFrameCount);
    ScannersOnStream(ps, tail);
    CompleteCount(held);
    ScannersOnStream(ps[n..], tail);
    CompleteCount(held + ps[..n]);
    ConcatAppend(held, ps[..n]);
    SplitConcat(ps, n);
    Reassociate(Concat(held), Concat(ps[..n]), Concat(ps[n..]), tail);
  }

  lemma CompleteCount(ps: seq<seq<uint8>>)
    requires ArePayloads(ps)
    ensures FrameCount(Concat(ps)) == |ps|
  {
    ScannersOnStream(ps, []);
    assert Concat(ps) + [] == Concat(ps);
  }

  lemma Reassociate(held: seq<uint8>, moved: seq<uint8>, left: seq<uint8>, tail: seq<uint8>)
    ensures held + moved + (left + tail) == held + (moved + left + tail)
  {
  }
}
