/**
  The two loops that take packets off a FIFO: decoding received frames into the read queue,
  and reading whole packets out of the transmit FIFO. Both stop when their target is full,
  and both lose data when a packet does not fit. This module says exactly when, and what.
 */
module Draining {
  import opened Uart
  import opened Framing
  import opened FrameStream

  /** The state in which a loop leaves its FIFO and its target, and the status it reports. */
  datatype Drained = Drained(status: Status, fifo: seq<uint8>, target: seq<uint8>)

  /** What one attempt to take a packet off a FIFO finds. */
  datatype Arrival = Waiting | Packet(payload: seq<uint8>, rest: seq<uint8>) | Broken(error: Status, rest: seq<uint8>)

  function NextPacket(fifo: seq<uint8>): (a: Arrival)
    ensures a.Packet? ==> |a.rest| < |fifo|
  {
    var r := ReadFrame(fifo, MAX_ENCODED_BYTE_COUNT);
    if SecondDelimiter(fifo) == |fifo| then Waiting
    else if r.status != Ok then Broken(r.status, r.rest)
    else
      match Decode(r.frame, QUEUE_CAPACITY)
      case Rejected(error, _) => Broken(error, r.rest)
      case Decoded(p) => Packet(p, r.rest)
  }

  lemma NextOfStream(p: seq<uint8>, rest: seq<uint8>)
    requires IsPayload(p)
    ensures NextPacket(Frame(p) + rest) == Packet(p, rest)
  {
    ReadsFrame(p, rest);
    HasCompleteFrameIff(Frame(p) + rest);
  }

  lemma NextOfTail(tail: seq<uint8>)
    ensures NextPacket(tail) == Waiting <==> !HasCompleteFrame(tail)
  {
  }

  /** Parsing is taking packets one after the other until there is none to take. */
  lemma ParseStep(s: seq<uint8>)
    ensures match NextPacket(s)
      case Packet(p, rest) => Parse(s) == ([p] + Parse(rest).0, Parse(rest).1)
      case _ => Parse(s) == ([], s)
  {
    hide Decode, FirstDelimiter;
  }

  /** The receive loop: it only checks that the queue is not full, then writes what fits of the payload. */
  function DecodeIntoQueue(fifo: seq<uint8>, queue: seq<uint8>, capacity: nat): Drained
    decreases |fifo|
  {
    if |queue| >= capacity then Drained(Ok, fifo, queue) else
      match NextPacket(fifo)
      case Waiting => Drained(Ok, fifo, queue)
      case Broken(error, rest) => Drained(error, rest, queue)
      case Packet(p, rest) =>
        if |p| > capacity - |queue| then Drained(InvalidFrame, rest, queue + p[..capacity - |queue|])
        else DecodeIntoQueue(rest, queue + p, capacity)
  }

  /** The transmit-side reader: it refuses a packet that does not fit, after taking it off the FIFO. */
  function DrainPackets(fifo: seq<uint8>, data: seq<uint8>, length: nat): Drained
    decreases |fifo|
  {
    if |data| >= length then Drained(Ok, fifo, data) else
      match NextPacket(fifo)
      case Waiting => Drained(Ok, fifo, data)
      case Broken(error, rest) => Drained(error, rest, data)
      case Packet(p, rest) =>
        if |p| > length - |data| then Drained(InvalidArgument, rest, data)
        else DrainPackets(rest, data + p, length)
  }

  /** A frame that cannot be taken as a packet is reported as invalid, never as a success or for want of room. */
  lemma BrokenIsInvalid(fifo: seq<uint8>)
    ensures NextPacket(fifo).Broken? ==> NextPacket(fifo).error == InvalidFrame
  {
    hide Decode, FirstDelimiter;
    DecodeOverrun(ReadFrame(fifo, MAX_ENCODED_BYTE_COUNT).frame, QUEUE_CAPACITY);
  }

  /** On any contents, the receive loop stops with success only when no frame is complete or the queue is full. */
  lemma {:induction false} DecodeGoesOn(fifo: seq<uint8>, queue: seq<uint8>, capacity: nat)
    ensures var d := DecodeIntoQueue(fifo, queue, capacity);
      d.status == Ok ==> !HasCompleteFrame(d.fifo) || |d.target| >= capacity
    decreases |fifo|
  {
    hide NextPacket;
    NextOfTail(fifo);
    BrokenIsInvalid(fifo);
    var next := NextPacket(fifo);
    if |queue| < capacity && next.Packet? && |next.payload| <= capacity - |queue| {
      DecodeGoesOn(next.rest, queue + next.payload, capacity);
    }
  }

  /** Likewise the drain loop: no frame is complete or the buffer is full. */
  lemma {:induction false} DrainGoesOn(fifo: seq<uint8>, data: seq<uint8>, length: nat)
    ensures var d := DrainPackets(fifo, data, length);
      d.status == Ok ==> !HasCompleteFrame(d.fifo) || |d.target| >= length
    decreases |fifo|
  {
    hide NextPacket;
    NextOfTail(fifo);
    BrokenIsInvalid(fifo);
    var next := NextPacket(fifo);
    if |data| < length && next.Packet? && |next.payload| <= length - |data| {
      DrainGoesOn(next.rest, data + next.payload, length);
    }
  }

  // ------------------------------------------------------------ which packets go

  /** How many packets a loop with `room` bytes left takes off the FIFO. */
  function Taken(ps: seq<seq<uint8>>, room: nat): (n: nat)
    ensures n <= |ps|
  {
    if ps == [] || room == 0 then 0
    else if |ps[0]| > room then 1
    else 1 + Taken(ps[1..], room - |ps[0]|)
  }

  /**
    No packet straddles the end of the room: going through the packets in order, either each one
    fits in what is left, or the room is filled to the last byte by whole packets.
   */
  predicate Fits(ps: seq<seq<uint8>>, room: nat) {
    ps == [] || room == 0 || (|ps[0]| <= room && Fits(ps[1..], room - |ps[0]|))
  }

  lemma {:induction false} FitsMeansWholePackets(ps: seq<seq<uint8>>, room: nat)
    ensures Fits(ps, room) <==> |Flatten(ps[..Taken(ps, room)])| <= room
    ensures !Fits(ps, room) ==> Taken(ps, room) > 0 && |Flatten(ps[..Taken(ps, room) - 1])| < room
    ensures Fits(ps, room) && Taken(ps, room) < |ps| ==> |Flatten(ps[..Taken(ps, room)])| == room
  {
    var n := Taken(ps, room);
    if ps == [] || room == 0 {
    } else if |ps[0]| > room {
      assert ps[..1][1..] == [];
      assert Flatten(ps[..1]) == ps[0] + [];
    } else {
      FitsMeansWholePackets(ps[1..], room - |ps[0]|);
      assert ps[..n][1..] == ps[1..][..n - 1];
      if n > 1 {
        assert ps[..n - 1][1..] == ps[1..][..n - 2];
      }
    }
  }

  /** If everything fits, everything goes. */
  lemma {:induction false} EnoughRoom(ps: seq<seq<uint8>>, room: nat)
    requires ArePayloads(ps) && |Flatten(ps)| <= room
    ensures Fits(ps, room) && Taken(ps, room) == |ps|
  {
    if ps != [] {
      EnoughRoom(ps[1..], room - |ps[0]|);
    }
  }

  /** Every packet takes at least two more bytes encoded than decoded. */
  lemma {:induction false} EncodingCosts(ps: seq<seq<uint8>>)
    ensures |Flatten(ps)| + 2 * |ps| <= |Concat(ps)|
  {
    if ps != [] {
      EncodingCosts(ps[1..]);
    }
  }

  // ------------------------------------------------------------ the loops on any contents

  /** `left` is what `fifo` holds once n packets have gone: the last of them ended right in front of it. */
  ghost predicate Leaves(fifo: seq<uint8>, n: nat, left: seq<uint8>) {
    && n <= |Parse(fifo).0|
    && Parse(left) == (Parse(fifo).0[n..], Parse(fifo).1)
    && if n == 0 then left == fifo else EndsBefore(fifo, Parse(fifo).0[n - 1], left)
  }

  ghost predicate EndsBefore(fifo: seq<uint8>, p: seq<uint8>, left: seq<uint8>) {
    exists front :: fifo == front + Frame(p) + left
  }

  /** A packet taken off the FIFO ends right in front of what is left. */
  lemma NextEndsBefore(fifo: seq<uint8>)
    requires NextPacket(fifo).Packet?
    ensures EndsBefore(fifo, NextPacket(fifo).payload, NextPacket(fifo).rest)
  {
    hide Decode, FirstDelimiter, SecondDelimiter;
    var r := ReadFrame(fifo, MAX_ENCODED_BYTE_COUNT);
    var skip, _ := ReadFrameSplits(fifo, MAX_ENCODED_BYTE_COUNT);
    DecodeAcceptsExactlyEncodings(r.frame, NextPacket(fifo).payload, QUEUE_CAPACITY);
    assert fifo == skip + Frame(NextPacket(fifo).payload) + NextPacket(fifo).rest;
  }

  lemma LeavesNone(fifo: seq<uint8>)
    ensures Leaves(fifo, 0, fifo)
  {
    hide Parse;
  }

  lemma LeavesMore(fifo: seq<uint8>, n: nat, left: seq<uint8>)
    requires NextPacket(fifo).Packet? && Leaves(NextPacket(fifo).rest, n, left)
    ensures Leaves(fifo, n + 1, left)
  {
    hide NextPacket, Parse, Frame;
    var next := NextPacket(fifo);
    ParseStep(fifo);
    NextEndsBefore(fifo);
    assert Parse(fifo).0[n + 1..] == Parse(next.rest).0[n..];
    var front :| fifo == front + Frame(next.payload) + next.rest;
    if n > 0 {
      var p := Parse(next.rest).0[n - 1];
      var more :| next.rest == more + Frame(p) + left;
      assert fifo == front + Frame(next.payload) + more + Frame(p) + left;
      assert EndsBefore(fifo, p, left);
    }
  }

  /** Where parsing stops is what is left once every packet has gone. */
  lemma {:induction false} ParseLeaves(fifo: seq<uint8>)
    ensures Leaves(fifo, |Parse(fifo).0|, Parse(fifo).1)
    decreases |fifo|
  {
    hide NextPacket, Parse;
    ParseStep(fifo);
    if NextPacket(fifo).Packet? {
      ParseLeaves(NextPacket(fifo).rest);
      LeavesMore(fifo, |Parse(NextPacket(fifo).rest).0|, Parse(fifo).1);
    } else {
      LeavesNone(fifo);
    }
  }

  function Take(s: seq<uint8>, n: nat): seq<uint8> {
    s[..Min(n, |s|)]
  }

  /** What the drain loop reports on any contents: `ps` and `tail` are what it parses into, `room` is left in the buffer. */
  ghost function DrainStatus(ps: seq<seq<uint8>>, tail: seq<uint8>, room: nat): Status {
    if !Fits(ps, room) then InvalidArgument
    else if |Flatten(ps)| < room && HasCompleteFrame(tail) then InvalidFrame
    else Ok
  }

  /**
    What either loop leaves in the FIFO: the packets it took are gone, and when it met an invalid frame that one as well,
    and everything behind them stays.
   */
  ghost predicate LoopLeaves(fifo: seq<uint8>, room: nat, left: seq<uint8>) {
    var (ps, tail) := Parse(fifo);
    if DrainStatus(ps, tail, room) == InvalidFrame then left == ReadFrame(tail, MAX_ENCODED_BYTE_COUNT).rest
    else Leaves(fifo, Taken(ps, room), left)
  }

  /** A loop stops at once: it has no room, or no packet is next. */
  lemma LoopStops(fifo: seq<uint8>, room: nat)
    requires room == 0 || !NextPacket(fifo).Packet?
    ensures var (ps, tail) := Parse(fifo);
      && Taken(ps, room) == 0
      && DrainStatus(ps, tail, room) == (if room > 0 && NextPacket(fifo).Broken? then InvalidFrame else Ok)
    ensures LoopLeaves(fifo, room, if room > 0 && NextPacket(fifo).Broken? then NextPacket(fifo).rest else fifo)
  {
    hide Decode, FirstDelimiter, SecondDelimiter, Parse;
    ParseStep(fifo);
    NextOfTail(fifo);
    LeavesNone(fifo);
  }

  /** A loop takes a packet that does not fit, and stops. */
  lemma LoopStraddles(fifo: seq<uint8>, room: nat)
    requires room > 0 && NextPacket(fifo).Packet? && |NextPacket(fifo).payload| > room
    ensures var (ps, tail) := Parse(fifo);
      && ps != [] && ps[0] == NextPacket(fifo).payload && Taken(ps, room) == 1
      && DrainStatus(ps, tail, room) == InvalidArgument
    ensures LoopLeaves(fifo, room, NextPacket(fifo).rest)
  {
    hide NextPacket, Parse;
    ParseStep(fifo);
    LeavesNone(NextPacket(fifo).rest);
    LeavesMore(fifo, 0, NextPacket(fifo).rest);
  }

  /** A loop takes a packet that fits, and goes on with the rest. */
  lemma LoopGoesOn(fifo: seq<uint8>, room: nat, left: seq<uint8>)
    requires room > 0 && NextPacket(fifo).Packet? && |NextPacket(fifo).payload| <= room
    requires LoopLeaves(NextPacket(fifo).rest, room - |NextPacket(fifo).payload|, left)
    ensures var (ps, tail) := Parse(fifo);
      && Parse(NextPacket(fifo).rest) == (ps[1..], tail)
      && ps != [] && ps[0] == NextPacket(fifo).payload
      && Taken(ps, room) == 1 + Taken(ps[1..], room - |ps[0]|)
      && DrainStatus(ps, tail, room) == DrainStatus(ps[1..], tail, room - |ps[0]|)
    ensures LoopLeaves(fifo, room, left)
  {
    hide NextPacket, Parse, HasCompleteFrame, Leaves;
    ParseStep(fifo);
    var rest := NextPacket(fifo).rest;
    var ps, more := Parse(fifo).0, room - |NextPacket(fifo).payload|;
    assert ps[1..] == Parse(rest).0;
    if DrainStatus(Parse(rest).0, Parse(rest).1, more) != InvalidFrame {
      LeavesMore(fifo, Taken(ps[1..], more), left);
    }
  }

  /**
    On any contents whatever, the receive loop appends the packets it took, clipped to the room, and fails exactly when
    one straddles the end of the queue or all packets in front of an invalid frame leave room.
   */
  lemma {:induction false} DecodeAny(fifo: seq<uint8>, queue: seq<uint8>, capacity: nat)
    requires |queue| <= capacity
    ensures var (ps, tail) := Parse(fifo);
      var room := capacity - |queue|;
      var d := DecodeIntoQueue(fifo, queue, capacity);
      && d.status == (if DrainStatus(ps, tail, room) == Ok then Ok else InvalidFrame)
      && d.target == queue + Take(Flatten(ps[..Taken(ps, room)]), room)
      && LoopLeaves(fifo, room, d.fifo)
    decreases |fifo|
  {
    hide NextPacket, Parse, HasCompleteFrame, LoopLeaves, DrainStatus, Taken;
    var (ps, tail) := Parse(fifo);
    var room := capacity - |queue|;
    var next := NextPacket(fifo);
    BrokenIsInvalid(fifo);
    if room == 0 || !next.Packet? {
      LoopStops(fifo, room);
      assert queue + Take(Flatten(ps[..0]), room) == queue;
    } else if |next.payload| > room {
      LoopStraddles(fifo, room);
      FlattenFirst(ps, 1);
      TakeFirst(queue, ps[0], Flatten(ps[1..][..0]), room);
    } else {
      DecodeAny(next.rest, queue + next.payload, capacity);
      LoopGoesOn(fifo, room, DecodeIntoQueue(fifo, queue, capacity).fifo);
      var n := Taken(ps, room);
      FlattenFirst(ps, n);
      TakeMore(queue, ps[0], Flatten(ps[1..][..n - 1]), room);
    }
  }

  /**
    On any contents whatever, the drain loop refuses for room exactly when a packet straddles the end of the buffer, meets an
    invalid frame exactly when all packets in front of one leave room, and in every case has copied the packets that fit.
   */
  lemma {:induction false} DrainAny(fifo: seq<uint8>, data: seq<uint8>, length: nat)
    requires |data| <= length
    ensures var (ps, tail) := Parse(fifo);
      var room := length - |data|;
      var d := DrainPackets(fifo, data, length);
      && d.status == DrainStatus(ps, tail, room)
      && d.target == data + Flatten(ps[..Whole(ps, room)])
      && LoopLeaves(fifo, room, d.fifo)
    decreases |fifo|
  {
    hide NextPacket, Parse, HasCompleteFrame, LoopLeaves, DrainStatus, Taken;
    var (ps, tail) := Parse(fifo);
    var room := length - |data|;
    var next := NextPacket(fifo);
    BrokenIsInvalid(fifo);
    assert data + Flatten(ps[..0]) == data;
    if room == 0 || !next.Packet? {
      LoopStops(fifo, room);
    } else if |next.payload| > room {
      LoopStraddles(fifo, room);
    } else {
      hide Whole;
      DrainAny(next.rest, data + next.payload, length);
      LoopGoesOn(fifo, room, DrainPackets(fifo, data, length).fifo);
      DataMore(ps, data, room);
    }
  }

  // ------------------------------------------------------------ the loops on a stream of packets

  /** What the receive loop does to any stream of packets: exactly the taken packets go, clipped to the room. */
  lemma {:induction false} DecodeStream(ps: seq<seq<uint8>>, tail: seq<uint8>, queue: seq<uint8>, capacity: nat)
    requires ArePayloads(ps) && !HasCompleteFrame(tail) && |queue| <= capacity
    ensures var room := capacity - |queue|;
      var n := Taken(ps, room);
      DecodeIntoQueue(Concat(ps) + tail, queue, capacity) ==
        Drained(if Fits(ps, room) then Ok else InvalidFrame,
                Concat(ps[n..]) + tail,
                queue + Take(Flatten(ps[..n]), room))
  {
    hide Frame, NextPacket;
    var room := capacity - |queue|;
    var n := Taken(ps, room);
    if ps == [] || room == 0 {
      assert ps[n..] == ps;
      assert queue + Take(Flatten(ps[..n]), room) == queue;
      if ps == [] {
        NextOfTail(tail);
        assert Concat(ps) + tail == tail;
      }
    } else {
      NextOfConcat(ps, tail);
      FlattenFirst(ps, n);
      if |ps[0]| > room {
        TakeFirst(queue, ps[0], Flatten(ps[1..][..n - 1]), room);
      } else {
        DecodeStream(ps[1..], tail, queue + ps[0], capacity);
        assert ps[1..][n - 1..] == ps[n..];
        TakeMore(queue, ps[0], Flatten(ps[1..][..n - 1]), room);
      }
    }
  }

  lemma NextOfConcat(ps: seq<seq<uint8>>, tail: seq<uint8>)
    requires ps != [] && IsPayload(ps[0])
    ensures NextPacket(Concat(ps) + tail) == Packet(ps[0], Concat(ps[1..]) + tail)
  {
    assert Concat(ps) + tail == Frame(ps[0]) + (Concat(ps[1..]) + tail);
    NextOfStream(ps[0], Concat(ps[1..]) + tail);
  }

  lemma FlattenFirst(ps: seq<seq<uint8>>, n: nat)
    requires 0 < n <= |ps|
    ensures Flatten(ps[..n]) == ps[0] + Flatten(ps[1..][..n - 1])
  {
    assert ps[..n][1..] == ps[1..][..n - 1];
  }

  lemma TakeFirst(queue: seq<uint8>, p: seq<uint8>, more: seq<uint8>, room: nat)
    requires room <= |p|
    ensures queue + Take(p + more, room) == queue + p[..room]
  {
  }

  lemma TakeMore(queue: seq<uint8>, p: seq<uint8>, more: seq<uint8>, room: nat)
    requires |p| <= room
    ensures queue + p + Take(more, room - |p|) == queue + Take(p + more, room)
  {
  }

  /** What the transmit-side reader does to any stream of packets; a refused packet is gone as well. */
  lemma {:induction false} DrainStream(ps: seq<seq<uint8>>, tail: seq<uint8>, data: seq<uint8>, length: nat)
    requires ArePayloads(ps) && !HasCompleteFrame(tail) && |data| <= length
    ensures var room := length - |data|;
      var n := Taken(ps, room);
      DrainPackets(Concat(ps) + tail, data, length) ==
        Drained(if Fits(ps, room) then Ok else InvalidArgument,
                Concat(ps[n..]) + tail,
                data + Flatten(ps[..Whole(ps, room)]))
  {
    hide Concat, NextPacket;
    var room := length - |data|;
    var n := Taken(ps, room);
    if ps == [] || room == 0 {
      DrainNothing(ps, tail, data, length);
    } else {
      NextOfConcat(ps, tail);
      if |ps[0]| > room {
        assert data + Flatten(ps[..0]) == data;
      } else {
        hide Whole;
        DrainStream(ps[1..], tail, data + ps[0], length);
        assert ps[1..][n - 1..] == ps[n..];
        DataMore(ps, data, room);
      }
    }
  }

  lemma DrainNothing(ps: seq<seq<uint8>>, tail: seq<uint8>, data: seq<uint8>, length: nat)
    requires !HasCompleteFrame(tail)
    requires ps == [] || |data| >= length
    ensures DrainPackets(Concat(ps) + tail, data, length) == Drained(Ok, Concat(ps[0..]) + tail, data + Flatten(ps[..0]))
  {
  }

  lemma DataMore(ps: seq<seq<uint8>>, data: seq<uint8>, room: nat)
    requires ps != [] && 0 < room && |ps[0]| <= room
    ensures data + ps[0] + Flatten(ps[1..][..Whole(ps[1..], room - |ps[0]|)]) == data + Flatten(ps[..Whole(ps, room)])
  {
    WholeFirst(ps, room);
    FlattenFirst(ps, Whole(ps, room));
    var more := Flatten(ps[1..][..Whole(ps, room) - 1]);
    assert data + ps[0] + more == data + (ps[0] + more);
  }

  /** How many of the taken packets are handed over: all of them, or all but the one that does not fit. */
  function Whole(ps: seq<seq<uint8>>, room: nat): (n: nat)
    ensures n <= Taken(ps, room)
  {
    if Fits(ps, room) || Taken(ps, room) == 0 then Taken(ps, room) else Taken(ps, room) - 1
  }

  lemma WholeFirst(ps: seq<seq<uint8>>, room: nat)
    requires ps != [] && 0 < room && |ps[0]| <= room
    ensures Whole(ps, room) == 1 + Whole(ps[1..], room - |ps[0]|)
  {
    FitsMeansWholePackets(ps[1..], room - |ps[0]|);
  }

  /**
    The room condition a caller can check from two sizes: if the encoded bytes waiting do not
    exceed the free space of the queue, the receive loop takes every complete frame and succeeds.
   */
  lemma DecodeNeverOverflows(ps: seq<seq<uint8>>, tail: seq<uint8>, queue: seq<uint8>, capacity: nat)
    requires ArePayloads(ps) && IsPartial(tail)
    requires |queue| + |Concat(ps) + tail| <= capacity
    ensures DecodeIntoQueue(Concat(ps) + tail, queue, capacity) == Drained(Ok, tail, queue + Flatten(ps))
  {
    hide Frame, DecodeIntoQueue, Taken, Fits, FirstDelimiter, SecondDelimiter, HasCompleteFrame;
    PartialHasNoFrame(tail);
    EncodingCosts(ps);
    EnoughRoom(ps, capacity - |queue|);
    DecodeStream(ps, tail, queue, capacity);
    assert ps[..|ps|] == ps;
    assert Concat(ps[|ps|..]) + tail == tail;
  }

  // ------------------------------------------------------------ draining a FIFO that is part of a longer stream

  /** The packets waiting in full in a FIFO whose bytes begin a stream of packets. */
  lemma FifoOfStream(fifo: seq<uint8>, behind: seq<uint8>, ps: seq<seq<uint8>>) returns (k: nat, tail: seq<uint8>)
    requires ArePayloads(ps) && fifo + behind == Concat(ps)
    ensures k <= |ps| && Payloads(fifo) == ps[..k]
    ensures fifo == Concat(ps[..k]) + tail && IsPartial(tail)
  {
    k, tail := CutStream(ps, |fifo|);
    assert fifo == Concat(ps)[..|fifo|];
    PartialHasNoFrame(tail);
    ParseStream(ps[..k], tail);
  }

  /** Taking whole frames off the FIFO takes whole packets off the stream. */
  lemma TakeFromStream(fifo: seq<uint8>, behind: seq<uint8>, ps: seq<seq<uint8>>, k: nat, tail: seq<uint8>, n: nat)
    requires n <= k <= |ps|
    requires fifo + behind == Concat(ps) && fifo == Concat(ps[..k]) + tail
    ensures Concat(ps[..k][n..]) + tail + behind == Concat(ps[n..])
  {
    SplitConcat(ps, n);
    SplitConcat(ps[..k], n);
    assert ps[..k][..n] == ps[..n];
    DropCommon(Concat(ps[..n]), Concat(ps[..k][n..]), tail, behind, Concat(ps[n..]));
  }

  lemma SplitConcat(ps: seq<seq<uint8>>, n: nat)
    requires n <= |ps|
    ensures Concat(ps) == Concat(ps[..n]) + Concat(ps[n..])
    ensures Flatten(ps) == Flatten(ps[..n]) + Flatten(ps[n..])
  {
    hide Frame, Concat, Flatten;
    assert ps[..n] + ps[n..] == ps;
    ConcatAppend(ps[..n], ps[n..]);
    FlattenAppend(ps[..n], ps[n..]);
  }

  lemma DropCommon(head: seq<uint8>, left: seq<uint8>, tail: seq<uint8>, behind: seq<uint8>, all: seq<uint8>)
    requires head + left + tail + behind == head + all
    ensures left + tail + behind == all
  {
    assert head + left + tail + behind == head + (left + tail + behind);
    assert (head + (left + tail + behind))[|head|..] == left + tail + behind;
    assert (head + all)[|head|..] == all;
  }

  /** The receive loop on the front of a stream: what stays in the FIFO and behind it is still a stream of packets. */
  lemma DecodeFromStream(fifo: seq<uint8>, behind: seq<uint8>, ps: seq<seq<uint8>>, queue: seq<uint8>, capacity: nat)
    returns (n: nat)
    requires ArePayloads(ps) && fifo + behind == Concat(ps) && |queue| <= capacity
    ensures n <= |ps| && n == Taken(Payloads(fifo), capacity - |queue|)
    ensures var d := DecodeIntoQueue(fifo, queue, capacity);
      && d.fifo + behind == Concat(ps[n..])
      && d.target == queue + Take(Flatten(ps[..n]), capacity - |queue|)
      && d.status == (if Fits(Payloads(fifo), capacity - |queue|) then Ok else InvalidFrame)
    ensures Fits(Payloads(fifo), capacity - |queue|) <==> |Flatten(ps[..n])| <= capacity - |queue|
  {
    hide Parse, DecodeIntoQueue, Taken, Fits;
    var k, tail := FifoOfStream(fifo, behind, ps);
    PartialHasNoFrame(tail);
    n := Taken(ps[..k], capacity - |queue|);
    DecodeStream(ps[..k], tail, queue, capacity);
    TakeFromStream(fifo, behind, ps, k, tail, n);
    FitsMeansWholePackets(ps[..k], capacity - |queue|);
    assert ps[..k][..n] == ps[..n];
  }

  /** The transmit-side reader on the front of a stream. */
  lemma DrainFromStream(fifo: seq<uint8>, behind: seq<uint8>, ps: seq<seq<uint8>>, length: nat)
    returns (n: nat)
    requires ArePayloads(ps) && fifo + behind == Concat(ps)
    ensures n <= |ps| && n == Taken(Payloads(fifo), length)
    ensures var d := DrainPackets(fifo, [], length);
      && d.fifo + behind == Concat(ps[n..])
      && d.status == (if Fits(Payloads(fifo), length) then Ok else InvalidArgument)
      && (Fits(Payloads(fifo), length) ==> d.target == Flatten(ps[..n]))
    ensures !Fits(Payloads(fifo), length) ==> n > 0
  {
    hide Payloads, Parse, DrainPackets, Taken, Fits, Concat, Flatten;
    var k, tail := FifoOfStream(fifo, behind, ps);
    PartialHasNoFrame(tail);
    n := Taken(ps[..k], length);
    DrainStream(ps[..k], tail, [], length);
    TakeFromStream(fifo, behind, ps, k, tail, n);
    FitsMeansWholePackets(ps[..k], length);
    assert ps[..k][..n] == ps[..n];
    assert [] + Flatten(ps[..n]) == Flatten(ps[..n]);
  }
}
