/**
  A measure of what a byte sequence can still deliver, on any contents, aligned or not: its bytes other than
  flags and escapes. Every payload byte takes one of them, so nothing that drops one can be made good again.
 */
module Weighing {
  import opened Uart
  import opened Framing
  import opened FrameStream
  import opened Draining
  import opened FrameTransfer

  function Weight(s: seq<uint8>): (w: nat)
    ensures w <= |s|
  {
    if s == [] then 0 else (if RequiresEscape(s[0]) then 0 else 1) + Weight(s[1..])
  }

  lemma {:induction false} WeightAppend(a: seq<uint8>, b: seq<uint8>)
    ensures Weight(a + b) == Weight(a) + Weight(b)
  {
    if a == [] {
      assert a + b == b;
    } else {
      assert (a + b)[1..] == a[1..] + b;
      WeightAppend(a[1..], b);
    }
  }

  lemma WeightOne(value: uint8)
    ensures Weight([value]) == if RequiresEscape(value) then 0 else 1
  {
    assert [value][1..] == [];
  }

  lemma WeightStuffByte(value: uint8)
    ensures Weight(StuffByte(value)) == 1
  {
    WeightOne(value);
    if RequiresEscape(value) {
      WeightOne(FRAME_ESCAPE);
      WeightOne(value ^ FRAME_ESCAPE_XOR);
      WeightAppend([FRAME_ESCAPE], [value ^ FRAME_ESCAPE_XOR]);
      assert StuffByte(value) == [FRAME_ESCAPE] + [value ^ FRAME_ESCAPE_XOR];
    }
  }

  /** An encoded packet weighs what it delivers. */
  lemma {:induction false} WeightStuff(payload: seq<uint8>)
    ensures Weight(Stuff(payload)) == |payload|
  {
    if payload != [] {
      hide Weight;
      WeightStuff(payload[1..]);
      WeightStuffByte(payload[0]);
      WeightAppend(StuffByte(payload[0]), Stuff(payload[1..]));
    }
  }

  lemma WeightFrame(payload: seq<uint8>)
    ensures Weight(Frame(payload)) == |payload|
  {
    hide Weight, Stuff;
    WeightStuff(payload);
    WeightOne(FRAME_DELIMITER);
    WeightAppend([FRAME_DELIMITER], Stuff(payload));
    WeightAppend([FRAME_DELIMITER] + Stuff(payload), [FRAME_DELIMITER]);
  }

  lemma {:induction false} WeightConcat(ps: seq<seq<uint8>>)
    ensures Weight(Concat(ps)) == |Flatten(ps)|
  {
    if ps != [] {
      hide Weight, Frame;
      WeightConcat(ps[1..]);
      WeightFrame(ps[0]);
      WeightAppend(Frame(ps[0]), Concat(ps[1..]));
    }
  }

  /** The rest of a frame's body, cut anywhere, weighs something: a body never ends in an escape byte. */
  lemma CutBodyHasWeight(payload: seq<uint8>, n: nat)
    requires n < |Stuff(payload)|
    ensures Weight(Stuff(payload)[n..]) > 0
  {
    hide Weight, Stuff;
    var body := Stuff(payload);
    var final := body[|body| - 1];
    LastIsPlain(payload);
    WeightOne(final);
    WeightAppend(body[n..|body| - 1], [final]);
    assert body[n..] == body[n..|body| - 1] + [final];
  }

  lemma LastIsPlain(payload: seq<uint8>)
    ensures var body := Stuff(payload);
      body != [] ==> !RequiresEscape(body[|body| - 1])
  {
    hide Stuff;
    if payload != [] {
      var last := |payload| - 1;
      StuffSnoc(payload, last);
      assert payload[..last + 1] == payload;
      LastOfStuffByte(payload[last]);
    }
  }

  lemma LastOfStuffByte(value: uint8)
    ensures var unit := StuffByte(value);
      !RequiresEscape(unit[|unit| - 1])
  {
  }

  // ------------------------------------------------------------ no loop makes weight

  /** A frame read takes weight off the front: the noise, the frame, and the rest weigh no more than the contents. */
  lemma ReadFrameWeight(s: seq<uint8>, capacity: nat)
    requires capacity > 0
    ensures var r := ReadFrame(s, capacity);
      Weight(s[..FirstDelimiter(s)]) + Weight(r.frame) + Weight(r.rest) <= Weight(s)
  {
    hide Weight, FirstDelimiter, SecondDelimiter;
    var r := ReadFrame(s, capacity);
    var skip := s[..FirstDelimiter(s)];
    var given := s[|skip| + |r.frame|..|s| - |r.rest|];
    assert s == skip + r.frame + given + r.rest;
    WeightAppend(skip + r.frame + given, r.rest);
    WeightAppend(skip + r.frame, given);
    WeightAppend(skip, r.frame);
  }

  lemma NextPacketWeight(fifo: seq<uint8>)
    ensures match NextPacket(fifo)
      case Waiting => true
      case Packet(p, rest) => |p| + Weight(rest) <= Weight(fifo)
      case Broken(_, rest) => Weight(rest) <= Weight(fifo)
  {
    hide Weight, FirstDelimiter, Decode, ReadFrame;
    var r := ReadFrame(fifo, MAX_ENCODED_BYTE_COUNT);
    ReadFrameWeight(fifo, MAX_ENCODED_BYTE_COUNT);
    if NextPacket(fifo).Packet? {
      DecodeAcceptsExactlyEncodings(r.frame, NextPacket(fifo).payload, QUEUE_CAPACITY);
      WeightFrame(NextPacket(fifo).payload);
    }
  }

  /** Draining hands over no more than the FIFO loses in weight. */
  lemma {:induction false} DrainWeight(fifo: seq<uint8>, data: seq<uint8>, length: nat)
    ensures var d := DrainPackets(fifo, data, length);
      |d.target| + Weight(d.fifo) <= |data| + Weight(fifo)
    decreases |fifo|
  {
    hide Weight, NextPacket;
    var next := NextPacket(fifo);
    NextPacketWeight(fifo);
    if |data| < length && next.Packet? && |next.payload| <= length - |data| {
      DrainWeight(next.rest, data + next.payload, length);
    }
  }

  /** What can be parsed out of any contents is bounded by their weight. */
  lemma {:induction false} ParseWeight(s: seq<uint8>)
    ensures |Flatten(Payloads(s))| <= Weight(s)
    decreases |s|
  {
    hide Weight, NextPacket;
    ParseStep(s);
    NextPacketWeight(s);
    if NextPacket(s).Packet? {
      ParseWeight(NextPacket(s).rest);
      assert Payloads(s)[1..] == Payloads(NextPacket(s).rest);
    }
  }

  /** A frame-level transfer loses at least the weight of the noise it skips. */
  lemma TransferWeight(source: seq<uint8>, destination: seq<uint8>, capacity: nat)
    requires |destination| <= capacity
    ensures var t := TransferFrame(source, destination, capacity);
      Weight(t.destination + t.source) + Weight(source[..FirstDelimiter(source)]) <= Weight(destination + source)
  {
    hide Weight, FirstDelimiter, ReadFrame;
    var r := ReadFrame(source, MAX_ENCODED_BYTE_COUNT);
    var t := TransferFrame(source, destination, capacity);
    ReadFrameWeight(source, MAX_ENCODED_BYTE_COUNT);
    WeightAppend(destination, source);
    WeightAppend(t.destination, t.source);
    var n := if r.status != Ok then 0 else Min(|r.frame|, capacity - |destination|);
    assert t.destination == destination + r.frame[..n];
    WeightAppend(destination, r.frame[..n]);
    WeightAppend(r.frame[..n], r.frame[n..]);
    assert r.frame[..n] + r.frame[n..] == r.frame;
  }

  // ------------------------------------------------------------ the front of a queue behind a cut

  /** How a queue starts when it and the FIFO before it are a stream of packets: at a packet, or inside one. */
  lemma QueueOfStream(fifo: seq<uint8>, queue: seq<uint8>, ps: seq<seq<uint8>>) returns (k: nat, n: nat)
    requires fifo + queue == Concat(ps)
    ensures k <= |ps|
    ensures n == 0 ==> queue == Concat(ps[k..])
    ensures n > 0 ==> k < |ps| && n < |Frame(ps[k])|
    ensures n > 0 ==> queue == Stuff(ps[k])[n - 1..] + [FRAME_DELIMITER] + Concat(ps[k + 1..])
    ensures queue != [] ==> (queue[0] == FRAME_DELIMITER <==> n == 0 || n == |Frame(ps[k])| - 1)
  {
    hide Stuff;
    var tail;
    k, tail := CutStream(ps, |fifo|);
    assert fifo == Concat(ps)[..|fifo|];
    n := |tail|;
    SplitConcat(ps, k);
    if k == |ps| {
      Behind(Concat(ps[..k]), tail, queue, Concat(ps[k..]));
    } else {
      FirstOfConcat(ps[k..]);
      assert ps[k..][1..] == ps[k + 1..];
      Behind(Concat(ps[..k]), tail, queue, Frame(ps[k]) + Concat(ps[k + 1..]));
      assert Frame(ps[k])[..n] == tail;
      if n > 0 {
        CutFrame(ps[k], n, Concat(ps[k + 1..]));
        var body := Stuff(ps[k])[n - 1..];
        assert forall i :: 0 <= i < |body| ==> body[i] in Stuff(ps[k]);
      }
    }
  }

  lemma FirstOfConcat(ps: seq<seq<uint8>>)
    requires ps != []
    ensures Concat(ps) == Frame(ps[0]) + Concat(ps[1..])
  {
  }

  lemma Behind(head: seq<uint8>, tail: seq<uint8>, queue: seq<uint8>, all: seq<uint8>)
    requires head + tail + queue == head + all
    ensures tail + queue == all
    ensures queue == all[|tail|..]
  {
    assert head + tail + queue == head + (tail + queue);
    assert (head + (tail + queue))[|head|..] == tail + queue;
    assert (head + all)[|head|..] == all;
    assert (tail + queue)[|tail|..] == queue;
  }

  /** Such a queue that starts at a flag gives a frame the frame buffer holds, if it counts one at all. */
  lemma FlaggedQueueReads(fifo: seq<uint8>, queue: seq<uint8>, ps: seq<seq<uint8>>)
    requires ArePayloads(ps) && fifo + queue == Concat(ps)
    requires queue != [] && queue[0] == FRAME_DELIMITER && FrameCount(queue) > 0
    ensures SecondDelimiter(queue) < MAX_ENCODED_BYTE_COUNT
  {
    hide Stuff, Decode, FirstDelimiter, CountFrames;
    var k, n := QueueOfStream(fifo, queue, ps);
    if n == 0 {
      FirstOfConcat(ps[k..]);
      ReadsFrame(ps[k], Concat(ps[k..][1..]));
      FirstIsFlag(queue);
    } else {
      assert queue == [FRAME_DELIMITER] + Concat(ps[k + 1..]);
      CountNeedsMore(queue);
      FirstOfConcat(ps[k + 1..]);
      TwoFlags(queue, ps[k + 1], Concat(ps[k + 1..][1..]));
    }
  }

  lemma TwoFlags(s: seq<uint8>, p: seq<uint8>, rest: seq<uint8>)
    requires s == [FRAME_DELIMITER] + (Frame(p) + rest)
    ensures SecondDelimiter(s) == 1
  {
    assert s[..0] == [];
    FirstDelimiterIs(s, 0);
    assert s[1..][..0] == [];
    FirstDelimiterIs(s[1..], 0);
  }

  lemma CountNeedsMore(s: seq<uint8>)
    requires FrameCount(s) > 0
    ensures |s| > 1
  {
    FrameCountPositive(s);
  }

  /** And one that does not start at a flag has noise of some weight in front of the first. */
  lemma UnflaggedQueueWeighs(fifo: seq<uint8>, queue: seq<uint8>, ps: seq<seq<uint8>>)
    requires fifo + queue == Concat(ps)
    requires queue != [] && queue[0] != FRAME_DELIMITER
    ensures Weight(queue[..FirstDelimiter(queue)]) > 0
  {
    hide Stuff, Weight;
    var k, n := QueueOfStream(fifo, queue, ps);
    var body := Stuff(ps[k])[n - 1..];
    assert forall i :: 0 <= i < |body| ==> body[i] in Stuff(ps[k]);
    assert queue[..|body|] == body;
    FirstDelimiterIs(queue, |body|);
    CutBodyHasWeight(ps[k], n - 1);
  }
}
