/**
  The packet format: `7E`, the payload with `7E` and `7D` escaped, `7E`.
  This module says what an encoded packet is and what the strict decoder accepts,
  and proves that the two agree exactly.
 */
module Framing {
  import opened Uart

  predicate RequiresEscape(value: uint8) {
    value == FRAME_DELIMITER || value == FRAME_ESCAPE
  }

  /** The one or two bytes that carry `value` inside a frame. */
  function StuffByte(value: uint8): (bytes: seq<uint8>)
    ensures 1 <= |bytes| <= 2
    ensures FRAME_DELIMITER !in bytes
  {
    if RequiresEscape(value) then [FRAME_ESCAPE, value ^ FRAME_ESCAPE_XOR] else [value]
  }

  function Stuff(payload: seq<uint8>): (body: seq<uint8>)
    ensures |payload| <= |body| <= 2 * |payload|
    ensures FRAME_DELIMITER !in body
  {
    if payload == [] then [] else StuffByte(payload[0]) + Stuff(payload[1..])
  }

  function Frame(payload: seq<uint8>): (frame: seq<uint8>)
    ensures |payload| + 2 <= |frame| <= 2 * |payload| + 2
  {
    [FRAME_DELIMITER] + Stuff(payload) + [FRAME_DELIMITER]
  }

  /** The payload sizes one packet may have. */
  predicate IsPayload(payload: seq<uint8>) {
    1 <= |payload| <= QUEUE_CAPACITY
  }

  /** What decoding a frame yields; a rejection leaves the bytes decoded before it in the output buffer. */
  datatype Decoding = Decoded(payload: seq<uint8>) | Rejected(status: Status, partial: seq<uint8>)

  /** Decodes the bytes between the flags, `done` being what was decoded before them. */
  function Unstuff(body: seq<uint8>, done: seq<uint8>, capacity: nat): Decoding
    decreases |body|
  {
    if body == [] then
      Decoded(done)
    else if body[0] == FRAME_DELIMITER then
      Rejected(InvalidFrame, done)
    else if body[0] == FRAME_ESCAPE && (|body| < 2 || !RequiresEscape(body[1] ^ FRAME_ESCAPE_XOR)) then
      Rejected(InvalidFrame, done)
    else if |done| >= QUEUE_CAPACITY then
      Rejected(InvalidFrame, done)
    else if |done| >= capacity then
      Rejected(InvalidArgument, done)
    else if body[0] == FRAME_ESCAPE then
      Unstuff(body[2..], done + [body[1] ^ FRAME_ESCAPE_XOR], capacity)
    else
      Unstuff(body[1..], done + [body[0]], capacity)
  }

  predicate IsDelimited(frame: seq<uint8>) {
    3 <= |frame| && frame[0] == FRAME_DELIMITER && frame[|frame| - 1] == FRAME_DELIMITER
  }

  function Decode(frame: seq<uint8>, capacity: nat): Decoding {
    if !IsDelimited(frame) then
      Rejected(InvalidFrame, [])
    else
      var decoding := Unstuff(frame[1..|frame| - 1], [], capacity);
      if decoding == Decoded([]) then Rejected(InvalidFrame, []) else decoding
  }

  /** The output buffer is blamed. */
  predicate IsOverrun(d: Decoding) {
    d.Rejected? && d.status == InvalidArgument
  }

  // ------------------------------------------------------------ stuffing

  lemma StuffNothing()
    ensures Stuff([]) == []
  {
  }

  lemma {:induction false} StuffAppend(a: seq<uint8>, b: seq<uint8>)
    ensures Stuff(a + b) == Stuff(a) + Stuff(b)
  {
    if a == [] {
      assert a + b == b;
    } else {
      assert (a + b)[1..] == a[1..] + b;
      StuffAppend(a[1..], b);
    }
  }

  lemma {:induction false} StuffSnoc(payload: seq<uint8>, i: nat)
    requires i < |payload|
    ensures Stuff(payload[..i + 1]) == Stuff(payload[..i]) + StuffByte(payload[i])
    ensures |Stuff(payload[..i + 1])| <= |Stuff(payload)|
  {
    assert payload[..i + 1] == payload[..i] + [payload[i]];
    StuffAppend(payload[..i], [payload[i]]);
    assert Stuff([payload[i]]) == StuffByte(payload[i]) + Stuff([]);
    assert payload == payload[..i + 1] + payload[i + 1..];
    StuffAppend(payload[..i + 1], payload[i + 1..]);
  }

  /** Decoding undoes stuffing, byte group by byte group, as long as there is room. */
  lemma {:induction false} UnstuffStuffed(payload: seq<uint8>, rest: seq<uint8>, done: seq<uint8>, capacity: nat)
    requires |done| + |payload| <= QUEUE_CAPACITY
    requires |done| + |payload| <= capacity
    ensures Unstuff(Stuff(payload) + rest, done, capacity) == Unstuff(rest, done + payload, capacity)
  {
    if payload == [] {
      assert Stuff(payload) + rest == rest;
      assert done + payload == done;
    } else {
      hide Unstuff, Stuff, StuffByte;
      StuffFirst(payload, rest, done);
      UnstuffUnit(payload[0], Stuff(payload[1..]) + rest, done, capacity);
      UnstuffStuffed(payload[1..], rest, done + [payload[0]], capacity);
    }
  }

  lemma StuffFirst(payload: seq<uint8>, rest: seq<uint8>, done: seq<uint8>)
    requires payload != []
    ensures Stuff(payload) + rest == StuffByte(payload[0]) + (Stuff(payload[1..]) + rest)
    ensures done + [payload[0]] + payload[1..] == done + payload
  {
    Associate(StuffByte(payload[0]), Stuff(payload[1..]), rest);
    assert [payload[0]] + payload[1..] == payload;
    Associate(done, [payload[0]], payload[1..]);
  }

  lemma UnstuffUnit(value: uint8, more: seq<uint8>, done: seq<uint8>, capacity: nat)
    requires |done| < QUEUE_CAPACITY && |done| < capacity
    ensures Unstuff(StuffByte(value) + more, done, capacity) == Unstuff(more, done + [value], capacity)
  {
  }

  /** Whatever the decoder accepts is the stuffing of what it returns. */
  lemma {:induction false} UnstuffAcceptsOnlyStuffed(body: seq<uint8>, done: seq<uint8>, capacity: nat)
    requires Unstuff(body, done, capacity).Decoded?
    ensures var payload := Unstuff(body, done, capacity).payload;
      && done <= payload
      && body == Stuff(payload[|done|..])
      && (body != [] ==> |payload| <= QUEUE_CAPACITY && |payload| <= capacity)
    decreases |body|
  {
    var payload := Unstuff(body, done, capacity).payload;
    if body == [] {
      assert payload[|done|..] == [];
    } else {
      var used := if body[0] == FRAME_ESCAPE then 2 else 1;
      var value := if body[0] == FRAME_ESCAPE then body[1] ^ FRAME_ESCAPE_XOR else body[0];
      UnstuffAcceptsOnlyStuffed(body[used..], done + [value], capacity);
      assert payload[|done|] == value;
      assert payload[|done|..][1..] == payload[|done| + 1..];
      assert body[..used] == StuffByte(value);
      assert body == body[..used] + body[used..];
    }
  }

  // ------------------------------------------------------------ encode and decode

  /** Encoding then decoding gives the payload back, for any bytes and any sufficient output buffer. */
  lemma RoundTrip(payload: seq<uint8>, capacity: nat)
    requires IsPayload(payload) && |payload| <= capacity
    ensures Decode(Frame(payload), capacity) == Decoded(payload)
  {
    var frame := Frame(payload);
    assert frame[1..|frame| - 1] == Stuff(payload) + [];
    UnstuffStuffed(payload, [], [], capacity);
    assert [] + payload == payload;
  }

  /** The decoder accepts a frame exactly when it is the encoding of a packet that fits the output buffer. */
  lemma DecodeAcceptsExactlyEncodings(frame: seq<uint8>, payload: seq<uint8>, capacity: nat)
    ensures Decode(frame, capacity) == Decoded(payload)
       <==> frame == Frame(payload) && IsPayload(payload) && |payload| <= capacity
  {
    if Decode(frame, capacity) == Decoded(payload) {
      hide Unstuff, Stuff;
      UnstuffAcceptsOnlyStuffed(frame[1..|frame| - 1], [], capacity);
      assert payload[0..] == payload;
      BetweenFlags(frame);
    }
    if frame == Frame(payload) && IsPayload(payload) && |payload| <= capacity {
      RoundTrip(payload, capacity);
    }
  }

  lemma BetweenFlags(frame: seq<uint8>)
    requires IsDelimited(frame)
    ensures frame == [FRAME_DELIMITER] + frame[1..|frame| - 1] + [FRAME_DELIMITER]
  {
  }

  /** An encoded packet always fits the driver's frame buffer, and its flags are the only delimiters in it. */
  lemma FrameShape(payload: seq<uint8>)
    requires IsPayload(payload)
    ensures IsDelimited(Frame(payload))
    ensures |payload| + 2 <= |Frame(payload)| <= 2 * |payload| + 2 <= MAX_ENCODED_BYTE_COUNT
    ensures FRAME_DELIMITER !in Frame(payload)[1..|Frame(payload)| - 1]
  {
  }

  /** No two packets share an encoding. */
  lemma FrameInjective(p: seq<uint8>, q: seq<uint8>)
    requires IsPayload(p) && IsPayload(q)
    ensures Frame(p) == Frame(q) <==> p == q
  {
    RoundTrip(p, QUEUE_CAPACITY);
    RoundTrip(q, QUEUE_CAPACITY);
  }

  /** The output buffer is blamed exactly when the body starts with one encoded byte more than it holds. */
  lemma {:induction false} UnstuffOverrun(body: seq<uint8>, done: seq<uint8>, capacity: nat)
    requires |done| <= capacity
    ensures IsOverrun(Unstuff(body, done, capacity))
       <==> capacity < QUEUE_CAPACITY && exists q :: |done| + |q| == capacity + 1 && Stuff(q) <= body
  {
    if IsOverrun(Unstuff(body, done, capacity)) {
      var _ := OverrunWitness(body, done, capacity);
    }
    if q :| capacity < QUEUE_CAPACITY && |done| + |q| == capacity + 1 && Stuff(q) <= body {
      OverrunRejects(body, done, capacity, q);
    }
  }

  lemma {:induction false} OverrunRejects(body: seq<uint8>, done: seq<uint8>, capacity: nat, q: seq<uint8>)
    requires |done| <= capacity < QUEUE_CAPACITY
    requires |done| + |q| == capacity + 1 && Stuff(q) <= body
    ensures IsOverrun(Unstuff(body, done, capacity))
  {
    var n := |q| - 1;
    StuffSnoc(q, n);
    assert q[..n + 1] == q;
    var head := Stuff(q[..n]);
    var rest := body[|head|..];
    assert head <= Stuff(q);
    assert body == head + rest;
    UnstuffStuffed(q[..n], rest, done, capacity);
    assert rest[..|StuffByte(q[n])|] == StuffByte(q[n]);
  }

  lemma {:induction false} OverrunWitness(body: seq<uint8>, done: seq<uint8>, capacity: nat) returns (q: seq<uint8>)
    requires |done| <= capacity
    requires IsOverrun(Unstuff(body, done, capacity))
    ensures capacity < QUEUE_CAPACITY && |done| + |q| == capacity + 1 && Stuff(q) <= body
    decreases |body|
  {
    var used := if body[0] == FRAME_ESCAPE then 2 else 1;
    var value := if body[0] == FRAME_ESCAPE then body[1] ^ FRAME_ESCAPE_XOR else body[0];
    assert body[..used] == StuffByte(value);
    if |done| == capacity {
      q := [value];
      assert Stuff(q) == StuffByte(value) + Stuff([]);
    } else {
      var tail := OverrunWitness(body[used..], done + [value], capacity);
      q := [value] + tail;
      assert q[1..] == tail;
      assert body == body[..used] + body[used..];
    }
  }

  /** With every rejection accounted for: a frame is refused either as malformed or, exactly in this case, for room. */
  lemma DecodeOverrun(frame: seq<uint8>, capacity: nat)
    ensures IsOverrun(Decode(frame, capacity))
       <==> && capacity < QUEUE_CAPACITY
            && IsDelimited(frame)
            && exists q :: |q| == capacity + 1 && Stuff(q) <= frame[1..|frame| - 1]
    ensures Decode(frame, capacity).Rejected? ==> Decode(frame, capacity).status in {InvalidArgument, InvalidFrame}
  {
    if IsDelimited(frame) {
      UnstuffOverrun(frame[1..|frame| - 1], [], capacity);
      UnstuffStatus(frame[1..|frame| - 1], [], capacity);
    }
  }

  lemma {:induction false} UnstuffStatus(body: seq<uint8>, done: seq<uint8>, capacity: nat)
    ensures Unstuff(body, done, capacity).Rejected?
        ==> Unstuff(body, done, capacity).status in {InvalidArgument, InvalidFrame}
    decreases |body|
  {
    if Unstuff(body, done, capacity).Rejected? && body != [] {
      if body[0] != FRAME_ESCAPE {
        UnstuffStatus(body[1..], done + [body[0]], capacity);
      } else if |body| >= 2 {
        UnstuffStatus(body[2..], done + [body[1] ^ FRAME_ESCAPE_XOR], capacity);
      }
    }
  }

  /** A rejection comes after a part of the body that decodes, within the buffer and the largest packet. */
  lemma {:induction false} UnstuffPartial(body: seq<uint8>, done: seq<uint8>, capacity: nat)
    requires Unstuff(body, done, capacity).Rejected? && |done| <= capacity && |done| <= QUEUE_CAPACITY
    ensures var partial := Unstuff(body, done, capacity).partial;
      && done <= partial && |partial| <= capacity && |partial| <= QUEUE_CAPACITY
      && Stuff(partial[|done|..]) <= body
    decreases |body|
  {
    var partial := Unstuff(body, done, capacity).partial;
    if partial == done {
      assert Stuff(partial[|done|..]) == [];
    } else {
      var used := if body[0] == FRAME_ESCAPE then 2 else 1;
      var value := if body[0] == FRAME_ESCAPE then body[1] ^ FRAME_ESCAPE_XOR else body[0];
      UnstuffPartial(body[used..], done + [value], capacity);
      assert body[..used] == StuffByte(value);
      hide Unstuff, StuffByte;
      StuffFront(body, used, value, partial[|done|..]);
    }
  }

  lemma StuffFront(body: seq<uint8>, used: nat, value: uint8, p: seq<uint8>)
    requires used <= |body| && body[..used] == StuffByte(value)
    requires p != [] && p[0] == value && Stuff(p[1..]) <= body[used..]
    ensures Stuff(p) <= body
  {
    assert body == body[..used] + body[used..];
  }

  /** A body cut anywhere is that of the packet's first bytes, or of those with half an escape pair behind. */
  lemma {:induction false} CutBody(payload: seq<uint8>, n: nat) returns (m: nat)
    requires n <= |Stuff(payload)|
    ensures m <= |payload|
    ensures var cut := Stuff(payload)[..n];
      cut == Stuff(payload[..m]) || cut == Stuff(payload[..m]) + [FRAME_ESCAPE]
  {
    m := 0;
    StuffNothing();
    if n > 0 {
      hide Stuff;
      var first := StuffByte(payload[0]);
      if n >= |first| {
        m := CutBody(payload[1..], n - |first|);
        CutBehind(payload, n, m);
        m := m + 1;
      } else {
        CutInside(payload, n);
      }
    }
  }

  lemma CutBehind(payload: seq<uint8>, n: nat, m: nat)
    requires payload != [] && |StuffByte(payload[0])| <= n <= |Stuff(payload)| && m < |payload|
    ensures var first := StuffByte(payload[0]);
      && |Stuff(payload)| == |first| + |Stuff(payload[1..])|
      && Stuff(payload)[..n] == first + Stuff(payload[1..])[..n - |first|]
      && Stuff(payload[..m + 1]) == first + Stuff(payload[1..][..m])
  {
    hide Stuff, StuffByte;
    StuffCons(payload);
    StuffCons(payload[..m + 1]);
    assert payload[..m + 1][1..] == payload[1..][..m];
  }

  lemma StuffCons(payload: seq<uint8>)
    requires payload != []
    ensures Stuff(payload) == StuffByte(payload[0]) + Stuff(payload[1..])
  {
  }

  lemma CutInside(payload: seq<uint8>, n: nat)
    requires payload != [] && 0 < n < |StuffByte(payload[0])| && n <= |Stuff(payload)|
    ensures Stuff(payload)[..n] == [FRAME_ESCAPE]
  {
  }

  /** A rejected frame leaves the longest decodable part of its body that fits: `q` stands for any other. */
  lemma DecodePartial(frame: seq<uint8>, capacity: nat, q: seq<uint8>)
    requires IsDelimited(frame) && Decode(frame, capacity).Rejected?
    ensures var body, partial := frame[1..|frame| - 1], Decode(frame, capacity).partial;
      && Stuff(partial) <= body && |partial| <= capacity && |partial| <= QUEUE_CAPACITY
      && (Stuff(q) <= body && |q| <= capacity && |q| <= QUEUE_CAPACITY ==> q <= partial)
  {
    var body := frame[1..|frame| - 1];
    if Unstuff(body, [], capacity) == Decoded([]) {
      UnstuffAcceptsOnlyStuffed(body, [], capacity);
    } else {
      UnstuffPartial(body, [], capacity);
      var partial := Unstuff(body, [], capacity).partial;
      assert partial[0..] == partial;
      if Stuff(q) <= body && |q| <= capacity && |q| <= QUEUE_CAPACITY {
        var rest := body[|Stuff(q)|..];
        assert body == Stuff(q) + rest;
        UnstuffStuffed(q, rest, [], capacity);
        UnstuffPartial(rest, [] + q, capacity);
        assert [] + q == q;
      }
    }
  }

  // ------------------------------------------------------------ the wire format in literal octets

  /** No flag, and every escape octet starts one of the two escape pairs. */
  ghost predicate WellFormed(body: seq<uint8>) {
    forall i :: 0 <= i < |body| ==> WellFormedAt(body, i)
  }

  ghost predicate WellFormedAt(body: seq<uint8>, i: nat)
    requires i < |body|
  {
    && body[i] != 0x7E
    && (body[i] == 0x7D ==> i + 1 < |body| && body[i + 1] in {0x5D, 0x5E})
  }

  /** Payload octets as they go on the wire. */
  ghost function Octets(payload: seq<uint8>): seq<uint8> {
    if payload == [] then []
    else if payload[0] == 0x7E then [0x7D, 0x5E] + Octets(payload[1..])
    else if payload[0] == 0x7D then [0x7D, 0x5D] + Octets(payload[1..])
    else [payload[0]] + Octets(payload[1..])
  }

  /** The encoding of a packet, octet by octet. */
  lemma {:induction false} FrameOctets(payload: seq<uint8>)
    ensures Stuff(payload) == Octets(payload)
    ensures Frame(payload) == [0x7E] + Octets(payload) + [0x7E]
  {
    if payload != [] {
      FrameOctets(payload[1..]);
    }
  }

  /** How many escape octets there are. */
  ghost function Escapes(body: seq<uint8>): (n: nat)
    ensures n <= |body|
  {
    if body == [] then 0 else (if body[0] == 0x7D then 1 else 0) + Escapes(body[1..])
  }

  /** Dropping whole units off the front leaves the rest as well formed as it was. */
  lemma WellFormedBehind(body: seq<uint8>, used: nat)
    requires used <= |body|
    requires forall i :: 0 <= i < used ==> WellFormedAt(body, i)
    ensures WellFormed(body) <==> WellFormed(body[used..])
  {
    var rest := body[used..];
    forall i | 0 <= i < |rest|
      ensures WellFormedAt(rest, i) <==> WellFormedAt(body, i + used)
    {
    }
    if WellFormed(rest) {
      forall i | 0 <= i < |body|
        ensures WellFormedAt(body, i)
      {
        assert i >= used ==> WellFormedAt(rest, i - used);
      }
    }
  }

  lemma {:induction false} UnstuffAccepts(body: seq<uint8>, done: seq<uint8>, capacity: nat)
    requires |done| <= Min(1024, capacity)
    ensures Unstuff(body, done, capacity).Decoded?
       <==> WellFormed(body) && |done| + |body| - Escapes(body) <= Min(1024, capacity)
    decreases |body|
  {
    if body == [] {
    } else if body[0] != 0x7D && body[0] != 0x7E {
      WellFormedBehind(body, 1);
      if |done| < Min(1024, capacity) {
        UnstuffAccepts(body[1..], done + [body[0]], capacity);
      }
    } else if body[0] == 0x7D && |body| >= 2 && body[1] in {0x5D, 0x5E} {
      WellFormedBehind(body, 2);
      assert body[1..][1..] == body[2..];
      if |done| < Min(1024, capacity) {
        UnstuffAccepts(body[2..], done + [body[1] ^ 0x20], capacity);
      }
    } else {
      assert !WellFormedAt(body, 0);
    }
  }

  /**
    Which octets are a packet: flags around a body without flags whose escape octets all start an escape pair, and
    which counts, each pair once, no more than 1024 payload bytes and no more than the output buffer holds.
   */
  lemma DecodeAccepts(frame: seq<uint8>, capacity: nat)
    ensures Decode(frame, capacity).Decoded?
       <==> && 3 <= |frame| && frame[0] == 0x7E && frame[|frame| - 1] == 0x7E
            && var body := frame[1..|frame| - 1];
               WellFormed(body) && |body| - Escapes(body) <= Min(1024, capacity)
    ensures Decode(frame, capacity).Decoded? ==> frame == [0x7E] + Octets(Decode(frame, capacity).payload) + [0x7E]
  {
    if IsDelimited(frame) {
      var body := frame[1..|frame| - 1];
      UnstuffAccepts(body, [], capacity);
      if Unstuff(body, [], capacity) == Decoded([]) {
        UnstuffAcceptsOnlyStuffed(body, [], capacity);
      }
    }
    if Decode(frame, capacity).Decoded? {
      DecodeAcceptsExactlyEncodings(frame, Decode(frame, capacity).payload, capacity);
      FrameOctets(Decode(frame, capacity).payload);
    }
  }

  /** The two escape pairs, both ways. */
  lemma EscapePairs(capacity: nat)
    requires capacity >= 1
    ensures Frame([0x7E]) == [0x7E, 0x7D, 0x5E, 0x7E] && Frame([0x7D]) == [0x7E, 0x7D, 0x5D, 0x7E]
    ensures Decode([0x7E, 0x7D, 0x5E, 0x7E], capacity) == Decoded([0x7E])
    ensures Decode([0x7E, 0x7D, 0x5D, 0x7E], capacity) == Decoded([0x7D])
  {
    FrameOctets([0x7E]);
    FrameOctets([0x7D]);
    RoundTrip([0x7E], capacity);
    RoundTrip([0x7D], capacity);
  }
}
