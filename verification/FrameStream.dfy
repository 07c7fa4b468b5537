/**
  Byte streams of frames: what the scanners see, what the frame reader takes off the front,
  and why a stream of encoded packets has exactly one reading.
 */
module FrameStream {
  import opened Uart
  import opened Framing

  // ------------------------------------------------------------ delimiters

  /** The position of the first delimiter, or the length when there is none. */
  function FirstDelimiter(s: seq<uint8>): (i: nat)
    ensures i <= |s|
    ensures FRAME_DELIMITER !in s[..i]
    ensures i < |s| ==> s[i] == FRAME_DELIMITER
  {
    if s == [] || s[0] == FRAME_DELIMITER then 0 else
      var rest := FirstDelimiter(s[1..]);
      assert s[..rest + 1] == [s[0]] + s[1..][..rest];
      rest + 1
  }

  lemma FirstDelimiterIs(s: seq<uint8>, i: nat)
    requires i <= |s| && FRAME_DELIMITER !in s[..i] && (i < |s| ==> s[i] == FRAME_DELIMITER)
    ensures FirstDelimiter(s) == i
  {
  }

  lemma FirstIsFlag(s: seq<uint8>)
    requires s != []
    ensures s[0] == FRAME_DELIMITER <==> FirstDelimiter(s) == 0
  {
  }

  /** The position of the second delimiter, or the length when there are not two. */
  function SecondDelimiter(s: seq<uint8>): (i: nat)
    ensures i <= |s|
    ensures i < |s| ==> FirstDelimiter(s) < i && s[i] == FRAME_DELIMITER
  {
    var first := FirstDelimiter(s);
    if first == |s| then |s| else first + 1 + FirstDelimiter(s[first + 1..])
  }

  /** Two delimiters are buffered. */
  ghost predicate HasCompleteFrame(s: seq<uint8>) {
    exists i, j :: 0 <= i < j < |s| && s[i] == FRAME_DELIMITER && s[j] == FRAME_DELIMITER
  }

  lemma HasCompleteFrameIff(s: seq<uint8>)
    ensures HasCompleteFrame(s) <==> SecondDelimiter(s) < |s|
  {
  }

  // ------------------------------------------------------------ the frame reader

  /** What one attempt to read a frame reports, puts in the caller's buffer, and leaves. */
  datatype FrameRead = FrameRead(status: Status, frame: seq<uint8>, rest: seq<uint8>)

  /** Takes the first delimited frame off `s`, skipping anything before it. */
  function ReadFrame(s: seq<uint8>, capacity: nat): (r: FrameRead)
    ensures |r.frame| + |r.rest| <= |s| && |r.frame| <= capacity
    ensures r.status == Ok ==> 2 <= |r.frame|
  {
    var first := FirstDelimiter(s);
    var second := SecondDelimiter(s);
    if capacity == 0 then
      FrameRead(InvalidArgument, [], s)
    else if second < |s| && second - first < capacity then
      FrameRead(Ok, s[first..second + 1], s[second + 1..])
    else if |s| - first <= capacity then
      FrameRead(InvalidFrame, s[first..], [])
    else
      FrameRead(InvalidFrame, s[first..first + capacity], s[first + capacity + 1..])
  }

  /** Success splits the contents into noise, one delimited frame, and the rest. */
  lemma ReadFrameSplits(s: seq<uint8>, capacity: nat) returns (skip: seq<uint8>, body: seq<uint8>)
    requires ReadFrame(s, capacity).status == Ok
    ensures s == skip + ReadFrame(s, capacity).frame + ReadFrame(s, capacity).rest
    ensures ReadFrame(s, capacity).frame == [FRAME_DELIMITER] + body + [FRAME_DELIMITER]
    ensures FRAME_DELIMITER !in skip && FRAME_DELIMITER !in body
  {
    hide FirstDelimiter;
    var first, second := FirstDelimiter(s), SecondDelimiter(s);
    skip, body := s[..first], s[first + 1..][..second - first - 1];
    SplitAt(s, first, second);
  }

  lemma SplitAt(s: seq<uint8>, first: nat, second: nat)
    requires first < second < |s|
    ensures s == s[..first] + s[first..second + 1] + s[second + 1..]
    ensures s[first..second + 1] == [s[first]] + s[first + 1..][..second - first - 1] + [s[second]]
  {
  }

  /** And any such split with a frame that fits is the one the reader finds. */
  lemma ReadFrameFinds(skip: seq<uint8>, body: seq<uint8>, rest: seq<uint8>, capacity: nat)
    requires FRAME_DELIMITER !in skip && FRAME_DELIMITER !in body
    requires |body| + 2 <= capacity
    ensures var frame := [FRAME_DELIMITER] + body + [FRAME_DELIMITER];
      ReadFrame(skip + frame + rest, capacity) == FrameRead(Ok, frame, rest)
  {
    var frame := [FRAME_DELIMITER] + body + [FRAME_DELIMITER];
    var s := skip + frame + rest;
    assert s[..|skip|] == skip;
    FirstDelimiterIs(s, |skip|);
    var after := s[|skip| + 1..];
    assert after == body + [FRAME_DELIMITER] + rest;
    assert after[..|body|] == body;
    FirstDelimiterIs(after, |body|);
    assert s[|skip|..|skip| + |frame|] == frame;
    assert s[|skip| + |frame|..] == rest;
  }

  /** An opened frame with no delimiter among the bytes that fill the buffer is given up after one more byte. */
  lemma ReadFrameOverflows(skip: seq<uint8>, taken: seq<uint8>, rest: seq<uint8>, capacity: nat)
    requires FRAME_DELIMITER !in skip
    requires |taken| == capacity + 1 >= 2 && taken[0] == FRAME_DELIMITER && FRAME_DELIMITER !in taken[1..capacity]
    ensures ReadFrame(skip + taken + rest, capacity) == FrameRead(InvalidFrame, taken[..capacity], rest)
  {
    var s := skip + taken + rest;
    assert s[..|skip|] == skip;
    FirstDelimiterIs(s, |skip|);
    var after := s[|skip| + 1..];
    assert forall k :: 0 <= k < capacity - 1 ==> after[k] == taken[1..capacity][k];
    assert s[|skip| + capacity + 1..] == rest;
    assert s[|skip|..|skip| + capacity] == taken[..capacity];
  }

  /** Contents with fewer than two delimiters, short enough for the buffer, are used up. */
  lemma ReadFrameExhausts(skip: seq<uint8>, taken: seq<uint8>, capacity: nat)
    requires FRAME_DELIMITER !in skip
    requires |taken| <= capacity && 0 < capacity && IsPartial(taken)
    ensures ReadFrame(skip + taken, capacity) == FrameRead(InvalidFrame, taken, [])
  {
    var s := skip + taken;
    assert s[..|skip|] == skip;
    FirstDelimiterIs(s, |skip|);
    assert s[|skip|..] == taken;
    if taken != [] {
      assert s[|skip| + 1..] == taken[1..];
      FirstDelimiterIs(taken[1..], |taken| - 1);
    }
  }

  /** When reading a frame fails: no two delimiters, or a first frame too long for the buffer; and what it costs. */
  lemma ReadFrameFails(s: seq<uint8>, capacity: nat)
    requires capacity > 0
    ensures var r := ReadFrame(s, capacity);
      && (r.status == Ok <==> HasCompleteFrame(s) && SecondDelimiter(s) - FirstDelimiter(s) + 1 <= capacity)
      && (r.status != Ok ==> r.status == InvalidFrame)
      && (r.status != Ok && !HasCompleteFrame(s) && |s| <= capacity ==> r.rest == [])
      && (r.status != Ok && r.rest != [] ==> |s| - |r.rest| == FirstDelimiter(s) + capacity + 1)
      && (r.status != Ok ==> r.frame == s[FirstDelimiter(s)..FirstDelimiter(s) + |r.frame|])
  {
    hide FirstDelimiter, HasCompleteFrame;
    HasCompleteFrameIff(s);
  }

  /** The scanner and a reader with room for anything agree on every contents. */
  lemma ScannerAgreesWithReader(s: seq<uint8>, capacity: nat)
    requires 0 < capacity && |s| <= capacity
    ensures HasCompleteFrame(s) <==> ReadFrame(s, capacity).status == Ok
  {
  }

  // ------------------------------------------------------------ counting frames

  /** The counting scan over `s`, given whether a delimiter came before and how many bytes since. */
  function CountFrames(s: seq<uint8>, inFrame: bool, payloadBytes: nat): (n: nat)
    ensures n <= |s|
  {
    if s == [] then 0
    else if s[0] == FRAME_DELIMITER then
      (if inFrame && payloadBytes > 0 then 1 else 0) + CountFrames(s[1..], true, 0)
    else
      CountFrames(s[1..], inFrame, if inFrame then payloadBytes + 1 else payloadBytes)
  }

  function FrameCount(s: seq<uint8>): nat {
    CountFrames(s, false, 0)
  }

  /** A delimiter closes a counted frame when a delimiter came before it and the byte in front of it is none. */
  ghost predicate ClosesAt(s: seq<uint8>, j: nat)
    requires j < |s|
  {
    s[j] == FRAME_DELIMITER && FRAME_DELIMITER in s[..j] && s[j - 1] != FRAME_DELIMITER
  }

  ghost function Closings(s: seq<uint8>): set<nat> {
    set j: nat | j < |s| && ClosesAt(s, j)
  }

  /** On any contents, the frame count is the number of delimiters that close a non-empty frame. */
  lemma {:induction false} FrameCountIs(s: seq<uint8>)
    ensures FrameCount(s) == |Closings(s)|
  {
    if s == [] {
      assert Closings(s) == {};
    } else {
      hide CountFrames;
      var n := |s| - 1;
      var init := s[..n];
      FrameCountIs(init);
      CountSnoc(init, s[n], false, 0);
      assert init + [s[n]] == s;
      ClosingsSnoc(s);
    }
  }

  lemma ClosingsSnoc(s: seq<uint8>)
    requires s != []
    ensures var n := |s| - 1;
      && n !in Closings(s[..n])
      && Closings(s) == Closings(s[..n]) + (if ClosesAt(s, n) then {n} else {})
  {
    var init := s[..|s| - 1];
    forall j: nat | j < |init|
      ensures ClosesAt(s, j) <==> ClosesAt(init, j)
    {
      assert s[..j] == init[..j];
    }
  }

  /** What the scan does with one more byte depends on whether a delimiter came before and on the last byte. */
  lemma {:induction false} CountSnoc(s: seq<uint8>, value: uint8, inFrame: bool, payloadBytes: nat)
    requires !inFrame ==> payloadBytes == 0
    ensures var open := if s == [] then payloadBytes > 0
                        else s[|s| - 1] != FRAME_DELIMITER && (inFrame || FRAME_DELIMITER in s);
      CountFrames(s + [value], inFrame, payloadBytes)
        == CountFrames(s, inFrame, payloadBytes) + if open && value == FRAME_DELIMITER then 1 else 0
  {
    if s == [] {
      assert (s + [value])[1..] == [];
    } else {
      assert (s + [value])[1..] == s[1..] + [value];
      if s[0] == FRAME_DELIMITER {
        CountSnoc(s[1..], value, true, 0);
      } else {
        CountSnoc(s[1..], value, inFrame, if inFrame then payloadBytes + 1 else payloadBytes);
      }
    }
  }

  /** What the count looks for once a frame is open: a delimiter with something else before it. */
  ghost predicate Closes(s: seq<uint8>, payloadBytes: nat) {
    exists j :: 0 <= j < |s| && s[j] == FRAME_DELIMITER && (payloadBytes > 0 || exists k :: 0 <= k < j && s[k] != FRAME_DELIMITER)
  }

  lemma {:induction false} CountClosed(s: seq<uint8>, payloadBytes: nat)
    ensures CountFrames(s, true, payloadBytes) > 0 <==> Closes(s, payloadBytes)
  {
    if s != [] {
      var rest := s[1..];
      var bytes := if s[0] == FRAME_DELIMITER then 0 else payloadBytes + 1;
      CountClosed(rest, bytes);
      assert forall k :: 0 <= k < |rest| ==> rest[k] == s[k + 1];
      assert forall k :: 0 < k < |s| ==> s[k] == rest[k - 1];
    }
  }

  /** A delimiter, something else, and another delimiter, in this order. */
  ghost predicate HasFilledFrame(s: seq<uint8>) {
    exists i, k, j :: 0 <= i < k < j < |s| && s[i] == FRAME_DELIMITER && s[k] != FRAME_DELIMITER && s[j] == FRAME_DELIMITER
  }

  /** On any contents, exactly when the frame count is positive. */
  lemma {:induction false} FrameCountPositive(s: seq<uint8>)
    ensures FrameCount(s) > 0 <==> HasFilledFrame(s)
  {
    if s != [] {
      var rest := s[1..];
      assert forall k :: 0 <= k < |rest| ==> rest[k] == s[k + 1];
      assert forall k :: 0 < k < |s| ==> s[k] == rest[k - 1];
      if s[0] == FRAME_DELIMITER {
        CountClosed(rest, 0);
      } else {
        FrameCountPositive(rest);
      }
    }
  }

  /** A positive frame count means a frame can be read, on any contents. */
  lemma FrameCountImpliesComplete(s: seq<uint8>)
    ensures FrameCount(s) > 0 ==> HasCompleteFrame(s)
  {
    FrameCountPositive(s);
  }

  /** Nothing lies between two delimiters but delimiters. */
  ghost predicate DelimitersAdjacent(s: seq<uint8>) {
    forall i, k, j :: 0 <= i < k < j < |s| && s[i] == FRAME_DELIMITER && s[j] == FRAME_DELIMITER ==> s[k] == FRAME_DELIMITER
  }

  /**
    The converse fails exactly on contents with at least two delimiters, all of them adjacent: a complete frame
    to one scanner and nothing to the other. Two delimiters alone are such contents.
   */
  lemma CompleteWithoutCount(s: seq<uint8>)
    ensures HasCompleteFrame(s) && FrameCount(s) == 0 <==> HasCompleteFrame(s) && DelimitersAdjacent(s)
    ensures s == [FRAME_DELIMITER, FRAME_DELIMITER] ==> HasCompleteFrame(s) && DelimitersAdjacent(s)
  {
    FrameCountPositive(s);
    if s == [FRAME_DELIMITER, FRAME_DELIMITER] {
      assert s[0] == FRAME_DELIMITER && s[1] == FRAME_DELIMITER;
    }
  }

  lemma {:induction false} CountBody(body: seq<uint8>, rest: seq<uint8>, payloadBytes: nat)
    requires FRAME_DELIMITER !in body
    ensures CountFrames(body + rest, true, payloadBytes) == CountFrames(rest, true, payloadBytes + |body|)
  {
    if body == [] {
      assert body + rest == rest;
    } else {
      assert body[0] in body;
      assert (body + rest)[1..] == body[1..] + rest;
      CountBody(body[1..], rest, payloadBytes + 1);
    }
  }

  lemma CountFrame(payload: seq<uint8>, rest: seq<uint8>, inFrame: bool)
    requires payload != []
    ensures CountFrames(Frame(payload) + rest, inFrame, 0) == 1 + CountFrames(rest, true, 0)
  {
    var s := Frame(payload) + rest;
    var body := Stuff(payload);
    var closing := [FRAME_DELIMITER] + rest;
    assert s[1..] == body + closing;
    CountBody(body, closing, 0);
    assert closing[1..] == rest;
  }

  // ------------------------------------------------------------ streams of packets

  ghost predicate ArePayloads(ps: seq<seq<uint8>>) {
    forall i :: 0 <= i < |ps| ==> IsPayload(ps[i])
  }

  /** The encoded stream of a list of packets. */
  function Concat(ps: seq<seq<uint8>>): (s: seq<uint8>)
    ensures 2 * |ps| <= |s|
  {
    if ps == [] then [] else Frame(ps[0]) + Concat(ps[1..])
  }

  /** The payload bytes of a list of packets. */
  function Flatten(ps: seq<seq<uint8>>): seq<uint8> {
    if ps == [] then [] else ps[0] + Flatten(ps[1..])
  }

  /** The start of a frame whose end has not arrived; possibly empty. */
  predicate IsPartial(tail: seq<uint8>) {
    tail != [] ==> tail[0] == FRAME_DELIMITER && FRAME_DELIMITER !in tail[1..]
  }

  lemma PartialHasNoFrame(tail: seq<uint8>)
    requires IsPartial(tail)
    ensures !HasCompleteFrame(tail)
  {
  }

  lemma FramePrefixIsPartial(payload: seq<uint8>, n: nat)
    requires n < |Frame(payload)|
    ensures IsPartial(Frame(payload)[..n])
  {
  }

  lemma CutFrame(p: seq<uint8>, n: nat, rest: seq<uint8>)
    requires 0 < n < |Frame(p)|
    ensures (Frame(p) + rest)[..n] == Frame(p)[..n]
    ensures (Frame(p) + rest)[n..] == Stuff(p)[n - 1..] + [FRAME_DELIMITER] + rest
  {
    assert Frame(p)[n..] == Stuff(p)[n - 1..] + [FRAME_DELIMITER];
    assert (Frame(p) + rest)[n..] == Frame(p)[n..] + rest;
  }

  lemma {:induction false} ConcatAppend(ps: seq<seq<uint8>>, qs: seq<seq<uint8>>)
    ensures Concat(ps + qs) == Concat(ps) + Concat(qs)
  {
    hide Frame;
    if ps == [] {
      assert ps + qs == qs;
    } else {
      assert (ps + qs)[1..] == ps[1..] + qs;
      ConcatAppend(ps[1..], qs);
    }
  }

  lemma {:induction false} FlattenAppend(ps: seq<seq<uint8>>, qs: seq<seq<uint8>>)
    ensures Flatten(ps + qs) == Flatten(ps) + Flatten(qs)
  {
    if ps == [] {
      assert ps + qs == qs;
    } else {
      assert (ps + qs)[1..] == ps[1..] + qs;
      FlattenAppend(ps[1..], qs);
    }
  }

  lemma One(p: seq<uint8>)
    ensures Concat([p]) == Frame(p)
    ensures Flatten([p]) == p
  {
  }

  /** The packets a stream holds, read the way the receive path reads them, and what is left when it must stop. */
  function Parse(s: seq<uint8>): (r: (seq<seq<uint8>>, seq<uint8>))
    decreases |s|
  {
    var r := ReadFrame(s, MAX_ENCODED_BYTE_COUNT);
    if r.status != Ok then ([], s) else
      match Decode(r.frame, QUEUE_CAPACITY)
      case Rejected(_, _) => ([], s)
      case Decoded(p) =>
        var (ps, tail) := Parse(r.rest);
        ([p] + ps, tail)
  }

  function Payloads(s: seq<uint8>): seq<seq<uint8>> {
    Parse(s).0
  }

  /** The frame reader takes an encoded packet off the front of any stream. */
  lemma ReadsFrame(p: seq<uint8>, rest: seq<uint8>)
    requires IsPayload(p)
    ensures ReadFrame(Frame(p) + rest, MAX_ENCODED_BYTE_COUNT) == FrameRead(Ok, Frame(p), rest)
    ensures HasCompleteFrame(Frame(p) + rest)
    ensures Decode(Frame(p), QUEUE_CAPACITY) == Decoded(p)
  {
    ReadFrameFinds([], Stuff(p), rest, MAX_ENCODED_BYTE_COUNT);
    assert [] + Frame(p) + rest == Frame(p) + rest;
    RoundTrip(p, QUEUE_CAPACITY);
    HasCompleteFrameIff(Frame(p) + rest);
  }

  /** A stream of encoded packets and a tail without a complete frame parses into exactly those packets and that tail. */
  lemma {:induction false} ParseStream(ps: seq<seq<uint8>>, tail: seq<uint8>)
    requires ArePayloads(ps) && !HasCompleteFrame(tail)
    ensures Parse(Concat(ps) + tail) == (ps, tail)
  {
    hide Frame, Decode, ReadFrame;
    if ps == [] {
      assert Concat(ps) + tail == tail;
      ParseTail(tail);
    } else {
      var rest := Concat(ps[1..]) + tail;
      assert Concat(ps) + tail == Frame(ps[0]) + rest;
      ReadsFrame(ps[0], rest);
      ParseStream(ps[1..], tail);
      assert [ps[0]] + ps[1..] == ps;
    }
  }

  lemma ParseTail(tail: seq<uint8>)
    requires !HasCompleteFrame(tail)
    ensures Parse(tail) == ([], tail)
  {
  }

  /** Two streams of encoded packets are equal only if they carry the same packets and the same tail. */
  lemma UniquelyDecodable(ps: seq<seq<uint8>>, tail: seq<uint8>, qs: seq<seq<uint8>>, end: seq<uint8>)
    requires ArePayloads(ps) && !HasCompleteFrame(tail)
    requires ArePayloads(qs) && !HasCompleteFrame(end)
    ensures Concat(ps) + tail == Concat(qs) + end <==> ps == qs && tail == end
  {
    ParseStream(ps, tail);
    ParseStream(qs, end);
  }

  lemma {:induction false} CountStream(ps: seq<seq<uint8>>, tail: seq<uint8>, inFrame: bool)
    requires ArePayloads(ps) && IsPartial(tail)
    ensures CountFrames(Concat(ps) + tail, inFrame, 0) == |ps|
  {
    if ps == [] {
      assert Concat(ps) + tail == tail;
      if tail != [] {
        CountBody(tail[1..], [], 0);
        assert tail[1..] + [] == tail[1..];
      }
    } else {
      var rest := Concat(ps[1..]) + tail;
      assert Concat(ps) + tail == Frame(ps[0]) + rest;
      CountFrame(ps[0], rest, inFrame);
      CountStream(ps[1..], tail, true);
    }
  }

  /** How many times in a row a frame can be read before the first failure. */
  function ReadableFrames(s: seq<uint8>): nat
    decreases |s|
  {
    var r := ReadFrame(s, MAX_ENCODED_BYTE_COUNT);
    if r.status == Ok then 1 + ReadableFrames(r.rest) else 0
  }

  lemma {:induction false} ReadableOnStream(ps: seq<seq<uint8>>, tail: seq<uint8>)
    requires ArePayloads(ps) && !HasCompleteFrame(tail)
    ensures ReadableFrames(Concat(ps) + tail) == |ps|
    ensures HasCompleteFrame(Concat(ps) + tail) <==> ps != []
  {
    hide Frame;
    if ps == [] {
      assert Concat(ps) + tail == tail;
      HasCompleteFrameIff(tail);
    } else {
      var rest := Concat(ps[1..]) + tail;
      assert Concat(ps) + tail == Frame(ps[0]) + rest;
      ReadsFrame(ps[0], rest);
      ReadableOnStream(ps[1..], tail);
    }
  }

  /** On a stream of packets both scanners tell the truth about the reader. */
  lemma ScannersOnStream(ps: seq<seq<uint8>>, tail: seq<uint8>)
    requires ArePayloads(ps) && IsPartial(tail)
    ensures FrameCount(Concat(ps) + tail) == ReadableFrames(Concat(ps) + tail) == |ps|
    ensures HasCompleteFrame(Concat(ps) + tail) <==> ps != []
  {
    CountStream(ps, tail, false);
    PartialHasNoFrame(tail);
    ReadableOnStream(ps, tail);
  }

  /** Cutting a stream of packets anywhere leaves whole packets and a partial frame on the left. */
  lemma {:induction false} CutStream(ps: seq<seq<uint8>>, n: nat) returns (k: nat, tail: seq<uint8>)
    requires n <= |Concat(ps)|
    ensures k <= |ps| && IsPartial(tail)
    ensures Concat(ps)[..n] == Concat(ps[..k]) + tail
    ensures if k < |ps| then tail < Frame(ps[k]) else tail == []
  {
    hide Stuff, Frame;
    if ps == [] {
      k, tail := 0, [];
    } else if n < |Frame(ps[0])| {
      FramePrefixIsPartial(ps[0], n);
      k, tail := 0, Frame(ps[0])[..n];
    } else {
      k, tail := CutStream(ps[1..], n - |Frame(ps[0])|);
      k := k + 1;
      assert ps[..k][1..] == ps[1..][..k - 1];
      assert Concat(ps)[..n] == Frame(ps[0]) + Concat(ps[1..])[..n - |Frame(ps[0])|];
    }
  }
}
