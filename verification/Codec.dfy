/** The encoder and decoder as the driver runs them: two passes over the payload, one pass over the frame. */
module Codec {
  import opened Uart
  import opened Framing

  /** The sizing pass: how many bytes the stuffed payload takes. */
  method MeasureBody(data: seq<uint8>) returns (length: nat)
    ensures length == |Stuff(data)|
  {
    length := 0;
    for i := 0 to |data|
      invariant length == |Stuff(data[..i])|
    {
      StuffSnoc(data, i);
      length := length + if RequiresEscape(data[i]) then 2 else 1;
    }
    assert data[..|data|] == data;
  }

  /** One step of the writing pass: the byte, escaped if need be, goes in at `at`. */
  method PutByte(frame: array<uint8>, at: nat, value: uint8) returns (next: nat)
    requires at + |StuffByte(value)| <= frame.Length
    modifies frame
    ensures next == at + |StuffByte(value)|
    ensures frame[..] == old(frame[..at]) + StuffByte(value) + old(frame[next..])
  {
    next := at;
    if RequiresEscape(value) {
      frame[next] := FRAME_ESCAPE;
      next := next + 1;
      frame[next] := value ^ FRAME_ESCAPE_XOR;
      next := next + 1;
    } else {
      frame[next] := value;
      next := next + 1;
    }
    assert frame[at..next] == StuffByte(value);
    assert frame[..] == frame[..at] + frame[at..next] + frame[next..];
  }

  lemma Extend(written: seq<uint8>, unit: seq<uint8>, original: seq<uint8>)
    requires |written| + |unit| <= |original|
    ensures var buffer := written + original[|written|..];
      buffer[..|written|] + unit + buffer[|written| + |unit|..] == written + unit + original[|written| + |unit|..]
  {
  }

  /** The writing pass up to the closing flag: every store lands inside the measured length. */
  method WriteBody(data: seq<uint8>, frame: array<uint8>) returns (frameLength: nat)
    requires |Frame(data)| <= frame.Length
    modifies frame
    ensures frameLength == 1 + |Stuff(data)|
    ensures frame[..frameLength] == [FRAME_DELIMITER] + Stuff(data)
    ensures frame[frameLength..] == old(frame[frameLength..])
  {
    hide Stuff, StuffByte;
    frame[0] := FRAME_DELIMITER;
    frameLength := 1;
    ghost var written := [FRAME_DELIMITER];
    StuffNothing();
    assert data[..0] == [];
    for i := 0 to |data|
      invariant written == [FRAME_DELIMITER] + Stuff(data[..i])
      invariant frameLength == |written| <= 1 + |Stuff(data)|
      invariant frame[..] == written + old(frame[..])[frameLength..]
    {
      StuffSnoc(data, i);
      Extend(written, StuffByte(data[i]), old(frame[..]));
      frameLength := PutByte(frame, frameLength, data[i]);
      written := written + StuffByte(data[i]);
    }
    assert data[..|data|] == data;
  }

  /** Encodes `data` into `frame`; zero, and an untouched buffer, if the length or the buffer rules it out. */
  method EncodeSerialData(data: seq<uint8>, frame: array<uint8>, frameCapacity: nat) returns (frameLength: nat)
    requires frameCapacity <= frame.Length
    modifies frame
    ensures frameLength == if IsPayload(data) && |Frame(data)| <= frameCapacity then |Frame(data)| else 0
    ensures frameLength > 0 ==> frame[..frameLength] == Frame(data)
    ensures frame[frameLength..] == old(frame[frameLength..])
  {
    if |data| == 0 || |data| > QUEUE_CAPACITY {
      return 0;
    }

    frameLength := MeasureBody(data);
    frameLength := frameLength + 2;
    if frameLength > frameCapacity {
      return 0;
    }

    frameLength := WriteBody(data, frame);
    frame[frameLength] := FRAME_DELIMITER;
    frameLength := frameLength + 1;
    assert frame[..frameLength] == frame[..frameLength - 1] + [FRAME_DELIMITER];
  }

  /** `buffer` is `original` with `bytes` at its front. */
  ghost predicate Fills(buffer: seq<uint8>, bytes: seq<uint8>, original: seq<uint8>) {
    && |bytes| <= |buffer| == |original|
    && buffer[..|bytes|] == bytes
    && buffer[|bytes|..] == original[|bytes|..]
  }

  /**
    Decodes one frame into `data`. The length is meaningful only when the status is `Ok`; a rejected frame
    leaves what was decoded of it in the buffer, and the rest of the buffer as it was.
   */
  method DecodeSerialData(frame: seq<uint8>, data: array<uint8>, dataCapacity: nat)
    returns (status: Status, dataLength: nat)
    requires dataCapacity <= data.Length
    modifies data
    ensures dataLength <= dataCapacity
    ensures match Decode(frame, dataCapacity)
            case Decoded(payload) =>
              && status == Ok && dataLength == |payload|
              && Fills(data[..], payload, old(data[..]))
            case Rejected(error, partial) =>
              && status == error && dataLength == 0
              && Fills(data[..], partial, old(data[..]))
  {
    if |frame| < 3 || frame[0] != FRAME_DELIMITER || frame[|frame| - 1] != FRAME_DELIMITER {
      return InvalidFrame, 0;
    }

    ghost var body := frame[1..|frame| - 1];
    var decoded := 0;
    var i := 1;
    while i + 1 < |frame|
      invariant 1 <= i <= |frame| - 1
      invariant decoded <= dataCapacity
      invariant Unstuff(body, [], dataCapacity) == Unstuff(frame[i..|frame| - 1], data[..decoded], dataCapacity)
      invariant data[decoded..] == old(data[..])[decoded..]
    {
      ghost var left := frame[i..|frame| - 1];
      var value := frame[i];
      if value == FRAME_DELIMITER {
        return InvalidFrame, 0;
      }
      if value == FRAME_ESCAPE {
        if i + 2 >= |frame| {
          return InvalidFrame, 0;
        }
        i := i + 1;
        value := frame[i] ^ FRAME_ESCAPE_XOR;
        if !RequiresEscape(value) {
          return InvalidFrame, 0;
        }
      }
      if decoded >= QUEUE_CAPACITY {
        return InvalidFrame, 0;
      }
      if decoded >= dataCapacity {
        return InvalidArgument, 0;
      }
      ghost var done := data[..decoded];
      data[decoded] := value;
      decoded := decoded + 1;
      i := i + 1;
      assert data[..decoded] == done + [value];
      assert frame[i..|frame| - 1] == left[if left[0] == FRAME_ESCAPE then 2 else 1..];
    }

    if decoded == 0 {
      return InvalidFrame, 0;
    }
    return Ok, decoded;
  }
}
