/**
  Bookkeeping for a one-way byte service that accepts whole packets: what was accepted, what came out,
  and which packets are still on their way.
 */
module Ledger {
  import opened Uart
  import opened Framing
  import opened FrameStream
  import opened Draining

  /**
    The packets on their way are the last ones accepted; what came out is everything before them
    or, once something was lost, strictly less than that.
   */
  ghost predicate Balanced(accepted: seq<seq<uint8>>, out: seq<uint8>, onWay: seq<seq<uint8>>, lossless: bool) {
    && |onWay| <= |accepted|
    && accepted[|accepted| - |onWay|..] == onWay
    && var done := Flatten(accepted[..|accepted| - |onWay|]);
       if lossless then out == done else |out| < |done|
  }

  /** Nothing accepted is missing, nothing is duplicated, and the order is kept. */
  ghost predicate Conserved(accepted: seq<seq<uint8>>, out: seq<uint8>, onWay: seq<seq<uint8>>) {
    out + Flatten(onWay) == Flatten(accepted)
  }

  lemma BalancedAccept(accepted: seq<seq<uint8>>, out: seq<uint8>, onWay: seq<seq<uint8>>, lossless: bool, p: seq<uint8>)
    requires Balanced(accepted, out, onWay, lossless)
    ensures Balanced(accepted + [p], out, onWay + [p], lossless)
  {
    var n := |accepted| - |onWay|;
    assert (accepted + [p])[..n] == accepted[..n];
    assert (accepted + [p])[n..] == accepted[n..] + [p];
  }

  lemma BalancedRelease(accepted: seq<seq<uint8>>, out: seq<uint8>, onWay: seq<seq<uint8>>, lossless: bool,
                        n: nat, released: seq<uint8>, whole: bool)
    requires Balanced(accepted, out, onWay, lossless)
    requires n <= |onWay|
    requires if whole then released == Flatten(onWay[..n]) else |released| < |Flatten(onWay[..n])|
    ensures Balanced(accepted, out + released, onWay[n..], lossless && whole)
  {
    var m := |accepted| - |onWay|;
    assert accepted[..m + n] == accepted[..m] + onWay[..n];
    FlattenAppend(accepted[..m], onWay[..n]);
    assert accepted[m + n..] == onWay[n..];
  }

  /** The books are conserved exactly when nothing was lost. */
  lemma BalancedConserves(accepted: seq<seq<uint8>>, out: seq<uint8>, onWay: seq<seq<uint8>>, lossless: bool)
    requires Balanced(accepted, out, onWay, lossless)
    ensures Conserved(accepted, out, onWay) <==> lossless
  {
    SplitConcat(accepted, |accepted| - |onWay|);
  }

  /** What came out to the caller is a prefix of what was accepted, and all of it when nothing is left behind. */
  lemma ConservedInOrder(accepted: seq<seq<uint8>>, delivered: seq<uint8>, queue: seq<uint8>, onWay: seq<seq<uint8>>)
    requires Conserved(accepted, delivered + queue, onWay)
    ensures delivered <= Flatten(accepted)
    ensures queue == [] && onWay == [] ==> delivered == Flatten(accepted)
  {
  }

  lemma NothingOnWay(s: seq<uint8>)
    ensures s == [] ==> Payloads(s) == []
  {
  }

  /** A byte stream made of whole encoded packets and nothing else. */
  ghost predicate IsStream(s: seq<uint8>) {
    ArePayloads(Payloads(s)) && s == Concat(Payloads(s))
  }

  lemma StreamOf(s: seq<uint8>, ps: seq<seq<uint8>>)
    requires ArePayloads(ps) && s == Concat(ps)
    ensures IsStream(s) && Payloads(s) == ps
  {
    assert s == Concat(ps) + [];
    ParseStream(ps, []);
  }

  lemma StreamAppend(s: seq<uint8>, p: seq<uint8>)
    requires IsStream(s) && IsPayload(p)
    ensures IsStream(s + Frame(p)) && Payloads(s + Frame(p)) == Payloads(s) + [p]
  {
    One(p);
    ConcatAppend(Payloads(s), [p]);
    StreamOf(s + Frame(p), Payloads(s) + [p]);
  }

  // ------------------------------------------------------------ one direction of a driver

  /**
    One direction of a driver: `fifo` and the bytes `behind` it are one stream of packets, and the
    books over the accepted packets and the bytes that came out are balanced.
   */
  ghost predicate Sound(accepted: seq<seq<uint8>>, out: seq<uint8>, fifo: seq<uint8>, behind: seq<uint8>, lossless: bool) {
    && IsStream(fifo + behind)
    && Balanced(accepted, out, Payloads(fifo + behind), lossless)
  }

  lemma SoundStart()
    ensures Sound([], [], [], [], true)
  {
  }

  lemma SoundAccept(accepted: seq<seq<uint8>>, out: seq<uint8>, fifo: seq<uint8>, behind: seq<uint8>, lossless: bool,
                    p: seq<uint8>)
    requires Sound(accepted, out, fifo, behind, lossless) && IsPayload(p)
    ensures Sound(accepted + [p], out, fifo, behind + Frame(p), lossless)
  {
    hide Parse, Frame;
    assert fifo + (behind + Frame(p)) == fifo + behind + Frame(p);
    StreamAppend(fifo + behind, p);
    BalancedAccept(accepted, out, Payloads(fifo + behind), lossless, p);
  }

  /** Decoding received frames into the queue keeps a direction sound, and lossless if the packets fit. */
  lemma SoundDecode(accepted: seq<seq<uint8>>, delivered: seq<uint8>, queue: seq<uint8>, fifo: seq<uint8>,
                    behind: seq<uint8>, lossless: bool, capacity: nat)
    requires Sound(accepted, delivered + queue, fifo, behind, lossless) && |queue| <= capacity
    ensures var d := DecodeIntoQueue(fifo, queue, capacity);
      var fits := Fits(Payloads(fifo), capacity - |queue|);
      && Sound(accepted, delivered + d.target, d.fifo, behind, lossless && fits)
      && |d.target| <= capacity
      && |d.fifo| <= |fifo|
      && d.status == if fits then Ok else InvalidFrame
  {
    hide Parse, DecodeIntoQueue, Fits, Taken;
    var ps := Payloads(fifo + behind);
    var room := capacity - |queue|;
    var n := DecodeFromStream(fifo, behind, ps, queue, capacity);
    var d := DecodeIntoQueue(fifo, queue, capacity);
    var fits := Fits(Payloads(fifo), room);
    var released := Take(Flatten(ps[..n]), room);
    StreamOf(d.fifo + behind, ps[n..]);
    Shorter(ps, n);
    BalancedRelease(accepted, delivered + queue, ps, lossless, n, released, fits);
    Associate(delivered, queue, released);
  }

  lemma Shorter(ps: seq<seq<uint8>>, n: nat)
    requires n <= |ps|
    ensures |Concat(ps[n..])| <= |Concat(ps)|
  {
    SplitConcat(ps, n);
  }

  /** Draining whole packets keeps a direction sound; a refusal hands over nothing and loses what it took. */
  lemma SoundDrain(accepted: seq<seq<uint8>>, drained: seq<uint8>, fifo: seq<uint8>, behind: seq<uint8>,
                   lossless: bool, length: nat)
    requires Sound(accepted, drained, fifo, behind, lossless)
    ensures var d := DrainPackets(fifo, [], length);
      var fits := Fits(Payloads(fifo), length);
      && Sound(accepted, if fits then drained + d.target else drained, d.fifo, behind, lossless && fits)
      && |d.fifo| <= |fifo|
      && d.status == if fits then Ok else InvalidArgument
  {
    hide Parse, DrainPackets, Fits, Taken;
    var ps := Payloads(fifo + behind);
    var n := DrainFromStream(fifo, behind, ps, length);
    var d := DrainPackets(fifo, [], length);
    var fits := Fits(Payloads(fifo), length);
    var released := if fits then d.target else [];
    StreamOf(d.fifo + behind, ps[n..]);
    if !fits {
      NonEmptyFlatten(ps[..n]);
    }
    BalancedRelease(accepted, drained, ps, lossless, n, released, fits);
    assert drained + [] == drained;
    Shorter(ps, n);
  }

  lemma NonEmptyFlatten(ps: seq<seq<uint8>>)
    requires ArePayloads(ps) && ps != []
    ensures Flatten(ps) != []
  {
  }
}
