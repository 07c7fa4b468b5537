/** Byte type, sizes and status codes shared by every layer of the XR17V358 driver model. */
module Uart {

  type uint8 = bv8

  const FRAME_DELIMITER: uint8 := 0x7E
  const FRAME_ESCAPE: uint8 := 0x7D
  const FRAME_ESCAPE_XOR: uint8 := 0x20

  /** Largest payload of one packet. */
  const QUEUE_CAPACITY: nat := 1024
  /** Most bytes moved by one FIFO service step. */
  const FIFO_CAPACITY: nat := 256
  /** Two flags and a body in which every byte is escaped. */
  const MAX_ENCODED_BYTE_COUNT: nat := 2 + QUEUE_CAPACITY * 2
  /** Bytes of storage behind each ring, and the capacity every ring of a port is reset to. */
  const RING_STORAGE_CAPACITY: nat := FIFO_CAPACITY * MAX_ENCODED_BYTE_COUNT

  /** The driver's status codes. The "message not ready" code and `Ok` are the same number in the driver. */
  datatype Status = Ok | MessageReady | InvalidArgument | InvalidFrame

  function Min(a: nat, b: nat): (m: nat)
    ensures m <= a && m <= b && (m == a || m == b)
  {
    if a <= b then a else b
  }

  lemma Associate(a: seq<uint8>, b: seq<uint8>, c: seq<uint8>)
    ensures a + (b + c) == a + b + c
  {
  }

  /** Moving bytes from the front of `back` to the end of `front` moves nothing in the whole. */
  lemma Rejoin(front: seq<uint8>, back: seq<uint8>, n: nat)
    requires n <= |back|
    ensures front + back[..n] + back[n..] == front + back
  {
  }
}
