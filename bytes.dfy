/** Bytes, cipher blocks and the abstract cipher signatures. */
module Bytes {

  /** One octet, as a Python `bytes` element. */
  type Byte = b: int | 0 <= b < 256

  /** An 8-byte DES / TripleDES block. */
  type Block = b: seq<Byte> | |b| == 8 witness [0, 0, 0, 0, 0, 0, 0, 0]

  /** A 16-byte AES-CMAC tag. */
  type Mac = m: seq<Byte> | |m| == 16 witness [0, 0, 0, 0, 0, 0, 0, 0, 0, 0, 0, 0, 0, 0, 0, 0]

  /** A block cipher in ECB mode on one block, keyed by a byte string. Left uninterpreted:
      the model only knows that it maps an 8-byte block to an 8-byte block. */
  type BlockCipher = (seq<Byte>, Block) -> Block

  /** A MAC over arbitrary data, keyed by a byte string, with a 16-byte tag. */
  type MacFunction = (seq<Byte>, seq<Byte>) -> Mac

  /** `bytes([b]) * n` */
  function Repeat(b: Byte, n: nat): (r: seq<Byte>)
    ensures |r| == n
    ensures forall i :: 0 <= i < n ==> r[i] == b
  {
    seq(n, _ => b)
  }
}
