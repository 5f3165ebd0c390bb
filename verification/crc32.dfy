/** CRC-32 with the ISO-HDLC parameters (the checksum of zlib, PNG and
    Ethernet): reflected polynomial 0xEDB88320, initial value and final XOR
    0xFFFFFFFF. The twoskip header and every record head carry one.

    The decoder takes its checksum function as a parameter (`Sum`), since
    the CRC comes from a library; `Checksum` is the instance the file format
    names, and `ChecksumFits` shows it is a valid one. Nothing proved about
    the decoder depends on which function it is. */
module Crc32 {
  import opened Bytes

  /** A checksum function over byte strings. */
  type Sum = seq<byte> -> nat

  /** A checksum function whose values fit the 4-byte fields that store them. */
  ghost predicate Fits(crc: Sum) {
    forall d :: crc(d) < Pow256(4)
  }

  const POLY: bv32 := 0xEDB8_8320

  /** `k` rounds of the bitwise shift-and-reduce step. */
  function Rounds(c: bv32, k: nat): bv32
    decreases k
  {
    if k == 0 then c
    else Rounds(if c & 1 == 1 then (c >> 1) ^ POLY else c >> 1, k - 1)
  }

  /** Feeds `data` into a running register value `c`. */
  function Update(c: bv32, data: seq<byte>): bv32
    decreases |data|
  {
    if |data| == 0 then c
    else Update(Rounds(c ^ (data[0] as bv32), 8), data[1..])
  }

  /** The CRC-32/ISO-HDLC checksum of `data`, as a number below 2^32: the
      concrete `Sum` the format names. Every lemma about decoding holds for
      any `Sum` that `Fits`, and so for this one by `ChecksumFits`. */
  function Checksum(data: seq<byte>): (c: nat)
    ensures c < Pow256(4)
  {
    assert Pow256(4) == 0x1_0000_0000;
    (Update(0xFFFF_FFFF, data) ^ 0xFFFF_FFFF) as nat
  }

  /** The format's checksum fits a 4-byte field. */
  lemma ChecksumFits()
    ensures Fits(Checksum)
  {
  }
}
