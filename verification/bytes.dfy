/** Bytes of the mapped file and the big-endian integer fields the twoskip
    format stores in them. */
module Bytes {

  /** An unsigned 8-bit value, one cell of the mapped file. */
  newtype byte = b: int | 0 <= b < 256

  /** 256^n: the number of values an n-byte field can hold. */
  function Pow256(n: nat): (p: nat)
    ensures p >= 1
  {
    if n == 0 then 1 else 256 * Pow256(n - 1)
  }

  /** Big-endian decoding: the first byte is the most significant. */
  function BeUint(s: seq<byte>): (v: nat)
    ensures v < Pow256(|s|)
  {
    if |s| == 0 then 0
    else
      var high := BeUint(s[..|s| - 1]);
      assert high <= Pow256(|s| - 1) - 1;
      high * 256 + s[|s| - 1] as nat
  }

  /** The big-endian field of `width` bytes at position `at` of `buf`. */
  function FieldAt(buf: seq<byte>, at: nat, width: nat): (v: nat)
    requires at + width <= |buf|
    ensures v < Pow256(width)
  {
    BeUint(buf[at..at + width])
  }

  /** A field read where a writer put an encoding of `v` yields `v`. */
  lemma {:induction false} FieldOfEncoding(pre: seq<byte>, v: nat, width: nat, post: seq<byte>)
    requires v < Pow256(width)
    ensures FieldAt(pre + BeEncode(v, width) + post, |pre|, width) == v
  {
    var buf := pre + BeEncode(v, width) + post;
    assert buf[|pre|..|pre| + width] == BeEncode(v, width);
    DecodeEncode(v, width);
  }

  /** Appending bytes does not change a field that lies before them. */
  lemma {:induction false} FieldThroughAppend(p: seq<byte>, x: seq<byte>, at: nat, width: nat)
    requires at + width <= |p|
    ensures FieldAt(p + x, at, width) == FieldAt(p, at, width)
  {
    assert (p + x)[at..at + width] == p[at..at + width];
  }

  /** A field inside a stretch of the buffer known to hold `x` reads as in `x`. */
  lemma {:induction false} FieldInSlice(buf: seq<byte>, off: nat, x: seq<byte>, at: nat, width: nat)
    requires off + |x| <= |buf| && buf[off..off + |x|] == x
    requires at + width <= |x|
    ensures FieldAt(buf, off + at, width) == FieldAt(x, at, width)
  {
    SubSlice(buf, off, x, at, at + width);
  }

  /** Stretches of a stretch: what a buffer holds inside a part it is known to hold. */
  lemma {:induction false} SubSlice(buf: seq<byte>, off: nat, x: seq<byte>, i: nat, j: nat)
    requires off + |x| <= |buf| && buf[off..off + |x|] == x
    requires i <= j <= |x|
    ensures buf[off + i..off + j] == x[i..j]
  {
    forall k | 0 <= k < j - i
      ensures buf[off + i..off + j][k] == x[i..j][k]
    {
      assert buf[off..off + |x|][i + k] == buf[off + i + k];
    }
  }

  /** A stretch of buffer holding `a + b` holds `a`, then `b`. */
  lemma {:induction false} SplitAt(buf: seq<byte>, off: nat, a: seq<byte>, b: seq<byte>)
    requires off + |a| + |b| <= |buf| && buf[off..off + |a| + |b|] == a + b
    ensures buf[off..off + |a|] == a
    ensures buf[off + |a|..off + |a| + |b|] == b
  {
    SubSlice(buf, off, a + b, 0, |a|);
    assert (a + b)[0..|a|] == a;
    SubSlice(buf, off, a + b, |a|, |a| + |b|);
    assert (a + b)[|a|..|a| + |b|] == b;
  }

  /** The five consecutive parts of a record's checked stretch: framing,
      two 4-byte checksums, key and value. */
  lemma {:induction false} SplitRecord(buf: seq<byte>, off: nat, f: seq<byte>, c1: seq<byte>, c2: seq<byte>, k: seq<byte>, v: seq<byte>)
    requires |c1| == 4 && |c2| == 4
    requires off + |f| + 8 + |k| + |v| <= |buf|
    requires buf[off..off + |f| + 8 + |k| + |v|] == f + c1 + c2 + k + v
    ensures buf[off..off + |f|] == f
    ensures buf[off + |f|..off + |f| + 4] == c1
    ensures buf[off + |f| + 4..off + |f| + 8] == c2
    ensures buf[off + |f| + 8..off + |f| + 8 + |k|] == k
    ensures buf[off + |f| + 8 + |k|..off + |f| + 8 + |k| + |v|] == v
  {
    var x := f + c1 + c2 + k + v;
    var n := |f|;
    SubSlice(buf, off, x, 0, n);
    assert x[0..n] == f;
    SubSlice(buf, off, x, n, n + 4);
    assert x[n..n + 4] == c1;
    SubSlice(buf, off, x, n + 4, n + 8);
    assert x[n + 4..n + 8] == c2;
    SubSlice(buf, off, x, n + 8, n + 8 + |k|);
    assert x[n + 8..n + 8 + |k|] == k;
    SubSlice(buf, off, x, n + 8 + |k|, n + 8 + |k| + |v|);
    assert x[n + 8 + |k|..n + 8 + |k| + |v|] == v;
  }

  /** The widths of the fields the twoskip format uses. */
  lemma {:induction false} PowValues()
    ensures Pow256(2) == 0x1_0000
    ensures Pow256(4) == 0x1_0000_0000
    ensures Pow256(8) == 0x1_0000_0000_0000_0000
  {
    assert Pow256(1) == 256;
    assert Pow256(3) == 0x100_0000;
    assert Pow256(5) == 0x100_0000_0000;
    assert Pow256(6) == 0x1_0000_0000_0000;
    assert Pow256(7) == 0x100_0000_0000_0000;
  }

  /** Big-endian encoding of `v` into exactly `width` bytes. */
  function BeEncode(v: nat, width: nat): (s: seq<byte>)
    requires v < Pow256(width)
    ensures |s| == width
  {
    if width == 0 then []
    else
      DivBound(v, Pow256(width - 1));
      BeEncode(v / 256, width - 1) + [(v % 256) as byte]
  }

  /** Dropping the lowest byte of a value below 256 * p leaves a value below p. */
  lemma {:induction false} DivBound(v: nat, p: nat)
    requires v < 256 * p
    ensures v / 256 < p
  {
  }

  /** Decoding undoes encoding. */
  lemma {:induction false} DecodeEncode(v: nat, width: nat)
    requires v < Pow256(width)
    ensures BeUint(BeEncode(v, width)) == v
  {
    if width > 0 {
      var s := BeEncode(v, width);
      DivBound(v, Pow256(width - 1));
      assert s[..|s| - 1] == BeEncode(v / 256, width - 1);
      DecodeEncode(v / 256, width - 1);
      assert BeUint(s) == (v / 256) * 256 + v % 256;
    }
  }

  /** Encoding undoes decoding: every byte string is the encoding of its value. */
  lemma {:induction false} EncodeDecode(s: seq<byte>)
    ensures BeEncode(BeUint(s), |s|) == s
  {
    if |s| > 0 {
      var init := s[..|s| - 1];
      var v := BeUint(s);
      assert v / 256 == BeUint(init);
      assert v % 256 == s[|s| - 1] as nat;
      EncodeDecode(init);
    }
  }

  /** `n` zero bytes, the padding after a record's payload. */
  function Zeros(n: nat): (s: seq<byte>)
    ensures |s| == n
    ensures forall i :: 0 <= i < n ==> s[i] == 0
  {
    seq(n, _ => 0)
  }
}
