/** The writer's side of record framing, used as the independent partner of
    `Records.RecordAt`: decoding a record a writer laid down anywhere in a
    buffer gives back exactly what was written. */
module RecordCodec {
  import opened Bytes
  import opened Errors
  import opened Records
  import Crc32

  /** What a writer puts into one record. */
  datatype Entry = Entry(
    typ: RecordType,
    level: nat,
    nextLoc: seq<nat>,
    key: seq<byte>,
    val: seq<byte>,
    crcTail: nat)

  /** An entry whose every field fits its on-disk width. */
  predicate Encodable(e: Entry) {
    && e.level <= MAX_LEVEL
    && |e.nextLoc| == e.level + 1
    && (forall i :: 0 <= i < |e.nextLoc| ==> e.nextLoc[i] < Pow256(8))
    && |e.key| < Pow256(8)
    && |e.val| < Pow256(8)
    && e.crcTail < Pow256(4)
  }

  /** Whether the key needs the 8-byte extended length. */
  predicate KeyExtended(e: Entry) {
    |e.key| >= KEY_LEN_ESCAPE
  }

  /** Whether the value needs the 8-byte extended length. */
  predicate ValExtended(e: Entry) {
    |e.val| >= VAL_LEN_ESCAPE
  }

  /** Tag and level. */
  function Prefix(e: Entry): (s: seq<byte>)
    requires Encodable(e)
    ensures |s| == 2
  {
    [TagOf(e.typ), e.level as byte]
  }

  /** Prefix plus the compact key length (or its escape). */
  function WithKeyCompact(e: Entry): (s: seq<byte>)
    requires Encodable(e)
    ensures |s| == 4
  {
    PowValues();
    Prefix(e) + BeEncode(if KeyExtended(e) then KEY_LEN_ESCAPE else |e.key|, 2)
  }

  /** ... plus the compact value length (or its escape). */
  function WithValCompact(e: Entry): (s: seq<byte>)
    requires Encodable(e)
    ensures |s| == 8
  {
    PowValues();
    WithKeyCompact(e) + BeEncode(if ValExtended(e) then VAL_LEN_ESCAPE else |e.val|, 4)
  }

  /** ... plus the extended key length when the key needs one. */
  function WithKeyExt(e: Entry): (s: seq<byte>)
    requires Encodable(e)
    ensures |s| == 8 + (if KeyExtended(e) then 8 else 0)
  {
    WithValCompact(e) + (if KeyExtended(e) then BeEncode(|e.key|, 8) else [])
  }

  /** All length fields: the extended value length, when needed, comes last. */
  function LengthHeader(e: Entry): (s: seq<byte>)
    requires Encodable(e)
    ensures |s| == 8 + (if KeyExtended(e) then 8 else 0) + (if ValExtended(e) then 8 else 0)
  {
    WithKeyExt(e) + (if ValExtended(e) then BeEncode(|e.val|, 8) else [])
  }

  /** The forward-pointer table, 8 big-endian bytes per level. */
  function EncodePointers(ptrs: seq<nat>): (s: seq<byte>)
    requires forall i :: 0 <= i < |ptrs| ==> ptrs[i] < Pow256(8)
    ensures |s| == 8 * |ptrs|
  {
    if |ptrs| == 0 then []
    else BeEncode(ptrs[0], 8) + EncodePointers(ptrs[1..])
  }

  /** Everything the head checksum covers. */
  function Framing(e: Entry): (s: seq<byte>)
    requires Encodable(e)
    ensures |s| == |LengthHeader(e)| + 8 * (e.level + 1)
  {
    LengthHeader(e) + EncodePointers(e.nextLoc)
  }

  /** The framing followed by the head and tail checksums. */
  function Checked(crc: Crc32.Sum, e: Entry): (s: seq<byte>)
    requires Crc32.Fits(crc) && Encodable(e)
    ensures |s| == |Framing(e)| + 8
  {
    var f := Framing(e);
    f + BeEncode(crc(f), 4) + BeEncode(e.crcTail, 4)
  }

  /** The zero bytes that pad key and value to a multiple of 8. */
  function Padding(e: Entry): (p: nat)
    ensures |e.key| + |e.val| + p == RoundUp(|e.key| + |e.val|, 8)
  {
    var payload := |e.key| + |e.val|;
    var padded := RoundUp(payload, 8);
    padded - payload
  }

  /** The whole record as a writer lays it down, payload zero-padded. */
  function EncodeRecord(crc: Crc32.Sum, e: Entry): (s: seq<byte>)
    requires Crc32.Fits(crc) && Encodable(e)
  {
    var p := Padding(e);
    Checked(crc, e) + e.key + e.val + Zeros(p)
  }

  /** The compact length a writer stores for the key. */
  function KeyCompact(e: Entry): nat {
    if KeyExtended(e) then KEY_LEN_ESCAPE else |e.key|
  }

  /** The compact length a writer stores for the value. */
  function ValCompact(e: Entry): nat {
    if ValExtended(e) then VAL_LEN_ESCAPE else |e.val|
  }

  /** The two compact length fields sit at 2 and 4 of the length header. */
  lemma {:induction false} CompactFields(e: Entry)
    requires Encodable(e)
    ensures FieldAt(LengthHeader(e), 2, 2) == KeyCompact(e)
    ensures FieldAt(LengthHeader(e), 4, 4) == ValCompact(e)
  {
    PowValues();
    var p0, p1, p2, p3, p4 := Prefix(e), WithKeyCompact(e), WithValCompact(e), WithKeyExt(e), LengthHeader(e);
    FieldOfEncoding(p0, KeyCompact(e), 2, []);
    assert p0 + BeEncode(KeyCompact(e), 2) + [] == p1;
    FieldOfEncoding(p1, ValCompact(e), 4, []);
    assert p1 + BeEncode(ValCompact(e), 4) + [] == p2;
    FieldThroughAppend(p1, p2[4..], 2, 2);
    assert p1 + p2[4..] == p2;
    FieldThroughAppend(p2, p3[8..], 2, 2);
    FieldThroughAppend(p2, p3[8..], 4, 4);
    assert p2 + p3[8..] == p3;
    FieldThroughAppend(p3, p4[|p3|..], 2, 2);
    FieldThroughAppend(p3, p4[|p3|..], 4, 4);
    assert p3 + p4[|p3|..] == p4;
  }

  /** The extended lengths, when present, follow at 8: the key's first. */
  lemma {:induction false} ExtendedFields(e: Entry)
    requires Encodable(e)
    ensures KeyExtended(e) ==> FieldAt(LengthHeader(e), 8, 8) == |e.key|
    ensures ValExtended(e) ==> FieldAt(LengthHeader(e), |LengthHeader(e)| - 8, 8) == |e.val|
  {
    var p2, p3, p4 := WithValCompact(e), WithKeyExt(e), LengthHeader(e);
    if KeyExtended(e) {
      FieldOfEncoding(p2, |e.key|, 8, []);
      assert p2 + BeEncode(|e.key|, 8) + [] == p3;
      FieldThroughAppend(p3, p4[|p3|..], 8, 8);
      assert p3 + p4[|p3|..] == p4;
    }
    if ValExtended(e) {
      FieldOfEncoding(p3, |e.val|, 8, []);
      assert p3 + BeEncode(|e.val|, 8) + [] == p4;
    }
  }

  /** The length fields of an encoded record decode to the entry's lengths. */
  lemma {:induction false} LengthsOfEncoding(buf: seq<byte>, off: nat, e: Entry)
    requires Encodable(e)
    requires off + |LengthHeader(e)| <= |buf| && buf[off..off + |LengthHeader(e)|] == LengthHeader(e)
    ensures ReadLengths(buf, off) == Ok(Lengths(TagOf(e.typ), e.level, |e.key|, |e.val|, |LengthHeader(e)|))
  {
    PowValues();
    var p4 := LengthHeader(e);
    CompactFields(e);
    ExtendedFields(e);
    FieldInSlice(buf, off, p4, 2, 2);
    FieldInSlice(buf, off, p4, 4, 4);
    if KeyExtended(e) {
      FieldInSlice(buf, off, p4, 8, 8);
    }
    if ValExtended(e) {
      FieldInSlice(buf, off, p4, |p4| - 8, 8);
    }
    assert p4[..2] == Prefix(e);
    assert buf[off] == p4[0] == TagOf(e.typ);
    assert buf[off + 1] == p4[1] == e.level as byte;
  }

  /** A pointer table a writer laid down reads back as the pointers written. */
  lemma {:induction false} PointersOfEncoding(buf: seq<byte>, at: nat, ptrs: seq<nat>)
    requires forall i :: 0 <= i < |ptrs| ==> ptrs[i] < Pow256(8)
    requires at + 8 * |ptrs| <= |buf|
    requires buf[at..at + 8 * |ptrs|] == EncodePointers(ptrs)
    ensures ReadPointers(buf, at, |ptrs|) == ptrs
    decreases |ptrs|
  {
    if |ptrs| > 0 {
      var first, rest := BeEncode(ptrs[0], 8), EncodePointers(ptrs[1..]);
      SplitAt(buf, at, first, rest);
      DecodeEncode(ptrs[0], 8);
      PointersOfEncoding(buf, at + 8, ptrs[1..]);
    }
  }

  /** A stretch of buffer holding a record's framing reads back the
      lengths and pointers written. */
  lemma {:induction false} ReadsFraming(buf: seq<byte>, off: nat, e: Entry)
    requires Encodable(e)
    requires off + |Framing(e)| <= |buf| && buf[off..off + |Framing(e)|] == Framing(e)
    ensures ReadLengths(buf, off) == Ok(WrittenLengths(e))
    ensures ReadPointers(buf, off + |LengthHeader(e)|, e.level + 1) == e.nextLoc
  {
    var lh, ep := LengthHeader(e), EncodePointers(e.nextLoc);
    SplitAt(buf, off, lh, ep);
    LengthsOfEncoding(buf, off, e);
    PointersOfEncoding(buf, off + |lh|, e.nextLoc);
  }

  /** A stretch of buffer holding a record's checked framing and payload
      reads back each part as written. */
  lemma {:induction false} ReadsWrittenParts(crc: Crc32.Sum, buf: seq<byte>, off: nat, e: Entry)
    requires Crc32.Fits(crc) && Encodable(e)
    requires off + |Framing(e)| + 8 + |e.key| + |e.val| <= |buf|
    requires buf[off..off + |Framing(e)| + 8 + |e.key| + |e.val|] == Checked(crc, e) + e.key + e.val
    ensures var f := Framing(e);
      && buf[off..off + |f|] == f
      && FieldAt(buf, off + |f|, 4) == crc(f)
      && FieldAt(buf, off + |f| + 4, 4) == e.crcTail
      && buf[off + |f| + 8..off + |f| + 8 + |e.key|] == e.key
      && buf[off + |f| + 8 + |e.key|..off + |f| + 8 + |e.key| + |e.val|] == e.val
  {
    PowValues();
    var f := Framing(e);
    var c1, c2 := BeEncode(crc(f), 4), BeEncode(e.crcTail, 4);
    assert Checked(crc, e) == f + c1 + c2;
    SplitRecord(buf, off, f, c1, c2, e.key, e.val);
    DecodeEncode(crc(f), 4);
    DecodeEncode(e.crcTail, 4);
  }

  /** A record written between `pre` and `post` holds its checked framing
      and payload right at `|pre|`, followed by the padding. */
  lemma {:induction false} WrittenAt(crc: Crc32.Sum, pre: seq<byte>, e: Entry, post: seq<byte>)
    requires Crc32.Fits(crc) && Encodable(e)
    ensures var buf, off := pre + EncodeRecord(crc, e) + post, |pre|;
      && |EncodeRecord(crc, e)| == |Framing(e)| + 8 + |e.key| + |e.val| + Padding(e)
      && off + |Framing(e)| + 8 + |e.key| + |e.val| <= |buf|
      && buf[off..off + |Framing(e)| + 8 + |e.key| + |e.val|] == Checked(crc, e) + e.key + e.val
  {
    var x, z := Checked(crc, e) + e.key + e.val, Zeros(Padding(e));
    assert EncodeRecord(crc, e) == x + z;
    var buf := pre + x + z + post;
    assert buf == pre + EncodeRecord(crc, e) + post;
    assert buf[|pre|..|pre| + |x|] == x;
  }

  /** The length fields a writer stores describe the record it lays down:
      the length the reader computes is the encoding's length, and the head
      checksum sits right after the framing. */
  lemma {:induction false} ExtentOfEncoding(e: Entry, off: nat)
    requires Encodable(e)
    ensures var l := WrittenLengths(e);
      && l.Len() == |Framing(e)| + 8 + |e.key| + |e.val| + Padding(e)
      && l.HeadCrcAt(off) == off + |Framing(e)|
  {
  }

  /** The length fields a writer stores for `e`. */
  function WrittenLengths(e: Entry): (l: Lengths)
    requires Encodable(e)
  {
    Lengths(TagOf(e.typ), e.level, |e.key|, |e.val|, |LengthHeader(e)|)
  }

  /** The record the reader should build from a record written for `e` at `off`. */
  function Expected(crc: Crc32.Sum, off: nat, e: Entry): (r: Record)
    requires Encodable(e)
  {
    var f := Framing(e);
    Record(off, WrittenLengths(e).Len(), e.typ, e.level, |e.key|, |e.val|, e.nextLoc, crc(f), e.crcTail,
      off + |f| + 8, off + |f| + 8 + |e.key|)
  }

  /** The facts a reader finds in a buffer holding a written record's
      checked framing and payload at `off`: the framing, both checksums as
      stored, then the key and the value. */
  ghost predicate PartsAt(crc: Crc32.Sum, buf: seq<byte>, off: nat, e: Entry)
    requires Encodable(e)
  {
    var f := Framing(e);
    && off + |f| + 8 + |e.key| + |e.val| <= |buf|
    && buf[off..off + |f|] == f
    && FieldAt(buf, off + |f|, 4) == crc(f)
    && FieldAt(buf, off + |f| + 4, 4) == e.crcTail
    && buf[off + |f| + 8..off + |f| + 8 + |e.key|] == e.key
    && buf[off + |f| + 8 + |e.key|..off + |f| + 8 + |e.key| + |e.val|] == e.val
  }

  /** The parts of a written record meet what `RecordAtFramed` asks of a
      record's framing: the pointer table follows the length fields, and the
      tag byte names the written kind. */
  lemma {:induction false} PartsAreFramed(crc: Crc32.Sum, buf: seq<byte>, off: nat, e: Entry)
    requires Crc32.Fits(crc) && Encodable(e)
    requires off + WrittenLengths(e).Len() <= |buf|
    requires ReadLengths(buf, off) == Ok(WrittenLengths(e))
    requires ReadPointers(buf, off + |LengthHeader(e)|, e.level + 1) == e.nextLoc
    ensures WrittenLengths(e).headerLen + 8 * (WrittenLengths(e).level + 1) == |Framing(e)|
    ensures FromTag(buf[off]) == Ok(e.typ)
    ensures ReadPointers(buf, WrittenLengths(e).PointersAt(off), WrittenLengths(e).level + 1) == e.nextLoc
  {
    FromTagOf(e.typ);
    assert buf[off] == WrittenLengths(e).tag;
    assert WrittenLengths(e).PointersAt(off) == off + |LengthHeader(e)|;
  }

  /** Framing and checksums as written, with room for the padding, make the
      record decode to the one the writer described. */
  lemma {:induction false} DecodesParts(crc: Crc32.Sum, buf: seq<byte>, off: nat, e: Entry)
    requires Crc32.Fits(crc) && Encodable(e)
    requires off + WrittenLengths(e).Len() <= |buf|
    requires ReadLengths(buf, off) == Ok(WrittenLengths(e))
    requires ReadPointers(buf, off + |LengthHeader(e)|, e.level + 1) == e.nextLoc
    requires buf[off..off + |Framing(e)|] == Framing(e)
    requires FieldAt(buf, off + |Framing(e)|, 4) == crc(Framing(e))
    requires FieldAt(buf, off + |Framing(e)| + 4, 4) == e.crcTail
    ensures RecordAt(crc, buf, off) == Ok(Expected(crc, off, e))
  {
    var l, f := WrittenLengths(e), Framing(e);
    PartsAreFramed(crc, buf, off, e);
    RecordAtFramed(crc, buf, off, l, f, e.typ, e.nextLoc, e.crcTail);
    assert Expected(crc, off, e) == Record(off, l.Len(), e.typ, l.level, l.keyLen, l.valLen,
      e.nextLoc, crc(f), e.crcTail, off + |f| + 8, off + |f| + 8 + l.keyLen);
  }

  /** The key and value views of the described record are the bytes written. */
  lemma {:induction false} ViewsOfParts(crc: Crc32.Sum, buf: seq<byte>, off: nat, e: Entry)
    requires Crc32.Fits(crc) && Encodable(e)
    requires off + |Framing(e)| + 8 + |e.key| + |e.val| + Padding(e) <= |buf|
    requires PartsAt(crc, buf, off, e)
    ensures Framed(Expected(crc, off, e), |buf|)
    ensures Key(buf, Expected(crc, off, e)) == e.key
    ensures Value(buf, Expected(crc, off, e)) == e.val
  {
    ExtentOfEncoding(e, off);
    LenIsMultiple(WrittenLengths(e));
  }

  /** A buffer holding a written record's checked framing and payload at
      `off`, with room for the padding, decodes there to the record the writer
      described, whose key and value views are the ones written. */
  lemma {:induction false} DecodesWritten(crc: Crc32.Sum, buf: seq<byte>, off: nat, e: Entry)
    requires Crc32.Fits(crc) && Encodable(e)
    requires off + |Framing(e)| + 8 + |e.key| + |e.val| + Padding(e) <= |buf|
    requires buf[off..off + |Framing(e)| + 8 + |e.key| + |e.val|] == Checked(crc, e) + e.key + e.val
    ensures RecordAt(crc, buf, off) == Ok(Expected(crc, off, e))
    ensures Key(buf, Expected(crc, off, e)) == e.key
    ensures Value(buf, Expected(crc, off, e)) == e.val
  {
    ReadsWrittenParts(crc, buf, off, e);
    ReadsFraming(buf, off, e);
    ExtentOfEncoding(e, off);
    DecodesParts(crc, buf, off, e);
    ViewsOfParts(crc, buf, off, e);
  }

  /** Decoding a record a writer laid down at any offset of any buffer gives
      back the kind, level, pointers, lengths and both checksums that were
      written, spans exactly the written bytes, and its key and value views
      are the key and value written. */
  lemma {:induction false} EncodeThenDecode(crc: Crc32.Sum, pre: seq<byte>, e: Entry, post: seq<byte>)
    requires Crc32.Fits(crc) && Encodable(e)
    ensures var buf, r := pre + EncodeRecord(crc, e) + post, Expected(crc, |pre|, e);
      && RecordAt(crc, buf, |pre|) == Ok(r)
      && r.len == |EncodeRecord(crc, e)|
      && Key(buf, r) == e.key
      && Value(buf, r) == e.val
  {
    WrittenAt(crc, pre, e, post);
    DecodesWritten(crc, pre + EncodeRecord(crc, e) + post, |pre|, e);
    ExtentOfEncoding(e, |pre|);
  }
}
