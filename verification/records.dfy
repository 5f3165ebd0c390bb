/** Framing of one twoskip record: tag, level, variable-width lengths, the
    forward-pointer table, two checksums and the padded key/value payload. */
module Records {
  import opened Bytes
  import opened Errors
  import Crc32

  const MAX_LEVEL: nat := 31

  /** Compact length values that announce an 8-byte extended length instead. */
  const KEY_LEN_ESCAPE: nat := 0xFFFF
  const VAL_LEN_ESCAPE: nat := 0xFFFF_FFFF

  /** The four record kinds. `Data` is an ordinary key/value record ('+'),
      `Delete` a tombstone ('-'), `Dummy` the list head ('='), `Commit` a
      transaction end ('$'). */
  datatype RecordType = Dummy | Data | Delete | Commit

  /** The tag byte a writer stores for each kind. */
  function TagOf(t: RecordType): byte {
    match t
    case Dummy => 0x3d
    case Data => 0x2b
    case Delete => 0x2d
    case Commit => 0x24
  }

  /** The kind a tag byte names; any other byte is an error value where the
      Rust reader would abort. */
  function FromTag(tag: byte): (r: Result<RecordType>)
    ensures r.Ok? ==> TagOf(r.value) == tag
    ensures r.Err? ==> r.error == UnknownRecordType(tag)
  {
    if tag == 0x3d then Ok(Dummy)
    else if tag == 0x2b then Ok(Data)
    else if tag == 0x2d then Ok(Delete)
    else if tag == 0x24 then Ok(Commit)
    else Err(UnknownRecordType(tag))
  }

  /** Every kind's tag is recognised, and as that kind. */
  lemma {:induction false} FromTagOf(t: RecordType)
    ensures FromTag(TagOf(t)) == Ok(t)
  {
  }

  /** Multiplication by a natural number is monotone. */
  lemma {:induction false} MulLe(a: nat, b: nat, c: nat)
    requires a <= b
    ensures a * c <= b * c
  {
    assert b * c == a * c + (b - a) * c;
  }

  /** Euclidean division is unique: any quotient/remainder pair is the one. */
  lemma {:induction false} DivModUnique(x: nat, to: nat, q: nat, m: nat)
    requires to > 0 && x == q * to + m && m < to
    ensures x / to == q && x % to == m
  {
    var q', m' := x / to, x % to;
    assert x == q' * to + m';
    if q' < q {
      MulLe(q' + 1, q, to);
    } else if q' > q {
      MulLe(q + 1, q', to);
    }
  }

  /** `n` rounded up to the next multiple of `to`: unchanged when the
      remainder is zero, otherwise moved past it. */
  function RoundUp(n: nat, to: nat): (r: nat)
    requires to > 0
    ensures n <= r < n + to
  {
    var rem := n % to;
    if rem == 0 then n else n + to - rem
  }

  /** The rounded value is a multiple of `to`, and equals `n` exactly when
      `n` already is one. */
  lemma {:induction false} RoundUpMultiple(n: nat, to: nat)
    requires to > 0
    ensures RoundUp(n, to) % to == 0
    ensures RoundUp(n, to) == n <==> n % to == 0
  {
    var rem := n % to;
    if rem != 0 {
      assert n == (n / to) * to + rem;
      assert n + to - rem == (n / to + 1) * to + 0;
      DivModUnique(n + to - rem, to, n / to + 1, 0);
    }
  }

  /** No multiple of `to` lies between `n` and its rounded-up value. */
  lemma {:induction false} RoundUpIsLeast(n: nat, to: nat, m: nat)
    requires to > 0 && m % to == 0 && m >= n
    ensures RoundUp(n, to) <= m
  {
    var q := n / to;
    var k := m / to;
    assert m == k * to;
    assert n == q * to + n % to;
    if n % to != 0 {
      if k <= q {
        MulLe(k, q, to);
      } else {
        MulLe(q + 1, k, to);
        assert (q + 1) * to == q * to + to;
      }
    }
  }

  /** The length fields at the start of a record. */
  datatype Lengths = Lengths(tag: byte, level: nat, keyLen: nat, valLen: nat, headerLen: nat) {

    /** Where the forward-pointer table of a record at `offset` starts. */
    function PointersAt(offset: nat): nat {
      offset + headerLen
    }

    /** Where the head checksum of a record at `offset` is stored. */
    function HeadCrcAt(offset: nat): nat {
      offset + headerLen + 8 * (level + 1)
    }

    /** The whole record's length: fields, pointers, both checksums, padded payload. */
    function Len(): (n: nat)
      ensures n >= headerLen + 8 * (level + 1) + 8 + keyLen + valLen
    {
      headerLen + 8 * (level + 1) + 8 + RoundUp(keyLen + valLen, 8)
    }
  }

  /** The record length is a multiple of 8 whenever the length fields take
      one of the three sizes the format allows. */
  lemma {:induction false} LenIsMultiple(l: Lengths)
    requires l.headerLen in {8, 16, 24}
    ensures l.Len() % 8 == 0
  {
    var padded := RoundUp(l.keyLen + l.valLen, 8);
    RoundUpMultiple(l.keyLen + l.valLen, 8);
    assert padded == 8 * (padded / 8);
    DivModUnique(l.Len(), 8, l.headerLen / 8 + l.level + 2 + padded / 8, 0);
  }

  /** The byte at `at`, or `InvalidFileSize` past the end of the buffer. */
  function ByteAt(buf: seq<byte>, at: nat): (r: Result<byte>)
    ensures r.Ok? <==> at < |buf|
    ensures r.Ok? ==> r.value == buf[at]
    ensures r.Err? ==> r.error == InvalidFileSize
  {
    if at < |buf| then Ok(buf[at]) else Err(InvalidFileSize)
  }

  /** The big-endian field of `width` bytes at `at`, or `InvalidFileSize`
      when it runs past the end of the buffer. */
  function ReadBe(buf: seq<byte>, at: nat, width: nat): (r: Result<nat>)
    ensures r.Ok? <==> at + width <= |buf|
    ensures r.Ok? ==> r.value == FieldAt(buf, at, width)
    ensures r.Err? ==> r.error == InvalidFileSize
  {
    if at + width <= |buf| then Ok(FieldAt(buf, at, width)) else Err(InvalidFileSize)
  }

  /** `l` holds what the length fields at `offset` say: `headerLen` covers the
      two compact fields and each 8-byte extension they announce, key's first. */
  predicate LengthsAt(buf: seq<byte>, offset: nat, l: Lengths) {
    && 8 <= l.headerLen
    && offset + l.headerLen <= |buf|
    && var keyCompact := FieldAt(buf, offset + 2, 2);
       var valCompact := FieldAt(buf, offset + 4, 4);
       var keyExt := keyCompact == KEY_LEN_ESCAPE;
       var valExt := valCompact == VAL_LEN_ESCAPE;
       && l.tag == buf[offset]
       && l.level == buf[offset + 1] as nat
       && l.headerLen == 8 + (if keyExt then 8 else 0) + (if valExt then 8 else 0)
       && l.keyLen == (if keyExt then FieldAt(buf, offset + 8, 8) else keyCompact)
       && l.valLen == (if valExt then FieldAt(buf, offset + l.headerLen - 8, 8) else valCompact)
  }

  /** Reads tag, level and the two lengths of the record at `offset`. Every
      read is checked against the buffer's end. */
  function ReadLengths(buf: seq<byte>, offset: nat): (r: Result<Lengths>)
    ensures r.Err? ==> r.error in {InvalidFileSize, InvalidLevel}
    ensures r.Ok? ==>
      && r.value.headerLen in {8, 16, 24}
      && offset + r.value.headerLen <= |buf|
      && r.value.level <= MAX_LEVEL
      && r.value.tag == buf[offset]
  {
    var tag :- ByteAt(buf, offset);
    var level :- ByteAt(buf, offset + 1);
    if level as nat > MAX_LEVEL then Err(InvalidLevel)
    else
      var keyCompact :- ReadBe(buf, offset + 2, 2);
      var valCompact :- ReadBe(buf, offset + 4, 4);
      var next := offset + 8;
      var keyLen :- if keyCompact == KEY_LEN_ESCAPE then ReadBe(buf, next, 8) else Ok(keyCompact);
      var next := if keyCompact == KEY_LEN_ESCAPE then next + 8 else next;
      var valLen :- if valCompact == VAL_LEN_ESCAPE then ReadBe(buf, next, 8) else Ok(valCompact);
      var next := if valCompact == VAL_LEN_ESCAPE then next + 8 else next;
      Ok(Lengths(tag, level as nat, keyLen, valLen, next - offset))
  }

  /** What `ReadLengths` reports: the level is checked before any length
      field is read, and a successful read is exactly what the fields say. */
  lemma {:induction false} ReadLengthsMeaning(buf: seq<byte>, offset: nat)
    ensures ReadLengths(buf, offset) == Err(InvalidLevel) <==>
      offset + 2 <= |buf| && buf[offset + 1] as nat > MAX_LEVEL
    ensures ReadLengths(buf, offset).Ok? ==> LengthsAt(buf, offset, ReadLengths(buf, offset).value)
  {
  }

  /** Conversely, whenever the fields at `offset` describe `l` within the
      buffer and the level is allowed, `ReadLengths` finds exactly `l`. */
  lemma {:induction false} ReadLengthsComplete(buf: seq<byte>, offset: nat, l: Lengths)
    requires LengthsAt(buf, offset, l) && l.level <= MAX_LEVEL
    ensures ReadLengths(buf, offset) == Ok(l)
  {
  }

  /** The `n` big-endian 8-byte forward pointers stored from `at` on. */
  function ReadPointers(buf: seq<byte>, at: nat, n: nat): (ptrs: seq<nat>)
    requires at + 8 * n <= |buf|
    ensures |ptrs| == n
    ensures forall i :: 0 <= i < n ==> ptrs[i] == FieldAt(buf, at + 8 * i, 8)
    decreases n
  {
    if n == 0 then []
    else [FieldAt(buf, at, 8)] + ReadPointers(buf, at + 8, n - 1)
  }

  /** A decoded record. It holds offsets into the buffer, not copies of the
      key and value. */
  datatype Record = Record(
    offset: nat,
    len: nat,
    typ: RecordType,
    level: nat,
    keyLen: nat,
    valLen: nat,
    nextLoc: seq<nat>,
    crcHead: nat,
    crcTail: nat,
    keyOffset: nat,
    valOffset: nat)

  /** The framing facts every decoded record satisfies in a buffer of `size` bytes. */
  predicate Framed(r: Record, size: nat) {
    && r.level <= MAX_LEVEL
    && |r.nextLoc| == r.level + 1
    && r.len % 8 == 0
    && r.len >= 24
    && r.offset + r.len <= size
    && r.offset < r.keyOffset
    && r.valOffset == r.keyOffset + r.keyLen
    && r.valOffset + r.valLen <= r.offset + r.len
  }

  /** The head checksum stored for a record with length fields `l` at `offset`
      equals the CRC of everything before it: tag, level, lengths, pointers. */
  predicate HeadCrcMatches(crc: Crc32.Sum, buf: seq<byte>, offset: nat, l: Lengths)
    requires l.HeadCrcAt(offset) + 4 <= |buf|
  {
    FieldAt(buf, l.HeadCrcAt(offset), 4) == crc(buf[offset..l.HeadCrcAt(offset)])
  }

  /** `r` carries the fields read for length fields `l` at `offset`: the kind
      its tag names, the pointer table, both stored checksums, and the key
      right after them. */
  predicate DecodedFrom(crc: Crc32.Sum, buf: seq<byte>, offset: nat, l: Lengths, r: Record)
    requires offset + l.Len() <= |buf|
  {
    var crcAt := l.HeadCrcAt(offset);
    && FromTag(buf[offset]).Ok?
    && r.typ == FromTag(buf[offset]).value
    && r.level == l.level
    && r.keyLen == l.keyLen
    && r.valLen == l.valLen
    && r.len == l.Len()
    && r.nextLoc == ReadPointers(buf, l.PointersAt(offset), l.level + 1)
    && r.crcHead == FieldAt(buf, crcAt, 4)
    && HeadCrcMatches(crc, buf, offset, l)
    && r.crcTail == FieldAt(buf, crcAt + 4, 4)
    && r.keyOffset == crcAt + 8
  }

  /** Decodes the record at `offset`. The checks come in the Rust reader's order
      (see `RecordAtChecks`). The tail checksum is stored and never compared. */
  function RecordAt(crc: Crc32.Sum, buf: seq<byte>, offset: nat): (r: Result<Record>)
    ensures r.Ok? ==> r.value.offset == offset && Framed(r.value, |buf|)
  {
    match ReadLengths(buf, offset)
    case Err(e) => Err(e)
    case Ok(l) =>
      if offset + l.Len() > |buf| then Err(InvalidFileSize)
      else ReadBody(crc, buf, offset, l)
  }

  /** The steps after the extent check: pointers, head checksum, tail
      checksum, key and value offsets, and the tag conversion last. */
  function ReadBody(crc: Crc32.Sum, buf: seq<byte>, offset: nat, l: Lengths): (r: Result<Record>)
    requires l.headerLen in {8, 16, 24} && l.level <= MAX_LEVEL
    requires offset < |buf| && l.tag == buf[offset]
    requires offset + l.Len() <= |buf|
    ensures r.Ok? ==> r.value.offset == offset && Framed(r.value, |buf|)
  {
    LenIsMultiple(l);
    var nextLoc := ReadPointers(buf, l.PointersAt(offset), l.level + 1);
    var crcAt := l.HeadCrcAt(offset);
    var crcHead := FieldAt(buf, crcAt, 4);
    if !HeadCrcMatches(crc, buf, offset, l) then Err(ChecksumMismatch)
    else
      var crcTail := FieldAt(buf, crcAt + 4, 4);
      var keyOffset := crcAt + 8;
      var valOffset := keyOffset + l.keyLen;
      match FromTag(l.tag)
      case Err(e) => Err(e)
      case Ok(typ) =>
        Ok(Record(offset, l.Len(), typ, l.level, l.keyLen, l.valLen, nextLoc, crcHead, crcTail, keyOffset, valOffset))
  }

  /** The order of `RecordAt`'s checks: the length fields' errors first, then
      the record's extent, then the head checksum, and the unknown tag last;
      when every check passes the record is decoded. */
  lemma {:induction false} RecordAtChecks(crc: Crc32.Sum, buf: seq<byte>, offset: nat)
    ensures ReadLengths(buf, offset).Err? ==> RecordAt(crc, buf, offset) == Err(ReadLengths(buf, offset).error)
    ensures ReadLengths(buf, offset).Ok? && offset + ReadLengths(buf, offset).value.Len() > |buf|
      ==> RecordAt(crc, buf, offset) == Err(InvalidFileSize)
    ensures ReadLengths(buf, offset).Ok? && offset + ReadLengths(buf, offset).value.Len() <= |buf|
      && !HeadCrcMatches(crc, buf, offset, ReadLengths(buf, offset).value)
      ==> RecordAt(crc, buf, offset) == Err(ChecksumMismatch)
    ensures ReadLengths(buf, offset).Ok? && offset + ReadLengths(buf, offset).value.Len() <= |buf|
      && HeadCrcMatches(crc, buf, offset, ReadLengths(buf, offset).value)
      && FromTag(buf[offset]).Err?
      ==> RecordAt(crc, buf, offset) == Err(UnknownRecordType(buf[offset]))
    ensures ReadLengths(buf, offset).Ok? && offset + ReadLengths(buf, offset).value.Len() <= |buf|
      && HeadCrcMatches(crc, buf, offset, ReadLengths(buf, offset).value)
      && FromTag(buf[offset]).Ok?
      ==> RecordAt(crc, buf, offset).Ok?
  {
  }

  /** A decoded record carries what its bytes say: the fields `ReadLengths`
      found, the pointers and both checksums stored after them, with a head
      checksum that matches. */
  lemma {:induction false} RecordAtDecodes(crc: Crc32.Sum, buf: seq<byte>, offset: nat)
    requires RecordAt(crc, buf, offset).Ok?
    ensures ReadLengths(buf, offset).Ok?
    ensures DecodedFrom(crc, buf, offset, ReadLengths(buf, offset).value, RecordAt(crc, buf, offset).value)
  {
  }

  /** When the head checksum matches and the tag is known, the body read
      after the extent check is exactly the record the fields describe. */
  lemma {:induction false} ReadBodyPasses(crc: Crc32.Sum, buf: seq<byte>, offset: nat, l: Lengths, typ: RecordType, nextLoc: seq<nat>, crcHead: nat, crcTail: nat)
    requires l.headerLen in {8, 16, 24} && l.level <= MAX_LEVEL
    requires offset < |buf| && l.tag == buf[offset]
    requires offset + l.Len() <= |buf|
    requires HeadCrcMatches(crc, buf, offset, l)
    requires FromTag(l.tag) == Ok(typ)
    requires ReadPointers(buf, l.PointersAt(offset), l.level + 1) == nextLoc
    requires FieldAt(buf, l.HeadCrcAt(offset), 4) == crcHead
    requires FieldAt(buf, l.HeadCrcAt(offset) + 4, 4) == crcTail
    ensures ReadBody(crc, buf, offset, l) == Ok(Record(offset, l.Len(), typ, l.level, l.keyLen, l.valLen,
      nextLoc, crcHead, crcTail, l.HeadCrcAt(offset) + 8, l.HeadCrcAt(offset) + 8 + l.keyLen))
  {
    var crcAt := l.HeadCrcAt(offset);
    var r := Record(offset, l.Len(), typ, l.level, l.keyLen, l.valLen, nextLoc, crcHead, crcTail, crcAt + 8, crcAt + 8 + l.keyLen);
    assert ReadBody(crc, buf, offset, l) == Ok(r);
  }

  /** When every check passes, the record decoded at `offset` is exactly the
      one its length fields, kind, pointer table and checksum fields describe. */
  lemma {:induction false} RecordAtPasses(crc: Crc32.Sum, buf: seq<byte>, offset: nat, l: Lengths, typ: RecordType, nextLoc: seq<nat>, crcHead: nat, crcTail: nat)
    requires ReadLengths(buf, offset) == Ok(l)
    requires offset + l.Len() <= |buf|
    requires HeadCrcMatches(crc, buf, offset, l)
    requires FromTag(buf[offset]) == Ok(typ)
    requires ReadPointers(buf, l.PointersAt(offset), l.level + 1) == nextLoc
    requires FieldAt(buf, l.HeadCrcAt(offset), 4) == crcHead
    requires FieldAt(buf, l.HeadCrcAt(offset) + 4, 4) == crcTail
    ensures RecordAt(crc, buf, offset) == Ok(Record(offset, l.Len(), typ, l.level, l.keyLen, l.valLen,
      nextLoc, crcHead, crcTail, l.HeadCrcAt(offset) + 8, l.HeadCrcAt(offset) + 8 + l.keyLen))
  {
    ReadBodyPasses(crc, buf, offset, l, typ, nextLoc, crcHead, crcTail);
  }

  /** The same, with the head checksum located by the framing `f` it covers:
      a record whose framing bytes are `f`, followed by `f`'s checksum, decodes
      with that checksum and with its key right after the two checksums. */
  lemma {:induction false} RecordAtFramed(crc: Crc32.Sum, buf: seq<byte>, offset: nat, l: Lengths, f: seq<byte>, typ: RecordType, nextLoc: seq<nat>, crcTail: nat)
    requires ReadLengths(buf, offset) == Ok(l)
    requires l.headerLen + 8 * (l.level + 1) == |f|
    requires offset + l.Len() <= |buf|
    requires buf[offset..offset + |f|] == f
    requires FromTag(buf[offset]) == Ok(typ)
    requires ReadPointers(buf, l.PointersAt(offset), l.level + 1) == nextLoc
    requires FieldAt(buf, offset + |f|, 4) == crc(f)
    requires FieldAt(buf, offset + |f| + 4, 4) == crcTail
    ensures RecordAt(crc, buf, offset) == Ok(Record(offset, l.Len(), typ, l.level, l.keyLen, l.valLen,
      nextLoc, crc(f), crcTail, offset + |f| + 8, offset + |f| + 8 + l.keyLen))
  {
    assert l.HeadCrcAt(offset) == offset + |f|;
    RecordAtPasses(crc, buf, offset, l, typ, nextLoc, crc(f), crcTail);
  }

  /** The record's key, a view into the buffer. */
  function Key(buf: seq<byte>, r: Record): (k: seq<byte>)
    requires Framed(r, |buf|)
    ensures |k| == r.keyLen
  {
    buf[r.keyOffset..r.keyOffset + r.keyLen]
  }

  /** The record's value, a view into the buffer right after the key. */
  function Value(buf: seq<byte>, r: Record): (v: seq<byte>)
    requires Framed(r, |buf|)
    ensures |v| == r.valLen
  {
    buf[r.valOffset..r.valOffset + r.valLen]
  }
}
