/** The fixed 64-byte header at the start of every twoskip file. */
module Header {
  import opened Bytes
  import opened Errors
  import Crc32

  /** The 20-byte signature: 0xA1 0x02 0x8B 0x0D, "twoskip file", four zero bytes. */
  const HEADER_MAGIC: seq<byte> :=
    [0xa1, 0x02, 0x8b, 0x0d,
     0x74, 0x77, 0x6f, 0x73, 0x6b, 0x69, 0x70, 0x20, 0x66, 0x69, 0x6c, 0x65,
     0x00, 0x00, 0x00, 0x00]
  const HEADER_SIZE: nat := 64
  const HEADER_VERSION: nat := 1

  const OFFSET_HEADER: nat := 0
  const OFFSET_VERSION: nat := 20
  const OFFSET_GENERATION: nat := 24
  const OFFSET_NUM_RECORDS: nat := 32
  const OFFSET_REPACK_SIZE: nat := 40
  const OFFSET_CURRENT_SIZE: nat := 48
  const OFFSET_FLAGS: nat := 56
  const OFFSET_CRC32: nat := 60

  /** The decoded header. `currentSize` is the logical end of the data. */
  datatype Header = Header(
    version: nat,
    flags: nat,
    generation: nat,
    numRecords: nat,
    repackSize: nat,
    currentSize: nat)

  /** The header's own checksum: the CRC of everything before the field that stores it. */
  function ExpectedCrc(crc: Crc32.Sum, buf: seq<byte>): nat
    requires |buf| >= OFFSET_CRC32
  {
    crc(buf[..OFFSET_CRC32])
  }

  /** Decodes the header: size, then magic, then version, then checksum. */
  function ReadHeader(crc: Crc32.Sum, buf: seq<byte>): (r: Result<Header>)
    ensures r == Err(InvalidFileSize) <==> |buf| < HEADER_SIZE
    ensures r == Err(InvalidHeaderMagic) <==>
      |buf| >= HEADER_SIZE && buf[..20] != HEADER_MAGIC
    ensures r == Err(VersionMismatch) <==>
      |buf| >= HEADER_SIZE && buf[..20] == HEADER_MAGIC
      && FieldAt(buf, OFFSET_VERSION, 4) != HEADER_VERSION
    ensures r == Err(ChecksumMismatch) <==>
      |buf| >= HEADER_SIZE && buf[..20] == HEADER_MAGIC
      && FieldAt(buf, OFFSET_VERSION, 4) == HEADER_VERSION
      && FieldAt(buf, OFFSET_CRC32, 4) != ExpectedCrc(crc, buf)
    ensures r.Ok? || r.error in {InvalidFileSize, InvalidHeaderMagic, VersionMismatch, ChecksumMismatch}
    ensures r.Ok? ==>
      && r.value.version == HEADER_VERSION
      && r.value.flags == 0
      && r.value.generation == FieldAt(buf, OFFSET_GENERATION, 8)
      && r.value.numRecords == FieldAt(buf, OFFSET_NUM_RECORDS, 8)
      && r.value.repackSize == FieldAt(buf, OFFSET_REPACK_SIZE, 8)
      && r.value.currentSize == FieldAt(buf, OFFSET_CURRENT_SIZE, 8)
  {
    if |buf| < HEADER_SIZE then Err(InvalidFileSize)
    else if buf[OFFSET_HEADER..OFFSET_HEADER + |HEADER_MAGIC|] != HEADER_MAGIC then Err(InvalidHeaderMagic)
    else
      var version := FieldAt(buf, OFFSET_VERSION, 4);
      if version != HEADER_VERSION then Err(VersionMismatch)
      else
        var generation := FieldAt(buf, OFFSET_GENERATION, 8);
        var numRecords := FieldAt(buf, OFFSET_NUM_RECORDS, 8);
        var repackSize := FieldAt(buf, OFFSET_REPACK_SIZE, 8);
        var currentSize := FieldAt(buf, OFFSET_CURRENT_SIZE, 8);
        var stored := FieldAt(buf, OFFSET_CRC32, 4);
        if stored != ExpectedCrc(crc, buf) then Err(ChecksumMismatch)
        else Ok(Header(version, 0, generation, numRecords, repackSize, currentSize))
  }

  /** A header whose fields fit their on-disk widths. */
  predicate Encodable(h: Header) {
    && h.version < Pow256(4)
    && h.flags < Pow256(4)
    && h.generation < Pow256(8)
    && h.numRecords < Pow256(8)
    && h.repackSize < Pow256(8)
    && h.currentSize < Pow256(8)
  }

  /** The 60 bytes a writer puts before the header checksum. */
  function HeaderBody(h: Header): (s: seq<byte>)
    requires Encodable(h)
    ensures |s| == OFFSET_CRC32
  {
    HEADER_MAGIC
      + BeEncode(h.version, 4)
      + BeEncode(h.generation, 8)
      + BeEncode(h.numRecords, 8)
      + BeEncode(h.repackSize, 8)
      + BeEncode(h.currentSize, 8)
      + BeEncode(h.flags, 4)
  }

  /** The 64 header bytes a writer produces for `h`. */
  function EncodeHeader(crc: Crc32.Sum, h: Header): (s: seq<byte>)
    requires Crc32.Fits(crc) && Encodable(h)
    ensures |s| == HEADER_SIZE
  {
    var body := HeaderBody(h);
    body + BeEncode(crc(body), 4)
  }

  /** Decoding what a writer wrote gives the header back, whatever follows it
      in the file, as long as it is version 1 with no flags set (the decoder
      always reports flags as 0). */
  lemma {:induction false} EncodeThenRead(crc: Crc32.Sum, h: Header, rest: seq<byte>)
    requires Crc32.Fits(crc) && Encodable(h) && h.version == HEADER_VERSION && h.flags == 0
    ensures ReadHeader(crc, EncodeHeader(crc, h) + rest) == Ok(h)
  {
    var body := HeaderBody(h);
    var sum := crc(body);
    var p1 := HEADER_MAGIC + BeEncode(h.version, 4);
    var p2 := p1 + BeEncode(h.generation, 8);
    var p3 := p2 + BeEncode(h.numRecords, 8);
    var p4 := p3 + BeEncode(h.repackSize, 8);
    var p5 := p4 + BeEncode(h.currentSize, 8);
    assert body == p5 + BeEncode(h.flags, 4);
    var enc := body + BeEncode(sum, 4);
    var buf := enc + rest;
    FieldOfEncoding(HEADER_MAGIC, h.version, 4, []);
    assert HEADER_MAGIC + BeEncode(h.version, 4) + [] == p1;
    FieldOfEncoding(p1, h.generation, 8, []);
    assert p1 + BeEncode(h.generation, 8) + [] == p2;
    FieldOfEncoding(p2, h.numRecords, 8, []);
    assert p2 + BeEncode(h.numRecords, 8) + [] == p3;
    FieldOfEncoding(p3, h.repackSize, 8, []);
    assert p3 + BeEncode(h.repackSize, 8) + [] == p4;
    FieldOfEncoding(p4, h.currentSize, 8, []);
    assert p4 + BeEncode(h.currentSize, 8) + [] == p5;
    FieldOfEncoding(body, sum, 4, rest);
    assert body + BeEncode(sum, 4) + rest == buf;
    // Each field survives the appends that follow it.
    FieldThroughAppend(p1, BeEncode(h.generation, 8), 20, 4);
    FieldThroughAppend(p2, BeEncode(h.numRecords, 8), 20, 4);
    FieldThroughAppend(p2, BeEncode(h.numRecords, 8), 24, 8);
    FieldThroughAppend(p3, BeEncode(h.repackSize, 8), 20, 4);
    FieldThroughAppend(p3, BeEncode(h.repackSize, 8), 24, 8);
    FieldThroughAppend(p3, BeEncode(h.repackSize, 8), 32, 8);
    FieldThroughAppend(p4, BeEncode(h.currentSize, 8), 20, 4);
    FieldThroughAppend(p4, BeEncode(h.currentSize, 8), 24, 8);
    FieldThroughAppend(p4, BeEncode(h.currentSize, 8), 32, 8);
    FieldThroughAppend(p4, BeEncode(h.currentSize, 8), 40, 8);
    FieldsThroughTail(p5, BeEncode(h.flags, 4), BeEncode(sum, 4), rest);
    assert buf[..OFFSET_CRC32] == body;
    assert buf[..20] == HEADER_MAGIC;
  }

  /** The fields a header body holds before its flags read the same from
      the whole file. */
  lemma {:induction false} FieldsThroughTail(p5: seq<byte>, f: seq<byte>, c: seq<byte>, rest: seq<byte>)
    requires |p5| == OFFSET_FLAGS
    ensures FieldAt(p5 + f + c + rest, 20, 4) == FieldAt(p5, 20, 4)
    ensures FieldAt(p5 + f + c + rest, 24, 8) == FieldAt(p5, 24, 8)
    ensures FieldAt(p5 + f + c + rest, 32, 8) == FieldAt(p5, 32, 8)
    ensures FieldAt(p5 + f + c + rest, 40, 8) == FieldAt(p5, 40, 8)
    ensures FieldAt(p5 + f + c + rest, 48, 8) == FieldAt(p5, 48, 8)
  {
    var buf := p5 + f + c + rest;
    assert buf[..OFFSET_FLAGS] == p5;
    assert buf[20..24] == p5[20..24];
    assert buf[24..32] == p5[24..32];
    assert buf[32..40] == p5[32..40];
    assert buf[40..48] == p5[40..48];
    assert buf[48..56] == p5[48..56];
  }

  /** Only the first 64 bytes decide the header. */
  lemma {:induction false} ReadsOnlyHeaderBytes(crc: Crc32.Sum, buf: seq<byte>, rest: seq<byte>)
    requires |buf| >= HEADER_SIZE
    ensures ReadHeader(crc, buf + rest) == ReadHeader(crc, buf)
  {
    var b2 := buf + rest;
    assert b2[..20] == buf[..20];
    assert b2[..OFFSET_CRC32] == buf[..OFFSET_CRC32];
    assert b2[20..24] == buf[20..24];
    assert b2[24..32] == buf[24..32];
    assert b2[32..40] == buf[32..40];
    assert b2[40..48] == buf[40..48];
    assert b2[48..56] == buf[48..56];
    assert b2[60..64] == buf[60..64];
  }

  /** Changing any byte of the magic in a valid header is reported as a bad magic. */
  lemma {:induction false} MagicCorruptionDetected(crc: Crc32.Sum, buf: seq<byte>, i: nat, b: byte)
    requires ReadHeader(crc, buf).Ok?
    requires i < |HEADER_MAGIC| && b != buf[i]
    ensures ReadHeader(crc, buf[i := b]) == Err(InvalidHeaderMagic)
  {
    assert buf[i := b][..20][i] != HEADER_MAGIC[i];
  }

  /** Writing any other version into a valid header is reported as a version mismatch. */
  lemma {:induction false} VersionCorruptionDetected(crc: Crc32.Sum, buf: seq<byte>, v: nat)
    requires ReadHeader(crc, buf).Ok?
    requires v < Pow256(4) && v != HEADER_VERSION
    ensures ReadHeader(crc, buf[..OFFSET_VERSION] + BeEncode(v, 4) + buf[OFFSET_GENERATION..]) == Err(VersionMismatch)
  {
    var b2 := buf[..OFFSET_VERSION] + BeEncode(v, 4) + buf[OFFSET_GENERATION..];
    assert b2[..20] == buf[..20];
    assert b2[20..24] == BeEncode(v, 4);
    DecodeEncode(v, 4);
  }

  /** Storing any other checksum in a valid header is reported as a checksum mismatch. */
  lemma {:induction false} ChecksumCorruptionDetected(crc: Crc32.Sum, buf: seq<byte>, c: nat)
    requires ReadHeader(crc, buf).Ok?
    requires c < Pow256(4) && c != FieldAt(buf, OFFSET_CRC32, 4)
    ensures ReadHeader(crc, buf[..OFFSET_CRC32] + BeEncode(c, 4) + buf[HEADER_SIZE..]) == Err(ChecksumMismatch)
  {
    var b2 := buf[..OFFSET_CRC32] + BeEncode(c, 4) + buf[HEADER_SIZE..];
    assert b2[..20] == buf[..20];
    assert b2[20..24] == buf[20..24];
    assert b2[..OFFSET_CRC32] == buf[..OFFSET_CRC32];
    assert b2[60..64] == BeEncode(c, 4);
    DecodeEncode(c, 4);
  }
}
