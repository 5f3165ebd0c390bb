# twoskip reader, modelled in Dafny

A twoskip database is one memory-mapped file.
- **Header.** The first 64 bytes are a header: a 20-byte magic, a format version, a generation, a record count, the repack size, the current size and flags, all big-endian, followed by a CRC-32 of the bytes before it.
- **Records.** From offset 64 up to the current size, the file holds records back to back. 8-byte BLANK markers may sit between them.
- **Record layout.** A record has:
  - a tag byte naming its kind;
  - a level byte;
  - a 2-byte key length and a 4-byte value length, each of which can escape to an 8-byte extended length;
  - `level + 1` forward pointers of 8 bytes;
  - a head CRC over everything before it, then a tail CRC;
  - the key and value, padded to a multiple of 8.
- **Skip list.** The first record is the head of a skip list ordered by key.

The model covers the read-only core of the reader:
- decoding the header;
- rounding up to a multiple of 8;
- decoding one record at an offset, and the key and value views of a decoded record;
- point lookup by walking the skip list;
- the sequential scan behind `dump`;
- the database iterator.

The files:

- `bytes.dfy` (`Bytes`): the byte type, big-endian decode and encode, and their round-trip lemmas.
- `errors.dfy` (`Errors`): the error variants and the `Result` type.
- `crc32.dfy` (`Crc32`): the checksum as a parameter, and CRC-32/ISO-HDLC as the instance the format names.
- `header.dfy` (`Header`): `read_header`, a header writer, and the round trip between them.
- `records.dfy` (`Records`): record kinds, `round_up`, `record_at`, and `key`/`value`.
- `record_codec.dfy` (`RecordCodec`): a record writer, and the proof that `record_at` decodes what it writes.
- `compare.dfy` (`KeyOrder`): the byte-string comparison that `get` uses, proved to be the lexicographic order.
- `lookup.dfy` (`Lookup`): `open` over the mapped bytes; `get` as a function with a fuel bound, and the Rust reader's loops as methods proved equal to it; the skip-list shape `get` relies on, and its completeness on that shape.
- `scan.dfy` (`Scan`): the `dump` loop, the scan it performs, its characterisation as a tiling of the data area, and the iterator's `next`.

Record decoding is passed to the lookup and the scan as a `Decoder`, a function from offsets to decoded records. `Lookup.DecoderOf` supplies `record_at` over the mapped bytes. The walk relies only on what `Lookup.Decodes` states about a decoder: a decoded record starts at the offset asked for and is framed inside the buffer. The scan relies only on the weaker `Scan.Advances`: a decoded record starts at the offset asked for and covers at least 8 bytes.

## Model

| member | source | states |
|---|---|---|
| Records.FromTag | src/twoskip.rs:28-38 | `'='`, `'+'`, `'-'`, `'$'` name the four kinds, and a recognised kind's tag is the byte given. Any other byte is the error `UnknownRecordType(tag)`, where the Rust reader aborts. |
| Records.FromTagOf | src/twoskip.rs:28-38 | Every kind's tag is recognised as that kind. |
| Records.RoundUp | src/twoskip.rs:223-232 | The rounded value is at least `n` and less than `n + to`. |
| Records.RoundUpMultiple | src/twoskip.rs:223-232 | The rounded value is a multiple of `to`, and equals `n` exactly when `n` already is one. |
| Records.RoundUpIsLeast | src/twoskip.rs:223-232 | The rounded value is the least multiple of `to` that is at least `n`. |
| Header.ReadHeader | src/twoskip.rs:158-209 | Each of the four errors occurs exactly under its own condition, checked in the Rust reader's order: short file, bad magic, wrong version, checksum mismatch. On success the fields are the big-endian values at their offsets, and flags are 0. |
| Header.EncodeThenRead | src/twoskip.rs:158-209 | Reading a header that a writer produced gives the header back, whatever bytes follow it. |
| Header.ReadsOnlyHeaderBytes | src/twoskip.rs:158-209 | Bytes after the first 64 never change the result. |
| Header.MagicCorruptionDetected | src/twoskip.rs:165-168 | Changing any magic byte of a valid header yields `InvalidHeaderMagic`. |
| Header.VersionCorruptionDetected | src/twoskip.rs:170-175 | Writing any other version into a valid header yields `VersionMismatch`. |
| Header.ChecksumCorruptionDetected | src/twoskip.rs:192-197 | Storing any other checksum in a valid header yields `ChecksumMismatch`. |
| Records.ReadLengths | src/twoskip.rs:306-335 | Only `InvalidFileSize` or `InvalidLevel` can fail. On success the header length is 8, 16 or 24, fits in the buffer, the level is at most 31, and the tag is the first byte. |
| Records.ReadLengthsMeaning | src/twoskip.rs:306-335 | `InvalidLevel` occurs exactly when the level byte is in range and above 31. A successful read is what the compact and extended length fields say. |
| Records.ReadLengthsComplete | src/twoskip.rs:306-335 | Whenever the fields describe a lengths value inside the buffer with an allowed level, the read finds exactly it. |
| Records.LenIsMultiple | src/twoskip.rs:337-340 | For every allowed header length, the record length (fields, pointers, checksums, padded payload) is a multiple of 8. |
| Records.ReadPointers | src/twoskip.rs:346-352 | There are exactly `n` pointers, and pointer `i` is the big-endian 8-byte field at `at + 8*i`. |
| Records.RecordAt | src/twoskip.rs:299-388 | A decoded record starts at the requested offset and is framed inside the buffer: level at most 31, `level + 1` pointers, length a multiple of 8 that fits, key and value inside the record. |
| Records.RecordAtChecks | src/twoskip.rs:299-388 | The outcome follows the Rust reader's order of checks: length-field errors, then the extent (`InvalidFileSize`), then the head checksum, then the tag conversion last. When every check passes the record decodes. |
| Records.RecordAtDecodes | src/twoskip.rs:346-385 | A decoded record carries the lengths read, the stored pointers and both stored checksums, with a head checksum that matches the CRC of the framing bytes. |
| Records.RecordAtPasses | src/twoskip.rs:346-388 | When all checks pass, the decoded record is exactly the one its fields describe. |
| Records.Key | src/twoskip.rs:399-402 | The key view has `key_len` bytes. |
| Records.Value | src/twoskip.rs:404-407 | The value view has `val_len` bytes. |
| RecordCodec.EncodeThenDecode | src/twoskip.rs:299-407 | A record written at any offset of any buffer decodes to its kind, level, pointers, lengths and checksums. It spans exactly the written bytes, and its key and value views return the written key and value. |
| RecordCodec.DecodesWritten | src/twoskip.rs:299-407 | The same, for any buffer holding the written framing, checksum, key and value at an offset, with room for the padding. |
| KeyOrder.CompareIsLexicographic | src/twoskip.rs:257 | `Compare` is `Equal` exactly for equal strings. It is `Less` exactly when the first string sorts first lexicographically, a proper prefix first, and `Greater` exactly in the reverse case. |
| KeyOrder.CompareFlips | src/twoskip.rs:257 | Swapping the arguments swaps `Less` and `Greater` and keeps `Equal`. |
| Lookup.Descend | src/twoskip.rs:242-248 | The pointer scan stops at or below the starting level. It returns either a non-zero pointer at a level above 0, or level 0 with no pointer. Every level it skipped holds a zero pointer. |
| Lookup.DescendIgnoresBottom | src/twoskip.rs:242-248 | The scan never depends on the level-0 pointer. |
| Lookup.Open | src/twoskip.rs:211-221 | A database opens exactly when the mapped bytes hold a full header with the magic, version 1 and a matching checksum. It keeps the bytes and reads its current size, where `dump` and the iterator stop, from offset 48. Any failure is one of the four header errors. |
| Lookup.OpenWritten | src/twoskip.rs:211-221 | Opening bytes that start with a written header gives a database with that header. |
| Lookup.Walk | src/twoskip.rs:239-270 | A found record decodes at its offset, is framed, and has exactly the searched key. A failure is the error of a decode at some offset. When it answers `Absent` is stated by `Lookup.WalkAbsentRounds`; completeness by `Lookup.WalkNeverMisses` and `Lookup.WalkFinds`. |
| Lookup.Lookup | src/twoskip.rs:235-271 | A found record is what `record_at` decodes at its offset, and its key is the searched key. A failure is a `record_at` error at some offset. A head that fails to decode fails the lookup with that error. A head of level 0 means absent. Completeness is stated by `Lookup.LookupFinds`, and the answer `Absent` exactly for a missing key by `Lookup.LookupAbsentIffMissing`. |
| Lookup.WalkMoreFuel | src/twoskip.rs:239-270 | A walk that finishes within its budget gives the same outcome with any larger budget. |
| Lookup.WalkIgnoresBottom | src/twoskip.rs:239-270 | Changing the current record's level-0 pointer never changes the outcome. |
| Lookup.ReachesSorted | src/twoskip.rs:257-268 | On a skip list well formed from its head (every record on the head's level-1 chain has each non-zero pointer leading further along that chain, and past the head each level-1 successor holds a larger key), every record after `r` on the chain decodes and holds a larger key than `r`, for any `r` at least one step past the head. |
| Lookup.ChainOrder | src/twoskip.rs:257-268 | Of two records after `r` on the chain of a list well formed from its head, equal keys mean the same record, a larger key lies further along, and a smaller key lies earlier. |
| Lookup.WalkFailsAtPointer | src/twoskip.rs:242-253 | When the pointer the scan of a round finds does not decode, the walk fails with that decoding error, never `Absent`. |
| Lookup.WalkAbsentRounds | src/twoskip.rs:242-263 | A round answers `Absent` when the pointer scan finds no pointer, and when it finds one only at level 1 whose record holds a larger key than the one searched for. |
| Lookup.ReachesJoin | src/twoskip.rs:257-268 | Steps along the level-1 chain add up: `a` steps to `x`, then `b` from `x`, are `a + b` steps. |
| Lookup.WalkRound | src/twoskip.rs:251-268 | A round in which the scan finds a pointer to a record that decodes: an equal key is found, a smaller one drops below the level the pointer was found at (when that is above 1), and a larger one moves to that record at its own top level, each further round taking one unit of fuel. |
| Lookup.WalkFoundAhead | src/twoskip.rs:251-268 | On a list well formed from its head, a record the walk from `r` finds lies further along the head's chain than `r`. |
| Lookup.ChainRemaining | src/twoskip.rs:257-268 | On a chain that ends `m` steps along, a record `a` steps along has `a <= m`, and its own chain ends `m - a` steps further. |
| Lookup.WalkEnds | src/twoskip.rs:239-270 | On a list well formed from its head, a walk from `r` at `level`, where the chain from `r` ends `m` steps along, never runs out of fuel with `32 * m + level` rounds. |
| Lookup.WalkNeverFails | src/twoskip.rs:239-270 | On a skip list well formed from its head, a walk from any record on the head's chain never fails. |
| Lookup.WalkNeverMisses | src/twoskip.rs:239-270 | On a skip list well formed from its head, when a record after `r` on the chain holds the key, the walk from `r` finds that record or runs out of fuel. It never answers `Absent` or fails. |
| Lookup.WalkFinds | src/twoskip.rs:239-270 | In the same setting, with `32 * d + level` rounds the walk finds the record `d` steps along the chain that holds the key. |
| Lookup.LookupFinds | src/twoskip.rs:235-271 | When the database's skip list is well formed from its head, `get` for a key held by a record on the head's chain finds that record given enough fuel, and never answers `Absent` or fails. Records off the chain are unconstrained. |
| Lookup.LookupAbsentMeansMissing | src/twoskip.rs:235-271 | In the same setting, an `Absent` answer means no record on the chain from the head holds the key. This is one half of `Lookup.LookupAbsentIffMissing`. |
| Lookup.LookupFoundOnChain | src/twoskip.rs:235-271 | On a well-formed database, a record `get` finds lies on the chain from the head. |
| Lookup.LookupEnds | src/twoskip.rs:235-271 | On a well-formed database whose chain from the head ends `n` steps along, `get` with `32 * n + level of the head` rounds answers with a record or `Absent`, never running out of fuel or failing. |
| Lookup.LookupAbsentIffMissing | src/twoskip.rs:235-271 | On such a database, with that budget, `get` answers `Absent` (the Rust reader's `None`, src/twoskip.rs:249-250 and 261-262) exactly when no record on the chain from the head holds the key. |
| Lookup.LookupNeverFails | src/twoskip.rs:235-271 | In the same setting, with a head that decodes, `get` never fails. |
| Lookup.DecoderOfDecodes | src/twoskip.rs:299-388 | `record_at` over the mapped bytes is a decoder of framed records at their own offsets. |
| Lookup.Get | src/twoskip.rs:235-271 | `get` as the Rust reader writes it (head decode, then the loop) computes `Lookup`. |
| Lookup.WalkLoop | src/twoskip.rs:239-270 | The Rust reader's outer loop computes `Walk`. |
| Lookup.ScanDown | src/twoskip.rs:242-248 | The Rust reader's inner `while` loop computes `Descend`. |
| Scan.ProbeBlank | src/twoskip.rs:284-286 | The probe is `Ok(true)` exactly when the 8 bytes at the offset are in the buffer and spell the BLANK marker. It fails only with `InvalidFileSize`, and only when those bytes run past the end. |
| Scan.Lines | src/twoskip.rs:282-294 | The scan fails only with `InvalidFileSize` or with an error the decoder reports at some offset. |
| Scan.LinesAreTiling | src/twoskip.rs:282-294 | The scan succeeds with `lines` exactly when `lines` tiles the data area. The first step starts at the start offset, each next step starts where the one before ends, and every step lies before the end. Each step is a BLANK marker found there, or a record found there that is not a marker. The steps reach the end. |
| Scan.ScanChains | src/twoskip.rs:282-294 | A successful scan is a chain of steps, each found where the one before ends. |
| Scan.ChainIsScan | src/twoskip.rs:282-294 | Every such chain is what the scan returns. |
| Scan.TilingAscends | src/twoskip.rs:282-294 | The steps of a tiling start at strictly increasing offsets, all in `[from, end)`. |
| Scan.Dump | src/twoskip.rs:273-297 | A successful `dump` scan tiles the data area from offset 64 up to the header's current size. |
| Scan.DumpStep | src/twoskip.rs:284-293 | One loop round moves the offset forward. It either fails with the scan's error there, or yields the scan's first step there. |
| Scan.DumpLoop | src/twoskip.rs:282-296 | The Rust reader's `while` loop computes the scan: the same steps, or the same first error. |
| Scan.IterNext | src/twoskip.rs:453-469 | A yielded record is the one decoded at an offset at or after the iterator's, before the current size, and the iterator resumes right after it, strictly further on. A fault is either a BLANK probe past the end of the buffer or a decoding error at some offset in between. |
| Scan.IterFaultIsScanError | src/twoskip.rs:453-469 | When the iterator's `next` would abort on an unwrapped error, the scan from that offset fails with that same error. |
| Scan.IterEndIsEmptyScan | src/twoskip.rs:453-469 | `next` returns `None` exactly when the scan from that offset succeeds without another record. |
| Scan.IterYieldsNextRecord | src/twoskip.rs:453-469 | A record that `next` yields is the scan's next record. The scan from where the iterator resumes holds exactly the records after it, and succeeds exactly when the scan from the old offset does. |
| Crc32.Checksum | src/twoskip.rs:16 | The CRC-32/ISO-HDLC value fits in the 4-byte fields that store it. |

## Left out

- Opening the file and memory-mapping it (src/twoskip.rs:212-215), and the I/O errors it wraps in `InternalError`. `Lookup.Open` starts from the mapped bytes. `Errors.InternalError` exists for completeness but is never produced.
- `println!` output and record formatting (`dump`'s printing, `Record::dump`, `format_data_record`, `format_next_loc`, src/twoskip.rs:240, 255, 274-280, 287, 291, 409-447), and the `Display`/`Error` impls of `Error` (src/twoskip.rs:126-156). `dump` is modelled as the scan it performs, returning the steps it would print.
- The CRC crate. Every decoding function takes the checksum as a parameter of type `Crc32.Sum`, and the round-trip lemmas assume only that its values fit 4 bytes. `Crc32.Checksum` is a bitwise definition of CRC-32/ISO-HDLC. Its agreement with the `crc` crate's table-driven implementation is not proved.
- `usize` arithmetic overflow. Offsets and lengths are unbounded naturals, so `offset + len`, the 8-byte lengths cast to `usize`, and `round_up` never wrap.
- Unchecked memory reads. The Rust reader reads the tag, level, length fields and BLANK probe through raw pointers, with no bounds check. Here every read that would pass the end of the buffer fails with `InvalidFileSize` instead.
- Aborts. The Rust reader aborts on an unknown tag byte (src/twoskip.rs:35); here that is the error `UnknownRecordType(tag)`, produced at the point of the conversion, after the checksum check. The iterator's `unwrap` (src/twoskip.rs:462) aborts on any decode error; here that is the step `Fault(err)`.
- Lookup.Lookup: bounded by `fuel` extra rounds of the outer loop, ending in `OutOfFuel` when the budget runs out, because the Rust reader's loop need not terminate: on a file whose pointers form a cycle it runs forever. `Lookup.WalkMoreFuel` shows that the budget never changes a finished outcome. On a list well formed from its head whose chain ends `n` steps along, `32 * n + level of the head` rounds are enough (`Lookup.LookupEnds`). That the chain ends is a hypothesis: it is not derived from the finite buffer and the increasing keys. Completeness (`Lookup.LookupFinds`, `Lookup.LookupAbsentIffMissing`, `Lookup.LookupNeverFails`) is proved only when the skip list is well formed from its head (`Lookup.WellFormed`), and only for records on the level-1 chain from the head. That hypothesis constrains the head and the records on its chain: their pointers must lead further along the chain, and past the head, keys must increase. The head's own key and records off the chain are not constrained. `Lookup.Budget` is a sufficient bound, not the least one.
- Lookup.Walk: the same restriction as `Lookup.Lookup`. Completeness (`Lookup.WalkNeverMisses`, `Lookup.WalkFinds`, `Lookup.WalkNeverFails`) holds only for a walk from a record on the chain of a list well formed from its head, and for target records further along that chain.
- The commented-out location and transaction fields (src/twoskip.rs:56-66, 102-108), and `iter` (src/twoskip.rs:390-395), which only starts the iterator at offset 64.
- `lib.rs`: the crate setup (a feature gate, `pub mod twoskip` and the `extern crate` lines for `mmap`, `byteorder` and `crc`) and the `it_works` test, which opens a real `mailboxes.db` file and dumps it. The test needs that file and file I/O, and the dump it runs is `Scan.Dump`.
