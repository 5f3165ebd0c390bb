/** The sequential scan over the data area that `dump` prints and the
    database iterator yields: from offset 64 up to the header's current
    size, skipping 8-byte BLANK markers and stepping over each record by
    its length. */
module Scan {
  import opened Bytes
  import opened Errors
  import opened Records
  import opened Lookup

  /** The marker a writer leaves where a record was blanked out: " BLANK"
      followed by 0x07 0xa0. */
  const BLANK: seq<byte> := [0x20, 0x42, 0x4c, 0x41, 0x4e, 0x4b, 0x07, 0xa0]

  /** What the scan relies on from its decoder: a decoded record starts at
      the offset asked for and covers at least 8 bytes, so every step moves
      the scan forward. */
  ghost predicate Advances(decode: Decoder) {
    forall off: nat {:trigger decode(off)} :: decode(off).Ok? ==>
      decode(off).value.offset == off && decode(off).value.len >= 8
  }

  /** A decoder of framed records advances. */
  lemma {:induction false} DecodesAdvance(decode: Decoder, size: nat)
    requires Decodes(decode, size)
    ensures Advances(decode)
  {
    forall off: nat | decode(off).Ok?
      ensures decode(off).value.offset == off && decode(off).value.len >= 8
    {
      assert Framed(decode(off).value, size);
    }
  }

  /** Whether a BLANK marker sits at `at`; the 8 bytes looked at must lie in
      the buffer. */
  function ProbeBlank(buf: seq<byte>, at: nat): (r: Result<bool>)
    ensures r.Err? ==> r.error == InvalidFileSize && |buf| < at + 8
    ensures r == Ok(true) <==> at + 8 <= |buf| && buf[at..at + 8] == BLANK
  {
    if at + |BLANK| > |buf| then Err(InvalidFileSize)
    else Ok(buf[at..at + |BLANK|] == BLANK)
  }

  /** One step of the scan: a BLANK marker, or a decoded record. */
  datatype Line = BlankLine(at: nat) | RecordLine(rec: Record) {

    /** Where the step starts. */
    function Start(): nat {
      match this
      case BlankLine(at) => at
      case RecordLine(rec) => rec.offset
    }

    /** How many bytes the step covers. */
    function Span(): nat {
      match this
      case BlankLine(_) => |BLANK|
      case RecordLine(rec) => rec.len
    }
  }

  /** The scan from `offset` to `end`: the steps it takes, or the first
      error it meets. */
  function Lines(decode: Decoder, buf: seq<byte>, end: nat, offset: nat): (r: Result<seq<Line>>)
    requires Advances(decode)
    ensures r.Err? ==> r.error == InvalidFileSize || exists off: nat :: decode(off) == Err(r.error)
    decreases if offset < end then end - offset else 0
  {
    if offset >= end then Ok([])
    else
      var blank :- ProbeBlank(buf, offset);
      if blank then
        var rest :- Lines(decode, buf, end, offset + |BLANK|);
        Ok([BlankLine(offset)] + rest)
      else
        var rec :- decode(offset);
        var rest :- Lines(decode, buf, end, offset + rec.len);
        Ok([RecordLine(rec)] + rest)
  }

  /** A single step is what the scan finds at its start: a BLANK marker, or
      a record that is not a marker and decodes there. */
  ghost predicate StepHolds(decode: Decoder, buf: seq<byte>, line: Line) {
    match line
    case BlankLine(at) => ProbeBlank(buf, at) == Ok(true)
    case RecordLine(rec) => ProbeBlank(buf, rec.offset) == Ok(false) && decode(rec.offset) == Ok(rec)
  }

  /** Where the scan goes after the steps `lines` taken from `from`. */
  function Reach(lines: seq<Line>, from: nat): nat {
    if |lines| == 0 then from else lines[|lines| - 1].Start() + lines[|lines| - 1].Span()
  }

  /** `lines` tiles the data area from `from` to `end`: the first step starts
      at `from`, each next step starts where the one before it ends, every
      step starts before `end` and is found where it starts, and the steps
      reach `end`. */
  ghost predicate Tiles(decode: Decoder, buf: seq<byte>, end: nat, from: nat, lines: seq<Line>) {
    && (|lines| > 0 ==> lines[0].Start() == from)
    && (forall i, j {:trigger lines[i], lines[j]} :: 0 <= i && j == i + 1 && j < |lines| ==>
          lines[j].Start() == lines[i].Start() + lines[i].Span())
    && (forall i :: 0 <= i < |lines| ==> lines[i].Start() < end && StepHolds(decode, buf, lines[i]))
    && Reach(lines, from) >= end
  }

  /** A first step found at `from` followed by a tiling of the rest is a
      tiling. */
  lemma {:induction false} TilesCons(decode: Decoder, buf: seq<byte>, end: nat, from: nat, lines: seq<Line>)
    requires |lines| > 0 && lines[0].Start() == from
    requires from < end && StepHolds(decode, buf, lines[0])
    requires Tiles(decode, buf, end, from + lines[0].Span(), lines[1..])
    ensures Tiles(decode, buf, end, from, lines)
  {
    var tail := lines[1..];
    assert Reach(tail, from + lines[0].Span()) == Reach(lines, from);
    forall i, j | 0 <= i && j == i + 1 && j < |lines|
      ensures lines[j].Start() == lines[i].Start() + lines[i].Span()
    {
      if i > 0 {
        assert lines[i] == tail[i - 1] && lines[j] == tail[j - 1];
      } else {
        assert lines[1] == tail[0];
      }
    }
    forall i | 0 <= i < |lines|
      ensures lines[i].Start() < end && StepHolds(decode, buf, lines[i])
    {
      if i > 0 {
        assert lines[i] == tail[i - 1];
      }
    }
  }

  /** A non-empty tiling starts with a step found before `end`, and the rest
      of it tiles the area after that step. */
  lemma {:induction false} TilesRest(decode: Decoder, buf: seq<byte>, end: nat, from: nat, lines: seq<Line>)
    requires |lines| > 0 && Tiles(decode, buf, end, from, lines)
    ensures lines[0].Start() == from && from < end && StepHolds(decode, buf, lines[0])
    ensures Tiles(decode, buf, end, from + lines[0].Span(), lines[1..])
  {
    var tail := lines[1..];
    assert Reach(tail, from + lines[0].Span()) == Reach(lines, from);
    if |tail| > 0 {
      assert tail[0] == lines[1];
    }
    forall i, j | 0 <= i && j == i + 1 && j < |tail|
      ensures tail[j].Start() == tail[i].Start() + tail[i].Span()
    {
      assert tail[i] == lines[i + 1] && tail[j] == lines[j + 1];
    }
    forall i | 0 <= i < |tail|
      ensures tail[i].Start() < end && StepHolds(decode, buf, tail[i])
    {
      assert tail[i] == lines[i + 1];
    }
  }

  /** The tiling step by step: each step is found where the one before it
      ends, before `end`, and the last one reaches `end`. */
  ghost predicate Chain(decode: Decoder, buf: seq<byte>, end: nat, from: nat, lines: seq<Line>)
    decreases |lines|
  {
    if |lines| == 0 then end <= from
    else
      && lines[0].Start() == from && from < end && StepHolds(decode, buf, lines[0])
      && Chain(decode, buf, end, from + lines[0].Span(), lines[1..])
  }

  /** A chain is a tiling. */
  lemma {:induction false} ChainTiles(decode: Decoder, buf: seq<byte>, end: nat, from: nat, lines: seq<Line>)
    requires Chain(decode, buf, end, from, lines)
    ensures Tiles(decode, buf, end, from, lines)
    decreases |lines|
  {
    if |lines| > 0 {
      ChainTiles(decode, buf, end, from + lines[0].Span(), lines[1..]);
      TilesCons(decode, buf, end, from, lines);
    }
  }

  /** A tiling is a chain. */
  lemma {:induction false} TilesChain(decode: Decoder, buf: seq<byte>, end: nat, from: nat, lines: seq<Line>)
    requires Tiles(decode, buf, end, from, lines)
    ensures Chain(decode, buf, end, from, lines)
    decreases |lines|
  {
    if |lines| > 0 {
      TilesRest(decode, buf, end, from, lines);
      TilesChain(decode, buf, end, from + lines[0].Span(), lines[1..]);
    }
  }

  /** The scan's result with `done` steps in front of it. */
  function After(done: seq<Line>, rest: Result<seq<Line>>): Result<seq<Line>> {
    match rest
    case Err(e) => Err(e)
    case Ok(lines) => Ok(done + lines)
  }

  /** One step of the scan from `offset`: a failed probe or decode is the
      scan's error, and otherwise the step found there comes first. */
  lemma {:induction false} LinesStep(decode: Decoder, buf: seq<byte>, end: nat, offset: nat)
    requires Advances(decode)
    requires offset < end
    ensures ProbeBlank(buf, offset).Err? ==>
      Lines(decode, buf, end, offset) == Err(ProbeBlank(buf, offset).error)
    ensures ProbeBlank(buf, offset) == Ok(true) ==>
      Lines(decode, buf, end, offset) == After([BlankLine(offset)], Lines(decode, buf, end, offset + |BLANK|))
    ensures ProbeBlank(buf, offset) == Ok(false) && decode(offset).Err? ==>
      Lines(decode, buf, end, offset) == Err(decode(offset).error)
    ensures ProbeBlank(buf, offset) == Ok(false) && decode(offset).Ok? ==>
      Lines(decode, buf, end, offset) ==
        After([RecordLine(decode(offset).value)], Lines(decode, buf, end, offset + decode(offset).value.len))
  {
  }

  /** A step found where it starts, before `end`, is the scan's first step
      from there. */
  lemma {:induction false} StepIsScanned(decode: Decoder, buf: seq<byte>, end: nat, line: Line)
    requires Advances(decode)
    requires line.Start() < end && StepHolds(decode, buf, line)
    ensures Lines(decode, buf, end, line.Start()) ==
      After([line], Lines(decode, buf, end, line.Start() + line.Span()))
  {
    LinesStep(decode, buf, end, line.Start());
  }

  /** A scan that succeeds finds a chain of steps. */
  lemma {:induction false} ScanChains(decode: Decoder, buf: seq<byte>, end: nat, from: nat)
    requires Advances(decode)
    requires Lines(decode, buf, end, from).Ok?
    ensures Chain(decode, buf, end, from, Lines(decode, buf, end, from).value)
    decreases if from < end then end - from else 0
  {
    var lines := Lines(decode, buf, end, from).value;
    if from < end {
      LinesStep(decode, buf, end, from);
      var next := from + lines[0].Span();
      ScanChains(decode, buf, end, next);
      assert lines[1..] == Lines(decode, buf, end, next).value;
    }
  }

  /** A chain of steps is what the scan finds. */
  lemma {:induction false} ChainIsScan(decode: Decoder, buf: seq<byte>, end: nat, from: nat, lines: seq<Line>)
    requires Advances(decode)
    requires Chain(decode, buf, end, from, lines)
    ensures Lines(decode, buf, end, from) == Ok(lines)
    decreases |lines|
  {
    if |lines| > 0 {
      ChainIsScan(decode, buf, end, from + lines[0].Span(), lines[1..]);
      StepIsScanned(decode, buf, end, lines[0]);
      assert lines == [lines[0]] + lines[1..];
    }
  }

  /** The scan's steps are exactly the tiling of the data area: when the
      scan succeeds its steps tile the area, and a tiling is the scan's
      result. */
  lemma {:induction false} LinesAreTiling(decode: Decoder, buf: seq<byte>, end: nat, from: nat, lines: seq<Line>)
    requires Advances(decode)
    ensures Lines(decode, buf, end, from) == Ok(lines) <==> Tiles(decode, buf, end, from, lines)
  {
    if Lines(decode, buf, end, from) == Ok(lines) {
      ScanChains(decode, buf, end, from);
      ChainTiles(decode, buf, end, from, lines);
    }
    if Tiles(decode, buf, end, from, lines) {
      TilesChain(decode, buf, end, from, lines);
      ChainIsScan(decode, buf, end, from, lines);
    }
  }

  /** Every step covers at least 8 bytes, so the steps of a tiling start at
      strictly increasing offsets, from `from` on and below `end`. */
  lemma {:induction false} TilingAscends(decode: Decoder, buf: seq<byte>, end: nat, from: nat, lines: seq<Line>)
    requires Advances(decode)
    requires Tiles(decode, buf, end, from, lines)
    ensures forall i, j :: 0 <= i < j < |lines| ==> from <= lines[i].Start() < lines[j].Start() < end
  {
    forall i | 0 <= i < |lines|
      ensures lines[i].Span() >= 8
    {
      if lines[i].RecordLine? {
        var rec := lines[i].rec;
        assert decode(rec.offset) == Ok(rec);
      }
    }
    forall j | 0 <= j < |lines|
      ensures forall i :: 0 <= i < j ==> from <= lines[i].Start() < lines[j].Start()
    {
      StartsBelow(lines, from, j);
    }
  }

  /** Within a chain of steps of positive span starting at `from`, every
      earlier step starts before step `j`. */
  lemma {:induction false} StartsBelow(lines: seq<Line>, from: nat, j: nat)
    requires j < |lines|
    requires lines[0].Start() == from
    requires forall i, k {:trigger lines[i], lines[k]} :: 0 <= i && k == i + 1 && k < |lines| ==>
      lines[k].Start() == lines[i].Start() + lines[i].Span()
    requires forall i :: 0 <= i < |lines| ==> lines[i].Span() >= 8
    ensures forall i :: 0 <= i < j ==> from <= lines[i].Start() < lines[j].Start()
    ensures from <= lines[j].Start()
    decreases j
  {
    if j > 0 {
      StartsBelow(lines, from, j - 1);
      assert lines[j].Start() == lines[j - 1].Start() + lines[j - 1].Span();
    }
  }

  /** `dump`'s scan over a database: from offset 64 to the header's current
      size. */
  function Dump(db: Db): (r: Result<seq<Line>>)
    ensures r.Ok? ==> Tiles(DecoderOf(db), db.buf, db.header.currentSize, START_OFFSET, r.value)
  {
    DecoderOfDecodes(db);
    DecodesAdvance(DecoderOf(db), |db.buf|);
    var lines := Lines(DecoderOf(db), db.buf, db.header.currentSize, START_OFFSET);
    if lines.Err? then lines
    else
      LinesAreTiling(DecoderOf(db), db.buf, db.header.currentSize, START_OFFSET, lines.value);
      lines
  }

  /** Moving one step from the scan's result to the steps already taken
      leaves the whole unchanged. */
  lemma {:induction false} AfterStep(done: seq<Line>, line: Line, here: Result<seq<Line>>, there: Result<seq<Line>>)
    requires here == After([line], there)
    ensures After(done + [line], there) == After(done, here)
  {
    if there.Ok? {
      assert (done + [line]) + there.value == done + ([line] + there.value);
    }
  }

  /** One round of `dump`'s loop at `offset`: probe for a BLANK marker and
      step over it, or decode the record there and step over that. */
  method DumpStep(decode: Decoder, buf: seq<byte>, end: nat, offset: nat) returns (r: Result<(Line, nat)>)
    requires Advances(decode) && offset < end
    ensures r.Err? ==> Lines(decode, buf, end, offset) == Err(r.error)
    ensures r.Ok? ==> offset < r.value.1
    ensures r.Ok? ==>
      Lines(decode, buf, end, offset) == After([r.value.0], Lines(decode, buf, end, r.value.1))
  {
    LinesStep(decode, buf, end, offset);
    var blank := ProbeBlank(buf, offset);
    if blank.Err? {
      return Err(blank.error);
    }
    if blank.value {
      return Ok((BlankLine(offset), offset + |BLANK|));
    }
    var found := decode(offset);
    if found.Err? {
      return Err(found.error);
    }
    return Ok((RecordLine(found.value), offset + found.value.len));
  }

  /** `dump`'s loop as the Rust reader writes it: step over BLANK markers and
      records until the current size is reached; the first error ends the
      loop. */
  method DumpLoop(decode: Decoder, buf: seq<byte>, end: nat) returns (r: Result<seq<Line>>)
    requires Advances(decode)
    ensures r == Lines(decode, buf, end, START_OFFSET)
  {
    var offset := START_OFFSET;
    var done: seq<Line> := [];
    if Lines(decode, buf, end, offset).Ok? {
      assert [] + Lines(decode, buf, end, offset).value == Lines(decode, buf, end, offset).value;
    }
    while offset < end
      invariant After(done, Lines(decode, buf, end, offset)) == Lines(decode, buf, end, START_OFFSET)
      decreases end - offset
    {
      var step := DumpStep(decode, buf, end, offset);
      if step.Err? {
        return Err(step.error);
      }
      var (line, next) := step.value;
      AfterStep(done, line, Lines(decode, buf, end, offset), Lines(decode, buf, end, next));
      done, offset := done + [line], next;
    }
    assert done + [] == done;
    return Ok(done);
  }

  /** What one call of the iterator's `next` gives. `Fault` stands for the
      failure the Rust reader's iterator aborts on. */
  datatype Step = End | Item(rec: Record, next: nat) | Fault(err: Error)

  /** The iterator's `next` from `offset`: skip BLANK markers, then yield
      the record there and the offset after it. */
  function IterNext(decode: Decoder, buf: seq<byte>, end: nat, offset: nat): (s: Step)
    requires Advances(decode)
    ensures s.Item? ==> offset <= s.rec.offset < end && decode(s.rec.offset) == Ok(s.rec)
    ensures s.Item? ==> s.next == s.rec.offset + s.rec.len && offset < s.next
    ensures s.Fault? ==>
      || (s.err == InvalidFileSize && |buf| < end + |BLANK|)
      || exists off: nat :: offset <= off < end && decode(off) == Err(s.err)
    decreases if offset < end then end - offset else 0
  {
    if offset >= end then End
    else
      match ProbeBlank(buf, offset)
      case Err(e) => Fault(e)
      case Ok(blank) =>
        if blank then IterNext(decode, buf, end, offset + |BLANK|)
        else
          match decode(offset)
          case Err(e) => Fault(e)
          case Ok(rec) => Item(rec, offset + rec.len)
  }

  /** The records among a scan's steps, in order. */
  function RecordsOf(lines: seq<Line>): (recs: seq<Record>)
    ensures |recs| <= |lines|
  {
    if |lines| == 0 then []
    else if lines[0].RecordLine? then [lines[0].rec] + RecordsOf(lines[1..])
    else RecordsOf(lines[1..])
  }

  /** The iterator faults exactly where the scan fails before reaching
      another record, and with the scan's error. */
  lemma {:induction false} IterFaultIsScanError(decode: Decoder, buf: seq<byte>, end: nat, offset: nat)
    requires Advances(decode)
    ensures IterNext(decode, buf, end, offset).Fault? ==>
      Lines(decode, buf, end, offset) == Err(IterNext(decode, buf, end, offset).err)
    decreases if offset < end then end - offset else 0
  {
    if offset < end && ProbeBlank(buf, offset) == Ok(true) {
      IterFaultIsScanError(decode, buf, end, offset + |BLANK|);
    }
  }

  /** The iterator ends exactly when the rest of the scan succeeds without
      another record. */
  lemma {:induction false} IterEndIsEmptyScan(decode: Decoder, buf: seq<byte>, end: nat, offset: nat)
    requires Advances(decode)
    ensures IterNext(decode, buf, end, offset).End? <==>
      Lines(decode, buf, end, offset).Ok? && RecordsOf(Lines(decode, buf, end, offset).value) == []
    decreases if offset < end then end - offset else 0
  {
    if offset < end && ProbeBlank(buf, offset).Ok? {
      if ProbeBlank(buf, offset).value {
        IterEndIsEmptyScan(decode, buf, end, offset + |BLANK|);
        if Lines(decode, buf, end, offset + |BLANK|).Ok? {
          var rest := Lines(decode, buf, end, offset + |BLANK|).value;
          assert ([BlankLine(offset)] + rest)[1..] == rest;
        }
      } else if decode(offset).Ok? {
        var rec := decode(offset).value;
        if Lines(decode, buf, end, offset + rec.len).Ok? {
          var rest := Lines(decode, buf, end, offset + rec.len).value;
          assert ([RecordLine(rec)] + rest)[1..] == rest;
        }
      }
    }
  }

  /** A record the iterator yields is the scan's next record, and the scan
      from where the iterator resumes holds the records after it. */
  lemma {:induction false} IterYieldsNextRecord(decode: Decoder, buf: seq<byte>, end: nat, offset: nat)
    requires Advances(decode)
    ensures var s := IterNext(decode, buf, end, offset);
      s.Item? ==>
        && (Lines(decode, buf, end, offset).Ok? <==> Lines(decode, buf, end, s.next).Ok?)
        && (Lines(decode, buf, end, offset).Ok? ==>
              RecordsOf(Lines(decode, buf, end, offset).value) ==
              [s.rec] + RecordsOf(Lines(decode, buf, end, s.next).value))
    decreases if offset < end then end - offset else 0
  {
    if offset < end && ProbeBlank(buf, offset).Ok? {
      if ProbeBlank(buf, offset).value {
        IterYieldsNextRecord(decode, buf, end, offset + |BLANK|);
        if Lines(decode, buf, end, offset + |BLANK|).Ok? {
          var rest := Lines(decode, buf, end, offset + |BLANK|).value;
          assert ([BlankLine(offset)] + rest)[1..] == rest;
        }
      } else if decode(offset).Ok? {
        var rec := decode(offset).value;
        if Lines(decode, buf, end, offset + rec.len).Ok? {
          var rest := Lines(decode, buf, end, offset + rec.len).value;
          assert ([RecordLine(rec)] + rest)[1..] == rest;
        }
      }
    }
  }
}
