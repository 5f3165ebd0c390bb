/** The mapped database and its point lookup: a walk down the skip list
    from the head record at offset 64. */
module Lookup {
  import opened Bytes
  import opened Errors
  import opened Records
  import opened KeyOrder
  import Crc32
  import Header

  /** The first record, the skip list's head, sits right after the header. */
  const START_OFFSET: nat := Header.HEADER_SIZE

  /** An open database: the mapped bytes, the checksum function, and the
      header read from them. */
  datatype Db = Db(buf: seq<byte>, crc: Crc32.Sum, header: Header.Header)

  /** `open` once the file is mapped: a database is made only from bytes
      whose header reads, and carries that header. In particular the scan of
      `Dump` ends at the current size stored at offset 48. */
  function Open(crc: Crc32.Sum, buf: seq<byte>): (r: Result<Db>)
    ensures r.Ok? <==>
      && |buf| >= Header.HEADER_SIZE
      && buf[..20] == Header.HEADER_MAGIC
      && FieldAt(buf, Header.OFFSET_VERSION, 4) == Header.HEADER_VERSION
      && FieldAt(buf, Header.OFFSET_CRC32, 4) == Header.ExpectedCrc(crc, buf)
    ensures r.Ok? ==> r.value.buf == buf && r.value.crc == crc
    ensures r.Ok? ==> r.value.header.currentSize == FieldAt(buf, Header.OFFSET_CURRENT_SIZE, 8)
    ensures r.Err? ==> r.error in {InvalidFileSize, InvalidHeaderMagic, VersionMismatch, ChecksumMismatch}
  {
    var header :- Header.ReadHeader(crc, buf);
    Ok(Db(buf, crc, header))
  }

  /** Opening what a writer wrote gives back the header it encoded. */
  lemma {:induction false} OpenWritten(crc: Crc32.Sum, h: Header.Header, rest: seq<byte>)
    requires Crc32.Fits(crc) && Header.Encodable(h) && h.version == Header.HEADER_VERSION && h.flags == 0
    ensures Open(crc, Header.EncodeHeader(crc, h) + rest) == Ok(Db(Header.EncodeHeader(crc, h) + rest, crc, h))
  {
    Header.EncodeThenRead(crc, h, rest);
  }

  /** What a lookup ends in. `Absent` is the Rust reader's `Ok(None)`; `OutOfFuel`
      stands for a walk that has not finished within its budget. */
  datatype Outcome = Found(rec: Record) | Absent | Failed(err: Error) | OutOfFuel

  /** The pointer scan at the top of each lookup step: starting at `level`,
      go down while the pointer there is zero, never looking at level 0.
      Returns the level reached and the pointer found there (0 for none). */
  function Descend(nextLoc: seq<nat>, level: nat): (p: (nat, nat))
    requires level < |nextLoc|
    ensures p.0 <= level
    ensures p.1 != 0 ==> 0 < p.0 && p.1 == nextLoc[p.0]
    ensures p.1 == 0 ==> p.0 == 0
    ensures forall j :: p.0 < j <= level ==> nextLoc[j] == 0
    decreases level
  {
    if level == 0 then (0, 0)
    else if nextLoc[level] != 0 then (level, nextLoc[level])
    else Descend(nextLoc, level - 1)
  }

  /** The bottom pointer plays no part in the scan. */
  lemma {:induction false} DescendIgnoresBottom(nextLoc: seq<nat>, level: nat, x: nat)
    requires level < |nextLoc|
    ensures Descend(nextLoc[0 := x], level) == Descend(nextLoc, level)
    decreases level
  {
    if level > 0 {
      DescendIgnoresBottom(nextLoc, level - 1, x);
    }
  }

  /** How the lookup reads records: a decoder from offsets to decoded
      records. `Lookup` uses `RecordAt` over the database's bytes. */
  type Decoder = nat -> Result<Record>

  /** The decoder of `db`: `RecordAt` over its mapped bytes. */
  function DecoderOf(db: Db): (decode: Decoder) {
    (off: nat) => RecordAt(db.crc, db.buf, off)
  }

  /** What the walk relies on from its decoder: a decoded record starts at
      the offset asked for and is framed inside a buffer of `size` bytes. */
  ghost predicate Decodes(decode: Decoder, size: nat) {
    forall off: nat {:trigger decode(off)} :: decode(off).Ok? ==>
      decode(off).value.offset == off && Framed(decode(off).value, size)
  }

  /** `RecordAt` is such a decoder. */
  lemma {:induction false} DecoderOfDecodes(db: Db)
    ensures Decodes(DecoderOf(db), |db.buf|)
  {
    forall off: nat
      ensures DecoderOf(db)(off).Ok? ==>
        DecoderOf(db)(off).value.offset == off && Framed(DecoderOf(db)(off).value, |db.buf|)
    {
      assert DecoderOf(db)(off) == RecordAt(db.crc, db.buf, off);
    }
  }

  /** The lookup loop from the record `r` at `level`, allowed `fuel` more
      rounds after this one. Each round scans down for a non-zero pointer,
      decodes the record it names and compares keys: equal ends the walk,
      a smaller search key drops one level, a larger one moves to that
      record at its own top level. */
  function Walk(decode: Decoder, buf: seq<byte>, key: seq<byte>, r: Record, level: nat, fuel: nat): (o: Outcome)
    requires Decodes(decode, |buf|)
    requires Framed(r, |buf|) && level <= r.level
    ensures o.Found? ==>
      && decode(o.rec.offset) == Ok(o.rec)
      && Framed(o.rec, |buf|)
      && Key(buf, o.rec) == key
    ensures o.Failed? ==> exists off: nat :: decode(off) == Err(o.err)
    decreases fuel
  {
    var (lv, off) := Descend(r.nextLoc, level);
    if lv == 0 || off == 0 then Absent
    else
      match decode(off)
      case Err(e) => Failed(e)
      case Ok(next) =>
        match Compare(key, Key(buf, next))
        case Equal => CompareIsLexicographic(key, Key(buf, next)); Found(next)
        case Less =>
          if lv - 1 == 0 then Absent
          else if fuel == 0 then OutOfFuel
          else Walk(decode, buf, key, r, lv - 1, fuel - 1)
        case Greater =>
          if fuel == 0 then OutOfFuel
          else Walk(decode, buf, key, next, next.level, fuel - 1)
  }

  /** `get`: decode the head record, then walk from its top level. A head of
      level 0 has no pointer the scan may read, so the key is absent. */
  function Lookup(db: Db, key: seq<byte>, fuel: nat): (o: Outcome)
    ensures o.Found? ==>
      && RecordAt(db.crc, db.buf, o.rec.offset) == Ok(o.rec)
      && Key(db.buf, o.rec) == key
    ensures o.Failed? ==> exists off: nat :: RecordAt(db.crc, db.buf, off) == Err(o.err)
    ensures RecordAt(db.crc, db.buf, START_OFFSET).Err? ==>
      o == Failed(RecordAt(db.crc, db.buf, START_OFFSET).error)
    ensures RecordAt(db.crc, db.buf, START_OFFSET).Ok? && RecordAt(db.crc, db.buf, START_OFFSET).value.level == 0 ==>
      o == Absent
  {
    var decode := DecoderOf(db);
    DecoderOfDecodes(db);
    match decode(START_OFFSET)
    case Err(e) => Failed(e)
    case Ok(head) => Walk(decode, db.buf, key, head, head.level, fuel)
  }

  /** A walk that finishes within its budget finishes the same way with any
      larger budget. */
  lemma {:induction false} WalkMoreFuel(decode: Decoder, buf: seq<byte>, key: seq<byte>, r: Record, level: nat, fuel: nat, more: nat)
    requires Decodes(decode, |buf|)
    requires Framed(r, |buf|) && level <= r.level
    requires Walk(decode, buf, key, r, level, fuel) != OutOfFuel
    ensures Walk(decode, buf, key, r, level, fuel + more) == Walk(decode, buf, key, r, level, fuel)
    decreases fuel
  {
    var done, r2, level2 := WalkStep(decode, buf, key, r, level, fuel, more);
    if !done {
      WalkMoreFuel(decode, buf, key, r2, level2, fuel - 1, more);
    }
  }

  /** One round of the walk, with and without `more` fuel: either both walks
      end here alike (or the one without runs out of fuel), or both continue
      from the same record and level with one round less. */
  lemma {:induction false} WalkStep(decode: Decoder, buf: seq<byte>, key: seq<byte>, r: Record, level: nat, fuel: nat, more: nat)
    returns (done: bool, r2: Record, level2: nat)
    requires Decodes(decode, |buf|)
    requires Framed(r, |buf|) && level <= r.level
    ensures done ==>
      Walk(decode, buf, key, r, level, fuel) == OutOfFuel
      || Walk(decode, buf, key, r, level, fuel + more) == Walk(decode, buf, key, r, level, fuel)
    ensures !done ==> 0 < fuel && Framed(r2, |buf|) && level2 <= r2.level
    ensures !done ==> Walk(decode, buf, key, r, level, fuel) == Walk(decode, buf, key, r2, level2, fuel - 1)
    ensures !done ==> Walk(decode, buf, key, r, level, fuel + more) == Walk(decode, buf, key, r2, level2, fuel - 1 + more)
  {
    done, r2, level2 := true, r, level;
    var (lv, off) := Descend(r.nextLoc, level);
    if lv != 0 && off != 0 && decode(off).Ok? && 0 < fuel {
      var next := decode(off).value;
      match Compare(key, Key(buf, next))
      case Equal =>
      case Less =>
        if lv - 1 != 0 {
          done, level2 := false, lv - 1;
        }
      case Greater =>
        done, r2, level2 := false, next, next.level;
    }
  }

  /** The walk never reads the bottom pointer of the record it stands on:
      changing it changes nothing. */
  lemma {:induction false} WalkIgnoresBottom(decode: Decoder, buf: seq<byte>, key: seq<byte>, r: Record, level: nat, fuel: nat, x: nat)
    requires Decodes(decode, |buf|)
    requires Framed(r, |buf|) && level <= r.level
    ensures Framed(r.(nextLoc := r.nextLoc[0 := x]), |buf|)
    ensures Walk(decode, buf, key, r.(nextLoc := r.nextLoc[0 := x]), level, fuel) == Walk(decode, buf, key, r, level, fuel)
    decreases fuel
  {
    var moved := r.(nextLoc := r.nextLoc[0 := x]);
    DescendIgnoresBottom(r.nextLoc, level, x);
    var (lv, off) := Descend(r.nextLoc, level);
    assert Descend(moved.nextLoc, level) == (lv, off);
    if lv != 0 && off != 0 && decode(off).Ok? && fuel > 0 {
      var next := decode(off).value;
      if Compare(key, Key(buf, next)) == Less && lv - 1 != 0 {
        WalkIgnoresBottom(decode, buf, key, r, lv - 1, fuel - 1, x);
        assert Walk(decode, buf, key, moved, level, fuel) == Walk(decode, buf, key, moved, lv - 1, fuel - 1);
      }
    }
  }

  /** Following the level-1 pointer `d` times from `r` arrives at the record
      at offset `to`; every record on the way decodes. */
  ghost predicate Reaches(decode: Decoder, r: Record, to: nat, d: nat)
    decreases d
  {
    if d == 0 then r.offset == to
    else
      && 1 < |r.nextLoc| && r.nextLoc[1] != 0 && decode(r.nextLoc[1]).Ok?
      && Reaches(decode, decode(r.nextLoc[1]).value, to, d - 1)
  }

  /** Every non-zero pointer of `r` at a level from 1 up decodes to a record
      further along the level-1 chain from `r`. */
  ghost predicate PointersAhead(decode: Decoder, buf: seq<byte>, r: Record)
    requires Decodes(decode, |buf|) && Framed(r, |buf|)
  {
    forall j :: 1 <= j <= r.level && r.nextLoc[j] != 0 ==>
      && decode(r.nextLoc[j]).Ok?
      && exists a: nat {:trigger Reaches(decode, r, r.nextLoc[j], a)} :: 1 <= a && Reaches(decode, r, r.nextLoc[j], a)
  }

  /** The level-1 successor of `r`, if there is one, holds a larger key. */
  ghost predicate SuccessorLarger(decode: Decoder, buf: seq<byte>, r: Record)
    requires Decodes(decode, |buf|) && Framed(r, |buf|)
  {
    1 <= r.level && r.nextLoc[1] != 0 && decode(r.nextLoc[1]).Ok? ==>
      Compare(Key(buf, r), Key(buf, decode(r.nextLoc[1]).value)) == Less
  }

  /** What the skip list asks of the record at `off`, `d` steps along the
      chain from the head: its pointers lead ahead, and, past the head, its
      successor holds a larger key. `get` never compares the head's key. */
  ghost predicate LinkedAt(decode: Decoder, buf: seq<byte>, off: nat, d: nat)
    requires Decodes(decode, |buf|)
  {
    decode(off).Ok? ==>
      && PointersAhead(decode, buf, decode(off).value)
      && (1 <= d ==> SuccessorLarger(decode, buf, decode(off).value))
  }

  /** The skip list from the head record `h` is well formed: every record on
      its level-1 chain, `h` included, is linked. Records off the chain, such
      as superseded ones a writer left behind, are not constrained. */
  ghost predicate WellFormed(decode: Decoder, buf: seq<byte>, h: Record) {
    && Decodes(decode, |buf|)
    && decode(h.offset) == Ok(h)
    && forall off: nat, d: nat {:trigger LinkedAt(decode, buf, off, d)} ::
         Reaches(decode, h, off, d) ==> LinkedAt(decode, buf, off, d)
  }

  /** The walk stands at the record `r`, decoded and `e` steps along the
      chain of a skip list well formed from `h`, at a level `r` has. */
  ghost predicate OnList(decode: Decoder, buf: seq<byte>, h: Record, e: nat, r: Record, level: nat) {
    && WellFormed(decode, buf, h)
    && decode(r.offset) == Ok(r)
    && Reaches(decode, h, r.offset, e)
    && level <= r.level
  }

  /** Chain steps add up: `a` steps from `h` to `x`, then `b` from there. */
  lemma {:induction false} ReachesJoin(decode: Decoder, size: nat, h: Record, x: nat, a: nat, y: nat, b: nat)
    requires Decodes(decode, size) && decode(h.offset) == Ok(h)
    requires Reaches(decode, h, x, a) && decode(x).Ok? && Reaches(decode, decode(x).value, y, b)
    ensures Reaches(decode, h, y, a + b)
    decreases a
  {
    if a > 0 {
      var s := decode(h.nextLoc[1]).value;
      assert decode(s.offset) == Ok(s);
      ReachesJoin(decode, size, s, x, a - 1, y, b);
    }
  }

  /** Past the head, keys strictly increase along the level-1 chain: every
      record after `r`, which lies `e >= 1` steps from the head, decodes and
      holds a larger key. */
  lemma {:induction false} ReachesSorted(decode: Decoder, buf: seq<byte>, h: Record, r: Record, e: nat, to: nat, d: nat)
    requires WellFormed(decode, buf, h)
    requires decode(r.offset) == Ok(r) && 1 <= e && Reaches(decode, h, r.offset, e)
    requires 1 <= d && Reaches(decode, r, to, d)
    ensures decode(to).Ok?
    ensures Compare(Key(buf, r), Key(buf, decode(to).value)) == Less
    decreases d
  {
    var s := decode(r.nextLoc[1]).value;
    assert LinkedAt(decode, buf, r.offset, e);
    assert decode(s.offset) == Ok(s);
    if d > 1 {
      ReachesJoin(decode, |buf|, h, r.offset, e, s.offset, 1);
      ReachesSorted(decode, buf, h, s, e + 1, to, d - 1);
      CompareTransitive(Key(buf, r), Key(buf, s), Key(buf, decode(to).value));
    }
  }

  /** The chain is deterministic: from `r`, the record `a` steps along
      reaches whatever `r` reaches in `d >= a` steps, in the remaining steps. */
  lemma {:induction false} ReachesSplit(decode: Decoder, size: nat, r: Record, x: nat, a: nat, y: nat, d: nat)
    requires Decodes(decode, size) && decode(r.offset) == Ok(r)
    requires a <= d && Reaches(decode, r, x, a) && Reaches(decode, r, y, d)
    requires decode(x).Ok?
    ensures Reaches(decode, decode(x).value, y, d - a)
    decreases a
  {
    if a > 0 {
      var s := decode(r.nextLoc[1]).value;
      assert decode(s.offset) == Ok(s);
      ReachesSplit(decode, size, s, x, a - 1, y, d - 1);
    }
  }

  /** Two records after `r` on the chain from the head compare by key as
      they lie on it: equal keys mean the same record, and a smaller key lies
      earlier. */
  lemma {:induction false} ChainOrder(decode: Decoder, buf: seq<byte>, h: Record, e: nat, r: Record, n: Record, a: nat, t: Record, d: nat)
    requires WellFormed(decode, buf, h)
    requires decode(r.offset) == Ok(r) && Reaches(decode, h, r.offset, e)
    requires decode(n.offset) == Ok(n) && decode(t.offset) == Ok(t)
    requires 1 <= a && Reaches(decode, r, n.offset, a)
    requires 1 <= d && Reaches(decode, r, t.offset, d)
    ensures Compare(Key(buf, t), Key(buf, n)) == Equal ==> n == t
    ensures Compare(Key(buf, t), Key(buf, n)) == Greater ==> a < d && Reaches(decode, n, t.offset, d - a)
    ensures Compare(Key(buf, t), Key(buf, n)) == Less ==> d < a
  {
    CompareFlips(Key(buf, t), Key(buf, n));
    CompareIsLexicographic(Key(buf, t), Key(buf, n));
    if a <= d {
      ReachesSplit(decode, |buf|, r, n.offset, a, t.offset, d);
      if a < d {
        ReachesJoin(decode, |buf|, h, r.offset, e, n.offset, a);
        ReachesSorted(decode, buf, h, n, e + a, t.offset, d - a);
      }
    } else {
      ReachesSplit(decode, |buf|, r, t.offset, d, n.offset, a);
      ReachesJoin(decode, |buf|, h, r.offset, e, t.offset, d);
      ReachesSorted(decode, buf, h, t, e + d, n.offset, a - d);
    }
  }

  /** The fuel a walk from `r` at `level` needs to reach a record `d` steps
      along the chain: each round either drops a level or moves at least one
      step along the chain to a record of level at most 31, so 32 rounds
      per step are enough. */
  function Budget(d: nat, level: nat): nat {
    32 * d + level
  }

  /** One round of the walk at `r`, when the pointer scan finds the record
      `n` at `off`: an equal key is found, a smaller one drops below `lv`, a
      larger one moves to `n`, and a further round needs fuel. */
  lemma {:induction false} WalkRound(decode: Decoder, buf: seq<byte>, key: seq<byte>, r: Record, level: nat, fuel: nat, lv: nat, off: nat, n: Record)
    requires Decodes(decode, |buf|)
    requires Framed(r, |buf|) && level <= r.level
    requires Descend(r.nextLoc, level) == (lv, off) && lv != 0 && off != 0 && decode(off) == Ok(n)
    ensures Compare(key, Key(buf, n)) == Equal ==> Walk(decode, buf, key, r, level, fuel) == Found(n)
    ensures Compare(key, Key(buf, n)) == Less && 1 < lv ==>
      Walk(decode, buf, key, r, level, fuel) == if fuel == 0 then OutOfFuel else Walk(decode, buf, key, r, lv - 1, fuel - 1)
    ensures Compare(key, Key(buf, n)) == Greater ==>
      Walk(decode, buf, key, r, level, fuel) == if fuel == 0 then OutOfFuel else Walk(decode, buf, key, n, n.level, fuel - 1)
  {
  }

  /** The two rounds in which `get` answers `None`: the pointer scan finds
      no pointer, or it finds one only at level 1 and the record there holds
      a larger key than the one searched for. */
  lemma {:induction false} WalkAbsentRounds(decode: Decoder, buf: seq<byte>, key: seq<byte>, r: Record, level: nat, fuel: nat)
    requires Decodes(decode, |buf|)
    requires Framed(r, |buf|) && level <= r.level
    ensures Descend(r.nextLoc, level).1 == 0 ==> Walk(decode, buf, key, r, level, fuel) == Absent
    ensures
      && Descend(r.nextLoc, level).0 == 1
      && Descend(r.nextLoc, level).1 != 0
      && decode(Descend(r.nextLoc, level).1).Ok?
      && Compare(key, Key(buf, decode(Descend(r.nextLoc, level).1).value)) == Less
      ==> Walk(decode, buf, key, r, level, fuel) == Absent
  {
  }

  /** On a skip list well formed from `h`, with `r` on the chain `e` steps
      from `h` and a record `t` on the chain after `r`, one round of the walk
      at `r` finds a pointer to a record `n`, `a` steps along the chain, and
      comparing keys tells where `t` lies: `n` itself, after `n`, or before
      it, in which case the round did not use the level-1 pointer. */
  lemma {:induction false} NextOnChain(decode: Decoder, buf: seq<byte>, h: Record, e: nat, r: Record, level: nat, t: Record, d: nat)
    returns (lv: nat, off: nat, n: Record, a: nat)
    requires OnList(decode, buf, h, e, r, level) && 1 <= level
    requires decode(t.offset) == Ok(t)
    requires 1 <= d && Reaches(decode, r, t.offset, d)
    ensures Descend(r.nextLoc, level) == (lv, off) && lv != 0 && off != 0 && decode(off) == Ok(n)
    ensures decode(n.offset) == Ok(n) && n.level <= MAX_LEVEL && 1 <= a
    ensures Reaches(decode, h, n.offset, e + a)
    ensures Compare(Key(buf, t), Key(buf, n)) == Equal ==> n == t
    ensures Compare(Key(buf, t), Key(buf, n)) == Greater ==>
      a < d && Reaches(decode, n, t.offset, d - a) && 1 <= n.level
    ensures Compare(Key(buf, t), Key(buf, n)) == Less ==> 1 < lv
  {
    lv, off := Descend(r.nextLoc, level).0, Descend(r.nextLoc, level).1;
    assert 0 < lv && off != 0;
    assert LinkedAt(decode, buf, r.offset, e);
    n := decode(off).value;
    assert decode(n.offset) == Ok(n);
    a :| 1 <= a && Reaches(decode, r, off, a);
    if lv == 1 {
      a := 1;
    }
    ChainOrder(decode, buf, h, e, r, n, a, t, d);
    ReachesJoin(decode, |buf|, h, r.offset, e, n.offset, a);
  }

  /** One round of the walk towards a record `t` on the level-1 chain after
      `r`: either the walk ends here, by finding `t` or for want of fuel, or
      it continues from a record `r2` on the chain from `h`, at `level2`,
      that still has `t` on its chain, `d2` steps along, with a strictly
      smaller budget. */
  lemma {:induction false} WalkAdvance(decode: Decoder, buf: seq<byte>, key: seq<byte>, h: Record, e: nat, r: Record, level: nat, fuel: nat, t: Record, d: nat)
    returns (done: bool, r2: Record, e2: nat, level2: nat, d2: nat)
    requires OnList(decode, buf, h, e, r, level) && 1 <= level
    requires decode(t.offset) == Ok(t) && Key(buf, t) == key
    requires 1 <= d && Reaches(decode, r, t.offset, d)
    ensures done ==>
      Walk(decode, buf, key, r, level, fuel) == Found(t) || (fuel == 0 && Walk(decode, buf, key, r, level, fuel) == OutOfFuel)
    ensures !done ==> 0 < fuel && OnList(decode, buf, h, e2, r2, level2) && 1 <= level2
    ensures !done ==> 1 <= d2 && Reaches(decode, r2, t.offset, d2) && Budget(d2, level2) < Budget(d, level)
    ensures !done ==> Walk(decode, buf, key, r, level, fuel) == Walk(decode, buf, key, r2, level2, fuel - 1)
  {
    var lv, off, n, a := NextOnChain(decode, buf, h, e, r, level, t, d);
    WalkRound(decode, buf, key, r, level, fuel, lv, off, n);
    var o := Compare(key, Key(buf, n));
    if o == Equal || fuel == 0 {
      done, r2, e2, level2, d2 := true, r, e, level, d;
    } else if o == Less {
      done, r2, e2, level2, d2 := false, r, e, lv - 1, d;
    } else {
      done, r2, e2, level2, d2 := false, n, e + a, n.level, d - a;
    }
  }

  /** Completeness of the walk: on a skip list well formed from `h`, when
      the searched key is held by a record `t` `d` steps along the chain from
      `r`, itself on the chain from `h`, a budget of `Budget(d, level)`
      rounds is enough to find `t`. */
  lemma {:induction false} WalkFinds(decode: Decoder, buf: seq<byte>, key: seq<byte>, h: Record, e: nat, r: Record, level: nat, fuel: nat, t: Record, d: nat)
    requires OnList(decode, buf, h, e, r, level) && 1 <= level
    requires decode(t.offset) == Ok(t) && Key(buf, t) == key
    requires 1 <= d && Reaches(decode, r, t.offset, d)
    requires Budget(d, level) <= fuel
    ensures Walk(decode, buf, key, r, level, fuel) == Found(t)
    decreases fuel
  {
    var done, r2, e2, level2, d2 := WalkAdvance(decode, buf, key, h, e, r, level, fuel, t, d);
    if !done {
      WalkFinds(decode, buf, key, h, e2, r2, level2, fuel - 1, t, d2);
    }
  }

  /** In the same setting, whatever the budget, the walk never answers
      `Absent` or `Failed`: it finds `t` or runs out of fuel. */
  lemma {:induction false} WalkNeverMisses(decode: Decoder, buf: seq<byte>, key: seq<byte>, h: Record, e: nat, r: Record, level: nat, fuel: nat, t: Record, d: nat)
    requires OnList(decode, buf, h, e, r, level) && 1 <= level
    requires decode(t.offset) == Ok(t) && Key(buf, t) == key
    requires 1 <= d && Reaches(decode, r, t.offset, d)
    ensures Walk(decode, buf, key, r, level, fuel) == Found(t) || Walk(decode, buf, key, r, level, fuel) == OutOfFuel
  {
    WalkFinds(decode, buf, key, h, e, r, level, fuel + Budget(d, level), t, d);
    if Walk(decode, buf, key, r, level, fuel) != OutOfFuel {
      WalkMoreFuel(decode, buf, key, r, level, fuel, Budget(d, level));
    }
  }

  /** A pointer the scan of a round finds at a record on the list leads,
      `a >= 1` steps along the chain, to a record that is on the list too. */
  lemma {:induction false} PointerOnList(decode: Decoder, buf: seq<byte>, h: Record, e: nat, r: Record, level: nat)
    returns (n: Record, a: nat)
    requires OnList(decode, buf, h, e, r, level)
    requires Descend(r.nextLoc, level).0 != 0 && Descend(r.nextLoc, level).1 != 0
    ensures decode(Descend(r.nextLoc, level).1) == Ok(n)
    ensures OnList(decode, buf, h, e + a, n, n.level)
    ensures 1 <= a && Reaches(decode, r, n.offset, a)
  {
    var off := Descend(r.nextLoc, level).1;
    assert LinkedAt(decode, buf, r.offset, e);
    n := decode(off).value;
    assert decode(n.offset) == Ok(n);
    a :| 1 <= a && Reaches(decode, r, off, a);
    ReachesJoin(decode, |buf|, h, r.offset, e, off, a);
  }

  /** One round of the walk at a record `r` on the list from `h`, `e`
      steps along: either the walk ends here without failing, having found,
      if anything, a record `d > e` steps along the chain, or it continues
      from a record `r2` also on the list, no nearer the head, with one
      round less. */
  lemma {:induction false} WalkNext(decode: Decoder, buf: seq<byte>, key: seq<byte>, h: Record, e: nat, r: Record, level: nat, fuel: nat)
    returns (done: bool, r2: Record, e2: nat, level2: nat, d: nat)
    requires OnList(decode, buf, h, e, r, level)
    ensures done ==> !Walk(decode, buf, key, r, level, fuel).Failed?
    ensures done && Walk(decode, buf, key, r, level, fuel).Found? ==>
      e < d && Reaches(decode, h, Walk(decode, buf, key, r, level, fuel).rec.offset, d)
    ensures !done ==> 0 < fuel && OnList(decode, buf, h, e2, r2, level2) && e <= e2
    ensures !done ==> Walk(decode, buf, key, r, level, fuel) == Walk(decode, buf, key, r2, level2, fuel - 1)
  {
    done, r2, e2, level2, d := true, r, e, level, e;
    var (lv, off) := Descend(r.nextLoc, level);
    if lv != 0 && off != 0 {
      var n, a := PointerOnList(decode, buf, h, e, r, level);
      d := e + a;
      WalkRound(decode, buf, key, r, level, fuel, lv, off, n);
      var o := Compare(key, Key(buf, n));
      if o == Less && 1 < lv && 0 < fuel {
        done, level2 := false, lv - 1;
      } else if o == Greater && 0 < fuel {
        done, r2, e2, level2 := false, n, e + a, n.level;
      }
    }
  }

  /** On a skip list well formed from `h`, no walk from a record on its
      chain fails: every pointer it follows names a record that decodes. */
  lemma {:induction false} WalkNeverFails(decode: Decoder, buf: seq<byte>, key: seq<byte>, h: Record, e: nat, r: Record, level: nat, fuel: nat)
    requires OnList(decode, buf, h, e, r, level)
    ensures !Walk(decode, buf, key, r, level, fuel).Failed?
    decreases fuel
  {
    var done, r2, e2, level2, _ := WalkNext(decode, buf, key, h, e, r, level, fuel);
    if !done {
      WalkNeverFails(decode, buf, key, h, e2, r2, level2, fuel - 1);
    }
  }

  /** A record the walk finds lies further along the chain from `h` than
      the record `r` it starts from: the walk never finds a record off the
      list. */
  lemma {:induction false} WalkFoundAhead(decode: Decoder, buf: seq<byte>, key: seq<byte>, h: Record, e: nat, r: Record, level: nat, fuel: nat)
    returns (d: nat)
    requires OnList(decode, buf, h, e, r, level)
    ensures Walk(decode, buf, key, r, level, fuel).Found? ==>
      e < d && Reaches(decode, h, Walk(decode, buf, key, r, level, fuel).rec.offset, d)
    decreases fuel
  {
    var done, r2, e2, level2, d1 := WalkNext(decode, buf, key, h, e, r, level, fuel);
    d := d1;
    if !done {
      d := WalkFoundAhead(decode, buf, key, h, e2, r2, level2, fuel - 1);
    }
  }

  /** The level-1 chain from `r` ends `n` steps along, at a record with no
      level-1 pointer. */
  ghost predicate ChainEnds(decode: Decoder, r: Record, n: nat)
    decreases n
  {
    if n == 0 then |r.nextLoc| <= 1 || r.nextLoc[1] == 0
    else
      && 1 < |r.nextLoc|
      && r.nextLoc[1] != 0
      && decode(r.nextLoc[1]).Ok?
      && ChainEnds(decode, decode(r.nextLoc[1]).value, n - 1)
  }

  /** On a chain from `r` that ends `m` steps along, a record `a` steps
      along lies at most `m` steps along, and its chain ends `m - a` steps
      further. */
  lemma {:induction false} ChainRemaining(decode: Decoder, size: nat, r: Record, x: nat, a: nat, m: nat)
    requires Decodes(decode, size) && decode(r.offset) == Ok(r)
    requires Reaches(decode, r, x, a) && ChainEnds(decode, r, m) && decode(x).Ok?
    ensures a <= m && ChainEnds(decode, decode(x).value, m - a)
    decreases a
  {
    if a > 0 {
      var s := decode(r.nextLoc[1]).value;
      assert decode(s.offset) == Ok(s);
      ChainRemaining(decode, size, s, x, a - 1, m - 1);
    }
  }

  /** One round of the walk at `r`, on a list well formed from `h` whose
      chain from `r` ends `m` steps along, with a budget of at least
      `Budget(m, level)` rounds: either the walk ends here with an answer,
      or it continues from a record `r2` on the list whose chain ends `m2`
      steps along, within the budget left. */
  lemma {:induction false} WalkEndStep(decode: Decoder, buf: seq<byte>, key: seq<byte>, h: Record, e: nat, r: Record, level: nat, fuel: nat, m: nat)
    returns (done: bool, r2: Record, e2: nat, level2: nat, m2: nat)
    requires OnList(decode, buf, h, e, r, level)
    requires ChainEnds(decode, r, m) && Budget(m, level) <= fuel
    ensures done ==> Walk(decode, buf, key, r, level, fuel) != OutOfFuel
    ensures !done ==> 0 < fuel && OnList(decode, buf, h, e2, r2, level2)
    ensures !done ==> ChainEnds(decode, r2, m2) && Budget(m2, level2) <= fuel - 1
    ensures !done ==> Walk(decode, buf, key, r, level, fuel) == Walk(decode, buf, key, r2, level2, fuel - 1)
  {
    done, r2, e2, level2, m2 := true, r, e, level, m;
    var (lv, off) := Descend(r.nextLoc, level);
    if lv != 0 && off != 0 {
      var n, a := PointerOnList(decode, buf, h, e, r, level);
      ChainRemaining(decode, |buf|, r, off, a, m);
      assert n.level <= MAX_LEVEL;
      WalkRound(decode, buf, key, r, level, fuel, lv, off, n);
      var o := Compare(key, Key(buf, n));
      if o == Less && 1 < lv {
        done, level2 := false, lv - 1;
      } else if o == Greater {
        done, r2, e2, level2, m2 := false, n, e + a, n.level, m - a;
      }
    }
  }

  /** On a list well formed from `h` whose chain from `r` ends `m` steps
      along, `Budget(m, level)` rounds are enough: the walk never runs out
      of fuel. */
  lemma {:induction false} WalkEnds(decode: Decoder, buf: seq<byte>, key: seq<byte>, h: Record, e: nat, r: Record, level: nat, fuel: nat, m: nat)
    requires OnList(decode, buf, h, e, r, level)
    requires ChainEnds(decode, r, m) && Budget(m, level) <= fuel
    ensures Walk(decode, buf, key, r, level, fuel) != OutOfFuel
    decreases fuel
  {
    var done, r2, e2, level2, m2 := WalkEndStep(decode, buf, key, h, e, r, level, fuel, m);
    if !done {
      WalkEnds(decode, buf, key, h, e2, r2, level2, fuel - 1, m2);
    }
  }

  /** A pointer that the scan of a round finds but that does not decode ends
      the walk with that decoding error, never with `Absent`. */
  lemma {:induction false} WalkFailsAtPointer(decode: Decoder, buf: seq<byte>, key: seq<byte>, r: Record, level: nat, fuel: nat)
    requires Decodes(decode, |buf|)
    requires Framed(r, |buf|) && level <= r.level
    requires Descend(r.nextLoc, level).1 != 0 && decode(Descend(r.nextLoc, level).1).Err?
    ensures Walk(decode, buf, key, r, level, fuel) == Failed(decode(Descend(r.nextLoc, level).1).error)
  {
  }

  /** The database's skip list, if its head decodes, is well formed from
      the head. */
  ghost predicate WellFormedDb(db: Db) {
    RecordAt(db.crc, db.buf, START_OFFSET).Ok? ==>
      WellFormed(DecoderOf(db), db.buf, RecordAt(db.crc, db.buf, START_OFFSET).value)
  }

  /** `t` decodes and lies on the level-1 chain after the head record. */
  ghost predicate OnChain(db: Db, t: Record) {
    && RecordAt(db.crc, db.buf, START_OFFSET).Ok?
    && RecordAt(db.crc, db.buf, t.offset) == Ok(t)
    && exists d: nat :: 1 <= d && Reaches(DecoderOf(db), RecordAt(db.crc, db.buf, START_OFFSET).value, t.offset, d)
  }

  /** `get` on a well-formed database finds every key held on the chain:
      the record holding it, given `Budget(d, level of the head)` rounds,
      and never `Absent` or `Failed` whatever the fuel. */
  lemma {:induction false} LookupFinds(db: Db, key: seq<byte>, fuel: nat, t: Record, d: nat)
    requires WellFormedDb(db)
    requires RecordAt(db.crc, db.buf, START_OFFSET).Ok?
    requires RecordAt(db.crc, db.buf, t.offset) == Ok(t) && Key(db.buf, t) == key
    requires 1 <= d && Reaches(DecoderOf(db), RecordAt(db.crc, db.buf, START_OFFSET).value, t.offset, d)
    ensures Lookup(db, key, fuel) == Found(t) || Lookup(db, key, fuel) == OutOfFuel
    ensures Budget(d, RecordAt(db.crc, db.buf, START_OFFSET).value.level) <= fuel ==> Lookup(db, key, fuel) == Found(t)
  {
    var decode := DecoderOf(db);
    var head := RecordAt(db.crc, db.buf, START_OFFSET).value;
    assert decode(START_OFFSET) == Ok(head);
    assert decode(t.offset) == Ok(t);
    assert Reaches(decode, head, head.offset, 0);
    assert Lookup(db, key, fuel) == Walk(decode, db.buf, key, head, head.level, fuel);
    WalkNeverMisses(decode, db.buf, key, head, 0, head, head.level, fuel, t, d);
    if Budget(d, head.level) <= fuel {
      WalkFinds(decode, db.buf, key, head, 0, head, head.level, fuel, t, d);
    }
  }

  /** On a well-formed database an `Absent` answer is right: no record on
      the chain holds the key. */
  lemma {:induction false} LookupAbsentMeansMissing(db: Db, key: seq<byte>, fuel: nat)
    requires WellFormedDb(db)
    ensures Lookup(db, key, fuel) == Absent ==> forall t :: OnChain(db, t) ==> Key(db.buf, t) != key
  {
    forall t | OnChain(db, t) && Key(db.buf, t) == key
      ensures Lookup(db, key, fuel) != Absent
    {
      var d: nat :| 1 <= d && Reaches(DecoderOf(db), RecordAt(db.crc, db.buf, START_OFFSET).value, t.offset, d);
      LookupFinds(db, key, fuel, t, d);
    }
  }

  /** On a well-formed database whose head decodes, `get` never fails. */
  lemma {:induction false} LookupNeverFails(db: Db, key: seq<byte>, fuel: nat)
    requires WellFormedDb(db)
    requires RecordAt(db.crc, db.buf, START_OFFSET).Ok?
    ensures !Lookup(db, key, fuel).Failed?
  {
    var decode := DecoderOf(db);
    var head := RecordAt(db.crc, db.buf, START_OFFSET).value;
    assert decode(START_OFFSET) == Ok(head);
    assert Reaches(decode, head, head.offset, 0);
    assert Lookup(db, key, fuel) == Walk(decode, db.buf, key, head, head.level, fuel);
    WalkNeverFails(decode, db.buf, key, head, 0, head, head.level, fuel);
  }

  /** On a well-formed database, a record `get` finds lies on the chain
      from the head. */
  lemma {:induction false} LookupFoundOnChain(db: Db, key: seq<byte>, fuel: nat)
    requires WellFormedDb(db)
    ensures Lookup(db, key, fuel).Found? ==> OnChain(db, Lookup(db, key, fuel).rec)
  {
    if RecordAt(db.crc, db.buf, START_OFFSET).Ok? {
      var decode := DecoderOf(db);
      var head := RecordAt(db.crc, db.buf, START_OFFSET).value;
      assert decode(START_OFFSET) == Ok(head);
      assert Reaches(decode, head, head.offset, 0);
      assert Lookup(db, key, fuel) == Walk(decode, db.buf, key, head, head.level, fuel);
      var d := WalkFoundAhead(decode, db.buf, key, head, 0, head, head.level, fuel);
    }
  }

  /** On a well-formed database whose chain from the head ends `n` steps
      along, `get` given `Budget(n, level of the head)` rounds answers with
      a record or `Absent`: it neither runs out of fuel nor fails. */
  lemma {:induction false} LookupEnds(db: Db, key: seq<byte>, fuel: nat, n: nat)
    requires WellFormedDb(db)
    requires RecordAt(db.crc, db.buf, START_OFFSET).Ok?
    requires ChainEnds(DecoderOf(db), RecordAt(db.crc, db.buf, START_OFFSET).value, n)
    requires Budget(n, RecordAt(db.crc, db.buf, START_OFFSET).value.level) <= fuel
    ensures Lookup(db, key, fuel).Found? || Lookup(db, key, fuel) == Absent
  {
    var decode := DecoderOf(db);
    var head := RecordAt(db.crc, db.buf, START_OFFSET).value;
    assert decode(START_OFFSET) == Ok(head);
    assert Reaches(decode, head, head.offset, 0);
    assert Lookup(db, key, fuel) == Walk(decode, db.buf, key, head, head.level, fuel);
    WalkEnds(decode, db.buf, key, head, 0, head, head.level, fuel, n);
    LookupNeverFails(db, key, fuel);
  }

  /** Lookup correctness, both halves: on such a database, with that
      budget, `get` answers `Absent` exactly when no record on the chain
      from the head holds the key. */
  lemma {:induction false} LookupAbsentIffMissing(db: Db, key: seq<byte>, fuel: nat, n: nat)
    requires WellFormedDb(db)
    requires RecordAt(db.crc, db.buf, START_OFFSET).Ok?
    requires ChainEnds(DecoderOf(db), RecordAt(db.crc, db.buf, START_OFFSET).value, n)
    requires Budget(n, RecordAt(db.crc, db.buf, START_OFFSET).value.level) <= fuel
    ensures Lookup(db, key, fuel) == Absent <==> forall t :: OnChain(db, t) ==> Key(db.buf, t) != key
  {
    LookupEnds(db, key, fuel, n);
    LookupAbsentMeansMissing(db, key, fuel);
    LookupFoundOnChain(db, key, fuel);
  }

  /** `get` as the Rust reader writes it: decode the head record, then run the
      lookup loop from it. */
  method Get(db: Db, key: seq<byte>, fuel: nat) returns (o: Outcome)
    ensures o == Lookup(db, key, fuel)
  {
    var decode := DecoderOf(db);
    DecoderOfDecodes(db);
    var head := decode(START_OFFSET);
    if head.Err? {
      return Failed(head.error);
    }
    o := WalkLoop(decode, db.buf, key, head.value, fuel);
  }

  /** The lookup loop of `get`: an outer loop of rounds around the pointer
      scan. The level never exceeds the current record's level, so every
      pointer read is in range. */
  method WalkLoop(decode: Decoder, buf: seq<byte>, key: seq<byte>, start: Record, fuel: nat) returns (o: Outcome)
    requires Decodes(decode, |buf|) && Framed(start, |buf|)
    ensures o == Walk(decode, buf, key, start, start.level, fuel)
  {
    var r := start;
    var level: nat := r.level;
    var budget := fuel;
    while true
      invariant Framed(r, |buf|) && level <= r.level
      invariant Walk(decode, buf, key, r, level, budget) == Walk(decode, buf, key, start, start.level, fuel)
      decreases budget
    {
      var offset;
      level, offset := ScanDown(r.nextLoc, level);
      if level == 0 || offset == 0 {
        return Absent;
      }
      var found := decode(offset);
      if found.Err? {
        return Failed(found.error);
      }
      var next := found.value;
      var order := Compare(key, Key(buf, next));
      if order == Equal {
        return Found(next);
      } else if order == Less {
        level := level - 1;
        if level == 0 {
          return Absent;
        }
      } else {
        r := next;
        level := r.level;
      }
      if budget == 0 {
        return OutOfFuel;
      }
      budget := budget - 1;
    }
  }

  /** The inner loop of `get`: step down from `level` while the pointer there
      is zero, stopping above level 0. */
  method ScanDown(nextLoc: seq<nat>, level: nat) returns (lv: nat, offset: nat)
    requires level < |nextLoc|
    ensures (lv, offset) == Descend(nextLoc, level)
  {
    lv, offset := level, 0;
    while offset == 0 && lv > 0
      invariant lv <= level
      invariant offset == 0 ==> Descend(nextLoc, level) == Descend(nextLoc, lv)
      invariant offset != 0 ==> lv > 0 && Descend(nextLoc, level) == (lv, offset)
      decreases lv, if offset == 0 then 1 else 0
    {
      offset := nextLoc[lv];
      if offset == 0 {
        lv := lv - 1;
      }
    }
  }
}
