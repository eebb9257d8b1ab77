/** Migration of the overflow region to another set of extra columns: a new region is appended at
    the end of the file, row by row, and adopted by one header write. */
module OverflowMigration {
  import opened Arith
  import opened Bytes
  import opened Layout
  import opened Storage
  import opened Ring
  import opened Retained
  import opened Index
  import opened Overflow

  const NAME_LEN: nat := 19

  /** The first old extra column, from `j` on, with the same stored name. */
  function FindExtra(wanted: string, names: seq<string>, j: nat): (r: Option<nat>)
    requires j <= |names|
    ensures r.Some? ==> j <= r.value < |names| && Clipped(wanted, NAME_LEN) == Clipped(names[r.value], NAME_LEN)
    ensures forall i :: j <= i < (if r.Some? then r.value else |names|) ==>
              Clipped(wanted, NAME_LEN) != Clipped(names[i], NAME_LEN)
    decreases |names| - j
  {
    if j == |names| then None
    else if Clipped(wanted, NAME_LEN) == Clipped(names[j], NAME_LEN) then Some(j)
    else FindExtra(wanted, names, j + 1)
  }

  function ExtraMap(wanted: seq<string>, names: seq<string>): (m: seq<Option<nat>>)
    ensures |m| == |wanted|
    ensures forall i :: 0 <= i < |m| ==> m[i] == FindExtra(wanted[i], names, 0)
  {
    seq(|wanted|, i requires 0 <= i < |wanted| => FindExtra(wanted[i], names, 0))
  }

  /** The request already matches the stored layout, so nothing is rewritten. */
  predicate AlreadyMatches(wanted: seq<string>, names: seq<string>) {
    |wanted| == |names| && forall i :: 0 <= i < |names| ==> Clipped(wanted[i], NAME_LEN) == Clipped(names[i], NAME_LEN)
  }

  /** Two names are the same as far as they are compared: equal, or alike in their first nineteen characters. */
  predicate SameStored(a: string, b: string) {
    a == b || (|a| >= 19 && |b| >= 19 && a[..19] == b[..19])
  }

  lemma ClippedAlike(a: string, b: string)
    ensures Clipped(a, NAME_LEN) == Clipped(b, NAME_LEN) <==> SameStored(a, b)
  {
    if |a| <= NAME_LEN && |b| > NAME_LEN && a == b[..NAME_LEN] {
      assert a[..NAME_LEN] == a;
    }
    if |b| <= NAME_LEN && |a| > NAME_LEN && b == a[..NAME_LEN] {
      assert b[..NAME_LEN] == b;
    }
  }

  /** The request matches exactly when it has as many names and each is the stored one at its place. */
  lemma MatchesIff(wanted: seq<string>, names: seq<string>)
    ensures AlreadyMatches(wanted, names) <==>
            |wanted| == |names| && forall i :: 0 <= i < |names| ==> SameStored(wanted[i], names[i])
  {
    hide Clipped, SameStored;
    if |wanted| == |names| {
      forall i | 0 <= i < |names|
        ensures Clipped(wanted[i], NAME_LEN) == Clipped(names[i], NAME_LEN) <==> SameStored(wanted[i], names[i])
      {
        ClippedAlike(wanted[i], names[i]);
      }
    }
  }

  ghost predicate Distinct(names: seq<string>) {
    forall i, j :: 0 <= i < j < |names| ==> !SameStored(names[i], names[j])
  }

  /** With distinct names a matching request maps every column to itself. */
  lemma MatchingMap(wanted: seq<string>, names: seq<string>, vals: seq<i16>)
    requires AlreadyMatches(wanted, names) && Distinct(names) && |vals| == |names|
    ensures MapColumns(vals, ExtraMap(wanted, names)) == vals
  {
    hide Clipped, SameStored;
    var columns := ExtraMap(wanted, names);
    forall i | 0 <= i < |names|
      ensures columns[i] == Some(i)
    {
      var r := FindExtra(wanted[i], names, 0);
      assert r.Some? && r.value <= i;
      if r.value < i {
        ClippedAlike(names[r.value], names[i]);
      }
    }
  }

  function Pos(base: nat, size: nat, r: nat): nat { base + r * size }

  lemma PosOrder(base: nat, size: nat, q: nat, r: nat)
    requires q < r
    ensures Pos(base, size, q) + size <= Pos(base, size, r)
  {
    MulLe(q + 1, r, size);
    assert (q + 1) * size == q * size + size;
  }

  /** What fread takes into a zeroed buffer: values behind the end of the file stay zero. */
  function Padded(f: Bytes, at: nat, n: nat): (vals: seq<i16>)
    ensures |vals| == n
    ensures forall i :: 0 <= i < n ==> vals[i] == if at + 2 * i + 2 <= |f| then I16(f, at + 2 * i) else 0
  {
    seq(n, i requires 0 <= i < n => if at + 2 * i + 2 <= |f| then I16(f, at + 2 * i) else 0)
  }

  /** Values in a range that two files share read alike. */
  lemma PaddedShared(f: Bytes, at: nat, out: Bytes, p: nat, n: nat)
    requires at + 2 * n <= |f| && p + 2 * n <= |out|
    requires out[p..p + 2 * n] == f[at..at + 2 * n]
    ensures Padded(out, p, n) == Decode(f, at, n)
  {
    var now, before := Padded(out, p, n), Decode(f, at, n);
    forall i | 0 <= i < n
      ensures now[i] == before[i]
    {
      var a, b := out[p..p + 2 * n], f[at..at + 2 * n];
      assert a[2 * i] == b[2 * i] && a[2 * i + 1] == b[2 * i + 1];
      SameI16(out, p + 2 * i, f, at + 2 * i);
    }
  }

  /** `out` is the old file followed by the header of the new region and `count` rows. */
  ghost predicate Extends(f: Bytes, region: Bytes, out: Bytes, width: nat, count: nat) {
    && |region| == OVERFLOW_HEADER_SIZE
    && |out| == Pos(|f| + OVERFLOW_HEADER_SIZE, width, count) >= |f| + OVERFLOW_HEADER_SIZE
    && (forall p :: 0 <= p < |f| ==> out[p] == f[p])
    && (forall p :: 0 <= p < OVERFLOW_HEADER_SIZE ==> out[|f| + p] == region[p])
  }

  /** Row `r` of the new region is row `r` of the old one under the column map, read from the file as
      it was when the copy came to it. */
  ghost predicate RowCopied(f: Bytes, out: Bytes, from: nat, oldCount: nat, columns: seq<Option<nat>>, r: nat) {
    var at := Pos(|f| + OVERFLOW_HEADER_SIZE, 2 * |columns|, r);
    && at + 2 * |columns| <= |out|
    && Decode(out, at, |columns|) == MapColumns(Padded(out[..at], Pos(from, 2 * oldCount, r), oldCount), columns)
  }

  /** Copies `count` rows of extras from `from` on to a new region at the end of the file. No byte
      of the old file changes. */
  method CopyRows(f: Bytes, region: Bytes, from: nat, oldCount: nat, columns: seq<Option<nat>>, count: nat)
    returns (out: Bytes)
    requires |region| == OVERFLOW_HEADER_SIZE
    ensures Extends(f, region, out, 2 * |columns|, count)
    ensures forall r: nat :: r < count ==> RowCopied(f, out, from, oldCount, columns, r)
  {
    hide Decode, Encode, Pos;
    var base := |f| + OVERFLOW_HEADER_SIZE;
    out := f + region;
    PosZero(base, 2 * |columns|);
    for r := 0 to count
      invariant Extends(f, region, out, 2 * |columns|, r)
      invariant forall q: nat :: q < r ==> RowCopied(f, out, from, oldCount, columns, q)
    {
      var to := Pos(base, 2 * |columns|, r);
      var vals := MapColumns(Padded(out, Pos(from, 2 * oldCount, r), oldCount), columns);
      ghost var before := out;
      DecodeBack(out, to, vals);
      out := WriteAt(out, to, Encode(vals));
      PosNext(base, 2 * |columns|, r);
      assert out[..to] == before;
      forall q: nat | q < r
        ensures RowCopied(f, out, from, oldCount, columns, q)
      {
        RowStays(f, before, from, oldCount, columns, q, r, Encode(vals));
      }
    }
  }

  /** Appending a row leaves the earlier rows of the copy alone. */
  lemma RowStays(f: Bytes, out: Bytes, from: nat, oldCount: nat, columns: seq<Option<nat>>, q: nat, r: nat, d: Bytes)
    requires q < r && RowCopied(f, out, from, oldCount, columns, q)
    requires |out| == Pos(|f| + OVERFLOW_HEADER_SIZE, 2 * |columns|, r)
    ensures RowCopied(f, WriteAt(out, |out|, d), from, oldCount, columns, q)
  {
    hide Decode, Pos, Padded, MapColumns;
    var at := Pos(|f| + OVERFLOW_HEADER_SIZE, 2 * |columns|, q);
    PosOrder(|f| + OVERFLOW_HEADER_SIZE, 2 * |columns|, q, r);
    DecodeAside(out, |out|, d, at, |columns|);
    assert WriteAt(out, |out|, d)[..at] == out[..at];
  }

  lemma PosZero(base: nat, size: nat)
    ensures Pos(base, size, 0) == base
  {
  }

  lemma PosNext(base: nat, size: nat, r: nat)
    ensures Pos(base, size, r + 1) == Pos(base, size, r) + size
  {
  }

  /** The adopted header: same first record, new place, new columns. */
  function AdoptHeader(h: Header, at: nat, count: nat): Header {
    h.(overflowOffset := at, extraParamCount := count, overflowRecordSize := count * 2)
  }

  function OverflowRows(h: Header): nat {
    if h.totalRecords > h.firstOverflowRecordIdx then h.totalRecords - h.firstOverflowRecordIdx else 0
  }

  /** The database after the final header write; `out` is the file before it. */
  ghost predicate Migrated(db: Db, columns: seq<Option<nat>>, region: Bytes, header: Bytes, out: Bytes, db': Db) {
    && Extends(db.file, region, out, 2 * |columns|, OverflowRows(db.h))
    && db'.adapted == db.adapted && db'.indexStale == db.indexStale
    && db'.h == AdoptHeader(db.h, |db.file|, |columns|)
    && db'.file == WriteAt(out, 0, header)
    && forall a: nat :: db.h.firstOverflowRecordIdx <= a < db.h.totalRecords ==> RecordCopied(db, out, columns, a)
  }

  ghost predicate RecordCopied(db: Db, out: Bytes, columns: seq<Option<nat>>, a: nat)
    requires db.h.firstOverflowRecordIdx <= a
  {
    RowCopied(db.file, out, db.h.overflowOffset + OVERFLOW_HEADER_SIZE, db.h.extraParamCount, columns,
              a - db.h.firstOverflowRecordIdx)
  }

  lemma OverflowIsPos(h: Header, a: nat)
    requires a >= h.firstOverflowRecordIdx
    ensures OverflowPos(h, a) ==
            Pos(h.overflowOffset + OVERFLOW_HEADER_SIZE, h.overflowRecordSize, a - h.firstOverflowRecordIdx)
  {
  }

  /** The whole migration of an existing region to a nonempty set of columns. Until the header is
      written, every byte of the old file is as it was: `before` is the file at that point. */
  method MigrateOverflow(db: Db, wanted: seq<string>, names: seq<string>, region: Bytes, header: Bytes)
    returns (db': Db, ghost before: Bytes)
    requires db.h.extraParamCount > 0 && |names| == db.h.extraParamCount
    requires 0 < |wanted| <= MAX_EXTRA_PARAMS
    requires |region| == OVERFLOW_HEADER_SIZE && |header| == HEADER_SIZE
    ensures |before| >= |db.file| && forall p :: 0 <= p < |db.file| ==> before[p] == db.file[p]
    ensures if |wanted| == |names| && forall i :: 0 <= i < |names| ==> SameStored(wanted[i], names[i]) then db' == db
            else Migrated(db, ExtraMap(wanted, names), region, header, before, db')
  {
    hide ExtraMap, RowCopied, Pos, SameStored, AlreadyMatches;
    MatchesIff(wanted, names);
    before := db.file;
    if AlreadyMatches(wanted, names) {
      return db, before;
    }
    var columns := ExtraMap(wanted, names);
    var count := if db.h.totalRecords > db.h.firstOverflowRecordIdx
                 then db.h.totalRecords - db.h.firstOverflowRecordIdx else 0;
    var from := db.h.overflowOffset + OVERFLOW_HEADER_SIZE;
    var out := CopyRows(db.file, region, from, db.h.extraParamCount, columns, count);
    before := out;
    forall a: nat | db.h.firstOverflowRecordIdx <= a < db.h.totalRecords
      ensures RecordCopied(db, out, columns, a)
    {
      assert RowCopied(db.file, out, db.h.overflowOffset + OVERFLOW_HEADER_SIZE, db.h.extraParamCount, columns,
                       a - db.h.firstOverflowRecordIdx);
    }
    db' := db.(h := AdoptHeader(db.h, |db.file|, |columns|), file := WriteAt(out, 0, header));
  }

  /** The extras of record `a` lie inside the file; an append that was refused leaves them out. */
  predicate Present(db: Db, a: nat) {
    HasExtras(db.h, a) ==> OverflowPos(db.h, a) + 2 * db.h.extraParamCount <= |db.file|
  }

  /** With the newest extras present, all are. */
  lemma AllPresent(db: Db, a: nat)
    requires db.h.extraParamCount > 0 ==> db.h.overflowRecordSize == 2 * db.h.extraParamCount
    requires a < db.h.totalRecords && Present(db, db.h.totalRecords - 1)
    ensures Present(db, a)
  {
    hide OverflowPos;
    if HasExtras(db.h, a) && a < db.h.totalRecords - 1 {
      OverflowOrder(db.h, a, db.h.totalRecords - 1);
    }
  }

  /** After the migration a reader sees the same base columns, and extras copied by name. */
  lemma MigrationPreservesRows(db: Db, log: seq<Row>, columns: seq<Option<nat>>, region: Bytes, header: Bytes,
                               out: Bytes, db': Db, k: nat)
    requires Inv(db, log) && db.h.extraParamCount > 0 && 0 < |columns|
    requires |header| == HEADER_SIZE && Migrated(db, columns, region, header, out, db') && k < Available(db.h)
    requires Present(db, RecordNumber(db.h, k))
    ensures Readable(db, k) && Readable(db', k)
    ensures ViewRow(db', k).ts == ViewRow(db, k).ts
    ensures ViewRow(db', k).vals ==
            ViewRow(db, k).vals[..db.h.numParams] + MapColumns(ViewRow(db, k).vals[db.h.numParams..], columns)
  {
    hide Fits, RingEnd, RowAt, Ready, BlockOf, SlotOf, LogicalSlot, Extras, OverflowPos, Pos, WriteAt, WholeExtras,
         RecordCopied;
    var a := RecordNumber(db.h, k);
    MigratedBase(db, log, columns, region, header, out, db', k);
    if HasExtras(db.h, a) {
      ExtrasCopied(db, columns, region, header, out, db', a);
    } else {
      NoExtras(db.file, db.h, a);
      NoExtras(db'.file, db'.h, a);
      assert MapColumns(ZeroVals(db.h.extraParamCount), columns) == ZeroVals(|columns|);
    }
  }

  lemma NoExtras(f: Bytes, h: Header, a: nat)
    requires !HasExtras(h, a)
    ensures Extras(f, h, a) == ZeroVals(h.extraParamCount)
  {
  }

  /** Timestamp and base columns stay, whatever becomes of the extras. */
  lemma MigratedBase(db: Db, log: seq<Row>, columns: seq<Option<nat>>, region: Bytes, header: Bytes, out: Bytes,
                     db': Db, k: nat)
    requires Inv(db, log) && db.h.extraParamCount > 0 && 0 < |columns|
    requires |header| == HEADER_SIZE && Migrated(db, columns, region, header, out, db') && k < Available(db.h)
    ensures Readable(db, k) && Readable(db', k)
    ensures ViewRow(db', k).ts == ViewRow(db, k).ts
    ensures ViewRow(db', k).vals ==
            ViewRow(db, k).vals[..db.h.numParams] + Extras(db'.file, db'.h, RecordNumber(db.h, k))
    ensures ViewRow(db, k).vals[db.h.numParams..] == Extras(db.file, db.h, RecordNumber(db.h, k))
  {
    hide Fits, RingEnd, RowAt, Ready, BlockOf, SlotOf, LogicalSlot, Extras, OverflowPos, Pos, WriteAt, WholeExtras,
         RecordCopied;
    var a := RecordNumber(db.h, k);
    LogicalOrder(db, k);
    KeptHasBlock(db, log, a);
    var g := GeometryOf(db.h);
    SameLogical(db.h, db'.h, k);
    RowKept(db.file, out, header, g, LogicalSlot(db.h, k));
    var base := RowAt(db.file, g, LogicalSlot(db.h, k));
    assert ViewRow(db, k).vals[..g.np] == base.vals;
  }

  /** The extras of record `a` are missing, and lie where the header of a new region comes to stand. */
  predicate UnderRegion(db: Db, a: nat) {
    && HasExtras(db.h, a) && |db.file| <= OverflowPos(db.h, a)
    && OverflowPos(db.h, a) + 2 * db.h.extraParamCount <= |db.file| + OVERFLOW_HEADER_SIZE
  }

  /** An append of extras that was refused comes back here. The copy reads the missing extras behind
      the old end of the file, where the new region stands by then: such a record gets bytes of the
      header of the new region for its extras. */
  lemma MissingExtrasReadRegion(db: Db, log: seq<Row>, columns: seq<Option<nat>>, region: Bytes, header: Bytes,
                                out: Bytes, db': Db, k: nat)
    requires Inv(db, log) && 0 < db.h.extraParamCount && 0 < |columns|
    requires |header| == HEADER_SIZE && Migrated(db, columns, region, header, out, db') && k < Available(db.h)
    requires UnderRegion(db, RecordNumber(db.h, k))
    ensures Readable(db, k) && Readable(db', k) && |region| == OVERFLOW_HEADER_SIZE
    ensures ViewRow(db, k).vals[db.h.numParams..] == ZeroVals(db.h.extraParamCount)
    ensures var at := OverflowPos(db.h, RecordNumber(db.h, k)) - |db.file|;
            ViewRow(db', k).vals[db.h.numParams..] == MapColumns(Decode(region, at, db.h.extraParamCount), columns)
  {
    hide Fits, RingEnd, Decode, OverflowPos, Pos, WriteAt, WholeExtras, RecordCopied, ViewRow, MapColumns;
    MigratedBase(db, log, columns, region, header, out, db', k);
    RegionCopied(db, columns, region, header, out, db', RecordNumber(db.h, k));
    MigratedWidth(db, columns, db');
  }

  lemma MigratedWidth(db: Db, columns: seq<Option<nat>>, db': Db)
    requires db'.h == AdoptHeader(db.h, |db.file|, |columns|)
    ensures db'.h.numParams == db.h.numParams && Columns(db'.h) == db.h.numParams + |columns|
  {
  }

  /** So it keeps its zeros exactly when every column carried over lies on zero bytes there. */
  lemma MissingExtrasKeptIff(db: Db, log: seq<Row>, columns: seq<Option<nat>>, region: Bytes, header: Bytes,
                             out: Bytes, db': Db, k: nat)
    requires Inv(db, log) && 0 < db.h.extraParamCount && 0 < |columns|
    requires |header| == HEADER_SIZE && Migrated(db, columns, region, header, out, db') && k < Available(db.h)
    requires UnderRegion(db, RecordNumber(db.h, k))
    ensures Readable(db, k) && Readable(db', k) && |region| == OVERFLOW_HEADER_SIZE
    ensures var at := OverflowPos(db.h, RecordNumber(db.h, k)) - |db.file|;
            ViewRow(db', k).vals[db.h.numParams..] == MapColumns(ViewRow(db, k).vals[db.h.numParams..], columns) <==>
            forall i :: 0 <= i < |columns| && columns[i].Some? && columns[i].value < db.h.extraParamCount ==>
              I16(region, at + 2 * columns[i].value) == 0
  {
    hide Inv, Extends, ViewRow, OverflowPos, I16, RecordCopied;
    MissingExtrasReadRegion(db, log, columns, region, header, out, db', k);
    var at := OverflowPos(db.h, RecordNumber(db.h, k)) - |db.file|;
    var now := MapColumns(Decode(region, at, db.h.extraParamCount), columns);
    var zeros := MapColumns(ZeroVals(db.h.extraParamCount), columns);
    assert forall i :: 0 <= i < |columns| && columns[i].Some? && columns[i].value < db.h.extraParamCount ==>
             now[i] == I16(region, at + 2 * columns[i].value);
    assert forall i :: 0 <= i < |columns| ==> zeros[i] == 0;
  }

  const OVERFLOW_MAGIC: u32 := 0x4F564652

  /** The region starts with its magic, so where the first extra column is carried over to the first
      place, that record changes from 0 to a value that nobody wrote. */
  lemma MissingExtraShowsMagic(db: Db, log: seq<Row>, columns: seq<Option<nat>>, region: Bytes, header: Bytes,
                               out: Bytes, db': Db, k: nat)
    requires Inv(db, log) && 0 < db.h.extraParamCount <= MAX_EXTRA_PARAMS && 0 < |columns| && columns[0] == Some(0)
    requires |header| == HEADER_SIZE && Migrated(db, columns, region, header, out, db') && k < Available(db.h)
    requires |region| == OVERFLOW_HEADER_SIZE && U32(region, 0) == OVERFLOW_MAGIC
    requires HasExtras(db.h, RecordNumber(db.h, k)) && OverflowPos(db.h, RecordNumber(db.h, k)) == |db.file|
    ensures Readable(db, k) && Readable(db', k)
    ensures ViewRow(db, k).vals[db.h.numParams] == 0 && ViewRow(db', k).vals[db'.h.numParams] == 0x4652
  {
    hide Inv, Extends, ViewRow, OverflowPos, RecordCopied, Shape;
    MissingExtrasReadRegion(db, log, columns, region, header, out, db', k);
    MigratedWidth(db, columns, db');
    InvShape(db, log);
    ShapeGeometry(db);
    assert I16(region, 0) == 0x4652;
    assert ViewRow(db', k).vals[db.h.numParams] == ViewRow(db', k).vals[db.h.numParams..][0];
  }

  lemma SameLogical(h: Header, h': Header, k: nat)
    requires h'.maxRecords == h.maxRecords && h'.oldestRecordIdx == h.oldestRecordIdx
    ensures LogicalSlot(h', k) == LogicalSlot(h, k)
  {
  }

  lemma RowKept(f: Bytes, out: Bytes, header: Bytes, g: Geometry, slot: nat)
    requires g.Valid() && Ready(f, g, BlockOf(g, slot)) && |header| <= g.dataOffset
    requires |f| <= |out| && forall p :: 0 <= p < |f| ==> out[p] == f[p]
    ensures HasBlock(f, g, BlockOf(g, slot)) && HasBlock(WriteAt(out, 0, header), g, BlockOf(g, slot))
    ensures RowAt(WriteAt(out, 0, header), g, slot) == RowAt(f, g, slot)
  {
    hide Fits, BlockOf, Magic, GetRow;
    assert BlockAt(out, g, BlockOf(g, slot)) == BlockAt(f, g, BlockOf(g, slot));
    RowBehind(out, g, slot, header);
  }

  lemma ExtrasCopied(db: Db, columns: seq<Option<nat>>, region: Bytes, header: Bytes, out: Bytes, db': Db, a: nat)
    requires Shape(db) && 0 < |columns| && |header| == HEADER_SIZE && Migrated(db, columns, region, header, out, db')
    requires HasExtras(db.h, a) && a < db.h.totalRecords && Present(db, a)
    ensures Extras(db'.file, db'.h, a) == MapColumns(Extras(db.file, db.h, a), columns)
  {
    hide Fits, RingEnd, Decode, MapColumns, Pos, OverflowPos, WriteAt, WholeExtras;
    var n, at := db.h.extraParamCount, OverflowPos(db.h, a);
    AdoptedExtras(db, columns, region, header, out, db', a);
    OverflowIsPos(db.h, a);
    OverflowStart(db'.h, a);
    var soFar := out[..OverflowPos(db'.h, a)];
    assert soFar[at..at + 2 * n] == db.file[at..at + 2 * n];
    PaddedShared(db.file, at, soFar, at, n);
  }

  lemma RegionCopied(db: Db, columns: seq<Option<nat>>, region: Bytes, header: Bytes, out: Bytes, db': Db, a: nat)
    requires Shape(db) && 0 < |columns| && |header| == HEADER_SIZE && Migrated(db, columns, region, header, out, db')
    requires UnderRegion(db, a) && db.h.extraParamCount > 0 && a < db.h.totalRecords
    ensures |region| == OVERFLOW_HEADER_SIZE && Extras(db.file, db.h, a) == ZeroVals(db.h.extraParamCount)
    ensures var at := OverflowPos(db.h, a) - |db.file|;
            Extras(db'.file, db'.h, a) == MapColumns(Decode(region, at, db.h.extraParamCount), columns)
  {
    hide Fits, RingEnd, Decode, MapColumns, Pos, OverflowPos, WriteAt, WholeExtras;
    AdoptedExtras(db, columns, region, header, out, db', a);
    OverflowIsPos(db.h, a);
    OverflowStart(db'.h, a);
    var soFar, n := out[..OverflowPos(db'.h, a)], db.h.extraParamCount;
    var p := OverflowPos(db.h, a);
    var at := p - |db.file|;
    RegionShared(db.file, region, out, 2 * |columns|, OverflowRows(db.h), OverflowPos(db'.h, a), at, 2 * n);
    PaddedShared(region, at, soFar, p, n);
  }

  lemma RegionShared(f: Bytes, region: Bytes, out: Bytes, width: nat, count: nat, end: nat, at: nat, n: nat)
    requires Extends(f, region, out, width, count) && |f| + OVERFLOW_HEADER_SIZE <= end <= |out|
    requires at + n <= OVERFLOW_HEADER_SIZE
    ensures out[..end][|f| + at..|f| + at + n] == region[at..at + n]
  {
    hide Pos;
    var a, b := out[..end][|f| + at..|f| + at + n], region[at..at + n];
    forall i | 0 <= i < n
      ensures a[i] == b[i]
    {
      assert out[|f| + (at + i)] == region[at + i];
    }
  }

  /** The adopted extras of record `a` are the mapped values that the copy read. */
  lemma AdoptedExtras(db: Db, columns: seq<Option<nat>>, region: Bytes, header: Bytes, out: Bytes, db': Db, a: nat)
    requires Shape(db) && 0 < |columns| && |header| == HEADER_SIZE && Migrated(db, columns, region, header, out, db')
    requires HasExtras(db.h, a) && a < db.h.totalRecords
    ensures OverflowPos(db'.h, a) <= |out|
    ensures Extras(db'.file, db'.h, a) ==
            MapColumns(Padded(out[..OverflowPos(db'.h, a)], OverflowPos(db.h, a), db.h.extraParamCount), columns)
  {
    hide Fits, RingEnd, Decode, WriteAt, MapColumns, Pos, OverflowPos, Padded, WholeExtras;
    assert RecordCopied(db, out, columns, a);
    OverflowIsPos(db.h, a);
    OverflowIsPos(db'.h, a);
    OverflowStart(db'.h, a);
    HeaderAside(out, header, OverflowPos(db'.h, a), |columns|, db.file);
  }

  lemma HeaderAside(out: Bytes, header: Bytes, at: nat, n: nat, f: Bytes)
    requires |header| <= |f| <= at && at + 2 * n <= |out|
    ensures at + 2 * n <= |WriteAt(out, 0, header)|
    ensures Decode(WriteAt(out, 0, header), at, n) == Decode(out, at, n)
  {
    hide Decode;
    DecodeAside(out, 0, header, at, n);
  }

  // The log

  /** A log row under the new extra columns: rows written before the region existed stay as they
      are. */
  function MigratedRow(r: Row, np: nat, columns: seq<Option<nat>>): Row {
    if |r.vals| > np then Row(r.ts, r.vals[..np] + MapColumns(r.vals[np..], columns)) else r
  }

  function MigratedLog(log: seq<Row>, np: nat, columns: seq<Option<nat>>): (r: seq<Row>)
    ensures |r| == |log| && forall i :: 0 <= i < |log| ==> r[i] == MigratedRow(log[i], np, columns)
  {
    seq(|log|, i requires 0 <= i < |log| => MigratedRow(log[i], np, columns))
  }

  lemma MigratedKept(db: Db, log: seq<Row>, columns: seq<Option<nat>>, region: Bytes, header: Bytes, out: Bytes,
                     db': Db, a: nat)
    requires Inv(db, log) && db.h.extraParamCount > 0 && 0 < |columns|
    requires |header| == HEADER_SIZE && Migrated(db, columns, region, header, out, db') && InWindow(db.h, a)
    requires Present(db, a)
    ensures Kept(db', MigratedLog(log, db.h.numParams, columns), a)
  {
    hide Fits, RingEnd, RowAt, Ready, BlockOf, SlotOf, Extras, OverflowPos, Pos, WriteAt, MapColumns, WholeExtras;
    assert Kept(db, log, a);
    KeptHasBlock(db, log, a);
    var g := GeometryOf(db.h);
    SameSlotOf(db.h, db'.h, a);
    RowKept(db.file, out, header, g, SlotOf(db.h, a));
    ReadyKept(db.file, out, header, g, SlotOf(db.h, a));
    var r := LogRow(db.h, log, a);
    assert LogRow(db'.h, MigratedLog(log, g.np, columns), a) == MigratedRow(r, g.np, columns);
    if HasExtras(db.h, a) {
      ExtrasCopied(db, columns, region, header, out, db', a);
      var m := MigratedRow(r, g.np, columns);
      assert m.vals[..g.np] == r.vals[..g.np] && m.vals[g.np..] == MapColumns(r.vals[g.np..], columns);
    }
  }

  /** The new region ends with the extras of the newest record. */
  lemma MigratedWhole(db: Db, columns: seq<Option<nat>>, region: Bytes, header: Bytes, out: Bytes, db': Db)
    requires Shape(db) && db.h.extraParamCount > 0 && 0 < |columns| && |header| == HEADER_SIZE
    requires Migrated(db, columns, region, header, out, db')
    ensures |db'.file| == |out| && WholeExtras(db'.h, db'.file)
  {
    hide Fits, RingEnd, Pos, OverflowPos, RecordCopied;
    var h, t := db'.h, db'.h.totalRecords;
    OverflowIsPos(h, t);
    forall a: nat | HasExtras(h, a)
      ensures |out| <= OverflowPos(h, a) || OverflowPos(h, a) + 2 * h.extraParamCount <= |out|
    {
      if a < t {
        OverflowOrder(h, a, t);
      } else if t < a {
        OverflowOrder(h, t, a);
      }
    }
  }

  lemma ReadyKept(f: Bytes, out: Bytes, header: Bytes, g: Geometry, slot: nat)
    requires g.Valid() && Ready(f, g, BlockOf(g, slot)) && |header| <= g.dataOffset
    requires |f| <= |out| && forall p :: 0 <= p < |f| ==> out[p] == f[p]
    ensures Ready(WriteAt(out, 0, header), g, BlockOf(g, slot))
  {
    hide Fits, BlockOf, Magic, GetRow;
    assert BlockAt(out, g, BlockOf(g, slot)) == BlockAt(f, g, BlockOf(g, slot));
    RowBehind(out, g, slot, header);
  }

  /** The migrated database keeps the newest rows of the log under its new columns. */
  lemma MigratedKeeps(db: Db, log: seq<Row>, columns: seq<Option<nat>>, region: Bytes, header: Bytes, out: Bytes,
                      db': Db)
    requires Inv(db, log) && db.h.extraParamCount > 0 && 0 < |columns|
    requires |header| == HEADER_SIZE && Migrated(db, columns, region, header, out, db')
    requires db.h.totalRecords > 0 ==> Present(db, db.h.totalRecords - 1)
    ensures Inv(db', MigratedLog(log, db.h.numParams, columns))
  {
    hide Fits, RingEnd, Kept, SlotOf, RecordCopied, Pos, OverflowPos, WholeExtras, Present;
    var log' := MigratedLog(log, db.h.numParams, columns);
    SameEnd(db.h, db'.h);
    MigratedWhole(db, columns, region, header, out, db');
    forall a: nat | InWindow(db'.h, a)
      ensures Kept(db', log', a)
    {
      assert InWindow(db.h, a);
      AllPresent(db, a);
      MigratedKept(db, log, columns, region, header, out, db', a);
    }
    if db.h.totalRecords > 0 {
      SameSlotOf(db.h, db'.h, db.h.totalRecords - 1);
    }
  }

  // Dropping the region

  /** A reader sees the base columns. */
  lemma DropShowsBase(db: Db, log: seq<Row>, header: Bytes, k: nat)
    requires Inv(db, log) && |header| == HEADER_SIZE && k < Available(db.h)
    ensures var d := DropExtras(db, header);
            && Readable(db, k) && Readable(d, k) && ViewRow(d, k).ts == ViewRow(db, k).ts
            && ViewRow(d, k).vals == ViewRow(db, k).vals[..db.h.numParams]
            && d.h.extraParamCount == d.h.overflowRecordSize == d.h.overflowOffset == d.h.firstOverflowRecordIdx == 0
  {
    hide Fits, RingEnd, RowAt, Ready, BlockOf, SlotOf, LogicalSlot, WholeExtras, OverflowPos, Kept;
    var d, g := DropExtras(db, header), GeometryOf(db.h);
    var a := RecordNumber(db.h, k);
    LogicalOrder(db, k);
    assert Kept(db, log, a);
    KeptHasBlock(db, log, a);
    ReadyHasBlock(db.file, g, BlockOf(g, SlotOf(db.h, a)));
    RowBehind(db.file, g, SlotOf(db.h, a), header);
    ReadyHasBlock(d.file, g, BlockOf(g, SlotOf(db.h, a)));
    SameLogical(db.h, d.h, k);
    NoExtras(d.file, d.h, RecordNumber(d.h, k));
    var base := RowAt(db.file, g, SlotOf(db.h, a));
    assert ViewRow(db, k).vals[..g.np] == base.vals;
    assert ViewRow(d, k).vals == base.vals;
  }

  /** Without new columns the region is forgotten by one header write. */
  function DropExtras(db: Db, header: Bytes): Db {
    db.(h := db.h.(extraParamCount := 0, overflowRecordSize := 0, overflowOffset := 0, firstOverflowRecordIdx := 0),
        file := WriteAt(db.file, 0, header))
  }

  function BaseLog(log: seq<Row>, np: nat): (r: seq<Row>)
    ensures |r| == |log|
    ensures forall i :: 0 <= i < |log| ==>
              r[i] == if |log[i].vals| > np then Row(log[i].ts, log[i].vals[..np]) else log[i]
  {
    seq(|log|, i requires 0 <= i < |log| => if |log[i].vals| > np then Row(log[i].ts, log[i].vals[..np]) else log[i])
  }

  /** The base columns stay as they are. */
  lemma DropKeeps(db: Db, log: seq<Row>, header: Bytes)
    requires Inv(db, log) && |header| == HEADER_SIZE
    ensures Inv(DropExtras(db, header), BaseLog(log, db.h.numParams))
  {
    hide Fits, RingEnd, RowAt, Ready, BlockOf, SlotOf, Extras, OverflowPos;
    var d, log' := DropExtras(db, header), BaseLog(log, db.h.numParams);
    var np := db.h.numParams;
    forall a: nat | InWindow(d.h, a)
      ensures Kept(d, log', a)
    {
      assert InWindow(db.h, a) && Kept(db, log, a);
      SameSlotOf(db.h, d.h, a);
      RowBehind(db.file, GeometryOf(db.h), SlotOf(db.h, a), header);
      var r := LogRow(db.h, log, a);
      assert r.vals[..np][..np] == r.vals[..np];
      assert |r.vals| == np ==> r.vals[..np] == r.vals;
    }
    if db.h.totalRecords > 0 {
      SameSlotOf(db.h, d.h, db.h.totalRecords - 1);
    }
  }
}
