/** The streaming rewrite behind schema migration and ring resize: one record in, one record out,
    through a cached input block and a reused output block, into a file with new geometry. */
module Rewrite {
  import opened Arith
  import opened Bytes
  import opened Layout
  import opened Storage
  import opened Ring
  import opened Retained
  import opened Index
  import opened Plan

  // Column mapping

  const EXT_NAME_LEN: nat := 20
  const FIXED_NAMES: nat := 16

  /** Names of columns beyond the sixteenth are stored clipped, and compared clipped. */
  predicate SameName(wanted: string, stored: string, column: nat) {
    if column < FIXED_NAMES then wanted == stored
    else Clipped(wanted, EXT_NAME_LEN - 1) == Clipped(stored, EXT_NAME_LEN - 1)
  }

  /** The first sixteen names are compared whole, the others by their first nineteen characters. */
  lemma SameNameIff(wanted: string, stored: string, column: nat)
    ensures SameName(wanted, stored, column) <==>
            || wanted == stored
            || (column >= 16 && |wanted| >= 19 && |stored| >= 19 && wanted[..19] == stored[..19])
  {
    if |wanted| <= 19 && |stored| > 19 && wanted == stored[..19] {
      assert wanted[..19] == wanted;
    }
    if |stored| <= 19 && |wanted| > 19 && stored == wanted[..19] {
      assert stored[..19] == stored;
    }
  }

  predicate NameMatches(wanted: string, names: seq<Option<string>>, j: nat)
    requires j < |names|
  {
    names[j].Some? && SameName(wanted, names[j].value, j)
  }

  /** The first old column, from `j` on, whose name matches. */
  function FindColumn(wanted: string, names: seq<Option<string>>, j: nat): (r: Option<nat>)
    requires j <= |names|
    ensures r.Some? ==> j <= r.value < |names| && NameMatches(wanted, names, r.value)
    ensures forall i :: j <= i < (if r.Some? then r.value else |names|) ==> !NameMatches(wanted, names, i)
    decreases |names| - j
  {
    if j == |names| then None
    else if NameMatches(wanted, names, j) then Some(j)
    else FindColumn(wanted, names, j + 1)
  }

  function ColumnMap(wanted: seq<string>, names: seq<Option<string>>): (m: seq<Option<nat>>)
    ensures |m| == |wanted|
    ensures forall i :: 0 <= i < |m| ==> m[i] == FindColumn(wanted[i], names, 0)
  {
    seq(|wanted|, i requires 0 <= i < |wanted| => FindColumn(wanted[i], names, 0))
  }

  /** Every current column, base and extra, in place: the map of a resize. */
  function IdentityMap(n: nat): (m: seq<Option<nat>>)
    ensures |m| == n && forall i :: 0 <= i < n ==> m[i] == Some(i)
  {
    seq(n, i => Some(i))
  }

  /** A row under the new schema: mapped columns, and zeros for names the old one did not have. */
  function Remap(row: Row, columns: seq<Option<nat>>): (r: Row)
    ensures r.ts == row.ts && |r.vals| == |columns|
    ensures forall i :: 0 <= i < |columns| ==>
              r.vals[i] == if columns[i].Some? && columns[i].value < |row.vals| then row.vals[columns[i].value] else 0
  {
    Row(row.ts, MapColumns(row.vals, columns))
  }

  function RemapAll(rows: seq<Row>, columns: seq<Option<nat>>): (r: seq<Row>)
    ensures |r| == |rows|
    ensures forall k :: 0 <= k < |rows| ==> r[k] == Remap(rows[k], columns)
  {
    seq(|rows|, k requires 0 <= k < |rows| => Remap(rows[k], columns))
  }

  // The output stream

  function RowsIn(g: Geometry, blocks: nat): nat { blocks * g.rpb }

  /** `rows` have been streamed: the first `flushed` blocks are in the file, the rest of the rows
      are in the block buffer. */
  ghost predicate Streamed(out: Bytes, blk: Block, g: Geometry, rows: seq<Row>, flushed: nat) {
    && g.Valid() && RowsIn(g, flushed) <= |rows| <= RowsIn(g, flushed + 1)
    && |out| == BlockOffset(g, flushed) && Magic(blk) == BLOCK_MAGIC
    && (forall j: nat :: j < RowsIn(g, flushed) ==> Holds(out, g, rows, j))
    && (forall r: nat :: RowsIn(g, flushed) + r < |rows| ==>
          r < g.rpb && GetRow(blk, g.np, g.rpb, r) == rows[RowsIn(g, flushed) + r])
  }

  /** Row `j` is in its slot of the output file. */
  ghost predicate Holds(out: Bytes, g: Geometry, rows: seq<Row>, j: nat)
    requires g.Valid() && j < |rows|
  {
    Ready(out, g, BlockOf(g, j)) && RowAt(out, g, j) == rows[j]
  }

  lemma RowsInStep(g: Geometry, n: nat)
    ensures RowsIn(g, n + 1) == RowsIn(g, n) + g.rpb
  {
  }

  lemma RowPlace(g: Geometry, n: nat, r: nat)
    requires g.rpb > 0 && r < g.rpb
    ensures BlockOf(g, RowsIn(g, n) + r) == n && RecOf(g, RowsIn(g, n) + r) == r
  {
    ModUnique(RowsIn(g, n) + r, n, r, g.rpb);
  }

  /** The output block after one more record. */
  function Appended(blk: Block, g: Geometry, rec: nat, row: Row): Block
    requires g.Valid() && rec < g.rpb && |row.vals| == g.np
  {
    RecBelow(g.np, g.rpb);
    PutCount(PutRow(blk, g.np, g.rpb, rec, row.ts, row.vals), rec + 1)
  }

  lemma AppendedRow(blk: Block, g: Geometry, rec: nat, row: Row, r: nat)
    requires g.Valid() && rec < g.rpb && |row.vals| == g.np && r < g.rpb
    ensures GetRow(Appended(blk, g, rec, row), g.np, g.rpb, r) ==
            if r == rec then row else GetRow(blk, g.np, g.rpb, r)
    ensures Magic(Appended(blk, g, rec, row)) == Magic(blk)
  {
    hide GetRow, PutRow, Fits, Magic, PutCount;
    RecBelow(g.np, g.rpb);
    GetPutRow(blk, g.np, g.rpb, rec, row.ts, row.vals, r);
    PutRowMagic(blk, g.np, g.rpb, rec, row.ts, row.vals);
    PutCountAside(PutRow(blk, g.np, g.rpb, rec, row.ts, row.vals), rec + 1, g.np, g.rpb, r);
    assert row.vals[..g.np] == row.vals;
  }

  lemma StreamAppend(out: Bytes, blk: Block, g: Geometry, rows: seq<Row>, flushed: nat, row: Row)
    requires Streamed(out, blk, g, rows, flushed) && |rows| < RowsIn(g, flushed + 1) && |row.vals| == g.np
    ensures RecOf(g, |rows|) == |rows| - RowsIn(g, flushed)
    ensures Streamed(out, Appended(blk, g, RecOf(g, |rows|), row), g, rows + [row], flushed)
  {
    hide GetRow, Fits, Magic, RowsIn, Appended, Ready, RowAt, BlockOf, RecOf;
    RowsInStep(g, flushed);
    var rec := |rows| - RowsIn(g, flushed);
    RowPlace(g, flushed, rec);
    AppendedRow(blk, g, rec, row, 0);
    forall j: nat | j < RowsIn(g, flushed)
      ensures Holds(out, g, rows + [row], j)
    {
      assert Holds(out, g, rows, j);
    }
    forall r: nat | RowsIn(g, flushed) + r < |rows + [row]|
      ensures r < g.rpb
      ensures GetRow(Appended(blk, g, rec, row), g.np, g.rpb, r) == (rows + [row])[RowsIn(g, flushed) + r]
    {
      AppendedRow(blk, g, rec, row, r);
    }
  }

  /** Writing the buffered block puts all streamed rows into the file. */
  lemma StreamFlush(out: Bytes, blk: Block, g: Geometry, rows: seq<Row>, flushed: nat)
    requires Streamed(out, blk, g, rows, flushed)
    ensures var o := WriteAt(out, BlockOffset(g, flushed), blk);
            && |o| == BlockOffset(g, flushed + 1)
            && forall j: nat :: j < |rows| ==> Holds(o, g, rows, j)
  {
    hide GetRow, Fits, Magic, RowsIn, BlockOf, WriteAt;
    var o := WriteAt(out, BlockOffset(g, flushed), blk);
    AppendedLength(out, blk);
    RowsInStep(g, flushed);
    forall j: nat | j < |rows|
      ensures Holds(o, g, rows, j)
    {
      if j < RowsIn(g, flushed) {
        assert Holds(out, g, rows, j);
        BlockBelow(g, flushed, j);
        BlockAside(out, g, BlockOf(g, j), BlockOffset(g, flushed), blk);
      } else {
        var r := j - RowsIn(g, flushed);
        assert GetRow(blk, g.np, g.rpb, r) == rows[RowsIn(g, flushed) + r];
        RowPlace(g, flushed, r);
        ReadBack(out, BlockOffset(g, flushed), blk);
      }
    }
  }

  lemma AppendedLength(f: Bytes, d: Bytes)
    ensures |WriteAt(f, |f|, d)| == |f| + |d|
  {
  }

  lemma BlockBelow(g: Geometry, n: nat, j: nat)
    requires g.rpb > 0 && j < RowsIn(g, n)
    ensures BlockOf(g, j) < n
  {
    DivMod(j, g.rpb);
    var k := n - j / g.rpb;
    assert k * g.rpb == n * g.rpb - j / g.rpb * g.rpb;
    MulSign(k, g.rpb);
  }

  lemma StreamNext(out: Bytes, g: Geometry, rows: seq<Row>, n: nat)
    requires g.Valid() && |rows| == RowsIn(g, n) && |out| == BlockOffset(g, n)
    requires forall j: nat :: j < |rows| ==> Holds(out, g, rows, j)
    ensures Streamed(out, FreshBlock(), g, rows, n)
  {
    hide FreshBlock, GetRow, RowsIn, Holds, Fits, Magic;
    RowsInStep(g, n);
  }

  /** A change in front of the data area disturbs nothing that was streamed. */
  lemma FrontWrite(out: Bytes, o: Bytes, g: Geometry, rows: seq<Row>, j: nat)
    requires g.Valid() && j < |rows| && Holds(out, g, rows, j) && |o| == |out|
    requires forall p :: g.dataOffset <= p < |out| ==> o[p] == out[p]
    ensures Holds(o, g, rows, j)
  {
    hide GetRow, Fits, Magic, BlockOf;
    assert BlockAt(o, g, BlockOf(g, j)) == BlockAt(out, g, BlockOf(g, j));
  }

  lemma StreamFront(out: Bytes, o: Bytes, blk: Block, g: Geometry, rows: seq<Row>, flushed: nat)
    requires Streamed(out, blk, g, rows, flushed) && |o| == |out|
    requires forall p :: g.dataOffset <= p < |out| ==> o[p] == out[p]
    ensures Streamed(o, blk, g, rows, flushed)
  {
    hide GetRow, Fits, Magic, BlockOf, Holds, RowsIn;
    RowsInStep(g, flushed);
    forall j: nat | j < RowsIn(g, flushed)
      ensures Holds(o, g, rows, j)
    {
      FrontWrite(out, o, g, rows, j);
    }
  }

  // The index of the new file

  /** Every stride-th streamed row has its entry; the other entries are empty. */
  ghost predicate Indexed(out: Bytes, h: Header, rows: seq<Row>) {
    h.recordsPerBlock > 0 && forall k: nat :: k < h.indexEntries ==> EntryDone(out, h, rows, k)
  }

  ghost predicate EntryDone(out: Bytes, h: Header, rows: seq<Row>, k: nat)
    requires h.recordsPerBlock > 0
  {
    && HasEntry(out, h, k)
    && if IndexSlot(h, k) < |rows|
       then IndexSlot(h, k) < U32_LIMIT && EntryAt(out, h, k) == EntryFor(h, IndexSlot(h, k), rows[IndexSlot(h, k)].ts)
       else EntryAt(out, h, k) == Entry(0, 0)
  }

  /** The entry written with one more row, if it falls on an index slot. */
  function PutIndex(out: Bytes, h: Header, written: nat, ts: u32): (o: Bytes)
    requires h.indexStride > 0 && h.recordsPerBlock > 0 && written < U32_LIMIT
    requires GeometryOf(h).dataOffset <= |out|
    ensures |o| == |out|
    ensures forall p :: GeometryOf(h).dataOffset <= p < |out| ==> o[p] == out[p]
  {
    if OnIndexSlot(h, written) then
      QuotientBelow(written, h.indexStride);
      PutEntry(out, h, written / h.indexStride, EntryFor(h, written, ts))
    else out
  }

  lemma PutIndexKeeps(out: Bytes, h: Header, rows: seq<Row>, row: Row)
    requires Indexed(out, h, rows) && h.indexStride > 0 && |rows| + 1 < U32_LIMIT
    requires GeometryOf(h).dataOffset <= |out|
    ensures Indexed(PutIndex(out, h, |rows|, row.ts), h, rows + [row])
  {
    hide EntryAt, EntryFor, PutEntry;
    var o := PutIndex(out, h, |rows|, row.ts);
    DivMod(|rows|, h.indexStride);
    forall k: nat | k < h.indexEntries
      ensures EntryDone(o, h, rows + [row], k)
    {
      assert EntryDone(out, h, rows, k);
      if IndexSlot(h, k) == |rows| {
        ModUnique(|rows|, k, 0, h.indexStride);
      }
      if OnIndexSlot(h, |rows|) {
        GetPutEntry(out, h, |rows| / h.indexStride, EntryFor(h, |rows|, row.ts), k);
      }
    }
  }

  lemma DataKeepsIndex(out: Bytes, h: Header, rows: seq<Row>, at: nat, d: Bytes)
    requires Indexed(out, h, rows) && GeometryOf(h).dataOffset <= at
    ensures Indexed(WriteAt(out, at, d), h, rows)
  {
    hide EntryAt, EntryFor;
    var o := WriteAt(out, at, d);
    forall k: nat | k < h.indexEntries
      ensures EntryDone(o, h, rows, k)
    {
      assert EntryDone(out, h, rows, k);
      SameEntry(out, o, h, k);
    }
  }

  lemma EmptyIndex(h: Header, n: nat)
    requires h.recordsPerBlock > 0 && GeometryOf(h).dataOffset <= n
    ensures Indexed(Zeros(n), h, [])
  {
    var z := Zeros(n);
    forall k: nat | k < h.indexEntries
      ensures EntryDone(z, h, [], k)
    {
      assert z[h.indexOffset + 8 * k] == 0;
    }
  }

  // The engine

  /** The header of the rewritten database. */
  function NewHeader(h: Header, columns: nat, names: seq<string>, p: Plan, rows: seq<Row>): Header
    requires p.Plan?
  {
    Header(DB_MAGIC, if columns > 16 then VERSION_WIDE else 3, columns, 2, 4 + columns * 2, p.rpb,
           p.newMax, |rows|, 0, if |rows| > 0 then |rows| - 1 else 0,
           if |rows| > 0 then rows[0].ts else 0, if |rows| > 0 then rows[|rows| - 1].ts else 0,
           p.indexOffset, p.indexEntries, h.indexStride, |rows|, 0, names,
           columns, 0, 0, 0, 0)
  }

  /** The plan keeps what is there and what fits the new ring. */
  ghost predicate Sound(db: Db, columns: seq<Option<nat>>, p: Plan) {
    && 0 < |columns| <= MAX_PARAMS
    && p.Plan? && p.retain <= Available(db.h) && (p.newMax > 0 ==> p.retain <= p.newMax)
    && p.rpb == RecordsPerBlock(|columns|) && HEADER_SIZE <= p.indexOffset
  }

  /** The rows of the new database: the newest `retain` retained rows under the new schema. */
  function NewRows(db: Db, columns: seq<Option<nat>>, p: Plan): (rows: seq<Row>)
    requires AllReadable(db) && p.Plan? && p.retain <= Available(db.h)
    ensures |rows| == p.retain
    ensures forall j :: 0 <= j < p.retain ==>
              rows[j] == Remap(View(db)[Available(db.h) - p.retain + j], columns)
  {
    RemapAll(View(db)[Available(db.h) - p.retain..], columns)
  }

  /** The length of a file of `n` streamed records. */
  function StreamedLength(g: Geometry, n: nat): (length: nat)
    requires g.rpb > 0
    ensures length >= g.dataOffset
  {
    BlockOffset(g, Blocks(n, g.rpb))
  }

  lemma LengthAfter(g: Geometry, n: nat, flushed: nat)
    requires g.rpb > 0 && RowsIn(g, flushed) < n <= RowsIn(g, flushed + 1)
    ensures StreamedLength(g, n) == BlockOffset(g, flushed + 1)
  {
    hide Blocks;
    LastSlotBelow(n, g.rpb, flushed);
    LastSlotBelow(n, g.rpb, flushed + 1);
  }

  /** What the engine leaves behind. */
  ghost predicate Rewritten(db: Db, columns: seq<Option<nat>>, names: seq<string>, p: Plan, out: Db)
    requires AllReadable(db) && Sound(db, columns, p)
  {
    var rows := NewRows(db, columns, p);
    && out.h == NewHeader(db.h, |columns|, names, p, rows)
    && !out.adapted && out.indexStale == db.indexStale
    && GeometryOf(out.h).Valid() && |out.file| == StreamedLength(GeometryOf(out.h), |rows|)
    && (forall j: nat :: j < |rows| ==> Holds(out.file, GeometryOf(out.h), rows, j))
    && Indexed(out.file, out.h, rows)
  }

  /** Reads one retained record by logical position, reusing the block read last. An unreadable block is
      reported. */
  method ReadRecord(db: Db, k: nat, buffer: array<byte>, cached: Option<nat>)
    returns (ok: bool, row: Row, cached': Option<nat>)
    requires GeometryOf(db.h).Valid() && buffer.Length == BLOCK_SIZE
    requires cached.Some? ==>
               HasBlock(db.file, GeometryOf(db.h), cached.value) &&
               buffer[..] == BlockAt(db.file, GeometryOf(db.h), cached.value)
    modifies buffer
    ensures ok == Readable(db, k)
    ensures ok ==> row == ViewRow(db, k)
    ensures cached'.Some? ==>
              HasBlock(db.file, GeometryOf(db.h), cached'.value) &&
              buffer[..] == BlockAt(db.file, GeometryOf(db.h), cached'.value)
  {
    hide Fits, BlockOf, RecOf, LogicalSlot, GetRow, BlockAt, Decode, OverflowPos;
    var g := GeometryOf(db.h);
    var slot := LogicalSlot(db.h, k);
    var n := BlockOf(g, slot);
    ok, row, cached' := true, Row(0, []), cached;
    if cached != Some(n) {
      if !HasBlock(db.file, g, n) {
        return false, row, cached;
      }
      CopyInto(buffer, BlockAt(db.file, g, n));
    }
    cached' := Some(n);
    var base := GetRow(buffer[..], g.np, g.rpb, RecOf(g, slot));
    row := Row(base.ts, base.vals + Extras(db.file, db.h, RecordNumber(db.h, k)));
  }

  /** Puts one record into the output block. */
  method AppendInPlace(a: array<byte>, g: Geometry, rec: nat, row: Row)
    requires a.Length == BLOCK_SIZE && g.Valid() && rec < g.rpb && |row.vals| == g.np
    modifies a
    ensures a[..] == Appended(old(a[..]), g, rec, row)
  {
    hide PutVals;
    CellInside(g.np, g.rpb, 0, rec);
    RecBelow(g.np, g.rpb);
    PutByte32(a, TsPos(rec), row.ts);
    PutValsInPlace(a, g.np, g.rpb, rec, row.vals);
    PutByte16(a, 4, rec + 1);
  }

  /** `written` of the `rows` are in the new file or in its output block. */
  ghost predicate Progress(out: Bytes, blk: Block, nh: Header, rows: seq<Row>, written: nat, flushed: nat) {
    var g := GeometryOf(nh);
    && g.Valid() && written <= |rows| && g.dataOffset <= |out|
    && Indexed(out, nh, rows[..written])
    && (written < |rows| || |rows| == 0 ==>
          Streamed(out, blk, g, rows[..written], flushed) && written < RowsIn(g, flushed + 1))
    && (written == |rows| ==>
          && |out| == StreamedLength(g, written)
          && forall j: nat :: j < written ==> Holds(out, g, rows, j))
  }

  /** One record out: into the block, its index entry into the file, and the block into the file
      when it is full or the last, where it may be `refused`. */
  method StreamOne(out: Bytes, output: array<byte>, nh: Header, ghost rows: seq<Row>, total: nat, written: nat,
                   row: Row, refused: bool, ghost flushed: nat)
    returns (ok: bool, out': Bytes, ghost flushed': nat)
    requires output.Length == BLOCK_SIZE && nh.indexStride > 0 && |rows| == total && total + 1 < U32_LIMIT
    requires Progress(out, output[..], nh, rows, written, flushed)
    requires written < total && row == rows[written] && |row.vals| == nh.numParams
    modifies output
    ensures !refused ==> ok
    ensures ok ==> Progress(out', output[..], nh, rows, written + 1, flushed')
  {
    hide Fits, GetRow, Magic, Holds, RowsIn, Indexed, Appended, FreshBlock, BlockOf, RecOf, PutIndex, Streamed,
         BlockOffset;
    var g := GeometryOf(nh);
    var rec := RecOf(g, written);
    StreamAppend(out, output[..], g, rows[..written], flushed, row);
    AppendInPlace(output, g, rec, row);
    ghost var done := rows[..written + 1];
    assert rows[..written] + [row] == done;
    PutIndexKeeps(out, nh, rows[..written], row);
    out' := PutIndex(out, nh, written, row.ts);
    StreamFront(out, out', output[..], g, done, flushed);
    RowsLeft(out', output[..], g, done, flushed, written);
    StreamBlock(out', output[..], g, done, flushed);
    ok, flushed' := true, flushed;
    if rec == g.rpb - 1 || written + 1 == total {
      if refused {
        return false, out', flushed';
      }
      var at := BlockOffset(g, BlockOf(g, written));
      StreamFlush(out', output[..], g, done, flushed);
      DataKeepsIndex(out', nh, done, at, output[..]);
      out' := WriteAt(out', at, output[..]);
      CopyInto(output, FreshBlock());
      if rec == g.rpb - 1 {
        StreamNext(out', g, done, flushed + 1);
        flushed' := flushed + 1;
      }
      HoldsPrefix(out', g, rows, written + 1);
      if written + 1 == total {
        LengthAfter(g, written + 1, flushed);
      }
    }
  }

  lemma RowsLeft(out: Bytes, blk: Block, g: Geometry, rows: seq<Row>, flushed: nat, written: nat)
    requires Streamed(out, blk, g, rows, flushed) && |rows| == written + 1
    requires g.rpb > 0 && RecOf(g, written) == written - RowsIn(g, flushed)
    ensures |rows| > RowsIn(g, flushed)
  {
  }

  lemma NewGeometry(columns: nat, nh: Header, p: Plan)
    requires 0 < columns <= MAX_PARAMS && p.Plan? && p.rpb == RecordsPerBlock(columns)
    requires nh.numParams == columns && nh.recordsPerBlock == p.rpb
    ensures GeometryOf(nh).Valid()
  {
  }

  /** How many of the `n` records from `skip` on can be read before the first one that cannot. */
  function ReadableRun(db: Db, skip: nat, n: nat): (w: nat)
    ensures w <= n && (forall k: nat :: skip <= k < skip + w ==> Readable(db, k)) && (w < n ==> !Readable(db, skip + w))
  {
    if n == 0 then 0
    else
      var w := ReadableRun(db, skip, n - 1);
      if w == n - 1 && Readable(db, skip + w) then n else w
  }

  /** The copy of record `k`, where it can be read. */
  function CopyOf(db: Db, columns: seq<Option<nat>>, k: nat): (row: Row)
    requires GeometryOf(db.h).Valid()
    ensures |row.vals| == |columns|
  {
    if Readable(db, k) then Remap(ViewRow(db, k), columns) else Row(0, ZeroVals(|columns|))
  }

  function CopiesFrom(db: Db, columns: seq<Option<nat>>, skip: nat, n: nat): (rows: seq<Row>)
    requires GeometryOf(db.h).Valid()
    ensures |rows| == n && forall j :: 0 <= j < n ==> rows[j] == CopyOf(db, columns, skip + j)
  {
    seq(n, j requires 0 <= j < n => CopyOf(db, columns, skip + j))
  }

  function FullBlocks(g: Geometry, n: nat): nat
    requires g.rpb > 0
  {
    n / g.rpb
  }

  /** `rows` were streamed, but only their full blocks are in the file. */
  ghost predicate StopsShort(out: Bytes, g: Geometry, rows: seq<Row>) {
    && g.Valid() && |out| == BlockOffset(g, FullBlocks(g, |rows|)) && RowsIn(g, FullBlocks(g, |rows|)) <= |rows|
    && forall j: nat :: j < RowsIn(g, FullBlocks(g, |rows|)) ==> Holds(out, g, rows, j)
  }

  lemma StreamedStops(out: Bytes, blk: Block, g: Geometry, rows: seq<Row>, flushed: nat)
    requires Streamed(out, blk, g, rows, flushed) && |rows| < RowsIn(g, flushed + 1)
    ensures StopsShort(out, g, rows)
  {
    hide GetRow, Fits, Magic, BlockOf, Holds, BlockOffset;
    ModUnique(|rows|, flushed, |rows| - RowsIn(g, flushed), g.rpb);
  }

  /** The streaming copy: retained records from `skip` on, oldest first, into the new file. It stops at
      the first record that cannot be read, and is given up when the block flushed with record
      `refusedAt` is refused. */
  method StreamRows(db: Db, columns: seq<Option<nat>>, nh: Header, skip: nat, available: nat, refusedAt: Option<nat>)
    returns (ok: bool, out: Bytes, written: nat, oldest: u32, newest: u32)
    requires GeometryOf(db.h).Valid() && GeometryOf(nh).Valid() && nh.indexStride > 0 && nh.numParams == |columns|
    requires skip <= available && available - skip + 1 < U32_LIMIT
    ensures refusedAt.None? ==> ok
    ensures ok ==> written == ReadableRun(db, skip, available - skip)
    ensures ok ==>
              var rows := CopiesFrom(db, columns, skip, written);
              && GeometryOf(nh).dataOffset <= |out| && Indexed(out, nh, rows)
              && (if written == available - skip
                  then
                    && |out| == StreamedLength(GeometryOf(nh), written)
                    && forall j: nat :: j < |rows| ==> Holds(out, GeometryOf(nh), rows, j)
                  else StopsShort(out, GeometryOf(nh), rows))
              && oldest == (if |rows| > 0 then rows[0].ts else 0)
              && newest == (if |rows| > 0 then rows[|rows| - 1].ts else 0)
  {
    hide Fits, Holds, Indexed, FreshBlock, ViewRow, Progress, BlockAt, StopsShort, Readable, LogicalSlot;
    ghost var rows := CopiesFrom(db, columns, skip, available - skip);
    out := Zeros(GeometryOf(nh).dataOffset);
    var input, output := new byte[BLOCK_SIZE], new byte[BLOCK_SIZE];
    CopyInto(output, FreshBlock());
    var cached: Option<nat> := None;
    ghost var flushed := 0;
    ok, written, oldest, newest := true, 0, 0, 0;
    ProgressStart(nh, rows);
    for k := skip to available
      invariant ok && written == k - skip
      invariant forall i: nat :: skip <= i < k ==> Readable(db, i)
      invariant cached.Some? ==> HasBlock(db.file, GeometryOf(db.h), cached.value) &&
                                 input[..] == BlockAt(db.file, GeometryOf(db.h), cached.value)
      invariant Progress(out, output[..], nh, rows, written, flushed)
      invariant oldest == (if written > 0 then rows[0].ts else 0)
      invariant newest == (if written > 0 then rows[written - 1].ts else 0)
    {
      var readable, row;
      readable, row, cached := ReadRecord(db, k, input, cached);
      if !readable {
        ProgressStops(out, output[..], nh, rows, written, flushed);
        assert rows[..written] == CopiesFrom(db, columns, skip, written);
        return;
      }
      assert rows[written] == CopyOf(db, columns, k);
      if k == skip {
        oldest := row.ts;
      }
      newest := row.ts;
      ok, out, flushed := StreamOne(out, output, nh, rows, available - skip, written, Remap(row, columns),
                                    refusedAt == Some(written), flushed);
      if !ok {
        return;
      }
      written := written + 1;
    }
    ProgressEnd(out, output[..], nh, rows, flushed);
  }

  lemma ProgressStops(out: Bytes, blk: Block, nh: Header, rows: seq<Row>, written: nat, flushed: nat)
    requires Progress(out, blk, nh, rows, written, flushed) && written < |rows|
    ensures GeometryOf(nh).dataOffset <= |out| && Indexed(out, nh, rows[..written])
    ensures StopsShort(out, GeometryOf(nh), rows[..written])
  {
    hide Streamed, Indexed, StopsShort, Holds, RowsIn, Fits;
    StreamedStops(out, blk, GeometryOf(nh), rows[..written], flushed);
  }

  /** Where everything can be read, the copies are the retained rows under the new schema. */
  lemma CopiesAreNewRows(db: Db, columns: seq<Option<nat>>, p: Plan)
    requires AllReadable(db) && p.Plan? && p.retain <= Available(db.h)
    ensures var skip := Available(db.h) - p.retain;
            && ReadableRun(db, skip, p.retain) == p.retain
            && CopiesFrom(db, columns, skip, p.retain) == NewRows(db, columns, p)
  {
    hide ViewRow, Remap, Readable, ReadableRun, CopiesFrom, NewRows, CopyOf;
    var skip := Available(db.h) - p.retain;
    var copies, rows := CopiesFrom(db, columns, skip, p.retain), NewRows(db, columns, p);
    forall j | 0 <= j < p.retain
      ensures copies[j] == rows[j]
    {
      CopyShown(db, columns, skip + j);
    }
  }

  lemma CopyShown(db: Db, columns: seq<Option<nat>>, k: nat)
    requires AllReadable(db) && k < Available(db.h)
    ensures CopyOf(db, columns, k) == Remap(View(db)[k], columns)
  {
    hide ViewRow, Remap;
    AllReadableAt(db, k);
  }

  lemma ProgressStart(nh: Header, rows: seq<Row>)
    requires GeometryOf(nh).Valid()
    ensures Progress(Zeros(GeometryOf(nh).dataOffset), FreshBlock(), nh, rows, 0, 0)
  {
    hide Streamed, Indexed, FreshBlock, Holds, Fits;
    EmptyIndex(nh, GeometryOf(nh).dataOffset);
    NothingStreamed(Zeros(GeometryOf(nh).dataOffset), GeometryOf(nh));
    assert rows[..0] == [];
  }

  lemma ProgressEnd(out: Bytes, blk: Block, nh: Header, rows: seq<Row>, flushed: nat)
    requires Progress(out, blk, nh, rows, |rows|, flushed)
    ensures GeometryOf(nh).Valid() && |out| == StreamedLength(GeometryOf(nh), |rows|) && Indexed(out, nh, rows)
    ensures forall j: nat :: j < |rows| ==> Holds(out, GeometryOf(nh), rows, j)
  {
    assert rows[..|rows|] == rows;
  }

  lemma AllReadableAt(db: Db, k: nat)
    requires AllReadable(db) && k < Available(db.h)
    ensures Readable(db, k)
  {
  }

  lemma NothingStreamed(out: Bytes, g: Geometry)
    requires g.Valid() && g.dataOffset == |out|
    ensures Streamed(out, FreshBlock(), g, [], 0) && 0 < RowsIn(g, 1)
  {
    hide FreshBlock, GetRow, Holds, Fits, Magic;
    StreamNext(out, g, [], 0);
  }

  lemma HoldsPrefix(out: Bytes, g: Geometry, rows: seq<Row>, n: nat)
    requires g.Valid() && n <= |rows| && forall j: nat :: j < n ==> Holds(out, g, rows[..n], j)
    ensures forall j: nat :: j < n ==> Holds(out, g, rows, j)
  {
    hide Ready, RowAt, BlockOf, Fits;
    forall j: nat | j < n
      ensures Holds(out, g, rows, j)
    {
      assert Holds(out, g, rows[..n], j);
    }
  }

  /** Where the streamed rows end: in block `flushed`, at its last record exactly when it is full. */
  lemma StreamBlock(out: Bytes, blk: Block, g: Geometry, rows: seq<Row>, flushed: nat)
    requires Streamed(out, blk, g, rows, flushed) && |rows| > RowsIn(g, flushed)
    ensures BlockOf(g, |rows| - 1) == flushed
    ensures RecOf(g, |rows| - 1) == |rows| - 1 - RowsIn(g, flushed)
    ensures RecOf(g, |rows| - 1) == g.rpb - 1 <==> |rows| == RowsIn(g, flushed + 1)
    ensures g.dataOffset <= |out| && BlockOffset(g, flushed) >= g.dataOffset
    ensures |rows| == RowsIn(g, flushed + 1) ==> |rows| < RowsIn(g, flushed + 2)
    ensures RowsIn(g, flushed) <= |rows| <= RowsIn(g, flushed + 1)
  {
    hide GetRow, Fits, Magic, BlockOf, Holds, RowsIn, RecOf;
    RowsInStep(g, flushed);
    RowsInStep(g, flushed + 1);
    RowPlace(g, flushed, |rows| - 1 - RowsIn(g, flushed));
  }

  lemma IndexedSame(out: Bytes, h: Header, h': Header, rows: seq<Row>)
    requires Indexed(out, h, rows) && h'.indexOffset == h.indexOffset && h'.indexEntries == h.indexEntries
    requires h'.indexStride == h.indexStride && h'.recordsPerBlock == h.recordsPerBlock
    ensures Indexed(out, h', rows)
  {
    forall k: nat | k < h'.indexEntries
      ensures EntryDone(out, h', rows, k)
    {
      assert EntryDone(out, h, rows, k);
    }
  }

  /** What the engine leaves behind when it stops at an unreadable block: a header that counts the
      `w` records copied so far, over a file that has the full blocks of them. */
  ghost predicate Stopped(db: Db, columns: seq<Option<nat>>, names: seq<string>, p: Plan, w: nat, out: Db)
    requires GeometryOf(db.h).Valid() && Sound(db, columns, p)
  {
    var rows := CopiesFrom(db, columns, Available(db.h) - p.retain, w);
    && out.h == NewHeader(db.h, |columns|, names, p, rows)
    && StopsShort(out.file, GeometryOf(out.h), rows) && Indexed(out.file, out.h, rows)
  }

  /** The whole rewrite of an open database under a sound plan. */
  method RewriteDatabase(db: Db, columns: seq<Option<nat>>, names: seq<string>, p: Plan, refusedAt: Option<nat>)
    returns (result: Option<Db>)
    requires Shape(db) && Sound(db, columns, p) && db.h.totalRecords + 1 < U32_LIMIT
    ensures refusedAt.None? ==> result.Some?
    ensures result.Some? && AllReadable(db) ==> Rewritten(db, columns, names, p, result.value)
    ensures var w := ReadableRun(db, Available(db.h) - p.retain, p.retain);
            result.Some? && w < p.retain ==> Stopped(db, columns, names, p, w, result.value)
  {
    hide Fits, Holds, Indexed, View, AllReadable, RecordsPerBlock, NewRows, StopsShort, RingEnd, WholeExtras,
         CopiesFrom,
         ReadableRun, Rewritten, Stopped, CopyOf;
    var nh := NewHeader(db.h, |columns|, names, p, []);
    NewGeometry(|columns|, nh, p);
    var available := Available(db.h);
    var skip := available - p.retain;
    var ok, file, w, oldest, newest := StreamRows(db, columns, nh, skip, available, refusedAt);
    if !ok {
      return None;
    }
    var h := nh.(totalRecords := w, totalWrites := w, newestRecordIdx := if w > 0 then w - 1 else 0,
                 oldestTimestamp := oldest, newestTimestamp := newest);
    IndexedSame(file, nh, h, CopiesFrom(db, columns, skip, w));
    result := Some(Db(h, file, false, db.indexStale));
    Assembled(db, columns, names, p, w, result.value);
  }

  /** Header and file of the copy make up what the engine leaves behind. */
  lemma Assembled(db: Db, columns: seq<Option<nat>>, names: seq<string>, p: Plan, w: nat, out: Db)
    requires GeometryOf(db.h).Valid() && Sound(db, columns, p)
    requires w == ReadableRun(db, Available(db.h) - p.retain, p.retain)
    requires !out.adapted && out.indexStale == db.indexStale
    requires GeometryOf(out.h).Valid() && GeometryOf(out.h).dataOffset <= |out.file|
    requires var rows := CopiesFrom(db, columns, Available(db.h) - p.retain, w);
             && out.h == NewHeader(db.h, |columns|, names, p, rows) && Indexed(out.file, out.h, rows)
             && (if w == p.retain
                 then
                   && |out.file| == StreamedLength(GeometryOf(out.h), w)
                   && forall j: nat :: j < |rows| ==> Holds(out.file, GeometryOf(out.h), rows, j)
                 else StopsShort(out.file, GeometryOf(out.h), rows))
    ensures AllReadable(db) ==> Rewritten(db, columns, names, p, out)
    ensures w < p.retain ==> Stopped(db, columns, names, p, w, out)
  {
    hide Fits, Holds, Indexed, View, AllReadable, RecordsPerBlock, NewRows, StopsShort, CopiesFrom, ReadableRun,
         NewHeader;
    if AllReadable(db) {
      CopiesAreNewRows(db, columns, p);
    }
  }

  /** Stopping early loses the records behind the last full block, although the header counts them: the
      new database can be read in full exactly when the copied records fill their blocks. */
  lemma StoppedReadable(db: Db, columns: seq<Option<nat>>, names: seq<string>, p: Plan, w: nat, out: Db, k: nat)
    requires GeometryOf(db.h).Valid() && Sound(db, columns, p) && Stopped(db, columns, names, p, w, out)
    requires w <= p.retain && k < w
    ensures out.h.totalRecords == w == Available(out.h) && GeometryOf(out.h).Valid()
    ensures Readable(out, k) <==> k < RowsIn(GeometryOf(out.h), FullBlocks(GeometryOf(out.h), w))
    ensures Readable(out, k) ==> ViewRow(out, k) == CopyOf(db, columns, Available(db.h) - p.retain + k)
  {
    hide Fits, Ready, RowAt, BlockOf, RowsIn, Indexed, RecordsPerBlock, CopyOf, FullBlocks;
    var g := GeometryOf(out.h);
    var rows := CopiesFrom(db, columns, Available(db.h) - p.retain, w);
    var full := FullBlocks(g, w);
    if out.h.maxRecords > 0 {
      ModSmall(k, out.h.maxRecords);
    }
    assert LogicalSlot(out.h, k) == k;
    if k < RowsIn(g, full) {
      assert Holds(out.file, g, rows, k);
      ReadyHasBlock(out.file, g, BlockOf(g, k));
      assert ViewRow(out, k).vals == RowAt(out.file, g, k).vals;
    } else {
      BlockAtLeast(g, full, k);
    }
  }

  lemma BlockAtLeast(g: Geometry, n: nat, j: nat)
    requires g.rpb > 0 && RowsIn(g, n) <= j
    ensures n <= BlockOf(g, j)
  {
    ModUnique(RowsIn(g, n), n, 0, g.rpb);
    DivMonotone(RowsIn(g, n), j, g.rpb);
  }

  lemma StoppedWholeIff(db: Db, columns: seq<Option<nat>>, names: seq<string>, p: Plan, w: nat, out: Db)
    requires GeometryOf(db.h).Valid() && Sound(db, columns, p) && Stopped(db, columns, names, p, w, out)
    requires w <= p.retain
    ensures AllReadable(out) <==> w % p.rpb == 0
  {
    hide Fits, Indexed, RecordsPerBlock, CopiesFrom, Holds, Readable;
    var g := GeometryOf(out.h);
    DivMod(w, g.rpb);
    forall k: nat | k < w
      ensures out.h.totalRecords == w == Available(out.h)
      ensures Readable(out, k) <==> k < RowsIn(g, FullBlocks(g, w))
    {
      StoppedReadable(db, columns, names, p, w, out, k);
    }
    if w > 0 && w % g.rpb != 0 {
      assert !Readable(out, w - 1);
    }
  }

  /** The rewritten database satisfies the ring invariant for every log that ends in its rows. */
  lemma RewrittenKeeps(db: Db, columns: seq<Option<nat>>, names: seq<string>, p: Plan, out: Db, log: seq<Row>)
    requires Shape(db) && AllReadable(db) && Sound(db, columns, p) && Rewritten(db, columns, names, p, out)
    requires p.retain <= |log| && Newest(log, p.retain) == NewRows(db, columns, p)
    ensures Inv(out, log)
  {
    hide Fits, Ready, RowAt, BlockOf, SlotOf, RingEnd, Indexed, View, AllReadable, NewRows, RecordsPerBlock;
    var rows := NewRows(db, columns, p);
    assert Available(out.h) == p.retain;
    if p.newMax > 0 && p.retain == p.newMax {
      ModAdd(0, p.newMax);
      ModSmall(0, p.newMax);
    }
    forall a: nat | InWindow(out.h, a)
      ensures Kept(out, log, a)
    {
      assert Holds(out.file, GeometryOf(out.h), rows, a);
      SlotLinear(out.h, a);
      assert LogRow(out.h, log, a) == rows[a];
      NewRowWidth(db, columns, p, a);
      assert rows[a].vals[..|columns|] == rows[a].vals;
    }
    if p.retain > 0 {
      SlotLinear(out.h, p.retain - 1);
    }
    assert p.retain > 0 ==> rows[0] == LogRow(out.h, log, 0);
    assert p.retain > 0 ==> rows[p.retain - 1] == LogRow(out.h, log, p.retain - 1);
  }

  lemma NewRowWidth(db: Db, columns: seq<Option<nat>>, p: Plan, j: nat)
    requires AllReadable(db) && p.Plan? && p.retain <= Available(db.h) && j < p.retain
    ensures |NewRows(db, columns, p)[j].vals| == |columns|
  {
    hide View, AllReadable;
  }

  /** The header of the new database: the columns and names asked for, the old stride, and counters that start
      with the rows kept. */
  lemma RewrittenHeader(db: Db, columns: seq<Option<nat>>, names: seq<string>, p: Plan, out: Db)
    requires Shape(db) && AllReadable(db) && Sound(db, columns, p) && Rewritten(db, columns, names, p, out)
    ensures out.h.numParams == out.h.baseParams == |columns| && out.h.paramNames == names
    ensures out.h.extraParamCount == 0 && out.h.indexStride == db.h.indexStride
    ensures out.h.totalRecords == out.h.totalWrites == p.retain && out.h.totalEvictions == out.h.oldestRecordIdx == 0
    ensures out.h.version >= 4 <==> |columns| > 16
  {
    hide Fits, View, AllReadable, NewRows, Indexed, Holds, Shape, RecordsPerBlock;
  }

  /** A reader of the new database sees the new rows. */
  lemma RewrittenView(db: Db, columns: seq<Option<nat>>, names: seq<string>, p: Plan, out: Db)
    requires Shape(db) && AllReadable(db) && Sound(db, columns, p) && Rewritten(db, columns, names, p, out)
    ensures AllReadable(out) && View(out) == NewRows(db, columns, p)
  {
    hide Fits, Inv, Indexed, View, AllReadable, Holds, Fitted, RecordsPerBlock, NewRows, Remap, FittedAll, Shape;
    var rows := NewRows(db, columns, p);
    assert Newest(rows, p.retain) == rows;
    RewrittenKeeps(db, columns, names, p, out, rows);
    ViewIsNewest(out, rows);
    forall k | 0 <= k < p.retain
      ensures View(out)[k] == rows[k]
    {
      NewRowWidth(db, columns, p, k);
      FittedSame(rows[k]);
    }
  }

  /** Meaning is preserved: a reader of the new database sees row `skip + k` of the old view with
      column i taken from the mapped old column, or zero for an unmatched name. */
  lemma RewritePreservesRows(db: Db, columns: seq<Option<nat>>, names: seq<string>, p: Plan, out: Db)
    requires Shape(db) && AllReadable(db) && Sound(db, columns, p) && Rewritten(db, columns, names, p, out)
    ensures AllReadable(out) && |View(out)| == p.retain
    ensures forall k :: 0 <= k < p.retain ==> |View(out)[k].vals| == |columns|
    ensures forall k, i :: 0 <= k < p.retain && 0 <= i < |columns| ==>
              var source := View(db)[Available(db.h) - p.retain + k];
              && View(out)[k].ts == source.ts
              && View(out)[k].vals[i] ==
                 if columns[i].Some? && columns[i].value < |source.vals| then source.vals[columns[i].value] else 0
  {
    hide Fits, Rewritten, View, AllReadable, NewRows, Remap, Shape;
    RewrittenView(db, columns, names, p, out);
  }

  lemma FittedSame(r: Row)
    ensures Fitted(r, |r.vals|) == r
  {
    assert Fitted(r, |r.vals|).vals == r.vals;
  }

  /** The index streamed into the new file is the reference index of the new database. */
  lemma RewrittenIndex(db: Db, columns: seq<Option<nat>>, names: seq<string>, p: Plan, out: Db)
    requires Shape(db) && AllReadable(db) && Sound(db, columns, p) && Rewritten(db, columns, names, p, out)
    ensures HasIndex(out.file, out.h) && IndexInv(out, DiskIndex(out.file, out.h))
  {
    hide Fits, RingEnd, View, AllReadable, EntryAt, NewRows, RecordsPerBlock, Inv, Shape, Holds, EntryDone, EntryInv;
    var rows := NewRows(db, columns, p);
    assert Newest(rows, p.retain) == rows;
    RewrittenKeeps(db, columns, names, p, out, rows);
    InvShape(out, rows);
    forall k: nat | k < out.h.indexEntries
      ensures HasEntry(out.file, out.h, k)
    {
      DoneHasEntry(out.file, out.h, rows, k);
    }
    var index := DiskIndex(out.file, out.h);
    assert Available(out.h) == |rows|;
    forall k: nat | k < |index|
      ensures EntryInv(out, index, k)
    {
      DoneEntry(out, index, rows, k);
    }
  }

  lemma DoneHasEntry(out: Bytes, h: Header, rows: seq<Row>, k: nat)
    requires h.recordsPerBlock > 0 && EntryDone(out, h, rows, k)
    ensures HasEntry(out, h, k)
  {
  }

  /** An entry streamed with its row is the reference entry. */
  lemma DoneEntry(out: Db, index: seq<Entry>, rows: seq<Row>, k: nat)
    requires GeometryOf(out.h).Valid() && k < |index| && Available(out.h) == |rows|
    requires EntryDone(out.file, out.h, rows, k) && HasEntry(out.file, out.h, k)
    requires index[k] == EntryAt(out.file, out.h, k)
    requires IndexSlot(out.h, k) < |rows| ==> Holds(out.file, GeometryOf(out.h), rows, IndexSlot(out.h, k))
    ensures EntryInv(out, index, k)
  {
    hide Fits, RowAt, BlockOf, EntryAt, EntryFor, Ready;
  }
}
