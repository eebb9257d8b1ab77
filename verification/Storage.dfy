/** The database header, its sanity check, and how record slots map to byte ranges of the
    database file. */
module Storage {
  import opened Arith
  import opened Bytes
  import opened Layout

  const DB_MAGIC: u32 := 0x45545344
  const VERSION_WIDE: nat := 4
  const HEADER_SIZE: nat := 584
  const INDEX_ENTRY_SIZE: nat := 8
  const OVERFLOW_HEADER_SIZE: nat := 1024

  datatype Option<+T> = None | Some(value: T)

  /** A name as far as it is stored and compared. */
  function Clipped(s: string, n: nat): string {
    if |s| <= n then s else s[..n]
  }

  /** The header kept in memory, at offset 0 of the file and in the sidecar slots. */
  datatype Header = Header(
    magic: u32, version: nat,
    numParams: nat, paramSize: nat, recordSize: nat, recordsPerBlock: nat,
    maxRecords: nat, totalRecords: nat, oldestRecordIdx: nat, newestRecordIdx: nat,
    oldestTimestamp: u32, newestTimestamp: u32,
    indexOffset: nat, indexEntries: nat, indexStride: nat,
    totalWrites: nat, totalEvictions: nat,
    paramNames: seq<string>,
    baseParams: nat, extraParamCount: nat, overflowRecordSize: nat,
    overflowOffset: nat, firstOverflowRecordIdx: nat)

  /** The cross-field check made on every header that is about to be adopted. */
  predicate IsSane(h: Header) {
    && 0 < h.numParams <= MAX_PARAMS
    && (h.numParams > 16 ==> h.version >= VERSION_WIDE)
    && (h.baseParams != 0 ==> h.baseParams <= h.numParams)
    && (h.paramSize == 0 || h.paramSize == 2)
    && (h.recordSize == 0 || h.recordSize == 4 + h.numParams * 2)
    && 0 < h.recordsPerBlock <= (BLOCK_SIZE - 8) / (4 + h.numParams * 2)
    && 512 <= h.indexOffset <= 0x1_0000
    && h.indexEntries <= 0x10_0000
    && h.indexStride != 0
    && h.maxRecords <= 100_000_000
    && (h.maxRecords > 0 ==> h.totalRecords <= h.maxRecords * 2)
    && (h.extraParamCount > 0 ==>
          h.extraParamCount <= 48 && 0 < h.overflowRecordSize <= BLOCK_SIZE)
  }

  /** The part of a header that fixes where records live. */
  datatype Geometry = Geometry(np: nat, rpb: nat, dataOffset: nat) {
    ghost predicate Valid() {
      0 < np <= MAX_PARAMS && 0 < rpb && Fits(np, rpb)
    }
  }

  function GeometryOf(h: Header): Geometry {
    Geometry(h.numParams, h.recordsPerBlock, h.indexOffset + h.indexEntries * INDEX_ENTRY_SIZE)
  }

  /** A header that passes the sanity check describes blocks whose columns fit. */
  lemma SaneGeometryFits(h: Header)
    requires IsSane(h)
    ensures GeometryOf(h).Valid()
  {
    var width := 4 + h.numParams * 2;
    QuotientFits(BLOCK_SIZE - 8, width);
    MulLe(h.recordsPerBlock, (BLOCK_SIZE - 8) / width, width);
    FitsExactly(h.numParams, h.recordsPerBlock);
  }

  /** And it keeps the code from dividing by zero, from reading columns that no query has room for, and from
      an index or extras of unbounded size. */
  lemma SaneIsSafe(h: Header)
    requires IsSane(h)
    ensures h.recordsPerBlock > 0 && h.indexStride > 0 && 0 < h.numParams <= MAX_PARAMS
    ensures GeometryOf(h).dataOffset <= 0x1_0000 + 0x10_0000 * INDEX_ENTRY_SIZE && h.indexOffset >= 512
    ensures h.extraParamCount > 0 ==> h.extraParamCount <= 48 && 0 < h.overflowRecordSize <= BLOCK_SIZE
    ensures h.numParams > 16 ==> h.version >= 4
    ensures h.baseParams <= h.numParams
    ensures h.recordSize != 0 ==> h.recordSize == 4 + 2 * h.numParams
    ensures h.paramSize != 0 ==> h.paramSize == 2
  {
  }

  function BlockOffset(g: Geometry, n: nat): nat {
    g.dataOffset + n * BLOCK_SIZE
  }

  /** Number of blocks that `records` slots occupy. */
  function Blocks(records: nat, rpb: nat): nat
    requires rpb > 0
  {
    (records + rpb - 1) / rpb
  }

  /** The block that holds a slot, and the record index inside it. */
  function BlockOf(g: Geometry, slot: nat): nat
    requires g.rpb > 0
  {
    slot / g.rpb
  }

  function RecOf(g: Geometry, slot: nat): (rec: nat)
    requires g.rpb > 0
    ensures rec < g.rpb
  {
    slot % g.rpb
  }

  /** Block `n` can be read in full. */
  predicate HasBlock(f: Bytes, g: Geometry, n: nat) {
    BlockOffset(g, n) + BLOCK_SIZE <= |f|
  }

  function BlockAt(f: Bytes, g: Geometry, n: nat): Block
    requires HasBlock(f, g, n)
  {
    f[BlockOffset(g, n)..BlockOffset(g, n) + BLOCK_SIZE]
  }

  /** Block `n` can be read and carries the block magic, so a write keeps its other records. */
  predicate Ready(f: Bytes, g: Geometry, n: nat) {
    HasBlock(f, g, n) && Magic(BlockAt(f, g, n)) == BLOCK_MAGIC
  }

  /** The record held by ring slot `slot`. */
  function RowAt(f: Bytes, g: Geometry, slot: nat): (row: Row)
    requires g.Valid() && HasBlock(f, g, BlockOf(g, slot))
    ensures |row.vals| == g.np
  {
    GetRow(BlockAt(f, g, BlockOf(g, slot)), g.np, g.rpb, RecOf(g, slot))
  }

  /** The block a write starts from: the stored one, or a fresh one when the stored one is
      missing, short or lacks the magic. */
  function LoadForWrite(f: Bytes, g: Geometry, n: nat): Block {
    if Ready(f, g, n) then BlockAt(f, g, n) else FreshBlock()
  }

  /** The block that a write of one record to `slot` puts back. */
  function UpdatedBlock(f: Bytes, g: Geometry, slot: nat, ts: u32, vals: seq<i16>): Block
    requires g.Valid() && g.np <= |vals|
  {
    StoreRecord(LoadForWrite(f, g, BlockOf(g, slot)), g.np, g.rpb, RecOf(g, slot), ts, vals)
  }

  function WriteSlot(f: Bytes, g: Geometry, slot: nat, ts: u32, vals: seq<i16>): Bytes
    requires g.Valid() && g.np <= |vals|
  {
    WriteAt(f, BlockOffset(g, BlockOf(g, slot)), UpdatedBlock(f, g, slot, ts, vals))
  }

  lemma SlotBlock(slot: nat, records: nat, rpb: nat)
    requires rpb > 0 && slot < records
    ensures slot / rpb < Blocks(records, rpb)
  {
    var q := (records + rpb - 1) / rpb;
    assert records + rpb - 1 == q * rpb + (records + rpb - 1) % rpb;
    assert slot == slot / rpb * rpb + slot % rpb;
    if q <= slot / rpb {
      MulLe(q, slot / rpb, rpb);
    }
  }

  lemma SameSlot(s: nat, t: nat, rpb: nat)
    requires rpb > 0 && s / rpb == t / rpb && s % rpb == t % rpb
    ensures s == t
  {
    assert s == s / rpb * rpb + s % rpb;
    assert t == t / rpb * rpb + t % rpb;
  }

  /** Writing anywhere outside block `n` leaves it alone. */
  lemma BlockAside(f: Bytes, g: Geometry, n: nat, at: nat, d: Bytes)
    requires HasBlock(f, g, n)
    requires at + |d| <= BlockOffset(g, n) || BlockOffset(g, n) + BLOCK_SIZE <= at
    ensures HasBlock(WriteAt(f, at, d), g, n)
    ensures BlockAt(WriteAt(f, at, d), g, n) == BlockAt(f, g, n)
  {
    ReadAside(f, at, d, BlockOffset(g, n), BlockOffset(g, n) + BLOCK_SIZE);
  }

  lemma WriteSlotBlock(f: Bytes, g: Geometry, slot: nat, ts: u32, vals: seq<i16>, n: nat)
    requires g.Valid() && g.np <= |vals|
    ensures var r := WriteSlot(f, g, slot, ts, vals);
            if n == BlockOf(g, slot) then HasBlock(r, g, n) && BlockAt(r, g, n) == UpdatedBlock(f, g, slot, ts, vals)
            else HasBlock(f, g, n) ==> HasBlock(r, g, n) && BlockAt(r, g, n) == BlockAt(f, g, n)
  {
    hide UpdatedBlock;
    var d := UpdatedBlock(f, g, slot, ts, vals);
    if n == BlockOf(g, slot) {
      ReadBack(f, BlockOffset(g, n), d);
    } else if HasBlock(f, g, n) {
      BlockAside(f, g, n, BlockOffset(g, BlockOf(g, slot)), d);
    }
  }

  /** A write makes its own block ready and keeps every other block ready. */
  lemma WriteSlotReady(f: Bytes, g: Geometry, slot: nat, ts: u32, vals: seq<i16>, n: nat)
    requires g.Valid() && g.np <= |vals|
    requires n == BlockOf(g, slot) || Ready(f, g, n)
    ensures Ready(WriteSlot(f, g, slot, ts, vals), g, n)
  {
    hide StoreRecord, GetRow, Magic, FreshBlock, WriteSlot, BlockAt, Fits;
    WriteSlotBlock(f, g, slot, ts, vals, n);
    GetStoreRecord(LoadForWrite(f, g, BlockOf(g, slot)), g.np, g.rpb, RecOf(g, slot), ts, vals, 0);
  }

  /** A write puts its record in its slot and leaves every record of a ready block alone. */
  lemma WriteSlotRow(f: Bytes, g: Geometry, slot: nat, ts: u32, vals: seq<i16>, t: nat)
    requires g.Valid() && g.np <= |vals|
    requires t == slot || Ready(f, g, BlockOf(g, t))
    ensures HasBlock(WriteSlot(f, g, slot, ts, vals), g, BlockOf(g, t))
    ensures RowAt(WriteSlot(f, g, slot, ts, vals), g, t) ==
            if t == slot then Row(ts, vals[..g.np]) else RowAt(f, g, t)
  {
    hide StoreRecord, GetRow, Magic, FreshBlock, WriteSlot, BlockAt, Fits;
    WriteSlotBlock(f, g, slot, ts, vals, BlockOf(g, t));
    if BlockOf(g, t) == BlockOf(g, slot) {
      if RecOf(g, t) == RecOf(g, slot) {
        SameSlot(t, slot, g.rpb);
      }
      GetStoreRecord(LoadForWrite(f, g, BlockOf(g, slot)), g.np, g.rpb, RecOf(g, slot), ts, vals, RecOf(g, t));
    }
  }

  /** The 32-bit offset arithmetic of the code. */
  function BlockOffset32(h: Header, n: nat): u32 {
    (h.indexOffset + h.indexEntries * INDEX_ENTRY_SIZE + n * BLOCK_SIZE) % 0x1_0000_0000
  }

  /** It agrees with the unbounded offsets on every block of the ring exactly when the last
      block of the ring starts below 4 GiB. */
  lemma OffsetsExact(h: Header, blocks: nat)
    requires blocks > 0
    ensures (forall n :: 0 <= n < blocks ==> BlockOffset32(h, n) == BlockOffset(GeometryOf(h), n)) <==>
            BlockOffset(GeometryOf(h), blocks - 1) < 0x1_0000_0000
  {
    if BlockOffset(GeometryOf(h), blocks - 1) >= 0x1_0000_0000 {
      assert BlockOffset32(h, blocks - 1) < 0x1_0000_0000;
    }
  }
}
