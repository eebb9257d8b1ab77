/** The sparse time index. Writes no longer touch it: folding the header back into the file
    rebuilds it from the stored timestamps. The reference is the index that one update per
    stride-aligned write would have produced. */
module Index {
  import opened Arith
  import opened Bytes
  import opened Layout
  import opened Storage
  import opened Ring

  const FOLD_MAX_BYTES: nat := 16 * 1024

  datatype Entry = Entry(ts: u32, block: u32)

  // The reference: one entry updated on every write that lands on an index slot

  function IndexSlot(h: Header, k: nat): nat { k * h.indexStride }

  /** The index after one more stored record, whose header is `h`. */
  function Touch(index: seq<Entry>, h: Header, ts: u32): (r: seq<Entry>)
    requires h.indexStride > 0 && h.recordsPerBlock > 0
    ensures |r| == |index|
  {
    var slot := h.newestRecordIdx;
    if slot % h.indexStride == 0 && slot / h.indexStride < |index| && slot < U32_LIMIT
    then index[slot / h.indexStride := EntryFor(h, slot, ts)]
    else index
  }

  function EntryFor(h: Header, slot: nat, ts: u32): Entry
    requires h.recordsPerBlock > 0 && slot < U32_LIMIT
  {
    QuotientBelow(slot, h.recordsPerBlock);
    Entry(ts, slot / h.recordsPerBlock)
  }

  lemma QuotientBelow(x: nat, m: nat)
    requires m > 0
    ensures 0 <= x / m <= x
  {
    DivMod(x, m);
    MulLe(1, m, x / m);
  }

  // The index region of the file

  predicate HasEntry(f: Bytes, h: Header, k: nat) {
    h.indexOffset + 8 * k + 8 <= |f|
  }

  function EntryAt(f: Bytes, h: Header, k: nat): Entry
    requires HasEntry(f, h, k)
  {
    Entry(U32(f, h.indexOffset + 8 * k), U32(f, h.indexOffset + 8 * k + 4))
  }

  ghost predicate HasIndex(f: Bytes, h: Header) {
    forall k: nat :: k < h.indexEntries ==> HasEntry(f, h, k)
  }

  /** The whole index as it is on disk. */
  function DiskIndex(f: Bytes, h: Header): (index: seq<Entry>)
    requires HasIndex(f, h)
    ensures |index| == h.indexEntries
    ensures forall k :: 0 <= k < |index| ==> index[k] == EntryAt(f, h, k)
  {
    seq(h.indexEntries, k requires 0 <= k < h.indexEntries => EntryAt(f, h, k))
  }

  function PutEntry(f: Bytes, h: Header, k: nat, e: Entry): (r: Bytes)
    requires HasEntry(f, h, k)
    ensures |r| == |f|
  {
    PutU32(PutU32(f, h.indexOffset + 8 * k, e.ts), h.indexOffset + 8 * k + 4, e.block)
  }

  lemma GetPutEntry(f: Bytes, h: Header, k: nat, e: Entry, j: nat)
    requires HasEntry(f, h, k) && HasEntry(f, h, j)
    ensures EntryAt(PutEntry(f, h, k, e), h, j) == if j == k then e else EntryAt(f, h, j)
  {
    var at, to := h.indexOffset + 8 * j, h.indexOffset + 8 * k;
    hide U32, PutU32;
    var c := PutU32(f, to, e.ts);
    var r := PutEntry(f, h, k, e);
    SameU32(r, c, at);
    if j != k {
      SameU32(c, f, at);
      SameU32(r, c, at + 4);
      SameU32(c, f, at + 4);
    }
  }

  lemma SameEntry(f: Bytes, f': Bytes, h: Header, k: nat)
    requires HasEntry(f, h, k) && HasEntry(f', h, k)
    requires forall p :: h.indexOffset + 8 * k <= p < h.indexOffset + 8 * k + 8 ==> f[p] == f'[p]
    ensures EntryAt(f, h, k) == EntryAt(f', h, k)
  {
  }

  // Rebuilding

  function TsAddress(g: Geometry, slot: nat): nat
    requires g.rpb > 0
  {
    BlockOffset(g, BlockOf(g, slot)) + TsPos(RecOf(g, slot))
  }

  lemma StoredTs(f: Bytes, g: Geometry, slot: nat)
    requires g.Valid() && HasBlock(f, g, BlockOf(g, slot))
    ensures TsAddress(g, slot) + 4 <= |f| && U32(f, TsAddress(g, slot)) == RowAt(f, g, slot).ts
  {
    hide BlockOf;
    CellInside(g.np, g.rpb, 0, RecOf(g, slot));
    var b := BlockAt(f, g, BlockOf(g, slot));
    var p, q := TsPos(RecOf(g, slot)), TsAddress(g, slot);
    assert b[p] == f[q] && b[p + 1] == f[q + 1] && b[p + 2] == f[q + 2] && b[p + 3] == f[q + 3];
  }

  /** The first `n` entries rewritten from the timestamps in their slots. */
  function Rebuild(buf: Bytes, db: Db, n: nat): (r: Bytes)
    requires db.h.recordsPerBlock > 0
    requires n > 0 ==> IndexSlot(db.h, n - 1) < U32_LIMIT && HasEntry(buf, db.h, n - 1)
    ensures |r| == |buf|
  {
    if n == 0 then buf else
      if n > 1 then MulLe(n - 2, n - 1, db.h.indexStride); RebuildOne(Rebuild(buf, db, n - 1), db, n - 1)
      else RebuildOne(buf, db, 0)
  }

  function RebuildOne(buf: Bytes, db: Db, k: nat): (r: Bytes)
    requires db.h.recordsPerBlock > 0 && IndexSlot(db.h, k) < U32_LIMIT && HasEntry(buf, db.h, k)
    ensures |r| == |buf|
  {
    var at := TsAddress(GeometryOf(db.h), IndexSlot(db.h, k));
    if at + 4 <= |db.file| then PutEntry(buf, db.h, k, EntryFor(db.h, IndexSlot(db.h, k), U32(db.file, at)))
    else buf
  }

  /** Number of entries a fold rewrites. */
  function StaleEntries(db: Db): nat
    requires db.h.indexStride > 0
  {
    if !db.indexStale then 0
    else
      var n := Blocks(Available(db.h), db.h.indexStride);
      if n > db.h.indexEntries then db.h.indexEntries else n
  }

  function Prefix(f: Bytes, n: nat): (r: Bytes)
    ensures |r| == n
    ensures forall p :: 0 <= p < n && p < |f| ==> r[p] == f[p]
  {
    if n <= |f| then f[..n] else f + Zeros(n - |f|)
  }

  function FoldLength(db: Db): nat
    requires db.h.indexStride > 0
  {
    if StaleEntries(db) == 0 then 0 else db.h.indexOffset + StaleEntries(db) * INDEX_ENTRY_SIZE
  }

  /** The bytes a fold writes at offset 0: the header, and with it the rebuilt index when there is
      one and it fits the buffer limit. */
  function FoldBytes(db: Db, header: Bytes): Bytes
    requires db.h.recordsPerBlock > 0 && db.h.indexStride > 0 && db.h.totalRecords < U32_LIMIT
  {
    var n := StaleEntries(db);
    if 0 < FoldLength(db) <= FOLD_MAX_BYTES then
      LastSlotBelow(Available(db.h), db.h.indexStride, n - 1);
      WriteAt(Rebuild(Prefix(db.file, FoldLength(db)), db, n), 0, header)
    else header
  }

  function Fold(db: Db, header: Bytes): Db
    requires db.h.recordsPerBlock > 0 && db.h.indexStride > 0 && db.h.totalRecords < U32_LIMIT
  {
    db.(file := WriteAt(db.file, 0, FoldBytes(db, header)), indexStale := false)
  }

  /** Entry `k` is among the rounded-up quotient exactly when its slot is below the bound. */
  lemma LastSlotBelow(n: nat, stride: nat, k: nat)
    requires stride > 0
    ensures k < Blocks(n, stride) <==> k * stride < n
  {
    var x := n + stride - 1;
    DivMod(x, stride);
    if k < x / stride {
      MulLe(k + 1, x / stride, stride);
      assert (k + 1) * stride == k * stride + stride;
    } else {
      MulLe(x / stride, k, stride);
    }
  }

  /** The in-place loop that rebuilds the entries. */
  method RebuildIndex(db: Db, buf: array<byte>, entries: nat)
    requires db.h.recordsPerBlock > 0
    requires entries > 0 ==> IndexSlot(db.h, entries - 1) < U32_LIMIT && HasEntry(buf[..], db.h, entries - 1)
    modifies buf
    ensures buf[..] == Rebuild(old(buf[..]), db, entries)
  {
    hide BlockOf, PutU32, U32, RecOf;
    for k := 0 to entries
      invariant k > 0 ==> IndexSlot(db.h, k - 1) < U32_LIMIT && HasEntry(old(buf[..]), db.h, k - 1)
      invariant buf[..] == Rebuild(old(buf[..]), db, k)
    {
      MulLe(k, entries - 1, db.h.indexStride);
      var slot := IndexSlot(db.h, k);
      var at := TsAddress(GeometryOf(db.h), slot);
      if at + 4 <= |db.file| {
        var e := EntryFor(db.h, slot, U32(db.file, at));
        PutByte32(buf, db.h.indexOffset + 8 * k, e.ts);
        PutByte32(buf, db.h.indexOffset + 8 * k + 4, e.block);
      }
    }
  }

  // Agreement

  /** `index` is the reference index of `db`: entries of written slots describe what the slots
      hold; the others, and all of them when nothing is stale, are the ones on disk. */
  ghost predicate IndexInv(db: Db, index: seq<Entry>) {
    && Shape(db) && |index| == db.h.indexEntries
    && forall k: nat :: k < |index| ==> EntryInv(db, index, k)
  }

  ghost predicate EntryInv(db: Db, index: seq<Entry>, k: nat)
    requires GeometryOf(db.h).Valid() && k < |index|
  {
    var g := GeometryOf(db.h);
    var slot := IndexSlot(db.h, k);
    && HasEntry(db.file, db.h, k)
    && (slot < Available(db.h) ==>
          && slot < U32_LIMIT
          && Ready(db.file, g, BlockOf(g, slot))
          && index[k] == EntryFor(db.h, slot, RowAt(db.file, g, slot).ts))
    && (slot >= Available(db.h) || !db.indexStale ==> EntryAt(db.file, db.h, k) == index[k])
  }

  lemma {:induction false} RebuiltEntry(buf: Bytes, db: Db, n: nat, j: nat)
    requires db.h.recordsPerBlock > 0
    requires n > 0 ==> IndexSlot(db.h, n - 1) < U32_LIMIT && HasEntry(buf, db.h, n - 1)
    requires j < n && TsAddress(GeometryOf(db.h), IndexSlot(db.h, j)) + 4 <= |db.file|
    ensures HasEntry(buf, db.h, j) && IndexSlot(db.h, j) < U32_LIMIT
    ensures EntryAt(Rebuild(buf, db, n), db.h, j) ==
            EntryFor(db.h, IndexSlot(db.h, j), U32(db.file, TsAddress(GeometryOf(db.h), IndexSlot(db.h, j))))
  {
    hide BlockOf, PutU32, U32, RecOf, TsAddress, EntryAt, PutEntry;
    MulLe(j, n - 1, db.h.indexStride);
    if n > 1 {
      MulLe(n - 2, n - 1, db.h.indexStride);
      var c := Rebuild(buf, db, n - 1);
      if j < n - 1 {
        RebuiltEntry(buf, db, n - 1, j);
      }
      var at := TsAddress(GeometryOf(db.h), IndexSlot(db.h, n - 1));
      if at + 4 <= |db.file| {
        GetPutEntry(c, db.h, n - 1, EntryFor(db.h, IndexSlot(db.h, n - 1), U32(db.file, at)), j);
      }
    } else {
      var at := TsAddress(GeometryOf(db.h), IndexSlot(db.h, 0));
      GetPutEntry(buf, db.h, 0, EntryFor(db.h, IndexSlot(db.h, 0), U32(db.file, at)), 0);
    }
  }

  /** A fold writes only in front of the first data block. */
  lemma FoldShort(db: Db, header: Bytes)
    requires Shape(db) && |header| == HEADER_SIZE
    ensures HEADER_SIZE <= |FoldBytes(db, header)| <= GeometryOf(db.h).dataOffset
    ensures |Fold(db, header).file| == |db.file|
    ensures forall p :: |FoldBytes(db, header)| <= p < |db.file| ==> Fold(db, header).file[p] == db.file[p]
  {
    hide Fits, Rebuild, RingEnd, Prefix, Blocks;
  }

  /** Folding the header leaves every record where it was. */
  lemma FoldKept(db: Db, log: seq<Row>, header: Bytes, a: nat)
    requires Shape(db) && |header| == HEADER_SIZE && a < db.h.totalRecords <= |log| && Kept(db, log, a)
    ensures Kept(Fold(db, header), log, a)
  {
    hide Fits, Kept, RingEnd, FoldBytes, Extras, RowAt, Ready, BlockOf, SlotOf, OverflowPos, BlockAt, WholeExtras;
    FoldShort(db, header);
    var bytes := FoldBytes(db, header);
    KeptHasBlock(db, log, a);
    RowBehind(db.file, GeometryOf(db.h), SlotOf(db.h, a), bytes);
    if HasExtras(db.h, a) {
      RingEndBehind(db.h);
      ExtrasBehind(db.file, db.h, a, bytes);
    }
    KeptMoves(db, log, Fold(db, header), log, a);
  }

  lemma FoldShape(db: Db, header: Bytes)
    requires Shape(db) && |header| == HEADER_SIZE
    ensures Shape(Fold(db, header)) && Fold(db, header).h == db.h
  {
    hide Fits, RingEnd, FoldBytes, OverflowPos;
    FoldShort(db, header);
  }

  lemma FoldKeeps(db: Db, log: seq<Row>, header: Bytes)
    requires Inv(db, log) && |header| == HEADER_SIZE
    ensures Inv(Fold(db, header), log)
  {
    hide Kept, Shape, Fold, SlotOf;
    FoldShape(db, header);
    ShapeGeometry(db);
    forall a: nat | InWindow(db.h, a)
      ensures Kept(Fold(db, header), log, a)
    {
      FoldKept(db, log, header, a);
    }
  }

  lemma RingEndBehind(h: Header)
    requires h.recordsPerBlock > 0
    ensures GeometryOf(h).dataOffset <= RingEnd(h)
  {
  }

  /** Neither does a write in front of the overflow region touch any extras. */
  lemma ExtrasBehind(f: Bytes, h: Header, a: nat, d: Bytes)
    requires |d| <= |f| && |d| <= h.overflowOffset
    ensures Extras(WriteAt(f, 0, d), h, a) == Extras(f, h, a)
  {
    hide Decode, OverflowPos;
    if HasExtras(h, a) && OverflowPos(h, a) + 2 * h.extraParamCount <= |f| {
      OverflowStart(h, a);
      DecodeAside(f, 0, d, OverflowPos(h, a), h.extraParamCount);
    }
  }

  lemma RowBehind(f: Bytes, g: Geometry, slot: nat, d: Bytes)
    requires g.Valid() && Ready(f, g, BlockOf(g, slot)) && |d| <= g.dataOffset
    ensures var r := WriteAt(f, 0, d);
            Ready(r, g, BlockOf(g, slot)) && RowAt(r, g, slot) == RowAt(f, g, slot)
  {
    hide Fits, BlockOf, Magic, GetRow, BlockAt;
    BlockAside(f, g, BlockOf(g, slot), 0, d);
  }

  /** After a fold within the buffer limit, entry `k` on disk is the reference entry. */
  lemma FoldEntry(db: Db, index: seq<Entry>, header: Bytes, k: nat)
    requires IndexInv(db, index) && |header| == HEADER_SIZE && k < |index|
    requires FoldLength(db) <= FOLD_MAX_BYTES
    ensures HasEntry(Fold(db, header).file, db.h, k)
    ensures EntryAt(Fold(db, header).file, db.h, k) == index[k]
  {
    hide Fits, RingEnd, EntryAt, BlockOf, RowAt, Ready, TsAddress, Rebuild, RecOf, Blocks, EntryFor, U32;
    FoldShort(db, header);
    assert EntryInv(db, index, k);
    var f' := Fold(db, header).file;
    LastSlotBelow(Available(db.h), db.h.indexStride, k);
    if k < StaleEntries(db) {
      var slot := IndexSlot(db.h, k);
      var g := GeometryOf(db.h);
      ReadyHasBlock(db.file, g, BlockOf(g, slot));
      StoredTs(db.file, g, slot);
      LastSlotBelow(Available(db.h), db.h.indexStride, StaleEntries(db) - 1);
      var buf := Prefix(db.file, FoldLength(db));
      RebuiltEntry(buf, db, StaleEntries(db), k);
      SameEntry(f', Rebuild(buf, db, StaleEntries(db)), db.h, k);
    } else {
      SameEntry(f', db.file, db.h, k);
    }
  }

  /** Rebuilding at fold time gives the index that one update per write gives, provided header and
      index fit the fold buffer of 16 KiB. */
  lemma FoldedIndex(db: Db, index: seq<Entry>, header: Bytes)
    requires IndexInv(db, index) && |header| == HEADER_SIZE
    requires FoldLength(db) <= 0x4000
    ensures IndexInv(Fold(db, header), index)
    ensures HasIndex(Fold(db, header).file, db.h) && DiskIndex(Fold(db, header).file, db.h) == index
  {
    hide Fits, RingEnd, EntryAt, BlockOf, RowAt, Ready, FoldBytes, FoldLength;
    FoldShort(db, header);
    var d := Fold(db, header);
    forall k: nat | k < |index|
      ensures HasEntry(d.file, db.h, k) && EntryAt(d.file, db.h, k) == index[k]
      ensures EntryInv(d, index, k)
    {
      FoldEntry(db, index, header, k);
      assert EntryInv(db, index, k);
      if IndexSlot(db.h, k) < Available(db.h) {
        RowBehind(db.file, GeometryOf(db.h), IndexSlot(db.h, k), FoldBytes(db, header));
      }
    }
  }

  /** Beyond the limit the fold writes the header alone: the index on disk stays as it was, so it
      is the reference index only if it was already. */
  lemma FoldBeyondLimit(db: Db, header: Bytes, k: nat)
    requires Shape(db) && |header| == HEADER_SIZE && k < db.h.indexEntries
    requires FoldLength(db) > 0x4000
    ensures HasEntry(db.file, db.h, k) && HasEntry(Fold(db, header).file, db.h, k)
    ensures EntryAt(Fold(db, header).file, db.h, k) == EntryAt(db.file, db.h, k)
  {
    hide Fits, RingEnd, EntryAt, Rebuild, Blocks;
    FoldShort(db, header);
    SameEntry(Fold(db, header).file, db.file, db.h, k);
  }

  // Writes keep the reference index in step with the slots

  /** A change behind the index region that keeps the records keeps the index invariant. */
  lemma EntryMoves(db: Db, index: seq<Entry>, db': Db, k: nat)
    requires IndexInv(db, index) && k < |index| && GeometryOf(db'.h) == GeometryOf(db.h)
    requires db'.h.indexOffset == db.h.indexOffset && db'.h.indexStride == db.h.indexStride
    requires db'.h.recordsPerBlock == db.h.recordsPerBlock && db'.h.indexEntries == db.h.indexEntries
    requires |db.file| <= |db'.file|
    requires forall p :: db.h.indexOffset <= p < GeometryOf(db.h).dataOffset ==> db'.file[p] == db.file[p]
    requires IndexSlot(db.h, k) < Available(db'.h) ==>
               && IndexSlot(db.h, k) < Available(db.h)
               && Ready(db.file, GeometryOf(db.h), BlockOf(GeometryOf(db.h), IndexSlot(db.h, k)))
               && Ready(db'.file, GeometryOf(db.h), BlockOf(GeometryOf(db.h), IndexSlot(db.h, k)))
               && RowAt(db'.file, GeometryOf(db.h), IndexSlot(db.h, k)).ts ==
                  RowAt(db.file, GeometryOf(db.h), IndexSlot(db.h, k)).ts
    requires IndexSlot(db.h, k) >= Available(db'.h) || !db'.indexStale ==>
               IndexSlot(db.h, k) >= Available(db.h) || !db.indexStale
    ensures EntryInv(db', index, k)
  {
    hide Fits, RingEnd, U32, BlockOf, RowAt, Ready;
    assert EntryInv(db, index, k);
    SameEntry(db.file, db'.file, db.h, k);
  }

  /** Neither a block write nor an append of extras reaches the index region. */
  lemma StoredFileFront(db: Db, ts: u32, vals: seq<i16>, lands: bool)
    requires Shape(db) && |vals| == db.h.numParams + db.h.extraParamCount
    ensures |db.file| <= |StoredFile(db, ts, vals, lands)|
    ensures forall p :: 0 <= p < GeometryOf(db.h).dataOffset ==> StoredFile(db, ts, vals, lands)[p] == db.file[p]
  {
    hide Fits, UpdatedBlock, Encode, SlotOf, BlockOf, OverflowPos, RingEnd;
    LongerFile(db, ts, vals, lands);
    if HasExtras(db.h, db.h.totalRecords) {
      RingEndBehind(db.h);
      OverflowStart(db.h, db.h.totalRecords);
    }
  }

  /** A slot other than the one written keeps its record. */
  lemma OtherSlot(db: Db, ts: u32, vals: seq<i16>, lands: bool, slot: nat)
    requires Shape(db) && |vals| == db.h.numParams + db.h.extraParamCount
    requires slot < Available(db.h) && slot != SlotOf(db.h, db.h.totalRecords)
    requires Ready(db.file, GeometryOf(db.h), BlockOf(GeometryOf(db.h), slot))
    ensures var g := GeometryOf(db.h); var f := StoredFile(db, ts, vals, lands);
            Ready(f, g, BlockOf(g, slot)) && RowAt(f, g, slot) == RowAt(db.file, g, slot)
  {
    hide Fits, BlockOf, RowAt, Ready, WriteSlot, RingEnd, AppendExtras, SlotOf;
    var g := GeometryOf(db.h);
    var s := SlotOf(db.h, db.h.totalRecords);
    SlotLinear(db.h, slot);
    WriteSlotReady(db.file, g, s, ts, vals, BlockOf(g, slot));
    WriteSlotRow(db.file, g, s, ts, vals, slot);
    ExtrasMissBlocks(WriteSlot(db.file, g, s, ts, vals), db.h, vals, lands, slot);
  }

  lemma WrittenSlot(db: Db, ts: u32, vals: seq<i16>, lands: bool)
    requires Shape(db) && |vals| == db.h.numParams + db.h.extraParamCount
    ensures var g := GeometryOf(db.h);
            var f := StoredFile(db, ts, vals, lands);
            var s := SlotOf(db.h, db.h.totalRecords);
            Ready(f, g, BlockOf(g, s)) && RowAt(f, g, s).ts == ts
  {
    hide Fits, BlockOf, RowAt, Ready, WriteSlot, RingEnd, AppendExtras, SlotOf;
    var g := GeometryOf(db.h);
    var s := SlotOf(db.h, db.h.totalRecords);
    WriteSlotReady(db.file, g, s, ts, vals, BlockOf(g, s));
    WriteSlotRow(db.file, g, s, ts, vals, s);
    ExtrasMissBlocks(WriteSlot(db.file, g, s, ts, vals), db.h, vals, lands, db.h.totalRecords);
  }

  /** The window grows by the slot just written, or not at all. */
  lemma WindowGrows(h: Header, h': Header)
    requires Follows(h, h') && h.totalRecords + 1 < U32_LIMIT
    ensures var s := SlotOf(h, h.totalRecords);
            && s < Available(h') && s < U32_LIMIT
            && (Available(h') == Available(h) || (Available(h') == Available(h) + 1 && s == Available(h)))
  {
    if Evicts(h) {
      DivMod(h.totalRecords, h.maxRecords);
    } else {
      SlotLinear(h, h.totalRecords);
    }
  }

  lemma TouchedEntry(index: seq<Entry>, h: Header, ts: u32, k: nat)
    requires h.indexStride > 0 && h.recordsPerBlock > 0 && k < |index| && h.newestRecordIdx < U32_LIMIT
    ensures IndexSlot(h, k) == h.newestRecordIdx ==>
              && h.newestRecordIdx % h.indexStride == 0 && h.newestRecordIdx / h.indexStride == k
              && Touch(index, h, ts)[k] == EntryFor(h, h.newestRecordIdx, ts)
    ensures IndexSlot(h, k) != h.newestRecordIdx ==> Touch(index, h, ts)[k] == index[k]
  {
    hide EntryFor;
    DivMod(h.newestRecordIdx, h.indexStride);
    if IndexSlot(h, k) == h.newestRecordIdx {
      ModUnique(h.newestRecordIdx, k, 0, h.indexStride);
    }
  }

  /** A stored record keeps the invariant of the index, with its own entry updated. */
  lemma StoredIndex(db: Db, index: seq<Entry>, ts: u32, vals: seq<i16>, lands: bool, db': Db)
    requires IndexInv(db, index) && db.h.totalRecords + 1 < U32_LIMIT
    requires |vals| == db.h.numParams + db.h.extraParamCount
    requires Shape(db') && Follows(db.h, db'.h) && db'.file == StoredFile(db, ts, vals, lands)
    requires db'.h.newestRecordIdx == SlotOf(db.h, db.h.totalRecords)
    requires db'.indexStale == (db.indexStale || OnIndexSlot(db.h, SlotOf(db.h, db.h.totalRecords)))
    ensures IndexInv(db', Touch(index, db'.h, ts))
  {
    hide Fits, BlockOf, RowAt, Ready, RingEnd, SlotOf, StoredFile, EntryAt, Touch;
    var index' := Touch(index, db'.h, ts);
    StoredFileFront(db, ts, vals, lands);
    WrittenSlot(db, ts, vals, lands);
    WindowGrows(db.h, db'.h);
    forall k: nat | k < |index'|
      ensures EntryInv(db', index', k)
    {
      TouchedEntry(index, db'.h, ts, k);
      assert EntryInv(db, index, k);
      if IndexSlot(db.h, k) != db'.h.newestRecordIdx {
        if IndexSlot(db.h, k) < Available(db'.h) {
          OtherSlot(db, ts, vals, lands, IndexSlot(db.h, k));
        }
        EntryMoves(db, index, db', k);
      }
    }
  }

  /** Cutting the capacity changes nothing the index looks at. */
  lemma CapIndex(db: Db, log: seq<Row>, index: seq<Entry>)
    requires Inv(db, log) && IndexInv(db, index) && 0 < db.h.totalRecords && !Evicts(db.h)
    ensures IndexInv(Capped(db), index)
  {
    hide Fits, BlockOf, RowAt, Ready, RingEnd, SlotOf, EntryAt, Kept;
    CapKeeps(db, log);
    forall k: nat | k < |index|
      ensures EntryInv(Capped(db), index, k)
    {
      assert EntryInv(db, index, k);
      EntryMoves(db, index, Capped(db), k);
    }
  }

  lemma TornIndex(db: Db, log: seq<Row>, index: seq<Entry>, torn: Torn)
    requires Inv(db, log) && IndexInv(db, index) && Grows(db)
    ensures var g := GeometryOf(db.h);
            var at := BlockOffset(g, BlockOf(g, SlotOf(db.h, db.h.totalRecords)));
            IndexInv(db.(file := TornFile(db.file, at, torn)), index)
  {
    hide Fits, BlockOf, RowAt, Ready, RingEnd, SlotOf, EntryAt, Kept;
    var g := GeometryOf(db.h);
    var n := BlockOf(g, SlotOf(db.h, db.h.totalRecords));
    var d := db.(file := TornFile(db.file, BlockOffset(g, n), torn));
    TornKeeps(db, log, torn);
    TornLonger(db.file, BlockOffset(g, n), torn);
    forall k: nat | k < |index|
      ensures EntryInv(d, index, k)
    {
      assert EntryInv(db, index, k);
      if IndexSlot(db.h, k) < Available(db.h) {
        TornRow(db.file, g, IndexSlot(db.h, k), n, torn);
      }
      EntryMoves(db, index, d, k);
    }
  }

  lemma {:induction false} StoreIndex(db: Db, log: seq<Row>, index: seq<Entry>, ts: u32, vals: seq<i16>, env: Env,
                                      retries: nat)
    requires Inv(db, log) && IndexInv(db, index) && db.h.totalRecords + 1 < U32_LIMIT
    requires |vals| == db.h.numParams + db.h.extraParamCount
    ensures var r := Store(db, ts, vals, env, retries);
            && GeometryOf(r.db.h) == GeometryOf(db.h) && r.db.h.indexStride == db.h.indexStride
            && r.db.h.extraParamCount == db.h.extraParamCount
            && (if r.ok
                then
                  var done := Finish(r.db, ts, vals, Lands(r.db.file, r.db.h, env));
                  IndexInv(done, Touch(index, done.h, ts))
                else IndexInv(r.db, index))
    decreases if db.adapted then 0 else 1
  {
    hide Inv, Grows, SlotOf, Fits, BlockOf, WriteSlot, Advanced, TornFile, AppendExtras, BlockOffset, IndexInv, Touch,
         NewRow, Lands, OverflowPos, Shape;
    InvShape(db, log);
    ShapeGeometry(db);
    StoreKeepsShape(db, ts, vals, env, retries);
    if Grows(db) && !env.growth.Granted? {
      var g := GeometryOf(db.h);
      var at := BlockOffset(g, BlockOf(g, SlotOf(db.h, db.h.totalRecords)));
      var left := db.(file := TornFile(db.file, at, env.torn));
      GrowthOnlyWhileFilling(db, log);
      TornKeeps(db, log, env.torn);
      TornIndex(db, log, index, env.torn);
      if CapHelps(db, env) {
        CapIndex(left, log, index);
        CapKeeps(left, log);
        StoreIndex(Capped(left), log, index, ts, vals, env, retries + 1);
      }
    } else {
      var stored := Store(db, ts, vals, env, retries).db;
      var lands := Lands(db.file, db.h, env);
      var done := Finish(stored, ts, vals, lands);
      LandsStored(db, ts, vals, env);
      SameExtras(db.h, stored.file, vals, lands);
      StoredKeeps(db, log, ts, vals, lands, done);
      InvShape(done, log + [NewRow(db, ts, vals, lands)]);
      AdvancedFields(db.h, done.file, ts);
      AdvancedSlot(db.h, done.file, ts);
      StoredIndex(db, index, ts, vals, lands, done);
    }
  }

  lemma AdvancedSlot(h: Header, f: Bytes, ts: u32)
    requires GeometryOf(h).Valid()
    ensures Advanced(Evicted(h), f, ts).newestRecordIdx == SlotOf(h, h.totalRecords)
    ensures SlotOf(Evicted(h), Evicted(h).totalRecords) == SlotOf(h, h.totalRecords)
  {
    hide Fits, RowAt, BlockOf;
  }

  /** Over one write call, including its caps and its retry, the reference index stays the index
      of what the slots hold. */
  lemma WriteIndex(db: Db, log: seq<Row>, index: seq<Entry>, ts: u32, vals: seq<i16>, env: Env)
    requires Inv(db, log) && IndexInv(db, index) && db.h.totalRecords + 1 < U32_LIMIT
    requires |vals| == db.h.numParams + db.h.extraParamCount
    ensures var r := Write(db, ts, vals, env);
            && r.db.h.indexStride > 0 && r.db.h.recordsPerBlock > 0
            && IndexInv(r.db, if r.ok then Touch(index, r.db.h, ts) else index)
  {
    hide Inv, Grows, Store, Finish, IndexInv, Touch, Shape, Lands, NewRow;
    InvShape(db, log);
    ShapeGeometry(db);
    if GuardFires(db, env) {
      CapKeeps(db, log);
      CapIndex(db, log, index);
    }
    StoreIndex(Guarded(db, env), log, index, ts, vals, env, 0);
    WriteKeeps(db, log, ts, vals, env);
    var r := Write(db, ts, vals, env);
    InvShape(r.db, if r.ok then log + [Stored(db, ts, vals, env)] else log);
    ShapeGeometry(r.db);
  }
}
