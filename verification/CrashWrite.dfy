/** A power cut inside a write: the block write is synced, the append of extras is not, and the sidecar
    steps follow. What is left is a data file and a disk of headers that need not belong together. */
module CrashWrite {
  import opened Bytes
  import opened Layout
  import opened Storage
  import opened Ring
  import opened Retained
  import opened Unsynced
  import S = Sidecar

  /** What a power cut can leave: slot files and header, and the data file. */
  datatype Image = Image(disk: S.Disk, file: Bytes)

  /** The write neither caps the capacity nor meets a full file system. */
  const Calm: Env := Env(false, Granted, [])

  /** The header that the write persists. */
  function NextHeader(db: Db, ts: u32, vals: seq<i16>): Header
    requires GeometryOf(db.h).Valid() && db.h.indexStride > 0 && |vals| == Columns(db.h)
  {
    Write(db, ts, vals, Calm).db.h
  }

  /** What a power cut leaves after `steps` durable steps of the write: none, the block with everything
      appended before it, and then one after another the file steps of the sidecar. The extras are not
      synced: from the block on they may have reached the disk (`lands`) or not. Before it the disk has
      `onDisk`, in which the extras of the record before may be missing likewise. */
  function CutAfter(db: Db, onDisk: Bytes, m: S.Mem, disk: S.Disk, ts: u32, vals: seq<i16>, steps: nat,
                    lands: bool): (image: Image)
    requires GeometryOf(db.h).Valid() && db.h.indexStride > 0 && |vals| == Columns(db.h)
    requires |disk.d| == 2 && |disk.r| == 2 && m.slot < 2 && m.legacySlot < 2
    requires steps < 2 + |S.WriteImages(m, disk, NextHeader(db, ts, vals))|
    ensures |image.disk.d| == 2 && |image.disk.r| == 2
  {
    Image(if steps < 2 then disk else S.WriteImages(m, disk, NextHeader(db, ts, vals))[steps - 2],
          if steps == 0 then onDisk else StoredFile(db, ts, vals, lands))
  }

  /** The database that a reopen finds. */
  function Found(image: Image): Db
    requires |image.disk.d| == 2 && |image.disk.r| == 2
  {
    Db(S.Reopened(image.disk), image.file, false, true)
  }

  /** A calm write stores the row, whatever the flags of the handle. */
  lemma CalmWrite(db: Db, ts: u32, vals: seq<i16>)
    requires Shape(db) && db.h.totalRecords + 1 < U32_LIMIT && |vals| == Columns(db.h)
    ensures var r := Write(db, ts, vals, Calm);
            && r.ok && r.db.file == StoredFile(db, ts, vals, true)
            && r.db.h == Advanced(Evicted(db.h), StoredFile(db, ts, vals, true), ts)
            && Follows(db.h, r.db.h) && r.db.h.magic == db.h.magic && r.db.h.paramNames == db.h.paramNames
  {
    hide Fits, WriteSlot, AppendExtras, RowAt, SlotOf, BlockOf, OverflowPos, RingEnd, WholeExtras, Grows;
    SameExtras(db.h, WriteSlot(db.file, GeometryOf(db.h), SlotOf(db.h, db.h.totalRecords), ts, vals), vals, true);
    AdvancedFields(db.h, StoredFile(db, ts, vals, true), ts);
  }

  /** The record that is the oldest after an eviction. */
  function NextOldest(h: Header): nat
    requires Evicts(h)
  {
    h.totalRecords + 1 - h.maxRecords
  }

  /** Its block can be read. */
  ghost predicate OldestReady(db: Db) {
    Evicts(db.h) && NextOldest(db.h) < db.h.totalRecords ==>
      Ready(db.file, GeometryOf(db.h), SlotBlockOf(db.h, NextOldest(db.h)))
  }

  function SlotBlockOf(h: Header, a: nat): nat {
    if h.recordsPerBlock > 0 then BlockOf(GeometryOf(h), SlotOf(h, a)) else 0
  }

  lemma InvOldestReady(db: Db, log: seq<Row>)
    requires Inv(db, log)
    ensures OldestReady(db)
  {
    hide Kept, Fits, RingEnd, WholeExtras, Ready, BlockOf, SlotOf;
    if Evicts(db.h) && NextOldest(db.h) < db.h.totalRecords {
      assert InWindow(db.h, NextOldest(db.h));
      KeptHasBlock(db, log, NextOldest(db.h));
    }
  }

  /** The new header does not depend on the extras. */
  lemma HeaderWithout(db: Db, ts: u32, vals: seq<i16>, lands: bool)
    requires Shape(db) && OldestReady(db) && |vals| == Columns(db.h)
    ensures Advanced(Evicted(db.h), StoredFile(db, ts, vals, lands), ts) ==
            Advanced(Evicted(db.h), StoredFile(db, ts, vals, true), ts)
  {
    hide Fits, SlotOf, BlockOf, RowAt, Shape, StoredFile, Evicted, OldestReady;
    ShapeGeometry(db);
    EvictedKeeps(db.h);
    if Evicts(db.h) {
      OldestBlock(db, ts, vals, lands);
      OldestBlock(db, ts, vals, true);
    }
  }

  /** The block of the oldest record after an eviction is found alike with and without the extras. */
  lemma OldestBlock(db: Db, ts: u32, vals: seq<i16>, lands: bool)
    requires Shape(db) && OldestReady(db) && Evicts(db.h) && |vals| == Columns(db.h)
    ensures var g := GeometryOf(db.h);
            var slot := Evicted(db.h).oldestRecordIdx;
            var f, f1 := StoredFile(db, ts, vals, lands), StoredFile(db, ts, vals, false);
            && HasBlock(f, g, BlockOf(g, slot)) && HasBlock(f1, g, BlockOf(g, slot))
            && RowAt(f, g, slot) == RowAt(f1, g, slot)
  {
    hide Fits, SlotOf, BlockOf, RowAt, Ready, WriteSlot, AppendExtras, RingEnd, OverflowPos, WholeExtras;
    var g := GeometryOf(db.h);
    var f1 := WriteSlot(db.file, g, SlotOf(db.h, db.h.totalRecords), ts, vals);
    var a := NextOldest(db.h);
    OldestAdvances(db.h);
    OneLap(db.h, a);
    SlotIsMod(db.h, db.h.totalRecords + 1);
    if a < db.h.totalRecords {
      SlotSurvives(db, ts, vals, a);
    } else {
      WriteSlotReady(db.file, g, SlotOf(db.h, a), ts, vals, BlockOf(g, SlotOf(db.h, a)));
    }
    ExtrasMissBlocks(f1, db.h, vals, lands, a);
    ExtrasMissBlocks(f1, db.h, vals, false, a);
    ReadyHasBlock(StoredFile(db, ts, vals, lands), g, BlockOf(g, SlotOf(db.h, a)));
    ReadyHasBlock(StoredFile(db, ts, vals, false), g, BlockOf(g, SlotOf(db.h, a)));
  }

  lemma SlotIsMod(h: Header, a: nat)
    requires h.maxRecords > 0
    ensures SlotOf(h, a) == a % h.maxRecords
  {
  }

  /** Under the old header every position of the half-written file shows the row it showed before,
      except that position 0, of the row about to be evicted, may already show the new record. What that
      does to a query is another matter. */
  lemma HalfWritten(db: Db, log: seq<Row>, ts: u32, vals: seq<i16>, lands: bool, k: nat)
    requires Inv(db, log) && |vals| == Columns(db.h) && k < Available(db.h)
    ensures var d := Db(db.h, StoredFile(db, ts, vals, lands), false, true);
            && Readable(db, k) && Readable(d, k)
            && ViewRow(d, k) ==
               if k == 0 && Evicts(db.h)
               then Row(ts, vals[..db.h.numParams] + Extras(db.file, db.h, RecordNumber(db.h, 0)))
               else ViewRow(db, k)
  {
    hide Kept, Fits, SlotOf, BlockOf, RingEnd, OverflowPos, AppendExtras, LogicalSlot, RowAt, Ready, WriteSlot, Extras,
         WholeExtras;
    var a := RecordNumber(db.h, k);
    LogicalOrder(db, k);
    KeptHasBlock(db, log, a);
    OldExtras(db, ts, vals, lands, a);
    var g := GeometryOf(db.h);
    var slot := SlotOf(db.h, db.h.totalRecords);
    var f1 := WriteSlot(db.file, g, slot, ts, vals);
    if k == 0 && Evicts(db.h) {
      OneLap(db.h, a);
      WriteSlotRow(db.file, g, slot, ts, vals, slot);
      WriteSlotReady(db.file, g, slot, ts, vals, BlockOf(g, slot));
    } else {
      SlotSurvives(db, ts, vals, a);
    }
    ExtrasMissBlocks(f1, db.h, vals, lands, a);
    ReadyHasBlock(db.file, g, BlockOf(g, SlotOf(db.h, a)));
    ReadyHasBlock(StoredFile(db, ts, vals, lands), g, BlockOf(g, SlotOf(db.h, a)));
  }

  lemma OldExtras(db: Db, ts: u32, vals: seq<i16>, lands: bool, a: nat)
    requires Shape(db) && |vals| == Columns(db.h) && a < db.h.totalRecords
    ensures Extras(StoredFile(db, ts, vals, lands), db.h, a) == Extras(db.file, db.h, a)
  {
    hide Fits, RingEnd, WholeExtras, StoredFile;
    if HasExtras(db.h, a) {
      ExtrasSurvive(db, ts, vals, lands, a);
    }
  }

  /** How the rows found after a cut relate to the rows before the write. */
  ghost predicate Before(found: Db, db: Db, ts: u32, vals: seq<i16>)
    requires AllReadable(db) && |vals| == Columns(db.h)
  {
    && found.h == db.h && AllReadable(found)
    && (forall k :: 0 <= k < Available(db.h) && !(k == 0 && Evicts(db.h)) ==> View(found)[k] == View(db)[k])
    && (Evicts(db.h) ==>
          || View(found)[0] == View(db)[0]
          || (View(found)[0].ts == ts && View(found)[0].vals[..db.h.numParams] == vals[..db.h.numParams]
              && View(found)[0].vals[db.h.numParams..] == View(db)[0].vals[db.h.numParams..]))
  }

  lemma BeforeHalf(db: Db, log: seq<Row>, ts: u32, vals: seq<i16>, lands: bool)
    requires Inv(db, log) && |vals| == Columns(db.h) && AllReadable(db)
    ensures Before(Db(db.h, StoredFile(db, ts, vals, lands), false, true), db, ts, vals)
  {
    hide Inv, Fits, StoredFile, Extras, Readable, Shape;
    InvShape(db, log);
    ShapeGeometry(db);
    var d := Db(db.h, StoredFile(db, ts, vals, lands), false, true);
    forall k: nat | k < Available(db.h)
      ensures Readable(d, k)
    {
      HalfWritten(db, log, ts, vals, lands, k);
    }
    forall k | 0 <= k < Available(db.h) && !(k == 0 && Evicts(db.h))
      ensures View(d)[k] == View(db)[k]
    {
      HalfWritten(db, log, ts, vals, lands, k);
    }
    if Evicts(db.h) {
      HalfWritten(db, log, ts, vals, lands, 0);
    }
  }

  /** The rows depend neither on the flags of the handle nor on anything but header and file. */
  lemma FlagsAside(db: Db, log: seq<Row>, d: Db)
    requires Inv(db, log) && d.h == db.h && d.file == db.file
    ensures Inv(d, log)
  {
    hide Fits, RingEnd, Extras, RowAt, Ready, BlockOf, SlotOf, OverflowPos, WholeExtras;
    forall a: nat | InWindow(d.h, a)
      ensures Kept(d, log, a)
    {
      assert Kept(db, log, a);
    }
  }

  /** The rows on disk before the write. */
  function LogOnDisk(log: seq<Row>, db: Db, onDisk: Bytes): seq<Row> {
    if onDisk == db.file then log else Reread(log, db.h, onDisk)
  }

  /** What the slots make of a cut: the header before the write until its compact slot is complete, and
      its own from then on. */
  lemma CutHeader(db: Db, onDisk: Bytes, m: S.Mem, disk: S.Disk, ts: u32, vals: seq<i16>, steps: nat, lands: bool)
    requires Shape(db) && db.h.totalRecords + 1 < U32_LIMIT && |vals| == Columns(db.h)
    requires S.MemInv(m, disk) && m.h == db.h && db.h.magic == DB_MAGIC
    requires IsSane(NextHeader(db, ts, vals))
    requires steps < 2 + |S.WriteImages(m, disk, NextHeader(db, ts, vals))|
    ensures var image := CutAfter(db, onDisk, m, disk, ts, vals, steps, lands);
            && Found(image).h == (if steps <= 2 then db.h else NextHeader(db, ts, vals))
            && S.MemInv(S.Open(image.disk), image.disk) && S.Open(image.disk).h == Found(image).h
  {
    hide Fits, S.MemInv, S.DiskInv, S.WriteImages, Write, S.Reopened, StoredFile, IsSane, Shape, Advanced, S.Open;
    ShapeGeometry(db);
    CalmWrite(db, ts, vals);
    S.MemSlots(m, disk);
    S.MemDisk(m, disk);
    var h := NextHeader(db, ts, vals);
    var now := if steps <= 2 then db.h else h;
    if steps >= 2 {
      S.WriteCut(m, disk, h, steps - 2);
    }
    var image := CutAfter(db, onDisk, m, disk, ts, vals, steps, lands);
    assert S.DiskInv(image.disk, now);
    S.Reopening(image.disk, now);
    S.ReopenYields(image.disk, now);
  }

  /** Power cut anywhere inside a write. Before the block write the reopened database has the rows that
      were on disk. Until the compact slot is complete it has the rows from before the write; only an
      evicting write may already show its base columns at position 0, in place of the row about to be
      evicted. From then on it has the rows after the write: those before and the new one, whose
      extras are there exactly as far as they reached the disk. */
  lemma CutInsideWrite(db: Db, log: seq<Row>, onDisk: Bytes, m: S.Mem, disk: S.Disk, ts: u32, vals: seq<i16>,
                       steps: nat, lands: bool)
    requires Inv(db, log) && AllReadable(db) && db.h.totalRecords + 1 < U32_LIMIT && |vals| == Columns(db.h)
    requires onDisk == db.file || Lagging(db, onDisk)
    requires S.MemInv(m, disk) && m.h == db.h && db.h.magic == DB_MAGIC
    requires IsSane(NextHeader(db, ts, vals))
    requires steps < 2 + |S.WriteImages(m, disk, NextHeader(db, ts, vals))|
    ensures var image := CutAfter(db, onDisk, m, disk, ts, vals, steps, lands);
            && (steps == 0 ==> Found(image).h == db.h && Inv(Found(image), LogOnDisk(log, db, onDisk)))
            && (1 <= steps <= 2 ==> Before(Found(image), db, ts, vals))
            && (3 <= steps ==>
                  && Found(image).h == NextHeader(db, ts, vals)
                  && Inv(Found(image), log + [NewRow(db, ts, vals, lands)]))
  {
    hide Inv, Fits, S.MemInv, S.WriteImages, Write, S.Reopened, StoredFile, AllReadable, Before, IsSane, NewRow,
         Lagging, Reread, Shape, Advanced;
    InvShape(db, log);
    ShapeGeometry(db);
    CalmWrite(db, ts, vals);
    S.MemSlots(m, disk);
    CutHeader(db, onDisk, m, disk, ts, vals, steps, lands);
    var h, f := NextHeader(db, ts, vals), StoredFile(db, ts, vals, lands);
    if steps == 0 {
      if onDisk != db.file {
        LaggingKeeps(db, log, onDisk);
      }
      FlagsAside(db.(file := onDisk), LogOnDisk(log, db, onDisk), Db(db.h, onDisk, false, true));
    } else if steps <= 2 {
      BeforeHalf(db, log, ts, vals, lands);
    } else {
      InvOldestReady(db, log);
      HeaderWithout(db, ts, vals, lands);
      StoredKeeps(db, log, ts, vals, lands, Db(h, f, false, true));
    }
  }

  /** So the write is there in full exactly when its extras reached the disk, or it has none, or the file
      showed the same values in their place already. */
  lemma CutKeepsRowIff(db: Db, ts: u32, vals: seq<i16>, lands: bool)
    requires Shape(db) && |vals| == Columns(db.h)
    ensures NewRow(db, ts, vals, lands) == Row(ts, vals) <==>
            || lands || !HasExtras(db.h, db.h.totalRecords)
            || vals[db.h.numParams..] == Extras(db.file, db.h, db.h.totalRecords)
  {
    hide Fits, RingEnd, WholeExtras, Extras;
    NewRowParts(db, ts, vals, lands);
  }

  /** The input on which it is not: extras of a record at the end of the file, one of them not zero, cut
      before the next block write. The header counts the record, its base columns are there, and its
      extras read as zeros. */
  lemma ExtrasLost(db: Db, log: seq<Row>, m: S.Mem, disk: S.Disk, ts: u32, vals: seq<i16>, steps: nat)
    requires Inv(db, log) && AllReadable(db) && db.h.totalRecords + 1 < U32_LIMIT && |vals| == Columns(db.h)
    requires S.MemInv(m, disk) && m.h == db.h && db.h.magic == DB_MAGIC && IsSane(NextHeader(db, ts, vals))
    requires 3 <= steps < 2 + |S.WriteImages(m, disk, NextHeader(db, ts, vals))|
    requires HasExtras(db.h, db.h.totalRecords) && |db.file| <= OverflowPos(db.h, db.h.totalRecords)
    requires exists i :: db.h.numParams <= i < |vals| && vals[i] != 0
    ensures ShowsNewest(Found(CutAfter(db, db.file, m, disk, ts, vals, steps, false)), NextHeader(db, ts, vals),
                        Row(ts, vals[..db.h.numParams] + ZeroVals(db.h.extraParamCount)))
    ensures Row(ts, vals[..db.h.numParams] + ZeroVals(db.h.extraParamCount)) != Row(ts, vals)
  {
    hide Inv, Fits, S.MemInv, S.WriteImages, S.Reopened, StoredFile, AllReadable, Before, IsSane, OverflowPos, Shape,
         View, Write, CutAfter;
    S.MemSlots(m, disk);
    InvShape(db, log);
    ShapeGeometry(db);
    CalmWrite(db, ts, vals);
    CutInsideWrite(db, log, db.file, m, disk, ts, vals, steps, false);
    var found := Found(CutAfter(db, db.file, m, disk, ts, vals, steps, false));
    var row := NewRow(db, ts, vals, false);
    NewestShown(found, log + [row]);
    var i :| db.h.numParams <= i < |vals| && vals[i] != 0;
    assert row.vals[i] == 0;
  }

  /** The database has the header `h` and shows `row` as its newest row. */
  ghost predicate ShowsNewest(found: Db, h: Header, row: Row) {
    && found.h == h && AllReadable(found) && Available(h) > 0
    && View(found)[Available(h) - 1] == row
  }

  /** A reader sees the last row of the log last. */
  lemma NewestShown(db: Db, log: seq<Row>)
    requires Inv(db, log) && Available(db.h) > 0 && |log| > 0 && |log[|log| - 1].vals| == Columns(db.h)
    ensures AllReadable(db) && View(db)[Available(db.h) - 1] == log[|log| - 1]
  {
    hide Inv, Fits, View, AllReadable, Fitted, FittedAll;
    ViewIsNewest(db, log);
    var n, row := Available(db.h), log[|log| - 1];
    assert Newest(log, n)[n - 1] == row;
    assert Fitted(row, |row.vals|).vals == row.vals;
  }

  // The next write heals the exception

  /** A full ring in which every record but the one about to be evicted is kept. */
  ghost predicate AlmostInv(db: Db, log: seq<Row>) {
    && Shape(db) && Evicts(db.h) && db.h.totalRecords <= |log|
    && Ready(db.file, GeometryOf(db.h), BlockOf(GeometryOf(db.h), SlotOf(db.h, db.h.totalRecords)))
    && forall a: nat :: InWindow(db.h, a) && a != db.h.totalRecords - db.h.maxRecords ==> Kept(db, log, a)
  }

  /** The half-written file keeps every record that the write does not evict. */
  lemma HalfKept(db: Db, log: seq<Row>, ts: u32, vals: seq<i16>, lands: bool, a: nat)
    requires Shape(db) && |vals| == Columns(db.h) && a < db.h.totalRecords <= |log| && Kept(db, log, a)
    requires db.h.maxRecords == 0 || db.h.totalRecords < a + db.h.maxRecords
    ensures Kept(Db(db.h, StoredFile(db, ts, vals, lands), false, true), log, a)
  {
    hide Kept, Fits, SlotOf, BlockOf, RingEnd, OverflowPos, Extras, AppendExtras, RowAt, Ready, WriteSlot, WholeExtras;
    var d := Db(db.h, StoredFile(db, ts, vals, lands), false, true);
    KeptHasBlock(db, log, a);
    SlotSurvives(db, ts, vals, a);
    var f1 := WriteSlot(db.file, GeometryOf(db.h), SlotOf(db.h, db.h.totalRecords), ts, vals);
    ExtrasMissBlocks(f1, db.h, vals, lands, a);
    OldExtras(db, ts, vals, lands, a);
    KeptMoves(db, log, d, log, a);
  }

  lemma HalfShape(db: Db, ts: u32, vals: seq<i16>, lands: bool)
    requires Shape(db) && |vals| == Columns(db.h)
    ensures Shape(Db(db.h, StoredFile(db, ts, vals, lands), false, true))
  {
    hide Fits, RingEnd, StoredFile, WholeExtras;
    LongerFile(db, ts, vals, lands);
    HalfWhole(db, ts, vals, lands);
  }

  /** A write that evicts nothing, cut before its sidecar: all is as before. */
  lemma HalfWrittenInv(db: Db, log: seq<Row>, ts: u32, vals: seq<i16>, lands: bool)
    requires Inv(db, log) && !Evicts(db.h) && |vals| == Columns(db.h)
    ensures Inv(Db(db.h, StoredFile(db, ts, vals, lands), false, true), log)
  {
    hide Kept, Fits, RingEnd, StoredFile, WholeExtras, Shape, SlotOf;
    ShapeGeometry(db);
    HalfShape(db, ts, vals, lands);
    forall a: nat | InWindow(db.h, a)
      ensures Kept(Db(db.h, StoredFile(db, ts, vals, lands), false, true), log, a)
    {
      HalfKept(db, log, ts, vals, lands, a);
    }
  }

  /** An evicting write, cut before its sidecar, once or again: every record but the one about to be
      evicted is kept. */
  lemma HalfWrittenAlmost(db: Db, log: seq<Row>, ts: u32, vals: seq<i16>, lands: bool)
    requires Evicts(db.h) && (Inv(db, log) || AlmostInv(db, log)) && |vals| == Columns(db.h)
    ensures AlmostInv(Db(db.h, StoredFile(db, ts, vals, lands), false, true), log)
  {
    hide Kept, Fits, RingEnd, StoredFile, WholeExtras, SlotOf, BlockOf, Ready;
    var d := Db(db.h, StoredFile(db, ts, vals, lands), false, true);
    HalfShape(db, ts, vals, lands);
    HalfReady(db, ts, vals, lands);
    forall a: nat | InWindow(d.h, a) && a != d.h.totalRecords - d.h.maxRecords
      ensures Kept(d, log, a)
    {
      assert InWindow(db.h, a);
      HalfKept(db, log, ts, vals, lands, a);
    }
  }

  lemma HalfReady(db: Db, ts: u32, vals: seq<i16>, lands: bool)
    requires Shape(db) && |vals| == Columns(db.h)
    ensures var g := GeometryOf(db.h);
            Ready(StoredFile(db, ts, vals, lands), g, BlockOf(g, SlotOf(db.h, db.h.totalRecords)))
  {
    hide Fits, SlotOf, BlockOf, RowAt, Ready, WriteSlot, AppendExtras, RingEnd, OverflowPos, WholeExtras;
    var g, slot := GeometryOf(db.h), SlotOf(db.h, db.h.totalRecords);
    WriteSlotReady(db.file, g, slot, ts, vals, BlockOf(g, slot));
    ExtrasMissBlocks(WriteSlot(db.file, g, slot, ts, vals), db.h, vals, lands, db.h.totalRecords);
  }

  lemma AlmostOldestReady(db: Db, log: seq<Row>)
    requires AlmostInv(db, log)
    ensures OldestReady(db)
  {
    hide Kept, Fits, RingEnd, WholeExtras, Ready, BlockOf, SlotOf;
    if NextOldest(db.h) < db.h.totalRecords {
      assert InWindow(db.h, NextOldest(db.h));
      KeptHasBlock(db, log, NextOldest(db.h));
    }
  }

  /** A reader of such a database sees every row of the log but the first. */
  lemma AlmostShows(db: Db, log: seq<Row>)
    requires AlmostInv(db, log)
    ensures AllReadable(db) && Available(db.h) <= |log|
    ensures forall k :: 0 < k < Available(db.h) ==>
              View(db)[k] == Fitted(Newest(log, Available(db.h))[k], Columns(db.h))
  {
    hide Fits, RingEnd, Kept, ViewRow, Readable, Fitted, OverflowPos, WholeExtras, Ready, SlotOf, BlockOf;
    forall k: nat | k < Available(db.h)
      ensures Readable(db, k)
      ensures k > 0 ==> ViewRow(db, k) == Fitted(Newest(log, Available(db.h))[k], Columns(db.h))
    {
      if k > 0 {
        assert InWindow(db.h, RecordNumber(db.h, k)) && Kept(db, log, RecordNumber(db.h, k));
        KeptShows(db, log, k);
      } else {
        FirstReadable(db);
      }
    }
  }

  lemma FirstReadable(db: Db)
    requires Shape(db) && Evicts(db.h)
    requires Ready(db.file, GeometryOf(db.h), BlockOf(GeometryOf(db.h), SlotOf(db.h, db.h.totalRecords)))
    ensures Readable(db, 0)
  {
    hide Fits, RingEnd, WholeExtras, Ready, BlockOf, SlotOf, LogicalSlot;
    LogicalOrder(db, 0);
    OneLap(db.h, RecordNumber(db.h, 0));
    ReadyHasBlock(db.file, GeometryOf(db.h), BlockOf(GeometryOf(db.h), SlotOf(db.h, db.h.totalRecords)));
  }

  lemma HalfWhole(db: Db, ts: u32, vals: seq<i16>, lands: bool)
    requires Shape(db) && |vals| == Columns(db.h)
    ensures WholeExtras(db.h, StoredFile(db, ts, vals, lands))
  {
    hide Fits, RingEnd, StoredFile, OverflowPos;
    var h' := db.h.(totalRecords := db.h.totalRecords + 1);
    StoredWhole(db, ts, vals, lands, h');
    SameWhole(StoredFile(db, ts, vals, lands), h', db.h);
  }

  /** The next record goes to the slot of the row about to be evicted, so storing it restores the
      full invariant: the file again holds exactly the newest rows of the log. */
  lemma NextWriteHeals(db: Db, log: seq<Row>, ts: u32, vals: seq<i16>, lands: bool, db': Db)
    requires AlmostInv(db, log) && db.h.totalRecords + 1 < U32_LIMIT && |vals| == Columns(db.h)
    requires db'.file == StoredFile(db, ts, vals, lands) && db'.h == Advanced(Evicted(db.h), db'.file, ts)
    ensures Inv(db', log + [NewRow(db, ts, vals, lands)])
  {
    hide RowAt, Fits, BlockOf, Extras, OverflowPos, RingEnd, Ready, SlotOf, Kept, StoredFile, Advanced, WholeExtras;
    var row := NewRow(db, ts, vals, lands);
    var log' := log + [row];
    AdvancedFields(db.h, db'.file, ts);
    OldestAdvances(db.h);
    LongerFile(db, ts, vals, lands);
    StoredWhole(db, ts, vals, lands, db'.h);
    SameRingEnd(db.h, db'.h);
    NewRowKept(db, log, ts, vals, lands, db');
    forall a: nat | InWindow(db'.h, a)
      ensures Kept(db', log', a)
    {
      if a < db.h.totalRecords {
        assert InWindow(db.h, a);
        OldRowKept(db, log, ts, vals, lands, row, db', a);
      }
    }
    assert InWindow(db'.h, db'.h.totalRecords - Available(db'.h));
    EvictedTimestamp(db, log', ts, db');
  }
}
