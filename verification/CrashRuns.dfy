/** Whole runs of writes, syncs, power cuts and reopens: writes and folds may be cut at any file step,
    again and again, with the extras of the newest record on disk or not. */
module CrashRuns {
  import opened Bytes
  import opened Layout
  import opened Storage
  import opened Ring
  import opened Retained
  import opened Index
  import opened Unsynced
  import opened CrashWrite
  import S = Sidecar

  /** An open database: what the handle has, the data file on disk, and the disk of headers. */
  datatype Live = Live(db: Db, onDisk: Bytes, m: S.Mem, disk: S.Disk)

  /** Every cut is followed by a reopen. A close is a sync followed by a reopen. */
  datatype Event =
    | Put(ts: u32, vals: seq<i16>, lands: bool)
    | CutPut(ts: u32, vals: seq<i16>, steps: nat, lands: bool)
    | Sync(header: Bytes)
    | CutSync(header: Bytes, steps: nat)
    | PowerCut

  // The invariant

  /** The rows of the log are kept, all of them or all but the one about to be evicted. */
  ghost predicate Rows(db: Db, log: seq<Row>) {
    Inv(db, log) || AlmostInv(db, log)
  }

  ghost predicate RunInv(s: Live, log: seq<Row>) {
    && S.MemInv(s.m, s.disk) && s.m.h == s.db.h && s.db.h.magic == DB_MAGIC && Rows(s.db, log)
    && (s.onDisk == s.db.file || (Lagging(s.db, s.onDisk) && Inv(s.db, log)))
  }

  lemma RowsShape(db: Db, log: seq<Row>)
    requires Rows(db, log)
    ensures Shape(db)
  {
    hide Kept, Shape;
  }

  lemma RowsOldestReady(db: Db, log: seq<Row>)
    requires Rows(db, log)
    ensures OldestReady(db)
  {
    hide Inv, AlmostInv, OldestReady;
    if Inv(db, log) {
      InvOldestReady(db, log);
    } else {
      AlmostOldestReady(db, log);
    }
  }

  /** The rows do not depend on the flags of the handle. */
  lemma RowsFlags(db: Db, log: seq<Row>, d: Db)
    requires Rows(db, log) && d.h == db.h && d.file == db.file
    ensures Rows(d, log)
  {
    hide Fits, RingEnd, Extras, RowAt, Ready, BlockOf, SlotOf, OverflowPos, WholeExtras;
    forall a: nat | InWindow(d.h, a) && Kept(db, log, a)
      ensures Kept(d, log, a)
    {
    }
  }

  /** A database without slots starts a run. */
  lemma Starts(db: Db, log: seq<Row>)
    requires Inv(db, log) && db.h.magic == DB_MAGIC && IsSane(db.h)
    ensures var disk := S.Disk(db.h, [S.Absent, S.Absent], [S.Absent, S.Absent]);
            RunInv(Live(db, db.file, S.Open(disk), disk), log)
  {
    hide Inv, S.MemInv, S.Open, IsSane, AlmostInv;
    S.FreshStarts(db.h);
  }

  // The events

  ghost predicate Legal(s: Live, e: Event) {
    && GeometryOf(s.db.h).Valid() && s.db.h.indexStride > 0 && s.db.h.totalRecords + 1 < U32_LIMIT
    && |s.disk.d| == 2 && |s.disk.r| == 2 && s.m.slot < 2 && s.m.legacySlot < 2
    && match e
       case Put(ts, vals, _) => |vals| == Columns(s.db.h) && IsSane(NextHeader(s.db, ts, vals))
       case CutPut(ts, vals, steps, _) =>
         && |vals| == Columns(s.db.h) && IsSane(NextHeader(s.db, ts, vals))
         && steps < 2 + |S.WriteImages(s.m, s.disk, NextHeader(s.db, ts, vals))|
       case Sync(header) => |header| == HEADER_SIZE
       case CutSync(header, steps) => |header| == HEADER_SIZE && steps <= 5
       case PowerCut => true
  }

  /** Any row may be written, and any write or fold cut after any number of its steps, its extras on disk or
      not. */
  lemma AllMayHappen(s: Live, log: seq<Row>, ts: u32, vals: seq<i16>, header: Bytes, steps: nat, lands: bool)
    requires RunInv(s, log) && s.db.h.totalRecords + 1 < U32_LIMIT && |header| == HEADER_SIZE
    requires |vals| == s.db.h.numParams + s.db.h.extraParamCount
    requires GeometryOf(s.db.h).Valid() && s.db.h.indexStride > 0 && IsSane(NextHeader(s.db, ts, vals))
    ensures Legal(s, Put(ts, vals, lands)) && Legal(s, Sync(header)) && Legal(s, PowerCut)
    ensures steps < 2 + |S.WriteImages(s.m, s.disk, NextHeader(s.db, ts, vals))| ==>
              Legal(s, CutPut(ts, vals, steps, lands))
    ensures steps <= 5 ==> Legal(s, CutSync(header, steps))
  {
    hide Rows, Lagging, Inv, NextHeader, S.WriteImages, S.DiskInv;
  }

  function Reopens(disk: S.Disk, file: Bytes): Live
    requires |disk.d| == 2 && |disk.r| == 2
  {
    Live(Db(S.Reopened(disk), file, false, true), file, S.Open(disk), disk)
  }

  function After(s: Live, e: Event): Live
    requires Legal(s, e)
  {
    match e
    case Put(ts, vals, lands) =>
      var h := NextHeader(s.db, ts, vals);
      var images := S.WriteImages(s.m, s.disk, h);
      Live(Write(s.db, ts, vals, Calm).db, StoredFile(s.db, ts, vals, lands), S.AfterWrite(s.m, h),
           images[|images| - 1])
    case CutPut(ts, vals, steps, lands) =>
      var image := CutAfter(s.db, s.onDisk, s.m, s.disk, ts, vals, steps, lands);
      Reopens(image.disk, image.file)
    case Sync(header) =>
      Live(Fold(s.db, header), Fold(s.db, header).file, S.AfterFold(s.m), S.FoldImages(s.m, s.disk)[4])
    case CutSync(header, steps) =>
      if steps == 0 then Reopens(s.disk, s.onDisk)
      else Reopens(FoldedDisk(s.m, s.disk, steps), Fold(s.db, header).file)
    case PowerCut => Reopens(s.disk, s.onDisk)
  }

  /** The disk after the first `steps` steps of a fold. */
  function FoldedDisk(m: S.Mem, disk: S.Disk, steps: nat): (r: S.Disk)
    requires |disk.d| == 2 && |disk.r| == 2 && 1 <= steps <= 5
    ensures |r.d| == 2 && |r.r| == 2
  {
    S.FoldImages(m, disk)[steps - 1]
  }

  /** The rows that must be there after an event. */
  function LogAfter(s: Live, log: seq<Row>, e: Event): seq<Row>
    requires Legal(s, e)
  {
    match e
    case Put(ts, vals, _) => log + [Row(ts, vals)]
    case CutPut(ts, vals, steps, lands) =>
      if steps == 0 then LogOnDisk(log, s.db, s.onDisk)
      else if steps <= 2 then log
      else log + [NewRow(s.db, ts, vals, lands)]
    case Sync(_) => log
    case CutSync(_, steps) => if steps == 0 then LogOnDisk(log, s.db, s.onDisk) else log
    case PowerCut => LogOnDisk(log, s.db, s.onDisk)
  }

  // Each event keeps the invariant

  /** Storing a record leaves a ring without exception, whichever way it was before. */
  lemma StoredRows(db: Db, log: seq<Row>, ts: u32, vals: seq<i16>, lands: bool, d: Db)
    requires Rows(db, log) && db.h.totalRecords + 1 < U32_LIMIT && |vals| == Columns(db.h)
    requires GeometryOf(db.h).Valid() && db.h.indexStride > 0
    requires d.h == NextHeader(db, ts, vals) && d.file == StoredFile(db, ts, vals, lands)
    ensures Inv(d, log + [NewRow(db, ts, vals, lands)])
  {
    hide Inv, AlmostInv, Shape, Fits, StoredFile, Write, Advanced, NewRow, OldestReady;
    RowsShape(db, log);
    RowsOldestReady(db, log);
    CalmWrite(db, ts, vals);
    HeaderWithout(db, ts, vals, lands);
    if Inv(db, log) {
      StoredKeeps(db, log, ts, vals, lands, d);
    } else {
      NextWriteHeals(db, log, ts, vals, lands, d);
    }
  }

  /** After a completed write the file on disk is the handle's, or lags behind it by the new extras. */
  lemma PutLags(db: Db, ts: u32, vals: seq<i16>, lands: bool)
    requires Shape(db) && db.h.totalRecords + 1 < U32_LIMIT && |vals| == Columns(db.h)
    ensures var d := Write(db, ts, vals, Calm).db;
            var f := StoredFile(db, ts, vals, lands);
            f == d.file || Lagging(d, f)
  {
    hide Fits, RingEnd, WriteSlot, SlotOf, OverflowPos, WholeExtras, Write, Advanced, Encode, WriteAt;
    CalmWrite(db, ts, vals);
    var d, f := Write(db, ts, vals, Calm).db, StoredFile(db, ts, vals, lands);
    if HasExtras(db.h, db.h.totalRecords) && !lands {
      LongerFile(db, ts, vals, lands);
      StoredWhole(db, ts, vals, lands, d.h);
      SamePos(db.h, d.h, db.h.totalRecords);
      var e := Encode(vals[db.h.numParams..]);
      assert d.file == WriteAt(f, OverflowPos(d.h, d.h.totalRecords - 1), e);
    }
  }

  lemma PutKeeps(s: Live, log: seq<Row>, e: Event)
    requires RunInv(s, log) && Legal(s, e) && e.Put?
    ensures RunInv(After(s, e), LogAfter(s, log, e)) && Inv(After(s, e).db, LogAfter(s, log, e))
  {
    hide Inv, AlmostInv, Shape, Fits, StoredFile, Write, Advanced, NewRow, Lagging, S.MemInv, S.WriteImages,
         S.AfterWrite, IsSane;
    RowsShape(s.db, log);
    ShapeGeometry(s.db);
    CalmWrite(s.db, e.ts, e.vals);
    var d, h := Write(s.db, e.ts, e.vals, Calm).db, NextHeader(s.db, e.ts, e.vals);
    StoredRows(s.db, log, e.ts, e.vals, true, d);
    NewRowParts(s.db, e.ts, e.vals, true);
    PutLags(s.db, e.ts, e.vals, e.lands);
    S.WriteDone(s.m, s.disk, h);
    S.AfterWriteHeader(s.m, h);
  }

  /** The rows on disk, as a reopen finds them. */
  lemma OnDiskRows(s: Live, log: seq<Row>, d: Db)
    requires RunInv(s, log) && d.h == s.db.h && d.file == s.onDisk
    ensures Rows(d, LogOnDisk(log, s.db, s.onDisk))
  {
    hide Inv, AlmostInv, Lagging, Reread, S.MemInv;
    if s.onDisk != s.db.file {
      LaggingKeeps(s.db, log, s.onDisk);
    }
    RowsFlags(s.db.(file := s.onDisk), LogOnDisk(log, s.db, s.onDisk), d);
  }

  lemma CutPutKeeps(s: Live, log: seq<Row>, e: Event)
    requires RunInv(s, log) && Legal(s, e) && e.CutPut?
    ensures RunInv(After(s, e), LogAfter(s, log, e))
    ensures Inv(s.db, log) && !(1 <= e.steps <= 2 && Evicts(s.db.h)) ==> Inv(After(s, e).db, LogAfter(s, log, e))
  {
    hide Inv, AlmostInv, Shape, Fits, StoredFile, Write, Advanced, NewRow, Lagging, S.MemInv, S.WriteImages, S.Open,
         IsSane,
         S.Reopened, Reread;
    RowsShape(s.db, log);
    ShapeGeometry(s.db);
    CutHeader(s.db, s.onDisk, s.m, s.disk, e.ts, e.vals, e.steps, e.lands);
    CalmWrite(s.db, e.ts, e.vals);
    var d := After(s, e).db;
    if e.steps == 0 {
      OnDiskRows(s, log, d);
      if Inv(s.db, log) {
        OnDiskInv(s, log, d);
      }
    } else if e.steps <= 2 {
      CutRowsKept(s.db, log, e.ts, e.vals, e.lands, d);
    } else {
      StoredRows(s.db, log, e.ts, e.vals, e.lands, d);
    }
  }

  lemma OnDiskInv(s: Live, log: seq<Row>, d: Db)
    requires RunInv(s, log) && Inv(s.db, log) && d.h == s.db.h && d.file == s.onDisk
    ensures Inv(d, LogOnDisk(log, s.db, s.onDisk))
  {
    hide Inv, AlmostInv, Lagging, Reread, S.MemInv;
    if s.onDisk != s.db.file {
      LaggingKeeps(s.db, log, s.onDisk);
    }
    FlagsAside(s.db.(file := s.onDisk), LogOnDisk(log, s.db, s.onDisk), d);
  }

  /** Cut before its sidecar, a write leaves all records, or all but the one about to be evicted. */
  lemma CutRowsKept(db: Db, log: seq<Row>, ts: u32, vals: seq<i16>, lands: bool, d: Db)
    requires Rows(db, log) && GeometryOf(db.h).Valid() && |vals| == Columns(db.h)
    requires d == Db(db.h, StoredFile(db, ts, vals, lands), false, true)
    ensures Rows(d, log) && (!Evicts(db.h) ==> Inv(d, log))
  {
    hide Inv, Shape, StoredFile;
    if Evicts(db.h) {
      hide AlmostInv;
      HalfWrittenAlmost(db, log, ts, vals, lands);
    } else {
      assert Inv(db, log);
      HalfWrittenInv(db, log, ts, vals, lands);
    }
  }

  /** A fold leaves every record where it was. */
  lemma FoldRows(db: Db, log: seq<Row>, header: Bytes)
    requires Rows(db, log) && |header| == HEADER_SIZE && db.h.recordsPerBlock > 0 && db.h.indexStride > 0
    requires db.h.totalRecords < U32_LIMIT
    ensures Rows(Fold(db, header), log) && Fold(db, header).h == db.h
    ensures Inv(db, log) ==> Inv(Fold(db, header), log)
  {
    hide Inv, Shape, Fold, Kept, SlotOf, BlockOf, Ready;
    RowsShape(db, log);
    ShapeGeometry(db);
    FoldShape(db, header);
    if Inv(db, log) {
      FoldKeeps(db, log, header);
    } else {
      FoldReady(db, header);
      forall a: nat | InWindow(db.h, a) && a != db.h.totalRecords - db.h.maxRecords
        ensures Kept(Fold(db, header), log, a)
      {
        FoldKept(db, log, header, a);
      }
    }
  }

  lemma FoldReady(db: Db, header: Bytes)
    requires Shape(db) && |header| == HEADER_SIZE
    requires Ready(db.file, GeometryOf(db.h), BlockOf(GeometryOf(db.h), SlotOf(db.h, db.h.totalRecords)))
    ensures Ready(Fold(db, header).file, GeometryOf(db.h), BlockOf(GeometryOf(db.h), SlotOf(db.h, db.h.totalRecords)))
  {
    hide Fits, RingEnd, FoldBytes, SlotOf, BlockOf, Ready, RowAt, WholeExtras;
    FoldShort(db, header);
    RowBehind(db.file, GeometryOf(db.h), SlotOf(db.h, db.h.totalRecords), FoldBytes(db, header));
  }

  lemma SyncKeeps(s: Live, log: seq<Row>, e: Event)
    requires RunInv(s, log) && Legal(s, e) && !e.Put? && !e.CutPut?
    ensures RunInv(After(s, e), LogAfter(s, log, e))
    ensures Inv(s.db, log) ==> Inv(After(s, e).db, LogAfter(s, log, e))
  {
    hide Inv, AlmostInv, Shape, Fits, Fold, Lagging, S.MemInv, S.DiskInv, S.FoldImages, S.Open, S.AfterFold,
         S.Reopened, Reread;
    S.MemDisk(s.m, s.disk);
    if e.PowerCut? || (e.CutSync? && e.steps == 0) {
      S.Reopening(s.disk, s.m.h);
      S.ReopenYields(s.disk, s.m.h);
      OnDiskRows(s, log, After(s, e).db);
      if Inv(s.db, log) {
        OnDiskInv(s, log, After(s, e).db);
      }
    } else {
      FoldRows(s.db, log, e.header);
      if e.Sync? {
        S.FoldDone(s.m, s.disk);
        FoldedHeader(s.m);
      } else {
        S.FoldCut(s.m, s.disk, e.steps - 1);
        S.Reopening(FoldedDisk(s.m, s.disk, e.steps), s.m.h);
        S.ReopenYields(FoldedDisk(s.m, s.disk, e.steps), s.m.h);
        RowsFlags(Fold(s.db, e.header), log, After(s, e).db);
        if Inv(s.db, log) {
          FlagsAside(Fold(s.db, e.header), log, After(s, e).db);
        }
      }
    }
  }

  lemma FoldedHeader(m: S.Mem)
    ensures S.AfterFold(m).h == m.h
  {
  }

  /** Every event keeps the invariant for the rows that must be there. A completed write restores a ring
      without exception, and only an evicting write cut between its block and its sidecar makes one. */
  lemma EventKeeps(s: Live, log: seq<Row>, e: Event)
    requires RunInv(s, log) && Legal(s, e)
    ensures RunInv(After(s, e), LogAfter(s, log, e))
    ensures e.Put? ==> Inv(After(s, e).db, LogAfter(s, log, e))
    ensures Inv(s.db, log) && !(e.CutPut? && 1 <= e.steps <= 2 && Evicts(s.db.h)) ==>
              Inv(After(s, e).db, LogAfter(s, log, e))
  {
    hide RunInv, Inv, After, LogAfter, Legal;
    if e.Put? {
      PutKeeps(s, log, e);
    } else if e.CutPut? {
      CutPutKeeps(s, log, e);
    } else {
      SyncKeeps(s, log, e);
    }
  }

  // Runs

  ghost predicate IsRun(states: seq<Live>, events: seq<Event>) {
    && |states| == |events| + 1
    && forall i :: 0 <= i < |events| ==> Legal(states[i], events[i]) && states[i + 1] == After(states[i], events[i])
  }

  ghost function LogOf(states: seq<Live>, events: seq<Event>, log: seq<Row>, n: nat): seq<Row>
    requires IsRun(states, events) && n <= |events|
  {
    if n == 0 then log else LogAfter(states[n - 1], LogOf(states, events, log, n - 1), events[n - 1])
  }

  /** What readers see: the newest rows of the log, at every position but the first, and there too in a
      ring without exception. */
  ghost predicate Shows(db: Db, log: seq<Row>) {
    && AllReadable(db) && Available(db.h) <= |log|
    && forall k :: 0 <= k < Available(db.h) && (k > 0 || Inv(db, log)) ==>
         View(db)[k] == Fitted(Newest(log, Available(db.h))[k], Columns(db.h))
  }

  lemma RowsShow(db: Db, log: seq<Row>)
    requires Rows(db, log)
    ensures Shows(db, log)
  {
    hide Inv, AlmostInv, View, AllReadable, Fitted;
    if Inv(db, log) {
      ViewIsNewest(db, log);
    } else {
      AlmostShows(db, log);
    }
  }

  /** In every run, with cuts at any file step and extras that reach the disk or not, the database found
      has exactly the rows that must be there, except possibly at position 0 after an evicting write was
      cut between its block and its sidecar; the next completed write removes the exception. */
  lemma {:induction false} RunRecoversRows(states: seq<Live>, events: seq<Event>, log: seq<Row>, n: nat)
    requires IsRun(states, events) && RunInv(states[0], log) && n <= |events|
    ensures RunInv(states[n], LogOf(states, events, log, n))
    ensures Shows(states[n].db, LogOf(states, events, log, n))
    ensures n > 0 && events[n - 1].Put? ==> Inv(states[n].db, LogOf(states, events, log, n))
  {
    hide Inv, After, LogAfter, Legal, Shows, Rows, Lagging, S.MemInv;
    if n > 0 {
      RunRecoversRows(states, events, log, n - 1);
      assert Legal(states[n - 1], events[n - 1]) && states[n - 1 + 1] == After(states[n - 1], events[n - 1]);
      EventKeeps(states[n - 1], LogOf(states, events, log, n - 1), events[n - 1]);
    }
    RowsShow(states[n].db, LogOf(states, events, log, n));
  }
}
