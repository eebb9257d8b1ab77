/** The sparse index over whole runs: rebuilding it at fold time always gives what one update per
    stride-aligned write would have given. */
module IndexRuns {
  import opened Arith
  import opened Bytes
  import opened Layout
  import opened Storage
  import opened Ring
  import opened Retained
  import opened Index
  import P = Plan
  import opened Rewrite
  import opened Overflow
  import M = OverflowMigration
  import opened Engine
  import opened Unsynced
  import opened IndexSearch
  import S = Sidecar
  import R = Reopening

  /** The reference index after an operation: updated by a stored record, replaced by the streamed
      one in a rewrite, untouched otherwise. */
  ghost function IndexAfter(db: Db, index: seq<Entry>, op: Op, db': Db): seq<Entry>
    requires db.h.recordsPerBlock > 0 && db.h.indexStride > 0
    requires db'.h.recordsPerBlock > 0 && db'.h.indexStride > 0
  {
    if op.WriteRow? then if WriteFails(db, op.env) then index else Touch(index, db'.h, op.ts)
    else if RewriteMap(db, op).Some? && HasIndex(db'.file, db'.h) then DiskIndex(db'.file, db'.h)
    else index
  }

  /** Header and index fit the fold buffer whenever the operation folds. */
  ghost predicate WithinFoldLimit(db: Db, op: Op)
    requires db.h.indexStride > 0
  {
    match op
    case FoldHeader(_) => FoldLength(db) <= FOLD_MAX_BYTES
    case Resize(newMax, _, _, _) =>
      newMax != db.h.maxRecords && FastResize(db.h, newMax) ==>
        FoldLength(db.(h := db.h.(maxRecords := newMax))) <= FOLD_MAX_BYTES
    case _ => true
  }

  /** A database whose header and index take up at most 16 KiB always folds within the limit. */
  lemma SmallIndexFolds(db: Db, op: Op)
    requires db.h.indexStride > 0 && db.h.indexOffset + 8 * db.h.indexEntries <= 0x4000
    ensures WithinFoldLimit(db, op) && FoldLength(db) <= 0x4000
  {
    hide Blocks, FastResize;
  }

  lemma CapacityIndex(db: Db, log: seq<Row>, index: seq<Entry>, newMax: nat)
    requires Inv(db, log) && IndexInv(db, index) && FastResize(db.h, newMax)
    ensures IndexInv(db.(h := db.h.(maxRecords := newMax)), index)
  {
    hide Fits, BlockOf, RowAt, Ready, RingEnd, SlotOf, EntryAt, Kept;
    var r := db.(h := db.h.(maxRecords := newMax));
    CapacityKeeps(db, log, newMax);
    InvShape(r, log);
    forall k: nat | k < |index|
      ensures EntryInv(r, index, k)
    {
      assert EntryInv(db, index, k);
      EntryMoves(db, index, r, k);
    }
  }

  /** An index that is not stale may be called so. */
  lemma FlagsIndex(db: Db, index: seq<Entry>, adapted: bool, stale: bool)
    requires IndexInv(db, index) && (db.indexStale ==> stale)
    ensures IndexInv(db.(adapted := adapted, indexStale := stale), index)
  {
    hide Fits, BlockOf, RowAt, Ready, RingEnd, EntryAt, WholeExtras;
    var r := db.(adapted := adapted, indexStale := stale);
    forall k: nat | k < |index|
      ensures EntryInv(r, index, k)
    {
      assert EntryInv(db, index, k);
    }
  }

  lemma ResizeIndex(db: Db, log: seq<Row>, index: seq<Entry>, newMax: nat, header: Bytes)
    requires Inv(db, log) && IndexInv(db, index) && FastResize(db.h, newMax) && |header| == HEADER_SIZE
    requires FoldLength(db.(h := db.h.(maxRecords := newMax))) <= FOLD_MAX_BYTES
    ensures IndexInv(Resized(db, newMax, header), index)
  {
    hide Inv, IndexInv, FastResize, FoldBytes, FoldLength;
    var r := db.(h := db.h.(maxRecords := newMax));
    CapacityIndex(db, log, index, newMax);
    CapacityKeeps(db, log, newMax);
    InvShape(r, log);
    FoldedIndex(r, index, header);
    FlagsIndex(Fold(r, header), index, false, false);
  }

  lemma AddColumnsIndex(db: Db, log: seq<Row>, index: seq<Entry>, count: nat, region: Bytes, header: Bytes)
    requires Inv(db, log) && IndexInv(db, index) && |region| == OVERFLOW_HEADER_SIZE && |header| == HEADER_SIZE
    requires db.h.maxRecords > 0 && RingEnd(db.h) <= |db.file|
    requires AddExtras(db, count, region, header).Added?
    ensures IndexInv(AddExtras(db, count, region, header).db, index)
  {
    hide Fits, BlockOf, RowAt, Ready, RingEnd, SlotOf, EntryAt, Kept;
    var d := AddExtras(db, count, region, header).db;
    AddExtrasKeeps(db, log, count, region, header);
    InvShape(d, log);
    LongerFront(db.file, region, header);
    forall k: nat | k < |index|
      ensures EntryInv(d, index, k)
    {
      assert EntryInv(db, index, k);
      if IndexSlot(db.h, k) < Available(db.h) {
        FrontRow(db.file, region, header, GeometryOf(db.h), IndexSlot(db.h, k));
      }
      EntryMoves(db, index, d, k);
    }
  }

  /** A change behind the index region keeps the index. */
  lemma MigratedIndex(db: Db, log: seq<Row>, index: seq<Entry>, columns: seq<Option<nat>>, region: Bytes,
                      header: Bytes, before: Bytes, db': Db)
    requires Inv(db, log) && IndexInv(db, index) && db.h.extraParamCount > 0 && 0 < |columns| && |header| == HEADER_SIZE
    requires M.Migrated(db, columns, region, header, before, db') && Shape(db')
    ensures IndexInv(db', index)
  {
    hide Inv, Fits, BlockOf, RowAt, Ready, RingEnd, EntryAt, M.RecordCopied;
    forall k: nat | k < |index|
      ensures EntryInv(db', index, k)
    {
      assert EntryInv(db, index, k);
      if IndexSlot(db.h, k) < Available(db.h) {
        var g := GeometryOf(db.h);
        M.RowKept(db.file, before, header, g, IndexSlot(db.h, k));
        M.ReadyKept(db.file, before, header, g, IndexSlot(db.h, k));
        ReadyHasBlock(db'.file, g, BlockOf(g, IndexSlot(db.h, k)));
      }
      EntryMoves(db, index, db', k);
    }
  }

  lemma DroppedIndex(db: Db, index: seq<Entry>, header: Bytes)
    requires IndexInv(db, index) && |header| == HEADER_SIZE && Shape(M.DropExtras(db, header))
    ensures IndexInv(M.DropExtras(db, header), index)
  {
    hide Fits, BlockOf, RowAt, Ready, RingEnd, EntryAt;
    var d := M.DropExtras(db, header);
    forall k: nat | k < |index|
      ensures EntryInv(d, index, k)
    {
      assert EntryInv(db, index, k);
      if IndexSlot(db.h, k) < Available(db.h) {
        RowBehind(db.file, GeometryOf(db.h), IndexSlot(db.h, k), header);
      }
      EntryMoves(db, index, d, k);
    }
  }

  lemma MigrateColumnsIndex(db: Db, log: seq<Row>, index: seq<Entry>, op: Op, db': Db)
    requires Inv(db, log) && IndexInv(db, index) && AllReadable(db) && op.MigrateColumns? && Callable(db, op)
    requires Next(db, op, db') && Shape(db')
    ensures IndexInv(db', index)
  {
    hide Inv, IndexInv, AllReadable, M.Migrated, M.ExtraMap, Shape, Fits;
    if op.extra == [] {
      DroppedIndex(db, index, op.header);
    } else if !M.AlreadyMatches(op.extra, op.present) {
      var before: Bytes :| M.Migrated(db, M.ExtraMap(op.extra, op.present), op.region, op.header, before, db');
      MigratedIndex(db, log, index, M.ExtraMap(op.extra, op.present), op.region, op.header, before, db');
    }
  }

  lemma RewriteStepIndex(db: Db, columns: seq<Option<nat>>, names: seq<string>, newMax: nat,
                         opts: Option<P.Options>, db': Db)
    requires Shape(db) && AllReadable(db) && 0 < |columns| <= MAX_PARAMS
    requires RewriteStep(db, columns, names, newMax, opts, db')
    ensures P.MakePlan(db.h, |columns|, newMax, opts).Plan? ==>
              HasIndex(db'.file, db'.h) && IndexInv(db', DiskIndex(db'.file, db'.h))
  {
    hide Fits, Rewritten, AllReadable, P.MakePlan, IndexInv, Sound, RingEnd;
    var p := P.MakePlan(db.h, |columns|, newMax, opts);
    PlanIsSound(db, columns, newMax, opts);
    if p.Plan? {
      RewrittenIndex(db, columns, names, p, db');
    }
  }

  /** Every operation on an open database keeps the reference index the index of what the slots hold. */
  lemma NextKeepsIndex(db: Db, log: seq<Row>, index: seq<Entry>, op: Op, db': Db)
    requires Inv(db, log) && IndexInv(db, index) && AllReadable(db) && Callable(db, op) && !op.Reopen?
    requires db.h.totalRecords + 1 < U32_LIMIT && WithinFoldLimit(db, op) && Next(db, op, db')
    ensures db'.h.recordsPerBlock > 0 && db'.h.indexStride > 0
    ensures IndexInv(db', IndexAfter(db, index, op, db'))
  {
    hide Fits, Inv, IndexInv, Write, Touch, AllReadable, RewriteStep, P.MakePlan, Fold, Resized, FastResize,
         FoldLength, LogAfter, DiskIndex, M.Migrated, M.ExtraMap;
    InvShape(db, log);
    NextKeeps(db, log, op, db');
    InvShape(db', LogAfter(db, log, op));
    match op
    case WriteRow(ts, vals, env, _) =>
      WriteKeeps(db, log, ts, vals, env);
      WriteIndex(db, log, index, ts, vals, env);
    case FoldHeader(header) =>
      FoldedIndex(db, index, header);
    case Resize(newMax, opts, names, header) =>
      if newMax != db.h.maxRecords {
        if FastResize(db.h, newMax) {
          ResizeIndex(db, log, index, newMax, header);
        } else {
          RewriteStepIndex(db, IdentityMap(Columns(db.h)), names, newMax, opts, db');
          RewriteStepKeeps(db, log, IdentityMap(Columns(db.h)), names, newMax, opts, db');
        }
      }
    case MigrateSchema(wanted, stored, opts) =>
      var columns := ColumnMap(wanted, stored);
      if !(db.h.extraParamCount == 0 && columns == IdentityMap(db.h.numParams)) {
        RewriteStepIndex(db, columns, wanted, db.h.maxRecords, opts, db');
        RewriteStepKeeps(db, log, columns, wanted, db.h.maxRecords, opts, db');
      }
    case AddColumns(count, region, header) =>
      if AddExtras(db, count, region, header).Added? {
        AddColumnsIndex(db, log, index, count, region, header);
      }
    case MigrateColumns(extra, present, region, header) =>
      MigrateColumnsIndex(db, log, index, op, db');
  }

  /** The index lies in front of the extras that a power cut can cost. */
  lemma LaggingIndex(db: Db, log: seq<Row>, index: seq<Entry>, f: Bytes)
    requires Inv(db, log) && IndexInv(db, index) && Lagging(db, f)
    ensures IndexInv(db.(file := f), index)
  {
    hide Fits, BlockOf, RowAt, Ready, RingEnd, EntryAt, Kept, SlotOf, OverflowPos, WholeExtras;
    LaggingKeeps(db, log, f);
    InvShape(db.(file := f), Reread(log, db.h, f));
    var h, last := db.h, db.h.totalRecords - 1;
    var d: Bytes :| |d| == 2 * h.extraParamCount && db.file == WriteAt(f, OverflowPos(h, last), d);
    OverflowStart(h, last);
    RingEndBehind(h);
    forall k: nat | k < |index|
      ensures EntryInv(db.(file := f), index, k)
    {
      assert EntryInv(db, index, k);
      if IndexSlot(h, k) < Available(h) {
        SlotLinear(h, IndexSlot(h, k));
        BehindRing(f, h, IndexSlot(h, k), OverflowPos(h, last), d);
      }
      SameEntry(db.file, f, h, k);
    }
  }

  // Reopens

  /** A reopen would find the header in the file, and so call the index good. */
  ghost predicate TrustsIndex(x: Node)
    requires |x.disk.d| == 2 && |x.disk.r| == 2
  {
    Finds(x) && !S.Adopts(x.disk) && IsSane(x.db.h)
  }

  /** `index` is the reference index, and is on disk wherever a reopen would call the index good, even
      if the handle still calls it stale. */
  ghost predicate IndexHolds(x: Node, index: seq<Entry>)
    requires |x.disk.d| == 2 && |x.disk.r| == 2
  {
    IndexInv(x.db, index) && (TrustsIndex(x) ==> IndexInv(x.db.(indexStale := false), index))
  }

  /** An index read from disk needs no flag. */
  lemma DiskIndexGood(db: Db)
    requires HasIndex(db.file, db.h) && IndexInv(db, DiskIndex(db.file, db.h))
    ensures IndexInv(db.(indexStale := false), DiskIndex(db.file, db.h))
  {
    hide Fits, BlockOf, RowAt, Ready, RingEnd, EntryAt, WholeExtras;
    var index := DiskIndex(db.file, db.h);
    forall k: nat | k < |index|
      ensures EntryInv(db.(indexStale := false), index, k)
    {
      assert EntryInv(db, index, k);
    }
  }

  /** A change of the overflow columns that a reopen would keep leaves an index that was good before. */
  lemma OverflowTrusts(x: Node, log: seq<Row>, op: Op, y: Node)
    requires R.NodeInv(x) && Inv(x.db, log) && x.db.h.totalRecords + 1 < U32_LIMIT && StepTo(x, op, y)
    requires (op.AddColumns? || op.MigrateColumns?) && R.NodeInv(y) && TrustsIndex(y)
    ensures TrustsIndex(x)
  {
    hide Inv, Shape, AllReadable, RingEnd, M.Extends, M.Present, S.Chosen, S.Placed, M.AlreadyMatches;
    ShapeGeometry(x.db);
    OverflowHeader(x.db, log, op, y.db);
    SameOffer(x.disk, y.db.h);
  }

  lemma SameOffer(disk: S.Disk, n: Header)
    requires |disk.d| == 2 && |disk.r| == 2 && n.paramNames == disk.inFile.paramNames
    ensures S.Chosen(disk.(inFile := n)) == S.Chosen(disk)
  {
  }

  /** It changes the overflow fields of the header alone. */
  lemma OverflowHeader(db: Db, log: seq<Row>, op: Op, db': Db)
    requires Inv(db, log) && AllReadable(db) && Callable(db, op) && Next(db, op, db')
    requires op.AddColumns? || op.MigrateColumns?
    ensures var h' := db'.h;
            h' == db.h.(extraParamCount := h'.extraParamCount, overflowRecordSize := h'.overflowRecordSize,
                        overflowOffset := h'.overflowOffset, firstOverflowRecordIdx := h'.firstOverflowRecordIdx)
  {
    hide Inv, RingEnd, M.Extends, M.Present, M.RecordCopied, M.AlreadyMatches, M.ExtraMap;
    if op.MigrateColumns? && op.extra != [] && !M.AlreadyMatches(op.extra, op.present) {
      var before: Bytes :| M.Migrated(db, M.ExtraMap(op.extra, op.present), op.region, op.header, before, db');
    }
  }

  /** It goes the same way whatever the flag. */
  lemma NextAside(db: Db, d: Db, op: Op, db': Db)
    requires Shape(db) && AllReadable(db) && Callable(db, op) && Next(db, op, db')
    requires d == db.(indexStale := false) && Shape(d) && AllReadable(d) && Callable(d, op)
    requires op.AddColumns? || op.MigrateColumns?
    ensures Next(d, op, db'.(indexStale := false))
  {
    hide Shape, AllReadable, RingEnd, M.Extends, M.Present, M.RecordCopied, M.AlreadyMatches, M.ExtraMap, Callable;
    if op.MigrateColumns? && op.extra != [] && !M.AlreadyMatches(op.extra, op.present) {
      var columns := M.ExtraMap(op.extra, op.present);
      var before: Bytes :| M.Migrated(db, columns, op.region, op.header, before, db');
      forall a: nat | db.h.firstOverflowRecordIdx <= a < db.h.totalRecords
        ensures M.RecordCopied(d, before, columns, a)
      {
        assert M.RecordCopied(db, before, columns, a);
        SameCopied(db, before, columns, a);
      }
      assert M.Migrated(d, columns, op.region, op.header, before, db'.(indexStale := false));
    }
  }

  lemma SameCopied(db: Db, out: Bytes, columns: seq<Option<nat>>, a: nat)
    requires db.h.firstOverflowRecordIdx <= a
    ensures M.RecordCopied(db.(indexStale := false), out, columns, a) == M.RecordCopied(db, out, columns, a)
  {
    hide M.RowCopied;
  }

  lemma OverflowHolds(x: Node, log: seq<Row>, index: seq<Entry>, op: Op, y: Node)
    requires R.NodeInv(x) && Inv(x.db, log) && x.db.h.totalRecords + 1 < U32_LIMIT && StepTo(x, op, y)
    requires (op.AddColumns? || op.MigrateColumns?) && R.NodeInv(y) && TrustsIndex(y) && IndexHolds(x, index)
    ensures IndexInv(y.db.(indexStale := false), index)
  {
    hide Inv, IndexInv, Shape, AllReadable, RingEnd, Next, S.Chosen, S.Placed, TrustsIndex, R.NodeInv, M.Present,
         SlotsAfter;
    ShapeGeometry(x.db);
    OverflowTrusts(x, log, op, y);
    OverflowHeader(x.db, log, op, y.db);
    var d := x.db.(indexStale := false);
    FlagsIrrelevant(x.db, log, x.db.adapted, false);
    InvShape(d, log);
    ViewIsNewest(d, log);
    CallableAside(x.db, op);
    NextAside(x.db, d, op, y.db);
    NextKeepsIndex(d, log, index, op, y.db.(indexStale := false));
  }

  lemma CallableAside(db: Db, op: Op)
    requires Callable(db, op) && (op.AddColumns? || op.MigrateColumns?)
    ensures Callable(db.(indexStale := false), op)
  {
    hide RingEnd, OverflowPos;
  }

  /** A write that fails leaves bytes in the missing block and nothing else. */
  lemma FailedWrite(db: Db, log: seq<Row>, ts: u32, vals: seq<i16>, env: Env)
    requires Inv(db, log) && |vals| == Columns(db.h) && db.h.recordsPerBlock > 0 && db.h.indexStride > 0
    requires GeometryOf(db.h).Valid() && WriteFails(db, env)
    ensures var g := GeometryOf(db.h);
            var at := BlockOffset(g, BlockOf(g, SlotOf(db.h, db.h.totalRecords)));
            Write(db, ts, vals, env).db == db.(file := TornFile(db.file, at, env.torn))
  {
    hide Inv, Grows, WriteSlot, TornFile, SlotOf, BlockOf, BlockOffset, Fits;
    GrowthOnlyWhileFilling(db, log);
  }

  lemma FailedHolds(x: Node, log: seq<Row>, index: seq<Entry>, op: Op, y: Node)
    requires Inv(x.db, log) && StepTo(x, op, y) && op.WriteRow? && x.db.h.recordsPerBlock > 0
    requires WriteFails(x.db, op.env)
    requires IndexInv(x.db.(indexStale := false), index)
    ensures IndexInv(y.db.(indexStale := false), index)
  {
    hide Inv, IndexInv, Shape, AllReadable, RingEnd, Write, SlotsAfter, SlotOf, BlockOf, BlockOffset, TornFile, Grows;
    ShapeGeometry(x.db);
    FailedWrite(x.db, log, op.ts, op.vals, op.env);
    FlagsIrrelevant(x.db, log, x.db.adapted, false);
    GrowsAside(x.db);
    TornIndex(x.db.(indexStale := false), log, index, op.env.torn);
  }

  lemma GrowsAside(db: Db)
    requires db.h.recordsPerBlock > 0
    ensures Grows(db.(indexStale := false)) == Grows(db)
  {
  }

  lemma ReopenHolds(x: Node, log: seq<Row>, index: seq<Entry>, op: Op, y: Node)
    requires Inv(x.db, log) && StepTo(x, op, y) && op.Reopen? && IndexHolds(x, index)
    ensures |y.disk.d| == 2 && |y.disk.r| == 2 && IndexHolds(y, index)
  {
    hide Inv, IndexInv, Shape, AllReadable, RingEnd, Lagging, IsSane, S.Chosen, S.Adopts, S.Open, WriteFails;
    ShapeGeometry(x.db);
    var stale := if op.adopted then x.db.indexStale else false;
    var d := x.db.(indexStale := stale);
    FlagsIrrelevant(x.db, log, x.db.adapted, stale);
    if op.onDisk != x.db.file {
      LaggingAside(x.db, op.onDisk, stale);
      LaggingIndex(d, log, index, op.onDisk);
    }
    FlagsIndex(d.(file := op.onDisk), index, false, op.adopted);
  }

  lemma LaggingAside(db: Db, f: Bytes, stale: bool)
    requires Lagging(db, f)
    ensures Lagging(db.(indexStale := stale), f)
  {
    hide OverflowPos, WholeExtras, WriteAt;
    var at := OverflowPos(db.h, db.h.totalRecords - 1);
    var d: Bytes :| |d| == 2 * db.h.extraParamCount && db.file == WriteAt(f, at, d);
    assert db.(indexStale := stale).file == WriteAt(f, at, d);
  }

  /** Every operation, a reopen included, keeps the reference index. */
  lemma StepKeepsIndex(x: Node, log: seq<Row>, index: seq<Entry>, op: Op, y: Node)
    requires R.NodeInv(x) && Inv(x.db, log) && x.db.h.totalRecords + 1 < U32_LIMIT && StepTo(x, op, y)
    requires IndexHolds(x, index) && x.db.h.indexStride > 0 && WithinFoldLimit(x.db, op)
    requires x.db.h.recordsPerBlock > 0 && y.db.h.recordsPerBlock > 0 && y.db.h.indexStride > 0
    ensures |y.disk.d| == 2 && |y.disk.r| == 2 && IndexHolds(y, IndexAfter(x.db, index, op, y.db))
  {
    hide Inv, IndexInv, Shape, AllReadable, R.NodeInv, Next, SlotsAfter, Callable, TrustsIndex, WithinFoldLimit, Touch,
         WriteFails,
         RewriteMap, DiskIndex, HasIndex, FastResize;
    R.StepKeepsNode(x, log, op, y);
    R.NodeSized(y);
    if op.Reopen? {
      ReopenHolds(x, log, index, op, y);
      NotRewritten(x.db, op);
    } else {
      NextKeepsIndex(x.db, log, index, op, y.db);
      if TrustsIndex(y) {
        StepTrusts(x, log, index, op, y);
      }
    }
  }

  lemma NotRewritten(db: Db, op: Op)
    requires db.h.indexStride > 0 && !op.Resize? && !op.MigrateSchema?
    ensures RewriteMap(db, op).None?
  {
  }

  lemma StepTrusts(x: Node, log: seq<Row>, index: seq<Entry>, op: Op, y: Node)
    requires R.NodeInv(x) && Inv(x.db, log) && x.db.h.totalRecords + 1 < U32_LIMIT && StepTo(x, op, y)
    requires IndexHolds(x, index) && x.db.h.indexStride > 0 && !op.Reopen?
    requires x.db.h.recordsPerBlock > 0 && y.db.h.recordsPerBlock > 0 && y.db.h.indexStride > 0
    requires R.NodeInv(y) && IndexInv(y.db, IndexAfter(x.db, index, op, y.db)) && TrustsIndex(y)
    ensures IndexInv(y.db.(indexStale := false), IndexAfter(x.db, index, op, y.db))
  {
    hide Inv, IndexInv, Shape, AllReadable, R.NodeInv, Callable, Touch, WriteFails, P.MakePlan, DiskIndex, HasIndex,
         FastResize,
         Write, Fold, RewriteStep, S.Chosen, S.Adopts, S.Reopened, IsSane, M.Migrated, M.AlreadyMatches, M.ExtraMap,
         S.WriteImages, S.FoldImages, S.AfterWrite, S.AfterFold;
    ShapeGeometry(x.db);
    match op
    case WriteRow(ts, vals, env, _) =>
      if WriteFails(x.db, env) {
        R.FailedSame(x, log, op, y);
        FailedHolds(x, log, index, op, y);
      } else {
        R.StoredAdopts(x, log, op, y);
      }
    case FoldHeader(header) =>
      FoldFlag(x.db, header);
    case Resize(newMax, opts, names, header) =>
      if newMax != x.db.h.maxRecords && FastResize(x.db.h, newMax) {
        FoldFlag(x.db.(h := x.db.h.(maxRecords := newMax)), header);
      } else if RewriteMap(x.db, op).Some? {
        RewriteStepIndex(x.db, IdentityMap(Columns(x.db.h)), names, newMax, opts, y.db);
        DiskIndexGood(y.db);
      } else {
        RefusedSame(x, op, y);
      }
    case MigrateSchema(wanted, stored, opts) =>
      if RewriteMap(x.db, op).Some? {
        RewriteStepIndex(x.db, ColumnMap(wanted, stored), wanted, x.db.h.maxRecords, opts, y.db);
        DiskIndexGood(y.db);
      } else {
        RefusedSame(x, op, y);
      }
    case AddColumns(count, region, header) =>
      OverflowHolds(x, log, index, op, y);
    case MigrateColumns(extra, present, region, header) =>
      OverflowHolds(x, log, index, op, y);
  }

  lemma FoldFlag(db: Db, header: Bytes)
    requires db.h.recordsPerBlock > 0 && db.h.indexStride > 0 && db.h.totalRecords < U32_LIMIT
    ensures !Fold(db, header).indexStale
  {
  }

  /** A resize or schema migration that neither folds nor rewrites changes nothing. */
  lemma RefusedSame(x: Node, op: Op, y: Node)
    requires StepTo(x, op, y) && (op.Resize? || op.MigrateSchema?)
    requires x.db.h.recordsPerBlock > 0 && x.db.h.indexStride > 0 && RewriteMap(x.db, op).None? && !Folds(x.db, op)
    ensures y.db == x.db && y.disk == x.disk
  {
    hide Shape, AllReadable, P.MakePlan, FastResize, WriteFails;
    ShapeGeometry(x.db);
  }

  /** The reference index after the first `n` operations of a run. */
  ghost function IndexOf(states: seq<Node>, ops: seq<Op>, index: seq<Entry>, n: nat): seq<Entry>
    requires IsRun(states, ops) && n <= |ops|
    requires forall i :: 0 <= i < |states| ==> Divisors(states[i])
  {
    if n == 0 then index
    else IndexAfter(states[n - 1].db, IndexOf(states, ops, index, n - 1), ops[n - 1], states[n].db)
  }

  ghost predicate Divisors(x: Node) {
    x.db.h.recordsPerBlock > 0 && x.db.h.indexStride > 0
  }

  /** Header and index fit the fold buffer throughout the run. */
  ghost predicate FoldsWithin(states: seq<Node>, ops: seq<Op>)
    requires |ops| < |states|
  {
    forall i :: 0 <= i < |ops| ==> states[i].db.h.indexStride > 0 && WithinFoldLimit(states[i].db, ops[i])
  }

  lemma {:induction false} RunKeepsIndex(states: seq<Node>, ops: seq<Op>, log: seq<Row>, index: seq<Entry>, n: nat)
    requires IsRun(states, ops) && n <= |ops| && R.NodeInv(states[0]) && Inv(states[0].db, log)
    requires states[0].db.h.totalRecords + |ops| + 1 < U32_LIMIT && FoldsWithin(states, ops)
    requires forall i :: 0 <= i < |states| ==> Divisors(states[i])
    requires IndexHolds(states[0], index)
    ensures |states[n].disk.d| == 2 && |states[n].disk.r| == 2
    ensures IndexHolds(states[n], IndexOf(states, ops, index, n))
  {
    hide Inv, IndexHolds, StepTo, IndexAfter, WithinFoldLimit, LogOf, R.NodeInv;
    R.NodeSized(states[0]);
    if n > 0 {
      RunKeepsIndex(states, ops, log, index, n - 1);
      RunKeeps(states, ops, log, n - 1);
      R.RunKeepsNode(states, ops, log, n - 1);
      var x, y := states[n - 1], states[n - 1 + 1];
      assert StepTo(x, ops[n - 1], y) && Divisors(x) && Divisors(y);
      StepKeepsIndex(x, LogOf(states, ops, log, n - 1), IndexOf(states, ops, index, n - 1), ops[n - 1], y);
    }
  }

  /** After any run, a fold leaves on disk exactly the index that per-write updates would have
      produced. */
  lemma FoldAfterRun(states: seq<Node>, ops: seq<Op>, log: seq<Row>, index: seq<Entry>, header: Bytes)
    requires IsRun(states, ops) && R.NodeInv(states[0]) && Inv(states[0].db, log) && IndexHolds(states[0], index)
    requires states[0].db.h.totalRecords + |ops| + 1 < U32_LIMIT && |header| == HEADER_SIZE
    requires (forall i :: 0 <= i < |states| ==> Divisors(states[i])) && FoldsWithin(states, ops)
    requires Divisors(states[|ops|]) && states[|ops|].db.h.totalRecords < U32_LIMIT
    requires FoldLength(states[|ops|].db) <= FOLD_MAX_BYTES
    ensures var folded := Fold(states[|ops|].db, header);
            && HasIndex(folded.file, folded.h)
            && DiskIndex(folded.file, folded.h) == IndexOf(states, ops, index, |ops|)
  {
    hide Inv, IndexInv, StepTo, IndexOf, FoldLength, FoldsWithin, R.NodeInv, TrustsIndex;
    RunKeepsIndex(states, ops, log, index, |ops|);
    FoldedIndex(states[|ops|].db, IndexOf(states, ops, index, |ops|), header);
  }

  // Entries of unwritten slots

  lemma SameTail(index: seq<Entry>, h: Header, h': Header)
    requires EmptyTail(index, h) && Available(h') == Available(h) && h'.indexStride == h.indexStride
    ensures EmptyTail(index, h')
  {
    hide Available;
    forall k: nat | k < |index| && IndexSlot(h', k) >= Available(h')
      ensures index[k].ts == 0
    {
      assert IndexSlot(h', k) == IndexSlot(h, k);
    }
  }

  lemma {:induction false} StoreTail(db: Db, log: seq<Row>, index: seq<Entry>, ts: u32, vals: seq<i16>, env: Env,
                                     retries: nat)
    requires Inv(db, log) && EmptyTail(index, db.h) && db.h.totalRecords + 1 < U32_LIMIT
    requires |vals| == db.h.numParams + db.h.extraParamCount
    ensures var r := Store(db, ts, vals, env, retries);
            && GeometryOf(r.db.h) == GeometryOf(db.h) && r.db.h.indexStride == db.h.indexStride
            && r.db.h.extraParamCount == db.h.extraParamCount
            && (if r.ok
                then
                  var done := Finish(r.db, ts, vals, Lands(r.db.file, r.db.h, env));
                  EmptyTail(Touch(index, done.h, ts), done.h)
                else EmptyTail(index, r.db.h))
    decreases if db.adapted then 0 else 1
  {
    hide Inv, Grows, SlotOf, Fits, BlockOf, WriteSlot, Advanced, TornFile, AppendExtras, BlockOffset, Touch,
         Lands, OverflowPos, Shape, EmptyTail;
    InvShape(db, log);
    ShapeGeometry(db);
    StoreKeepsShape(db, ts, vals, env, retries);
    if Grows(db) && !env.growth.Granted? {
      var g := GeometryOf(db.h);
      var at := BlockOffset(g, BlockOf(g, SlotOf(db.h, db.h.totalRecords)));
      var left := db.(file := TornFile(db.file, at, env.torn));
      GrowthOnlyWhileFilling(db, log);
      TornKeeps(db, log, env.torn);
      if CapHelps(db, env) {
        CapKeeps(left, log);
        SameTail(index, db.h, Capped(left).h);
        StoreTail(Capped(left), log, index, ts, vals, env, retries + 1);
      }
    } else {
      var stored := Store(db, ts, vals, env, retries).db;
      var done := Finish(stored, ts, vals, Lands(stored.file, stored.h, env));
      AdvancedFields(db.h, done.file, ts);
      AdvancedSlot(db.h, done.file, ts);
      TouchKeepsEmptyTail(index, db.h, done.h, ts);
    }
  }

  lemma WriteTail(db: Db, log: seq<Row>, index: seq<Entry>, ts: u32, vals: seq<i16>, env: Env)
    requires Inv(db, log) && EmptyTail(index, db.h) && db.h.totalRecords + 1 < U32_LIMIT
    requires |vals| == db.h.numParams + db.h.extraParamCount
    ensures var r := Write(db, ts, vals, env);
            && r.db.h.indexStride > 0 && r.db.h.recordsPerBlock > 0
            && EmptyTail(if r.ok then Touch(index, r.db.h, ts) else index, r.db.h)
  {
    hide Inv, Grows, Store, Finish, Touch, Shape, Lands, EmptyTail;
    InvShape(db, log);
    ShapeGeometry(db);
    if GuardFires(db, env) {
      CapKeeps(db, log);
      SameTail(index, db.h, Capped(db).h);
    }
    StoreTail(Guarded(db, env), log, index, ts, vals, env, 0);
    WriteKeeps(db, log, ts, vals, env);
    var r := Write(db, ts, vals, env);
    InvShape(r.db, if r.ok then log + [Stored(db, ts, vals, env)] else log);
    ShapeGeometry(r.db);
  }

  lemma RewriteTail(db: Db, columns: seq<Option<nat>>, names: seq<string>, newMax: nat,
                    opts: Option<P.Options>, db': Db)
    requires Shape(db) && AllReadable(db) && 0 < |columns| <= MAX_PARAMS
    requires RewriteStep(db, columns, names, newMax, opts, db')
    ensures P.MakePlan(db.h, |columns|, newMax, opts).Plan? ==>
              HasIndex(db'.file, db'.h) && EmptyTail(DiskIndex(db'.file, db'.h), db'.h)
  {
    hide Fits, AllReadable, P.MakePlan, RingEnd, NewRows, EntryAt, EntryFor, Holds, WholeExtras;
    var p := P.MakePlan(db.h, |columns|, newMax, opts);
    PlanIsSound(db, columns, newMax, opts);
    if p.Plan? {
      var rows := NewRows(db, columns, p);
      forall k: nat | k < db'.h.indexEntries
        ensures HasEntry(db'.file, db'.h, k)
        ensures IndexSlot(db'.h, k) >= |rows| ==> EntryAt(db'.file, db'.h, k).ts == 0
      {
        assert EntryDone(db'.file, db'.h, rows, k);
      }
      assert Available(db'.h) == |rows|;
    }
  }

  /** Every operation leaves the entries of slots without a record empty. */
  lemma NextKeepsTail(db: Db, log: seq<Row>, index: seq<Entry>, op: Op, db': Db)
    requires Inv(db, log) && EmptyTail(index, db.h) && AllReadable(db) && Callable(db, op)
    requires db.h.totalRecords + 1 < U32_LIMIT && Next(db, op, db')
    ensures db'.h.recordsPerBlock > 0 && db'.h.indexStride > 0
    ensures EmptyTail(IndexAfter(db, index, op, db'), db'.h)
  {
    hide Fits, Inv, EmptyTail, Write, Touch, AllReadable, RewriteStep, P.MakePlan, Fold, Resized,
         LogAfter, DiskIndex, M.Extends, M.ExtraMap, Shape, M.Present, WriteFails, HasIndex;
    InvShape(db, log);
    ShapeGeometry(db);
    NextKeeps(db, log, op, db');
    InvShape(db', LogAfter(db, log, op));
    ShapeGeometry(db');
    match op
    case WriteRow(ts, vals, env, _) =>
      WriteKeeps(db, log, ts, vals, env);
      WriteTail(db, log, index, ts, vals, env);
    case FoldHeader(header) =>
      FoldTotal(db, header);
    case Resize(newMax, opts, names, header) =>
      if newMax != db.h.maxRecords {
        if FastResize(db.h, newMax) {
          ResizedTotal(db, newMax, header);
          SameTail(index, db.h, db'.h);
        } else {
          RewriteTail(db, IdentityMap(Columns(db.h)), names, newMax, opts, db');
          RewriteStepKeeps(db, log, IdentityMap(Columns(db.h)), names, newMax, opts, db');
        }
      }
    case MigrateSchema(wanted, stored, opts) =>
      var columns := ColumnMap(wanted, stored);
      if !(db.h.extraParamCount == 0 && columns == IdentityMap(db.h.numParams)) {
        RewriteTail(db, columns, wanted, db.h.maxRecords, opts, db');
        RewriteStepKeeps(db, log, columns, wanted, db.h.maxRecords, opts, db');
      }
    case AddColumns(count, region, header) =>
      SameTail(index, db.h, db'.h);
    case MigrateColumns(extra, present, region, header) =>
      SameTail(index, db.h, db'.h);
    case Reopen(adopted, onDisk) =>
  }

  lemma {:induction false} RunKeepsTail(states: seq<Node>, ops: seq<Op>, log: seq<Row>, index: seq<Entry>, n: nat)
    requires IsRun(states, ops) && n <= |ops| && Inv(states[0].db, log) && EmptyTail(index, states[0].db.h)
    requires states[0].db.h.totalRecords + |ops| + 1 < U32_LIMIT
    requires forall i :: 0 <= i < |states| ==> Divisors(states[i])
    ensures EmptyTail(IndexOf(states, ops, index, n), states[n].db.h)
  {
    hide Inv, EmptyTail, Next, LogAfter, Callable, Shape, AllReadable, IndexAfter, LogOf, SlotsAfter, Finds;
    if n > 0 {
      RunKeepsTail(states, ops, log, index, n - 1);
      RunKeeps(states, ops, log, n - 1);
      var x, y := states[n - 1], states[n - 1 + 1];
      assert StepTo(x, ops[n - 1], y) && Divisors(x) && Divisors(y);
      NextKeepsTail(x.db, LogOf(states, ops, log, n - 1), IndexOf(states, ops, index, n - 1), ops[n - 1], y.db);
    }
  }

  /** The divisors of every state of a run are positive. */
  lemma RunDivisors(states: seq<Node>, ops: seq<Op>, log: seq<Row>, i: nat)
    requires IsRun(states, ops) && i <= |ops| && Inv(states[0].db, log)
    requires states[0].db.h.totalRecords + |ops| + 1 < U32_LIMIT
    ensures Divisors(states[i])
  {
    hide Inv, StepTo, LogOf, Shape;
    RunKeeps(states, ops, log, i);
    InvShape(states[i].db, LogOf(states, ops, log, i));
    ShapeGeometry(states[i].db);
  }

  // Looking up a timestamp

  /** The newest row among every stride-th one that is not after `ts`, as far as the index reaches. */
  ghost predicate LastIndexed(h: Header, log: seq<Row>, ts: u32, k: nat)
    requires h.indexStride > 0 && h.totalRecords <= |log|
  {
    && k < EntriesInUse(h) && IndexSlot(h, k) < h.totalRecords && IndexedRow(h, log, k).ts <= ts
    && forall j: nat :: k < j < EntriesInUse(h) && IndexSlot(h, j) < h.totalRecords ==> IndexedRow(h, log, j).ts > ts
  }

  /** `block` is where to start reading for `ts`: the first block before the first row, the last one
      after the last row, and in between the block of the last indexed row not after `ts`. */
  ghost predicate Answers(h: Header, log: seq<Row>, ts: u32, block: nat)
    requires h.indexStride > 0 && h.recordsPerBlock > 0 && 0 < h.totalRecords <= |log|
  {
    var last := h.totalRecords - 1;
    if ts < LogRow(h, log, 0).ts then block == 0
    else if ts > LogRow(h, log, last).ts then block == last / h.recordsPerBlock
    else exists k: nat :: LastIndexed(h, log, ts, k) && block == IndexSlot(h, k) / h.recordsPerBlock
  }

  /** The search in a folded index, for a ring that has not wrapped. */
  method LookUpFolded(db: Db, ts: u32, ghost log: seq<Row>, ghost index: seq<Entry>) returns (r: Found)
    requires Inv(db, log) && IndexInv(db, index) && !db.indexStale && EmptyTail(index, db.h)
    requires db.h.maxRecords == 0 || db.h.totalRecords <= db.h.maxRecords
    requires StrictlyRising(db.h, log) && 0 < db.h.totalRecords && 0 < db.h.indexEntries
    ensures r.Found? && Answers(db.h, log, ts, r.block)
  {
    hide Inv, IndexInv, EmptyTail, StrictlyRising, Shape, EntryAt, EntriesInUse, IndexSlot;
    InvShape(db, log);
    ShapeGeometry(db);
    NeverWrapped(db, log, index);
    Bounds(db, log);
    ghost var m := EntriesInUse(db.h);
    r := FindBlock(db.file, db.h, ts, m);
    if db.h.oldestTimestamp <= ts <= db.h.newestTimestamp {
      FirstEntryInUse(db.h);
      LastExists(db.file, db.h, m, ts);
      ghost var k: nat :| LastNotAfter(db.file, db.h, m, ts, k) && r.block == EntryAt(db.file, db.h, k).block;
      LastIsIndexed(db, log, m, ts, k);
    }
  }

  /** The header of a ring that has not wrapped bounds the rows. */
  lemma Bounds(db: Db, log: seq<Row>)
    requires Inv(db, log) && 0 < db.h.totalRecords && (db.h.maxRecords == 0 || db.h.totalRecords <= db.h.maxRecords)
    ensures db.h.totalRecords <= |log| && db.h.oldestTimestamp == LogRow(db.h, log, 0).ts
    ensures db.h.newestTimestamp == LogRow(db.h, log, db.h.totalRecords - 1).ts
    ensures db.h.oldestRecordIdx == 0 && db.h.newestRecordIdx == db.h.totalRecords - 1
    ensures db.h.recordsPerBlock > 0 && 0 / db.h.recordsPerBlock == 0
  {
    hide Fits, RingEnd, Kept, WholeExtras, SlotOf;
    SlotLinear(db.h, db.h.totalRecords - 1);
    if Evicts(db.h) {
      ModAdd(0, db.h.maxRecords);
      ModSmall(0, db.h.maxRecords);
    }
    ModSmall(0, db.h.recordsPerBlock);
  }

  lemma FirstEntryInUse(h: Header)
    requires h.indexStride > 0 && 0 < h.totalRecords && 0 < h.indexEntries
    requires h.maxRecords == 0 || h.totalRecords <= h.maxRecords
    ensures 0 < EntriesInUse(h) && IndexSlot(h, 0) == 0
  {
    hide Blocks;
    LastSlotBelow(Available(h), h.indexStride, 0);
  }

  /** Inside the bounds some entry is not after the target. */
  lemma {:induction false} LastExists(f: Bytes, h: Header, m: nat, ts: u32)
    requires Usable(f, h, m) && 0 < m && EntryAt(f, h, 0).ts <= ts
    ensures exists k: nat :: LastNotAfter(f, h, m, ts, k)
  {
    hide EntryAt;
    var k := m - 1;
    while EntryAt(f, h, k).ts > ts
      invariant k < m && forall j: nat :: k < j < m ==> EntryAt(f, h, j).ts > ts
      decreases k
    {
      k := k - 1;
    }
    assert LastNotAfter(f, h, m, ts, k);
  }

  lemma LastIsIndexed(db: Db, log: seq<Row>, m: nat, ts: u32, k: nat)
    requires db.h.indexStride > 0 && db.h.recordsPerBlock > 0 && db.h.totalRecords <= |log| && m == EntriesInUse(db.h)
    requires Usable(db.file, db.h, m) && LastNotAfter(db.file, db.h, m, ts, k)
    requires forall k: nat :: k < m ==>
               && IndexSlot(db.h, k) < db.h.totalRecords
               && EntryAt(db.file, db.h, k).ts == IndexedRow(db.h, log, k).ts
               && EntryAt(db.file, db.h, k).block == IndexSlot(db.h, k) / db.h.recordsPerBlock
    ensures LastIndexed(db.h, log, ts, k)
    ensures EntryAt(db.file, db.h, k).block == IndexSlot(db.h, k) / db.h.recordsPerBlock
  {
    hide EntryAt, EntriesInUse, IndexSlot, IndexedRow;
  }

  /** A run from the creation of a database, without slots, within the fold limit. */
  ghost predicate CreatedRun(states: seq<Node>, ops: seq<Op>, columns: nat, max: nat, stride: nat, names: seq<string>) {
    && 0 < columns <= MAX_PARAMS && stride > 0 && |ops| + 1 < U32_LIMIT
    && IsRun(states, ops) && FoldsWithin(states, ops)
    && states[0] == R.CreatedState(columns, max, stride, names)
  }

  /** Such a run leaves a reference index whose unused entries are empty. */
  lemma CreatedRunIndex(states: seq<Node>, ops: seq<Op>, columns: nat, max: nat, stride: nat, names: seq<string>)
    returns (index: seq<Entry>)
    requires CreatedRun(states, ops, columns, max, stride, names)
    ensures Inv(states[|ops|].db, LogOf(states, ops, [], |ops|))
    ensures IndexInv(states[|ops|].db, index) && EmptyTail(index, states[|ops|].db.h)
  {
    hide Inv, IndexInv, EmptyTail, StepTo, FoldsWithin, LogOf, IndexOf, CreatedHeader, R.NodeInv, TrustsIndex, Created;
    var db := states[0].db;
    CreatedHolds(columns, max, stride, names);
    CreatedIndex(columns, max, stride, names);
    CreatedTotal(columns, max, stride, names);
    R.CreatedNode(columns, max, stride, names);
    R.NodeSized(states[0]);
    forall i | 0 <= i < |states|
      ensures Divisors(states[i])
    {
      RunDivisors(states, ops, [], i);
    }
    RunKeeps(states, ops, [], |ops|);
    RunKeepsIndex(states, ops, [], NoEntries(db.h), |ops|);
    RunKeepsTail(states, ops, [], NoEntries(db.h), |ops|);
    index := IndexOf(states, ops, NoEntries(db.h), |ops|);
  }

  lemma CreatedTotal(columns: nat, max: nat, stride: nat, names: seq<string>)
    requires 0 < columns <= MAX_PARAMS && stride > 0
    ensures var db := Created(columns, max, stride, names);
            db.h.totalRecords == 0 && db.(indexStale := false) == db
  {
  }

  /** From creation through any run that leaves a ring that has not wrapped, with nonzero strictly
      increasing timestamps, and a fold: the search answers for every timestamp. */
  method LookUp(db: Db, header: Bytes, ts: u32, ghost states: seq<Node>, ghost ops: seq<Op>,
                ghost columns: nat, ghost max: nat, ghost stride: nat, ghost names: seq<string>)
    returns (r: Found)
    requires |header| == HEADER_SIZE && CreatedRun(states, ops, columns, max, stride, names) && states[|ops|].db == db
    requires db.h.indexStride > 0 && FoldLength(db) <= FOLD_MAX_BYTES
    requires db.h.maxRecords == 0 || db.h.totalRecords <= db.h.maxRecords
    requires 0 < db.h.totalRecords <= |LogOf(states, ops, [], |ops|)| && 0 < db.h.indexEntries
    requires StrictlyRising(db.h, LogOf(states, ops, [], |ops|))
    ensures r.Found? && db.h.recordsPerBlock > 0 && Answers(db.h, LogOf(states, ops, [], |ops|), ts, r.block)
  {
    hide Inv, IndexInv, EmptyTail, StrictlyRising, FoldBytes, FoldLength, Answers, LogOf, StepTo, FoldsWithin;
    ghost var log := LogOf(states, ops, [], |ops|);
    ghost var index := CreatedRunIndex(states, ops, columns, max, stride, names);
    InvShape(db, log);
    ShapeGeometry(db);
    var folded := Fold(db, header);
    FoldedIndex(db, index, header);
    FoldKeeps(db, log, header);
    r := LookUpFolded(folded, ts, log, index);
  }

  function NoEntries(h: Header): (index: seq<Entry>)
    ensures |index| == h.indexEntries && forall k :: 0 <= k < |index| ==> index[k] == Entry(0, 0)
  {
    seq(h.indexEntries, _ => Entry(0, 0))
  }

  /** A created database starts with an empty reference index. */
  lemma CreatedIndex(columns: nat, max: nat, stride: nat, names: seq<string>)
    requires 0 < columns <= MAX_PARAMS && stride > 0
    ensures var db := Created(columns, max, stride, names);
            IndexInv(db, NoEntries(db.h)) && EmptyTail(NoEntries(db.h), db.h)
  {
    hide Fits, RingEnd, Ready, RowAt, BlockOf, RecordsPerBlock;
    var db := Created(columns, max, stride, names);
    CreatedHolds(columns, max, stride, names);
    InvShape(db, []);
    var index := NoEntries(db.h);
    forall k: nat | k < |index|
      ensures EntryInv(db, index, k)
    {
      assert db.file[db.h.indexOffset + 8 * k] == 0;
    }
  }
}
