/** Whole runs of the engine: writes with their caps and retries, header folds, fast and slow
    resizes, schema migrations, changes of the overflow columns and reopens, in any order, together
    with the slot files beside the database that each of them writes, removes or leaves alone. */
module Engine {
  import opened Arith
  import opened Bytes
  import opened Layout
  import opened Storage
  import opened Ring
  import opened Retained
  import opened Index
  import P = Plan
  import opened Rewrite
  import opened Overflow
  import M = OverflowMigration
  import opened Unsynced
  import S = Sidecar

  /** A write that caps the capacity also writes the header into the file, if that succeeds (`persists`). */
  datatype Op =
    | WriteRow(ts: u32, vals: seq<i16>, env: Env, persists: bool)
    | FoldHeader(header: Bytes)
    | Resize(newMax: nat, opts: Option<P.Options>, names: seq<string>, header: Bytes)
    | MigrateSchema(wanted: seq<string>, stored: seq<Option<string>>, opts: Option<P.Options>)
    | AddColumns(count: nat, region: Bytes, header: Bytes)
    | MigrateColumns(extra: seq<string>, present: seq<string>, region: Bytes, header: Bytes)
    | Reopen(adopted: bool, onDisk: Bytes)

  /** What the caller of an operation owes it. */
  ghost predicate Callable(db: Db, op: Op) {
    match op
    case WriteRow(_, vals, _, _) => |vals| == Columns(db.h)
    case FoldHeader(header) => |header| == HEADER_SIZE
    case Resize(_, _, _, header) => |header| == HEADER_SIZE && Columns(db.h) <= MAX_PARAMS
    case MigrateSchema(wanted, stored, _) =>
      0 < |wanted| <= MAX_PARAMS && |stored| == Columns(db.h) <= MAX_PARAMS
    case AddColumns(_, region, header) =>
      // The region must come to lie behind every block the ring can use.
      && |region| == OVERFLOW_HEADER_SIZE && |header| == HEADER_SIZE
      && db.h.maxRecords > 0 && db.h.recordsPerBlock > 0 && RingEnd(db.h) <= |db.file|
    case MigrateColumns(extra, present, region, header) =>
      && |extra| <= MAX_EXTRA_PARAMS && 0 < |present| == db.h.extraParamCount
      && |region| == OVERFLOW_HEADER_SIZE && |header| == HEADER_SIZE
      // No append of extras is missing at the end of the file.
      && (db.h.totalRecords > 0 ==> M.Present(db, db.h.totalRecords - 1))
    case Reopen(_, onDisk) => IsSane(db.h) && (onDisk == db.file || Lagging(db, onDisk))
  }

  // Resize

  /** The layout is still linear, the new capacity covers every record and there is no overflow
      region: a header-only change. */
  predicate FastResize(h: Header, newMax: nat) {
    && h.oldestRecordIdx == 0 && (h.maxRecords == 0 || h.totalRecords <= h.maxRecords)
    && (newMax == 0 || newMax >= h.totalRecords)
    && h.extraParamCount == 0
  }

  function Resized(db: Db, newMax: nat, header: Bytes): Db
    requires db.h.recordsPerBlock > 0 && db.h.indexStride > 0 && db.h.totalRecords < U32_LIMIT
  {
    Fold(db.(h := db.h.(maxRecords := newMax)), header).(adapted := false)
  }

  // Reopening

  /** The handle starts afresh on the file on disk; the index is stale exactly when a slot was adopted.
      After a power cut the file may lack the extras of the newest record. */
  function Restarted(db: Db, adopted: bool, onDisk: Bytes): Db {
    db.(file := onDisk, adapted := false, indexStale := adopted)
  }

  /** One operation takes `db` to `db'`. */
  ghost predicate Next(db: Db, op: Op, db': Db)
    requires Shape(db) && AllReadable(db) && Callable(db, op)
  {
    match op
    case WriteRow(ts, vals, env, _) => db' == Write(db, ts, vals, env).db
    case FoldHeader(header) => db' == Fold(db, header)
    case Resize(newMax, opts, names, header) =>
      if newMax == db.h.maxRecords then db' == db
      else if FastResize(db.h, newMax) then db' == Resized(db, newMax, header)
      else RewriteStep(db, IdentityMap(Columns(db.h)), names, newMax, opts, db')
    case MigrateSchema(wanted, stored, opts) =>
      var columns := ColumnMap(wanted, stored);
      if db.h.extraParamCount == 0 && columns == IdentityMap(db.h.numParams) then db' == db
      else RewriteStep(db, columns, wanted, db.h.maxRecords, opts, db')
    case AddColumns(count, region, header) =>
      var r := AddExtras(db, count, region, header);
      db' == if r.Added? then r.db else db
    case MigrateColumns(extra, present, region, header) =>
      if extra == [] then db' == M.DropExtras(db, header)
      else if M.AlreadyMatches(extra, present) then db' == db
      else exists before: Bytes :: M.Migrated(db, M.ExtraMap(extra, present), region, header, before, db')
    case Reopen(adopted, onDisk) => db' == Restarted(db, adopted, onDisk)
  }

  ghost predicate RewriteStep(db: Db, columns: seq<Option<nat>>, names: seq<string>, newMax: nat,
                              opts: Option<P.Options>, db': Db)
    requires Shape(db) && AllReadable(db) && 0 < |columns| <= MAX_PARAMS
  {
    var p := P.MakePlan(db.h, |columns|, newMax, opts);
    PlanIsSound(db, columns, newMax, opts);
    if p.Refused? then db' == db else Rewritten(db, columns, names, p, db')
  }

  lemma PlanIsSound(db: Db, columns: seq<Option<nat>>, newMax: nat, opts: Option<P.Options>)
    requires Shape(db) && 0 < |columns| <= MAX_PARAMS
    ensures P.MakePlan(db.h, |columns|, newMax, opts).Plan? ==>
              Sound(db, columns, P.MakePlan(db.h, |columns|, newMax, opts))
  {
    hide Fits, RingEnd;
    P.PlanSound(db.h, |columns|, newMax, opts);
  }

  // The log

  /** The column map under which an operation rewrites the database, if it does. */
  function RewriteMap(db: Db, op: Op): Option<seq<Option<nat>>>
    requires db.h.indexStride > 0
  {
    match op
    case Resize(newMax, opts, _, _) =>
      if newMax == db.h.maxRecords || FastResize(db.h, newMax) || !(0 < Columns(db.h) <= MAX_PARAMS)
         || P.MakePlan(db.h, Columns(db.h), newMax, opts).Refused?
      then None else Some(IdentityMap(Columns(db.h)))
    case MigrateSchema(wanted, stored, opts) =>
      if (db.h.extraParamCount == 0 && ColumnMap(wanted, stored) == IdentityMap(db.h.numParams))
         || !(0 < |wanted| <= MAX_PARAMS)
         || P.MakePlan(db.h, |wanted|, db.h.maxRecords, opts).Refused?
      then None else Some(ColumnMap(wanted, stored))
    case _ => None
  }

  /** The abstract log never forgets a row: a successful write appends one, a rewrite presents all
      of them under the new schema, a change of the extra columns changes those of the rows that have
      any, a power cut can cost the newest row its extras, everything else leaves it alone. */
  function LogAfter(db: Db, log: seq<Row>, op: Op): seq<Row>
    requires GeometryOf(db.h).rpb > 0 && db.h.indexStride > 0
  {
    if op.WriteRow? then
      if WriteFails(db, op.env) || |op.vals| != Columns(db.h) then log else log + [Stored(db, op.ts, op.vals, op.env)]
    else if RewriteMap(db, op).Some? then RemapAll(FittedAll(log, Columns(db.h)), RewriteMap(db, op).value)
    else if op.MigrateColumns? then
      if op.extra == [] then M.BaseLog(log, db.h.numParams)
      else if M.AlreadyMatches(op.extra, op.present) then log
      else M.MigratedLog(log, db.h.numParams, M.ExtraMap(op.extra, op.present))
    else if op.Reopen? && op.onDisk != db.file then Reread(log, db.h, op.onDisk)
    else log
  }

  // Preservation, operation by operation

  lemma ResizeKeeps(db: Db, log: seq<Row>, newMax: nat, header: Bytes)
    requires Inv(db, log) && FastResize(db.h, newMax) && |header| == HEADER_SIZE
    ensures Inv(Resized(db, newMax, header), log)
  {
    var r := db.(h := db.h.(maxRecords := newMax));
    assert Inv(r, log) by { CapacityKeeps(db, log, newMax); }
    FoldKeeps(r, log, header);
    FlagsIrrelevant(Fold(r, header), log, false, false);
  }

  /** While the layout is linear, any capacity that covers the records addresses them alike. */
  lemma CapacityKeeps(db: Db, log: seq<Row>, newMax: nat)
    requires Inv(db, log) && FastResize(db.h, newMax)
    ensures Inv(db.(h := db.h.(maxRecords := newMax)), log)
  {
    hide Fits, Kept, RingEnd, Decode, RowAt, Ready, BlockOf, SlotOf, OverflowPos;
    var r := db.(h := db.h.(maxRecords := newMax));
    if newMax > 0 && newMax == db.h.totalRecords {
      ModAdd(0, newMax);
      ModSmall(0, newMax);
    }
    if db.h.totalRecords > 0 {
      SlotLinear(db.h, db.h.totalRecords - 1);
      SlotLinear(r.h, db.h.totalRecords - 1);
    }
    forall a: nat | InWindow(r.h, a)
      ensures Kept(r, log, a)
    {
      assert InWindow(db.h, a);
      KeptHasBlock(db, log, a);
      SlotLinear(db.h, a);
      SlotLinear(r.h, a);
      KeptMoves(db, log, r, log, a);
    }
  }

  /** The rows do not depend on the flags of the handle. */
  lemma FlagsIrrelevant(db: Db, log: seq<Row>, adapted: bool, stale: bool)
    requires Inv(db, log)
    ensures Inv(db.(adapted := adapted, indexStale := stale), log)
  {
    hide Fits, RingEnd, Decode, RowAt, Ready, BlockOf, SlotOf, OverflowPos;
    forall a: nat | InWindow(db.h, a)
      ensures Kept(db.(adapted := adapted, indexStale := stale), log, a)
    {
      assert Kept(db, log, a);
    }
  }

  /** Taking the newest rows commutes with a change of schema. */
  lemma NewestUnderSchema(log: seq<Row>, c: nat, columns: seq<Option<nat>>, avail: nat, retain: nat)
    requires retain <= avail <= |log|
    ensures Newest(RemapAll(FittedAll(log, c), columns), retain) ==
            RemapAll(FittedAll(Newest(log, avail), c)[avail - retain..], columns)
  {
    hide Remap, Fitted;
    var left := Newest(RemapAll(FittedAll(log, c), columns), retain);
    var right := RemapAll(FittedAll(Newest(log, avail), c)[avail - retain..], columns);
    forall j | 0 <= j < retain
      ensures left[j] == right[j]
    {
      var i := |log| - retain + j;
      assert left[j] == Remap(Fitted(log[i], c), columns);
      assert FittedAll(Newest(log, avail), c)[avail - retain + j] == Fitted(log[i], c);
    }
  }

  /** The rows of a rewritten database are the newest of the log under the new schema. */
  lemma RewrittenLog(db: Db, log: seq<Row>, columns: seq<Option<nat>>, p: P.Plan)
    requires Inv(db, log) && AllReadable(db) && p.Plan? && p.retain <= Available(db.h)
    ensures p.retain <= |log|
    ensures Newest(RemapAll(FittedAll(log, Columns(db.h)), columns), p.retain) == NewRows(db, columns, p)
  {
    hide Fits, Inv, Remap, Fitted, AllReadable, RemapAll, FittedAll, View;
    ViewIsNewest(db, log);
    NewestUnderSchema(log, Columns(db.h), columns, Available(db.h), p.retain);
  }

  lemma RewriteStepKeeps(db: Db, log: seq<Row>, columns: seq<Option<nat>>, names: seq<string>, newMax: nat,
                         opts: Option<P.Options>, db': Db)
    requires Inv(db, log) && AllReadable(db) && 0 < |columns| <= MAX_PARAMS
    requires RewriteStep(db, columns, names, newMax, opts, db')
    ensures P.MakePlan(db.h, |columns|, newMax, opts).Refused? ==> db' == db
    ensures P.MakePlan(db.h, |columns|, newMax, opts).Plan? ==>
              Inv(db', RemapAll(FittedAll(log, Columns(db.h)), columns)) && db'.h.totalRecords <= db.h.totalRecords
  {
    hide Fits, Inv, Rewritten, NewRows, RemapAll, FittedAll, AllReadable, P.MakePlan;
    InvShape(db, log);
    var p := P.MakePlan(db.h, |columns|, newMax, opts);
    PlanIsSound(db, columns, newMax, opts);
    if p.Plan? {
      RewrittenLog(db, log, columns, p);
      RewrittenKeeps(db, columns, names, p, db', RemapAll(FittedAll(log, Columns(db.h)), columns));
      RewrittenTotal(db, columns, names, p, db');
    }
  }

  lemma RewrittenTotal(db: Db, columns: seq<Option<nat>>, names: seq<string>, p: P.Plan, db': Db)
    requires AllReadable(db) && Sound(db, columns, p) && Rewritten(db, columns, names, p, db')
    ensures db'.h.totalRecords == p.retain <= db.h.totalRecords
  {
    hide Fits, View, Indexed, Holds, AllReadable;
  }

  /** Every operation keeps the invariant for the log it leaves, and counts at most one record. */
  lemma NextKeeps(db: Db, log: seq<Row>, op: Op, db': Db)
    requires Inv(db, log) && AllReadable(db) && Callable(db, op) && db.h.totalRecords + 1 < U32_LIMIT
    requires Next(db, op, db')
    ensures Inv(db', LogAfter(db, log, op))
    ensures db'.h.totalRecords <= db.h.totalRecords + 1
  {
    hide Fits, Inv, Write, Rewritten, RemapAll, FittedAll, AllReadable, RewriteStep, P.MakePlan, Fold, Resized,
         FastResize,
         M.Migrated, M.ExtraMap, M.MigratedLog, M.BaseLog, Stored, Lagging, Reread, WriteFails, Shape, M.Present;
    InvShape(db, log);
    ShapeGeometry(db);
    match op
    case WriteRow(ts, vals, env, _) =>
      WriteKeeps(db, log, ts, vals, env);
      WriteTotal(db, log, ts, vals, env);
    case FoldHeader(header) =>
      FoldKeeps(db, log, header);
      FoldTotal(db, header);
    case Resize(newMax, opts, names, header) =>
      if newMax != db.h.maxRecords {
        if FastResize(db.h, newMax) {
          ResizeKeeps(db, log, newMax, header);
          ResizedTotal(db, newMax, header);
        } else {
          RewriteStepKeeps(db, log, IdentityMap(Columns(db.h)), names, newMax, opts, db');
        }
      }
    case MigrateSchema(wanted, stored, opts) =>
      var columns := ColumnMap(wanted, stored);
      if !(db.h.extraParamCount == 0 && columns == IdentityMap(db.h.numParams)) {
        RewriteStepKeeps(db, log, columns, wanted, db.h.maxRecords, opts, db');
      }
    case AddColumns(count, region, header) =>
      if AddExtras(db, count, region, header).Added? {
        AddExtrasKeeps(db, log, count, region, header);
      }
    case MigrateColumns(extra, present, region, header) =>
      if extra == [] {
        M.DropKeeps(db, log, header);
      } else if !M.AlreadyMatches(extra, present) {
        var before: Bytes :| M.Migrated(db, M.ExtraMap(extra, present), region, header, before, db');
        M.MigratedKeeps(db, log, M.ExtraMap(extra, present), region, header, before, db');
        MigratedTotal(db, M.ExtraMap(extra, present), region, header, before, db');
      }
    case Reopen(adopted, onDisk) =>
      if onDisk != db.file {
        LaggingKeeps(db, log, onDisk);
      }
      FlagsIrrelevant(db.(file := onDisk), LogAfter(db, log, op), false, adopted);
  }

  lemma MigratedTotal(db: Db, columns: seq<Option<nat>>, region: Bytes, header: Bytes, before: Bytes, db': Db)
    requires M.Migrated(db, columns, region, header, before, db')
    ensures db'.h.totalRecords == db.h.totalRecords
  {
  }

  lemma FoldTotal(db: Db, header: Bytes)
    requires db.h.recordsPerBlock > 0 && db.h.indexStride > 0 && db.h.totalRecords < U32_LIMIT
    ensures Fold(db, header).h == db.h
  {
  }

  lemma ResizedTotal(db: Db, newMax: nat, header: Bytes)
    requires db.h.recordsPerBlock > 0 && db.h.indexStride > 0 && db.h.totalRecords < U32_LIMIT
    ensures Resized(db, newMax, header).h == db.h.(maxRecords := newMax)
  {
  }

  /** A write counts one record or none. */
  lemma WriteTotal(db: Db, log: seq<Row>, ts: u32, vals: seq<i16>, env: Env)
    requires Inv(db, log) && db.h.totalRecords + 1 < U32_LIMIT && |vals| == Columns(db.h)
    ensures var r := Write(db, ts, vals, env);
            r.db.h.totalRecords == db.h.totalRecords + if r.ok then 1 else 0
  {
    hide Inv, Fits, Grows, WriteSlot, TornFile, AppendExtras, RowAt, SlotOf, BlockOf;
    InvShape(db, log);
    StoreTotal(Guarded(db, env), ts, vals, env, 0);
    ModSmall(db.h.totalRecords + 1, U32_LIMIT);
    StoreKeepsShape(Guarded(db, env), ts, vals, env, 0);
  }

  lemma {:induction false} StoreTotal(db: Db, ts: u32, vals: seq<i16>, env: Env, retries: nat)
    requires GeometryOf(db.h).Valid() && db.h.numParams <= |vals|
    ensures Store(db, ts, vals, env, retries).db.h.totalRecords == db.h.totalRecords
    decreases if db.adapted then 0 else 1
  {
    hide Fits, WriteSlot, TornFile, SlotOf, BlockOf, BlockOffset;
    if Grows(db) && CapHelps(db, env) {
      var g := GeometryOf(db.h);
      var at := BlockOffset(g, BlockOf(g, SlotOf(db.h, db.h.totalRecords)));
      StoreTotal(Capped(db.(h := Evicted(db.h), file := TornFile(db.file, at, env.torn))), ts, vals, env, retries + 1);
    }
  }

  // The slot files

  /** An open database with the slot files beside it: what the handle knows of them, and the disk. */
  datatype Node = Node(db: Db, m: S.Mem, disk: S.Disk)

  ghost predicate Sized(x: Node) {
    |x.disk.d| == 2 && |x.disk.r| == 2 && x.m.slot < 2 && x.m.legacySlot < 2
  }

  /** A reopen finds the header that the handle had. */
  predicate Finds(x: Node)
    requires |x.disk.d| == 2 && |x.disk.r| == 2
  {
    S.Reopened(x.disk) == x.db.h
  }

  /** The operation folds: the header goes into the file and the slots go away. */
  predicate Folds(db: Db, op: Op) {
    op.FoldHeader? || (op.Resize? && op.newMax != db.h.maxRecords && FastResize(db.h, op.newMax))
  }

  predicate Stores(db: Db, op: Op)
    requires db.h.recordsPerBlock > 0
  {
    op.WriteRow? && !WriteFails(db, op.env)
  }

  /** The operation puts a changed header into the file and leaves the slots alone. */
  predicate ChangesFile(db: Db, op: Op)
    requires db.h.indexStride > 0
  {
    || RewriteMap(db, op).Some?
    || (op.AddColumns? && |op.region| == OVERFLOW_HEADER_SIZE && |op.header| == HEADER_SIZE
        && AddExtras(db, op.count, op.region, op.header).Added?)
    || (op.MigrateColumns? && (op.extra == [] || !M.AlreadyMatches(op.extra, op.present)))
  }

  /** The disk when a write comes to its slots: a cap has gone into the file by then. */
  function CapDisk(x: Node, h: Header, persists: bool): S.Disk {
    if persists && h.maxRecords != x.db.h.maxRecords
    then x.disk.(inFile := x.db.h.(maxRecords := x.db.h.totalRecords))
    else x.disk
  }

  /** Handle and disk after an operation that leaves the header `h`. */
  function SlotsAfter(x: Node, op: Op, h: Header): (S.Mem, S.Disk)
    requires x.db.h.indexStride > 0 && x.db.h.recordsPerBlock > 0
    requires |x.disk.d| == 2 && |x.disk.r| == 2 && x.m.slot < 2 && x.m.legacySlot < 2
  {
    if Stores(x.db, op) then
      var images := S.WriteImages(x.m, CapDisk(x, h, op.persists), h);
      (S.AfterWrite(x.m, h), images[|images| - 1])
    else if Folds(x.db, op) then (S.AfterFold(x.m.(h := h)), S.FoldImages(x.m.(h := h), x.disk)[4])
    else if ChangesFile(x.db, op) then (x.m.(h := h), x.disk.(inFile := h))
    else if op.Reopen? then (S.Open(x.disk), x.disk)
    else (x.m, x.disk)
  }

  /** One operation takes `x` to `y`. A reopen belongs to a run only where it finds the current header;
      otherwise the database is gone on with under an older one. */
  ghost predicate StepTo(x: Node, op: Op, y: Node) {
    && Shape(x.db) && AllReadable(x.db) && Sized(x)
    && Callable(x.db, op) && Next(x.db, op, y.db)
    && (y.m, y.disk) == SlotsAfter(x, op, y.db.h)
    && (op.Reopen? ==> Finds(x) && op.adopted == S.Adopts(x.disk))
  }

  // Runs

  /** `states` are the successive states of a run of `ops`. */
  ghost predicate IsRun(states: seq<Node>, ops: seq<Op>) {
    && |states| == |ops| + 1
    && forall i :: 0 <= i < |ops| ==> StepTo(states[i], ops[i], states[i + 1])
  }

  /** The log after the first `n` operations. */
  ghost function LogOf(states: seq<Node>, ops: seq<Op>, log: seq<Row>, n: nat): seq<Row>
    requires IsRun(states, ops) && n <= |ops|
  {
    if n == 0 then log
    else
      StepDivisors(states[n - 1], ops[n - 1], states[n]);
      LogAfter(states[n - 1].db, LogOf(states, ops, log, n - 1), ops[n - 1])
  }

  lemma StepDivisors(x: Node, op: Op, y: Node)
    requires StepTo(x, op, y)
    ensures x.db.h.recordsPerBlock > 0 && x.db.h.indexStride > 0
  {
    ShapeGeometry(x.db);
  }

  lemma {:induction false} RunKeeps(states: seq<Node>, ops: seq<Op>, log: seq<Row>, n: nat)
    requires IsRun(states, ops) && n <= |ops| && Inv(states[0].db, log)
    requires states[0].db.h.totalRecords + |ops| + 1 < U32_LIMIT
    ensures Inv(states[n].db, LogOf(states, ops, log, n))
    ensures states[n].db.h.totalRecords <= states[0].db.h.totalRecords + n
  {
    hide Fits, Inv, Next, LogAfter, Callable, Shape, AllReadable, SlotsAfter, Finds;
    if n > 0 {
      RunKeeps(states, ops, log, n - 1);
      assert StepTo(states[n - 1], ops[n - 1], states[n - 1 + 1]);
      NextKeeps(states[n - 1].db, LogOf(states, ops, log, n - 1), ops[n - 1], states[n].db);
    }
  }

  /** At every point of every run a reader sees exactly the newest rows of the log, in order, under the
      current schema; the oldest slot is the record count modulo the capacity once the ring is full
      and 0 before; and the header carries the timestamps of the first and the last of these rows and
      the slot of the last. */
  lemma RunShowsNewest(states: seq<Node>, ops: seq<Op>, log: seq<Row>, n: nat)
    requires IsRun(states, ops) && n <= |ops| && Inv(states[0].db, log)
    requires states[0].db.h.totalRecords + |ops| + 1 < U32_LIMIT
    ensures ShowsNewest(states[n].db, LogOf(states, ops, log, n))
  {
    hide Inv, LogOf, StepTo, ShowsNewest;
    RunKeeps(states, ops, log, n);
    InvShowsNewest(states[n].db, LogOf(states, ops, log, n));
  }

  lemma InvShowsNewest(db: Db, log: seq<Row>)
    requires Inv(db, log)
    ensures ShowsNewest(db, log)
  {
    hide Fits, Kept, AllReadable, RingEnd, View, WholeExtras, SlotOf, Fitted, FittedAll;
    ViewIsNewest(db, log);
    var n := Available(db.h);
    if n > 0 {
      LogicalOrder(db, n - 1);
      ViewTimestamp(db, log, 0);
      ViewTimestamp(db, log, n - 1);
    }
  }

  lemma ViewTimestamp(db: Db, log: seq<Row>, k: nat)
    requires AllReadable(db) && k < Available(db.h) <= |log|
    requires View(db) == FittedAll(Newest(log, Available(db.h)), Columns(db.h))
    ensures View(db)[k].ts == log[|log| - Available(db.h) + k].ts
  {
    hide AllReadable, View;
  }

  /** Readers and header of `db` show the newest rows of `log`. */
  ghost predicate ShowsNewest(db: Db, log: seq<Row>) {
    && AllReadable(db) && Available(db.h) <= |log|
    && |View(db)| == Least(db.h.totalRecords, db.h.maxRecords)
    && View(db) == FittedAll(Newest(log, Available(db.h)), Columns(db.h))
    && db.h.oldestRecordIdx == (if Evicts(db.h) then db.h.totalRecords % db.h.maxRecords else 0)
    && (Available(db.h) > 0 ==>
          && db.h.oldestTimestamp == View(db)[0].ts
          && db.h.newestTimestamp == View(db)[Available(db.h) - 1].ts
          && db.h.newestRecordIdx == LogicalSlot(db.h, Available(db.h) - 1))
  }

  // What resizes and schema migrations keep

  /** The rows that fit a capacity: all `n` of them when it is 0. */
  function Least(n: nat, capacity: nat): nat {
    if capacity > 0 && capacity < n then capacity else n
  }

  /** The capacity and the number of columns that a resize or a schema migration asks for. */
  function AskedCapacity(db: Db, op: Op): nat {
    if op.Resize? then op.newMax else db.h.maxRecords
  }

  function AskedColumns(db: Db, op: Op): seq<Option<nat>> {
    if op.Resize? then IdentityMap(Columns(db.h))
    else if op.MigrateSchema? then ColumnMap(op.wanted, op.stored)
    else []
  }

  predicate Reshapes(op: Op) {
    op.Resize? || op.MigrateSchema?
  }

  function OptsOf(op: Op): Option<P.Options> {
    if op.Resize? then op.opts else if op.MigrateSchema? then op.opts else None
  }

  /** The bytes of a file with the index of the asked capacity and `n` rows. */
  function SizeWith(db: Db, op: Op, n: nat): nat
    requires 0 < |AskedColumns(db, op)| <= MAX_PARAMS && db.h.indexStride > 0
  {
    var c := |AskedColumns(db, op)|;
    P.FileSize(P.IndexOffsetFor(c), RecordsPerBlock(c), P.IndexEntriesFor(AskedCapacity(db, op), db.h.indexStride), n)
  }

  /** There is no budget, or a copy of all the rows that are to be kept fits it. */
  ghost predicate RoomForAll(db: Db, op: Op)
    requires AllReadable(db) && 0 < |AskedColumns(db, op)| <= MAX_PARAMS && db.h.indexStride > 0
  {
    var opts := OptsOf(op);
    opts.None? || opts.value.freeSpace == 0
    || SizeWith(db, op, Least(|View(db)|, AskedCapacity(db, op))) <= P.Budget(opts.value)
  }

  /** Row `k` of `db'` is row `skip + k` of `db`, with the columns of the map. */
  ghost predicate KeepsNewest(db: Db, columns: seq<Option<nat>>, n: nat, db': Db)
    requires AllReadable(db)
  {
    && AllReadable(db') && |View(db')| == n <= |View(db)|
    && forall k :: 0 <= k < n ==>
         && View(db')[k].ts == View(db)[|View(db)| - n + k].ts
         && View(db')[k].vals == MapColumns(View(db)[|View(db)| - n + k].vals, columns)
  }

  /** The request cannot be met by the header alone: rows would move, or columns change. */
  predicate Rebuilds(db: Db, op: Op) {
    if op.Resize? then
      op.newMax != db.h.maxRecords &&
      !(&& db.h.oldestRecordIdx == 0 && (db.h.maxRecords == 0 || db.h.totalRecords <= db.h.maxRecords)
        && (op.newMax == 0 || op.newMax >= db.h.totalRecords) && db.h.extraParamCount == 0)
    else
      op.MigrateSchema? &&
      (db.h.extraParamCount > 0 || ColumnMap(op.wanted, op.stored) != IdentityMap(db.h.numParams))
  }

  /** Where nothing need move, the capacity is all that changes, and no byte behind the index. */
  lemma ReshapeHeaderOnly(db: Db, op: Op, db': Db)
    requires Shape(db) && AllReadable(db) && Reshapes(op) && Callable(db, op) && Next(db, op, db') && !Rebuilds(db, op)
    ensures db'.h == db.h.(maxRecords := AskedCapacity(db, op)) && |db'.file| == |db.file|
    ensures forall p :: GeometryOf(db.h).dataOffset <= p < |db.file| ==> db'.file[p] == db.file[p]
  {
    hide Fits, RingEnd, AllReadable, RecordsPerBlock, WholeExtras, FoldBytes, P.MakePlan;
    if op.Resize? && op.newMax != db.h.maxRecords {
      var r := db.(h := db.h.(maxRecords := op.newMax));
      FoldFront(r, op.header);
    }
  }

  lemma FoldFront(db: Db, header: Bytes)
    requires db.h.recordsPerBlock > 0 && db.h.indexStride > 0 && db.h.totalRecords < U32_LIMIT
    requires |header| == HEADER_SIZE <= db.h.indexOffset && GeometryOf(db.h).dataOffset <= |db.file|
    ensures |Fold(db, header).file| == |db.file| && Fold(db, header).h == db.h
    ensures forall p :: GeometryOf(db.h).dataOffset <= p < |db.file| ==> Fold(db, header).file[p] == db.file[p]
  {
    hide Rebuild, Prefix, Blocks;
  }

  lemma CallableAsks(db: Db, op: Op)
    requires Shape(db) && Reshapes(op) && Callable(db, op)
    ensures 0 < |AskedColumns(db, op)| <= MAX_PARAMS && db.h.indexStride > 0
  {
    hide Fits, RingEnd;
  }

  /** With room for all, a resize and a schema migration keep every row that the asked capacity holds, the
      newest ones, whichever way they go; and the capacity becomes the asked one. */
  lemma ReshapeKeepsRows(db: Db, log: seq<Row>, op: Op, db': Db)
    requires Inv(db, log) && AllReadable(db) && Reshapes(op) && Callable(db, op) && Next(db, op, db')
    requires 0 < |AskedColumns(db, op)| <= MAX_PARAMS && db.h.indexStride > 0 && RoomForAll(db, op)
    requires db.h.totalRecords + 1 < U32_LIMIT
    ensures db'.h.maxRecords == AskedCapacity(db, op)
    ensures KeepsNewest(db, AskedColumns(db, op), Least(|View(db)|, AskedCapacity(db, op)), db')
    ensures Rebuilds(db, op) ==> |db'.file| == SizeWith(db, op, |View(db')|)
  {
    hide Fits, Inv, RingEnd, AllReadable, View, Shape, KeepsNewest, Rewritten, P.FileSize, P.Budget, Resized,
         RecordsPerBlock;
    InvShape(db, log);
    ShapeGeometry(db);
    ViewWidth(db);
    CapacityCovers(db);
    if RewriteMap(db, op).Some? {
      var columns := AskedColumns(db, op);
      PlanIsSound(db, columns, AskedCapacity(db, op), OptsOf(op));
      var p := P.MakePlan(db.h, |columns|, AskedCapacity(db, op), OptsOf(op));
      RewriteKeepsNewest(db, columns, if op.Resize? then op.names else op.wanted, p, db');
      KeptReadable(db, columns, p.retain, db');
    } else {
      UnchangedKeeps(db, log, op, db');
    }
  }

  /** The rows and the length of a rewritten file. */
  lemma RewriteKeepsNewest(db: Db, columns: seq<Option<nat>>, names: seq<string>, p: P.Plan, db': Db)
    requires Shape(db) && AllReadable(db) && Sound(db, columns, p) && Rewritten(db, columns, names, p, db')
    ensures KeepsNewest(db, columns, p.retain, db') && db'.h.maxRecords == p.newMax
    ensures |db'.file| == P.FileSize(p.indexOffset, p.rpb, p.indexEntries, p.retain)
  {
    hide View, AllReadable, Rewritten, Shape, MapColumns, Sound, NewRows;
    RewrittenSize(db, columns, names, p, db');
    RewrittenView(db, columns, names, p, db');
    ViewWidth(db);
    forall k | 0 <= k < p.retain
      ensures View(db')[k].ts == View(db)[|View(db)| - p.retain + k].ts
      ensures View(db')[k].vals == MapColumns(View(db)[|View(db)| - p.retain + k].vals, columns)
    {
      assert View(db')[k] == Remap(View(db)[Available(db.h) - p.retain + k], columns);
    }
  }

  lemma RewrittenSize(db: Db, columns: seq<Option<nat>>, names: seq<string>, p: P.Plan, db': Db)
    requires Shape(db) && AllReadable(db) && Sound(db, columns, p) && Rewritten(db, columns, names, p, db')
    ensures p.Plan? && p.retain <= Available(db.h) && p.rpb > 0 && db'.h.maxRecords == p.newMax
    ensures |db'.file| == P.FileSize(p.indexOffset, p.rpb, p.indexEntries, p.retain)
  {
    hide Fits, View, AllReadable, Indexed, Holds, NewRows, Shape, Blocks;
  }

  /** A request for what is there already, and the header-only resize, keep all rows as they are. */
  lemma UnchangedKeeps(db: Db, log: seq<Row>, op: Op, db': Db)
    requires Inv(db, log) && AllReadable(db) && Reshapes(op) && Callable(db, op) && Next(db, op, db')
    requires 0 < |AskedColumns(db, op)| <= MAX_PARAMS && db.h.indexStride > 0 && RoomForAll(db, op)
    requires db.h.totalRecords + 1 < U32_LIMIT && RewriteMap(db, op).None?
    ensures db'.h.maxRecords == AskedCapacity(db, op)
    ensures KeepsNewest(db, AskedColumns(db, op), Least(|View(db)|, AskedCapacity(db, op)), db')
  {
    hide Fits, Inv, RingEnd, AllReadable, View, Shape, P.FileSize, P.Budget, RecordsPerBlock, KeepsNewest, Resized;
    InvShape(db, log);
    ShapeGeometry(db);
    CapacityCovers(db);
    ViewWidth(db);
    SameKeeps(db);
    if op.Resize? && op.newMax != db.h.maxRecords {
      FastKeeps(db, log, op.newMax, op.header);
    }
  }

  lemma SameKeeps(db: Db)
    requires AllReadable(db)
    ensures KeepsNewest(db, IdentityMap(Columns(db.h)), |View(db)|, db)
  {
    hide AllReadable, View;
    ViewWidth(db);
    forall k | 0 <= k < |View(db)|
      ensures View(db)[k].vals == MapColumns(View(db)[k].vals, IdentityMap(Columns(db.h)))
    {
    }
  }

  lemma FastKeeps(db: Db, log: seq<Row>, newMax: nat, header: Bytes)
    requires Inv(db, log) && AllReadable(db) && FastResize(db.h, newMax) && |header| == HEADER_SIZE
    requires db.h.recordsPerBlock > 0 && db.h.indexStride > 0 && db.h.totalRecords < U32_LIMIT
    ensures var r := Resized(db, newMax, header);
            r.h.maxRecords == newMax && KeepsNewest(db, IdentityMap(Columns(db.h)), |View(db)|, r)
    ensures newMax > 0 ==> |View(db)| <= newMax
  {
    hide Inv, AllReadable, View, Resized, FittedAll;
    ResizeKeeps(db, log, newMax, header);
    ResizedTotal(db, newMax, header);
    ViewIsNewest(db, log);
    ViewIsNewest(Resized(db, newMax, header), log);
    ViewWidth(db);
    SameKeeps(db);
  }

  lemma ViewWidth(db: Db)
    requires AllReadable(db)
    ensures forall k :: 0 <= k < |View(db)| ==> |View(db)[k].vals| == Columns(db.h)
    ensures |View(db)| == Available(db.h)
  {
  }

  lemma CapacityCovers(db: Db)
    ensures Available(db.h) <= db.h.totalRecords && (db.h.maxRecords > 0 ==> Available(db.h) <= db.h.maxRecords)
  {
  }

  /** Without room for all, an operation that has to rebuild is refused, when it may not trim or not even one block
      fits beside the index; otherwise it keeps as many whole blocks of the newest rows as fit, fewer than
      were to be kept: one block more would exceed the budget. The capacity becomes the number kept. */
  lemma ReshapeTrims(db: Db, log: seq<Row>, op: Op, db': Db)
    requires Inv(db, log) && AllReadable(db) && Reshapes(op) && Callable(db, op) && Next(db, op, db')
    requires 0 < |AskedColumns(db, op)| <= MAX_PARAMS && db.h.indexStride > 0 && !RoomForAll(db, op)
    requires Rebuilds(db, op)
    ensures var budget := P.Budget(OptsOf(op).value);
            if !OptsOf(op).value.allowTrim || budget < SizeWith(db, op, 0) + BLOCK_SIZE then db' == db
            else
              && AllReadable(db')
              && var n := |View(db')|;
                 && KeepsNewest(db, AskedColumns(db, op), n, db') && db'.h.maxRecords == n
                 && n < Least(|View(db)|, AskedCapacity(db, op))
                 && SizeWith(db, op, n) <= budget
                 && SizeWith(db, op, n + RecordsPerBlock(|AskedColumns(db, op)|)) > budget
                 && (AskedCapacity(db, op) > 0 ==> |db'.file| <= budget)
  {
    hide Fits, Inv, RingEnd, AllReadable, View, Shape, KeepsNewest, Rewritten, Resized, RecordsPerBlock, P.Budget,
         Blocks;
    InvShape(db, log);
    ShapeGeometry(db);
    var columns, opts := AskedColumns(db, op), OptsOf(op).value;
    ViewWidth(db);
    PlanIsSound(db, columns, AskedCapacity(db, op), Some(opts));
    var p := P.MakePlan(db.h, |columns|, AskedCapacity(db, op), Some(opts));
    P.TrimExact(db.h, |columns|, AskedCapacity(db, op), opts);
    if p.Plan? {
      RewriteKeepsNewest(db, columns, if op.Resize? then op.names else op.wanted, p, db');
      KeptReadable(db, columns, p.retain, db');
      if AskedCapacity(db, op) > 0 {
        P.TrimFits(db.h, |columns|, AskedCapacity(db, op), opts);
      }
    }
  }

  lemma KeptReadable(db: Db, columns: seq<Option<nat>>, n: nat, db': Db)
    requires AllReadable(db) && KeepsNewest(db, columns, n, db')
    ensures AllReadable(db') && |View(db')| == n
  {
    hide AllReadable, View;
  }

  // What a migration of the extra columns means

  /** Whatever way the request takes, dropped, skipped or carried out: every row keeps its timestamp and base
      columns, and its extras are the old ones by name, zeros for new names. The stored names are distinct,
      as far as they are compared. */
  lemma ExtrasFollowNames(db: Db, log: seq<Row>, op: Op, db': Db, k: nat)
    requires Inv(db, log) && AllReadable(db) && op.MigrateColumns? && Callable(db, op) && Next(db, op, db')
    requires M.Distinct(op.present) && k < Available(db.h)
    ensures Available(db'.h) == Available(db.h) && Columns(db'.h) == db.h.numParams + |op.extra|
    ensures GeometryOf(db'.h).Valid() && Readable(db, k) && Readable(db', k)
    ensures ViewRow(db', k).ts == ViewRow(db, k).ts
    ensures ViewRow(db', k).vals ==
            ViewRow(db, k).vals[..db.h.numParams]
            + MapColumns(ViewRow(db, k).vals[db.h.numParams..], M.ExtraMap(op.extra, op.present))
  {
    hide Fits, Inv, RingEnd, Shape, M.Extends, M.Present, M.RecordCopied, M.AlreadyMatches, M.ExtraMap, MapColumns,
         ViewRow, M.Distinct, AllReadable, Readable;
    InvShape(db, log);
    ShapeGeometry(db);
    AllReadableAt(db, k);
    if op.extra == [] {
      M.DropShowsBase(db, log, op.header, k);
    } else if M.AlreadyMatches(op.extra, op.present) {
      SkippedShows(db, op, k);
    } else {
      var before: Bytes :| M.Migrated(db, M.ExtraMap(op.extra, op.present), op.region, op.header, before, db');
      NewestPresent(db, log, k);
      M.MigrationPreservesRows(db, log, M.ExtraMap(op.extra, op.present), op.region, op.header, before, db', k);
    }
  }

  lemma SkippedShows(db: Db, op: Op, k: nat)
    requires op.MigrateColumns? && |op.present| == db.h.extraParamCount && M.Distinct(op.present)
    requires M.AlreadyMatches(op.extra, op.present) && GeometryOf(db.h).Valid() && Readable(db, k)
    ensures |op.extra| == |op.present|
    ensures ViewRow(db, k).vals ==
            ViewRow(db, k).vals[..db.h.numParams]
            + MapColumns(ViewRow(db, k).vals[db.h.numParams..], M.ExtraMap(op.extra, op.present))
  {
    hide Fits, M.Distinct, M.ExtraMap, MapColumns, ViewRow, Readable, M.SameStored;
    var row := ViewRow(db, k);
    M.MatchingMap(op.extra, op.present, row.vals[db.h.numParams..]);
    M.MatchesIff(op.extra, op.present);
    assert row.vals == row.vals[..db.h.numParams] + row.vals[db.h.numParams..];
  }

  lemma NewestPresent(db: Db, log: seq<Row>, k: nat)
    requires Inv(db, log) && k < Available(db.h) && M.Present(db, db.h.totalRecords - 1)
    ensures M.Present(db, RecordNumber(db.h, k))
  {
    hide M.Present, Fits, RingEnd, Kept, WholeExtras;
    M.AllPresent(db, RecordNumber(db.h, k));
  }

  /** Nothing is written exactly when the request has as many names as are stored, and each is the stored
      one at its place. */
  lemma NothingMigratedIff(db: Db, log: seq<Row>, op: Op, db': Db)
    requires Inv(db, log) && AllReadable(db) && op.MigrateColumns? && Callable(db, op) && Next(db, op, db')
    ensures db' == db <==>
            |op.extra| == |op.present| &&
            forall i :: 0 <= i < |op.present| ==> M.SameStored(op.extra[i], op.present[i])
  {
    hide Fits, RingEnd, Kept, WholeExtras, M.Extends, M.Present, M.RecordCopied, M.AlreadyMatches, M.ExtraMap,
         M.SameStored, AllReadable;
    M.MatchesIff(op.extra, op.present);
    if op.extra != [] && !M.AlreadyMatches(op.extra, op.present) {
      var before: Bytes :| M.Migrated(db, M.ExtraMap(op.extra, op.present), op.region, op.header, before, db');
    }
  }

  // The number of columns

  /** The operation moves the extras into a region with other columns. */
  predicate ChangesColumns(op: Op) {
    op.MigrateColumns? && op.extra != [] && !M.AlreadyMatches(op.extra, op.present)
  }

  /** Queries, aggregates and rewrites have room for 64 columns. Every operation keeps within them,
      except that a migration of the extra columns checks their number alone: it keeps within them
      exactly when base and new extra columns together do. */
  lemma ColumnBound(db: Db, log: seq<Row>, op: Op, db': Db)
    requires Inv(db, log) && AllReadable(db) && Callable(db, op) && Next(db, op, db')
    requires Columns(db.h) <= MAX_PARAMS
    ensures Columns(db'.h) <= MAX_PARAMS <==> (ChangesColumns(op) ==> db.h.numParams + |op.extra| <= MAX_PARAMS)
  {
    hide Fits, Inv, AllReadable, RingEnd, Shape, P.MakePlan, M.Present, Fold, Write, M.AlreadyMatches, M.Extends,
         NewRows;
    InvShape(db, log);
    ShapeGeometry(db);
    match op
    case WriteRow(ts, vals, env, _) =>
      WriteColumns(db, ts, vals, env);
    case FoldHeader(header) =>
      FoldTotal(db, header);
    case Resize(newMax, opts, names, header) =>
      if newMax != db.h.maxRecords && FastResize(db.h, newMax) {
        ResizedTotal(db, newMax, header);
      }
    case MigrateColumns(extra, present, region, header) =>
      if ChangesColumns(op) {
        var before: Bytes :| M.Migrated(db, M.ExtraMap(extra, present), region, header, before, db');
      }
    case _ =>
  }

  lemma WriteColumns(db: Db, ts: u32, vals: seq<i16>, env: Env)
    requires GeometryOf(db.h).Valid() && db.h.indexStride > 0 && |vals| == Columns(db.h)
    ensures Columns(Write(db, ts, vals, env).db.h) == Columns(db.h)
  {
    hide Fits, Store, AppendExtras, RowAt, SlotOf, BlockOf, Lands;
    StoreKeepsShape(Guarded(db, env), ts, vals, env, 0);
  }

  /** Four extra columns beside sixty migrate to forty-eight, which makes 108. */
  lemma TooManyColumns(db: Db, log: seq<Row>, op: Op, db': Db)
    requires Inv(db, log) && AllReadable(db) && Callable(db, op) && Next(db, op, db')
    requires db.h.numParams == 60 && db.h.extraParamCount == 4 && op.MigrateColumns? && |op.extra| == 48
    ensures Columns(db.h) <= MAX_PARAMS && Columns(db'.h) == 108
  {
    hide Fits, Inv, AllReadable, RingEnd, M.Present, M.Extends;
    var before: Bytes :| M.Migrated(db, M.ExtraMap(op.extra, op.present), op.region, op.header, before, db');
  }

  /** The header of a newly created database. */
  function CreatedHeader(columns: nat, max: nat, stride: nat, names: seq<string>): Header
    requires 0 < columns <= MAX_PARAMS && stride > 0
  {
    Header(DB_MAGIC, if columns > 16 then VERSION_WIDE else 3, columns, 2, 4 + columns * 2, RecordsPerBlock(columns),
           max, 0, 0, 0, 0, 0, P.IndexOffsetFor(columns), P.IndexEntriesFor(max, stride), stride, 0, 0, names,
           columns, 0, 0, 0, 0)
  }

  /** The new file: header area and a zeroed index. */
  function Created(columns: nat, max: nat, stride: nat, names: seq<string>): Db
    requires 0 < columns <= MAX_PARAMS && stride > 0
  {
    var h := CreatedHeader(columns, max, stride, names);
    Db(h, Zeros(GeometryOf(h).dataOffset), false, false)
  }

  /** It starts every run with an empty log. */
  lemma CreatedHolds(columns: nat, max: nat, stride: nat, names: seq<string>)
    requires 0 < columns <= MAX_PARAMS && stride > 0
    ensures Inv(Created(columns, max, stride, names), [])
  {
    hide Fits, RecordsPerBlock;
    var db := Created(columns, max, stride, names);
    CreatedGeometry(columns, max, stride, names);
    if max > 0 {
      ModSmall(0, max);
    }
    assert Available(db.h) == 0;
  }

  /** The created database is the one asked for, and has counted nothing. */
  lemma CreatedAsAsked(columns: nat, max: nat, stride: nat, names: seq<string>)
    requires 0 < columns <= MAX_PARAMS && stride > 0
    ensures var h := Created(columns, max, stride, names).h;
            && h.numParams == h.baseParams == columns && h.maxRecords == max && h.indexStride == stride
            && h.paramNames == names && h.extraParamCount == 0
            && h.totalRecords == h.totalWrites == h.totalEvictions == h.oldestRecordIdx == 0
            && (h.version >= 4 <==> columns > 16)
            && (max > 0 ==> forall k: nat :: k < h.indexEntries <==> k * stride <= max)
  {
    hide RecordsPerBlock, P.IndexEntriesFor;
    if max > 0 {
      forall k: nat
        ensures k < P.IndexEntriesFor(max, stride) <==> k * stride <= max
      {
        P.IndexCovers(max, stride, k);
      }
    }
  }

  lemma CreatedGeometry(columns: nat, max: nat, stride: nat, names: seq<string>)
    requires 0 < columns <= MAX_PARAMS && stride > 0
    ensures GeometryOf(CreatedHeader(columns, max, stride, names)).Valid()
  {
  }

  /** A created database passes the sanity check of the next open exactly when its capacity is at most
      100 million records and its index at most 0x100000 entries; creation checks neither. */
  lemma CreatedSaneIff(columns: nat, max: nat, stride: nat, names: seq<string>)
    requires 0 < columns <= MAX_PARAMS && stride > 0
    ensures IsSane(CreatedHeader(columns, max, stride, names)) <==>
            max <= 100_000_000 && (max > 0 ==> max / stride < 0x10_0000)
  {
    CreatedGeometry(columns, max, stride, names);
  }
}
