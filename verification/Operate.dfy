/** The operations carried out: whatever the caller may ask of an open database has a step in the runs. */
module Operate {
  import opened Bytes
  import opened Layout
  import opened Storage
  import opened Ring
  import opened Retained
  import opened Index
  import P = Plan
  import opened Rewrite
  import opened Overflow
  import M = OverflowMigration
  import opened Engine
  import opened Unsynced
  import S = Sidecar

  /** A rewrite under its plan, or nothing if the plan is refused. */
  method Reshape(db: Db, columns: seq<Option<nat>>, names: seq<string>, newMax: nat, opts: Option<P.Options>)
    returns (db': Db)
    requires Shape(db) && AllReadable(db) && 0 < |columns| <= MAX_PARAMS && db.h.totalRecords + 1 < U32_LIMIT
    ensures RewriteStep(db, columns, names, newMax, opts, db')
  {
    hide Shape, AllReadable, P.MakePlan, Rewritten;
    ShapeGeometry(db);
    var p := P.MakePlan(db.h, |columns|, newMax, opts);
    PlanIsSound(db, columns, newMax, opts);
    if p.Refused? {
      return db;
    }
    var result := RewriteDatabase(db, columns, names, p, None);
    db' := result.value;
  }

  /** A write of as many values as there are columns. */
  method PerformWrite(x: Node, ghost log: seq<Row>, ts: u32, vals: seq<i16>, env: Env, persists: bool) returns (y: Node)
    requires Inv(x.db, log) && Sized(x)
    requires |vals| == x.db.h.numParams + x.db.h.extraParamCount
    ensures StepTo(x, WriteRow(ts, vals, env, persists), y)
  {
    hide Inv, Shape, AllReadable, SlotsAfter, Write;
    Opened(x.db, log);
    y := Finished(x, WriteRow(ts, vals, env, persists), Write(x.db, ts, vals, env).db);
  }

  method PerformFold(x: Node, ghost log: seq<Row>, header: Bytes) returns (y: Node)
    requires Inv(x.db, log) && Sized(x) && |header| == HEADER_SIZE
    ensures StepTo(x, FoldHeader(header), y)
  {
    hide Inv, Shape, AllReadable, SlotsAfter, Fold;
    Opened(x.db, log);
    y := Finished(x, FoldHeader(header), Fold(x.db, header));
  }

  /** A resize to any capacity, within any budget. */
  method PerformResize(x: Node, ghost log: seq<Row>, newMax: nat, opts: Option<P.Options>, names: seq<string>,
                       header: Bytes)
    returns (y: Node)
    requires Inv(x.db, log) && Sized(x) && x.db.h.totalRecords + 1 < U32_LIMIT
    requires |header| == HEADER_SIZE && x.db.h.numParams + x.db.h.extraParamCount <= MAX_PARAMS
    ensures StepTo(x, Resize(newMax, opts, names, header), y)
  {
    hide Inv, Shape, AllReadable, SlotsAfter, RewriteStep, Resized, FastResize;
    Opened(x.db, log);
    var db' := x.db;
    if newMax != x.db.h.maxRecords {
      if FastResize(x.db.h, newMax) {
        db' := Resized(x.db, newMax, header);
      } else {
        db' := Reshape(x.db, IdentityMap(Columns(x.db.h)), names, newMax, opts);
      }
    }
    y := Finished(x, Resize(newMax, opts, names, header), db');
  }

  /** A migration to any schema of at most 64 columns. */
  method PerformMigrateSchema(x: Node, ghost log: seq<Row>, wanted: seq<string>, stored: seq<Option<string>>,
                              opts: Option<P.Options>)
    returns (y: Node)
    requires Inv(x.db, log) && Sized(x) && x.db.h.totalRecords + 1 < U32_LIMIT && 0 < |wanted| <= MAX_PARAMS
    requires |stored| == x.db.h.numParams + x.db.h.extraParamCount <= MAX_PARAMS
    ensures StepTo(x, MigrateSchema(wanted, stored, opts), y)
  {
    hide Inv, Shape, AllReadable, SlotsAfter, RewriteStep;
    Opened(x.db, log);
    var columns := ColumnMap(wanted, stored);
    var db' := x.db;
    if !(x.db.h.extraParamCount == 0 && columns == IdentityMap(x.db.h.numParams)) {
      db' := Reshape(x.db, columns, wanted, x.db.h.maxRecords, opts);
    }
    y := Finished(x, MigrateSchema(wanted, stored, opts), db');
  }

  /** Extra columns behind a ring that is laid out in full. */
  method PerformAddColumns(x: Node, ghost log: seq<Row>, count: nat, region: Bytes, header: Bytes) returns (y: Node)
    requires Inv(x.db, log) && Sized(x) && |region| == OVERFLOW_HEADER_SIZE && |header| == HEADER_SIZE
    requires x.db.h.maxRecords > 0 && x.db.h.recordsPerBlock > 0 && RingEnd(x.db.h) <= |x.db.file|
    ensures StepTo(x, AddColumns(count, region, header), y)
  {
    hide Inv, Shape, AllReadable, SlotsAfter, RingEnd;
    Opened(x.db, log);
    var r := AddExtras(x.db, count, region, header);
    y := Finished(x, AddColumns(count, region, header), if r.Added? then r.db else x.db);
  }

  /** Other extra columns, or none, in place of those there are. */
  method PerformMigrateColumns(x: Node, ghost log: seq<Row>, extra: seq<string>, present: seq<string>, region: Bytes,
                               header: Bytes)
    returns (y: Node)
    requires Inv(x.db, log) && Sized(x) && |region| == OVERFLOW_HEADER_SIZE && |header| == HEADER_SIZE
    requires |extra| <= MAX_EXTRA_PARAMS && 0 < |present| == x.db.h.extraParamCount
    requires x.db.h.totalRecords > 0 ==> M.Present(x.db, x.db.h.totalRecords - 1)
    ensures StepTo(x, MigrateColumns(extra, present, region, header), y)
  {
    hide Inv, Shape, AllReadable, SlotsAfter, M.Present, M.Extends, M.RecordCopied, M.AlreadyMatches, M.ExtraMap,
         M.SameStored;
    Opened(x.db, log);
    M.MatchesIff(extra, present);
    var db' := M.DropExtras(x.db, header);
    if extra != [] {
      var migrated, _ := M.MigrateOverflow(x.db, extra, present, region, header);
      db' := migrated;
    }
    y := Finished(x, MigrateColumns(extra, present, region, header), db');
  }

  /** A reopen that finds the current, sane header, of the file as it is on disk. */
  method PerformReopen(x: Node, ghost log: seq<Row>, onDisk: Bytes) returns (y: Node)
    requires Inv(x.db, log) && Sized(x) && Finds(x) && IsSane(x.db.h)
    requires onDisk == x.db.file || Lagging(x.db, onDisk)
    ensures StepTo(x, Reopen(S.Adopts(x.disk), onDisk), y)
  {
    hide Inv, Shape, AllReadable, SlotsAfter, Lagging, IsSane, S.Adopts;
    Opened(x.db, log);
    var op := Reopen(S.Adopts(x.disk), onDisk);
    y := Finished(x, op, Restarted(x.db, op.adopted, onDisk));
  }

  lemma Opened(db: Db, log: seq<Row>)
    requires Inv(db, log)
    ensures Shape(db) && AllReadable(db) && GeometryOf(db.h).Valid() && db.h.indexStride > 0
    ensures db.h.totalRecords < U32_LIMIT && db.h.recordsPerBlock > 0
  {
    hide Inv, Shape, AllReadable;
    InvShape(db, log);
    ShapeGeometry(db);
    ViewIsNewest(db, log);
  }

  /** The slot files after the operation. */
  function Finished(x: Node, op: Op, db': Db): Node
    requires x.db.h.indexStride > 0 && x.db.h.recordsPerBlock > 0 && Sized(x)
  {
    var (m, disk) := SlotsAfter(x, op, db'.h);
    Node(db', m, disk)
  }
}
