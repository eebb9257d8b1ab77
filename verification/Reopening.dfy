/** When a reopen finds the current header. Writes and folds keep the slot files in step with the
    header; a rewrite and a change of the overflow columns put the new header into the file alone. */
module Reopening {
  import opened Bytes
  import opened Layout
  import opened Storage
  import opened Ring
  import opened Retained
  import opened Index
  import P = Plan
  import opened Rewrite
  import opened Overflow
  import M = OverflowMigration
  import S = Sidecar
  import opened Engine

  ghost predicate OverflowSane(h: Header) {
    h.extraParamCount > 0 ==> h.extraParamCount <= MAX_EXTRA_PARAMS && 0 < h.overflowRecordSize <= BLOCK_SIZE
  }

  /** The header in the file describes the same database as `h` and is not ahead of it. */
  ghost predicate Fits(inFile: Header, h: Header) {
    S.SameGeometry(inFile, h) && inFile.paramNames == h.paramNames && inFile.totalRecords <= h.totalRecords
  }

  /** What every operation keeps: the handle knows the newest slots, and the current header is in the
      file or offered by the slots, though others may stand in its way. */
  ghost predicate NodeInv(x: Node) {
    && S.Placed(x.m, x.disk) && x.m.h == x.db.h
    && x.db.h.magic == DB_MAGIC && OverflowSane(x.db.h) && Fits(x.disk.inFile, x.db.h)
    && (x.disk.inFile == x.db.h || S.Chosen(x.disk) == Some(x.db.h))
  }

  // The header after an operation

  /** A write changes counters, slots, timestamps and possibly the capacity. */
  ghost predicate SameDatabase(h: Header, h': Header) {
    && h'.magic == h.magic && h'.paramNames == h.paramNames && S.SameGeometry(h', h)
    && h'.extraParamCount == h.extraParamCount && h'.overflowRecordSize == h.overflowRecordSize
  }

  lemma {:induction false} StoreSame(db: Db, ts: u32, vals: seq<i16>, env: Env, retries: nat)
    requires GeometryOf(db.h).Valid() && db.h.numParams <= |vals|
    ensures SameDatabase(db.h, Store(db, ts, vals, env, retries).db.h)
    ensures !Store(db, ts, vals, env, retries).ok && !Evicts(db.h) && !CapHelps(db, env) ==>
              Store(db, ts, vals, env, retries).db.h == db.h
    decreases if db.adapted then 0 else 1
  {
    hide WriteSlot, TornFile, SlotOf, BlockOf, BlockOffset, Layout.Fits;
    if Grows(db) && CapHelps(db, env) {
      var g := GeometryOf(db.h);
      var at := BlockOffset(g, BlockOf(g, SlotOf(db.h, db.h.totalRecords)));
      var left := db.(h := Evicted(db.h), file := TornFile(db.file, at, env.torn));
      StoreSame(Capped(left), ts, vals, env, retries + 1);
    }
  }

  lemma WriteSame(db: Db, log: seq<Row>, ts: u32, vals: seq<i16>, env: Env)
    requires Inv(db, log) && db.h.totalRecords + 1 < U32_LIMIT && |vals| == Columns(db.h)
    ensures var h := Write(db, ts, vals, env).db.h;
            && SameDatabase(db.h, h)
            && (if WriteFails(db, env) then h == db.h else h.totalRecords == db.h.totalRecords + 1)
  {
    hide Inv, Layout.Fits, Store, Grows, AppendExtras, RowAt, SlotOf, BlockOf, Lands, Shape;
    InvShape(db, log);
    ShapeGeometry(db);
    WriteKeeps(db, log, ts, vals, env);
    WriteTotal(db, log, ts, vals, env);
    StoreSame(Guarded(db, env), ts, vals, env, 0);
    StoreKeepsShape(Guarded(db, env), ts, vals, env, 0);
    if WriteFails(db, env) {
      GrowthOnlyWhileFilling(db, log);
    }
  }

  /** A stored record keeps a header sane as long as the record count is at most twice the capacity, and the
      capacity, which a cap of an unlimited database sets to its count, is within bounds. */
  lemma SaneStays(db: Db, log: seq<Row>, ts: u32, vals: seq<i16>, env: Env)
    requires Inv(db, log) && db.h.totalRecords + 1 < U32_LIMIT && |vals| == Columns(db.h) && IsSane(db.h)
    requires GeometryOf(db.h).Valid() && db.h.indexStride > 0
    ensures var h := Write(db, ts, vals, env).db.h;
            IsSane(h) <==> h.maxRecords <= 100_000_000 && (h.maxRecords == 0 || h.totalRecords <= 2 * h.maxRecords)
  {
    hide Inv, Write, Layout.Fits, Grows;
    WriteSame(db, log, ts, vals, env);
    WriteCaps(db, log, ts, vals, env);
    WriteRest(db, ts, vals, env);
  }

  /** The fields of the sanity check that a write does not touch. */
  lemma WriteRest(db: Db, ts: u32, vals: seq<i16>, env: Env)
    requires GeometryOf(db.h).Valid() && db.h.indexStride > 0 && |vals| == Columns(db.h)
    ensures var h := Write(db, ts, vals, env).db.h;
            && h.version == db.h.version && h.baseParams == db.h.baseParams && h.paramSize == db.h.paramSize
            && h.recordSize == db.h.recordSize && h.indexEntries == db.h.indexEntries
            && h.indexStride == db.h.indexStride
  {
    hide Store, AppendExtras, RowAt, SlotOf, BlockOf, Lands, Layout.Fits, Grows;
    StoreRest(Guarded(db, env), ts, vals, env, 0);
    StoreKeepsShape(Guarded(db, env), ts, vals, env, 0);
  }

  lemma {:induction false} StoreRest(db: Db, ts: u32, vals: seq<i16>, env: Env, retries: nat)
    requires GeometryOf(db.h).Valid() && db.h.numParams <= |vals|
    ensures var h := Store(db, ts, vals, env, retries).db.h;
            && h.version == db.h.version && h.baseParams == db.h.baseParams && h.paramSize == db.h.paramSize
            && h.recordSize == db.h.recordSize && h.indexEntries == db.h.indexEntries
            && h.indexStride == db.h.indexStride
    decreases if db.adapted then 0 else 1
  {
    hide WriteSlot, TornFile, SlotOf, BlockOf, BlockOffset, Layout.Fits;
    if Grows(db) && CapHelps(db, env) {
      var g := GeometryOf(db.h);
      var at := BlockOffset(g, BlockOf(g, SlotOf(db.h, db.h.totalRecords)));
      var left := db.(h := Evicted(db.h), file := TornFile(db.file, at, env.torn));
      StoreRest(Capped(left), ts, vals, env, retries + 1);
    }
  }

  /** Extra columns keep a header sane, and so does their migration, up to the forty-eight that it allows. */
  lemma SaneExtras(h: Header, count: nat, offset: nat, first: nat)
    requires IsSane(h)
    ensures var h' := h.(extraParamCount := count, overflowRecordSize := 2 * count, overflowOffset := offset,
                         firstOverflowRecordIdx := first);
            IsSane(h') <==> count <= MAX_EXTRA_PARAMS
  {
  }

  /** A rewritten header is sane exactly when its capacity and its index are within bounds. */
  lemma SaneRewritten(h: Header, columns: nat, names: seq<string>, p: P.Plan, rows: seq<Row>)
    requires 0 < columns <= MAX_PARAMS && p.Plan? && p.rpb == RecordsPerBlock(columns) && h.indexStride > 0
    requires p.indexOffset == P.IndexOffsetFor(columns) && (p.newMax > 0 ==> |rows| <= p.newMax)
    ensures IsSane(NewHeader(h, columns, names, p, rows)) <==> p.newMax <= 100_000_000 && p.indexEntries <= 0x10_0000
  {
  }

  /** What an operation does to the header, by the way it treats file and slots. */
  lemma HeaderAfter(db: Db, log: seq<Row>, op: Op, db': Db)
    requires Inv(db, log) && AllReadable(db) && Callable(db, op) && Next(db, op, db')
    requires db.h.totalRecords + 1 < U32_LIMIT && db.h.magic == DB_MAGIC && OverflowSane(db.h)
    requires db.h.recordsPerBlock > 0 && db.h.indexStride > 0
    ensures db'.h.magic == DB_MAGIC && OverflowSane(db'.h)
    ensures Stores(db, op) ==> SameDatabase(db.h, db'.h) && db'.h.totalRecords == db.h.totalRecords + 1
    ensures Folds(db, op) ==> db'.h == db.h.(maxRecords := db'.h.maxRecords)
    ensures ChangesFile(db, op) ==> db'.h.totalRecords <= db.h.totalRecords
    ensures !Stores(db, op) && !Folds(db, op) && !ChangesFile(db, op) ==> db'.h == db.h
  {
    hide Inv, Layout.Fits, AllReadable, Write, Fold, Shape, P.MakePlan, RingEnd, M.Present, M.Extends, M.AlreadyMatches,
         NewRows, Holds, Indexed, WriteFails;
    InvShape(db, log);
    ShapeGeometry(db);
    match op
    case WriteRow(ts, vals, env, _) =>
      WriteSame(db, log, ts, vals, env);
    case FoldHeader(header) =>
      FoldTotal(db, header);
    case Resize(newMax, opts, names, header) =>
      if newMax != db.h.maxRecords && FastResize(db.h, newMax) {
        ResizedTotal(db, newMax, header);
      } else if newMax != db.h.maxRecords {
        RewriteStepKeeps(db, log, IdentityMap(Columns(db.h)), names, newMax, opts, db');
      }
    case MigrateSchema(wanted, stored, opts) =>
      if RewriteMap(db, op).Some? {
        RewriteStepKeeps(db, log, ColumnMap(wanted, stored), wanted, db.h.maxRecords, opts, db');
      }
    case MigrateColumns(extra, present, region, header) =>
      if extra != [] && !M.AlreadyMatches(extra, present) {
        var before: Bytes :| M.Migrated(db, M.ExtraMap(extra, present), region, header, before, db');
      }
    case _ =>
  }

  /** Every operation keeps the invariant of handle and slots. */
  lemma StepKeepsNode(x: Node, log: seq<Row>, op: Op, y: Node)
    requires NodeInv(x) && Inv(x.db, log) && x.db.h.totalRecords + 1 < U32_LIMIT && StepTo(x, op, y)
    ensures NodeInv(y)
  {
    hide Inv, Shape, AllReadable, Callable, Next, S.WriteImages, S.FoldImages, S.AfterWrite, S.AfterFold, S.Open,
         S.Chosen,
         S.Placed, S.Reopened, WriteFails, ChangesFile, Folds, S.Adopts;
    ShapeGeometry(x.db);
    PlacedSized(x);
    HeaderAfter(x.db, log, op, y.db);
    if Stores(x.db, op) {
      CapFits(x, y.db.h, op.persists);
      S.WriteOffers(x.m, CapDisk(x, y.db.h, op.persists), y.db.h);
      S.AfterWriteHeader(x.m, y.db.h);
    } else if Folds(x.db, op) {
      PlacedAside(x.m, x.disk, y.db.h, x.disk.inFile);
      S.FoldClears(x.m.(h := y.db.h), x.disk);
      FoldHeaderKept(x.m.(h := y.db.h));
    } else if ChangesFile(x.db, op) {
      PlacedAside(x.m, x.disk, y.db.h, y.db.h);
    } else if op.Reopen? {
      OpenPlaced(x.disk);
    }
  }

  lemma PlacedSized(x: Node)
    requires S.Placed(x.m, x.disk)
    ensures Sized(x)
  {
  }

  lemma FoldHeaderKept(m: S.Mem)
    ensures S.AfterFold(m).h == m.h
  {
  }

  lemma CapFits(x: Node, h: Header, persists: bool)
    requires NodeInv(x) && SameDatabase(x.db.h, h) && h.totalRecords == x.db.h.totalRecords + 1
    ensures S.Placed(x.m, CapDisk(x, h, persists)) && Fits(CapDisk(x, h, persists).inFile, h)
  {
    hide S.Chosen;
  }

  lemma PlacedAside(m: S.Mem, disk: S.Disk, h: Header, inFile: Header)
    requires S.Placed(m, disk)
    ensures S.Placed(m.(h := h), disk.(inFile := inFile))
  {
  }

  lemma OpenPlaced(disk: S.Disk)
    requires |disk.d| == 2 && |disk.r| == 2
    ensures S.Placed(S.Open(disk), disk) && S.Open(disk).h == S.Reopened(disk)
  {
    hide S.Reopened;
  }

  // When the header is found

  /** The slots offer the current header, or it is in the file and no slot can win over it. */
  ghost predicate Settled(x: Node)
    requires |x.disk.d| == 2 && |x.disk.r| == 2
  {
    var c := S.Chosen(x.disk);
    || c == Some(x.db.h)
    || (x.disk.inFile == x.db.h &&
        !(c.Some? && S.SameGeometry(c.value, x.db.h) && c.value.totalRecords >= x.db.h.totalRecords))
  }

  /** A reopen finds the current header exactly when the slots offer it, or offer nothing that can be
      adopted. */
  lemma FindsIff(x: Node)
    requires NodeInv(x) && IsSane(x.db.h)
    ensures Finds(x) <==> S.Chosen(x.disk) == Some(x.db.h) || !S.Adopts(x.disk)
    ensures Settled(x) ==> Finds(x)
  {
    hide S.Chosen, IsSane;
  }

  /** Stored records and folds settle the slots, and only a change of the header in the file alone
      unsettles them. */
  lemma StepSettles(x: Node, log: seq<Row>, op: Op, y: Node)
    requires NodeInv(x) && Inv(x.db, log) && x.db.h.totalRecords + 1 < U32_LIMIT && StepTo(x, op, y)
    ensures x.db.h.recordsPerBlock > 0 && x.db.h.indexStride > 0 && NodeInv(y)
    ensures |x.disk.d| == 2 && |x.disk.r| == 2 && |y.disk.d| == 2 && |y.disk.r| == 2
    ensures Stores(x.db, op) || Folds(x.db, op) ==> Settled(y)
    ensures Settled(x) && !ChangesFile(x.db, op) ==> Settled(y)
  {
    hide Inv, Shape, AllReadable, Callable, Next, S.WriteImages, S.FoldImages, S.AfterWrite, S.AfterFold, S.Open,
         S.Chosen,
         S.Reopened, WriteFails, ChangesFile, Folds, S.Adopts, S.NewestD, S.NewestR, S.SeqD, S.SeqR;
    ShapeGeometry(x.db);
    PlacedSized(x);
    HeaderAfter(x.db, log, op, y.db);
    StepKeepsNode(x, log, op, y);
    if Stores(x.db, op) {
      CapFits(x, y.db.h, op.persists);
      S.WriteOffers(x.m, CapDisk(x, y.db.h, op.persists), y.db.h);
    } else if Folds(x.db, op) {
      PlacedAside(x.m, x.disk, y.db.h, x.disk.inFile);
      S.FoldClears(x.m.(h := y.db.h), x.disk);
    }
  }

  lemma {:induction false} RunKeepsNode(states: seq<Node>, ops: seq<Op>, log: seq<Row>, n: nat)
    requires IsRun(states, ops) && n <= |ops| && Inv(states[0].db, log) && NodeInv(states[0])
    requires states[0].db.h.totalRecords + |ops| + 1 < U32_LIMIT
    ensures NodeInv(states[n])
  {
    hide Inv, NodeInv, StepTo, LogOf;
    if n > 0 {
      RunKeepsNode(states, ops, log, n - 1);
      RunKeeps(states, ops, log, n - 1);
      assert StepTo(states[n - 1], ops[n - 1], states[n - 1 + 1]);
      StepKeepsNode(states[n - 1], LogOf(states, ops, log, n - 1), ops[n - 1], states[n]);
    }
  }

  /** The operation at `i` changes the header in the file alone. */
  ghost predicate ChangesAt(states: seq<Node>, ops: seq<Op>, i: nat)
    requires i < |ops| < |states|
  {
    states[i].db.h.indexStride > 0 && ChangesFile(states[i].db, ops[i])
  }

  /** The operation at `i` stores a record or folds. */
  ghost predicate SettlesAt(states: seq<Node>, ops: seq<Op>, i: nat)
    requires i < |ops| < |states|
  {
    states[i].db.h.recordsPerBlock > 0 && (Stores(states[i].db, ops[i]) || Folds(states[i].db, ops[i]))
  }

  /** In a run in which a stored record or a fold follows every change of the header in the file alone,
      the slots are settled: a reopen finds the current header, if it passes the sanity check. */
  lemma {:induction false} RunSettled(states: seq<Node>, ops: seq<Op>, log: seq<Row>, n: nat)
    requires IsRun(states, ops) && n <= |ops| && Inv(states[0].db, log) && NodeInv(states[0]) && Settled(states[0])
    requires states[0].db.h.totalRecords + |ops| + 1 < U32_LIMIT
    requires forall i :: 0 <= i < n && ChangesAt(states, ops, i) ==> exists j :: i < j < n && SettlesAt(states, ops, j)
    ensures NodeInv(states[n]) && |states[n].disk.d| == 2 && |states[n].disk.r| == 2 && Settled(states[n])
    ensures IsSane(states[n].db.h) ==> Finds(states[n])
  {
    hide Inv, StepTo, LogOf, NodeInv, Settled, Finds, Stores, Folds, ChangesFile;
    NodeSized(states[0]);
    if n > 0 {
      var x, y := states[n - 1], states[n - 1 + 1];
      RunKeepsNode(states, ops, log, n - 1);
      RunKeeps(states, ops, log, n - 1);
      assert StepTo(x, ops[n - 1], y);
      StepSettles(x, LogOf(states, ops, log, n - 1), ops[n - 1], y);
      if !SettlesAt(states, ops, n - 1) {
        assert !ChangesAt(states, ops, n - 1);
        forall i | 0 <= i < n - 1 && ChangesAt(states, ops, i)
          ensures exists j :: i < j < n - 1 && SettlesAt(states, ops, j)
        {
          var j :| i < j < n && SettlesAt(states, ops, j);
          assert j != n - 1;
        }
        RunSettled(states, ops, log, n - 1);
      }
    }
    if IsSane(states[n].db.h) {
      FindsIff(states[n]);
    }
  }

  lemma NodeSized(x: Node)
    requires NodeInv(x)
    ensures |x.disk.d| == 2 && |x.disk.r| == 2
  {
  }

  /** A created database starts settled, without slots. */
  lemma CreatedNode(columns: nat, max: nat, stride: nat, names: seq<string>)
    requires 0 < columns <= MAX_PARAMS && stride > 0
    ensures NodeInv(CreatedState(columns, max, stride, names)) && Settled(CreatedState(columns, max, stride, names))
  {
  }

  function CreatedState(columns: nat, max: nat, stride: nat, names: seq<string>): Node
    requires 0 < columns <= MAX_PARAMS && stride > 0
  {
    var db := Created(columns, max, stride, names);
    Node(db, S.Mem(db.h, 0, 0, 0, 0, false), S.Disk(db.h, [S.Absent, S.Absent], [S.Absent, S.Absent]))
  }

  /** After a stored record a reopen that finds the current header adopts a slot. */
  lemma StoredAdopts(x: Node, log: seq<Row>, op: Op, y: Node)
    requires NodeInv(x) && Inv(x.db, log) && x.db.h.totalRecords + 1 < U32_LIMIT && StepTo(x, op, y)
    requires x.db.h.recordsPerBlock > 0 && Stores(x.db, op) && IsSane(y.db.h)
    ensures |y.disk.d| == 2 && |y.disk.r| == 2 && S.Chosen(y.disk) == Some(y.db.h) && S.Adopts(y.disk)
  {
    hide Inv, Shape, AllReadable, Callable, Next, S.WriteImages, S.Chosen, WriteFails, IsSane, S.Placed;
    ShapeGeometry(x.db);
    PlacedSized(x);
    HeaderAfter(x.db, log, op, y.db);
    CapFits(x, y.db.h, op.persists);
    S.WriteOffers(x.m, CapDisk(x, y.db.h, op.persists), y.db.h);
  }

  /** A write that fails leaves header and slots as they are. */
  lemma FailedSame(x: Node, log: seq<Row>, op: Op, y: Node)
    requires NodeInv(x) && Inv(x.db, log) && x.db.h.totalRecords + 1 < U32_LIMIT && StepTo(x, op, y)
    requires x.db.h.recordsPerBlock > 0 && op.WriteRow? && WriteFails(x.db, op.env)
    ensures y.db.h == x.db.h && y.disk == x.disk
  {
    hide Inv, Shape, AllReadable, Next, WriteFails, IsSane, S.Placed, S.Chosen;
    ShapeGeometry(x.db);
    HeaderAfter(x.db, log, op, y.db);
  }

  // When it is not

  /** With the current header in a slot, a change in the file that keeps the geometry is undone by the
      next open: the old header is back, under the new names at most. */
  lemma ChangeUndone(x: Node, log: seq<Row>, op: Op, y: Node)
    requires NodeInv(x) && Inv(x.db, log) && x.db.h.totalRecords + 1 < U32_LIMIT && StepTo(x, op, y)
    requires x.db.h.recordsPerBlock > 0 && x.db.h.indexStride > 0 && ChangesFile(x.db, op) && !op.WriteRow?
    requires S.Chosen(x.disk) == Some(x.db.h) && IsSane(x.db.h) && S.SameGeometry(y.db.h, x.db.h)
    requires y.db.h != x.db.h.(paramNames := y.db.h.paramNames) && !Folds(x.db, op)
    ensures |y.disk.d| == 2 && |y.disk.r| == 2 && !Finds(y)
    ensures S.Reopened(y.disk).(paramNames := x.db.h.paramNames) == x.db.h
  {
    hide Inv, Shape, AllReadable, Callable, Next, ChangesFile, Folds, S.Placed;
    ShapeGeometry(x.db);
    HeaderAfter(x.db, log, op, y.db);
    S.SaneNames(x.db.h, y.db.h.paramNames);
    hide IsSane;
    OfferedAside(x.disk, x.db.h, y.db.h);
  }

  /** A compact slot takes the names from the changed header, a full slot keeps its own. */
  lemma OfferedAside(disk: S.Disk, c: Header, n: Header)
    requires |disk.d| == 2 && |disk.r| == 2 && S.Chosen(disk) == Some(c)
    ensures var offered := S.Chosen(disk.(inFile := n));
            offered == Some(c) || offered == Some(c.(paramNames := n.paramNames))
  {
  }

  /** Extra columns added beside a live slot: after a reopen they are gone. */
  lemma AddColumnsUndone(x: Node, log: seq<Row>, op: Op, y: Node)
    requires NodeInv(x) && Inv(x.db, log) && x.db.h.totalRecords + 1 < U32_LIMIT && StepTo(x, op, y)
    requires op.AddColumns? && |op.region| == OVERFLOW_HEADER_SIZE && |op.header| == HEADER_SIZE
    requires AddExtras(x.db, op.count, op.region, op.header).Added?
    requires S.Chosen(x.disk) == Some(x.db.h) && IsSane(x.db.h)
    ensures y.db.h.extraParamCount == op.count > 0
    ensures |y.disk.d| == 2 && |y.disk.r| == 2 && S.Reopened(y.disk).extraParamCount == 0
  {
    hide Inv, Shape, AllReadable, S.Placed, IsSane, S.Chosen, S.Reopened, RingEnd;
    ShapeGeometry(x.db);
    ChangeUndone(x, log, op, y);
  }

  /** A slow resize of a database whose geometry is that of the current version, beside a live slot: after
      a reopen the old capacity is back, over the new file. */
  lemma ResizeUndone(x: Node, log: seq<Row>, op: Op, y: Node)
    requires NodeInv(x) && Inv(x.db, log) && x.db.h.totalRecords + 1 < U32_LIMIT && StepTo(x, op, y)
    requires op.Resize? && op.opts == None && op.newMax != x.db.h.maxRecords && !FastResize(x.db.h, op.newMax)
    requires x.db.h.extraParamCount == 0 && 0 < x.db.h.numParams <= MAX_PARAMS
    requires x.db.h.recordsPerBlock == RecordsPerBlock(x.db.h.numParams)
    requires x.db.h.indexOffset == P.IndexOffsetFor(x.db.h.numParams)
    requires S.Chosen(x.disk) == Some(x.db.h) && IsSane(x.db.h)
    ensures y.db.h.maxRecords == op.newMax
    ensures |y.disk.d| == 2 && |y.disk.r| == 2 && S.Reopened(y.disk).maxRecords == x.db.h.maxRecords
  {
    hide Inv, Shape, AllReadable, S.Placed, IsSane, S.Chosen, S.Reopened, FastResize, NewRows, Holds, Indexed,
         RecordsPerBlock,
         Layout.Fits;
    ShapeGeometry(x.db);
    ChangeUndone(x, log, op, y);
  }
}
