/** Time-range queries: a cursor walks the ring one slot at a time, starting where a binary search
    over logical positions puts it and stopping at the first row past the window. */
module Query {
  import opened Arith
  import opened Bytes
  import opened Layout
  import opened Storage
  import opened Ring
  import opened Retained

  // What a query means

  predicate Matches(row: Row, start: u32, end: u32) {
    row.ts != 0 && start <= row.ts <= end
  }

  /** The requested columns of a row; a column that does not exist reads as zero. */
  function Project(row: Row, params: seq<nat>): (r: Row)
    ensures r.ts == row.ts && |r.vals| == |params|
    ensures forall i :: 0 <= i < |params| ==>
              r.vals[i] == if params[i] < |row.vals| then row.vals[params[i]] else 0
  {
    Row(row.ts, seq(|params|, i requires 0 <= i < |params| =>
      if params[i] < |row.vals| then row.vals[params[i]] else 0))
  }

  /** The matching rows in order, projected. */
  function Select(rows: seq<Row>, start: u32, end: u32, params: seq<nat>): seq<Row> {
    if rows == [] then []
    else (if Matches(rows[0], start, end) then [Project(rows[0], params)] else [])
         + Select(rows[1..], start, end, params)
  }

  /** `at` are the positions before `n` of rows with nonzero timestamp in the window: all of them, in order. */
  ghost predicate Picks(at: seq<nat>, view: seq<Row>, n: nat, start: u32, end: u32)
    requires n <= |view|
  {
    && (forall i, j :: 0 <= i < j < |at| ==> at[i] < at[j])
    && (forall j :: 0 <= j < |at| ==> at[j] < n && view[at[j]].ts != 0 && start <= view[at[j]].ts <= end)
    && (forall k: nat :: k < n && view[k].ts != 0 && start <= view[k].ts <= end ==> k in at)
  }

  /** `row` has the timestamp of `source`, and at place `i` column `params[i]` of it, or 0 behind the last
      column. */
  ghost predicate Takes(row: Row, source: Row, params: seq<nat>) {
    && row.ts == source.ts && |row.vals| == |params|
    && forall i :: 0 <= i < |params| ==>
         row.vals[i] == if params[i] < |source.vals| then source.vals[params[i]] else 0
  }

  /** The rows are those of the view at positions `at`, column by column. */
  ghost predicate TakesAll(rows: seq<Row>, at: seq<nat>, view: seq<Row>, params: seq<nat>) {
    |at| == |rows| && forall j :: 0 <= j < |at| ==> at[j] < |view| && Takes(rows[j], view[at[j]], params)
  }

  /** Selection picks exactly the matching rows and takes their columns. */
  lemma {:induction false} SelectPicks(view: seq<Row>, n: nat, start: u32, end: u32, params: seq<nat>)
    returns (at: seq<nat>)
    requires n <= |view|
    ensures Picks(at, view, n, start, end) && TakesAll(Select(view[..n], start, end, params), at, view, params)
  {
    hide Takes, Select, Project;
    if n == 0 {
      assert view[..0] == [];
      SelectNone(view[..0], start, end, params);
      return [];
    }
    var before := SelectPicks(view, n - 1, start, end, params);
    SelectLast(view, n - 1, start, end, params);
    if view[n - 1].ts != 0 && start <= view[n - 1].ts <= end {
      at := before + [n - 1];
      PickOne(before, at, view, n - 1, start, end);
      ProjectTakes(view[n - 1], params);
    } else {
      at := before;
    }
  }

  lemma PickOne(before: seq<nat>, at: seq<nat>, view: seq<Row>, n: nat, start: u32, end: u32)
    requires n < |view| && Picks(before, view, n, start, end) && at == before + [n]
    requires view[n].ts != 0 && start <= view[n].ts <= end
    ensures Picks(at, view, n + 1, start, end)
  {
    forall k: nat | k < n + 1 && view[k].ts != 0 && start <= view[k].ts <= end
      ensures k in at
    {
      if k < n {
        var i :| 0 <= i < |before| && before[i] == k;
        assert at[i] == k;
      } else {
        assert at[|before|] == k;
      }
    }
  }

  lemma ProjectTakes(row: Row, params: seq<nat>)
    ensures Takes(Project(row, params), row, params)
  {
  }

  lemma SelectLast(view: seq<Row>, n: nat, start: u32, end: u32, params: seq<nat>)
    requires n < |view|
    ensures Select(view[..n + 1], start, end, params) ==
            Select(view[..n], start, end, params)
            + if view[n].ts != 0 && start <= view[n].ts <= end then [Project(view[n], params)] else []
  {
    hide Project;
    assert view[..n + 1] == view[..n] + [view[n]];
    SelectSplit(view[..n], [view[n]], start, end, params);
  }

  ghost predicate Ascending(rows: seq<Row>) {
    forall i, j :: 0 <= i < j < |rows| ==> rows[i].ts <= rows[j].ts
  }

  /** Rows outside the window contribute nothing. */
  lemma {:induction false} SelectNone(rows: seq<Row>, start: u32, end: u32, params: seq<nat>)
    requires forall i :: 0 <= i < |rows| ==> !Matches(rows[i], start, end)
    ensures Select(rows, start, end, params) == []
  {
    if rows != [] {
      SelectNone(rows[1..], start, end, params);
    }
  }

  lemma {:induction false} SelectSplit(a: seq<Row>, b: seq<Row>, start: u32, end: u32, params: seq<nat>)
    ensures Select(a + b, start, end, params) == Select(a, start, end, params) + Select(b, start, end, params)
  {
    hide Matches, Project;
    if a == [] {
      assert a + b == b;
    } else {
      var first := if Matches(a[0], start, end) then [Project(a[0], params)] else [];
      assert (a + b)[0] == a[0] && (a + b)[1..] == a[1..] + b;
      SelectSplit(a[1..], b, start, end, params);
      assert first + (Select(a[1..], start, end, params) + Select(b, start, end, params)) ==
             (first + Select(a[1..], start, end, params)) + Select(b, start, end, params);
    }
  }

  /** Starting the walk at any position before which everything is too old changes nothing. */
  lemma {:induction false} SkipOld(rows: seq<Row>, k: nat, start: u32, end: u32, params: seq<nat>)
    requires k <= |rows|
    requires forall i :: 0 <= i < k ==> rows[i].ts < start
    ensures Select(rows[k..], start, end, params) == Select(rows, start, end, params)
  {
    assert rows == rows[..k] + rows[k..];
    SelectSplit(rows[..k], rows[k..], start, end, params);
    SelectNone(rows[..k], start, end, params);
  }

  lemma {:induction false} SelectStep(rows: seq<Row>, k: nat, start: u32, end: u32, params: seq<nat>)
    requires k < |rows|
    ensures Select(rows[k..], start, end, params) ==
            (if Matches(rows[k], start, end) then [Project(rows[k], params)] else [])
            + Select(rows[k + 1..], start, end, params)
  {
    assert rows[k..][1..] == rows[k + 1..];
  }

  /** Once a row is past the end of the window, so is every later one. */
  lemma {:induction false} StopLate(rows: seq<Row>, k: nat, start: u32, end: u32, params: seq<nat>)
    requires k < |rows| && Ascending(rows) && rows[k].ts > end
    ensures Select(rows[k..], start, end, params) == []
  {
    forall i | 0 <= i < |rows[k..]|
      ensures !Matches(rows[k..][i], start, end)
    {
      assert rows[k..][i] == rows[k + i];
    }
    SelectNone(rows[k..], start, end, params);
  }

  // What the code does with rows in any order

  /** The walk: it ends at the first row past the window. */
  function Walk(rows: seq<Row>, start: u32, end: u32, params: seq<nat>): seq<Row> {
    if rows == [] || rows[0].ts > end then []
    else (if Matches(rows[0], start, end) then [Project(rows[0], params)] else []) + Walk(rows[1..], start, end, params)
  }

  /** The binary search for the first row not before `start`; on a hole it gives up and returns 0. */
  function Probe(rows: seq<Row>, start: u32, lo: nat, hi: nat): (k: nat)
    requires lo <= hi <= |rows|
    ensures k <= |rows|
    decreases hi - lo
  {
    if lo == hi then lo
    else
      var mid := lo + (hi - lo) / 2;
      if rows[mid].ts == 0 then 0
      else if rows[mid].ts < start then Probe(rows, start, mid + 1, hi)
      else Probe(rows, start, lo, mid)
  }

  /** The first position of the walk: the search is made for a start behind the oldest timestamp. */
  function StartPos(rows: seq<Row>, oldest: u32, start: u32): (k: nat)
    ensures k <= |rows|
  {
    if |rows| > 0 && start > oldest then Probe(rows, start, 0, |rows|) else 0
  }

  /** All that a query delivers. */
  function Delivered(rows: seq<Row>, oldest: u32, start: u32, end: u32, params: seq<nat>): seq<Row> {
    Walk(rows[StartPos(rows, oldest, start)..], start, end, params)
  }

  lemma {:induction false} WalkStep(rows: seq<Row>, k: nat, start: u32, end: u32, params: seq<nat>)
    requires k < |rows|
    ensures Walk(rows[k..], start, end, params) ==
            if rows[k].ts > end then []
            else (if Matches(rows[k], start, end) then [Project(rows[k], params)] else [])
                 + Walk(rows[k + 1..], start, end, params)
  {
    assert rows[k..][1..] == rows[k + 1..];
  }

  /** In ascending rows the early end of the walk loses nothing. */
  lemma {:induction false} WalkOrdered(rows: seq<Row>, start: u32, end: u32, params: seq<nat>)
    requires Ascending(rows)
    ensures Walk(rows, start, end, params) == Select(rows, start, end, params)
  {
    hide Matches, Project;
    if rows != [] {
      if rows[0].ts > end {
        assert rows[0..] == rows;
        StopLate(rows, 0, start, end, params);
      } else {
        AscendingTail(rows, 1);
        WalkOrdered(rows[1..], start, end, params);
      }
    }
  }

  lemma AscendingTail(rows: seq<Row>, k: nat)
    requires Ascending(rows) && k <= |rows|
    ensures Ascending(rows[k..])
  {
  }

  lemma AscendingUpTo(rows: seq<Row>, k: nat)
    requires Ascending(rows) && k < |rows|
    ensures forall i :: 0 <= i <= k ==> rows[i].ts <= rows[k].ts
  {
  }

  /** In ascending rows the search skips rows that are too old and no others: without holes it finds the
      first row in range. */
  lemma {:induction false} ProbeOrdered(rows: seq<Row>, start: u32, lo: nat, hi: nat)
    requires lo <= hi <= |rows| && Ascending(rows)
    requires forall i :: 0 <= i < lo ==> rows[i].ts < start
    requires hi < |rows| ==> rows[hi].ts >= start
    ensures forall i :: 0 <= i < Probe(rows, start, lo, hi) ==> rows[i].ts < start
    ensures (forall i :: 0 <= i < |rows| ==> rows[i].ts != 0) && Probe(rows, start, lo, hi) < |rows| ==>
              rows[Probe(rows, start, lo, hi)].ts >= start
    decreases hi - lo
  {
    hide Ascending;
    if lo < hi {
      var mid := lo + (hi - lo) / 2;
      if rows[mid].ts != 0 {
        if rows[mid].ts < start {
          AscendingUpTo(rows, mid);
          ProbeOrdered(rows, start, mid + 1, hi);
        } else {
          ProbeOrdered(rows, start, lo, mid);
        }
      }
    }
  }

  /** Over ascending rows a query delivers exactly the matching ones: neither the seek nor the early end
      changes the result of the plain full walk. */
  lemma DeliveredOrdered(rows: seq<Row>, oldest: u32, start: u32, end: u32, params: seq<nat>)
    requires Ascending(rows)
    ensures Delivered(rows, oldest, start, end, params) == Select(rows, start, end, params)
  {
    hide Walk, Select, Probe;
    ProbeOrdered(rows, start, 0, |rows|);
    var k := StartPos(rows, oldest, start);
    AscendingTail(rows, k);
    WalkOrdered(rows[k..], start, end, params);
    SkipOld(rows, k, start, end, params);
  }

  // The cursor

  /** The slot `k` places after the first one of the walk. */
  function WalkSlot(firstSlot: nat, unlimited: bool, max: nat, k: nat): nat
    requires !unlimited ==> max > 0
  {
    if unlimited then k else (firstSlot + k) % max
  }

  lemma WalkIsLogical(h: Header, k: nat)
    ensures LogicalSlot(h, k) ==
            WalkSlot(if h.maxRecords == 0 then 0 else h.oldestRecordIdx, h.maxRecords == 0, h.maxRecords, k)
  {
  }

  /** The timestamp of a row is read from its block. */
  lemma RowShown(db: Db, k: nat)
    requires AllReadable(db) && k < Available(db.h)
    ensures var g, slot := GeometryOf(db.h), LogicalSlot(db.h, k);
            && g.Valid() && HasBlock(db.file, g, BlockOf(g, slot))
            && View(db)[k].ts == GetRow(BlockAt(db.file, g, BlockOf(g, slot)), g.np, g.rpb, RecOf(g, slot)).ts
  {
    hide Fits, LogicalSlot, BlockOf, GetRow, RecOf, BlockAt;
    assert Readable(db, k);
  }

  lemma ProbeStep(rows: seq<Row>, start: u32, lo: nat, hi: nat)
    requires lo <= hi <= |rows|
    ensures var mid := lo + (hi - lo) / 2;
            Probe(rows, start, lo, hi) ==
            if lo == hi then lo
            else if rows[mid].ts == 0 then 0
            else if rows[mid].ts < start then Probe(rows, start, mid + 1, hi)
            else Probe(rows, start, lo, mid)
  {
  }

  datatype Status = Ok | InvalidArg

  class Cursor {
    const db: Db
    const buffer: array<byte>
    var startTime: u32
    var endTime: u32
    var params: seq<nat>
    var currentRecordIdx: nat
    var endRecordIdx: nat
    var recordsScanned: nat
    var currentBlockNum: nat
    var offsetInBlock: nat
    var blockLoaded: bool

    /** The cursor stands on logical position `recordsScanned`, and a loaded buffer holds the
        block it stands in. */
    ghost predicate Valid()
      reads this, buffer
    {
      var g := GeometryOf(db.h);
      && buffer.Length == BLOCK_SIZE
      && AllReadable(db) && WholeExtras(db.h, db.file)
      && endRecordIdx == Available(db.h)
      && recordsScanned <= endRecordIdx
      && (recordsScanned < endRecordIdx ==>
            && currentRecordIdx == LogicalSlot(db.h, recordsScanned)
            && currentBlockNum == BlockOf(g, currentRecordIdx)
            && offsetInBlock == RecOf(g, currentRecordIdx))
      && (blockLoaded ==> HasBlock(db.file, g, currentBlockNum) && buffer[..] == BlockAt(db.file, g, currentBlockNum))
    }

    /** What the cursor has still to deliver. */
    ghost function Remaining(): seq<Row>
      reads this, buffer
      requires Valid()
    {
      Walk(View(db)[recordsScanned..], startTime, endTime, params)
    }

    constructor (db: Db)
      requires AllReadable(db) && WholeExtras(db.h, db.file)
      ensures this.db == db && fresh(buffer) && buffer.Length == BLOCK_SIZE
    {
      this.db := db;
      buffer := new byte[BLOCK_SIZE];
      startTime, endTime, params := 0, 0, [];
      currentRecordIdx, endRecordIdx, recordsScanned := 0, 0, 0;
      currentBlockNum, offsetInBlock, blockLoaded := 0, 0, false;
    }

    method ReadBlock(n: nat) returns (ok: bool)
      requires buffer.Length == BLOCK_SIZE
      modifies buffer
      ensures ok == HasBlock(db.file, GeometryOf(db.h), n)
      ensures ok ==> buffer[..] == BlockAt(db.file, GeometryOf(db.h), n)
    {
      var at := BlockOffset(GeometryOf(db.h), n);
      ok := at + BLOCK_SIZE <= |db.file|;
      if ok {
        CopyInto(buffer, db.file[at..at + BLOCK_SIZE]);
      }
    }

    /** Binary search for the first row not before the start time; on a hole it falls back to 0. */
    method SeekStart(available: nat, firstSlot: nat, unlimited: bool) returns (k: nat)
      requires buffer.Length == BLOCK_SIZE && AllReadable(db) && available == Available(db.h)
      requires unlimited == (db.h.maxRecords == 0)
      requires firstSlot == if unlimited then 0 else db.h.oldestRecordIdx
      modifies buffer
      ensures k == Probe(View(db), startTime, 0, available)
    {
      hide Fits, BlockOf, GetRow, RecOf, LogicalSlot, WalkSlot, Probe, View, Readable, BlockAt, AllReadable;
      var g := GeometryOf(db.h);
      var lo, hi := 0, available;
      k := 0;
      while lo < hi
        invariant 0 <= lo <= hi <= available
        invariant Probe(View(db), startTime, lo, hi) == Probe(View(db), startTime, 0, available)
      {
        var mid := lo + (hi - lo) / 2;
        var slot := WalkSlot(firstSlot, unlimited, db.h.maxRecords, mid);
        WalkIsLogical(db.h, mid);
        RowShown(db, mid);
        ProbeStep(View(db), startTime, lo, hi);
        var ok := ReadBlock(BlockOf(g, slot));
        if !ok {
          return;
        }
        var ts := GetRow(buffer[..], g.np, g.rpb, RecOf(g, slot)).ts;
        if ts == 0 {
          return;
        }
        if ts < startTime {
          lo := mid + 1;
        } else {
          hi := mid;
        }
      }
      k := lo;
      ProbeStep(View(db), startTime, lo, hi);
    }

    /** Opens the query: without `requested` columns, all of them, which the column array of the query
        must hold. */
    method Init(start: u32, end: u32, requested: Option<seq<nat>>) returns (status: Status)
      requires buffer.Length == BLOCK_SIZE && AllReadable(db) && WholeExtras(db.h, db.file)
      requires Shape(db) && (requested.None? ==> Columns(db.h) <= MAX_PARAMS)
      modifies this, buffer
      ensures status.InvalidArg? <==> start > end || (requested.Some? && |requested.value| > MAX_PARAMS)
      ensures status.Ok? ==>
                && Valid()
                && startTime == start && endTime == end
                && params == Requested(db.h, requested)
                && Remaining() == Delivered(View(db), db.h.oldestTimestamp, start, end, params)
    {
      hide Fits, BlockOf, GetRow, RecOf, Walk, Probe, RingEnd, LogicalSlot, WalkSlot, View, Shape, AllReadable,
           WholeExtras;
      if start > end {
        return InvalidArg;
      }
      startTime, endTime := start, end;
      if requested.None? {
        params := seq(Columns(db.h), i => i);
      } else if |requested.value| > MAX_PARAMS {
        return InvalidArg;
      } else {
        params := requested.value;
      }
      var unlimited := db.h.maxRecords == 0;
      var available := Available(db.h);
      var firstSlot := if unlimited then 0 else db.h.oldestRecordIdx;
      FirstSlot(db);
      Place(0, firstSlot, available);
      if available > 0 && start > db.h.oldestTimestamp {
        var k := SeekStart(available, firstSlot, unlimited);
        if k > 0 {
          WalkIsLogical(db.h, k);
          Place(k, WalkSlot(firstSlot, unlimited, db.h.maxRecords, k), available);
        }
      }
      return Ok;
    }

    /** Puts the cursor on logical position `k`, whose slot is `slot`. */
    method Place(k: nat, slot: nat, available: nat)
      requires buffer.Length == BLOCK_SIZE && AllReadable(db) && WholeExtras(db.h, db.file)
      requires k <= available == Available(db.h) && (k < available ==> slot == LogicalSlot(db.h, k))
      modifies this
      ensures Valid() && recordsScanned == k && !blockLoaded
      ensures startTime == old(startTime) && endTime == old(endTime) && params == old(params)
    {
      var g := GeometryOf(db.h);
      currentRecordIdx, endRecordIdx, recordsScanned := slot, available, k;
      currentBlockNum, offsetInBlock, blockLoaded := BlockOf(g, slot), RecOf(g, slot), false;
    }

    /** The next matching row. */
    method Next() returns (found: bool, row: Row)
      requires Valid()
      modifies this, buffer
      ensures Valid()
      ensures startTime == old(startTime) && endTime == old(endTime) && params == old(params)
      ensures recordsScanned >= old(recordsScanned)
      ensures found ==> recordsScanned > old(recordsScanned)
      ensures if found then old(Remaining()) == [row] + Remaining() else old(Remaining()) == []
    {
      hide Fits, BlockOf, GetRow, RecOf, LogicalSlot, Walk, Project, BlockAt;
      row := Row(0, []);
      found := false;
      ghost var rows := View(db);
      var g := GeometryOf(db.h);
      while recordsScanned < endRecordIdx
        invariant Valid()
        invariant startTime == old(startTime) && endTime == old(endTime) && params == old(params)
        invariant recordsScanned >= old(recordsScanned)
        invariant Remaining() == old(Remaining())
        decreases endRecordIdx - recordsScanned
      {
        var k := recordsScanned;
        assert Readable(db, k);
        if !blockLoaded {
          var ok := ReadBlock(currentBlockNum);
          if !ok {
            assert false;
          }
          blockLoaded := true;
        }
        assert rows[k] == ViewRow(db, k);
        var stored := GetRow(buffer[..], g.np, g.rpb, offsetInBlock);
        var ts := stored.ts;
        assert ts == rows[k].ts;
        Advance();
        WalkStep(rows, k, startTime, endTime, params);
        if ts == 0 {
          continue;
        }
        if ts > endTime {
          return;
        }
        if ts < startTime {
          continue;
        }
        var vals := Emit(k, stored);
        row := Row(ts, vals);
        assert row == Project(rows[k], params);
        found := true;
        return;
      }
      assert rows[recordsScanned..] == [];
      WalkNone(startTime, endTime, params);
    }

    /** Moves to the next slot; the buffer stays loaded within one block. */
    method Advance()
      requires Valid() && recordsScanned < endRecordIdx
      modifies this
      ensures Valid()
      ensures recordsScanned == old(recordsScanned) + 1
      ensures startTime == old(startTime) && endTime == old(endTime) && params == old(params)
      ensures endRecordIdx == old(endRecordIdx)
    {
      hide Fits, BlockAt;
      var g := GeometryOf(db.h);
      var unlimited := db.h.maxRecords == 0;
      NextSlot(db.h, recordsScanned);
      var nextSlot := if unlimited then currentRecordIdx + 1 else (currentRecordIdx + 1) % db.h.maxRecords;
      var nextBlock := BlockOf(g, nextSlot);
      if nextBlock != currentBlockNum {
        currentBlockNum := nextBlock;
        blockLoaded := false;
      }
      offsetInBlock := RecOf(g, nextSlot);
      currentRecordIdx := nextSlot;
      recordsScanned := recordsScanned + 1;
    }

    /** The requested columns of record `k`: base columns from its block, extras read one by one
        from the overflow region. */
    method Emit(k: nat, stored: Row) returns (vals: seq<i16>)
      requires AllReadable(db) && WholeExtras(db.h, db.file) && k < Available(db.h) && Readable(db, k)
      requires stored == RowAt(db.file, GeometryOf(db.h), LogicalSlot(db.h, k))
      ensures vals == Project(ViewRow(db, k), params).vals
    {
      hide Fits, BlockAt, GetRow, LogicalSlot, BlockOf, OverflowPos;
      vals := [];
      var record := RecordNumber(db.h, k);
      ghost var whole := ViewRow(db, k);
      for i := 0 to |params|
        invariant |vals| == i
        invariant forall j :: 0 <= j < i ==> vals[j] == Project(whole, params).vals[j]
      {
        var p := params[i];
        var v: i16 := 0;
        if p < db.h.numParams {
          v := stored.vals[p];
        } else if p < Columns(db.h) && HasExtras(db.h, record) {
          var at := OverflowPos(db.h, record) + 2 * (p - db.h.numParams);
          if at + 2 <= |db.file| {
            v := I16(db.file, at);
          }
        }
        vals := vals + [v];
      }
    }
  }

  lemma WalkNone(start: u32, end: u32, params: seq<nat>)
    ensures Walk([], start, end, params) == []
  {
  }

  lemma FirstSlot(db: Db)
    requires Shape(db)
    ensures Available(db.h) > 0 ==> LogicalSlot(db.h, 0) == if db.h.maxRecords == 0 then 0 else db.h.oldestRecordIdx
  {
    hide Fits, RingEnd;
    if Evicts(db.h) {
      DivMod(db.h.totalRecords, db.h.maxRecords);
    }
    if db.h.maxRecords > 0 {
      ModSmall(db.h.oldestRecordIdx, db.h.maxRecords);
    }
  }

  lemma NextSlot(h: Header, k: nat)
    ensures LogicalSlot(h, k + 1) ==
            if h.maxRecords == 0 then LogicalSlot(h, k) + 1 else (LogicalSlot(h, k) + 1) % h.maxRecords
  {
    if h.maxRecords > 0 {
      ModSucc(h.oldestRecordIdx + k, h.maxRecords);
    }
  }

  /** With every column at its place the rows are those of the view, whole. */
  lemma WholeRows(rows: seq<Row>, at: seq<nat>, view: seq<Row>, params: seq<nat>)
    requires TakesAll(rows, at, view, params)
    requires forall k :: 0 <= k < |view| ==> |view[k].vals| == |params|
    requires forall i :: 0 <= i < |params| ==> params[i] == i
    ensures forall j :: 0 <= j < |rows| ==> rows[j] == view[at[j]]
  {
    forall j | 0 <= j < |rows|
      ensures rows[j] == view[at[j]]
    {
      assert Takes(rows[j], view[at[j]], params);
      assert rows[j].vals == view[at[j]].vals;
    }
  }

  /** The columns that a query fetches: those asked for, or every one at its place. */
  function Requested(h: Header, requested: Option<seq<nat>>): (params: seq<nat>)
    ensures requested.Some? ==> params == requested.value
    ensures requested.None? ==> |params| == Columns(h) && forall i :: 0 <= i < |params| ==> params[i] == i
  {
    if requested.None? then seq(Columns(h), i => i) else requested.value
  }

  /** Draining a query delivers what seek and walk come to; where timestamps do not decrease, that is
      exactly the retained rows whose timestamp is nonzero and in the window, in order: whole rows, or the
      columns asked for. */
  method RunQuery(db: Db, start: u32, end: u32, requested: Option<seq<nat>>)
    returns (status: Status, rows: seq<Row>, ghost at: seq<nat>)
    requires Shape(db) && AllReadable(db)
    requires requested.None? ==> Columns(db.h) <= MAX_PARAMS
    ensures status.InvalidArg? <==> start > end || (requested.Some? && |requested.value| > MAX_PARAMS)
    ensures status.Ok? ==>
              rows == Delivered(View(db), db.h.oldestTimestamp, start, end, Requested(db.h, requested))
    ensures status.Ok? && Ascending(View(db)) ==>
              && rows == Select(View(db), start, end, Requested(db.h, requested))
              && Picks(at, View(db), |View(db)|, start, end) && |at| == |rows|
              && (requested.None? ==> forall j :: 0 <= j < |rows| ==> rows[j] == View(db)[at[j]])
              && (requested.Some? ==> TakesAll(rows, at, View(db), requested.value))
  {
    hide Takes, Select, Fits, View, AllReadable, WholeExtras, Ascending, Walk, BlockOf, LogicalSlot, Available, RingEnd,
         Delivered;
    var cursor := new Cursor(db);
    status := cursor.Init(start, end, requested);
    rows, at := [], [];
    if status.InvalidArg? {
      return;
    }
    ghost var all := cursor.Remaining();
    var more := true;
    while more
      invariant cursor.Valid() && fresh(cursor) && fresh(cursor.buffer)
      invariant all == if more then rows + cursor.Remaining() else rows
      decreases more, cursor.endRecordIdx - cursor.recordsScanned
    {
      var found, row := cursor.Next();
      if found {
        assert rows + ([row] + cursor.Remaining()) == (rows + [row]) + cursor.Remaining();
        rows := rows + [row];
      } else {
        assert rows + [] == rows;
        more := false;
      }
    }
    if Ascending(View(db)) {
      DeliveredOrdered(View(db), db.h.oldestTimestamp, start, end, Requested(db.h, requested));
      at := SelectPicks(View(db), |View(db)|, start, end, Requested(db.h, requested));
      assert View(db)[..|View(db)|] == View(db);
      if requested.None? {
        WholeRows(rows, at, View(db), Requested(db.h, requested));
      }
    }
  }
}
