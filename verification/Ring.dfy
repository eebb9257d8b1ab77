/** The ring engine: one record is appended per write, the slot is the record number modulo the
    capacity, and the capacity may shrink in the middle of a write. The abstract state is a log
    of rows; the theorem is that the file always holds exactly its newest rows. */
module Ring {
  import opened Arith
  import opened Bytes
  import opened Layout
  import opened Storage

  const U32_LIMIT: nat := 0x1_0000_0000

  /** The open database: header, file contents and the two flags a write looks at. */
  datatype Db = Db(h: Header, file: Bytes, adapted: bool, indexStale: bool)

  type Torn = t: Bytes | |t| < BLOCK_SIZE witness []

  /** The answer to a write that makes the file longer. */
  datatype Growth = Granted | NoSpace | IoError

  /** What the file system does during one write: the free-space callback reports less than the
      reserve; growth is granted, or refused for want of space or for another reason, and a refused
      block leaves `torn` behind. */
  datatype Env = Env(lowSpace: bool, growth: Growth, torn: Torn)

  function Inc32(x: nat): nat { (x + 1) % U32_LIMIT }

  // The write path

  function Available(h: Header): nat {
    if h.maxRecords == 0 || h.totalRecords < h.maxRecords then h.totalRecords else h.maxRecords
  }

  /** Slot of the record with number `a`. */
  function SlotOf(h: Header, a: nat): nat {
    if h.maxRecords == 0 then a else a % h.maxRecords
  }

  predicate Evicts(h: Header) {
    h.maxRecords != 0 && h.totalRecords >= h.maxRecords
  }

  function Evicted(h: Header): Header {
    if Evicts(h)
    then h.(totalEvictions := Inc32(h.totalEvictions), oldestRecordIdx := (h.oldestRecordIdx + 1) % h.maxRecords)
    else h
  }

  /** From now on the ring reuses the slots it already has. */
  function Capped(db: Db): Db {
    db.(h := db.h.(maxRecords := db.h.totalRecords), adapted := true)
  }

  /** The free-space guard, consulted when the next record would start a new block. */
  predicate GuardFires(db: Db, env: Env)
    requires db.h.recordsPerBlock > 0
  {
    && env.lowSpace && !db.adapted
    && 0 < db.h.totalRecords < db.h.maxRecords
    && db.h.totalRecords % db.h.recordsPerBlock == 0
  }

  function Guarded(db: Db, env: Env): Db
    requires db.h.recordsPerBlock > 0
  {
    if GuardFires(db, env) then Capped(db) else db
  }

  /** The write of the next record makes the file longer. */
  predicate Grows(db: Db)
    requires db.h.recordsPerBlock > 0
  {
    !HasBlock(db.file, GeometryOf(db.h), BlockOf(GeometryOf(db.h), SlotOf(db.h, db.h.totalRecords)))
  }

  function TornFile(f: Bytes, at: nat, torn: Bytes): Bytes {
    if torn == [] then f else WriteAt(f, at, torn)
  }

  datatype Attempt = Attempt(db: Db, ok: bool, retries: nat)

  /** A refused growth is met by a cap: the ring was still filling up, for want of space, and no cap
      was made before. */
  predicate CapHelps(db: Db, env: Env) {
    env.growth.NoSpace? && !Evicts(db.h) && !db.adapted && db.h.totalRecords > 0
  }

  /** The block write with its retry: when space runs out the capacity is cut to what is already
      written, and the record is written again. */
  function Store(db: Db, ts: u32, vals: seq<i16>, env: Env, retries: nat): Attempt
    requires GeometryOf(db.h).Valid() && db.h.numParams <= |vals|
    decreases if db.adapted then 0 else 1
  {
    var g := GeometryOf(db.h);
    var slot := SlotOf(db.h, db.h.totalRecords);
    if Grows(db) && !env.growth.Granted? then
      var left := db.(h := Evicted(db.h), file := TornFile(db.file, BlockOffset(g, BlockOf(g, slot)), env.torn));
      if CapHelps(db, env)
      then Store(Capped(left), ts, vals, env, retries + 1)
      else Attempt(left, false, retries)
    else
      Attempt(db.(h := Evicted(db.h), file := WriteSlot(db.file, g, slot, ts, vals)), true, retries)
  }

  /** Record `a` carries values in the overflow region. */
  predicate HasExtras(h: Header, a: nat) {
    h.extraParamCount > 0 && a >= h.firstOverflowRecordIdx
  }

  function OverflowPos(h: Header, a: nat): nat
    requires a >= h.firstOverflowRecordIdx
  {
    h.overflowOffset + OVERFLOW_HEADER_SIZE + (a - h.firstOverflowRecordIdx) * h.overflowRecordSize
  }

  function ZeroVals(n: nat): (z: seq<i16>)
    ensures |z| == n && forall i :: 0 <= i < n ==> z[i] == 0
  {
    seq(n, _ => 0)
  }

  /** The overflow columns of record `a`: zeros before the region existed, and where the file ends
      before them. */
  function Extras(f: Bytes, h: Header, a: nat): (vals: seq<i16>)
    ensures |vals| == h.extraParamCount
  {
    if HasExtras(h, a) && OverflowPos(h, a) + 2 * h.extraParamCount <= |f|
    then Decode(f, OverflowPos(h, a), h.extraParamCount)
    else ZeroVals(h.extraParamCount)
  }

  /** The append of the next extras is not refused: the file need not grow for them, or can. */
  predicate Lands(f: Bytes, h: Header, env: Env) {
    !env.growth.Granted? && HasExtras(h, h.totalRecords) ==>
      OverflowPos(h, h.totalRecords) + 2 * h.extraParamCount <= |f|
  }

  /** The append of the next extras, if they reach the file. A refused append is only logged. */
  function AppendExtras(f: Bytes, h: Header, vals: seq<i16>, lands: bool): Bytes
    requires |vals| == h.numParams + h.extraParamCount
  {
    if HasExtras(h, h.totalRecords) && lands
    then WriteAt(f, OverflowPos(h, h.totalRecords), Encode(vals[h.numParams..]))
    else f
  }

  /** The row that a write stores: without its append it has the extras that the file shows anyway. */
  function NewRow(db: Db, ts: u32, vals: seq<i16>, lands: bool): (row: Row)
    requires |vals| == db.h.numParams + db.h.extraParamCount
    ensures |row.vals| == |vals|
  {
    Row(ts, vals[..db.h.numParams] +
            if lands then vals[db.h.numParams..] else Extras(db.file, db.h, db.h.totalRecords))
  }

  /** The header after a stored record. */
  function Advanced(h: Header, f: Bytes, ts: u32): Header
    requires GeometryOf(h).Valid()
  {
    var g := GeometryOf(h);
    var oldestTs :=
      if Evicts(h) then
        if HasBlock(f, g, BlockOf(g, h.oldestRecordIdx)) then RowAt(f, g, h.oldestRecordIdx).ts else h.oldestTimestamp
      else if Inc32(h.totalRecords) == 1 then ts else h.oldestTimestamp;
    h.(totalRecords := Inc32(h.totalRecords), totalWrites := Inc32(h.totalWrites),
       newestRecordIdx := SlotOf(h, h.totalRecords), newestTimestamp := ts, oldestTimestamp := oldestTs)
  }

  predicate OnIndexSlot(h: Header, slot: nat)
    requires h.indexStride > 0
  {
    slot % h.indexStride == 0 && slot / h.indexStride < h.indexEntries
  }

  function Finish(db: Db, ts: u32, vals: seq<i16>, lands: bool): Db
    requires GeometryOf(db.h).Valid() && db.h.indexStride > 0
    requires |vals| == db.h.numParams + db.h.extraParamCount
  {
    var f := AppendExtras(db.file, db.h, vals, lands);
    db.(h := Advanced(db.h, f, ts), file := f,
        indexStale := db.indexStale || OnIndexSlot(db.h, SlotOf(db.h, db.h.totalRecords)))
  }

  /** One write call on an open database. */
  function Write(db: Db, ts: u32, vals: seq<i16>, env: Env): Attempt
    requires GeometryOf(db.h).Valid() && db.h.indexStride > 0
    requires |vals| == db.h.numParams + db.h.extraParamCount
  {
    var a := Store(Guarded(db, env), ts, vals, env, 0);
    StoreKeepsShape(Guarded(db, env), ts, vals, env, 0);
    if a.ok then a.(db := Finish(a.db, ts, vals, Lands(a.db.file, a.db.h, env))) else a
  }

  /** Storing changes neither geometry nor counters other than those of an eviction. */
  lemma {:induction false} StoreKeepsShape(db: Db, ts: u32, vals: seq<i16>, env: Env, retries: nat)
    requires GeometryOf(db.h).Valid() && db.h.numParams <= |vals|
    ensures var s := Store(db, ts, vals, env, retries).db.h;
            && GeometryOf(s) == GeometryOf(db.h) && s.indexStride == db.h.indexStride
            && s.numParams == db.h.numParams && s.extraParamCount == db.h.extraParamCount
    decreases if db.adapted then 0 else 1
  {
    hide WriteSlot;
    var g := GeometryOf(db.h);
    var slot := SlotOf(db.h, db.h.totalRecords);
    if Grows(db) && CapHelps(db, env) {
      var left := db.(h := Evicted(db.h), file := TornFile(db.file, BlockOffset(g, BlockOf(g, slot)), env.torn));
      StoreKeepsShape(Capped(left), ts, vals, env, retries + 1);
    }
  }

  // The invariant

  /** The bytes the ring may ever use end here. */
  function RingEnd(h: Header): nat
    requires h.recordsPerBlock > 0
  {
    BlockOffset(GeometryOf(h), Blocks(h.maxRecords, h.recordsPerBlock))
  }

  /** The overflow region lies behind every block the ring can use. */
  ghost predicate OverflowApart(h: Header)
    requires h.recordsPerBlock > 0
  {
    h.extraParamCount > 0 ==>
      && h.maxRecords > 0
      && h.overflowRecordSize == 2 * h.extraParamCount
      && h.firstOverflowRecordIdx <= h.totalRecords
      && RingEnd(h) <= h.overflowOffset
  }

  /** The file does not end inside the extras of any record. */
  ghost predicate WholeExtras(h: Header, f: Bytes) {
    forall a: nat :: HasExtras(h, a) ==>
      |f| <= OverflowPos(h, a) || OverflowPos(h, a) + 2 * h.extraParamCount <= |f|
  }

  ghost predicate Shape(db: Db) {
    && GeometryOf(db.h).Valid()
    && db.h.indexStride > 0
    && db.h.totalRecords < U32_LIMIT
    && db.h.oldestRecordIdx == (if Evicts(db.h) then db.h.totalRecords % db.h.maxRecords else 0)
    && OverflowApart(db.h)
    && HEADER_SIZE <= db.h.indexOffset && GeometryOf(db.h).dataOffset <= |db.file|
    && (db.h.extraParamCount > 0 ==> db.h.overflowOffset + OVERFLOW_HEADER_SIZE <= |db.file|)
    && WholeExtras(db.h, db.file)
  }

  /** Number of values record `a` was written with. */
  function Width(h: Header, a: nat): nat {
    h.numParams + if HasExtras(h, a) then h.extraParamCount else 0
  }

  predicate InWindow(h: Header, a: nat) {
    h.totalRecords - Available(h) <= a < h.totalRecords
  }

  function LogRow(h: Header, log: seq<Row>, a: nat): Row
    requires a < h.totalRecords <= |log|
  {
    log[|log| - h.totalRecords + a]
  }

  /** Record `a` of the log is in its slot, and the overflow region shows its extra values. */
  ghost predicate Kept(db: Db, log: seq<Row>, a: nat)
    requires GeometryOf(db.h).Valid() && a < db.h.totalRecords <= |log|
  {
    var g := GeometryOf(db.h);
    var r := LogRow(db.h, log, a);
    && |r.vals| == Width(db.h, a)
    && Ready(db.file, g, BlockOf(g, SlotOf(db.h, a)))
    && RowAt(db.file, g, SlotOf(db.h, a)) == Row(r.ts, r.vals[..g.np])
    && (HasExtras(db.h, a) ==> Extras(db.file, db.h, a) == r.vals[g.np..])
  }

  /** The file holds exactly the newest `Available` rows of the log, each in its slot. */
  ghost predicate Inv(db: Db, log: seq<Row>) {
    && Shape(db)
    && db.h.totalRecords <= |log|
    && (forall a: nat :: InWindow(db.h, a) ==> Kept(db, log, a))
    && (Available(db.h) > 0 ==>
          && db.h.oldestTimestamp == LogRow(db.h, log, db.h.totalRecords - Available(db.h)).ts
          && db.h.newestTimestamp == LogRow(db.h, log, db.h.totalRecords - 1).ts
          && db.h.newestRecordIdx == SlotOf(db.h, db.h.totalRecords - 1))
  }

  // Preservation

  /** Before the first lap a record's slot is its number. */
  lemma SlotLinear(h: Header, a: nat)
    requires h.maxRecords == 0 || a < h.maxRecords
    ensures SlotOf(h, a) == a
  {
  }

  /** Every slot of the ring lies in a block below the end of the ring. */
  lemma SlotBelowEnd(h: Header, a: nat)
    requires h.recordsPerBlock > 0 && h.maxRecords > 0
    ensures BlockOffset(GeometryOf(h), BlockOf(GeometryOf(h), SlotOf(h, a))) + BLOCK_SIZE <= RingEnd(h)
  {
    SlotBlock(SlotOf(h, a), h.maxRecords, h.recordsPerBlock);
  }

  lemma BlocksMonotone(m: nat, n: nat, rpb: nat)
    requires rpb > 0 && m <= n
    ensures Blocks(m, rpb) <= Blocks(n, rpb)
  {
    DivMonotone(m + rpb - 1, n + rpb - 1, rpb);
  }

  /** A kept row stays kept when its log entry, its slot, its block and its extras agree. */
  lemma KeptMoves(db: Db, log: seq<Row>, db': Db, log': seq<Row>, a: nat)
    requires GeometryOf(db.h).Valid() && a < db.h.totalRecords <= |log| && Kept(db, log, a)
    requires GeometryOf(db'.h) == GeometryOf(db.h) && a < db'.h.totalRecords <= |log'|
    requires LogRow(db'.h, log', a) == LogRow(db.h, log, a)
    requires SlotOf(db'.h, a) == SlotOf(db.h, a)
    requires var g := GeometryOf(db.h); var n := BlockOf(g, SlotOf(db.h, a));
             && Ready(db'.file, g, n) && Ready(db.file, g, n)
             && RowAt(db'.file, g, SlotOf(db.h, a)) == RowAt(db.file, g, SlotOf(db.h, a))
    requires HasExtras(db'.h, a) == HasExtras(db.h, a) && db'.h.extraParamCount == db.h.extraParamCount
    requires HasExtras(db.h, a) ==> Extras(db'.file, db'.h, a) == Extras(db.file, db.h, a)
    ensures Kept(db', log', a)
  {
    hide Decode, Magic, RowAt, Ready, Fits, BlockAt, OverflowPos, SlotOf, Extras;
  }

  /** The overflow region of `h'` is that of `h`. */
  ghost predicate SameRegion(h: Header, h': Header) {
    && h'.extraParamCount == h.extraParamCount && h'.overflowRecordSize == h.overflowRecordSize
    && h'.overflowOffset == h.overflowOffset && h'.firstOverflowRecordIdx == h.firstOverflowRecordIdx
  }

  lemma SamePos(h: Header, h': Header, a: nat)
    requires SameRegion(h, h') && h.firstOverflowRecordIdx <= a
    ensures OverflowPos(h', a) == OverflowPos(h, a)
  {
  }

  lemma SameRead(f: Bytes, h: Header, h': Header, a: nat)
    requires SameRegion(h, h')
    ensures HasExtras(h', a) == HasExtras(h, a) && Extras(f, h', a) == Extras(f, h, a)
  {
    hide Decode, OverflowPos;
    if HasExtras(h, a) {
      SamePos(h, h', a);
    }
  }

  lemma SameWhole(f: Bytes, h: Header, h': Header)
    requires SameRegion(h, h') && WholeExtras(h, f)
    ensures WholeExtras(h', f)
  {
    hide OverflowPos;
    forall a: nat | HasExtras(h', a)
      ensures |f| <= OverflowPos(h', a) || OverflowPos(h', a) + 2 * h'.extraParamCount <= |f|
    {
      SamePos(h, h', a);
    }
  }

  /** Cutting the capacity to the current record count keeps every row where it is. */
  lemma CapKeeps(db: Db, log: seq<Row>)
    requires Inv(db, log) && 0 < db.h.totalRecords && !Evicts(db.h)
    ensures Inv(Capped(db), log)
  {
    hide RowAt, Ready, Extras, Fits, BlockAt, Kept, Blocks, BlockOf, SlotOf, OverflowPos, WholeExtras;
    var c := Capped(db);
    SameWhole(db.file, db.h, c.h);
    ModAdd(0, db.h.totalRecords);
    ModSmall(0, db.h.totalRecords);
    SlotLinear(db.h, db.h.totalRecords - 1);
    SlotLinear(c.h, db.h.totalRecords - 1);
    if db.h.extraParamCount > 0 {
      BlocksMonotone(db.h.totalRecords, db.h.maxRecords, db.h.recordsPerBlock);
    }
    forall a: nat | InWindow(c.h, a)
      ensures Kept(c, log, a)
    {
      assert InWindow(db.h, a);
      KeptHasBlock(db, log, a);
      SlotLinear(db.h, a);
      SlotLinear(c.h, a);
      SameRead(db.file, db.h, c.h, a);
      KeptMoves(db, log, c, log, a);
    }
  }

  lemma KeptHasBlock(db: Db, log: seq<Row>, a: nat)
    requires GeometryOf(db.h).Valid() && a < db.h.totalRecords <= |log| && Kept(db, log, a)
    ensures Ready(db.file, GeometryOf(db.h), BlockOf(GeometryOf(db.h), SlotOf(db.h, a)))
  {
  }

  /** Only the block write of a database that is still filling up, without overflow region, makes the
      file grow. */
  lemma GrowthOnlyWhileFilling(db: Db, log: seq<Row>)
    requires Inv(db, log) && Grows(db)
    ensures !Evicts(db.h) && db.h.extraParamCount == 0
  {
    hide RowAt, Decode, Magic, Fits, BlockAt, Kept, BlockOf, SlotOf, OverflowPos, RingEnd;
    if db.h.extraParamCount > 0 {
      SlotBelowEnd(db.h, db.h.totalRecords);
    }
    if Evicts(db.h) {
      var a := db.h.totalRecords - db.h.maxRecords;
      assert InWindow(db.h, a);
      KeptHasBlock(db, log, a);
      OneLap(db.h, a);
    }
  }

  lemma OneLap(h: Header, a: nat)
    requires h.maxRecords > 0
    ensures SlotOf(h, a + h.maxRecords) == SlotOf(h, a)
  {
    ModAdd(a, h.maxRecords);
  }

  lemma TornLonger(f: Bytes, at: nat, torn: Bytes)
    ensures |f| <= |TornFile(f, at, torn)|
  {
  }

  lemma TornRow(f: Bytes, g: Geometry, slot: nat, missing: nat, torn: Torn)
    requires g.Valid() && Ready(f, g, BlockOf(g, slot)) && !HasBlock(f, g, missing)
    ensures var r := TornFile(f, BlockOffset(g, missing), torn);
            Ready(r, g, BlockOf(g, slot)) && RowAt(r, g, slot) == RowAt(f, g, slot)
  {
    hide Magic, Fits, BlockAt, BlockOf, GetRow, WriteAt;
    if torn != [] {
      BlockAside(f, g, BlockOf(g, slot), BlockOffset(g, missing), torn);
    }
  }

  /** A refused growth writes only into the block that is not there yet. */
  lemma TornKeeps(db: Db, log: seq<Row>, torn: Torn)
    requires Inv(db, log) && Grows(db)
    ensures var g := GeometryOf(db.h);
            var at := BlockOffset(g, BlockOf(g, SlotOf(db.h, db.h.totalRecords)));
            Inv(db.(file := TornFile(db.file, at, torn)), log)
  {
    hide RowAt, Decode, Magic, Fits, BlockAt, Kept, Ready, BlockOf, SlotOf, RingEnd, OverflowPos, TornFile, BlockOffset;
    var g := GeometryOf(db.h);
    var n := BlockOf(g, SlotOf(db.h, db.h.totalRecords));
    var d := db.(file := TornFile(db.file, BlockOffset(g, n), torn));
    GrowthOnlyWhileFilling(db, log);
    TornLonger(db.file, BlockOffset(g, n), torn);
    forall a: nat | InWindow(db.h, a)
      ensures Kept(d, log, a)
    {
      KeptHasBlock(db, log, a);
      TornRow(db.file, g, SlotOf(db.h, a), n, torn);
      KeptMoves(db, log, d, log, a);
    }
  }

  /** Extras of successive records follow one another. */
  lemma OverflowOrder(h: Header, a: nat, b: nat)
    requires h.firstOverflowRecordIdx <= a < b
    requires h.overflowRecordSize == 2 * h.extraParamCount
    ensures OverflowPos(h, a) + 2 * h.extraParamCount <= OverflowPos(h, b)
    ensures h.overflowOffset + OVERFLOW_HEADER_SIZE <= OverflowPos(h, a)
  {
    var rs := h.overflowRecordSize;
    var i, j := a - h.firstOverflowRecordIdx, b - h.firstOverflowRecordIdx;
    MulLe(i + 1, j, rs);
    assert (i + 1) * rs == i * rs + rs;
  }

  /** Appending extras never touches a block of the ring. */
  lemma ExtrasMissBlocks(f: Bytes, h: Header, vals: seq<i16>, lands: bool, a: nat)
    requires GeometryOf(h).Valid() && OverflowApart(h) && |vals| == h.numParams + h.extraParamCount
    requires Ready(f, GeometryOf(h), BlockOf(GeometryOf(h), SlotOf(h, a)))
    ensures var g := GeometryOf(h); var n := BlockOf(g, SlotOf(h, a)); var r := AppendExtras(f, h, vals, lands);
            && Ready(r, g, n)
            && RowAt(r, g, SlotOf(h, a)) == RowAt(f, g, SlotOf(h, a))
  {
    hide Decode, Encode, Magic, GetRow, Fits, BlockAt, SlotOf, BlockOf, WriteAt, RingEnd;
    if HasExtras(h, h.totalRecords) && lands {
      var g := GeometryOf(h);
      SlotBelowEnd(h, a);
      OverflowStart(h, h.totalRecords);
      BlockAside(f, g, BlockOf(g, SlotOf(h, a)), OverflowPos(h, h.totalRecords), Encode(vals[h.numParams..]));
    }
  }

  lemma OverflowStart(h: Header, a: nat)
    requires h.firstOverflowRecordIdx <= a
    ensures h.overflowOffset + OVERFLOW_HEADER_SIZE <= OverflowPos(h, a)
  {
  }

  /** A record other than the one being evicted survives the base-block write. */
  lemma SlotSurvives(db: Db, ts: u32, vals: seq<i16>, a: nat)
    requires GeometryOf(db.h).Valid() && |vals| == db.h.numParams + db.h.extraParamCount
    requires a < db.h.totalRecords && (db.h.maxRecords == 0 || db.h.totalRecords < a + db.h.maxRecords)
    requires Ready(db.file, GeometryOf(db.h), BlockOf(GeometryOf(db.h), SlotOf(db.h, a)))
    ensures var g := GeometryOf(db.h); var slot := SlotOf(db.h, a);
            var r := WriteSlot(db.file, g, SlotOf(db.h, db.h.totalRecords), ts, vals);
            && Ready(r, g, BlockOf(g, slot))
            && RowAt(r, g, slot) == RowAt(db.file, g, slot)
  {
    hide Ready, RowAt, WriteSlot, Fits, BlockOf;
    if db.h.maxRecords > 0 {
      ModApart(a, db.h.totalRecords, db.h.maxRecords);
    }
    var g := GeometryOf(db.h);
    WriteSlotReady(db.file, g, SlotOf(db.h, db.h.totalRecords), ts, vals, BlockOf(g, SlotOf(db.h, a)));
    WriteSlotRow(db.file, g, SlotOf(db.h, db.h.totalRecords), ts, vals, SlotOf(db.h, a));
  }

  /** Bytes between the old end of the file and a later write read as zeros. */
  lemma DecodeGap(f: Bytes, at: nat, d: Bytes, p: nat, n: nat)
    requires |f| <= p && p + 2 * n <= at
    ensures p + 2 * n <= |WriteAt(f, at, d)| && Decode(WriteAt(f, at, d), p, n) == ZeroVals(n)
  {
    var r := WriteAt(f, at, d);
    forall i | 0 <= i < n
      ensures I16(r, p + 2 * i) == 0
    {
      assert r[p + 2 * i] == 0 && r[p + 2 * i + 1] == 0;
    }
  }

  /** A block write of a ring with an overflow region does not change the length of the file. */
  lemma BlockInside(db: Db, ts: u32, vals: seq<i16>)
    requires Shape(db) && db.h.extraParamCount > 0 && db.h.numParams <= |vals|
    ensures |WriteSlot(db.file, GeometryOf(db.h), SlotOf(db.h, db.h.totalRecords), ts, vals)| == |db.file|
  {
    hide Fits, SlotOf, UpdatedBlock, BlockOf, RingEnd;
    SlotBelowEnd(db.h, db.h.totalRecords);
  }

  /** The block write touches no extras, whether of an older record or where the next ones go. */
  lemma BlockMissesExtras(db: Db, ts: u32, vals: seq<i16>, a: nat)
    requires Shape(db) && HasExtras(db.h, a) && db.h.numParams <= |vals|
    ensures var f := WriteSlot(db.file, GeometryOf(db.h), SlotOf(db.h, db.h.totalRecords), ts, vals);
            Extras(f, db.h, a) == Extras(db.file, db.h, a)
  {
    hide Decode, Fits, SlotOf, UpdatedBlock, BlockOf, RingEnd, OverflowPos, WholeExtras;
    BlockInside(db, ts, vals);
    var g := GeometryOf(db.h);
    var n, at := db.h.extraParamCount, OverflowPos(db.h, a);
    var slot := SlotOf(db.h, db.h.totalRecords);
    if at + 2 * n <= |db.file| {
      SlotBelowEnd(db.h, db.h.totalRecords);
      OverflowStart(db.h, a);
      DecodeAside(db.file, BlockOffset(g, BlockOf(g, slot)), UpdatedBlock(db.file, g, slot, ts, vals), at, n);
    }
  }

  /** The append of new extras leaves older ones as they are; extras that were missing at the end of
      the file stay zeros when the file grows past them. */
  lemma WriteMissesExtras(f: Bytes, h: Header, t: nat, d: Bytes, a: nat)
    requires h.overflowRecordSize == 2 * h.extraParamCount && a < t && HasExtras(h, a) && WholeExtras(h, f)
    ensures Extras(WriteAt(f, OverflowPos(h, t), d), h, a) == Extras(f, h, a)
  {
    hide Decode, OverflowPos, WriteAt;
    var n, at, to := h.extraParamCount, OverflowPos(h, a), OverflowPos(h, t);
    OverflowOrder(h, a, t);
    if at + 2 * n <= |f| {
      DecodeAside(f, to, d, at, n);
    } else {
      DecodeGap(f, to, d, at, n);
    }
  }

  /** Neither the base-block write nor the append of new extras touches older extras. */
  lemma ExtrasSurvive(db: Db, ts: u32, vals: seq<i16>, lands: bool, a: nat)
    requires Shape(db) && |vals| == db.h.numParams + db.h.extraParamCount
    requires a < db.h.totalRecords && HasExtras(db.h, a)
    ensures Extras(StoredFile(db, ts, vals, lands), db.h, a) == Extras(db.file, db.h, a)
  {
    hide Fits, SlotOf, WriteSlot, RingEnd, OverflowPos, Extras, Encode, WriteAt;
    BlockMissesExtras(db, ts, vals, a);
    BlockInside(db, ts, vals);
    var f1 := WriteSlot(db.file, GeometryOf(db.h), SlotOf(db.h, db.h.totalRecords), ts, vals);
    if lands {
      WriteMissesExtras(f1, db.h, db.h.totalRecords, Encode(vals[db.h.numParams..]), a);
    }
  }

  lemma AppendedExtras(f: Bytes, h: Header, vals: seq<i16>)
    requires |vals| == h.numParams + h.extraParamCount && HasExtras(h, h.totalRecords)
    ensures Extras(AppendExtras(f, h, vals, true), h, h.totalRecords) == vals[h.numParams..]
  {
    hide Decode, Encode, OverflowPos;
    DecodeBack(f, OverflowPos(h, h.totalRecords), vals[h.numParams..]);
  }

  /** After an append the file still ends between two records. */
  lemma AppendWhole(f: Bytes, h: Header, vals: seq<i16>, lands: bool)
    requires |vals| == h.numParams + h.extraParamCount && WholeExtras(h, f)
    requires h.extraParamCount > 0 ==> h.overflowRecordSize == 2 * h.extraParamCount
    ensures WholeExtras(h, AppendExtras(f, h, vals, lands))
  {
    hide Encode, OverflowPos, WriteAt;
    var r, t := AppendExtras(f, h, vals, lands), h.totalRecords;
    forall a: nat | HasExtras(h, a)
      ensures |r| <= OverflowPos(h, a) || OverflowPos(h, a) + 2 * h.extraParamCount <= |r|
    {
      if HasExtras(h, t) && a < t {
        OverflowOrder(h, a, t);
      } else if HasExtras(h, t) && t < a {
        OverflowOrder(h, t, a);
      }
    }
  }

  /** The file after the block write and the append of extras. */
  function StoredFile(db: Db, ts: u32, vals: seq<i16>, lands: bool): Bytes
    requires GeometryOf(db.h).Valid() && |vals| == db.h.numParams + db.h.extraParamCount
  {
    AppendExtras(WriteSlot(db.file, GeometryOf(db.h), SlotOf(db.h, db.h.totalRecords), ts, vals), db.h, vals, lands)
  }

  /** `h'` counts one record more than `h` and addresses all records alike. */
  ghost predicate Follows(h: Header, h': Header) {
    && h'.indexOffset == h.indexOffset && h'.indexEntries == h.indexEntries && h'.indexStride == h.indexStride
    && GeometryOf(h') == GeometryOf(h) && h'.maxRecords == h.maxRecords
    && h'.totalRecords == h.totalRecords + 1
    && SameRegion(h, h')
  }

  lemma SameAddress(h: Header, h': Header, a: nat)
    requires Follows(h, h')
    ensures SlotOf(h', a) == SlotOf(h, a)
  {
  }

  /** Every old record of the new window is still kept. */
  lemma OldRowKept(db: Db, log: seq<Row>, ts: u32, vals: seq<i16>, lands: bool, row: Row, db': Db, a: nat)
    requires Shape(db) && |vals| == db.h.numParams + db.h.extraParamCount
    requires a < db.h.totalRecords <= |log| && (db.h.maxRecords == 0 || db.h.totalRecords < a + db.h.maxRecords)
    requires Kept(db, log, a)
    requires Follows(db.h, db'.h) && db'.file == StoredFile(db, ts, vals, lands)
    ensures Kept(db', log + [row], a)
  {
    hide Ready, RowAt, WriteSlot, Fits, BlockOf, SlotOf, Kept, Extras, AppendExtras, RingEnd, OverflowPos, WholeExtras;
    KeptHasBlock(db, log, a);
    SlotSurvives(db, ts, vals, a);
    var f1 := WriteSlot(db.file, GeometryOf(db.h), SlotOf(db.h, db.h.totalRecords), ts, vals);
    ExtrasMissBlocks(f1, db.h, vals, lands, a);
    if HasExtras(db.h, a) {
      ExtrasSurvive(db, ts, vals, lands, a);
    }
    SameAddress(db.h, db'.h, a);
    SameRead(db'.file, db.h, db'.h, a);
    KeptMoves(db, log, db', log + [row], a);
  }

  lemma LongerFile(db: Db, ts: u32, vals: seq<i16>, lands: bool)
    requires GeometryOf(db.h).Valid() && |vals| == db.h.numParams + db.h.extraParamCount
    ensures |db.file| <= |StoredFile(db, ts, vals, lands)|
  {
    hide Fits, UpdatedBlock, Encode, SlotOf, BlockOf, OverflowPos;
  }

  lemma NewRowKept(db: Db, log: seq<Row>, ts: u32, vals: seq<i16>, lands: bool, db': Db)
    requires Shape(db) && db.h.totalRecords <= |log|
    requires |vals| == db.h.numParams + db.h.extraParamCount
    requires Follows(db.h, db'.h) && db'.file == StoredFile(db, ts, vals, lands)
    ensures Kept(db', log + [NewRow(db, ts, vals, lands)], db.h.totalRecords)
  {
    hide Ready, RowAt, WriteSlot, Fits, BlockOf, SlotOf, Extras, AppendExtras, RingEnd, OverflowPos, WholeExtras;
    var g := GeometryOf(db.h);
    var slot := SlotOf(db.h, db.h.totalRecords);
    var f1 := WriteSlot(db.file, g, slot, ts, vals);
    WriteSlotReady(db.file, g, slot, ts, vals, BlockOf(g, slot));
    WriteSlotRow(db.file, g, slot, ts, vals, slot);
    ExtrasMissBlocks(f1, db.h, vals, lands, db.h.totalRecords);
    SameAddress(db.h, db'.h, db.h.totalRecords);
    SameRead(db'.file, db.h, db'.h, db.h.totalRecords);
    NewRowExtras(db, ts, vals, lands);
    NewRowParts(db, ts, vals, lands);
  }

  lemma NewRowParts(db: Db, ts: u32, vals: seq<i16>, lands: bool)
    requires |vals| == db.h.numParams + db.h.extraParamCount
    ensures NewRow(db, ts, vals, lands).vals[..db.h.numParams] == vals[..db.h.numParams]
    ensures NewRow(db, ts, vals, lands).vals[db.h.numParams..] ==
            if lands then vals[db.h.numParams..] else Extras(db.file, db.h, db.h.totalRecords)
    ensures db.h.extraParamCount == 0 || lands ==> NewRow(db, ts, vals, lands) == Row(ts, vals)
  {
    hide Extras;
    assert vals[..db.h.numParams] + vals[db.h.numParams..] == vals;
  }

  lemma NewRowExtras(db: Db, ts: u32, vals: seq<i16>, lands: bool)
    requires Shape(db) && |vals| == db.h.numParams + db.h.extraParamCount
    ensures HasExtras(db.h, db.h.totalRecords) ==>
              Extras(StoredFile(db, ts, vals, lands), db.h, db.h.totalRecords) ==
              if lands then vals[db.h.numParams..] else Extras(db.file, db.h, db.h.totalRecords)
  {
    hide Fits, SlotOf, WriteSlot, RingEnd, OverflowPos, Extras, WholeExtras;
    if HasExtras(db.h, db.h.totalRecords) {
      if lands {
        AppendedExtras(WriteSlot(db.file, GeometryOf(db.h), SlotOf(db.h, db.h.totalRecords), ts, vals), db.h, vals);
      } else {
        BlockMissesExtras(db, ts, vals, db.h.totalRecords);
      }
    }
  }

  /** The longer file still ends between two records. */
  lemma StoredWhole(db: Db, ts: u32, vals: seq<i16>, lands: bool, h': Header)
    requires Shape(db) && |vals| == db.h.numParams + db.h.extraParamCount && Follows(db.h, h')
    ensures WholeExtras(h', StoredFile(db, ts, vals, lands))
  {
    hide Fits, SlotOf, WriteSlot, RingEnd, OverflowPos, AppendExtras;
    if db.h.extraParamCount > 0 {
      BlockInside(db, ts, vals);
      var f1 := WriteSlot(db.file, GeometryOf(db.h), SlotOf(db.h, db.h.totalRecords), ts, vals);
      AppendWhole(f1, db.h, vals, lands);
      SameWhole(StoredFile(db, ts, vals, lands), db.h, h');
    }
  }

  /** The new oldest slot is the one after the evicted record. */
  lemma OldestAdvances(h: Header)
    requires h.oldestRecordIdx == (if Evicts(h) then h.totalRecords % h.maxRecords else 0)
    ensures Evicted(h).oldestRecordIdx ==
            if h.maxRecords != 0 && h.totalRecords + 1 >= h.maxRecords then (h.totalRecords + 1) % h.maxRecords else 0
  {
    if Evicts(h) {
      ModSucc(h.totalRecords, h.maxRecords);
    } else if h.totalRecords + 1 == h.maxRecords {
      ModAdd(0, h.maxRecords);
    }
  }

  lemma AdvancedFields(h: Header, f: Bytes, ts: u32)
    requires GeometryOf(h).Valid() && h.totalRecords + 1 < U32_LIMIT
    ensures var h' := Advanced(Evicted(h), f, ts);
            && Follows(h, h')
            && h'.oldestRecordIdx == Evicted(h).oldestRecordIdx
            && h'.newestTimestamp == ts && h'.newestRecordIdx == SlotOf(h', h.totalRecords)
  {
    hide RowAt, Fits, BlockOf;
    ModSmall(h.totalRecords + 1, U32_LIMIT);
  }

  /** After an eviction the oldest timestamp is read back from the new oldest slot. */
  lemma EvictedTimestamp(db: Db, log: seq<Row>, ts: u32, db': Db)
    requires Shape(db) && Evicts(db.h) && db.h.totalRecords + 1 < U32_LIMIT
    requires db'.h == Advanced(Evicted(db.h), db'.file, ts) && Follows(db.h, db'.h) && db'.h.totalRecords <= |log|
    requires Kept(db', log, db'.h.totalRecords - Available(db'.h))
    ensures db'.h.oldestTimestamp == LogRow(db'.h, log, db'.h.totalRecords - Available(db'.h)).ts
  {
    hide RowAt, Fits, BlockOf, Decode, OverflowPos, RingEnd, Ready;
    var a := db'.h.totalRecords - Available(db'.h);
    ModSmall(db.h.totalRecords + 1, U32_LIMIT);
    OldestAdvances(db.h);
    OneLap(db'.h, a);
    KeptHasBlock(db', log, a);
    ReadyHasBlock(db'.file, GeometryOf(db'.h), BlockOf(GeometryOf(db'.h), db'.h.oldestRecordIdx));
  }

  /** The refreshed oldest timestamp is that of the first record of the new window. */
  lemma OldestTimestamp(db: Db, log: seq<Row>, row: Row, db': Db)
    requires Inv(db, log) && db.h.totalRecords + 1 < U32_LIMIT
    requires db'.h == Advanced(Evicted(db.h), db'.file, row.ts) && Follows(db.h, db'.h)
    requires Kept(db', log + [row], db'.h.totalRecords - Available(db'.h))
    ensures db'.h.oldestTimestamp == LogRow(db'.h, log + [row], db'.h.totalRecords - Available(db'.h)).ts
  {
    hide RowAt, Fits, BlockOf, Kept, RingEnd, Ready;
    ModSmall(db.h.totalRecords + 1, U32_LIMIT);
    if Evicts(db.h) {
      EvictedTimestamp(db, log + [row], row.ts, db');
    }
  }

  lemma ReadyHasBlock(f: Bytes, g: Geometry, n: nat)
    requires Ready(f, g, n)
    ensures HasBlock(f, g, n)
  {
  }

  /** Storing one record turns a file that holds the newest rows of `log` into one that holds the
      newest rows of `log` and the new row. */
  lemma StoredKeeps(db: Db, log: seq<Row>, ts: u32, vals: seq<i16>, lands: bool, db': Db)
    requires Inv(db, log) && db.h.totalRecords + 1 < U32_LIMIT
    requires |vals| == db.h.numParams + db.h.extraParamCount
    requires db'.file == StoredFile(db, ts, vals, lands) && db'.h == Advanced(Evicted(db.h), db'.file, ts)
    ensures Inv(db', log + [NewRow(db, ts, vals, lands)])
  {
    hide RowAt, Fits, BlockOf, Extras, OverflowPos, RingEnd, Ready, SlotOf, Kept, StoredFile, Advanced, WholeExtras;
    var row := NewRow(db, ts, vals, lands);
    var log' := log + [row];
    AdvancedFields(db.h, db'.file, ts);
    OldestAdvances(db.h);
    LongerFile(db, ts, vals, lands);
    StoredWhole(db, ts, vals, lands, db'.h);
    SameRingEnd(db.h, db'.h);
    NewRowKept(db, log, ts, vals, lands, db');
    forall a: nat | InWindow(db'.h, a)
      ensures Kept(db', log', a)
    {
      if a < db.h.totalRecords {
        assert InWindow(db.h, a);
        OldRowKept(db, log, ts, vals, lands, row, db', a);
      }
    }
    assert InWindow(db'.h, db'.h.totalRecords - Available(db'.h));
    OldestTimestamp(db, log, row, db');
  }

  lemma SameRingEnd(h: Header, h': Header)
    requires h.recordsPerBlock > 0 && Follows(h, h')
    ensures RingEnd(h') == RingEnd(h)
  {
  }

  /** The row that one write call adds to the log. */
  function Stored(db: Db, ts: u32, vals: seq<i16>, env: Env): Row
    requires |vals| == db.h.numParams + db.h.extraParamCount
  {
    NewRow(db, ts, vals, Lands(db.file, db.h, env))
  }

  /** Growth is refused and no cap helps: it was used already, or there is no record to fall back on, or
      space is not what is wanting. */
  predicate Refuses(db: Db, env: Env) {
    env.growth.IoError? || (env.growth.NoSpace? && (db.adapted || db.h.totalRecords == 0))
  }

  /** The block write with its retry, followed by the bookkeeping, keeps the invariant whether or
      not the record could be stored, and retries at most once. */
  lemma {:induction false} StoreKeeps(db: Db, log: seq<Row>, ts: u32, vals: seq<i16>, env: Env, retries: nat)
    requires Inv(db, log) && db.h.totalRecords + 1 < U32_LIMIT
    requires |vals| == db.h.numParams + db.h.extraParamCount
    ensures var r := Store(db, ts, vals, env, retries);
            && r.retries <= retries + (if db.adapted then 0 else 1)
            && r.ok == !(Grows(db) && Refuses(db, env))
            && GeometryOf(r.db.h) == GeometryOf(db.h) && r.db.h.indexStride > 0
            && r.db.h.extraParamCount == db.h.extraParamCount
            && (if r.ok
                then Inv(Finish(r.db, ts, vals, Lands(r.db.file, r.db.h, env)), log + [Stored(db, ts, vals, env)])
                else Inv(r.db, log))
    decreases if db.adapted then 0 else 1
  {
    hide Inv, Grows, SlotOf, Fits, BlockOf, WriteSlot, Advanced, TornFile, AppendExtras, BlockOffset, NewRow, Lands,
         OverflowPos, Shape;
    InvShape(db, log);
    ShapeGeometry(db);
    if Grows(db) && !env.growth.Granted? {
      var g := GeometryOf(db.h);
      var at := BlockOffset(g, BlockOf(g, SlotOf(db.h, db.h.totalRecords)));
      var left := db.(file := TornFile(db.file, at, env.torn));
      GrowthOnlyWhileFilling(db, log);
      TornKeeps(db, log, env.torn);
      if CapHelps(db, env) {
        CapKeeps(left, log);
        StoreKeeps(Capped(left), log, ts, vals, env, retries + 1);
        if Grows(Capped(left)) {
          GrowthOnlyWhileFilling(Capped(left), log);
        }
        NewRowParts(db, ts, vals, Lands(db.file, db.h, env));
        NewRowParts(Capped(left), ts, vals, Lands(left.file, Capped(left).h, env));
      }
    } else {
      var stored := Store(db, ts, vals, env, retries).db;
      var lands := Lands(db.file, db.h, env);
      LandsStored(db, ts, vals, env);
      SameExtras(db.h, stored.file, vals, lands);
      StoredKeeps(db, log, ts, vals, lands, Finish(stored, ts, vals, lands));
    }
  }

  lemma ShapeGeometry(db: Db)
    requires Shape(db)
    ensures GeometryOf(db.h).Valid() && db.h.indexStride > 0 && db.h.totalRecords < U32_LIMIT
  {
  }

  /** Whether the append of extras can be refused is settled before the block write. */
  lemma LandsStored(db: Db, ts: u32, vals: seq<i16>, env: Env)
    requires Shape(db) && |vals| == db.h.numParams + db.h.extraParamCount
    ensures var f := WriteSlot(db.file, GeometryOf(db.h), SlotOf(db.h, db.h.totalRecords), ts, vals);
            Lands(f, Evicted(db.h), env) == Lands(db.file, db.h, env)
  {
    hide Fits, SlotOf, WriteSlot, RingEnd, OverflowPos, WholeExtras, Evicted;
    EvictedKeeps(db.h);
    if db.h.extraParamCount > 0 {
      BlockInside(db, ts, vals);
      SamePos(db.h, Evicted(db.h), db.h.totalRecords);
    }
  }

  lemma InvShape(db: Db, log: seq<Row>)
    requires Inv(db, log)
    ensures Shape(db)
  {
  }

  /** An eviction moves the oldest slot and counts itself; nothing else. */
  lemma EvictedKeeps(h: Header)
    ensures Evicted(h) == h.(totalEvictions := Evicted(h).totalEvictions, oldestRecordIdx := Evicted(h).oldestRecordIdx)
  {
    hide Inc32;
  }

  lemma SameExtras(h: Header, f: Bytes, vals: seq<i16>, lands: bool)
    requires |vals| == h.numParams + h.extraParamCount
    ensures Evicted(h).numParams == h.numParams && Evicted(h).extraParamCount == h.extraParamCount
    ensures AppendExtras(f, Evicted(h), vals, lands) == AppendExtras(f, h, vals, lands)
  {
    hide Encode, WriteAt, Evicted, OverflowPos;
    EvictedKeeps(h);
    if HasExtras(h, h.totalRecords) {
      SamePos(h, Evicted(h), h.totalRecords);
    }
  }

  /** A write fails exactly when the file would have to grow and may not, the guard did not cap the
      capacity, and no other cap helps. */
  predicate WriteFails(db: Db, env: Env)
    requires db.h.recordsPerBlock > 0
  {
    Grows(db) && !GuardFires(db, env) && Refuses(db, env)
  }

  /** One write call, with or without a capacity cap: the record is appended to the log exactly
      when the call succeeds, the file keeps holding the newest rows, and at most one retry is
      made. */
  lemma WriteKeeps(db: Db, log: seq<Row>, ts: u32, vals: seq<i16>, env: Env)
    requires Inv(db, log) && db.h.totalRecords + 1 < U32_LIMIT
    requires |vals| == db.h.numParams + db.h.extraParamCount
    ensures var r := Write(db, ts, vals, env);
            && r.retries <= 1
            && r.ok == !WriteFails(db, env)
            && Inv(r.db, if r.ok then log + [Stored(db, ts, vals, env)] else log)
  {
    hide Inv, Grows, Store, Finish, Lands, NewRow, Shape;
    InvShape(db, log);
    ShapeGeometry(db);
    if GuardFires(db, env) {
      CapKeeps(db, log);
      CappedStored(db, ts, vals, env);
      if Grows(Capped(db)) {
        GrowthOnlyWhileFilling(Capped(db), log);
      }
    }
    StoreKeeps(Guarded(db, env), log, ts, vals, env, 0);
  }

  lemma CappedStored(db: Db, ts: u32, vals: seq<i16>, env: Env)
    requires |vals| == db.h.numParams + db.h.extraParamCount
    ensures Stored(Capped(db), ts, vals, env) == Stored(db, ts, vals, env)
  {
    hide Decode, OverflowPos;
    if HasExtras(db.h, db.h.totalRecords) {
      SamePos(db.h, Capped(db).h, db.h.totalRecords);
    }
  }

  /** A full file system costs a stored row its extras, and a write that reports success hides it:
      the row reads back as it was given exactly when the append need not grow the file, or is not
      refused, or the extras are zeros anyway. */
  lemma StoredAsGiven(db: Db, ts: u32, vals: seq<i16>, env: Env)
    requires Shape(db) && |vals| == db.h.numParams + db.h.extraParamCount
    ensures var h, n := db.h, db.h.extraParamCount;
            var lands := env.growth == Granted || n == 0
                         || h.overflowOffset + OVERFLOW_HEADER_SIZE
                            + 2 * n * (h.totalRecords + 1 - h.firstOverflowRecordIdx) <= |db.file|;
            && (!lands ==> Stored(db, ts, vals, env) == Row(ts, vals[..h.numParams] + ZeroVals(n)))
            && (Stored(db, ts, vals, env) == Row(ts, vals) <==> lands || vals[h.numParams..] == ZeroVals(n))
  {
    hide Decode, Fits, RingEnd;
    var n, k := db.h.extraParamCount, db.h.totalRecords - db.h.firstOverflowRecordIdx;
    if n > 0 {
      assert 2 * n * (k + 1) == k * (2 * n) + 2 * n;
    }
    NewRowParts(db, ts, vals, Lands(db.file, db.h, env));
    assert vals == vals[..db.h.numParams] + vals[db.h.numParams..];
  }

  // What a write does to capacity and counters

  /** The reserve is breached where the file is about to grow by a block, for the first time. */
  predicate ReserveBreached(db: Db, env: Env)
    requires db.h.recordsPerBlock > 0
  {
    && env.lowSpace && !db.adapted && db.h.maxRecords != 0
    && 0 < db.h.totalRecords < db.h.maxRecords && db.h.totalRecords % db.h.recordsPerBlock == 0
  }

  /** Space runs out at a write that needs a new block, with records to fall back on, for the first time. */
  predicate SpaceRunsOut(db: Db, env: Env)
    requires db.h.recordsPerBlock > 0
  {
    var g := GeometryOf(db.h);
    var block := (if db.h.maxRecords == 0 then db.h.totalRecords else db.h.totalRecords % db.h.maxRecords)
                 / db.h.recordsPerBlock;
    && env.growth == NoSpace && !db.adapted && db.h.totalRecords > 0
    && g.dataOffset + (block + 1) * BLOCK_SIZE > |db.file|
  }

  /** The capacity is cut to the record count exactly when the reserve is breached or space runs out; the
      second costs the one retry. */
  lemma WriteCaps(db: Db, log: seq<Row>, ts: u32, vals: seq<i16>, env: Env)
    requires Inv(db, log) && db.h.totalRecords + 1 < U32_LIMIT
    requires |vals| == db.h.numParams + db.h.extraParamCount && db.h.recordsPerBlock > 0
    ensures var r := Write(db, ts, vals, env);
            var capped := ReserveBreached(db, env) || SpaceRunsOut(db, env);
            && r.db.h.maxRecords == (if capped then db.h.totalRecords else db.h.maxRecords)
            && r.db.adapted == (db.adapted || capped)
            && r.retries == (if SpaceRunsOut(db, env) && !ReserveBreached(db, env) then 1 else 0)
  {
    hide Inv, Store, Lands, Shape, Grows, SpaceRunsOut, GuardFires, ReserveBreached, AppendExtras, RowAt, BlockOf,
         SlotOf, Fits;
    InvShape(db, log);
    ShapeGeometry(db);
    GuardIsBreach(db, env);
    GrowsIffMissing(db);
    if GuardFires(db, env) {
      CapKeeps(db, log);
      if Grows(Capped(db)) {
        GrowthOnlyWhileFilling(Capped(db), log);
      }
    }
    RunsOutIff(db, env);
    StoreCaps(Guarded(db, env), log, ts, vals, env, 0);
    StoreKeepsShape(Guarded(db, env), ts, vals, env, 0);
  }

  lemma GuardIsBreach(db: Db, env: Env)
    requires db.h.recordsPerBlock > 0
    ensures GuardFires(db, env) == ReserveBreached(db, env)
    ensures GuardFires(db, env) ==> 0 < db.h.totalRecords && !Evicts(db.h)
  {
  }

  lemma GrowsIffMissing(db: Db)
    requires db.h.recordsPerBlock > 0
    ensures var block := (if db.h.maxRecords == 0 then db.h.totalRecords else db.h.totalRecords % db.h.maxRecords)
                         / db.h.recordsPerBlock;
            Grows(db) <==> GeometryOf(db.h).dataOffset + (block + 1) * BLOCK_SIZE > |db.file|
  {
  }

  lemma RunsOutIff(db: Db, env: Env)
    requires db.h.recordsPerBlock > 0
    ensures SpaceRunsOut(db, env) <==> env.growth == NoSpace && !db.adapted && db.h.totalRecords > 0 && Grows(db)
  {
    GrowsIffMissing(db);
  }

  lemma {:induction false} StoreCaps(db: Db, log: seq<Row>, ts: u32, vals: seq<i16>, env: Env, retries: nat)
    requires Inv(db, log) && db.h.totalRecords + 1 < U32_LIMIT
    requires |vals| == db.h.numParams + db.h.extraParamCount && db.h.recordsPerBlock > 0
    requires GeometryOf(db.h).Valid()
    ensures var r := Store(db, ts, vals, env, retries);
            var out := Grows(db) && env.growth == NoSpace && !db.adapted && db.h.totalRecords > 0;
            && r.db.h.maxRecords == (if out then db.h.totalRecords else db.h.maxRecords)
            && r.db.adapted == (db.adapted || out) && r.retries == retries + (if out then 1 else 0)
            && r.db.h.totalRecords == db.h.totalRecords && r.db.h.totalWrites == db.h.totalWrites
            && r.db.h.totalEvictions == if Evicts(db.h) || out then Inc32(db.h.totalEvictions) else db.h.totalEvictions
    decreases if db.adapted then 0 else 1
  {
    hide Inv, Grows, SlotOf, Fits, BlockOf, WriteSlot, TornFile, BlockOffset, Shape, Inc32;
    InvShape(db, log);
    if Grows(db) && !env.growth.Granted? {
      var g := GeometryOf(db.h);
      var at := BlockOffset(g, BlockOf(g, SlotOf(db.h, db.h.totalRecords)));
      var left := db.(file := TornFile(db.file, at, env.torn));
      GrowthOnlyWhileFilling(db, log);
      TornKeeps(db, log, env.torn);
      if CapHelps(db, env) {
        CapKeeps(left, log);
        if Grows(Capped(left)) {
          GrowthOnlyWhileFilling(Capped(left), log);
        }
        StoreCaps(Capped(left), log, ts, vals, env, retries + 1);
      }
    }
  }

  /** A successful write counts one record and one write, and an eviction exactly when the capacity that it
      ends with was full already. */
  lemma WriteCounts(db: Db, log: seq<Row>, ts: u32, vals: seq<i16>, env: Env)
    requires Inv(db, log) && db.h.totalRecords + 1 < U32_LIMIT
    requires |vals| == db.h.numParams + db.h.extraParamCount && db.h.recordsPerBlock > 0
    ensures var r := Write(db, ts, vals, env);
            && r.db.h.totalRecords == db.h.totalRecords + (if r.ok then 1 else 0)
            && r.db.h.totalWrites == (if r.ok then (db.h.totalWrites + 1) % U32_LIMIT else db.h.totalWrites)
            && r.db.h.totalEvictions ==
               (if r.ok && 0 < r.db.h.maxRecords <= db.h.totalRecords then (db.h.totalEvictions + 1) % U32_LIMIT
                else db.h.totalEvictions)
  {
    hide Inv, Store, Lands, Shape, Grows, GuardFires, AppendExtras, RowAt, BlockOf, SlotOf, Fits;
    InvShape(db, log);
    ShapeGeometry(db);
    GuardIsBreach(db, env);
    if GuardFires(db, env) {
      CapKeeps(db, log);
    }
    WriteKeeps(db, log, ts, vals, env);
    StoreKeeps(Guarded(db, env), log, ts, vals, env, 0);
    StoreCaps(Guarded(db, env), log, ts, vals, env, 0);
    StoreKeepsShape(Guarded(db, env), ts, vals, env, 0);
    ModSmall(db.h.totalRecords + 1, U32_LIMIT);
    if Grows(Guarded(db, env)) {
      GrowthOnlyWhileFilling(Guarded(db, env), log);
    }
  }
}
