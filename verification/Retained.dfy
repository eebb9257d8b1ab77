/** What a reader of the database sees: the retained rows from oldest to newest, each with its
    base columns and its overflow columns. */
module Retained {
  import opened Arith
  import opened Bytes
  import opened Layout
  import opened Storage
  import opened Ring

  /** The slot of the k-th oldest retained record, as the readers compute it. */
  function LogicalSlot(h: Header, k: nat): nat {
    if h.maxRecords == 0 then k else (h.oldestRecordIdx + k) % h.maxRecords
  }

  /** Record number of the k-th oldest retained record. */
  function RecordNumber(h: Header, k: nat): nat {
    h.totalRecords - Available(h) + k
  }

  function Columns(h: Header): nat {
    h.numParams + h.extraParamCount
  }

  /** The block of the k-th retained record can be read. */
  predicate Readable(db: Db, k: nat) {
    GeometryOf(db.h).rpb > 0 && HasBlock(db.file, GeometryOf(db.h), BlockOf(GeometryOf(db.h), LogicalSlot(db.h, k)))
  }

  ghost predicate AllReadable(db: Db) {
    && GeometryOf(db.h).Valid()
    && forall k: nat :: k < Available(db.h) ==> Readable(db, k)
  }

  function ViewRow(db: Db, k: nat): (row: Row)
    requires GeometryOf(db.h).Valid() && Readable(db, k)
    ensures |row.vals| == Columns(db.h)
  {
    var base := RowAt(db.file, GeometryOf(db.h), LogicalSlot(db.h, k));
    Row(base.ts, base.vals + Extras(db.file, db.h, RecordNumber(db.h, k)))
  }

  /** All retained rows, oldest first. */
  function View(db: Db): (rows: seq<Row>)
    requires AllReadable(db)
    ensures |rows| == Available(db.h)
    ensures forall k :: 0 <= k < |rows| ==> rows[k] == ViewRow(db, k)
  {
    seq(Available(db.h), k requires 0 <= k < Available(db.h) => ViewRow(db, k))
  }

  /** A log row in a table of `n` columns: columns added after it was written read as zero. */
  function Fitted(r: Row, n: nat): (row: Row)
    ensures row.ts == r.ts && |row.vals| == n
    ensures forall i :: 0 <= i < n ==> row.vals[i] == if i < |r.vals| then r.vals[i] else 0
  {
    Row(r.ts, seq(n, i requires 0 <= i < n => if i < |r.vals| then r.vals[i] else 0))
  }

  /** Values under a new set of columns: each taken from its mapped old column, zero for a new one. */
  function MapColumns(vals: seq<i16>, columns: seq<Option<nat>>): (r: seq<i16>)
    ensures |r| == |columns|
    ensures forall i :: 0 <= i < |columns| ==>
              r[i] == if columns[i].Some? && columns[i].value < |vals| then vals[columns[i].value] else 0
  {
    seq(|columns|, i requires 0 <= i < |columns| =>
      if columns[i].Some? && columns[i].value < |vals| then vals[columns[i].value] else 0)
  }

  function FittedAll(rows: seq<Row>, n: nat): (all: seq<Row>)
    ensures |all| == |rows|
    ensures forall k :: 0 <= k < |rows| ==> all[k] == Fitted(rows[k], n)
  {
    seq(|rows|, k requires 0 <= k < |rows| => Fitted(rows[k], n))
  }

  function Newest(log: seq<Row>, n: nat): seq<Row>
    requires n <= |log|
  {
    log[|log| - n..]
  }

  /** Walking slots from the oldest one visits the records in the order they were written. */
  lemma LogicalOrder(db: Db, k: nat)
    requires Shape(db) && k < Available(db.h)
    ensures LogicalSlot(db.h, k) == SlotOf(db.h, RecordNumber(db.h, k))
    ensures InWindow(db.h, RecordNumber(db.h, k))
  {
    hide Fits, RingEnd;
    if Evicts(db.h) {
      ModShift(db.h.totalRecords, k, db.h.maxRecords);
      ModAdd(db.h.totalRecords - db.h.maxRecords + k, db.h.maxRecords);
    }
  }

  /** A kept record is shown as its log row. */
  lemma KeptShows(db: Db, log: seq<Row>, k: nat)
    requires Shape(db) && k < Available(db.h) && db.h.totalRecords <= |log| && Kept(db, log, RecordNumber(db.h, k))
    ensures Readable(db, k)
    ensures ViewRow(db, k) == Fitted(Newest(log, Available(db.h))[k], Columns(db.h))
  {
    hide Fits, RingEnd, Decode, RowAt, BlockOf, SlotOf, LogicalSlot, OverflowPos, Ready, WholeExtras;
    LogicalOrder(db, k);
    var a := RecordNumber(db.h, k);
    ReadyHasBlock(db.file, GeometryOf(db.h), BlockOf(GeometryOf(db.h), SlotOf(db.h, a)));
    var r := LogRow(db.h, log, a);
    assert r == Newest(log, Available(db.h))[k];
    assert ViewRow(db, k).vals == Fitted(r, Columns(db.h)).vals;
  }

  /** The readers see exactly the newest rows of the log, in the order they were written. */
  lemma ViewIsNewest(db: Db, log: seq<Row>)
    requires Inv(db, log)
    ensures AllReadable(db)
    ensures Available(db.h) <= |log|
    ensures View(db) == FittedAll(Newest(log, Available(db.h)), Columns(db.h))
  {
    hide Fits, RingEnd, Kept, ViewRow, Readable, Fitted, OverflowPos;
    forall k: nat | k < Available(db.h)
      ensures Readable(db, k) && ViewRow(db, k) == Fitted(Newest(log, Available(db.h))[k], Columns(db.h))
    {
      assert InWindow(db.h, RecordNumber(db.h, k));
      KeptShows(db, log, k);
    }
  }

  /** An evicting write advances the oldest slot before its block write. Were that block write to
      fail, the untouched file would be read from the wrong slot: every row would move one place
      forward and the oldest row would come last. */
  lemma FailedEvictionRotates(db: Db, k: nat)
    requires Shape(db) && Evicts(db.h) && k < db.h.maxRecords
    ensures LogicalSlot(Evicted(db.h), k) ==
            if k + 1 < db.h.maxRecords then LogicalSlot(db.h, k + 1) else LogicalSlot(db.h, 0)
  {
    hide Fits, RingEnd;
    var o, m := db.h.oldestRecordIdx, db.h.maxRecords;
    ModShift(o + 1, k, m);
    if k + 1 == m {
      ModAdd(o, m);
    }
  }
}
