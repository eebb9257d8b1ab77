/** The extras of the newest record are written without a sync. Until the next block write makes them
    durable, a power cut can leave a data file without them. */
module Unsynced {
  import opened Bytes
  import opened Layout
  import opened Storage
  import opened Ring
  import opened Index

  /** `f` is the file on disk while the extras of the newest record have not reached it. */
  ghost predicate Lagging(db: Db, f: Bytes) {
    && db.h.totalRecords > 0 && HasExtras(db.h, db.h.totalRecords - 1)
    && db.h.overflowOffset + OVERFLOW_HEADER_SIZE <= |f| && WholeExtras(db.h, f)
    && exists d: Bytes ::
         && |d| == 2 * db.h.extraParamCount
         && db.file == WriteAt(f, OverflowPos(db.h, db.h.totalRecords - 1), d)
  }

  /** The log whose newest row has the extras that the file `f` shows for it. */
  function Reread(log: seq<Row>, h: Header, f: Bytes): (r: seq<Row>)
    ensures |r| == |log|
  {
    if log == [] || h.totalRecords == 0 then log
    else
      var row := log[|log| - 1];
      log[|log| - 1 := Row(row.ts, Clip(row.vals, h.numParams) + Extras(f, h, h.totalRecords - 1))]
  }

  function Clip(vals: seq<i16>, n: nat): seq<i16> {
    if |vals| <= n then vals else vals[..n]
  }

  /** A write behind the ring is in no block. */
  lemma BehindRing(f: Bytes, h: Header, a: nat, at: nat, d: Bytes)
    requires GeometryOf(h).Valid() && h.maxRecords > 0 && RingEnd(h) <= at && RingEnd(h) <= |f|
    requires Ready(WriteAt(f, at, d), GeometryOf(h), BlockOf(GeometryOf(h), SlotOf(h, a)))
    ensures var g := GeometryOf(h);
            && Ready(f, g, BlockOf(g, SlotOf(h, a)))
            && RowAt(f, g, SlotOf(h, a)) == RowAt(WriteAt(f, at, d), g, SlotOf(h, a))
  {
    hide Fits, BlockOf, SlotOf, Magic, GetRow, RingEnd, WriteAt;
    var g := GeometryOf(h);
    SlotBelowEnd(h, a);
    BlockAside(f, g, BlockOf(g, SlotOf(h, a)), at, d);
  }

  lemma LaggingRow(db: Db, log: seq<Row>, f: Bytes, a: nat)
    requires Inv(db, log) && Lagging(db, f) && InWindow(db.h, a)
    ensures Kept(db.(file := f), Reread(log, db.h, f), a)
    ensures LogRow(db.h, Reread(log, db.h, f), a).ts == LogRow(db.h, log, a).ts
  {
    hide Fits, BlockOf, SlotOf, RowAt, Ready, RingEnd, WriteAt, Extras, OverflowPos, WholeExtras;
    var h, last := db.h, db.h.totalRecords - 1;
    var d: Bytes :| |d| == 2 * h.extraParamCount && db.file == WriteAt(f, OverflowPos(h, last), d);
    assert Kept(db, log, a);
    OverflowStart(h, last);
    BehindRing(f, h, a, OverflowPos(h, last), d);
    var r, r' := LogRow(h, log, a), LogRow(h, Reread(log, h, f), a);
    if a == last {
      assert r'.vals[..h.numParams] == r.vals[..h.numParams];
      assert r'.vals[h.numParams..] == Extras(f, h, a);
    } else if HasExtras(h, a) {
      WriteMissesExtras(f, h, last, d, a);
    }
  }

  /** The file without them still holds every row; only the extras of the newest one may differ. */
  lemma LaggingKeeps(db: Db, log: seq<Row>, f: Bytes)
    requires Inv(db, log) && Lagging(db, f)
    ensures Inv(db.(file := f), Reread(log, db.h, f))
  {
    hide Fits, BlockOf, SlotOf, RowAt, Ready, RingEnd, OverflowPos, WholeExtras, Kept, Reread;
    RingEndBehind(db.h);
    forall a: nat | InWindow(db.h, a)
      ensures Kept(db.(file := f), Reread(log, db.h, f), a)
      ensures LogRow(db.h, Reread(log, db.h, f), a).ts == LogRow(db.h, log, a).ts
    {
      LaggingRow(db, log, f, a);
    }
    assert InWindow(db.h, db.h.totalRecords - 1) && InWindow(db.h, db.h.totalRecords - Available(db.h));
  }
}
