/** The overflow region: extra columns appended to a live database, one row of extra values per
    record, and its migration to another set of columns. */
module Overflow {
  import opened Arith
  import opened Bytes
  import opened Layout
  import opened Storage
  import opened Ring
  import opened Index

  const MAX_EXTRA_PARAMS: nat := 48

  ghost predicate Disjoint(lo: nat, hi: nat, lo': nat, hi': nat) {
    hi <= lo' || hi' <= lo
  }

  /** The block that record `a` is written to meets neither the overflow header nor the extras of
      record `b`. */
  ghost predicate Apart(h: Header, a: nat, b: nat)
    requires h.recordsPerBlock > 0 && b >= h.firstOverflowRecordIdx
  {
    var at := BlockOffset(GeometryOf(h), BlockOf(GeometryOf(h), SlotOf(h, a)));
    && Disjoint(at, at + BLOCK_SIZE, h.overflowOffset, h.overflowOffset + OVERFLOW_HEADER_SIZE)
    && Disjoint(at, at + BLOCK_SIZE, OverflowPos(h, b), OverflowPos(h, b) + 2 * h.extraParamCount)
  }

  ghost predicate NeverOverlaps(h: Header)
    requires h.recordsPerBlock > 0
  {
    forall a: nat, b: nat :: b >= h.firstOverflowRecordIdx ==> Apart(h, a, b)
  }

  /** The write of a record to any slot of a bounded ring stays clear of the overflow region exactly
      when the region starts at or behind the end of the ring. */
  lemma OverlapIff(h: Header)
    requires h.recordsPerBlock > 0 && h.maxRecords > 0
    requires GeometryOf(h).dataOffset <= h.overflowOffset
    ensures NeverOverlaps(h) <==> RingEnd(h) <= h.overflowOffset
  {
    hide SlotOf, OverflowPos, RingEnd, BlockOf;
    var g := GeometryOf(h);
    if RingEnd(h) <= h.overflowOffset {
      forall a: nat, b: nat | b >= h.firstOverflowRecordIdx
        ensures Apart(h, a, b)
      {
        SlotBelowEnd(h, a);
        OverflowStart(h, b);
      }
    } else {
      var n := (h.overflowOffset - g.dataOffset) / BLOCK_SIZE;
      var a := RingReaches(h, n);
      assert !Apart(h, a, h.firstOverflowRecordIdx);
    }
  }

  /** Every block below the end of the ring is written by some record. */
  lemma RingReaches(h: Header, n: nat) returns (a: nat)
    requires h.recordsPerBlock > 0 && h.maxRecords > 0
    requires BlockOffset(GeometryOf(h), n) < RingEnd(h)
    ensures BlockOf(GeometryOf(h), SlotOf(h, a)) == n
  {
    var rpb := h.recordsPerBlock;
    a := n * rpb;
    LastSlotBelow(h.maxRecords, rpb, n);
    SlotLinear(h, a);
    ModUnique(a, n, 0, rpb);
  }

  /** Without a bound every overflow region is eventually overwritten. */
  lemma UnlimitedOverlaps(h: Header)
    requires h.recordsPerBlock > 0 && h.maxRecords == 0
    requires GeometryOf(h).dataOffset <= h.overflowOffset
    ensures !NeverOverlaps(h)
  {
    hide OverflowPos, BlockOf;
    var g := GeometryOf(h);
    var n := (h.overflowOffset - g.dataOffset) / BLOCK_SIZE;
    var a := n * h.recordsPerBlock;
    BlockOfFirst(g, n);
    assert !Apart(h, a, h.firstOverflowRecordIdx);
  }

  lemma BlockOfFirst(g: Geometry, n: nat)
    requires g.rpb > 0
    ensures BlockOf(g, n * g.rpb) == n
  {
    ModUnique(n * g.rpb, n, 0, g.rpb);
  }

  // Adding the region

  datatype AddResult = Added(db: Db) | InvalidArg | InvalidState

  /** Adds `count` extra columns: the region starts at the current end of the file. */
  function AddExtras(db: Db, count: nat, region: Bytes, header: Bytes): AddResult
    requires |region| == OVERFLOW_HEADER_SIZE && |header| == HEADER_SIZE
  {
    if count == 0 || count > MAX_EXTRA_PARAMS || db.h.numParams + count > MAX_PARAMS then InvalidArg
    else if db.h.extraParamCount > 0 then InvalidState
    else
      var h := db.h.(extraParamCount := count, overflowRecordSize := count * 2,
                     overflowOffset := |db.file|, firstOverflowRecordIdx := db.h.totalRecords);
      Added(db.(h := h, file := WriteAt(db.file + region, 0, header)))
  }

  /** The region is added exactly when the count is between 1 and 48, base and extra columns together are at
      most 64, and there is none yet. It starts at the end of the file with the next record. */
  lemma AddExtrasIff(db: Db, count: nat, region: Bytes, header: Bytes)
    requires |region| == OVERFLOW_HEADER_SIZE && |header| == HEADER_SIZE
    ensures var r := AddExtras(db, count, region, header);
            && (r.Added? <==> 1 <= count <= 48 && db.h.numParams + count <= 64 && db.h.extraParamCount == 0)
            && (r.InvalidState? <==> 1 <= count <= 48 && db.h.numParams + count <= 64 && db.h.extraParamCount > 0)
            && (r.Added? ==>
                  && r.db.h.extraParamCount == count && r.db.h.overflowOffset == |db.file|
                  && forall a: nat :: HasExtras(r.db.h, a) <==> a >= db.h.totalRecords)
  {
  }

  lemma FrontRow(f: Bytes, region: Bytes, header: Bytes, g: Geometry, slot: nat)
    requires g.Valid() && Ready(f, g, BlockOf(g, slot)) && |header| <= g.dataOffset
    ensures var r := WriteAt(f + region, 0, header);
            Ready(r, g, BlockOf(g, slot)) && RowAt(r, g, slot) == RowAt(f, g, slot)
  {
    hide Fits, BlockOf, Magic, GetRow;
    assert BlockAt(f + region, g, BlockOf(g, slot)) == BlockAt(f, g, BlockOf(g, slot));
    RowBehind(f + region, g, slot, header);
  }

  /** Added behind the ring, the region keeps the invariant: the rows written so far read as before
      with zeros in the new columns. */
  lemma AddExtrasKeeps(db: Db, log: seq<Row>, count: nat, region: Bytes, header: Bytes)
    requires Inv(db, log) && |region| == OVERFLOW_HEADER_SIZE && |header| == HEADER_SIZE
    requires db.h.maxRecords > 0 && RingEnd(db.h) <= |db.file|
    requires AddExtras(db, count, region, header).Added?
    ensures Inv(AddExtras(db, count, region, header).db, log)
  {
    hide Fits, RingEnd, Extras, RowAt, Ready, BlockOf, SlotOf, OverflowPos, WriteAt;
    var d := AddExtras(db, count, region, header).db;
    var g := GeometryOf(db.h);
    LongerFront(db.file, region, header);
    SameEnd(db.h, d.h);
    forall a: nat | HasExtras(d.h, a)
      ensures |d.file| <= OverflowPos(d.h, a)
    {
      OverflowStart(d.h, a);
    }
    if db.h.totalRecords > 0 {
      SameSlotOf(db.h, d.h, db.h.totalRecords - 1);
    }
    forall a: nat | InWindow(db.h, a)
      ensures Kept(d, log, a)
    {
      assert Kept(db, log, a);
      FrontRow(db.file, region, header, g, SlotOf(db.h, a));
      SameSlotOf(db.h, d.h, a);
    }
  }

  lemma LongerFront(f: Bytes, region: Bytes, header: Bytes)
    ensures |WriteAt(f + region, 0, header)| >= |f| + |region|
    ensures |header| <= |f| ==> |WriteAt(f + region, 0, header)| == |f| + |region|
  {
  }

  lemma SameEnd(h: Header, h': Header)
    requires h.recordsPerBlock > 0 && h'.maxRecords == h.maxRecords && h'.recordsPerBlock == h.recordsPerBlock
    requires GeometryOf(h') == GeometryOf(h)
    ensures RingEnd(h') == RingEnd(h)
  {
  }

  lemma SameSlotOf(h: Header, h': Header, a: nat)
    requires h'.maxRecords == h.maxRecords
    ensures SlotOf(h', a) == SlotOf(h, a)
  {
  }
}
