/** Binary search over the sparse index on disk. */
module IndexSearch {
  import opened Arith
  import opened Bytes
  import opened Layout
  import opened Storage
  import opened Ring
  import opened Index

  /** The first `m` entries are in use with strictly increasing nonzero timestamps; the rest of
      the region is empty. */
  ghost predicate Usable(f: Bytes, h: Header, m: nat) {
    && m <= h.indexEntries
    && (forall k: nat :: k < h.indexEntries ==> HasEntry(f, h, k))
    && (forall k: nat :: k < m ==> EntryAt(f, h, k).ts != 0)
    && (forall i: nat, j: nat :: i < j < m ==> EntryAt(f, h, i).ts < EntryAt(f, h, j).ts)
    && (forall k: nat :: m <= k < h.indexEntries ==> EntryAt(f, h, k).ts == 0)
  }

  /** Entry `k` is the last one in use that is not after `ts`. */
  ghost predicate LastNotAfter(f: Bytes, h: Header, m: nat, ts: u32, k: nat)
    requires Usable(f, h, m)
  {
    && k < m && EntryAt(f, h, k).ts <= ts
    && forall j: nat :: k < j < m ==> EntryAt(f, h, j).ts > ts
  }

  datatype Found = Found(block: nat) | Corrupt

  /** Entry `k` can be read, is in use and not after `ts`. */
  ghost predicate Candidate(f: Bytes, h: Header, ts: u32, k: nat) {
    k < h.indexEntries && HasEntry(f, h, k) && 0 < EntryAt(f, h, k).ts <= ts
  }

  /** The block to start reading from for a timestamp. Of any index, even a wrapped or cut off one, the
      search returns a candidate or 0; of a usable index the last candidate. */
  method FindBlock(f: Bytes, h: Header, ts: u32, ghost m: nat) returns (r: Found)
    ensures h.indexEntries == 0 ==> r == Found(0)
    ensures h.indexEntries > 0 ==> (r.Corrupt? <==> h.recordsPerBlock == 0)
    ensures h.indexEntries > 0 && h.recordsPerBlock > 0 ==>
              && (ts < h.oldestTimestamp ==> r.block == h.oldestRecordIdx / h.recordsPerBlock)
              && (h.oldestTimestamp <= ts && ts > h.newestTimestamp ==>
                    r.block == h.newestRecordIdx / h.recordsPerBlock)
              && (h.oldestTimestamp <= ts <= h.newestTimestamp ==>
                    r.block == 0 || exists k: nat :: Candidate(f, h, ts, k) && r.block == EntryAt(f, h, k).block)
              && (h.oldestTimestamp <= ts <= h.newestTimestamp && Usable(f, h, m) ==>
                    if exists k: nat :: LastNotAfter(f, h, m, ts, k)
                    then exists k: nat :: LastNotAfter(f, h, m, ts, k) && r.block == EntryAt(f, h, k).block
                    else r.block == 0)
  {
    hide EntryAt, HasEntry;
    if h.indexEntries == 0 {
      return Found(0);
    }
    if h.recordsPerBlock == 0 {
      return Corrupt;
    }
    if ts < h.oldestTimestamp {
      QuotientBelow(h.oldestRecordIdx, h.recordsPerBlock);
      return Found(h.oldestRecordIdx / h.recordsPerBlock);
    }
    if ts > h.newestTimestamp {
      QuotientBelow(h.newestRecordIdx, h.recordsPerBlock);
      return Found(h.newestRecordIdx / h.recordsPerBlock);
    }
    var left: int, right: int := 0, h.indexEntries - 1;
    var best: nat := 0;
    while left <= right
      invariant 0 <= left <= right + 1 <= h.indexEntries
      invariant left == 0 ==> best == 0
      invariant left > 0 ==> Candidate(f, h, ts, left - 1) && EntryAt(f, h, left - 1).ts < ts
                             && best == EntryAt(f, h, left - 1).block
      invariant Usable(f, h, m) ==>
                  (left > 0 ==> left - 1 < m) && forall k: nat :: right < k < m ==> EntryAt(f, h, k).ts > ts
    {
      var mid := (left + right) / 2;
      if !HasEntry(f, h, mid) {
        break;
      }
      var e := EntryAt(f, h, mid);
      if e.ts == 0 {
        right := mid - 1;
      } else if e.ts == ts {
        assert Candidate(f, h, ts, mid);
        assert Usable(f, h, m) ==> LastNotAfter(f, h, m, ts, mid);
        return Found(e.block);
      } else if e.ts < ts {
        best := e.block;
        left := mid + 1;
      } else {
        right := mid - 1;
      }
    }
    if left > 0 {
      assert Candidate(f, h, ts, left - 1);
      assert Usable(f, h, m) ==> LastNotAfter(f, h, m, ts, left - 1);
    }
    return Found(best);
  }

  /** Entries of slots that hold no record are empty. */
  ghost predicate EmptyTail(index: seq<Entry>, h: Header) {
    forall k: nat :: k < |index| && IndexSlot(h, k) >= Available(h) ==> index[k].ts == 0
  }

  /** Stored records never fill an entry beyond the written slots. */
  lemma TouchKeepsEmptyTail(index: seq<Entry>, h: Header, h': Header, ts: u32)
    requires h.indexStride > 0 && h.recordsPerBlock > 0 && h.totalRecords + 1 < U32_LIMIT
    requires EmptyTail(index, h) && Follows(h, h') && h'.newestRecordIdx == SlotOf(h, h.totalRecords)
    ensures EmptyTail(Touch(index, h', ts), h')
  {
    hide SlotOf, Touch;
    WindowGrows(h, h');
    forall k: nat | k < |index| && IndexSlot(h', k) >= Available(h')
      ensures Touch(index, h', ts)[k].ts == 0
    {
      TouchedEntry(index, h', ts, k);
    }
  }

  function EntriesInUse(h: Header): nat
    requires h.indexStride > 0
  {
    var n := Blocks(Available(h), h.indexStride);
    if n > h.indexEntries then h.indexEntries else n
  }

  /** The log row that entry `k` of a never-wrapped database stands for. */
  function IndexedRow(h: Header, log: seq<Row>, k: nat): Row
    requires IndexSlot(h, k) < h.totalRecords <= |log|
  {
    LogRow(h, log, IndexSlot(h, k))
  }

  /** The rows that the ring holds have nonzero, strictly increasing timestamps. */
  ghost predicate StrictlyRising(h: Header, log: seq<Row>)
    requires h.totalRecords <= |log|
  {
    && (forall a: nat :: a < h.totalRecords ==> LogRow(h, log, a).ts != 0)
    && (forall a: nat, b: nat :: a < b < h.totalRecords ==> LogRow(h, log, a).ts < LogRow(h, log, b).ts)
  }

  /** On a never-wrapped database whose timestamps are nonzero and strictly increasing, the folded
      index is usable, and its entries are the timestamp and block of every stride-th row. */
  lemma NeverWrapped(db: Db, log: seq<Row>, index: seq<Entry>)
    requires Inv(db, log) && IndexInv(db, index) && !db.indexStale && EmptyTail(index, db.h)
    requires db.h.maxRecords == 0 || db.h.totalRecords <= db.h.maxRecords
    requires StrictlyRising(db.h, log)
    ensures Usable(db.file, db.h, EntriesInUse(db.h))
    ensures forall k: nat :: k < EntriesInUse(db.h) ==>
              && IndexSlot(db.h, k) < db.h.totalRecords
              && EntryAt(db.file, db.h, k).ts == IndexedRow(db.h, log, k).ts
              && EntryAt(db.file, db.h, k).block == IndexSlot(db.h, k) / db.h.recordsPerBlock
  {
    hide EntryAt, Fits, RingEnd, Kept, Ready, RowAt, BlockOf, SlotOf, Blocks;
    var m := EntriesInUse(db.h);
    forall k: nat | k < db.h.indexEntries
      ensures HasEntry(db.file, db.h, k)
      ensures m <= k ==> EntryAt(db.file, db.h, k).ts == 0
      ensures k < m ==> && IndexSlot(db.h, k) < db.h.totalRecords
                        && EntryAt(db.file, db.h, k).ts == IndexedRow(db.h, log, k).ts
                        && EntryAt(db.file, db.h, k).block == IndexSlot(db.h, k) / db.h.recordsPerBlock
    {
      assert EntryInv(db, index, k);
      LastSlotBelow(Available(db.h), db.h.indexStride, k);
      if k < m {
        SlotTimestamp(db, log, IndexSlot(db.h, k));
      }
    }
    forall i: nat, j: nat | i < j < m
      ensures EntryAt(db.file, db.h, i).ts < EntryAt(db.file, db.h, j).ts
    {
      MulLess(i, j, db.h.indexStride);
    }
  }

  lemma MulLess(i: nat, j: nat, m: nat)
    requires i < j && m > 0
    ensures i * m < j * m
  {
    MulLe(i + 1, j, m);
    assert (i + 1) * m == i * m + m;
  }

  lemma SlotTimestamp(db: Db, log: seq<Row>, slot: nat)
    requires Inv(db, log) && slot < Available(db.h) && (db.h.maxRecords == 0 || db.h.totalRecords <= db.h.maxRecords)
    ensures HasBlock(db.file, GeometryOf(db.h), BlockOf(GeometryOf(db.h), slot))
    ensures RowAt(db.file, GeometryOf(db.h), slot).ts == LogRow(db.h, log, slot).ts
  {
    hide Fits, RingEnd, RowAt, BlockOf, SlotOf, Decode, OverflowPos;
    assert InWindow(db.h, slot) && Kept(db, log, slot);
    SlotLinear(db.h, slot);
  }
}
