/** The columnar layout of one 1024-byte data block: an 8-byte block header, a column of
    32-bit timestamps, then one column of 16-bit values per parameter. */
module Layout {
  import opened Arith
  import opened Bytes

  const BLOCK_SIZE: int := 1024
  const BLOCK_HEADER_SIZE: int := 8
  const BLOCK_MAGIC: u32 := 0x424C4B54
  const MAX_PARAMS: int := 64

  type Block = b: Bytes | |b| == BLOCK_SIZE witness Zeros(1024)

  /** One record: a timestamp and one value per column. */
  datatype Row = Row(ts: u32, vals: seq<i16>)

  function TsPos(rec: nat): nat { BLOCK_HEADER_SIZE + rec * 4 }

  function ParamPos(rpb: nat, param: nat, rec: nat): nat {
    BLOCK_HEADER_SIZE + rpb * 4 + param * rpb * 2 + rec * 2
  }

  /** Every column of every record lies inside the block. */
  ghost predicate Fits(np: nat, rpb: nat) {
    && 0 < rpb && BLOCK_HEADER_SIZE + rpb * 4 <= BLOCK_SIZE
    && forall i: nat, rec: nat :: i < np && rec < rpb ==> ParamPos(rpb, i, rec) + 2 <= BLOCK_SIZE
  }

  /** Which is to say that the block has room for all of them. */
  lemma FitsExactly(np: nat, rpb: nat)
    ensures Fits(np, rpb) <==> 0 < rpb && BLOCK_HEADER_SIZE + rpb * (4 + 2 * np) <= BLOCK_SIZE
  {
    assert rpb * (4 + 2 * np) == rpb * 4 + np * rpb * 2;
    if Fits(np, rpb) {
      if np > 0 {
        assert ParamPos(rpb, np - 1, rpb - 1) + 2 <= BLOCK_SIZE;
        assert np * rpb == (np - 1) * rpb + rpb;
      }
    }
    if 0 < rpb && BLOCK_HEADER_SIZE + rpb * (4 + 2 * np) <= BLOCK_SIZE {
      forall i: nat, rec: nat | i < np && rec < rpb
        ensures ParamPos(rpb, i, rec) + 2 <= BLOCK_SIZE
      {
        MulLe(i + 1, np, rpb);
        assert (i + 1) * rpb == i * rpb + rpb;
      }
    }
  }

  /** Records per block as computed at creation and by the rewrite engine: as many as fit. */
  function RecordsPerBlock(np: nat): (rpb: nat)
    requires 0 < np <= MAX_PARAMS
    ensures Fits(np, rpb)
    ensures !Fits(np, rpb + 1)
  {
    var width := 4 + np * 2;
    var rpb := (BLOCK_SIZE - BLOCK_HEADER_SIZE) / width;
    QuotientFits(BLOCK_SIZE - BLOCK_HEADER_SIZE, width);
    FitsExactly(np, rpb);
    FitsExactly(np, rpb + 1);
    rpb
  }

  lemma QuotientFits(total: nat, width: nat)
    requires 0 < width <= total
    ensures 0 < total / width
    ensures total / width * width <= total < (total / width + 1) * width
  {
    assert total == total / width * width + total % width;
  }

  /** Every cell of a block lies behind the block header and inside the block. */
  lemma CellInside(np: nat, rpb: nat, param: nat, rec: nat)
    requires Fits(np, rpb) && rec < rpb
    ensures BLOCK_HEADER_SIZE <= TsPos(rec) && TsPos(rec) + 4 <= BLOCK_HEADER_SIZE + rpb * 4 <= BLOCK_SIZE
    ensures param < np ==>
              BLOCK_HEADER_SIZE + rpb * 4 <= ParamPos(rpb, param, rec) &&
              ParamPos(rpb, param, rec) + 2 <= BLOCK_SIZE
  {
  }

  /** Two different parameter cells never share a byte. */
  lemma CellsApart(rpb: nat, p1: nat, r1: nat, p2: nat, r2: nat)
    requires r1 < rpb && r2 < rpb
    requires p1 != p2 || r1 != r2
    ensures ParamPos(rpb, p1, r1) + 2 <= ParamPos(rpb, p2, r2) ||
            ParamPos(rpb, p2, r2) + 2 <= ParamPos(rpb, p1, r1)
  {
    if p1 < p2 {
      MulLe(p1 + 1, p2, rpb);
      assert (p1 + 1) * rpb == p1 * rpb + rpb;
    } else if p2 < p1 {
      MulLe(p2 + 1, p1, rpb);
      assert (p2 + 1) * rpb == p2 * rpb + rpb;
    }
  }

  /** The record stored at index `rec`. */
  function GetRow(b: Block, np: nat, rpb: nat, rec: nat): (row: Row)
    requires Fits(np, rpb) && rec < rpb
    ensures |row.vals| == np
  {
    CellInside(np, rpb, 0, rec);
    Row(U32(b, TsPos(rec)), seq(np, i requires 0 <= i < np => Cell(b, np, rpb, i, rec)))
  }

  function Cell(b: Block, np: nat, rpb: nat, i: nat, rec: nat): i16
    requires Fits(np, rpb) && rec < rpb && i < np
  {
    CellInside(np, rpb, i, rec);
    I16(b, ParamPos(rpb, i, rec))
  }

  function PutCell(b: Block, np: nat, rpb: nat, i: nat, rec: nat, v: i16): Block
    requires Fits(np, rpb) && rec < rpb && i < np
  {
    CellInside(np, rpb, i, rec);
    PutI16(b, ParamPos(rpb, i, rec), v)
  }

  /** Stores the first `n` values of a record, column by column. */
  function PutVals(b: Block, np: nat, rpb: nat, rec: nat, vals: seq<i16>, n: nat): Block
    requires Fits(np, rpb) && rec < rpb && n <= np <= |vals|
  {
    if n == 0 then b
    else PutCell(PutVals(b, np, rpb, rec, vals, n - 1), np, rpb, n - 1, rec, vals[n - 1])
  }

  function PutTs(b: Block, np: nat, rpb: nat, rec: nat, ts: u32): Block
    requires Fits(np, rpb) && rec < rpb
  {
    CellInside(np, rpb, 0, rec);
    PutU32(b, TsPos(rec), ts)
  }

  /** Stores a timestamp and the first `np` values of `vals` as record `rec`. */
  function PutRow(b: Block, np: nat, rpb: nat, rec: nat, ts: u32, vals: seq<i16>): Block
    requires Fits(np, rpb) && rec < rpb && np <= |vals|
  {
    PutVals(PutTs(b, np, rpb, rec, ts), np, rpb, rec, vals, np)
  }

  lemma SameU32(a: Bytes, b: Bytes, at: nat)
    requires at + 4 <= |a| == |b|
    requires forall p :: at <= p < at + 4 ==> a[p] == b[p]
    ensures U32(a, at) == U32(b, at)
  {
  }

  lemma PutCellAside(b: Block, np: nat, rpb: nat, i: nat, rec: nat, v: i16, j: nat, other: nat)
    requires Fits(np, rpb) && rec < rpb && other < rpb && i < np && j < np
    ensures Cell(PutCell(b, np, rpb, i, rec, v), np, rpb, j, other) ==
            if i == j && rec == other then v else Cell(b, np, rpb, j, other)
  {
    CellInside(np, rpb, i, rec);
    CellInside(np, rpb, j, other);
    if i != j || rec != other {
      CellsApart(rpb, i, rec, j, other);
      SameI16(PutCell(b, np, rpb, i, rec, v), ParamPos(rpb, j, other), b, ParamPos(rpb, j, other));
    }
  }

  lemma {:induction false} PutValsCell(b: Block, np: nat, rpb: nat, rec: nat, vals: seq<i16>, n: nat, j: nat,
                                       other: nat)
    requires Fits(np, rpb) && rec < rpb && other < rpb && n <= np <= |vals| && j < np
    ensures Cell(PutVals(b, np, rpb, rec, vals, n), np, rpb, j, other) ==
            if rec == other && j < n then vals[j] else Cell(b, np, rpb, j, other)
  {
    if n > 0 {
      PutValsCell(b, np, rpb, rec, vals, n - 1, j, other);
      PutCellAside(PutVals(b, np, rpb, rec, vals, n - 1), np, rpb, n - 1, rec, vals[n - 1], j, other);
    }
  }

  /** The value columns start behind the timestamp column, so storing values leaves every
      timestamp and the block header alone. */
  lemma {:induction false} PutValsFront(b: Block, np: nat, rpb: nat, rec: nat, vals: seq<i16>, n: nat, p: nat)
    requires Fits(np, rpb) && rec < rpb && n <= np <= |vals|
    requires p < BLOCK_HEADER_SIZE + rpb * 4
    ensures p < BLOCK_SIZE && PutVals(b, np, rpb, rec, vals, n)[p] == b[p]
  {
    CellInside(np, rpb, 0, rec);
    if n > 0 {
      PutValsFront(b, np, rpb, rec, vals, n - 1, p);
      CellInside(np, rpb, n - 1, rec);
    }
  }

  lemma PutTsCell(b: Block, np: nat, rpb: nat, rec: nat, ts: u32, j: nat, other: nat)
    requires Fits(np, rpb) && rec < rpb && other < rpb && j < np
    ensures Cell(PutTs(b, np, rpb, rec, ts), np, rpb, j, other) == Cell(b, np, rpb, j, other)
  {
    CellInside(np, rpb, j, other);
    CellInside(np, rpb, 0, rec);
    SameI16(PutTs(b, np, rpb, rec, ts), ParamPos(rpb, j, other), b, ParamPos(rpb, j, other));
  }

  lemma PutRowTs(b: Block, np: nat, rpb: nat, rec: nat, ts: u32, vals: seq<i16>, other: nat)
    requires Fits(np, rpb) && rec < rpb && other < rpb && np <= |vals|
    ensures GetRow(PutRow(b, np, rpb, rec, ts, vals), np, rpb, other).ts ==
            if rec == other then ts else GetRow(b, np, rpb, other).ts
  {
    var c := PutTs(b, np, rpb, rec, ts);
    var r := PutRow(b, np, rpb, rec, ts, vals);
    CellInside(np, rpb, 0, other);
    CellInside(np, rpb, 0, rec);
    forall p | TsPos(other) <= p < TsPos(other) + 4
      ensures r[p] == c[p]
    {
      PutValsFront(c, np, rpb, rec, vals, np, p);
    }
    SameU32(r, c, TsPos(other));
    if rec != other {
      SameU32(c, b, TsPos(other));
    }
  }

  /** Storing one record and reading any record back: the stored one returns exactly what was
      stored, every other one is unchanged. */
  lemma GetPutRow(b: Block, np: nat, rpb: nat, rec: nat, ts: u32, vals: seq<i16>, other: nat)
    requires Fits(np, rpb) && rec < rpb && other < rpb && np <= |vals|
    ensures GetRow(PutRow(b, np, rpb, rec, ts, vals), np, rpb, other) ==
            if rec == other then Row(ts, vals[..np]) else GetRow(b, np, rpb, other)
  {
    var c := PutTs(b, np, rpb, rec, ts);
    var r := PutRow(b, np, rpb, rec, ts, vals);
    PutRowTs(b, np, rpb, rec, ts, vals, other);
    forall j | 0 <= j < np
      ensures Cell(r, np, rpb, j, other) == if rec == other then vals[j] else Cell(b, np, rpb, j, other)
    {
      PutValsCell(c, np, rpb, rec, vals, np, j, other);
      PutTsCell(b, np, rpb, rec, ts, j, other);
    }
  }

  // The block header.

  function Magic(b: Block): u32 { U32(b, 0) }

  function Count(b: Block): nat { U16(b, 4) }

  /** A zeroed block carrying only the magic word. */
  function FreshBlock(): (b: Block)
    ensures Magic(b) == BLOCK_MAGIC && Count(b) == 0
  {
    PutU32(Zeros(BLOCK_SIZE), 0, BLOCK_MAGIC)
  }

  function PutCount(b: Block, n: nat): Block
    requires n < 0x1_0000
  {
    PutU16(b, 4, n)
  }

  lemma PutCountAside(b: Block, n: nat, np: nat, rpb: nat, rec: nat)
    requires n < 0x1_0000 && Fits(np, rpb) && rec < rpb
    ensures GetRow(PutCount(b, n), np, rpb, rec) == GetRow(b, np, rpb, rec)
    ensures Magic(PutCount(b, n)) == Magic(b)
  {
    var c := PutCount(b, n);
    CellInside(np, rpb, 0, rec);
    SameU32(c, b, TsPos(rec));
    SameU32(c, b, 0);
    forall j | 0 <= j < np
      ensures Cell(c, np, rpb, j, rec) == Cell(b, np, rpb, j, rec)
    {
      CellInside(np, rpb, j, rec);
      SameI16(c, ParamPos(rpb, j, rec), b, ParamPos(rpb, j, rec));
    }
  }

  lemma PutRowMagic(b: Block, np: nat, rpb: nat, rec: nat, ts: u32, vals: seq<i16>)
    requires Fits(np, rpb) && rec < rpb && np <= |vals|
    ensures Magic(PutRow(b, np, rpb, rec, ts, vals)) == Magic(b)
  {
    var c := PutTs(b, np, rpb, rec, ts);
    var r := PutRow(b, np, rpb, rec, ts, vals);
    CellInside(np, rpb, 0, rec);
    forall p | 0 <= p < 4
      ensures r[p] == b[p]
    {
      PutValsFront(c, np, rpb, rec, vals, np, p);
    }
    SameU32(r, b, 0);
  }

  /** What a write does to the block it lands in: the record, and the record count when the
      record lies beyond it. */
  function StoreRecord(b: Block, np: nat, rpb: nat, rec: nat, ts: u32, vals: seq<i16>): (r: Block)
    requires Fits(np, rpb) && rec < rpb && np <= |vals|
  {
    RecBelow(np, rpb);
    var c := PutRow(b, np, rpb, rec, ts, vals);
    if rec >= Count(c) then PutCount(c, rec + 1) else c
  }

  lemma RecBelow(np: nat, rpb: nat)
    requires Fits(np, rpb)
    ensures rpb < 0x1_0000
  {
  }

  lemma GetStoreRecord(b: Block, np: nat, rpb: nat, rec: nat, ts: u32, vals: seq<i16>, other: nat)
    requires Fits(np, rpb) && rec < rpb && other < rpb && np <= |vals|
    ensures GetRow(StoreRecord(b, np, rpb, rec, ts, vals), np, rpb, other) ==
            if rec == other then Row(ts, vals[..np]) else GetRow(b, np, rpb, other)
    ensures Magic(StoreRecord(b, np, rpb, rec, ts, vals)) == Magic(b)
  {
    hide PutRow, GetRow, Magic, Fits, PutCount;
    RecBelow(np, rpb);
    GetPutRow(b, np, rpb, rec, ts, vals, other);
    PutRowMagic(b, np, rpb, rec, ts, vals);
    PutCountAside(PutRow(b, np, rpb, rec, ts, vals), rec + 1, np, rpb, other);
  }

  /** A block is laid out by columns: the timestamps in order from byte 8, then column after column, each with
      its values in order, without a gap. */
  lemma ColumnsContiguous(rpb: nat, param: nat, rec: nat)
    requires rpb > 0
    ensures TsPos(0) == 8 && TsPos(rec + 1) == TsPos(rec) + 4
    ensures ParamPos(rpb, 0, 0) == TsPos(rpb)
    ensures ParamPos(rpb, param, rec + 1) == ParamPos(rpb, param, rec) + 2
    ensures ParamPos(rpb, param + 1, 0) == ParamPos(rpb, param, rpb - 1) + 2
  {
    assert (param + 1) * rpb == param * rpb + rpb;
  }

  /** The records of a fresh block read as holes: timestamp 0, and zeros. */
  lemma FreshHoles(np: nat, rpb: nat, rec: nat)
    requires Fits(np, rpb) && rec < rpb
    ensures var row := GetRow(FreshBlock(), np, rpb, rec);
            row.ts == 0 && forall j :: 0 <= j < np ==> row.vals[j] == 0
  {
    var b := FreshBlock();
    CellInside(np, rpb, 0, rec);
    assert forall p :: 4 <= p < BLOCK_SIZE ==> b[p] == 0;
    forall j | 0 <= j < np
      ensures Cell(b, np, rpb, j, rec) == 0
    {
      CellInside(np, rpb, j, rec);
    }
  }

  /** The record count of a block covers the record just stored and is never lowered. */
  lemma StoredCount(b: Block, np: nat, rpb: nat, rec: nat, ts: u32, vals: seq<i16>)
    requires Fits(np, rpb) && rec < rpb && np <= |vals|
    ensures Count(StoreRecord(b, np, rpb, rec, ts, vals)) == if rec + 1 > Count(b) then rec + 1 else Count(b)
  {
    hide PutVals, Fits;
    RecBelow(np, rpb);
    var c := PutTs(b, np, rpb, rec, ts);
    var r := PutRow(b, np, rpb, rec, ts, vals);
    CellInside(np, rpb, 0, rec);
    forall p | 4 <= p < 6
      ensures r[p] == b[p]
    {
      PutValsFront(c, np, rpb, rec, vals, np, p);
    }
  }

  // The block buffer as the code updates it, in place.

  method PutByte16(a: array<byte>, at: nat, v: int)
    requires at + 2 <= a.Length && 0 <= v < 0x1_0000
    modifies a
    ensures a[..] == PutU16(old(a[..]), at, v)
  {
    a[at] := v % 0x100;
    a[at + 1] := v / 0x100;
  }

  method PutByte32(a: array<byte>, at: nat, v: u32)
    requires at + 4 <= a.Length
    modifies a
    ensures a[..] == PutU32(old(a[..]), at, v)
  {
    PutByte16(a, at, v % 0x1_0000);
    PutByte16(a, at + 2, v / 0x1_0000);
  }

  method PutValsInPlace(a: array<byte>, np: nat, rpb: nat, rec: nat, vals: seq<i16>)
    requires a.Length == BLOCK_SIZE && Fits(np, rpb) && rec < rpb && np <= |vals|
    modifies a
    ensures a[..] == PutVals(old(a[..]), np, rpb, rec, vals, np)
  {
    for i := 0 to np
      invariant a[..] == PutVals(old(a[..]), np, rpb, rec, vals, i)
    {
      CellInside(np, rpb, i, rec);
      var v: int := vals[i];
      PutByte16(a, ParamPos(rpb, i, rec), if v < 0 then v + 0x1_0000 else v);
    }
  }

  /** The in-place store of one record into a block buffer. */
  method StoreInPlace(a: array<byte>, np: nat, rpb: nat, rec: nat, ts: u32, vals: seq<i16>)
    requires a.Length == BLOCK_SIZE && Fits(np, rpb) && rec < rpb && np <= |vals|
    modifies a
    ensures a[..] == StoreRecord(old(a[..]), np, rpb, rec, ts, vals)
  {
    CellInside(np, rpb, 0, rec);
    RecBelow(np, rpb);
    PutByte32(a, TsPos(rec), ts);
    PutValsInPlace(a, np, rpb, rec, vals);
    var b0: int, b1: int := a[4], a[5];
    assert b0 + 0x100 * b1 == Count(a[..]);
    if rec >= b0 + 0x100 * b1 {
      PutByte16(a, 4, rec + 1);
    }
  }

  /** Fills a block buffer. */
  method CopyInto(a: array<byte>, b: Block)
    requires a.Length == BLOCK_SIZE
    modifies a
    ensures a[..] == b
  {
    for i := 0 to BLOCK_SIZE
      invariant forall j :: 0 <= j < i ==> a[j] == b[j]
    {
      a[i] := b[i];
    }
  }
}
