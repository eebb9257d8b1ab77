/** Queries on a database that an evicting write left half-written: the new record stands at position 0,
    in front of older ones, where neither the binary seek nor the early end of the walk expects it. */
module CutQuery {
  import opened Bytes
  import opened Layout
  import opened Storage
  import opened Ring
  import opened Retained
  import opened Query
  import opened CrashWrite

  /** The first row is out of its place: `ts` is not before any other, and those ascend. */
  ghost predicate CutRows(rows: seq<Row>, ts: u32) {
    && |rows| > 0 && rows[0].ts == ts && Ascending(rows[1..])
    && forall i :: 0 <= i < |rows| ==> 0 < rows[i].ts <= ts
  }

  /** The search sees that the second row is too old, and so gets past the first one. */
  predicate SeeksPast(rows: seq<Row>, start: u32) {
    |rows| > 1 && start > rows[1].ts
  }

  lemma TailOrder(rows: seq<Row>, ts: u32, i: nat, j: nat)
    requires CutRows(rows, ts) && 1 <= i <= j < |rows|
    ensures rows[i].ts <= rows[j].ts
  {
    assert rows[1..][i - 1] == rows[i] && rows[1..][j - 1] == rows[j];
  }

  /** Once past the first row the search is an ordinary one. */
  lemma {:induction false} ProbeTail(rows: seq<Row>, ts: u32, start: u32, lo: nat, hi: nat)
    requires CutRows(rows, ts) && 1 <= lo <= hi <= |rows|
    requires forall i :: 1 <= i < lo ==> rows[i].ts < start
    ensures lo <= Probe(rows, start, lo, hi) <= hi
    ensures forall i :: 1 <= i < Probe(rows, start, lo, hi) ==> rows[i].ts < start
    decreases hi - lo
  {
    hide Ascending;
    if lo < hi {
      var mid := lo + (hi - lo) / 2;
      if rows[mid].ts < start {
        forall i | 1 <= i < mid + 1
          ensures rows[i].ts < start
        {
          TailOrder(rows, ts, i, mid);
        }
        ProbeTail(rows, ts, start, mid + 1, hi);
      } else {
        ProbeTail(rows, ts, start, lo, mid);
      }
    }
  }

  /** A search for a start that the first row satisfies returns 0, unless the second row is too old. */
  lemma {:induction false} ProbeFront(rows: seq<Row>, ts: u32, start: u32, hi: nat)
    requires CutRows(rows, ts) && start <= ts && 1 <= hi <= |rows|
    requires SeeksPast(rows, start) ==> hi > 1
    ensures !SeeksPast(rows, start) ==> Probe(rows, start, 0, hi) == 0
    ensures SeeksPast(rows, start) ==>
              && 1 <= Probe(rows, start, 0, hi) <= |rows|
              && forall i :: 1 <= i < Probe(rows, start, 0, hi) ==> rows[i].ts < start
  {
    hide Ascending;
    var mid := hi / 2;
    if hi > 1 {
      if rows[mid].ts < start {
        forall i | 1 <= i < mid + 1
          ensures rows[i].ts < start
        {
          TailOrder(rows, ts, i, mid);
        }
        ProbeTail(rows, ts, start, mid + 1, hi);
      } else {
        ProbeFront(rows, ts, start, mid);
      }
    }
  }

  /** Where nothing matches the walk delivers nothing. */
  lemma {:induction false} WalkNothing(rows: seq<Row>, start: u32, end: u32, params: seq<nat>)
    requires forall i :: 0 <= i < |rows| ==> !Matches(rows[i], start, end)
    ensures Walk(rows, start, end, params) == []
  {
    if rows != [] {
      WalkNothing(rows[1..], start, end, params);
    }
  }

  /** Exactly what a query delivers: the rows behind the first one as far as the new timestamp does not
      end the walk or the search gets past it, and the new row itself when the walk comes by it. */
  lemma DeliveredCut(rows: seq<Row>, ts: u32, oldest: u32, start: u32, end: u32, params: seq<nat>)
    requires CutRows(rows, ts) && start <= end && oldest <= ts && (|rows| > 1 ==> oldest <= rows[1].ts)
    ensures Delivered(rows, oldest, start, end, params) ==
            (if start <= ts <= end && !SeeksPast(rows, start) then [Project(rows[0], params)] else [])
            + (if ts <= end || SeeksPast(rows, start) then Select(rows[1..], start, end, params) else [])
  {
    hide Walk, Select, Probe, Project, Ascending;
    var k := StartPos(rows, oldest, start);
    if start > ts {
      TooOld(rows, ts, k, start, end);
      TooOld(rows, ts, 1, start, end);
      WalkNothing(rows[k..], start, end, params);
      SelectNone(rows[1..], start, end, params);
    } else if SeeksPast(rows, start) {
      ProbeFront(rows, ts, start, |rows|);
      WalkFrom(rows, ts, k, start, end, params);
    } else {
      ProbeFront(rows, ts, start, |rows|);
      WalkStep(rows, 0, start, end, params);
      WalkFrom(rows, ts, 1, start, end, params);
    }
  }

  lemma TooOld(rows: seq<Row>, ts: u32, k: nat, start: u32, end: u32)
    requires CutRows(rows, ts) && start > ts && k <= |rows|
    ensures forall i :: 0 <= i < |rows[k..]| ==> !Matches(rows[k..][i], start, end)
  {
    hide Ascending;
    forall i | 0 <= i < |rows[k..]|
      ensures !Matches(rows[k..][i], start, end)
    {
      assert rows[k..][i] == rows[k + i];
    }
  }

  /** From a position behind the first row, and behind nothing else in range, the walk finds all. */
  lemma WalkFrom(rows: seq<Row>, ts: u32, k: nat, start: u32, end: u32, params: seq<nat>)
    requires CutRows(rows, ts) && 1 <= k <= |rows|
    requires forall i :: 1 <= i < k ==> rows[i].ts < start
    ensures Walk(rows[k..], start, end, params) == Select(rows[1..], start, end, params)
  {
    hide Walk, Select, Ascending;
    var tail := rows[1..];
    assert tail[k - 1..] == rows[k..];
    AscendingTail(tail, k - 1);
    WalkOrdered(rows[k..], start, end, params);
    SkipOld(tail, k - 1, start, end, params);
  }

  /** The matching rows behind the first one are delivered, with or without the new row in front. */
  ghost predicate DeliversRest(rows: seq<Row>, oldest: u32, start: u32, end: u32, params: seq<nat>)
    requires |rows| > 0
  {
    var all, rest := Delivered(rows, oldest, start, end, params), Select(rows[1..], start, end, params);
    all == rest || all == [Project(rows[0], params)] + rest
  }

  /** They are if and only if the window reaches the new timestamp, or starts behind the second row, or
      there are none. Otherwise the query delivers nothing at all. */
  lemma DeliversRestIff(rows: seq<Row>, ts: u32, oldest: u32, start: u32, end: u32, params: seq<nat>)
    requires CutRows(rows, ts) && start <= end && oldest <= ts && (|rows| > 1 ==> oldest <= rows[1].ts)
    ensures DeliversRest(rows, oldest, start, end, params) <==>
            ts <= end || SeeksPast(rows, start) || Select(rows[1..], start, end, params) == []
    ensures !DeliversRest(rows, oldest, start, end, params) ==> Delivered(rows, oldest, start, end, params) == []
  {
    hide Delivered, Select, Project, CutRows;
    DeliveredCut(rows, ts, oldest, start, end, params);
  }

  /** The rows of the half-written database are of this kind, when the new timestamp is not before the
      newest row. */
  lemma HalfWrittenRows(db: Db, log: seq<Row>, ts: u32, vals: seq<i16>, lands: bool)
    requires Inv(db, log) && Evicts(db.h) && AllReadable(db) && |vals| == Columns(db.h)
    requires Ascending(View(db)) && (forall i :: 0 <= i < Available(db.h) ==> 0 < View(db)[i].ts <= ts)
    ensures var d := Db(db.h, StoredFile(db, ts, vals, lands), false, true);
            && AllReadable(d) && Shape(d) && CutRows(View(d), ts) && View(d)[1..] == View(db)[1..]
            && db.h.oldestTimestamp == View(db)[0].ts
  {
    hide Fits, StoredFile, Extras, Readable, Shape, RingEnd, Kept, WholeExtras, ViewRow, Inv;
    InvShape(db, log);
    ShapeGeometry(db);
    HalfShape(db, ts, vals, lands);
    var d := Db(db.h, StoredFile(db, ts, vals, lands), false, true);
    EvictsSome(db);
    forall k: nat | k < Available(db.h)
      ensures Readable(d, k) && (if k == 0 then ViewRow(d, k).ts == ts else ViewRow(d, k) == ViewRow(db, k))
    {
      HalfWritten(db, log, ts, vals, lands, k);
    }
    assert View(d)[1..] == View(db)[1..];
    AscendingTail(View(db), 1);
    OldestShown(db, log);
  }

  lemma EvictsSome(db: Db)
    requires Evicts(db.h)
    ensures Available(db.h) > 0
  {
  }

  lemma OldestShown(db: Db, log: seq<Row>)
    requires Inv(db, log) && AllReadable(db) && Available(db.h) > 0
    ensures db.h.oldestTimestamp == View(db)[0].ts
  {
    hide Fits, RingEnd, Kept, WholeExtras, View, AllReadable, SlotOf, Fitted;
    ViewIsNewest(db, log);
    var n := Available(db.h);
    assert Newest(log, n)[0] == LogRow(db.h, log, db.h.totalRecords - n);
    assert View(db)[0] == Fitted(Newest(log, n)[0], Columns(db.h));
  }

  /** A query on it delivers the matching rows at positions 1 and on if and only if the window reaches the
      new timestamp, or starts behind the second row, or none of them matches. */
  method QueryAfterCut(db: Db, ghost log: seq<Row>, ts: u32, vals: seq<i16>, lands: bool, start: u32, end: u32,
                       params: seq<nat>)
    returns (rows: seq<Row>)
    requires Inv(db, log) && Evicts(db.h) && AllReadable(db) && |vals| == Columns(db.h)
    requires Ascending(View(db)) && (forall i :: 0 <= i < Available(db.h) ==> 0 < View(db)[i].ts <= ts)
    requires start <= end && |params| <= MAX_PARAMS
    ensures var rest := Select(View(db)[1..], start, end, params);
            if ts <= end || SeeksPast(View(db), start) || rest == []
            then rows == rest || (|rows| > 0 && rows[0].ts == ts && rows[1..] == rest)
            else rows == []
  {
    hide Inv, Fits, StoredFile, AllReadable, View, Shape, Delivered, Select, Ascending, CutRows, SeeksPast;
    InvShape(db, log);
    ShapeGeometry(db);
    var d := Db(db.h, StoredFile(db, ts, vals, lands), false, true);
    HalfWrittenRows(db, log, ts, vals, lands);
    SameSeek(View(db), View(d), start);
    CutOldest(View(db), View(d), ts);
    DeliversRestIff(View(d), ts, db.h.oldestTimestamp, start, end, params);
    var status, delivered, _ := RunQuery(d, start, end, Some(params));
    rows := delivered;
    CutFirst(View(d), ts);
    ghost var first, rest := Project(View(d)[0], params), Select(View(d)[1..], start, end, params);
    assert ([first] + rest)[0] == first && ([first] + rest)[1..] == rest;
  }

  lemma CutFirst(rows: seq<Row>, ts: u32)
    requires CutRows(rows, ts)
    ensures |rows| > 0 && rows[0].ts == ts
  {
  }

  lemma SameSeek(rows: seq<Row>, rows': seq<Row>, start: u32)
    requires |rows| > 0 && |rows'| > 0 && rows'[1..] == rows[1..]
    ensures SeeksPast(rows', start) == SeeksPast(rows, start)
  {
    assert |rows'| == 1 + |rows'[1..]| && |rows| == 1 + |rows[1..]|;
    assert |rows| > 1 ==> rows'[1] == rows'[1..][0] && rows[1] == rows[1..][0];
  }

  lemma CutOldest(rows: seq<Row>, rows': seq<Row>, ts: u32)
    requires |rows| > 0 && Ascending(rows) && CutRows(rows', ts) && rows'[1..] == rows[1..] && rows[0].ts <= ts
    ensures |rows'| > 1 ==> rows[0].ts <= rows'[1].ts
  {
    assert |rows'| == 1 + |rows'[1..]| && |rows| == 1 + |rows[1..]|;
    assert |rows| > 1 ==> rows'[1] == rows'[1..][0] && rows[1] == rows[1..][0];
  }

  /** The input: rows 10, 20, 30 and 40, a cut write of 50, and a query for 15 to 45. Three rows match, and
      none is delivered. */
  lemma QueryLosesRows(rows: seq<Row>, params: seq<nat>)
    requires |rows| == 4 && rows[0].ts == 50 && rows[1].ts == 20 && rows[2].ts == 30 && rows[3].ts == 40
    ensures CutRows(rows, 50)
    ensures |Select(rows[1..], 15, 45, params)| == 3 && Delivered(rows, 10, 15, 45, params) == []
  {
    hide Project;
    var a, b, c := Project(rows[1], params), Project(rows[2], params), Project(rows[3], params);
    SelectStep(rows, 1, 15, 45, params);
    SelectStep(rows, 2, 15, 45, params);
    SelectStep(rows, 3, 15, 45, params);
    assert rows[4..] == [];
    DeliversRestIff(rows, 50, 10, 15, 45, params);
  }
}
