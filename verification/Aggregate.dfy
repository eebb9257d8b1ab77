/** Aggregation over a time range: one column at a time, or many requests in a single pass over the
    matching rows. */
module Aggregate {
  import opened Arith
  import opened Bytes
  import opened Layout
  import opened Storage
  import opened Ring
  import opened Retained
  import opened Query

  const INT32_MIN: int := -0x8000_0000
  const INT32_MAX: int := 0x7FFF_FFFF

  datatype Kind = SumOf | AvgOf | MinOf | MaxOf | CountOf | FirstOf | LastOf

  // What the aggregates mean

  function Sum(vals: seq<i16>): int {
    if vals == [] then 0 else Sum(vals[..|vals| - 1]) + vals[|vals| - 1]
  }

  /** Conversion to a 32-bit signed integer. */
  function ToInt32(x: int): (r: int)
    ensures INT32_MIN <= r <= INT32_MAX
    ensures INT32_MIN <= x <= INT32_MAX ==> r == x
  {
    (x - INT32_MIN) % 0x1_0000_0000 + INT32_MIN
  }

  /** Division that truncates toward zero. */
  function TruncDiv(a: int, n: int): int
    requires n > 0
  {
    if a >= 0 then a / n else -((-a) / n)
  }

  function Abs(x: int): nat {
    if x < 0 then -x else x
  }

  /** `q` is the quotient of `a` by `n` with its fraction cut off: the largest number of times that `n`
      goes into the size of `a`, with the sign of `a`. */
  ghost predicate IsTruncated(q: int, a: int, n: nat) {
    Abs(q) * n <= Abs(a) < (Abs(q) + 1) * n && (q > 0 ==> a > 0) && (q < 0 ==> a < 0)
  }

  ghost predicate IsMin(m: int, vals: seq<i16>) {
    m in vals && forall i :: 0 <= i < |vals| ==> m <= vals[i]
  }

  ghost predicate IsMax(m: int, vals: seq<i16>) {
    m in vals && forall i :: 0 <= i < |vals| ==> vals[i] <= m
  }

  /** `r` is the aggregate of the values, which is 0 when there are none. */
  ghost predicate IsAggregate(kind: Kind, vals: seq<i16>, r: int) {
    if vals == [] then r == 0
    else
      match kind
      case SumOf => r == ToInt32(Sum(vals))
      case AvgOf => IsTruncated(r, Sum(vals), |vals|)
      case MinOf => IsMin(r, vals)
      case MaxOf => IsMax(r, vals)
      case CountOf => r == ToInt32(|vals|)
      case FirstOf => r == vals[0]
      case LastOf => r == vals[|vals| - 1]
  }

  /** The definition leaves no choice. */
  lemma AggregateUnique(kind: Kind, vals: seq<i16>, r: int, r': int)
    requires IsAggregate(kind, vals, r) && IsAggregate(kind, vals, r')
    ensures r == r'
  {
    if kind.AvgOf? && vals != [] {
      TruncatedUnique(r, r', Sum(vals), |vals|);
    }
  }

  lemma TruncatedUnique(q: int, q': int, a: int, n: nat)
    requires n > 0 && IsTruncated(q, a, n) && IsTruncated(q', a, n)
    ensures q == q'
  {
    if Abs(q) < Abs(q') {
      MulLe(Abs(q) + 1, Abs(q'), n);
    } else if Abs(q') < Abs(q) {
      MulLe(Abs(q') + 1, Abs(q), n);
    }
  }

  /** The division of the code cuts the fraction off. */
  lemma TruncDivTruncates(a: int, n: nat)
    requires n > 0
    ensures IsTruncated(TruncDiv(a, n), a, n)
  {
    var b := Abs(a);
    DivMod(b, n);
    assert (b / n + 1) * n == b / n * n + n;
    assert Abs(TruncDiv(a, n)) == b / n;
  }

  // Accumulators

  datatype Acc = Acc(sum: int, min: int, max: int, first: int, last: int)

  const Start: Acc := Acc(0, INT32_MAX, INT32_MIN, 0, 0)

  function Add(a: Acc, count: nat, v: i16): Acc {
    Acc(a.sum + v, if v < a.min then v else a.min, if v > a.max then v else a.max,
        if count == 0 then v else a.first, v)
  }

  /** The accumulator holds the aggregates of the values seen so far. */
  ghost predicate Accumulated(a: Acc, vals: seq<i16>) {
    if vals == [] then a == Start
    else
      && a.sum == Sum(vals) && IsMin(a.min, vals) && IsMax(a.max, vals)
      && a.first == vals[0] && a.last == vals[|vals| - 1]
  }

  lemma AddAccumulates(a: Acc, vals: seq<i16>, v: i16)
    requires Accumulated(a, vals)
    ensures Accumulated(Add(a, |vals|, v), vals + [v])
  {
    assert (vals + [v])[..|vals|] == vals;
    assert v in vals + [v];
    assert vals != [] ==> a.min in vals + [v] && a.max in vals + [v];
  }

  function Finish(kind: Kind, a: Acc, count: nat): int {
    if count == 0 then 0
    else
      match kind
      case SumOf => ToInt32(a.sum)
      case AvgOf => ToInt32(TruncDiv(a.sum, count))
      case MinOf => a.min
      case MaxOf => a.max
      case CountOf => ToInt32(count)
      case FirstOf => a.first
      case LastOf => a.last
  }

  lemma FinishAggregates(kind: Kind, a: Acc, vals: seq<i16>)
    requires Accumulated(a, vals)
    ensures IsAggregate(kind, vals, Finish(kind, a, |vals|))
  {
    if kind.AvgOf? && vals != [] {
      TruncDivTruncates(Sum(vals), |vals|);
      SumBounds(vals, -0x8000, 0x7FFF);
      TruncBounds(Sum(vals), |vals|, -0x8000, 0x7FFF);
    }
  }

  // Columns of a query result

  function Column(rows: seq<Row>, j: nat): (c: seq<i16>)
    requires forall i :: 0 <= i < |rows| ==> j < |rows[i].vals|
    ensures |c| == |rows| && forall i :: 0 <= i < |rows| ==> c[i] == rows[i].vals[j]
  {
    seq(|rows|, i requires 0 <= i < |rows| => rows[i].vals[j])
  }

  lemma {:induction false} SelectWidth(rows: seq<Row>, start: u32, end: u32, params: seq<nat>)
    ensures forall i :: 0 <= i < |Select(rows, start, end, params)| ==>
              |Select(rows, start, end, params)[i].vals| == |params|
  {
    if rows != [] {
      SelectWidth(rows[1..], start, end, params);
    }
  }

  /** The values of one column in the window: what a query for that column alone delivers. */
  ghost function Values(rows: seq<Row>, start: u32, end: u32, param: nat): seq<i16> {
    SelectWidth(rows, start, end, [param]);
    Column(Select(rows, start, end, [param]), 0)
  }

  /** Asking for several columns delivers each as asking for it alone does. */
  lemma {:induction false} ColumnAlone(rows: seq<Row>, start: u32, end: u32, params: seq<nat>, j: nat)
    requires j < |params|
    ensures |Select(rows, start, end, params)| == |Values(rows, start, end, params[j])|
    ensures forall i :: 0 <= i < |Select(rows, start, end, params)| ==>
              && j < |Select(rows, start, end, params)[i].vals|
              && Select(rows, start, end, params)[i].vals[j] == Values(rows, start, end, params[j])[i]
  {
    SelectWidth(rows, start, end, params);
    SelectWidth(rows, start, end, [params[j]]);
    if rows != [] {
      ColumnAlone(rows[1..], start, end, params, j);
      SelectWidth(rows[1..], start, end, [params[j]]);
    }
  }

  // The operations

  datatype Result<T> = Ok(value: T) | InvalidArg | InvalidState

  /** One aggregate of one column. */
  method AggregateOne(db: Db, start: u32, end: u32, param: nat, kind: Kind) returns (r: Result<int>)
    requires Shape(db) && AllReadable(db) && Ascending(View(db))
    ensures r.InvalidArg? <==> param >= Columns(db.h) || start > end
    ensures !r.InvalidState?
    ensures r.Ok? ==> IsAggregate(kind, Values(View(db), start, end, param), r.value)
  {
    hide Picks, TakesAll, Shape, AllReadable, View, Delivered, Ascending, Select, IsAggregate, Finish, Add, Accumulated;
    if param >= Columns(db.h) {
      return Result.InvalidArg;
    }
    var status, rows, _ := RunQuery(db, start, end, Some([param]));
    if status.InvalidArg? {
      return Result.InvalidArg;
    }
    ghost var vals := Values(View(db), start, end, param);
    ColumnAlone(View(db), start, end, [param], 0);
    var acc, count := Start, 0;
    StartAccumulated();
    assert vals[..0] == [];
    for i := 0 to |rows|
      invariant count == i && Accumulated(acc, vals[..i])
    {
      var value := rows[i].vals[0];
      AddAccumulates(acc, vals[..i], value);
      assert vals[..i] + [value] == vals[..i + 1];
      acc := Add(acc, count, value);
      count := count + 1;
    }
    assert vals[..|rows|] == vals;
    FinishAggregates(kind, acc, vals);
    return Result.Ok(Finish(kind, acc, count));
  }

  lemma StartAccumulated()
    ensures Accumulated(Start, [])
  {
  }

  datatype Request = Request(param: nat, kind: Kind)

  /** The distinct columns of the requests, and for each request where its column is among them. */
  method Distinct(requests: seq<Request>) returns (params: seq<nat>, index: seq<nat>)
    ensures |index| == |requests|
    ensures forall i :: 0 <= i < |requests| ==> index[i] < |params| && params[index[i]] == requests[i].param
    ensures |params| <= |requests|
    ensures forall i, j :: 0 <= i < j < |params| ==> params[i] != params[j]
  {
    params, index := [], [];
    for i := 0 to |requests|
      invariant |index| == i && |params| <= i
      invariant forall k :: 0 <= k < i ==> index[k] < |params| && params[index[k]] == requests[k].param
      invariant forall k, j :: 0 <= k < j < |params| ==> params[k] != params[j]
    {
      var at := 0;
      while at < |params| && params[at] != requests[i].param
        invariant at <= |params|
        invariant forall k :: 0 <= k < at ==> params[k] != requests[i].param
      {
        at := at + 1;
      }
      if at == |params| {
        params := params + [requests[i].param];
      }
      index := index + [at];
    }
  }

  /** The accumulators after one more row, request by request. */
  method AddRow(accs: seq<Acc>, count: nat, row: Row, index: seq<nat>) returns (r: seq<Acc>)
    requires |accs| == |index| && forall i :: 0 <= i < |index| ==> index[i] < |row.vals|
    ensures |r| == |accs| && forall i :: 0 <= i < |accs| ==> r[i] == Add(accs[i], count, row.vals[index[i]])
  {
    hide Add;
    r := [];
    for i := 0 to |accs|
      invariant |r| == i && forall k :: 0 <= k < i ==> r[k] == Add(accs[k], count, row.vals[index[k]])
    {
      r := r + [Add(accs[i], count, row.vals[index[i]])];
    }
  }

  /** All requests in one pass: each result is the aggregate that a separate call gives. */
  method AggregateMany(db: Db, start: u32, end: u32, requests: seq<Request>)
    returns (r: Result<seq<int>>)
    requires Shape(db) && AllReadable(db) && Ascending(View(db)) && |requests| <= MAX_PARAMS
    ensures r.InvalidState? <==> requests == []
    ensures r.InvalidArg? <==>
              requests != [] && (start > end || exists i :: 0 <= i < |requests| && requests[i].param >= Columns(db.h))
    ensures r.Ok? ==>
              && |r.value| == |requests|
              && forall i :: 0 <= i < |requests| ==>
                   IsAggregate(requests[i].kind, Values(View(db), start, end, requests[i].param), r.value[i])
  {
    hide Picks, TakesAll, Shape, AllReadable, View, Delivered, Ascending, Select, IsAggregate, Finish, Add, Accumulated,
         Values;
    if requests == [] {
      return InvalidState;
    }
    for i := 0 to |requests|
      invariant forall k :: 0 <= k < i ==> requests[k].param < Columns(db.h)
    {
      if requests[i].param >= Columns(db.h) {
        return Result.InvalidArg;
      }
    }
    var params, index := Distinct(requests);
    var status, rows, _ := RunQuery(db, start, end, Some(params));
    if status.InvalidArg? {
      return Result.InvalidArg;
    }
    var accs := seq(|requests|, _ => Start);
    forall i | 0 <= i < |requests|
      ensures Matching(rows, index[i], Values(View(db), start, end, requests[i].param))
      ensures Accumulated(accs[i], Values(View(db), start, end, requests[i].param)[..0])
    {
      ColumnAlone(View(db), start, end, params, index[i]);
      StartAccumulated();
      assert Values(View(db), start, end, requests[i].param)[..0] == [];
    }
    for n := 0 to |rows|
      invariant |accs| == |requests|
      invariant forall i :: 0 <= i < |requests| ==>
                  Accumulated(accs[i], Values(View(db), start, end, requests[i].param)[..n])
    {
      ghost var before := accs;
      accs := AddRow(accs, n, rows[n], index);
      forall i | 0 <= i < |requests|
        ensures Accumulated(accs[i], Values(View(db), start, end, requests[i].param)[..n + 1])
      {
        var vals := Values(View(db), start, end, requests[i].param);
        AddAccumulates(before[i], vals[..n], rows[n].vals[index[i]]);
        assert vals[..n] + [rows[n].vals[index[i]]] == vals[..n + 1];
      }
    }
    var results := [];
    for i := 0 to |requests|
      invariant |results| == i
      invariant forall k :: 0 <= k < i ==>
                  IsAggregate(requests[k].kind, Values(View(db), start, end, requests[k].param), results[k])
    {
      ghost var vals := Values(View(db), start, end, requests[i].param);
      assert vals[..|rows|] == vals;
      FinishAggregates(requests[i].kind, accs[i], vals);
      results := results + [Finish(requests[i].kind, accs[i], |rows|)];
    }
    return Result.Ok(results);
  }

  /** Column `j` of the rows is `vals`. */
  ghost predicate Matching(rows: seq<Row>, j: nat, vals: seq<i16>) {
    |rows| == |vals| && forall i :: 0 <= i < |rows| ==> j < |rows[i].vals| && rows[i].vals[j] == vals[i]
  }

  // Numeric bounds

  /** The conversion changes a number by a multiple of 2^32. */
  lemma Int32Wraps(x: int) returns (k: int)
    ensures x == ToInt32(x) + k * 0x1_0000_0000
  {
    k := (x - INT32_MIN) / 0x1_0000_0000;
  }

  lemma {:induction false} SumAdds(a: seq<i16>, b: seq<i16>)
    ensures Sum(a + b) == Sum(a) + Sum(b)
  {
    if b == [] {
      assert a + b == a;
    } else {
      var init := b[..|b| - 1];
      assert (a + b)[..|a + b| - 1] == a + init;
      SumAdds(a, init);
    }
  }

  lemma {:induction false} SumBounds(vals: seq<i16>, lo: int, hi: int)
    requires forall i :: 0 <= i < |vals| ==> lo <= vals[i] <= hi
    ensures lo * |vals| <= Sum(vals) <= hi * |vals|
  {
    if vals != [] {
      var n := |vals|;
      SumBounds(vals[..n - 1], lo, hi);
      assert lo * n == lo * (n - 1) + lo && hi * n == hi * (n - 1) + hi;
    }
  }

  /** The 64-bit sum never overflows, for as many rows as a 32-bit count can number. */
  lemma SumFits64(vals: seq<i16>)
    requires |vals| < 0x1_0000_0000
    ensures -0x8000_0000_0000_0000 <= Sum(vals) < 0x8000_0000_0000_0000
  {
    SumBounds(vals, -0x8000, 0x7FFF);
  }

  /** The 32-bit SUM is exact for up to 65536 rows. */
  lemma SumExact(vals: seq<i16>)
    requires |vals| <= 65536
    ensures ToInt32(Sum(vals)) == Sum(vals)
  {
    SumBounds(vals, -0x8000, 0x7FFF);
  }

  lemma {:induction false} SumOfConstant(n: nat, v: i16)
    ensures Sum(seq(n, _ => v)) == n * v
  {
    if n > 0 {
      assert seq(n, _ => v)[..n - 1] == seq(n - 1, _ => v);
      SumOfConstant(n - 1, v);
    }
  }

  /** With more rows it can wrap around, whatever their number. */
  lemma SumCanWrap(n: nat)
    requires n > 65536
    ensures ToInt32(Sum(seq(n, _ => -0x8000))) != Sum(seq(n, _ => -0x8000))
  {
    SumOfConstant(n, -0x8000);
  }

  /** So the 32-bit SUM of a number of rows is exact whatever they hold if and only if there are at most
      65536 of them. */
  lemma SumExactIff(n: nat)
    ensures (forall vals: seq<i16> :: |vals| == n ==> ToInt32(Sum(vals)) == Sum(vals)) <==> n <= 65536
  {
    if n <= 65536 {
      forall vals: seq<i16> | |vals| == n
        ensures ToInt32(Sum(vals)) == Sum(vals)
      {
        SumExact(vals);
      }
    } else {
      SumCanWrap(n);
    }
  }

  lemma TruncBounds(a: int, n: int, lo: int, hi: int)
    requires n > 0 && lo * n <= a <= hi * n
    ensures lo <= TruncDiv(a, n) <= hi
  {
    if a >= 0 {
      DivBounds(a, n, lo, hi);
    } else {
      DivBounds(-a, n, -hi, -lo);
    }
  }

  lemma DivBounds(a: int, n: int, lo: int, hi: int)
    requires n > 0 && a >= 0 && lo * n <= a <= hi * n
    ensures lo <= a / n <= hi
  {
    DivMod(a, n);
    var q := a / n;
    assert (lo - q) * n == lo * n - q * n;
    assert (q - hi) * n == q * n - hi * n;
    MulSign(lo - q, n);
    MulSign(q - hi, n);
  }

  /** AVG, truncated toward zero, lies between MIN and MAX. */
  lemma AverageBetween(vals: seq<i16>, avg: int, min: int, max: int)
    requires vals != []
    requires IsAggregate(AvgOf, vals, avg) && IsAggregate(MinOf, vals, min) && IsAggregate(MaxOf, vals, max)
    ensures min <= avg <= max
  {
    SumBounds(vals, min, max);
    TruncBounds(Sum(vals), |vals|, min, max);
    TruncDivTruncates(Sum(vals), |vals|);
    TruncatedUnique(avg, TruncDiv(Sum(vals), |vals|), Sum(vals), |vals|);
  }
}
