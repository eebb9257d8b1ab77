/** The geometry and the record budget of a rewritten database. */
module Plan {
  import opened Arith
  import opened Layout
  import opened Storage
  import opened Ring

  const RESERVE_PCT: nat := 5
  const WIDE_INDEX_OFFSET: nat := 2048
  const NARROW_INDEX_OFFSET: nat := 1024
  const UNLIMITED_INDEX_ENTRIES: nat := 256

  /** Free bytes on the medium (0: no budget), and whether old records may be dropped to fit. */
  datatype Options = Options(freeSpace: nat, allowTrim: bool)

  datatype Plan =
    | Refused
    | Plan(newMax: nat, retain: nat, indexEntries: nat, indexOffset: nat, rpb: nat)

  function FileSize(indexOffset: nat, rpb: nat, indexEntries: nat, records: nat): nat
    requires rpb > 0
  {
    indexOffset + indexEntries * INDEX_ENTRY_SIZE + Blocks(records, rpb) * BLOCK_SIZE
  }

  function Budget(opts: Options): nat {
    opts.freeSpace - opts.freeSpace / 100 * RESERVE_PCT
  }

  /** The reserve is five percent of the free space, rounded down to whole hundreds of bytes. */
  lemma BudgetReserve(opts: Options)
    ensures var reserve := opts.freeSpace - Budget(opts);
            20 * reserve <= opts.freeSpace < 20 * reserve + 100
  {
    DivMod(opts.freeSpace, 100);
  }

  /** The index starts at 1024, or at 2048 for more than sixteen columns: the names of the columns beyond the
      sixteenth, twenty bytes each, lie between header and index. */
  lemma NamesFit(columns: nat)
    requires 0 < columns <= MAX_PARAMS
    ensures IndexOffsetFor(columns) == if columns > 16 then 2048 else 1024
    ensures HEADER_SIZE + (if columns > 16 then (columns - 16) * 20 else 0) <= IndexOffsetFor(columns)
  {
  }

  /** The index has an entry for every stride-th slot of the ring, and at most one more. */
  lemma IndexCovers(max: nat, stride: nat, k: nat)
    requires max > 0 && stride > 0
    ensures k < IndexEntriesFor(max, stride) <==> k * stride <= max
  {
    DivMod(max, stride);
    if k <= max / stride {
      MulLe(k, max / stride, stride);
    } else {
      MulLe(max / stride + 1, k, stride);
      assert (max / stride + 1) * stride == max / stride * stride + stride;
    }
  }

  function IndexOffsetFor(columns: nat): nat {
    if columns > 16 then WIDE_INDEX_OFFSET else NARROW_INDEX_OFFSET
  }

  function IndexEntriesFor(max: nat, stride: nat): nat
    requires stride > 0
  {
    if max > 0 then max / stride + 1 else UNLIMITED_INDEX_ENTRIES
  }

  /** How many records fit the budget next to the header and index areas of `fixed` bytes. */
  function FitRecords(budget: nat, fixed: nat, rpb: nat): nat {
    (if budget > fixed then (budget - fixed) / BLOCK_SIZE else 0) * rpb
  }

  /** Rows kept before any budget: all available ones, or the newest that the new capacity holds. */
  function Wanted(h: Header, newMax: nat): nat {
    if newMax > 0 && Available(h) > newMax then newMax else Available(h)
  }

  function MakePlan(h: Header, columns: nat, newMax: nat, opts: Option<Options>): Plan
    requires 0 < columns <= MAX_PARAMS && h.indexStride > 0
  {
    var rpb := RecordsPerBlock(columns);
    var offset := IndexOffsetFor(columns);
    var entries := IndexEntriesFor(newMax, h.indexStride);
    var retain := Wanted(h, newMax);
    if opts.None? || opts.value.freeSpace == 0
       || FileSize(offset, rpb, entries, retain) <= Budget(opts.value)
    then Plan(newMax, retain, entries, offset, rpb)
    else if !opts.value.allowTrim then Refused
    else
      var fit := FitRecords(Budget(opts.value), offset + entries * INDEX_ENTRY_SIZE, rpb);
      if fit == 0 then Refused
      else if fit < retain then
        if newMax == 0 || newMax > fit
        then Plan(fit, fit, IndexEntriesFor(fit, h.indexStride), offset, rpb)
        else Plan(newMax, fit, entries, offset, rpb)
      else Plan(newMax, retain, entries, offset, rpb)
  }

  /** The budget was exceeded. */
  predicate OverBudget(h: Header, columns: nat, newMax: nat, opts: Options)
    requires 0 < columns <= MAX_PARAMS && h.indexStride > 0
  {
    && opts.freeSpace > 0
    && FileSize(IndexOffsetFor(columns), RecordsPerBlock(columns), IndexEntriesFor(newMax, h.indexStride),
                Wanted(h, newMax)) > Budget(opts)
  }

  lemma BlocksOfMultiple(n: nat, rpb: nat)
    requires rpb > 0
    ensures Blocks(n * rpb, rpb) == n
  {
    if n > 0 {
      ModUnique(n * rpb + rpb - 1, n, rpb - 1, rpb);
    } else {
      ModSmall(rpb - 1, rpb);
    }
  }

  /** More records than fit never need fewer bytes than the budget. */
  lemma FitIsTight(budget: nat, fixed: nat, rpb: nat, records: nat)
    requires rpb > 0
    requires fixed + Blocks(records, rpb) * BLOCK_SIZE > budget
    requires FitRecords(budget, fixed, rpb) > 0
    ensures FitRecords(budget, fixed, rpb) < records
    ensures fixed + Blocks(FitRecords(budget, fixed, rpb), rpb) * BLOCK_SIZE <= budget
  {
    var n := (budget - fixed) / BLOCK_SIZE;
    BlocksOfMultiple(n, rpb);
    if records <= n * rpb {
      BlocksMonotone(records, n * rpb, rpb);
    }
  }

  /** A file of `k` blocks more records is larger by the bytes of `k` blocks. */
  lemma BlocksOfMore(n: nat, rpb: nat)
    requires rpb > 0
    ensures Blocks(n * rpb + rpb, rpb) == n + 1
  {
    BlocksOfMultiple(n + 1, rpb);
  }

  /** Trimming takes as many whole blocks as fit beside the index: one more would exceed the budget. It is
      refused exactly when it is not allowed or not even one block fits. */
  lemma TrimExact(h: Header, columns: nat, newMax: nat, opts: Options)
    requires 0 < columns <= MAX_PARAMS && h.indexStride > 0 && OverBudget(h, columns, newMax, opts)
    ensures var p := MakePlan(h, columns, newMax, Some(opts));
            var offset, rpb := IndexOffsetFor(columns), RecordsPerBlock(columns);
            var entries := IndexEntriesFor(newMax, h.indexStride);
            && (p.Refused? <==> !opts.allowTrim || Budget(opts) < FileSize(offset, rpb, entries, 0) + BLOCK_SIZE)
            && (p.Plan? ==>
                  && p.newMax == p.retain < Wanted(h, newMax)
                  && FileSize(offset, rpb, entries, p.retain) <= Budget(opts)
                  && FileSize(offset, rpb, entries, p.retain + rpb) > Budget(opts))
  {
    hide RecordsPerBlock, Blocks, Budget;
    var rpb := RecordsPerBlock(columns);
    var fixed := IndexOffsetFor(columns) + IndexEntriesFor(newMax, h.indexStride) * INDEX_ENTRY_SIZE;
    var fit := FitRecords(Budget(opts), fixed, rpb);
    var n := (Budget(opts) - fixed) / BLOCK_SIZE;
    BlocksOfMultiple(0, rpb);
    MulSign(n, rpb);
    if fit > 0 {
      FitIsTight(Budget(opts), fixed, rpb, Wanted(h, newMax));
      BlocksOfMore(n, rpb);
    }
  }

  /** Trimming a ring of bounded capacity: when the rewritten file would exceed the budget, fewer
      records than wanted fit, capacity and record count both become that number, and a file
      holding a full ring stays within the budget with the smaller index. */
  lemma TrimFits(h: Header, columns: nat, newMax: nat, opts: Options)
    requires 0 < columns <= MAX_PARAMS && h.indexStride > 0
    requires newMax > 0 && OverBudget(h, columns, newMax, opts)
    ensures var p := MakePlan(h, columns, newMax, Some(opts));
            var fixed := IndexOffsetFor(columns) + IndexEntriesFor(newMax, h.indexStride) * INDEX_ENTRY_SIZE;
            && (p.Refused? <==> !opts.allowTrim || Budget(opts) < fixed + BLOCK_SIZE)
            && (p.Plan? ==>
                  && opts.allowTrim && p.newMax == p.retain < Wanted(h, newMax)
                  && FileSize(p.indexOffset, p.rpb, p.indexEntries, p.newMax) <= Budget(opts))
  {
    hide RecordsPerBlock, Blocks, Budget;
    var rpb := RecordsPerBlock(columns);
    var fixed := IndexOffsetFor(columns) + IndexEntriesFor(newMax, h.indexStride) * INDEX_ENTRY_SIZE;
    var fit := FitRecords(Budget(opts), fixed, rpb);
    MulSign((Budget(opts) - fixed) / BLOCK_SIZE, rpb);
    if fit > 0 {
      FitIsTight(Budget(opts), fixed, rpb, Wanted(h, newMax));
      DivMonotone(fit, newMax, h.indexStride);
    }
  }

  /** Trimming an unlimited database turns its default 256 index entries into one per stride of
      the new capacity. It is refused as a bounded one is. Otherwise the file fits exactly when the
      entries beyond 256 of the records that fit go into what the last block left over. */
  lemma TrimUnlimited(h: Header, columns: nat, opts: Options)
    requires 0 < columns <= MAX_PARAMS && h.indexStride > 0
    requires OverBudget(h, columns, 0, opts)
    ensures var p := MakePlan(h, columns, 0, Some(opts));
            var fixed := IndexOffsetFor(columns) + UNLIMITED_INDEX_ENTRIES * INDEX_ENTRY_SIZE;
            var fit := FitRecords(Budget(opts), fixed, RecordsPerBlock(columns));
            && (p.Refused? <==> !opts.allowTrim || Budget(opts) < fixed + BLOCK_SIZE)
            && (p.Plan? ==>
                  && p.newMax == p.retain == fit < Available(h)
                  && (FileSize(p.indexOffset, p.rpb, p.indexEntries, p.newMax) <= Budget(opts) <==>
                      (fit / h.indexStride - 255) * INDEX_ENTRY_SIZE <= (Budget(opts) - fixed) % BLOCK_SIZE))
  {
    hide RecordsPerBlock, Blocks, Budget;
    var rpb := RecordsPerBlock(columns);
    var fixed := IndexOffsetFor(columns) + UNLIMITED_INDEX_ENTRIES * INDEX_ENTRY_SIZE;
    var fit := FitRecords(Budget(opts), fixed, rpb);
    MulSign((Budget(opts) - fixed) / BLOCK_SIZE, rpb);
    if fit > 0 {
      FitIsTight(Budget(opts), fixed, rpb, Wanted(h, 0));
      BlocksOfMultiple((Budget(opts) - fixed) / BLOCK_SIZE, rpb);
    }
  }

  /** It can indeed exceed the budget: one index entry per record of a two-column database. */
  lemma TrimUnlimitedCanOverrun(h: Header)
    requires h.indexStride == 1 && h.maxRecords == 0 && h.totalRecords == 1000
    ensures var opts := Options(8000, true);
            var p := MakePlan(h, 2, 0, Some(opts));
            && OverBudget(h, 2, 0, opts) && p.Plan?
            && FileSize(p.indexOffset, p.rpb, p.indexEntries, p.newMax) > Budget(opts)
  {
    assert RecordsPerBlock(2) == 127;
    assert Budget(Options(8000, true)) == 7600;
    assert FitRecords(7600, 1024 + 256 * 8, 127) == 4 * 127;
    BlocksOfMultiple(4, 127);
  }

  /** Every plan keeps at most what there is and at most what the new ring holds. */
  lemma PlanSound(h: Header, columns: nat, newMax: nat, opts: Option<Options>)
    requires 0 < columns <= MAX_PARAMS && h.indexStride > 0
    ensures var p := MakePlan(h, columns, newMax, opts);
            p.Plan? ==>
              && p.retain <= Available(h) && (p.newMax > 0 ==> p.retain <= p.newMax)
              && p.rpb == RecordsPerBlock(columns) && HEADER_SIZE <= p.indexOffset
  {
    hide RecordsPerBlock, Blocks, Budget;
  }
}
