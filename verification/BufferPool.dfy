/** The buffer pool: either one contiguous buffer or up to 128 separate pages, read and written as
    if it were one flat array of bytes. */
module BufferPool {
  import opened Arith
  import opened Bytes
  import opened Storage

  const MAX_PAGES: nat := 128
  const DEFAULT_PAGE_SIZE: nat := 2048

  function PageOf(i: nat, size: nat): nat
    requires size > 0
  {
    i / size
  }

  function PosIn(i: nat, size: nat): (p: nat)
    requires size > 0
    ensures p < size
  {
    i % size
  }

  /** Within one page, flat positions and page positions advance together. */
  lemma InChunk(cur: nat, n: nat, size: nat, i: nat)
    requires size > 0 && PosIn(cur, size) + n <= size
    ensures cur <= i < cur + n <==>
            PageOf(i, size) == PageOf(cur, size) && PosIn(cur, size) <= PosIn(i, size) < PosIn(cur, size) + n
    ensures PageOf(i, size) == PageOf(cur, size) ==> i - cur == PosIn(i, size) - PosIn(cur, size)
  {
    DivMod(cur, size);
    DivMod(i, size);
    if cur <= i < cur + n {
      ModUnique(i, cur / size, cur % size + (i - cur), size);
    }
  }

  /** Pages enough for `total` bytes hold every position below it. */
  lemma PageBelow(i: nat, total: nat, size: nat)
    requires size > 0 && i < total
    ensures PageOf(i, size) < Blocks(total, size)
  {
    SlotBlock(i, total, size);
  }

  class Pool {
    const pages: seq<array<byte>>
    const pageSize: nat
    const totalSize: nat
    const isPaged: bool

    ghost predicate Valid() {
      && pageSize > 0
      && (forall p, q :: 0 <= p < q < |pages| ==> pages[p] != pages[q])
      && if isPaged
         then
           && Blocks(totalSize, pageSize) == |pages| <= MAX_PAGES
           && forall p :: 0 <= p < |pages| ==> pages[p].Length == pageSize
         else |pages| == 1 && pages[0].Length == totalSize
    }

    /** The page and the position in it that hold flat position `i`. */
    function Place(i: nat): (nat, nat)
      requires pageSize > 0
    {
      if isPaged then (PageOf(i, pageSize), PosIn(i, pageSize)) else (0, i)
    }

    lemma PlaceInside(i: nat)
      requires Valid() && i < totalSize
      ensures Place(i).0 < |pages| && Place(i).1 < pages[Place(i).0].Length
    {
      if isPaged {
        PageBelow(i, totalSize, pageSize);
      }
    }

    /** The byte at flat position `i`. */
    ghost function At(i: nat): byte
      reads pages
      requires Valid() && i < totalSize
    {
      PlaceInside(i);
      pages[Place(i).0][Place(i).1]
    }

    /** The pool as one flat array. */
    ghost function Flat(): (f: Bytes)
      reads pages
      requires Valid()
      ensures |f| == totalSize && forall i :: 0 <= i < totalSize ==> f[i] == At(i)
    {
      seq(totalSize, i requires Valid() && 0 <= i < totalSize reads pages => At(i))
    }

    constructor (pages: seq<array<byte>>, pageSize: nat, totalSize: nat, isPaged: bool)
      ensures this.pages == pages && this.pageSize == pageSize && this.totalSize == totalSize && this.isPaged == isPaged
    {
      this.pages, this.pageSize, this.totalSize, this.isPaged := pages, pageSize, totalSize, isPaged;
    }

    /** Copies into one page; no other byte changes. */
    method CopyIn(p: nat, at: nat, data: Bytes)
      requires Valid() && p < |pages| && at + |data| <= pages[p].Length
      modifies pages
      ensures forall q, k :: 0 <= q < |pages| && 0 <= k < pages[q].Length ==>
                pages[q][k] == if q == p && at <= k < at + |data| then data[k - at] else old(pages[q][k])
    {
      var page := pages[p];
      for j := 0 to |data|
        invariant forall k :: 0 <= k < page.Length ==>
                    page[k] == if at <= k < at + j then data[k - at] else old(page[k])
        invariant forall q, k :: 0 <= q < |pages| && q != p && 0 <= k < pages[q].Length ==>
                    pages[q][k] == old(pages[q][k])
      {
        page[at + j] := data[j];
      }
    }

    /** Writes `src` page by page, chunk by chunk. */
    method WritePaged(offset: nat, src: Bytes)
      requires Valid() && isPaged && offset + |src| <= totalSize
      modifies pages
      ensures forall i :: 0 <= i < totalSize ==>
                At(i) == if offset <= i < offset + |src| then src[i - offset] else old(At(i))
    {
      hide PageOf, PosIn;
      var remaining, current, done := |src|, offset, 0;
      while remaining > 0
        invariant done + remaining == |src| && current == offset + done && current <= offset + |src|
        invariant forall i :: 0 <= i < totalSize ==>
                    At(i) == if offset <= i < current then src[i - offset] else old(At(i))
        decreases remaining
      {
        var page, at := PageOf(current, pageSize), PosIn(current, pageSize);
        var chunk := pageSize - at;
        if chunk > remaining {
          chunk := remaining;
        }
        PlaceInside(current);
        CopyIn(page, at, src[done..done + chunk]);
        forall i | 0 <= i < totalSize
          ensures At(i) == if offset <= i < current + chunk then src[i - offset] else old(At(i))
        {
          PlaceInside(i);
          InChunk(current, chunk, pageSize, i);
        }
        done, current, remaining := done + chunk, current + chunk, remaining - chunk;
      }
    }

    /** Writes `src` at a flat offset. Out of bounds or empty, nothing happens. */
    method Write(offset: nat, src: Bytes)
      requires Valid()
      modifies pages
      ensures Flat() == if offset + |src| <= totalSize then WriteAt(old(Flat()), offset, src) else old(Flat())
    {
      if |src| == 0 || offset + |src| > totalSize {
        return;
      }
      if !isPaged {
        CopyIn(0, offset, src);
      } else {
        WritePaged(offset, src);
      }
    }

    /** Reads `size` bytes from a flat offset. Out of bounds or empty, nothing is delivered. */
    method Read(offset: nat, size: nat) returns (dest: Bytes)
      requires Valid()
      ensures dest == if offset + size <= totalSize then Flat()[offset..offset + size] else []
    {
      dest := [];
      if size == 0 || offset + size > totalSize {
        return;
      }
      if !isPaged {
        dest := pages[0][offset..offset + size];
        return;
      }
      var remaining, current := size, offset;
      while remaining > 0
        invariant current == offset + |dest| && |dest| + remaining == size
        invariant current <= offset + size
        invariant forall i :: offset <= i < current ==> dest[i - offset] == At(i)
        decreases remaining
      {
        var page, at := PageOf(current, pageSize), PosIn(current, pageSize);
        var chunk := pageSize - at;
        if chunk > remaining {
          chunk := remaining;
        }
        PlaceInside(current);
        var piece := pages[page][at..at + chunk];
        forall i | current <= i < current + chunk
          ensures piece[i - current] == At(i)
        {
          PlaceInside(i);
          InChunk(current, chunk, pageSize, i);
        }
        dest := dest + piece;
        current, remaining := current + chunk, remaining - chunk;
      }
    }

    /** A direct address (page and position) of a region, given only when the region is contiguous. */
    method GetDirect(offset: nat, size: nat) returns (r: Option<(nat, nat)>)
      requires Valid()
      ensures r.Some? <==> |pages| > 0 && offset + size <= totalSize
                           && (isPaged ==> PosIn(offset, pageSize) + size <= pageSize)
      ensures r.Some? ==>
                forall i: nat :: offset <= i < offset + size ==> Place(i) == (r.value.0, r.value.1 + (i - offset))
    {
      if |pages| == 0 || offset + size > totalSize {
        return None;
      }
      if !isPaged {
        return Some((0, offset));
      }
      var page, at := PageOf(offset, pageSize), PosIn(offset, pageSize);
      if at + size > pageSize {
        return None;
      }
      forall i: nat | offset <= i < offset + size
        ensures Place(i) == (page, at + (i - offset))
      {
        InChunk(offset, size, pageSize, i);
      }
      return Some((page, at));
    }
  }

  datatype Allocation = Ok(pool: Pool) | InvalidArg | NoMem

  /** Allocates the pool; the allocator fails at page `failsAt`, if at all. */
  method Allocate(totalSize: nat, usePaged: bool, pageSize: nat, failsAt: Option<nat>) returns (r: Allocation)
    ensures r.InvalidArg? <==>
              || totalSize == 0
              || (usePaged && Blocks(totalSize, if pageSize > 0 then pageSize else 2048) > 128)
    ensures r.NoMem? ==> failsAt.Some?
    ensures r.Ok? ==> r.pool.Valid() && r.pool.totalSize == totalSize && r.pool.isPaged == usePaged
                      && fresh(r.pool) && fresh(r.pool.pages)
                      && (usePaged ==> r.pool.pageSize == if pageSize > 0 then pageSize else 2048)
  {
    if totalSize == 0 {
      return InvalidArg;
    }
    var size := if pageSize > 0 then pageSize else DEFAULT_PAGE_SIZE;
    if !usePaged {
      if failsAt == Some(0) {
        return NoMem;
      }
      var buffer := new byte[totalSize];
      var pool := new Pool([buffer], size, totalSize, false);
      return Ok(pool);
    }
    var needed := Blocks(totalSize, size);
    if needed > MAX_PAGES {
      return InvalidArg;
    }
    var pages: seq<array<byte>> := [];
    for i := 0 to needed
      invariant |pages| == i && fresh(pages)
      invariant forall p :: 0 <= p < i ==> pages[p].Length == size
      invariant forall p, q :: 0 <= p < q < i ==> pages[p] != pages[q]
    {
      if failsAt == Some(i) {
        return NoMem;
      }
      var page := new byte[size];
      pages := pages + [page];
    }
    var pool := new Pool(pages, size, totalSize, true);
    return Ok(pool);
  }
}
