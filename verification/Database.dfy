/** The write path as the code runs it: fields of the open handle are updated in place, the block
    is edited in a buffer, and a refused growth jumps back to the start of the block write. */
module Database {
  import opened Bytes
  import opened Layout
  import opened Storage
  import opened Ring

  class Database {
    var h: Header
    var file: Bytes
    var adapted: bool
    var indexStale: bool

    ghost function State(): Db
      reads this
    {
      Db(h, file, adapted, indexStale)
    }

    constructor (h: Header, file: Bytes)
      ensures State() == Db(h, file, false, false)
    {
      this.h, this.file, adapted, indexStale := h, file, false, false;
    }

    /** Reads one block; a short read changes nothing and fails. */
    method ReadBlock(n: nat, buffer: array<byte>) returns (ok: bool)
      requires buffer.Length == BLOCK_SIZE
      modifies buffer
      ensures ok == HasBlock(file, GeometryOf(h), n)
      ensures buffer[..] == if ok then BlockAt(file, GeometryOf(h), n) else old(buffer[..])
    {
      var at := BlockOffset(GeometryOf(h), n);
      ok := at + BLOCK_SIZE <= |file|;
      if ok {
        CopyInto(buffer, file[at..at + BLOCK_SIZE]);
      }
    }

    /** The block buffer for a write to block `n`: what is stored there, or a zeroed block. */
    method PrepareBlock(n: nat, buffer: array<byte>)
      requires buffer.Length == BLOCK_SIZE
      modifies buffer
      ensures buffer[..] == LoadForWrite(file, GeometryOf(h), n)
    {
      hide FreshBlock;
      var ok := ReadBlock(n, buffer);
      if !ok || Magic(buffer[..]) != BLOCK_MAGIC {
        CopyInto(buffer, FreshBlock());
      }
    }

    /** Writes one block; only a write that makes the file longer can be refused. */
    method WriteBlock(n: nat, buffer: array<byte>, env: Env) returns (ok: bool)
      requires buffer.Length == BLOCK_SIZE
      modifies this`file
      ensures ok == (HasBlock(old(file), GeometryOf(h), n) || env.growth.Granted?)
      ensures file == if ok then WriteAt(old(file), BlockOffset(GeometryOf(h), n), buffer[..])
                      else TornFile(old(file), BlockOffset(GeometryOf(h), n), env.torn)
    {
      var at := BlockOffset(GeometryOf(h), n);
      ok := HasBlock(file, GeometryOf(h), n) || env.growth.Granted?;
      file := if ok then WriteAt(file, at, buffer[..]) else TornFile(file, at, env.torn);
    }

    /** The block write: evict, edit the block, write it back, and on a refused growth cut the
        capacity and start over. */
    method StoreBlock(ts: u32, vals: seq<i16>, env: Env) returns (ok: bool, retries: nat)
      requires GeometryOf(h).Valid() && h.numParams <= |vals|
      modifies this
      ensures Attempt(State(), ok, retries) == Store(old(State()), ts, vals, env, 0)
    {
      hide Fits, SlotOf, BlockOf, LoadForWrite, StoreRecord, WriteAt, TornFile, BlockOffset;
      var buffer := new byte[BLOCK_SIZE];
      retries := 0;
      while true
        invariant GeometryOf(h).Valid() && h.numParams <= |vals|
        invariant Store(State(), ts, vals, env, retries) == Store(old(State()), ts, vals, env, 0)
        decreases if adapted then 0 else 1
      {
        var g := GeometryOf(h);
        var slot := SlotOf(h, h.totalRecords);
        var isEviction := Evicts(h);
        ghost var before := State();
        if isEviction {
          h := h.(totalEvictions := Inc32(h.totalEvictions),
                  oldestRecordIdx := (h.oldestRecordIdx + 1) % h.maxRecords);
        }
        PrepareBlock(BlockOf(g, slot), buffer);
        StoreInPlace(buffer, g.np, g.rpb, RecOf(g, slot), ts, vals);
        assert GeometryOf(h) == g;
        assert buffer[..] == UpdatedBlock(before.file, g, slot, ts, vals);
        ok := WriteBlock(BlockOf(g, slot), buffer, env);
        if !ok && env.growth.NoSpace? && !isEviction && !adapted && h.totalRecords > 0 {
          h := h.(maxRecords := h.totalRecords);
          adapted := true;
          retries := retries + 1;
        } else {
          return;
        }
      }
    }

    /** Appends the extras of the record at its place in the overflow region; a refusal is only logged. */
    method AppendRow(vals: seq<i16>, env: Env)
      requires |vals| == h.numParams + h.extraParamCount
      modifies this`file
      ensures file == AppendExtras(old(file), h, vals, Lands(old(file), h, env))
    {
      hide OverflowPos, Encode, WriteAt;
      if h.extraParamCount > 0 && h.totalRecords >= h.firstOverflowRecordIdx {
        var at := OverflowPos(h, h.totalRecords);
        if at + 2 * h.extraParamCount <= |file| || env.growth.Granted? {
          file := WriteAt(file, at, Encode(vals[h.numParams..]));
        }
      }
    }

    /** Counts the record and refreshes slots and timestamps in the header. */
    method Advance(ts: u32)
      requires GeometryOf(h).Valid() && h.indexStride > 0
      modifies this`h, this`indexStale
      ensures h == Advanced(old(h), file, ts)
      ensures indexStale == (old(indexStale) || OnIndexSlot(old(h), SlotOf(old(h), old(h).totalRecords)))
    {
      hide Fits, SlotOf, BlockOf, RowAt;
      var slot := SlotOf(h, h.totalRecords);
      var g := GeometryOf(h);
      var oldestTs := h.oldestTimestamp;
      if Evicts(h) {
        if HasBlock(file, g, BlockOf(g, h.oldestRecordIdx)) {
          oldestTs := RowAt(file, g, h.oldestRecordIdx).ts;
        }
      } else if Inc32(h.totalRecords) == 1 {
        oldestTs := ts;
      }
      if slot % h.indexStride == 0 && slot / h.indexStride < h.indexEntries {
        indexStale := true;
      }
      h := h.(totalRecords := Inc32(h.totalRecords), totalWrites := Inc32(h.totalWrites),
              newestRecordIdx := slot, newestTimestamp := ts, oldestTimestamp := oldestTs);
    }

    /** One write call. */
    method Write(ts: u32, vals: seq<i16>, env: Env) returns (ok: bool, retries: nat)
      requires GeometryOf(h).Valid() && h.indexStride > 0
      requires |vals| == h.numParams + h.extraParamCount
      modifies this
      ensures Attempt(State(), ok, retries) == Ring.Write(old(State()), ts, vals, env)
    {
      hide Fits, SlotOf, Store, AppendExtras, Lands, Advanced, OnIndexSlot;
      if env.lowSpace && !adapted && h.maxRecords > 0 && h.totalRecords > 0 &&
         h.totalRecords < h.maxRecords && h.totalRecords % h.recordsPerBlock == 0
      {
        h := h.(maxRecords := h.totalRecords);
        adapted := true;
      }
      StoreKeepsShape(State(), ts, vals, env, 0);
      ok, retries := StoreBlock(ts, vals, env);
      if ok {
        AppendRow(vals, env);
        Advance(ts);
      }
    }
  }
}
