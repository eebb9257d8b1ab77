/** Databases shared with an older version, which knows only the full (TSH1) slots: it writes one
    of them on every record, and a clean close refreshes the header in the file and removes only
    them. */
module Arbitration {
  import opened Storage
  import opened Sidecar

  // The older version

  /** What the older version opens. */
  function OldReopened(disk: Disk): Header
    requires |disk.r| == 2
  {
    var s := NewestR(disk.r);
    if s.Some? && disk.r[s.value].value.h.magic == DB_MAGIC && IsSane(disk.r[s.value].value.h)
       && SameGeometry(disk.r[s.value].value.h, disk.inFile)
       && disk.r[s.value].value.h.totalRecords >= disk.inFile.totalRecords
    then disk.r[s.value].value.h else disk.inFile
  }

  /** The disk after the older version wrote the headers `hs`, in slots of its own choice, numbering
      them on from the newest full slot. */
  function OldWrites(disk: Disk, hs: seq<Header>, slots: seq<nat>): (r: Disk)
    requires |disk.d| == 2 && |disk.r| == 2 && |slots| == |hs| && forall i :: 0 <= i < |slots| ==> slots[i] < 2
    ensures |r.d| == 2 && |r.r| == 2
    decreases |hs|
  {
    if hs == [] then disk
    else
      var before := OldWrites(disk, hs[..|hs| - 1], slots[..|hs| - 1]);
      PutR(before, slots[|hs| - 1], Whole(Tsh1(SeqR(disk.r) + |hs|, hs[|hs| - 1])))
  }

  function OldClose(disk: Disk, h: Header): Disk
    requires |disk.r| == 2
  {
    disk.(inFile := h, r := [Absent, Absent])
  }

  /** The headers of one session of the older version, starting from what it opened. */
  ghost predicate OldSession(disk: Disk, hs: seq<Header>)
    requires |disk.r| == 2
  {
    forall i: nat :: i < |hs| ==> NextHeader(OldHeader(disk, hs, i), hs[i])
  }

  /** Its header after `i` writes. */
  function OldHeader(disk: Disk, hs: seq<Header>, i: nat): Header
    requires |disk.r| == 2 && i <= |hs|
  {
    if i == 0 then OldReopened(disk) else hs[i - 1]
  }

  function Last(disk: Disk, hs: seq<Header>): Header
    requires |disk.r| == 2
  {
    if hs == [] then OldReopened(disk) else hs[|hs| - 1]
  }

  /** The last header it wrote is in the newest full slot; the compact slots and the file are as they
      were. */
  lemma {:induction false} OldWritesNewest(disk: Disk, hs: seq<Header>, slots: seq<nat>)
    requires |disk.d| == 2 && |disk.r| == 2 && |slots| == |hs| && forall i :: 0 <= i < |slots| ==> slots[i] < 2
    ensures var after := OldWrites(disk, hs, slots);
            && after.d == disk.d && after.inFile == disk.inFile
            && SeqR(after.r) == SeqR(disk.r) + |hs|
            && (|hs| > 0 ==> NewestR(after.r).Some? && after.r[NewestR(after.r).value].value.h == hs[|hs| - 1])
  {
    if hs != [] {
      OldWritesNewest(disk, hs[..|hs| - 1], slots[..|hs| - 1]);
    }
  }

  lemma {:induction false} OldHeaders(disk: Disk, c: Header, hs: seq<Header>, n: nat)
    requires DiskInv(disk, c) && OldSession(disk, hs) && n <= |hs|
    ensures var h := OldHeader(disk, hs, n);
            && h.magic == DB_MAGIC && IsSane(h) && SameGeometry(h, disk.inFile)
            && h.totalRecords == OldReopened(disk).totalRecords + n >= disk.inFile.totalRecords + n
  {
    hide IsSane;
    if n > 0 {
      OldHeaders(disk, c, hs, n - 1);
      assert NextHeader(OldHeader(disk, hs, n - 1), hs[n - 1]);
    }
  }

  /** After a crash of the newer version that had mirrored, and one session of the older version:
      if the older version wrote records, the next load takes its last state; if it closed cleanly,
      likewise; if it did neither, the newer version gets its own state back. */
  lemma LoadArbitrates(disk: Disk, c: Header, hs: seq<Header>, slots: seq<nat>, closed: bool)
    requires DiskInv(disk, c) && OldSession(disk, hs)
    requires |slots| == |hs| && forall i :: 0 <= i < |slots| ==> slots[i] < 2
    requires NewestD(disk.d).Some? && disk.d[NewestD(disk.d).value].value.legacySeq != 0
    ensures var written := OldWrites(disk, hs, slots);
            var after := if closed then OldClose(written, Last(disk, hs)) else written;
            Reopened(after) == if closed || |hs| > 0 then Last(disk, hs) else c
  {
    hide IsSane;
    OldWritesNewest(disk, hs, slots);
    OldHeaders(disk, c, hs, |hs|);
    if !closed && |hs| == 0 {
      ReopenYields(disk, c);
    }
  }

  /** Without a mirror (the newer version was cut before its first mirror was complete) a clean close
      of the older version is not recognisable: its state is taken exactly when it counts more
      records than the newest compact slot, or is the same. */
  lemma UnmirroredClose(disk: Disk, c: Header, hs: seq<Header>, slots: seq<nat>)
    requires DiskInv(disk, c) && OldSession(disk, hs)
    requires |slots| == |hs| && forall i :: 0 <= i < |slots| ==> slots[i] < 2
    requires NewestD(disk.d).Some? && disk.d[NewestD(disk.d).value].value.legacySeq == 0
    requires Last(disk, hs).paramNames == c.paramNames
    ensures var h := Last(disk, hs);
            var s := disk.d[NewestD(disk.d).value].value;
            var after := OldClose(OldWrites(disk, hs, slots), h);
            Reopened(after) == h <==> h.totalRecords > s.h.totalRecords || h == s.h
  {
    hide IsSane, OldWrites, OldHeader, Last, Reopened, DiskInv, OldSession, OldReopened;
    DiskSlots(disk, c);
    OldWritesNewest(disk, hs, slots);
    LastIsHeader(disk, hs);
    OldHeaders(disk, c, hs, |hs|);
    NewestIsSane(disk, c);
    CompactAgainst(disk.d, Last(disk, hs));
  }

  lemma DiskSlots(disk: Disk, c: Header)
    requires DiskInv(disk, c)
    ensures |disk.d| == 2 && |disk.r| == 2 && SameGeometry(disk.inFile, c)
  {
  }

  lemma LastIsHeader(disk: Disk, hs: seq<Header>)
    requires |disk.r| == 2
    ensures Last(disk, hs) == OldHeader(disk, hs, |hs|)
  {
  }

  lemma NewestIsSane(disk: Disk, c: Header)
    requires DiskInv(disk, c) && NewestD(disk.d).Some?
    ensures Behind(disk.d[NewestD(disk.d).value].value.h, c)
  {
    hide IsSane, SameGeometry, Chosen, Behind;
  }

  /** An unmirrored compact slot against a header in the file, without full slots. */
  lemma CompactAgainst(d: seq<File<Tsh2>>, h: Header)
    requires |d| == 2 && NewestD(d).Some?
    requires var s := d[NewestD(d).value].value;
             && s.legacySeq == 0 && s.h.magic == DB_MAGIC && IsSane(s.h) && SameGeometry(s.h, h)
             && s.h.paramNames == h.paramNames
    ensures var s := d[NewestD(d).value].value;
            Reopened(Disk(h, d, [Absent, Absent])) == h <==> h.totalRecords > s.h.totalRecords || h == s.h
  {
    hide IsSane, SameGeometry;
    var s := d[NewestD(d).value].value.h;
    assert s.(paramNames := h.paramNames) == s;
    assert Chosen(Disk(h, d, [Absent, Absent])) == Some(s);
  }

  // How far the mirror lags

  /** Since its last mirror the handle has written less than a mirror interval of records. */
  ghost predicate MirrorFresh(m: Mem, disk: Disk) {
    && MemInv(m, disk)
    && (m.mirrored ==>
          && NewestR(disk.r).Some?
          && m.h.totalRecords - disk.r[NewestR(disk.r).value].value.h.totalRecords == m.seqNo - m.legacySeq
          && m.seqNo - m.legacySeq < MIRROR_EVERY)
  }

  lemma WriteKeepsMirrorFresh(m: Mem, disk: Disk, h: Header)
    requires MirrorFresh(m, disk) && NextHeader(m.h, h)
    ensures AfterWrite(m, h).mirrored
    ensures var images := WriteImages(m, disk, h);
            MirrorFresh(AfterWrite(m, h), images[|images| - 1])
  {
    hide IsSane, DiskInv, Chosen;
    MemSlots(m, disk);
    WriteDone(m, disk, h);
  }

  /** An older version that opens the database after any completed write misses at most 31 of its
      records. */
  lemma OldReaderLag(m: Mem, disk: Disk)
    requires MirrorFresh(m, disk) && m.mirrored
    ensures m.h.totalRecords - MIRROR_EVERY < OldReopened(disk).totalRecords <= m.h.totalRecords
  {
  }
}
