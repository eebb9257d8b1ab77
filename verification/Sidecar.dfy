/** The sidecar protocol. A write persists the header in small slot files instead of the database
    file: two alternating compact slots (TSH2) on every record, two full slots (TSH1) as a periodic
    mirror. Closing folds the header back into the file and removes the slots. Every file step is a
    point where power can be cut. */
module Sidecar {
  import opened Storage

  const MIRROR_EVERY: nat := 32

  /** A slot file: missing, cut off in the middle (its CRC does not match), or complete. */
  datatype File<+T> = Absent | Torn | Whole(value: T)

  /** A TSH2 slot carries the header without the column names, and the sequence number of the last
      mirror its writer knew of. */
  datatype Tsh2 = Tsh2(seqNo: nat, legacySeq: nat, h: Header)
  datatype Tsh1 = Tsh1(seqNo: nat, h: Header)

  /** What survives a power cut: the header in the database file and the four slot files. */
  datatype Disk = Disk(inFile: Header, d: seq<File<Tsh2>>, r: seq<File<Tsh1>>)

  /** The part of the open handle that the protocol uses. */
  datatype Mem = Mem(h: Header, seqNo: nat, slot: nat, legacySlot: nat, legacySeq: nat, mirrored: bool)

  // Loading

  /** The slot with the highest sequence number; on equal numbers the first. */
  function NewestD(d: seq<File<Tsh2>>): Option<nat>
    requires |d| == 2
  {
    if d[0].Whole? && d[1].Whole? then Some(if d[1].value.seqNo > d[0].value.seqNo then 1 else 0)
    else if d[0].Whole? then Some(0) else if d[1].Whole? then Some(1) else None
  }

  function NewestR(r: seq<File<Tsh1>>): Option<nat>
    requires |r| == 2
  {
    if r[0].Whole? && r[1].Whole? then Some(if r[1].value.seqNo > r[0].value.seqNo then 1 else 0)
    else if r[0].Whole? then Some(0) else if r[1].Whole? then Some(1) else None
  }

  function SeqD(d: seq<File<Tsh2>>): nat
    requires |d| == 2
  {
    if NewestD(d).Some? then d[NewestD(d).value].value.seqNo else 0
  }

  function SeqR(r: seq<File<Tsh1>>): nat
    requires |r| == 2
  {
    if NewestR(r).Some? then r[NewestR(r).value].value.seqNo else 0
  }

  /** The compact slot is authoritative unless a full slot is newer than the mirror it knows of, or
      its mirror is gone. */
  predicate UseD(disk: Disk)
    requires |disk.d| == 2 && |disk.r| == 2
  {
    && NewestD(disk.d).Some?
    && var s := disk.d[NewestD(disk.d).value].value;
       if NewestR(disk.r).Some? then SeqR(disk.r) <= s.legacySeq else s.legacySeq == 0
  }

  /** The header the sidecars offer, if any; a compact slot takes the names from the file. */
  function Chosen(disk: Disk): Option<Header>
    requires |disk.d| == 2 && |disk.r| == 2
  {
    if UseD(disk) then Some(disk.d[NewestD(disk.d).value].value.h.(paramNames := disk.inFile.paramNames))
    else if NewestR(disk.r).Some? then Some(disk.r[NewestR(disk.r).value].value.h)
    else None
  }

  predicate SameGeometry(a: Header, b: Header) {
    a.numParams == b.numParams && a.recordsPerBlock == b.recordsPerBlock && a.indexOffset == b.indexOffset
  }

  /** The offered header is adopted. */
  predicate Adopts(disk: Disk)
    requires |disk.d| == 2 && |disk.r| == 2
  {
    var c := Chosen(disk);
    && c.Some? && c.value.magic == DB_MAGIC && IsSane(c.value) && SameGeometry(c.value, disk.inFile)
    && c.value.totalRecords >= disk.inFile.totalRecords
  }

  /** The header a reopen ends up with, given a usable header in the file. */
  function Reopened(disk: Disk): Header
    requires |disk.d| == 2 && |disk.r| == 2
  {
    if Adopts(disk) then Chosen(disk).value else disk.inFile
  }

  /** The handle after a reopen: sequence numbers continue past everything on disk, and the next
      write of each kind goes to the older slot. */
  function Open(disk: Disk): Mem
    requires |disk.d| == 2 && |disk.r| == 2
  {
    Mem(Reopened(disk),
        if SeqD(disk.d) > SeqR(disk.r) then SeqD(disk.d) else SeqR(disk.r),
        if NewestD(disk.d).Some? then NewestD(disk.d).value else 0,
        if NewestR(disk.r).Some? then NewestR(disk.r).value else 0,
        SeqR(disk.r), false)
  }

  // Writing

  predicate MirrorDue(m: Mem) {
    !m.mirrored || m.seqNo + 1 - m.legacySeq >= MIRROR_EVERY
  }

  function PutD(disk: Disk, slot: nat, f: File<Tsh2>): Disk
    requires slot < |disk.d|
  {
    disk.(d := disk.d[slot := f])
  }

  function PutR(disk: Disk, slot: nat, f: File<Tsh1>): Disk
    requires slot < |disk.r|
  {
    disk.(r := disk.r[slot := f])
  }

  /** The disk after each file step of persisting header `h`: truncate the older compact slot,
      complete it, and when a mirror is due do the same with the older full slot. */
  function WriteImages(m: Mem, disk: Disk, h: Header): (images: seq<Disk>)
    requires |disk.d| == 2 && |disk.r| == 2 && m.slot < 2 && m.legacySlot < 2
    ensures |images| == if MirrorDue(m) then 4 else 2
    ensures forall i :: 0 <= i < |images| ==> |images[i].d| == 2 && |images[i].r| == 2
  {
    var torn := PutD(disk, 1 - m.slot, Torn);
    var done := PutD(disk, 1 - m.slot, Whole(Tsh2(m.seqNo + 1, m.legacySeq, h)));
    if MirrorDue(m) then
      [torn, done, PutR(done, 1 - m.legacySlot, Torn), PutR(done, 1 - m.legacySlot, Whole(Tsh1(m.seqNo + 1, h)))]
    else [torn, done]
  }

  function AfterWrite(m: Mem, h: Header): Mem
    requires m.slot < 2 && m.legacySlot < 2
  {
    var n := m.(h := h, seqNo := m.seqNo + 1, slot := 1 - m.slot);
    if MirrorDue(m) then n.(legacySlot := 1 - m.legacySlot, legacySeq := m.seqNo + 1, mirrored := true) else n
  }

  /** The disk after each file step of a fold: the header into the file, then the compact slots and
      after them the full slots away. */
  function FoldImages(m: Mem, disk: Disk): (images: seq<Disk>)
    requires |disk.d| == 2 && |disk.r| == 2
    ensures |images| == 5
  {
    var a := disk.(inFile := m.h);
    var b := PutD(a, 0, Absent);
    var c := PutD(b, 1, Absent);
    var d := PutR(c, 0, Absent);
    [a, b, c, d, PutR(d, 1, Absent)]
  }

  function AfterFold(m: Mem): Mem {
    m.(legacySeq := 0, mirrored := false)
  }

  // The invariant

  /** A stored header describes the same database as `c`, is not ahead of it, and is `c` itself when
      it counts as many records. */
  ghost predicate Behind(h: Header, c: Header) {
    && h.magic == DB_MAGIC && IsSane(h) && SameGeometry(h, c) && h.paramNames == c.paramNames
    && h.totalRecords <= c.totalRecords
    && (h.totalRecords == c.totalRecords ==> h == c)
  }

  /** The disk holds `c`: every complete slot is behind it, and it is in the file or offered by the
      sidecars. */
  ghost predicate DiskInv(disk: Disk, c: Header) {
    && |disk.d| == 2 && |disk.r| == 2
    && Behind(disk.inFile, c) && Behind(c, c)
    && (forall i :: 0 <= i < 2 && disk.d[i].Whole? ==>
          Behind(disk.d[i].value.h, c) && 0 < disk.d[i].value.seqNo && disk.d[i].value.legacySeq <= SeqR(disk.r))
    && (forall i :: 0 <= i < 2 && disk.r[i].Whole? ==> Behind(disk.r[i].value.h, c) && 0 < disk.r[i].value.seqNo)
    && (disk.d[0].Whole? && disk.d[1].Whole? ==> disk.d[0].value.seqNo != disk.d[1].value.seqNo)
    && (disk.r[0].Whole? && disk.r[1].Whole? ==> disk.r[0].value.seqNo != disk.r[1].value.seqNo)
    && (disk.inFile == c || Chosen(disk) == Some(c))
  }

  /** The handle knows where the newest slots are and numbers past them all. */
  ghost predicate Placed(m: Mem, disk: Disk) {
    && |disk.d| == 2 && |disk.r| == 2
    && m.slot < 2 && m.legacySlot < 2
    && SeqD(disk.d) <= m.seqNo && SeqR(disk.r) <= m.seqNo
    && m.legacySeq == SeqR(disk.r)
    && (NewestD(disk.d).Some? ==> m.slot == NewestD(disk.d).value)
    && (NewestR(disk.r).Some? ==> m.legacySlot == NewestR(disk.r).value)
  }

  /** The disk holds the header of the handle, which knows where the newest slots are. */
  ghost predicate MemInv(m: Mem, disk: Disk) {
    DiskInv(disk, m.h) && Placed(m, disk)
  }

  /** Whatever the slots hold: a completed write makes them offer its header. */
  lemma WriteOffers(m: Mem, disk: Disk, h: Header)
    requires Placed(m, disk) && h.paramNames == disk.inFile.paramNames
    ensures var images := WriteImages(m, disk, h);
            var last := images[|images| - 1];
            && Chosen(last) == Some(h) && last.inFile == disk.inFile && Placed(AfterWrite(m, h), last)
  {
    var done := PutD(disk, 1 - m.slot, Whole(Tsh2(m.seqNo + 1, m.legacySeq, h)));
    assert NewestD(done.d) == Some(1 - m.slot) && SeqR(done.r) == SeqR(disk.r);
    assert h.(paramNames := disk.inFile.paramNames) == h;
    assert Chosen(done) == Some(h);
    if MirrorDue(m) {
      var mirrored := PutR(done, 1 - m.legacySlot, Whole(Tsh1(m.seqNo + 1, h)));
      assert mirrored.r[m.legacySlot] == disk.r[m.legacySlot];
      assert NewestR(mirrored.r) == Some(1 - m.legacySlot);
    }
  }

  /** A completed fold leaves no slots. */
  lemma FoldClears(m: Mem, disk: Disk)
    requires Placed(m, disk)
    ensures var last := FoldImages(m, disk)[4];
            Chosen(last).None? && last.inFile == m.h && Placed(AfterFold(m), last)
  {
  }

  /** Reopening a disk that holds `c` yields `c`, and a handle that can go on. */
  lemma ReopenYields(disk: Disk, c: Header)
    requires DiskInv(disk, c)
    ensures Reopened(disk) == c
    ensures MemInv(Open(disk), disk)
  {
  }

  /** The next header: one record more, same database. */
  ghost predicate NextHeader(h: Header, h': Header) {
    && h'.magic == DB_MAGIC && IsSane(h') && SameGeometry(h', h) && h'.paramNames == h.paramNames
    && h'.totalRecords == h.totalRecords + 1
  }

  /** Truncating the older compact slot leaves the newest one in charge. */
  lemma TruncateCompact(m: Mem, disk: Disk)
    requires MemInv(m, disk)
    ensures DiskInv(PutD(disk, 1 - m.slot, Torn), m.h)
  {
    hide IsSane, SameGeometry;
    var torn := PutD(disk, 1 - m.slot, Torn);
    assert NewestD(torn.d) == NewestD(disk.d);
    assert Chosen(torn) == Chosen(disk);
  }

  /** A completed compact slot is the newest, and knows the newest mirror. */
  lemma CompleteCompact(m: Mem, disk: Disk, h: Header)
    requires MemInv(m, disk) && NextHeader(m.h, h)
    ensures var done := PutD(disk, 1 - m.slot, Whole(Tsh2(m.seqNo + 1, m.legacySeq, h)));
            DiskInv(done, h) && UseD(done) && NewestD(done.d) == Some(1 - m.slot) && Chosen(done) == Some(h)
  {
    hide IsSane;
    var done := PutD(disk, 1 - m.slot, Whole(Tsh2(m.seqNo + 1, m.legacySeq, h)));
    assert NewestD(done.d) == Some(1 - m.slot);
    assert done.d[m.slot] == disk.d[m.slot];
  }

  /** Truncating the older full slot keeps the mirror that the compact slot knows of. */
  lemma TruncateMirror(disk: Disk, h: Header, slot: nat)
    requires DiskInv(disk, h) && UseD(disk) && Chosen(disk) == Some(h) && slot < 2
    requires NewestR(disk.r).Some? ==> slot != NewestR(disk.r).value
    ensures DiskInv(PutR(disk, slot, Torn), h)
  {
    hide IsSane, SameGeometry;
    var torn := PutR(disk, slot, Torn);
    assert NewestR(torn.r) == NewestR(disk.r);
    assert SeqR(torn.r) == SeqR(disk.r);
  }

  /** A completed full slot is newer than every mirror known before, and says the same. */
  lemma CompleteMirror(disk: Disk, h: Header, slot: nat, s: nat)
    requires DiskInv(disk, h) && slot < 2 && SeqR(disk.r) < s
    requires NewestD(disk.d).Some? && disk.d[NewestD(disk.d).value].value.legacySeq < s
    requires NewestR(disk.r).Some? ==> slot != NewestR(disk.r).value
    ensures var done := PutR(disk, slot, Whole(Tsh1(s, h)));
            DiskInv(done, h) && NewestR(done.r) == Some(slot)
  {
    hide IsSane, SameGeometry;
    var done := PutR(disk, slot, Whole(Tsh1(s, h)));
    assert done.r[1 - slot] == disk.r[1 - slot];
    assert NewestR(done.r) == Some(slot);
  }

  /** A power cut at any file step of a write leaves the header before it or the header it writes. */
  lemma WriteCut(m: Mem, disk: Disk, h: Header, i: nat)
    requires MemInv(m, disk) && NextHeader(m.h, h) && i < |WriteImages(m, disk, h)|
    ensures DiskInv(WriteImages(m, disk, h)[i], if i == 0 then m.h else h)
  {
    hide IsSane, SameGeometry, Behind, Chosen, DiskInv, UseD;
    MemSlots(m, disk);
    TruncateCompact(m, disk);
    CompleteCompact(m, disk, h);
    var done := PutD(disk, 1 - m.slot, Whole(Tsh2(m.seqNo + 1, m.legacySeq, h)));
    if i == 2 {
      TruncateMirror(done, h, 1 - m.legacySlot);
    } else if i == 3 {
      CompleteMirror(done, h, 1 - m.legacySlot, m.seqNo + 1);
    }
  }

  lemma MemSlots(m: Mem, disk: Disk)
    requires MemInv(m, disk)
    ensures |disk.d| == 2 && |disk.r| == 2 && m.slot < 2 && m.legacySlot < 2
  {
  }

  /** After the last step the handle matches the disk. */
  lemma WriteDone(m: Mem, disk: Disk, h: Header)
    requires MemInv(m, disk) && NextHeader(m.h, h)
    ensures var images := WriteImages(m, disk, h);
            MemInv(AfterWrite(m, h), images[|images| - 1])
  {
    hide IsSane, SameGeometry, Behind, Chosen, DiskInv, UseD;
    MemSlots(m, disk);
    var images := WriteImages(m, disk, h);
    WriteCut(m, disk, h, |images| - 1);
    CompleteCompact(m, disk, h);
    var done := PutD(disk, 1 - m.slot, Whole(Tsh2(m.seqNo + 1, m.legacySeq, h)));
    if MirrorDue(m) {
      CompleteMirror(done, h, 1 - m.legacySlot, m.seqNo + 1);
    }
  }

  /** A power cut at any step of a fold, also halfway through removing the slots, loses nothing. */
  lemma FoldCut(m: Mem, disk: Disk, i: nat)
    requires MemInv(m, disk) && i < 5
    ensures DiskInv(FoldImages(m, disk)[i], m.h)
  {
    hide IsSane;
  }

  lemma FoldDone(m: Mem, disk: Disk)
    requires MemInv(m, disk)
    ensures MemInv(AfterFold(m), FoldImages(m, disk)[4])
  {
    hide IsSane;
    FoldCut(m, disk, 4);
  }

  // The mirror

  /** The slot numbers of `n` writes in a row. */
  function AfterWrites(m: Mem, hs: seq<Header>): (r: Mem)
    requires m.slot < 2 && m.legacySlot < 2
    ensures r.slot < 2 && r.legacySlot < 2
  {
    if hs == [] then m else AfterWrite(AfterWrites(m, hs[..|hs| - 1]), hs[|hs| - 1])
  }

  /** From a write that mirrored on, every thirty-second write mirrors and no other does. */
  lemma {:induction false} MirrorsEvery32(m: Mem, hs: seq<Header>)
    requires m.slot < 2 && m.legacySlot < 2 && m.mirrored && m.legacySeq == m.seqNo
    ensures var r := AfterWrites(m, hs);
            && r.mirrored && r.seqNo == m.seqNo + |hs| && r.seqNo - r.legacySeq == |hs| % 32
            && (MirrorDue(r) <==> (|hs| + 1) % 32 == 0)
  {
    if hs != [] {
      MirrorsEvery32(m, hs[..|hs| - 1]);
    }
  }

  /** The first write of a handle mirrors. */
  lemma FirstWriteMirrors(disk: Disk, h: Header)
    requires |disk.d| == 2 && |disk.r| == 2
    ensures MirrorDue(Open(disk))
    ensures var m := AfterWrite(Open(disk), h); m.mirrored && m.legacySeq == m.seqNo
  {
    hide Reopened;
  }

  /** A fold removes no full slot while a compact one is there: cut in between, what older versions find
      describes the state in the file. */
  lemma CompactSlotsFirst(m: Mem, disk: Disk, i: nat)
    requires |disk.d| == 2 && |disk.r| == 2 && i < 5
    ensures var image := FoldImages(m, disk)[i];
            && image.inFile == m.h
            && (image.r != disk.r ==> image.d == [Absent, Absent])
  {
  }

  // Runs

  datatype State = State(m: Mem, disk: Disk)

  /** A write or a fold runs to its end or is cut after `steps` file steps; every cut is followed by
      a reopen. A close is a fold followed by a reopen. */
  datatype Event =
    | Write(h: Header)
    | CutWrite(h: Header, steps: nat)
    | Sync
    | Close
    | CutFold(steps: nat)
    | PowerCut

  ghost predicate Legal(s: State, e: Event)
    requires MemInv(s.m, s.disk)
  {
    match e
    case Write(h) => NextHeader(s.m.h, h)
    case CutWrite(h, steps) => NextHeader(s.m.h, h) && steps <= |WriteImages(s.m, s.disk, h)|
    case CutFold(steps) => steps <= 5
    case _ => true
  }

  /** Any next header may be written, and any write or fold cut after any number of its file steps. */
  lemma AllMayHappen(s: State, h: Header, steps: nat)
    requires MemInv(s.m, s.disk)
    requires h.magic == DB_MAGIC && IsSane(h) && h.paramNames == s.m.h.paramNames
    requires h.numParams == s.m.h.numParams && h.recordsPerBlock == s.m.h.recordsPerBlock
    requires h.indexOffset == s.m.h.indexOffset && h.totalRecords == s.m.h.totalRecords + 1
    ensures Legal(s, Write(h)) && Legal(s, Sync) && Legal(s, Close) && Legal(s, PowerCut)
    ensures steps <= |WriteImages(s.m, s.disk, h)| ==> Legal(s, CutWrite(h, steps))
    ensures steps <= 5 ==> Legal(s, CutFold(steps))
  {
    hide IsSane;
  }

  function Recovered(disk: Disk): State
    requires |disk.d| == 2 && |disk.r| == 2
  {
    State(Open(disk), disk)
  }

  function Step(s: State, e: Event): State
    requires MemInv(s.m, s.disk) && Legal(s, e)
  {
    match e
    case Write(h) =>
      var images := WriteImages(s.m, s.disk, h);
      State(AfterWrite(s.m, h), images[|images| - 1])
    case CutWrite(h, steps) =>
      Recovered(if steps == 0 then s.disk else WriteImages(s.m, s.disk, h)[steps - 1])
    case Sync => State(AfterFold(s.m), FoldImages(s.m, s.disk)[4])
    case Close => Recovered(FoldImages(s.m, s.disk)[4])
    case CutFold(steps) =>
      Recovered(if steps == 0 then s.disk else FoldImages(s.m, s.disk)[steps - 1])
    case PowerCut => Recovered(s.disk)
  }

  /** The header that must be current after an event: a completed write's; for a write cut short,
      its own once its compact slot was complete (the second step) and the one before until then;
      otherwise the one before. */
  function Expected(h: Header, e: Event): Header {
    match e
    case Write(n) => n
    case CutWrite(n, steps) => if steps >= 2 then n else h
    case _ => h
  }

  lemma StepKeeps(s: State, e: Event)
    requires MemInv(s.m, s.disk) && Legal(s, e)
    ensures MemInv(Step(s, e).m, Step(s, e).disk)
    ensures Step(s, e).m.h == Expected(s.m.h, e)
  {
    hide DiskInv, Open, WriteImages, FoldImages, NextHeader, Reopened;
    MemSlots(s.m, s.disk);
    MemDisk(s.m, s.disk);
    match e
    case Write(h) =>
      WriteDone(s.m, s.disk, h);
      AfterWriteHeader(s.m, h);
    case CutWrite(h, steps) =>
      if steps == 0 {
        Reopening(s.disk, s.m.h);
      } else {
        WriteCut(s.m, s.disk, h, steps - 1);
        Reopening(WriteImages(s.m, s.disk, h)[steps - 1], if steps == 1 then s.m.h else h);
      }
    case Sync =>
      FoldDone(s.m, s.disk);
    case Close =>
      FoldCut(s.m, s.disk, 4);
      Reopening(FoldImages(s.m, s.disk)[4], s.m.h);
    case CutFold(steps) =>
      if steps == 0 {
        Reopening(s.disk, s.m.h);
      } else {
        FoldCut(s.m, s.disk, steps - 1);
        Reopening(FoldImages(s.m, s.disk)[steps - 1], s.m.h);
      }
    case PowerCut =>
      Reopening(s.disk, s.m.h);
  }

  lemma MemDisk(m: Mem, disk: Disk)
    requires MemInv(m, disk)
    ensures DiskInv(disk, m.h)
  {
  }

  lemma AfterWriteHeader(m: Mem, h: Header)
    requires m.slot < 2 && m.legacySlot < 2
    ensures AfterWrite(m, h).h == h
  {
  }

  lemma Reopening(disk: Disk, c: Header)
    requires DiskInv(disk, c)
    ensures |disk.d| == 2 && |disk.r| == 2
    ensures MemInv(Open(disk), disk) && Open(disk).h == c
  {
    ReopenYields(disk, c);
  }

  /** `states` are the successive states of a run of `events`. */
  ghost predicate IsRun(states: seq<State>, events: seq<Event>) {
    && |states| == |events| + 1
    && forall i :: 0 <= i < |events| ==> StepAt(states[i], events[i], states[i + 1])
  }

  ghost predicate StepAt(s: State, e: Event, s': State) {
    MemInv(s.m, s.disk) ==> Legal(s, e) && s' == Step(s, e)
  }

  /** The header that a run must end with. */
  function ExpectedAfter(h: Header, events: seq<Event>, n: nat): Header
    requires n <= |events|
  {
    if n == 0 then h else Expected(ExpectedAfter(h, events, n - 1), events[n - 1])
  }

  /** In every run of writes, syncs, closes and reopens with power cuts between any two file steps,
      the current header is the one of the last write whose compact slot was completed, never an
      older one. */
  lemma {:induction false} RunRecovers(states: seq<State>, events: seq<Event>, n: nat)
    requires IsRun(states, events) && MemInv(states[0].m, states[0].disk) && n <= |events|
    ensures MemInv(states[n].m, states[n].disk)
    ensures states[n].m.h == ExpectedAfter(states[0].m.h, events, n)
    ensures Reopened(states[n].disk) == states[n].m.h
  {
    hide MemInv, Step, Legal, Expected, Reopened;
    if n > 0 {
      RunRecovers(states, events, n - 1);
      assert StepAt(states[n - 1], events[n - 1], states[n - 1 + 1]);
      StepKeeps(states[n - 1], events[n - 1]);
    }
    MemDisk(states[n].m, states[n].disk);
    ReopenYields(states[n].disk, states[n].m.h);
  }

  /** A fresh database starts such runs. */
  lemma FreshStarts(h: Header)
    requires h.magic == DB_MAGIC && IsSane(h)
    ensures var disk := Disk(h, [Absent, Absent], [Absent, Absent]);
            MemInv(Open(disk), disk) && Open(disk).h == h
  {
  }

  // The reopen bound

  /** The sanity check without its bound on the record count. */
  predicate SaneShape(h: Header) {
    IsSane(h.(totalRecords := 0))
  }

  /** The record count grows with every write, but a sidecar is adopted only while it is at most
      twice the capacity: a header that lives in the sidecars alone survives a reopen exactly until
      then. */
  lemma ReopenBound(disk: Disk, c: Header)
    requires |disk.d| == 2 && |disk.r| == 2
    requires Chosen(disk) == Some(c) && c.magic == DB_MAGIC && SaneShape(c) && SameGeometry(c, disk.inFile)
    requires disk.inFile.totalRecords < c.totalRecords
    ensures Reopened(disk) == c <==> c.maxRecords == 0 || c.totalRecords <= 2 * c.maxRecords
  {
    hide Chosen;
  }

  // Slot files that cannot be written

  /** A write of which both slot files fail: they are left cut off, and the handle moves on. */
  function AfterFailed(m: Mem, h: Header): Mem
    requires m.slot < 2 && m.legacySlot < 2
  {
    m.(h := h, seqNo := m.seqNo + 1, slot := 1 - m.slot, legacySlot := 1 - m.legacySlot)
  }

  function FailedImage(m: Mem, disk: Disk): (image: Disk)
    requires |disk.d| == 2 && |disk.r| == 2 && m.slot < 2 && m.legacySlot < 2
    ensures |image.d| == 2 && |image.r| == 2
  {
    PutR(PutD(disk, 1 - m.slot, Torn), 1 - m.legacySlot, Torn)
  }

  /** The failure itself loses nothing that was there. But the next write starts by truncating the slot
      that the failed one spared: from there on the last header persisted is found exactly when it is
      also in the file or in the newest full slot. */
  lemma FailedWriteExposes(m: Mem, disk: Disk, h: Header, next: Header)
    requires MemInv(m, disk) && NewestD(disk.d).Some?
    ensures Reopened(FailedImage(m, disk)) == m.h
    ensures Reopened(WriteImages(AfterFailed(m, h), FailedImage(m, disk), next)[0]) == m.h <==>
            || disk.inFile == m.h
            || (NewestR(disk.r).Some? && disk.r[NewestR(disk.r).value].value.h == m.h)
  {
    hide IsSane;
    var failed := FailedImage(m, disk);
    assert NewestD(failed.d) == NewestD(disk.d) && NewestR(failed.r) == NewestR(disk.r);
    assert Chosen(failed) == Chosen(disk);
    var cut := WriteImages(AfterFailed(m, h), failed, next)[0];
    assert NewestD(cut.d).None? && cut.r == failed.r;
  }

  // Changes of the header in the file alone

  /** Some operations write a changed header `n` into the file while slots of older headers are there. A
      reopen ends up with `n` exactly when the slots offer nothing, `n` itself, a header of another
      geometry, or one that counts fewer records. A compact slot takes its names from the file. */
  lemma InFileChangeIff(disk: Disk, c: Header, n: Header)
    requires DiskInv(disk, c)
    ensures var offered := Chosen(disk.(inFile := n));
            Reopened(disk.(inFile := n)) == n <==>
            || offered.None? || offered.value == n || offered.value.totalRecords < n.totalRecords
            || offered.value.numParams != n.numParams || offered.value.recordsPerBlock != n.recordsPerBlock
            || offered.value.indexOffset != n.indexOffset
  {
    hide IsSane;
    NamesAside(disk, c, n);
  }

  lemma NamesAside(disk: Disk, c: Header, n: Header)
    requires DiskInv(disk, c)
    ensures var offered := Chosen(disk.(inFile := n));
            offered.Some? ==> offered.value.magic == DB_MAGIC && IsSane(offered.value)
                              && SameGeometry(offered.value, c) && offered.value.totalRecords <= c.totalRecords
    ensures Chosen(disk.(inFile := n)).None? <==> Chosen(disk).None?
    ensures n.paramNames == c.paramNames ==> Chosen(disk.(inFile := n)) == Chosen(disk)
    ensures Chosen(disk) == Some(c) ==>
              || Chosen(disk.(inFile := n)) == Some(c)
              || Chosen(disk.(inFile := n)) == Some(c.(paramNames := n.paramNames))
  {
    SaneNames(c, n.paramNames);
    forall i | 0 <= i < 2 && disk.d[i].Whole?
      ensures IsSane(disk.d[i].value.h.(paramNames := n.paramNames))
    {
      SaneNames(disk.d[i].value.h, n.paramNames);
    }
    hide IsSane;
  }

  lemma SaneNames(h: Header, names: seq<string>)
    ensures IsSane(h.(paramNames := names)) == IsSane(h)
  {
  }

  /** A change that keeps geometry, names and record count, as the header-only resize and the changes of
      the overflow columns do: it survives exactly when the slots do not hold the current header. */
  lemma FieldChangeIff(disk: Disk, c: Header, n: Header)
    requires DiskInv(disk, c) && n != c
    requires SameGeometry(n, c) && n.paramNames == c.paramNames && n.totalRecords == c.totalRecords
    ensures Reopened(disk.(inFile := n)) == n <==> Chosen(disk) != Some(c)
    ensures Chosen(disk) == Some(c) ==> Reopened(disk.(inFile := n)) == c
  {
    hide IsSane;
    NamesAside(disk, c, n);
    if Chosen(disk).Some? && Chosen(disk).value.totalRecords == c.totalRecords {
      OfferedIsCurrent(disk, c);
    }
  }

  /** Slots that offer a header with all records offer the current one. */
  lemma OfferedIsCurrent(disk: Disk, c: Header)
    requires DiskInv(disk, c) && Chosen(disk).Some? && Chosen(disk).value.totalRecords == c.totalRecords
    ensures Chosen(disk) == Some(c)
  {
    hide IsSane, SameGeometry;
  }

  /** The header-only resize writes the header into the file before it removes the slots. */
  lemma CapacityChangeIff(disk: Disk, c: Header, newMax: nat)
    requires DiskInv(disk, c) && newMax != c.maxRecords
    ensures Reopened(disk.(inFile := c.(maxRecords := newMax))) == c.(maxRecords := newMax) <==> Chosen(disk) != Some(c)
  {
    hide IsSane, DiskInv;
    FieldChangeIff(disk, c, c.(maxRecords := newMax));
  }

  /** Adding, moving and dropping the overflow columns writes the header into the file alone. */
  lemma OverflowChangeIff(disk: Disk, c: Header, count: nat, size: nat, offset: nat, first: nat)
    requires DiskInv(disk, c)
    requires count != c.extraParamCount || offset != c.overflowOffset
    ensures var n := c.(extraParamCount := count, overflowRecordSize := size, overflowOffset := offset,
                        firstOverflowRecordIdx := first);
            Reopened(disk.(inFile := n)) == n <==> Chosen(disk) != Some(c)
  {
    hide IsSane, DiskInv;
    FieldChangeIff(disk, c, c.(extraParamCount := count, overflowRecordSize := size, overflowOffset := offset,
                               firstOverflowRecordIdx := first));
  }

  /** The swap of a rewrite puts a new file, with at most as many records, in place of the old one and
      leaves the slots. With the current header in a slot it survives exactly when the rewrite changed
      the geometry, or the slot offers the new header itself; else the old header is back, over the
      new file. */
  lemma SwapChangeIff(disk: Disk, c: Header, n: Header)
    requires DiskInv(disk, c) && n.totalRecords <= c.totalRecords && Chosen(disk) == Some(c)
    ensures Reopened(disk.(inFile := n)) == n <==>
            || c.numParams != n.numParams || c.recordsPerBlock != n.recordsPerBlock || c.indexOffset != n.indexOffset
            || Chosen(disk.(inFile := n)) == Some(n)
    ensures SameGeometry(c, n) ==> Reopened(disk.(inFile := n)).(paramNames := c.paramNames) == c
  {
    hide IsSane, DiskInv;
    InFileChangeIff(disk, c, n);
    NamesAside(disk, c, n);
  }

  /** A sync before the change removes the slots and makes every change safe. */
  lemma SyncedChange(m: Mem, disk: Disk, n: Header)
    requires MemInv(m, disk)
    ensures Reopened(FoldImages(m, disk)[4].(inFile := n)) == n
  {
  }

  /** Without one, the next completed write makes it safe: its compact slot is the newest, and the
      reopen takes it, whatever the other slots hold. */
  lemma NextWriteSettles(m: Mem, disk: Disk, n: Header, h: Header)
    requires MemInv(m, disk) && NextHeader(n, h)
    ensures Reopened(WriteImages(m, disk.(inFile := n), h)[1]) == h
  {
    hide IsSane, Behind, SameGeometry;
    var d := disk.(inFile := n);
    var done := PutD(d, 1 - m.slot, Whole(Tsh2(m.seqNo + 1, m.legacySeq, h)));
    assert NewestD(done.d) == Some(1 - m.slot);
    assert SeqR(done.r) == SeqR(disk.r);
  }
}
