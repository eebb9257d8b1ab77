/** The sidecar protocol as the code runs it: slot files and handle fields are updated one step at
    a time. The ghost trace records the disk after every file step, that is, every state a power
    cut can leave. */
module SidecarHandle {
  import opened Storage
  import opened Sidecar

  class Handle {
    var disk: Disk
    var h: Header
    var seqNo: nat
    var slot: nat
    var legacySlot: nat
    var legacySeq: nat
    var mirrored: bool
    ghost var trace: seq<Disk>

    ghost predicate Valid()
      reads this
    {
      |disk.d| == 2 && |disk.r| == 2 && slot < 2 && legacySlot < 2
    }

    ghost function State(): Mem
      reads this
    {
      Mem(h, seqNo, slot, legacySlot, legacySeq, mirrored)
    }

    /** Reads all slots, positions the handle behind them and adopts the header that wins. */
    constructor (disk: Disk)
      requires |disk.d| == 2 && |disk.r| == 2
      ensures Valid() && this.disk == disk && State() == Open(disk) && trace == []
    {
      this.disk, trace := disk, [];
      var foundR, seqR, slotR, hdrR := false, 0, 0, disk.inFile;
      for i := 0 to 2
        invariant i == 0 ==> !foundR && seqR == 0 && slotR == 0
        invariant i == 1 ==> foundR == disk.r[0].Whole? && slotR == 0
                             && seqR == (if foundR then disk.r[0].value.seqNo else 0)
                             && (foundR ==> hdrR == disk.r[0].value.h)
        invariant i == 2 ==> foundR == NewestR(disk.r).Some? && seqR == SeqR(disk.r)
                             && slotR == (if foundR then NewestR(disk.r).value else 0)
                             && (foundR ==> hdrR == disk.r[slotR].value.h)
      {
        var f := disk.r[i];
        if f.Whole? && (!foundR || f.value.seqNo > seqR) {
          foundR, seqR, slotR, hdrR := true, f.value.seqNo, i, f.value.h;
        }
      }
      var foundD, seqD, slotD, legacySeqD, hdrD := false, 0, 0, 0, disk.inFile;
      for i := 0 to 2
        invariant i == 0 ==> !foundD && seqD == 0 && slotD == 0
        invariant i == 1 ==> foundD == disk.d[0].Whole? && slotD == 0
                             && seqD == (if foundD then disk.d[0].value.seqNo else 0)
                             && (foundD ==> hdrD == disk.d[0].value.h && legacySeqD == disk.d[0].value.legacySeq)
        invariant i == 2 ==> foundD == NewestD(disk.d).Some? && seqD == SeqD(disk.d)
                             && slotD == (if foundD then NewestD(disk.d).value else 0)
                             && (foundD ==> hdrD == disk.d[slotD].value.h
                                            && legacySeqD == disk.d[slotD].value.legacySeq)
      {
        var f := disk.d[i];
        if f.Whole? && (!foundD || f.value.seqNo > seqD) {
          foundD, seqD, slotD, legacySeqD, hdrD := true, f.value.seqNo, i, f.value.legacySeq, f.value.h;
        }
      }
      seqNo := if seqD > seqR then seqD else seqR;
      legacySeq, legacySlot, slot, mirrored := seqR, slotR, slotD, false;
      var useD := foundD && if foundR then seqR <= legacySeqD else legacySeqD == 0;
      var offered := if useD then Some(hdrD.(paramNames := disk.inFile.paramNames))
                     else if foundR then Some(hdrR) else None;
      assert offered == Chosen(disk);
      h := if offered.Some? && offered.value.magic == DB_MAGIC && IsSane(offered.value)
              && SameGeometry(offered.value, disk.inFile)
              && offered.value.totalRecords >= disk.inFile.totalRecords
           then offered.value else disk.inFile;
    }

    /** Opening a small file for writing truncates it; closing it completes it. */
    method WriteCompact(i: nat, s: Tsh2)
      requires Valid() && i < 2
      modifies this`disk, this`trace
      ensures Valid()
      ensures disk == PutD(old(disk), i, Whole(s))
      ensures trace == old(trace) + [PutD(old(disk), i, Torn), disk]
    {
      disk := PutD(disk, i, Torn);
      trace := trace + [disk];
      disk := PutD(disk, i, Whole(s));
      trace := trace + [disk];
      assert disk.d == old(disk).d[i := Whole(s)];
    }

    method WriteFull(i: nat, s: Tsh1)
      requires Valid() && i < 2
      modifies this`disk, this`trace
      ensures Valid()
      ensures disk == PutR(old(disk), i, Whole(s))
      ensures trace == old(trace) + [PutR(old(disk), i, Torn), disk]
    {
      disk := PutR(disk, i, Torn);
      trace := trace + [disk];
      disk := PutR(disk, i, Whole(s));
      trace := trace + [disk];
      assert disk.r == old(disk).r[i := Whole(s)];
    }

    /** Persists the current header in the sidecars. Cut anywhere, the disk still holds the header of
        the record before or of this record. */
    method Persist(ghost before: Mem)
      requires Valid() && before == State().(h := before.h)
      requires MemInv(before, disk) && NextHeader(before.h, h)
      modifies this
      ensures Valid() && State() == AfterWrite(before, old(h)) && MemInv(State(), disk)
      ensures trace == old(trace) + WriteImages(before, old(disk), h)
      ensures forall i :: |old(trace)| <= i < |trace| ==>
                DiskInv(trace[i], before.h) || DiskInv(trace[i], h)
    {
      hide IsSane, SameGeometry, Behind, DiskInv;
      ghost var images := WriteImages(before, disk, h);
      WriteDone(before, disk, h);
      forall i | 0 <= i < |images|
        ensures DiskInv(images[i], before.h) || DiskInv(images[i], h)
      {
        WriteCut(before, disk, h, i);
      }
      seqNo := seqNo + 1;
      var s := Tsh2(seqNo, legacySeq, h);
      slot := 1 - slot;
      WriteCompact(slot, s);
      if !mirrored || seqNo - legacySeq >= MIRROR_EVERY {
        legacySlot := 1 - legacySlot;
        WriteFull(legacySlot, Tsh1(seqNo, h));
        legacySeq, mirrored := seqNo, true;
      }
      assert trace == old(trace) + images;
    }

    /** Writes the header into the file and removes the slots, compact ones first. If the write or its
        sync fails the slots are kept, whether or not the header reached the file (`lands`). */
    method Fold(fails: bool, lands: bool) returns (ok: bool)
      requires Valid() && MemInv(State(), disk)
      modifies this
      ensures ok == !fails
      ensures Valid() && State() == (if ok then AfterFold(old(State())) else old(State())) && MemInv(State(), disk)
      ensures ok ==> trace == old(trace) + FoldImages(old(State()), old(disk))
      ensures !ok ==> disk.d == old(disk.d) && disk.r == old(disk.r)
      ensures forall i :: |old(trace)| <= i < |trace| ==> DiskInv(trace[i], h)
    {
      hide IsSane, SameGeometry, Behind, DiskInv;
      ghost var images := FoldImages(State(), disk);
      FoldDone(State(), disk);
      FoldStarted(State(), disk);
      forall i | 0 <= i < |images|
        ensures DiskInv(images[i], h)
      {
        FoldCut(State(), disk, i);
      }
      if fails {
        if lands {
          disk := disk.(inFile := h);
          trace := trace + [disk];
        }
        return false;
      }
      ok := true;
      disk := disk.(inFile := h);
      trace := trace + [disk];
      RemoveSlots(images);
      mirrored, legacySeq := false, 0;
    }

    /** Removes the slot files one by one. */
    method RemoveSlots(ghost images: seq<Disk>)
      requires Valid() && |images| == 5 && disk == images[0]
      requires images[1] == PutD(disk, 0, Absent) && images[2] == PutD(images[1], 1, Absent)
      requires images[3] == PutR(images[2], 0, Absent) && images[4] == PutR(images[3], 1, Absent)
      modifies this`disk, this`trace
      ensures Valid() && disk == images[4] && trace == old(trace) + images[1..]
    {
      for i := 0 to 2
        invariant Valid() && disk == images[i] && trace == old(trace) + images[1..i + 1]
      {
        disk := PutD(disk, i, Absent);
        trace := trace + [disk];
      }
      for i := 0 to 2
        invariant Valid() && disk == images[i + 2] && trace == old(trace) + images[1..i + 3]
      {
        disk := PutR(disk, i, Absent);
        trace := trace + [disk];
      }
    }
  }

  /** With the header in the file and the slots still there the handle can go on. */
  lemma FoldStarted(m: Mem, disk: Disk)
    requires MemInv(m, disk)
    ensures MemInv(m, FoldImages(m, disk)[0])
  {
    hide IsSane;
    FoldCut(m, disk, 0);
  }
}
