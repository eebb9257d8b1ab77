/** The open that follows a cut rewrite: recovery first settles which file stands, then the slot files,
    which a rewrite leaves alone, are weighed against the header in that file. */
module SwapOpen {
  import opened Bytes
  import opened Storage
  import opened Ring
  import opened Retained
  import P = Plan
  import R = Rewrite
  import E = Engine
  import opened Swap
  import S = Sidecar

  /** A database file: the header in it, which may lag, and its contents. */
  datatype Stored = Stored(inFile: Header, file: Bytes)

  /** The file in place and the header that an open ends up with. */
  function OpenedWith(files: Files<Stored>, d: seq<S.File<S.Tsh2>>, r: seq<S.File<S.Tsh1>>, empty: Stored): (Header,
                      Bytes)
    requires |d| == 2 && |r| == 2
  {
    var main := Opened(files, true, empty).main;
    if main.Some? && main.value.Complete?
    then (S.Reopened(S.Disk(main.value.db.inFile, d, r)), main.value.db.file)
    else (empty.inFile, empty.file)
  }

  /** Cut anywhere in a rewrite of `db`, the open presents the old database until the original is
      unlinked. From then on it finds the new file, and presents the new database exactly when the slots
      offer nothing, the new header, or a header of another geometry; a slot that still offers the old
      header of the same geometry wins, over the new file. */
  lemma CutRewrite(files: Files<Stored>, db: Db, inFile: Header, d: seq<S.File<S.Tsh2>>, r: seq<S.File<S.Tsh1>>,
                   columns: seq<Option<nat>>, names: seq<string>, p: P.Plan, next: Db, empty: Stored, i: nat)
    requires AllReadable(db) && R.Sound(db, columns, p) && R.Rewritten(db, columns, names, p, next)
    requires S.DiskInv(S.Disk(inFile, d, r), db.h)
    requires files.main == Some(Complete(Stored(inFile, db.file))) && i < 6
    ensures var (h, f) := OpenedWith(RewriteImages(files, Stored(next.h, next.file))[i], d, r, empty);
            var offered := S.Chosen(S.Disk(next.h, d, r));
            if i < 4 then h == db.h && f == db.file
            else
              && f == next.file
              && (h == next.h <==> offered.None? || offered.value == next.h || !S.SameGeometry(offered.value, next.h)
                                   || offered.value.totalRecords < next.h.totalRecords)
              && (S.Chosen(S.Disk(inFile, d, r)) == Some(db.h) ==>
                    (h == next.h <==> !S.SameGeometry(db.h, next.h) || offered == Some(next.h)))
  {
    hide S.DiskInv, IsSane, R.Rewritten, AllReadable, S.Reopened, S.Chosen, Opened, RewriteImages, R.Sound,
         S.SameGeometry;
    S.Reopening(S.Disk(inFile, d, r), db.h);
    CutAnywhere(files, Stored(inFile, db.file), Stored(next.h, next.file), empty, i);
    E.RewrittenTotal(db, columns, names, p, next);
    HeaderAfterSwap(S.Disk(inFile, d, r), db.h, next.h);
  }

  lemma HeaderAfterSwap(disk: S.Disk, c: Header, n: Header)
    requires S.DiskInv(disk, c) && n.totalRecords <= c.totalRecords
    ensures S.Reopened(disk) == c
    ensures var offered := S.Chosen(disk.(inFile := n));
            S.Reopened(disk.(inFile := n)) == n <==>
            || offered.None? || offered.value == n
            || !S.SameGeometry(offered.value, n) || offered.value.totalRecords < n.totalRecords
    ensures S.Chosen(disk) == Some(c) ==>
              (S.Reopened(disk.(inFile := n)) == n <==>
               !S.SameGeometry(c, n) || S.Chosen(disk.(inFile := n)) == Some(n))
  {
    hide S.DiskInv, IsSane, S.Reopened, S.Chosen;
    S.Reopening(disk, c);
    S.ReopenYields(disk, c);
    S.InFileChangeIff(disk, c, n);
    if S.Chosen(disk) == Some(c) {
      S.SwapChangeIff(disk, c, n);
    }
  }

  /** After a sync the slots are gone, and every cut leaves the complete old or the complete new database. */
  lemma CutSyncedRewrite(files: Files<Stored>, db: Db, columns: seq<Option<nat>>, names: seq<string>, p: P.Plan,
                         next: Db, empty: Stored, i: nat)
    requires AllReadable(db) && R.Sound(db, columns, p) && R.Rewritten(db, columns, names, p, next)
    requires db.h.magic == DB_MAGIC && IsSane(db.h)
    requires files.main == Some(Complete(Stored(db.h, db.file))) && i < 6
    ensures OpenedWith(RewriteImages(files, Stored(next.h, next.file))[i],
                       [S.Absent, S.Absent], [S.Absent, S.Absent], empty) ==
            if i < 4 then (db.h, db.file) else (next.h, next.file)
  {
    hide S.DiskInv, IsSane, R.Rewritten, AllReadable, S.Reopened;
    S.FreshStarts(db.h);
    var disk := S.Disk(db.h, [S.Absent, S.Absent], [S.Absent, S.Absent]);
    S.MemDisk(S.Open(disk), disk);
    CutRewrite(files, db, db.h, [S.Absent, S.Absent], [S.Absent, S.Absent], columns, names, p, next, empty, i);
  }
}
