/** Putting a rewritten database in place of the old one: the copy is built beside the original, made
    durable, and swapped in by an unlink and a rename. Recovery at the next open decides between the
    two files. */
module Swap {
  import opened Storage

  /** The content of a file: a complete database, or an unfinished copy, with or without a valid
      header word so far. */
  datatype Content<T> = Complete(db: T) | Partial(magic: bool)

  datatype Files<T> = Files(main: Option<Content<T>>, mig: Option<Content<T>>)

  predicate HasMagic<T>(c: Content<T>) {
    c.Complete? || c.magic
  }

  // Rewriting

  /** The files after each step of a rewrite that succeeds: clear a leftover, create the copy, write
      its header and stream its rows, make it durable, unlink the original, rename the copy. */
  function RewriteImages<T>(files: Files<T>, next: T): (images: seq<Files<T>>)
    ensures |images| == 6
  {
    [files.(mig := None),
     files.(mig := Some(Partial(false))),
     files.(mig := Some(Partial(true))),
     files.(mig := Some(Complete(next))),
     Files(None, Some(Complete(next))),
     Files(Some(Complete(next)), None)]
  }

  /** A rewrite that fails while copying removes the copy. */
  function Aborted<T>(files: Files<T>): Files<T> {
    files.(mig := None)
  }

  // Recovery

  /** What the next open does first. With the original present a copy is a leftover; without it a copy
      that carries the header word is adopted. */
  function Recover<T>(files: Files<T>, renames: bool): Files<T> {
    if files.mig.None? then files
    else if files.main.Some? then files.(mig := None)
    else if !HasMagic(files.mig.value) then files.(mig := None)
    else if renames then Files(files.mig, None)
    else files
  }

  /** And then: a missing database is created empty. */
  function Opened<T>(files: Files<T>, renames: bool, empty: T): Files<T> {
    var r := Recover(files, renames);
    if r.main.None? then r.(main := Some(Complete(empty))) else r
  }

  /** The database `db` is in place, or its complete copy waits for the rename. */
  ghost predicate Stands<T>(files: Files<T>, db: T) {
    || files.main == Some(Complete(db))
    || (files.main.None? && files.mig == Some(Complete(db)))
  }

  /** At every step of a rewrite exactly one of the two databases stands: the old one until the
      original is unlinked, the new one from then on. */
  lemma EveryStepStands<T>(files: Files<T>, prior: T, next: T, i: nat)
    requires files.main == Some(Complete(prior)) && i < 6
    ensures Stands(RewriteImages(files, next)[i], if i < 4 then prior else next)
  {
  }

  /** Opening a database that stands puts it in the main file, whole, and leaves no copy: a partial
      copy is never adopted. */
  lemma OpenAdoptsWhole<T>(files: Files<T>, db: T, empty: T)
    requires Stands(files, db)
    ensures Opened(files, true, empty) == Files(Some(Complete(db)), None)
  {
  }

  /** A power cut after any step of a rewrite, or inside the recovery itself: the next open finds the
      complete old or the complete new database. */
  lemma CutAnywhere<T>(files: Files<T>, prior: T, next: T, empty: T, i: nat)
    requires files.main == Some(Complete(prior)) && i < 6
    ensures var image := RewriteImages(files, next)[i];
            && Opened(image, true, empty) == Files(Some(Complete(if i < 4 then prior else next)), None)
            && Opened(Recover(image, true), true, empty) == Opened(image, true, empty)
    ensures Opened(Aborted(files), true, empty) == Files(Some(Complete(prior)), None)
  {
    EveryStepStands(files, prior, next, i);
    OpenAdoptsWhole(RewriteImages(files, next)[i], if i < 4 then prior else next, empty);
    OpenAdoptsWhole(Recover(RewriteImages(files, next)[i], true), if i < 4 then prior else next, empty);
  }

  // Runs

  /** Rewrites that complete, abort or are cut after some steps, each followed by an open. */
  datatype Event<T> = Rewritten(next: T) | Abort | Cut(next: T, steps: nat)

  function After<T>(files: Files<T>, e: Event<T>, empty: T): Files<T> {
    match e
    case Rewritten(n) => RewriteImages(files, n)[5]
    case Abort => Aborted(files)
    case Cut(n, steps) => Opened(if 0 < steps <= 6 then RewriteImages(files, n)[steps - 1] else files, true, empty)
  }

  function AfterAll<T>(files: Files<T>, events: seq<Event<T>>, empty: T): Files<T> {
    if events == [] then files
    else After(AfterAll(files, events[..|events| - 1], empty), events[|events| - 1], empty)
  }

  /** The database that must be current: the new one once the original is unlinked (the fifth step). */
  function Current<T>(db: T, events: seq<Event<T>>): T {
    if events == [] then db
    else
      match events[|events| - 1]
      case Rewritten(n) => n
      case Abort => Current(db, events[..|events| - 1])
      case Cut(n, steps) => if 5 <= steps <= 6 then n else Current(db, events[..|events| - 1])
  }

  /** After any such run the main file is complete and is the current database. */
  lemma {:induction false} RunStands<T>(files: Files<T>, db: T, events: seq<Event<T>>, empty: T)
    requires files.main == Some(Complete(db))
    ensures AfterAll(files, events, empty).main == Some(Complete(Current(db, events)))
  {
    if events != [] {
      var init, e := events[..|events| - 1], events[|events| - 1];
      RunStands(files, db, init, empty);
      var before := AfterAll(files, init, empty);
      if e.Cut? {
        if 0 < e.steps <= 6 {
          EveryStepStands(before, Current(db, init), e.next, e.steps - 1);
          OpenAdoptsWhole(RewriteImages(before, e.next)[e.steps - 1],
                          if e.steps - 1 < 4 then Current(db, init) else e.next, empty);
        } else {
          OpenAdoptsWhole(before, Current(db, init), empty);
        }
      }
    }
  }

  /** If the rename of the recovery fails, the open goes on and creates an empty database, and the
      recovery after that removes the copy. So the database survives two opens exactly when the
      original is still there or the rename succeeds. */
  lemma FailedRename<T(!new)>(files: Files<T>, db: T, empty: T, renames: bool)
    requires Stands(files, db) && db != empty
    ensures Opened(Opened(files, renames, empty), true, empty).main == Some(Complete(db)) <==>
            files.main.Some? || renames
  {
  }

  // The engine's file steps

  class Engine<T> {
    var files: Files<T>
    ghost var trace: seq<Files<T>>

    constructor (files: Files<T>)
      ensures this.files == files && trace == []
    {
      this.files, trace := files, [];
    }

    /** Builds the copy and swaps it in; `fails` says that the copy could not be written, `renames` that
        it could be renamed. Every intermediate state leaves one complete database standing; without
        the rename the copy waits for the recovery of the next open. */
    method RewriteAndSwap(next: T, fails: bool, renames: bool, ghost prior: T) returns (ok: bool)
      requires files.main == Some(Complete(prior))
      modifies this
      ensures ok == (!fails && renames)
      ensures files == if fails then Files(Some(Complete(prior)), None)
                       else if renames then Files(Some(Complete(next)), None)
                       else Files(None, Some(Complete(next)))
      ensures ok ==> trace == old(trace) + RewriteImages(old(files), next)
      ensures forall i :: |old(trace)| <= i < |trace| ==> Stands(trace[i], prior) || Stands(trace[i], next)
    {
      files := files.(mig := None);
      trace := trace + [files];
      files := files.(mig := Some(Partial(false)));
      trace := trace + [files];
      files := files.(mig := Some(Partial(true)));
      trace := trace + [files];
      if fails {
        files := files.(mig := None);
        trace := trace + [files];
        return false;
      }
      files := files.(mig := Some(Complete(next)));
      trace := trace + [files];
      files := files.(main := None);
      trace := trace + [files];
      if !renames {
        return false;
      }
      files := Files(files.mig, None);
      trace := trace + [files];
      ok := true;
    }
  }
}
