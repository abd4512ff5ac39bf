/** What the driver of `src/utils/keyboard.ts` guarantees, stated on the
    functions that give the new state of the store. */
module PatcherProperties {
  import opened Results
  import opened Text
  import opened Scanner
  import opened Synthesizer
  import opened Paths
  import opened Patcher

  /** A missing file and an already patched file leave the disk as it
      was and report no backup. */
  lemma PatchEarlyExits(d: Disk, path: string, iso: string, now: int, faults: DiskFaults)
    ensures path !in d.files ==>
      PatchStep(d, path, iso, now, faults) == PatchOutcome(d, PatchResult(false, FileMissing(path), Option.None))
    ensures path in d.files && Contains(d.files[path], Marker) ==>
      PatchStep(d, path, iso, now, faults) == PatchOutcome(d, PatchResult(false, AlreadyPatched, Option.None))
  {
  }

  /** Original or fully patched: when the rollback's copy works, a patch
      either succeeds, leaving the patched file and a backup of the
      original, or fails and leaves every file as it was, with the backup
      deleted unless the delete failed. */
  lemma {:induction false} PatchAllOrNothing(d: Disk, path: string, iso: string, now: int, faults: DiskFaults)
    requires path in d.files && !Contains(d.files[path], Marker) && !faults.restoreFails
    ensures
      var o, b, orig := PatchStep(d, path, iso, now, faults), BackupPath(path, iso), d.files[path];
      if o.result.success then
        && o.result.backupPath == Option.Some(b)
        && path in o.disk.files && Contains(o.disk.files[path], Marker)
        && o.disk.files == d.files[b := orig][path := o.disk.files[path]]
      else
        && o.result.message.Failed? && o.result.backupPath.None?
        && o.disk.files == if faults.unlinkFails then d.files[b := orig] else d.files - {b}
  {
    var b, orig := BackupPath(path, iso), d.files[path];
    AttemptAllOrNothing(Put(d, b, orig, now), path, b, now, faults, PatchedContent(orig), d.files, orig);
  }

  /** The try block on any splice, from a disk whose backup holds the
      original. */
  lemma AttemptAllOrNothing(d1: Disk, path: string, b: string, now: int, faults: DiskFaults,
                            pc: Result<string, PatchError>, files: map<string, string>, orig: string)
    requires path in files && files[path] == orig && b != path && !faults.restoreFails
    requires d1.files == files[b := orig]
    ensures
      var o := Attempt(d1, path, b, now, faults, pc);
      if o.result.success then
        && o.result.backupPath == Option.Some(b)
        && path in o.disk.files && Contains(o.disk.files[path], Marker)
        && o.disk.files == files[b := orig][path := o.disk.files[path]]
      else
        && o.result.message.Failed? && o.result.backupPath.None?
        && o.disk.files == if faults.unlinkFails then files[b := orig] else files - {b}
  {
    OverwriteRestored(files, path, b, orig, orig);
    match pc
    case Err(e) =>
      RollbackRestores(d1, path, b, now, faults, e, files, orig);
    case Ok(p) =>
      var x := if faults.write.Written? then p else faults.write.residue;
      var dx := Put(d1, path, x, now);
      OverwriteRestored(files, path, b, orig, x);
      var e := if faults.write.Throws? then WriteFailed else if faults.rereadFails then ReadFailed else VerifyFailed;
      RollbackRestores(dx, path, b, now, faults, e, files, orig);
  }

  lemma OverwriteRestored(files: map<string, string>, path: string, b: string, orig: string, x: string)
    requires path in files && files[path] == orig
    ensures files[b := orig][path := x][path := orig] == files[b := orig]
  {
  }

  /** A rollback whose copy works puts the backup's original text back. */
  lemma RollbackRestores(dx: Disk, path: string, b: string, now: int, faults: DiskFaults, e: PatchError,
                         files: map<string, string>, orig: string)
    requires b != path && b in dx.files && dx.files[b] == orig && !faults.restoreFails
    requires dx.files[path := orig] == files[b := orig]
    ensures Rollback(dx, path, b, now, faults, e).result == PatchResult(false, Failed(e), Option.None)
    ensures Rollback(dx, path, b, now, faults, e).disk.files ==
      if faults.unlinkFails then files[b := orig] else files - {b}
  {
    assert files[b := orig] - {b} == files - {b};
  }

  /** With the write done as asked and read back, a patch that can be
      computed succeeds, reports the backup, and the file holds exactly the
      splice. */
  lemma PatchWritten(d: Disk, path: string, iso: string, now: int, faults: DiskFaults)
    requires path in d.files && !Contains(d.files[path], Marker)
    requires PatchedContent(d.files[path]).Ok? && faults.write.Written? && !faults.rereadFails
    ensures
      var o, b, orig := PatchStep(d, path, iso, now, faults), BackupPath(path, iso), d.files[path];
      && o.result == PatchResult(true, PatchApplied, Option.Some(b))
      && o.disk.files == d.files[b := orig][path := PatchedContent(orig).value]
  {
    var b, orig := BackupPath(path, iso), d.files[path];
    PatchIsAttempt(d, path, iso, now, faults);
    AttemptOutcomes(Put(d, b, orig, now), path, b, now, faults, PatchedContent(orig), orig);
  }

  /** An error computing the splice is the reported failure. */
  lemma PatchErrorReported(d: Disk, path: string, iso: string, now: int, faults: DiskFaults)
    requires path in d.files && !Contains(d.files[path], Marker)
    requires PatchedContent(d.files[path]).Err?
    ensures PatchStep(d, path, iso, now, faults).result ==
      PatchResult(false, Failed(PatchedContent(d.files[path]).error), Option.None)
  {
    var b, orig := BackupPath(path, iso), d.files[path];
    PatchIsAttempt(d, path, iso, now, faults);
    AttemptOutcomes(Put(d, b, orig, now), path, b, now, faults, PatchedContent(orig), orig);
  }

  /** With a splice that can be computed, a throwing write is reported as
      a failed write, a throwing re-read as a failed read, and a re-read
      text without the marker as a failed verification; a garbled text
      that happens to hold the marker passes the verification. */
  lemma PatchFaultsReported(d: Disk, path: string, iso: string, now: int, faults: DiskFaults)
    requires path in d.files && !Contains(d.files[path], Marker)
    requires PatchedContent(d.files[path]).Ok?
    ensures
      var r := PatchStep(d, path, iso, now, faults).result;
      && (faults.write.Throws? ==> r == PatchResult(false, Failed(WriteFailed), Option.None))
      && (!faults.write.Throws? && faults.rereadFails ==> r == PatchResult(false, Failed(ReadFailed), Option.None))
      && (faults.write.Garbled? && !faults.rereadFails ==>
            (r.success <==> Contains(faults.write.residue, Marker))
            && (!r.success ==> r == PatchResult(false, Failed(VerifyFailed), Option.None)))
  {
    var b, orig := BackupPath(path, iso), d.files[path];
    PatchIsAttempt(d, path, iso, now, faults);
    AttemptFaults(Put(d, b, orig, now), path, b, now, faults, PatchedContent(orig).value);
  }

  /** The try block's outcome for each fault of the write and the re-read. */
  lemma AttemptFaults(d1: Disk, path: string, b: string, now: int, faults: DiskFaults, p: string)
    requires b in d1.files && b != path
    ensures
      var r := Attempt(d1, path, b, now, faults, Ok(p)).result;
      && (faults.write.Throws? ==> r == PatchResult(false, Failed(WriteFailed), Option.None))
      && (!faults.write.Throws? && faults.rereadFails ==> r == PatchResult(false, Failed(ReadFailed), Option.None))
      && (faults.write.Garbled? && !faults.rereadFails ==>
            (r.success <==> Contains(faults.write.residue, Marker))
            && (!r.success ==> r == PatchResult(false, Failed(VerifyFailed), Option.None)))
  {
  }

  /** When the rollback's copy fails, the backup still holds the original. */
  lemma PatchBackupKept(d: Disk, path: string, iso: string, now: int, faults: DiskFaults)
    requires path in d.files && !Contains(d.files[path], Marker)
    requires !PatchStep(d, path, iso, now, faults).result.success && faults.restoreFails
    ensures
      var o, b := PatchStep(d, path, iso, now, faults), BackupPath(path, iso);
      b in o.disk.files && o.disk.files[b] == d.files[path]
  {
    var b, orig := BackupPath(path, iso), d.files[path];
    PatchIsAttempt(d, path, iso, now, faults);
    AttemptOutcomes(Put(d, b, orig, now), path, b, now, faults, PatchedContent(orig), orig);
  }

  /** Past the early exits, a patch is the attempt on the disk with the
      backup in place. */
  lemma PatchIsAttempt(d: Disk, path: string, iso: string, now: int, faults: DiskFaults)
    requires path in d.files && !Contains(d.files[path], Marker)
    ensures
      var b, orig := BackupPath(path, iso), d.files[path];
      && b != path
      && PatchStep(d, path, iso, now, faults) == Attempt(Put(d, b, orig, now), path, b, now, faults, PatchedContent(orig))
      && (PatchedContent(orig).Ok? ==> Contains(PatchedContent(orig).value, Marker))
  {
  }

  lemma AttemptOutcomes(d1: Disk, path: string, b: string, now: int, faults: DiskFaults,
                        pc: Result<string, PatchError>, orig: string)
    requires b in d1.files && d1.files[b] == orig && b != path
    requires pc.Ok? ==> Contains(pc.value, Marker)
    ensures
      var o := Attempt(d1, path, b, now, faults, pc);
      && (pc.Ok? && faults.write.Written? && !faults.rereadFails ==>
            o.result == PatchResult(true, PatchApplied, Option.Some(b))
            && o.disk.files == d1.files[path := pc.value])
      && (pc.Err? ==> o.result == PatchResult(false, Failed(pc.error), Option.None))
      && (!o.result.success && faults.restoreFails ==> b in o.disk.files && o.disk.files[b] == orig)
  {
  }

  /** Patching is idempotent: once a patch succeeded, patching again
      changes nothing and reports that the file is already patched. */
  lemma PatchIdempotent(d: Disk, path: string, iso: string, now: int, faults: DiskFaults,
                        iso': string, now': int, faults': DiskFaults)
    requires PatchStep(d, path, iso, now, faults).result.success
    ensures
      var o := PatchStep(d, path, iso, now, faults);
      PatchStep(o.disk, path, iso', now', faults') == PatchOutcome(o.disk, PatchResult(false, AlreadyPatched, Option.None))
  {
    var o := PatchStep(d, path, iso, now, faults);
    SuccessMarked(d, path, iso, now, faults);
  }

  /** A successful patch leaves the file with the marker. */
  lemma SuccessMarked(d: Disk, path: string, iso: string, now: int, faults: DiskFaults)
    requires PatchStep(d, path, iso, now, faults).result.success
    ensures path in d.files && !Contains(d.files[path], Marker)
    ensures
      var o := PatchStep(d, path, iso, now, faults);
      path in o.disk.files && Contains(o.disk.files[path], Marker)
  {
    var b, orig := BackupPath(path, iso), d.files[path];
    AttemptMarked(Put(d, b, orig, now), path, b, now, faults, PatchedContent(orig));
  }

  lemma AttemptMarked(d1: Disk, path: string, b: string, now: int, faults: DiskFaults, pc: Result<string, PatchError>)
    requires b in d1.files && b != path
    requires Attempt(d1, path, b, now, faults, pc).result.success
    ensures
      var o := Attempt(d1, path, b, now, faults, pc);
      path in o.disk.files && Contains(o.disk.files[path], Marker) && o.disk.files[b] == d1.files[b]
      && o.disk.mtime == d1.mtime[path := now]
  {
  }

  /** After a successful patch the status reports a patched file without
      the bug; a patched file never reports the bug. */
  lemma StatusAfterPatch(d: Disk, path: string, iso: string, now: int, faults: DiskFaults)
    requires PatchStep(d, path, iso, now, faults).result.success
    ensures StatusOf(PatchStep(d, path, iso, now, faults).disk, Option.Some(path)) ==
      KeyboardStatus(true, Option.Some(path), true, false)
  {
    SuccessMarked(d, path, iso, now, faults);
  }

  /** `restoreCliJs` reports false, and changes nothing, exactly when no
      listed name starts with the backup prefix. */
  lemma RestoreWithoutBackups(d: Disk, path: string, entries: seq<string>, now: int)
    requires Consistent(d)
    ensures (forall e | e in entries :: !StartsWith(e, BackupPrefix(path))) <==>
      RestoreStep(d, path, entries, now) == RestoreOutcome(d, Ok(false))
  {
    NoBackupsListed(path, entries);
    assert BackupsOf(path, entries) != [] ==> RestoreStep(d, path, entries, now).result != Ok(false);
  }

  lemma NoBackupsListed(path: string, entries: seq<string>)
    ensures (forall e | e in entries :: !StartsWith(e, BackupPrefix(path))) <==> BackupsOf(path, entries) == []
  {
    var bs := BackupsOf(path, entries);
    if bs != [] {
      var x := bs[0];
      assert x in bs;
      var e :| e in entries && StartsWith(e, BackupPrefix(path)) && x == Join(Dirname(path), e);
    }
    if exists e | e in entries :: StartsWith(e, BackupPrefix(path)) {
      var e :| e in entries && StartsWith(e, BackupPrefix(path));
      assert Join(Dirname(path), e) in bs;
    }
  }

  /** The restore copied the listed backup `k`, and no listed backup is
      newer. */
  ghost predicate CopiedNewest(d: Disk, path: string, entries: seq<string>, now: int, k: nat)
    requires Consistent(d)
  {
    var bs := BackupsOf(path, entries);
    && k < |bs| && bs[k] in d.files
    && RestoreStep(d, path, entries, now).disk == Put(d, path, d.files[bs[k]], now)
    && forall i | 0 <= i < |bs| :: bs[i] in d.mtime && d.mtime[bs[i]] <= d.mtime[bs[k]]
  }

  /** Otherwise a restore copies a listed backup with the greatest
      modification time over the file. */
  lemma RestoreNewest(d: Disk, path: string, entries: seq<string>, now: int)
    requires Consistent(d)
    requires RestoreStep(d, path, entries, now).result == Ok(true)
    ensures exists k: nat :: CopiedNewest(d, path, entries, now, k)
  {
    var bs := BackupsOf(path, entries);
    assert bs != [];
    assert forall i | 0 <= i < |bs| :: bs[i] in d.files;
    var k := NewestIndex(bs, d.mtime);
    assert CopiedNewest(d, path, entries, now, k);
  }

  /** `entries` is what `readdir(dir)` returns on the disk `d`: the
      names without slashes whose join to `dir` is a file. */
  ghost predicate ListsDir(d: Disk, dir: string, entries: seq<string>)
  {
    forall e :: e in entries <==> '/' !in e && Join(dir, e) in d.files
  }

  /** Restore undoes a patch: right after a successful patch that is newer
      than everything on the disk, restoring from a listing of the file's
      directory brings back the original text. */
  lemma PatchThenRestore(d: Disk, path: string, iso: string, now: int, faults: DiskFaults,
                         entries: seq<string>, later: int)
    requires Consistent(d) && PatchStep(d, path, iso, now, faults).result.success
    requires StartsWith(path, "/") && !StartsWith(path, "//")
    requires forall i | 0 <= i < |iso| :: iso[i] != '/'
    requires forall q | q in d.mtime :: d.mtime[q] < now
    requires ListsDir(PatchStep(d, path, iso, now, faults).disk, Dirname(path), entries)
    ensures
      var o := PatchStep(d, path, iso, now, faults);
      RestoreStep(o.disk, path, entries, later) == RestoreOutcome(Put(o.disk, path, d.files[path], later), Ok(true))
  {
    var o := PatchStep(d, path, iso, now, faults);
    var b := BackupPath(path, iso);
    assert o.disk.files[b] == d.files[path] && o.disk.mtime == d.mtime[b := now][path := now] by {
      SuccessMarked(d, path, iso, now, faults);
      AttemptMarked(Put(d, b, d.files[path], now), path, b, now, faults, PatchedContent(d.files[path]));
    }
    BackupNameIn(path, iso);
    assert Basename(b) in entries;
    NewBackupListed(path, iso, entries);
    ListedBackupsAreOthers(path, entries);
    NewestAfterPatch(d.mtime, o.disk, path, b, now, entries);
    RestorePicksNewest(o.disk, path, entries, later, b);
  }

  lemma NewestAfterPatch(m0: map<string, int>, d: Disk, path: string, b: string, now: int, entries: seq<string>)
    requires Consistent(d) && d.mtime == m0[b := now][path := now]
    requires forall q | q in m0 :: m0[q] < now
    requires path !in BackupsOf(path, entries)
    requires forall e | e in entries :: Join(Dirname(path), e) in d.files
    ensures forall x | x in BackupsOf(path, entries) ::
      x in d.files && x in d.mtime && b in d.mtime && (x != b ==> d.mtime[x] < d.mtime[b])
  {
    forall x | x in BackupsOf(path, entries)
      ensures x in d.files && x in d.mtime && b in d.mtime && (x != b ==> d.mtime[x] < d.mtime[b])
    {
      ListedExists(path, entries, d.files, x);
    }
  }

  /** The backup a patch makes is among the backups a listing of its
      directory yields. */
  lemma NewBackupListed(path: string, iso: string, entries: seq<string>)
    requires StartsWith(path, "/") && !StartsWith(path, "//")
    requires forall i | 0 <= i < |iso| :: iso[i] != '/'
    requires Basename(BackupPath(path, iso)) in entries
    ensures BackupPath(path, iso) in BackupsOf(path, entries)
  {
    BackupNameIn(path, iso);
    ListedIn(path, entries, Basename(BackupPath(path, iso)));
  }

  /** The name of a backup is a slash-free name in the file's directory
      with the backup prefix. */
  lemma BackupNameIn(path: string, iso: string)
    requires StartsWith(path, "/") && !StartsWith(path, "//")
    requires forall i | 0 <= i < |iso| :: iso[i] != '/'
    ensures
      var e := Basename(BackupPath(path, iso));
      '/' !in e && StartsWith(e, BackupPrefix(path)) && Join(Dirname(path), e) == BackupPath(path, iso)
  {
    var s := ".backup-" + Stamp(iso);
    var b := BackupPath(path, iso);
    assert b == path + s;
    SuffixNoSlash(iso);
    ExtendName(path, s);
    var e := Basename(path) + s;
    assert e == Basename(b) && Join(Dirname(path), e) == b;
    BackupNamePrefixed(Basename(path), s);
  }

  lemma ListedIn(path: string, entries: seq<string>, e: string)
    requires e in entries && StartsWith(e, BackupPrefix(path))
    ensures Join(Dirname(path), e) in BackupsOf(path, entries)
  {
  }

  lemma BackupNamePrefixed(base: string, s: string)
    requires StartsWith(s, ".backup-")
    ensures StartsWith(base + s, base + ".backup-")
  {
    assert (base + s)[..|base| + 8] == base + s[..8];
  }

  /** The suffix a backup name adds holds no slash. */
  lemma SuffixNoSlash(iso: string)
    requires forall i | 0 <= i < |iso| :: iso[i] != '/'
    ensures '/' !in ".backup-" + Stamp(iso) && StartsWith(".backup-" + Stamp(iso), ".backup-")
  {
    var st := Stamp(iso);
    var s := ".backup-" + st;
    forall i | 0 <= i < |s| ensures s[i] != '/' {
      if i >= 8 { assert s[i] == st[i - 8]; }
    }
    assert s[..8] == ".backup-";
  }

  /** A listing of names without slashes never yields the file itself. */
  lemma ListedBackupsAreOthers(path: string, entries: seq<string>)
    requires StartsWith(path, "/") && !StartsWith(path, "//")
    requires forall e | e in entries :: '/' !in e
    ensures path !in BackupsOf(path, entries)
  {
    forall e | e in entries && StartsWith(e, BackupPrefix(path))
      ensures Join(Dirname(path), e) != path
    {
      ListedBackupIsNotFile(path, e);
    }
  }

  lemma ListedExists(path: string, entries: seq<string>, files: map<string, string>, x: string)
    requires forall e | e in entries :: Join(Dirname(path), e) in files
    requires x in BackupsOf(path, entries)
    ensures x in files
  {
  }

  /** A listed backup strictly newer than every other listed backup is the
      one a restore copies. */
  lemma RestorePicksNewest(d: Disk, path: string, entries: seq<string>, now: int, b: string)
    requires Consistent(d)
    requires b in BackupsOf(path, entries)
    requires forall x | x in BackupsOf(path, entries) ::
      x in d.files && x in d.mtime && b in d.mtime && (x != b ==> d.mtime[x] < d.mtime[b])
    ensures RestoreStep(d, path, entries, now) == RestoreOutcome(Put(d, path, d.files[b], now), Ok(true))
  {
    var bs := BackupsOf(path, entries);
    assert forall i | 0 <= i < |bs| :: bs[i] in bs;
    var k := NewestIndex(bs, d.mtime);
    var j :| 0 <= j < |bs| && bs[j] == b;
    assert d.mtime[bs[k]] >= d.mtime[bs[j]];
  }

  /** A listed backup of an absolute path is a different file. */
  lemma ListedBackupIsNotFile(path: string, e: string)
    requires StartsWith(path, "/") && !StartsWith(path, "//")
    requires StartsWith(e, BackupPrefix(path)) && '/' !in e
    ensures Join(Dirname(path), e) != path
  {
    var n := |Basename(path)|;
    var t := e[n..];
    assert e == Basename(path) + t;
    assert '/' !in t by {
      forall i | 0 <= i < |t| ensures t[i] != '/' { assert t[i] == e[n + i]; assert e[n + i] in e; }
    }
    ExtendName(path, t);
    assert |t| >= 8;
  }
}
