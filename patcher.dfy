/** The transactional driver of `src/utils/keyboard.ts` over an in-memory
    file store (`patchCliJs`, `restoreCliJs`, `isPatched`,
    `checkKeyboardStatus`). Each operation on the store is a method of
    `FileStore` whose new state is given by a function on `Disk` values;
    the guarantees of the driver are lemmas about those functions. Disk
    faults the real file system may raise are a parameter. */
module Patcher {
  import opened Results
  import opened Text
  import opened Scanner
  import opened Extractor
  import opened Synthesizer
  import opened Paths

  // ---------------------------------------------------------------------
  // The store

  /** The files by path and their modification times. */
  datatype Disk = Disk(files: map<string, string>, mtime: map<string, int>)

  /** Every file has a modification time and nothing else has one. */
  predicate Consistent(d: Disk)
  {
    d.files.Keys == d.mtime.Keys
  }

  /** `path` now holds `content`, written at time `now`. */
  function Put(d: Disk, path: string, content: string, now: int): (r: Disk)
    ensures Consistent(d) ==> Consistent(r)
  {
    Disk(d.files[path := content], d.mtime[path := now])
  }

  /** `path` is deleted. */
  function Remove(d: Disk, path: string): (r: Disk)
    ensures Consistent(d) ==> Consistent(r)
  {
    Disk(d.files - {path}, d.mtime - {path})
  }

  // ---------------------------------------------------------------------
  // Backup names

  /** `iso.replace(/[:.]/g, '-')` */
  function Dashed(iso: string): (r: string)
    ensures |r| == |iso|
    ensures forall i | 0 <= i < |r| :: r[i] == if iso[i] == ':' || iso[i] == '.' then '-' else iso[i]
  {
    if iso == [] then []
    else [if iso[0] == ':' || iso[0] == '.' then '-' else iso[0]] + Dashed(iso[1..])
  }

  /** The backup timestamp: the ISO time with `:` and `.` replaced by `-`,
      cut to its first 19 characters (the date and the time to the second). */
  function Stamp(iso: string): (r: string)
    ensures |r| == if |iso| < 19 then |iso| else 19
    ensures forall i | 0 <= i < |r| :: r[i] != ':' && r[i] != '.'
    ensures forall i | 0 <= i < |r| :: r[i] == if iso[i] == ':' || iso[i] == '.' then '-' else iso[i]
  {
    var d := Dashed(iso);
    if |d| < 19 then d else d[..19]
  }

  /** The backup of `filePath` made at the time `iso`. */
  function BackupPath(filePath: string, iso: string): (r: string)
    ensures StartsWith(r, filePath + ".backup-") && r != filePath
  {
    filePath + ".backup-" + Stamp(iso)
  }

  // ---------------------------------------------------------------------
  // The patch

  /** What `Bun.write` does to the file: writes the text, writes something
      else without complaint, or throws after leaving some residue. */
  datatype WriteEffect = Written | Garbled(residue: string) | Throws(residue: string)

  /** The faults the file system raises during one patch: the write's
      effect, whether the re-read after the write throws, and whether the
      rollback's copy or its delete throws. */
  datatype DiskFaults = DiskFaults(write: WriteEffect, rereadFails: bool, restoreFails: bool, unlinkFails: bool)

  /** The error a patch attempt fails with, after the backup exists. */
  datatype PatchError =
    | ScanFailed(scan: ScanError)          // `findBugBlock` threw
    | ExtractFailed(extract: ExtractError) // `extractVariables` threw
    | WriteFailed                          // `Bun.write` threw
    | ReadFailed                           // the re-read after the write threw
    | VerifyFailed                         // the marker is missing after the write

  datatype PatchMessage =
    | FileMissing(path: string)    // the file does not exist
    | AlreadyPatched               // the marker is already there
    | PatchApplied                 // the patch is in place
    | Failed(error: PatchError)    // the attempt failed and was rolled back

  /** `PatchResult`: success, message and the backup of a successful patch. */
  datatype PatchResult = PatchResult(success: bool, message: PatchMessage, backupPath: Option<string>)

  datatype PatchOutcome = PatchOutcome(disk: Disk, result: PatchResult)

  /** The patched text: the bug block replaced by the fix, or the error the
      scan or the extraction throws. */
  function PatchedContent(c: string): (r: Result<string, PatchError>)
    ensures BugBlockOf(c).Err? ==> r == Err(ScanFailed(BugBlockOf(c).error))
    ensures BugBlockOf(c).Ok? && ExtractVariables(BugBlockOf(c).value.block).Err? ==>
      r == Err(ExtractFailed(ExtractVariables(BugBlockOf(c).value.block).error))
    ensures r.Ok? ==> Contains(r.value, Marker)
    ensures r.Ok? ==> BugBlockOf(c).Ok? && ExtractVariables(BugBlockOf(c).value.block).Ok?
    ensures r.Ok? ==>
      var b := BugBlockOf(c).value;
      r.value == Splice(c, b.start, b.end, GenerateFix(ExtractVariables(b.block).value))
  {
    var s := BugBlockOf(c);
    if s.Err? then Err(ScanFailed(s.error))
    else
      var x := ExtractVariables(s.value.block);
      if x.Err? then Err(ExtractFailed(x.error))
      else
        var fix := GenerateFix(x.value);
        assert Contains(fix, Marker);
        Ok(Splice(c, s.value.start, s.value.end, fix))
  }

  /** `content.slice(0, start) + fix + content.slice(end)`: the text
      outside `[start, end)` stays in place around the fix. */
  function Splice(c: string, start: nat, end: nat, fix: string): (p: string)
    requires start <= end <= |c|
    ensures |p| == start + |fix| + (|c| - end)
    ensures StartsWith(p, c[..start])
    ensures OccursAt(p, fix, start)
    ensures OccursAt(p, c[end..], start + |fix|)
    ensures Contains(fix, Marker) ==> Contains(p, Marker)
  {
    var head, tail := c[..start], c[end..];
    SpliceFacts(head, fix, tail);
    head + fix + tail
  }

  /** A splice keeps its three parts in place. */
  lemma SpliceFacts(a: string, f: string, z: string)
    ensures StartsWith(a + f + z, a)
    ensures OccursAt(a + f + z, f, |a|)
    ensures OccursAt(a + f + z, z, |a| + |f|)
    ensures Contains(f, Marker) ==> Contains(a + f + z, Marker)
  {
    var p := a + f + z;
    assert p[..|a|] == a;
    assert p[|a|..|a| + |f|] == f;
    assert p[|a| + |f|..] == z;
    if Contains(f, Marker) {
      var i :| 0 <= i <= |f| && OccursAt(f, Marker, i);
      assert p[|a| + i..|a| + i + |Marker|] == f[i..i + |Marker|];
      assert OccursAt(p, Marker, |a| + i);
    }
  }

  /** The catch block: copy the backup back over the file and delete it,
      ignoring either step's failure, and report the error. */
  function Rollback(d: Disk, path: string, backup: string, now: int, faults: DiskFaults, e: PatchError): (o: PatchOutcome)
    requires backup in d.files
    ensures Consistent(d) ==> Consistent(o.disk)
  {
    var fail := PatchResult(false, Failed(e), Option.None);
    if faults.restoreFails then PatchOutcome(d, fail)
    else
      var restored := Put(d, path, d.files[backup], now);
      if faults.unlinkFails then PatchOutcome(restored, fail)
      else PatchOutcome(Remove(restored, backup), fail)
  }

  /** `patchCliJs(filePath)` on the disk `d` at the time `iso` (`now` as a
      modification time). */
  function PatchStep(d: Disk, path: string, iso: string, now: int, faults: DiskFaults): (o: PatchOutcome)
    ensures Consistent(d) ==> Consistent(o.disk)
  {
    if path !in d.files then PatchOutcome(d, PatchResult(false, FileMissing(path), Option.None))
    else
      var c := d.files[path];
      if Contains(c, Marker) then PatchOutcome(d, PatchResult(false, AlreadyPatched, Option.None))
      else
        var backup := BackupPath(path, iso);
        Attempt(Put(d, backup, c, now), path, backup, now, faults, PatchedContent(c))
  }

  /** The try block once the backup exists: the splice `pc` (or the error
      computing it threw) is written, re-read and checked for the marker;
      any error rolls back. */
  function Attempt(d: Disk, path: string, backup: string, now: int, faults: DiskFaults,
                   pc: Result<string, PatchError>): (o: PatchOutcome)
    requires backup in d.files && backup != path
    ensures Consistent(d) ==> Consistent(o.disk)
  {
    match pc
    case Err(e) => Rollback(d, path, backup, now, faults, e)
    case Ok(p) =>
      match faults.write
      case Throws(x) => Rollback(Put(d, path, x, now), path, backup, now, faults, WriteFailed)
      case Written => Verified(Put(d, path, p, now), path, backup, now, faults)
      case Garbled(x) => Verified(Put(d, path, x, now), path, backup, now, faults)
  }

  /** The re-read after the write: success when it works and the marker
      is there. */
  function Verified(d: Disk, path: string, backup: string, now: int, faults: DiskFaults): (o: PatchOutcome)
    requires path in d.files && backup in d.files
    ensures Consistent(d) ==> Consistent(o.disk)
  {
    if faults.rereadFails then Rollback(d, path, backup, now, faults, ReadFailed)
    else if Contains(d.files[path], Marker) then PatchOutcome(d, PatchResult(true, PatchApplied, Option.Some(backup)))
    else Rollback(d, path, backup, now, faults, VerifyFailed)
  }

  // ---------------------------------------------------------------------
  // Restoring the newest backup

  /** The prefix of the names of the backups of `filePath`. */
  function BackupPrefix(filePath: string): string
  {
    Basename(filePath) + ".backup-"
  }

  /** The listing's backups of `filePath`, as paths, in listing order. */
  function BackupsOf(filePath: string, entries: seq<string>): (r: seq<string>)
    ensures |r| <= |entries|
    ensures forall x | x in r :: exists e | e in entries :: StartsWith(e, BackupPrefix(filePath)) && x == Join(Dirname(filePath), e)
    ensures forall e | e in entries && StartsWith(e, BackupPrefix(filePath)) :: Join(Dirname(filePath), e) in r
  {
    if entries == [] then []
    else
      var init := entries[..|entries| - 1];
      var e := entries[|entries| - 1];
      assert entries == init + [e];
      BackupsOf(filePath, init) +
        (if StartsWith(e, BackupPrefix(filePath)) then [Join(Dirname(filePath), e)] else [])
  }

  /** The listing keeps its order: the backups of a concatenation of
      listings are those of the first followed by those of the second. */
  lemma {:induction false} BackupsOfAppend(filePath: string, a: seq<string>, b: seq<string>)
    ensures BackupsOf(filePath, a + b) == BackupsOf(filePath, a) + BackupsOf(filePath, b)
    decreases |b|
  {
    if b == [] {
      assert a + b == a;
    } else {
      var init := b[..|b| - 1];
      assert (a + b)[..|a + b| - 1] == a + init;
      assert (a + b)[|a + b| - 1] == b[|b| - 1];
      BackupsOfAppend(filePath, a, init);
    }
  }

  /** The first of the newest backups: the head of the list sorted by
      decreasing modification time with a stable sort. */
  function NewestIndex(bs: seq<string>, mtime: map<string, int>): (k: nat)
    requires bs != [] && forall i | 0 <= i < |bs| :: bs[i] in mtime
    ensures k < |bs|
    ensures forall i | 0 <= i < |bs| :: mtime[bs[i]] <= mtime[bs[k]]
    ensures forall i | 0 <= i < k :: mtime[bs[i]] < mtime[bs[k]]
  {
    if |bs| == 1 then 0
    else
      var k := NewestIndex(bs[..|bs| - 1], mtime);
      if mtime[bs[|bs| - 1]] > mtime[bs[k]] then |bs| - 1 else k
  }

  datatype RestoreError = BackupUnreadable  // a listed backup cannot be stat-ed

  datatype RestoreOutcome = RestoreOutcome(disk: Disk, result: Result<bool, RestoreError>)

  /** `restoreCliJs(filePath)` on the disk `d` whose directory lists
      `entries`, at the modification time `now`. */
  function RestoreStep(d: Disk, filePath: string, entries: seq<string>, now: int): (o: RestoreOutcome)
    requires Consistent(d)
    ensures Consistent(o.disk)
    ensures o.result == Ok(false) <==> BackupsOf(filePath, entries) == []
    ensures o.result != Ok(true) ==> o.disk == d
    ensures o.result == Ok(true) ==> o.disk.files.Keys == d.files.Keys + {filePath}
  {
    var bs := BackupsOf(filePath, entries);
    if bs == [] then RestoreOutcome(d, Ok(false))
    else if exists i | 0 <= i < |bs| :: bs[i] !in d.files then RestoreOutcome(d, Err(BackupUnreadable))
    else
      var newest := bs[NewestIndex(bs, d.mtime)];
      RestoreOutcome(Put(d, filePath, d.files[newest], now), Ok(true))
  }

  // ---------------------------------------------------------------------
  // Status

  /** `checkKeyboardStatus()`: the found file's path, whether it is
      patched, and whether it still has the bug. */
  datatype KeyboardStatus = KeyboardStatus(cliJsFound: bool, cliJsPath: Option<string>, isPatched: bool, hasBug: bool)

  /** The status of the file `located` (None when no file was found), read
      from the disk `d`; a failed read reports no file. */
  function StatusOf(d: Disk, located: Option<string>): (s: KeyboardStatus)
    ensures s.cliJsFound <==> located.Some? && located.value in d.files
    ensures s.cliJsFound ==> s.cliJsPath == located
    ensures s.cliJsFound ==> (s.isPatched <==> Contains(d.files[located.value], Marker))
    ensures s.hasBug <==> s.cliJsFound && !s.isPatched && Contains(d.files[located.value], Signature)
  {
    match located
    case None => KeyboardStatus(false, Option.None, false, false)
    case Some(p) =>
      if p !in d.files then KeyboardStatus(false, Option.None, false, false)
      else
        var patched := Contains(d.files[p], Marker);
        var bug := Contains(d.files[p], Signature);
        KeyboardStatus(true, located, patched, !patched && bug)
  }

  /** The filter and map of `restoreCliJs`: the entries starting with
      `<basename>.backup-`, joined to the file's directory. */
  method ListBackups(filePath: string, entries: seq<string>) returns (backups: seq<string>)
    ensures backups == BackupsOf(filePath, entries)
  {
    var dir := Dirname(filePath);
    var prefix := BackupPrefix(filePath);
    backups := [];
    var i := 0;
    while i < |entries|
      invariant 0 <= i <= |entries|
      invariant backups == BackupsOf(filePath, entries[..i])
    {
      assert entries[..i + 1][..i] == entries[..i];
      if StartsWith(entries[i], prefix) {
        backups := backups + [Join(dir, entries[i])];
      }
      i := i + 1;
    }
    assert entries[..i] == entries;
  }

  /** The head of the stable sort by descending modification time: the
      first backup whose time no other exceeds. */
  method NewestBackup(backups: seq<string>, mtime: map<string, int>) returns (best: nat)
    requires backups != [] && forall i | 0 <= i < |backups| :: backups[i] in mtime
    ensures best == NewestIndex(backups, mtime)
  {
    best := 0;
    var k := 1;
    while k < |backups|
      invariant 1 <= k <= |backups|
      invariant best == NewestIndex(backups[..k], mtime)
    {
      assert backups[..k + 1][..k] == backups[..k];
      if mtime[backups[k]] > mtime[backups[best]] {
        best := k;
      }
      k := k + 1;
    }
    assert backups[..k] == backups;
  }

  /** The statements of the try block before the write: find the block,
      extract the names, build the fix and splice it in. */
  method ComputePatch(content: string) returns (pc: Result<string, PatchError>)
    ensures pc == PatchedContent(content)
  {
    var scan := FindBugBlock(content);
    if scan.Err? {
      return Err(ScanFailed(scan.error));
    }
    var vars := ExtractVariables(scan.value.block);
    if vars.Err? {
      return Err(ExtractFailed(vars.error));
    }
    var fix := GenerateFix(vars.value);
    pc := Ok(Splice(content, scan.value.start, scan.value.end, fix));
  }

  // ---------------------------------------------------------------------
  // The store as an object

  class FileStore {
    var files: map<string, string>
    var mtime: map<string, int>

    function Snapshot(): Disk
      reads this
    {
      Disk(files, mtime)
    }

    predicate Valid()
      reads this
    {
      Consistent(Snapshot())
    }

    constructor(d: Disk)
      requires Consistent(d)
      ensures Valid() && Snapshot() == d
    {
      files := d.files;
      mtime := d.mtime;
    }

    /** `cp(src, dst)`: the destination gets the source's text and a new
        modification time. */
    method Copy(src: string, dst: string, now: int)
      requires src in files
      modifies this
      ensures Snapshot() == Put(old(Snapshot()), dst, old(files[src]), now)
    {
      files := files[dst := files[src]];
      mtime := mtime[dst := now];
    }

    /** `Bun.write(path, text)` with the effect the file system chooses;
        `threw` when it raises an error. */
    method Write(path: string, text: string, effect: WriteEffect, now: int) returns (threw: bool)
      modifies this
      ensures threw == effect.Throws?
      ensures Snapshot() == Put(old(Snapshot()), path, if effect.Written? then text else effect.residue, now)
    {
      var written := if effect.Written? then text else effect.residue;
      files := files[path := written];
      mtime := mtime[path := now];
      threw := effect.Throws?;
    }

    /** `unlink(path)` */
    method Unlink(path: string)
      modifies this
      ensures Snapshot() == Remove(old(Snapshot()), path)
    {
      files := files - {path};
      mtime := mtime - {path};
    }

    /** The catch block of `patchCliJs`. */
    method RollbackFrom(path: string, backup: string, now: int, faults: DiskFaults, e: PatchError) returns (r: PatchResult)
      requires backup in files
      modifies this
      ensures PatchOutcome(Snapshot(), r) == Rollback(old(Snapshot()), path, backup, now, faults, e)
    {
      if !faults.restoreFails {
        Copy(backup, path, now);
        if !faults.unlinkFails {
          Unlink(backup);
        }
      }
      r := PatchResult(false, Failed(e), Option.None);
    }

    /** `patchCliJs(filePath)` at the time `iso` (`now` as a modification
        time) under the file system's `faults`. */
    method Patch(filePath: string, iso: string, now: int, faults: DiskFaults) returns (r: PatchResult)
      requires Valid()
      modifies this
      ensures Valid()
      ensures PatchOutcome(Snapshot(), r) == PatchStep(old(Snapshot()), filePath, iso, now, faults)
    {
      if filePath !in files {
        return PatchResult(false, FileMissing(filePath), Option.None);
      }
      var content := files[filePath];
      if IndexOf(content, Marker) != -1 {
        return PatchResult(false, AlreadyPatched, Option.None);
      }
      var backupPath := filePath + ".backup-" + Stamp(iso);
      Copy(filePath, backupPath, now);
      var pc := ComputePatch(content);
      r := TryPatch(filePath, backupPath, pc, now, faults);
    }

    /** The try block of `patchCliJs`, once the backup exists, with the
        spliced text `pc` or the error computing it threw. */
    method TryPatch(filePath: string, backupPath: string, pc: Result<string, PatchError>, now: int, faults: DiskFaults)
      returns (r: PatchResult)
      requires backupPath in files && backupPath != filePath
      modifies this
      ensures PatchOutcome(Snapshot(), r) == Attempt(old(Snapshot()), filePath, backupPath, now, faults, pc)
    {
      if pc.Err? {
        r := RollbackFrom(filePath, backupPath, now, faults, pc.error);
        return;
      }
      var patched := pc.value;
      var threw := Write(filePath, patched, faults.write, now);
      if threw {
        r := RollbackFrom(filePath, backupPath, now, faults, WriteFailed);
        return;
      }
      r := VerifyPatch(filePath, backupPath, now, faults);
    }

    /** The re-read after the write and the check for the marker. */
    method VerifyPatch(filePath: string, backupPath: string, now: int, faults: DiskFaults) returns (r: PatchResult)
      requires filePath in files && backupPath in files
      modifies this
      ensures PatchOutcome(Snapshot(), r) == Verified(old(Snapshot()), filePath, backupPath, now, faults)
    {
      if faults.rereadFails {
        r := RollbackFrom(filePath, backupPath, now, faults, ReadFailed);
        return;
      }
      var verify := files[filePath];
      if IndexOf(verify, Marker) == -1 {
        r := RollbackFrom(filePath, backupPath, now, faults, VerifyFailed);
        return;
      }
      r := PatchResult(true, PatchApplied, Option.Some(backupPath));
    }

    /** `restoreCliJs(filePath)`, where the file's directory lists
        `entries`, at the modification time `now`. */
    method Restore(filePath: string, entries: seq<string>, now: int) returns (r: Result<bool, RestoreError>)
      requires Valid()
      modifies this
      ensures Valid()
      ensures RestoreOutcome(Snapshot(), r) == RestoreStep(old(Snapshot()), filePath, entries, now)
    {
      var backups := ListBackups(filePath, entries);
      if backups == [] {
        return Ok(false);
      }
      var readable := AllStated(backups);
      if !readable {
        return Err(BackupUnreadable);
      }
      var best := NewestBackup(backups, mtime);
      Copy(backups[best], filePath, now);
      r := Ok(true);
    }

    /** The `stat` of every backup: false as soon as one is missing. */
    method AllStated(backups: seq<string>) returns (ok: bool)
      ensures ok <==> forall k | 0 <= k < |backups| :: backups[k] in files
    {
      var j := 0;
      while j < |backups|
        invariant 0 <= j <= |backups|
        invariant forall k | 0 <= k < j :: backups[k] in files
      {
        if backups[j] !in files {
          return false;
        }
        j := j + 1;
      }
      return true;
    }

    /** `isPatched(filePath)`: None when the file cannot be read. */
    function IsPatchedAt(path: string): (r: Option<bool>)
      reads this
      ensures r.Some? <==> path in files
      ensures r.Some? ==> (r.value <==> Contains(files[path], Marker))
    {
      if path in files then Option.Some(Contains(files[path], Marker)) else Option.None
    }
  }
}
