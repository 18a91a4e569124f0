/**
 * `FileUtils` of src/utils/file_utils.py, the copy used by
 * src/game/asset_manager.py: a lock wait whose limit defaults to the
 * `MAX_FILE_LOCK_WAIT_SECONDS` setting, backups and restores by COPY
 * (`shutil.copy2`) rather than by rename, and a backup scan that pairs every
 * backup with the name it was taken from.
 */
module UtilsFileUtils {
  import opened Wrappers
  import opened Decimal
  import opened Os
  import opened Paths
  import opened Text
  import opened Backups
  import opened CoreFileUtils

  /** `settings.MAX_FILE_LOCK_WAIT_SECONDS`. */
  const MaxFileLockWaitSeconds := 30

  /** `max_wait or MAX_FILE_LOCK_WAIT_SECONDS`: both `None` and 0 are falsy. */
  function EffectiveMaxWait(maxWait: Option<int>): (w: int)
    ensures maxWait.None? || maxWait.value == 0 ==> w == MaxFileLockWaitSeconds
    ensures maxWait.Some? && maxWait.value != 0 ==> w == maxWait.value
  {
    if maxWait.None? || maxWait.value == 0 then MaxFileLockWaitSeconds else maxWait.value
  }

  /** `wait_for_file_unlock`: the shared wait under the defaulted limit. */
  function WaitDefaulted(d: Disk, os: OsModel, p: string, maxWait: Option<int>): (Disk, bool) {
    WaitForUnlock(d, os, p, EffectiveMaxWait(maxWait))
  }

  /**
   * Without a limit (or with 0) the wait sleeps at most 15 times; the result
   * is the negation of the final lock check, and no file changes.
   */
  lemma WaitDefaultedBounds(d: Disk, os: OsModel, p: string, maxWait: Option<int>)
    requires maxWait.None? || maxWait.value == 0
    ensures var (d', free) := WaitDefaulted(d, os, p, maxWait);
      && d'.files == d.files && d'.dirs == d.dirs
      && d'.clock - d.clock - 2 <= 15
      && (free <==> !LockedNow(d'.(clock := d'.clock - 1), os, p))
  {
    WaitForUnlockBounds(d, os, p, MaxFileLockWaitSeconds);
  }

  method WaitForFileUnlockDefaulted(fs: FileSystem, p: string, maxWait: Option<int>) returns (unlocked: bool)
    modifies fs
    ensures (fs.State(), unlocked) == WaitDefaulted(old(fs.State()), fs.os, p, maxWait)
  {
    var limit := if maxWait.None? || maxWait.value == 0 then MaxFileLockWaitSeconds else maxWait.value;
    unlocked := WaitForFileUnlock(fs, p, limit);
  }

  // ---------------------------------------------------------------------
  // create_backup: a copy onto the first unused number

  /** `None` for a missing file or a failed copy, else the new backup's path. */
  function CopyBackup(d: Disk, os: OsModel, p: string): (r: (Disk, Option<string>)) {
    if !Exists(d, p) then (d, None)
    else
      var b := NextBackup(d, p);
      var (d', ok) := Copied(d, os, p, b);
      (d', if ok then Some(b) else None)
  }

  /**
   * A backup is made exactly when the file exists and the copy can be done;
   * it takes the first unused number, holds the file's content, and the file
   * itself stays where it was. Without a backup no file changes.
   */
  lemma CopyBackupExact(d: Disk, os: OsModel, p: string)
    ensures var (d', r) := CopyBackup(d, os, p);
      && (r.Some? <==> CanCopy(d, os, p, NextBackup(d, p)))
      && (r.Some? ==> && r.value == BackupName(p, ChainLength(d, p) + 1)
                      && !Exists(d, r.value)
                      && d'.files == d.files[r.value := d.files[p]]
                      && p in d'.files && d'.files[p] == d.files[p]
                      && ChainLength(d', p) >= ChainLength(d, p) + 1)
      && (r.None? ==> d'.files == d.files)
  {
    var (d', r) := CopyBackup(d, os, p);
    if r.Some? {
      var n := ChainLength(d, p);
      var b := NextBackup(d, p);
      assert b != p;
      forall k | 1 <= k <= n + 1
        ensures Exists(d', BackupName(p, k))
      {
        if k <= n {
          assert Exists(d, BackupName(p, k));
        }
      }
      var mnext := ChainLength(d', p) + 1;
      assert Exists(d', BackupName(p, mnext)) || mnext > n + 1;
    }
  }

  method CreateBackup(fs: FileSystem, p: string) returns (b: Option<string>)
    modifies fs
    ensures (fs.State(), b) == CopyBackup(old(fs.State()), fs.os, p)
  {
    if !Exists(fs.State(), p) {
      return None;
    }
    var name := FindNextBackup(fs, p);
    var ok := fs.Copy(p, name);
    b := if ok then Some(name) else None;
  }

  // ---------------------------------------------------------------------
  // restore_backup: remove the file, copy the backup over it

  function RestoredByCopy(d: Disk, os: OsModel, backup: string, orig: string): (r: (Disk, bool)) {
    if !Exists(d, backup) then (d, false)
    else
      var (d1, removed) := if Exists(d, orig) then Removed(d, os, orig) else (d, true);
      if !removed then (d1, false)
      else Copied(d1, os, backup, orig)
  }

  /**
   * Without the backup nothing happens. A success puts the backup's content
   * at the original path and keeps the backup. A failure either changes no
   * file or, when the copy fails after the removal, has lost the original.
   */
  lemma RestoredByCopyExact(d: Disk, os: OsModel, backup: string, orig: string)
    ensures !Exists(d, backup) ==> RestoredByCopy(d, os, backup, orig) == (d, false)
    ensures var (d', ok) := RestoredByCopy(d, os, backup, orig);
      && (ok ==> && backup != orig && backup in d.files
                 && d'.files == d.files[orig := d.files[backup]]
                 && backup in d'.files && d'.files[backup] == d.files[backup])
      && (!ok ==> d'.files == d.files || d'.files == d.files - {orig})
  {
  }

  method RestoreBackup(fs: FileSystem, backup: string, orig: string) returns (ok: bool)
    modifies fs
    ensures (fs.State(), ok) == RestoredByCopy(old(fs.State()), fs.os, backup, orig)
  {
    if !Exists(fs.State(), backup) {
      return false;
    }
    if Exists(fs.State(), orig) {
      var removed := fs.Remove(orig);
      if !removed {
        return false;
      }
    }
    ok := fs.Copy(backup, orig);
  }

  // ---------------------------------------------------------------------
  // find_backup_files: (backup path, original path) pairs

  /** The code as written: every ".backup" is deleted from the joined path, the number is kept. */
  function OriginalNameAsWritten(backupPath: string): string {
    ReplaceAll(backupPath, BackupExtension, "")
  }

  /** A trailing ".backup" followed by three digits. */
  predicate HasBackupSuffix(path: string) {
    |path| >= 10 && path[|path| - 10..|path| - 3] == BackupExtension && AllDigits(path[|path| - 3..])
  }

  /** The name the backup was taken from: the trailing ".backupNNN" removed, anything else kept. */
  function OriginalName(backupPath: string): (r: string)
    ensures HasBackupSuffix(backupPath) ==> backupPath == r + backupPath[|backupPath| - 10..]
    ensures !HasBackupSuffix(backupPath) ==> r == backupPath
  {
    if HasBackupSuffix(backupPath) then backupPath[..|backupPath| - 10] else backupPath
  }

  /** The backup scan over a walk, with the rule that turns a backup path into its original. */
  function BackupPairs(walk: seq<WalkEntry>, original: string -> string): seq<(string, string)> {
    if walk == [] then []
    else
      var (root, file) := walk[|walk| - 1];
      var path := Join(root, file);
      BackupPairs(walk[..|walk| - 1], original)
        + (if Contains(file, BackupExtension) then [(path, original(path))] else [])
  }

  /**
   * The paths are those of the other copy's scan (core/file_utils.py), in
   * the same order, and each is paired with its original.
   */
  lemma {:induction false} BackupPairsPaths(walk: seq<WalkEntry>, original: string -> string)
    ensures var pairs := BackupPairs(walk, original);
      && |pairs| == |BackupFiles(walk)|
      && forall i | 0 <= i < |pairs| :: pairs[i] == (BackupFiles(walk)[i], original(BackupFiles(walk)[i]))
  {
    if walk != [] {
      BackupPairsPaths(walk[..|walk| - 1], original);
      LooksLikeBackupContains(walk[|walk| - 1].1);
    }
  }

  /**
   * As written, the original of a backup keeps its number: with no other
   * ".backup" in the path, `p.backup001` maps to `p001`, never to `p`.
   */
  lemma AsWrittenKeepsNumber(p: string, n: nat)
    ensures OriginalNameAsWritten(BackupName(p, n)) == OriginalNameAsWritten(p) + Pad3(n)
    ensures !Contains(p, BackupExtension) ==>
              OriginalNameAsWritten(BackupName(p, n)) == p + Pad3(n) && OriginalNameAsWritten(BackupName(p, n)) != p
  {
    assert FirstCharUnique(BackupExtension);
    ReplaceAllSplits(p, BackupExtension, Pad3(n), "");
    ReplaceAllUntouched(Pad3(n), BackupExtension, "");
    assert OriginalNameAsWritten(BackupName(p, n)) == OriginalNameAsWritten(p) + Pad3(n);
    if !Contains(p, BackupExtension) {
      ReplaceAllAbsent(p, BackupExtension, "");
    }
  }

  /** Corrected, the original of every backup number up to 999 is the file it was taken from. */
  lemma OriginalNameOfBackup(p: string, n: nat)
    requires n < 1000
    ensures OriginalName(BackupName(p, n)) == p
  {
    Pad3Length(n);
    var b := BackupName(p, n);
    assert b[|b| - 10..|b| - 3] == BackupExtension;
    assert b[|b| - 3..] == Pad3(n);
    assert b[..|b| - 10] == p;
  }

  /** `find_backup_files`, with the corrected original name. */
  method FindBackupFiles(walk: seq<WalkEntry>) returns (found: seq<(string, string)>)
    ensures found == BackupPairs(walk, OriginalName)
  {
    found := [];
    var i := 0;
    while i < |walk|
      invariant 0 <= i <= |walk|
      invariant found == BackupPairs(walk[..i], OriginalName)
    {
      var (root, file) := walk[i];
      assert walk[..i + 1][..i] == walk[..i];
      if Contains(file, BackupExtension) {
        var path := Join(root, file);
        found := found + [(path, OriginalName(path))];
      }
      i := i + 1;
    }
    assert walk[..i] == walk;
  }
}
