/**
 * `BackupManager` of core/backup_manager.py: the replacement loop built on
 * the raising rename backup of core/file_utils.py, and the three-step
 * restore of a chosen backup.
 */
module BackupManager {
  import opened Wrappers
  import opened Os
  import opened Backups
  import opened Containers
  import opened CoreFileUtils
  import CoreUnityProcessor

  /** The default `max_wait` of core/file_utils.py. */
  const DefaultMaxWait := 30

  /**
   * The loop as written. `backup_file` is a local of the whole method, so
   * an iteration whose `create_backup` raises sees the value an earlier
   * iteration left, or none at all, which makes the handler's own
   * `os.path.exists(backup_file)` raise `UnboundLocalError` out of the loop.
   * The result is the disk and that escaping exception, if any.
   */
  function ReplacedAsWritten(d: Disk, os: OsModel, pairs: seq<(string, string)>, carried: Option<string>)
    : (Disk, Option<Exception>)
    decreases |pairs|
  {
    if pairs == [] then (d, None)
    else
      var (orig, tmp) := pairs[0];
      var (d1, free) := WaitForUnlock(d, os, orig, DefaultMaxWait);
      if !free then ReplacedAsWritten(d1, os, pairs[1..], carried)
      else
        var (d2, backup) := BackupOrRaise(d1, os, orig);
        var current := if backup.Ok? then Some(backup.value) else carried;
        var (d3, swapped) := if backup.Ok? then Renamed(d2, os, tmp, orig) else (d2, false);
        if swapped then ReplacedAsWritten(d3, os, pairs[1..], current)
        else if current.None? then (d3, Some(UnboundLocalError("backup_file")))
        else
          var d4 := if Exists(d3, current.value) && !Exists(d3, orig) then Renamed(d3, os, current.value, orig).0 else d3;
          ReplacedAsWritten(d4, os, pairs[1..], current)
  }

  /**
   * As written, a first pair whose backup rename raises ends the whole loop
   * with `UnboundLocalError`: the disk is as the failed backup left it, and
   * no later pair is looked at.
   */
  lemma AsWrittenStopsAtFirstFailure(d: Disk, os: OsModel, orig: string, tmp: string, rest: seq<(string, string)>)
    requires WaitForUnlock(d, os, orig, DefaultMaxWait).1
    requires !BackupByRename(WaitForUnlock(d, os, orig, DefaultMaxWait).0, os, orig).1
    ensures var (d', e) := ReplacedAsWritten(d, os, [(orig, tmp)] + rest, None);
      && e == Some(UnboundLocalError("backup_file"))
      && d'.files == d.files
  {
    WaitForUnlockBounds(d, os, orig, DefaultMaxWait);
    var d1 := WaitForUnlock(d, os, orig, DefaultMaxWait).0;
    BackupOrRaiseExact(d1, os, orig);
    assert ([(orig, tmp)] + rest)[0] == (orig, tmp);
  }

  /**
   * As written, once an earlier pair has set `backup_file`, a failed backup
   * no longer raises out of the loop: the handler finds the original still
   * in place, changes nothing, and the loop goes on with the next pair.
   */
  lemma AsWrittenContinuesWithStaleBackup(d: Disk, os: OsModel, orig: string, tmp: string, stale: string,
                                          rest: seq<(string, string)>)
    requires WaitForUnlock(d, os, orig, DefaultMaxWait).1
    requires !BackupByRename(WaitForUnlock(d, os, orig, DefaultMaxWait).0, os, orig).1
    ensures var d2 := BackupOrRaise(WaitForUnlock(d, os, orig, DefaultMaxWait).0, os, orig).0;
      && d2.files == d.files
      && ReplacedAsWritten(d, os, [(orig, tmp)] + rest, Some(stale)) == ReplacedAsWritten(d2, os, rest, Some(stale))
  {
    WaitForUnlockBounds(d, os, orig, DefaultMaxWait);
    var d1 := WaitForUnlock(d, os, orig, DefaultMaxWait).0;
    BackupOrRaiseExact(d1, os, orig);
    assert ([(orig, tmp)] + rest)[0] == (orig, tmp) && ([(orig, tmp)] + rest)[1..] == rest;
  }

  /**
   * Corrected, one pair on its own: still locked, skip; the backup rename
   * raises, skip (there is no backup of this pair to restore); otherwise
   * swap, and roll the backup back when the swap failed and the original is
   * missing.
   */
  function PairReplaced(d: Disk, os: OsModel, orig: string, tmp: string): (r: (Disk, bool)) {
    var (d1, free) := WaitForUnlock(d, os, orig, DefaultMaxWait);
    if !free then (d1, false)
    else
      var (d2, backup) := BackupOrRaise(d1, os, orig);
      if backup.Err? then (d2, false)
      else
        var (d3, swapped) := Renamed(d2, os, tmp, orig);
        if swapped then (d3, true)
        else if Exists(d3, backup.value) && !Exists(d3, orig) then (Renamed(d3, os, backup.value, orig).0, false)
        else (d3, false)
  }

  /** Corrected: every pair in list order. */
  function AllReplaced(d: Disk, os: OsModel, pairs: seq<(string, string)>): Disk
    decreases |pairs|
  {
    if pairs == [] then d else AllReplaced(PairReplaced(d, os, pairs[0].0, pairs[0].1).0, os, pairs[1..])
  }

  /** Where the first backup fails, the corrected loop carries on with the next pair. */
  lemma FixedContinuesAfterFailure(d: Disk, os: OsModel, orig: string, tmp: string, rest: seq<(string, string)>)
    requires WaitForUnlock(d, os, orig, DefaultMaxWait).1
    requires !BackupByRename(WaitForUnlock(d, os, orig, DefaultMaxWait).0, os, orig).1
    ensures PairReplaced(d, os, orig, tmp).0.files == d.files
    ensures AllReplaced(d, os, [(orig, tmp)] + rest) == AllReplaced(PairReplaced(d, os, orig, tmp).0, os, rest)
  {
    WaitForUnlockBounds(d, os, orig, DefaultMaxWait);
    BackupOrRaiseExact(WaitForUnlock(d, os, orig, DefaultMaxWait).0, os, orig);
    assert ([(orig, tmp)] + rest)[1..] == rest;
  }

  /** Still locked after the wait: the pair is left untouched. */
  lemma LockedPairUntouched(d: Disk, os: OsModel, orig: string, tmp: string)
    requires !WaitForUnlock(d, os, orig, DefaultMaxWait).1
    ensures PairReplaced(d, os, orig, tmp) == (WaitForUnlock(d, os, orig, DefaultMaxWait).0, false)
    ensures PairReplaced(d, os, orig, tmp).0.files == d.files
  {
    WaitForUnlockBounds(d, os, orig, DefaultMaxWait);
  }

  /**
   * A successful pair moved the original to the first unused backup number
   * and the temporary file onto the original path.
   */
  lemma PairSucceeds(d: Disk, os: OsModel, orig: string, tmp: string)
    requires tmp != orig && tmp in d.files
    requires PairReplaced(d, os, orig, tmp).1
    ensures var b := NextBackup(d, orig);
      && orig in d.files && tmp != b
      && PairReplaced(d, os, orig, tmp).0.files == ((d.files - {orig})[b := d.files[orig]] - {tmp})[orig := d.files[tmp]]
  {
    WaitForUnlockBounds(d, os, orig, DefaultMaxWait);
    var d1 := WaitForUnlock(d, os, orig, DefaultMaxWait).0;
    assert d1.files == d.files && d1.dirs == d.dirs;
    BackupOrRaiseExact(d1, os, orig);
    CoreUnityProcessor.ChainSameNames(d1, d, orig);
    CoreUnityProcessor.ChainLengthMissing(d, orig);
  }

  /**
   * A failed swap after a backup rolls back when the backup can be renamed
   * back: every file is as before the pair.
   */
  lemma PairRollsBack(d: Disk, os: OsModel, orig: string, tmp: string)
    requires orig in d.files && tmp != orig
    requires var d1 := WaitForUnlock(d, os, orig, DefaultMaxWait).0;
      var d2 := BackupOrRaise(d1, os, orig).0;
      var d3 := Renamed(d2, os, tmp, orig).0;
      && WaitForUnlock(d, os, orig, DefaultMaxWait).1
      && BackupByRename(d1, os, orig).1
      && !CanRename(d2, os, tmp, orig)
      && CanRename(d3, os, NextBackup(d1, orig), orig)
    ensures PairReplaced(d, os, orig, tmp).0.files == d.files
  {
    WaitForUnlockBounds(d, os, orig, DefaultMaxWait);
    var d1 := WaitForUnlock(d, os, orig, DefaultMaxWait).0;
    BackupOrRaiseExact(d1, os, orig);
    var b := NextBackup(d1, orig);
    CoreUnityProcessor.ChainLengthMissing(d1, orig);
    assert b !in d.files;
    assert ((d.files - {orig})[b := d.files[orig]] - {b})[orig := d.files[orig]] == d.files;
  }

  method ReplacePair(fs: FileSystem, orig: string, tmp: string) returns (replaced: bool)
    modifies fs
    ensures (fs.State(), replaced) == PairReplaced(old(fs.State()), fs.os, orig, tmp)
  {
    var free := WaitForFileUnlock(fs, orig, DefaultMaxWait);
    if !free {
      return false;
    }
    var backup := CreateBackup(fs, orig);
    if backup.Err? {
      return false;
    }
    var swapped := fs.Rename(tmp, orig);
    if swapped {
      return true;
    }
    if Exists(fs.State(), backup.value) && !Exists(fs.State(), orig) {
      var restored := fs.Rename(backup.value, orig);
    }
    return false;
  }

  method ReplaceFiles(fs: FileSystem, pairs: seq<(string, string)>)
    modifies fs
    ensures fs.State() == AllReplaced(old(fs.State()), fs.os, pairs)
  {
    var i := 0;
    assert pairs[0..] == pairs;
    while i < |pairs|
      invariant 0 <= i <= |pairs|
      invariant AllReplaced(fs.State(), fs.os, pairs[i..]) == AllReplaced(old(fs.State()), fs.os, pairs)
    {
      assert pairs[i..][0] == pairs[i] && pairs[i..][1..] == pairs[i + 1..];
      var (orig, tmp) := pairs[i];
      var replaced := ReplacePair(fs, orig, tmp);
      i := i + 1;
    }
  }

  // ---------------------------------------------------------------------
  // restore_backup

  /**
   * Move an existing original aside to `original + ".tmp"`, rename the
   * backup onto the original, delete the scratch file if there is one; any
   * failure gives false and stops there.
   */
  function Restored(d: Disk, os: OsModel, backup: string, orig: string): (r: (Disk, bool)) {
    var scratch := TempPath(orig);
    var (d1, moved) := if Exists(d, orig) then Renamed(d, os, orig, scratch) else (d, true);
    if !moved then (d1, false)
    else
      var (d2, renamed) := Renamed(d1, os, backup, orig);
      if !renamed then (d2, false)
      else
        var (d3, removed) := if Exists(d2, scratch) then Removed(d2, os, scratch) else (d2, true);
        (d3, removed)
  }

  /**
   * A success leaves the backup's content at the original path, the backup
   * path gone, and no file at `original + ".tmp"` — also when that was the
   * pipeline's own temporary file of the same name.
   */
  lemma RestoredSucceeds(d: Disk, os: OsModel, backup: string, orig: string)
    requires backup != orig && backup != TempPath(orig)
    requires Restored(d, os, backup, orig).1
    ensures backup in d.files
    ensures var d' := Restored(d, os, backup, orig).0;
      && d'.files == (d.files - {backup, TempPath(orig)})[orig := d.files[backup]]
      && backup !in d'.files && TempPath(orig) !in d'.files
  {
    var scratch := TempPath(orig);
    assert scratch != orig by {
      assert |scratch| == |orig| + 4;
    }
  }

  /**
   * A failure after the first rename has moved the original aside: its
   * content now sits at `original + ".tmp"` and the original path is empty.
   */
  lemma RestoredFailureStrandsOriginal(d: Disk, os: OsModel, backup: string, orig: string)
    requires orig in d.files && backup != orig
    requires CanRename(d, os, orig, TempPath(orig))
    requires !CanRename(Renamed(d, os, orig, TempPath(orig)).0, os, backup, orig)
    ensures var (d', ok) := Restored(d, os, backup, orig);
      && !ok && orig !in d'.files
      && TempPath(orig) in d'.files && d'.files[TempPath(orig)] == d.files[orig]
  {
    var scratch := TempPath(orig);
    assert scratch != orig by {
      assert |scratch| == |orig| + 4;
    }
  }

  method RestoreBackup(fs: FileSystem, backup: string, orig: string) returns (ok: bool)
    modifies fs
    ensures (fs.State(), ok) == Restored(old(fs.State()), fs.os, backup, orig)
  {
    var scratch := TempPath(orig);
    if Exists(fs.State(), orig) {
      var moved := fs.Rename(orig, scratch);
      if !moved {
        return false;
      }
    }
    var renamed := fs.Rename(backup, orig);
    if !renamed {
      return false;
    }
    if Exists(fs.State(), scratch) {
      ok := fs.Remove(scratch);
      return;
    }
    return true;
  }
}
