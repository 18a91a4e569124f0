/**
 * The numbered backup chain `<file>.backup001`, `<file>.backup002`, ... and
 * the bounded lock wait, as every copy of the pipeline implements them.
 */
module Backups {
  import opened Decimal
  import opened Wrappers
  import opened Os

  const BackupExtension := ".backup"

  /** The path, ".backup", and the number written with at least three digits. */
  function BackupName(p: string, n: nat): (b: string)
    ensures |b| > |p| && b[..|p|] == p
  {
    p + BackupExtension + Pad3(n)
  }

  lemma BackupNameInjective(p: string, m: nat, n: nat)
    requires BackupName(p, m) == BackupName(p, n)
    ensures m == n
  {
    var k := |p| + |BackupExtension|;
    assert BackupName(p, m)[k..] == Pad3(m);
    assert BackupName(p, n)[k..] == Pad3(n);
    Pad3Injective(m, n);
  }

  /** Every path that `os.path.exists` accepts. */
  function Names(d: Disk): set<string> {
    d.files.Keys + d.dirs
  }

  /** Backups 1 to `n` of `p` all exist. */
  ghost predicate ChainUpTo(d: Disk, p: string, n: nat) {
    forall k :: 1 <= k <= n ==> Exists(d, BackupName(p, k))
  }

  /** The names of backups 1 to `n`. */
  function NameSet(p: string, n: nat): (s: set<string>)
    ensures |s| == n
    ensures forall k :: 1 <= k <= n ==> BackupName(p, k) in s
    ensures forall b :: b in s ==> exists k :: 1 <= k <= n && b == BackupName(p, k)
  {
    if n == 0 then {}
    else
      var s := NameSet(p, n - 1);
      assert BackupName(p, n) !in s by {
        if BackupName(p, n) in s {
          var k :| 1 <= k <= n - 1 && BackupName(p, n) == BackupName(p, k);
          BackupNameInjective(p, n, k);
        }
      }
      s + {BackupName(p, n)}
  }

  /** A chain cannot be longer than the number of paths on the disk. */
  lemma ChainBound(d: Disk, p: string, n: nat)
    requires ChainUpTo(d, p, n)
    ensures n <= |Names(d)|
  {
    var s := NameSet(p, n);
    assert s <= Names(d);
    assert |s| <= |Names(d)| by {
      SubsetCard(s, Names(d));
    }
  }

  lemma SubsetCard<T>(a: set<T>, b: set<T>)
    requires a <= b
    ensures |a| <= |b|
  {
    assert b == a + (b - a);
  }

  /** The scan of the source: counting up from `n` while the backup exists. */
  function ChainFrom(d: Disk, p: string, n: nat): (r: nat)
    requires n >= 1 && ChainUpTo(d, p, n - 1)
    ensures r >= n - 1 && ChainUpTo(d, p, r) && !Exists(d, BackupName(p, r + 1))
    decreases |Names(d)| + 1 - n
  {
    ChainBound(d, p, n - 1);
    if Exists(d, BackupName(p, n)) then ChainFrom(d, p, n + 1) else n - 1
  }

  /** The number of the latest backup in the gap-free chain from 001 (0: none). */
  function ChainLength(d: Disk, p: string): nat {
    ChainFrom(d, p, 1)
  }

  /** The chain length is the one `n` whose backups 1..n exist and n+1 does not. */
  lemma ChainLengthUnique(d: Disk, p: string, n: nat)
    requires ChainUpTo(d, p, n) && !Exists(d, BackupName(p, n + 1))
    ensures ChainLength(d, p) == n
  {
    var r := ChainLength(d, p);
    var rnext, nnext := r + 1, n + 1;
    assert Exists(d, BackupName(p, rnext)) || rnext > n;
    assert Exists(d, BackupName(p, nnext)) || nnext > r;
  }

  /**
   * The `while os.path.exists(backup_file)` loop shared by every copy:
   * the number of the last backup in the chain, 0 when `.backup001` is absent.
   */
  method ScanBackups(fs: FileSystem, p: string) returns (n: nat)
    ensures n == ChainLength(fs.State(), p)
  {
    n := 0;
    while Exists(fs.State(), BackupName(p, n + 1))
      invariant ChainUpTo(fs.State(), p, n)
      decreases |Names(fs.State())| - n
    {
      ChainBound(fs.State(), p, n + 1);
      n := n + 1;
    }
    ChainLengthUnique(fs.State(), p, n);
  }

  // ---------------------------------------------------------------------
  // Bounded wait for a lock held by another process

  const LockCheckInterval := 2

  /** The disk once `while is_file_locked(p) and wait_time < max_wait` exits. */
  function WaitLoop(d: Disk, os: OsModel, p: string, waited: int, maxWait: int): (r: Disk)
    ensures r.files == d.files && r.dirs == d.dirs
    ensures d.clock + 1 <= r.clock
    ensures r.clock <= d.clock + 1 + (if waited < maxWait then (maxWait - waited + 1) / 2 else 0)
    decreases if waited < maxWait then maxWait - waited else 0
  {
    if LockedNow(d, os, p) && waited < maxWait then
      WaitLoop(Tick(d), os, p, waited + LockCheckInterval, maxWait)
    else Tick(d)
  }

  /** The disk before the final `is_file_locked` call that decides the result. */
  function LastProbe(d: Disk, os: OsModel, p: string, maxWait: int): Disk {
    WaitLoop(d, os, p, 0, maxWait)
  }

  /** Lock wait followed by the final check: true exactly when that check finds the file free. */
  function WaitForUnlock(d: Disk, os: OsModel, p: string, maxWait: int): (r: (Disk, bool)) {
    var d1 := LastProbe(d, os, p, maxWait);
    (Tick(d1), !LockedNow(d1, os, p))
  }

  /**
   * The wait sleeps at most ceil(max_wait / 2) times, changes no file, and
   * succeeds only when the file exists and is free at the final check.
   */
  lemma WaitForUnlockBounds(d: Disk, os: OsModel, p: string, maxWait: int)
    ensures WaitForUnlock(d, os, p, maxWait).0.files == d.files
    ensures WaitForUnlock(d, os, p, maxWait).0.dirs == d.dirs
    ensures d.clock + 2 <= WaitForUnlock(d, os, p, maxWait).0.clock
    ensures WaitForUnlock(d, os, p, maxWait).0.clock - d.clock - 2
            <= (if maxWait > 0 then (maxWait + 1) / 2 else 0)
    ensures var r := WaitForUnlock(d, os, p, maxWait);
      r.1 <==> p in d.files && !os.held(p, r.0.clock - 1)
  {
    var d1 := LastProbe(d, os, p, maxWait);
    assert Tick(d1).clock - 1 == d1.clock;
  }

  /** `wait_for_file_unlock` / the inline wait of `replace_file`. */
  method WaitForFileUnlock(fs: FileSystem, p: string, maxWait: int) returns (unlocked: bool)
    modifies fs
    ensures (fs.State(), unlocked) == WaitForUnlock(old(fs.State()), fs.os, p, maxWait)
  {
    var waited := 0;
    ghost var before := fs.State();
    var locked := fs.IsFileLocked(p);
    while locked && waited < maxWait
      invariant fs.State() == Tick(before) && locked == LockedNow(before, fs.os, p)
      invariant WaitLoop(old(fs.State()), fs.os, p, 0, maxWait) == WaitLoop(before, fs.os, p, waited, maxWait)
      decreases if waited < maxWait then maxWait - waited else 0
    {
      waited := waited + LockCheckInterval;
      before := fs.State();
      locked := fs.IsFileLocked(p);
    }
    var stillLocked := fs.IsFileLocked(p);
    unlocked := !stillLocked;
  }

  // ---------------------------------------------------------------------
  // Rename-based backups (src/core/unity_processor.py, core/file_utils.py,
  // src/game/asset_manager.py)

  /**
   * Restore the latest backup: remove the current file if it exists, then
   * rename the backup with the highest number onto it. `Ok(None)` when
   * `.backup001` does not exist; an `OSError` from either call propagates.
   */
  function RestoreLatest(d: Disk, os: OsModel, p: string): (r: (Disk, Result<Option<string>, Exception>))
  {
    var n := ChainLength(d, p);
    if n == 0 then (d, Ok(None))
    else
      var b := BackupName(p, n);
      var (d1, removed) := if Exists(d, p) then Removed(d, os, p) else (d, true);
      if !removed then (d1, Err(OSError(p)))
      else
        var (d2, renamed) := Renamed(d1, os, b, p);
        if renamed then (d2, Ok(Some(b))) else (d2, Err(OSError(b)))
  }

  /** With no `.backup001` nothing changes and the result is `None`. */
  lemma RestoreWithoutBackup(d: Disk, os: OsModel, p: string)
    requires !Exists(d, BackupName(p, 1))
    ensures RestoreLatest(d, os, p) == (d, Ok(None))
  {
    ChainLengthUnique(d, p, 0);
  }

  /**
   * A successful restore moves the latest backup onto the file, removes it
   * from the chain and leaves every other path as it was.
   */
  lemma RestoreSucceeds(d: Disk, os: OsModel, p: string, b: string)
    requires Valid(d)
    requires RestoreLatest(d, os, p).1 == Ok(Some(b))
    ensures ChainLength(d, p) >= 1 && b == BackupName(p, ChainLength(d, p))
    ensures b in d.files
    ensures RestoreLatest(d, os, p).0.files == (d.files - {b})[p := d.files[b]]
    ensures RestoreLatest(d, os, p).0.dirs == d.dirs
    ensures ChainLength(RestoreLatest(d, os, p).0, p) == ChainLength(d, p) - 1
  {
    var n := ChainLength(d, p);
    var d2 := RestoreLatest(d, os, p).0;
    forall k | 1 <= k <= n - 1
      ensures Exists(d2, BackupName(p, k))
    {
      if BackupName(p, k) == b { BackupNameInjective(p, k, n); }
      assert Exists(d, BackupName(p, k));
    }
    ChainLengthUnique(d2, p, n - 1);
  }

  /**
   * The latest backup's content is never lost: after a failure the backup is
   * still in place; after success the file holds it.
   */
  lemma RestoreKeepsBackupContent(d: Disk, os: OsModel, p: string)
    requires ChainLength(d, p) >= 1 && BackupName(p, ChainLength(d, p)) in d.files
    ensures var (d', r) := RestoreLatest(d, os, p);
      var b := BackupName(p, ChainLength(d, p));
      && (r.Err? ==> b in d'.files && d'.files[b] == d.files[b])
      && (r.Ok? ==> p in d'.files && d'.files[p] == d.files[b])
  {
    var b := BackupName(p, ChainLength(d, p));
    assert b != p;
  }

  method RestoreLatestBackup(fs: FileSystem, p: string) returns (r: Result<Option<string>, Exception>)
    modifies fs
    ensures (fs.State(), r) == RestoreLatest(old(fs.State()), fs.os, p)
  {
    var n := ScanBackups(fs, p);
    if n == 0 {
      return Ok(None);
    }
    var latest := BackupName(p, n);
    if Exists(fs.State(), p) {
      var removed := fs.Remove(p);
      if !removed {
        return Err(OSError(p));
      }
    }
    var renamed := fs.Rename(latest, p);
    if !renamed {
      return Err(OSError(latest));
    }
    return Ok(Some(latest));
  }

  /** The first unused backup number, scanning up from 001. */
  function NextBackup(d: Disk, p: string): string {
    BackupName(p, ChainLength(d, p) + 1)
  }

  /** A gap-free chain up to `n` makes the chain at least `n` long. */
  lemma ChainLengthAtLeast(d: Disk, p: string, n: nat)
    requires ChainUpTo(d, p, n)
    ensures ChainLength(d, p) >= n
  {
    var mnext := ChainLength(d, p) + 1;
    assert Exists(d, BackupName(p, mnext)) || mnext > n;
  }

  /** `os.rename(original, backup)` onto the first unused number; the flag is false when it raised. */
  function BackupByRename(d: Disk, os: OsModel, p: string): (r: (Disk, bool)) {
    Renamed(d, os, p, NextBackup(d, p))
  }

  /**
   * A backup by rename moves the file to number (chain length + 1): the chain
   * grows by at least one, exactly one when the number after it was free, and
   * the new backup holds the file's content.
   */
  lemma BackupByRenameExtendsChain(d: Disk, os: OsModel, p: string)
    requires BackupByRename(d, os, p).1
    ensures var d' := BackupByRename(d, os, p).0;
      && d'.files == (d.files - {p})[NextBackup(d, p) := d.files[p]]
      && ChainLength(d', p) >= ChainLength(d, p) + 1
      && (!Exists(d, BackupName(p, ChainLength(d, p) + 2)) ==> ChainLength(d', p) == ChainLength(d, p) + 1)
  {
    var n := ChainLength(d, p);
    var q := NextBackup(d, p);
    var d' := BackupByRename(d, os, p).0;
    assert d'.files == (d.files - {p})[q := d.files[p]] && d'.dirs == d.dirs;
    assert ChainUpTo(d', p, n + 1) by {
      forall k | 1 <= k <= n + 1
        ensures Exists(d', BackupName(p, k))
      {
        if k <= n {
          assert Exists(d, BackupName(p, k));
          assert BackupName(p, k) != p;
        }
      }
    }
    ChainLengthAtLeast(d', p, n + 1);
    if !Exists(d, BackupName(p, n + 2)) {
      if BackupName(p, n + 2) == q {
        BackupNameInjective(p, n + 2, n + 1);
      }
      assert !Exists(d', BackupName(p, n + 2));
      ChainLengthUnique(d', p, n + 1);
    }
  }

  /** The name after the last backup a scan found is the first unused one. */
  lemma NextAfterScan(d: Disk, p: string, n: nat)
    requires n == ChainLength(d, p)
    ensures BackupName(p, n + 1) == NextBackup(d, p)
  {
  }

  /** The scan followed by the name after the last backup found. */
  method FindNextBackup(fs: FileSystem, p: string) returns (b: string)
    ensures b == NextBackup(fs.State(), p)
  {
    var n := ScanBackups(fs, p);
    b := BackupName(p, n + 1);
    NextAfterScan(fs.State(), p, n);
  }

  /** Returns the backup name and whether the rename succeeded. */
  method CreateBackupByRename(fs: FileSystem, p: string) returns (b: string, ok: bool)
    modifies fs
    ensures b == NextBackup(old(fs.State()), p)
    ensures (fs.State(), ok) == BackupByRename(old(fs.State()), fs.os, p)
  {
    b := FindNextBackup(fs, p);
    ok := fs.Rename(p, b);
  }
}
