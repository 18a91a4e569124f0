/**
 * `FileUtils` of core/file_utils.py: directory checks, a raising backup by
 * rename, the backup scan of a directory walk, grouping under the fixed
 * masks root, and a raising save of the temporary container file. The lock
 * wait and the restore of the latest backup are the shared ones of
 * `Backups` (`WaitForFileUnlock`, `RestoreLatestBackup`).
 */
module CoreFileUtils {
  import opened Wrappers
  import opened Os
  import opened Paths
  import opened Text
  import opened Backups
  import opened Grouping
  import opened Containers

  /** `validate_directory_exists`: `FileNotFoundError` exactly when the path does not exist. */
  function DirectoryCheck(d: Disk, dir: string, description: string): (r: Option<Exception>)
    ensures r.Some? <==> !Exists(d, dir)
    ensures r.Some? ==> r.value.FileNotFoundError? && r.value.message == description + " '" + dir + "' does not exist."
  {
    if Exists(d, dir) then None else Some(FileNotFoundError(description + " '" + dir + "' does not exist."))
  }

  // ---------------------------------------------------------------------
  // create_backup: rename, and let the failure propagate

  function BackupOrRaise(d: Disk, os: OsModel, p: string): (r: (Disk, Result<string, Exception>)) {
    var (d', ok) := BackupByRename(d, os, p);
    (d', if ok then Ok(NextBackup(d, p)) else Err(OSError(p)))
  }

  /**
   * The backup is the first unused number and takes the file's content, the
   * file itself is gone (a rename, not a copy); a failed rename raises and
   * changes no file.
   */
  lemma BackupOrRaiseExact(d: Disk, os: OsModel, p: string)
    ensures var (d', r) := BackupOrRaise(d, os, p);
      && (r.Ok? <==> CanRename(d, os, p, NextBackup(d, p)))
      && (r.Ok? ==> && r.value == BackupName(p, ChainLength(d, p) + 1)
                    && !Exists(d, r.value)
                    && p !in d'.files
                    && d'.files == (d.files - {p})[r.value := d.files[p]])
      && (r.Err? ==> d'.files == d.files)
  {
    var b := NextBackup(d, p);
    assert b != p;
  }

  method CreateBackup(fs: FileSystem, p: string) returns (r: Result<string, Exception>)
    modifies fs
    ensures (fs.State(), r) == BackupOrRaise(old(fs.State()), fs.os, p)
  {
    var b, ok := CreateBackupByRename(fs, p);
    if ok {
      r := Ok(b);
    } else {
      r := Err(OSError(p));
    }
  }

  // ---------------------------------------------------------------------
  // find_backup_files

  /** One file of `os.walk`: the directory it was found in and its name. */
  type WalkEntry = (string, string)

  /** The test of the source: ends with ".backup001", or contains ".backup" at all. */
  predicate LooksLikeBackup(file: string) {
    EndsWith(file, BackupExtension + "001") || Contains(file, BackupExtension)
  }

  /** The `endswith` test adds nothing: every name it accepts contains ".backup". */
  lemma LooksLikeBackupContains(file: string)
    ensures LooksLikeBackup(file) <==> Contains(file, BackupExtension)
  {
    if EndsWith(file, BackupExtension + "001") {
      EndsWithContains(file, BackupExtension, "001");
    }
  }

  /** The paths kept from a walk, in walk order. */
  function BackupFiles(walk: seq<WalkEntry>): seq<string> {
    if walk == [] then []
    else
      var (root, file) := walk[|walk| - 1];
      BackupFiles(walk[..|walk| - 1]) + (if LooksLikeBackup(file) then [Join(root, file)] else [])
  }

  /** Exactly the walked files whose name contains ".backup", each joined to its directory. */
  lemma {:induction false} BackupFilesExact(walk: seq<WalkEntry>)
    ensures forall i | 0 <= i < |walk| && Contains(walk[i].1, BackupExtension) :: Join(walk[i].0, walk[i].1) in BackupFiles(walk)
    ensures forall q | q in BackupFiles(walk) :: exists i | 0 <= i < |walk| :: Contains(walk[i].1, BackupExtension) && q == Join(walk[i].0, walk[i].1)
    ensures |BackupFiles(walk)| <= |walk|
  {
    if walk != [] {
      var init := walk[..|walk| - 1];
      var last := walk[|walk| - 1];
      BackupFilesExact(init);
      LooksLikeBackupContains(last.1);
      forall i | 0 <= i < |init| ensures init[i] == walk[i] { }
      forall i | 0 <= i < |init| ensures LooksLikeBackup(init[i].1) <==> Contains(init[i].1, BackupExtension) {
        LooksLikeBackupContains(init[i].1);
      }
    }
  }

  method FindBackupFiles(walk: seq<WalkEntry>) returns (found: seq<string>)
    ensures found == BackupFiles(walk)
  {
    found := [];
    var i := 0;
    while i < |walk|
      invariant 0 <= i <= |walk|
      invariant found == BackupFiles(walk[..i])
    {
      var (root, file) := walk[i];
      assert walk[..i + 1][..i] == walk[..i];
      if EndsWith(file, BackupExtension + "001") || Contains(file, BackupExtension) {
        found := found + [Join(root, file)];
      }
      i := i + 1;
    }
    assert walk[..i] == walk;
  }

  // ---------------------------------------------------------------------
  // group_files_by_directory

  /** The masks root of this copy is fixed; no configured masks folder reaches it. */
  const FixedMasksRoot := "assets/masks"

  function GroupFilesByDirectory(d: Disk, files: seq<string>, target: string, assets: string): Groups {
    Grouped(d, files, target, assets, FixedMasksRoot)
  }

  /** Every mask path is under "assets/masks". */
  lemma GroupedMasksFixed(d: Disk, files: seq<string>, target: string, assets: string, k: string, i: int)
    requires k in GroupFilesByDirectory(d, files, target, assets).entries
    requires 0 <= i < |GroupFilesByDirectory(d, files, target, assets).entries[k]|
    ensures var e := GroupFilesByDirectory(d, files, target, assets).entries[k][i];
      e.maskFile == Join(FixedMasksRoot, e.assetDir + [Sep] + e.asset)
  {
    MaskPathsUnderRoot(d, files, target, assets, FixedMasksRoot, k, i);
  }

  method GroupFiles(fs: FileSystem, files: seq<string>, target: string, assets: string) returns (g: Groups)
    ensures g == GroupFilesByDirectory(fs.State(), files, target, assets)
  {
    g := GroupPixelateFiles(fs, files, target, assets, FixedMasksRoot);
  }

  // ---------------------------------------------------------------------
  // save_temp_file: the pair on success, the failure re-raised

  function SavedTempFile(d: Disk, os: OsModel, assetFile: string, data: Option<Bytes>)
    : (r: (Disk, Result<(string, string), Exception>))
  {
    var (d', tmp) := SavedTemp(d, os, assetFile, data);
    (d', if tmp.Some? then Ok((assetFile, tmp.value)) else Err(OSError(TempPath(assetFile))))
  }

  /** Success gives `(asset_file, asset_file + ".tmp")` with the serialised bytes in the second. */
  lemma SavedTempFileExact(d: Disk, os: OsModel, assetFile: string, data: Option<Bytes>)
    ensures var (d', r) := SavedTempFile(d, os, assetFile, data);
      && (r.Ok? <==> CanWrite(d, os, TempPath(assetFile)) && data.Some?)
      && (r.Ok? ==> r.value == (assetFile, assetFile + ".tmp") && d'.files == d.files[assetFile + ".tmp" := data.value])
      && (r.Err? ==> forall q | q != TempPath(assetFile) :: (q in d'.files <==> q in d.files))
  {
    SavedTempExact(d, os, assetFile, data);
  }

  method SaveTempFile(fs: FileSystem, assetFile: string, data: Option<Bytes>) returns (r: Result<(string, string), Exception>)
    modifies fs
    ensures (fs.State(), r) == SavedTempFile(old(fs.State()), fs.os, assetFile, data)
  {
    var tmp := SaveTemp(fs, assetFile, data);
    if tmp.Some? {
      r := Ok((assetFile, tmp.value));
    } else {
      r := Err(OSError(TempPath(assetFile)));
    }
  }
}
