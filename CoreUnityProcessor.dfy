/**
 * `UnityProcessor` of src/core/unity_processor.py: restore the latest backup,
 * pixelate the matching textures of one container into `<container>.tmp`,
 * and later swap the temporary file in behind a rename backup. Grouping of
 * the requests is `Grouping.GroupPixelateFiles` with the configured masks
 * folder; the per-texture image processing is code that is not part of this
 * model and comes in as a function.
 */
module CoreUnityProcessor {
  import opened Wrappers
  import opened Os
  import opened Bitmap
  import opened Backups
  import opened Grouping
  import opened Containers

  /** `UnityPy.load(asset_file)`: the objects, or `None` when the file is missing or cannot be parsed. */
  function Loaded(d: Disk, p: string, parse: Parser): Option<seq<AssetObject>> {
    if p in d.files then parse(d.files[p]) else None
  }

  /** `if debug_pixelated_folder:` is false for `None` and for the empty string. */
  function DebugFolder(folder: Option<string>): (r: Option<string>)
    ensures r.Some? <==> folder.Some? && folder.value != ""
    ensures r.Some? ==> r == folder
  {
    if folder.Some? && folder.value != "" then folder else None
  }

  /** This copy's loop: no texture is exempt from shadows, messages carry no number. */
  function CoreConfig(run: (Disk, Raster<Rgba>, PixelateEntry, bool) -> Result<Raster<Rgba>, Exception>,
                      shadows: bool, debug: Option<string>, encode: Encoder): (cfg: LoopConfig)
    ensures Sound(cfg.pipeline)
    ensures forall e :: ShadowFor(cfg, e) == shadows
  {
    LoopConfig(External(run), shadows, [], DebugFolder(debug), encode, None)
  }

  /**
   * `process_asset_file`: the restore and the load are not guarded, so what
   * they raise propagates; the loop and the save catch their own failures.
   * The result is (processed count, temporary file or `None`).
   */
  function ProcessedAsset(d: Disk, os: OsModel, assetFile: string, entries: seq<PixelateEntry>,
                          cfg: LoopConfig, parse: Parser, serialize: Serializer)
    : (r: (Disk, Result<(nat, Option<string>), Exception>))
    requires Sound(cfg.pipeline)
  {
    var (d1, restored) := RestoreLatest(d, os, assetFile);
    if restored.Err? then (d1, Err(restored.error))
    else match Loaded(d1, assetFile, parse)
      case None => (d1, Err(LoadError(assetFile)))
      case Some(objects) =>
        var s := Swept(cfg, os, Begin(d1, objects), TexturePairs(objects, entries));
        var (d2, tmp) := SavedTemp(s.disk, os, assetFile, serialize(s.objects));
        (d2, Ok((s.count, tmp)))
  }

  /**
   * The count is the number of (Texture2D object, entry) pairs of the file as
   * restored whose name matches and that have an image; the temporary file is
   * `<container>.tmp` holding the serialised objects.
   */
  lemma ProcessedAssetResult(d: Disk, os: OsModel, assetFile: string, entries: seq<PixelateEntry>,
                             cfg: LoopConfig, parse: Parser, serialize: Serializer)
    requires Sound(cfg.pipeline)
    ensures var (d', r) := ProcessedAsset(d, os, assetFile, entries, cfg, parse, serialize);
      var (d1, restored) := RestoreLatest(d, os, assetFile);
      && (r.Ok? <==> restored.Ok? && Loaded(d1, assetFile, parse).Some?)
      && (restored.Err? ==> r == Err(restored.error) && d' == d1)
      && (restored.Ok? && Loaded(d1, assetFile, parse).None? ==> r == Err(LoadError(assetFile)) && d' == d1)
      && (r.Ok? ==>
            var objects := Loaded(d1, assetFile, parse).value;
            var s := Swept(cfg, os, Begin(d1, objects), TexturePairs(objects, entries));
            && r.value.0 == CountMatching(objects, TexturePairs(objects, entries))
            && (r.value.1.Some? <==> CanWrite(s.disk, os, TempPath(assetFile)) && serialize(s.objects).Some?)
            && (r.value.1.Some? ==> r.value.1.value == TempPath(assetFile)
                                    && d'.files == s.disk.files[TempPath(assetFile) := serialize(s.objects).value]))
  {
    var (d1, restored) := RestoreLatest(d, os, assetFile);
    if restored.Ok? && Loaded(d1, assetFile, parse).Some? {
      var objects := Loaded(d1, assetFile, parse).value;
      var pairs := TexturePairs(objects, entries);
      SweptCount(cfg, os, Begin(d1, objects), pairs);
      var s := Swept(cfg, os, Begin(d1, objects), pairs);
      SavedTempExact(s.disk, os, assetFile, serialize(s.objects));
    }
  }

  method ProcessAssetFile(fs: FileSystem, assetFile: string, entries: seq<PixelateEntry>, cfg: LoopConfig,
                          parse: Parser, serialize: Serializer)
    returns (r: Result<(nat, Option<string>), Exception>)
    requires Sound(cfg.pipeline)
    modifies fs
    ensures (fs.State(), r) == ProcessedAsset(old(fs.State()), fs.os, assetFile, entries, cfg, parse, serialize)
  {
    var restored := RestoreLatestBackup(fs, assetFile);
    if restored.Err? {
      return Err(restored.error);
    }
    ghost var d1 := fs.State();
    var loaded := Loaded(fs.State(), assetFile, parse);
    if loaded.None? {
      return Err(LoadError(assetFile));
    }
    var objects := loaded.value;
    var s := ProcessTextures(fs, objects, entries, cfg);
    var tmp := SaveTemp(fs, assetFile, serialize(s.objects));
    r := Ok((s.count, tmp));
  }

  // ---------------------------------------------------------------------
  // replace_file

  /**
   * `replace_file`: wait for the lock; back the original up by rename
   * (`create_backup` catches its own failure and gives `None`); rename the
   * temporary file onto the original; on failure rename the backup back when
   * it exists and the original does not. A failed rollback is caught.
   */
  function Replaced(d: Disk, os: OsModel, orig: string, tmp: string, maxWait: int): (r: (Disk, bool)) {
    var (d1, free) := WaitForUnlock(d, os, orig, maxWait);
    if !free then (d1, false)
    else
      var b := NextBackup(d1, orig);
      var (d2, backedUp) := BackupByRename(d1, os, orig);
      var (d3, swapped) := Renamed(d2, os, tmp, orig);
      if swapped then (d3, true)
      else if backedUp && Exists(d3, b) && !Exists(d3, orig) then (Renamed(d3, os, b, orig).0, false)
      else (d3, false)
  }

  /** The disk at the backup step, once the wait found the file free. */
  function AfterWait(d: Disk, os: OsModel, orig: string, maxWait: int): Disk {
    WaitForUnlock(d, os, orig, maxWait).0
  }

  /** The backup rename of `replace_file` succeeds. */
  predicate BackupTaken(d: Disk, os: OsModel, orig: string, maxWait: int) {
    BackupByRename(AfterWait(d, os, orig, maxWait), os, orig).1
  }

  /** Still locked after the wait: false, and no file is touched. */
  lemma ReplaceLockedUnchanged(d: Disk, os: OsModel, orig: string, tmp: string, maxWait: int)
    requires !WaitForUnlock(d, os, orig, maxWait).1
    ensures Replaced(d, os, orig, tmp, maxWait) == (AfterWait(d, os, orig, maxWait), false)
    ensures Replaced(d, os, orig, tmp, maxWait).0.files == d.files
  {
    WaitForUnlockBounds(d, os, orig, maxWait);
  }

  /**
   * With the backup taken, success means the original now sits at the first
   * unused backup number and the temporary file's content at the original path.
   */
  lemma ReplaceSucceeds(d: Disk, os: OsModel, orig: string, tmp: string, maxWait: int)
    requires tmp != orig && tmp in d.files
    requires BackupTaken(d, os, orig, maxWait) && Replaced(d, os, orig, tmp, maxWait).1
    ensures var b := NextBackup(d, orig);
      && tmp != b
      && Replaced(d, os, orig, tmp, maxWait).0.files == ((d.files - {orig})[b := d.files[orig]] - {tmp})[orig := d.files[tmp]]
  {
    WaitForUnlockBounds(d, os, orig, maxWait);
    var d1 := AfterWait(d, os, orig, maxWait);
    assert d1.files == d.files && d1.dirs == d.dirs;
    assert NextBackup(d1, orig) == NextBackup(d, orig) by {
      ChainSameNames(d1, d, orig);
    }
    var b := NextBackup(d, orig);
    assert tmp != b by {
      ChainLengthMissing(d, orig);
    }
  }

  /**
   * Of two disks with the same paths, the chain is the same. The scan looks
   * only at `os.path.exists`.
   */
  lemma ChainSameNames(a: Disk, b: Disk, p: string)
    requires a.files.Keys == b.files.Keys && a.dirs == b.dirs
    ensures ChainLength(a, p) == ChainLength(b, p)
  {
    var n := ChainLength(a, p);
    assert forall k :: Exists(a, BackupName(p, k)) == Exists(b, BackupName(p, k));
    ChainLengthUnique(b, p, n);
  }

  /** The first unused backup name is not on the disk. */
  lemma ChainLengthMissing(d: Disk, p: string)
    ensures !Exists(d, NextBackup(d, p))
  {
  }

  /**
   * The rename-over case: when the backup rename fails (the original is held
   * at that moment) and `os.rename` replaces an existing destination, the
   * temporary file still goes over the original and the result is success, so
   * the original's content is gone with no backup of it.
   */
  lemma ReplaceWithoutBackupOverwrites(d: Disk, os: OsModel, orig: string, tmp: string, maxWait: int)
    requires os.replaceOnRename && tmp != orig
    requires WaitForUnlock(d, os, orig, maxWait).1 && !BackupTaken(d, os, orig, maxWait)
    requires CanRename(Tick(AfterWait(d, os, orig, maxWait)), os, tmp, orig)
    ensures Replaced(d, os, orig, tmp, maxWait).1
    ensures Replaced(d, os, orig, tmp, maxWait).0.files == (d.files - {tmp})[orig := d.files[tmp]]
  {
    WaitForUnlockBounds(d, os, orig, maxWait);
  }

  /**
   * Where `os.rename` refuses an existing destination, a failed backup leaves
   * the original in place, so the swap fails too and no file changes.
   */
  lemma ReplaceWithoutBackupRefused(d: Disk, os: OsModel, orig: string, tmp: string, maxWait: int)
    requires !os.replaceOnRename && tmp != orig
    requires WaitForUnlock(d, os, orig, maxWait).1 && !BackupTaken(d, os, orig, maxWait)
    ensures Replaced(d, os, orig, tmp, maxWait) == (Tick(Tick(AfterWait(d, os, orig, maxWait))), false)
    ensures Replaced(d, os, orig, tmp, maxWait).0.files == d.files
  {
    WaitForUnlockBounds(d, os, orig, maxWait);
  }

  /**
   * A failed swap after a taken backup rolls back when the backup can be
   * renamed back: the original holds its old content again and the
   * temporary file is where it was.
   */
  lemma ReplaceRollsBack(d: Disk, os: OsModel, orig: string, tmp: string, maxWait: int)
    requires Valid(d) && orig in d.files && tmp != orig
    requires BackupTaken(d, os, orig, maxWait) && !Replaced(d, os, orig, tmp, maxWait).1
    requires var d2 := BackupByRename(AfterWait(d, os, orig, maxWait), os, orig).0;
      var d3 := Renamed(d2, os, tmp, orig).0;
      CanRename(d3, os, NextBackup(AfterWait(d, os, orig, maxWait), orig), orig)
    ensures Replaced(d, os, orig, tmp, maxWait).0.files == d.files
  {
    WaitForUnlockBounds(d, os, orig, maxWait);
    var d1 := AfterWait(d, os, orig, maxWait);
    var b := NextBackup(d1, orig);
    var d2 := BackupByRename(d1, os, orig).0;
    ChainLengthMissing(d1, orig);
    assert d2.files == (d.files - {orig})[b := d.files[orig]];
    assert b !in d.files;
    assert ((d.files - {orig})[b := d.files[orig]] - {b})[orig := d.files[orig]] == d.files;
  }

  method ReplaceFile(fs: FileSystem, orig: string, tmp: string, maxWait: int) returns (ok: bool)
    modifies fs
    ensures (fs.State(), ok) == Replaced(old(fs.State()), fs.os, orig, tmp, maxWait)
  {
    var free := WaitForFileUnlock(fs, orig, maxWait);
    if !free {
      return false;
    }
    var b, backedUp := CreateBackupByRename(fs, orig);
    var swapped := fs.Rename(tmp, orig);
    if swapped {
      return true;
    }
    if backedUp && Exists(fs.State(), b) && !Exists(fs.State(), orig) {
      var restored := fs.Rename(b, orig);
    }
    return false;
  }

  // ---------------------------------------------------------------------
  // A whole run on one container

  /**
   * Restore, write the temporary file, then a replace whose backup is taken:
   * the chain has as many backups as before and the highest one holds the
   * same content, so the next run restores the same original.
   */
  lemma RerunKeepsChain(d: Disk, os: OsModel, p: string, data: Bytes, d2: Disk, maxWait: int)
    requires Valid(d) && ChainLength(d, p) >= 1 && BackupName(p, ChainLength(d, p)) in d.files
    requires RestoreLatest(d, os, p).1.Ok?
    requires d2.files == RestoreLatest(d, os, p).0.files[TempPath(p) := data]
    requires d2.dirs == d.dirs
    requires BackupTaken(d2, os, p, maxWait) && Replaced(d2, os, p, TempPath(p), maxWait).1
    ensures var n := ChainLength(d, p);
      var d' := Replaced(d2, os, p, TempPath(p), maxWait).0;
      && ChainLength(d', p) == n
      && BackupName(p, n) in d'.files
      && d'.files[BackupName(p, n)] == d.files[BackupName(p, n)]
      && p in d'.files && d'.files[p] == data
  {
    var n := ChainLength(d, p);
    var b := BackupName(p, n);
    var d1 := RestoreLatest(d, os, p).0;
    RestoreSucceeds(d, os, p, b);
    assert ChainLength(d1, p) == n - 1;
    TempIsNoBackup(p);
    assert ChainLength(d2, p) == n - 1 by {
      ChainIgnoresTemp(d1, d2, p, data);
    }
    ReplaceSucceeds(d2, os, p, TempPath(p), maxWait);
    var d' := Replaced(d2, os, p, TempPath(p), maxWait).0;
    assert NextBackup(d2, p) == b;
    assert d'.files == ((d2.files - {p})[b := d2.files[p]] - {TempPath(p)})[p := data];
    assert d2.files[p] == d.files[b];
    forall k | 1 <= k <= n
      ensures Exists(d', BackupName(p, k))
    {
      if k < n {
        assert Exists(d, BackupName(p, k));
        if BackupName(p, k) == b { BackupNameInjective(p, k, n); }
      }
    }
    assert !Exists(d, BackupName(p, n + 1));
    ChainLengthUnique(d', p, n);
  }

  /** A temporary file name is never a backup name of the same file. */
  lemma TempIsNoBackup(p: string)
    ensures forall k :: TempPath(p) != BackupName(p, k)
  {
    forall k
      ensures TempPath(p) != BackupName(p, k)
    {
      assert TempPath(p)[|p| + 1] == 't';
      assert BackupName(p, k)[|p| + 1] == 'b';
    }
  }

  /** Writing the temporary file does not change the chain. */
  lemma ChainIgnoresTemp(d1: Disk, d2: Disk, p: string, data: Bytes)
    requires d2.files == d1.files[TempPath(p) := data] && d2.dirs == d1.dirs
    requires forall k :: TempPath(p) != BackupName(p, k)
    ensures ChainLength(d2, p) == ChainLength(d1, p)
  {
    var n := ChainLength(d1, p);
    assert forall k :: Exists(d2, BackupName(p, k)) == Exists(d1, BackupName(p, k));
    ChainLengthUnique(d2, p, n);
  }
}
