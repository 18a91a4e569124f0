/**
 * `AssetProcessor` of core/asset_processor.py: validate the edition's
 * folders, group the requests, and run every container through restore,
 * texture loop and temporary save, with progress numbered across the whole
 * edition. The per-texture image processing (core/pixelation_engine.py) is
 * not part of this model and comes in as a function.
 */
module AssetProcessor {
  import opened Wrappers
  import opened Decimal
  import opened Os
  import opened Paths
  import opened Bitmap
  import opened Backups
  import opened Grouping
  import opened Containers
  import opened CoreUnityProcessor
  import opened CoreFileUtils

  /** The fields of `EditionConfig` this class reads. */
  datatype EditionConfig = EditionConfig(
    name: string,
    targetFolder: string,
    assetsFolder: string,
    masksFolder: string,
    pixelateFiles: seq<string>,
    ignoreBlackShadowFiles: seq<string>,
    debugFolder: string)

  /**
   * What comes from outside: the image processing, UnityPy's load and save,
   * the image encoder, and whether `DEBUG_ENABLED` is set in the environment.
   */
  datatype Tools = Tools(
    run: (Disk, Raster<Rgba>, PixelateEntry, bool) -> Result<Raster<Rgba>, Exception>,
    parse: Parser,
    serialize: Serializer,
    encode: Encoder,
    debugEnabled: bool)

  /** `validate_paths`: the first of target, `join(target, assets)` and masks that is missing raises. */
  function ValidatedPaths(d: Disk, c: EditionConfig): (r: Option<Exception>)
    ensures r.None? <==> Exists(d, c.targetFolder) && Exists(d, Join(c.targetFolder, c.assetsFolder)) && Exists(d, c.masksFolder)
    ensures !Exists(d, c.targetFolder) ==> r == DirectoryCheck(d, c.targetFolder, "Target folder for " + c.name)
    ensures Exists(d, c.targetFolder) && !Exists(d, Join(c.targetFolder, c.assetsFolder)) ==>
              r == DirectoryCheck(d, Join(c.targetFolder, c.assetsFolder), "Assets folder for " + c.name)
  {
    var target := DirectoryCheck(d, c.targetFolder, "Target folder for " + c.name);
    if target.Some? then target
    else
      var assets := DirectoryCheck(d, Join(c.targetFolder, c.assetsFolder), "Assets folder for " + c.name);
      if assets.Some? then assets
      else DirectoryCheck(d, c.masksFolder, "Masks folder for " + c.name)
  }

  /** `group_assets_for_processing`: `{}` for no requests, else grouping under "assets/masks". */
  function GroupedAssets(d: Disk, c: EditionConfig): Groups {
    if c.pixelateFiles == [] then NoGroups
    else GroupFilesByDirectory(d, c.pixelateFiles, c.targetFolder, c.assetsFolder)
  }

  /** The early return for no requests gives what the grouping would give anyway. */
  lemma GroupedAssetsIsGrouping(d: Disk, c: EditionConfig)
    ensures GroupedAssets(d, c) == GroupFilesByDirectory(d, c.pixelateFiles, c.targetFolder, c.assetsFolder)
    ensures c.pixelateFiles == [] ==> GroupedAssets(d, c) == NoGroups
  {
  }

  /**
   * This copy's loop: shadows off for the exempt `asset_dir/asset` paths,
   * debug images only with `DEBUG_ENABLED`, messages numbered from `start`
   * out of `total`.
   */
  function AssetConfig(c: EditionConfig, tools: Tools, shadows: bool, start: nat, total: nat): (cfg: LoopConfig)
    ensures Sound(cfg.pipeline)
    ensures forall e :: ShadowFor(cfg, e) <==> shadows && e.assetDir + [Sep] + e.asset !in c.ignoreBlackShadowFiles
    ensures cfg.debug.Some? <==> tools.debugEnabled
  {
    LoopConfig(External(tools.run), shadows, c.ignoreBlackShadowFiles,
               if tools.debugEnabled then Some(c.debugFolder) else None, tools.encode, Some((start, total)))
  }

  /** The loop and the save of one loaded container; a failed save leaves the list empty but keeps the count. */
  function ProcessedObjects(d: Disk, os: OsModel, c: EditionConfig, tools: Tools, assetFile: string,
                            entries: seq<PixelateEntry>, shadows: bool, start: nat, total: nat,
                            objects: seq<AssetObject>): (Disk, (nat, seq<(string, string)>))
  {
    var cfg := AssetConfig(c, tools, shadows, start, total);
    var s := Swept(cfg, os, Begin(d, objects), TexturePairs(objects, entries));
    var (d2, saved) := SavedTempFile(s.disk, os, assetFile, tools.serialize(s.objects));
    (d2, (s.count, if saved.Ok? then [saved.value] else []))
  }

  /** `list(pixelate_entries.keys())` on a list: a list has no `keys`, so the call always raises. */
  function KeysOfList(entries: seq<PixelateEntry>): Result<seq<string>, Exception> {
    Err(AttributeError("'list' object has no attribute 'keys'"))
  }

  /**
   * `process_asset_file` as written: the restore and the load run, then the
   * index lookup at line 75 raises, and the outer handler returns `(0, [])`.
   */
  function ProcessedAssetAsWritten(d: Disk, os: OsModel, c: EditionConfig, tools: Tools, assetFile: string,
                                   entries: seq<PixelateEntry>, shadows: bool, start: nat, total: nat)
    : (Disk, (nat, seq<(string, string)>))
  {
    var (d1, restored) := RestoreLatest(d, os, assetFile);
    if restored.Err? then (d1, (0, []))
    else match Loaded(d1, assetFile, tools.parse)
      case None => (d1, (0, []))
      case Some(objects) =>
        match KeysOfList(entries)
        case Err(_) => (d1, (0, []))
        case Ok(_) => ProcessedObjects(d1, os, c, tools, assetFile, entries, shadows, start, total, objects)
  }

  /**
   * As written, no container is ever processed: the result is `(0, [])`,
   * yet the latest backup has already been restored over the container.
   */
  lemma AsWrittenDiscardsWork(d: Disk, os: OsModel, c: EditionConfig, tools: Tools, assetFile: string,
                              entries: seq<PixelateEntry>, shadows: bool, start: nat, total: nat)
    ensures ProcessedAssetAsWritten(d, os, c, tools, assetFile, entries, shadows, start, total)
            == (RestoreLatest(d, os, assetFile).0, (0, []))
  {
  }

  /** The restore has changed the files although nothing was processed. */
  lemma AsWrittenStillRestores(d: Disk, os: OsModel, c: EditionConfig, tools: Tools, assetFile: string,
                               entries: seq<PixelateEntry>, shadows: bool, start: nat, total: nat, b: string)
    requires Valid(d) && RestoreLatest(d, os, assetFile).1 == Ok(Some(b))
    ensures var (d', r) := ProcessedAssetAsWritten(d, os, c, tools, assetFile, entries, shadows, start, total);
      && r == (0, [])
      && b !in d'.files && b in d.files && d'.files[assetFile] == d.files[b]
  {
    RestoreSucceeds(d, os, assetFile, b);
    assert b != assetFile;
  }

  /** `process_asset_file` without the failing lookup, which only feeds a log line. */
  function ProcessedAssetFixed(d: Disk, os: OsModel, c: EditionConfig, tools: Tools, assetFile: string,
                               entries: seq<PixelateEntry>, shadows: bool, start: nat, total: nat)
    : (Disk, (nat, seq<(string, string)>))
  {
    var (d1, restored) := RestoreLatest(d, os, assetFile);
    if restored.Err? then (d1, (0, []))
    else match Loaded(d1, assetFile, tools.parse)
      case None => (d1, (0, []))
      case Some(objects) => ProcessedObjects(d1, os, c, tools, assetFile, entries, shadows, start, total, objects)
  }

  /**
   * Corrected, the count is the number of matching pairs of the restored
   * container, the `n`-th message numbers the texture `start + n` out of
   * `total`, and the list holds `(asset_file, asset_file + ".tmp")` exactly
   * when the save succeeded.
   */
  lemma ProcessedAssetFixedResult(d: Disk, os: OsModel, c: EditionConfig, tools: Tools, assetFile: string,
                                  entries: seq<PixelateEntry>, shadows: bool, start: nat, total: nat)
    requires RestoreLatest(d, os, assetFile).1.Ok?
    requires Loaded(RestoreLatest(d, os, assetFile).0, assetFile, tools.parse).Some?
    ensures var d1 := RestoreLatest(d, os, assetFile).0;
      var objects := Loaded(d1, assetFile, tools.parse).value;
      var cfg := AssetConfig(c, tools, shadows, start, total);
      var s := Swept(cfg, os, Begin(d1, objects), TexturePairs(objects, entries));
      var (d', (n, files)) := ProcessedAssetFixed(d, os, c, tools, assetFile, entries, shadows, start, total);
      && n == CountMatching(objects, TexturePairs(objects, entries))
      && |s.log| == n
      && (forall k | 0 <= k < n :: ProgressMessage(cfg, s.log[k].0, s.log[k].1)
                                   == Tag + "Pixelating texture "
                                      + NatToString(start + k + 1) + "/" + NatToString(total) + ": " + s.log[k].1)
      && (files == [] || files == [(assetFile, assetFile + ".tmp")])
      && (files != [] <==> CanWrite(s.disk, os, TempPath(assetFile)) && tools.serialize(s.objects).Some?)
  {
    var d1 := RestoreLatest(d, os, assetFile).0;
    var objects := Loaded(d1, assetFile, tools.parse).value;
    var cfg := AssetConfig(c, tools, shadows, start, total);
    var pairs := TexturePairs(objects, entries);
    SweptCount(cfg, os, Begin(d1, objects), pairs);
    var s := Swept(cfg, os, Begin(d1, objects), pairs);
    SavedTempFileExact(s.disk, os, assetFile, tools.serialize(s.objects));
  }

  /** Where the corrected code hands back a temporary file, the code as written hands back none. */
  lemma AsWrittenLosesTemp(d: Disk, os: OsModel, c: EditionConfig, tools: Tools, assetFile: string,
                           entries: seq<PixelateEntry>, shadows: bool, start: nat, total: nat)
    requires ProcessedAssetFixed(d, os, c, tools, assetFile, entries, shadows, start, total).1.1 != []
    ensures ProcessedAssetAsWritten(d, os, c, tools, assetFile, entries, shadows, start, total).1.1 == []
    ensures ProcessedAssetAsWritten(d, os, c, tools, assetFile, entries, shadows, start, total)
            != ProcessedAssetFixed(d, os, c, tools, assetFile, entries, shadows, start, total)
  {
    AsWrittenDiscardsWork(d, os, c, tools, assetFile, entries, shadows, start, total);
  }

  method ProcessAssetFile(fs: FileSystem, c: EditionConfig, tools: Tools, assetFile: string,
                          entries: seq<PixelateEntry>, shadows: bool, start: nat, total: nat)
    returns (n: nat, files: seq<(string, string)>)
    modifies fs
    ensures (fs.State(), (n, files)) == ProcessedAssetFixed(old(fs.State()), fs.os, c, tools, assetFile, entries, shadows, start, total)
  {
    var restored := RestoreLatestBackup(fs, assetFile);
    if restored.Err? {
      return 0, [];
    }
    var env := Loaded(fs.State(), assetFile, tools.parse);
    if env.None? {
      return 0, [];
    }
    var cfg := AssetConfig(c, tools, shadows, start, total);
    var s := ProcessTextures(fs, env.value, entries, cfg);
    n := s.count;
    var saved := SaveTempFile(fs, assetFile, tools.serialize(s.objects));
    files := if saved.Ok? then [saved.value] else [];
  }

  // ---------------------------------------------------------------------
  // process_all_assets

  /** One container's run: from the disk, the container, its entries and the first number, the new disk, count and replacements. */
  type ContainerRun = (Disk, string, seq<PixelateEntry>, nat) -> (Disk, (nat, seq<(string, string)>))

  /** The corrected `process_asset_file` of this edition. */
  function FixedRun(os: OsModel, c: EditionConfig, tools: Tools, shadows: bool, total: nat): ContainerRun {
    (d: Disk, k: string, es: seq<PixelateEntry>, st: nat) => ProcessedAssetFixed(d, os, c, tools, k, es, shadows, st, total)
  }

  /** A run hands back no replacement or the container's own `.tmp`. */
  ghost predicate PairsOwnTemp(run: ContainerRun) {
    forall d, k, es, st :: run(d, k, es, st).1.1 == [] || run(d, k, es, st).1.1 == [(k, k + ".tmp")]
  }

  /**
   * The containers from `keys` on, in order: each starts numbering where the
   * previous one stopped. The result is the disk, the running total and
   * the concatenated replacement lists.
   */
  function ProcessedGroups(d: Disk, run: ContainerRun, g: Groups, keys: seq<string>, start: nat)
    : (Disk, nat, seq<(string, string)>)
    requires forall k | k in keys :: k in g.entries
    decreases |keys|
  {
    if keys == [] then (d, start, [])
    else
      var r := run(d, keys[0], g.entries[keys[0]], start);
      var t := ProcessedGroups(r.0, run, g, keys[1..], start + r.1.0);
      (t.0, t.1, r.1.1 + t.2)
  }

  /** After `i` containers, `all` followed by the rest of the run is the whole run. */
  ghost predicate RunContinues(d: Disk, run: ContainerRun, g: Groups, keys: seq<string>, i: nat, done: nat,
                               all: seq<(string, string)>, d0: Disk)
    requires forall k | k in keys :: k in g.entries
    requires i <= |keys|
  {
    var t := ProcessedGroups(d, run, g, keys[i..], done);
    (t.0, t.1, all + t.2) == ProcessedGroups(d0, run, g, keys, 0)
  }

  /** One more container keeps the run on course. */
  lemma RunContinuesStep(d: Disk, run: ContainerRun, g: Groups, keys: seq<string>, i: nat, done: nat,
                         all: seq<(string, string)>, d0: Disk, d': Disk, n: nat, files: seq<(string, string)>)
    requires forall k | k in keys :: k in g.entries
    requires i < |keys|
    requires RunContinues(d, run, g, keys, i, done, all, d0)
    requires (d', (n, files)) == run(d, keys[i], g.entries[keys[i]], done)
    ensures RunContinues(d', run, g, keys, i + 1, done + n, all + files, d0)
  {
    assert keys[i..][0] == keys[i] && keys[i..][1..] == keys[i + 1..];
    var t := ProcessedGroups(d', run, g, keys[i + 1..], done + n);
    assert all + (files + t.2) == (all + files) + t.2;
  }

  /**
   * The replacements follow the order of `keys`, at most one per container,
   * and each pairs a container with its `.tmp` file.
   */
  lemma {:induction false} ProcessedGroupsPairs(d: Disk, run: ContainerRun, g: Groups, keys: seq<string>, start: nat)
    requires forall k | k in keys :: k in g.entries
    requires PairsOwnTemp(run)
    ensures var files := ProcessedGroups(d, run, g, keys, start).2;
      && Subsequence(Firsts(files), keys)
      && |files| <= |keys|
      && forall i | 0 <= i < |files| :: files[i].0 in keys && files[i].1 == files[i].0 + ".tmp"
    decreases |keys|
  {
    var files := ProcessedGroups(d, run, g, keys, start).2;
    if keys != [] {
      var r := run(d, keys[0], g.entries[keys[0]], start);
      ProcessedGroupsPairs(r.0, run, g, keys[1..], start + r.1.0);
      var rest := ProcessedGroups(r.0, run, g, keys[1..], start + r.1.0).2;
      assert files == r.1.1 + rest;
      FirstsAfterHead(r.1.1, rest, keys[0]);
      SubsequenceStep(if r.1.1 == [] then [] else [keys[0]], Firsts(rest), keys);
    }
    SubsequenceMembers(Firsts(files), keys);
    forall i | 0 <= i < |files| ensures files[i].0 in keys {
      assert Firsts(files)[i] in Firsts(files);
    }
  }

  /** The disk and the running total that the first `i` containers leave behind. */
  function GroupsBefore(d: Disk, run: ContainerRun, g: Groups, keys: seq<string>, i: nat, start: nat): (Disk, nat)
    requires forall k | k in keys :: k in g.entries
    requires i <= |keys|
  {
    assert forall k | k in keys[..i] :: k in keys;
    var t := ProcessedGroups(d, run, g, keys[..i], start);
    (t.0, t.1)
  }

  /**
   * Over distinct containers, a container is listed exactly when its own run,
   * on the disk and from the number its predecessors left, hands back a pair.
   */
  lemma {:induction false} ProcessedListsExactly(d: Disk, run: ContainerRun, g: Groups, keys: seq<string>,
                                                start: nat, i: nat)
    requires forall k | k in keys :: k in g.entries
    requires forall a, b | 0 <= a < b < |keys| :: keys[a] != keys[b]
    requires PairsOwnTemp(run)
    requires i < |keys|
    ensures var before := GroupsBefore(d, run, g, keys, i, start);
      keys[i] in Firsts(ProcessedGroups(d, run, g, keys, start).2)
      <==> run(before.0, keys[i], g.entries[keys[i]], before.1).1.1 != []
    decreases |keys|
  {
    var r := run(d, keys[0], g.entries[keys[0]], start);
    var rest := ProcessedGroups(r.0, run, g, keys[1..], start + r.1.0).2;
    var files := ProcessedGroups(d, run, g, keys, start).2;
    assert files == r.1.1 + rest;
    FirstsAfterHead(r.1.1, rest, keys[0]);
    ProcessedGroupsPairs(r.0, run, g, keys[1..], start + r.1.0);
    SubsequenceMembers(Firsts(rest), keys[1..]);
    DistinctTail(keys);
    assert keys[i] != keys[0] || i == 0;
    ListedAfterHead(keys[0], keys[i], Firsts(files), r.1.1 != [], Firsts(rest), keys[1..]);
    if i == 0 {
      assert keys[..0] == [];
      assert GroupsBefore(d, run, g, keys, 0, start) == (d, start);
      assert keys[0] in Firsts(files) <==> r.1.1 != [];
    } else {
      GroupsBeforeTail(d, run, g, keys, i, start);
      ProcessedListsExactly(r.0, run, g, keys[1..], start + r.1.0, i - 1);
      var before := GroupsBefore(r.0, run, g, keys[1..], i - 1, start + r.1.0);
      assert keys[i] in Firsts(rest) <==> run(before.0, keys[i], g.entries[keys[i]], before.1).1.1 != [];
      assert keys[i] in Firsts(files) <==> keys[i] in Firsts(rest);
    }
  }

  /** What the first `i` containers leave is what the first `i - 1` after the head leave. */
  lemma GroupsBeforeTail(d: Disk, run: ContainerRun, g: Groups, keys: seq<string>, i: nat, start: nat)
    requires forall k | k in keys :: k in g.entries
    requires 0 < i < |keys|
    ensures var r := run(d, keys[0], g.entries[keys[0]], start);
      && GroupsBefore(d, run, g, keys, i, start) == GroupsBefore(r.0, run, g, keys[1..], i - 1, start + r.1.0)
      && keys[1..][i - 1] == keys[i]
  {
    assert keys[..i][0] == keys[0] && keys[..i][1..] == keys[1..][..i - 1];
  }

  /** One container gives no replacement or its own `.tmp`. */
  lemma FixedPairShape(d: Disk, os: OsModel, c: EditionConfig, tools: Tools, assetFile: string,
                       entries: seq<PixelateEntry>, shadows: bool, start: nat, total: nat)
    ensures var files := ProcessedAssetFixed(d, os, c, tools, assetFile, entries, shadows, start, total).1.1;
      files == [] || files == [(assetFile, assetFile + ".tmp")]
  {
    var (d1, restored) := RestoreLatest(d, os, assetFile);
    if restored.Ok? && Loaded(d1, assetFile, tools.parse).Some? {
      ProcessedAssetFixedResult(d, os, c, tools, assetFile, entries, shadows, start, total);
    }
  }

  lemma FixedRunPairs(os: OsModel, c: EditionConfig, tools: Tools, shadows: bool, total: nat)
    ensures PairsOwnTemp(FixedRun(os, c, tools, shadows, total))
  {
    forall d, k, es, st ensures FixedRun(os, c, tools, shadows, total)(d, k, es, st).1.1 == []
                                || FixedRun(os, c, tools, shadows, total)(d, k, es, st).1.1 == [(k, k + ".tmp")] {
      FixedPairShape(d, os, c, tools, k, es, shadows, st, total);
    }
  }

  /**
   * `process_all_assets` around a given `process_asset_file`, `runFor(total)`:
   * validation raises before any container is touched; no requests give `[]`;
   * otherwise every container in group order, with the total the number of
   * entries over all groups.
   */
  function EditionWith(d: Disk, c: EditionConfig, runFor: nat -> ContainerRun)
    : (r: (Disk, Result<seq<(string, string)>, Exception>))
    ensures ValidatedPaths(d, c).Some? ==> r == (d, Err(ValidatedPaths(d, c).value))
    ensures ValidatedPaths(d, c).None? && c.pixelateFiles == [] ==> r == (d, Ok([]))
  {
    match ValidatedPaths(d, c)
    case Some(e) => (d, Err(e))
    case None =>
      if c.pixelateFiles == [] then (d, Ok([]))
      else
        var g := GroupedAssets(d, c);
        GroupedWellFormed(d, c.pixelateFiles, c.targetFolder, c.assetsFolder, FixedMasksRoot);
        var total := TotalEntries(g, g.keys);
        var (d', _, files) := ProcessedGroups(d, runFor(total), g, g.keys, 0);
        (d', Ok(files))
  }

  /**
   * `process_all_assets` with the corrected `process_asset_file`
   * (`FixedRun`): validation raises before any container is touched, and no
   * requests give `[]`, as in the code as written.
   */
  function AllProcessed(d: Disk, os: OsModel, c: EditionConfig, tools: Tools, shadows: bool)
    : (r: (Disk, Result<seq<(string, string)>, Exception>))
    ensures ValidatedPaths(d, c).Some? ==> r == (d, Err(ValidatedPaths(d, c).value))
    ensures ValidatedPaths(d, c).None? && c.pixelateFiles == [] ==> r == (d, Ok([]))
  {
    EditionWith(d, c, total => FixedRun(os, c, tools, shadows, total))
  }

  /** `process_asset_file` as written, for this edition. */
  function AsWrittenRun(os: OsModel, c: EditionConfig, tools: Tools, shadows: bool, total: nat): ContainerRun {
    (d: Disk, k: string, es: seq<PixelateEntry>, st: nat) => ProcessedAssetAsWritten(d, os, c, tools, k, es, shadows, st, total)
  }

  /** `process_all_assets` as written. */
  function AllProcessedAsWritten(d: Disk, os: OsModel, c: EditionConfig, tools: Tools, shadows: bool)
    : (Disk, Result<seq<(string, string)>, Exception>)
  {
    EditionWith(d, c, total => AsWrittenRun(os, c, tools, shadows, total))
  }

  /** The latest backup of each container of `keys` restored over it, one after another. */
  function RestoredAll(d: Disk, os: OsModel, keys: seq<string>): Disk
    decreases |keys|
  {
    if keys == [] then d else RestoredAll(RestoreLatest(d, os, keys[0]).0, os, keys[1..])
  }

  /** As written, one container's run only restores its latest backup. */
  lemma AsWrittenRunRestores(os: OsModel, c: EditionConfig, tools: Tools, shadows: bool, total: nat)
    ensures forall d, k, es, st :: AsWrittenRun(os, c, tools, shadows, total)(d, k, es, st) == (RestoreLatest(d, os, k).0, (0, []))
  {
    forall d, k, es, st
      ensures AsWrittenRun(os, c, tools, shadows, total)(d, k, es, st) == (RestoreLatest(d, os, k).0, (0, []))
    {
      AsWrittenDiscardsWork(d, os, c, tools, k, es, shadows, st, total);
    }
  }

  /** A container loop whose runs only restore counts nothing, lists nothing, and restores every container in turn. */
  lemma {:induction false} RestoringGroups(d: Disk, os: OsModel, run: ContainerRun, g: Groups, keys: seq<string>, start: nat)
    requires forall k | k in keys :: k in g.entries
    requires forall d, k, es, st :: run(d, k, es, st) == (RestoreLatest(d, os, k).0, (0, []))
    ensures ProcessedGroups(d, run, g, keys, start) == (RestoredAll(d, os, keys), start, [])
    decreases |keys|
  {
    if keys != [] {
      var d1 := RestoreLatest(d, os, keys[0]).0;
      var r := run(d, keys[0], g.entries[keys[0]], start);
      assert r == (d1, (0, []));
      RestoringGroups(d1, os, run, g, keys[1..], start);
      var t := ProcessedGroups(r.0, run, g, keys[1..], start + r.1.0);
      assert t == (RestoredAll(d1, os, keys[1..]), start, []);
      assert ProcessedGroups(d, run, g, keys, start) == (t.0, t.1, r.1.1 + t.2);
      assert RestoredAll(d, os, keys) == RestoredAll(d1, os, keys[1..]);
      assert r.1.1 + t.2 == [];
    }
  }

  /**
   * As written, an edition that passes validation and has requests returns
   * `[]`, with the latest backup of every grouped container restored over it;
   * validation failures and empty requests behave as in the corrected code.
   */
  lemma AsWrittenEditionDiscardsWork(d: Disk, os: OsModel, c: EditionConfig, tools: Tools, shadows: bool)
    ensures ValidatedPaths(d, c).None? && c.pixelateFiles != [] ==>
              AllProcessedAsWritten(d, os, c, tools, shadows) == (RestoredAll(d, os, GroupedAssets(d, c).keys), Ok([]))
    ensures ValidatedPaths(d, c).Some? || c.pixelateFiles == [] ==>
              AllProcessedAsWritten(d, os, c, tools, shadows) == AllProcessed(d, os, c, tools, shadows)
  {
    if ValidatedPaths(d, c).None? && c.pixelateFiles != [] {
      var g := GroupedAssets(d, c);
      GroupedWellFormed(d, c.pixelateFiles, c.targetFolder, c.assetsFolder, FixedMasksRoot);
      var total := TotalEntries(g, g.keys);
      AsWrittenRunRestores(os, c, tools, shadows, total);
      RestoringGroups(d, os, AsWrittenRun(os, c, tools, shadows, total), g, g.keys, 0);
    }
  }

  /**
   * The replacements are the `.tmp` files of grouped containers, in group
   * order and at most one each; a container is listed exactly when its
   * corrected `process_asset_file`, on the disk and from the number the
   * containers before it left, hands back a pair.
   */
  lemma AllProcessedPairs(d: Disk, os: OsModel, c: EditionConfig, tools: Tools, shadows: bool)
    requires AllProcessed(d, os, c, tools, shadows).1.Ok?
    ensures WellFormed(GroupedAssets(d, c))
    ensures var files := AllProcessed(d, os, c, tools, shadows).1.value;
      var g := GroupedAssets(d, c);
      var run := FixedRun(os, c, tools, shadows, TotalEntries(g, g.keys));
      && Subsequence(Firsts(files), g.keys)
      && |files| <= |g.keys|
      && (forall i | 0 <= i < |files| :: files[i].0 in g.entries && files[i].1 == files[i].0 + ".tmp")
      && forall i | 0 <= i < |g.keys| ::
           var before := GroupsBefore(d, run, g, g.keys, i, 0);
           g.keys[i] in Firsts(files)
           <==> ProcessedAssetFixed(before.0, os, c, tools, g.keys[i], g.entries[g.keys[i]], shadows, before.1,
                                    TotalEntries(g, g.keys)).1.1 != []
  {
    var g := GroupedAssets(d, c);
    var files := AllProcessed(d, os, c, tools, shadows).1.value;
    if c.pixelateFiles != [] {
      GroupedWellFormed(d, c.pixelateFiles, c.targetFolder, c.assetsFolder, FixedMasksRoot);
    }
    var total := TotalEntries(g, g.keys);
    var run := FixedRun(os, c, tools, shadows, total);
    if ValidatedPaths(d, c).None? && c.pixelateFiles != [] {
      FixedRunPairs(os, c, tools, shadows, total);
      ProcessedGroupsPairs(d, run, g, g.keys, 0);
      forall i | 0 <= i < |g.keys|
        ensures var before := GroupsBefore(d, run, g, g.keys, i, 0);
          g.keys[i] in Firsts(files)
          <==> ProcessedAssetFixed(before.0, os, c, tools, g.keys[i], g.entries[g.keys[i]], shadows, before.1,
                                   total).1.1 != []
      {
        ProcessedListsExactly(d, run, g, g.keys, 0, i);
      }
    }
    SubsequenceMembers(Firsts(files), g.keys);
    forall i | 0 <= i < |files| ensures files[i].0 in g.entries {
      assert Firsts(files)[i] in Firsts(files);
    }
  }

  /** `process_asset_file` seen through the run it is proved against. */
  method RunContainer(fs: FileSystem, c: EditionConfig, tools: Tools, shadows: bool, key: string,
                      entries: seq<PixelateEntry>, start: nat, total: nat, ghost run: ContainerRun)
    returns (n: nat, files: seq<(string, string)>)
    requires forall d, k, es, st :: run(d, k, es, st) == ProcessedAssetFixed(d, fs.os, c, tools, k, es, shadows, st, total)
    modifies fs
    ensures (fs.State(), (n, files)) == run(old(fs.State()), key, entries, start)
  {
    n, files := ProcessAssetFile(fs, c, tools, key, entries, shadows, start, total);
  }

  /** The containers of `keys` one after another, numbered from 0 out of `total`, each run by the corrected `process_asset_file`. */
  method ProcessGroups(fs: FileSystem, c: EditionConfig, tools: Tools, shadows: bool, g: Groups, keys: seq<string>,
                       total: nat, ghost run: ContainerRun)
    returns (all: seq<(string, string)>)
    requires forall k | k in keys :: k in g.entries
    requires forall d, k, es, st :: run(d, k, es, st) == ProcessedAssetFixed(d, fs.os, c, tools, k, es, shadows, st, total)
    modifies fs
    ensures var t := ProcessedGroups(old(fs.State()), run, g, keys, 0); fs.State() == t.0 && all == t.2
  {
    ghost var d0 := fs.State();
    var done: nat := 0;
    all := [];
    var i := 0;
    assert keys[0..] == keys;
    assert [] + ProcessedGroups(d0, run, g, keys, 0).2 == ProcessedGroups(d0, run, g, keys, 0).2;
    while i < |keys|
      invariant 0 <= i <= |keys|
      invariant RunContinues(fs.State(), run, g, keys, i, done, all, d0)
    {
      var key := keys[i];
      ghost var before := fs.State();
      var n, files := RunContainer(fs, c, tools, shadows, key, g.entries[key], done, total, run);
      RunContinuesStep(before, run, g, keys, i, done, all, d0, fs.State(), n, files);
      done := done + n;
      all := all + files;
      i := i + 1;
    }
    assert keys[i..] == [];
    assert all + [] == all;
  }

  /** `process_all_assets`, with the corrected `process_asset_file`. */
  method ProcessAllAssets(fs: FileSystem, c: EditionConfig, tools: Tools, shadows: bool)
    returns (r: Result<seq<(string, string)>, Exception>)
    modifies fs
    ensures (fs.State(), r) == AllProcessed(old(fs.State()), fs.os, c, tools, shadows)
  {
    ghost var d0 := fs.State();
    var invalid := ValidatedPaths(fs.State(), c);
    if invalid.Some? {
      return Err(invalid.value);
    }
    if |c.pixelateFiles| == 0 {
      return Ok([]);
    }
    var g := GroupFiles(fs, c.pixelateFiles, c.targetFolder, c.assetsFolder);
    GroupedWellFormed(d0, c.pixelateFiles, c.targetFolder, c.assetsFolder, FixedMasksRoot);
    var total := TotalEntries(g, g.keys);
    var all := ProcessGroups(fs, c, tools, shadows, g, g.keys, total, FixedRun(fs.os, c, tools, shadows, total));
    r := Ok(all);
  }
}
