/**
 * `AssetManager` of src/game/asset_manager.py: validate the edition's
 * folders, group the requests under the configured masks folder, run every
 * container through restore, texture loop and temporary save with failures
 * isolated per container, and finally swap the temporary files in with a
 * backup by copy.
 */
module AssetManager {
  import opened Wrappers
  import opened Os
  import opened Paths
  import opened Text
  import opened Backups
  import opened Grouping
  import opened Containers
  import opened GameUnityProcessor
  import opened UtilsFileUtils
  import CoreUnityProcessor

  /** The values `process_edition` reads from the edition's configuration. */
  datatype EditionSettings = EditionSettings(
    targetFolder: string,
    assetsFolder: string,
    masksFolder: string,
    debugPixelatedFolder: string,
    pixelateFiles: seq<string>)

  /**
   * What comes from outside: the compositor (with the resize amount folded
   * into its size function), the image encoder, UnityPy's availability, load
   * and save, and the `DEBUG_ENABLED` setting.
   */
  datatype GameTools = GameTools(
    pipeline: Pipeline,
    encode: Encoder,
    available: bool,
    parse: Parser,
    serialize: Serializer,
    debugEnabled: bool)

  ghost predicate Usable(t: GameTools) {
    t.pipeline.Compositor? && Sound(t.pipeline)
  }

  // ---------------------------------------------------------------------
  // validate_asset_files

  /** One error line when the path does not exist. */
  function Missing(d: Disk, p: string, message: string): (r: seq<string>)
    ensures r == [] <==> Exists(d, p)
    ensures r != [] ==> r == [message]
  {
    if Exists(d, p) then [] else [message]
  }

  function TargetError(target: string): string {
    "Target folder '" + target + "' does not exist."
  }

  function AssetsError(assetsPath: string): string {
    "Assets folder '" + assetsPath + "' does not exist."
  }

  function MasksError(masks: string): string {
    "Masks folder '" + masks + "' does not exist."
  }

  function AssetFileError(assetFile: string): string {
    "Asset file '" + assetFile + "' does not exist."
  }

  /** The errors for the containers, in dictionary order. */
  function AssetFileErrors(d: Disk, keys: seq<string>): seq<string> {
    if keys == [] then []
    else AssetFileErrors(d, keys[..|keys| - 1]) + Missing(d, keys[|keys| - 1], AssetFileError(keys[|keys| - 1]))
  }

  /** The three folder checks in their order, then one per container. */
  function ValidationErrors(d: Disk, keys: seq<string>, target: string, assets: string, masks: string): seq<string> {
    Missing(d, target, TargetError(target))
      + Missing(d, Join(target, assets), AssetsError(Join(target, assets)))
      + Missing(d, masks, MasksError(masks))
      + AssetFileErrors(d, keys)
  }

  /**
   * The container errors name exactly the missing containers, one line each
   * in key order; none is reported for a container that exists.
   */
  lemma {:induction false} AssetFileErrorsExact(d: Disk, keys: seq<string>)
    ensures |AssetFileErrors(d, keys)| <= |keys|
    ensures AssetFileErrors(d, keys) == [] <==> forall k | k in keys :: Exists(d, k)
    ensures forall k | k in keys && !Exists(d, k) :: AssetFileError(k) in AssetFileErrors(d, keys)
    ensures forall e | e in AssetFileErrors(d, keys) :: exists k | k in keys :: !Exists(d, k) && e == AssetFileError(k)
  {
    if keys != [] {
      var init := keys[..|keys| - 1];
      var last := keys[|keys| - 1];
      AssetFileErrorsExact(d, init);
      assert forall k | k in keys :: k in init || k == last;
      assert forall k | k in init :: k in keys;
    }
  }

  /**
   * No error exactly when target, `join(target, assets)`, masks and every
   * container exist; the folder errors come first, in that order.
   */
  lemma ValidationErrorsExact(d: Disk, keys: seq<string>, target: string, assets: string, masks: string)
    ensures var errors := ValidationErrors(d, keys, target, assets, masks);
      && (errors == [] <==> Exists(d, target) && Exists(d, Join(target, assets)) && Exists(d, masks)
                            && forall k | k in keys :: Exists(d, k))
      && (!Exists(d, target) ==> errors[0] == TargetError(target))
      && (Exists(d, target) && !Exists(d, Join(target, assets)) ==> errors[0] == AssetsError(Join(target, assets)))
      && (keys == [] ==> |errors| <= 3)
  {
    AssetFileErrorsExact(d, keys);
  }

  method ValidateAssetFiles(fs: FileSystem, keys: seq<string>, target: string, assets: string, masks: string)
    returns (errors: seq<string>)
    ensures errors == ValidationErrors(fs.State(), keys, target, assets, masks)
  {
    var d := fs.State();
    errors := [];
    if !Exists(d, target) {
      errors := errors + [TargetError(target)];
    }
    assert errors == Missing(d, target, TargetError(target));
    var assetsPath := Join(target, assets);
    if !Exists(d, assetsPath) {
      errors := errors + [AssetsError(assetsPath)];
    }
    ghost var two := Missing(d, target, TargetError(target)) + Missing(d, assetsPath, AssetsError(assetsPath));
    assert errors == two;
    if !Exists(d, masks) {
      errors := errors + [MasksError(masks)];
    }
    ghost var folders := two + Missing(d, masks, MasksError(masks));
    assert errors == folders;
    errors := AppendAssetFileErrors(d, keys, errors);
  }

  /** The loop over the containers: one line appended per missing one. */
  method AppendAssetFileErrors(d: Disk, keys: seq<string>, start: seq<string>) returns (errors: seq<string>)
    ensures errors == start + AssetFileErrors(d, keys)
  {
    errors := start;
    var i := 0;
    while i < |keys|
      invariant 0 <= i <= |keys|
      invariant errors == start + AssetFileErrors(d, keys[..i])
    {
      assert keys[..i + 1][..i] == keys[..i];
      ghost var step := Missing(d, keys[i], AssetFileError(keys[i]));
      assert AssetFileErrors(d, keys[..i + 1]) == AssetFileErrors(d, keys[..i]) + step;
      if !Exists(d, keys[i]) {
        errors := errors + [AssetFileError(keys[i])];
      }
      i := i + 1;
    }
    assert keys[..i] == keys;
  }

  // ---------------------------------------------------------------------
  // process_edition

  /** The loop configuration: the debug folder is passed only with `DEBUG_ENABLED`. */
  function EditionLoop(s: EditionSettings, tools: GameTools, shadows: bool): (cfg: LoopConfig)
    requires tools.pipeline.Compositor?
    ensures cfg.debug.Some? <==> tools.debugEnabled && s.debugPixelatedFolder != ""
    ensures cfg.pipeline == tools.pipeline
  {
    GameConfig(tools.pipeline, shadows, if tools.debugEnabled then Some(s.debugPixelatedFolder) else None,
               tools.debugEnabled, tools.encode)
  }

  /**
   * One container inside the `try`: an exception of the restore is caught
   * and the container skipped (whatever the restore already changed stays
   * changed); otherwise the pair `(container, temp)` when a temporary file
   * came back.
   */
  function ContainerProcessed(d: Disk, os: OsModel, s: EditionSettings, tools: GameTools, shadows: bool,
                              assetFile: string, entries: seq<PixelateEntry>): (Disk, seq<(string, string)>)
    requires Usable(tools)
  {
    var (d1, restored) := RestoreLatest(d, os, assetFile);
    if restored.Err? then (d1, [])
    else
      var r := ProcessedGameAsset(d1, os, assetFile, entries, EditionLoop(s, tools, shadows),
                                  tools.available, tools.parse, tools.serialize);
      (r.0, if r.1.1.Some? then [(assetFile, r.1.1.value)] else [])
  }

  /** The texture loop of one container, on the disk the restore left and the objects that loaded. */
  function ContainerSweep(d1: Disk, os: OsModel, s: EditionSettings, tools: GameTools, shadows: bool,
                          objects: seq<AssetObject>, entries: seq<PixelateEntry>): Session
    requires Usable(tools)
  {
    Swept(EditionLoop(s, tools, shadows), os, Begin(d1, objects), TexturePairs(objects, entries))
  }

  /**
   * Whether a container's `.tmp` file gets written: the restore goes through,
   * the container loads, and after the texture loop the temporary file can be
   * opened and the container serialises.
   */
  ghost predicate TempSaved(d: Disk, os: OsModel, s: EditionSettings, tools: GameTools, shadows: bool,
                            assetFile: string, entries: seq<PixelateEntry>)
    requires Usable(tools)
  {
    var (d1, restored) := RestoreLatest(d, os, assetFile);
    var loaded := LoadAssetFile(tools.available, d1, assetFile, tools.parse);
    && restored.Ok? && loaded.Some?
    && var sw := ContainerSweep(d1, os, s, tools, shadows, loaded.value, entries);
       CanWrite(sw.disk, os, TempPath(assetFile)) && tools.serialize(sw.objects).Some?
  }

  /**
   * A container contributes its pair exactly when the restore, the load and
   * the save succeed; the pair is the container with its `.tmp` file, which
   * then holds the serialised container.
   */
  lemma ContainerPair(d: Disk, os: OsModel, s: EditionSettings, tools: GameTools, shadows: bool,
                      assetFile: string, entries: seq<PixelateEntry>)
    requires Usable(tools)
    ensures var (d', files) := ContainerProcessed(d, os, s, tools, shadows, assetFile, entries);
      && (files == [] || files == [(assetFile, TempPath(assetFile))])
      && (files != [] <==> TempSaved(d, os, s, tools, shadows, assetFile, entries))
      && (RestoreLatest(d, os, assetFile).1.Err? ==> (d', files) == (RestoreLatest(d, os, assetFile).0, []))
      && (var d1 := RestoreLatest(d, os, assetFile).0;
          var loaded := LoadAssetFile(tools.available, d1, assetFile, tools.parse);
          && (loaded.None? ==> files == [])
          && (files != [] ==>
                var sw := ContainerSweep(d1, os, s, tools, shadows, loaded.value, entries);
                TempPath(assetFile) in d'.files && d'.files[TempPath(assetFile)] == tools.serialize(sw.objects).value))
  {
    var (d1, restored) := RestoreLatest(d, os, assetFile);
    if restored.Ok? {
      var cfg := EditionLoop(s, tools, shadows);
      var loaded := LoadAssetFile(tools.available, d1, assetFile, tools.parse);
      if loaded.Some? {
        ProcessedGameAssetResult(d1, os, assetFile, entries, cfg, tools.available, tools.parse, tools.serialize);
        var sw := ContainerSweep(d1, os, s, tools, shadows, loaded.value, entries);
        SavedTempExact(sw.disk, os, assetFile, tools.serialize(sw.objects));
      }
    }
  }

  /** One container's run: the new disk and its replacement pairs. */
  type EditionRun = (Disk, string, seq<PixelateEntry>) -> (Disk, seq<(string, string)>)

  function ContainerRun(os: OsModel, s: EditionSettings, tools: GameTools, shadows: bool): EditionRun
    requires Usable(tools)
  {
    (d: Disk, k: string, es: seq<PixelateEntry>) => ContainerProcessed(d, os, s, tools, shadows, k, es)
  }

  /** A run hands back no pair or the container's own `.tmp`. */
  ghost predicate OwnTempOnly(run: EditionRun) {
    forall d, k, es :: run(d, k, es).1 == [] || run(d, k, es).1 == [(k, TempPath(k))]
  }

  lemma ContainerRunOwnTemp(os: OsModel, s: EditionSettings, tools: GameTools, shadows: bool)
    requires Usable(tools)
    ensures OwnTempOnly(ContainerRun(os, s, tools, shadows))
  {
    forall d, k, es ensures ContainerRun(os, s, tools, shadows)(d, k, es).1 == []
                            || ContainerRun(os, s, tools, shadows)(d, k, es).1 == [(k, TempPath(k))] {
      ContainerPair(d, os, s, tools, shadows, k, es);
    }
  }

  /** The containers of `keys` in order, each on the disk the previous one left. */
  function EditionProcessed(d: Disk, run: EditionRun, g: Groups, keys: seq<string>): (Disk, seq<(string, string)>)
    requires forall k | k in keys :: k in g.entries
    decreases |keys|
  {
    if keys == [] then (d, [])
    else
      var r := run(d, keys[0], g.entries[keys[0]]);
      var t := EditionProcessed(r.0, run, g, keys[1..]);
      (t.0, r.1 + t.1)
  }

  /** The disk that the first `i` containers leave behind. */
  function DiskBefore(d: Disk, run: EditionRun, g: Groups, keys: seq<string>, i: nat): Disk
    requires forall k | k in keys :: k in g.entries
    requires i <= |keys|
  {
    assert forall k | k in keys[..i] :: k in keys;
    EditionProcessed(d, run, g, keys[..i]).0
  }

  /**
   * Over distinct containers, a container is listed exactly when its own run,
   * on the disk its predecessors left, hands back a pair.
   */
  lemma {:induction false} EditionListsExactly(d: Disk, run: EditionRun, g: Groups, keys: seq<string>, i: nat)
    requires forall k | k in keys :: k in g.entries
    requires forall a, b | 0 <= a < b < |keys| :: keys[a] != keys[b]
    requires OwnTempOnly(run)
    requires i < |keys|
    ensures keys[i] in Firsts(EditionProcessed(d, run, g, keys).1)
            <==> run(DiskBefore(d, run, g, keys, i), keys[i], g.entries[keys[i]]).1 != []
    decreases |keys|
  {
    var r := run(d, keys[0], g.entries[keys[0]]);
    var rest := EditionProcessed(r.0, run, g, keys[1..]).1;
    var files := EditionProcessed(d, run, g, keys).1;
    assert files == r.1 + rest;
    FirstsAfterHead(r.1, rest, keys[0]);
    EditionPairsInOrder(r.0, run, g, keys[1..]);
    SubsequenceMembers(Firsts(rest), keys[1..]);
    DistinctTail(keys);
    assert keys[i] != keys[0] || i == 0;
    ListedAfterHead(keys[0], keys[i], Firsts(files), r.1 != [], Firsts(rest), keys[1..]);
    if i == 0 {
      assert keys[..0] == [];
    } else {
      DiskBeforeTail(d, run, g, keys, i);
      EditionListsExactly(r.0, run, g, keys[1..], i - 1);
    }
  }

  /** What the first `i` containers leave is what the first `i - 1` after the head leave. */
  lemma DiskBeforeTail(d: Disk, run: EditionRun, g: Groups, keys: seq<string>, i: nat)
    requires forall k | k in keys :: k in g.entries
    requires 0 < i < |keys|
    ensures && DiskBefore(d, run, g, keys, i) == DiskBefore(run(d, keys[0], g.entries[keys[0]]).0, run, g, keys[1..], i - 1)
            && keys[1..][i - 1] == keys[i]
  {
    assert keys[..i][0] == keys[0] && keys[..i][1..] == keys[1..][..i - 1];
  }


  /**
   * The replacement pairs follow the group order, at most one per container,
   * and each pairs a container with its `.tmp` file.
   */
  lemma {:induction false} EditionPairsInOrder(d: Disk, run: EditionRun, g: Groups, keys: seq<string>)
    requires forall k | k in keys :: k in g.entries
    requires OwnTempOnly(run)
    ensures var files := EditionProcessed(d, run, g, keys).1;
      && Subsequence(Firsts(files), keys)
      && forall i | 0 <= i < |files| :: files[i].1 == TempPath(files[i].0)
    decreases |keys|
  {
    if keys != [] {
      var r := run(d, keys[0], g.entries[keys[0]]);
      EditionPairsInOrder(r.0, run, g, keys[1..]);
      var rest := EditionProcessed(r.0, run, g, keys[1..]).1;
      FirstsAfterHead(r.1, rest, keys[0]);
      SubsequenceStep(if r.1 == [] then [] else [keys[0]], Firsts(rest), keys);
    }
  }

  /**
   * `process_edition`: the validation (with no containers yet) raises
   * `FileNotFoundError` with the error lines joined by newlines before any
   * container is touched; no surviving group gives `[]`.
   */
  function EditionResult(d: Disk, os: OsModel, s: EditionSettings, tools: GameTools, shadows: bool)
    : (r: (Disk, Result<seq<(string, string)>, Exception>))
    requires Usable(tools)
    ensures var errors := ValidationErrors(d, [], s.targetFolder, s.assetsFolder, s.masksFolder);
      errors != [] ==> r == (d, Err(FileNotFoundError(JoinWith(errors, '\n'))))
    ensures (&& ValidationErrors(d, [], s.targetFolder, s.assetsFolder, s.masksFolder) == []
             && Grouped(d, s.pixelateFiles, s.targetFolder, s.assetsFolder, s.masksFolder).keys == [])
            ==> r == (d, Ok([]))
  {
    var errors := ValidationErrors(d, [], s.targetFolder, s.assetsFolder, s.masksFolder);
    if errors != [] then (d, Err(FileNotFoundError(JoinWith(errors, '\n'))))
    else
      var g := Grouped(d, s.pixelateFiles, s.targetFolder, s.assetsFolder, s.masksFolder);
      if g.keys == [] then (d, Ok([]))
      else
        GroupedWellFormed(d, s.pixelateFiles, s.targetFolder, s.assetsFolder, s.masksFolder);
        var t := EditionProcessed(d, ContainerRun(os, s, tools, shadows), g, g.keys);
        (t.0, Ok(t.1))
  }

  /**
   * The pairs of an edition are grouped containers with their `.tmp` files,
   * in group order; a container is listed exactly when its `.tmp` file was
   * written on the disk the containers before it left.
   */
  lemma EditionPairs(d: Disk, os: OsModel, s: EditionSettings, tools: GameTools, shadows: bool)
    requires Usable(tools)
    requires EditionResult(d, os, s, tools, shadows).1.Ok?
    ensures var files := EditionResult(d, os, s, tools, shadows).1.value;
      var g := Grouped(d, s.pixelateFiles, s.targetFolder, s.assetsFolder, s.masksFolder);
      && Subsequence(Firsts(files), g.keys)
      && |files| <= |g.keys|
      && (forall i | 0 <= i < |files| :: files[i].0 in g.entries && files[i].1 == TempPath(files[i].0))
      && WellFormed(g)
      && forall i | 0 <= i < |g.keys| ::
           g.keys[i] in Firsts(files)
           <==> TempSaved(DiskBefore(d, ContainerRun(os, s, tools, shadows), g, g.keys, i), os, s, tools, shadows,
                          g.keys[i], g.entries[g.keys[i]])
  {
    var g := Grouped(d, s.pixelateFiles, s.targetFolder, s.assetsFolder, s.masksFolder);
    var files := EditionResult(d, os, s, tools, shadows).1.value;
    var run := ContainerRun(os, s, tools, shadows);
    GroupedWellFormed(d, s.pixelateFiles, s.targetFolder, s.assetsFolder, s.masksFolder);
    if g.keys != [] && ValidationErrors(d, [], s.targetFolder, s.assetsFolder, s.masksFolder) == [] {
      ContainerRunOwnTemp(os, s, tools, shadows);
      EditionPairsInOrder(d, run, g, g.keys);
      forall i | 0 <= i < |g.keys|
        ensures g.keys[i] in Firsts(files)
                <==> TempSaved(DiskBefore(d, run, g, g.keys, i), os, s, tools, shadows, g.keys[i], g.entries[g.keys[i]])
      {
        EditionListsExactly(d, run, g, g.keys, i);
        ContainerPair(DiskBefore(d, run, g, g.keys, i), os, s, tools, shadows, g.keys[i], g.entries[g.keys[i]]);
      }
    }
    SubsequenceMembers(Firsts(files), g.keys);
    forall i | 0 <= i < |files| ensures files[i].0 in g.entries {
      assert Firsts(files)[i] in Firsts(files);
    }
  }

  /** After `i` containers, `all` followed by the rest of the run is the whole run. */
  ghost predicate EditionContinues(d: Disk, run: EditionRun, g: Groups, keys: seq<string>, i: nat,
                                   all: seq<(string, string)>, d0: Disk)
    requires forall k | k in keys :: k in g.entries
    requires i <= |keys|
  {
    var t := EditionProcessed(d, run, g, keys[i..]);
    (t.0, all + t.1) == EditionProcessed(d0, run, g, keys)
  }

  lemma EditionContinuesStep(d: Disk, run: EditionRun, g: Groups, keys: seq<string>, i: nat,
                             all: seq<(string, string)>, d0: Disk, d': Disk, files: seq<(string, string)>)
    requires forall k | k in keys :: k in g.entries
    requires i < |keys|
    requires EditionContinues(d, run, g, keys, i, all, d0)
    requires (d', files) == run(d, keys[i], g.entries[keys[i]])
    ensures EditionContinues(d', run, g, keys, i + 1, all + files, d0)
  {
    assert keys[i..][0] == keys[i] && keys[i..][1..] == keys[i + 1..];
    var t := EditionProcessed(d', run, g, keys[i + 1..]);
    assert all + (files + t.1) == (all + files) + t.1;
  }

  /** The body of the container loop, seen through the run it is proved against. */
  method ProcessContainer(fs: FileSystem, s: EditionSettings, tools: GameTools, shadows: bool, assetFile: string,
                          entries: seq<PixelateEntry>, ghost run: EditionRun)
    returns (files: seq<(string, string)>)
    requires Usable(tools)
    requires forall d, k, es :: run(d, k, es) == ContainerProcessed(d, fs.os, s, tools, shadows, k, es)
    modifies fs
    ensures (fs.State(), files) == run(old(fs.State()), assetFile, entries)
  {
    var restored := RestoreLatestBackup(fs, assetFile);
    if restored.Err? {
      return [];
    }
    var cfg := EditionLoop(s, tools, shadows);
    var modified, tmp := ProcessGameAssetFile(fs, assetFile, entries, cfg, tools.available, tools.parse, tools.serialize);
    files := if tmp.Some? then [(assetFile, tmp.value)] else [];
  }

  method ProcessContainers(fs: FileSystem, s: EditionSettings, tools: GameTools, shadows: bool, g: Groups,
                           keys: seq<string>, ghost run: EditionRun)
    returns (all: seq<(string, string)>)
    requires Usable(tools)
    requires forall k | k in keys :: k in g.entries
    requires forall d, k, es :: run(d, k, es) == ContainerProcessed(d, fs.os, s, tools, shadows, k, es)
    modifies fs
    ensures (fs.State(), all) == EditionProcessed(old(fs.State()), run, g, keys)
  {
    ghost var d0 := fs.State();
    all := [];
    var i := 0;
    assert keys[0..] == keys;
    assert [] + EditionProcessed(d0, run, g, keys).1 == EditionProcessed(d0, run, g, keys).1;
    while i < |keys|
      invariant 0 <= i <= |keys|
      invariant EditionContinues(fs.State(), run, g, keys, i, all, d0)
    {
      var key := keys[i];
      ghost var before := fs.State();
      var files := ProcessContainer(fs, s, tools, shadows, key, g.entries[key], run);
      EditionContinuesStep(before, run, g, keys, i, all, d0, fs.State(), files);
      all := all + files;
      i := i + 1;
    }
    assert keys[i..] == [];
    assert all + [] == all;
  }

  method ProcessEdition(fs: FileSystem, s: EditionSettings, tools: GameTools, shadows: bool)
    returns (r: Result<seq<(string, string)>, Exception>)
    requires Usable(tools)
    modifies fs
    ensures (fs.State(), r) == EditionResult(old(fs.State()), fs.os, s, tools, shadows)
  {
    ghost var d0 := fs.State();
    var errors := ValidateAssetFiles(fs, [], s.targetFolder, s.assetsFolder, s.masksFolder);
    if errors != [] {
      return Err(FileNotFoundError(JoinWith(errors, '\n')));
    }
    var g := GroupPixelateFiles(fs, s.pixelateFiles, s.targetFolder, s.assetsFolder, s.masksFolder);
    if g.keys == [] {
      return Ok([]);
    }
    GroupedWellFormed(d0, s.pixelateFiles, s.targetFolder, s.assetsFolder, s.masksFolder);
    var all := ProcessContainers(fs, s, tools, shadows, g, g.keys, ContainerRun(fs.os, s, tools, shadows));
    r := Ok(all);
  }

  // ---------------------------------------------------------------------
  // replace_files

  /**
   * One pair: wait with the default limit (skip when still locked), back up
   * by copy (skip without a backup), rename the temporary file onto the
   * original with `swap`, and on failure restore from the backup by copy when
   * the backup exists and the original does not. The flag says whether the
   * temporary file went in.
   */
  function PairReplaced(d: Disk, os: OsModel, swap: OsModel, orig: string, tmp: string): (r: (Disk, bool)) {
    var (d1, free) := WaitDefaulted(d, os, orig, None);
    if !free then (d1, false)
    else
      var (d2, b) := CopyBackup(d1, os, orig);
      if b.None? then (d2, false)
      else
        var (d3, swapped) := Renamed(d2, swap, tmp, orig);
        if swapped then (d3, true)
        else if Exists(d3, b.value) && !Exists(d3, orig) then (RestoredByCopy(d3, os, b.value, orig).0, false)
        else (d3, false)
  }

  /** As written: `os.rename` with the platform's own rule. */
  function PairReplacedAsWritten(d: Disk, os: OsModel, orig: string, tmp: string): (Disk, bool) {
    PairReplaced(d, os, os, orig, tmp)
  }

  /** Corrected: `os.replace`, which overwrites the original that the copy left in place. */
  function PairReplacedFixed(d: Disk, os: OsModel, orig: string, tmp: string): (Disk, bool) {
    PairReplaced(d, os, Overwriting(os), orig, tmp)
  }

  /** The disk at the backup step, once the wait found the file free. */
  function Waited(d: Disk, os: OsModel, orig: string): Disk {
    WaitDefaulted(d, os, orig, None).0
  }

  /**
   * Whatever the rename rule, a pair that is not replaced changes no file
   * except for the backup copy: the copy keeps the original in place, so the
   * restore branch never runs.
   */
  lemma PairFailureKeepsOriginal(d: Disk, os: OsModel, swap: OsModel, orig: string, tmp: string)
    requires !PairReplaced(d, os, swap, orig, tmp).1
    ensures var d' := PairReplaced(d, os, swap, orig, tmp).0;
      d'.files == d.files || (orig in d.files && d'.files == d.files[NextBackup(d, orig) := d.files[orig]])
  {
    WaitDefaultedBounds(d, os, orig, None);
    var d1 := Waited(d, os, orig);
    CopyBackupExact(d1, os, orig);
    CoreUnityProcessor.ChainSameNames(d1, d, orig);
  }

  /**
   * As written, where `os.rename` refuses an existing destination (Windows),
   * no pair is ever replaced: the backup copy leaves the original in place,
   * so the rename raises, and the rollback condition is false.
   */
  lemma AsWrittenNeverReplaces(d: Disk, os: OsModel, orig: string, tmp: string)
    requires !os.replaceOnRename
    ensures !PairReplacedAsWritten(d, os, orig, tmp).1
    ensures orig in d.files ==> var d' := PairReplacedAsWritten(d, os, orig, tmp).0;
      orig in d'.files && d'.files[orig] == d.files[orig]
  {
    WaitDefaultedBounds(d, os, orig, None);
    var d1 := Waited(d, os, orig);
    CopyBackupExact(d1, os, orig);
    if !PairReplaced(d, os, os, orig, tmp).1 {
      PairFailureKeepsOriginal(d, os, os, orig, tmp);
    }
  }

  /**
   * Corrected, a replaced pair has the old original at the first unused
   * backup number, the temporary file's content at the original path, and
   * the temporary file gone.
   */
  lemma FixedReplaces(d: Disk, os: OsModel, orig: string, tmp: string)
    requires tmp != orig && tmp in d.files
    requires PairReplacedFixed(d, os, orig, tmp).1
    ensures var b := NextBackup(d, orig);
      && orig in d.files && tmp != b
      && PairReplacedFixed(d, os, orig, tmp).0.files == (d.files[b := d.files[orig]] - {tmp})[orig := d.files[tmp]]
  {
    FixedReplacedSteps(d, os, orig, tmp);
    WaitDefaultedBounds(d, os, orig, None);
    var d1 := Waited(d, os, orig);
    CopyBackupExact(d1, os, orig);
    var d2 := CopyBackup(d1, os, orig).0;
    CoreUnityProcessor.ChainSameNames(d1, d, orig);
    CoreUnityProcessor.ChainLengthMissing(d, orig);
    var b := NextBackup(d, orig);
    assert d2.files == d.files[b := d.files[orig]];
    assert d2.files[tmp] == d.files[tmp];
  }

  /** A replaced pair went through the wait, the copy backup and the swap, in that order. */
  lemma FixedReplacedSteps(d: Disk, os: OsModel, orig: string, tmp: string)
    requires PairReplacedFixed(d, os, orig, tmp).1
    ensures var d2 := CopyBackup(Waited(d, os, orig), os, orig);
      && d2.1.Some?
      && CanRename(d2.0, Overwriting(os), tmp, orig)
      && PairReplacedFixed(d, os, orig, tmp).0 == Renamed(d2.0, Overwriting(os), tmp, orig).0
  {
  }

  /**
   * With nothing held open and plain files in place, the corrected code
   * replaces every pair, where the code as written on Windows replaces none.
   */
  lemma FixedReplacesWhenFree(d: Disk, os: OsModel, orig: string, tmp: string)
    requires forall q, t :: !os.held(q, t)
    requires orig in d.files && tmp in d.files && tmp != orig
    requires d.dirs == {}
    ensures PairReplacedFixed(d, os, orig, tmp).1
    ensures !os.replaceOnRename ==> !PairReplacedAsWritten(d, os, orig, tmp).1
  {
    WaitDefaultedBounds(d, os, orig, None);
    var d1 := Waited(d, os, orig);
    CopyBackupExact(d1, os, orig);
    CoreUnityProcessor.ChainLengthMissing(d1, orig);
    if !os.replaceOnRename {
      AsWrittenNeverReplaces(d, os, orig, tmp);
    }
  }

  /** `replace_files`: every pair in list order, each on the disk the previous one left. */
  function AllReplaced(d: Disk, os: OsModel, pairs: seq<(string, string)>): Disk
    decreases |pairs|
  {
    if pairs == [] then d
    else AllReplaced(PairReplacedFixed(d, os, pairs[0].0, pairs[0].1).0, os, pairs[1..])
  }

  /** Replacing a list in two parts is replacing it whole: no pair stops the ones after it. */
  lemma {:induction false} AllReplacedAppend(d: Disk, os: OsModel, a: seq<(string, string)>, b: seq<(string, string)>)
    ensures AllReplaced(d, os, a + b) == AllReplaced(AllReplaced(d, os, a), os, b)
    decreases |a|
  {
    if a == [] {
      assert a + b == b;
    } else {
      var d1 := PairReplacedFixed(d, os, a[0].0, a[0].1).0;
      assert (a + b)[0] == a[0] && (a + b)[1..] == a[1..] + b;
      assert AllReplaced(d, os, a + b) == AllReplaced(d1, os, a[1..] + b);
      assert AllReplaced(d, os, a) == AllReplaced(d1, os, a[1..]);
      AllReplacedAppend(d1, os, a[1..], b);
    }
  }

  /** A pair still locked after the wait is skipped: no file changes and the next pair is handled. */
  lemma LockedPairSkipped(d: Disk, os: OsModel, orig: string, tmp: string, rest: seq<(string, string)>)
    requires !WaitDefaulted(d, os, orig, None).1
    ensures PairReplacedFixed(d, os, orig, tmp).0.files == d.files
    ensures AllReplaced(d, os, [(orig, tmp)] + rest) == AllReplaced(Waited(d, os, orig), os, rest)
  {
    WaitDefaultedBounds(d, os, orig, None);
    assert ([(orig, tmp)] + rest)[1..] == rest;
  }

  method ReplacePair(fs: FileSystem, orig: string, tmp: string) returns (replaced: bool)
    modifies fs
    ensures (fs.State(), replaced) == PairReplacedFixed(old(fs.State()), fs.os, orig, tmp)
  {
    var free := WaitForFileUnlockDefaulted(fs, orig, None);
    if !free {
      return false;
    }
    var b := CreateBackup(fs, orig);
    if b.None? {
      return false;
    }
    var swapped := fs.Replace(tmp, orig);
    if swapped {
      return true;
    }
    if Exists(fs.State(), b.value) && !Exists(fs.State(), orig) {
      var restored := RestoreBackup(fs, b.value, orig);
    }
    return false;
  }

  method ReplaceFiles(fs: FileSystem, pairs: seq<(string, string)>)
    modifies fs
    ensures fs.State() == AllReplaced(old(fs.State()), fs.os, pairs)
  {
    var i := 0;
    assert pairs[0..] == pairs;
    while i < |pairs|
      invariant 0 <= i <= |pairs|
      invariant AllReplaced(fs.State(), fs.os, pairs[i..]) == AllReplaced(old(fs.State()), fs.os, pairs)
    {
      assert pairs[i..][0] == pairs[i] && pairs[i..][1..] == pairs[i + 1..];
      var (orig, tmp) := pairs[i];
      var replaced := ReplacePair(fs, orig, tmp);
      i := i + 1;
    }
  }
}
