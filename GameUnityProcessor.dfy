/**
 * `UnityProcessor` of src/game/unity_processor.py: the same texture loop as
 * the core copy, run through the compositor of src/processing, with a load
 * that gives `None` instead of raising and a debug export that also needs the
 * global debug switch.
 */
module GameUnityProcessor {
  import opened Wrappers
  import opened Os
  import opened Grouping
  import opened Containers
  import opened CoreUnityProcessor

  /** `load_asset_file`: `None` when UnityPy is not installed or the load raises. */
  function LoadAssetFile(available: bool, d: Disk, p: string, parse: Parser): (r: Option<seq<AssetObject>>)
    ensures r.Some? <==> available && p in d.files && parse(d.files[p]).Some?
    ensures r.Some? ==> r == parse(d.files[p])
  {
    if !available then None else Loaded(d, p, parse)
  }

  /** `get_texture_objects`: the Texture2D objects, in order. */
  function TextureObjects(objects: seq<AssetObject>): (r: seq<AssetObject>)
    ensures forall o :: o in r <==> o in objects && IsTexture(o)
    ensures |r| <= |objects|
  {
    if objects == [] then []
    else
      var n := |objects| - 1;
      TextureObjects(objects[..n]) + (if IsTexture(objects[n]) then [objects[n]] else [])
  }

  /** The filter works piece by piece, so it keeps the objects' order. */
  lemma {:induction false} TextureObjectsAppend(a: seq<AssetObject>, b: seq<AssetObject>)
    ensures TextureObjects(a + b) == TextureObjects(a) + TextureObjects(b)
    decreases |b|
  {
    if b == [] {
      assert a + b == a;
    } else {
      var n := |b| - 1;
      assert (a + b)[..|a + b| - 1] == a + b[..n];
      TextureObjectsAppend(a, b[..n]);
    }
  }

  /** This copy's loop: the compositor, debug images only with the global switch on. */
  function GameConfig(pipeline: Pipeline, shadows: bool, debug: Option<string>, debugEnabled: bool,
                      encode: Encoder): (cfg: LoopConfig)
    requires pipeline.Compositor?
    ensures cfg.debug.Some? <==> debugEnabled && debug.Some? && debug.value != ""
    ensures forall e :: ShadowFor(cfg, e) == shadows
  {
    LoopConfig(pipeline, shadows, [], if debugEnabled then DebugFolder(debug) else None, encode, None)
  }

  /**
   * `process_asset_file`: without a loaded container the result is
   * `([], None)`; otherwise the indices of the processed objects and the
   * temporary file, if it was written.
   */
  function ProcessedGameAsset(d: Disk, os: OsModel, assetFile: string, entries: seq<PixelateEntry>,
                              cfg: LoopConfig, available: bool, parse: Parser, serialize: Serializer)
    : (r: (Disk, (seq<nat>, Option<string>)))
    requires Sound(cfg.pipeline)
  {
    match LoadAssetFile(available, d, assetFile, parse)
    case None => (d, ([], None))
    case Some(objects) =>
      var s := Swept(cfg, os, Begin(d, objects), TexturePairs(objects, entries));
      var (d2, tmp) := SavedTemp(s.disk, os, assetFile, serialize(s.objects));
      (d2, (s.modified, tmp))
  }

  /** A container that does not load gives `([], None)` and writes no temporary file. */
  lemma LoadFailureWritesNothing(d: Disk, os: OsModel, assetFile: string, entries: seq<PixelateEntry>,
                                 cfg: LoopConfig, available: bool, parse: Parser, serialize: Serializer)
    requires Sound(cfg.pipeline)
    requires LoadAssetFile(available, d, assetFile, parse).None?
    ensures ProcessedGameAsset(d, os, assetFile, entries, cfg, available, parse, serialize) == (d, ([], None))
  {
  }

  /**
   * Each recorded object is a Texture2D that some entry matched, no more are
   * recorded than pairs match, and all of them when processing never fails.
   * The temporary file comes back exactly when it could be written.
   */
  lemma ProcessedGameAssetResult(d: Disk, os: OsModel, assetFile: string, entries: seq<PixelateEntry>,
                                 cfg: LoopConfig, available: bool, parse: Parser, serialize: Serializer)
    requires Sound(cfg.pipeline)
    requires LoadAssetFile(available, d, assetFile, parse).Some?
    ensures var objects := LoadAssetFile(available, d, assetFile, parse).value;
      var pairs := TexturePairs(objects, entries);
      var s := Swept(cfg, os, Begin(d, objects), pairs);
      var (d', (modified, tmp)) := ProcessedGameAsset(d, os, assetFile, entries, cfg, available, parse, serialize);
      && |modified| <= CountMatching(objects, pairs)
      && (forall k | 0 <= k < |modified| :: modified[k] < |objects| && IsTexture(objects[modified[k]])
                                            && MatchedBy(objects, pairs, modified[k]))
      && ((forall d1, img, e, b :: Processed(cfg.pipeline, d1, img, e, b).Ok?) ==> |modified| == CountMatching(objects, pairs))
      && (tmp.Some? <==> CanWrite(s.disk, os, TempPath(assetFile)) && serialize(s.objects).Some?)
      && (tmp.Some? ==> tmp.value == TempPath(assetFile))
  {
    var objects := LoadAssetFile(available, d, assetFile, parse).value;
    var pairs := TexturePairs(objects, entries);
    var s0 := Begin(d, objects);
    SweptModified(cfg, os, s0, pairs);
    var s := Swept(cfg, os, s0, pairs);
    forall k | 0 <= k < |s.modified|
      ensures s.modified[k] < |objects| && IsTexture(objects[s.modified[k]])
    {
      assert MatchedBy(objects, pairs, s.modified[k]);
      var i :| 0 <= i < |pairs| && pairs[i].0 == s.modified[k] && Matches(objects[s.modified[k]], pairs[i].1);
    }
    if forall d1, img, e, b :: Processed(cfg.pipeline, d1, img, e, b).Ok? {
      SweptAllRecorded(cfg, os, s0, pairs);
    }
    SavedTempExact(s.disk, os, assetFile, serialize(s.objects));
  }

  /** With the debug switch off, the loop writes no debug image: the disk changes only by the temporary file. */
  lemma NoDebugWithoutSwitch(d: Disk, os: OsModel, assetFile: string, entries: seq<PixelateEntry>,
                             pipeline: Pipeline, shadows: bool, debug: Option<string>, encode: Encoder,
                             available: bool, parse: Parser, serialize: Serializer)
    requires pipeline.Compositor? && Sound(pipeline)
    ensures var cfg := GameConfig(pipeline, shadows, debug, false, encode);
      var d' := ProcessedGameAsset(d, os, assetFile, entries, cfg, available, parse, serialize).0;
      d'.dirs == d.dirs && forall q | q != TempPath(assetFile) :: (q in d'.files <==> q in d.files) && (q in d.files ==> d'.files[q] == d.files[q])
  {
    var cfg := GameConfig(pipeline, shadows, debug, false, encode);
    match LoadAssetFile(available, d, assetFile, parse)
    case None =>
    case Some(objects) =>
      SweptKeepsDisk(cfg, os, Begin(d, objects), TexturePairs(objects, entries));
  }

  method ProcessGameAssetFile(fs: FileSystem, assetFile: string, entries: seq<PixelateEntry>, cfg: LoopConfig,
                              available: bool, parse: Parser, serialize: Serializer)
    returns (modified: seq<nat>, tmp: Option<string>)
    requires Sound(cfg.pipeline)
    modifies fs
    ensures (fs.State(), (modified, tmp)) == ProcessedGameAsset(old(fs.State()), fs.os, assetFile, entries, cfg, available, parse, serialize)
  {
    var env := LoadAssetFile(available, fs.State(), assetFile, parse);
    if env.None? {
      return [], None;
    }
    var s := ProcessTextures(fs, env.value, entries, cfg);
    modified := s.modified;
    tmp := SaveTemp(fs, assetFile, serialize(s.objects));
  }
}
