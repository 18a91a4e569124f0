/**
 * Unity containers as the pipeline sees them through UnityPy: a list of
 * objects with a type name and, for a texture, an optional `m_Name` and an
 * optional decoded image. Loading, serialising and image encoding are
 * functions given from outside. The texture loop shared by every copy of the
 * pipeline pairs each Texture2D object with each requested entry, in object
 * order and then entry order, and processes the matching ones.
 */
module Containers {
  import opened Wrappers
  import opened Decimal
  import opened Os
  import opened Paths
  import opened Bitmap
  import opened ImageProcessor
  import opened PixelationProcessor
  import opened Grouping

  const TextureType := "Texture2D"

  /** What `obj.read()` returns for a texture: `name` is `m_Name`, `image` the decoded picture. */
  datatype Texture = Texture(name: Option<string>, image: Option<Raster<Rgba>>)

  /** An object of the container; `data` is `None` when `obj.read()` raises. */
  datatype AssetObject = AssetObject(typeName: string, data: Option<Texture>)

  predicate IsTexture(o: AssetObject) {
    o.typeName == TextureType
  }

  /** `UnityPy.load` on the container's bytes; `None` when it raises. */
  type Parser = Bytes -> Option<seq<AssetObject>>

  /** `env.file.save()`; `None` when it raises. */
  type Serializer = seq<AssetObject> -> Option<Bytes>

  /** `image.save(path)`'s encoding of a picture. */
  type Encoder = Raster<Rgba> -> Bytes

  /**
   * The per-texture image processing: either code that is not part of this
   * model (given as a function of the disk, the image, the entry and the
   * shadow flag) or the compositor of `src/processing`, with the intermediate
   * size computed from the image size.
   */
  datatype Pipeline =
    | External(run: (Disk, Raster<Rgba>, PixelateEntry, bool) -> Result<Raster<Rgba>, Exception>)
    | Compositor(shrink: (nat, nat) -> (nat, nat), f: NearestMap, decode: MaskDecoder)

  ghost predicate Sound(p: Pipeline) {
    p.Compositor? ==> SamplesSource(p.f)
  }

  function Processed(p: Pipeline, d: Disk, img: Raster<Rgba>, e: PixelateEntry, shadows: bool): Result<Raster<Rgba>, Exception>
    requires Sound(p)
  {
    match p
    case External(run) => run(d, img, e, shadows)
    case Compositor(shrink, f, decode) =>
      var (sw, sh) := shrink(img.width, img.height);
      ProcessedImage(img, sw, sh, f, LoadMask(d, Some(e.maskFile), decode), shadows)
  }

  /**
   * What differs between the copies of the loop: the shadow flag and the
   * textures exempt from it, where debug images go (`None`: not written), how
   * they are encoded, and whether progress messages carry a running number
   * (`Some((done before this container, total))`).
   */
  datatype LoopConfig = LoopConfig(
    pipeline: Pipeline,
    shadows: bool,
    ignoreShadows: seq<string>,
    debug: Option<string>,
    encode: Encoder,
    numbering: Option<(nat, nat)>)

  /** The shadow flag for one texture: on, unless `asset_dir/asset` is exempt. */
  function ShadowFor(cfg: LoopConfig, e: PixelateEntry): bool {
    cfg.shadows && e.assetDir + [Sep] + e.asset !in cfg.ignoreShadows
  }

  function DebugPath(folder: string, e: PixelateEntry): string {
    Join3(folder, e.assetDir, e.asset)
  }

  const Tag := "[UNOFFICIAL RETRO PATCH] "

  /** The message logged when the `n`-th texture of the container is about to be processed. */
  function ProgressMessage(cfg: LoopConfig, n: nat, name: string): string {
    match cfg.numbering
    case None => Tag + "Pixelating texture: " + name
    case Some((start, total)) =>
      Tag + "Pixelating texture " + NatToString(start + n) + "/" + NatToString(total) + ": " + name
  }

  /** One (object, entry) pair of the loop: object index and entry. */
  type Pair = (nat, PixelateEntry)

  function EntryPairs(i: nat, entries: seq<PixelateEntry>): (ps: seq<Pair>)
    ensures |ps| == |entries| && forall k | 0 <= k < |ps| :: ps[k] == (i, entries[k])
  {
    seq(|entries|, k requires 0 <= k < |entries| => (i, entries[k]))
  }

  /** Every Texture2D object with every entry, object-major. */
  function TexturePairs(objects: seq<AssetObject>, entries: seq<PixelateEntry>): (ps: seq<Pair>)
    ensures forall k | 0 <= k < |ps| :: ps[k].0 < |objects| && IsTexture(objects[ps[k].0])
  {
    if objects == [] then []
    else
      var n := |objects| - 1;
      var init := TexturePairs(objects[..n], entries);
      assert forall k | 0 <= k < |init| :: objects[init[k].0] == objects[..n][init[k].0];
      init + (if IsTexture(objects[n]) then EntryPairs(n, entries) else [])
  }

  /** The pair is processed: the object reads, its `m_Name` is the entry's name and it has an image. */
  predicate Matches(o: AssetObject, e: PixelateEntry) {
    o.data.Some? && o.data.value.name == Some(e.assetName) && o.data.value.image.Some?
  }

  /**
   * The loop's state: the disk (debug images), the objects, the processed
   * count, the indices appended to `modified_objects`, and the progress log as
   * (number, texture name).
   */
  datatype Session = Session(disk: Disk, objects: seq<AssetObject>, count: nat, modified: seq<nat>, log: seq<(nat, string)>)

  function Begin(d: Disk, objects: seq<AssetObject>): Session {
    Session(d, objects, 0, [], [])
  }

  /**
   * One pair. A read failure, another name or a missing image skips it; a
   * matching texture is counted and logged first, then processed; a
   * processing failure is caught, otherwise the image is stored back, the
   * object recorded and the debug image written (a failed write is ignored).
   */
  function Step(cfg: LoopConfig, os: OsModel, s: Session, p: Pair): (r: Session)
    requires Sound(cfg.pipeline) && p.0 < |s.objects|
    ensures |r.objects| == |s.objects| && r.disk.dirs == s.disk.dirs
    ensures forall j | 0 <= j < |s.objects| && j != p.0 :: r.objects[j] == s.objects[j]
    ensures r.objects[p.0].typeName == s.objects[p.0].typeName
    ensures forall e :: Matches(r.objects[p.0], e) == Matches(s.objects[p.0], e)
    ensures r.count == s.count + (if Matches(s.objects[p.0], p.1) then 1 else 0)
    ensures r.log == s.log + (if Matches(s.objects[p.0], p.1) then [(r.count, p.1.assetName)] else [])
    ensures r.modified == s.modified || (Matches(s.objects[p.0], p.1) && r.modified == s.modified + [p.0])
    ensures !Matches(s.objects[p.0], p.1) ==> r == s
  {
    var (i, e) := p;
    var o := s.objects[i];
    if !Matches(o, e) then s
    else
      var t := o.data.value;
      var n := s.count + 1;
      var counted := s.(count := n, log := s.log + [(n, e.assetName)]);
      match Processed(cfg.pipeline, s.disk, t.image.value, e, ShadowFor(cfg, e))
      case Err(_) => counted
      case Ok(img) =>
        var saved := counted.(objects := s.objects[i := o.(data := Some(t.(image := Some(img))))],
                              modified := s.modified + [i]);
        match cfg.debug
        case None => saved
        case Some(folder) => saved.(disk := Written(s.disk, os, DebugPath(folder, e), cfg.encode(img)).0)
  }

  predicate PairsIn(pairs: seq<Pair>, n: nat) {
    forall k | 0 <= k < |pairs| :: pairs[k].0 < n
  }

  /** The loop over `pairs`, in order. */
  function Swept(cfg: LoopConfig, os: OsModel, s: Session, pairs: seq<Pair>): (r: Session)
    requires Sound(cfg.pipeline) && PairsIn(pairs, |s.objects|)
    ensures |r.objects| == |s.objects|
    decreases |pairs|
  {
    if pairs == [] then s
    else
      var init := pairs[..|pairs| - 1];
      Step(cfg, os, Swept(cfg, os, s, init), pairs[|pairs| - 1])
  }

  /**
   * The loop keeps the directories, every object's type, and whether an
   * object matches an entry: it changes only images, never names.
   */
  lemma {:induction false} SweptKeepsMatches(cfg: LoopConfig, os: OsModel, s: Session, pairs: seq<Pair>)
    requires Sound(cfg.pipeline) && PairsIn(pairs, |s.objects|)
    ensures var r := Swept(cfg, os, s, pairs);
      && r.disk.dirs == s.disk.dirs
      && (forall j | 0 <= j < |s.objects| :: r.objects[j].typeName == s.objects[j].typeName)
      && (forall j, e | 0 <= j < |s.objects| :: Matches(r.objects[j], e) == Matches(s.objects[j], e))
    decreases |pairs|
  {
    if pairs != [] {
      SweptKeepsMatches(cfg, os, s, pairs[..|pairs| - 1]);
    }
  }

  /** The number of pairs that match in `objects`. */
  function CountMatching(objects: seq<AssetObject>, pairs: seq<Pair>): nat
    requires PairsIn(pairs, |objects|)
  {
    if pairs == [] then 0
    else
      var p := pairs[|pairs| - 1];
      CountMatching(objects, pairs[..|pairs| - 1]) + (if Matches(objects[p.0], p.1) then 1 else 0)
  }

  /**
   * The processed count is the number of matching pairs of the objects as
   * loaded: processing keeps every name and every image present, so an
   * earlier pair never changes whether a later one matches. Each counted
   * texture is logged once, numbered in order.
   */
  lemma {:induction false} SweptCount(cfg: LoopConfig, os: OsModel, s: Session, pairs: seq<Pair>)
    requires Sound(cfg.pipeline) && PairsIn(pairs, |s.objects|)
    ensures var r := Swept(cfg, os, s, pairs);
      && r.count == s.count + CountMatching(s.objects, pairs)
      && |r.log| == |s.log| + CountMatching(s.objects, pairs)
      && r.log[..|s.log|] == s.log
      && forall k | |s.log| <= k < |r.log| :: r.log[k].0 == s.count + (k - |s.log|) + 1
    decreases |pairs|
  {
    if pairs != [] {
      var init := pairs[..|pairs| - 1];
      SweptCount(cfg, os, s, init);
      SweptKeepsMatches(cfg, os, s, init);
      var mid := Swept(cfg, os, s, init);
      var r := Step(cfg, os, mid, pairs[|pairs| - 1]);
      assert r.log[..|mid.log|] == mid.log;
    }
  }

  /**
   * Only matching pairs record their object, so `modified_objects` never
   * outgrows the count and holds only objects some pair matched.
   */
  lemma {:induction false} SweptModified(cfg: LoopConfig, os: OsModel, s: Session, pairs: seq<Pair>)
    requires Sound(cfg.pipeline) && PairsIn(pairs, |s.objects|)
    ensures var r := Swept(cfg, os, s, pairs);
      && |s.modified| <= |r.modified| <= |s.modified| + CountMatching(s.objects, pairs)
      && r.modified[..|s.modified|] == s.modified
      && (forall k | |s.modified| <= k < |r.modified| :: MatchedBy(s.objects, pairs, r.modified[k]))
    decreases |pairs|
  {
    if pairs != [] {
      var init := pairs[..|pairs| - 1];
      var p := pairs[|pairs| - 1];
      assert init + [p] == pairs;
      SweptModified(cfg, os, s, init);
      SweptKeepsMatches(cfg, os, s, init);
      var mid := Swept(cfg, os, s, init);
      var r := Step(cfg, os, mid, p);
      assert r.modified[..|mid.modified|] == mid.modified;
      MatchedByGrows(s.objects, init, p);
    }
  }

  /** An object no pair matches comes out as it went in. */
  lemma {:induction false} SweptUntouched(cfg: LoopConfig, os: OsModel, s: Session, pairs: seq<Pair>)
    requires Sound(cfg.pipeline) && PairsIn(pairs, |s.objects|)
    ensures var r := Swept(cfg, os, s, pairs);
      forall j | 0 <= j < |s.objects| && !MatchedBy(s.objects, pairs, j) :: r.objects[j] == s.objects[j]
    decreases |pairs|
  {
    if pairs != [] {
      var init := pairs[..|pairs| - 1];
      var p := pairs[|pairs| - 1];
      assert init + [p] == pairs;
      SweptUntouched(cfg, os, s, init);
      SweptKeepsMatches(cfg, os, s, init);
      MatchedByGrows(s.objects, init, p);
    }
  }

  /** Some pair for object `j` matches it. */
  predicate MatchedBy(objects: seq<AssetObject>, pairs: seq<Pair>, j: nat)
    requires PairsIn(pairs, |objects|)
  {
    exists k | 0 <= k < |pairs| :: pairs[k].0 == j && Matches(objects[j], pairs[k].1)
  }

  lemma MatchedByGrows(objects: seq<AssetObject>, init: seq<Pair>, p: Pair)
    requires PairsIn(init, |objects|) && p.0 < |objects|
    ensures PairsIn(init + [p], |objects|)
    ensures forall j | 0 <= j < |objects| ::
      MatchedBy(objects, init + [p], j) <==> MatchedBy(objects, init, j) || (p.0 == j && Matches(objects[j], p.1))
  {
    var pairs := init + [p];
    assert forall k | 0 <= k < |init| :: pairs[k] == init[k];
    forall j | 0 <= j < |objects|
      ensures MatchedBy(objects, pairs, j) <==> MatchedBy(objects, init, j) || (p.0 == j && Matches(objects[j], p.1))
    {
      if MatchedBy(objects, init, j) {
        var k :| 0 <= k < |init| && init[k].0 == j && Matches(objects[j], init[k].1);
        assert pairs[k] == init[k];
      }
      if p.0 == j && Matches(objects[j], p.1) {
        assert pairs[|init|] == p;
      }
      if MatchedBy(objects, pairs, j) {
        var k :| 0 <= k < |pairs| && pairs[k].0 == j && Matches(objects[j], pairs[k].1);
        if k < |init| {
          assert pairs[k] == init[k];
        }
      }
    }
  }

  /** When processing never fails, every counted texture is recorded. */
  lemma {:induction false} SweptAllRecorded(cfg: LoopConfig, os: OsModel, s: Session, pairs: seq<Pair>)
    requires Sound(cfg.pipeline) && PairsIn(pairs, |s.objects|)
    requires forall d, img, e, b :: Processed(cfg.pipeline, d, img, e, b).Ok?
    ensures var r := Swept(cfg, os, s, pairs);
      |r.modified| == |s.modified| + CountMatching(s.objects, pairs)
    decreases |pairs|
  {
    if pairs != [] {
      SweptAllRecorded(cfg, os, s, pairs[..|pairs| - 1]);
      SweptKeepsMatches(cfg, os, s, pairs[..|pairs| - 1]);
    }
  }

  /** A failing pair is counted and logged and changes nothing else; the loop goes on with the next pair. */
  lemma StepFailureIsolated(cfg: LoopConfig, os: OsModel, s: Session, p: Pair)
    requires Sound(cfg.pipeline) && p.0 < |s.objects|
    requires Matches(s.objects[p.0], p.1)
    requires Processed(cfg.pipeline, s.disk, s.objects[p.0].data.value.image.value, p.1, ShadowFor(cfg, p.1)).Err?
    ensures Step(cfg, os, s, p) == s.(count := s.count + 1, log := s.log + [(s.count + 1, p.1.assetName)])
  {
  }

  /** Splitting the pairs splits the loop. */
  lemma {:induction false} SweptAppend(cfg: LoopConfig, os: OsModel, s: Session, a: seq<Pair>, b: seq<Pair>)
    requires Sound(cfg.pipeline) && PairsIn(a + b, |s.objects|)
    ensures PairsIn(a, |s.objects|) && PairsIn(b, |s.objects|)
    ensures Swept(cfg, os, s, a + b) == Swept(cfg, os, Swept(cfg, os, s, a), b)
    decreases |b|
  {
    assert forall k | 0 <= k < |a| :: a[k] == (a + b)[k];
    assert forall k | 0 <= k < |b| :: b[k] == (a + b)[|a| + k];
    if b != [] {
      var b0 := b[..|b| - 1];
      assert (a + b)[..|a + b| - 1] == a + b0;
      SweptAppend(cfg, os, s, a, b0);
    } else {
      assert a + b == a;
    }
  }

  /** Without a debug folder the loop writes nothing to disk. */
  lemma {:induction false} SweptKeepsDisk(cfg: LoopConfig, os: OsModel, s: Session, pairs: seq<Pair>)
    requires Sound(cfg.pipeline) && PairsIn(pairs, |s.objects|) && cfg.debug.None?
    ensures Swept(cfg, os, s, pairs).disk == s.disk
    decreases |pairs|
  {
    if pairs != [] {
      SweptKeepsDisk(cfg, os, s, pairs[..|pairs| - 1]);
    }
  }

  /** Only Texture2D objects can change. */
  lemma NonTexturesUnchanged(cfg: LoopConfig, os: OsModel, d: Disk, objects: seq<AssetObject>, entries: seq<PixelateEntry>)
    requires Sound(cfg.pipeline)
    ensures var r := Swept(cfg, os, Begin(d, objects), TexturePairs(objects, entries));
      forall j | 0 <= j < |objects| && !IsTexture(objects[j]) :: r.objects[j] == objects[j]
  {
    var pairs := TexturePairs(objects, entries);
    SweptUntouched(cfg, os, Begin(d, objects), pairs);
  }

  // ---------------------------------------------------------------------
  // The loop, run on the file system

  /** One pair, in place. */
  method ProcessPair(fs: FileSystem, cfg: LoopConfig, s: Session, p: Pair) returns (r: Session)
    requires Sound(cfg.pipeline) && p.0 < |s.objects| && s.disk == fs.State()
    modifies fs
    ensures r == Step(cfg, fs.os, s, p) && fs.State() == r.disk
  {
    var (i, e) := p;
    var o := s.objects[i];
    if o.data.None? || o.data.value.name != Some(e.assetName) {
      return s;
    }
    var t := o.data.value;
    if t.image.None? {
      return s;
    }
    r := s.(count := s.count + 1, log := s.log + [(s.count + 1, e.assetName)]);
    var result := Processed(cfg.pipeline, fs.State(), t.image.value, e, ShadowFor(cfg, e));
    if result.Err? {
      return r;
    }
    var img := result.value;
    r := r.(objects := s.objects[i := o.(data := Some(t.(image := Some(img))))], modified := s.modified + [i]);
    if cfg.debug.Some? {
      var written := fs.Write(DebugPath(cfg.debug.value, e), cfg.encode(img));
      r := r.(disk := fs.State());
    }
  }

  /** The inner loop: object `i` with each entry in turn. */
  method ProcessEntries(fs: FileSystem, cfg: LoopConfig, ghost s0: Session, ghost done: seq<Pair>,
                        s: Session, i: nat, entries: seq<PixelateEntry>) returns (r: Session)
    requires Sound(cfg.pipeline) && i < |s0.objects| && PairsIn(done, |s0.objects|)
    requires s == Swept(cfg, fs.os, s0, done) && s.disk == fs.State()
    modifies fs
    ensures PairsIn(done + EntryPairs(i, entries), |s0.objects|)
    ensures r == Swept(cfg, fs.os, s0, done + EntryPairs(i, entries)) && fs.State() == r.disk
  {
    r := s;
    var j := 0;
    assert done + EntryPairs(i, entries[..0]) == done;
    while j < |entries|
      invariant 0 <= j <= |entries| && fs.State() == r.disk
      invariant PairsIn(done + EntryPairs(i, entries[..j]), |s0.objects|)
      invariant r == Swept(cfg, fs.os, s0, done + EntryPairs(i, entries[..j]))
    {
      ghost var before := done + EntryPairs(i, entries[..j]);
      assert done + EntryPairs(i, entries[..j + 1]) == before + [(i, entries[j])];
      SweptSnoc(cfg, fs.os, s0, before, (i, entries[j]));
      r := ProcessPair(fs, cfg, r, (i, entries[j]));
      j := j + 1;
    }
    assert entries[..j] == entries;
  }

  /** One more pair is one more step. */
  lemma SweptSnoc(cfg: LoopConfig, os: OsModel, s0: Session, before: seq<Pair>, p: Pair)
    requires Sound(cfg.pipeline) && PairsIn(before, |s0.objects|) && p.0 < |s0.objects|
    ensures PairsIn(before + [p], |s0.objects|)
    ensures Swept(cfg, os, s0, before + [p]) == Step(cfg, os, Swept(cfg, os, s0, before), p)
  {
    assert (before + [p])[..|before|] == before;
  }

  lemma TexturePairsSnoc(objects: seq<AssetObject>, entries: seq<PixelateEntry>, i: nat)
    requires i < |objects|
    ensures PairsIn(TexturePairs(objects[..i], entries), |objects|)
    ensures TexturePairs(objects[..i + 1], entries)
            == TexturePairs(objects[..i], entries) + (if IsTexture(objects[i]) then EntryPairs(i, entries) else [])
  {
    assert objects[..i + 1][..i] == objects[..i];
  }

  /** The nested loop over the objects and, for each Texture2D, over the entries. */
  method ProcessTextures(fs: FileSystem, objects: seq<AssetObject>, entries: seq<PixelateEntry>, cfg: LoopConfig)
    returns (r: Session)
    requires Sound(cfg.pipeline)
    modifies fs
    ensures r == Swept(cfg, fs.os, Begin(old(fs.State()), objects), TexturePairs(objects, entries))
    ensures fs.State() == r.disk
  {
    r := Begin(fs.State(), objects);
    ghost var s0 := r;
    var i := 0;
    while i < |objects|
      invariant 0 <= i <= |objects| && fs.State() == r.disk
      invariant PairsIn(TexturePairs(objects[..i], entries), |objects|)
      invariant r == Swept(cfg, fs.os, s0, TexturePairs(objects[..i], entries))
    {
      TexturePairsSnoc(objects, entries, i);
      ghost var done := TexturePairs(objects[..i], entries);
      if IsTexture(objects[i]) {
        r := ProcessEntries(fs, cfg, s0, done, r, i, entries);
        assert r == Swept(cfg, fs.os, s0, TexturePairs(objects[..i + 1], entries));
      } else {
        assert done + [] == done;
      }
      i := i + 1;
    }
    assert objects[..i] == objects;
    assert s0 == Begin(old(fs.State()), objects);
  }

  // ---------------------------------------------------------------------
  // The temporary container file

  function TempPath(p: string): string {
    p + ".tmp"
  }

  /**
   * `open(tmp, "wb")` then `write(env.file.save())`: the open creates or
   * empties the file before the container is serialised, so a failed
   * serialisation leaves an empty temporary file behind. The existence check
   * afterwards always passes once the open succeeded.
   */
  function SavedTemp(d: Disk, os: OsModel, assetFile: string, data: Option<Bytes>): (Disk, Option<string>) {
    var tmp := TempPath(assetFile);
    var (d1, created) := Written(d, os, tmp, []);
    if !created then (d1, None)
    else match data
      case None => (d1, None)
      case Some(bytes) => (Stored(d1, tmp, bytes), Some(tmp))
  }

  /**
   * The temporary path comes back exactly when the file could be opened and
   * the container serialised, and then it holds the serialised bytes; no
   * other path changes.
   */
  lemma SavedTempExact(d: Disk, os: OsModel, assetFile: string, data: Option<Bytes>)
    ensures var (d', r) := SavedTemp(d, os, assetFile, data);
      var tmp := TempPath(assetFile);
      && (r.Some? <==> CanWrite(d, os, tmp) && data.Some?)
      && (r.Some? ==> r.value == tmp && d'.files == d.files[tmp := data.value])
      && (r.None? && CanWrite(d, os, tmp) ==> d'.files == d.files[tmp := []])
      && (!CanWrite(d, os, tmp) ==> d'.files == d.files)
      && d'.dirs == d.dirs
  {
  }

  method SaveTemp(fs: FileSystem, assetFile: string, data: Option<Bytes>) returns (tmp: Option<string>)
    modifies fs
    ensures (fs.State(), tmp) == SavedTemp(old(fs.State()), fs.os, assetFile, data)
  {
    var path := TempPath(assetFile);
    var created := fs.Write(path, []);
    if !created || data.None? {
      return None;
    }
    fs.Store(path, data.value);
    assert Exists(fs.State(), path);
    return Some(path);
  }
}
