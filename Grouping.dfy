/**
 * Grouping of the configured texture paths by the container file they live
 * in, as an insertion-ordered dictionary. The same loop appears in
 * src/core/unity_processor.py, src/game/asset_manager.py and
 * core/file_utils.py; they differ only in the masks root.
 */
module Grouping {
  import opened Os
  import opened Paths

  /** One texture to pixelate inside a container (`PixelateEntry`, or the equivalent dict). */
  datatype PixelateEntry = PixelateEntry(assetDir: string, asset: string, assetName: string, assetExt: string, maskFile: string)

  /** A Python dict keyed by container path: `keys` in insertion order. */
  datatype Groups = Groups(keys: seq<string>, entries: map<string, seq<PixelateEntry>>)

  ghost predicate WellFormed(g: Groups) {
    && (forall i, j | 0 <= i < j < |g.keys| :: g.keys[i] != g.keys[j])
    && (forall k :: k in g.entries <==> k in g.keys)
  }

  const NoGroups := Groups([], map[])

  /** `a` is `b` with some elements left out, the rest in order. */
  predicate Subsequence(a: seq<string>, b: seq<string>)
    decreases |b|
  {
    a == [] || (b != [] && ((a[0] == b[0] && Subsequence(a[1..], b[1..])) || Subsequence(a, b[1..])))
  }

  /** The containers a list of replacement pairs names, in order. */
  function Firsts(pairs: seq<(string, string)>): (r: seq<string>)
    ensures |r| == |pairs| && forall i | 0 <= i < |r| :: r[i] == pairs[i].0
  {
    if pairs == [] then [] else [pairs[0].0] + Firsts(pairs[1..])
  }

  lemma {:induction false} SubsequenceMembers(a: seq<string>, b: seq<string>)
    requires Subsequence(a, b)
    ensures |a| <= |b| && forall x | x in a :: x in b
    decreases |b|
  {
    if a != [] {
      if a[0] == b[0] && Subsequence(a[1..], b[1..]) {
        SubsequenceMembers(a[1..], b[1..]);
        assert forall x | x in a :: x == a[0] || x in a[1..];
      } else {
        SubsequenceMembers(a, b[1..]);
      }
    }
  }

  /** One container's pairs, none or its own, listed before the rest. */
  lemma FirstsAfterHead(head: seq<(string, string)>, rest: seq<(string, string)>, k: string)
    requires head == [] || (|head| == 1 && head[0].0 == k)
    ensures Firsts(head + rest) == (if head == [] then [] else [k]) + Firsts(rest)
  {
    if head == [] {
      assert head + rest == rest;
    } else {
      assert Firsts(head + rest)[1..] == Firsts(rest);
    }
  }

  /** Keeping or leaving out the first element extends a subsequence of the rest. */
  lemma SubsequenceStep(head: seq<string>, a: seq<string>, b: seq<string>)
    requires b != [] && Subsequence(a, b[1..])
    requires head == [] || head == [b[0]]
    ensures Subsequence(head + a, b)
  {
    if head == [] {
      assert head + a == a;
    } else {
      assert (head + a)[0] == b[0] && (head + a)[1..] == a;
    }
  }

  /** Whether a key is listed, when the head's own key cannot appear among the rest. */
  lemma ListedAfterHead(k: string, x: string, firsts: seq<string>, listed: bool, rest: seq<string>, tail: seq<string>)
    requires firsts == (if listed then [k] else []) + rest
    requires forall y | y in rest :: y in tail
    requires k !in tail
    ensures k in firsts <==> listed
    ensures x != k ==> (x in firsts <==> x in rest)
  {
  }

  /** Over distinct keys, the first is not among the rest, and the rest are distinct. */
  lemma DistinctTail(keys: seq<string>)
    requires keys != []
    requires forall a, b | 0 <= a < b < |keys| :: keys[a] != keys[b]
    ensures keys[0] !in keys[1..]
    ensures forall a, b | 0 <= a < b < |keys[1..]| :: keys[1..][a] != keys[1..][b]
  {
    forall j | 0 <= j < |keys[1..]| ensures keys[1..][j] != keys[0] {
      assert keys[1..][j] == keys[j + 1];
    }
  }

  /** `join(target_folder, assets_folder, dirname(request))`. */
  function ContainerPath(target: string, assets: string, request: string): string {
    Join3(target, assets, Dirname(request))
  }

  /** The entry's mask lives at `join(masks_root, f"{asset_dir}/{asset}")`. */
  predicate MaskUnder(e: PixelateEntry, masksRoot: string) {
    e.maskFile == Join(masksRoot, e.assetDir + [Sep] + e.asset)
  }

  function EntryFor(request: string, masksRoot: string): (e: PixelateEntry)
    ensures e.assetName + e.assetExt == e.asset
    ensures MaskUnder(e, masksRoot)
  {
    var dir := Dirname(request);
    var base := Basename(request);
    SplitextParts(base);
    PixelateEntry(dir, base, Splitext(base).0, Splitext(base).1, Join(masksRoot, dir + [Sep] + base))
  }

  /** `groups.setdefault(key, []).append(entry)`. */
  function Add(g: Groups, key: string, e: PixelateEntry): Groups {
    if key in g.entries then g.(entries := g.entries[key := g.entries[key] + [e]])
    else Groups(g.keys + [key], g.entries[key := [e]])
  }

  /** The dictionary after the loop has seen `requests`, skipping those whose container does not exist. */
  function Grouped(d: Disk, requests: seq<string>, target: string, assets: string, masksRoot: string): Groups {
    if requests == [] then NoGroups
    else
      var g := Grouped(d, requests[..|requests| - 1], target, assets, masksRoot);
      var r := requests[|requests| - 1];
      var key := ContainerPath(target, assets, r);
      if Exists(d, key) then Add(g, key, EntryFor(r, masksRoot)) else g
  }

  /** The entries of the requests that land in `key`, in request order. */
  function Selected(requests: seq<string>, target: string, assets: string, masksRoot: string, key: string): seq<PixelateEntry> {
    if requests == [] then []
    else
      var r := requests[|requests| - 1];
      Selected(requests[..|requests| - 1], target, assets, masksRoot, key)
      + (if ContainerPath(target, assets, r) == key then [EntryFor(r, masksRoot)] else [])
  }

  /** Some request lands in container `key`. */
  predicate Lands(requests: seq<string>, target: string, assets: string, key: string) {
    exists r | r in requests :: ContainerPath(target, assets, r) == key
  }

  lemma LandsSnoc(init: seq<string>, r: string, target: string, assets: string, key: string)
    ensures Lands(init + [r], target, assets, key) <==> Lands(init, target, assets, key) || ContainerPath(target, assets, r) == key
  {
    if Lands(init + [r], target, assets, key) {
      var q :| q in init + [r] && ContainerPath(target, assets, q) == key;
      if q != r {
        assert q in init;
      }
    }
    if Lands(init, target, assets, key) {
      var q :| q in init && ContainerPath(target, assets, q) == key;
      assert q in init + [r];
    }
    assert r in init + [r];
  }

  /** One more request: the dictionary gains its entry when its container exists, and the selection gains it under its own key. */
  lemma GroupedStep(d: Disk, requests: seq<string>, target: string, assets: string, masksRoot: string, k: string)
    requires requests != []
    ensures var init, r := requests[..|requests| - 1], requests[|requests| - 1];
      var key := ContainerPath(target, assets, r);
      var g0 := Grouped(d, init, target, assets, masksRoot);
      && Grouped(d, requests, target, assets, masksRoot) == (if Exists(d, key) then Add(g0, key, EntryFor(r, masksRoot)) else g0)
      && Selected(requests, target, assets, masksRoot, k)
         == Selected(init, target, assets, masksRoot, k) + (if key == k then [EntryFor(r, masksRoot)] else [])
  {
  }

  /** `setdefault(...).append(...)` keeps every key once and the keys equal to the domain. */
  lemma AddWellFormed(g: Groups, key: string, e: PixelateEntry)
    requires WellFormed(g)
    ensures WellFormed(Add(g, key, e))
  {
    if key !in g.entries {
      var g' := Add(g, key, e);
      assert g'.keys == g.keys + [key];
      forall i, j | 0 <= i < j < |g'.keys| ensures g'.keys[i] != g'.keys[j] {
        if j == |g.keys| {
          assert g'.keys[i] == g.keys[i] && g.keys[i] in g.keys;
        }
      }
    }
  }

  /** Every key once, and the keys are exactly the dictionary's domain. */
  lemma {:induction false} GroupedWellFormed(d: Disk, requests: seq<string>, target: string, assets: string, masksRoot: string)
    ensures WellFormed(Grouped(d, requests, target, assets, masksRoot))
  {
    if requests != [] {
      var init, r := requests[..|requests| - 1], requests[|requests| - 1];
      GroupedWellFormed(d, init, target, assets, masksRoot);
      GroupedStep(d, requests, target, assets, masksRoot, []);
      AddWellFormed(Grouped(d, init, target, assets, masksRoot), ContainerPath(target, assets, r), EntryFor(r, masksRoot));
    }
  }

  /** The keys are exactly the existing containers some request lands in. */
  lemma {:induction false} GroupedKeys(d: Disk, requests: seq<string>, target: string, assets: string, masksRoot: string)
    ensures forall k :: k in Grouped(d, requests, target, assets, masksRoot).entries <==> Exists(d, k) && Lands(requests, target, assets, k)
  {
    if requests != [] {
      var init := requests[..|requests| - 1];
      var r := requests[|requests| - 1];
      assert requests == init + [r];
      GroupedKeys(d, init, target, assets, masksRoot);
      forall k
        ensures k in Grouped(d, requests, target, assets, masksRoot).entries <==> Exists(d, k) && Lands(requests, target, assets, k)
      {
        LandsSnoc(init, r, target, assets, k);
      }
    }
  }

  /** Under each key, the entries of the requests landing there, in request order. */
  lemma {:induction false} GroupedEntries(d: Disk, requests: seq<string>, target: string, assets: string, masksRoot: string)
    ensures var g := Grouped(d, requests, target, assets, masksRoot);
      forall k | k in g.entries :: g.entries[k] == Selected(requests, target, assets, masksRoot, k)
  {
    if requests != [] {
      var init := requests[..|requests| - 1];
      var r := requests[|requests| - 1];
      var key := ContainerPath(target, assets, r);
      GroupedEntries(d, init, target, assets, masksRoot);
      GroupedKeys(d, init, target, assets, masksRoot);
      var g0 := Grouped(d, init, target, assets, masksRoot);
      var g := Grouped(d, requests, target, assets, masksRoot);
      forall k | k in g.entries
        ensures g.entries[k] == Selected(requests, target, assets, masksRoot, k)
      {
        GroupedStep(d, requests, target, assets, masksRoot, k);
        if k == key && Exists(d, k) && k !in g0.entries {
          assert !Lands(init, target, assets, k);
          SelectedEmpty(init, target, assets, masksRoot, k);
        }
      }
    }
  }

  /**
   * The dictionary holds exactly the existing containers some request lands
   * in, each once, and under each the entries of those requests in request order.
   */
  lemma GroupedExact(d: Disk, requests: seq<string>, target: string, assets: string, masksRoot: string)
    ensures var g := Grouped(d, requests, target, assets, masksRoot);
      && WellFormed(g)
      && (forall k :: k in g.entries <==> Exists(d, k) && Lands(requests, target, assets, k))
      && (forall k | k in g.entries :: g.entries[k] == Selected(requests, target, assets, masksRoot, k))
  {
    GroupedWellFormed(d, requests, target, assets, masksRoot);
    GroupedKeys(d, requests, target, assets, masksRoot);
    GroupedEntries(d, requests, target, assets, masksRoot);
  }

  /** No request lands in `key`, so none is selected for it. */
  lemma {:induction false} SelectedEmpty(requests: seq<string>, target: string, assets: string, masksRoot: string, key: string)
    requires !Lands(requests, target, assets, key)
    ensures Selected(requests, target, assets, masksRoot, key) == []
  {
    if requests != [] {
      var init := requests[..|requests| - 1];
      assert requests[|requests| - 1] in requests;
      assert forall r | r in init :: r in requests;
      SelectedEmpty(init, target, assets, masksRoot, key);
    }
  }

  /** Each entry's mask path is the masks root joined with `dir/basename`. */
  lemma MaskPathsUnderRoot(d: Disk, requests: seq<string>, target: string, assets: string, masksRoot: string, k: string, i: int)
    requires k in Grouped(d, requests, target, assets, masksRoot).entries
    requires 0 <= i < |Grouped(d, requests, target, assets, masksRoot).entries[k]|
    ensures MaskUnder(Grouped(d, requests, target, assets, masksRoot).entries[k][i], masksRoot)
  {
    GroupedEntries(d, requests, target, assets, masksRoot);
    SelectedMasks(requests, target, assets, masksRoot, k);
    assert Grouped(d, requests, target, assets, masksRoot).entries[k][i] in Selected(requests, target, assets, masksRoot, k);
  }

  lemma {:induction false} SelectedMasks(requests: seq<string>, target: string, assets: string, masksRoot: string, key: string)
    ensures forall e | e in Selected(requests, target, assets, masksRoot, key) :: MaskUnder(e, masksRoot)
  {
    if requests != [] {
      var init := requests[..|requests| - 1];
      var r := requests[|requests| - 1];
      SelectedMasks(init, target, assets, masksRoot, key);
      var s0 := Selected(init, target, assets, masksRoot, key);
      var tail := if ContainerPath(target, assets, r) == key then [EntryFor(r, masksRoot)] else [];
      assert Selected(requests, target, assets, masksRoot, key) == s0 + tail;
    }
  }

  /** `group_*`: the loop over the requests, probing each container path with `os.path.exists`. */
  method GroupPixelateFiles(fs: FileSystem, requests: seq<string>, target: string, assets: string, masksRoot: string)
    returns (g: Groups)
    ensures g == Grouped(fs.State(), requests, target, assets, masksRoot)
  {
    g := NoGroups;
    var i := 0;
    while i < |requests|
      invariant 0 <= i <= |requests|
      invariant g == Grouped(fs.State(), requests[..i], target, assets, masksRoot)
    {
      var request := requests[i];
      var key := ContainerPath(target, assets, request);
      assert requests[..i + 1][..i] == requests[..i];
      if Exists(fs.State(), key) {
        g := Add(g, key, EntryFor(request, masksRoot));
      }
      i := i + 1;
    }
    assert requests[..|requests|] == requests;
  }

  /** The number of entries over all groups: `sum(len(entries) for entries in groups.values())`. */
  function TotalEntries(g: Groups, keys: seq<string>): nat
    requires forall k | k in keys :: k in g.entries
  {
    if keys == [] then 0 else |g.entries[keys[0]]| + TotalEntries(g, keys[1..])
  }
}
