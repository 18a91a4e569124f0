/**
 * The text work of version.py: reading and rewriting the
 * `version = "X.Y.Z"` line of pyproject.toml, the semantic-version bump,
 * sorting commit lines into changelog categories, building a changelog entry
 * and inserting it into CHANGELOG.md.
 */
module VersionManager {
  import opened Wrappers
  import opened Os
  import opened Decimal
  import opened Text

  datatype Version = Version(major: nat, minor: nat, patch: nat)

  // ---------------------------------------------------------------------
  // The pattern `version = "(\d+)\.(\d+)\.(\d+)"`

  const VersionPrefix := "version = \""

  /**
   * One `(\d+)` of the pattern and the character after it: the number read
   * and the index past `stop`, or `None` when there is no digit or the run
   * is not followed by `stop`.
   */
  function NumberAt(s: string, i: nat, stop: char): (r: Option<(nat, nat)>)
    requires i <= |s|
    ensures r.Some? ==> i + 2 <= r.value.1 <= |s|
  {
    var e := DigitRunEnd(s, i);
    if e == i || e == |s| || s[e] != stop then None
    else
      assert AllDigits(s[i..e]);
      Some((DigitsValue(s[i..e]), e + 1))
  }

  /** A match: the three numbers, and the index just past the closing quote. */
  datatype Match = Match(version: Version, end: nat)

  /** The pattern matched at index `i` of `s`, if it matches there. */
  function MatchAt(s: string, i: nat): (r: Option<Match>)
    ensures r.Some? ==> i + |VersionPrefix| < r.value.end <= |s|
  {
    if !OccursAt(s, VersionPrefix, i) then None
    else
      match NumberAt(s, i + |VersionPrefix|, '.')
      case None => None
      case Some((major, b)) =>
        match NumberAt(s, b, '.')
        case None => None
        case Some((minor, c)) =>
          match NumberAt(s, c, '"')
          case None => None
          case Some((patch, end)) => Some(Match(Version(major, minor, patch), end))
  }

  /** `re.search` from index `from`: the leftmost index at which the pattern matches. */
  function Search(s: string, from: nat): (r: Option<(nat, Match)>)
    requires from <= |s|
    ensures r.Some? ==> from <= r.value.0 <= |s| && MatchAt(s, r.value.0) == Some(r.value.1)
    ensures r.Some? ==> forall j | from <= j < r.value.0 :: MatchAt(s, j).None?
    ensures r.None? ==> forall j | from <= j <= |s| :: MatchAt(s, j).None?
    decreases |s| - from
  {
    var here := MatchAt(s, from);
    if here.Some? then Some((from, here.value))
    else if from == |s| then None
    else Search(s, from + 1)
  }

  /** Two texts that agree below `n`. */
  predicate AgreeBelow(t: string, u: string, n: nat) {
    n <= |t| && n <= |u| && forall k | 0 <= k < n :: t[k] == u[k]
  }

  /** A number reads nothing at or past the index it returns. */
  lemma NumberReadsPrefix(t: string, u: string, i: nat, stop: char, n: nat)
    requires i <= |t| && NumberAt(t, i, stop).Some?
    requires NumberAt(t, i, stop).value.1 <= n && AgreeBelow(t, u, n)
    ensures NumberAt(u, i, stop) == NumberAt(t, i, stop)
  {
    var e := DigitRunEnd(t, i);
    RunEndUnique(u, i, e);
    assert u[i..e] == t[i..e];
  }

  /**
   * A match reads nothing at or past its end, so text that agrees with `t`
   * up to there matches in the same way.
   */
  lemma MatchReadsPrefix(t: string, u: string, j: nat)
    requires MatchAt(t, j).Some?
    requires AgreeBelow(t, u, MatchAt(t, j).value.end)
    ensures MatchAt(u, j) == MatchAt(t, j)
  {
    var n := MatchAt(t, j).value.end;
    var a := j + |VersionPrefix|;
    assert u[j..a] == t[j..a];
    var (_, b) := NumberAt(t, a, '.').value;
    NumberReadsPrefix(t, u, a, '.', n);
    var (_, c) := NumberAt(t, b, '.').value;
    NumberReadsPrefix(t, u, b, '.', n);
    NumberReadsPrefix(t, u, c, '"', n);
  }

  /** A number and its stop character hold no 'v'. */
  lemma NumberHasNoV(t: string, i: nat, stop: char, k: nat)
    requires i <= |t| && NumberAt(t, i, stop).Some? && stop != 'v'
    requires i <= k < NumberAt(t, i, stop).value.1
    ensures t[k] != 'v'
  {
  }

  /** Only the first character of a match is a 'v'. */
  lemma MatchHasOneV(t: string, j: nat, k: nat)
    requires MatchAt(t, j).Some?
    requires j < k < MatchAt(t, j).value.end
    ensures t[k] != 'v'
  {
    var a := j + |VersionPrefix|;
    if k < a {
      assert t[j..a][k - j] == VersionPrefix[k - j];
    } else {
      var (_, b) := NumberAt(t, a, '.').value;
      var (_, c) := NumberAt(t, b, '.').value;
      if k < b {
        NumberHasNoV(t, a, '.', k);
      } else if k < c {
        NumberHasNoV(t, b, '.', k);
      } else {
        NumberHasNoV(t, c, '"', k);
      }
    }
  }

  /** The text `set_version` writes. */
  function VersionText(v: Version): string {
    VersionPrefix + NatToString(v.major) + "." + NatToString(v.minor) + "." + NatToString(v.patch) + "\""
  }

  /** `str(x)` standing at `i` and followed by `stop` reads back as `x`. */
  lemma NumberOver(s: string, i: nat, x: nat, stop: char)
    requires !IsDigit(stop)
    requires i + |NatToString(x)| < |s| && s[i..i + |NatToString(x)|] == NatToString(x)
    requires s[i + |NatToString(x)|] == stop
    ensures NumberAt(s, i, stop) == Some((x, i + |NatToString(x)| + 1))
  {
    var digits := NatToString(x);
    forall k | i <= k < i + |digits| ensures IsDigit(s[k]) {
      assert s[i..i + |digits|][k - i] == digits[k - i];
    }
    RunEndUnique(s, i, i + |digits|);
    NatToStringValue(x);
  }

  /** Where each part of `p + (x + a + "." + b + "." + c + "\"") + q` stands. */
  lemma PartsAt(p: string, x: string, a: string, b: string, c: string, q: string)
    ensures var s := p + (x + a + "." + b + "." + c + "\"") + q;
      var i := |p| + |x|;
      var j := i + |a| + 1;
      var k := j + |b| + 1;
      && k + |c| < |s| && s[|p|..i] == x
      && s[i..i + |a|] == a && s[i + |a|] == '.'
      && s[j..j + |b|] == b && s[j + |b|] == '.'
      && s[k..k + |c|] == c && s[k + |c|] == '"'
  {
  }

  /** The three numbers of `p + (prefix + a + "." + b + "." + c + "\"") + q`, and where each read ends. */
  lemma NumbersInParts(p: string, a: string, b: string, c: string, q: string, v: Version)
    requires a == NatToString(v.major) && b == NatToString(v.minor) && c == NatToString(v.patch)
    ensures var s := p + (VersionPrefix + a + "." + b + "." + c + "\"") + q;
      var i := |p| + |VersionPrefix|;
      var j := i + |a| + 1;
      var k := j + |b| + 1;
      && OccursAt(s, VersionPrefix, |p|) && k <= |s|
      && NumberAt(s, i, '.') == Some((v.major, j))
      && NumberAt(s, j, '.') == Some((v.minor, k))
      && NumberAt(s, k, '"') == Some((v.patch, k + |c| + 1))
  {
    var s := p + (VersionPrefix + a + "." + b + "." + c + "\"") + q;
    var i := |p| + |VersionPrefix|;
    var j := i + |a| + 1;
    var k := j + |b| + 1;
    PartsAt(p, VersionPrefix, a, b, c, q);
    assert s[|p|..i] == VersionPrefix;
    NumberOver(s, i, v.major, '.');
    NumberOver(s, j, v.minor, '.');
    NumberOver(s, k, v.patch, '"');
  }

  /** The written text matches where it stands and reads back as the version it was made from. */
  lemma VersionTextMatches(p: string, v: Version, q: string)
    ensures MatchAt(p + VersionText(v) + q, |p|) == Some(Match(v, |p| + |VersionText(v)|))
  {
    var a, b, c := NatToString(v.major), NatToString(v.minor), NatToString(v.patch);
    var text := VersionPrefix + a + "." + b + "." + c + "\"";
    assert VersionText(v) == text;
    var s := p + text + q;
    var j := |p| + |VersionPrefix| + |a| + 1;
    var k := j + |b| + 1;
    NumbersInParts(p, a, b, c, q, v);
    MatchOfNumbers(s, |p|, v, j, k, k + |c| + 1);
    assert k + |c| + 1 == |p| + |text|;
  }

  /** Three numbers read in a row after the prefix make a match. */
  lemma MatchOfNumbers(s: string, i: nat, v: Version, b: nat, c: nat, end: nat)
    requires OccursAt(s, VersionPrefix, i)
    requires NumberAt(s, i + |VersionPrefix|, '.') == Some((v.major, b))
    requires b <= |s| && NumberAt(s, b, '.') == Some((v.minor, c))
    requires c <= |s| && NumberAt(s, c, '"') == Some((v.patch, end))
    ensures MatchAt(s, i) == Some(Match(v, end))
  {
  }

  // ---------------------------------------------------------------------
  // get_current_version and set_version

  /** `get_current_version` on the text of pyproject.toml. */
  function CurrentVersion(content: string): Result<Version, Exception> {
    match Search(content, 0)
    case None => Err(ValueError("Could not find version in pyproject.toml"))
    case Some((_, m)) => Ok(m.version)
  }

  /** `re.sub`: every match, left to right, replaced by `rep`. */
  function Substituted(s: string, rep: string): (r: string)
    ensures Search(s, 0).None? ==> r == s
    decreases |s|
  {
    match Search(s, 0)
    case None => s
    case Some((i, m)) => s[..i] + rep + Substituted(s[m.end..], rep)
  }

  /** `set_version` on the text of pyproject.toml. */
  function WithVersion(content: string, v: Version): string {
    Substituted(content, VersionText(v))
  }

  /**
   * Reading after writing gives the version written, wherever the first
   * version line stood; text without a version line is left as it is and
   * still has none.
   */
  lemma ReadAfterWrite(content: string, v: Version)
    ensures CurrentVersion(content).Ok? ==> CurrentVersion(WithVersion(content, v)) == Ok(v)
    ensures CurrentVersion(content).Err? ==> WithVersion(content, v) == content
    ensures CurrentVersion(content).Ok? ==> Contains(WithVersion(content, v), VersionText(v))
  {
    var rep := VersionText(v);
    match Search(content, 0)
    case None =>
    case Some((i, m)) =>
      var rest := Substituted(content[m.end..], rep);
      assert WithVersion(content, v) == content[..i] + rep + rest;
      WrittenReadsBack(content, i, v, rest);
      ContainsMiddle(content[..i], rep, rest);
  }

  /** The version text put in place of the first match is the first match of the new text. */
  lemma WrittenReadsBack(content: string, i: nat, v: Version, rest: string)
    requires i <= |content|
    requires forall j | 0 <= j < i :: MatchAt(content, j).None?
    ensures Search(content[..i] + VersionText(v) + rest, 0) == Some((i, Match(v, i + |VersionText(v)|)))
  {
    var pre := content[..i];
    var t := pre + VersionText(v) + rest;
    assert |pre| == i;
    VersionTextMatches(pre, v, rest);
    assert t[i] == 'v';
    assert AgreeBelow(t, content, i) by {
      forall k | 0 <= k < i ensures t[k] == content[k] {
        assert t[k] == pre[k];
      }
    }
    NoMatchBefore(content, t, i);
    SearchFinds(t, 0, i, Match(v, i + |VersionText(v)|));
  }

  /**
   * Text that agrees with `content` below `i` and has a 'v' at `i`, where
   * `content` has no match before `i`, has no match before `i` either: a
   * match there would end at or before `i` and so be one of `content`.
   */
  lemma NoMatchBefore(content: string, t: string, i: nat)
    requires i < |t| && t[i] == 'v' && AgreeBelow(t, content, i)
    requires forall j | 0 <= j < i :: MatchAt(content, j).None?
    ensures forall j | 0 <= j < i :: MatchAt(t, j).None?
  {
    forall j | 0 <= j < i
      ensures MatchAt(t, j).None?
    {
      if MatchAt(t, j).Some? {
        var n := MatchAt(t, j).value.end;
        if n > i {
          MatchHasOneV(t, j, i);
        } else {
          MatchReadsPrefix(t, content, j);
        }
      }
    }
  }

  /** The leftmost match from `from` on is the one `re.search` finds. */
  lemma {:induction false} SearchFinds(t: string, from: nat, i: nat, m: Match)
    requires from <= i <= |t| && MatchAt(t, i) == Some(m)
    requires forall j | from <= j < i :: MatchAt(t, j).None?
    ensures Search(t, from) == Some((i, m))
    decreases i - from
  {
    if from < i {
      assert MatchAt(t, from).None?;
      SearchFinds(t, from + 1, i, m);
    }
  }

  // ---------------------------------------------------------------------
  // bump_version

  /** Semantic versions in release order. */
  predicate Older(v: Version, w: Version) {
    || v.major < w.major
    || (v.major == w.major && v.minor < w.minor)
    || (v.major == w.major && v.minor == w.minor && v.patch < w.patch)
  }

  function Bumped(v: Version, bumpType: string): Result<Version, Exception> {
    if bumpType == "major" then Ok(Version(v.major + 1, 0, 0))
    else if bumpType == "minor" then Ok(Version(v.major, v.minor + 1, 0))
    else if bumpType == "patch" then Ok(Version(v.major, v.minor, v.patch + 1))
    else Err(ValueError("Invalid bump type: " + bumpType))
  }

  /** What `bump_version` returns or raises for the text of pyproject.toml. */
  function BumpOutcome(content: string, bumpType: string): Result<Version, Exception> {
    match CurrentVersion(content)
    case Err(e) => Err(e)
    case Ok(v) => Bumped(v, bumpType)
  }

  /**
   * Only the three bump types are accepted. Each gives a newer version, and
   * the next one at its level: nothing lies strictly between the old
   * version and a major or minor bump whose lower parts are all zero, and
   * a patch bump is the very next version.
   */
  lemma BumpedIsNext(v: Version, bumpType: string, w: Version)
    ensures Bumped(v, bumpType).Ok? <==> bumpType in {"major", "minor", "patch"}
    ensures Bumped(v, bumpType).Err? ==> Bumped(v, bumpType).error == ValueError("Invalid bump type: " + bumpType)
    ensures Bumped(v, bumpType).Ok? ==> Older(v, Bumped(v, bumpType).value)
    ensures Bumped(v, bumpType).Ok? && Older(v, w) && Older(w, Bumped(v, bumpType).value) ==>
              (bumpType == "major" && w.major == v.major) || (bumpType == "minor" && w.minor == v.minor)
  {
  }

  // ---------------------------------------------------------------------
  // categorize_commits

  datatype Category = Features | BugFixes | Documentation | Refactoring | Other

  function Title(c: Category): string {
    match c
    case Features => "Features"
    case BugFixes => "Bug Fixes"
    case Documentation => "Documentation"
    case Refactoring => "Refactoring"
    case Other => "Other"
  }

  /** The order of the categories dictionary, which is the order of the changelog sections. */
  const CategoryOrder: seq<Category> := [Features, BugFixes, Documentation, Refactoring, Other]

  /** A changelog item: the commit hash and its message. */
  type Item = (string, string)

  /** `commit.split(' ', 1)`: the hash, and the message or "" when there is no space. */
  function SplitCommit(commit: string): (string, string) {
    var (hash, rest) := SplitOnce(commit, ' ');
    (hash, if rest.Some? then rest.value else "")
  }

  /** The conventional-commit prefix of each category but `Other`. */
  function Prefix(c: Category): string
    requires c != Other
  {
    match c
    case Features => "feat:"
    case BugFixes => "fix:"
    case Documentation => "docs:"
    case Refactoring => "refactor:"
  }

  /** One commit line `hash message`: its category and its item. */
  function Classified(commit: string): (Category, Item) {
    var (hash, message) := SplitCommit(commit);
    if StartsWith(message, "feat:") then (Features, (hash, Strip(message[5..])))
    else if StartsWith(message, "fix:") then (BugFixes, (hash, Strip(message[4..])))
    else if StartsWith(message, "docs:") then (Documentation, (hash, Strip(message[5..])))
    else if StartsWith(message, "refactor:") then (Refactoring, (hash, Strip(message[9..])))
    else (Other, (hash, message))
  }

  /** The hash is the text before the first space; the message is what follows that space. */
  lemma SplitCommitParts(commit: string)
    ensures var (hash, message) := SplitCommit(commit);
      && (forall i | 0 <= i < |hash| :: hash[i] != ' ')
      && (commit == hash + " " + message || (commit == hash && message == ""))
  {
  }

  /**
   * A commit in one of the four named categories has that category's prefix
   * at the start of its message, and its text is what follows the prefix,
   * trimmed; it keeps the hash.
   */
  lemma ClassifiedNamed(commit: string)
    requires Classified(commit).0 != Other
    ensures var (c, item) := Classified(commit);
      var (hash, message) := SplitCommit(commit);
      && item.0 == hash
      && StartsWith(message, Prefix(c))
      && item.1 == Strip(message[|Prefix(c)|..])
  {
    var message := SplitCommit(commit).1;
    if StartsWith(message, "feat:") {
      assert Classified(commit).0 == Features;
    } else if StartsWith(message, "fix:") {
      assert Classified(commit).0 == BugFixes;
    } else if StartsWith(message, "docs:") {
      assert Classified(commit).0 == Documentation;
    } else {
      assert Classified(commit).0 == Refactoring;
    }
  }

  /** Any other commit keeps its whole message, which starts with none of the prefixes. */
  lemma ClassifiedOther(commit: string)
    requires Classified(commit).0 == Other
    ensures Classified(commit).1 == SplitCommit(commit)
    ensures forall c | c != Other :: !StartsWith(SplitCommit(commit).1, Prefix(c))
  {
  }

  /** The items of the commits in category `c`, in commit order. */
  function InCategory(commits: seq<string>, c: Category): seq<Item> {
    if commits == [] then []
    else
      var (c', item) := Classified(commits[|commits| - 1]);
      InCategory(commits[..|commits| - 1], c) + (if c' == c then [item] else [])
  }

  lemma InCategorySnoc(commits: seq<string>, x: string, c: Category)
    ensures InCategory(commits + [x], c)
            == InCategory(commits, c) + (if Classified(x).0 == c then [Classified(x).1] else [])
  {
    assert (commits + [x])[..|commits|] == commits;
  }

  /** Every commit lands in exactly one category: the five lists together are as long as the input. */
  lemma {:induction false} CategoriesPartition(commits: seq<string>)
    ensures |InCategory(commits, Features)| + |InCategory(commits, BugFixes)| + |InCategory(commits, Documentation)|
            + |InCategory(commits, Refactoring)| + |InCategory(commits, Other)| == |commits|
  {
    if commits != [] {
      CategoriesPartition(commits[..|commits| - 1]);
    }
  }

  /** Each commit's item is in its own category's list. */
  lemma {:induction false} ItemInCategory(commits: seq<string>, k: nat)
    requires k < |commits|
    ensures Classified(commits[k]).1 in InCategory(commits, Classified(commits[k]).0)
  {
    var init := commits[..|commits| - 1];
    if k < |commits| - 1 {
      assert init[k] == commits[k];
      ItemInCategory(init, k);
    }
  }

  /** Adding one commit's item to its category's list keeps the lists those of the commits so far. */
  lemma CategorizedStep(categories: map<Category, seq<Item>>, commits: seq<string>, i: nat)
    requires i < |commits|
    requires categories.Keys == {Features, BugFixes, Documentation, Refactoring, Other}
    requires forall c | c in categories :: categories[c] == InCategory(commits[..i], c)
    ensures var (c, item) := Classified(commits[i]);
      var next := categories[c := categories[c] + [item]];
      && next.Keys == {Features, BugFixes, Documentation, Refactoring, Other}
      && forall c' | c' in next :: next[c'] == InCategory(commits[..i + 1], c')
  {
    var (c, item) := Classified(commits[i]);
    var next := categories[c := categories[c] + [item]];
    forall c' | c' in next ensures next[c'] == InCategory(commits[..i + 1], c') {
      InCategoryPrefixStep(commits, i, c');
    }
  }

  lemma InCategoryPrefixStep(commits: seq<string>, i: nat, c: Category)
    requires i < |commits|
    ensures InCategory(commits[..i + 1], c)
            == InCategory(commits[..i], c) + (if Classified(commits[i]).0 == c then [Classified(commits[i]).1] else [])
  {
    assert commits[..i + 1] == commits[..i] + [commits[i]];
    InCategorySnoc(commits[..i], commits[i], c);
  }

  /** The five lists, under their category. */
  method CategorizeCommits(commits: seq<string>) returns (categories: map<Category, seq<Item>>)
    ensures categories.Keys == {Features, BugFixes, Documentation, Refactoring, Other}
    ensures forall c | c in categories :: categories[c] == InCategory(commits, c)
  {
    categories := map[Features := [], BugFixes := [], Documentation := [], Refactoring := [], Other := []];
    var i := 0;
    while i < |commits|
      invariant 0 <= i <= |commits|
      invariant categories.Keys == {Features, BugFixes, Documentation, Refactoring, Other}
      invariant forall c | c in categories :: categories[c] == InCategory(commits[..i], c)
    {
      CategorizedStep(categories, commits, i);
      var (c, item) := Classified(commits[i]);
      categories := categories[c := categories[c] + [item]];
      i := i + 1;
    }
    assert commits[..i] == commits;
  }

  // ---------------------------------------------------------------------
  // generate_changelog_entry

  function Bullet(item: Item): string {
    "- " + item.1 + " (" + item.0 + ")\n"
  }

  function Bullets(items: seq<Item>): string {
    if items == [] then "" else Bullets(items[..|items| - 1]) + Bullet(items[|items| - 1])
  }

  /** The line that opens a category's section. */
  function Heading(c: Category): string {
    "### " + Title(c) + "\n"
  }

  /** A category's section: nothing for an empty list. */
  function Section(c: Category, items: seq<Item>): string {
    if items == [] then "" else Heading(c) + Bullets(items) + "\n"
  }

  /** A category and its items. */
  type Group = (Category, seq<Item>)

  function Sections(groups: seq<Group>): string {
    if groups == [] then ""
    else Sections(groups[..|groups| - 1]) + Section(groups[|groups| - 1].0, groups[|groups| - 1].1)
  }

  /** The categories dictionary, in its order. */
  function Categorized(commits: seq<string>): (groups: seq<Group>)
    ensures |groups| == |CategoryOrder|
    ensures forall k | 0 <= k < |groups| :: groups[k] == (CategoryOrder[k], InCategory(commits, CategoryOrder[k]))
  {
    [(Features, InCategory(commits, Features)), (BugFixes, InCategory(commits, BugFixes)),
     (Documentation, InCategory(commits, Documentation)), (Refactoring, InCategory(commits, Refactoring)),
     (Other, InCategory(commits, Other))]
  }

  function EntryHeader(version: string, date: string): string {
    "## [" + version + "] - " + date + "\n\n"
  }

  /** The entry for `version` dated `date` (the day it is generated). */
  function ChangelogEntry(version: string, date: string, commits: seq<string>): string {
    EntryHeader(version, date) + Sections(Categorized(commits))
  }

  lemma {:induction false} BulletsContain(items: seq<Item>, x: Item)
    requires x in items
    ensures Contains(Bullets(items), Bullet(x))
  {
    var init := items[..|items| - 1];
    assert Bullets(items) == Bullets(init) + Bullet(items[|items| - 1]);
    ContainsParts(Bullets(init), Bullet(items[|items| - 1]));
    if x != items[|items| - 1] {
      assert x in init;
      BulletsContain(init, x);
      ContainsTransitive(Bullets(items), Bullets(init), Bullet(x));
    }
  }

  lemma {:induction false} SectionsContain(groups: seq<Group>, g: Group)
    requires g in groups
    ensures Contains(Sections(groups), Section(g.0, g.1))
  {
    var init := groups[..|groups| - 1];
    var last := Section(groups[|groups| - 1].0, groups[|groups| - 1].1);
    assert Sections(groups) == Sections(init) + last;
    ContainsParts(Sections(init), last);
    if g != groups[|groups| - 1] {
      assert g in init;
      SectionsContain(init, g);
      ContainsTransitive(Sections(groups), Sections(init), Section(g.0, g.1));
    }
  }

  /** Each category's group is among the five. */
  lemma GroupListed(commits: seq<string>, c: Category)
    ensures (c, InCategory(commits, c)) in Categorized(commits)
  {
    var groups := Categorized(commits);
    match c
    case Features => assert groups[0] == (c, InCategory(commits, c));
    case BugFixes => assert groups[1] == (c, InCategory(commits, c));
    case Documentation => assert groups[2] == (c, InCategory(commits, c));
    case Refactoring => assert groups[3] == (c, InCategory(commits, c));
    case Other => assert groups[4] == (c, InCategory(commits, c));
  }

  /**
   * The entry starts with its header, lists every commit as
   * `- message (hash)` and heads the section of every category that has a
   * commit.
   */
  lemma EntryListsEveryCommit(version: string, date: string, commits: seq<string>, k: nat)
    requires k < |commits|
    ensures StartsWith(ChangelogEntry(version, date, commits), EntryHeader(version, date))
    ensures Contains(ChangelogEntry(version, date, commits), Bullet(Classified(commits[k]).1))
    ensures Contains(ChangelogEntry(version, date, commits), Heading(Classified(commits[k]).0))
  {
    var (c, item) := Classified(commits[k]);
    var items := InCategory(commits, c);
    ItemInCategory(commits, k);
    SectionHoldsItem(c, items, item);
    EntryHoldsSection(version, date, commits, c);
    var entry := ChangelogEntry(version, date, commits);
    var section := Section(c, items);
    ContainsTransitive(entry, section, Bullet(item));
    ContainsTransitive(entry, section, Heading(c));
  }

  /** A section holds its heading and the bullet of each of its items. */
  lemma SectionHoldsItem(c: Category, items: seq<Item>, item: Item)
    requires item in items
    ensures Contains(Section(c, items), Bullet(item)) && Contains(Section(c, items), Heading(c))
  {
    BulletsContain(items, item);
    var heading := Heading(c);
    var section := Section(c, items);
    assert section == heading + (Bullets(items) + "\n");
    ContainsParts(heading, Bullets(items) + "\n");
    ContainsParts(Bullets(items), "\n");
    ContainsTransitive(section, Bullets(items) + "\n", Bullets(items));
    ContainsTransitive(section, Bullets(items), Bullet(item));
  }

  /** The entry starts with its header and holds the section of every category. */
  lemma EntryHoldsSection(version: string, date: string, commits: seq<string>, c: Category)
    ensures StartsWith(ChangelogEntry(version, date, commits), EntryHeader(version, date))
    ensures Contains(ChangelogEntry(version, date, commits), Section(c, InCategory(commits, c)))
  {
    var groups := Categorized(commits);
    GroupListed(commits, c);
    SectionsContain(groups, (c, InCategory(commits, c)));
    ContainsParts(EntryHeader(version, date), Sections(groups));
    ContainsTransitive(ChangelogEntry(version, date, commits), Sections(groups), Section(c, InCategory(commits, c)));
  }

  lemma {:induction false} EmptyGroupsNoSections(groups: seq<Group>)
    requires forall k | 0 <= k < |groups| :: groups[k].1 == []
    ensures Sections(groups) == ""
  {
    if groups != [] {
      EmptyGroupsNoSections(groups[..|groups| - 1]);
    }
  }

  /** Without commits the entry is its header alone. */
  lemma EmptyEntry(version: string, date: string)
    ensures ChangelogEntry(version, date, []) == EntryHeader(version, date)
  {
    EmptyGroupsNoSections(Categorized([]));
  }

  lemma BulletsStep(items: seq<Item>, j: nat)
    requires j < |items|
    ensures Bullets(items[..j + 1]) == Bullets(items[..j]) + Bullet(items[j])
  {
    assert items[..j + 1][..j] == items[..j];
  }

  lemma SectionsStep(groups: seq<Group>, k: nat)
    requires k < |groups|
    ensures Sections(groups[..k + 1]) == Sections(groups[..k]) + Section(groups[k].0, groups[k].1)
  {
    assert groups[..k + 1][..k] == groups[..k];
  }

  /** One pass of the outer loop: the section of a non-empty category appended item by item. */
  method AppendSection(entry: string, c: Category, items: seq<Item>) returns (r: string)
    ensures r == entry + Section(c, items)
  {
    r := entry;
    if items == [] {
      return;
    }
    r := r + Heading(c);
    var j := 0;
    while j < |items|
      invariant 0 <= j <= |items|
      invariant r == entry + Heading(c) + Bullets(items[..j])
    {
      BulletsStep(items, j);
      r := r + Bullet(items[j]);
      j := j + 1;
    }
    assert items[..j] == items;
    r := r + "\n";
    Regroup(entry, Heading(c), Bullets(items), "\n");
  }

  /** `generate_changelog_entry`, with today's date passed in. */
  method GenerateChangelogEntry(version: string, commits: seq<string>, date: string) returns (entry: string)
    ensures entry == ChangelogEntry(version, date, commits)
  {
    var categories := CategorizeCommits(commits);
    ghost var groups := Categorized(commits);
    entry := EntryHeader(version, date);
    var ci := 0;
    while ci < |CategoryOrder|
      invariant 0 <= ci <= |CategoryOrder|
      invariant entry == EntryHeader(version, date) + Sections(groups[..ci])
    {
      var c := CategoryOrder[ci];
      assert groups[ci] == (c, categories[c]);
      SectionsStep(groups, ci);
      entry := AppendSection(entry, c, categories[c]);
      Regroup(EntryHeader(version, date), Sections(groups[..ci]), Section(c, categories[c]), "");
      assert Sections(groups[..ci]) + Section(c, categories[c]) + "" == Sections(groups[..ci + 1]);
      ci := ci + 1;
    }
    assert groups[..ci] == groups;
  }

  // ---------------------------------------------------------------------
  // update_changelog

  const ChangelogHeading := "# Changelog\n\n"

  const NewChangelogPreamble := ChangelogHeading + "All notable changes to this project will be documented in this file.\n\n"

  /** The new text of CHANGELOG.md, given its old text (`None` when there is no such file). */
  function UpdatedChangelog(existing: Option<string>, entry: string): string {
    match existing
    case None => NewChangelogPreamble + entry
    case Some(content) => ReplaceAll(content, ChangelogHeading, ChangelogHeading + entry)
  }

  /**
   * A new file is the preamble followed by the entry. An existing file whose
   * heading occurs once, at the top, gets the entry right after the heading
   * and keeps all its old text after it. An existing file without the
   * heading is written back unchanged: the entry is dropped.
   */
  lemma ChangelogInsertsEntry(rest: string, entry: string)
    ensures StartsWith(UpdatedChangelog(None, entry), ChangelogHeading)
    ensures EndsWith(UpdatedChangelog(None, entry), entry)
    ensures !Contains(rest, ChangelogHeading) ==>
              UpdatedChangelog(Some(ChangelogHeading + rest), entry) == ChangelogHeading + entry + rest
    ensures !Contains(rest, ChangelogHeading) ==> UpdatedChangelog(Some(rest), entry) == rest
  {
    assert FirstCharUnique(ChangelogHeading);
    assert NewChangelogPreamble + entry == ChangelogHeading + (NewChangelogPreamble[|ChangelogHeading|..] + entry);
    if !Contains(rest, ChangelogHeading) {
      ReplaceAllSplits([], ChangelogHeading, rest, ChangelogHeading + entry);
      assert [] + ChangelogHeading + rest == ChangelogHeading + rest;
      ReplaceAllShort([], ChangelogHeading, ChangelogHeading + entry);
      ReplaceAllAbsent(rest, ChangelogHeading, ChangelogHeading + entry);
    }
  }

  // ---------------------------------------------------------------------
  // The commit list of get_git_changes

  /** The stripped, non-blank lines, in order. */
  function CleanLines(pieces: seq<string>): seq<string> {
    if pieces == [] then []
    else
      var last := Strip(pieces[|pieces| - 1]);
      CleanLines(pieces[..|pieces| - 1]) + (if last != [] then [last] else [])
  }

  /** The commit lines of `git log --oneline` output. */
  function CommitLines(stdout: string): seq<string> {
    CleanLines(Split(Strip(stdout), '\n'))
  }

  /** A text without a line break. */
  predicate SingleLine(line: string) {
    forall i | 0 <= i < |line| :: line[i] != '\n'
  }

  predicate CleanLine(line: string) {
    && line != []
    && !IsSpace(line[0]) && !IsSpace(line[|line| - 1])
    && SingleLine(line)
  }

  lemma {:induction false} CleanLinesClean(pieces: seq<string>)
    requires forall k | 0 <= k < |pieces| :: SingleLine(pieces[k])
    ensures forall k | 0 <= k < |CleanLines(pieces)| :: CleanLine(CleanLines(pieces)[k])
    ensures |CleanLines(pieces)| <= |pieces|
  {
    if pieces != [] {
      var init := pieces[..|pieces| - 1];
      var p := pieces[|pieces| - 1];
      assert forall k | 0 <= k < |init| :: init[k] == pieces[k];
      CleanLinesClean(init);
      var c := CleanLines(init);
      var last := Strip(p);
      StripKeepsAbsent(p, '\n');
      assert CleanLines(pieces) == c + (if last != [] then [last] else []);
      forall k | 0 <= k < |CleanLines(pieces)|
        ensures CleanLine(CleanLines(pieces)[k])
      {
        if k < |c| {
          assert CleanLines(pieces)[k] == c[k];
        } else {
          assert CleanLines(pieces)[k] == last;
        }
      }
    }
  }

  /** The positions of the pieces that `keep` accepts, in increasing order. */
  function Positions(pieces: seq<string>, keep: string -> bool): seq<nat> {
    if pieces == [] then []
    else
      var n := |pieces| - 1;
      Positions(pieces[..n], keep) + (if keep(pieces[n]) then [n] else [])
  }

  /** The positions of the pieces that are not blank. */
  function KeptPositions(pieces: seq<string>): seq<nat> {
    Positions(pieces, line => Strip(line) != [])
  }

  /**
   * The positions are positions of `pieces` and increase, and a piece is
   * among them exactly when `keep` accepts it.
   */
  lemma {:induction false} PositionsExact(pieces: seq<string>, keep: string -> bool)
    ensures forall j | 0 <= j < |Positions(pieces, keep)| :: Positions(pieces, keep)[j] < |pieces|
    ensures var ix := Positions(pieces, keep);
      && (forall i, j | 0 <= i < j < |ix| :: ix[i] < ix[j])
      && forall k | 0 <= k < |pieces| :: keep(pieces[k]) <==> k in ix
  {
    if pieces != [] {
      var n := |pieces| - 1;
      var init := pieces[..n];
      PositionsExact(init, keep);
      var ix0 := Positions(init, keep);
      var ix := Positions(pieces, keep);
      assert ix == ix0 + (if keep(pieces[n]) then [n] else []);
      assert forall j | 0 <= j < |ix0| :: ix0[j] < n;
      forall i, j | 0 <= i < j < |ix| ensures ix[i] < ix[j] {
        assert ix[i] == ix0[i];
      }
      forall k | 0 <= k < n ensures keep(pieces[k]) <==> k in ix {
        assert init[k] == pieces[k];
        assert k in ix <==> k in ix0;
      }
    }
  }

  /**
   * The kept positions are positions of `pieces` and increase, and a piece is
   * kept exactly when it is not blank.
   */
  lemma KeptPositionsExact(pieces: seq<string>)
    ensures forall j | 0 <= j < |KeptPositions(pieces)| :: KeptPositions(pieces)[j] < |pieces|
    ensures var ix := KeptPositions(pieces);
      && (forall i, j | 0 <= i < j < |ix| :: ix[i] < ix[j])
      && forall k | 0 <= k < |pieces| :: Strip(pieces[k]) != [] <==> k in ix
  {
    PositionsExact(pieces, line => Strip(line) != []);
  }

  /**
   * No line is lost: the j-th line is the j-th non-blank piece, stripped;
   * with `KeptPositionsExact`, the order is kept and every non-blank piece
   * appears.
   */
  lemma {:induction false} CleanLinesExact(pieces: seq<string>)
    ensures forall j | 0 <= j < |KeptPositions(pieces)| :: KeptPositions(pieces)[j] < |pieces|
    ensures var lines, ix := CleanLines(pieces), KeptPositions(pieces);
      && |lines| == |ix|
      && forall j | 0 <= j < |ix| :: lines[j] == Strip(pieces[ix[j]])
  {
    if pieces != [] {
      var n := |pieces| - 1;
      var init := pieces[..n];
      CleanLinesExact(init);
      var c, ix0 := CleanLines(init), KeptPositions(init);
      var last := Strip(pieces[n]);
      var lines, ix := CleanLines(pieces), KeptPositions(pieces);
      assert lines == c + (if last != [] then [last] else []);
      assert ix == ix0 + (if last != [] then [n] else []);
      assert forall j | 0 <= j < |ix0| :: ix0[j] < n;
      forall j | 0 <= j < |ix| ensures lines[j] == Strip(pieces[ix[j]]) {
        if j < |ix0| {
          assert lines[j] == c[j] && ix[j] == ix0[j];
          assert init[ix0[j]] == pieces[ix0[j]];
        }
      }
    }
  }

  /**
   * The commit lines are the non-blank lines of the stripped output, each
   * stripped, in order and none lost; every one is non-empty, has no white
   * space at either end and is a single line.
   */
  lemma CommitLinesClean(stdout: string)
    ensures forall k | 0 <= k < |CommitLines(stdout)| :: CleanLine(CommitLines(stdout)[k])
    ensures var parts := Split(Strip(stdout), '\n');
      forall j | 0 <= j < |KeptPositions(parts)| :: KeptPositions(parts)[j] < |parts|
    ensures var parts := Split(Strip(stdout), '\n');
      var lines, ix := CommitLines(stdout), KeptPositions(parts);
      && |lines| == |ix|
      && (forall j | 0 <= j < |ix| :: lines[j] == Strip(parts[ix[j]]))
      && (forall i, j | 0 <= i < j < |ix| :: ix[i] < ix[j])
      && forall k | 0 <= k < |parts| :: Strip(parts[k]) != [] <==> k in ix
  {
    var parts := Split(Strip(stdout), '\n');
    assert forall k | 0 <= k < |parts| :: SingleLine(parts[k]);
    CleanLinesClean(parts);
    CleanLinesExact(parts);
    KeptPositionsExact(parts);
  }

  // ---------------------------------------------------------------------
  // The manager over the two files it reads and writes

  /**
   * The texts of pyproject.toml and CHANGELOG.md (`None` while there is no
   * changelog file).
   */
  class VersionFiles {
    var pyproject: string
    var changelog: Option<string>

    constructor(pyproject: string, changelog: Option<string>)
      ensures this.pyproject == pyproject && this.changelog == changelog
    {
      this.pyproject := pyproject;
      this.changelog := changelog;
    }

    method GetCurrentVersion() returns (r: Result<Version, Exception>)
      ensures r == CurrentVersion(pyproject)
    {
      var found := Search(pyproject, 0);
      if found.None? {
        return Err(ValueError("Could not find version in pyproject.toml"));
      }
      r := Ok(found.value.1.version);
    }

    method SetVersion(major: nat, minor: nat, patch: nat)
      modifies this
      ensures pyproject == WithVersion(old(pyproject), Version(major, minor, patch))
      ensures changelog == old(changelog)
    {
      pyproject := Substituted(pyproject, VersionText(Version(major, minor, patch)));
    }

    /**
     * Bump the version in pyproject.toml. A missing version line or an
     * unknown bump type raises before anything is written; otherwise the
     * file now reads as the bumped version.
     */
    method BumpVersion(bumpType: string) returns (r: Result<Version, Exception>)
      modifies this
      ensures r == BumpOutcome(old(pyproject), bumpType)
      ensures r.Ok? ==> pyproject == WithVersion(old(pyproject), r.value) && CurrentVersion(pyproject) == Ok(r.value)
      ensures r.Err? ==> pyproject == old(pyproject)
      ensures changelog == old(changelog)
    {
      var current := GetCurrentVersion();
      if current.Err? {
        return current;
      }
      ghost var outcome := Bumped(current.value, bumpType);
      var major, minor, patch := current.value.major, current.value.minor, current.value.patch;
      if bumpType == "major" {
        major := major + 1;
        minor := 0;
        patch := 0;
      } else if bumpType == "minor" {
        minor := minor + 1;
        patch := 0;
      } else if bumpType == "patch" {
        patch := patch + 1;
      } else {
        return Err(ValueError("Invalid bump type: " + bumpType));
      }
      assert outcome == Ok(Version(major, minor, patch));
      ReadAfterWrite(pyproject, Version(major, minor, patch));
      SetVersion(major, minor, patch);
      r := Ok(Version(major, minor, patch));
    }

    method UpdateChangelog(version: string, commits: seq<string>, date: string)
      modifies this
      ensures changelog == Some(UpdatedChangelog(old(changelog), ChangelogEntry(version, date, commits)))
      ensures pyproject == old(pyproject)
    {
      var entry := GenerateChangelogEntry(version, commits, date);
      if changelog.None? {
        changelog := Some(NewChangelogPreamble + entry);
      } else {
        changelog := Some(ReplaceAll(changelog.value, ChangelogHeading, ChangelogHeading + entry));
      }
    }
  }
}
