/**
 * The `os.path` string functions the pipeline uses to turn a configured
 * texture path such as `sharedassets0.assets/ui_icon.png` into a container
 * path, a texture name and a mask path (POSIX separator `/`).
 */
module Paths {

  const Sep: char := '/'

  /** `s.rfind(c)`: the last index holding `c`, or -1. */
  function LastIndexOf(s: string, c: char): (i: int)
    ensures -1 <= i < |s|
    ensures i >= 0 ==> s[i] == c
    ensures forall j | i < j < |s| :: s[j] != c
  {
    if |s| == 0 then -1
    else if s[|s| - 1] == c then |s| - 1
    else LastIndexOf(s[..|s| - 1], c)
  }

  predicate AllSeps(s: string) {
    forall i | 0 <= i < |s| :: s[i] == Sep
  }

  /** `s.rstrip("/")`. */
  function RStripSeps(s: string): (r: string)
    ensures |r| <= |s| && r == s[..|r|]
    ensures r == "" || r[|r| - 1] != Sep
    ensures AllSeps(s[|r|..])
  {
    if |s| == 0 || s[|s| - 1] != Sep then s
    else RStripSeps(s[..|s| - 1])
  }

  /** `os.path.basename`: everything after the last separator. */
  function Basename(p: string): (b: string)
    ensures forall i | 0 <= i < |b| :: b[i] != Sep
  {
    p[LastIndexOf(p, Sep) + 1..]
  }

  /** `os.path.dirname`: everything before the last separator, trailing separators removed unless it is all separators. */
  function Dirname(p: string): string {
    var head := p[..LastIndexOf(p, Sep) + 1];
    if head != "" && !AllSeps(head) then RStripSeps(head) else head
  }

  /** Is there a character other than '.' in `s[from..to]`? */
  predicate HasNonDot(s: string, from: int, to: int)
    requires 0 <= from <= to <= |s|
  {
    exists i | from <= i < to :: s[i] != '.'
  }

  /**
   * `os.path.splitext`: the extension starts at the last '.' after the last
   * separator, provided the file name has a character other than '.' before it.
   */
  function Splitext(p: string): (r: (string, string)) {
    var sepIndex := LastIndexOf(p, Sep);
    var dotIndex := LastIndexOf(p, '.');
    if dotIndex > sepIndex && HasNonDot(p, sepIndex + 1, dotIndex) then (p[..dotIndex], p[dotIndex..])
    else (p, "")
  }

  /** `os.path.join(a, b)`: an absolute `b` replaces `a`; a separator is added only where needed. */
  function Join(a: string, b: string): string {
    if |b| > 0 && b[0] == Sep then b
    else if a == "" || a[|a| - 1] == Sep then a + b
    else a + [Sep] + b
  }

  function Join3(a: string, b: string, c: string): string {
    Join(Join(a, b), c)
  }

  /** The two parts of `splitext` put back together give the path; the extension is empty or a dotted suffix of the file name. */
  lemma SplitextParts(p: string)
    ensures Splitext(p).0 + Splitext(p).1 == p
    ensures var ext := Splitext(p).1;
      ext == "" || (ext[0] == '.' && forall i | 0 <= i < |ext| :: ext[i] != Sep)
  {
    var sepIndex := LastIndexOf(p, Sep);
    var dotIndex := LastIndexOf(p, '.');
    if dotIndex > sepIndex && HasNonDot(p, sepIndex + 1, dotIndex) {
      assert p[..dotIndex] + p[dotIndex..] == p;
      forall i | 0 <= i < |p[dotIndex..]|
        ensures p[dotIndex..][i] != Sep
      {
        assert p[dotIndex..][i] == p[dotIndex + i];
        if i > 0 {
          assert dotIndex + i > sepIndex;
        }
      }
    }
  }

  /**
   * Joining a directory that does not end in a separator with a plain file
   * name splits back into the two: `dirname` and `basename` invert `join`.
   */
  lemma JoinSplits(dir: string, name: string)
    requires dir != "" && dir[|dir| - 1] != Sep
    requires name != "" && forall i | 0 <= i < |name| :: name[i] != Sep
    ensures Dirname(Join(dir, name)) == dir
    ensures Basename(Join(dir, name)) == name
  {
    var p := Join(dir, name);
    assert p == dir + [Sep] + name;
    assert p[|dir|] == Sep;
    assert forall j | |dir| < j < |p| :: p[j] == name[j - |dir| - 1];
    var head := p[..|dir| + 1];
    assert head == dir + [Sep];
    assert !AllSeps(head) by {
      assert head[|dir| - 1] == dir[|dir| - 1];
    }
    assert RStripSeps(head) == RStripSeps(dir);
    assert p[|dir| + 1..] == name;
  }
}
