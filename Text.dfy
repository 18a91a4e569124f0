/**
 * The Python `str` methods the pipeline relies on, over `seq<char>`:
 * `startswith`, `in`, `find`, `replace`, `strip`, `split(sep, 1)` and
 * `split(sep)`.
 */
module Text {
  import opened Wrappers

  /** `s.startswith(prefix)`. */
  predicate StartsWith(s: string, prefix: string) {
    |prefix| <= |s| && s[..|prefix|] == prefix
  }

  /** `pat` occurs in `s` at index `i`. */
  predicate OccursAt(s: string, pat: string, i: int) {
    0 <= i && i + |pat| <= |s| && s[i..i + |pat|] == pat
  }

  /** `pat in s`. */
  predicate Contains(s: string, pat: string) {
    exists i | 0 <= i <= |s| - |pat| :: OccursAt(s, pat, i)
  }

  /** `s.endswith(suffix)`. */
  predicate EndsWith(s: string, suffix: string) {
    |suffix| <= |s| && s[|s| - |suffix|..] == suffix
  }

  /** A text that ends with `t + u` contains `t`. */
  lemma EndsWithContains(s: string, t: string, u: string)
    requires EndsWith(s, t + u)
    ensures Contains(s, t)
  {
    var i := |s| - |t + u|;
    assert s[i..i + |t|] == (t + u)[..|t|] == t;
    assert OccursAt(s, t, i);
  }

  /** `s.find(c)` for one character: the first index holding `c`, or -1. */
  function FirstIndexOf(s: string, c: char): (i: int)
    ensures -1 <= i < |s|
    ensures i >= 0 ==> s[i] == c
    ensures forall j | 0 <= j < (if i < 0 then |s| else i) :: s[j] != c
  {
    if |s| == 0 then -1
    else if s[0] == c then 0
    else var k := FirstIndexOf(s[1..], c); if k < 0 then -1 else k + 1
  }

  /** `s.rfind(pat)`: the last index where `pat` occurs, or -1. */
  function LastOccurrence(s: string, pat: string): (i: int)
    ensures -1 <= i <= |s|
    ensures i >= 0 ==> OccursAt(s, pat, i)
    ensures forall j | i < j <= |s| :: !OccursAt(s, pat, j)
    decreases |s|
  {
    if |s| < |pat| then -1
    else if OccursAt(s, pat, |s| - |pat|) then |s| - |pat|
    else
      var k := LastOccurrence(s[..|s| - 1], pat);
      assert forall j | k < j <= |s| - 1 && OccursAt(s, pat, j) :: OccursAt(s[..|s| - 1], pat, j);
      k
  }

  /** `s.replace(pat, rep)`: every occurrence, scanned left to right without overlap. */
  function ReplaceAll(s: string, pat: string, rep: string): string
    requires pat != []
    decreases |s|
  {
    if |s| < |pat| then s
    else if s[..|pat|] == pat then rep + ReplaceAll(s[|pat|..], pat, rep)
    else [s[0]] + ReplaceAll(s[1..], pat, rep)
  }

  /** A pattern whose first character does not recur in it cannot overlap itself. */
  predicate FirstCharUnique(pat: string) {
    pat != [] && forall k | 1 <= k < |pat| :: pat[k] != pat[0]
  }

  /** Text without the pattern's first character is left as it is. */
  lemma {:induction false} ReplaceAllUntouched(s: string, pat: string, rep: string)
    requires pat != []
    requires forall i | 0 <= i < |s| :: s[i] != pat[0]
    ensures ReplaceAll(s, pat, rep) == s
    decreases |s|
  {
    if |s| >= |pat| {
      assert s[..|pat|][0] != pat[0];
      ReplaceAllUntouched(s[1..], pat, rep);
    }
  }

  /**
   * With a self-overlap-free pattern, an occurrence standing between `a` and
   * `b` is replaced on its own: the scan over `a` never runs into it.
   */
  lemma {:induction false} ReplaceAllSplits(a: string, pat: string, b: string, rep: string)
    requires FirstCharUnique(pat)
    ensures ReplaceAll(a + pat + b, pat, rep) == ReplaceAll(a, pat, rep) + rep + ReplaceAll(b, pat, rep)
    decreases |a|
  {
    var s := a + pat + b;
    if a == [] {
      assert s[..|pat|] == pat && s[|pat|..] == b;
    } else if s[..|pat|] == pat {
      if |a| < |pat| {
        NoMatchAcrossLeft(a, pat, b);
        assert false;
      }
      assert a[..|pat|] == pat;
      assert s[|pat|..] == a[|pat|..] + pat + b;
      ReplaceAllSplits(a[|pat|..], pat, b, rep);
    } else {
      assert s[1..] == a[1..] + pat + b;
      ReplaceAllSplits(a[1..], pat, b, rep);
      if |a| >= |pat| {
        assert a[..|pat|] == s[..|pat|];
      } else {
        ReplaceAllShort(a, pat, rep);
        ReplaceAllShort(a[1..], pat, rep);
      }
    }
  }

  /** Text in which the pattern does not occur is left as it is. */
  lemma {:induction false} ReplaceAllAbsent(s: string, pat: string, rep: string)
    requires pat != [] && !Contains(s, pat)
    ensures ReplaceAll(s, pat, rep) == s
    decreases |s|
  {
    if |s| >= |pat| {
      assert !OccursAt(s, pat, 0);
      assert s[..|pat|] != pat;
      forall i | 0 <= i <= |s[1..]| - |pat| && OccursAt(s[1..], pat, i)
        ensures false
      {
        assert s[1..][i..i + |pat|] == s[i + 1..i + 1 + |pat|];
        assert OccursAt(s, pat, i + 1);
      }
      ReplaceAllAbsent(s[1..], pat, rep);
    }
  }

  /** A short non-empty `a` puts the pattern's first character where the pattern has another. */
  lemma NoMatchAcrossLeft(a: string, pat: string, b: string)
    requires FirstCharUnique(pat) && a != [] && |a| < |pat|
    ensures (a + pat + b)[..|pat|] != pat
  {
    assert (a + pat + b)[..|pat|][|a|] == pat[0];
  }

  lemma ReplaceAllShort(s: string, pat: string, rep: string)
    requires pat != [] && |s| < |pat|
    ensures ReplaceAll(s, pat, rep) == s
  {
  }

  /** Python's `str.isspace` on the ASCII range. */
  predicate IsSpace(c: char) {
    c == ' ' || 9 <= c as int <= 13 || 28 <= c as int <= 31
  }

  /** `s.lstrip()`. */
  function LStrip(s: string): (r: string)
    ensures |r| <= |s| && r == s[|s| - |r|..]
    ensures r == [] || !IsSpace(r[0])
    ensures forall i | 0 <= i < |s| - |r| :: IsSpace(s[i])
  {
    if s != [] && IsSpace(s[0]) then LStrip(s[1..]) else s
  }

  /** `s.rstrip()`. */
  function RStrip(s: string): (r: string)
    ensures |r| <= |s| && r == s[..|r|]
    ensures r == [] || !IsSpace(r[|r| - 1])
    ensures forall i | |r| <= i < |s| :: IsSpace(s[i])
  {
    if s != [] && IsSpace(s[|s| - 1]) then RStrip(s[..|s| - 1]) else s
  }

  /** `s.strip()`: the middle of `s` between its leading and trailing white space. */
  function Strip(s: string): (r: string)
    ensures r == [] || (!IsSpace(r[0]) && !IsSpace(r[|r| - 1]))
    ensures exists i | 0 <= i <= |s| - |r| :: OccursAt(s, r, i)
  {
    var t := RStrip(s);
    var r := LStrip(t);
    assert OccursAt(s, r, |t| - |r|);
    r
  }

  /** A character absent from `s` is absent from `s.strip()`. */
  lemma StripKeepsAbsent(s: string, c: char)
    requires forall i | 0 <= i < |s| :: s[i] != c
    ensures forall i | 0 <= i < |Strip(s)| :: Strip(s)[i] != c
  {
    var t := RStrip(s);
    var r := LStrip(t);
    forall i | 0 <= i < |r|
      ensures r[i] != c
    {
      assert r[i] == t[|t| - |r| + i] == s[|t| - |r| + i];
    }
  }

  /** `s.split(sep, 1)` as (head, tail): the tail is `None` when `sep` does not occur. */
  function SplitOnce(s: string, sep: char): (r: (string, Option<string>))
    ensures r.1.None? ==> r.0 == s && forall i | 0 <= i < |s| :: s[i] != sep
    ensures r.1.Some? ==> s == r.0 + [sep] + r.1.value && forall i | 0 <= i < |r.0| :: r.0[i] != sep
  {
    var i := FirstIndexOf(s, sep);
    if i < 0 then (s, None)
    else
      assert s == s[..i] + [sep] + s[i + 1..];
      (s[..i], Some(s[i + 1..]))
  }

  /** `s.split(sep)`: the pieces between separators, in order; always at least one. */
  function Split(s: string, sep: char): (parts: seq<string>)
    ensures |parts| >= 1
    ensures forall k | 0 <= k < |parts| :: forall i | 0 <= i < |parts[k]| :: parts[k][i] != sep
    decreases |s|
  {
    var (head, tail) := SplitOnce(s, sep);
    match tail
    case None => [head]
    case Some(rest) => [head] + Split(rest, sep)
  }

  /** Joining the pieces of `split` back with the separator gives the text. */
  function JoinWith(parts: seq<string>, sep: char): string
    requires |parts| >= 1
  {
    if |parts| == 1 then parts[0] else parts[0] + [sep] + JoinWith(parts[1..], sep)
  }

  lemma {:induction false} SplitJoins(s: string, sep: char)
    ensures JoinWith(Split(s, sep), sep) == s
    decreases |s|
  {
    var (head, tail) := SplitOnce(s, sep);
    if tail.Some? {
      SplitJoins(tail.value, sep);
      assert Split(s, sep)[1..] == Split(tail.value, sep);
    }
  }

  /** `b in a + b + c`. */
  lemma ContainsMiddle(a: string, b: string, c: string)
    ensures Contains(a + b + c, b)
  {
    assert (a + b + c)[|a|..|a| + |b|] == b;
    assert OccursAt(a + b + c, b, |a|);
  }

  /** `in` is transitive. */
  lemma ContainsTransitive(a: string, b: string, c: string)
    requires Contains(a, b) && Contains(b, c)
    ensures Contains(a, c)
  {
    var i :| 0 <= i <= |a| - |b| && OccursAt(a, b, i);
    var j :| 0 <= j <= |b| - |c| && OccursAt(b, c, j);
    assert a[i..i + |b|] == b;
    forall k | 0 <= k < |c|
      ensures a[i + j + k] == c[k]
    {
      assert a[i..i + |b|][j + k] == b[j + k];
      assert b[j..j + |c|][k] == c[k];
    }
    assert a[i + j..i + j + |c|] == c;
    assert OccursAt(a, c, i + j);
  }

  /** Both parts of a concatenation are in it. */
  lemma ContainsParts(a: string, b: string)
    ensures Contains(a + b, a) && Contains(a + b, b)
  {
    assert (a + b)[..|a|] == a;
    assert OccursAt(a + b, a, 0);
    assert (a + b)[|a|..] == b;
    assert OccursAt(a + b, b, |a|);
  }

  /** The middle part of `a + b + c` stands at `|a|`, followed by the first character of `c`. */
  lemma MiddleAt(a: string, b: string, c: string)
    ensures (a + b + c)[|a|..|a| + |b|] == b
    ensures c != [] ==> (a + b + c)[|a| + |b|] == c[0]
  {
  }

  /** Concatenation regrouped, for proofs that the solver would otherwise search for. */
  lemma Regroup(a: string, b: string, c: string, d: string)
    ensures a + b + c + d == a + (b + c + d)
  {
  }
}
