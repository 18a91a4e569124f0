/**
 * Decimal text for natural numbers: Python's `str(n)`, the `{n:03}` format
 * used in backup file names, and `int(s)` on a run of ASCII digits.
 */
module Decimal {

  predicate IsDigit(c: char) {
    '0' <= c <= '9'
  }

  predicate AllDigits(s: string) {
    forall i :: 0 <= i < |s| ==> IsDigit(s[i])
  }

  function DigitChar(d: nat): (c: char)
    requires d < 10
    ensures IsDigit(c) && c as int - '0' as int == d
  {
    ('0' as int + d) as char
  }

  /** `str(n)`: the shortest decimal spelling of `n`, without sign or leading zeros. */
  function NatToString(n: nat): (s: string)
    ensures |s| >= 1 && AllDigits(s)
    ensures n >= 10 ==> s[0] != '0'
    decreases n
  {
    if n < 10 then [DigitChar(n)] else NatToString(n / 10) + [DigitChar(n % 10)]
  }

  /** `int(s)` for a string of ASCII digits (the empty string reads as 0). */
  function DigitsValue(s: string): nat
    requires AllDigits(s)
  {
    if s == [] then 0
    else DigitsValue(s[..|s| - 1]) * 10 + (s[|s| - 1] as int - '0' as int)
  }

  lemma {:induction false} NatToStringValue(n: nat)
    ensures DigitsValue(NatToString(n)) == n
    decreases n
  {
    if n >= 10 {
      var s := NatToString(n);
      assert s[..|s| - 1] == NatToString(n / 10);
      NatToStringValue(n / 10);
    }
  }

  function Zeros(k: nat): (s: string)
    ensures |s| == k && AllDigits(s)
  {
    if k == 0 then [] else Zeros(k - 1) + ['0']
  }

  lemma {:induction false} LeadingZerosValue(k: nat, s: string)
    requires AllDigits(s)
    ensures AllDigits(Zeros(k) + s) && DigitsValue(Zeros(k) + s) == DigitsValue(s)
    decreases |s|, k
  {
    if s == [] {
      if k > 0 {
        assert (Zeros(k) + s)[..k - 1] == Zeros(k - 1) + s;
        LeadingZerosValue(k - 1, s);
      }
    } else {
      var t := Zeros(k) + s;
      assert t[..|t| - 1] == Zeros(k) + s[..|s| - 1];
      LeadingZerosValue(k, s[..|s| - 1]);
    }
  }

  /** The `03` format of Python: at least three digits, padded on the left with zeros. */
  function Pad3(n: nat): (s: string)
    ensures |s| >= 3 && AllDigits(s)
  {
    var d := NatToString(n);
    if |d| >= 3 then d else Zeros(3 - |d|) + d
  }

  lemma Pad3Value(n: nat)
    ensures DigitsValue(Pad3(n)) == n
  {
    var d := NatToString(n);
    NatToStringValue(n);
    if |d| < 3 {
      LeadingZerosValue(3 - |d|, d);
    }
  }

  /** Distinct numbers get distinct three-digit suffixes. */
  lemma Pad3Injective(m: nat, n: nat)
    requires Pad3(m) == Pad3(n)
    ensures m == n
  {
    Pad3Value(m);
    Pad3Value(n);
  }

  /** Below 1000 the padded number has exactly three digits. */
  lemma Pad3Length(n: nat)
    requires n < 1000
    ensures |Pad3(n)| == 3
  {
    var d := NatToString(n);
    if n >= 10 {
      assert |d| == |NatToString(n / 10)| + 1;
      if n / 10 >= 10 {
        assert |NatToString(n / 10)| == |NatToString(n / 10 / 10)| + 1;
        assert n / 10 / 10 < 10;
      }
      assert |d| <= 3;
    }
  }

  /**
   * The end of the run of digits that starts at `i`. Where a regular
   * expression needs a `\d+` to be followed by a character that is not a
   * digit, the longest run is the only one a match can use.
   */
  function DigitRunEnd(s: string, i: nat): (e: nat)
    requires i <= |s|
    ensures i <= e <= |s|
    ensures forall k | i <= k < e :: IsDigit(s[k])
    ensures e == |s| || !IsDigit(s[e])
    decreases |s| - i
  {
    if i < |s| && IsDigit(s[i]) then DigitRunEnd(s, i + 1) else i
  }

  /** Any run of digits that stops at a non-digit is the run `DigitRunEnd` finds. */
  lemma RunEndUnique(s: string, i: nat, e: nat)
    requires i <= e <= |s|
    requires forall k | i <= k < e :: IsDigit(s[k])
    requires e == |s| || !IsDigit(s[e])
    ensures DigitRunEnd(s, i) == e
  {
  }
}
