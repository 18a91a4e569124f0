/**
 * The state of `ProgressPanel` in gui/components/progress_panel.py that is
 * not drawing: whether the progress bar is shown, and the value it shows, as
 * set from the `current/total` counter of a pixelation log message.
 */
module ProgressPanel {
  import opened Wrappers
  import opened Decimal
  import opened Text
  import Containers

  /** The bar's value `current / total * 100`, kept as the exact fraction. */
  datatype Progress = Progress(current: nat, total: nat)

  // ---------------------------------------------------------------------
  // The pattern `(\d+)/(\d+)`

  /** The two numbers of a match at index `i`, if the pattern matches there. */
  function FractionAt(s: string, i: nat): Option<(nat, nat)>
    requires i <= |s|
  {
    var e := DigitRunEnd(s, i);
    if e == i || e == |s| || s[e] != '/' then None
    else
      var f := DigitRunEnd(s, e + 1);
      if f == e + 1 then None
      else
        assert AllDigits(s[i..e]) && AllDigits(s[e + 1..f]);
        Some((DigitsValue(s[i..e]), DigitsValue(s[e + 1..f])))
  }

  /** `re.search`: the match that starts leftmost at or after `from`. */
  function FirstFraction(s: string, from: nat): (r: Option<(nat, nat)>)
    requires from <= |s|
    ensures r.None? ==> forall j | from <= j <= |s| :: FractionAt(s, j).None?
    decreases |s| - from
  {
    match FractionAt(s, from)
    case Some(f) => Some(f)
    case None => if from == |s| then None else FirstFraction(s, from + 1)
  }

  /** A match found at `i`, with none before it from `from` on, is the one returned. */
  lemma {:induction false} FirstFractionAt(s: string, from: nat, i: nat)
    requires from <= i <= |s| && FractionAt(s, i).Some?
    requires forall j | from <= j < i :: FractionAt(s, j).None?
    ensures FirstFraction(s, from) == FractionAt(s, i)
    decreases i - from
  {
    if from < i {
      assert FractionAt(s, from).None?;
      FirstFractionAt(s, from + 1, i);
    }
  }

  // ---------------------------------------------------------------------
  // update_progress_from_message

  /** Every texture up to 20 in all, else every twentieth of the total, and always the last one. */
  predicate Throttled(current: nat, total: nat)
    requires total != 0
  {
    total <= 20 || current % (if total / 20 > 1 then total / 20 else 1) == 0 || current == total
  }

  /**
   * The value the message sets, if any: only a pixelation message with a
   * `/` in it is read; a total of 0 fails the division and is ignored, as is
   * a counter the throttle skips.
   */
  function ProgressUpdate(message: string): Option<Progress> {
    if !(Contains(message, "Pixelating texture") && Contains(message, "/")) then None
    else
      match FirstFraction(message, 0)
      case None => None
      case Some((current, total)) =>
        if total == 0 then None
        else if Throttled(current, total) then Some(Progress(current, total))
        else None
  }

  /**
   * Whatever the message, an update carries the leftmost `digits/digits` of
   * it, never has a zero total, and passes the throttle.
   */
  lemma ProgressUpdateSound(message: string)
    ensures ProgressUpdate(message).Some? ==>
              && Contains(message, "Pixelating texture") && Contains(message, "/")
              && FirstFraction(message, 0) == Some((ProgressUpdate(message).value.current, ProgressUpdate(message).value.total))
              && ProgressUpdate(message).value.total != 0
              && Throttled(ProgressUpdate(message).value.current, ProgressUpdate(message).value.total)
    ensures !Contains(message, "/") ==> ProgressUpdate(message).None?
  {
  }

  /**
   * Above 20 textures, an update comes at least once every twentieth of the
   * total: among any `total / 20` consecutive counters one passes.
   */
  lemma ThrottleGap(current: nat, total: nat)
    requires total > 20
    ensures exists k | current <= k < current + total / 20 :: Throttled(k, total)
  {
    var k := NextMultiple(current, total / 20);
    assert Throttled(k, total);
  }

  /** A multiple of `step` lies among any `step` consecutive numbers. */
  lemma NextMultiple(current: nat, step: nat) returns (k: nat)
    requires step > 0
    ensures current <= k < current + step && k % step == 0
  {
    var q := current / step;
    var r := current % step;
    assert current == q * step + r;
    if r == 0 {
      k := current;
    } else {
      k := (q + 1) * step;
      assert k == q * step + step;
      MultipleMod(q + 1, step);
    }
  }

  lemma MultipleMod(q: nat, step: nat)
    requires step > 0
    ensures (q * step) % step == 0
  {
    var z := q * step;
    var d := q - z / step;
    assert z == (z / step) * step + z % step;
    assert z % step == d * step;
    if d != 0 {
      NonzeroMultiple(d, step);
    }
  }

  lemma NonzeroMultiple(d: int, step: nat)
    requires step > 0 && d != 0
    ensures d * step >= step || d * step + step <= 0
  {
    if d > 0 {
      assert (d - 1) * step >= 0;
      assert d * step == (d - 1) * step + step;
    } else {
      assert (-d - 1) * step >= 0;
      assert d * step == -((-d - 1) * step) - step;
    }
  }

  /** Up to 20 textures, and for the last texture, every counter updates the bar. */
  lemma ThrottleKeepsSmallAndLast(current: nat, total: nat)
    requires total != 0
    ensures total <= 20 ==> Throttled(current, total)
    ensures Throttled(total, total)
  {
  }

  // ---------------------------------------------------------------------
  // The messages the asset processor logs

  /** No digit occurs in the text of a numbered progress message before its counter. */
  lemma LeadHasNoDigits()
    ensures forall j | 0 <= j < |Containers.Tag + "Pixelating texture "| :: !IsDigit((Containers.Tag + "Pixelating texture ")[j])
  {
    var lead := Containers.Tag + "Pixelating texture ";
    assert forall j | 0 <= j < |Containers.Tag| :: !IsDigit(Containers.Tag[j]);
    assert forall j | 0 <= j < |"Pixelating texture "| :: !IsDigit("Pixelating texture "[j]);
    forall j | 0 <= j < |lead| ensures !IsDigit(lead[j]) {
      if j >= |Containers.Tag| {
        assert lead[j] == "Pixelating texture "[j - |Containers.Tag|];
      }
    }
  }

  /**
   * The counter message of the asset processor, `Pixelating texture i/total:
   * name`, is read back as exactly `i` of `total`, whatever the texture's
   * name: the bar shows it unless the total is 0 or the throttle skips it.
   */
  lemma PanelReadsCounter(i: nat, total: nat, name: string)
    ensures var message := Containers.Tag + "Pixelating texture " + NatToString(i) + "/" + NatToString(total) + ": " + name;
      ProgressUpdate(message) == if total != 0 && Throttled(i, total) then Some(Progress(i, total)) else None
  {
    var lead := Containers.Tag + "Pixelating texture ";
    var A, B, tail := NatToString(i), NatToString(total), ": " + name;
    var message := Containers.Tag + "Pixelating texture " + A + "/" + B + ": " + name;
    assert message == lead + A + "/" + B + tail;
    assert message == lead + (A + "/" + B + tail);
    CounterMessageGuards(A, B, tail);
    LeadHasNoDigits();
    NoFractionInLead(lead, A + "/" + B + tail);
    CounterRead(lead, A, B, tail);
    NatToStringValue(i);
    NatToStringValue(total);
    FirstFractionAt(message, 0, |lead|);
    UpdateOfFirst(message, i, total);
  }

  /** A pixelation message whose first fraction is `i/total` sets the bar to it, unless the throttle skips it. */
  lemma UpdateOfFirst(message: string, i: nat, total: nat)
    requires Contains(message, "Pixelating texture") && Contains(message, "/")
    requires FirstFraction(message, 0) == Some((i, total))
    ensures ProgressUpdate(message) == if total != 0 && Throttled(i, total) then Some(Progress(i, total)) else None
  {
  }

  /** A counter message holds both substrings the panel looks for. */
  lemma CounterMessageGuards(a: string, b: string, tail: string)
    ensures var message := Containers.Tag + "Pixelating texture " + a + "/" + b + tail;
      Contains(message, "Pixelating texture") && Contains(message, "/")
  {
    var message := Containers.Tag + "Pixelating texture " + a + "/" + b + tail;
    ContainsMiddle(Containers.Tag, "Pixelating texture", " " + a + "/" + b + tail);
    assert Containers.Tag + "Pixelating texture" + (" " + a + "/" + b + tail) == message;
    ContainsMiddle(Containers.Tag + "Pixelating texture " + a, "/", b + tail);
    assert Containers.Tag + "Pixelating texture " + a + "/" + (b + tail) == message;
  }

  /** `a/b` standing after `lead` and followed by a non-digit reads as the values of `a` and `b`. */
  lemma CounterRead(lead: string, a: string, b: string, tail: string)
    requires |a| > 0 && AllDigits(a) && |b| > 0 && AllDigits(b)
    requires |tail| > 0 && !IsDigit(tail[0])
    ensures FractionAt(lead + a + "/" + b + tail, |lead|) == Some((DigitsValue(a), DigitsValue(b)))
  {
    var message := lead + a + "/" + b + tail;
    var e := |lead| + |a|;
    CounterNumbers(lead, a, b, tail);
    FractionOfRuns(message, |lead|, e, e + 1 + |b|);
    assert message[|lead|..e] == a;
    assert message[e + 1..e + 1 + |b|] == b;
  }

  /** Two digit runs around a '/' are read as the fraction of their values. */
  lemma FractionOfRuns(s: string, i: nat, e: nat, f: nat)
    requires i < e < |s| && e + 1 < f <= |s|
    requires DigitRunEnd(s, i) == e && s[e] == '/' && DigitRunEnd(s, e + 1) == f
    ensures AllDigits(s[i..e]) && AllDigits(s[e + 1..f])
    ensures FractionAt(s, i) == Some((DigitsValue(s[i..e]), DigitsValue(s[e + 1..f])))
  {
  }

  /** No fraction starts inside a text without digits. */
  lemma NoFractionInLead(lead: string, rest: string)
    requires forall j | 0 <= j < |lead| :: !IsDigit(lead[j])
    ensures forall j | 0 <= j < |lead| :: FractionAt(lead + rest, j).None?
  {
    var message := lead + rest;
    forall j | 0 <= j < |lead|
      ensures FractionAt(message, j).None?
    {
      assert message[j] == lead[j];
      RunEndUnique(message, j, j);
    }
  }

  /** The two digit runs of `lead + a + "/" + b + tail` are `a` and `b`. */
  lemma CounterNumbers(lead: string, a: string, b: string, tail: string)
    requires |a| > 0 && AllDigits(a) && |b| > 0 && AllDigits(b)
    requires |tail| > 0 && !IsDigit(tail[0])
    ensures var message := lead + a + "/" + b + tail;
      var e := |lead| + |a|;
      && DigitRunEnd(message, |lead|) == e && message[e] == '/'
      && DigitRunEnd(message, e + 1) == e + 1 + |b|
      && message[|lead|..e] == a && message[e + 1..e + 1 + |b|] == b
  {
    var message := lead + a + "/" + b + tail;
    var e := |lead| + |a|;
    Regroup(lead + a, "/", b, tail);
    DigitRunOf(lead, a, "/" + b + tail);
    DigitRunOf(lead + a + "/", b, tail);
  }

  /** A run of digits between two non-digits is read whole. */
  lemma DigitRunOf(pre: string, x: string, post: string)
    requires AllDigits(x)
    requires |post| > 0 && !IsDigit(post[0])
    ensures DigitRunEnd(pre + x + post, |pre|) == |pre| + |x|
    ensures (pre + x + post)[|pre|..|pre| + |x|] == x
  {
    var s := pre + x + post;
    forall k | |pre| <= k < |pre| + |x| ensures IsDigit(s[k]) {
      assert s[k] == x[k - |pre|];
    }
    assert s[|pre| + |x|] == post[0];
    RunEndUnique(s, |pre|, |pre| + |x|);
  }

  // ---------------------------------------------------------------------
  // The panel

  class ProgressPanel {
    var progressBarVisible: bool
    var progress: Progress

    /** The bar starts hidden, at 0. */
    constructor()
      ensures !progressBarVisible && progress == Progress(0, 1)
    {
      progressBarVisible := false;
      progress := Progress(0, 1);
    }

    /** Shown after the call whether or not it was shown before. */
    method ShowProgressBar()
      modifies this
      ensures progressBarVisible && progress == old(progress)
    {
      if !progressBarVisible {
        progressBarVisible := true;
      }
    }

    /** Hidden after the call whether or not it was shown before. */
    method HideProgressBar()
      modifies this
      ensures !progressBarVisible && progress == old(progress)
    {
      if progressBarVisible {
        progressBarVisible := false;
      }
    }

    method SetProgress(value: Progress)
      modifies this
      ensures progress == value && progressBarVisible == old(progressBarVisible)
    {
      progress := value;
    }

    /** The bar takes the message's value when it has one and keeps its own otherwise. */
    method UpdateProgressFromMessage(message: string)
      modifies this
      ensures progress == (if ProgressUpdate(message).Some? then ProgressUpdate(message).value else old(progress))
      ensures progressBarVisible == old(progressBarVisible)
    {
      if Contains(message, "Pixelating texture") && Contains(message, "/") {
        var found := FirstFraction(message, 0);
        if found.Some? {
          var (current, total) := found.value;
          if total != 0 && Throttled(current, total) {
            SetProgress(Progress(current, total));
          }
        }
      }
    }
  }
}
