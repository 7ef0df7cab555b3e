/**
 * The progress line of a checklist: how many step checkboxes are ticked,
 * out of how many, and the rounded percentage, rendered as
 * "<done> of <total> completed (<pct>%)".
 */
module Progress {
  import opened Decimal
  import opened Optional

  /** Number of ticked boxes, as `checkboxes.filter(cb => cb.checked).length`. */
  function Count(flags: seq<bool>): (done: nat)
    ensures done <= |flags|
    ensures done == 0 <==> forall i :: 0 <= i < |flags| ==> !flags[i]
    ensures done == |flags| <==> forall i :: 0 <= i < |flags| ==> flags[i]
    decreases |flags|
  {
    if flags == [] then 0
    else
      var init := flags[..|flags| - 1];
      assert forall i :: 0 <= i < |init| ==> init[i] == flags[i];
      Count(init) + (if flags[|flags| - 1] then 1 else 0)
  }

  /** Ticking or unticking one box moves the count by exactly that box's change. */
  lemma {:induction false} CountUpdate(flags: seq<bool>, i: nat, b: bool)
    requires i < |flags|
    ensures Count(flags[i := b]) + (if flags[i] then 1 else 0)
         == Count(flags) + (if b then 1 else 0)
    decreases |flags|
  {
    var n := |flags|;
    var upd := flags[i := b];
    assert upd != [] && |upd| == n;
    if i < n - 1 {
      assert upd[..n - 1] == flags[..n - 1][i := b];
      assert upd[n - 1] == flags[n - 1];
      CountUpdate(flags[..n - 1], i, b);
    } else {
      assert upd[..n - 1] == flags[..n - 1];
      assert upd[n - 1] == b;
    }
  }

  /** The counting loop of renderProgress, over the live checkbox array. */
  method CountChecked(boxes: array<bool>) returns (done: nat)
    ensures done == Count(boxes[..])
  {
    done := 0;
    var i := 0;
    while i < boxes.Length
      invariant 0 <= i <= boxes.Length
      invariant done == Count(boxes[..i])
    {
      assert boxes[..i + 1][..i] == boxes[..i];
      if boxes[i] {
        done := done + 1;
      }
      i := i + 1;
    }
    assert boxes[..boxes.Length] == boxes[..];
  }

  /**
   * The whole-number percentage of done out of total: 0 when there are no
   * steps, otherwise 100 * done / total rounded to the nearest integer with
   * halves rounded up (Math.round on a non-negative number).
   */
  function Percent(done: nat, total: nat): (pct: nat)
    requires done <= total
    ensures pct <= 100
    ensures total == 0 ==> pct == 0
    ensures total > 0 ==> 2 * total * pct <= 200 * done + total < 2 * total * (pct + 1)
  {
    if total == 0 then 0
    else
      var pct := (200 * done + total) / (2 * total);
      assert 200 * done + total < 2 * total * 101;
      pct
  }

  /** More ticked boxes never give a smaller percentage. */
  lemma PercentMonotonic(d1: nat, d2: nat, total: nat)
    requires d1 <= d2 <= total
    ensures Percent(d1, total) <= Percent(d2, total)
  {
    if total > 0 {
      var p1, p2 := Percent(d1, total), Percent(d2, total);
      assert 200 * d1 + total <= 200 * d2 + total;
    }
  }

  /** No ticked box gives 0%, and every box ticked gives 100%. */
  lemma PercentEnds(total: nat)
    ensures Percent(0, total) == 0
    ensures total > 0 ==> Percent(total, total) == 100
  {
    if total > 0 {
      var p := Percent(total, total);
      if p < 100 {
        ScaleMonotonic(2 * total, p + 1, 100);
        assert false;
      }
    }
  }

  lemma ScaleMonotonic(c: nat, a: nat, b: nat)
    requires a <= b
    ensures c * a <= c * b
  {
    assert c * b == c * a + c * (b - a);
  }

  const OfText: string := " of "
  const CompletedText: string := " completed ("
  const PercentCloseText: string := "%)"

  /** What a progress text says, when it has the rendered shape. */
  datatype StatusReading = Unreadable | Reading(done: nat, total: nat, pct: nat)

  predicate StartsWith(s: string, prefix: string) {
    |prefix| <= |s| && s[..|prefix|] == prefix
  }

  /** Reads a run of digits that is followed by sep; gives its value and what follows sep. */
  function ReadNumberThen(text: string, sep: string): Option<(nat, string)> {
    var (digits, rest) := SplitDigits(text);
    if digits == [] || !StartsWith(rest, sep) then None
    else Some((DigitsValue(digits), rest[|sep|..]))
  }

  /** The decimal text of n, then sep, reads back as n and what follows sep. */
  lemma ReadNumberThenOfText(n: nat, sep: string, rest: string)
    requires sep != [] && !IsDigit(sep[0])
    ensures ReadNumberThen(NatToString(n) + sep + rest, sep) == Some((n, rest))
  {
    var s := NatToString(n);
    assert s + sep + rest == s + (sep + rest);
    SplitDigitsOfConcat(s, sep + rest);
    assert (sep + rest)[..|sep|] == sep && (sep + rest)[|sep|..] == rest;
    DigitsValueOfNatToString(n);
  }

  /** Reads "<done> of <total> completed (<pct>%)" back into its three numbers. */
  function ParseStatus(text: string): StatusReading {
    match ReadNumberThen(text, OfText)
    case None => Unreadable
    case Some((done, afterDone)) =>
      match ReadNumberThen(afterDone, CompletedText)
      case None => Unreadable
      case Some((total, afterTotal)) =>
        match ReadNumberThen(afterTotal, PercentCloseText)
        case None => Unreadable
        case Some((pct, afterPct)) =>
          if afterPct == [] then Reading(done, total, pct) else Unreadable
  }

  /**
   * The text renderProgress puts into the progress element. Read back, it
   * gives exactly done, total and their percentage.
   */
  function StatusText(done: nat, total: nat): (text: string)
    requires done <= total
    ensures ParseStatus(text) == Reading(done, total, Percent(done, total))
  {
    var pct := Percent(done, total);
    var s1, s2, s3 := NatToString(done), NatToString(total), NatToString(pct);
    var tail2 := s3 + PercentCloseText;
    var tail1 := s2 + CompletedText + tail2;
    var text := s1 + OfText + s2 + CompletedText + s3 + PercentCloseText;
    assert text == s1 + OfText + tail1;
    ReadNumberThenOfText(done, OfText, tail1);
    ReadNumberThenOfText(total, CompletedText, tail2);
    assert tail2 == s3 + PercentCloseText + [];
    ReadNumberThenOfText(pct, PercentCloseText, []);
    text
  }

  /** Two renderings are equal only when they report the same counts. */
  lemma StatusTextInjective(d1: nat, t1: nat, d2: nat, t2: nat)
    requires d1 <= t1 && d2 <= t2
    ensures StatusText(d1, t1) == StatusText(d2, t2) ==> d1 == d2 && t1 == t2
  {
  }

  /** Worked percentages: 2 of 5 is 40%, and thirds and eighths round to nearest. */
  lemma PercentExamples()
    ensures Percent(0, 0) == 0 && Percent(2, 5) == 40 && Percent(5, 5) == 100
    ensures Percent(1, 3) == 33 && Percent(2, 3) == 67 && Percent(1, 8) == 13
  {
  }
}
