/**
 * The copy button attached to a code snippet: on a click it trims the
 * snippet's text, does nothing if that is empty, and otherwise disables
 * itself, tries the clipboard API, falls back to a hidden textarea and the
 * legacy copy command, shows "Copied" or "Failed", and schedules a timer
 * that restores its original content and enables it again.
 */
module CopyButton {
  import opened Optional

  /**
   * The characters String.prototype.trim removes: the ECMAScript WhiteSpace
   * set (tab, vertical tab, form feed, zero width no-break space and the
   * Unicode space separators) and the LineTerminator set.
   */
  predicate IsSpace(c: char) {
    c == '\t' || c == '\n' || c == '\U{000B}' || c == '\U{000C}' || c == '\r'
    || c == ' ' || c == '\U{00A0}' || c == '\U{1680}'
    || ('\U{2000}' <= c <= '\U{200A}')
    || c == '\U{2028}' || c == '\U{2029}' || c == '\U{202F}' || c == '\U{205F}'
    || c == '\U{3000}' || c == '\U{FEFF}'
  }

  predicate AllSpace(s: string) {
    forall j :: 0 <= j < |s| ==> IsSpace(s[j])
  }

  /** The length of the run of whitespace that starts s. */
  function LeadingSpaces(s: string): (k: nat)
    ensures k <= |s|
    ensures forall j :: 0 <= j < k ==> IsSpace(s[j])
    ensures k < |s| ==> !IsSpace(s[k])
    decreases |s|
  {
    if s == [] || !IsSpace(s[0]) then 0 else 1 + LeadingSpaces(s[1..])
  }

  /** The length of the run of whitespace that ends s. */
  function TrailingSpaces(s: string): (k: nat)
    ensures k <= |s|
    ensures forall j :: |s| - k <= j < |s| ==> IsSpace(s[j])
    ensures k < |s| ==> !IsSpace(s[|s| - 1 - k])
    decreases |s|
  {
    if s == [] || !IsSpace(s[|s| - 1]) then 0 else 1 + TrailingSpaces(s[..|s| - 1])
  }

  /**
   * String.prototype.trim: s without its leading and trailing whitespace.
   * It is empty exactly when s is all whitespace, and otherwise neither
   * starts nor ends with whitespace.
   */
  function Trim(s: string): (r: string)
    ensures |r| <= |s|
    ensures r == [] <==> AllSpace(s)
    ensures r != [] ==> !IsSpace(r[0]) && !IsSpace(r[|r| - 1])
  {
    var i := LeadingSpaces(s);
    if i == |s| then []
    else
      var n := |s| - TrailingSpaces(s);
      assert i < n;
      s[i..n]
  }

  /**
   * What trim removes is whitespace: the result sits in s at some offset i,
   * with only whitespace before it and after it.
   */
  lemma TrimIsInfix(s: string) returns (i: nat)
    ensures i + |Trim(s)| <= |s|
    ensures forall j :: 0 <= j < |Trim(s)| ==> Trim(s)[j] == s[i + j]
    ensures forall j :: 0 <= j < i ==> IsSpace(s[j])
    ensures forall j :: i + |Trim(s)| <= j < |s| ==> IsSpace(s[j])
  {
    i := if Trim(s) == [] then 0 else LeadingSpaces(s);
  }

  /** Leading whitespace followed by a non-whitespace character ends exactly there. */
  lemma {:induction false} LeadingSpacesOfPadded(a: string, t: string)
    requires AllSpace(a) && t != [] && !IsSpace(t[0])
    ensures LeadingSpaces(a + t) == |a|
    decreases |a|
  {
    if a == [] {
      assert a + t == t;
    } else {
      assert (a + t)[1..] == a[1..] + t;
      LeadingSpacesOfPadded(a[1..], t);
    }
  }

  /** Trailing whitespace after a non-whitespace character starts exactly there. */
  lemma {:induction false} TrailingSpacesOfPadded(t: string, b: string)
    requires AllSpace(b) && t != [] && !IsSpace(t[|t| - 1])
    ensures TrailingSpaces(t + b) == |b|
    decreases |b|
  {
    if b == [] {
      assert t + b == t;
    } else {
      assert (t + b)[..|t + b| - 1] == t + b[..|b| - 1];
      TrailingSpacesOfPadded(t, b[..|b| - 1]);
    }
  }

  /**
   * Trim characterised: whatever whitespace surrounds a text that neither
   * starts nor ends with whitespace, trimming gives back exactly that text.
   */
  lemma TrimOfPadded(a: string, m: string, b: string)
    requires AllSpace(a) && AllSpace(b)
    requires m != [] ==> !IsSpace(m[0]) && !IsSpace(m[|m| - 1])
    ensures Trim(a + m + b) == m
  {
    var s := a + m + b;
    if m == [] {
      assert AllSpace(s) by {
        forall j | 0 <= j < |s| ensures IsSpace(s[j]) {
          if j < |a| { assert s[j] == a[j]; } else { assert s[j] == b[j - |a|]; }
        }
      }
    } else {
      assert s == a + (m + b);
      LeadingSpacesOfPadded(a, m + b);
      TrailingSpacesOfPadded(a + m, b);
      assert s[|a|..|a| + |m|] == m;
    }
  }

  /** Trimming twice is trimming once. */
  lemma TrimIdempotent(s: string)
    ensures Trim(Trim(s)) == Trim(s)
  {
    var r := Trim(s);
    assert [] + r + [] == r;
    TrimOfPadded([], r, []);
  }

  /** The worked example: surrounding blanks are dropped from the payload. */
  lemma TrimExample()
    ensures Trim("  hello  ") == "hello"
  {
    assert "  hello  " == "  " + "hello" + "  ";
    TrimOfPadded("  ", "hello", "  ");
  }

  /** The button's inner content: the copy icon or a text label. */
  datatype Face = Icon | Label(text: string)

  /** What one click did. */
  datatype ClickOutcome =
    | Inert                                        // the button was disabled
    | NothingToCopy                                // the trimmed text was empty
    | Copied(payload: string, viaFallback: bool)   // a copy mechanism succeeded
    | CopyFailed(payload: string)                  // both mechanisms threw

  class Button {
    var disabled: bool
    var face: Face
    /** The pending restore timer, holding the content it will put back. */
    var scheduled: Option<Face>

    /**
     * A button is disabled exactly while its restore is pending; then it
     * shows a result label, and otherwise its icon.
     */
    ghost predicate Valid()
      reads this
    {
      && (disabled <==> scheduled.Some?)
      && (scheduled.Some? ==> scheduled.value == Icon)
      && (!disabled ==> face == Icon)
      && (disabled ==> face == Label("Copied") || face == Label("Failed"))
    }

    /** makeCopyButton: an enabled button showing the copy icon. */
    constructor ()
      ensures Valid() && !disabled && face == Icon && scheduled.None?
    {
      disabled := false;
      face := Icon;
      scheduled := None;
    }

    /**
     * One click with the snippet's current text. A disabled button receives
     * no click. `primaryThrows` says whether the clipboard API write rejects
     * and `fallbackThrows` whether the textarea fallback throws.
     */
    method Click(sourceText: string, primaryThrows: bool, fallbackThrows: bool) returns (outcome: ClickOutcome)
      requires Valid()
      modifies this
      ensures Valid()
      ensures old(disabled) ==>
                outcome == Inert && disabled && face == old(face) && scheduled == old(scheduled)
      ensures !old(disabled) && Trim(sourceText) == [] ==>
                outcome == NothingToCopy && !disabled && face == old(face) && scheduled.None?
      ensures !old(disabled) && Trim(sourceText) != [] ==>
                && disabled
                && scheduled == Some(old(face))
                && face == Label(if primaryThrows && fallbackThrows then "Failed" else "Copied")
                && outcome == (if !primaryThrows then Copied(Trim(sourceText), false)
                               else if !fallbackThrows then Copied(Trim(sourceText), true)
                               else CopyFailed(Trim(sourceText)))
    {
      if disabled {
        return Inert;
      }
      var text := Trim(sourceText);
      if text == [] {
        return NothingToCopy;
      }
      disabled := true;
      var originalHtml := face;
      if !primaryThrows {
        face := Label("Copied");
        outcome := Copied(text, false);
      } else if !fallbackThrows {
        face := Label("Copied");
        outcome := Copied(text, true);
      } else {
        face := Label("Failed");
        outcome := CopyFailed(text);
      }
      // finally: schedule the restore
      scheduled := Some(originalHtml);
    }

    /**
     * The restore timer fires: the saved content comes back and the button
     * is enabled again. With no timer pending nothing happens.
     */
    method TimerFire() returns (fired: bool)
      requires Valid()
      modifies this
      ensures Valid()
      ensures fired == old(scheduled).Some?
      ensures fired ==> face == old(scheduled).value && !disabled && scheduled.None?
      ensures !fired ==> disabled == old(disabled) && face == old(face) && scheduled == old(scheduled)
    {
      fired := scheduled.Some?;
      if fired {
        face := scheduled.value;
        disabled := false;
        scheduled := None;
      }
    }
  }

  /**
   * A click on an enabled button, then its timer: on every path the button
   * ends enabled, showing exactly what it showed before, and a second timer
   * event finds nothing to restore.
   */
  method ClickThenTimer(b: Button, sourceText: string, primaryThrows: bool, fallbackThrows: bool)
    returns (outcome: ClickOutcome, firstFired: bool, secondFired: bool)
    requires b.Valid() && !b.disabled
    modifies b
    ensures b.Valid() && !b.disabled && b.face == old(b.face) && b.scheduled.None?
    ensures firstFired <==> Trim(sourceText) != []
    ensures !secondFired
  {
    outcome := b.Click(sourceText, primaryThrows, fallbackThrows);
    firstFired := b.TimerFire();
    secondFired := b.TimerFire();
  }
}
