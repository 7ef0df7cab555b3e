/**
 * The enhancement pass that attaches copy buttons: one per <pre> block that
 * has a <code> child, and one per <code> element that is not inside a
 * <pre>. Each enhanced element is marked (data-copy-enhanced = "1"), so a
 * repeated pass attaches nothing new.
 */
module Enhance {

  datatype Kind = Pre | Code | Other

  /**
   * The page's elements in document order: kinds[i] is the tag of element
   * i and parents[i] the index of its parent element, or -1 at the top.
   * Document order puts every parent before its children.
   */
  predicate ParentsBefore(kinds: seq<Kind>, parents: seq<int>) {
    |parents| == |kinds| && forall i :: 0 <= i < |parents| ==> -1 <= parents[i] < i
  }

  /** `closest("pre") != null` for a <code>: some ancestor of element i is a <pre>. */
  predicate InPre(kinds: seq<Kind>, parents: seq<int>, i: nat)
    requires ParentsBefore(kinds, parents) && i < |kinds|
    decreases i
  {
    var p := parents[i];
    p >= 0 && (kinds[p] == Pre || InPre(kinds, parents, p))
  }

  /** Among the first upTo elements there is a <code> whose parent is element p. */
  predicate HasCodeChild(kinds: seq<Kind>, parents: seq<int>, p: nat, upTo: nat)
    requires ParentsBefore(kinds, parents) && upTo <= |kinds|
  {
    upTo > 0
    && ((parents[upTo - 1] == p && kinds[upTo - 1] == Code)
        || HasCodeChild(kinds, parents, p, upTo - 1))
  }

  /** A <pre> matched by "pre > code": it gets a block button. */
  predicate IsBlockTarget(kinds: seq<Kind>, parents: seq<int>, i: nat)
    requires ParentsBefore(kinds, parents) && i < |kinds|
  {
    kinds[i] == Pre && HasCodeChild(kinds, parents, i, |kinds|)
  }

  /** A standalone <code>: it gets an inline button. */
  predicate IsInlineTarget(kinds: seq<Kind>, parents: seq<int>, i: nat)
    requires ParentsBefore(kinds, parents) && i < |kinds|
  {
    kinds[i] == Code && !InPre(kinds, parents, i)
  }

  predicate IsTarget(kinds: seq<Kind>, parents: seq<int>, i: nat)
    requires ParentsBefore(kinds, parents) && i < |kinds|
  {
    IsBlockTarget(kinds, parents, i) || IsInlineTarget(kinds, parents, i)
  }

  class Page {
    const kinds: seq<Kind>
    const parents: seq<int>
    /** Whether element i carries data-copy-enhanced = "1". */
    const marked: array<bool>
    /** The elements that have received a copy button, in the order attached. */
    var buttons: seq<nat>

    /**
     * Every element with a button is marked, and no element has two
     * buttons.
     */
    ghost predicate Valid()
      reads this, marked
    {
      && ParentsBefore(kinds, parents) && marked.Length == |kinds|
      && (forall b :: b in buttons ==> b < marked.Length && marked[b])
      && (forall x, y :: 0 <= x < y < |buttons| ==> buttons[x] != buttons[y])
    }

    /** A page as loaded: marks come from the markup, and no button exists yet. */
    constructor (kinds: seq<Kind>, parents: seq<int>, marks: seq<bool>)
      requires ParentsBefore(kinds, parents) && |marks| == |kinds|
      ensures Valid() && fresh(marked)
      ensures this.kinds == kinds && this.parents == parents && marked[..] == marks
      ensures buttons == []
    {
      this.kinds := kinds;
      this.parents := parents;
      marked := new bool[|marks|](i requires 0 <= i < |marks| => marks[i]);
      buttons := [];
    }

    /**
     * initCopyButtons: block buttons first, then inline buttons. Exactly the
     * unmarked targets get a button; every target ends marked; nothing else
     * changes, and a <code> inside a <pre> never gets a button of its own.
     */
    method InitCopyButtons() returns (added: nat)
      requires Valid()
      modifies this, marked
      ensures Valid()
      ensures forall i :: 0 <= i < marked.Length ==>
                marked[i] == (old(marked[i]) || IsTarget(kinds, parents, i))
      ensures |buttons| == |old(buttons)| + added && buttons[..|old(buttons)|] == old(buttons)
      ensures forall b :: b in buttons[|old(buttons)|..] <==>
                0 <= b < marked.Length && IsTarget(kinds, parents, b) && !old(marked[b])
      ensures forall b :: b in buttons[|old(buttons)|..] && kinds[b] == Code ==>
                !InPre(kinds, parents, b)
      ensures (forall i :: 0 <= i < marked.Length && IsTarget(kinds, parents, i) ==> old(marked[i]))
                ==> added == 0
    {
      ghost var k0 := |buttons|;
      var blocks := EnhanceBlocks();
      ghost var k1 := |buttons|;
      var inline := EnhanceInline();
      added := blocks + inline;
      assert buttons[k0..] == buttons[k0..k1] + buttons[k1..];
      assert buttons[k0..k1] == buttons[..k1][k0..];
      if added > 0 {
        assert buttons[k0] in buttons[k0..];
      }
    }

    /**
     * The first loop of initCopyButtons: for each <code> whose parent is a
     * <pre>, in document order, that <pre> is marked and gets a button
     * unless it was marked already.
     */
    method EnhanceBlocks() returns (added: nat)
      requires Valid()
      modifies this, marked
      ensures Valid()
      ensures forall p :: 0 <= p < marked.Length ==>
                marked[p] == (old(marked[p]) || IsBlockTarget(kinds, parents, p))
      ensures |buttons| == |old(buttons)| + added && buttons[..|old(buttons)|] == old(buttons)
      ensures forall b :: b in buttons[|old(buttons)|..] <==>
                0 <= b < marked.Length && IsBlockTarget(kinds, parents, b) && !old(marked[b])
    {
      var n := marked.Length;
      ghost var k0 := |buttons|;
      added := 0;
      var i := 0;
      while i < n
        invariant 0 <= i <= n
        invariant Valid()
        invariant k0 <= |buttons| && buttons[..k0] == old(buttons) && added == |buttons| - k0
        invariant forall p :: 0 <= p < n ==>
                    marked[p] == (old(marked[p]) || (kinds[p] == Pre && HasCodeChild(kinds, parents, p, i)))
        invariant forall b :: b in buttons[k0..] <==>
                    0 <= b < n && kinds[b] == Pre && HasCodeChild(kinds, parents, b, i) && !old(marked[b])
      {
        if kinds[i] == Code && parents[i] >= 0 && kinds[parents[i]] == Pre {
          var pre := parents[i];
          if !marked[pre] {
            marked[pre] := true;
            assert (buttons + [pre])[k0..] == buttons[k0..] + [pre];
            buttons := buttons + [pre];
            added := added + 1;
          }
        }
        i := i + 1;
      }
    }

    /**
     * The second loop of initCopyButtons: every <code> that is not inside a
     * <pre> is marked and gets an inline button unless it was marked
     * already.
     */
    method EnhanceInline() returns (added: nat)
      requires Valid()
      modifies this, marked
      ensures Valid()
      ensures forall p :: 0 <= p < marked.Length ==>
                marked[p] == (old(marked[p]) || IsInlineTarget(kinds, parents, p))
      ensures |buttons| == |old(buttons)| + added && buttons[..|old(buttons)|] == old(buttons)
      ensures forall b :: b in buttons[|old(buttons)|..] <==>
                0 <= b < marked.Length && IsInlineTarget(kinds, parents, b) && !old(marked[b])
    {
      var n := marked.Length;
      ghost var k0 := |buttons|;
      added := 0;
      var j := 0;
      while j < n
        invariant 0 <= j <= n
        invariant Valid()
        invariant k0 <= |buttons| && buttons[..k0] == old(buttons) && added == |buttons| - k0
        invariant forall p :: 0 <= p < n ==>
                    marked[p] == (old(marked[p]) || (p < j && IsInlineTarget(kinds, parents, p)))
        invariant forall b :: b in buttons[k0..] <==>
                    0 <= b < n && b < j && IsInlineTarget(kinds, parents, b) && !old(marked[b])
      {
        if kinds[j] == Code {
          if InPre(kinds, parents, j) {
            // closest("pre") found one: the block pass covers it
          } else if !marked[j] {
            marked[j] := true;
            assert (buttons + [j])[k0..] == buttons[k0..] + [j];
            buttons := buttons + [j];
            added := added + 1;
          }
        }
        j := j + 1;
      }
    }
  }

  /**
   * Running the enhancement pass twice: the second run attaches no button,
   * and after both no element has more than one.
   */
  method EnhanceTwice(page: Page) returns (first: nat, second: nat)
    requires page.Valid()
    modifies page, page.marked
    ensures page.Valid()
    ensures second == 0
  {
    first := page.InitCopyButtons();
    second := page.InitCopyButtons();
  }
}
