/**
  Modal-size resolution in the click handler of the Lister action buttons.

  The handler walks the configured modal sizes (the keys of the site's
  modal configuration, in iteration order) and takes the first size `s`
  for which the clicked element carries the class `pw-modal-<s>`, found
  with `indexOf` on the element's class tokens. Without a hit the size
  stays at its initial value "medium".
 */
module ModalSize {
  import opened ClassList

  /** The size used when no configured size class is present. */
  const DefaultSize: string := "medium"

  /** The prefix of the size classes. */
  const SizeClassPrefix: string := "pw-modal-"

  /** The class that requests modal size `size`. */
  function SizeClass(size: string): string {
    SizeClassPrefix + size
  }

  /** `xs.indexOf(x)`: the first position holding `x`, or -1. */
  function IndexOf(xs: seq<string>, x: string): (r: int)
    ensures -1 <= r < |xs|
    ensures r == -1 <==> x !in xs
    ensures r >= 0 ==> xs[r] == x && x !in xs[..r]
  {
    if |xs| == 0 then -1
    else if xs[0] == x then 0
    else
      var j := IndexOf(xs[1..], x);
      if j == -1 then -1 else j + 1
  }

  /** The test of the loop body: the class for `size` is among the tokens. */
  predicate Requested(size: string, classList: seq<string>) {
    IndexOf(classList, SizeClass(size)) != -1
  }

  /** `size` is the `j`-th configured size, it is requested, and no
      configured size before it is. */
  ghost predicate FirstRequestedAt(modals: seq<string>, classList: seq<string>, j: int) {
    && 0 <= j < |modals|
    && Requested(modals[j], classList)
    && forall i :: 0 <= i < j ==> !Requested(modals[i], classList)
  }

  /** The modal size for an element with class tokens `classList`, given the
      configured sizes `modals` in iteration order. */
  function ResolveSize(modals: seq<string>, classList: seq<string>): (r: string)
    ensures r == DefaultSize || r in modals
    ensures (forall i :: 0 <= i < |modals| ==> !Requested(modals[i], classList)) ==> r == DefaultSize
    ensures (exists i :: 0 <= i < |modals| && Requested(modals[i], classList)) ==>
              exists j :: FirstRequestedAt(modals, classList, j) && r == modals[j]
  {
    if |modals| == 0 then DefaultSize
    else if Requested(modals[0], classList) then
      assert FirstRequestedAt(modals, classList, 0);
      modals[0]
    else
      var r := ResolveSize(modals[1..], classList);
      FirstRequestedInTail(modals, classList, r);
      r
  }

  /** When the first configured size is not requested, the first requested
      size of the tail is the first requested size of the whole sequence. */
  lemma FirstRequestedInTail(modals: seq<string>, classList: seq<string>, r: string)
    requires |modals| > 0 && !Requested(modals[0], classList)
    requires (exists i :: 0 <= i < |modals| - 1 && Requested(modals[1..][i], classList)) ==>
               exists j :: FirstRequestedAt(modals[1..], classList, j) && r == modals[1..][j]
    ensures (exists i :: 0 <= i < |modals| && Requested(modals[i], classList)) ==>
              exists j :: FirstRequestedAt(modals, classList, j) && r == modals[j]
  {
    if exists i :: 0 <= i < |modals| && Requested(modals[i], classList) {
      var i :| 0 <= i < |modals| && Requested(modals[i], classList);
      assert Requested(modals[1..][i - 1], classList);
      var j :| FirstRequestedAt(modals[1..], classList, j) && r == modals[1..][j];
      assert FirstRequestedAt(modals, classList, j + 1);
    }
  }

  /** The handler's loop over the configured sizes: `$.each` visits the keys
      in order and the callback's `return false` ends the walk at the first
      requested size. */
  method ResolveModalSize(modals: seq<string>, classList: seq<string>) returns (modalSize: string)
    ensures modalSize == ResolveSize(modals, classList)
  {
    modalSize := DefaultSize;
    var i := 0;
    while i < |modals|
      invariant 0 <= i <= |modals|
      invariant modalSize == DefaultSize
      invariant ResolveSize(modals[i..], classList) == ResolveSize(modals, classList)
    {
      if IndexOf(classList, SizeClassPrefix + modals[i]) != -1 {
        modalSize := modals[i];
        break;
      }
      assert modals[i..][1..] == modals[i + 1..];
      i := i + 1;
    }
  }

  // ---------------------------------------------------------------------
  // Properties of the resolution.

  /** At most one configured index is the first requested one. */
  lemma FirstRequestedUnique(modals: seq<string>, classList: seq<string>, j: int, j': int)
    requires FirstRequestedAt(modals, classList, j)
    requires FirstRequestedAt(modals, classList, j')
    ensures j == j'
  {
  }

  /** The resolved size is the configured size at the first requested
      index, and "medium" when there is none. */
  lemma ResolveSizeIsFirstRequested(modals: seq<string>, classList: seq<string>, j: int)
    requires FirstRequestedAt(modals, classList, j)
    ensures ResolveSize(modals, classList) == modals[j]
  {
    var r := ResolveSize(modals, classList);
    var j' :| FirstRequestedAt(modals, classList, j') && r == modals[j'];
    FirstRequestedUnique(modals, classList, j, j');
  }

  /** When exactly one configured size is requested, that size wins. */
  lemma SingleRequestWins(modals: seq<string>, classList: seq<string>, size: string)
    requires size in modals && Requested(size, classList)
    requires forall t :: t in modals && Requested(t, classList) ==> t == size
    ensures ResolveSize(modals, classList) == size
  {
  }

  /** The order of the class tokens, and repeated tokens, do not matter:
      only which tokens occur does. */
  lemma {:induction false} TokenOrderIrrelevant(modals: seq<string>, c1: seq<string>, c2: seq<string>)
    requires forall t :: t in c1 <==> t in c2
    ensures ResolveSize(modals, c1) == ResolveSize(modals, c2)
  {
    if |modals| > 0 {
      assert Requested(modals[0], c1) <==> Requested(modals[0], c2);
      TokenOrderIrrelevant(modals[1..], c1, c2);
    }
  }

  /** Whole-token matching on the class attribute: a size is requested by
      the tokens of `classAttr` exactly when the size has no whitespace and
      `pw-modal-<size>` occurs in the attribute as a whitespace-delimited
      word. A size containing whitespace can never be requested, and the
      empty tokens `split` produces at either end never match. */
  lemma RequestedIffWord(size: string, classAttr: string)
    ensures Requested(size, Split(classAttr)) <==>
              NoWhitespace(size) && IsWord(classAttr, SizeClass(size))
  {
    var c := SizeClass(size);
    assert c[|SizeClassPrefix|..] == size;
    assert c != [];
    if NoWhitespace(size) {
      assert NoWhitespace(c) by {
        forall i | 0 <= i < |c|
          ensures !IsWhitespace(c[i])
        {
          if i >= |SizeClassPrefix| {
            assert c[i] == size[i - |SizeClassPrefix|];
          }
        }
      }
      SplitMembers(classAttr, c);
    } else {
      var i :| 0 <= i < |size| && IsWhitespace(size[i]);
      assert c[|SizeClassPrefix| + i] == size[i];
    }
  }

  /** The resolved size for a class attribute, stated on the attribute text:
      the first configured size whose class occurs there as a word. */
  lemma ResolveOnAttribute(modals: seq<string>, classAttr: string, j: int)
    requires 0 <= j < |modals|
    requires NoWhitespace(modals[j]) && IsWord(classAttr, SizeClass(modals[j]))
    requires forall i :: 0 <= i < j ==> !NoWhitespace(modals[i]) || !IsWord(classAttr, SizeClass(modals[i]))
    ensures ResolveSize(modals, Split(classAttr)) == modals[j]
  {
    var cl := Split(classAttr);
    RequestedIffWord(modals[j], classAttr);
    forall i | 0 <= i < j
      ensures !Requested(modals[i], cl)
    {
      RequestedIffWord(modals[i], classAttr);
    }
    ResolveSizeIsFirstRequested(modals, cl, j);
  }

  // ---------------------------------------------------------------------
  // Worked cases.

  /** Configured order, not class order, decides: with sizes small, medium
      and large configured in that order, an element carrying both
      `pw-modal-large` and `pw-modal-small` opens a small modal. */
  lemma ConfiguredOrderWins()
    ensures ResolveSize(["small", "medium", "large"],
                        ["lister-action-button", "pw-modal", "pw-modal-large", "pw-modal-small"])
            == "small"
  {
    var cl := ["lister-action-button", "pw-modal", "pw-modal-large", "pw-modal-small"];
    assert cl[3] == SizeClass("small");
    assert FirstRequestedAt(["small", "medium", "large"], cl, 0);
    ResolveSizeIsFirstRequested(["small", "medium", "large"], cl, 0);
  }

  /** A class that merely starts with a size class does not request it:
      `pw-modal-larger` does not select the size "large". */
  lemma PrefixIsNotAMatch()
    ensures ResolveSize(["large"], ["pw-modal", "pw-modal-larger"]) == DefaultSize
  {
    var cl := ["pw-modal", "pw-modal-larger"];
    assert |cl[1]| != |SizeClass("large")|;
    assert cl[0] != SizeClass("large");
    assert !Requested("large", cl);
  }
}
