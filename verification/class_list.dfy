/**
  The tokenisation of an element's `class` attribute, as the click handler
  performs it with JavaScript's `attr("class").split(/\s+/)`.

  A maximal run of whitespace separates two tokens. A string that starts
  (ends) with whitespace yields an empty first (last) token, and the empty
  string yields the single token "". Tokens never contain whitespace.

  Like the ECMAScript split algorithm, the definition walks positions of the
  one input string rather than taking suffixes of it.
 */
module ClassList {

  /** The characters matched by `\s` in an ECMAScript regular expression:
      the WhiteSpace and LineTerminator code points. */
  predicate IsWhitespace(c: char) {
    || c == '\t' || c == '\n' || c == '\U{000B}' || c == '\U{000C}' || c == '\r'
    || c == ' ' || c == '\U{00A0}' || c == '\U{1680}'
    || ('\U{2000}' <= c <= '\U{200A}')
    || c == '\U{2028}' || c == '\U{2029}' || c == '\U{202F}' || c == '\U{205F}'
    || c == '\U{3000}' || c == '\U{FEFF}'
  }

  /** The edges of the set: space, tab, the line terminators, no-break
      space and the byte order mark are whitespace; the zero-width space
      U+200B and the Mongolian vowel separator U+180E, which are not in the
      Unicode space separators, are not; nor are ordinary class-name
      characters. */
  lemma WhitespaceEdges()
    ensures IsWhitespace(' ') && IsWhitespace('\t') && IsWhitespace('\n') && IsWhitespace('\r')
    ensures IsWhitespace('\U{00A0}') && IsWhitespace('\U{2028}') && IsWhitespace('\U{FEFF}')
    ensures !IsWhitespace('\U{200B}') && !IsWhitespace('\U{180E}')
    ensures !IsWhitespace('-') && !IsWhitespace('_') && !IsWhitespace('a') && !IsWhitespace('0')
  {
  }

  predicate NoWhitespace(s: string) {
    forall i :: 0 <= i < |s| ==> !IsWhitespace(s[i])
  }

  /** The first position at or after `p` holding whitespace, or `|s|`. */
  function WordEnd(s: string, p: nat): (q: nat)
    requires p <= |s|
    ensures p <= q <= |s|
    ensures q < |s| ==> IsWhitespace(s[q])
    decreases |s| - p
  {
    if p == |s| || IsWhitespace(s[p]) then p else WordEnd(s, p + 1)
  }

  /** The first position at or after `p` not holding whitespace, or `|s|`. */
  function GapEnd(s: string, p: nat): (q: nat)
    requires p <= |s|
    ensures p <= q <= |s|
    ensures q < |s| ==> !IsWhitespace(s[q])
    ensures p < |s| && IsWhitespace(s[p]) ==> p < q
    decreases |s| - p
  {
    if p == |s| || !IsWhitespace(s[p]) then p else GapEnd(s, p + 1)
  }

  /** `WordEnd` is determined by its postcondition. */
  lemma {:induction false} WordEndAt(s: string, p: nat, q: nat)
    requires p <= q <= |s|
    requires forall i :: p <= i < q ==> !IsWhitespace(s[i])
    requires q < |s| ==> IsWhitespace(s[q])
    ensures WordEnd(s, p) == q
    decreases q - p
  {
    if p < q {
      WordEndAt(s, p + 1, q);
    }
  }

  /** `GapEnd` is determined by its postcondition. */
  lemma {:induction false} GapEndAt(s: string, p: nat, q: nat)
    requires p <= q <= |s|
    requires forall i :: p <= i < q ==> IsWhitespace(s[i])
    requires q < |s| ==> !IsWhitespace(s[q])
    ensures GapEnd(s, p) == q
    decreases q - p
  {
    if p < q {
      GapEndAt(s, p + 1, q);
    }
  }

  /** No whitespace lies between `p` and `WordEnd(s, p)`. */
  lemma {:induction false} WordEndIsWord(s: string, p: nat)
    requires p <= |s|
    ensures forall i :: p <= i < WordEnd(s, p) ==> !IsWhitespace(s[i])
    decreases |s| - p
  {
    if p < |s| && !IsWhitespace(s[p]) {
      WordEndIsWord(s, p + 1);
    }
  }

  /** Only whitespace lies between `p` and `GapEnd(s, p)`. */
  lemma {:induction false} GapEndIsGap(s: string, p: nat)
    requires p <= |s|
    ensures forall i :: p <= i < GapEnd(s, p) ==> IsWhitespace(s[i])
    decreases |s| - p
  {
    if p < |s| && IsWhitespace(s[p]) {
      GapEndIsGap(s, p + 1);
    }
  }

  /** The tokens of `s` from position `p` on: the text up to the next
      whitespace, then, if whitespace follows, the tokens after that run. */
  function SplitFrom(s: string, p: nat): (r: seq<string>)
    requires p <= |s|
    ensures |r| >= 1
    decreases |s| - p
  {
    var k := WordEnd(s, p);
    if k == |s| then
      [s[p..]]
    else
      [s[p..k]] + SplitFrom(s, GapEnd(s, k))
  }

  /** `s.split(/\s+/)`. */
  function Split(s: string): (r: seq<string>)
    ensures |r| >= 1
    ensures forall i :: 0 <= i < |r| ==> NoWhitespace(r[i])
    ensures forall i :: 0 < i < |r| - 1 ==> r[i] != []
    ensures r[0] == [] <==> s == [] || IsWhitespace(s[0])
    ensures s == [] ==> r == [[]]
  {
    SplitFromShape(s, 0);
    SplitFrom(s, 0)
  }

  /** The shape of the tokens from position `p` on. */
  lemma {:induction false} SplitFromShape(s: string, p: nat)
    requires p <= |s|
    ensures var r := SplitFrom(s, p);
            && (forall i :: 0 <= i < |r| ==> NoWhitespace(r[i]))
            && (forall i :: 0 < i < |r| - 1 ==> r[i] != [])
            && (r[0] == [] <==> p == |s| || IsWhitespace(s[p]))
            && (p == |s| ==> r == [[]])
    decreases |s| - p
  {
    var k := WordEnd(s, p);
    var word := s[p..k];
    WordEndIsWord(s, p);
    assert NoWhitespace(word) by {
      forall i | 0 <= i < |word|
        ensures !IsWhitespace(word[i])
      {
        assert word[i] == s[p + i];
      }
    }
    if k < |s| {
      var g := GapEnd(s, k);
      SplitFromShape(s, g);
      var r := [word] + SplitFrom(s, g);
      assert SplitFrom(s, p) == r;
      assert forall i :: 0 < i < |r| ==> r[i] == SplitFrom(s, g)[i - 1];
    }
  }

  /** Joins `ts` with one space between neighbours. */
  function Join(ts: seq<string>): string
    requires |ts| >= 1
  {
    if |ts| == 1 then ts[0] else ts[0] + " " + Join(ts[1..])
  }

  /** All tokens of `ts`, concatenated. */
  function Flatten(ts: seq<string>): string {
    if |ts| == 0 then [] else ts[0] + Flatten(ts[1..])
  }

  /** `s` with every whitespace character removed. */
  function RemoveWhitespace(s: string): string {
    if |s| == 0 then []
    else if IsWhitespace(s[0]) then RemoveWhitespace(s[1..])
    else [s[0]] + RemoveWhitespace(s[1..])
  }

  /** `w` occurs in `s` at position `i`, delimited on both sides by
      whitespace or by the ends of `s`. */
  ghost predicate IsWordAt(s: string, w: string, i: int) {
    && 0 <= i && i + |w| <= |s|
    && s[i..i + |w|] == w
    && (i == 0 || IsWhitespace(s[i - 1]))
    && (i + |w| == |s| || IsWhitespace(s[i + |w|]))
  }

  ghost predicate IsWord(s: string, w: string) {
    exists i :: IsWordAt(s, w, i)
  }

  // ---------------------------------------------------------------------
  // Splitting loses exactly the whitespace.

  lemma {:induction false} RemoveWhitespaceAppend(a: string, b: string)
    ensures RemoveWhitespace(a + b) == RemoveWhitespace(a) + RemoveWhitespace(b)
    decreases |a|
  {
    if |a| > 0 {
      assert (a + b)[1..] == a[1..] + b;
      RemoveWhitespaceAppend(a[1..], b);
    } else {
      assert a + b == b;
    }
  }

  lemma {:induction false} RemoveWhitespaceOfWord(w: string)
    requires NoWhitespace(w)
    ensures RemoveWhitespace(w) == w
    decreases |w|
  {
    if |w| > 0 {
      RemoveWhitespaceOfWord(w[1..]);
      assert w == [w[0]] + w[1..];
    }
  }

  lemma {:induction false} RemoveWhitespaceOfGap(g: string)
    requires forall i :: 0 <= i < |g| ==> IsWhitespace(g[i])
    ensures RemoveWhitespace(g) == []
    decreases |g|
  {
    if |g| > 0 {
      RemoveWhitespaceOfGap(g[1..]);
    }
  }

  /** Removing the whitespace from `s[p..]`, where `[p, k)` is a word and
      `[k, g)` whitespace, keeps the word and drops the gap. */
  lemma RemoveWhitespaceWordGap(s: string, p: nat, k: nat, g: nat)
    requires p <= k <= g <= |s|
    requires forall i :: p <= i < k ==> !IsWhitespace(s[i])
    requires forall i :: k <= i < g ==> IsWhitespace(s[i])
    ensures RemoveWhitespace(s[p..]) == s[p..k] + RemoveWhitespace(s[g..])
  {
    var word, gap := s[p..k], s[k..g];
    assert NoWhitespace(word) by {
      forall i | 0 <= i < |word|
        ensures !IsWhitespace(word[i])
      {
        assert word[i] == s[p + i];
      }
    }
    assert forall i :: 0 <= i < |gap| ==> IsWhitespace(gap[i]) by {
      forall i | 0 <= i < |gap|
        ensures IsWhitespace(gap[i])
      {
        assert gap[i] == s[k + i];
      }
    }
    RemoveWhitespaceOfWord(word);
    RemoveWhitespaceOfGap(gap);
    assert s[p..] == word + (gap + s[g..]);
    RemoveWhitespaceAppend(word, gap + s[g..]);
    RemoveWhitespaceAppend(gap, s[g..]);
  }

  lemma {:induction false} FlattenSplitFrom(s: string, p: nat)
    requires p <= |s|
    ensures Flatten(SplitFrom(s, p)) == RemoveWhitespace(s[p..])
    decreases |s| - p
  {
    var k := WordEnd(s, p);
    WordEndIsWord(s, p);
    if k == |s| {
      RemoveWhitespaceWordGap(s, p, k, k);
      assert Flatten([s[p..]]) == s[p..] + Flatten([]);
    } else {
      var g := GapEnd(s, k);
      GapEndIsGap(s, k);
      RemoveWhitespaceWordGap(s, p, k, g);
      FlattenSplitFrom(s, g);
      var r := [s[p..k]] + SplitFrom(s, g);
      assert r[1..] == SplitFrom(s, g);
      assert Flatten(r) == s[p..k] + Flatten(SplitFrom(s, g));
    }
  }

  /** The tokens, concatenated, are the attribute with its whitespace
      removed: splitting drops every whitespace character and nothing else,
      and keeps the remaining characters in order. */
  lemma FlattenSplit(s: string)
    ensures Flatten(Split(s)) == RemoveWhitespace(s)
  {
    FlattenSplitFrom(s, 0);
    assert s[0..] == s;
  }

  // ---------------------------------------------------------------------
  // The trailing token.

  lemma {:induction false} LastTokenEmptyFrom(s: string, p: nat)
    requires p <= |s|
    ensures var r := SplitFrom(s, p);
            r[|r| - 1] == [] <==> p == |s| || IsWhitespace(s[|s| - 1])
    decreases |s| - p
  {
    var k := WordEnd(s, p);
    WordEndIsWord(s, p);
    if k < |s| {
      var g := GapEnd(s, k);
      GapEndIsGap(s, k);
      LastTokenEmptyFrom(s, g);
      var r := [s[p..k]] + SplitFrom(s, g);
      assert r[|r| - 1] == SplitFrom(s, g)[|SplitFrom(s, g)| - 1];
      if g == |s| {
        assert IsWhitespace(s[|s| - 1]);
      }
    } else if p < |s| {
      assert !IsWhitespace(s[|s| - 1]);
    }
  }

  /** The last token is empty exactly when the attribute is empty or ends
      with whitespace. */
  lemma LastTokenEmpty(s: string)
    ensures var r := Split(s);
            r[|r| - 1] == [] <==> s == [] || IsWhitespace(s[|s| - 1])
  {
    LastTokenEmptyFrom(s, 0);
  }

  // ---------------------------------------------------------------------
  // Splitting undoes joining.

  lemma {:induction false} WordEndShift(a: string, b: string, p: nat)
    requires p <= |b|
    ensures WordEnd(a + b, |a| + p) == |a| + WordEnd(b, p)
    decreases |b| - p
  {
    if p < |b| {
      assert (a + b)[|a| + p] == b[p];
      WordEndShift(a, b, p + 1);
    }
  }

  lemma {:induction false} GapEndShift(a: string, b: string, p: nat)
    requires p <= |b|
    ensures GapEnd(a + b, |a| + p) == |a| + GapEnd(b, p)
    decreases |b| - p
  {
    if p < |b| {
      assert (a + b)[|a| + p] == b[p];
      GapEndShift(a, b, p + 1);
    }
  }

  /** Unfolds `SplitFrom` once where the first token ends at `k`, before
      whitespace, and the run of whitespace ends at `g`. */
  lemma SplitFromStep(s: string, p: nat, k: nat, g: nat)
    requires p <= |s| && k == WordEnd(s, p) && k < |s| && g == GapEnd(s, k)
    ensures SplitFrom(s, p) == [s[p..k]] + SplitFrom(s, g)
  {
  }

  lemma SliceShift(a: string, b: string, i: nat, j: nat)
    requires i <= j <= |b|
    ensures (a + b)[|a| + i..|a| + j] == b[i..j]
  {
    forall n | 0 <= n < j - i
      ensures (a + b)[|a| + i..|a| + j][n] == b[i..j][n]
    {
      assert (a + b)[|a| + i + n] == b[i + n];
    }
  }

  /** The first word of `b` from `p` and the whitespace after it end at
      the same places, shifted by `|a|`, in `a + b`. */
  lemma ShiftEnds(a: string, b: string, p: nat)
    requires p <= |b| && WordEnd(b, p) < |b|
    ensures var k := WordEnd(b, p);
            && WordEnd(a + b, |a| + p) == |a| + k
            && GapEnd(a + b, |a| + k) == |a| + GapEnd(b, k)
  {
    WordEndShift(a, b, p);
    GapEndShift(a, b, WordEnd(b, p));
  }

  /** One step of `SplitFromShift`: the first token and the gap after it
      shift with `a`, so the tokens agree once the remaining ones do. */
  lemma SplitFromShiftStep(a: string, b: string, p: nat, k: nat, g: nat)
    requires p <= |b| && k == WordEnd(b, p) && k < |b| && g == GapEnd(b, k)
    requires SplitFrom(a + b, |a| + g) == SplitFrom(b, g)
    ensures SplitFrom(a + b, |a| + p) == SplitFrom(b, p)
  {
    var s := a + b;
    ShiftEnds(a, b, p);
    SliceShift(a, b, p, k);
    calc {
      SplitFrom(s, |a| + p);
    == { SplitFromStep(s, |a| + p, |a| + k, |a| + g); }
      [s[|a| + p..|a| + k]] + SplitFrom(s, |a| + g);
    ==
      [b[p..k]] + SplitFrom(b, g);
    == { SplitFromStep(b, p, k, g); }
      SplitFrom(b, p);
    }
  }

  /** Tokens from a position inside `b` do not depend on what precedes `b`. */
  lemma {:induction false} SplitFromShift(a: string, b: string, p: nat)
    requires p <= |b|
    ensures SplitFrom(a + b, |a| + p) == SplitFrom(b, p)
    decreases |b| - p
  {
    var k := WordEnd(b, p);
    if k < |b| {
      SplitFromShift(a, b, GapEnd(b, k));
      SplitFromShiftStep(a, b, p, k, GapEnd(b, k));
    } else {
      WordEndShift(a, b, p);
      assert (a + b)[|a| + p..] == b[p..];
    }
  }

  lemma SlicePrefix(a: string, c: string, i: nat, j: nat)
    requires i <= j <= |a|
    ensures (a + c)[i..j] == a[i..j]
  {
    forall n | 0 <= n < j - i
      ensures (a + c)[i..j][n] == a[i..j][n]
    {
      assert (a + c)[i + n] == a[i + n];
    }
  }

  /** `a`, `g` and `b` as `SplitGap` takes them: `g` is a non-empty run of
      whitespace, and neither `a` nor `b` extends it. */
  ghost predicate GapBetween(a: string, g: string, b: string) {
    && (a == [] || !IsWhitespace(a[|a| - 1]))
    && g != [] && (forall i :: 0 <= i < |g| ==> IsWhitespace(g[i]))
    && (b == [] || !IsWhitespace(b[0]))
  }

  /** Appending `c` to `a` does not move a word end that lies inside `a`,
      nor one at the end of `a` when `c` starts with whitespace. */
  lemma {:induction false} WordEndPrefix(a: string, c: string, p: nat)
    requires p <= |a|
    requires WordEnd(a, p) < |a| || (c != [] && IsWhitespace(c[0]))
    ensures WordEnd(a + c, p) == WordEnd(a, p)
    decreases |a| - p
  {
    if p < |a| {
      assert (a + c)[p] == a[p];
      if !IsWhitespace(a[p]) {
        WordEndPrefix(a, c, p + 1);
      }
    } else {
      assert (a + c)[p] == c[0];
    }
  }

  /** Appending `c` to `a` does not move a gap end that lies inside `a`. */
  lemma {:induction false} GapEndPrefix(a: string, c: string, p: nat)
    requires p <= |a| && GapEnd(a, p) < |a|
    ensures GapEnd(a + c, p) == GapEnd(a, p)
    decreases |a| - p
  {
    assert (a + c)[p] == a[p];
    if IsWhitespace(a[p]) {
      GapEndPrefix(a, c, p + 1);
    }
  }

  /** The tokens after `c` in `c + b` are those of `b`. */
  lemma SplitFromAfter(c: string, b: string)
    ensures SplitFrom(c + b, |c|) == SplitFrom(b, 0)
  {
    SplitFromShift(c, b, 0);
  }

  /** A word of `a` that runs to its end stops at the gap after `a`. */
  lemma WordEndAtGap(a: string, g: string, b: string, p: nat)
    requires p <= |a| && WordEnd(a, p) == |a| && g != [] && IsWhitespace(g[0])
    ensures WordEnd(a + g + b, p) == |a|
  {
    assert a + g + b == a + (g + b);
    WordEndPrefix(a, g + b, p);
  }

  /** The gap after `a` ends where `b` begins. */
  lemma GapEndAtB(a: string, g: string, b: string)
    requires GapBetween(a, g, b)
    ensures GapEnd(a + g + b, |a|) == |a| + |g|
  {
    assert GapEnd(g + b, 0) == |g| by {
      assert forall i :: 0 <= i < |g| ==> (g + b)[i] == g[i];
      if b != [] {
        assert (g + b)[|g|] == b[0];
      }
      GapEndAt(g + b, 0, |g|);
    }
    assert a + g + b == a + (g + b);
    GapEndShift(a, g + b, 0);
  }

  /** The last token of `a` from `p` ends at the gap, and the tokens of `b`
      follow it. */
  lemma SplitFromGapLast(a: string, g: string, b: string, p: nat)
    requires p <= |a| && WordEnd(a, p) == |a| && GapBetween(a, g, b)
    ensures SplitFrom(a + g + b, p) == SplitFrom(a, p) + SplitFrom(b, 0)
  {
    var s := a + g + b;
    var e := |a| + |g|;
    WordEndAtGap(a, g, b, p);
    GapEndAtB(a, g, b);
    SliceShift([], a, p, |a|);
    SlicePrefix(a + g, b, p, |a|);
    SlicePrefix(a, g, p, |a|);
    SplitFromAfter(a + g, b);
    calc {
      SplitFrom(s, p);
    == { SplitFromStep(s, p, |a|, e); }
      [s[p..|a|]] + SplitFrom(s, e);
    ==
      [a[p..]] + SplitFrom(b, 0);
    ==
      SplitFrom(a, p) + SplitFrom(b, 0);
    }
  }

  /** A word of `a` that whitespace inside `a` ends, and the run of
      whitespace after it, end at the same places in `a + g + b`. */
  lemma InnerEnds(a: string, g: string, b: string, p: nat)
    requires p <= |a| && WordEnd(a, p) < |a| && GapBetween(a, g, b)
    ensures var k := WordEnd(a, p);
            && WordEnd(a + g + b, p) == k
            && GapEnd(a, k) < |a|
            && GapEnd(a + g + b, k) == GapEnd(a, k)
  {
    var k := WordEnd(a, p);
    GapEndIsGap(a, k);
    assert a + g + b == a + (g + b);
    WordEndPrefix(a, g + b, p);
    GapEndPrefix(a, g + b, k);
  }

  /** A token of `a` that whitespace inside `a` ends: the tokens agree once
      the remaining ones do. */
  lemma SplitFromGapStep(a: string, g: string, b: string, p: nat, k: nat, ga: nat)
    requires p <= |a| && k == WordEnd(a, p) && k < |a| && ga == GapEnd(a, k) && GapBetween(a, g, b)
    requires SplitFrom(a + g + b, ga) == SplitFrom(a, ga) + SplitFrom(b, 0)
    ensures SplitFrom(a + g + b, p) == SplitFrom(a, p) + SplitFrom(b, 0)
  {
    var s := a + g + b;
    InnerEnds(a, g, b, p);
    SlicePrefix(a + g, b, p, k);
    SlicePrefix(a, g, p, k);
    calc {
      SplitFrom(s, p);
    == { SplitFromStep(s, p, k, ga); }
      [s[p..k]] + SplitFrom(s, ga);
    ==
      [a[p..k]] + (SplitFrom(a, ga) + SplitFrom(b, 0));
    == { SplitFromStep(a, p, k, ga); }
      SplitFrom(a, p) + SplitFrom(b, 0);
    }
  }

  /** The tokens from a position of `a` in `a + g + b`, where the whitespace
      run `g` is all that separates `a` from `b`, are those of `a` followed
      by those of `b`. */
  lemma {:induction false} SplitFromGap(a: string, g: string, b: string, p: nat)
    requires p <= |a| && GapBetween(a, g, b)
    ensures SplitFrom(a + g + b, p) == SplitFrom(a, p) + SplitFrom(b, 0)
    decreases |a| - p
  {
    var k := WordEnd(a, p);
    if k == |a| {
      SplitFromGapLast(a, g, b, p);
    } else {
      SplitFromGap(a, g, b, GapEnd(a, k));
      SplitFromGapStep(a, g, b, p, k, GapEnd(a, k));
    }
  }

  /** Splitting is compositional at whitespace: when a run of whitespace is
      all that separates `a` from `b`, the tokens of `a + g + b` are the
      tokens of `a` followed by those of `b`. With `SplitWord`, this fixes
      the tokens of every attribute, in order. */
  lemma SplitGap(a: string, g: string, b: string)
    requires a == [] || !IsWhitespace(a[|a| - 1])
    requires g != [] && forall i :: 0 <= i < |g| ==> IsWhitespace(g[i])
    requires b == [] || !IsWhitespace(b[0])
    ensures Split(a + g + b) == Split(a) + Split(b)
  {
    SplitFromGap(a, g, b, 0);
  }

  /** A string without whitespace is a single token. */
  lemma SplitWord(t: string)
    requires NoWhitespace(t)
    ensures Split(t) == [t]
  {
    assert WordEnd(t, 0) == |t|;
    assert t[0..] == t;
  }

  /** A word, one space and a string starting with a word split into that
      word followed by the tokens of the string. */
  lemma SplitWordSpace(t: string, j: string)
    requires NoWhitespace(t)
    requires j != [] && !IsWhitespace(j[0])
    ensures Split(t + " " + j) == [t] + Split(j)
  {
    var a := t + " ";
    var s := a + j;
    assert s == t + " " + j;
    assert s[|t|] == ' ';
    assert s[|t| + 1] == j[0];
    assert forall i :: 0 <= i < |t| ==> s[i] == t[i];
    WordEndAt(s, 0, |t|);
    assert GapEnd(s, |t|) == |a| + 0;
    assert s[0..|t|] == t;
    SplitFromShift(a, j, 0);
  }

  lemma {:induction false} JoinStartsWithFirst(ts: seq<string>)
    requires |ts| >= 1 && ts[0] != []
    ensures Join(ts) != [] && Join(ts)[0] == ts[0][0]
  {
  }

  /** Splitting undoes joining with single spaces, for non-empty tokens
      without whitespace. */
  lemma {:induction false} SplitJoin(ts: seq<string>)
    requires |ts| >= 1
    requires forall i :: 0 <= i < |ts| ==> ts[i] != [] && NoWhitespace(ts[i])
    ensures Split(Join(ts)) == ts
    decreases |ts|
  {
    if |ts| == 1 {
      SplitWord(ts[0]);
    } else {
      var t, rest := ts[0], ts[1..];
      var j := Join(rest);
      assert Split(j) == rest by { SplitJoin(rest); }
      assert j != [] && !IsWhitespace(j[0]) by {
        JoinStartsWithFirst(rest);
        assert !IsWhitespace(rest[0][0]);
      }
      assert Split(Join(ts)) == [t] + rest by { SplitWordSpace(t, j); }
      assert ts == [t] + rest;
    }
  }

  // ---------------------------------------------------------------------
  // Token membership is whole-word occurrence.

  /** Where a word can occur relative to the first token from `p`: it is that
      token, or it starts after the whitespace that follows the token. */
  lemma WordOccurrence(s: string, w: string, p: nat, i: nat)
    requires p <= i && IsWordAt(s, w, i)
    requires w != [] && NoWhitespace(w)
    ensures var k := WordEnd(s, p);
            || (i == p && w == s[p..k])
            || (k < |s| && GapEnd(s, k) <= i)
  {
    var k := WordEnd(s, p);
    WordEndIsWord(s, p);
    assert s[i] == w[0];
    if i == p {
      forall j | p <= j < p + |w|
        ensures !IsWhitespace(s[j])
      {
        assert s[j] == w[j - p];
      }
      WordEndAt(s, p, p + |w|);
    } else {
      assert k < |s|;
      GapEndIsGap(s, k);
      assert GapEnd(s, k) <= i;
    }
  }

  lemma {:induction false} SplitFromMembers(s: string, w: string, p: nat)
    requires p <= |s| && (p == 0 || IsWhitespace(s[p - 1]))
    requires w != [] && NoWhitespace(w)
    ensures w in SplitFrom(s, p) <==> exists i :: p <= i && IsWordAt(s, w, i)
    decreases |s| - p
  {
    var k := WordEnd(s, p);
    if w == s[p..k] {
      assert IsWordAt(s, w, p);
    }
    if k < |s| {
      var g := GapEnd(s, k);
      GapEndIsGap(s, k);
      SplitFromMembers(s, w, g);
      assert SplitFrom(s, p) == [s[p..k]] + SplitFrom(s, g);
    }
    if exists i :: p <= i && IsWordAt(s, w, i) {
      var i :| p <= i && IsWordAt(s, w, i);
      WordOccurrence(s, w, p, i);
      if k == |s| {
        assert s[p..k] == s[p..];
      } else if i != p || w != s[p..k] {
        assert GapEnd(s, k) <= i;
      }
    }
  }

  /** A non-empty string without whitespace is one of the tokens exactly
      when it occurs in the attribute bounded by whitespace or the ends; a
      mere substring of a token does not qualify. */
  lemma SplitMembers(s: string, w: string)
    requires w != [] && NoWhitespace(w)
    ensures w in Split(s) <==> IsWord(s, w)
  {
    SplitFromMembers(s, w, 0);
  }
}
