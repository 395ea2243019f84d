/**
 * `re.sub(rf'\b{w}\b', repl, s)` for a literal word or phrase `w`, with or
 * without `flags=re.IGNORECASE`: the rewrite shared by word redaction, noun
 * phrase redaction and synonym jiggling.
 *
 * `SubFrom(s, w, repl, ic, i)` scans `s[i..]` left to right; where `w`
 * occurs as a whole word it emits `repl` and resumes after the occurrence,
 * otherwise it copies one character. `Covered` records which characters the
 * scan replaced, so that the output can be described character by character.
 */
module Substitution {
  import opened Text

  /** The non-empty `w` occurs at `i` as a whole word (`\b<w>\b`), each
      character compared with or without IGNORECASE. */
  predicate WholeWordAt(s: string, w: string, i: nat, ignoreCase: bool) {
    && 0 < |w| && i + |w| <= |s|
    && Boundary(s, i) && Boundary(s, i + |w|)
    && forall k :: 0 <= k < |w| ==> CharMatch(s[i + k], w[k], ignoreCase)
  }

  /** The scan of `re.sub` from position `i`. */
  function SubFrom(s: string, w: string, repl: string, ignoreCase: bool, i: nat): (r: string)
    requires i <= |s|
    decreases |s| - i
  {
    if i == |s| then []
    else if WholeWordAt(s, w, i, ignoreCase) then repl + SubFrom(s, w, repl, ignoreCase, i + |w|)
    else [s[i]] + SubFrom(s, w, repl, ignoreCase, i + 1)
  }

  lemma {:induction false} NoMatchFixed(s: string, w: string, repl: string, ignoreCase: bool, i: nat)
    requires i <= |s|
    ensures (forall j :: i <= j < |s| ==> !WholeWordAt(s, w, j, ignoreCase)) ==>
              SubFrom(s, w, repl, ignoreCase, i) == s[i..]
    decreases |s| - i
  {
    if i < |s| {
      NoMatchFixed(s, w, repl, ignoreCase, i + 1);
    }
  }

  /** `re.sub(rf'\b{w}\b', repl, s)` for a literal `w`. An empty `w` matches
      only the empty string, which is replaced by the empty `repl`. A text in
      which `w` never occurs as a whole word is returned unchanged. */
  function WholeWordSub(s: string, w: string, repl: string, ignoreCase: bool): (r: string)
    requires |w| > 0 || repl == []
    ensures (forall j :: 0 <= j < |s| ==> !WholeWordAt(s, w, j, ignoreCase)) ==> r == s
  {
    NoMatchFixed(s, w, repl, ignoreCase, 0);
    SubFrom(s, w, repl, ignoreCase, 0)
  }

  // ---------------------------------------------------------------------
  // Which characters the scan replaces
  // ---------------------------------------------------------------------

  /** `s[p]` lies in an occurrence that the scan from `i` replaces. */
  ghost predicate Covered(s: string, w: string, ignoreCase: bool, i: nat, p: int)
    requires i <= |s|
    decreases |s| - i
  {
    && i < |s|
    && if WholeWordAt(s, w, i, ignoreCase) then
         i <= p < i + |w| || Covered(s, w, ignoreCase, i + |w|, p)
       else
         Covered(s, w, ignoreCase, i + 1, p)
  }

  /** The start of the replaced occurrence that holds `s[p]`. */
  ghost function CoverStart(s: string, w: string, ignoreCase: bool, i: nat, p: int): (st: nat)
    requires i <= |s| && Covered(s, w, ignoreCase, i, p)
    ensures i <= st <= p < st + |w| && WholeWordAt(s, w, st, ignoreCase)
    ensures forall q :: st <= q < st + |w| ==> Covered(s, w, ignoreCase, i, q)
    decreases |s| - i
  {
    if WholeWordAt(s, w, i, ignoreCase) then
      if i <= p < i + |w| then i else CoverStart(s, w, ignoreCase, i + |w|, p)
    else
      CoverStart(s, w, ignoreCase, i + 1, p)
  }

  lemma {:induction false} CoveredRange(s: string, w: string, ignoreCase: bool, i: nat, p: int)
    requires i <= |s| && Covered(s, w, ignoreCase, i, p)
    ensures i <= p < |s|
    decreases |s| - i
  {
    if WholeWordAt(s, w, i, ignoreCase) {
      if !(i <= p < i + |w|) {
        CoveredRange(s, w, ignoreCase, i + |w|, p);
      }
    } else {
      CoveredRange(s, w, ignoreCase, i + 1, p);
    }
  }

  /** The scan misses no occurrence: where no replaced occurrence covers
      `s[p]`, `w` does not occur at `p`. */
  lemma {:induction false} UncoveredHasNoMatch(s: string, w: string, ignoreCase: bool, i: nat, p: nat)
    requires i <= p < |s| && !Covered(s, w, ignoreCase, i, p)
    ensures !WholeWordAt(s, w, p, ignoreCase)
    decreases |s| - i
  {
    if WholeWordAt(s, w, i, ignoreCase) {
      UncoveredHasNoMatch(s, w, ignoreCase, i + |w|, p);
    } else if p > i {
      UncoveredHasNoMatch(s, w, ignoreCase, i + 1, p);
    }
  }

  /** An occurrence that overlaps no earlier occurrence is replaced whole. */
  lemma {:induction false} EarliestOccurrenceCovered(s: string, w: string, ignoreCase: bool, i: nat, st: nat)
    requires i <= st && WholeWordAt(s, w, st, ignoreCase)
    requires forall j :: i <= j < st && st < j + |w| ==> !WholeWordAt(s, w, j, ignoreCase)
    ensures forall q :: st <= q < st + |w| ==> Covered(s, w, ignoreCase, i, q)
    decreases |s| - i
  {
    if i < st {
      if WholeWordAt(s, w, i, ignoreCase) {
        var e := i + |w|;
        assert e <= st;
        EarliestOccurrenceCovered(s, w, ignoreCase, e, st);
        forall q | st <= q < st + |w|
          ensures Covered(s, w, ignoreCase, i, q)
        {
          assert Covered(s, w, ignoreCase, e, q);
        }
      } else {
        EarliestOccurrenceCovered(s, w, ignoreCase, i + 1, st);
        forall q | st <= q < st + |w|
          ensures Covered(s, w, ignoreCase, i, q)
        {
          assert Covered(s, w, ignoreCase, i + 1, q);
        }
      }
    }
  }

  /** With a run of blocks as replacement, the scan keeps the length and
      blocks exactly the covered characters. */
  lemma {:induction false} BlockSubShape(s: string, w: string, ignoreCase: bool, i: nat)
    requires i <= |s|
    ensures |SubFrom(s, w, Blocks(|w|), ignoreCase, i)| == |s| - i
    ensures forall p :: i <= p < |s| ==>
      SubFrom(s, w, Blocks(|w|), ignoreCase, i)[p - i] ==
        if Covered(s, w, ignoreCase, i, p) then Block else s[p]
    decreases |s| - i
  {
    if i == |s| {
      return;
    }
    var r := SubFrom(s, w, Blocks(|w|), ignoreCase, i);
    if WholeWordAt(s, w, i, ignoreCase) {
      var e := i + |w|;
      var rest := SubFrom(s, w, Blocks(|w|), ignoreCase, e);
      assert r == Blocks(|w|) + rest;
      BlockSubShape(s, w, ignoreCase, e);
      forall p | i <= p < |s|
        ensures r[p - i] == if Covered(s, w, ignoreCase, i, p) then Block else s[p]
      {
        if p >= e {
          assert r[p - i] == rest[p - e];
        }
      }
    } else {
      var rest := SubFrom(s, w, Blocks(|w|), ignoreCase, i + 1);
      assert r == [s[i]] + rest;
      BlockSubShape(s, w, ignoreCase, i + 1);
      forall p | i <= p < |s|
        ensures r[p - i] == if Covered(s, w, ignoreCase, i, p) then Block else s[p]
      {
        if p == i {
          if Covered(s, w, ignoreCase, i + 1, i) {
            CoveredRange(s, w, ignoreCase, i + 1, i);
          }
        } else {
          assert r[p - i] == rest[p - i - 1];
        }
      }
    }
  }

  // ---------------------------------------------------------------------
  // The text as the pieces between replaced occurrences
  // ---------------------------------------------------------------------

  /** `gaps[0] + sep + gaps[1] + sep + ... + gaps[|gaps| - 1]`. */
  function Join(gaps: seq<string>, sep: string): (r: string)
    requires |gaps| > 0
    decreases |gaps|
  {
    if |gaps| == 1 then gaps[0] else gaps[0] + sep + Join(gaps[1..], sep)
  }

  lemma JoinPrepend(c: string, gaps: seq<string>, sep: string)
    requires |gaps| > 0
    ensures Join([c + gaps[0]] + gaps[1..], sep) == c + Join(gaps, sep)
  {
    var g := [c + gaps[0]] + gaps[1..];
    if |gaps| > 1 {
      assert g[1..] == gaps[1..];
    }
  }

  /** The text between the occurrences the scan from `i` replaces. */
  ghost function Gaps(s: string, w: string, ignoreCase: bool, i: nat): (g: seq<string>)
    requires i <= |s|
    ensures |g| > 0
    decreases |s| - i
  {
    if i == |s| then [[]]
    else if WholeWordAt(s, w, i, ignoreCase) then [[]] + Gaps(s, w, ignoreCase, i + |w|)
    else
      var g := Gaps(s, w, ignoreCase, i + 1);
      [[s[i]] + g[0]] + g[1..]
  }

  /** The starts of the occurrences the scan from `i` replaces, in order. */
  ghost function Seams(s: string, w: string, ignoreCase: bool, i: nat): (z: seq<nat>)
    requires i <= |s|
    decreases |s| - i
  {
    if i == |s| then []
    else if WholeWordAt(s, w, i, ignoreCase) then [i] + Seams(s, w, ignoreCase, i + |w|)
    else Seams(s, w, ignoreCase, i + 1)
  }

  /** `z` lists whole-word occurrences of `w` at or after `i`, in increasing
      order and without overlap. */
  ghost predicate Separated(s: string, w: string, ignoreCase: bool, i: nat, z: seq<nat>) {
    && (forall k :: 0 <= k < |z| ==> i <= z[k] && WholeWordAt(s, w, z[k], ignoreCase))
    && (forall k :: 0 <= k < |z| - 1 ==> z[k] + |w| <= z[k + 1])
  }

  /** Where the gap after the `k`-th seam ends: at the next seam, or at `n`. */
  function NextSeam(z: seq<nat>, k: nat, n: nat): nat
  {
    if k < |z| then z[k] else n
  }

  lemma {:induction false} SeamsSeparated(s: string, w: string, ignoreCase: bool, i: nat)
    requires i <= |s|
    ensures Separated(s, w, ignoreCase, i, Seams(s, w, ignoreCase, i))
    decreases |s| - i
  {
    if i == |s| {
      return;
    }
    var z := Seams(s, w, ignoreCase, i);
    if WholeWordAt(s, w, i, ignoreCase) {
      var rest := Seams(s, w, ignoreCase, i + |w|);
      SeamsSeparated(s, w, ignoreCase, i + |w|);
      assert z == [i] + rest;
      forall k | 1 <= k < |z|
        ensures z[k] == rest[k - 1]
      {
      }
    } else {
      SeamsSeparated(s, w, ignoreCase, i + 1);
    }
  }

  /** Every occurrence of `w` at or after `i` overlaps a seam: the seams are a
      maximal set of non-overlapping occurrences, the leftmost first. */
  lemma {:induction false} CoveredInSeam(s: string, w: string, ignoreCase: bool, i: nat, p: int)
    requires i <= |s| && Covered(s, w, ignoreCase, i, p)
    ensures exists k :: 0 <= k < |Seams(s, w, ignoreCase, i)| &&
              Seams(s, w, ignoreCase, i)[k] <= p < Seams(s, w, ignoreCase, i)[k] + |w|
    decreases |s| - i
  {
    var z := Seams(s, w, ignoreCase, i);
    if WholeWordAt(s, w, i, ignoreCase) {
      assert z[0] == i;
      if !(i <= p < i + |w|) {
        var rest := Seams(s, w, ignoreCase, i + |w|);
        CoveredInSeam(s, w, ignoreCase, i + |w|, p);
        var k :| 0 <= k < |rest| && rest[k] <= p < rest[k] + |w|;
        assert z[k + 1] == rest[k];
      }
    } else {
      CoveredInSeam(s, w, ignoreCase, i + 1, p);
    }
  }

  lemma SeamsCoverEveryOccurrence(s: string, w: string, ignoreCase: bool, j: nat)
    requires j < |s| && WholeWordAt(s, w, j, ignoreCase)
    ensures exists k :: 0 <= k < |Seams(s, w, ignoreCase, 0)| &&
              Seams(s, w, ignoreCase, 0)[k] <= j < Seams(s, w, ignoreCase, 0)[k] + |w|
  {
    if !Covered(s, w, ignoreCase, 0, j) {
      UncoveredHasNoMatch(s, w, ignoreCase, 0, j);
    }
    CoveredInSeam(s, w, ignoreCase, 0, j);
  }

  /** `g` is the text of `s[i..]` before the first seam of `z`, between
      consecutive seams, and after the last one. */
  ghost predicate GapsFit(s: string, w: string, i: nat, z: seq<nat>, g: seq<string>) {
    && |g| == |z| + 1
    && i <= NextSeam(z, 0, |s|) <= |s|
    && g[0] == s[i .. NextSeam(z, 0, |s|)]
    && forall k :: 1 <= k <= |z| ==>
         && z[k - 1] + |w| <= NextSeam(z, k, |s|) <= |s|
         && g[k] == s[z[k - 1] + |w| .. NextSeam(z, k, |s|)]
  }

  /** A seam at `i` adds an empty gap in front. */
  lemma GapsFitSeam(s: string, w: string, i: nat, z: seq<nat>, g: seq<string>)
    requires i + |w| <= |s| && GapsFit(s, w, i + |w|, z, g)
    ensures GapsFit(s, w, i, [i] + z, [[]] + g)
  {
    var z' := [i] + z;
    var g' := [[]] + g;
    forall k | 1 <= k <= |z'|
      ensures z'[k - 1] + |w| <= NextSeam(z', k, |s|) <= |s|
      ensures g'[k] == s[z'[k - 1] + |w| .. NextSeam(z', k, |s|)]
    {
      assert g'[k] == g[k - 1];
      assert NextSeam(z', k, |s|) == NextSeam(z, k - 1, |s|);
      if k > 1 {
        assert z'[k - 1] == z[k - 2];
      }
    }
  }

  /** A character that starts no seam joins the first gap. */
  lemma GapsFitChar(s: string, w: string, i: nat, z: seq<nat>, g: seq<string>)
    requires i < |s| && GapsFit(s, w, i + 1, z, g)
    ensures GapsFit(s, w, i, z, [[s[i]] + g[0]] + g[1..])
  {
    var g' := [[s[i]] + g[0]] + g[1..];
    assert s[i .. NextSeam(z, 0, |s|)] == [s[i]] + s[i + 1 .. NextSeam(z, 0, |s|)];
    forall k | 1 <= k <= |z|
      ensures g'[k] == g[k]
    {
    }
  }

  /** The seams are separated occurrences, and the gaps are the text before
      the first seam, between consecutive seams, and after the last one. */
  lemma {:induction false} GapsBetweenSeams(s: string, w: string, ignoreCase: bool, i: nat)
    requires i <= |s|
    ensures Separated(s, w, ignoreCase, i, Seams(s, w, ignoreCase, i))
    ensures GapsFit(s, w, i, Seams(s, w, ignoreCase, i), Gaps(s, w, ignoreCase, i))
    decreases |s| - i
  {
    SeamsSeparated(s, w, ignoreCase, i);
    if i == |s| {
      return;
    }
    if WholeWordAt(s, w, i, ignoreCase) {
      GapsBetweenSeams(s, w, ignoreCase, i + |w|);
      GapsFitSeam(s, w, i, Seams(s, w, ignoreCase, i + |w|), Gaps(s, w, ignoreCase, i + |w|));
    } else {
      GapsBetweenSeams(s, w, ignoreCase, i + 1);
      GapsFitChar(s, w, i, Seams(s, w, ignoreCase, i + 1), Gaps(s, w, ignoreCase, i + 1));
    }
  }

  /** The output is the gaps between the replaced occurrences, joined by
      `repl`: only the occurrences change. */
  lemma {:induction false} SubFromSplits(s: string, w: string, repl: string, ignoreCase: bool, i: nat)
    requires i <= |s|
    ensures SubFrom(s, w, repl, ignoreCase, i) == Join(Gaps(s, w, ignoreCase, i), repl)
    decreases |s| - i
  {
    if i == |s| {
      return;
    }
    if WholeWordAt(s, w, i, ignoreCase) {
      var e := i + |w|;
      var g := Gaps(s, w, ignoreCase, e);
      SubFromSplits(s, w, repl, ignoreCase, e);
      assert ([[]] + g)[1..] == g;
      calc {
        Join(Gaps(s, w, ignoreCase, i), repl);
        Join([[]] + g, repl);
        [] + repl + Join(g, repl);
        { assert [] + repl == repl; }
        repl + SubFrom(s, w, repl, ignoreCase, e);
      }
    } else {
      var g := Gaps(s, w, ignoreCase, i + 1);
      SubFromSplits(s, w, repl, ignoreCase, i + 1);
      JoinPrepend([s[i]], g, repl);
    }
  }

  lemma ExactMatchSlice(s: string, w: string, i: nat)
    requires WholeWordAt(s, w, i, false)
    ensures s[i .. i + |w|] == w
  {
    forall k | 0 <= k < |w|
      ensures s[i .. i + |w|][k] == w[k]
    {
      assert CharMatch(s[i + k], w[k], false);
    }
  }

  /** Without IGNORECASE the input is the same gaps joined by `w` itself. */
  lemma {:induction false} TextSplits(s: string, w: string, i: nat)
    requires i <= |s|
    ensures s[i..] == Join(Gaps(s, w, false, i), w)
    decreases |s| - i
  {
    if i == |s| {
      return;
    }
    if WholeWordAt(s, w, i, false) {
      var e := i + |w|;
      var g := Gaps(s, w, false, e);
      TextSplits(s, w, e);
      assert ([[]] + g)[1..] == g;
      ExactMatchSlice(s, w, i);
      calc {
        Join(Gaps(s, w, false, i), w);
        Join([[]] + g, w);
        [] + w + Join(g, w);
        { assert [] + w == w; }
        s[i .. e] + s[e..];
        s[i..];
      }
    } else {
      var g := Gaps(s, w, false, i + 1);
      TextSplits(s, w, i + 1);
      JoinPrepend([s[i]], g, w);
      assert s[i..] == [s[i]] + s[i + 1..];
    }
  }
}
