/**
 * `redact_tweet`: mask usernames and URLs, then redact a ratio-sized sample
 * of the words and of the noun phrases, each occurrence of a drawn item that the
 * scan reaches becoming a block run of the item's length.
 *
 * The word and noun-phrase lists come from the tokeniser and are inputs; the
 * random draws are the `rolls` of `Sampling.Sample`.
 */
module Redaction {
  import opened Text
  import opened Substitution
  import opened Masking
  import opened Sampling

  /** `s[p]` lies inside some case-insensitive whole-word occurrence of `w`. */
  ghost predicate InOccurrence(s: string, w: string, p: int) {
    exists st: nat :: st <= p < st + |w| && WholeWordAt(s, w, st, true)
  }

  /** One redaction step: every case-insensitive whole-word occurrence of `w`
      that the left-to-right scan reaches becomes `|w|` blocks. The length is kept and characters change only to
      blocks; `RedactTouchesOccurrences` says which ones. */
  function Redact(s: string, w: string): (r: string)
    ensures |r| == |s|
    ensures BlockRefines(s, r)
  {
    BlockSubShape(s, w, true, 0);
    WholeWordSub(s, w, Blocks(|w|), true)
  }

  /** A redaction step changes characters only inside occurrences of `w`, and
      hits every occurrence (one overlapping an earlier occurrence at least at
      its first character; `RedactFullOccurrence` gives the rest). */
  lemma RedactTouchesOccurrences(s: string, w: string)
    ensures forall p :: 0 <= p < |s| && Redact(s, w)[p] != s[p] ==> InOccurrence(s, w, p)
    ensures forall st: nat :: st < |s| && WholeWordAt(s, w, st, true) ==> Redact(s, w)[st] == Block
  {
    var r := Redact(s, w);
    RedactCovered(s, w);
    forall p | 0 <= p < |s| && r[p] != s[p]
      ensures InOccurrence(s, w, p)
    {
      var st := CoverStart(s, w, true, 0, p);
    }
    forall st: nat | st < |s| && WholeWordAt(s, w, st, true)
      ensures r[st] == Block
    {
      if !Covered(s, w, true, 0, st) {
        UncoveredHasNoMatch(s, w, true, 0, st);
      }
    }
  }

  /** The characters a redaction step blocks are exactly the occurrences the
      left-to-right scan replaces. */
  lemma RedactCovered(s: string, w: string)
    ensures forall p :: 0 <= p < |s| ==>
      Redact(s, w)[p] == if Covered(s, w, true, 0, p) then Block else s[p]
  {
    BlockSubShape(s, w, true, 0);
  }

  /** An occurrence that no earlier occurrence overlaps becomes `|w|` blocks. */
  lemma RedactFullOccurrence(s: string, w: string, st: nat)
    requires WholeWordAt(s, w, st, true)
    requires forall j: nat :: j < st && st < j + |w| ==> !WholeWordAt(s, w, j, true)
    ensures Redact(s, w)[st .. st + |w|] == Blocks(|w|)
  {
    EarliestOccurrenceCovered(s, w, true, 0, st);
    RedactCovered(s, w);
    var r := Redact(s, w);
    forall q | 0 <= q < |w|
      ensures r[st .. st + |w|][q] == Blocks(|w|)[q]
    {
      assert Covered(s, w, true, 0, st + q);
    }
  }

  /** A block never matches a character of a word that has no block, so an
      occurrence of such a word in a redacted text avoids the blocks. */
  lemma BlockMatchesNothing(w: string, c: char, k: nat)
    requires Block !in w && k < |w| && CharMatch(c, w[k], true)
    ensures c != Block
  {
  }

  /** `t` is `s` with exactly the scanned occurrences of `w` blocked. */
  ghost predicate BlockedScan(s: string, w: string, t: string) {
    && |t| == |s|
    && forall p :: 0 <= p < |s| ==> t[p] == if Covered(s, w, true, 0, p) then Block else s[p]
  }

  /** An occurrence in the redacted text lies on characters the step kept. */
  lemma OccurrenceAvoidsBlocks(s: string, w: string, t: string, j: nat)
    requires Block !in w && BlockedScan(s, w, t) && WholeWordAt(t, w, j, true)
    ensures forall q :: j <= q < j + |w| ==> !Covered(s, w, true, 0, q) && t[q] == s[q]
  {
    forall q | j <= q < j + |w|
      ensures !Covered(s, w, true, 0, q) && t[q] == s[q]
    {
      BlockMatchesNothing(w, t[q], q - j);
    }
  }

  /** The character before such an occurrence is a word character in `t`
      exactly when it is one in `s`. */
  lemma LeftNeighbourKept(s: string, w: string, t: string, j: nat)
    requires Block !in w && BlockedScan(s, w, t) && WholeWordAt(t, w, j, true)
    ensures IsWordAt(s, j - 1) == IsWordAt(t, j - 1)
  {
    OccurrenceAvoidsBlocks(s, w, t, j);
    if 0 < j && Covered(s, w, true, 0, j - 1) {
      var st := CoverStart(s, w, true, 0, j - 1);
      assert st + |w| == j;
    }
  }

  /** Likewise for the character after it. */
  lemma RightNeighbourKept(s: string, w: string, t: string, j: nat)
    requires Block !in w && BlockedScan(s, w, t) && WholeWordAt(t, w, j, true)
    ensures IsWordAt(s, j + |w|) == IsWordAt(t, j + |w|)
  {
    OccurrenceAvoidsBlocks(s, w, t, j);
    var e := j + |w|;
    if e < |s| && Covered(s, w, true, 0, e) {
      var st := CoverStart(s, w, true, 0, e);
      assert st == e;
    }
  }

  /** After a redaction step no occurrence of `w` is left. */
  lemma RedactLeavesNoOccurrence(s: string, w: string, j: nat)
    requires Block !in w
    ensures !WholeWordAt(Redact(s, w), w, j, true)
  {
    var t := Redact(s, w);
    if WholeWordAt(t, w, j, true) {
      RedactCovered(s, w);
      OccurrenceAvoidsBlocks(s, w, t, j);
      LeftNeighbourKept(s, w, t, j);
      RightNeighbourKept(s, w, t, j);
      assert WholeWordAt(s, w, j, true);
      UncoveredHasNoMatch(s, w, true, 0, j);
      assert false;
    }
  }

  /** The limit of `RedactLeavesNoOccurrence` is needed: the item `█` is a
      whole-word occurrence in `a█b`, and redacting it gives the same text. */
  lemma BlockItemSurvives()
    ensures WholeWordAt(Redact("a\U{2588}b", [Block]), [Block], 1, true)
  {
    var s := "a\U{2588}b";
    assert WholeWordAt(s, [Block], 1, true);
    RedactCovered(s, [Block]);
    forall p | 0 <= p < |s|
      ensures Redact(s, [Block])[p] == s[p]
    {
      if Covered(s, [Block], true, 0, p) {
        var st := CoverStart(s, [Block], true, 0, p);
        assert st == p && CharMatch(s[st + 0], [Block][0], true);
      }
    }
    assert Redact(s, [Block]) == s;
  }

  /** Redacting the same word twice is redacting it once. */
  lemma RedactIdempotent(s: string, w: string)
    requires Block !in w
    ensures Redact(Redact(s, w), w) == Redact(s, w)
  {
    var t := Redact(s, w);
    forall j | 0 <= j < |t|
      ensures !WholeWordAt(t, w, j, true)
    {
      RedactLeavesNoOccurrence(s, w, j);
    }
  }

  /** The redaction loop over the drawn items, in order. */
  function RedactAll(s: string, ws: seq<string>): (r: string)
    ensures |r| == |s|
    ensures BlockRefines(s, r)
    decreases |ws|
  {
    if ws == [] then s
    else
      var prev := RedactAll(s, ws[..|ws| - 1]);
      BlockRefinesTransitive(s, prev, Redact(prev, ws[|ws| - 1]));
      Redact(prev, ws[|ws| - 1])
  }

  lemma RedactAllSnoc(s: string, ws: seq<string>, w: string)
    ensures RedactAll(s, ws + [w]) == Redact(RedactAll(s, ws), w)
  {
    assert (ws + [w])[..|ws|] == ws;
  }

  /** Drawing the same item twice in a row redacts as drawing it once. */
  lemma RedactAllRepeat(s: string, ws: seq<string>, w: string)
    requires Block !in w
    ensures RedactAll(s, ws + [w, w]) == RedactAll(s, ws + [w])
  {
    RedactAllSnoc(s, ws + [w], w);
    assert ws + [w] + [w] == ws + [w, w];
    RedactAllSnoc(s, ws, w);
    RedactIdempotent(RedactAll(s, ws), w);
  }

  /** One of the two redaction loops: the drawn items are redacted in the
      order drawn. */
  method RedactEach(t: string, drawn: seq<string>) returns (r: string)
    ensures r == RedactAll(t, drawn)
  {
    r := t;
    var i := 0;
    while i < |drawn|
      invariant 0 <= i <= |drawn|
      invariant r == RedactAll(t, drawn[..i])
    {
      assert drawn[..i + 1] == drawn[..i] + [drawn[i]];
      RedactAllSnoc(t, drawn[..i], drawn[i]);
      r := Redact(r, drawn[i]);
      i := i + 1;
    }
    assert drawn[..i] == drawn;
  }

  /** `redact_tweet` with the tokeniser's `words` and `nouns` and the random
      draws as inputs. The result is the masked text with the drawn words and
      then the drawn noun phrases redacted in order; it is as long as the
      input, differs from it only by blocks, keeps every block of the mask and
      has no username left. */
  method RedactTweet(text: string, words: seq<string>, nouns: seq<string>,
                     wordRatio: real, nounRatio: real,
                     wordRolls: seq<nat>, nounRolls: seq<nat>) returns (r: string)
    requires |wordRolls| == SampleCount(wordRatio, |words|)
    requires |nounRolls| == SampleCount(nounRatio, |nouns|)
    ensures r == RedactAll(RedactAll(Mask(text), Sample(words, wordRatio, wordRolls)),
                           Sample(nouns, nounRatio, nounRolls))
    ensures |r| == |text|
    ensures BlockRefines(text, r) && BlockRefines(Mask(text), r)
    ensures UsernameFree(r)
  {
    var masked := MaskUsernames(text);
    masked := MaskUrls(masked);
    assert masked == Mask(text);
    var afterWords := RedactEach(masked, Sample(words, wordRatio, wordRolls));
    r := RedactEach(afterWords, Sample(nouns, nounRatio, nounRolls));
    BlockRefinesTransitive(masked, afterWords, r);
    BlockRefinesTransitive(text, masked, r);
    UsernameFreeUnderBlocking(masked, r);
  }
}
