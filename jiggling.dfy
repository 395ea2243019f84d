/**
 * `jiggle_words`: replace a ratio-sized sample of the unredacted words of a
 * text by one of their synonyms.
 *
 * The tokeniser's words, the synonym source (a word's synsets, each a list of
 * lemma names) and the random draws are inputs: `rolls` for the sample of
 * candidate words and, per drawn word, `picks[i]` for `random.choice` over
 * its synonym list.
 */
module Jiggling {
  import opened Text
  import opened Substitution
  import opened Sampling

  /** The words that may be jiggled: those with no block and no space, each
      kept as often as the tokeniser produced it. */
  function Candidates(words: seq<string>): (r: seq<string>)
    ensures |r| <= |words|
    ensures forall x :: x in r <==> x in words && Block !in x && ' ' !in x
    ensures forall x :: multiset(r)[x] == if Block !in x && ' ' !in x then multiset(words)[x] else 0
    decreases |words|
  {
    if words == [] then []
    else
      var prev := Candidates(words[..|words| - 1]);
      var w := words[|words| - 1];
      assert words == words[..|words| - 1] + [w];
      assert multiset(words) == multiset(words[..|words| - 1]) + multiset{w};
      if Block !in w && ' ' !in w then prev + [w] else prev
  }

  /** The lemma names of one synset that differ from `word`, in order. */
  function Others(word: string, lemmas: seq<string>): (r: seq<string>)
    ensures forall x :: x in r <==> x in lemmas && x != word
    decreases |lemmas|
  {
    if lemmas == [] then []
    else
      var prev := Others(word, lemmas[..|lemmas| - 1]);
      var l := lemmas[|lemmas| - 1];
      assert lemmas == lemmas[..|lemmas| - 1] + [l];
      if l != word then prev + [l] else prev
  }

  /** `x` is a lemma name of one of the synsets. */
  ghost predicate InSomeSynset(x: string, synsets: seq<seq<string>>) {
    exists k :: 0 <= k < |synsets| && x in synsets[k]
  }

  lemma InSomeSynsetSplit(synsets: seq<seq<string>>)
    requires |synsets| > 0
    ensures forall x :: InSomeSynset(x, synsets) <==>
      InSomeSynset(x, synsets[..|synsets| - 1]) || x in synsets[|synsets| - 1]
  {
    var n := |synsets| - 1;
    forall x
      ensures InSomeSynset(x, synsets) <==> InSomeSynset(x, synsets[..n]) || x in synsets[n]
    {
      if InSomeSynset(x, synsets) {
        var k :| 0 <= k < |synsets| && x in synsets[k];
        if k < n {
          assert x in synsets[..n][k];
        }
      }
      if InSomeSynset(x, synsets[..n]) {
        var k :| 0 <= k < n && x in synsets[..n][k];
        assert x in synsets[k];
      }
    }
  }

  /** The synonym list of `word`: the lemma names of all its synsets, in
      order, without `word` itself; repeats across synsets are kept. */
  function SynonymList(word: string, synsets: seq<seq<string>>): (r: seq<string>)
    ensures forall x :: x in r <==> x != word && InSomeSynset(x, synsets)
    decreases |synsets|
  {
    if synsets == [] then []
    else
      var n := |synsets| - 1;
      InSomeSynsetSplit(synsets);
      SynonymList(word, synsets[..n]) + Others(word, synsets[n])
  }

  /** The nested loops that build `word_set`, appending each lemma name that
      is not the word itself. */
  method BuildWordSet(word: string, synsets: seq<seq<string>>) returns (wordSet: seq<string>)
    ensures wordSet == SynonymList(word, synsets)
    ensures word !in wordSet
  {
    wordSet := [];
    var i := 0;
    while i < |synsets|
      invariant 0 <= i <= |synsets|
      invariant wordSet == SynonymList(word, synsets[..i])
    {
      var lemmas := synsets[i];
      var j := 0;
      while j < |lemmas|
        invariant 0 <= j <= |lemmas|
        invariant wordSet == SynonymList(word, synsets[..i]) + Others(word, lemmas[..j])
      {
        assert lemmas[..j + 1][..j] == lemmas[..j];
        if lemmas[j] != word {
          wordSet := wordSet + [lemmas[j]];
        }
        j := j + 1;
      }
      assert synsets[..i + 1][..i] == synsets[..i];
      assert lemmas[..j] == lemmas;
      i := i + 1;
    }
    assert synsets[..i] == synsets;
  }

  datatype Option<T> = None | Some(value: T)

  /** `random.choice(word_set)` when the list is non-empty: the replacement
      for `word`, never `word` itself and always one of its lemma names. */
  function ChosenSynonym(word: string, synsets: seq<seq<string>>, pick: nat): (o: Option<string>)
    ensures o.None? <==> SynonymList(word, synsets) == []
    ensures o.Some? ==> o.value in SynonymList(word, synsets)
    ensures o.Some? ==> o.value != word && InSomeSynset(o.value, synsets)
  {
    var ws := SynonymList(word, synsets);
    if ws == [] then None
    else
      var x := ws[pick % |ws|];
      assert x in ws;
      Some(x)
  }

  /** One pass of the loop: with a synonym, the case-sensitive whole-word
      occurrences of `word` that the left-to-right scan reaches (those no
      earlier replaced occurrence overlaps) are replaced by it; without one,
      the text is kept. */
  function JiggleStep(text: string, word: string, synsets: seq<seq<string>>, pick: nat): (r: string)
    requires |word| > 0
    ensures ChosenSynonym(word, synsets, pick).None? ==> r == text
    ensures (forall j :: 0 <= j < |text| ==> !WholeWordAt(text, word, j, false)) ==> r == text
  {
    match ChosenSynonym(word, synsets, pick)
    case None => text
    case Some(synonym) => WholeWordSub(text, word, synonym, false)
  }

  /** With a synonym, the text is the pieces between separated whole-word
      occurrences of `word` (seams that leave no occurrence uncovered,
      `SeamsCoverEveryOccurrence`) joined by `word`, and the result is the
      same pieces joined by the synonym: nothing but the replaced occurrences
      changes. */
  lemma JiggleStepReplacesOccurrences(text: string, word: string, synsets: seq<seq<string>>, pick: nat)
    requires |word| > 0 && ChosenSynonym(word, synsets, pick).Some?
    ensures Separated(text, word, false, 0, Seams(text, word, false, 0))
    ensures GapsFit(text, word, 0, Seams(text, word, false, 0), Gaps(text, word, false, 0))
    ensures text == Join(Gaps(text, word, false, 0), word)
    ensures JiggleStep(text, word, synsets, pick) ==
              Join(Gaps(text, word, false, 0), ChosenSynonym(word, synsets, pick).value)
  {
    GapsBetweenSeams(text, word, false, 0);
    TextSplits(text, word, 0);
    SubFromSplits(text, word, ChosenSynonym(word, synsets, pick).value, false, 0);
  }

  /** The jiggle loop over the drawn words, in order. */
  function JiggleAll(text: string, drawn: seq<string>, synsets: string -> seq<seq<string>>,
                     picks: seq<nat>): (r: string)
    requires |picks| == |drawn|
    requires forall k :: 0 <= k < |drawn| ==> |drawn[k]| > 0
    decreases |drawn|
  {
    if drawn == [] then text
    else
      var n := |drawn| - 1;
      JiggleStep(JiggleAll(text, drawn[..n], synsets, picks[..n]), drawn[n], synsets(drawn[n]), picks[n])
  }

  /** Words without synonyms leave the text as it is. */
  lemma {:induction false} JiggleAllNoSynonyms(text: string, drawn: seq<string>,
                                               synsets: string -> seq<seq<string>>, picks: seq<nat>)
    requires |picks| == |drawn|
    requires forall k :: 0 <= k < |drawn| ==> |drawn[k]| > 0
    requires forall k :: 0 <= k < |drawn| ==> SynonymList(drawn[k], synsets(drawn[k])) == []
    ensures JiggleAll(text, drawn, synsets, picks) == text
    decreases |drawn|
  {
    if drawn != [] {
      var n := |drawn| - 1;
      JiggleAllNoSynonyms(text, drawn[..n], synsets, picks[..n]);
    }
  }

  /** The empty text stays empty whatever is drawn. */
  lemma {:induction false} JiggleAllEmptyText(drawn: seq<string>, synsets: string -> seq<seq<string>>,
                                              picks: seq<nat>)
    requires |picks| == |drawn|
    requires forall k :: 0 <= k < |drawn| ==> |drawn[k]| > 0
    ensures JiggleAll([], drawn, synsets, picks) == []
    decreases |drawn|
  {
    if drawn != [] {
      var n := |drawn| - 1;
      JiggleAllEmptyText(drawn[..n], synsets, picks[..n]);
    }
  }

  /** Every drawn candidate is one of the words, so it is non-empty when
      every word is. */
  lemma DrawnAreNonEmpty(words: seq<string>, rate: real, rolls: seq<nat>)
    requires forall k :: 0 <= k < |words| ==> |words[k]| > 0
    requires |rolls| == SampleCount(rate, |Candidates(words)|)
    ensures forall k :: 0 <= k < |rolls| ==> |Sample(Candidates(words), rate, rolls)[k]| > 0
  {
    var drawn := Sample(Candidates(words), rate, rolls);
    forall k | 0 <= k < |drawn|
      ensures |drawn[k]| > 0
    {
      var x := drawn[k];
      assert x in words;
      var m :| 0 <= m < |words| && words[m] == x;
    }
  }

  /** `jiggle_words` with the tokeniser's `words` (never empty strings), the
      synonym source and the random draws as inputs: the text with each drawn
      candidate jiggled in order. */
  method JiggleWords(text: string, words: seq<string>, rate: real, rolls: seq<nat>,
                     synsets: string -> seq<seq<string>>, picks: seq<nat>) returns (r: string)
    requires forall k :: 0 <= k < |words| ==> |words[k]| > 0
    requires |rolls| == SampleCount(rate, |Candidates(words)|)
    requires |picks| == |rolls|
    ensures forall k :: 0 <= k < |rolls| ==> |Sample(Candidates(words), rate, rolls)[k]| > 0
    ensures r == JiggleAll(text, Sample(Candidates(words), rate, rolls), synsets, picks)
  {
    DrawnAreNonEmpty(words, rate, rolls);
    var drawn := Sample(Candidates(words), rate, rolls);
    r := text;
    var i := 0;
    while i < |drawn|
      invariant 0 <= i <= |drawn|
      invariant r == JiggleAll(text, drawn[..i], synsets, picks[..i])
    {
      var word := drawn[i];
      var wordSet := BuildWordSet(word, synsets(word));
      if |wordSet| > 0 {
        var newWord := wordSet[picks[i] % |wordSet|];
        r := WholeWordSub(r, word, newWord, false);
      }
      assert drawn[..i + 1][..i] == drawn[..i];
      assert picks[..i + 1][..i] == picks[..i];
      i := i + 1;
    }
    assert drawn[..i] == drawn && picks[..i] == picks;
  }
}
