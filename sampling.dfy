/**
 * `random.choices(items, k=int(ratio * len(items)))`, the sampler used for
 * words, noun phrases and jiggle candidates: a ratio-sized sample drawn with
 * replacement. The random draws are supplied as `rolls`, one natural number
 * per draw, and draw `k` picks `items[rolls[k] % |items|]`; every index can
 * be drawn, so every outcome of `random.choices` is some choice of rolls.
 */
module Sampling {

  /** `int(ratio * n)` as passed to `random.choices` as `k`: truncated toward
      zero, and a count of zero or less draws nothing. */
  function SampleCount(ratio: real, n: nat): (c: nat)
    ensures ratio <= 0.0 || n == 0 ==> c == 0
    ensures 0.0 < ratio * n as real ==> c as real <= ratio * n as real < c as real + 1.0
    ensures ratio <= 1.0 ==> c <= n
    ensures ratio == 1.0 ==> c == n
  {
    var x := ratio * n as real;
    assert ratio <= 0.0 ==> x <= 0.0 by {
      if ratio <= 0.0 {
        assert x == ratio * n as real <= 0.0 * n as real;
      }
    }
    assert ratio <= 1.0 ==> x <= n as real by {
      if ratio <= 1.0 {
        assert x == ratio * n as real <= 1.0 * n as real;
      }
    }
    if x <= 0.0 then 0 else x.Floor
  }

  /** The sample: one element of `items` per roll, repeats allowed. */
  function Sample<T>(items: seq<T>, ratio: real, rolls: seq<nat>): (r: seq<T>)
    requires |rolls| == SampleCount(ratio, |items|)
    ensures |r| == SampleCount(ratio, |items|)
    ensures forall k :: 0 <= k < |r| ==> r[k] in items
  {
    seq(|rolls|, k requires 0 <= k < |rolls| => items[rolls[k] % |items|])
  }

  ghost function IndexOf<T>(items: seq<T>, x: T): (i: nat)
    requires x in items
    ensures i < |items| && items[i] == x
  {
    if items[0] == x then 0 else 1 + IndexOf(items[1..], x)
  }

  /** Sampling is with replacement: any sequence of the right length made of
      elements of `items`, duplicates included, is a possible sample. */
  lemma EverySampleReachable<T>(items: seq<T>, ratio: real, picks: seq<T>)
    requires |picks| == SampleCount(ratio, |items|)
    requires forall k :: 0 <= k < |picks| ==> picks[k] in items
    ensures exists rolls: seq<nat> :: |rolls| == |picks| && Sample(items, ratio, rolls) == picks
  {
    var rolls: seq<nat> := seq(|picks|, k requires 0 <= k < |picks| => IndexOf(items, picks[k]));
    var r := Sample(items, ratio, rolls);
    forall k | 0 <= k < |picks|
      ensures r[k] == picks[k]
    {
      assert rolls[k] % |items| == rolls[k];
    }
    assert r == picks;
  }
}
