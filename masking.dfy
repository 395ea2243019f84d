/**
 * The two length-preserving masks that `redact_tweet` applies before any
 * redaction: `re.sub(r'@(\w+)', ...)` for usernames and
 * `re.sub(r'\b(https?://)(\S+)', ...)` for URLs.
 *
 * Each `re.sub` is a left-to-right scan (`...From(s, i)` consumes `s[i..]`)
 * that, after a match, resumes where the match ended. Each scan is proved
 * equal, character by character, to an independent description of which
 * characters end up masked (`InHandle`, `InUrlTail`).
 */
module Masking {
  import opened Text

  /** Length of the maximal run of word characters that starts at `i`. */
  function WordRun(s: string, i: nat): (n: nat)
    requires i <= |s|
    ensures i + n <= |s|
    ensures forall k :: i <= k < i + n ==> IsWordChar(s[k])
    ensures i + n < |s| ==> !IsWordChar(s[i + n])
    decreases |s| - i
  {
    if i < |s| && IsWordChar(s[i]) then 1 + WordRun(s, i + 1) else 0
  }

  /** Length of the maximal run of non-whitespace characters that starts at `i`. */
  function NonSpaceRun(s: string, i: nat): (n: nat)
    requires i <= |s|
    ensures i + n <= |s|
    ensures forall k :: i <= k < i + n ==> !IsSpace(s[k])
    ensures i + n < |s| ==> IsSpace(s[i + n])
    decreases |s| - i
  {
    if i < |s| && !IsSpace(s[i]) then 1 + NonSpaceRun(s, i + 1) else 0
  }

  // ---------------------------------------------------------------------
  // Usernames: @(\w+)  ->  '@' + one block per character of the handle
  // ---------------------------------------------------------------------

  /** `s[p]` belongs to a handle: it is a word character and the maximal run
      of word characters that holds it is directly preceded by '@'. */
  predicate InHandle(s: string, p: nat)
    requires p < |s|
    decreases p
  {
    IsWordChar(s[p]) && p > 0 && (s[p - 1] == '@' || InHandle(s, p - 1))
  }

  /** The scan of `re.sub(r'@(\w+)', replace_usernames, s)` from position `i`. */
  function MaskUsernamesFrom(s: string, i: nat): (r: string)
    requires i <= |s|
    decreases |s| - i
  {
    if i == |s| then []
    else if s[i] == '@' && i + 1 < |s| && IsWordChar(s[i + 1]) then
      var n := WordRun(s, i + 1);
      ['@'] + Blocks(n) + MaskUsernamesFrom(s, i + 1 + n)
    else
      [s[i]] + MaskUsernamesFrom(s, i + 1)
  }

  lemma {:induction false} HandleRun(s: string, i: nat, m: nat)
    requires i < m < |s| && s[i] == '@'
    requires forall k :: i < k <= m ==> IsWordChar(s[k])
    ensures InHandle(s, m)
    decreases m
  {
    if m > i + 1 {
      HandleRun(s, i, m - 1);
    }
  }

  /** Every position the scan reaches lies outside any handle, and from such
      a position the scan masks exactly the handle characters. */
  lemma {:induction false} MaskUsernamesFromSpec(s: string, i: nat)
    requires i <= |s|
    requires i < |s| ==> !InHandle(s, i)
    ensures |MaskUsernamesFrom(s, i)| == |s| - i
    ensures forall p :: i <= p < |s| ==>
      MaskUsernamesFrom(s, i)[p - i] == if InHandle(s, p) then Block else s[p]
    decreases |s| - i
  {
    if i == |s| {
      return;
    }
    var r := MaskUsernamesFrom(s, i);
    if s[i] == '@' && i + 1 < |s| && IsWordChar(s[i + 1]) {
      var n := WordRun(s, i + 1);
      var e := i + 1 + n;
      var rest := MaskUsernamesFrom(s, e);
      assert r == ['@'] + Blocks(n) + rest;
      MaskUsernamesFromSpec(s, e);
      forall p | i <= p < |s|
        ensures r[p - i] == if InHandle(s, p) then Block else s[p]
      {
        if p == i {
        } else if p < e {
          HandleRun(s, i, p);
          assert r[p - i] == Blocks(n)[p - i - 1];
        } else {
          assert r[p - i] == rest[p - e];
        }
      }
    } else {
      var rest := MaskUsernamesFrom(s, i + 1);
      assert r == [s[i]] + rest;
      MaskUsernamesFromSpec(s, i + 1);
      forall p | i <= p < |s|
        ensures r[p - i] == if InHandle(s, p) then Block else s[p]
      {
        if p > i {
          assert r[p - i] == rest[p - i - 1];
        }
      }
    }
  }

  /** `re.sub(r'@(\w+)', replace_usernames, s)`: exactly the handle
      characters become blocks; the '@' and everything else stay. */
  function MaskUsernames(s: string): (r: string)
    ensures |r| == |s|
    ensures forall p :: 0 <= p < |s| ==> r[p] == if InHandle(s, p) then Block else s[p]
  {
    MaskUsernamesFromSpec(s, 0);
    MaskUsernamesFrom(s, 0)
  }

  /** No '@' is directly followed by a word character, so `@(\w+)` has no match. */
  predicate UsernameFree(s: string) {
    forall p :: 0 <= p < |s| - 1 && s[p] == '@' ==> !IsWordChar(s[p + 1])
  }

  /** An '@' followed by a handle keeps its '@' and the handle becomes one
      block per character, e.g. "@alice" becomes '@' and five blocks. */
  lemma MaskUsernamesHandle(s: string, i: nat)
    requires i + 1 < |s| && s[i] == '@' && IsWordChar(s[i + 1])
    ensures MaskUsernames(s)[i] == '@'
    ensures MaskUsernames(s)[i + 1 .. i + 1 + WordRun(s, i + 1)] == Blocks(WordRun(s, i + 1))
  {
    var n := WordRun(s, i + 1);
    forall m | i + 1 <= m < i + 1 + n
      ensures MaskUsernames(s)[m] == Block
    {
      HandleRun(s, i, m);
    }
  }

  lemma MaskUsernamesLeavesNone(s: string)
    ensures UsernameFree(MaskUsernames(s))
  {
  }

  lemma {:induction false} FreeHasNoHandle(s: string, p: nat)
    requires UsernameFree(s) && p < |s|
    ensures !InHandle(s, p)
    decreases p
  {
    if p > 0 {
      FreeHasNoHandle(s, p - 1);
    }
  }

  /** A text without "@" + word character is a fixed point of username masking. */
  lemma UsernameFreeIsFixed(s: string)
    requires UsernameFree(s)
    ensures MaskUsernames(s) == s
  {
    forall p | 0 <= p < |s|
      ensures !InHandle(s, p)
    {
      FreeHasNoHandle(s, p);
    }
  }

  /** Blocking characters cannot create a username: the block is not '@'
      and not a word character. */
  lemma UsernameFreeUnderBlocking(s: string, t: string)
    requires UsernameFree(s) && BlockRefines(s, t)
    ensures UsernameFree(t)
  {
  }

  // ---------------------------------------------------------------------
  // URLs: \b(https?://)(\S+)  ->  scheme + one block per tail character
  // ---------------------------------------------------------------------

  /** "http://" starts at `i`. */
  predicate HttpAt(s: string, i: nat) {
    && i + 7 <= |s|
    && s[i] == 'h' && s[i + 1] == 't' && s[i + 2] == 't' && s[i + 3] == 'p'
    && s[i + 4] == ':' && s[i + 5] == '/' && s[i + 6] == '/'
  }

  /** "https://" starts at `i`. */
  predicate HttpsAt(s: string, i: nat) {
    && i + 8 <= |s|
    && s[i] == 'h' && s[i + 1] == 't' && s[i + 2] == 't' && s[i + 3] == 'p'
    && s[i + 4] == 's' && s[i + 5] == ':' && s[i + 6] == '/' && s[i + 7] == '/'
  }

  /** Length of the `https?://` that starts at `i`, 0 if there is none
      (the optional 's' is greedy, so "https://" is tried first). */
  function SchemeLength(s: string, i: nat): (k: nat) {
    if HttpsAt(s, i) then 8
    else if HttpAt(s, i) then 7
    else 0
  }

  /** `\b(https?://)(\S+)` matches at `i`: a word boundary, the scheme and at
      least one non-whitespace character after it. */
  predicate UrlAt(s: string, i: nat) {
    var k := SchemeLength(s, i);
    i < |s| && Boundary(s, i) && k > 0 && i + k < |s| && !IsSpace(s[i + k])
  }

  lemma SchemeChars(s: string, i: nat)
    requires SchemeLength(s, i) > 0
    ensures i + SchemeLength(s, i) <= |s| && s[i] == 'h'
    ensures forall m :: i < m < i + SchemeLength(s, i) ==> s[m] != 'h'
    ensures forall m :: i <= m < i + SchemeLength(s, i) ==> !IsSpace(s[m]) && s[m] != Block
  {
  }

  /** The scan of `re.sub(r'\b(https?://)(\S+)', replace_urls, s)` from `i`. */
  function MaskUrlsFrom(s: string, i: nat): (r: string)
    requires i <= |s|
    decreases |s| - i
  {
    if i == |s| then []
    else if UrlAt(s, i) then
      var k := SchemeLength(s, i);
      var n := NonSpaceRun(s, i + k);
      s[i .. i + k] + Blocks(n) + MaskUrlsFrom(s, i + k + n)
    else
      [s[i]] + MaskUrlsFrom(s, i + 1)
  }

  /** A URL scheme (at a match position) ends right before `p`. */
  predicate SchemeEndsAt(s: string, p: nat) {
    || (p >= 7 && UrlAt(s, p - 7) && SchemeLength(s, p - 7) == 7)
    || (p >= 8 && UrlAt(s, p - 8) && SchemeLength(s, p - 8) == 8)
  }

  /** `s[p]` is in a URL tail: it is not whitespace, and the non-whitespace
      run from a scheme's end reaches it. */
  predicate InUrlTail(s: string, p: nat)
    requires p < |s|
    decreases p
  {
    !IsSpace(s[p]) && (SchemeEndsAt(s, p) || (p > 0 && InUrlTail(s, p - 1)))
  }

  lemma {:induction false} SchemeNotTail(s: string, i: nat, p: nat)
    requires UrlAt(s, i) && !InUrlTail(s, i)
    requires i <= p < i + SchemeLength(s, i)
    ensures !InUrlTail(s, p)
    decreases p
  {
    SchemeChars(s, i);
    if p > i {
      SchemeNotTail(s, i, p - 1);
      if SchemeEndsAt(s, p) {
        var j := if p >= 7 && UrlAt(s, p - 7) && SchemeLength(s, p - 7) == 7 then p - 7 else p - 8;
        SchemeChars(s, j);
        assert false;
      }
    }
  }

  lemma {:induction false} TailRun(s: string, i: nat, p: nat)
    requires UrlAt(s, i)
    requires i + SchemeLength(s, i) <= p < i + SchemeLength(s, i) + NonSpaceRun(s, i + SchemeLength(s, i))
    ensures InUrlTail(s, p)
    decreases p
  {
    if p > i + SchemeLength(s, i) {
      TailRun(s, i, p - 1);
    }
  }

  /** What holds at every position the URL scan reaches: it is not inside a
      tail, and every scheme that starts before it has ended. */
  ghost predicate UrlScanClear(s: string, i: nat)
    requires i <= |s|
  {
    && (i < |s| ==> !InUrlTail(s, i))
    && forall j :: 0 <= j < i && UrlAt(s, j) ==> j + SchemeLength(s, j) <= i
  }

  lemma UrlStepClear(s: string, i: nat)
    requires i < |s| && UrlScanClear(s, i) && !UrlAt(s, i)
    ensures UrlScanClear(s, i + 1)
  {
  }

  lemma UrlJumpClear(s: string, i: nat)
    requires i < |s| && UrlScanClear(s, i) && UrlAt(s, i)
    ensures var k := SchemeLength(s, i);
            UrlScanClear(s, i + k + NonSpaceRun(s, i + k))
  {
    var k := SchemeLength(s, i);
    var e := i + k + NonSpaceRun(s, i + k);
    SchemeChars(s, i);
    forall j | 0 <= j < e && UrlAt(s, j)
      ensures j + SchemeLength(s, j) <= e
    {
      if i < j < i + k {
        SchemeChars(s, j);
        assert false;
      } else if i + k <= j {
        SchemeChars(s, j);
        if j + SchemeLength(s, j) > e {
          assert false;
        }
      }
    }
  }

  /** The URL scan from `i` blocks exactly the tail characters of `s[i..]`. */
  ghost predicate UrlScanMatches(s: string, i: nat)
    requires i <= |s|
  {
    && |MaskUrlsFrom(s, i)| == |s| - i
    && forall p :: i <= p < |s| ==>
         MaskUrlsFrom(s, i)[p - i] == if InUrlTail(s, p) then Block else s[p]
  }

  lemma UrlMatchStep(s: string, i: nat)
    requires i < |s| && !InUrlTail(s, i) && UrlAt(s, i)
    requires UrlScanMatches(s, i + SchemeLength(s, i) + NonSpaceRun(s, i + SchemeLength(s, i)))
    ensures UrlScanMatches(s, i)
  {
    var r := MaskUrlsFrom(s, i);
    var k := SchemeLength(s, i);
    var n := NonSpaceRun(s, i + k);
    var e := i + k + n;
    var rest := MaskUrlsFrom(s, e);
    assert r == s[i .. i + k] + Blocks(n) + rest;
    forall p | i <= p < |s|
      ensures r[p - i] == if InUrlTail(s, p) then Block else s[p]
    {
      if p < i + k {
        SchemeNotTail(s, i, p);
        assert r[p - i] == s[i .. i + k][p - i];
      } else if p < e {
        TailRun(s, i, p);
        assert r[p - i] == Blocks(n)[p - i - k];
      } else {
        assert r[p - i] == rest[p - e];
      }
    }
  }

  lemma UrlNoMatchStep(s: string, i: nat)
    requires i < |s| && !InUrlTail(s, i) && !UrlAt(s, i)
    requires UrlScanMatches(s, i + 1)
    ensures UrlScanMatches(s, i)
  {
    var r := MaskUrlsFrom(s, i);
    var rest := MaskUrlsFrom(s, i + 1);
    assert r == [s[i]] + rest;
    assert r[0] == s[i];
    assert forall q :: 1 <= q < |r| ==> r[q] == rest[q - 1];
  }

  /** From a position the scan reaches, the scan blocks exactly the tail
      characters. */
  lemma {:induction false} MaskUrlsFromSpec(s: string, i: nat)
    requires i <= |s| && UrlScanClear(s, i)
    ensures UrlScanMatches(s, i)
    decreases |s| - i
  {
    if i == |s| {
      return;
    }
    if UrlAt(s, i) {
      var k := SchemeLength(s, i);
      UrlJumpClear(s, i);
      MaskUrlsFromSpec(s, i + k + NonSpaceRun(s, i + k));
      UrlMatchStep(s, i);
    } else {
      UrlStepClear(s, i);
      MaskUrlsFromSpec(s, i + 1);
      UrlNoMatchStep(s, i);
    }
  }

  /** `re.sub(r'\b(https?://)(\S+)', replace_urls, s)`: exactly the URL tail
      characters become blocks; the scheme and everything else stay. */
  function MaskUrls(s: string): (r: string)
    ensures |r| == |s|
    ensures forall p :: 0 <= p < |s| ==> r[p] == if InUrlTail(s, p) then Block else s[p]
  {
    MaskUrlsFromSpec(s, 0);
    MaskUrlsFrom(s, 0)
  }

  /** At a URL outside any earlier URL's tail, the scheme is kept exactly and
      the non-whitespace run after it becomes that many blocks. */
  lemma MaskUrlsKeepsScheme(s: string, i: nat)
    requires UrlAt(s, i) && !InUrlTail(s, i)
    ensures forall p :: i <= p < i + SchemeLength(s, i) ==> MaskUrls(s)[p] == s[p]
    ensures forall p :: i + SchemeLength(s, i) <= p < i + SchemeLength(s, i) + NonSpaceRun(s, i + SchemeLength(s, i)) ==>
      MaskUrls(s)[p] == Block
  {
    var k := SchemeLength(s, i);
    forall p | i <= p < i + k
      ensures MaskUrls(s)[p] == s[p]
    {
      SchemeNotTail(s, i, p);
    }
    forall p | i + k <= p < i + k + NonSpaceRun(s, i + k)
      ensures MaskUrls(s)[p] == Block
    {
      TailRun(s, i, p);
    }
  }

  /** Re-masking sees no tail character that is not already a block. */
  lemma {:induction false} TailOfMasked(s: string, p: nat)
    requires p < |s| && InUrlTail(MaskUrls(s), p)
    ensures InUrlTail(s, p)
    decreases p
  {
    var t := MaskUrls(s);
    assert !IsSpace(s[p]) by {
      assert t[p] == s[p] || InUrlTail(s, p);
    }
    if p > 0 && InUrlTail(t, p - 1) {
      TailOfMasked(s, p - 1);
    } else {
      assert SchemeEndsAt(t, p);
      var j := if p >= 7 && UrlAt(t, p - 7) && SchemeLength(t, p - 7) == 7 then p - 7 else p - 8;
      var k := SchemeLength(t, j);
      assert UrlAt(t, j) && j + k == p;
      SchemeChars(t, j);
      forall q | j <= q < p
        ensures s[q] == t[q]
      {
        assert t[q] != Block;
      }
      assert SchemeLength(s, j) == k;
      if j > 0 && InUrlTail(s, j - 1) {
        assert InUrlTail(s, j);
        assert false;
      }
      assert j > 0 ==> s[j - 1] == t[j - 1];
      assert UrlAt(s, j);
      assert SchemeEndsAt(s, p);
    }
  }

  lemma MaskUrlsIdempotent(s: string)
    ensures MaskUrls(MaskUrls(s)) == MaskUrls(s)
  {
    var t := MaskUrls(s);
    forall p | 0 <= p < |t| && InUrlTail(t, p)
      ensures InUrlTail(s, p)
    {
      TailOfMasked(s, p);
    }
  }

  // ---------------------------------------------------------------------
  // Both masks, in the order redact_tweet applies them
  // ---------------------------------------------------------------------

  /** Usernames first, then URLs over the username-masked text. The result
      has the input's length, differs from it only by blocks, and has no
      username left. */
  function Mask(s: string): (r: string)
    ensures |r| == |s|
    ensures BlockRefines(s, r)
    ensures UsernameFree(r)
  {
    var u := MaskUsernames(s);
    MaskUsernamesLeavesNone(s);
    UsernameFreeUnderBlocking(u, MaskUrls(u));
    MaskUrls(u)
  }

  /** Masking an already masked text changes nothing. */
  lemma MaskIdempotent(s: string)
    ensures Mask(Mask(s)) == Mask(s)
  {
    var u := MaskUsernames(s);
    var t := Mask(s);
    UsernameFreeIsFixed(t);
    MaskUrlsIdempotent(u);
  }
}
