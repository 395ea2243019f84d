/**
 * Characters and positions in a tweet's text.
 *
 * A text is a `string` (a sequence of Unicode scalar values). The regular
 * expressions of the bot use three character classes: `\w` (word
 * characters), `\s` (whitespace) and, under IGNORECASE, a case fold. They are
 * given concrete definitions here; the block glyph U+2588 is in none of them.
 */
module Text {

  /** The FULL BLOCK glyph that replaces every masked or redacted character. */
  const Block: char := '\U{2588}'

  /** `\w`: ASCII letters and digits, the underscore, and the Latin letters
      U+00C0..U+024F other than the multiplication and division signs. */
  predicate IsWordChar(c: char) {
    || ('a' <= c <= 'z')
    || ('A' <= c <= 'Z')
    || ('0' <= c <= '9')
    || c == '_'
    || ('\U{00C0}' <= c <= '\U{024F}' && c != '\U{00D7}' && c != '\U{00F7}')
  }

  /** `\s`: the characters for which a Unicode string's `isspace` holds. */
  predicate IsSpace(c: char) {
    || c == ' ' || c == '\t' || c == '\n' || c == '\r'
    || c == '\U{0B}' || c == '\U{0C}'
    || ('\U{1C}' <= c <= '\U{1F}')
    || c == '\U{85}' || c == '\U{A0}' || c == '\U{1680}'
    || ('\U{2000}' <= c <= '\U{200A}')
    || c == '\U{2028}' || c == '\U{2029}' || c == '\U{202F}' || c == '\U{205F}'
    || c == '\U{3000}'
  }

  /** The case fold used by IGNORECASE: upper-case ASCII and Latin-1 letters
      map to their lower-case forms, every other character to itself. */
  function Lower(c: char): (l: char)
    ensures l == Block <==> c == Block
    ensures IsWordChar(l) <==> IsWordChar(c)
  {
    if 'A' <= c <= 'Z' || ('\U{00C0}' <= c <= '\U{00DE}' && c != '\U{00D7}')
    then (c as int + 32) as char
    else c
  }

  /** Whether two characters match, with or without IGNORECASE. */
  predicate CharMatch(a: char, b: char, ignoreCase: bool) {
    if ignoreCase then Lower(a) == Lower(b) else a == b
  }

  /** `s[i]` exists and is a word character. */
  predicate IsWordAt(s: string, i: int) {
    0 <= i < |s| && IsWordChar(s[i])
  }

  /** `\b` at position `i` (between `s[i-1]` and `s[i]`): exactly one side is
      a word character, the outside of the text counting as a non-word. */
  predicate Boundary(s: string, i: int) {
    IsWordAt(s, i - 1) != IsWordAt(s, i)
  }

  /** A run of `n` block glyphs. */
  function Blocks(n: nat): (r: string)
    ensures |r| == n && forall k :: 0 <= k < n ==> r[k] == Block
  {
    seq(n, _ => Block)
  }

  /** `t` is `s` with some characters replaced by the block glyph and nothing
      else changed: the shape of every masking and redaction step. */
  ghost predicate BlockRefines(s: string, t: string) {
    |s| == |t| && forall p :: 0 <= p < |s| ==> t[p] == s[p] || t[p] == Block
  }

  lemma BlockRefinesTransitive(a: string, b: string, c: string)
    requires BlockRefines(a, b) && BlockRefines(b, c)
    ensures BlockRefines(a, c)
  {
  }
}
