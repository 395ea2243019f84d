# Redact bot text engine, in Dafny

A model of the text-transformation engine of a bot that takes a short social
media post and publishes an altered version of it. There are three stages:

- **Masking** (`Masking`). Every `@handle` becomes `@` followed by one U+2588
  FULL BLOCK per character of the handle (`re.sub(r'@(\w+)', ...)`). Then
  every `http://` or `https://` URL that starts at a word boundary keeps its
  scheme, and the rest of the URL up to the next whitespace becomes blocks
  (`re.sub(r'\b(https?://)(\S+)', ...)`).
- **Redaction** (`Sampling`, `Substitution`, `Redaction`). `int(ratio * n)`
  words and `int(ratio * n)` noun phrases are drawn with replacement. In
  order, for each drawn item, every case-insensitive whole-word occurrence
  that no earlier replaced occurrence overlaps becomes a block run of the
  item's length.
- **Jiggling** (`Jiggling`). The tokens with no block and no space are
  sampled the same way. For each drawn token, a synonym list is built from
  its synsets, leaving the token itself out. When the list is non-empty,
  one synonym is chosen, and every case-sensitive whole-word occurrence of
  the token that no earlier replaced occurrence overlaps becomes that
  synonym.

Each `re.sub` is modelled as the left-to-right scan the regex engine
performs: at each position it tries a match; on a match it emits the
replacement and resumes after the match; otherwise it copies one character.
Each scan is proved against an independent description of its result:

- for usernames, which characters lie in a handle (`InHandle`);
- for URLs, which lie in a URL tail (`InUrlTail`);
- for redaction, which lie in an occurrence the scan replaces (`Covered`);
- for jiggling, the pieces of text between the occurrences (`Gaps`, `Join`),
  which are tied to the occurrences themselves: the replaced occurrences
  (`Seams`) are whole-word occurrences in increasing order without overlap,
  every occurrence overlaps one of them, and the pieces are exactly the text
  before, between and after them.

`Text` fixes the character classes, `\b`, and the case fold used by the
patterns.

External capabilities become inputs:

- the tokeniser's word and noun-phrase lists;
- the synonym source, as a function from a word to its synsets (each a list
  of lemma names);
- the random draws, as natural numbers: `rolls` index the sampled list modulo
  its length, and `picks` choose among a word's synonyms.

## Model

| member | source | states |
|---|---|---|
| Masking.MaskUsernames | redactbot.py:59 | the result has the input's length; a character becomes a block exactly when it belongs to a maximal word-character run directly preceded by '@', and every other character is kept |
| Masking.MaskUsernamesHandle | redactbot.py:49-50 | at an '@' followed by a word character, the '@' is kept and the following maximal word run becomes exactly that many blocks |
| Masking.MaskUsernamesLeavesNone | redactbot.py:59 | after username masking no '@' is followed by a word character |
| Masking.UsernameFreeIsFixed | redactbot.py:59 | a text with no '@' followed by a word character is unchanged by username masking |
| Masking.MaskUrls | redactbot.py:60 | the result has the input's length; a character becomes a block exactly when it is a non-whitespace character reached by the non-whitespace run that follows a scheme matched at a word boundary; all else is kept |
| Masking.MaskUrlsKeepsScheme | redactbot.py:52-53 | at a URL outside any earlier URL's tail, the `http://` or `https://` is kept character for character and the maximal non-whitespace run after it becomes that many blocks |
| Masking.TailOfMasked | redactbot.py:60 | a character that lies in a URL tail of the masked text already lay in a URL tail of the original |
| Masking.MaskUrlsIdempotent | redactbot.py:60 | URL masking twice equals URL masking once |
| Masking.Mask | redactbot.py:59-60 | usernames then URLs: the length is kept, characters change only to blocks, and no username is left |
| Masking.MaskIdempotent | redactbot.py:59-60 | masking an already masked text changes nothing |
| Sampling.SampleCount | redactbot.py:62 | the number of draws is `int(ratio * n)`: 0 when n is 0 or the ratio is at most 0, otherwise the floor of ratio·n; at most n for a ratio up to 1, and exactly n for ratio 1 |
| Sampling.Sample | redactbot.py:62 | the sample has `SampleCount` elements, each an element of the list |
| Sampling.EverySampleReachable | redactbot.py:66 | sampling is with replacement: every sequence of the right length made of list elements, repeats included, is the sample for some draws |
| Substitution.WholeWordSub | redactbot.py:63 | a text in which the pattern never occurs as a whole word is returned unchanged |
| Substitution.UncoveredHasNoMatch | redactbot.py:67 | the scan misses no occurrence: a character that no replaced occurrence covers is not the start of an occurrence |
| Substitution.EarliestOccurrenceCovered | redactbot.py:68 | an occurrence that overlaps no earlier occurrence is replaced in full |
| Substitution.BlockSubShape | redactbot.py:64 | with a block run of the pattern's length as replacement, the length is kept and exactly the covered characters become blocks |
| Substitution.SubFromSplits | redactbot.py:87 | the output is the text between the replaced occurrences joined by the replacement |
| Substitution.TextSplits | redactbot.py:87 | for case-sensitive matching, the input is the same pieces joined by the pattern itself |
| Substitution.SeamsSeparated | redactbot.py:87 | the occurrences the scan replaces are whole-word occurrences, in increasing order and without overlap |
| Substitution.SeamsCoverEveryOccurrence | redactbot.py:87 | every whole-word occurrence of the pattern overlaps one of the occurrences the scan replaces |
| Substitution.GapsBetweenSeams | redactbot.py:87 | the pieces are the text before the first replaced occurrence, between consecutive ones, and after the last |
| Redaction.Redact | redactbot.py:63-64 | one redaction step keeps the length and changes characters only to blocks |
| Redaction.RedactTouchesOccurrences | redactbot.py:63-64 | a redaction step changes characters only inside case-insensitive whole-word occurrences of the item, and blocks the first character of every occurrence |
| Redaction.RedactCovered | redactbot.py:67-68 | a character is blocked exactly when an occurrence replaced by the scan covers it |
| Redaction.RedactFullOccurrence | redactbot.py:63-64 | an occurrence that overlaps no earlier occurrence becomes a block run of the item's length |
| Redaction.RedactLeavesNoOccurrence | redactbot.py:63 | after redacting a word without blocks, no whole-word occurrence of it is left |
| Redaction.BlockItemSurvives | redactbot.py:63-64 | an item that contains a block can outlive its own redaction: the item `█` is still a whole-word occurrence in `a█b` after redacting it |
| Redaction.RedactIdempotent | redactbot.py:67 | redacting the same item twice equals redacting it once |
| Redaction.RedactAll | redactbot.py:62-68 | any sequence of redaction steps keeps the length and changes characters only to blocks |
| Redaction.RedactAllRepeat | redactbot.py:66-68 | an item drawn twice in a row redacts the same as an item drawn once |
| Redaction.RedactEach | redactbot.py:62-64 | a redaction loop yields exactly the drawn items redacted one after another in the order drawn |
| Redaction.RedactTweet | redactbot.py:47-70 | the result is the masked text with the drawn words and then the drawn noun phrases redacted in order; it has the input's length, differs from the input and from the mask only by blocks, and contains no username |
| Jiggling.Candidates | redactbot.py:76 | a token is a candidate exactly when it is one of the words and contains neither a block nor a space, and each candidate is kept as many times as it occurs among the words |
| Jiggling.Others | redactbot.py:81-83 | a lemma name is kept exactly when it differs from the word |
| Jiggling.SynonymList | redactbot.py:79-83 | a string is in the synonym list exactly when it differs from the word and is a lemma name of one of its synsets |
| Jiggling.BuildWordSet | redactbot.py:79-83 | the nested loops build exactly the synonym list, which never contains the word |
| Jiggling.ChosenSynonym | redactbot.py:85-86 | there is a choice exactly when the synonym list is non-empty, and the choice is in the list, differs from the word and is a lemma name of one of its synsets |
| Jiggling.JiggleStep | redactbot.py:85-87 | with no synonym, or with no whole-word occurrence of the word, the text is unchanged |
| Jiggling.JiggleStepReplacesOccurrences | redactbot.py:87 | with a synonym, the text is the pieces between separated case-sensitive whole-word occurrences joined by the word, and the result is the same pieces joined by the synonym |
| Jiggling.JiggleAllNoSynonyms | redactbot.py:78-87 | when no drawn word has a synonym, jiggling leaves the text as it is |
| Jiggling.JiggleAllEmptyText | redactbot.py:78-87 | the empty text stays empty |
| Jiggling.JiggleWords | redactbot.py:72-89 | every drawn word is non-empty, and the result is the text with each drawn candidate jiggled in the order drawn |

## Left out

- The character classes are concrete approximations of Python's Unicode
  tables:
  - `\w` is ASCII letters and digits, `_`, and U+00C0..U+024F except × and ÷;
  - `\s` is the set of characters for which `str.isspace` holds;
  - IGNORECASE folds ASCII and Latin-1 upper-case letters only.

  The proofs use these concrete classes. They agree with Python's on the
  block glyph and on every character the patterns spell out: the block is
  neither a word character nor whitespace, folding never maps a character
  to or from the block, '@' is not a word character, `h` is a word
  character, and no character of `http://` or `https://` is whitespace.
- The model matches every word and noun phrase literally. The source puts
  them into the pattern without `re.escape`; how it behaves on tokens with
  regex metacharacters is not modelled.
- The synonym is inserted literally. In the source, a backslash in the
  synonym would be read as a replacement-template escape.
- Tokenisation and noun-phrase extraction are inputs. The model does not
  relate them to the text. Jiggling.JiggleWords requires every token to be
  non-empty, as the tokeniser's tokens are. An empty token would make
  `\b\b` insert the synonym at every word boundary.
- The synonym lookup is an input function, and the random draws are input
  numbers.
- The ratios are exact `real` values, and the model does not do IEEE
  floating-point rounding of `ratio * n`. The source does not reject ratios
  outside [0, 1], and neither does the model.
- Redaction.RedactLeavesNoOccurrence needs its limit to items that contain
  no block glyph: with the item `█`, the text `a█b` still contains a
  whole-word occurrence of it after redaction (Redaction.BlockItemSurvives).
- Redaction.RedactIdempotent and Redaction.RedactAllRepeat are stated only
  for items that contain no block glyph. There the limit only makes the
  proof easier: with it, an occurrence in the redacted text can touch no
  block, so the first scan should already have replaced it. Whether the two
  properties hold for items that contain a block is not proved here.
- Jiggling.JiggleStepReplacesOccurrences replaces only the occurrences
  the scan reaches. An occurrence that overlaps an earlier replaced one is
  not replaced, as in `re.sub`: with `a-a` as the word, `a-a-a` becomes the
  synonym followed by `-a`. `Substitution.SeamsCoverEveryOccurrence` says
  that every occurrence overlaps a replaced one.
- Redaction.RedactTouchesOccurrences promises only the first character of each occurrence,
  because a later occurrence that overlaps an earlier one is only partly
  replaced by the scan. Redaction.RedactFullOccurrence gives the full block
  run for occurrences that no earlier one overlaps.
- Not modelled, because they are network, configuration or logging code:
  - `get_potential_search_terms`;
  - `get_random_tweet`;
  - `send_tweet`;
  - `main`;
  - the command-line entry point;
  - the exception formatter and logger setup.
