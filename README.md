# rutokenizer's `Tokenizer` in Dafny

This project models the `Tokenizer` class of `rutokenizer/tokenizer.py`. It is a word
tokenizer for Russian text that keeps hyphenated multi-token words such as "что-либо"
or "по-японски" together. The class has two modes:

- `tokenize` gives plain string tokens (lines 47-78).
- `tokenize2` gives `(text, start, end)` tuples with character offsets into the
  phrase (lines 83-151).

Both modes first cut the phrase into pre-tokens:

- `tokenize` uses `before_split` and `tokenize0` (lines 41-45). They replace "--" by
  "-", pad every punctuation character with spaces, and split at runs of separator
  characters.
- `tokenize2` uses the one-character matches of `delimiters2` and the text between
  them (lines 93-122).

Both modes then run the same merge. A pre-token whose lowercase form is a key of the
`prefix_hyphen` dictionary starts a candidate of `l + 2` tokens. The candidate lengths
`l` run from `max_len` down to `min_len`. The first candidate whose lowercase
concatenation is in `words_with_hyphen` becomes one token.

The project has eight modules, one file each:

- `CharClasses` (`chars.dfy`): the four character classes of lines 23-26, and `is_space`.
- `Text` (`text.dfy`): string concatenation (`''.join`) and removal of a character class.
- `PlainSegmenter` (`plain.dfy`): `before_split` and `tokenize0`, as functions. The
  `re` operations become explicit recursion.
- `PositionalSegmenter` (`positional.dfy`): the matches, gaps and trailing text of
  `tokenize2`, as functions, and the segmentation invariant they satisfy.
- `Merge` (`merge.dfy`): the merge shared by both modes, as functions. It includes the
  `IndexError` that the positional merge can raise.
- `Chunking` (`chunking.dfy`): a reference reading of a phrase one character at a time.
  `tokenize0` is proved equal to it. The pre-merge segment texts of `tokenize2` are
  proved equal to it wherever the two split classes agree. So the two segmenters agree
  there, and `SplitClassesDiffer` shows where they differ (tab, backslash, `s`).
- `Tokenizer` (`tokenizer.dfy`): the loops of the source as module-level methods, each
  proved equal to the functional model, and the class itself. The class's fields are the
  two dictionaries, which `load` fills. Its methods `Load`, `Tokenize` and `Tokenize2`
  run those loops.
- `Scenarios` (`scenarios.dfy`): the `tokenize2` phrases of lines 184-199, followed
  through segmentation and merge against a small dictionary that knows the prefix "что"
  and the word "что-либо".

The main results are these:

- `tokenize0` cuts the phrase, after "--" -> "-", at every separator character and
  around every punctuation character, and nowhere else. A "--" run of `n` hyphens
  becomes `(n + 1) / 2` hyphens.
- `tokenize` returns tokens that concatenate to the phrase after "--" -> "-" with every
  separator character removed. There are never more of them than `tokenize0` makes.
  Each is a `tokenize0` token, or the concatenation of consecutive `tokenize0` tokens
  that starts with a known prefix and is a known hyphenated word.
- The pre-merge segments of `tokenize2` are whole runs of text between class
  characters, and punctuation characters on their own.
- `tokenize2` fails exactly when the plain merge of its segment texts would take a
  candidate cut short by the end of the list, and then always at index `len(tokens0)`.
- When `tokenize2` succeeds:
  - its texts are exactly that plain merge;
  - each token is a segment or a known word;
  - over a non-empty phrase the tokens are in increasing, non-overlapping order;
  - each token's text is its span of the phrase without spaces;
  - only spaces lie between and around the tokens.
- The `tokenize2` assertions of lines 185-199 hold under a dictionary that knows the
  prefix "что" and the word "что-либо".

### Where the code and its description differ

The model follows the code in each case.

- Only `tokenize` replaces "--" by "-". Only `tokenize` splits at tab, backslash and the
  letter `s`. The escaped `\s` in line 23 stands for those two characters, not for the
  whitespace class. So the two modes can segment the same phrase differently: "yes" is
  the token "ye" for `tokenize0` and the one segment "yes" for `tokenize2`
  (`Chunking.SplitClassesDiffer`). Over a non-empty phrase without "--", tab, backslash
  and `s` the two agree (`Chunking.SegmentersAgree`).
- `tokenize2("")` yields the one segment `("", 0, 0)` before the merge, not an empty
  list (`PositionalSegmenter.SegmentsAreSegmentation`). After the merge it is
  `[("", 0, 0)]`. There is one exception: when `lower("")` is a prefix whose range admits
  the length 0 and `lower("")` is a known word, line 141 raises `IndexError`
  (`Tokenizer.Tokenize2Empty`).
- A merged `tokenize2` token whose segments were separated by spaces does not have
  `text == phrase[start:end]`. Its text is that slice without the spaces (`Merge.Spanned`).
- `tokenize` clamps a candidate at the end of the token list (`tokens0[i : i + l1 + 2]`).
  `tokenize2` instead reads `tokens0[i + l1 + 1]` at line 141, which raises `IndexError`
  in that case. The model returns `Merge.Outcome.IndexError` there.

## Model

| member | source | states |
|---|---|---|
| CharClasses.IsSplitChar | rutokenizer/tokenizer.py:23 | the bracket class repeated by `regex1`: tab, U+00A0, U+202F, U+2060, U+200A, backslash, `s` and the space |
| CharClasses.IsDelimiter | rutokenizer/tokenizer.py:24 | the one-character group of `delimiters`: its 47 punctuation characters |
| CharClasses.IsSpace | rutokenizer/tokenizer.py:25 | the bracket class repeated by `spaces`: the space, U+00A0, U+202F, U+2060 and U+200A |
| CharClasses.IsDelimiter2 | rutokenizer/tokenizer.py:26 | the one-character group of `delimiters2`: the five spaces and the punctuation |
| CharClasses.IsSpaceMatch | rutokenizer/tokenizer.py:80-81 | `spaces.match(s)` succeeds, which for the `[...]+` run anchored at the start means that the first character of `s` is a space |
| CharClasses.ClassRelations | rutokenizer/tokenizer.py:23-26 | the class of line 26 is the punctuation of line 24 together with the spaces of line 25; that punctuation shares no character with lines 23 and 25; line 23 is the spaces plus tab, backslash and `s` |
| PlainSegmenter.ReplaceDoubleHyphen | rutokenizer/tokenizer.py:42 | `s.replace('--', '-')` never lengthens the string, changes nothing but hyphens, and is the identity on a string without "--" |
| PlainSegmenter.ReplaceHyphenRun | rutokenizer/tokenizer.py:42 | a run of `n` hyphens becomes `(n + 1) / 2` hyphens |
| PlainSegmenter.ReplaceAroundChar | rutokenizer/tokenizer.py:42 | a character other than a hyphen is kept, and the text on each side of it is replaced on its own; with the hyphen runs this fixes the result on every string |
| PlainSegmenter.ReplaceAppend | rutokenizer/tokenizer.py:42 | text that does not start with a hyphen is replaced independently of what precedes it |
| PlainSegmenter.PadDelimiters | rutokenizer/tokenizer.py:42 | `delimiters.sub(' \1 ', s)` only adds separator characters: removing them gives the same text as removing them from `s` |
| PlainSegmenter.PadIsPadded | rutokenizer/tokenizer.py:42 | after padding, every punctuation character stands between two spaces |
| PlainSegmenter.BeforeSplit | rutokenizer/tokenizer.py:41-42 | `before_split`: the "--" replacement first, then the padding of punctuation |
| PlainSegmenter.SkipRun | rutokenizer/tokenizer.py:23 | end of the greedy `[...]+` match: the rest is a suffix that does not start with a separator and has the same text without separators |
| PlainSegmenter.SplitFrom | rutokenizer/tokenizer.py:45 | `regex1.split` from the middle of a piece: always at least one piece, ended at each maximal run of separators and at the end of the string |
| PlainSegmenter.RegexSplit | rutokenizer/tokenizer.py:45 | `regex1.split(s)`: the pieces between maximal separator runs, with the empty pieces before a leading and after a trailing run |
| PlainSegmenter.SplitClean | rutokenizer/tokenizer.py:45 | no piece of `regex1.split` contains a separator character |
| PlainSegmenter.SplitJoin | rutokenizer/tokenizer.py:45 | the pieces of `regex1.split` concatenate to the input without its separator characters |
| PlainSegmenter.PaddedPieces | rutokenizer/tokenizer.py:42-45 | splitting a padded string leaves every punctuation character in a piece of its own |
| PlainSegmenter.NonEmpty | rutokenizer/tokenizer.py:45 | the `len(w) > 0` filter keeps only non-empty pieces, all from its input, without changing their concatenation |
| PlainSegmenter.Tokenize0 | rutokenizer/tokenizer.py:44-45 | `tokenize0`: tokens are non-empty, free of separators, hold punctuation only alone, and concatenate to the phrase after "--" -> "-" without separators |
| Chunking.TokenizeChunks | rutokenizer/tokenizer.py:41-45 | `tokenize0` equals the reference reading of the phrase after "--" -> "-": text is cut at every separator and around every punctuation character, and nowhere else |
| Chunking.PlainSingleToken | rutokenizer/tokenizer.py:44-45 | a non-empty phrase with no separator and no punctuation is the single token `[phrase]` |
| Chunking.PlainCutsAt | rutokenizer/tokenizer.py:44-45 | a phrase without punctuation and with one separator is cut exactly there, into the non-empty sides |
| PositionalSegmenter.Matches | rutokenizer/tokenizer.py:93-96 | `finditer`: the matches are single class characters in increasing order, with no class character after the last one |
| PositionalSegmenter.MatchGap | rutokenizer/tokenizer.py:93-96 | no class character lies between two consecutive matches |
| PositionalSegmenter.Delims | rutokenizer/tokenizer.py:93-96 | `delim_tokens`: every match of `delimiters2` in the phrase, as `(group, start, end)` |
| PositionalSegmenter.SegmentsUpTo | rutokenizer/tokenizer.py:98-115 | `tokens0` after the first `n` rounds: each round appends the non-empty text since the previous match, then the match unless it is a space |
| PositionalSegmenter.Trailing | rutokenizer/tokenizer.py:117-122 | the last token: the text after the last match, or the whole phrase when nothing matched, and nothing when the phrase ends with a match |
| PositionalSegmenter.Segments | rutokenizer/tokenizer.py:92-122 | `tokens0` of `tokenize2` before the merge: the rounds, then the trailing token |
| PositionalSegmenter.ExtendByPiece | rutokenizer/tokenizer.py:98-115 | appending a non-empty slice (one punctuation character, or a whole run of text free of the class) extends a segmentation of the phrase |
| PositionalSegmenter.ExtendSpace | rutokenizer/tokenizer.py:114-115 | skipping a space match keeps the segmentation |
| PositionalSegmenter.SegmentsUpToIsSegmentation | rutokenizer/tokenizer.py:98-115 | after each round of the loop, `tokens0` segments the phrase up to the end of the current match |
| PositionalSegmenter.SegmentsAreSegmentation | rutokenizer/tokenizer.py:93-122 | pre-merge segments of a non-empty phrase: non-empty slices with their offsets, in order, only spaces outside them, each a lone punctuation character or a whole run between class characters, concatenating to the phrase without spaces, every punctuation character a segment at its offset; the empty phrase gives `("", 0, 0)` |
| PositionalSegmenter.LastGap | rutokenizer/tokenizer.py:117-122 | over a non-empty phrase the trailing token is the text from just after the last match, or from 0, to the end, when that text is not empty |
| PositionalSegmenter.NoDelimiterSingleSegment | rutokenizer/tokenizer.py:117-122 | a phrase without class characters is the single segment `(phrase, 0, len)` |
| PositionalSegmenter.EndingInDelimiter | rutokenizer/tokenizer.py:118-122 | a phrase ending in a class character gets no trailing segment, and only that character can end at `len(phrase)` |
| Chunking.SegmentsChunks | rutokenizer/tokenizer.py:93-122 | the pre-merge segment texts of a non-empty phrase without tab, backslash and `s` are the reference reading of the phrase |
| Chunking.SegmentersAgree | rutokenizer/tokenizer.py:41-122 | over a non-empty phrase without "--", tab, backslash and `s`, the tokens of `tokenize0` are the texts of the pre-merge segments of `tokenize2` |
| Chunking.SplitClassesDiffer | rutokenizer/tokenizer.py:23-26 | between two words, tab, backslash or `s` cuts for `tokenize0` and is dropped, while `tokenize2` keeps one segment over the whole phrase |
| Merge.Candidate | rutokenizer/tokenizer.py:67 | `u''.join(tokens0[i : i + l + 2])`, with the slice stopping at the end of the list |
| Merge.Probe | rutokenizer/tokenizer.py:65-72 | the `for l1` loop from a length down to `min_len`: the first length whose candidate starts inside the list and is a known word |
| Merge.ProbeSpec | rutokenizer/tokenizer.py:65-72 | the probe loop finds the longest hitting candidate length of the range, and finds nothing exactly when no length of the range hits |
| Merge.Choose | rutokenizer/tokenizer.py:58-72 | the decision at `i`: the probe over the range of a known prefix, and no length otherwise |
| Merge.ChooseSpec | rutokenizer/tokenizer.py:58-72 | a token stays alone exactly when it is no known prefix or no length of its range hits; otherwise the longest hitting length is taken, and its candidate starts inside the list |
| Merge.Next | rutokenizer/tokenizer.py:57-76 | the loop always advances, by at most one past the end, and by exactly one exactly when the token stays alone |
| Merge.MergePlain | rutokenizer/tokenizer.py:53-78 | the `tokenize` loop: the token alone, or the clamped concatenation of the known word found |
| Merge.MergePlainJoin | rutokenizer/tokenizer.py:53-78 | merging only regroups: the merged tokens concatenate to the same text as the input |
| Merge.MergePlainLength | rutokenizer/tokenizer.py:53-78 | merging never makes more tokens |
| Merge.MergePlainKnown | rutokenizer/tokenizer.py:57-76 | every merged token is an input token, or the concatenation of consecutive input tokens that starts with a known prefix and whose lowercase form is a known word |
| Merge.MergePlainIdentity | rutokenizer/tokenizer.py:58-61 | when no token is a known prefix, merging changes nothing |
| Merge.Block | rutokenizer/tokenizer.py:139-141 | the compound token: the joined texts of the segments, from the start of the first to the end of the last |
| Merge.Head | rutokenizer/tokenizer.py:130-149 | the token one round of the `tokenize2` loop appends: the segment alone or the compound token |
| Merge.MergePos | rutokenizer/tokenizer.py:126-151 | the `tokenize2` loop, failing at `tokens0[i + l1 + 1]` when that segment does not exist |
| Merge.MergePosAgrees | rutokenizer/tokenizer.py:126-151 | the positional merge makes the same decisions as the plain one over the segment texts: it succeeds exactly when the plain walk never takes a shortened candidate, its texts are then the plain result, and it can only fail at index `len(tokens0)` |
| Merge.SegmentationLayout | rutokenizer/tokenizer.py:98-122 | the pre-merge segments of a phrase are laid out over it, each spanning its own text |
| Merge.BlockSpan | rutokenizer/tokenizer.py:139-141 | consecutive laid-out segments cover the concatenation of their texts from the first start to the last end, ignoring spaces |
| Merge.HeadSpan | rutokenizer/tokenizer.py:139-142 | each token appended by the positional merge spans its own text |
| Merge.HeadKnown | rutokenizer/tokenizer.py:139-142 | each token appended by the positional merge is a segment, or a block of consecutive segments that starts with a known prefix and is a known word |
| Merge.MergePosEnds | rutokenizer/tokenizer.py:126-151 | the merge yields tokens exactly when segments remain; the first starts with segment `i` and the last ends with the last segment |
| Merge.MergePosSpanned | rutokenizer/tokenizer.py:126-151 | every positional token spans its own text |
| Merge.MergePosGaps | rutokenizer/tokenizer.py:126-151 | between consecutive positional tokens there are only spaces |
| Merge.MergePosKnown | rutokenizer/tokenizer.py:126-151 | every positional token is a segment, or a block of consecutive segments that starts with a known prefix and is a known word |
| Merge.MergePosKeepsLayout | rutokenizer/tokenizer.py:126-151 | the positional merge keeps the layout of the segments |
| Tokenizer.MergePlainAlone | rutokenizer/tokenizer.py:57-76 | a token that starts no known word is appended alone and the loop moves on by one |
| Tokenizer.MergePlainMerged | rutokenizer/tokenizer.py:65-72 | a known word of `l + 2` tokens is appended as their clamped concatenation and the loop moves past it |
| Tokenizer.MergePosAlone | rutokenizer/tokenizer.py:129-149 | a segment that starts no known word is appended alone |
| Tokenizer.MergePosMerged | rutokenizer/tokenizer.py:137-145 | a known word whose segments all exist is appended as one compound token |
| Tokenizer.MergePosCutShort | rutokenizer/tokenizer.py:141 | a known word whose last segment is past the end raises `IndexError` at that index |
| Tokenizer.FindKnownWord | rutokenizer/tokenizer.py:63-72 | the `for l1` loop returns the length the merge chooses; a length it returns passes the test `i + l1 < nt` of line 66, so the candidate starts inside the list, though its last token can lie one past the end |
| Tokenizer.FindDelimiters | rutokenizer/tokenizer.py:93-96 | the loop over `finditer` collects exactly the matches of `delimiters2` |
| Tokenizer.SplitRound | rutokenizer/tokenizer.py:99-115 | one round appends the text since the previous match when there is any, then the match unless it is a space |
| Tokenizer.SplitAtDelimiters | rutokenizer/tokenizer.py:98-122 | the loop and the trailing step build exactly the pre-merge segments |
| Tokenizer.MergeAt | rutokenizer/tokenizer.py:58-76 | one round of the `tokenize` loop appends the token the merge makes and moves to the next position |
| Tokenizer.MergeTokens | rutokenizer/tokenizer.py:53-78 | the `tokenize` loop computes the plain merge |
| Tokenizer.MergeSegAt | rutokenizer/tokenizer.py:130-149 | one round of the `tokenize2` loop appends the token the merge makes, or fails at the index line 141 reads |
| Tokenizer.MergeSegments | rutokenizer/tokenizer.py:126-151 | the `tokenize2` loop computes the positional merge, including its `IndexError` |
| Tokenizer.TokenizeProperties | rutokenizer/tokenizer.py:47-78 | `tokenize` keeps the text minus separators, never makes more tokens than `tokenize0`, and yields only `tokenize0` tokens and concatenations of consecutive `tokenize0` tokens that start with a known prefix and are known words |
| Tokenizer.Tokenize2Properties | rutokenizer/tokenizer.py:83-151 | `tokenize2` fails exactly when the plain merge of the segment texts takes a shortened candidate, and only at `len(tokens0)`; on success its texts are the plain merge, its tokens are segments or known words, and over a non-empty phrase they are laid out in order with only spaces around them |
| Tokenizer.TokenizeEmpty | rutokenizer/tokenizer.py:44-78 | `tokenize0("")` and `tokenize("")` are empty |
| Tokenizer.Tokenize2Empty | rutokenizer/tokenizer.py:117-151 | `tokenize2("")` is `[("", 0, 0)]`, except that it raises `IndexError` at 1 when `lower("")` is a prefix admitting the length 0 and a known word |
| Tokenizer.Tokenizer.constructor | rutokenizer/tokenizer.py:22-28 | a new tokenizer has no dictionaries |
| Tokenizer.Tokenizer.Load | rutokenizer/tokenizer.py:30-39 | `load` sets both dictionaries, after which the tokenizer is loaded |
| Tokenizer.Tokenizer.Tokenize | rutokenizer/tokenizer.py:47-78 | `tokenize` returns the plain merge of `tokenize0`'s tokens under the loaded dictionaries |
| Tokenizer.Tokenizer.Tokenize2 | rutokenizer/tokenizer.py:83-151 | `tokenize2` returns the positional merge of the pre-merge segments, or the `IndexError` |
| Scenarios.AloneRun | rutokenizer/tokenizer.py:129-133 | a run of segments that are no known prefix is copied to the output unchanged |
| Scenarios.KnownWordAt6 | rutokenizer/tokenizer.py:137-145 | the segments "что", "-" and "либо" become the one token "что-либо" from the start of the first to the end of the last |
| Scenarios.Tokenize2Test185 | rutokenizer/tokenizer.py:184-191 | `tokenize2('Я  сплю, мечтаю-ка  что-либо.')` is exactly the eight tokens whose texts the test joins, with `("Я", 0, 1)`, `("что-либо", 20, 28)` and `(".", 28, 29)` among them |
| Scenarios.Tokenize2Test194 | rutokenizer/tokenizer.py:193-195 | without the final "." the seventh token is still `("что-либо", 20, 28)`, and it is the last |
| Scenarios.Tokenize2OneWord | rutokenizer/tokenizer.py:117-133 | a non-empty phrase without class characters that is no known prefix is the one token `(phrase, 0, len)` |
| Scenarios.Tokenize2Test198 | rutokenizer/tokenizer.py:197-199 | `tokenize2('кошки')` is the one token `("кошки", 0, 5)` |

## Left out

- `load` does not read a file: the gzip-compressed pickle at `rutokenizer.dat` is not
  opened. `Tokenizer.Tokenizer.Load` takes the two unpickled dictionaries as parameters.
- Python's `str.lower` is not modelled: it is the parameter `lower` of the tokenizer,
  and the dictionaries are keyed by it.
- The `re` engine is not modelled. Each compiled pattern of lines 23-26 is built on a
  bracket class, so the class is a predicate on `char`. Lines 24 and 26 match one
  character of it. Lines 23 and 25 match a `[...]+` run:
  - the greedy run of line 23 is `SkipRun`;
  - `is_space` only asks whether `spaces.match` succeeds, which depends only on the
    first character, so `IsSpaceMatch` tests that character.

  `sub`, `split` and `finditer` become explicit recursion over the string:
  `PadDelimiters`, `SplitFrom` and `Matches`. `is_space` returns a match object in the
  source and a boolean here.
- The `tokenize` assertions of `tokenizer_tests` (lines 158-182) are not modelled. They
  depend on the contents of the dictionary file: "По-доброму", "из-за" and the rest
  need their own prefixes and words.
- The `tokenize2` assertions (lines 184-199) are replayed in `Scenarios` under the
  dictionary `TestLexicon`, not under the data of `rutokenizer.dat`. It knows the prefix
  "что" with range `(1, 1)` and the word "что-либо". Python's `str.lower` stays a
  parameter. Of it the replays need only that it keeps lengths and leaves "что" and
  "что-либо" unchanged, and, for "кошки", that the lowercase word is no known prefix.
- The `__main__` block (lines 204-210) is not modelled. It prints a result.
- Tokenizer.Tokenizer.Tokenize: requires `Loaded()`. Before `load` the source fails with
  a `TypeError` on `in None`, and that error is not modelled.
- Tokenizer.Tokenizer.Tokenize2: requires `Loaded()`, for the same reason.
- Merge.LenRange: `min_len` is a natural number. A negative `min_len` in the data makes
  the source compute different slices:
  - with -2 and below the source can append `''` and stop advancing, which is an
    endless loop;
  - with -3 and below the source slices with negative bounds or reads negative indexes.

  The model does not describe these inputs.
- The tokens are strings of Unicode code points, like Python's `str`. Character
  encodings and normalisation are not modelled.
