/** The four fixed character classes of the tokenizer (rutokenizer/tokenizer.py:23-26).
    Each compiled pattern in the source is a bracket class built by `re.escape` over a
    literal; lines 23 and 25 repeat theirs with `+`. The class itself is a predicate on
    one `char` here, and the repetition is modelled where a pattern is used: the greedy
    run of line 23 by `PlainSegmenter.SkipRun`, the `match` of line 25 by `IsSpaceMatch`. */
module CharClasses {

  /** The class of `regex1` (line 23): tab, U+00A0, U+202F, U+2060, U+200A, a literal
      backslash and the Latin letter `s` (the literal's `\s` is escaped into those two
      characters, so it does NOT denote the whitespace class), plus the ordinary space
      appended after the escaped part. Newline is not in it. */
  predicate IsSplitChar(c: char)
  {
    c == '\t' || c == '\U{A0}' || c == '\U{202F}' || c == '\U{2060}' || c == '\U{200A}' || c == '\\'
    || c == 's' || c == ' '
  }

  /** The class of `delimiters` (line 24): 47 punctuation characters. */
  predicate IsDelimiter(c: char)
  {
    c == '\U{203C}' || c == '\U{2260}' || c == '\U{2122}' || c == '\U{AE}' || c == '\U{2022}' || c == '\U{B7}'
    || c == '[' || c == '\U{A1}' || c == '+' || c == '<' || c == '>' || c == '`'
    || c == '~' || c == ';' || c == '.' || c == ',' || c == '\U{201A}' || c == '?'
    || c == '!' || c == '-' || c == '\U{2026}' || c == '\U{2116}' || c == '\U{201D}' || c == '\U{201C}'
    || c == '\U{201E}' || c == '{' || c == '}' || c == '|' || c == '\U{2039}' || c == '\U{203A}'
    || c == '/' || c == '\'' || c == '"' || c == '\U{2013}' || c == '\U{2014}' || c == '_'
    || c == ':' || c == '\U{2011}' || c == '\U{AB}' || c == '\U{BB}' || c == '*' || c == ']'
    || c == '(' || c == ')' || c == '\U{2018}' || c == '\U{2019}' || c == '\U{2248}'
  }

  /** The class of `spaces` (line 25): space, U+00A0, U+202F, U+2060, U+200A. */
  predicate IsSpace(c: char)
  {
    c == ' ' || c == '\U{A0}' || c == '\U{202F}' || c == '\U{2060}' || c == '\U{200A}'
  }

  /** The class of `delimiters2` (line 26): the five space characters followed by the
      punctuation of line 24 (listed in a different order in the source). */
  predicate IsDelimiter2(c: char)
  {
    c == ' ' || c == '\U{A0}' || c == '\U{202F}' || c == '\U{2060}' || c == '\U{200A}' || c == '\U{203C}'
    || c == '\U{2260}' || c == '\U{2122}' || c == '\U{AE}' || c == '\U{2022}' || c == '\U{B7}' || c == '['
    || c == '\U{A1}' || c == '+' || c == '<' || c == '>' || c == '`' || c == '~'
    || c == ';' || c == '.' || c == ',' || c == '\U{201A}' || c == '?' || c == '!'
    || c == '-' || c == '\U{2026}' || c == '\U{2011}' || c == '\U{2116}' || c == '\U{201D}' || c == '\U{201C}'
    || c == '\U{201E}' || c == '{' || c == '}' || c == '|' || c == '\U{2039}' || c == '\U{203A}'
    || c == '/' || c == '\'' || c == '"' || c == '\U{2013}' || c == '\U{2014}' || c == '_'
    || c == ':' || c == '\U{AB}' || c == '\U{BB}' || c == '*' || c == ']' || c == '('
    || c == ')' || c == '\U{2018}' || c == '\U{2019}' || c == '\U{2248}'
  }

  /** `is_space` (lines 80-81): `spaces.match(s)` succeeds exactly when the first
      character of `s` is a space character. */
  predicate IsSpaceMatch(s: string)
  {
    |s| > 0 && IsSpace(s[0])
  }

  /** How the classes relate: line 26 is line 24 together with line 25, the punctuation
      of line 24 is disjoint from both line 23 and line 25, and line 23 differs from
      line 25 exactly in tab, backslash and `s`. */
  lemma ClassRelations(c: char)
    ensures IsDelimiter2(c) <==> IsDelimiter(c) || IsSpace(c)
    ensures IsDelimiter(c) ==> !IsSplitChar(c) && !IsSpace(c)
    ensures IsSplitChar(c) <==> IsSpace(c) || c == '\t' || c == '\\' || c == 's'
  {
  }
}
