/** The `Tokenizer` class of rutokenizer/tokenizer.py: its two dictionaries, filled in by
    `load`, and the two tokenizing methods, written as the loops of the source and proved
    equal to the functional model of the segmenters and of the merge. */
module Tokenizer {
  import opened CharClasses
  import opened Text
  import opened PlainSegmenter
  import opened PositionalSegmenter
  import opened Merge

  /** `r` with `ts` in front of its tokens; an error stays as it is. */
  function Prefixed(ts: seq<Seg>, r: Outcome): Outcome
  {
    if r.Ok? then Ok(ts + r.tokens) else r
  }

  lemma PrefixedPrepend(ts: seq<Seg>, t: Seg, r: Outcome)
    ensures Prefixed(ts, Prepend(t, r)) == Prefixed(ts + [t], r)
  {
    if r.Ok? {
      assert ts + ([t] + r.tokens) == ts + [t] + r.tokens;
    }
  }

  lemma TextsSlice(segs: seq<Seg>, i: int, j: int)
    requires 0 <= i <= j <= |segs|
    ensures Texts(segs[i..j]) == Texts(segs)[i..j]
  {
  }

  /** The loop state of `tokenize`: `acc` followed by the merge from `i` on is the whole merge. */
  predicate PlainProgress(lex: Lexicon, ts: seq<string>, i: nat, acc: seq<string>)
  {
    acc + MergePlain(lex, ts, i) == MergePlain(lex, ts, 0)
  }

  /** Appending the token `t` the merge makes at `i` and moving on to `j` keeps the state. */
  lemma PlainStep(lex: Lexicon, ts: seq<string>, i: nat, j: nat, t: string, acc: seq<string>)
    requires PlainProgress(lex, ts, i, acc)
    requires MergePlain(lex, ts, i) == [t] + MergePlain(lex, ts, j)
    ensures PlainProgress(lex, ts, j, acc + [t])
  {
    assert acc + [t] + MergePlain(lex, ts, j) == acc + ([t] + MergePlain(lex, ts, j));
  }

  /** A token no known word starts with is passed on alone ... */
  lemma MergePlainAlone(lex: Lexicon, ts: seq<string>, i: nat)
    requires i < |ts| && Choose(lex, ts, i).None?
    ensures MergePlain(lex, ts, i) == [ts[i]] + MergePlain(lex, ts, i + 1)
  {
  }

  /** ... and a known word of `l + 2` tokens is joined into one. */
  lemma MergePlainMerged(lex: Lexicon, ts: seq<string>, i: nat, l: int)
    requires i < |ts| && Choose(lex, ts, i) == Some(l)
    ensures 0 <= l && i + l < |ts|
    ensures MergePlain(lex, ts, i) == [Join(ts[i..Min(i + l + 2, |ts|)])] + MergePlain(lex, ts, i + l + 2)
  {
    ChooseSpec(lex, ts, i);
    var j := Next(lex, ts, i);
    assert j == i + l + 2 && j != i + 1;
  }

  /** The loop state of `tokenize2`: `acc` in front of the merge from `i` on is the whole merge. */
  predicate PosProgress(lex: Lexicon, segs: seq<Seg>, i: nat, acc: seq<Seg>)
  {
    Prefixed(acc, MergePos(lex, segs, i)) == MergePos(lex, segs, 0)
  }

  /** Appending the token `t` the merge makes at `i` and moving on to `j` keeps the state. */
  lemma PosStep(lex: Lexicon, segs: seq<Seg>, i: nat, j: nat, t: Seg, acc: seq<Seg>)
    requires PosProgress(lex, segs, i, acc)
    requires MergePos(lex, segs, i) == Prepend(t, MergePos(lex, segs, j))
    ensures PosProgress(lex, segs, j, acc + [t])
  {
    PrefixedPrepend(acc, t, MergePos(lex, segs, j));
  }

  /** A segment no known word starts with is passed on alone ... */
  lemma MergePosAlone(lex: Lexicon, segs: seq<Seg>, i: nat)
    requires i < |segs| && Choose(lex, Texts(segs), i).None?
    ensures MergePos(lex, segs, i) == Prepend(segs[i], MergePos(lex, segs, i + 1))
  {
  }

  /** ... the segments of a known word are joined into one compound token ... */
  lemma MergePosMerged(lex: Lexicon, segs: seq<Seg>, i: nat, l: int)
    requires i < |segs| && Choose(lex, Texts(segs), i) == Some(l) && i + l + 2 <= |segs|
    ensures 0 <= l
    ensures MergePos(lex, segs, i) == Prepend(Block(segs, i, i + l + 2), MergePos(lex, segs, i + l + 2))
  {
    ChooseSpec(lex, Texts(segs), i);
    assert Next(lex, Texts(segs), i) == i + l + 2;
  }

  /** ... and a known word running past the last segment is the `IndexError`. */
  lemma MergePosCutShort(lex: Lexicon, segs: seq<Seg>, i: nat, l: int)
    requires i < |segs| && Choose(lex, Texts(segs), i) == Some(l) && i + l + 2 > |segs|
    ensures MergePos(lex, segs, i) == IndexError(i + l + 1)
  {
    ChooseSpec(lex, Texts(segs), i);
  }

  /** The error of one round is the error of the whole loop. */
  lemma PosFail(lex: Lexicon, segs: seq<Seg>, i: nat, acc: seq<Seg>)
    requires PosProgress(lex, segs, i, acc) && MergePos(lex, segs, i).IndexError?
    ensures MergePos(lex, segs, 0) == MergePos(lex, segs, i)
  {
  }

  /** At the end of the list both loops have produced the whole merge. */
  lemma PlainDone(lex: Lexicon, ts: seq<string>, i: nat, acc: seq<string>)
    requires PlainProgress(lex, ts, i, acc) && i >= |ts|
    ensures acc == MergePlain(lex, ts, 0)
  {
    assert acc + [] == acc;
  }

  lemma PosDone(lex: Lexicon, segs: seq<Seg>, i: nat, acc: seq<Seg>)
    requires PosProgress(lex, segs, i, acc) && i >= |segs|
    ensures MergePos(lex, segs, 0) == Ok(acc)
  {
    assert acc + [] == acc;
  }

  /** The probe loop of lines 64-74 visits `l` after a miss at `l + 1`. */
  lemma ProbeMiss(lex: Lexicon, ts: seq<string>, i: nat, lo: nat, l: int)
    requires lo <= l && !Hits(lex, ts, i, l)
    ensures Probe(lex, ts, i, lo, l) == Probe(lex, ts, i, lo, l - 1)
  {
  }

  /** The probe loop `for l1 in range(max_len, min_len-1, -1)` of lines 64-71 (and 137-146):
      the longest candidate after prefix `ts[i]` whose lowercase concatenation is a known
      word, or `None`. */
  method FindKnownWord(lex: Lexicon, ts: seq<string>, i: nat) returns (found: Option<int>)
    requires i < |ts| && lex.lower(ts[i]) in lex.prefixHyphen
    ensures found == Choose(lex, ts, i)
    ensures found.Some? ==> 0 <= found.value && i + found.value < |ts|
  {
    var nt := |ts|;
    var minLen, maxLen := lex.prefixHyphen[lex.lower(ts[i])].minLen, lex.prefixHyphen[lex.lower(ts[i])].maxLen;
    var l1 := maxLen;
    while l1 >= minLen
      invariant Probe(lex, ts, i, minLen, l1) == Choose(lex, ts, i)
      decreases l1 - minLen + 1
    {
      if i + l1 < nt {
        var aggregate := Join(ts[i..Min(i + l1 + 2, nt)]);
        if lex.lower(aggregate) in lex.wordsWithHyphen {
          assert Hits(lex, ts, i, l1);
          return Some(l1);
        }
      }
      ProbeMiss(lex, ts, i, minLen, l1);
      l1 := l1 - 1;
    }
    return None;
  }

  /** Lines 93-96: the one-character matches of `delimiters2`, left to right. */
  method FindDelimiters(phrase: string) returns (delimTokens: seq<Seg>)
    ensures delimTokens == Delims(phrase)
  {
    delimTokens := [];
    var q := 0;
    while q < |phrase|
      invariant 0 <= q <= |phrase|
      invariant delimTokens == Matches(phrase, q)
    {
      if IsDelimiter2(phrase[q]) {
        delimTokens := delimTokens + [Seg([phrase[q]], q, q + 1)];
      }
      q := q + 1;
    }
  }

  /** One round of the loop at lines 98-115, for match `k`: the text since the previous
      match when there is any, then the match unless it is a space. */
  method SplitRound(phrase: string, delimTokens: seq<Seg>, k: nat, tokens0: seq<Seg>) returns (tokens0': seq<Seg>)
    requires delimTokens == Delims(phrase) && k < |delimTokens|
    ensures tokens0' == tokens0 + GapPart(phrase, GapStart(delimTokens, k), delimTokens[k].start) + MatchPart(delimTokens[k])
  {
    tokens0' := tokens0;
    var delim := delimTokens[k];
    assert IsMatch(phrase, delim) && GapStart(delimTokens, k) <= delim.start;
    if k > 0 {
      var prevDelim := delimTokens[k - 1];
      if prevDelim.end != delim.start {
        tokens0' := tokens0' + [Seg(phrase[prevDelim.end..delim.start], prevDelim.end, delim.start)];
      } else {
        assert tokens0' + GapPart(phrase, prevDelim.end, delim.start) == tokens0';
      }
    } else if delim.start > 0 {
      tokens0' := tokens0' + [Seg(phrase[0..delim.start], 0, delim.start)];
    } else {
      assert tokens0' + GapPart(phrase, 0, delim.start) == tokens0';
    }
    if !IsSpaceMatch(delim.text) {
      tokens0' := tokens0' + [delim];
    } else {
      assert tokens0' + MatchPart(delim) == tokens0';
    }
  }

  /** Lines 98-122: the text before, between and after the matches, and the matches that are
      not spaces. */
  method SplitAtDelimiters(phrase: string, delimTokens: seq<Seg>) returns (tokens0: seq<Seg>)
    requires delimTokens == Delims(phrase)
    ensures tokens0 == Segments(phrase)
  {
    tokens0 := [];
    for k := 0 to |delimTokens|
      invariant tokens0 == SegmentsUpTo(phrase, k)
    {
      tokens0 := SplitRound(phrase, delimTokens, k, tokens0);
    }
    var phraseLen := |phrase|;
    if |delimTokens| == 0 || delimTokens[|delimTokens| - 1].end != phraseLen {
      var startPos := if |delimTokens| > 0 then delimTokens[|delimTokens| - 1].end else 0;
      tokens0 := tokens0 + [Seg(phrase[startPos..], startPos, phraseLen)];
    } else {
      assert tokens0 + [] == tokens0;
    }
  }

  /** One round of the merge loop of `tokenize` (lines 56-77): the token it appends at
      position `i` and where the next round starts. */
  method MergeAt(lex: Lexicon, tokens0: seq<string>, i: nat) returns (token: string, j: nat)
    requires i < |tokens0|
    ensures i < j <= |tokens0| + 1
    ensures MergePlain(lex, tokens0, i) == [token] + MergePlain(lex, tokens0, j)
  {
    var nt := |tokens0|;
    var utoken0 := lex.lower(tokens0[i]);
    if utoken0 !in lex.prefixHyphen {
      MergePlainAlone(lex, tokens0, i);
      return tokens0[i], i + 1;
    }
    var found := FindKnownWord(lex, tokens0, i);
    if found.Some? {
      var l1 := found.value;
      MergePlainMerged(lex, tokens0, i, l1);
      var aggregate := Join(tokens0[i..Min(i + l1 + 2, nt)]);
      return aggregate, i + l1 + 2;
    }
    MergePlainAlone(lex, tokens0, i);
    return tokens0[i], i + 1;
  }

  /** The merge loop of `tokenize` (lines 53-78). */
  method MergeTokens(lex: Lexicon, tokens0: seq<string>) returns (tokens1: seq<string>)
    ensures tokens1 == MergePlain(lex, tokens0, 0)
  {
    tokens1 := [];
    var nt := |tokens0|;
    var i := 0;
    while i < nt
      invariant 0 <= i <= nt + 1
      invariant PlainProgress(lex, tokens0, i, tokens1)
      decreases nt - i
    {
      var token, j := MergeAt(lex, tokens0, i);
      PlainStep(lex, tokens0, i, j, token, tokens1);
      tokens1 := tokens1 + [token];
      i := j;
    }
    PlainDone(lex, tokens0, i, tokens1);
  }

  /** One round of the merge loop of `tokenize2` (lines 129-151): the token it appends at
      position `i` and where the next round starts, or (`failed`) the out-of-range index
      `tokens0[j]` reads at line 141. */
  method MergeSegAt(lex: Lexicon, tokens0: seq<Seg>, i: nat) returns (token: Seg, j: nat, failed: bool)
    requires i < |tokens0|
    ensures !failed ==> i < j <= |tokens0| && MergePos(lex, tokens0, i) == Prepend(token, MergePos(lex, tokens0, j))
    ensures failed ==> MergePos(lex, tokens0, i) == IndexError(j)
  {
    var nt := |tokens0|;
    var utoken0 := lex.lower(tokens0[i].text);
    assert Texts(tokens0)[i] == tokens0[i].text;
    if utoken0 !in lex.prefixHyphen {
      MergePosAlone(lex, tokens0, i);
      return tokens0[i], i + 1, false;
    }
    var found := FindKnownWord(lex, Texts(tokens0), i);
    if found.Some? {
      var l1 := found.value;
      if i + l1 + 1 >= nt {
        // `tokens0[i + l1 + 1]` at line 141 is past the end of the list
        MergePosCutShort(lex, tokens0, i, l1);
        return tokens0[i], i + l1 + 1, true;
      }
      MergePosMerged(lex, tokens0, i, l1);
      var aggregate := Join(Texts(tokens0[i..i + l1 + 2]));
      TextsSlice(tokens0, i, i + l1 + 2);
      var compoundToken := Seg(aggregate, tokens0[i].start, tokens0[i + l1 + 1].end);
      return compoundToken, i + l1 + 2, false;
    }
    MergePosAlone(lex, tokens0, i);
    return tokens0[i], i + 1, false;
  }

  /** The merge loop of `tokenize2` (lines 126-151). */
  method MergeSegments(lex: Lexicon, tokens0: seq<Seg>) returns (r: Outcome)
    ensures r == MergePos(lex, tokens0, 0)
  {
    var tokens1: seq<Seg> := [];
    var nt := |tokens0|;
    var i := 0;
    while i < nt
      invariant 0 <= i <= nt
      invariant PosProgress(lex, tokens0, i, tokens1)
      decreases nt - i
    {
      var token, j, failed := MergeSegAt(lex, tokens0, i);
      if failed {
        PosFail(lex, tokens0, i, tokens1);
        return IndexError(j);
      }
      PosStep(lex, tokens0, i, j, token, tokens1);
      tokens1 := tokens1 + [token];
      i := j;
    }
    PosDone(lex, tokens0, i, tokens1);
    r := Ok(tokens1);
  }

  /** What `tokenize` promises: its tokens concatenate to the phrase after "--" -> "-"
      with every split character removed, there are no more of them than `tokenize0`
      makes, and each is a token of `tokenize0` or a known hyphenated word. */
  lemma TokenizeProperties(lex: Lexicon, phrase: string)
    ensures var tokens0 := Tokenize0(phrase);
            var tokens1 := MergePlain(lex, tokens0, 0);
            && Join(tokens1) == Without(ReplaceDoubleHyphen(phrase), IsSplitChar)
            && |tokens1| <= |tokens0|
            && (forall t :: t in tokens1 ==> t in tokens0 || MergedWord(lex, tokens0, 0, t))
  {
    var tokens0 := Tokenize0(phrase);
    MergePlainJoin(lex, tokens0, 0);
    assert tokens0[0..] == tokens0;
    MergePlainLength(lex, tokens0, 0);
    MergePlainKnown(lex, tokens0, 0);
  }

  /** What `tokenize2` promises: it fails exactly when a known word found at line 137-146
      reaches past the last segment, and then at the index one past the end; otherwise
      its texts are what the plain merge makes of the segment texts, every token is a
      segment or a known hyphenated word, and over a non-empty phrase the tokens are laid
      out in order, each spanning its own text, with only spaces between and around them.
      The empty phrase has the one segment `("", 0, 0)`. */
  lemma Tokenize2Properties(lex: Lexicon, phrase: string)
    ensures var segs := Segments(phrase);
            var r := MergePos(lex, segs, 0);
            && (r.Ok? <==> Fits(lex, Texts(segs), 0))
            && (r.IndexError? ==> r.index == |segs|)
            && (r.Ok? ==> Texts(r.tokens) == MergePlain(lex, Texts(segs), 0))
            && (r.Ok? ==> forall t :: t in r.tokens ==> t in segs || MergedBlock(lex, segs, 0, t))
            && (r.Ok? && phrase != [] ==> Layout(phrase, r.tokens))
            && (phrase == [] ==> segs == [Seg([], 0, 0)])
  {
    var segs := Segments(phrase);
    MergePosAgrees(lex, segs, 0);
    SegmentsAreSegmentation(phrase);
    if MergePos(lex, segs, 0).Ok? {
      MergePosKnown(lex, segs, 0);
      assert segs[0..] == segs;
      if phrase != [] {
        SegmentationLayout(phrase, segs);
        MergePosKeepsLayout(lex, phrase, segs);
      }
    }
  }

  /** `tokenize` of the empty phrase: `tokenize0` makes no token, and the merge none either. */
  lemma TokenizeEmpty(lex: Lexicon)
    ensures Tokenize0([]) == []
    ensures MergePlain(lex, Tokenize0([]), 0) == []
  {
    ReplaceStep([]);
    JoinNonEmpty(Tokenize0([]));
  }

  /** `tokenize2` of the empty phrase: the one segment `("", 0, 0)`, unless the lowercase
      empty string is a known prefix whose range admits the length 0 and a known word; then
      the candidate `tokens0[0:2]` is found and line 141 reads `tokens0[1]`, past the end. */
  lemma Tokenize2Empty(lex: Lexicon)
    ensures var key := lex.lower([]);
            MergePos(lex, Segments([]), 0)
            == if key in lex.prefixHyphen && lex.prefixHyphen[key].minLen == 0 <= lex.prefixHyphen[key].maxLen
                  && key in lex.wordsWithHyphen
               then IndexError(1)
               else Ok([Seg([], 0, 0)])
  {
    SegmentsAreSegmentation([]);
    var segs := [Seg([], 0, 0)];
    var ts := Texts(segs);
    assert ts == [[]];
    assert Candidate(ts, 0, 0) == [] by {
      assert ts[0..1] == [[]];
      JoinOne([]);
    }
    assert forall l :: Hits(lex, ts, 0, l) ==> l == 0;
    assert Hits(lex, ts, 0, 0) <==> lex.lower([]) in lex.wordsWithHyphen;
    ChooseSpec(lex, ts, 0);
    var key := lex.lower([]);
    if key in lex.prefixHyphen && lex.prefixHyphen[key].minLen == 0 <= lex.prefixHyphen[key].maxLen
       && key in lex.wordsWithHyphen {
      assert Choose(lex, ts, 0) == Some(0);
    } else {
      assert Choose(lex, ts, 0) == None;
      assert MergePos(lex, segs, 1) == Ok([]);
    }
  }

  class Tokenizer {
    /** Python's `str.lower`, which the dictionaries are keyed by. */
    const lower: string -> string
    /** `words_with_hyphen`: `None` until `load`. */
    var wordsWithHyphen: Option<set<string>>
    /** `prefix_hyphen`: `None` until `load`. */
    var prefixHyphen: Option<map<string, LenRange>>

    /** `__init__` (lines 22-28): no dictionaries yet. */
    constructor(lower: string -> string)
      ensures this.lower == lower
      ensures wordsWithHyphen == None && prefixHyphen == None
    {
      this.lower := lower;
      wordsWithHyphen := None;
      prefixHyphen := None;
    }

    /** `load` has filled in both dictionaries. */
    predicate Loaded()
      reads this
    {
      wordsWithHyphen.Some? && prefixHyphen.Some?
    }

    /** The dictionaries as the merge sees them. */
    function Lex(): Lexicon
      reads this
      requires Loaded()
    {
      Lexicon(prefixHyphen.value, wordsWithHyphen.value, lower)
    }

    /** `load` (lines 30-39), with the unpickled data passed in. */
    method Load(words: set<string>, prefixes: map<string, LenRange>)
      modifies this
      ensures wordsWithHyphen == Some(words) && prefixHyphen == Some(prefixes)
      ensures Loaded() && Lex() == Lexicon(prefixes, words, lower)
    {
      wordsWithHyphen := Some(words);
      prefixHyphen := Some(prefixes);
    }

    /** `tokenize` (lines 47-78): the plain tokens of `tokenize0`, merged. */
    method Tokenize(phrase: string) returns (tokens1: seq<string>)
      requires Loaded()
      ensures tokens1 == MergePlain(Lex(), Tokenize0(phrase), 0)
    {
      var lex := Lex();
      var tokens0 := Tokenize0(phrase);
      tokens1 := MergeTokens(lex, tokens0);
    }

    /** `tokenize2` (lines 83-151): the positional segments, merged; `IndexError` when the
        source raises it at line 141. */
    method Tokenize2(phrase: string) returns (r: Outcome)
      requires Loaded()
      ensures r == MergePos(Lex(), Segments(phrase), 0)
    {
      var lex := Lex();
      var delimTokens := FindDelimiters(phrase);
      var tokens0 := SplitAtDelimiters(phrase, delimTokens);
      r := MergeSegments(lex, tokens0);
    }
  }
}
