/** A reference reading of a phrase, character by character from the left, and the two
    segmenters of rutokenizer/tokenizer.py measured against it: `tokenize0` (lines 42-45)
    is exactly this reading of the phrase after "--" -> "-", and the texts of the
    pre-merge segments of `tokenize2` (lines 93-122) are exactly this reading whenever the
    phrase is not empty and holds none of the three characters (tab, backslash, `s`) on
    which the two split classes of lines 23 and 25 differ. */
module Chunking {
  import opened CharClasses
  import opened Text
  import opened PlainSegmenter
  import opened PositionalSegmenter

  /** The reading so far: the finished tokens, and the word being read. */
  datatype ScanState = ScanState(done: seq<string>, cur: string)

  /** A word as a token list: nothing when it is empty. */
  function Word(w: string): seq<string>
  {
    if w == [] then [] else [w]
  }

  /** Reading one more character: a split character ends the current word, a delimiter
      ends it and is a token of its own, any other character extends it. */
  function Step(st: ScanState, c: char): ScanState
  {
    if IsSplitChar(c) then ScanState(st.done + Word(st.cur), [])
    else if IsDelimiter(c) then ScanState(st.done + Word(st.cur) + [[c]], [])
    else ScanState(st.done, st.cur + [c])
  }

  /** The first `n` characters of `p` read one at a time. */
  function Scan(p: string, n: nat): ScanState
    requires n <= |p|
  {
    if n == 0 then ScanState([], []) else Step(Scan(p, n - 1), p[n - 1])
  }

  /** The whole reading: the finished tokens and the last word. */
  function Chunks(p: string): seq<string>
  {
    var st := Scan(p, |p|);
    st.done + Word(st.cur)
  }

  /** The word being read holds no split character and no delimiter. */
  lemma {:induction false} ScanWord(p: string, n: nat)
    requires n <= |p|
    ensures Clean(Scan(p, n).cur) && NoDelimiter(Scan(p, n).cur)
  {
    if n > 0 {
      ScanWord(p, n - 1);
      var w := Scan(p, n - 1).cur;
      var c := p[n - 1];
      if !IsSplitChar(c) && !IsDelimiter(c) {
        assert forall j :: 0 <= j < |w + [c]| ==> (w + [c])[j] == (if j < |w| then w[j] else c);
      }
    }
  }

  /** Reading a stretch of characters that are neither split characters nor delimiters
      only extends the current word. */
  lemma {:induction false} ScanRun(p: string, g: nat, e: nat)
    requires g <= e <= |p|
    requires forall q :: g <= q < e ==> !IsSplitChar(p[q]) && !IsDelimiter(p[q])
    ensures Scan(p, e) == ScanState(Scan(p, g).done, Scan(p, g).cur + p[g..e])
    decreases e - g
  {
    if e == g {
      assert p[g..e] == [];
      assert Scan(p, g).cur + [] == Scan(p, g).cur;
    } else {
      ScanRun(p, g, e - 1);
      var st, c := Scan(p, e - 1), p[e - 1];
      assert !IsSplitChar(c) && !IsDelimiter(c);
      assert Scan(p, e) == Step(st, c) == ScanState(st.done, st.cur + [c]);
      assert p[g..e] == p[g..e - 1] + [c];
      AppendAssoc(Scan(p, g).cur, p[g..e - 1], [c]);
    }
  }

  // ---------------------------------------------------------------------------------------
  // The plain segmenter

  /** `regex1.split` followed by the filter of line 45. */
  function Pieces(s: string): seq<string>
  {
    NonEmpty(SplitFrom(s, []))
  }

  lemma {:induction false} NonEmptyAppend(a: seq<string>, b: seq<string>)
    ensures NonEmpty(a + b) == NonEmpty(a) + NonEmpty(b)
    decreases |a|
  {
    if a != [] {
      assert (a + b)[0] == a[0] && (a + b)[1..] == a[1..] + b;
      NonEmptyAppend(a[1..], b);
      if a[0] != [] {
        assert [a[0]] + (NonEmpty(a[1..]) + NonEmpty(b)) == [a[0]] + NonEmpty(a[1..]) + NonEmpty(b);
      }
    } else {
      assert a + b == b;
    }
  }

  /** A word with no split character is read into the current piece. */
  lemma {:induction false} SplitAfterWord(w: string, y: string, cur: string)
    requires Clean(w)
    ensures SplitFrom(w + y, cur) == SplitFrom(y, cur + w)
    decreases |w|
  {
    if w == [] {
      assert w + y == y && cur + w == cur;
    } else {
      var s := w + y;
      assert s[0] == w[0] && !IsSplitChar(w[0]);
      DropFront(w, y, 1);
      assert Clean(w[1..]) by {
        assert forall j :: 0 <= j < |w[1..]| ==> w[1..][j] == w[j + 1];
      }
      SplitAfterWord(w[1..], y, cur + [w[0]]);
      assert (cur + [w[0]]) + w[1..] == cur + w by {
        assert w == [w[0]] + w[1..];
        AppendAssoc(cur, [w[0]], w[1..]);
      }
    }
  }

  /** The pieces of a word with no split character: the word, unless it is empty. */
  lemma PiecesOfWord(w: string)
    requires Clean(w)
    ensures Pieces(w) == Word(w)
  {
    SplitAfterWord(w, [], []);
    assert w + [] == w && [] + w == w;
    assert SplitFrom(w, []) == [w];
    assert [w][1..] == [];
    assert NonEmpty([w]) == Word(w);
  }

  /** Split characters at the front only add empty pieces. */
  lemma SkipLeading(y: string)
    ensures NonEmpty(SplitFrom(SkipRun(y), [])) == Pieces(y)
  {
    if y != [] && IsSplitChar(y[0]) {
      var rest := SplitFrom(SkipRun(y), []);
      var ps := [[]] + rest;
      assert SplitFrom(y, []) == ps;
      assert ps[0] == [] && ps[1..] == rest;
      assert NonEmpty(ps) == NonEmpty(rest);
    } else {
      assert SkipRun(y) == y;
    }
  }

  /** A split character separates: the pieces on its two sides are found independently. */
  lemma {:induction false} SplitAt(x: string, sp: char, y: string, cur: string)
    requires IsSplitChar(sp)
    ensures NonEmpty(SplitFrom(x + [sp] + y, cur)) == NonEmpty(SplitFrom(x, cur)) + Pieces(y)
    decreases |x|
  {
    var s := x + [sp] + y;
    if x == [] {
      assert s == [sp] + y && s[0] == sp && s[1..] == y;
      assert SkipRun(s) == SkipRun(y);
      SkipLeading(y);
      NonEmptyAppend([cur], SplitFrom(SkipRun(s), []));
    } else {
      var t := [sp] + y;
      assert s == x + t by {
        AppendAssoc(x, [sp], y);
      }
      DropFront(x, t, 1);
      assert s[0] == x[0] && s[1..] == x[1..] + [sp] + y by {
        AppendAssoc(x[1..], [sp], y);
      }
      if IsSplitChar(x[0]) {
        assert SkipRun(s) == SkipRun(s[1..]) && SkipRun(x) == SkipRun(x[1..]);
        SkipLeading(s[1..]);
        SkipLeading(x[1..]);
        SplitAt(x[1..], sp, y, []);
        NonEmptyAppend([cur], SplitFrom(SkipRun(s), []));
        NonEmptyAppend([cur], SplitFrom(SkipRun(x), []));
        var a, b := NonEmpty([cur]), NonEmpty(SplitFrom(x[1..], []));
        AppendAssoc(a, b, Pieces(y));
      } else {
        SplitAt(x[1..], sp, y, cur + [x[0]]);
      }
    }
  }

  lemma {:induction false} PadAppend(a: string, b: string)
    ensures PadDelimiters(a + b) == PadDelimiters(a) + PadDelimiters(b)
    decreases |a|
  {
    if a == [] {
      assert a + b == b;
    } else {
      DropFront(a, b, 1);
      assert (a + b)[0] == a[0];
      PadAppend(a[1..], b);
      AppendAssoc(PadChar(a[0]), PadDelimiters(a[1..]), PadDelimiters(b));
    }
  }

  lemma PadOne(c: char)
    ensures PadDelimiters([c]) == PadChar(c)
  {
    assert [c][1..] == [];
    assert PadChar(c) + [] == PadChar(c);
  }

  /** Padding the first `n` characters pads the first `n - 1` and then the last one. */
  lemma PadPrefix(p: string, n: nat)
    requires 0 < n <= |p|
    ensures PadDelimiters(p[..n]) == PadDelimiters(p[..n - 1]) + PadChar(p[n - 1])
  {
    assert p[..n] == p[..n - 1] + [p[n - 1]];
    PadAppend(p[..n - 1], [p[n - 1]]);
    PadOne(p[n - 1]);
  }

  /** One step of the reading against `regex1.split` over the padded text: the padding of
      `c` followed by `y`, after the current word, splits as the step leaves it. */
  lemma StepPieces(st: ScanState, c: char, y: string)
    requires Clean(st.cur)
    ensures st.done + Pieces(st.cur + (PadChar(c) + y)) == Step(st, c).done + Pieces(Step(st, c).cur + y)
  {
    if IsSplitChar(c) {
      SplitStep(st, c, y);
      assert [] + y == y;
    } else if IsDelimiter(c) {
      DelimiterStep(st, c, y);
      assert [] + y == y;
    } else {
      AppendAssoc(st.cur, [c], y);
    }
  }

  lemma SplitStep(st: ScanState, c: char, y: string)
    requires Clean(st.cur) && IsSplitChar(c)
    ensures st.done + Pieces(st.cur + ([c] + y)) == st.done + Word(st.cur) + Pieces(y)
  {
    AppendAssoc(st.cur, [c], y);
    SplitAt(st.cur, c, y, []);
    PiecesOfWord(st.cur);
    AppendAssoc(st.done, Word(st.cur), Pieces(y));
  }

  lemma DelimiterStep(st: ScanState, c: char, y: string)
    requires Clean(st.cur) && IsDelimiter(c)
    ensures st.done + Pieces(st.cur + ([' ', c, ' '] + y)) == st.done + Word(st.cur) + [[c]] + Pieces(y)
  {
    ClassRelations(c);
    var rest := [c, ' '] + y;
    assert [' ', c, ' '] + y == [' '] + rest;
    AppendAssoc(st.cur, [' '], rest);
    SplitAt(st.cur, ' ', rest, []);
    PiecesOfWord(st.cur);
    assert rest == [c] + [' '] + y;
    SplitAt([c], ' ', y, []);
    assert Clean([c]);
    PiecesOfWord([c]);
    assert Pieces(rest) == [[c]] + Pieces(y);
    AppendAssoc(Word(st.cur), [[c]], Pieces(y));
    AppendAssoc(st.done, Word(st.cur) + [[c]], Pieces(y));
    AppendAssoc(st.done, Word(st.cur), [[c]]);
  }

  /** The invariant of the reading against `tokenize0`: the padded first `n` characters,
      followed by any text `y`, split into the finished tokens and then the pieces of the
      current word followed by `y`. */
  lemma {:induction false} PiecesOfPrefix(p: string, n: nat, y: string)
    requires n <= |p|
    ensures Pieces(PadDelimiters(p[..n]) + y) == Scan(p, n).done + Pieces(Scan(p, n).cur + y)
  {
    if n == 0 {
      assert p[..0] == [] && PadDelimiters([]) == [];
      assert [] + y == y;
    } else {
      var c := p[n - 1];
      PadPrefix(p, n);
      AppendAssoc(PadDelimiters(p[..n - 1]), PadChar(c), y);
      PiecesOfPrefix(p, n - 1, PadChar(c) + y);
      ScanWord(p, n - 1);
      StepPieces(Scan(p, n - 1), c, y);
    }
  }

  /** `tokenize0` is the reference reading of the phrase after "--" -> "-": text is cut at
      every split character and around every delimiter, and nowhere else. */
  lemma TokenizeChunks(phrase: string)
    ensures Tokenize0(phrase) == Chunks(ReplaceDoubleHyphen(phrase))
  {
    var s := ReplaceDoubleHyphen(phrase);
    assert s[..|s|] == s;
    PiecesOfPrefix(s, |s|, []);
    assert PadDelimiters(s) + [] == PadDelimiters(s);
    assert Scan(s, |s|).cur + [] == Scan(s, |s|).cur;
    ScanWord(s, |s|);
    PiecesOfWord(Scan(s, |s|).cur);
  }

  /** A non-empty phrase with no split character and no delimiter is one token. */
  lemma PlainSingleToken(phrase: string)
    requires phrase != []
    requires forall q :: 0 <= q < |phrase| ==> !IsSplitChar(phrase[q]) && !IsDelimiter(phrase[q])
    ensures Tokenize0(phrase) == [phrase]
  {
    assert forall j :: 0 <= j < |phrase| ==> phrase[j] != '-';
    assert !HasDoubleHyphen(phrase);
    TokenizeChunks(phrase);
    ScanRun(phrase, 0, |phrase|);
    assert phrase[0..|phrase|] == phrase && [] + phrase == phrase;
    assert Scan(phrase, |phrase|) == ScanState([], phrase);
  }

  // ---------------------------------------------------------------------------------------
  // The positional segmenter

  /** `p` holds none of tab, backslash and `s`, the characters that split in line 23 but
      are no space in line 25. */
  predicate SplitIsSpace(p: string)
  {
    forall q :: 0 <= q < |p| ==> p[q] != '\t' && p[q] != '\\' && p[q] != 's'
  }

  lemma GapTexts(p: string, g: int, e: int)
    requires 0 <= g <= e <= |p|
    ensures Texts(GapPart(p, g, e)) == Word(p[g..e])
  {
  }

  /** After the first `k` iterations of the loop of lines 98-115 the reading has finished
      exactly the segment texts, and has no word pending. */
  lemma {:induction false} ScanUpTo(p: string, k: nat)
    requires SplitIsSpace(p) && k <= |Delims(p)|
    ensures Scan(p, GapStart(Delims(p), k)) == ScanState(Texts(SegmentsUpTo(p, k)), [])
  {
    if k > 0 {
      ScanUpTo(p, k - 1);
      ScanMatch(p, k);
    }
  }

  /** Reading the gap before match `k - 1`, with no word pending, makes the gap the word. */
  lemma ScanGap(p: string, k: nat, done: seq<string>)
    requires SplitIsSpace(p) && 0 < k <= |Delims(p)|
    requires Scan(p, GapStart(Delims(p), k - 1)) == ScanState(done, [])
    ensures var d := Delims(p);
            var g := GapStart(d, k - 1);
            g <= d[k - 1].start && Scan(p, d[k - 1].start) == ScanState(done, p[g..d[k - 1].start])
  {
    var d := Delims(p);
    var g, e := GapStart(d, k - 1), d[k - 1].start;
    MatchGap(p, |p|, k - 1);
    forall q | g <= q < e
      ensures !IsSplitChar(p[q]) && !IsDelimiter(p[q])
    {
      ClassRelations(p[q]);
    }
    ScanRun(p, g, e);
    assert [] + p[g..e] == p[g..e];
  }

  /** Reading the gap before match `k - 1` and the match itself finishes the gap's text
      and, for a delimiter, the delimiter, as iteration `k` appends them. */
  lemma ScanMatch(p: string, k: nat)
    requires SplitIsSpace(p) && 0 < k <= |Delims(p)|
    requires var d := Delims(p);
             Scan(p, GapStart(d, k - 1)) == ScanState(Texts(SegmentsUpTo(p, k - 1)), [])
    ensures Scan(p, GapStart(Delims(p), k)) == ScanState(Texts(SegmentsUpTo(p, k)), [])
  {
    var d := Delims(p);
    var m, g := d[k - 1], GapStart(d, k - 1);
    var prev := SegmentsUpTo(p, k - 1);
    ScanGap(p, k, Texts(prev));
    assert IsMatch(p, m);
    assert GapStart(d, k) == m.start + 1;
    assert Scan(p, m.start + 1) == Step(Scan(p, m.start), p[m.start]);
    StepOverMatch(p, prev, g, m);
  }

  /** Iteration `k` of the loop of lines 98-115 appends the texts that one step of the
      reading finishes at the match. */
  lemma StepOverMatch(p: string, prev: seq<Seg>, g: int, m: Seg)
    requires SplitIsSpace(p) && IsMatch(p, m) && 0 <= g <= m.start
    ensures Step(ScanState(Texts(prev), p[g..m.start]), p[m.start])
         == ScanState(Texts(prev + GapPart(p, g, m.start) + MatchPart(m)), [])
  {
    var c := p[m.start];
    ClassRelations(c);
    TextsAppend(prev, GapPart(p, g, m.start));
    TextsAppend(prev + GapPart(p, g, m.start), MatchPart(m));
    GapTexts(p, g, m.start);
    if IsSpace(c) {
      assert MatchPart(m) == [];
    } else {
      assert MatchPart(m) == [m] && Texts([m]) == [[c]];
    }
  }

  /** The pre-merge segment texts of `tokenize2` are the reference reading of a non-empty
      phrase over which the split classes of lines 23 and 25 agree. */
  lemma SegmentsChunks(p: string)
    requires p != [] && SplitIsSpace(p)
    ensures Texts(Segments(p)) == Chunks(p)
  {
    var d := Delims(p);
    var g := GapStart(d, |d|);
    ScanUpTo(p, |d|);
    forall q | g <= q < |p|
      ensures !IsSplitChar(p[q]) && !IsDelimiter(p[q])
    {
      ClassRelations(p[q]);
    }
    ScanRun(p, g, |p|);
    assert [] + p[g..|p|] == p[g..|p|];
    assert Trailing(p) == GapPart(p, g, |p|) by {
      if g != |p| {
        assert p[g..] == p[g..|p|];
      }
    }
    GapTexts(p, g, |p|);
    TextsAppend(SegmentsUpTo(p, |d|), Trailing(p));
  }

  /** Both modes cut a phrase the same way when it is not empty, has no "--" and holds
      none of tab, backslash and `s`: the tokens of `tokenize0` are the texts of the
      pre-merge segments of `tokenize2`. */
  lemma SegmentersAgree(p: string)
    requires p != [] && SplitIsSpace(p) && !HasDoubleHyphen(p)
    ensures Tokenize0(p) == Texts(Segments(p))
  {
    TokenizeChunks(p);
    SegmentsChunks(p);
  }

  /** Where the two modes part: tab, backslash and `s` split in line 23 but are no space
      of line 25, so between two words `tokenize0` cuts there (and drops the character)
      while `tokenize2` keeps one segment; "yes" is read as "ye" by the first and kept
      whole by the second. */
  lemma SplitClassesDiffer(w: string, c: char, v: string)
    requires w != []
    requires c == '\t' || c == '\\' || c == 's'
    requires forall q :: 0 <= q < |w| ==> !IsSplitChar(w[q]) && !IsDelimiter(w[q])
    requires forall q :: 0 <= q < |v| ==> !IsSplitChar(v[q]) && !IsDelimiter(v[q])
    ensures Tokenize0(w + [c] + v) == [w] + Word(v)
    ensures Segments(w + [c] + v) == [Seg(w + [c] + v, 0, |w| + 1 + |v|)]
  {
    var p := w + [c] + v;
    AroundSplitChar(w, c, v);
    PlainCutsAt(p, |w|);
    NoDelimiterSingleSegment(p);
  }

  /** The character facts about `w + [c] + v` that `SplitClassesDiffer` relies on. */
  lemma AroundSplitChar(w: string, c: char, v: string)
    requires c == '\t' || c == '\\' || c == 's'
    requires forall q :: 0 <= q < |w| ==> !IsSplitChar(w[q]) && !IsDelimiter(w[q])
    requires forall q :: 0 <= q < |v| ==> !IsSplitChar(v[q]) && !IsDelimiter(v[q])
    ensures var p := w + [c] + v;
            && |w| < |p| && IsSplitChar(p[|w|])
            && (forall q :: 0 <= q < |p| && q != |w| ==> !IsSplitChar(p[q]) && !IsDelimiter(p[q]))
            && (forall q :: 0 <= q < |p| ==> !IsDelimiter2(p[q]) && p[q] != '-')
            && p[0..|w|] == w && p[|w| + 1..|p|] == v
  {
    var p := w + [c] + v;
    forall q | 0 <= q < |p|
      ensures p[q] == (if q < |w| then w[q] else if q == |w| then c else v[q - |w| - 1])
    {
    }
    forall q | 0 <= q < |p|
      ensures !IsDelimiter2(p[q]) && p[q] != '-'
    {
      ClassRelations(p[q]);
    }
    assert p[0..|w|] == w && p[|w| + 1..|p|] == v;
  }

  /** A phrase with no delimiter and a split character at `n` only: `tokenize0` cuts it
      there. */
  lemma PlainCutsAt(p: string, n: nat)
    requires n < |p| && IsSplitChar(p[n])
    requires forall q :: 0 <= q < |p| && q != n ==> !IsSplitChar(p[q]) && !IsDelimiter(p[q])
    requires forall q :: 0 <= q < |p| ==> p[q] != '-'
    ensures Tokenize0(p) == Word(p[0..n]) + Word(p[n + 1..|p|])
  {
    assert !HasDoubleHyphen(p);
    TokenizeChunks(p);
    ScanRun(p, 0, n);
    assert [] + p[0..n] == p[0..n];
    assert Scan(p, n + 1) == ScanState(Word(p[0..n]), []);
    ScanRun(p, n + 1, |p|);
    assert [] + p[n + 1..|p|] == p[n + 1..|p|];
  }
}
