/** The positional segmenter, the first half of `tokenize2` (rutokenizer/tokenizer.py:90-122):
    the single-character matches of `delimiters2`, the text between them, and the
    delimiters themselves except the space characters, each with its offsets. */
module PositionalSegmenter {
  import opened CharClasses
  import opened Text

  /** A token with its character offsets, the tuple `(text, start, end)`; `end` is exclusive. */
  datatype Seg = Seg(text: string, start: int, end: int)

  function Texts(segs: seq<Seg>): seq<string>
  {
    seq(|segs|, k requires 0 <= k < |segs| => segs[k].text)
  }

  /** One match of `delimiters2` in `p`: a single delimiter-or-space character with its offsets. */
  predicate IsMatch(p: string, m: Seg)
  {
    0 <= m.start < |p| && m.end == m.start + 1 && m.text == [p[m.start]] && IsDelimiter2(p[m.start])
  }

  /** Where the gap before match `k` begins: the end of match `k - 1`, or 0 for the first. */
  function GapStart(d: seq<Seg>, k: int): int
  {
    if 0 < k <= |d| then d[k - 1].end else 0
  }

  /** Where the gaps of `[t] + rest` begin: after `t`, then as in `rest`. */
  lemma GapStartCons(t: Seg, rest: seq<Seg>)
    ensures GapStart([t] + rest, 0) == 0
    ensures rest != [] ==> GapStart([t] + rest, 1) == t.end
    ensures forall k :: 1 < k <= |rest| + 1 ==> GapStart([t] + rest, k) == GapStart(rest, k - 1)
  {
  }

  /** `delimiters2.finditer(p)` over the first `n` characters, as `(group, start, end)`:
      the matches are in increasing order, and no character between two matches, or
      after the last one, belongs to the class. */
  function Matches(p: string, n: nat): (d: seq<Seg>)
    requires n <= |p|
    ensures forall k :: 0 <= k < |d| ==> IsMatch(p, d[k]) && d[k].start < n
    ensures forall k {:trigger GapStart(d, k)} :: 0 <= k < |d| ==> GapStart(d, k) <= d[k].start
    ensures forall q :: 0 <= GapStart(d, |d|) <= q < n ==> !IsDelimiter2(p[q])
  {
    if n == 0 then
      []
    else
      var d := Matches(p, n - 1);
      if IsDelimiter2(p[n - 1]) then
        var d' := d + [Seg([p[n - 1]], n - 1, n)];
        assert forall k :: 0 <= k < |d| ==> GapStart(d', k) == GapStart(d, k);
        d'
      else
        d
  }

  /** No character between two consecutive matches belongs to the class of line 26. */
  lemma {:induction false} MatchGap(p: string, n: nat, k: nat)
    requires n <= |p| && k < |Matches(p, n)|
    ensures forall q :: GapStart(Matches(p, n), k) <= q < Matches(p, n)[k].start ==> !IsDelimiter2(p[q])
  {
    var d := Matches(p, n);
    assert n > 0;
    var d0 := Matches(p, n - 1);
    assert d[..|d0|] == d0;
    if k < |d0| {
      assert d[k] == d0[k] && GapStart(d, k) == GapStart(d0, k);
      MatchGap(p, n - 1, k);
    } else {
      assert d[k].start == n - 1 && GapStart(d, k) == GapStart(d0, |d0|);
    }
  }

  /** All matches of `delimiters2` in `p`: `delim_tokens` (lines 93-96). */
  function Delims(p: string): seq<Seg>
  {
    Matches(p, |p|)
  }

  /** The text since the previous match, from `g` to `e`, as a token when it is not empty. */
  function GapPart(p: string, g: int, e: int): seq<Seg>
    requires 0 <= g <= e <= |p|
  {
    if g != e then [Seg(p[g..e], g, e)] else []
  }

  /** The match itself as a token, unless it is a space (lines 110-115). */
  function MatchPart(m: Seg): seq<Seg>
  {
    if IsSpaceMatch(m.text) then [] else [m]
  }

  /** `tokens0` after the first `n` iterations of the loop at lines 98-115: each iteration
      appends the text since the previous match, then the match itself. */
  function SegmentsUpTo(p: string, n: nat): seq<Seg>
    requires n <= |Delims(p)|
  {
    if n == 0 then
      []
    else
      var d := Delims(p);
      SegmentsUpTo(p, n - 1) + GapPart(p, GapStart(d, n - 1), d[n - 1].start) + MatchPart(d[n - 1])
  }

  /** The last token of lines 118-122: the text after the last match, or the whole phrase
      when nothing matched; nothing when the phrase ends with a match. */
  function Trailing(p: string): seq<Seg>
  {
    var d := Delims(p);
    if |d| == 0 || d[|d| - 1].end != |p| then
      var st := if |d| > 0 then d[|d| - 1].end else 0;
      [Seg(p[st..], st, |p|)]
    else
      []
  }

  /** `tokens0` of `tokenize2`, before the merge. */
  function Segments(p: string): seq<Seg>
  {
    SegmentsUpTo(p, |Delims(p)|) + Trailing(p)
  }

  /** Every position in `[lo, hi)` is a position of `p` holding a space character. */
  predicate Spaces(p: string, lo: int, hi: int)
  {
    forall q :: lo <= q < hi ==> 0 <= q < |p| && IsSpace(p[q])
  }

  /** A pre-merge segment: a non-empty slice of `p` that is either one non-space delimiter
      or free of delimiters and spaces. */
  predicate Piece(p: string, s: Seg)
  {
    && 0 <= s.start < s.end <= |p|
    && s.text == p[s.start..s.end]
    && ((s.end == s.start + 1 && IsDelimiter(p[s.start]))
        || forall q :: s.start <= q < s.end ==> !IsDelimiter2(p[q]))
  }

  /** The segments are pieces of `p` ending by `hi`. */
  predicate PiecesBelow(p: string, segs: seq<Seg>, hi: int)
  {
    forall k :: 0 <= k < |segs| ==> Piece(p, segs[k]) && segs[k].end <= hi
  }

  /** Only spaces lie before, between and after the segments, up to `hi`; so the segments
      are in increasing order and do not overlap. */
  predicate SpacedOut(p: string, segs: seq<Seg>, hi: int)
  {
    && (forall k {:trigger GapStart(segs, k)} :: 0 <= k < |segs| ==>
          GapStart(segs, k) <= segs[k].start && Spaces(p, GapStart(segs, k), segs[k].start))
    && Spaces(p, GapStart(segs, |segs|), hi)
  }

  /** The texts concatenate to `p[..hi]` without its spaces. */
  predicate JoinsTo(p: string, segs: seq<Seg>, hi: int)
    requires 0 <= hi <= |p|
  {
    Join(Texts(segs)) == Without(p[..hi], IsSpace)
  }

  /** Every delimiter of `p[..hi]` is a one-character segment at its offset. */
  predicate DelimitersKept(p: string, segs: seq<Seg>, hi: int)
    requires hi <= |p|
  {
    forall q :: 0 <= q < hi && IsDelimiter(p[q]) ==> Seg([p[q]], q, q + 1) in segs
  }

  /** `s` is a single non-space delimiter of `p`. */
  predicate LoneDelimiter(p: string, s: Seg)
  {
    0 <= s.start < |p| && s.end == s.start + 1 && IsDelimiter(p[s.start])
  }

  /** `s` reaches back to the start of `p` or to a delimiter or space, and forward to the end
      of `p` or to a delimiter or space: it is a whole run of other characters. */
  predicate Bounded(p: string, s: Seg)
  {
    && (s.start == 0 || (0 < s.start <= |p| && IsDelimiter2(p[s.start - 1])))
    && (s.end == |p| || (0 <= s.end < |p| && IsDelimiter2(p[s.end])))
  }

  /** No segment other than a lone delimiter is cut short: text is split only at
      delimiters and spaces. */
  predicate Maximal(p: string, segs: seq<Seg>)
  {
    forall k :: 0 <= k < |segs| && !LoneDelimiter(p, segs[k]) ==> Bounded(p, segs[k])
  }

  /** `segs` segments `p[..hi]`: pieces in increasing, non-overlapping order with only
      spaces before, between and after them, each a lone delimiter or a whole run of
      other characters, concatenating to `p[..hi]` without its spaces, and every
      delimiter of `p[..hi]` appearing as a one-character segment at its offset. */
  predicate Segmentation(p: string, segs: seq<Seg>, hi: int)
  {
    && 0 <= hi <= |p|
    && PiecesBelow(p, segs, hi)
    && SpacedOut(p, segs, hi)
    && Maximal(p, segs)
    && JoinsTo(p, segs, hi)
    && DelimitersKept(p, segs, hi)
  }

  lemma TextsAppend(a: seq<Seg>, b: seq<Seg>)
    ensures Texts(a + b) == Texts(a) + Texts(b)
  {
  }

  /** Appending one segment to a segmentation: the text concatenation grows by its text. */
  lemma JoinTextsSnoc(segs: seq<Seg>, s: Seg)
    ensures Join(Texts(segs + [s])) == Join(Texts(segs)) + s.text
  {
    TextsAppend(segs, [s]);
    assert Texts([s]) == [s.text];
    JoinAppend(Texts(segs), [s.text]);
    JoinOne(s.text);
  }

  lemma WithoutPrefixSnoc(p: string, lo: int, hi: int)
    requires 0 <= lo <= hi <= |p|
    ensures Without(p[..hi], IsSpace) == Without(p[..lo], IsSpace) + Without(p[lo..hi], IsSpace)
  {
    assert p[..hi] == p[..lo] + p[lo..hi];
    WithoutAppend(p[..lo], p[lo..hi], IsSpace);
  }

  /** Spaces between two stretches of text vanish when the spaces are removed. */
  lemma WithoutAcrossSpaces(p: string, s: int, m: int, e: int, f: int)
    requires 0 <= s <= m <= e <= f <= |p| && Spaces(p, m, e)
    ensures Without(p[s..f], IsSpace) == Without(p[s..m], IsSpace) + Without(p[e..f], IsSpace)
  {
    assert Without(p[s..e], IsSpace) == Without(p[s..m], IsSpace) by {
      WithoutSplit(p, s, m, e, IsSpace);
      WithoutEverything(p[m..e], IsSpace);
      assert Without(p[s..m], IsSpace) + [] == Without(p[s..m], IsSpace);
    }
    WithoutSplit(p, s, e, f, IsSpace);
  }

  lemma EmptySegmentation(p: string)
    ensures Segmentation(p, [], 0)
  {
    assert p[..0] == [];
  }

  lemma SnocPieces(p: string, segs: seq<Seg>, s: Seg)
    requires PiecesBelow(p, segs, s.start) && Piece(p, s)
    ensures PiecesBelow(p, segs + [s], s.end)
  {
    var segs' := segs + [s];
    forall k | 0 <= k < |segs'|
      ensures Piece(p, segs'[k]) && segs'[k].end <= s.end
    {
      if k < |segs| {
        assert segs'[k] == segs[k];
      }
    }
  }

  lemma SnocSpaced(p: string, segs: seq<Seg>, s: Seg)
    requires SpacedOut(p, segs, s.start) && GapStart(segs, |segs|) <= s.start < s.end
    ensures SpacedOut(p, segs + [s], s.end)
  {
    var segs' := segs + [s];
    assert forall k :: 0 <= k <= |segs| ==> GapStart(segs', k) == GapStart(segs, k);
    assert GapStart(segs', |segs'|) == s.end;
  }

  lemma SnocJoins(p: string, segs: seq<Seg>, s: Seg)
    requires Piece(p, s) && JoinsTo(p, segs, s.start)
    ensures JoinsTo(p, segs + [s], s.end)
  {
    JoinTextsSnoc(segs, s);
    WithoutPrefixSnoc(p, s.start, s.end);
    forall j | 0 <= j < |s.text|
      ensures !IsSpace(s.text[j])
    {
      assert s.text[j] == p[s.start + j];
      ClassRelations(p[s.start + j]);
    }
    WithoutNothing(s.text, IsSpace);
  }

  lemma SnocKept(p: string, segs: seq<Seg>, s: Seg)
    requires Piece(p, s) && DelimitersKept(p, segs, s.start)
    ensures DelimitersKept(p, segs + [s], s.end)
  {
    var segs' := segs + [s];
    forall q | 0 <= q < s.end && IsDelimiter(p[q])
      ensures Seg([p[q]], q, q + 1) in segs'
    {
      if q < s.start {
        assert Seg([p[q]], q, q + 1) in segs;
      } else {
        ClassRelations(p[q]);
        assert p[s.start..s.end] == [p[q]];
        assert segs'[|segs|] == Seg([p[q]], q, q + 1);
      }
    }
  }

  lemma SnocMaximal(p: string, segs: seq<Seg>, s: Seg)
    requires Maximal(p, segs) && (LoneDelimiter(p, s) || Bounded(p, s))
    ensures Maximal(p, segs + [s])
  {
    var segs' := segs + [s];
    assert forall k :: 0 <= k < |segs| ==> segs'[k] == segs[k];
  }

  /** A segmentation up to `s.start` followed by the piece `s`, a lone delimiter or a whole
      run, is one up to `s.end`. */
  lemma ExtendByPiece(p: string, segs: seq<Seg>, s: Seg)
    requires Segmentation(p, segs, s.start) && Piece(p, s)
    requires LoneDelimiter(p, s) || Bounded(p, s)
    ensures Segmentation(p, segs + [s], s.end)
  {
    SnocPieces(p, segs, s);
    SnocMaximal(p, segs, s);
    assert GapStart(segs, |segs|) <= s.start by {
      if segs != [] {
        assert segs[|segs| - 1].end <= s.start;
      }
    }
    SnocSpaced(p, segs, s);
    SnocJoins(p, segs, s);
    SnocKept(p, segs, s);
  }

  /** Extending past one space character. */
  lemma ExtendSpace(p: string, segs: seq<Seg>, hi: int)
    requires Segmentation(p, segs, hi)
    requires hi < |p| && IsSpace(p[hi])
    ensures Segmentation(p, segs, hi + 1)
  {
    assert Without(p[..hi + 1], IsSpace) == Without(p[..hi], IsSpace) by {
      WithoutPrefixSnoc(p, hi, hi + 1);
      assert p[hi..hi + 1] == [p[hi]];
      assert Without([p[hi]], IsSpace) == [];
      assert Without(p[..hi], IsSpace) + [] == Without(p[..hi], IsSpace);
    }
    ClassRelations(p[hi]);
  }

  lemma ExtendByGap(p: string, segs: seq<Seg>, g: int, e: int)
    requires Segmentation(p, segs, g)
    requires g <= e <= |p|
    requires forall q :: g <= q < e ==> !IsDelimiter2(p[q])
    requires g == 0 || IsDelimiter2(p[g - 1])
    requires e == |p| || IsDelimiter2(p[e])
    ensures Segmentation(p, segs + GapPart(p, g, e), e)
  {
    if g != e {
      ExtendByPiece(p, segs, Seg(p[g..e], g, e));
    } else {
      assert segs + GapPart(p, g, e) == segs;
    }
  }

  lemma ExtendByMatch(p: string, segs: seq<Seg>, m: Seg)
    requires Segmentation(p, segs, m.start)
    requires IsMatch(p, m)
    ensures Segmentation(p, segs + MatchPart(m), m.end)
  {
    ClassRelations(p[m.start]);
    if IsSpaceMatch(m.text) {
      assert segs + MatchPart(m) == segs;
      ExtendSpace(p, segs, m.start);
    } else {
      assert segs + MatchPart(m) == segs + [m];
      assert p[m.start..m.end] == m.text;
      assert LoneDelimiter(p, m);
      assert Piece(p, m);
      ExtendByPiece(p, segs, m);
    }
  }

  /** After `n` iterations of the loop at lines 98-115, `tokens0` segments the phrase up to
      the end of the `n`-th match. */
  lemma {:induction false} SegmentsUpToIsSegmentation(p: string, n: nat)
    requires n <= |Delims(p)|
    ensures Segmentation(p, SegmentsUpTo(p, n), GapStart(Delims(p), n))
  {
    var d := Delims(p);
    if n == 0 {
      EmptySegmentation(p);
    } else {
      var segs, m, g := SegmentsUpTo(p, n - 1), d[n - 1], GapStart(d, n - 1);
      assert IsMatch(p, m) && g <= m.start;
      var withGap := segs + GapPart(p, g, m.start);
      assert g == 0 || IsDelimiter2(p[g - 1]) by {
        if n > 1 {
          assert IsMatch(p, d[n - 2]);
        }
      }
      assert Segmentation(p, withGap, m.start) by {
        SegmentsUpToIsSegmentation(p, n - 1);
        MatchGap(p, |p|, n - 1);
        ExtendByGap(p, segs, g, m.start);
      }
      ExtendByMatch(p, withGap, m);
    }
  }

  /** The pre-merge segments of `tokenize2` (lines 93-122) segment the whole phrase: each
      is a non-empty slice `(phrase[s:e], s, e)`, they are strictly increasing and do not
      overlap, only space characters lie outside them, they contain no space character,
      each is a lone delimiter or a whole run of characters between delimiters and spaces,
      their texts concatenate to the phrase without its spaces, and every non-space
      delimiter is the segment `(c, q, q + 1)` at its own offset. The empty phrase is the
      one exception: it yields the single empty segment `("", 0, 0)`. */
  lemma SegmentsAreSegmentation(p: string)
    ensures p != [] ==> Segmentation(p, Segments(p), |p|)
    ensures p == [] ==> Segments(p) == [Seg([], 0, 0)]
  {
    if p != [] {
      NonEmptySegmentation(p);
      LastGap(p);
    }
  }

  /** The iterations of lines 98-115, then the text after the last match, make a
      segmentation of a non-empty phrase. */
  lemma NonEmptySegmentation(p: string)
    requires p != []
    ensures var d := Delims(p);
            Segmentation(p, SegmentsUpTo(p, |d|) + GapPart(p, GapStart(d, |d|), |p|), |p|)
  {
    var d := Delims(p);
    SegmentsUpToIsSegmentation(p, |d|);
    LastGap(p);
    ExtendByGap(p, SegmentsUpTo(p, |d|), GapStart(d, |d|), |p|);
  }

  /** The text after the last match starts just after a delimiter or space, and the
      trailing segment of lines 117-122 of a non-empty phrase is the gap segment of that
      text. */
  lemma LastGap(p: string)
    requires p != []
    ensures var d := Delims(p);
            var g := GapStart(d, |d|);
            && g <= |p|
            && (g == 0 || IsDelimiter2(p[g - 1]))
            && Trailing(p) == GapPart(p, g, |p|)
            && Segments(p) == SegmentsUpTo(p, |d|) + GapPart(p, g, |p|)
  {
    var d := Delims(p);
    var g := GapStart(d, |d|);
    if |d| > 0 {
      assert IsMatch(p, d[|d| - 1]);
    }
    if g != |p| {
      assert p[g..] == p[g..|p|];
    }
  }

  /** A phrase with no delimiter and no space yields the single segment `(phrase, 0, len)`. */
  lemma NoDelimiterSingleSegment(p: string)
    requires forall q :: 0 <= q < |p| ==> !IsDelimiter2(p[q])
    ensures Segments(p) == [Seg(p, 0, |p|)]
  {
    assert p[0..] == p;
  }

  /** A phrase ending in a delimiter or space gets no trailing segment: the only segment
      that can reach the end is that final delimiter itself. */
  lemma EndingInDelimiter(p: string)
    requires p != [] && IsDelimiter2(p[|p| - 1])
    ensures Trailing(p) == []
    ensures forall s :: s in Segments(p) && s.end == |p| ==> s == Seg([p[|p| - 1]], |p| - 1, |p|)
  {
    var d := Delims(p);
    assert d == Matches(p, |p| - 1) + [Seg([p[|p| - 1]], |p| - 1, |p|)];
    SegmentsAreSegmentation(p);
    var segs := Segments(p);
    forall s | s in segs && s.end == |p|
      ensures s == Seg([p[|p| - 1]], |p| - 1, |p|)
    {
      var k :| 0 <= k < |segs| && segs[k] == s;
      FinalPiece(p, s);
    }
  }

  /** A piece that reaches the end of a phrase ending in a delimiter or space is that
      final character. */
  lemma FinalPiece(p: string, s: Seg)
    requires Piece(p, s) && s.end == |p| && IsDelimiter2(p[|p| - 1])
    ensures s == Seg([p[|p| - 1]], |p| - 1, |p|)
  {
    assert s.start == |p| - 1;
    assert p[s.start..s.end] == [p[|p| - 1]];
  }
}
