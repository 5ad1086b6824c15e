/** The merge of multi-token words such as "что-либо" shared by both modes of the
    tokenizer (rutokenizer/tokenizer.py:53-78 and 126-151): a token whose lowercase form is
    a key of `prefix_hyphen` starts a candidate of further tokens, tried from the longest
    allowed length down, and the first candidate whose lowercase concatenation is in
    `words_with_hyphen` becomes one token. */
module Merge {
  import opened CharClasses
  import opened Text
  import opened PositionalSegmenter

  datatype Option<T> = None | Some(value: T)

  /** The pair `(min_len, max_len)` stored for a prefix: the candidate lengths `l` tried
      after it, each covering `l + 2` tokens. Lengths are never negative. */
  datatype LenRange = LenRange(minLen: nat, maxLen: int)

  /** The two dictionaries the tokenizer holds after `load`, and the lowercase mapping
      they are keyed by (Python's `str.lower`). */
  datatype Lexicon = Lexicon(prefixHyphen: map<string, LenRange>, wordsWithHyphen: set<string>,
                             lower: string -> string)

  function Min(a: int, b: int): int
  {
    if a < b then a else b
  }

  /** `u''.join(tokens0[i : i + l + 2])`: Python's slice stops at the end of the list. */
  function Candidate(ts: seq<string>, i: nat, l: nat): string
    requires i <= |ts|
  {
    Join(ts[i..Min(i + l + 2, |ts|)])
  }

  /** The test of lines 66-68: the candidate of length `l` at `i` starts inside the list
      and its lowercase form is a known word. */
  predicate Hits(lex: Lexicon, ts: seq<string>, i: nat, l: int)
  {
    0 <= l && i + l < |ts| && lex.lower(Candidate(ts, i, l)) in lex.wordsWithHyphen
  }

  /** The loop `for l1 in range(max_len, min_len-1, -1)` from `l` down to `lo`: the first
      length that hits. */
  function Probe(lex: Lexicon, ts: seq<string>, i: nat, lo: nat, l: int): Option<int>
    decreases l - lo + 1
  {
    if l < lo then None
    else if Hits(lex, ts, i, l) then Some(l)
    else Probe(lex, ts, i, lo, l - 1)
  }

  /** The probe finds the longest hitting length of the range, and finds nothing exactly
      when no length of the range hits. */
  lemma {:induction false} ProbeSpec(lex: Lexicon, ts: seq<string>, i: nat, lo: nat, l: int)
    ensures var r := Probe(lex, ts, i, lo, l);
            && (r.Some? ==> lo <= r.value <= l && Hits(lex, ts, i, r.value))
            && (r.Some? ==> forall l' :: r.value < l' <= l ==> !Hits(lex, ts, i, l'))
            && (r.None? <==> forall l' :: lo <= l' <= l ==> !Hits(lex, ts, i, l'))
    decreases l - lo + 1
  {
    if l >= lo && !Hits(lex, ts, i, l) {
      ProbeSpec(lex, ts, i, lo, l - 1);
    }
  }

  /** One step of the merge at position `i`: the length of the longest known word starting
      there, when `tokens0[i]` is a known prefix; `None` when the token stays alone. */
  function Choose(lex: Lexicon, ts: seq<string>, i: nat): Option<int>
    requires i < |ts|
  {
    var key := lex.lower(ts[i]);
    if key in lex.prefixHyphen then
      Probe(lex, ts, i, lex.prefixHyphen[key].minLen, lex.prefixHyphen[key].maxLen)
    else
      None
  }

  /** The token stays alone exactly when it is no known prefix or no candidate length of its
      range hits; otherwise the longest hitting length of the range is taken. */
  lemma ChooseSpec(lex: Lexicon, ts: seq<string>, i: nat)
    requires i < |ts|
    ensures var key, r := lex.lower(ts[i]), Choose(lex, ts, i);
            && (r.None? <==> key !in lex.prefixHyphen ||
                               forall l :: lex.prefixHyphen[key].minLen <= l <= lex.prefixHyphen[key].maxLen ==>
                                             !Hits(lex, ts, i, l))
            && (r.Some? ==> key in lex.prefixHyphen)
            && (r.Some? ==> var range := lex.prefixHyphen[key];
                            && range.minLen <= r.value <= range.maxLen && Hits(lex, ts, i, r.value)
                            && forall l :: r.value < l <= range.maxLen ==> !Hits(lex, ts, i, l))
            && (r.Some? ==> 0 <= r.value && i + r.value < |ts|)
  {
    var key := lex.lower(ts[i]);
    if key in lex.prefixHyphen {
      ProbeSpec(lex, ts, i, lex.prefixHyphen[key].minLen, lex.prefixHyphen[key].maxLen);
    }
  }

  /** Where the merge loop goes on after position `i`: past the token, or past the
      `l + 2` tokens of the known word found (possibly beyond the end of the list). */
  function Next(lex: Lexicon, ts: seq<string>, i: nat): (next: nat)
    requires i < |ts|
    ensures i < next <= |ts| + 1
    ensures next == i + 1 <==> Choose(lex, ts, i).None?
  {
    ChooseSpec(lex, ts, i);
    match Choose(lex, ts, i)
    case None => i + 1
    case Some(l) => i + l + 2
  }

  /** The merge loop of `tokenize` (lines 53-78) from position `i` on: the token alone, or
      the concatenation `tokens0[i : i + l1 + 2]` of the known word, cut short by the end
      of the list. */
  function MergePlain(lex: Lexicon, ts: seq<string>, i: nat): seq<string>
    decreases |ts| - i
  {
    if i >= |ts| then
      []
    else
      var j := Next(lex, ts, i);
      [if j == i + 1 then ts[i] else Join(ts[i..Min(j, |ts|)])] + MergePlain(lex, ts, j)
  }

  /** Merging only regroups: the merged tokens concatenate to the same text. */
  lemma {:induction false} MergePlainJoin(lex: Lexicon, ts: seq<string>, i: nat)
    requires i <= |ts|
    ensures Join(MergePlain(lex, ts, i)) == Join(ts[i..])
    decreases |ts| - i
  {
    if i < |ts| {
      var j := Next(lex, ts, i);
      var e := Min(j, |ts|);
      var t := if j == i + 1 then ts[i] else Join(ts[i..e]);
      assert t == Join(ts[i..e]) by {
        if j == i + 1 {
          assert e == i + 1;
          JoinSingle(ts, i);
        }
      }
      assert Join(MergePlain(lex, ts, i)) == t + Join(MergePlain(lex, ts, j)) by {
        JoinAppend([t], MergePlain(lex, ts, j));
        JoinOne(t);
      }
      assert Join(ts[i..]) == Join(ts[i..e]) + Join(ts[e..]) by {
        assert ts[i..] == ts[i..e] + ts[e..];
        JoinAppend(ts[i..e], ts[e..]);
      }
      if j <= |ts| {
        MergePlainJoin(lex, ts, j);
      } else {
        assert ts[e..] == [];
      }
    }
  }

  /** Merging never makes more tokens. */
  lemma {:induction false} MergePlainLength(lex: Lexicon, ts: seq<string>, i: nat)
    requires i <= |ts|
    ensures |MergePlain(lex, ts, i)| <= |ts| - i
    decreases |ts| - i
  {
    if i < |ts| && Next(lex, ts, i) <= |ts| {
      MergePlainLength(lex, ts, Next(lex, ts, i));
    }
  }

  /** `t` is a known word merged from the input tokens `a` to `b - 1` at or after `i`: their
      concatenation, started by a known prefix, whose lowercase form is a known word. */
  predicate MergedWord(lex: Lexicon, ts: seq<string>, i: nat, t: string)
  {
    exists a, b :: i <= a < b <= |ts| && t == Join(ts[a..b]) &&
                   lex.lower(ts[a]) in lex.prefixHyphen && lex.lower(t) in lex.wordsWithHyphen
  }

  /** Each merged token is an input token from `i` on, or a known word concatenated from
      consecutive input tokens that start with a known prefix. */
  lemma {:induction false} MergePlainKnown(lex: Lexicon, ts: seq<string>, i: nat)
    requires i <= |ts|
    ensures forall t :: t in MergePlain(lex, ts, i) ==> t in ts[i..] || MergedWord(lex, ts, i, t)
    decreases |ts| - i
  {
    if i < |ts| {
      var j := Next(lex, ts, i);
      PlainHeadKnown(lex, ts, i);
      if j <= |ts| {
        MergePlainKnown(lex, ts, j);
        MergedWordWiden(lex, ts, i, j);
      }
    }
  }

  /** The token the plain merge emits at `i` is the input token there or a known word. */
  lemma PlainHeadKnown(lex: Lexicon, ts: seq<string>, i: nat)
    requires i < |ts|
    ensures var j := Next(lex, ts, i);
            var head := if j == i + 1 then ts[i] else Join(ts[i..Min(j, |ts|)]);
            && MergePlain(lex, ts, i) == [head] + MergePlain(lex, ts, j)
            && (head in ts[i..] || MergedWord(lex, ts, i, head))
  {
    var j := Next(lex, ts, i);
    var e := Min(j, |ts|);
    var head := if j == i + 1 then ts[i] else Join(ts[i..e]);
    if j != i + 1 {
      var l := Choose(lex, ts, i).value;
      ChooseSpec(lex, ts, i);
      assert Hits(lex, ts, i, l) && e == Min(i + l + 2, |ts|);
      assert MergedWord(lex, ts, i, head) by {
        assert i < e <= |ts| && head == Join(ts[i..e]);
      }
    } else {
      assert head == ts[i..][0];
    }
  }

  /** What holds of a token from `j` on holds of it from any earlier `i` on. */
  lemma MergedWordWiden(lex: Lexicon, ts: seq<string>, i: nat, j: nat)
    requires i <= j <= |ts|
    ensures forall t :: t in ts[j..] || MergedWord(lex, ts, j, t) ==> t in ts[i..] || MergedWord(lex, ts, i, t)
  {
    forall t | t in ts[j..] || MergedWord(lex, ts, j, t)
      ensures t in ts[i..] || MergedWord(lex, ts, i, t)
    {
      if t in ts[j..] {
        var k :| 0 <= k < |ts[j..]| && ts[j..][k] == t;
        assert ts[i..][k + j - i] == t;
      } else {
        var a, b :| j <= a < b <= |ts| && t == Join(ts[a..b]) &&
                    lex.lower(ts[a]) in lex.prefixHyphen && lex.lower(t) in lex.wordsWithHyphen;
      }
    }
  }

  /** Without a known prefix among the tokens, merging changes nothing. */
  lemma {:induction false} MergePlainIdentity(lex: Lexicon, ts: seq<string>, i: nat)
    requires i <= |ts|
    requires forall a :: i <= a < |ts| ==> lex.lower(ts[a]) !in lex.prefixHyphen
    ensures MergePlain(lex, ts, i) == ts[i..]
    decreases |ts| - i
  {
    if i < |ts| {
      MergePlainIdentity(lex, ts, i + 1);
      assert ts[i..] == [ts[i]] + ts[i + 1..];
    }
  }

  /** The result of `tokenize2`: its token list, or the `IndexError` raised at line 141
      when a known word is found whose candidate was cut short by the end of the list. */
  datatype Outcome = Ok(tokens: seq<Seg>) | IndexError(index: int)

  function Prepend(t: Seg, r: Outcome): Outcome
  {
    if r.Ok? then Ok([t] + r.tokens) else r
  }

  /** The compound token of line 141 made of segments `i` to `j - 1`: their texts
      concatenated, from the start of the first to the end of the last. */
  function Block(segs: seq<Seg>, i: nat, j: nat): Seg
    requires i < j <= |segs|
  {
    Seg(Join(Texts(segs)[i..j]), segs[i].start, segs[j - 1].end)
  }

  /** The token the positional merge appends at `i` (lines 132 and 141-142, 148). */
  function Head(lex: Lexicon, segs: seq<Seg>, i: nat): Seg
    requires i < |segs| && Next(lex, Texts(segs), i) <= |segs|
  {
    var j := Next(lex, Texts(segs), i);
    if j == i + 1 then segs[i] else Block(segs, i, j)
  }

  /** The merge loop of `tokenize2` (lines 126-151) from position `i` on: the segment alone,
      or the compound token of the known word; when its last segment `tokens0[i + l1 + 1]`
      does not exist the loop fails at that index. */
  function MergePos(lex: Lexicon, segs: seq<Seg>, i: nat): Outcome
    decreases |segs| - i
  {
    if i >= |segs| then
      Ok([])
    else
      var j := Next(lex, Texts(segs), i);
      if j > |segs| then
        IndexError(j - 1)
      else
        Prepend(Head(lex, segs, i), MergePos(lex, segs, j))
  }

  /** The plain walk never takes a candidate cut short by the end of the list. */
  predicate Fits(lex: Lexicon, ts: seq<string>, i: nat)
    decreases |ts| - i
  {
    i >= |ts| || (Next(lex, ts, i) <= |ts| && Fits(lex, ts, Next(lex, ts, i)))
  }

  /** Both merge loops make the same decisions: when the positional one succeeds its
      token texts are exactly the plain result; it fails exactly when the plain walk
      takes a candidate cut short by the end, and then always at index `len(tokens0)`. */
  lemma {:induction false} MergePosAgrees(lex: Lexicon, segs: seq<Seg>, i: nat)
    requires i <= |segs|
    ensures MergePos(lex, segs, i).Ok? <==> Fits(lex, Texts(segs), i)
    ensures MergePos(lex, segs, i).Ok? ==> Texts(MergePos(lex, segs, i).tokens) == MergePlain(lex, Texts(segs), i)
    ensures MergePos(lex, segs, i).IndexError? ==> MergePos(lex, segs, i).index == |segs|
    decreases |segs| - i
  {
    var ts := Texts(segs);
    if i < |segs| {
      var j := Next(lex, ts, i);
      if j <= |segs| {
        MergePosAgrees(lex, segs, j);
        var r := MergePos(lex, segs, j);
        if r.Ok? {
          assert Min(j, |ts|) == j;
          TextsAppend([Head(lex, segs, i)], r.tokens);
        }
      }
    }
  }

  /** A token of `tokenize2` holding the text of `p[start:end]` without its spaces. */
  predicate Spanned(p: string, t: Seg)
  {
    0 <= t.start < t.end <= |p| && t.text == Without(p[t.start..t.end], IsSpace)
  }

  /** The layout of `tokenize2`'s tokens over `p`: each spans its own text, they are in
      increasing, non-overlapping order, and only spaces lie outside them. */
  predicate Layout(p: string, toks: seq<Seg>)
  {
    && (forall k :: 0 <= k < |toks| ==> Spanned(p, toks[k]))
    && (forall k {:trigger GapStart(toks, k)} :: 0 <= k < |toks| ==>
          GapStart(toks, k) <= toks[k].start && Spaces(p, GapStart(toks, k), toks[k].start))
    && Spaces(p, GapStart(toks, |toks|), |p|)
  }

  /** The pre-merge segments of a whole phrase are laid out over it. */
  lemma SegmentationLayout(p: string, segs: seq<Seg>)
    requires Segmentation(p, segs, |p|)
    ensures Layout(p, segs)
  {
    assert p[..|p|] == p;
    forall k | 0 <= k < |segs|
      ensures Spanned(p, segs[k])
    {
      var s := segs[k];
      assert Piece(p, s);
      forall j | 0 <= j < |p[s.start..s.end]|
        ensures !IsSpace(p[s.start..s.end][j])
      {
        ClassRelations(p[s.start + j]);
      }
      WithoutNothing(p[s.start..s.end], IsSpace);
    }
  }

  /** A run of consecutive laid-out tokens covers the text of their concatenation. */
  lemma {:induction false} BlockSpan(p: string, toks: seq<Seg>, a: nat, b: nat)
    requires Layout(p, toks) && a < b <= |toks|
    ensures toks[a].start < toks[b - 1].end
    ensures Without(p[toks[a].start..toks[b - 1].end], IsSpace) == Join(Texts(toks)[a..b])
    decreases b
  {
    var ts := Texts(toks);
    var last := toks[b - 1];
    assert Spanned(p, last) && ts[b - 1] == last.text;
    if b == a + 1 {
      JoinSingle(ts, a);
    } else {
      BlockSpan(p, toks, a, b - 1);
      var s, m := toks[a].start, toks[b - 2].end;
      assert GapStart(toks, b - 1) == m;
      assert m <= last.start && Spaces(p, m, last.start);
      WithoutAcrossSpaces(p, s, m, last.start, last.end);
      JoinSnoc(ts, a, b);
      assert Without(p[s..last.end], IsSpace) == Join(ts[a..b - 1]) + ts[b - 1];
    }
  }

  /** The token appended at `i` spans its own text. */
  lemma HeadSpan(lex: Lexicon, p: string, segs: seq<Seg>, i: nat)
    requires Layout(p, segs) && i < |segs| && Next(lex, Texts(segs), i) <= |segs|
    ensures Spanned(p, Head(lex, segs, i))
  {
    var j := Next(lex, Texts(segs), i);
    if j != i + 1 {
      BlockSpan(p, segs, i, j);
    } else {
      assert Spanned(p, segs[i]);
    }
  }

  /** `t` is the compound token of the known word made of segments `a` to `b - 1` at or after
      `i`, started by a known prefix. */
  predicate MergedBlock(lex: Lexicon, segs: seq<Seg>, i: nat, t: Seg)
  {
    exists a, b :: i <= a < b <= |segs| && t == Block(segs, a, b) &&
                   lex.lower(segs[a].text) in lex.prefixHyphen && lex.lower(t.text) in lex.wordsWithHyphen
  }

  /** The token appended at `i` is segment `i` itself, or a known word starting there. */
  lemma HeadKnown(lex: Lexicon, segs: seq<Seg>, i: nat)
    requires i < |segs| && Next(lex, Texts(segs), i) <= |segs|
    ensures Head(lex, segs, i) == segs[i] || MergedBlock(lex, segs, i, Head(lex, segs, i))
  {
    var ts := Texts(segs);
    var j := Next(lex, ts, i);
    if j != i + 1 {
      var l := Choose(lex, ts, i).value;
      ChooseSpec(lex, ts, i);
      assert Hits(lex, ts, i, l) && Min(i + l + 2, |ts|) == j;
      assert ts[i] == segs[i].text;
      assert Head(lex, segs, i) == Block(segs, i, j);
    }
  }

  /** The positional merge from `i` yields tokens exactly when segments remain; the first
      starts where segment `i` starts and the last ends where the last segment ends. */
  lemma {:induction false} MergePosEnds(lex: Lexicon, segs: seq<Seg>, i: nat)
    requires i <= |segs|
    requires MergePos(lex, segs, i).Ok?
    ensures var out := MergePos(lex, segs, i).tokens;
            && (out == [] <==> i == |segs|)
            && (out != [] ==> out[0].start == segs[i].start && out[|out| - 1].end == segs[|segs| - 1].end)
    decreases |segs| - i
  {
    if i < |segs| {
      var j := Next(lex, Texts(segs), i);
      MergePosEnds(lex, segs, j);
      assert MergePos(lex, segs, i).tokens == [Head(lex, segs, i)] + MergePos(lex, segs, j).tokens;
    }
  }

  /** Every token of the positional merge spans its own text. */
  lemma {:induction false} MergePosSpanned(lex: Lexicon, p: string, segs: seq<Seg>, i: nat)
    requires Layout(p, segs) && i <= |segs|
    requires MergePos(lex, segs, i).Ok?
    ensures forall t :: t in MergePos(lex, segs, i).tokens ==> Spanned(p, t)
    decreases |segs| - i
  {
    if i < |segs| {
      var j := Next(lex, Texts(segs), i);
      HeadSpan(lex, p, segs, i);
      MergePosSpanned(lex, p, segs, j);
      assert MergePos(lex, segs, i).tokens == [Head(lex, segs, i)] + MergePos(lex, segs, j).tokens;
    }
  }

  /** Between consecutive tokens of the positional merge there are only spaces. */
  lemma {:induction false} MergePosGaps(lex: Lexicon, p: string, segs: seq<Seg>, i: nat)
    requires Layout(p, segs) && i <= |segs|
    requires MergePos(lex, segs, i).Ok?
    ensures var out := MergePos(lex, segs, i).tokens;
            forall k {:trigger GapStart(out, k)} :: 0 < k < |out| ==>
              GapStart(out, k) <= out[k].start && Spaces(p, GapStart(out, k), out[k].start)
    decreases |segs| - i
  {
    if i < |segs| {
      var j := Next(lex, Texts(segs), i);
      var t := Head(lex, segs, i);
      var rest := MergePos(lex, segs, j).tokens;
      MergePosGaps(lex, p, segs, j);
      MergePosEnds(lex, segs, j);
      assert MergePos(lex, segs, i).tokens == [t] + rest;
      GapStartCons(t, rest);
      if rest != [] {
        assert GapStart(segs, j) == t.end;
      }
    }
  }

  /** Every token of the positional merge is a segment from `i` on, or the compound token
      of a known word made of consecutive segments that start with a known prefix. */
  lemma {:induction false} MergePosKnown(lex: Lexicon, segs: seq<Seg>, i: nat)
    requires i <= |segs|
    requires MergePos(lex, segs, i).Ok?
    ensures forall t :: t in MergePos(lex, segs, i).tokens ==> t in segs[i..] || MergedBlock(lex, segs, i, t)
    decreases |segs| - i
  {
    if i < |segs| {
      var j := Next(lex, Texts(segs), i);
      var head := Head(lex, segs, i);
      HeadKnown(lex, segs, i);
      MergePosKnown(lex, segs, j);
      assert MergePos(lex, segs, i).tokens == [head] + MergePos(lex, segs, j).tokens;
      assert head == segs[i] ==> head == segs[i..][0];
      forall t | t in MergePos(lex, segs, j).tokens
        ensures t in segs[i..] || MergedBlock(lex, segs, i, t)
      {
        if t in segs[j..] {
          var k :| 0 <= k < |segs[j..]| && segs[j..][k] == t;
          assert segs[i..][k + j - i] == t;
        } else {
          var a, b :| j <= a < b <= |segs| && t == Block(segs, a, b) &&
                      lex.lower(segs[a].text) in lex.prefixHyphen && lex.lower(t.text) in lex.wordsWithHyphen;
        }
      }
    }
  }

  /** The whole positional merge keeps the layout of the segments, and every token is one
      of the segments or the compound token of a known word. */
  lemma MergePosKeepsLayout(lex: Lexicon, p: string, segs: seq<Seg>)
    requires Layout(p, segs)
    requires MergePos(lex, segs, 0).Ok?
    ensures Layout(p, MergePos(lex, segs, 0).tokens)
    ensures forall t :: t in MergePos(lex, segs, 0).tokens ==> t in segs || MergedBlock(lex, segs, 0, t)
  {
    var out := MergePos(lex, segs, 0).tokens;
    MergePosEnds(lex, segs, 0);
    MergePosSpanned(lex, p, segs, 0);
    MergePosGaps(lex, p, segs, 0);
    MergePosKnown(lex, segs, 0);
    assert segs[0..] == segs;
    assert forall k :: 0 <= k < |out| ==> Spanned(p, out[k]) by {
      forall k | 0 <= k < |out|
        ensures Spanned(p, out[k])
      {
        assert out[k] in out;
      }
    }
    if out != [] {
      assert GapStart(out, 0) == 0 == GapStart(segs, 0);
      assert GapStart(out, |out|) == GapStart(segs, |segs|);
    }
  }
}
