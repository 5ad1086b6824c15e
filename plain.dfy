/** The plain segmenter: `before_split` and `tokenize0` (rutokenizer/tokenizer.py:41-45).
    The two regular-expression operations become explicit recursion over the string:
    `delimiters.sub(' \1 ', ...)` pads each delimiter with spaces, and `regex1.split`
    cuts at every maximal run of split characters. */
module PlainSegmenter {
  import opened CharClasses
  import opened Text

  predicate IsHyphen(c: char)
  {
    c == '-'
  }

  /** True when `s` holds two consecutive ASCII hyphens. */
  predicate HasDoubleHyphen(s: string)
  {
    exists j :: 0 <= j < |s| - 1 && s[j] == '-' && s[j + 1] == '-'
  }

  /** `s.replace('--', '-')`: scanning left to right, every non-overlapping "--" becomes "-". */
  function ReplaceDoubleHyphen(s: string): (r: string)
    ensures |r| <= |s|
    ensures Without(r, IsHyphen) == Without(s, IsHyphen)
    ensures !HasDoubleHyphen(s) ==> r == s
  {
    if |s| >= 2 && s[0] == '-' && s[1] == '-' then
      var rest := ReplaceDoubleHyphen(s[2..]);
      assert ("-" + rest)[1..] == rest;
      assert s[1..][1..] == s[2..];
      assert s[0] == '-' && s[1] == '-';
      "-" + rest
    else if s == [] then
      []
    else
      var rest := ReplaceDoubleHyphen(s[1..]);
      assert ([s[0]] + rest)[1..] == rest;
      assert HasDoubleHyphen(s[1..]) ==> HasDoubleHyphen(s) by {
        if HasDoubleHyphen(s[1..]) {
          var j :| 0 <= j < |s[1..]| - 1 && s[1..][j] == '-' && s[1..][j + 1] == '-';
          assert s[j + 1] == '-' && s[j + 2] == '-';
        }
      }
      [s[0]] + rest
  }

  /** One step of the scan, as its own fact. */
  lemma ReplaceStep(s: string)
    ensures s == [] ==> ReplaceDoubleHyphen(s) == []
    ensures |s| >= 2 && s[0] == '-' && s[1] == '-' ==> ReplaceDoubleHyphen(s) == "-" + ReplaceDoubleHyphen(s[2..])
    ensures s != [] && !(|s| >= 2 && s[0] == '-' && s[1] == '-') ==>
      ReplaceDoubleHyphen(s) == [s[0]] + ReplaceDoubleHyphen(s[1..])
  {
  }

  /** `n` hyphens in a row. */
  function HyphenRun(n: nat): (r: string)
    ensures |r| == n && forall i :: 0 <= i < n ==> r[i] == '-'
  {
    seq(n, _ => '-')
  }

  /** A run of hyphens starts with a pair when it is long enough, and after the pair it is a
      shorter run. */
  lemma HyphenRunFacts(n: nat)
    ensures n >= 2 ==> HyphenRun(n)[0] == '-' && HyphenRun(n)[1] == '-' && HyphenRun(n)[2..] == HyphenRun(n - 2)
    ensures "-" + HyphenRun(n) == HyphenRun(n + 1)
  {
  }

  /** A run of `n` hyphens becomes `(n + 1) / 2` hyphens: the scan turns each pair into
      one and keeps an odd one at the end. */
  lemma {:induction false} ReplaceHyphenRun(n: nat)
    ensures ReplaceDoubleHyphen(HyphenRun(n)) == HyphenRun((n + 1) / 2)
  {
    if n >= 2 {
      ReplaceHyphenRun(n - 2);
      ReplaceHyphenPair(n);
    } else if n == 1 {
      var s := HyphenRun(1);
      ReplaceStep(s);
      HyphenRunFacts(0);
      assert s[1..] == [];
    } else {
      ReplaceStep(HyphenRun(0));
    }
  }

  /** The step of `ReplaceHyphenRun`: the first two hyphens of the run become one. */
  lemma ReplaceHyphenPair(n: nat)
    requires n >= 2 && ReplaceDoubleHyphen(HyphenRun(n - 2)) == HyphenRun((n - 1) / 2)
    ensures ReplaceDoubleHyphen(HyphenRun(n)) == HyphenRun((n + 1) / 2)
  {
    var s := HyphenRun(n);
    HyphenRunFacts(n);
    ReplaceStep(s);
    HyphenRunFacts((n - 1) / 2);
    assert (n - 1) / 2 + 1 == (n + 1) / 2;
  }

  /** The scan never pairs a hyphen across another character, so the text on either side of
      it is replaced on its own. Together with `ReplaceHyphenRun` this fixes the result on
      every string. */
  lemma ReplaceAroundChar(a: string, c: char, b: string)
    requires c != '-'
    ensures ReplaceDoubleHyphen(a + [c] + b) == ReplaceDoubleHyphen(a) + [c] + ReplaceDoubleHyphen(b)
  {
    var t := [c] + b;
    ReplaceAppend(a, t);
    assert t[0] == c && t[1..] == b;
    ReplaceStep(t);
    assert a + [c] + b == a + t;
    AppendAssoc(ReplaceDoubleHyphen(a), [c], ReplaceDoubleHyphen(b));
  }

  /** Text that does not start with a hyphen is replaced independently of what precedes it. */
  lemma {:induction false} ReplaceAppend(a: string, t: string)
    requires t != [] && t[0] != '-'
    ensures ReplaceDoubleHyphen(a + t) == ReplaceDoubleHyphen(a) + ReplaceDoubleHyphen(t)
    decreases |a|, 1
  {
    if a == [] {
      assert a + t == t;
    } else if |a| == 1 {
      DropFront(a, t, 1);
      var s := a + t;
      assert s[0] == a[0] && s[1] == t[0] && a[1..] == [] && s[1..] == t;
      ReplaceStep(s);
      ReplaceStep(a);
    } else {
      ReplaceAppendLong(a, t);
    }
  }

  /** The step of `ReplaceAppend` when `a` has two characters or more. */
  lemma {:induction false} ReplaceAppendLong(a: string, t: string)
    requires t != [] && t[0] != '-' && |a| >= 2
    ensures ReplaceDoubleHyphen(a + t) == ReplaceDoubleHyphen(a) + ReplaceDoubleHyphen(t)
    decreases |a|, 0
  {
    var s := a + t;
    var k := if a[0] == '-' && a[1] == '-' then 2 else 1;
    var head := if k == 2 then "-" else [a[0]];
    DropFront(a, t, k);
    assert s[0] == a[0] && s[1] == a[1];
    ReplaceStep(s);
    ReplaceStep(a);
    assert ReplaceDoubleHyphen(s) == head + ReplaceDoubleHyphen(a[k..] + t);
    assert ReplaceDoubleHyphen(a) == head + ReplaceDoubleHyphen(a[k..]);
    ReplaceAppend(a[k..], t);
    AppendAssoc(head, ReplaceDoubleHyphen(a[k..]), ReplaceDoubleHyphen(t));
  }

  /** Dropping a prefix shorter than `a` from `a + t`. */
  lemma DropFront(a: string, t: string, k: nat)
    requires k <= |a|
    ensures (a + t)[k..] == a[k..] + t
  {
  }

  /** What `delimiters.sub(' \1 ', ...)` puts in place of one character. */
  function PadChar(c: char): string
  {
    if IsDelimiter(c) then [' ', c, ' '] else [c]
  }

  /** `delimiters.sub(' \1 ', s)`: every delimiter character is surrounded by spaces.
      Padding only adds split characters, so what is left once they are removed is
      unchanged. */
  function PadDelimiters(s: string): (r: string)
    ensures Without(r, IsSplitChar) == Without(s, IsSplitChar)
  {
    if s == [] then
      []
    else
      var c := s[0];
      assert s == [c] + s[1..];
      WithoutAppend([c], s[1..], IsSplitChar);
      WithoutAppend(PadChar(c), PadDelimiters(s[1..]), IsSplitChar);
      assert IsDelimiter(c) ==> Without(PadChar(c), IsSplitChar) == [c] by {
        if IsDelimiter(c) {
          ClassRelations(c);
          var w := PadChar(c);
          assert w[1..] == [c, ' '] && w[1..][1..] == [' '] && w[1..][1..][1..] == [];
          assert Without([' '], IsSplitChar) == [];
          assert Without([c, ' '], IsSplitChar) == [c];
        }
      }
      PadChar(c) + PadDelimiters(s[1..])
  }

  /** `before_split` (line 42). */
  function BeforeSplit(s: string): string
  {
    PadDelimiters(ReplaceDoubleHyphen(s))
  }

  /** The rest of `s` after the maximal run of split characters at its start: where the
      greedy `[...]+` match of `regex1` ends. */
  function SkipRun(s: string): (r: string)
    ensures |r| <= |s| && r == s[|s| - |r|..]
    ensures r == [] || !IsSplitChar(r[0])
    ensures Without(r, IsSplitChar) == Without(s, IsSplitChar)
  {
    if s != [] && IsSplitChar(s[0]) then SkipRun(s[1..]) else s
  }

  /** `regex1.split` continued from the middle of a piece: `cur` is the part of the current
      piece already read. At a split character the piece ends and the whole run is
      skipped; the end of the string ends the last piece, which may be empty. */
  function SplitFrom(s: string, cur: string): (pieces: seq<string>)
    ensures |pieces| >= 1
    decreases |s|
  {
    if s == [] then [cur]
    else if IsSplitChar(s[0]) then [cur] + SplitFrom(SkipRun(s), [])
    else SplitFrom(s[1..], cur + [s[0]])
  }

  /** `regex1.split(s)`: the pieces between maximal runs of split characters, including
      the empty piece before a leading run and after a trailing run (and `[""]` for ""). */
  function RegexSplit(s: string): seq<string>
  {
    SplitFrom(s, [])
  }

  /** The generator filter `w for w in ... if len(w) > 0` of line 45. */
  function NonEmpty(pieces: seq<string>): (r: seq<string>)
    ensures forall t :: t in r ==> t != [] && t in pieces
    ensures Join(r) == Join(pieces)
  {
    if pieces == [] then
      []
    else
      var rest := NonEmpty(pieces[1..]);
      if pieces[0] == [] then
        rest
      else
        assert ([pieces[0]] + rest)[1..] == rest;
        [pieces[0]] + rest
  }

  /** A token with no split character in it. */
  predicate Clean(t: string)
  {
    forall j :: 0 <= j < |t| ==> !IsSplitChar(t[j])
  }

  /** A token holding no delimiter. */
  predicate NoDelimiter(t: string)
  {
    forall j :: 0 <= j < |t| ==> !IsDelimiter(t[j])
  }

  /** A token in which a delimiter character can only occur alone. */
  predicate DelimiterAlone(t: string)
  {
    forall j :: 0 <= j < |t| && IsDelimiter(t[j]) ==> |t| == 1
  }

  /** The pieces of `regex1.split` hold no split character. */
  lemma {:induction false} SplitClean(s: string, cur: string)
    requires Clean(cur)
    ensures forall t :: t in SplitFrom(s, cur) ==> Clean(t)
    decreases |s|
  {
    if s == [] {
    } else if IsSplitChar(s[0]) {
      SplitClean(SkipRun(s), []);
    } else {
      assert Clean(cur + [s[0]]);
      SplitClean(s[1..], cur + [s[0]]);
    }
  }

  /** The pieces of `regex1.split` concatenate to the input without its split characters. */
  lemma {:induction false} SplitJoin(s: string, cur: string)
    ensures Join(SplitFrom(s, cur)) == cur + Without(s, IsSplitChar)
    decreases |s|
  {
    if s == [] {
      JoinOne(cur);
    } else if IsSplitChar(s[0]) {
      SplitJoin(SkipRun(s), []);
      JoinAppend([cur], SplitFrom(SkipRun(s), []));
      JoinOne(cur);
    } else {
      SplitJoin(s[1..], cur + [s[0]]);
      assert Without(s, IsSplitChar) == [s[0]] + Without(s[1..], IsSplitChar);
    }
  }

  /** Every delimiter stands between two spaces, as `delimiters.sub(' \1 ', ...)` leaves it. */
  predicate Padded(t: string)
  {
    forall q {:trigger IsDelimiter(t[q])} :: 0 <= q < |t| && IsDelimiter(t[q]) ==> 0 < q < |t| - 1 && t[q - 1] == ' ' && t[q + 1] == ' '
  }

  /** A suffix of a padded string: a delimiter at the very start may lack its left space. */
  predicate PaddedSuffix(t: string)
  {
    forall q {:trigger IsDelimiter(t[q])} :: 0 <= q < |t| && IsDelimiter(t[q]) ==> q < |t| - 1 && t[q + 1] == ' ' && (q > 0 ==> t[q - 1] == ' ')
  }

  lemma {:induction false} PadIsPadded(s: string)
    ensures Padded(PadDelimiters(s))
  {
    if s != [] {
      PadIsPadded(s[1..]);
      var b, r := PadChar(s[0]), PadDelimiters(s[1..]);
      var t := b + r;
      assert r != [] ==> !IsDelimiter(r[0]);
      forall q | 0 <= q < |t| && IsDelimiter(t[q])
        ensures 0 < q < |t| - 1 && t[q - 1] == ' ' && t[q + 1] == ' '
      {
        if q >= |b| {
          var q' := q - |b|;
          assert t[q] == r[q'] && IsDelimiter(r[q']);
          assert 0 < q' < |r| - 1 && r[q' - 1] == ' ' && r[q' + 1] == ' ';
          assert t[q - 1] == r[q' - 1] && t[q + 1] == r[q' + 1];
        } else if IsDelimiter(s[0]) {
          assert b == [' ', s[0], ' '] && q == 1;
        }
      }
    }
  }

  lemma PaddedSuffixOfSkip(t: string)
    requires PaddedSuffix(t)
    ensures PaddedSuffix(SkipRun(t))
  {
    var r := SkipRun(t);
    var k := |t| - |r|;
    forall q | 0 <= q < |r| && IsDelimiter(r[q])
      ensures q < |r| - 1 && r[q + 1] == ' ' && (q > 0 ==> r[q - 1] == ' ')
    {
      assert r == t[k..] && r[q] == t[q + k] && IsDelimiter(t[q + k]);
      assert r[q + 1] == t[q + k + 1];
      if q > 0 {
        assert r[q - 1] == t[q + k - 1];
      }
    }
  }

  /** Dropping a character that is not a split character keeps the string a padded
      suffix; a delimiter there is followed by a space, and anything else by a non-delimiter. */
  lemma PaddedSuffixTail(t: string)
    requires t != [] && !IsSplitChar(t[0]) && PaddedSuffix(t)
    ensures PaddedSuffix(t[1..])
    ensures IsDelimiter(t[0]) ==> |t| > 1 && t[1] == ' '
    ensures |t| > 1 ==> !IsDelimiter(t[1])
  {
    var t' := t[1..];
    forall q | 0 <= q < |t'| && IsDelimiter(t'[q])
      ensures q < |t'| - 1 && t'[q + 1] == ' ' && (q > 0 ==> t'[q - 1] == ' ')
    {
      assert t'[q] == t[q + 1];
    }
  }

  /** Reading a padded string, the piece in progress either holds no delimiter or is a
      lone delimiter about to be closed by the space after it; so every piece produced
      keeps a delimiter alone. */
  lemma {:induction false} PaddedPieces(t: string, cur: string)
    requires PaddedSuffix(t)
    requires cur == [] || (NoDelimiter(cur) && (t != [] ==> !IsDelimiter(t[0])))
                       || (|cur| == 1 && IsDelimiter(cur[0]) && t != [] && t[0] == ' ')
    ensures forall p :: p in SplitFrom(t, cur) ==> DelimiterAlone(p)
    decreases |t|
  {
    if t == [] {
      assert DelimiterAlone(cur);
    } else if IsSplitChar(t[0]) {
      assert DelimiterAlone(cur);
      PaddedSuffixOfSkip(t);
      PaddedPieces(SkipRun(t), []);
    } else {
      var c := t[0];
      PaddedSuffixTail(t);
      if IsDelimiter(c) {
        assert cur == [];
        assert [] + [c] == [c];
        PaddedPieces(t[1..], [c]);
      } else {
        assert NoDelimiter(cur + [c]);
        PaddedPieces(t[1..], cur + [c]);
      }
    }
  }

  /** `tokenize0` (lines 44-45): no token is empty, no token holds a split character, a
      delimiter is always a one-character token of its own, and the tokens concatenate to
      the input after "--" -> "-" with every split character removed. */
  function Tokenize0(phrase: string): (tokens: seq<string>)
    ensures forall t :: t in tokens ==> t != [] && Clean(t) && DelimiterAlone(t)
    ensures Join(tokens) == Without(ReplaceDoubleHyphen(phrase), IsSplitChar)
  {
    var padded := BeforeSplit(phrase);
    SplitClean(padded, []);
    SplitJoin(padded, []);
    PadIsPadded(ReplaceDoubleHyphen(phrase));
    PaddedPieces(padded, []);
    NonEmpty(RegexSplit(padded))
  }
}
