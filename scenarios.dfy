/** The positional tokenizer on the phrases of its own tests (rutokenizer/tokenizer.py:184-199).
    The dictionary knows the prefix "что", followed by one more segment, and the word
    "что-либо"; Python's `str.lower` stays a parameter, of which these lemmas need only that
    it keeps lengths and leaves "что" and "что-либо" as they are. The phrases are taken
    apart character by character first, by lemmas of their own, so that the segmenter and
    the merge are then followed over the character classes alone. */
module Scenarios {
  import opened CharClasses
  import opened Text
  import opened PositionalSegmenter
  import opened Merge

  /** One step of `finditer`: a character of the class of line 26 is the next match. */
  lemma MatchesTake(p: string, n: nat)
    requires n < |p| && IsDelimiter2(p[n])
    ensures Matches(p, n + 1) == Matches(p, n) + [Seg([p[n]], n, n + 1)]
  {
    var m := n + 1;
    assert Matches(p, m) == Matches(p, m - 1) + [Seg([p[m - 1]], m - 1, m)];
  }

  /** One step of `finditer`: any other character is skipped. */
  lemma MatchesKeep(p: string, n: nat)
    requires n < |p| && !IsDelimiter2(p[n])
    ensures Matches(p, n + 1) == Matches(p, n)
  {
    var m := n + 1;
    assert Matches(p, m) == Matches(p, m - 1);
  }

  /** The phrase of line 185, character by character. */
  predicate Chars185(p: string)
  {
    && |p| == 29 && p[0] == 'Я' && p[1] == ' ' && p[2] == ' ' && p[3] == 'с' && p[4] == 'п' && p[5] == 'л'
    && p[6] == 'ю' && p[7] == ',' && p[8] == ' ' && p[9] == 'м' && p[10] == 'е' && p[11] == 'ч' && p[12] == 'т'
    && p[13] == 'а' && p[14] == 'ю' && p[15] == '-' && p[16] == 'к' && p[17] == 'а' && p[18] == ' ' && p[19] == ' '
    && p[20] == 'ч' && p[21] == 'т' && p[22] == 'о' && p[23] == '-' && p[24] == 'л' && p[25] == 'и' && p[26] == 'б'
    && p[27] == 'о' && p[28] == '.'
  }

  /** The phrase of line 194: the one of line 185 without its final ".". */
  predicate Chars194(p: string)
  {
    && |p| == 28 && p[0] == 'Я' && p[1] == ' ' && p[2] == ' ' && p[3] == 'с' && p[4] == 'п' && p[5] == 'л'
    && p[6] == 'ю' && p[7] == ',' && p[8] == ' ' && p[9] == 'м' && p[10] == 'е' && p[11] == 'ч' && p[12] == 'т'
    && p[13] == 'а' && p[14] == 'ю' && p[15] == '-' && p[16] == 'к' && p[17] == 'а' && p[18] == ' ' && p[19] == ' '
    && p[20] == 'ч' && p[21] == 'т' && p[22] == 'о' && p[23] == '-' && p[24] == 'л' && p[25] == 'и' && p[26] == 'б'
    && p[27] == 'о'
  }

  /** The character classes of the first 28 characters, which both phrases share: spaces
      at 1, 2, 8, 18 and 19, other delimiters at 7, 15 and 23, nothing of the class of
      line 26 elsewhere. */
  predicate SharedShape(p: string)
  {
    && |p| >= 28 && !IsDelimiter2(p[0]) && IsSpace(p[1]) && IsSpace(p[2])
    && !IsDelimiter2(p[3]) && !IsDelimiter2(p[4]) && !IsDelimiter2(p[5]) && !IsDelimiter2(p[6])
    && IsDelimiter2(p[7]) && !IsSpace(p[7]) && IsSpace(p[8]) && !IsDelimiter2(p[9]) && !IsDelimiter2(p[10])
    && !IsDelimiter2(p[11]) && !IsDelimiter2(p[12]) && !IsDelimiter2(p[13]) && !IsDelimiter2(p[14])
    && IsDelimiter2(p[15]) && !IsSpace(p[15]) && !IsDelimiter2(p[16]) && !IsDelimiter2(p[17]) && IsSpace(p[18])
    && IsSpace(p[19]) && !IsDelimiter2(p[20]) && !IsDelimiter2(p[21]) && !IsDelimiter2(p[22])
    && IsDelimiter2(p[23]) && !IsSpace(p[23]) && !IsDelimiter2(p[24]) && !IsDelimiter2(p[25]) && !IsDelimiter2(p[26])
    && !IsDelimiter2(p[27])
  }

  /** The letters of the two phrases are outside the class of line 26. */
  lemma LetterClasses()
    ensures !IsDelimiter2('Я')
            && !IsDelimiter2('с')
            && !IsDelimiter2('п')
            && !IsDelimiter2('л')
            && !IsDelimiter2('ю')
            && !IsDelimiter2('м')
  {
  }

  /** The remaining letters of the two phrases are outside the class of line 26. */
  lemma MoreLetterClasses()
    ensures !IsDelimiter2('е')
            && !IsDelimiter2('ч')
            && !IsDelimiter2('т')
            && !IsDelimiter2('а')
            && !IsDelimiter2('к')
            && !IsDelimiter2('о')
            && !IsDelimiter2('и')
            && !IsDelimiter2('б')
  {
  }

  /** The space, ",", "-" and "." of the two phrases: all in the class of line 26, only the
      first a space. */
  lemma PunctuationClasses()
    ensures IsSpace(' ')
            && IsDelimiter2(',') && !IsSpace(',')
            && IsDelimiter2('-') && !IsSpace('-')
            && IsDelimiter2('.') && !IsSpace('.')
  {
  }

  lemma Chars185Shape(p: string)
    requires Chars185(p)
    ensures SharedShape(p) && IsDelimiter2(p[28]) && !IsSpace(p[28])
  {
    LetterClasses();
    MoreLetterClasses();
    PunctuationClasses();
  }

  lemma Chars194Shape(p: string)
    requires Chars194(p)
    ensures SharedShape(p)
  {
    LetterClasses();
    MoreLetterClasses();
    PunctuationClasses();
  }

  lemma Phrase185Chars0(p: string)
    requires p == "Я  сплю, мечтаю-ка  что-либо."
    ensures |p| == 29 && p[0] == 'Я' && p[1] == ' ' && p[2] == ' ' && p[3] == 'с' && p[4] == 'п' && p[5] == 'л' && p[6] == 'ю' && p[7] == ','
  {
  }

  lemma Phrase185Chars8(p: string)
    requires p == "Я  сплю, мечтаю-ка  что-либо."
    ensures |p| == 29 && p[8] == ' ' && p[9] == 'м' && p[10] == 'е' && p[11] == 'ч' && p[12] == 'т' && p[13] == 'а' && p[14] == 'ю'
  {
  }

  lemma Phrase185Chars15(p: string)
    requires p == "Я  сплю, мечтаю-ка  что-либо."
    ensures |p| == 29 && p[15] == '-' && p[16] == 'к' && p[17] == 'а' && p[18] == ' ' && p[19] == ' ' && p[20] == 'ч' && p[21] == 'т'
  {
  }

  lemma Phrase185Chars22(p: string)
    requires p == "Я  сплю, мечтаю-ка  что-либо."
    ensures |p| == 29 && p[22] == 'о' && p[23] == '-' && p[24] == 'л' && p[25] == 'и' && p[26] == 'б' && p[27] == 'о' && p[28] == '.'
  {
  }

  /** The phrase of line 185 is `Chars185`. */
  lemma Phrase185Chars(p: string)
    requires p == "Я  сплю, мечтаю-ка  что-либо."
    ensures Chars185(p)
  {
    Phrase185Chars0(p);
    Phrase185Chars8(p);
    Phrase185Chars15(p);
    Phrase185Chars22(p);
  }

  lemma Phrase194Chars0(p: string)
    requires p == "Я  сплю, мечтаю-ка  что-либо"
    ensures |p| == 28 && p[0] == 'Я' && p[1] == ' ' && p[2] == ' ' && p[3] == 'с' && p[4] == 'п' && p[5] == 'л' && p[6] == 'ю' && p[7] == ','
  {
  }

  lemma Phrase194Chars8(p: string)
    requires p == "Я  сплю, мечтаю-ка  что-либо"
    ensures |p| == 28 && p[8] == ' ' && p[9] == 'м' && p[10] == 'е' && p[11] == 'ч' && p[12] == 'т' && p[13] == 'а' && p[14] == 'ю'
  {
  }

  lemma Phrase194Chars15(p: string)
    requires p == "Я  сплю, мечтаю-ка  что-либо"
    ensures |p| == 28 && p[15] == '-' && p[16] == 'к' && p[17] == 'а' && p[18] == ' ' && p[19] == ' ' && p[20] == 'ч' && p[21] == 'т'
  {
  }

  lemma Phrase194Chars22(p: string)
    requires p == "Я  сплю, мечтаю-ка  что-либо"
    ensures |p| == 28 && p[22] == 'о' && p[23] == '-' && p[24] == 'л' && p[25] == 'и' && p[26] == 'б' && p[27] == 'о'
  {
  }

  /** The phrase of line 194 is `Chars194`. */
  lemma Phrase194Chars(p: string)
    requires p == "Я  сплю, мечтаю-ка  что-либо"
    ensures Chars194(p)
  {
    Phrase194Chars0(p);
    Phrase194Chars8(p);
    Phrase194Chars15(p);
    Phrase194Chars22(p);
  }

  lemma MatchesFrom0(p: string)
    requires SharedShape(p)
    ensures Matches(p, 7) == [Seg([p[1]], 1, 2), Seg([p[2]], 2, 3)]
  {
    MatchesKeep(p, 0);
    MatchesTake(p, 1);
    MatchesTake(p, 2);
    MatchesKeep(p, 3);
    MatchesKeep(p, 4);
    MatchesKeep(p, 5);
    MatchesKeep(p, 6);
  }

  lemma MatchesFrom7(p: string)
    requires SharedShape(p)
    ensures Matches(p, 10) == Matches(p, 7) + [Seg([p[7]], 7, 8), Seg([p[8]], 8, 9)]
  {
    MatchesTake(p, 7);
    MatchesTake(p, 8);
    MatchesKeep(p, 9);
  }

  lemma MatchesFrom10(p: string)
    requires SharedShape(p)
    ensures Matches(p, 16) == Matches(p, 10) + [Seg([p[15]], 15, 16)]
  {
    MatchesKeep(p, 10);
    MatchesKeep(p, 11);
    MatchesKeep(p, 12);
    MatchesKeep(p, 13);
    MatchesKeep(p, 14);
    MatchesTake(p, 15);
  }

  lemma MatchesFrom16(p: string)
    requires SharedShape(p)
    ensures Matches(p, 20) == Matches(p, 16) + [Seg([p[18]], 18, 19), Seg([p[19]], 19, 20)]
  {
    MatchesKeep(p, 16);
    MatchesKeep(p, 17);
    MatchesTake(p, 18);
    MatchesTake(p, 19);
  }

  lemma MatchesFrom20(p: string)
    requires SharedShape(p)
    ensures Matches(p, 24) == Matches(p, 20) + [Seg([p[23]], 23, 24)]
  {
    MatchesKeep(p, 20);
    MatchesKeep(p, 21);
    MatchesKeep(p, 22);
    MatchesTake(p, 23);
  }

  lemma MatchesFrom24(p: string)
    requires SharedShape(p)
    ensures Matches(p, 28) == Matches(p, 24)
  {
    MatchesKeep(p, 24);
    MatchesKeep(p, 25);
    MatchesKeep(p, 26);
    MatchesKeep(p, 27);
  }

  lemma MatchesUpTo16(p: string)
    requires SharedShape(p)
    ensures Matches(p, 16) == [Seg([p[1]], 1, 2), Seg([p[2]], 2, 3), Seg([p[7]], 7, 8), Seg([p[8]], 8, 9), Seg([p[15]], 15, 16)]
  {
    MatchesFrom0(p);
    MatchesFrom7(p);
    MatchesFrom10(p);
  }

  /** `finditer` over the first 28 characters, which both phrases share. */
  lemma MatchesUpTo28(p: string)
    requires SharedShape(p)
    ensures Matches(p, 28) == [Seg([p[1]], 1, 2),
                               Seg([p[2]], 2, 3),
                               Seg([p[7]], 7, 8),
                               Seg([p[8]], 8, 9),
                               Seg([p[15]], 15, 16),
                               Seg([p[18]], 18, 19),
                               Seg([p[19]], 19, 20),
                               Seg([p[23]], 23, 24)]
  {
    MatchesUpTo16(p);
    MatchesFrom16(p);
    MatchesFrom20(p);
    MatchesFrom24(p);
  }


  /** The matches of `delimiters2` in the phrase of line 185: the eight of the shared
      part and the final ".". */
  lemma Delims185(p: string)
    requires SharedShape(p) && |p| == 29 && IsDelimiter2(p[28])
    ensures Delims(p) == Matches(p, 28) + [Seg([p[28]], 28, 29)]
  {
    MatchesTake(p, 28);
  }

  /** The first four iterations of the loop of lines 98-115, the same for both phrases. */
  lemma SegmentsUpTo4(p: string)
    requires SharedShape(p) && 8 <= |Delims(p)| && Delims(p)[..8] == Matches(p, 28)
    ensures SegmentsUpTo(p, 4) == [Seg(p[0..1], 0, 1), Seg(p[3..7], 3, 7), Seg([p[7]], 7, 8)]
  {
    MatchesUpTo28(p);
    assert SegmentsUpTo(p, 1) == [Seg(p[0..1], 0, 1)];
    assert SegmentsUpTo(p, 2) == [Seg(p[0..1], 0, 1)];
    assert SegmentsUpTo(p, 3) == [Seg(p[0..1], 0, 1), Seg(p[3..7], 3, 7), Seg([p[7]], 7, 8)];
  }

  /** The fifth iteration: "мечтаю" and "-". */
  lemma SegmentsUpTo5(p: string)
    requires SharedShape(p) && 8 <= |Delims(p)| && Delims(p)[..8] == Matches(p, 28)
    ensures SegmentsUpTo(p, 5) == [Seg(p[0..1], 0, 1),
                                  Seg(p[3..7], 3, 7),
                                  Seg([p[7]], 7, 8),
                                  Seg(p[9..15], 9, 15),
                                  Seg([p[15]], 15, 16)]
  {
    MatchesUpTo28(p);
    SegmentsUpTo4(p);
  }

  /** The sixth iteration: "ка" and a space. */
  lemma SegmentsUpTo6(p: string)
    requires SharedShape(p) && 8 <= |Delims(p)| && Delims(p)[..8] == Matches(p, 28)
    ensures SegmentsUpTo(p, 6) == [Seg(p[0..1], 0, 1),
                                  Seg(p[3..7], 3, 7),
                                  Seg([p[7]], 7, 8),
                                  Seg(p[9..15], 9, 15),
                                  Seg([p[15]], 15, 16),
                                  Seg(p[16..18], 16, 18)]
  {
    MatchesUpTo28(p);
    SegmentsUpTo5(p);
  }

  /** The first eight iterations, the same for both phrases. */
  lemma SegmentsUpTo8(p: string)
    requires SharedShape(p) && 8 <= |Delims(p)| && Delims(p)[..8] == Matches(p, 28)
    ensures SegmentsUpTo(p, 8) == [Seg(p[0..1], 0, 1),
                                  Seg(p[3..7], 3, 7),
                                  Seg([p[7]], 7, 8),
                                  Seg(p[9..15], 9, 15),
                                  Seg([p[15]], 15, 16),
                                  Seg(p[16..18], 16, 18),
                                  Seg(p[20..23], 20, 23),
                                  Seg([p[23]], 23, 24)]
  {
    MatchesUpTo28(p);
    SegmentsUpTo6(p);
    assert SegmentsUpTo(p, 7) == SegmentsUpTo(p, 6);
  }

  /** `tokens0` of the phrase of line 185: ten segments, the last one the final ".". */
  lemma Segments185(p: string)
    requires Chars185(p)
    ensures Segments(p) == Segs185()
  {
    Chars185Shape(p);
    MatchesUpTo28(p);
    Delims185(p);
    assert Delims(p)[..8] == Matches(p, 28);
    SegmentsUpTo8(p);
    assert SegmentsUpTo(p, 9) == SegmentsUpTo(p, 8) + [Seg(p[24..28], 24, 28), Seg([p[28]], 28, 29)];
    assert p[0..1] == "Я" && p[3..7] == "сплю" && [p[7]] == "," && p[9..15] == "мечтаю";
    assert [p[15]] == "-" && p[16..18] == "ка" && p[20..23] == "что" && [p[23]] == "-";
    assert p[24..28] == "либо" && [p[28]] == ".";
  }

  function Segs185(): seq<Seg>
  {
    [Seg("Я", 0, 1), Seg("сплю", 3, 7), Seg(",", 7, 8), Seg("мечтаю", 9, 15), Seg("-", 15, 16),
     Seg("ка", 16, 18), Seg("что", 20, 23), Seg("-", 23, 24), Seg("либо", 24, 28), Seg(".", 28, 29)]
  }

  /** `tokens0` of the phrase of line 194: nine segments, the last one the text after the
      last match (lines 117-122). */
  lemma Segments194(p: string)
    requires Chars194(p)
    ensures Segments(p) == Segs194()
  {
    Chars194Shape(p);
    MatchesUpTo28(p);
    assert Delims(p)[..8] == Matches(p, 28);
    SegmentsUpTo8(p);
    assert Trailing(p) == [Seg(p[24..], 24, 28)];
    assert p[0..1] == "Я" && p[3..7] == "сплю" && [p[7]] == "," && p[9..15] == "мечтаю";
    assert [p[15]] == "-" && p[16..18] == "ка" && p[20..23] == "что" && [p[23]] == "-";
    assert p[24..] == "либо";
  }

  function Segs194(): seq<Seg>
  {
    [Seg("Я", 0, 1), Seg("сплю", 3, 7), Seg(",", 7, 8), Seg("мечтаю", 9, 15), Seg("-", 15, 16),
     Seg("ка", 16, 18), Seg("что", 20, 23), Seg("-", 23, 24), Seg("либо", 24, 28)]
  }

  /** The dictionary of these tests: the prefix "что" followed by exactly one more segment
      before the last, and the word "что-либо"; the lowercase mapping keeps lengths and
      leaves both as they are. */
  ghost predicate TestLexicon(lex: Lexicon)
  {
    && lex.prefixHyphen == map["что" := LenRange(1, 1)]
    && "что-либо" in lex.wordsWithHyphen
    && lex.lower("что") == "что" && lex.lower("что-либо") == "что-либо"
    && forall t :: |lex.lower(t)| == |t|
  }

  /** A segment whose lowercase form is no known prefix stays alone (lines 131-134). */
  lemma AloneAt(lex: Lexicon, segs: seq<Seg>, i: nat)
    requires i < |segs| && lex.lower(segs[i].text) !in lex.prefixHyphen
    ensures MergePos(lex, segs, i) == Prepend(segs[i], MergePos(lex, segs, i + 1))
  {
    assert Texts(segs)[i] == segs[i].text;
  }

  /** A run of segments none of which is a known prefix passes through the merge as it is. */
  lemma {:induction false} AloneRun(lex: Lexicon, segs: seq<Seg>, i: nat, j: nat, rest: seq<Seg>)
    requires i <= j <= |segs|
    requires forall k :: i <= k < j ==> lex.lower(segs[k].text) !in lex.prefixHyphen
    requires MergePos(lex, segs, j) == Ok(rest)
    ensures MergePos(lex, segs, i) == Ok(segs[i..j] + rest)
    decreases j - i
  {
    if i < j {
      AloneRun(lex, segs, i + 1, j, rest);
      AloneAt(lex, segs, i);
      assert segs[i..j] == [segs[i]] + segs[i + 1..j];
      AppendAssoc([segs[i]], segs[i + 1..j], rest);
    }
  }

  /** "что" at segment 6, followed by "-" and "либо", opens the known word "что-либо": the
      three segments become one token from the start of the first to the end of the last
      (lines 137-144). */
  lemma KnownWordAt6(lex: Lexicon, segs: seq<Seg>, rest: seq<Seg>)
    requires TestLexicon(lex)
    requires 9 <= |segs| && segs[6].text == "что" && segs[7].text == "-" && segs[8].text == "либо"
    requires MergePos(lex, segs, 9) == Ok(rest)
    ensures MergePos(lex, segs, 6) == Ok([Seg("что-либо", segs[6].start, segs[8].end)] + rest)
  {
    var ts := Texts(segs);
    assert ts[6..9] == ["что", "-", "либо"];
    assert Candidate(ts, 6, 1) == "что-либо" by {
      assert Join(["либо"]) == "либо" by {
        JoinOne("либо");
      }
      assert Join(["-", "либо"]) == "-" + Join(["либо"]);
      assert Join(["что", "-", "либо"]) == "что" + Join(["-", "либо"]);
    }
    assert Choose(lex, ts, 6) == Some(1);
  }

  /** The six segments before "что" are no known prefix. */
  lemma FirstSixAlone(lex: Lexicon, segs: seq<Seg>)
    requires TestLexicon(lex)
    requires 6 <= |segs| && segs[..6] == Segs185()[..6]
    ensures forall k :: 0 <= k < 6 ==> lex.lower(segs[k].text) !in lex.prefixHyphen
  {
    forall k | 0 <= k < 6
      ensures lex.lower(segs[k].text) !in lex.prefixHyphen
    {
      assert segs[k] == Segs185()[..6][k];
      assert |segs[k].text| != 3;
    }
  }

  /** The merge over the segments of line 185. */
  lemma MergeSegs185(lex: Lexicon)
    requires TestLexicon(lex)
    ensures MergePos(lex, Segs185(), 0)
            == Ok([Seg("Я", 0, 1), Seg("сплю", 3, 7), Seg(",", 7, 8), Seg("мечтаю", 9, 15),
                   Seg("-", 15, 16), Seg("ка", 16, 18), Seg("что-либо", 20, 28), Seg(".", 28, 29)])
  {
    var segs := Segs185();
    assert |lex.lower(".")| == 1;
    AloneAt(lex, segs, 9);
    KnownWordAt6(lex, segs, [Seg(".", 28, 29)]);
    FirstSixAlone(lex, segs);
    AloneRun(lex, segs, 0, 6, [Seg("что-либо", 20, 28), Seg(".", 28, 29)]);
  }

  /** The merge over the segments of line 194. */
  lemma MergeSegs194(lex: Lexicon)
    requires TestLexicon(lex)
    ensures MergePos(lex, Segs194(), 0)
            == Ok([Seg("Я", 0, 1), Seg("сплю", 3, 7), Seg(",", 7, 8), Seg("мечтаю", 9, 15),
                   Seg("-", 15, 16), Seg("ка", 16, 18), Seg("что-либо", 20, 28)])
  {
    var segs := Segs194();
    KnownWordAt6(lex, segs, []);
    FirstSixAlone(lex, segs);
    AloneRun(lex, segs, 0, 6, [Seg("что-либо", 20, 28)]);
  }

  /** The test of lines 185-191: eight tokens, "что-либо" merged from three segments and
      spanning offsets 20 to 28, the first "Я" at 0 to 1 and the final "." at 28 to 29. */
  lemma Tokenize2Test185(lex: Lexicon, p: string)
    requires TestLexicon(lex)
    requires p == "Я  сплю, мечтаю-ка  что-либо."
    ensures MergePos(lex, Segments(p), 0)
            == Ok([Seg("Я", 0, 1), Seg("сплю", 3, 7), Seg(",", 7, 8), Seg("мечтаю", 9, 15),
                   Seg("-", 15, 16), Seg("ка", 16, 18), Seg("что-либо", 20, 28), Seg(".", 28, 29)])
  {
    Phrase185Chars(p);
    Segments185(p);
    MergeSegs185(lex);
  }

  /** The test of lines 194-195: without the final "." the last segment is the trailing
      text "либо", and "что-либо" still spans offsets 20 to 28. */
  lemma Tokenize2Test194(lex: Lexicon, p: string)
    requires TestLexicon(lex)
    requires p == "Я  сплю, мечтаю-ка  что-либо"
    ensures MergePos(lex, Segments(p), 0)
            == Ok([Seg("Я", 0, 1), Seg("сплю", 3, 7), Seg(",", 7, 8), Seg("мечтаю", 9, 15),
                   Seg("-", 15, 16), Seg("ка", 16, 18), Seg("что-либо", 20, 28)])
  {
    Phrase194Chars(p);
    Segments194(p);
    MergeSegs194(lex);
  }

  /** A phrase of one word: a non-empty phrase with no character of the class of line 26,
      whose lowercase form is no known prefix, is the one token `(phrase, 0, len)`. */
  lemma Tokenize2OneWord(lex: Lexicon, p: string)
    requires p != [] && forall q :: 0 <= q < |p| ==> !IsDelimiter2(p[q])
    requires lex.lower(p) !in lex.prefixHyphen
    ensures MergePos(lex, Segments(p), 0) == Ok([Seg(p, 0, |p|)])
  {
    NoDelimiterSingleSegment(p);
    AloneAt(lex, [Seg(p, 0, |p|)], 0);
  }

  /** The test of lines 198-199: "кошки" is the one token `("кошки", 0, 5)`. */
  lemma Tokenize2Test198(lex: Lexicon, p: string)
    requires p == "кошки" && lex.lower(p) !in lex.prefixHyphen
    ensures MergePos(lex, Segments(p), 0) == Ok([Seg("кошки", 0, 5)])
  {
    assert !IsDelimiter2('к') && !IsDelimiter2('о') && !IsDelimiter2('ш') && !IsDelimiter2('и');
    Tokenize2OneWord(lex, p);
  }
}
