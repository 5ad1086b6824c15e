/** Strings and sequences of strings: concatenation (Python's `u''.join`) and the
    removal of a class of characters, with the algebra the proofs rely on. */
module Text {

  /** Concatenation of the pieces with no separator, as `u''.join(pieces)`. */
  function Join(pieces: seq<string>): string
  {
    if pieces == [] then [] else pieces[0] + Join(pieces[1..])
  }

  lemma {:induction false} JoinAppend(a: seq<string>, b: seq<string>)
    ensures Join(a + b) == Join(a) + Join(b)
  {
    if a == [] {
      assert a + b == b;
    } else {
      assert (a + b)[1..] == a[1..] + b;
      JoinAppend(a[1..], b);
    }
  }

  /** Pieces that are all non-empty concatenate to the empty string only when there are none. */
  lemma JoinNonEmpty(ts: seq<string>)
    requires forall t :: t in ts ==> t != []
    ensures Join(ts) == [] <==> ts == []
  {
    if ts != [] {
      assert ts[0] in ts;
    }
  }

  lemma JoinOne(t: string)
    ensures Join([t]) == t
  {
    assert [t][1..] == [];
  }

  /** A slice of one piece concatenates to that piece. */
  lemma JoinSingle(ts: seq<string>, i: int)
    requires 0 <= i < |ts|
    ensures Join(ts[i..i + 1]) == ts[i]
  {
    assert ts[i..i + 1] == [ts[i]];
    JoinOne(ts[i]);
  }

  /** Concatenating a slice of the pieces: the last piece comes last. */
  lemma JoinSnoc(ts: seq<string>, a: int, b: int)
    requires 0 <= a < b <= |ts|
    ensures Join(ts[a..b]) == Join(ts[a..b - 1]) + ts[b - 1]
  {
    assert ts[a..b] == ts[a..b - 1] + [ts[b - 1]];
    JoinAppend(ts[a..b - 1], [ts[b - 1]]);
    JoinOne(ts[b - 1]);
  }

  /** Concatenation regroups freely, for strings, token lists and segment lists alike;
      stated once so that proofs about longer terms need not reprove it element by
      element. */
  lemma AppendAssoc<T>(x: seq<T>, y: seq<T>, z: seq<T>)
    ensures x + (y + z) == (x + y) + z
  {
  }

  /** `s` with every character satisfying `drop` removed. */
  function Without(s: string, drop: char -> bool): (r: string)
    ensures |r| <= |s|
    ensures forall j :: 0 <= j < |r| ==> !drop(r[j])
  {
    if s == [] then [] else (if drop(s[0]) then [] else [s[0]]) + Without(s[1..], drop)
  }

  lemma {:induction false} WithoutAppend(a: string, b: string, drop: char -> bool)
    ensures Without(a + b, drop) == Without(a, drop) + Without(b, drop)
  {
    if a == [] {
      assert a + b == b;
    } else {
      assert (a + b)[1..] == a[1..] + b;
      WithoutAppend(a[1..], b, drop);
    }
  }

  /** Removing characters from a slice, one part at a time. */
  lemma WithoutSplit(s: string, i: int, j: int, k: int, drop: char -> bool)
    requires 0 <= i <= j <= k <= |s|
    ensures Without(s[i..k], drop) == Without(s[i..j], drop) + Without(s[j..k], drop)
  {
    assert s[i..k] == s[i..j] + s[j..k];
    WithoutAppend(s[i..j], s[j..k], drop);
  }

  /** Removing characters that do not occur changes nothing. */
  lemma {:induction false} WithoutNothing(s: string, drop: char -> bool)
    requires forall j :: 0 <= j < |s| ==> !drop(s[j])
    ensures Without(s, drop) == s
  {
    if s != [] {
      WithoutNothing(s[1..], drop);
    }
  }

  /** A string made only of dropped characters vanishes. */
  lemma {:induction false} WithoutEverything(s: string, drop: char -> bool)
    requires forall j :: 0 <= j < |s| ==> drop(s[j])
    ensures Without(s, drop) == []
  {
    if s != [] {
      WithoutEverything(s[1..], drop);
    }
  }
}
