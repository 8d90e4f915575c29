/**
  First-author surname normalisation (app.py:82-106): `normalize_author_surname`
  and its inner `keep_letters`.
*/
module Surname {
  import opened Text

  /** The two punctuation marks a surname may keep. */
  const Marks: set<char> := {'-', '\''}

  predicate Keepable(c: char) {
    IsLetter(c) || c in Marks
  }

  /** The characters of `s` that are letters, `-` or `'`, in order. */
  function FilterKeepable(s: string): (r: string)
    ensures forall i :: 0 <= i < |r| ==> Keepable(r[i])
  {
    if s == [] then [] else (if Keepable(s[0]) then [s[0]] else []) + FilterKeepable(s[1..])
  }

  /** The letters of `s`, in order. */
  function Letters(s: string): string {
    if s == [] then [] else (if IsLetter(s[0]) then [s[0]] else []) + Letters(s[1..])
  }

  /** A cleaned surname: only letters, `-` and `'`, and neither end is `-` or `'`. */
  predicate CleanSurname(s: string) {
    (forall i :: 0 <= i < |s| ==> Keepable(s[i]))
    && (s == [] || (s[0] !in Marks && s[|s| - 1] !in Marks))
  }

  /** Every character of `s` is `-` or `'`. */
  predicate AllMarks(s: string) {
    forall i :: 0 <= i < |s| ==> s[i] in Marks
  }

  /**
    `keep_letters(s)`: keep letters, `-` and `'`, then strip `-` and `'` from both
    ends. The result is what filtering keeps, less a run of marks at each end.
  */
  function KeepLetters(s: string): (r: string)
    ensures CleanSurname(r)
    ensures exists p, q :: AllMarks(p) && AllMarks(q) && FilterKeepable(s) == p + (r + q)
  {
    StripMarksClean(FilterKeepable(s));
    StripMarksTrims(FilterKeepable(s));
    Strip(FilterKeepable(s), Marks)
  }

  /** `strip("-'")` removes a run of marks from each end and keeps the middle as it is. */
  lemma StripMarksTrims(f: string)
    ensures exists p, q :: AllMarks(p) && AllMarks(q) && f == p + (Strip(f, Marks) + q)
  {
    var l := LStrip(f, Marks);
    var p := LeadingMarks(f);
    var q := TrailingMarks(l);
    assert f == p + (Strip(f, Marks) + q);
    assert AllMarks(p) && AllMarks(q);
  }

  /** `lstrip("-'")` drops a run of marks. */
  lemma LeadingMarks(f: string) returns (p: string)
    ensures AllMarks(p) && f == p + LStrip(f, Marks)
  {
    p := f[..|f| - |LStrip(f, Marks)|];
    SplitAt(f, |p|);
    LStripDropped(f, Marks);
  }

  /** `rstrip("-'")` drops a run of marks. */
  lemma TrailingMarks(l: string) returns (q: string)
    ensures AllMarks(q) && l == RStrip(l, Marks) + q
  {
    var r := RStrip(l, Marks);
    q := l[|r|..];
    SplitAt(l, |r|);
    RStripDropped(l, Marks);
    assert forall i :: 0 <= i < |q| ==> q[i] == l[|r| + i];
  }

  lemma StripMarksClean(f: string)
    requires forall i :: 0 <= i < |f| ==> Keepable(f[i])
    ensures CleanSurname(Strip(f, Marks))
  {
    var l := LStrip(f, Marks);
    var r := RStrip(l, Marks);
    var off := |f| - |l|;
    forall i | 0 <= i < |r|
      ensures Keepable(r[i])
    {
      assert r[i] == l[i] == f[off + i];
    }
    if r != [] {
      assert r[0] == l[0];
    }
  }

  // ---------------------------------------------------------------------------
  // Letters survive the clean-up
  // ---------------------------------------------------------------------------

  lemma {:induction false} LettersAppend(a: string, b: string)
    ensures Letters(a + b) == Letters(a) + Letters(b)
  {
    if a == [] {
      assert a + b == b;
    } else {
      var h := if IsLetter(a[0]) then [a[0]] else [];
      assert (a + b)[0] == a[0];
      assert (a + b)[1..] == a[1..] + b;
      assert Letters(a + b) == h + Letters(a[1..] + b);
      LettersAppend(a[1..], b);
      assert Letters(a) == h + Letters(a[1..]);
    }
  }

  lemma {:induction false} LettersOfMarks(s: string)
    requires forall i :: 0 <= i < |s| ==> s[i] in Marks
    ensures Letters(s) == []
  {
    if s != [] {
      LettersOfMarks(s[1..]);
    }
  }

  lemma {:induction false} LettersOfFilter(s: string)
    ensures Letters(FilterKeepable(s)) == Letters(s)
  {
    if s != [] {
      LettersOfFilter(s[1..]);
      LettersAppend(if Keepable(s[0]) then [s[0]] else [], FilterKeepable(s[1..]));
    }
  }

  /** Stripping `-` and `'` from the ends removes no letter. */
  lemma LettersOfStripMarks(s: string)
    ensures Letters(Strip(s, Marks)) == Letters(s)
  {
    LettersOfLStripMarks(s);
    LettersOfRStripMarks(LStrip(s, Marks));
  }

  lemma LettersOfLStripMarks(s: string)
    ensures Letters(LStrip(s, Marks)) == Letters(s)
  {
    var l := LStrip(s, Marks);
    var k := |s| - |l|;
    var front := s[..k];
    SplitAt(s, k);
    assert forall i :: 0 <= i < k ==> front[i] == s[i];
    LStripDropped(s, Marks);
    LettersOfMarks(front);
    LettersAppend(front, l);
  }

  lemma LettersOfRStripMarks(l: string)
    ensures Letters(RStrip(l, Marks)) == Letters(l)
  {
    var r := RStrip(l, Marks);
    var back := l[|r|..];
    SplitAt(l, |r|);
    assert forall i :: 0 <= i < |back| ==> back[i] == l[|r| + i];
    RStripDropped(l, Marks);
    LettersOfMarks(back);
    LettersAppend(r, back);
  }

  /** `keep_letters` keeps every letter of its input, in order, including non-ASCII ones. */
  lemma KeepLettersRetainsLetters(s: string)
    ensures Letters(KeepLetters(s)) == Letters(s)
  {
    LettersOfFilter(s);
    LettersOfStripMarks(FilterKeepable(s));
  }

  /** A clean string made only of `-` and `'` or nothing at all has no letters, and vice versa. */
  lemma {:induction false} CleanEmptyIffNoLetters(s: string)
    requires CleanSurname(s)
    ensures s == [] <==> Letters(s) == []
  {
    if s != [] {
      assert IsLetter(s[0]);
      assert Letters(s) == [s[0]] + Letters(s[1..]);
    }
  }

  /** `keep_letters` yields the empty string exactly when its input has no letter. */
  lemma KeepLettersEmpty(s: string)
    ensures KeepLetters(s) == [] <==> Letters(s) == []
  {
    KeepLettersRetainsLetters(s);
    CleanEmptyIffNoLetters(KeepLetters(s));
  }

  /** A string that is already clean is its own `keep_letters`. */
  lemma {:induction false} FilterFixesKeepable(s: string)
    requires forall i :: 0 <= i < |s| ==> Keepable(s[i])
    ensures FilterKeepable(s) == s
  {
    if s != [] {
      FilterFixesKeepable(s[1..]);
      assert s == [s[0]] + s[1..];
    }
  }

  lemma KeepLettersFixesClean(s: string)
    requires CleanSurname(s)
    ensures KeepLetters(s) == s
  {
    FilterFixesKeepable(s);
    StripNoOp(s, Marks);
  }

  // ---------------------------------------------------------------------------
  // Choosing the surname fragment
  // ---------------------------------------------------------------------------

  /** `a.split(",")[0]`: the text before the first comma. */
  function BeforeFirstComma(a: string): (r: string)
    ensures |r| <= |a| && r == a[..|r|]
    ensures forall i :: 0 <= i < |r| ==> r[i] != ','
    ensures |r| < |a| ==> a[|r|] == ','
  {
    if a == [] || a[0] == ',' then [] else [a[0]] + BeforeFirstComma(a[1..])
  }

  /** The last whitespace-separated token of a string that has no trailing whitespace. */
  function LastToken(a: string): (r: string)
    ensures |r| <= |a| && r == a[|a| - |r|..]
    ensures forall i :: 0 <= i < |r| ==> !IsSpace(r[i])
    ensures |r| < |a| ==> IsSpace(a[|a| - |r| - 1])
  {
    if a == [] || IsSpace(a[|a| - 1]) then [] else LastToken(a[..|a| - 1]) + [a[|a| - 1]]
  }

  /**
    The fragment taken as the surname of the trimmed name `a`: the text before
    the first comma ("Surname, Given") or else the last token ("Given Surname").
  */
  function SurnameCandidate(a: string): string {
    if ',' in a then StripSpace(BeforeFirstComma(a)) else LastToken(a)
  }

  /**
    `normalize_author_surname(author_raw)`: the cleaned candidate fragment, or the
    trimmed input when cleaning leaves nothing.
  */
  function NormalizeAuthorSurname(authorRaw: string): (r: string)
    ensures var a := StripSpace(authorRaw);
      if Letters(SurnameCandidate(a)) != [] then
        r == KeepLetters(SurnameCandidate(a))
        && CleanSurname(r) && r != [] && Letters(r) == Letters(SurnameCandidate(a))
      else r == a
    ensures r == [] <==> StripSpace(authorRaw) == []
  {
    var a := StripSpace(authorRaw);
    var k := KeepLetters(SurnameCandidate(a));
    KeepLettersRetainsLetters(SurnameCandidate(a));
    KeepLettersEmpty(SurnameCandidate(a));
    if k != "" then k else a
  }

  /** A cleaned surname has no whitespace and no comma. */
  lemma CleanHasNoSeparator(s: string)
    requires CleanSurname(s)
    ensures ',' !in s && forall i :: 0 <= i < |s| ==> !IsSpace(s[i])
  {
  }

  /** A string without whitespace is its own last token. */
  lemma LastTokenWhole(s: string)
    requires forall i :: 0 <= i < |s| ==> !IsSpace(s[i])
    ensures LastToken(s) == s
  {
    var t := LastToken(s);
    if |t| < |s| {
      assert false;
    }
  }

  /** Normalising looks only at the trimmed input. */
  lemma NormalizeOfStripped(x: string)
    ensures NormalizeAuthorSurname(StripSpace(x)) == NormalizeAuthorSurname(x)
  {
    StripSpaceTrimmed(x);
    StripSpaceNoOp(StripSpace(x));
  }

  /** A clean, non-empty surname is its own normal form. */
  lemma NormalizeOfClean(r: string)
    requires CleanSurname(r) && r != []
    ensures NormalizeAuthorSurname(r) == r
  {
    CleanHasNoSeparator(r);
    StripSpaceNoOp(r);
    LastTokenWhole(r);
    assert SurnameCandidate(r) == r;
    KeepLettersFixesClean(r);
  }

  /** Normalising an already normalised surname changes nothing. */
  lemma NormalizeIdempotent(authorRaw: string)
    ensures NormalizeAuthorSurname(NormalizeAuthorSurname(authorRaw)) == NormalizeAuthorSurname(authorRaw)
  {
    var r := NormalizeAuthorSurname(authorRaw);
    if r == StripSpace(authorRaw) {
      NormalizeOfStripped(authorRaw);
    } else {
      NormalizeOfClean(r);
    }
  }
}
