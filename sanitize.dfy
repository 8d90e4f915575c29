/**
  Filename clean-up (app.py:18-34): `sanitize_filename`, which makes a proposed
  stem safe for Windows, and `title_case_soft`, which only tidies whitespace.
*/
module Sanitize {
  import opened Text

  /** The characters Windows refuses in file names. */
  const InvalidWinChars: set<char> := {'<', '>', ':', '"', '/', '\\', '|', '?', '*'}

  /** Characters Windows drops from the end of a file name. */
  const TrailingDrop: set<char> := {' ', '.'}

  /** Default bound on the stem length. */
  const MaxLen: nat := 160

  /** Every reserved character replaced by `_`, position by position. */
  function ReplaceInvalid(s: string): (r: string)
    ensures |r| == |s|
    ensures forall i :: 0 <= i < |s| ==> r[i] == (if s[i] in InvalidWinChars then '_' else s[i])
  {
    if s == [] then [] else [if s[0] in InvalidWinChars then '_' else s[0]] + ReplaceInvalid(s[1..])
  }

  /** A name Windows accepts: no reserved character, not ending in a space or a period. */
  predicate SafeName(s: string) {
    (forall i :: 0 <= i < |s| ==> s[i] !in InvalidWinChars)
    && (s == [] || s[|s| - 1] !in TrailingDrop)
  }

  /** The cleaned name before the length bound applies. */
  function Cleaned(s: string): string {
    RStrip(ReplaceInvalid(CollapseSpaces(StripSpace(s))), TrailingDrop)
  }

  /**
    `sanitize_filename(s, max_len)`: trim, collapse whitespace, replace reserved
    characters by `_`, drop trailing spaces and periods, then cut to `maxLen` and
    drop trailing spaces and periods again.
  */
  function SanitizeFilename(s: string, maxLen: nat): (r: string)
    ensures SafeName(r)
    ensures |r| <= maxLen
    ensures Collapsed(r) && Trimmed(r)
    ensures |r| <= |Cleaned(s)| && r == Cleaned(s)[..|r|]
    ensures |Cleaned(s)| <= maxLen ==> r == Cleaned(s)
    ensures |Cleaned(s)| > maxLen ==> forall i :: |r| <= i < maxLen ==> Cleaned(s)[i] in TrailingDrop
  {
    CleanedShape(s);
    BoundedShape(Cleaned(s), maxLen);
    Bounded(Cleaned(s), maxLen)
  }

  /** The length bound: cut to `maxLen` and drop trailing spaces and periods again. */
  function Bounded(c: string, maxLen: nat): string {
    if |c| > maxLen then RStrip(c[..maxLen], TrailingDrop) else c
  }

  lemma BoundedShape(c: string, maxLen: nat)
    requires Collapsed(c) && Trimmed(c) && SafeName(c)
    ensures var r := Bounded(c, maxLen);
      SafeName(r) && |r| <= maxLen && Collapsed(r) && Trimmed(r) && |r| <= |c| && r == c[..|r|]
      && (|c| <= maxLen ==> r == c)
      && (|c| > maxLen ==> forall i :: |r| <= i < maxLen ==> c[i] in TrailingDrop)
  {
    if |c| > maxLen {
      TruncatedShape(c, maxLen);
      RStripDropped(c[..maxLen], TrailingDrop);
    }
  }

  /** In a collapsed string that does not end in a space, the last character is not whitespace. */
  lemma CollapsedEnd(s: string)
    requires Collapsed(s) && s != [] && s[|s| - 1] !in TrailingDrop
    ensures !IsSpace(s[|s| - 1])
  {
    assert !OddSpaceAt(s, |s| - 1);
  }

  /** No reserved character anywhere in `s`. */
  predicate NoInvalid(s: string) {
    forall i :: 0 <= i < |s| ==> s[i] !in InvalidWinChars
  }

  /** Dropping trailing spaces and periods from a collapsed, left-trimmed name makes it safe and trimmed. */
  lemma DropTrailingShape(c: string)
    requires Collapsed(c) && NoInvalid(c) && (c != [] ==> !IsSpace(c[0]))
    ensures var d := RStrip(c, TrailingDrop);
      Collapsed(d) && Trimmed(d) && SafeName(d) && d == c[..|d|]
  {
    var d := RStrip(c, TrailingDrop);
    assert d == c[0..|d|];
    CollapsedSlice(c, 0, |d|);
    if d != [] {
      assert d[0] == c[0];
      CollapsedEnd(d);
    }
  }

  /** The shape of a cleaned name: collapsed, trimmed and safe. */
  lemma CleanedShape(s: string)
    ensures Collapsed(Cleaned(s)) && Trimmed(Cleaned(s)) && SafeName(Cleaned(s))
  {
    var a := StripSpace(s);
    StripSpaceTrimmed(s);
    var b := CollapseSpaces(a);
    var c := ReplaceInvalid(b);
    ReplaceKeepsShape(b);
    DropTrailingShape(c);
  }

  lemma ReplaceKeepsShape(b: string)
    requires Collapsed(b)
    ensures Collapsed(ReplaceInvalid(b)) && NoInvalid(ReplaceInvalid(b))
    ensures b != [] && !IsSpace(b[0]) ==> !IsSpace(ReplaceInvalid(b)[0])
  {
    var c := ReplaceInvalid(b);
    assert !IsSpace('_');
    forall i | 0 <= i < |c|
      ensures !OddSpaceAt(c, i) && !DoubleSpaceAt(c, i)
    {
      assert !OddSpaceAt(b, i) && !DoubleSpaceAt(b, i);
    }
  }

  /** Cutting a clean name and dropping trailing spaces and periods keeps it clean. */
  lemma TruncatedShape(c: string, m: nat)
    requires Collapsed(c) && Trimmed(c) && SafeName(c) && m < |c|
    ensures var t := RStrip(c[..m], TrailingDrop);
      SafeName(t) && Collapsed(t) && Trimmed(t) && t == c[..|t|]
  {
    CollapsedSlice(c, 0, m);
    assert c[..m] == c[0..m];
    DropTrailingShape(c[..m]);
  }

  /** Cleaning a name that is already safe, collapsed and trimmed changes nothing. */
  lemma CleanedFixesSafe(s: string)
    requires SafeName(s) && Collapsed(s) && Trimmed(s)
    ensures Cleaned(s) == s
  {
    StripSpaceNoOp(s);
    CollapseFixesCollapsed(s);
    assert ReplaceInvalid(s) == s;
  }

  /** Sanitising twice is the same as sanitising once. */
  lemma SanitizeIdempotent(s: string, maxLen: nat)
    ensures SanitizeFilename(SanitizeFilename(s, maxLen), maxLen) == SanitizeFilename(s, maxLen)
  {
    CleanedFixesSafe(SanitizeFilename(s, maxLen));
  }

  /**
    `title_case_soft(title)`: collapse whitespace runs to one space and trim;
    no change of case. The result is the words of `title` (its `split()`)
    joined by single spaces.
  */
  function TitleCaseSoft(title: string): (r: string)
    ensures r == Join(" ", Words(title))
    ensures Collapsed(r) && Trimmed(r)
    ensures NonSpaces(r) == NonSpaces(title)
  {
    var c := CollapseSpaces(title);
    StripCollapseIsJoin(title);
    StripCollapsed(c);
    CollapseKeepsNonSpaces(title);
    NonSpacesOfStrip(c);
    StripSpace(c)
  }

  /** Stripping whitespace keeps every other character. */
  lemma NonSpacesOfStrip(s: string)
    ensures NonSpaces(StripSpace(s)) == NonSpaces(s)
  {
    NonSpacesOfLStrip(s);
    NonSpacesOfRStrip(LStripSpace(s));
  }

  lemma NonSpacesOfRStrip(l: string)
    ensures NonSpaces(RStripSpace(l)) == NonSpaces(l)
  {
    var r := RStripSpace(l);
    SplitAt(l, |r|);
    NonSpacesAppend(r, l[|r|..]);
    RStripSpaceTail(l);
    NonSpacesOfSpaces(l[|r|..]);
  }

  lemma {:induction false} NonSpacesOfSpaces(s: string)
    requires forall i :: 0 <= i < |s| ==> IsSpace(s[i])
    ensures NonSpaces(s) == []
  {
    if s != [] {
      NonSpacesOfSpaces(s[1..]);
    }
  }

  /** Tidying a title twice is the same as tidying it once. */
  lemma TitleCaseSoftIdempotent(title: string)
    ensures TitleCaseSoft(TitleCaseSoft(title)) == TitleCaseSoft(title)
  {
    var r := TitleCaseSoft(title);
    CollapseFixesCollapsed(r);
    StripSpaceNoOp(r);
  }
}
