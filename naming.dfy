/**
  Proposed names (app.py:275-308): `build_new_name`, which composes the
  "Surname et al. (Year). Title" stem with fallbacks and reports which fallbacks
  were used, and `avoid_collision`, which numbers a name that already exists.
*/
module Naming {
  import opened Optional
  import opened Text
  import opened Sanitize
  import opened Surname
  import opened PaperInfo

  // ---------------------------------------------------------------------------
  // build_new_name
  // ---------------------------------------------------------------------------

  /** The author used when no surname was found. */
  const DefaultAuthor: string := "Autor"

  const AuthorFallback: string := "fallback autor"
  const YearFallback: string := "fallback a\U{F1}o"
  const TitleFallback: string := "fallback t\U{ED}tulo"

  /** Python truthiness of `info.year`: present and not zero. */
  predicate YearKnown(year: Option<int>) {
    year.Some? && year.value != 0
  }

  /** `f"{author} et al. ({year}). {title}"`. */
  function Citation(author: string, year: int, title: string): string {
    author + " et al. (" + IntToString(year) + "). " + title
  }

  /**
    `", ".join(reason_parts) if reason_parts else "OK"` for the fallbacks used,
    listed in the order author, year, title.
  */
  function ReasonText(authorFb: bool, yearFb: bool, titleFb: bool): string {
    var parts := (if authorFb then [AuthorFallback] else [])
      + (if yearFb then [YearFallback] else [])
      + (if titleFb then [TitleFallback] else []);
    if parts == [] then "OK" else Join(", ", parts)
  }

  /**
    `build_new_name(info, fallback_year, original_stem)`: the sanitised citation
    stem built from the surname (or "Autor"), the year (or the fallback year) and
    the title (or the original stem), and the list of fallbacks used.
  */
  method BuildNewName(info: PaperInfo, fallbackYear: int, originalStem: string)
    returns (newStem: string, reason: string)
    ensures newStem == SanitizeFilename(Citation(
      if Present(info.firstAuthorSurname) then info.firstAuthorSurname.value else DefaultAuthor,
      if YearKnown(info.year) then info.year.value else fallbackYear,
      if Present(info.title) then info.title.value else originalStem), MaxLen)
    ensures SafeName(newStem) && |newStem| <= MaxLen
    ensures reason == ReasonText(!Present(info.firstAuthorSurname), !YearKnown(info.year), !Present(info.title))
    ensures reason == "OK" <==> Present(info.firstAuthorSurname) && YearKnown(info.year) && Present(info.title)
  {
    var year := if YearKnown(info.year) then info.year.value else fallbackYear;
    var title := if Present(info.title) then info.title.value else originalStem;
    var author := if Present(info.firstAuthorSurname) then info.firstAuthorSurname.value else DefaultAuthor;

    newStem := author + " et al. (" + IntToString(year) + "). " + title;
    newStem := SanitizeFilename(newStem, MaxLen);
    reason := FallbackReason(!Present(info.firstAuthorSurname), !YearKnown(info.year), !Present(info.title));
  }

  /** The `reason_parts` list of `build_new_name`, joined. */
  method FallbackReason(authorFb: bool, yearFb: bool, titleFb: bool) returns (reason: string)
    ensures reason == ReasonText(authorFb, yearFb, titleFb)
    ensures reason == "OK" <==> !authorFb && !yearFb && !titleFb
  {
    var reasonParts: seq<string> := [];
    if authorFb {
      reasonParts := reasonParts + [AuthorFallback];
    }
    if yearFb {
      reasonParts := reasonParts + [YearFallback];
    }
    if titleFb {
      reasonParts := reasonParts + [TitleFallback];
    }
    assert reasonParts == (if authorFb then [AuthorFallback] else [])
      + (if yearFb then [YearFallback] else []) + (if titleFb then [TitleFallback] else []);
    reason := if reasonParts != [] then Join(", ", reasonParts) else "OK";
    ReasonTextLength(authorFb, yearFb, titleFb);
  }

  function Count(b: bool): nat {
    if b then 1 else 0
  }

  /** The length of the reason: each fallback's text and a two-character separator between them. */
  lemma ReasonTextLength(authorFb: bool, yearFb: bool, titleFb: bool)
    ensures var k := Count(authorFb) + Count(yearFb) + Count(titleFb);
      |ReasonText(authorFb, yearFb, titleFb)| ==
        if k == 0 then 2
        else 14 * Count(authorFb) + 12 * Count(yearFb) + 15 * Count(titleFb) + 2 * (k - 1)
  {
    var parts := (if authorFb then [AuthorFallback] else [])
      + (if yearFb then [YearFallback] else [])
      + (if titleFb then [TitleFallback] else []);
    if |parts| == 2 {
      assert Join(", ", parts) == parts[0] + ", " + parts[1];
    } else if |parts| == 3 {
      assert parts[1..] == [parts[1], parts[2]];
      assert Join(", ", parts[1..]) == parts[1] + ", " + parts[2];
    }
  }

  /** The reason names exactly the fallbacks used: different fallbacks give different reasons. */
  lemma ReasonDetermines(a1: bool, y1: bool, t1: bool, a2: bool, y2: bool, t2: bool)
    requires ReasonText(a1, y1, t1) == ReasonText(a2, y2, t2)
    ensures a1 == a2 && y1 == y2 && t1 == t2
  {
    ReasonTextLength(a1, y1, t1);
    ReasonTextLength(a2, y2, t2);
  }

  /** A stem that is already a clean citation comes back unchanged from sanitising. */
  lemma CitationKept(author: string, year: int, title: string)
    requires author != [] && CleanSurname(author)
    requires 0 <= year
    requires title != [] && SafeName(title) && Collapsed(title) && Trimmed(title)
    requires |Citation(author, year, title)| <= MaxLen
    ensures SanitizeFilename(Citation(author, year, title), MaxLen) == Citation(author, year, title)
  {
    var c := Citation(author, year, title);
    CitationClean(author, IntToString(year), title);
    CleanedFixesSafe(c);
  }

  /** The plain parts of the citation are safe, collapsed and trimmed once put together. */
  lemma CitationClean(author: string, digits: string, title: string)
    requires author != [] && CleanSurname(author)
    requires digits != [] && forall i :: 0 <= i < |digits| ==> IsDigit(digits[i])
    requires title != [] && SafeName(title) && Collapsed(title) && Trimmed(title)
    ensures var c := author + " et al. (" + digits + "). " + title;
      SafeName(c) && Collapsed(c) && Trimmed(c)
  {
    CitationCollapsed(author, digits, title);
    CitationSafe(author, digits, title);
  }

  lemma CitationCollapsed(author: string, digits: string, title: string)
    requires author != [] && CleanSurname(author)
    requires digits != [] && forall i :: 0 <= i < |digits| ==> IsDigit(digits[i])
    requires title != [] && Collapsed(title) && Trimmed(title)
    ensures var c := author + " et al. (" + digits + "). " + title;
      Collapsed(c) && Trimmed(c)
  {
    var l1, l2 := " et al. (", "). ";
    CleanHasNoSeparator(author);
    NoSpaceCollapsed(author);
    NoSpaceCollapsed(digits);
    SeparatorsCollapsed();
    var p1 := author + l1;
    var p2 := p1 + digits;
    var p3 := p2 + l2;
    CollapsedAppend(author, l1);
    assert p1[|p1| - 1] == '(';
    CollapsedAppend(p1, digits);
    assert p2[|p2| - 1] == digits[|digits| - 1];
    CollapsedAppend(p2, l2);
    CollapsedAppend(p3, title);
    var c := p3 + title;
    assert c[0] == author[0];
    assert c[|c| - 1] == title[|title| - 1];
  }

  lemma CitationSafe(author: string, digits: string, title: string)
    requires CleanSurname(author)
    requires forall i :: 0 <= i < |digits| ==> IsDigit(digits[i])
    requires title != [] && SafeName(title)
    ensures SafeName(author + " et al. (" + digits + "). " + title)
  {
    var l1, l2 := " et al. (", "). ";
    forall i | 0 <= i < |author|
      ensures author[i] !in InvalidWinChars
    {
      assert Keepable(author[i]);
    }
    var p1 := author + l1;
    var p2 := p1 + digits;
    var p3 := p2 + l2;
    NoInvalidAppend(author, l1);
    NoInvalidAppend(p1, digits);
    NoInvalidAppend(p2, l2);
    NoInvalidAppend(p3, title);
    var c := p3 + title;
    assert c[|c| - 1] == title[|title| - 1];
  }

  /** The fixed parts of the citation are collapsed. */
  lemma SeparatorsCollapsed()
    ensures Collapsed(" et al. (") && Collapsed("). ")
  {
    var l1, l2 := " et al. (", "). ";
    forall i | 0 <= i < |l1|
      ensures !OddSpaceAt(l1, i) && !DoubleSpaceAt(l1, i)
    {
      assert i == 0 || i == 1 || i == 2 || i == 3 || i == 4 || i == 5 || i == 6 || i == 7 || i == 8;
    }
    forall i | 0 <= i < |l2|
      ensures !OddSpaceAt(l2, i) && !DoubleSpaceAt(l2, i)
    {
      assert i == 0 || i == 1 || i == 2;
    }
  }

  /** No reserved character in either part means none in the two joined. */
  lemma NoInvalidAppend(a: string, b: string)
    requires forall i :: 0 <= i < |a| ==> a[i] !in InvalidWinChars
    requires forall i :: 0 <= i < |b| ==> b[i] !in InvalidWinChars
    ensures forall i :: 0 <= i < |a + b| ==> (a + b)[i] !in InvalidWinChars
  {
  }

  // ---------------------------------------------------------------------------
  // avoid_collision
  // ---------------------------------------------------------------------------

  /** `s.rfind(c)`: the last position of `c` in `s`, or -1. */
  function LastIndexOf(s: string, c: char): (i: int)
    ensures -1 <= i < |s|
    ensures i >= 0 ==> s[i] == c
    ensures forall j :: i < j < |s| ==> s[j] != c
  {
    if s == [] then -1 else if s[|s| - 1] == c then |s| - 1 else LastIndexOf(s[..|s| - 1], c)
  }

  /** Where pathlib splits a name into stem and suffix: its last period, when neither first nor last. */
  predicate HasSuffix(name: string) {
    0 < LastIndexOf(name, '.') < |name| - 1
  }

  /** `PurePath.suffix`: the final extension, starting with its period, or "". */
  function Suffix(name: string): (r: string)
    ensures r == [] || (|r| >= 2 && r[0] == '.' && forall j :: 1 <= j < |r| ==> r[j] != '.')
  {
    if HasSuffix(name) then name[LastIndexOf(name, '.')..] else ""
  }

  /** `PurePath.stem`: the name without its final extension. */
  function Stem(name: string): (r: string)
    ensures r + Suffix(name) == name
    ensures Suffix(name) != [] ==> r != []
  {
    if HasSuffix(name) then name[..LastIndexOf(name, '.')] else name
  }

  /** `f"{base} ({n}){target.suffix}"`. */
  function Candidate(name: string, n: nat): string {
    Stem(name) + " (" + NatToString(n) + ")" + Suffix(name)
  }

  /** Different numbers give different candidate names. */
  lemma CandidateInjective(name: string, m: nat, n: nat)
    requires Candidate(name, m) == Candidate(name, n)
    ensures m == n
  {
    MiddleEqual(Stem(name), NatToString(m), NatToString(n), Suffix(name));
    NatToStringInjective(m, n);
  }

  lemma MiddleEqual(p: string, x: string, y: string, s: string)
    requires p + " (" + x + ")" + s == p + " (" + y + ")" + s
    ensures x == y
  {
    var a := p + " (" + x + ")" + s;
    assert |x| == |y|;
    assert x == a[|p| + 2..|p| + 2 + |x|];
  }

  /** In `s`, position `i` holds the last `c`. */
  lemma LastIndexOfIs(s: string, c: char, i: int)
    requires 0 <= i < |s| && s[i] == c
    requires forall j :: i < j < |s| ==> s[j] != c
    ensures LastIndexOf(s, c) == i
  {
  }

  /** A numbered candidate keeps the extension and carries the number in its stem. */
  lemma CandidateKeepsSuffix(name: string, n: nat)
    requires Suffix(name) != []
    ensures Suffix(Candidate(name, n)) == Suffix(name)
    ensures Stem(Candidate(name, n)) == Stem(name) + " (" + NatToString(n) + ")"
  {
    var stem, suf := Stem(name), Suffix(name);
    var mid := " (" + NatToString(n) + ")";
    var c := Candidate(name, n);
    var i := |stem| + |mid|;
    assert c == (stem + mid) + suf;
    assert c[i] == suf[0] == '.';
    forall j | i < j < |c|
      ensures c[j] != '.'
    {
      assert c[j] == suf[j - i];
    }
    LastIndexOfIs(c, '.', i);
    assert c[..i] == stem + mid;
    assert c[i..] == suf;
  }

  /** Every numbered candidate below `n` is taken. */
  predicate TakenBelow(target: string, existing: set<string>, n: nat) {
    forall k: nat :: 1 <= k < n ==> Candidate(target, k) in existing
  }

  /** Every name in `tried` is a numbered candidate below `n`. */
  predicate TriedBelow(target: string, tried: set<string>, n: nat) {
    forall x :: x in tried ==> exists k: nat :: 1 <= k < n && x == Candidate(target, k)
  }

  lemma TakenBelowNext(target: string, existing: set<string>, n: nat)
    requires TakenBelow(target, existing, n) && Candidate(target, n) in existing
    ensures TakenBelow(target, existing, n + 1)
  {
  }

  /** The next candidate is new, and trying it keeps every tried name below the next number. */
  lemma TriedNext(target: string, tried: set<string>, n: nat)
    requires 1 <= n && TriedBelow(target, tried, n)
    ensures Candidate(target, n) !in tried
    ensures TriedBelow(target, tried + {Candidate(target, n)}, n + 1)
  {
    if Candidate(target, n) in tried {
      var k: nat :| 1 <= k < n && Candidate(target, n) == Candidate(target, k);
      CandidateInjective(target, k, n);
    }
    forall x | x in tried + {Candidate(target, n)}
      ensures exists k: nat :: 1 <= k < n + 1 && x == Candidate(target, k)
    {
      if x == Candidate(target, n) {
        assert 1 <= n < n + 1;
      } else {
        var k: nat :| 1 <= k < n && x == Candidate(target, k);
        assert 1 <= k < n + 1;
      }
    }
  }

  /**
    `avoid_collision(target)` inside one folder whose file names are `existing`:
    the target itself when it is free, otherwise "stem (n).suffix" for the least
    n >= 1 that is free.
  */
  method AvoidCollision(target: string, existing: set<string>) returns (r: string)
    ensures r !in existing
    ensures target !in existing ==> r == target
    ensures target in existing ==>
      exists n: nat :: 1 <= n && r == Candidate(target, n)
        && forall k: nat :: 1 <= k < n ==> Candidate(target, k) in existing
  {
    if target !in existing {
      return target;
    }
    var suffix: nat := 1;
    ghost var tried: set<string> := {};
    while true
      invariant 1 <= suffix
      invariant TakenBelow(target, existing, suffix)
      invariant tried <= existing && |tried| == suffix - 1
      invariant TriedBelow(target, tried, suffix)
      decreases |existing| - |tried|
    {
      var candidate := Stem(target) + " (" + NatToString(suffix) + ")" + Suffix(target);
      assert candidate == Candidate(target, suffix);
      if candidate !in existing {
        return candidate;
      }
      TriedNext(target, tried, suffix);
      TakenBelowNext(target, existing, suffix);
      SubsetCard(tried + {candidate}, existing);
      tried := tried + {candidate};
      suffix := suffix + 1;
    }
  }

  lemma SubsetCard(a: set<string>, b: set<string>)
    requires a <= b
    ensures |a| <= |b|
  {
    assert b == a + (b - a);
  }
}
