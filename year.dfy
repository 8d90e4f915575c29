/**
  Publication-year disambiguation (app.py:36-80): `extract_year` and its inner
  `score`. Every word-bounded `19dd`/`20dd` token of the whitespace-normalised
  text is scored from keywords in a lower-cased window of 60 characters on each
  side plus a decade recency term; the highest score wins, ties going to the
  larger year.
*/
module Year {
  import opened Text
  import opened Optional

  /** Characters of context taken on each side of a year token. */
  const ContextRadius: nat := 60

  /** Publication signals (+5). */
  const StrongKeywords: seq<string> :=
    ["published", "published online", "vol", "volume", "issue", "journal",
     "psychological research", "quarterly journal"]

  /** Online signals (+2). */
  const MediumKeywords: seq<string> := ["doi", "online", "available online"]

  /** Manuscript-history signals (-2). */
  const HistoryKeywords: seq<string> := ["received", "revised", "accepted"]

  /** Copyright signals (-1). */
  const CopyrightKeywords: seq<string> := ["\U{A9}", "copyright", "the author(s)"]

  /**
    `score(y, ctx)`: keyword signals plus `(y - 1900) // 10` (Python's floor
    division, which for the divisor 10 is Dafny's `/`). The signals move the
    score at most 7 above and 3 below the decade term.
  */
  function Score(y: int, ctx: string): (s: int)
    ensures (y - 1900) / 10 - 3 <= s <= (y - 1900) / 10 + 7
    ensures HasStrong(ctx) && !HasHistory(ctx) && !HasCopyright(ctx) ==> s >= (y - 1900) / 10 + 5
    ensures !HasStrong(ctx) && !HasMedium(ctx) ==> s <= (y - 1900) / 10
  {
    (if HasStrong(ctx) then 5 else 0)
    + (if HasMedium(ctx) then 2 else 0)
    - (if HasHistory(ctx) then 2 else 0)
    - (if HasCopyright(ctx) then 1 else 0)
    + (y - 1900) / 10
  }

  predicate HasStrong(ctx: string) { ContainsAny(ctx, StrongKeywords) }
  predicate HasMedium(ctx: string) { ContainsAny(ctx, MediumKeywords) }
  predicate HasHistory(ctx: string) { ContainsAny(ctx, HistoryKeywords) }
  predicate HasCopyright(ctx: string) { ContainsAny(ctx, CopyrightKeywords) }

  /** In the same context a later year never scores lower. */
  lemma ScoreRecency(y1: int, y2: int, ctx: string)
    requires y1 <= y2
    ensures Score(y1, ctx) <= Score(y2, ctx)
  {
  }

  /**
    `\b(19\d{2}|20\d{2})\b` matches `t` at position `i`: four digits that are not
    part of a longer run of word characters.
  */
  predicate YearAt(t: string, i: int) {
    0 <= i && i + 4 <= |t|
    && ((t[i] == '1' && t[i + 1] == '9') || (t[i] == '2' && t[i + 1] == '0'))
    && IsDigit(t[i + 2]) && IsDigit(t[i + 3])
    && Boundary(t, i) && Boundary(t, i + 4)
  }

  /** A year token is four digits with no word character just before or just after it. */
  lemma YearAtShape(t: string, i: int)
    requires YearAt(t, i)
    ensures 0 <= i && i + 4 <= |t| && forall k :: i <= k < i + 4 ==> IsDigit(t[k])
    ensures (i == 0 || !IsWordChar(t[i - 1])) && (i + 4 == |t| || !IsWordChar(t[i + 4]))
  {
    assert IsDigit(t[i]) && IsDigit(t[i + 1]);
  }

  /** `int(m.group(1))` for the token at `i`. */
  function YearValue(t: string, i: int): (y: int)
    requires YearAt(t, i)
    ensures 1900 <= y <= 2099
  {
    DigitVal(t[i]) * 1000 + DigitVal(t[i + 1]) * 100 + DigitVal(t[i + 2]) * 10 + DigitVal(t[i + 3])
  }

  /** `t[max(0, start - 60):min(len(t), end + 60)].lower()` for the token at `i`. */
  function Context(t: string, i: int): string
    requires 0 <= i && i + 4 <= |t|
  {
    var lo := if i - ContextRadius < 0 then 0 else i - ContextRadius;
    var hi := if i + 4 + ContextRadius > |t| then |t| else i + 4 + ContextRadius;
    Lower(t[lo..hi])
  }

  /** One element of `matches`: a year and its context. */
  datatype YearMatch = YearMatch(year: int, context: string)

  function MatchAt(t: string, i: int): YearMatch
    requires YearAt(t, i)
  {
    YearMatch(YearValue(t, i), Context(t, i))
  }

  /** `(score, year)` is the sort key; `KeyLe` is its lexicographic order. */
  predicate KeyLe(a: YearMatch, b: YearMatch) {
    var sa, sb := Score(a.year, a.context), Score(b.year, b.context);
    sa < sb || (sa == sb && a.year <= b.year)
  }

  /** Some year token occurs in `t`. */
  predicate HasYearToken(t: string) {
    exists i :: 0 <= i < |t| && YearAt(t, i)
  }

  /** The token at `i` has the greatest `(score, year)` key of all tokens of `t`. */
  predicate BestAt(t: string, i: int) {
    YearAt(t, i)
    && forall j :: 0 <= j < |t| && YearAt(t, j) ==> KeyLe(MatchAt(t, j), MatchAt(t, i))
  }

  /** Year tokens never overlap: the three positions after a token cannot start one. */
  lemma NoTokenInside(t: string, i: int, d: int)
    requires YearAt(t, i) && 1 <= d <= 3
    ensures !YearAt(t, i + d)
  {
    assert IsWordChar(t[i + d - 1]) && IsWordChar(t[i + d]);
  }

  /** Every year token that starts before `i` is in `pos`. */
  predicate Listed(t: string, pos: seq<int>, i: int) {
    forall j :: 0 <= j < i && YearAt(t, j) ==> j in pos
  }

  lemma ListedSkip(t: string, pos: seq<int>, i: int)
    requires Listed(t, pos, i) && !YearAt(t, i)
    ensures Listed(t, pos, i + 1)
  {
    forall j | 0 <= j < i + 1 && YearAt(t, j)
      ensures j in pos
    {
      if j < i {
        assert YearAt(t, j);
      }
    }
  }

  /** Listing the token at `i` covers everything up to its end: no token starts inside it. */
  lemma ListedToken(t: string, pos: seq<int>, i: int)
    requires Listed(t, pos, i) && YearAt(t, i)
    ensures Listed(t, pos + [i], i + 4)
  {
    NoTokenInside(t, i, 1);
    NoTokenInside(t, i, 2);
    NoTokenInside(t, i, 3);
    forall j | 0 <= j < i + 4 && YearAt(t, j)
      ensures j in pos + [i]
    {
      if j < i {
        assert j in pos;
      } else {
        assert j == i;
      }
    }
  }

  /**
    The loop over `re.finditer(...)` in `extract_year`: every year token of `t`,
    left to right, with its year and context; `pos` holds where each was found.
  */
  method FindYearTokens(t: string) returns (matches: seq<YearMatch>, ghost pos: seq<int>)
    ensures |pos| == |matches|
    ensures forall k :: 0 <= k < |pos| ==> YearAt(t, pos[k]) && matches[k] == MatchAt(t, pos[k])
    ensures forall j :: 0 <= j < |t| && YearAt(t, j) ==> j in pos
  {
    matches, pos := [], [];
    var i := 0;
    while i < |t|
      invariant 0 <= i <= |t|
      invariant |pos| == |matches|
      invariant forall k :: 0 <= k < |pos| ==> YearAt(t, pos[k]) && matches[k] == MatchAt(t, pos[k])
      invariant Listed(t, pos, i)
    {
      if YearAt(t, i) {
        var y := DigitVal(t[i]) * 1000 + DigitVal(t[i + 1]) * 100
                 + DigitVal(t[i + 2]) * 10 + DigitVal(t[i + 3]);
        var start := if i - ContextRadius < 0 then 0 else i - ContextRadius;
        var end := if i + 4 + ContextRadius > |t| then |t| else i + 4 + ContextRadius;
        var ctx := Lower(t[start..end]);
        matches := matches + [YearMatch(y, ctx)];
        ListedToken(t, pos, i);
        pos := pos + [i];
        i := i + 4;
      } else {
        ListedSkip(t, pos, i);
        i := i + 1;
      }
    }
  }

  /** The head of `scored` once sorted by `(score, year)` descending: a match with the greatest key. */
  method PickBest(matches: seq<YearMatch>) returns (best: nat)
    requires |matches| > 0
    ensures best < |matches|
    ensures forall j :: 0 <= j < |matches| ==> KeyLe(matches[j], matches[best])
  {
    best := 0;
    var k := 1;
    while k < |matches|
      invariant best < |matches| && 1 <= k <= |matches|
      invariant forall j :: 0 <= j < k ==> KeyLe(matches[j], matches[best])
    {
      if !KeyLe(matches[k], matches[best]) {
        best := k;
      }
      k := k + 1;
    }
  }

  /**
    `extract_year(text)`: None exactly when the normalised text has no year
    token; otherwise the year of a token whose `(score, year)` key is maximal.
  */
  method ExtractYear(text: string) returns (r: Option<int>)
    ensures r.None? <==> !HasYearToken(CollapseSpaces(text))
    ensures r.Some? ==> 1900 <= r.value <= 2099
    ensures r.Some? ==> exists i :: BestAt(CollapseSpaces(text), i) && YearValue(CollapseSpaces(text), i) == r.value
  {
    if text == [] {
      return None;
    }
    var t := CollapseSpaces(text);
    var matches, pos := FindYearTokens(t);
    if |matches| == 0 {
      return None;
    }
    var best := PickBest(matches);
    r := Some(matches[best].year);
    assert BestAt(t, pos[best]) by {
      forall j | 0 <= j < |t| && YearAt(t, j)
        ensures KeyLe(MatchAt(t, j), MatchAt(t, pos[best]))
      {
        var m :| 0 <= m < |pos| && pos[m] == j;
        assert KeyLe(matches[m], matches[best]);
      }
    }
  }

  /** The maximal key determines the year: any two best tokens carry the same year. */
  lemma BestYearUnique(t: string, i: int, j: int)
    requires BestAt(t, i) && BestAt(t, j)
    ensures YearValue(t, i) == YearValue(t, j)
  {
    assert KeyLe(MatchAt(t, i), MatchAt(t, j)) && KeyLe(MatchAt(t, j), MatchAt(t, i));
  }
}
