/**
  First-page layout heuristic (app.py:148-239): `guess_title_and_authors`.
  The title is the first acceptable line among the six largest by font size;
  the author line is looked for just below the title, first among lines with
  name separators, then among lines with at least two capitalised words.
*/
module Layout {
  import opened Text
  import opened Optional

  /** One text line of the first page with the largest font size of its spans. */
  datatype PageLine = PageLine(text: string, fontSize: int)

  /** `(title, authors_line, confidence, notes)`; confidence in hundredths. */
  datatype LayoutGuess = LayoutGuess(title: Option<string>, authors: Option<string>, confidence: int, notes: string)

  const NoTextNote: string := "No se pudo extraer texto de la primera página."
  const NoTitleNote: string := "No se detectó título con heurística de tamaño de fuente."
  const NoAuthorsNote: string := "No se detectó línea de autores (puede estar en otro formato)."

  /** How many of the largest lines are title candidates. */
  const TitleCandidates: nat := 6
  /** Shortest acceptable title, in characters. */
  const MinTitleLen: nat := 12
  /** How many leading lines each author pass searches for the title. */
  const PrimaryScope: nat := 40
  const FallbackScope: nat := 50
  /** How many lines below the title each author pass looks at. */
  const PrimaryWindow: nat := 7
  const FallbackWindow: nat := 9
  /** Shortest line the first author pass accepts. */
  const MinAuthorLen: nat := 6
  /** Prefix of the title used to find it among the lines. */
  const TitlePrefix: nat := 20

  const TitleStopWords: seq<string> := ["journal", "doi", "www.", "http", "volume", "issue"]
  const AuthorSeparators: seq<string> := [",", " and ", " & ", "et al", "\U{B7}", "\U{2022}", "\U{B7}"]
  const PrimaryAffiliations: seq<string> := ["university", "department", "institute", "faculty", "facultad", "address"]
  const FallbackAffiliations: seq<string> := ["university", "department", "institute", "faculty", "school", "address"]
  const SectionWords: seq<string> := ["abstract", "keywords", "introduction"]

  function Min(a: int, b: int): int {
    if a < b then a else b
  }

  /** The first index from `lo` on where `b` holds: the `for ... break` search of each loop below. */
  function FirstTrue(b: seq<bool>, lo: nat): Option<nat>
    decreases |b| - lo
  {
    if lo >= |b| then None else if b[lo] then Some(lo) else FirstTrue(b, lo + 1)
  }

  /** `FirstTrue` finds the first index from `lo` on where `b` holds, and finds nothing only when there is none. */
  lemma {:induction false} FirstTrueSpec(b: seq<bool>, lo: nat)
    ensures match FirstTrue(b, lo)
      case None => forall j :: lo <= j < |b| ==> !b[j]
      case Some(first) => lo <= first < |b| && b[first] && forall j :: lo <= j < first ==> !b[j]
    decreases |b| - lo
  {
    if lo < |b| && !b[lo] {
      FirstTrueSpec(b, lo + 1);
    }
  }

  // ---------------------------------------------------------------------------
  // sorted(lines, key=size, reverse=True): a stable sort, largest first
  // ---------------------------------------------------------------------------

  predicate SortedBySize(s: seq<PageLine>) {
    forall i, j :: 0 <= i < j < |s| ==> s[i].fontSize >= s[j].fontSize
  }

  /** The lines of `s` whose size is `v`, in order. */
  function OfSize(s: seq<PageLine>, v: int): seq<PageLine> {
    if s == [] then [] else (if s[0].fontSize == v then [s[0]] else []) + OfSize(s[1..], v)
  }

  /** Put `x` in front of the first line that is not larger than it. */
  function InsertBySize(x: PageLine, r: seq<PageLine>): (q: seq<PageLine>)
    ensures multiset(q) == multiset(r) + multiset{x}
  {
    if r == [] || r[0].fontSize <= x.fontSize then [x] + r
    else
      assert r == [r[0]] + r[1..];
      [r[0]] + InsertBySize(x, r[1..])
  }

  lemma {:induction false} InsertSorted(x: PageLine, r: seq<PageLine>)
    requires SortedBySize(r)
    ensures SortedBySize(InsertBySize(x, r))
  {
    if !(r == [] || r[0].fontSize <= x.fontSize) {
      var q' := InsertBySize(x, r[1..]);
      InsertSorted(x, r[1..]);
      forall k | 0 <= k < |q'| ensures r[0].fontSize >= q'[k].fontSize {
        assert q'[k] in multiset(q');
        assert q'[k] == x || q'[k] in multiset(r[1..]);
        if q'[k] != x {
          var m :| 0 <= m < |r[1..]| && r[1..][m] == q'[k];
          assert r[m + 1] == q'[k];
        }
      }
    }
  }

  lemma OfSizeCons(x: PageLine, r: seq<PageLine>, v: int)
    ensures OfSize([x] + r, v) == (if x.fontSize == v then [x] else []) + OfSize(r, v)
  {
    assert ([x] + r)[1..] == r;
  }

  /** Inserting `x` puts it in front of every line of its own size. */
  lemma {:induction false} InsertOfSize(x: PageLine, r: seq<PageLine>, v: int)
    ensures OfSize(InsertBySize(x, r), v) == (if x.fontSize == v then [x] else []) + OfSize(r, v)
  {
    if r == [] || r[0].fontSize <= x.fontSize {
      OfSizeCons(x, r, v);
    } else {
      var q := InsertBySize(x, r[1..]);
      InsertOfSize(x, r[1..], v);
      OfSizeCons(r[0], q, v);
      assert InsertBySize(x, r) == [r[0]] + q;
      assert OfSize(r, v) == (if r[0].fontSize == v then [r[0]] else []) + OfSize(r[1..], v);
      if x.fontSize == v {
        assert OfSize([r[0]] + q, v) == [] + OfSize(q, v);
      } else {
        assert OfSize(q, v) == OfSize(r[1..], v);
      }
    }
  }

  /**
    Python's `sorted(lines, key=lambda x: x[1], reverse=True)`: largest font first,
    a permutation of the input, and lines of equal size keep their reading order.
  */
  function SortBySize(lines: seq<PageLine>): (s: seq<PageLine>)
    ensures SortedBySize(s)
    ensures multiset(s) == multiset(lines)
  {
    if lines == [] then []
    else
      assert lines == [lines[0]] + lines[1..];
      InsertSorted(lines[0], SortBySize(lines[1..]));
      InsertBySize(lines[0], SortBySize(lines[1..]))
  }

  /** The sort is stable: the lines of any one size appear in their reading order. */
  lemma {:induction false} SortBySizeStable(lines: seq<PageLine>, v: int)
    ensures OfSize(SortBySize(lines), v) == OfSize(lines, v)
  {
    if lines != [] {
      SortBySizeStable(lines[1..], v);
      InsertOfSize(lines[0], SortBySize(lines[1..]), v);
      OfSizeCons(lines[0], lines[1..], v);
      assert lines == [lines[0]] + lines[1..];
    }
  }

  // ---------------------------------------------------------------------------
  // Title
  // ---------------------------------------------------------------------------

  /** A stripped candidate is a title: no journal/DOI/URL word and at least 12 characters. */
  predicate TitleOk(c: string) {
    !HasTitleStopWord(c) && |c| >= MinTitleLen
  }

  /** `re.search(r"\b(journal|doi|www\.|http|volume|issue)\b", c, flags=re.I)`. */
  predicate HasTitleStopWord(c: string) {
    ContainsWordCI(c, TitleStopWords)
  }

  /**
    `title` is what the title loop yields on `sorted`: the first of the top six
    lines whose stripped text passes `TitleOk`, or None when none does.
  */
  predicate IsFirstTitle(sorted: seq<PageLine>, title: Option<string>) {
    var n := Min(TitleCandidates, |sorted|);
    match title
    case None => forall k :: 0 <= k < n ==> !TitleAt(sorted, k)
    case Some(t) =>
      exists k :: 0 <= k < n && TitleAt(sorted, k) && t == StripSpace(sorted[k].text)
        && forall j :: 0 <= j < k ==> !TitleAt(sorted, j)
  }

  /** Line `k` of `sorted`, stripped, passes `TitleOk`. */
  predicate TitleAt(sorted: seq<PageLine>, k: int) {
    0 <= k < |sorted| && TitleOk(StripSpace(sorted[k].text))
  }

  /** Which of the top six lines of `sorted` pass as a title. */
  function TitleFlags(sorted: seq<PageLine>): (b: seq<bool>)
    ensures |b| == Min(TitleCandidates, |sorted|)
    ensures forall k :: 0 <= k < |b| ==> b[k] == TitleAt(sorted, k)
  {
    seq(Min(TitleCandidates, |sorted|), k => TitleAt(sorted, k))
  }

  /** The title the loop yields on `sorted`, as a value. */
  function FirstTitle(sorted: seq<PageLine>): (t: Option<string>)
    ensures IsFirstTitle(sorted, t)
    ensures t.Some? ==> |t.value| >= MinTitleLen
  {
    FirstTrueSpec(TitleFlags(sorted), 0);
    match FirstTrue(TitleFlags(sorted), 0)
    case None => None
    case Some(k) => Some(StripSpace(sorted[k].text))
  }

  /** The two tests the title loop makes on a stripped candidate, in its order. */
  method TitleCheck(c: string) returns (ok: bool)
    ensures ok == TitleOk(c)
  {
    if HasTitleStopWord(c) {
      return false;
    }
    if |c| < MinTitleLen {
      return false;
    }
    return true;
  }

  /** The title loop over `sorted_by_size[:6]`. */
  method PickTitle(sorted: seq<PageLine>) returns (title: Option<string>)
    ensures title == FirstTitle(sorted)
    ensures IsFirstTitle(sorted, title)
    ensures title.Some? ==> |title.value| >= MinTitleLen
  {
    ghost var flags := TitleFlags(sorted);
    title := None;
    var n := Min(TitleCandidates, |sorted|);
    var k := 0;
    while k < n
      invariant 0 <= k <= n
      invariant title == None
      invariant FirstTrue(flags, k) == FirstTrue(flags, 0)
    {
      var c := StripSpace(sorted[k].text);
      var ok := TitleCheck(c);
      if !ok {
        k := k + 1;
        continue;
      }
      title := Some(c);
      break;
    }
  }

  // ---------------------------------------------------------------------------
  // Finding the title among the lines
  // ---------------------------------------------------------------------------

  /** `title[:20] in t or t in title or title in t`. */
  predicate Related(title: string, t: string) {
    Contains(t, title[..Min(TitlePrefix, |title|)]) || Contains(title, t) || Contains(t, title)
  }

  /** `idx` is the first of the first `scope` lines that is related to the title. */
  predicate IsAnchor(lines: seq<PageLine>, title: string, scope: nat, idx: nat) {
    idx < Min(scope, |lines|) && RelatedAt(lines, title, idx)
    && forall j :: 0 <= j < idx ==> !RelatedAt(lines, title, j)
  }

  /** Line `j` is related to the title. */
  predicate RelatedAt(lines: seq<PageLine>, title: string, j: int) {
    0 <= j < |lines| && Related(title, lines[j].text)
  }

  /** Which of the first `scope` lines are related to the title. */
  function RelatedFlags(lines: seq<PageLine>, title: string, scope: nat): (b: seq<bool>)
    ensures |b| == Min(scope, |lines|)
    ensures forall j :: 0 <= j < |b| ==> b[j] == RelatedAt(lines, title, j)
  {
    seq(Min(scope, |lines|), j => RelatedAt(lines, title, j))
  }

  /** Where the title sits among the first `scope` lines, if anywhere. */
  function Anchor(lines: seq<PageLine>, title: string, scope: nat): (r: Option<nat>)
    ensures r.Some? ==> IsAnchor(lines, title, scope, r.value)
    ensures r.None? ==> forall j :: 0 <= j < Min(scope, |lines|) ==> !RelatedAt(lines, title, j)
  {
    FirstTrueSpec(RelatedFlags(lines, title, scope), 0);
    FirstTrue(RelatedFlags(lines, title, scope), 0)
  }

  /** The `enumerate(first_texts)` loop: where the title sits among the first `scope` lines. */
  method FindAnchor(lines: seq<PageLine>, title: string, scope: nat) returns (idx: Option<nat>)
    ensures idx == Anchor(lines, title, scope)
    ensures idx.Some? ==> IsAnchor(lines, title, scope, idx.value)
    ensures idx.None? ==> forall j :: 0 <= j < Min(scope, |lines|) ==> !RelatedAt(lines, title, j)
  {
    var n := Min(scope, |lines|);
    var i := 0;
    while i < n
      invariant 0 <= i <= n
      invariant forall j :: 0 <= j < i ==> !RelatedAt(lines, title, j)
      invariant FirstTrue(RelatedFlags(lines, title, scope), i) == Anchor(lines, title, scope)
    {
      if Related(title, lines[i].text) {
        assert RelatedAt(lines, title, i);
        return Some(i);
      }
      i := i + 1;
    }
    return None;
  }

  // ---------------------------------------------------------------------------
  // Author line, first pass: separators
  // ---------------------------------------------------------------------------

  /** `re.search(",| and | & |et al|·|•|·", w, flags=re.I)`. */
  predicate HasAuthorSeparator(w: string) {
    ContainsAnyCI(w, AuthorSeparators)
  }

  /** Line `j` passes `PrimaryOk` as it stands. */
  predicate PrimaryAt(lines: seq<PageLine>, j: int) {
    0 <= j < |lines| && PrimaryOk(lines[j].text)
  }

  /** A line the first pass takes as the author line. */
  predicate PrimaryOk(w: string) {
    |w| >= MinAuthorLen && HasAuthorSeparator(w) && !HasPrimaryAffiliation(w)
  }

  /** `re.search(r"\b(university|department|institute|facult(y|ad)|address)\b", w, flags=re.I)`. */
  predicate HasPrimaryAffiliation(w: string) {
    ContainsWordCI(w, PrimaryAffiliations)
  }

  /** Bounds of `first_texts[idx+1:idx+1+width]` where `first_texts` is the first `scope` lines. */
  function WindowEnd(lines: seq<PageLine>, scope: nat, idx: nat, width: nat): nat {
    Min(idx + 1 + width, Min(scope, |lines|))
  }

  /** The tests the first pass makes on one line, in its order. */
  method PrimaryCheck(w: string) returns (ok: bool)
    ensures ok == PrimaryOk(w)
  {
    if |w| < MinAuthorLen {
      return false;
    }
    if HasAuthorSeparator(w) {
      if HasPrimaryAffiliation(w) {
        return false;
      }
      return true;
    }
    return false;
  }

  /** Which lines up to the end of the first pass's window below `idx` pass `PrimaryOk`. */
  function PrimaryFlags(lines: seq<PageLine>, idx: nat): (b: seq<bool>)
    ensures |b| == WindowEnd(lines, PrimaryScope, idx, PrimaryWindow)
    ensures forall j :: 0 <= j < |b| ==> b[j] == PrimaryAt(lines, j)
  {
    seq(WindowEnd(lines, PrimaryScope, idx, PrimaryWindow), j => PrimaryAt(lines, j))
  }

  /** A line holding an author separator never strips to nothing. */
  lemma SeparatorLineNotBlank(w: string)
    requires HasAuthorSeparator(w)
    ensures StripSpace(w) != []
  {
    var i, p :| 0 <= i <= |w| && 0 <= p < |AuthorSeparators| && AtCI(w, i, AuthorSeparators[p]);
    var m := if p == 1 || p == 2 then 1 else 0;
    assert CharMatchesCI(w[i + m], AuthorSeparators[p][m]);
    NonSpaceSurvivesStrip(w, i + m);
  }

  /** What the first pass yields below the line `idx`: the stripped first line it accepts. */
  function PrimaryBelow(lines: seq<PageLine>, idx: nat): (r: Option<string>)
    ensures r.Some? ==> r.value != []
  {
    FirstTrueSpec(PrimaryFlags(lines, idx), idx + 1);
    match FirstTrue(PrimaryFlags(lines, idx), idx + 1)
    case None => None
    case Some(j) => SeparatorLineNotBlank(lines[j].text); Some(StripSpace(lines[j].text))
  }

  /** The line `PrimaryBelow` yields is the first one in the window that passes, and it yields nothing only when none does. */
  lemma PrimaryBelowSpec(lines: seq<PageLine>, idx: nat)
    ensures var hi := WindowEnd(lines, PrimaryScope, idx, PrimaryWindow);
      match PrimaryBelow(lines, idx)
      case None => forall j :: idx < j < hi ==> !PrimaryAt(lines, j)
      case Some(a) =>
        exists j :: idx < j < hi && PrimaryAt(lines, j) && a == StripSpace(lines[j].text)
          && forall k :: idx < k < j ==> !PrimaryAt(lines, k)
  {
    var b := PrimaryFlags(lines, idx);
    FirstTrueSpec(b, idx + 1);
    match FirstTrue(b, idx + 1)
    case None =>
    case Some(j) =>
      assert b[j];
  }

  /** The first pass: the first line below the title, within seven, that passes `PrimaryOk`. */
  method PrimaryScan(lines: seq<PageLine>, idx: nat) returns (authors: Option<string>)
    ensures authors == PrimaryBelow(lines, idx)
    ensures var hi := WindowEnd(lines, PrimaryScope, idx, PrimaryWindow);
      match authors
      case None => forall j :: idx < j < hi ==> !PrimaryAt(lines, j)
      case Some(a) =>
        exists j :: idx < j < hi && PrimaryAt(lines, j) && a == StripSpace(lines[j].text)
          && forall k :: idx < k < j ==> !PrimaryAt(lines, k)
  {
    var hi := WindowEnd(lines, PrimaryScope, idx, PrimaryWindow);
    ghost var flags := PrimaryFlags(lines, idx);
    var j := idx + 1;
    while j < hi
      invariant idx < j
      invariant FirstTrue(flags, j) == FirstTrue(flags, idx + 1)
    {
      var w := lines[j].text;
      var ok := PrimaryCheck(w);
      if ok {
        PrimaryBelowSpec(lines, idx);
        return Some(StripSpace(w));
      }
      assert !flags[j];
      j := j + 1;
    }
    PrimaryBelowSpec(lines, idx);
    return None;
  }

  // ---------------------------------------------------------------------------
  // Author line, second pass: capitalised words
  // ---------------------------------------------------------------------------

  predicate IsCapital(c: char) {
    ('A' <= c <= 'Z') || c in {'\U{C1}', '\U{C9}', '\U{CD}', '\U{D3}', '\U{DA}', '\U{DC}', '\U{D1}',
                              '\U{C7}', '\U{11E}', '\U{130}', '\U{D6}', '\U{15E}'}
  }

  predicate IsSmall(c: char) {
    ('a' <= c <= 'z') || c in {'\U{E1}', '\U{E9}', '\U{ED}', '\U{F3}', '\U{FA}', '\U{FC}', '\U{F1}',
                              '\U{E7}', '\U{11F}', '\U{131}', '\U{F6}', '\U{15F}'}
  }

  /** End of the run of small letters of `s` that starts at `k`. */
  function SmallRunEnd(s: string, k: nat): (e: nat)
    requires k <= |s|
    ensures k <= e <= |s|
    ensures forall m :: k <= m < e ==> IsSmall(s[m])
    ensures e == |s| || !IsSmall(s[e])
    decreases |s| - k
  {
    if k < |s| && IsSmall(s[k]) then SmallRunEnd(s, k + 1) else k
  }

  /**
    `\b[A-ZÁÉÍÓÚÜÑÇĞİÖŞÜ][a-záéíóúüñçğıöşü]+\b` matches at `i`. The greedy run
    of small letters must end at a boundary; a shorter run would end between
    two letters, where there is none.
  */
  predicate CapWordAt(s: string, i: nat) {
    i < |s| && IsCapital(s[i]) && Boundary(s, i)
    && var e := SmallRunEnd(s, i + 1); e > i + 1 && Boundary(s, e)
  }

  /** Which positions of `s` start a match of the capitalised-word pattern. */
  function CapWordFlags(s: string): (b: seq<bool>)
    ensures |b| == |s|
    ensures forall k :: 0 <= k < |s| ==> b[k] == CapWordAt(s, k)
  {
    seq(|s|, k requires 0 <= k < |s| => CapWordAt(s, k))
  }

  /**
    `len(re.findall(<capitalised word>, s))`. A match spans a capital and small
    letters only, so no other match can start inside it and `findall` finds
    every position where the pattern matches.
  */
  function CapWordCount(s: string): nat {
    CountTrue(CapWordFlags(s), 0)
  }

  /** How many entries of `b` hold from position `i` on. */
  function CountTrue(b: seq<bool>, i: nat): nat
    decreases |b| - i
  {
    if i >= |b| then 0 else (if b[i] then 1 else 0) + CountTrue(b, i + 1)
  }

  /** From position `i` on, the count reaches one exactly when some entry holds. */
  lemma {:induction false} CountTrueOne(b: seq<bool>, i: nat)
    ensures CountTrue(b, i) >= 1 <==> exists k :: i <= k < |b| && b[k]
    decreases |b| - i
  {
    if i < |b| {
      CountTrueOne(b, i + 1);
    }
  }

  /** From position `i` on, the count reaches two exactly when two entries hold. */
  lemma {:induction false} CountTrueTwo(b: seq<bool>, i: nat)
    ensures CountTrue(b, i) >= 2 <==> exists k1, k2 :: i <= k1 < k2 < |b| && b[k1] && b[k2]
    decreases |b| - i
  {
    if i < |b| {
      CountTrueTwo(b, i + 1);
      CountTrueOne(b, i + 1);
    }
  }

  /**
    The second pass's test `len(caps) >= 2` holds exactly when the
    capitalised-word pattern matches at two different positions.
  */
  lemma CapWordCountTwo(s: string)
    ensures CapWordCount(s) >= 1 <==> exists k :: 0 <= k < |s| && CapWordAt(s, k)
    ensures CapWordCount(s) >= 2 <==> exists k1, k2 :: 0 <= k1 < k2 < |s| && CapWordAt(s, k1) && CapWordAt(s, k2)
  {
    CountTrueOne(CapWordFlags(s), 0);
    CountTrueTwo(CapWordFlags(s), 0);
  }

  /** Line `j`, stripped, passes `FallbackOk`. */
  predicate FallbackAt(lines: seq<PageLine>, j: int) {
    0 <= j < |lines| && FallbackOk(StripSpace(lines[j].text))
  }

  /** A stripped line the second pass takes as the author line. */
  predicate FallbackOk(ww: string) {
    !HasFallbackAffiliation(ww) && !HasSectionWord(ww) && CapWordCount(ww) >= 2
  }

  /** `re.search(r"\b(university|department|institute|faculty|school|address)\b", ww, flags=re.I)`. */
  predicate HasFallbackAffiliation(ww: string) {
    ContainsWordCI(ww, FallbackAffiliations)
  }

  /** `re.search(r"\b(abstract|keywords|introduction)\b", ww, flags=re.I)`. */
  predicate HasSectionWord(ww: string) {
    ContainsWordCI(ww, SectionWords)
  }

  /** The tests the second pass makes on one stripped line, in its order. */
  method FallbackCheck(ww: string) returns (ok: bool)
    ensures ok == FallbackOk(ww)
  {
    if HasFallbackAffiliation(ww) {
      return false;
    }
    if HasSectionWord(ww) {
      return false;
    }
    return CapWordCount(ww) >= 2;
  }

  /** Which lines up to the end of the second pass's window below `idx` pass `FallbackOk` once stripped. */
  function FallbackFlags(lines: seq<PageLine>, idx: nat): (b: seq<bool>)
    ensures |b| == WindowEnd(lines, FallbackScope, idx, FallbackWindow)
    ensures forall j :: 0 <= j < |b| ==> b[j] == FallbackAt(lines, j)
  {
    seq(WindowEnd(lines, FallbackScope, idx, FallbackWindow), j => FallbackAt(lines, j))
  }

  /** What the second pass yields below the line `idx`: the first stripped line it accepts. */
  function FallbackBelow(lines: seq<PageLine>, idx: nat): (r: Option<string>)
    ensures r.Some? ==> r.value != []
  {
    FirstTrueSpec(FallbackFlags(lines, idx), idx + 1);
    match FirstTrue(FallbackFlags(lines, idx), idx + 1)
    case None => None
    case Some(j) => Some(StripSpace(lines[j].text))
  }

  /** The line `FallbackBelow` yields is the first one in the window that passes, and it yields nothing only when none does. */
  lemma FallbackBelowSpec(lines: seq<PageLine>, idx: nat)
    ensures var hi := WindowEnd(lines, FallbackScope, idx, FallbackWindow);
      match FallbackBelow(lines, idx)
      case None => forall j :: idx < j < hi ==> !FallbackAt(lines, j)
      case Some(a) =>
        exists j :: idx < j < hi && FallbackAt(lines, j) && a == StripSpace(lines[j].text)
          && forall k :: idx < k < j ==> !FallbackAt(lines, k)
  {
    var b := FallbackFlags(lines, idx);
    FirstTrueSpec(b, idx + 1);
    match FirstTrue(b, idx + 1)
    case None =>
    case Some(j) =>
      assert b[j];
  }

  /** The second pass: the first stripped line below the title, within nine, that passes `FallbackOk`. */
  method FallbackScan(lines: seq<PageLine>, idx: nat) returns (authors: Option<string>)
    ensures authors == FallbackBelow(lines, idx)
    ensures var hi := WindowEnd(lines, FallbackScope, idx, FallbackWindow);
      match authors
      case None => forall j :: idx < j < hi ==> !FallbackAt(lines, j)
      case Some(a) =>
        exists j :: idx < j < hi && FallbackAt(lines, j) && a == StripSpace(lines[j].text)
          && forall k :: idx < k < j ==> !FallbackAt(lines, k)
  {
    var hi := WindowEnd(lines, FallbackScope, idx, FallbackWindow);
    ghost var flags := FallbackFlags(lines, idx);
    var j := idx + 1;
    while j < hi
      invariant idx < j
      invariant FirstTrue(flags, j) == FirstTrue(flags, idx + 1)
    {
      var ww := StripSpace(lines[j].text);
      var ok := FallbackCheck(ww);
      if ok {
        FallbackBelowSpec(lines, idx);
        return Some(ww);
      }
      assert !flags[j];
      j := j + 1;
    }
    FallbackBelowSpec(lines, idx);
    return None;
  }

  // ---------------------------------------------------------------------------
  // guess_title_and_authors
  // ---------------------------------------------------------------------------

  /** Line `j` passes the first pass's test or the second's. */
  predicate AuthorLineAt(lines: seq<PageLine>, j: int) {
    PrimaryAt(lines, j) || FallbackAt(lines, j)
  }

  /** `authors` is the stripped text of an accepted line at most nine lines below a line related to the title. */
  predicate NearTitle(lines: seq<PageLine>, title: string, authors: string) {
    exists a, j :: 0 <= a < j < |lines| && j <= a + FallbackWindow && j < FallbackScope
      && RelatedAt(lines, title, a) && AuthorLineAt(lines, j) && authors == StripSpace(lines[j].text)
  }

  /** A line accepted inside either pass's window below the anchor is near the title. */
  lemma NearTitleFromWindow(lines: seq<PageLine>, title: string, scope: nat, width: nat, idx: nat, j: nat)
    requires scope <= FallbackScope && width <= FallbackWindow
    requires IsAnchor(lines, title, scope, idx) && idx < j < WindowEnd(lines, scope, idx, width)
    requires PrimaryAt(lines, j) || FallbackAt(lines, j)
    ensures NearTitle(lines, title, StripSpace(lines[j].text))
  {
    NearTitleAt(lines, title, idx, j);
  }

  lemma NearTitleAt(lines: seq<PageLine>, title: string, a: nat, j: nat)
    requires a < j < |lines| && j <= a + FallbackWindow && j < FallbackScope
    requires RelatedAt(lines, title, a) && AuthorLineAt(lines, j)
    ensures NearTitle(lines, title, StripSpace(lines[j].text))
  {
    var authors := StripSpace(lines[j].text);
    assert 0 <= a < j < |lines| && j <= a + FallbackWindow && j < FallbackScope
      && RelatedAt(lines, title, a) && AuthorLineAt(lines, j) && authors == StripSpace(lines[j].text);
  }


  /** The first pass for `title`: below its first appearance among the first 40 lines. */
  function PrimaryResult(lines: seq<PageLine>, title: string): (r: Option<string>)
    ensures r.Some? ==> r.value != [] && NearTitle(lines, title, r.value)
  {
    match Anchor(lines, title, PrimaryScope)
    case None => None
    case Some(idx) =>
      var r := PrimaryBelow(lines, idx);
      if r.Some? then
        FirstTrueSpec(PrimaryFlags(lines, idx), idx + 1);
        var j := FirstTrue(PrimaryFlags(lines, idx), idx + 1).value;
        NearTitleFromWindow(lines, title, PrimaryScope, PrimaryWindow, idx, j);
        r
      else r
  }

  /** The second pass for `title`: below its first appearance among the first 50 lines. */
  function FallbackResult(lines: seq<PageLine>, title: string): (r: Option<string>)
    ensures r.Some? ==> r.value != [] && NearTitle(lines, title, r.value)
  {
    match Anchor(lines, title, FallbackScope)
    case None => None
    case Some(idx) =>
      var r := FallbackBelow(lines, idx);
      if r.Some? then
        FirstTrueSpec(FallbackFlags(lines, idx), idx + 1);
        var j := FirstTrue(FallbackFlags(lines, idx), idx + 1).value;
        NearTitleFromWindow(lines, title, FallbackScope, FallbackWindow, idx, j);
        r
      else r
  }

  /** Line `j` is accepted by the first pass (`primary`) or by the second. */
  predicate AcceptedAt(lines: seq<PageLine>, primary: bool, j: int) {
    if primary then PrimaryAt(lines, j) else FallbackAt(lines, j)
  }

  /**
    What one pass yields, stated from the title's first appearance among the
    first `scope` lines and the `width` lines below it: the first accepted line
    there, stripped, or None when the title does not appear or no line there is
    accepted.
  */
  ghost predicate IsPassResult(lines: seq<PageLine>, title: string, scope: nat, width: nat, primary: bool, r: Option<string>) {
    match r
    case None =>
      forall idx: nat, j :: IsAnchor(lines, title, scope, idx) && idx < j < WindowEnd(lines, scope, idx, width)
        ==> !AcceptedAt(lines, primary, j)
    case Some(a) =>
      exists idx: nat, j :: IsAnchor(lines, title, scope, idx) && idx < j < WindowEnd(lines, scope, idx, width)
        && AcceptedAt(lines, primary, j) && a == StripSpace(lines[j].text)
        && forall k :: idx < k < j ==> !AcceptedAt(lines, primary, k)
  }

  /** The title appears first at one place only. */
  lemma AnchorUnique(lines: seq<PageLine>, title: string, scope: nat, i1: nat, i2: nat)
    requires IsAnchor(lines, title, scope, i1) && IsAnchor(lines, title, scope, i2)
    ensures i1 == i2
  {
  }

  /** `PrimaryResult` is the first pass's answer. */
  lemma PrimaryResultSpec(lines: seq<PageLine>, title: string)
    ensures IsPassResult(lines, title, PrimaryScope, PrimaryWindow, true, PrimaryResult(lines, title))
  {
    match Anchor(lines, title, PrimaryScope)
    case None =>
    case Some(idx) =>
      PrimaryBelowSpec(lines, idx);
      forall i: nat | IsAnchor(lines, title, PrimaryScope, i)
        ensures i == idx
      {
        AnchorUnique(lines, title, PrimaryScope, i, idx);
      }
  }

  /** `FallbackResult` is the second pass's answer. */
  lemma FallbackResultSpec(lines: seq<PageLine>, title: string)
    ensures IsPassResult(lines, title, FallbackScope, FallbackWindow, false, FallbackResult(lines, title))
  {
    match Anchor(lines, title, FallbackScope)
    case None =>
    case Some(idx) =>
      FallbackBelowSpec(lines, idx);
      forall i: nat | IsAnchor(lines, title, FallbackScope, i)
        ensures i == idx
      {
        AnchorUnique(lines, title, FallbackScope, i, idx);
      }
  }

  /**
    The author line for `title`: what the first pass finds, and only when it
    finds nothing, what the second pass finds.
  */
  function AuthorsOf(lines: seq<PageLine>, title: string): (r: Option<string>)
    ensures r.Some? ==> r.value != [] && NearTitle(lines, title, r.value)
    ensures PrimaryResult(lines, title).Some? ==> r == PrimaryResult(lines, title)
    ensures PrimaryResult(lines, title).None? ==> r == FallbackResult(lines, title)
  {
    if PrimaryResult(lines, title).Some? then PrimaryResult(lines, title) else FallbackResult(lines, title)
  }

  /**
    The author line stated from the two passes alone: the first pass's line
    when it accepts one, otherwise the second pass's line, and None when
    neither pass accepts a line below the title.
  */
  lemma AuthorsOfSpec(lines: seq<PageLine>, title: string)
    ensures AuthorsOf(lines, title).None? ==>
      IsPassResult(lines, title, PrimaryScope, PrimaryWindow, true, None)
      && IsPassResult(lines, title, FallbackScope, FallbackWindow, false, None)
    ensures AuthorsOf(lines, title).Some? ==>
      IsPassResult(lines, title, PrimaryScope, PrimaryWindow, true, AuthorsOf(lines, title))
      || (IsPassResult(lines, title, PrimaryScope, PrimaryWindow, true, None)
          && IsPassResult(lines, title, FallbackScope, FallbackWindow, false, AuthorsOf(lines, title)))
  {
    PrimaryResultSpec(lines, title);
    FallbackResultSpec(lines, title);
  }

  /**
    Both author passes for a found title: the first pass below the title's first
    appearance among the first 40 lines, then, if it found nothing usable, the
    second pass below its first appearance among the first 50.
  */
  method FindAuthors(lines: seq<PageLine>, title: string) returns (authors: Option<string>)
    ensures authors == AuthorsOf(lines, title)
    ensures authors.Some? ==> NearTitle(lines, title, authors.value)
  {
    authors := None;
    var idx := FindAnchor(lines, title, PrimaryScope);
    if idx.Some? {
      authors := PrimaryScan(lines, idx.value);
    }

    if !Present(authors) {
      var idx2 := FindAnchor(lines, title, FallbackScope);
      if idx2.Some? {
        var found := FallbackScan(lines, idx2.value);
        if found.Some? {
          authors := found;
        }
      }
    }
  }

  /**
    The closing steps of `guess_title_and_authors`: 55 for a title and 30 for
    authors, capped at 95, and the notes naming whatever is missing, or "OK".
  */
  method Assess(titleFound: bool, authorsFound: bool) returns (confidence: int, text: string)
    ensures confidence == (if titleFound then 55 else 0) + (if authorsFound then 30 else 0)
    ensures text == NotesFor(titleFound, authorsFound)
    ensures text == "OK" <==> titleFound && authorsFound
    ensures !titleFound ==> |text| >= |NoTitleNote| && text[..|NoTitleNote|] == NoTitleNote
    ensures titleFound && !authorsFound ==> text == NoAuthorsNote
    ensures !titleFound && authorsFound ==> text == NoTitleNote
    ensures !titleFound && !authorsFound ==> text == NoTitleNote + " " + NoAuthorsNote
  {
    confidence := 0;
    var notes: seq<string> := [];
    if titleFound {
      confidence := confidence + 55;
    } else {
      notes := notes + [NoTitleNote];
    }
    if authorsFound {
      confidence := confidence + 30;
    } else {
      notes := notes + [NoAuthorsNote];
    }
    confidence := Min(confidence, 95);
    text := if notes != [] then Join(" ", notes) else "OK";
    if notes != [] {
      JoinStartsWithFirst(" ", notes);
      assert |notes[0]| > 2;
    }
    if |notes| == 2 {
      assert notes[1..] == [NoAuthorsNote];
    }
  }

  /**
    The notes for what was found: "OK" when title and authors were both found,
    otherwise the sentence for each one missing, title first, separated by a space.
  */
  function NotesFor(titleFound: bool, authorsFound: bool): (notes: string)
    ensures notes == "OK" <==> titleFound && authorsFound
  {
    if titleFound && authorsFound then "OK"
    else if titleFound then NoAuthorsNote
    else if authorsFound then NoTitleNote
    else NoTitleNote + " " + NoAuthorsNote
  }

  /** The notes tell exactly what was found: different findings give different notes. */
  lemma NotesDetermine(t1: bool, a1: bool, t2: bool, a2: bool)
    requires NotesFor(t1, a1) == NotesFor(t2, a2)
    ensures t1 == t2 && a1 == a2
  {
    assert |NoTitleNote + " " + NoAuthorsNote| > |NoAuthorsNote| > |NoTitleNote| > |"OK"|;
  }

  /**
    `guess_title_and_authors(lines)`: the title as `IsFirstTitle` describes it, an
    author line only when there is a title, found just below it, and confidence
    55 for the title plus 30 for the authors; notes are "OK" exactly when both
    were found.
  */
  method GuessTitleAndAuthors(lines: seq<PageLine>) returns (g: LayoutGuess)
    ensures lines == [] ==> g == LayoutGuess(None, None, 0, NoTextNote)
    ensures lines != [] ==> g.title == FirstTitle(SortBySize(lines))
    ensures lines != [] ==> g.authors == (if g.title.Some? then AuthorsOf(lines, g.title.value) else None)
    ensures lines != [] ==> g.notes == NotesFor(g.title.Some?, g.authors.Some?)
    ensures lines != [] ==> IsFirstTitle(SortBySize(lines), g.title)
    ensures g.authors.Some? ==> Present(g.title) && NearTitle(lines, g.title.value, g.authors.value)
    ensures g.confidence == (if Present(g.title) then 55 else 0) + (if Present(g.authors) then 30 else 0)
    ensures 0 <= g.confidence <= 95
    ensures lines != [] ==> (g.notes == "OK" <==> Present(g.title) && Present(g.authors))
  {
    if lines == [] {
      return LayoutGuess(None, None, 0, NoTextNote);
    }
    var sorted := SortBySize(lines);
    var title := PickTitle(sorted);

    var authors: Option<string> := None;
    if Present(title) {
      authors := FindAuthors(lines, title.value);
    }

    var confidence, text := Assess(Present(title), Present(authors));
    g := LayoutGuess(title, authors, confidence, text);
  }
}
