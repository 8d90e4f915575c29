/**
  Assembly of the extracted metadata (app.py:112-118, 240-273): the pure part of
  `extract_paper_info`, once the first page's lines and plain text are in hand.
*/
module PaperInfo {
  import opened Optional
  import opened Text
  import opened Sanitize
  import opened Surname
  import opened Year
  import opened Layout

  /** The `PaperInfo` record; confidence in hundredths. */
  datatype PaperInfo = PaperInfo(
    title: Option<string>,
    firstAuthorSurname: Option<string>,
    year: Option<int>,
    confidence: int,
    notes: string)

  const NoYearNote: string := "No se detect\U{F3} a\U{F1}o (se usar\U{E1} fallback)."

  /** Confidence bonus for a detected year, and the cap after it. */
  const YearBonus: int := 10
  const ConfidenceCap: int := 99

  /** `re.split(r",| and | & ", ..., flags=re.I)` has a separator at position `k`. */
  predicate SeparatorAt(s: string, k: int) {
    CommaAt(s, k) || AndAt(s, k) || AmpersandAt(s, k)
  }

  predicate AndAt(s: string, k: int) {
    AtCI(s, k, " and ")
  }

  predicate AmpersandAt(s: string, k: int) {
    AtCI(s, k, " & ")
  }

  predicate CommaAt(s: string, k: int) {
    0 <= k < |s| && s[k] == ','
  }

  /** The leftmost separator at or after `i`, or the end of `s`. */
  function ChunkEnd(s: string, i: nat): (e: nat)
    requires i <= |s|
    ensures i <= e <= |s|
    ensures forall k :: i <= k < e ==> !SeparatorAt(s, k)
    ensures e < |s| ==> SeparatorAt(s, e)
    decreases |s| - i
  {
    if i == |s| then |s| else if SeparatorAt(s, i) then i else ChunkEnd(s, i + 1)
  }

  /**
    `re.split(r",| and | & ", a, maxsplit=1, flags=re.I)[0].strip()`: the text of
    the author line before its leftmost separator (or all of it when there is
    none), trimmed. It holds no separator of its own.
  */
  function FirstChunk(a: string): (r: string)
    ensures exists e :: FirstSeparatorOrEnd(a, e) && r == StripSpace(a[..e])
    ensures Trimmed(r)
    ensures forall k :: !SeparatorAt(r, k)
    ensures forall k :: 0 <= k < |r| ==> r[k] != ','
  {
    var e := ChunkEnd(a, 0);
    StripSpaceTrimmed(a[..e]);
    ChunkHasNoSeparator(a, e);
    NoSeparatorNoComma(StripSpace(a[..e]));
    assert FirstSeparatorOrEnd(a, e);
    StripSpace(a[..e])
  }

  /** `e` is the position of the leftmost separator of `a`, or `|a|` when there is none. */
  predicate FirstSeparatorOrEnd(a: string, e: int) {
    0 <= e <= |a| && (forall k :: 0 <= k < e ==> !SeparatorAt(a, k)) && (e < |a| ==> SeparatorAt(a, e))
  }

  /** A separator inside a slice of `a` is a separator of `a` itself, at the shifted position. */
  lemma SeparatorInSlice(a: string, x: nat, y: nat, k: int)
    requires x <= y <= |a| && SeparatorAt(a[x..y], k)
    ensures x + k < y && SeparatorAt(a, x + k)
  {
    if CommaAt(a[x..y], k) {
      assert a[x..y][k] == a[x + k];
    } else if AndAt(a[x..y], k) {
      AtCISlice(a, x, y, k, " and ");
    } else {
      AtCISlice(a, x, y, k, " & ");
    }
  }

  /** The trimmed text before the first separator has no separator anywhere. */
  lemma ChunkHasNoSeparator(a: string, e: nat)
    requires e <= |a| && forall k :: 0 <= k < e ==> !SeparatorAt(a, k)
    ensures forall k :: !SeparatorAt(StripSpace(a[..e]), k)
  {
    var p := a[..e];
    StripSpaceIsSlice(p);
    var x, y :| 0 <= x <= y <= |p| && StripSpace(p) == p[x..y];
    assert p[x..y] == a[x..y];
    forall k
      ensures !SeparatorAt(StripSpace(p), k)
    {
      if SeparatorAt(a[x..y], k) {
        SeparatorInSlice(a, x, y, k);
      }
    }
  }

  /** A string with no separator has no comma. */
  lemma NoSeparatorNoComma(r: string)
    requires forall k :: !SeparatorAt(r, k)
    ensures forall k :: 0 <= k < |r| ==> r[k] != ','
  {
    forall k | 0 <= k < |r|
      ensures r[k] != ','
    {
      assert !SeparatorAt(r, k);
    }
  }

  /**
    Because the author line is split at its first comma before normalising, the
    "Surname, Given" form of `normalize_author_surname` is never reached from
    `extract_paper_info`: the surname is always taken from the last token.
  */
  lemma FirstChunkUsesLastToken(a: string)
    ensures SurnameCandidate(StripSpace(FirstChunk(a))) == LastToken(FirstChunk(a))
  {
    var c := FirstChunk(a);
    StripSpaceNoOp(c);
    assert ',' !in c;
  }

  /**
    `extract_paper_info` after the PDF is open: `lines` are the first page's
    lines with their font sizes and `pageText` its plain text. The title is the
    tidied layout title, the surname comes from the first author of the author
    line, the year from the text; confidence adds 10 for a year, and the notes
    are "OK" exactly when title, author and year were all found.
  */
  method ExtractPaperInfo(lines: seq<PageLine>, pageText: string) returns (info: PaperInfo)
    ensures var t := FirstTitle(SortBySize(lines));
      info.title == (if t.Some? then Some(TitleCaseSoft(t.value)) else None)
    ensures var t := FirstTitle(SortBySize(lines));
      info.firstAuthorSurname ==
        (if t.Some? && AuthorsOf(lines, t.value).Some?
         then Some(NormalizeAuthorSurname(FirstChunk(AuthorsOf(lines, t.value).value)))
         else None)
    ensures var layout := if lines == [] then NoTextNote
                          else NotesFor(info.title.Some?, info.firstAuthorSurname.Some?);
      info.notes == if info.year.Some? then layout else (if layout != "OK" then layout + " " else "") + NoYearNote
    ensures info.title.Some? ==>
      exists t :: IsFirstTitle(SortBySize(lines), Some(t)) && info.title.value == TitleCaseSoft(t)
    ensures info.title.Some? ==> info.title.value != [] && Collapsed(info.title.value) && Trimmed(info.title.value)
    ensures info.title.None? ==> IsFirstTitle(SortBySize(lines), None)
    ensures info.firstAuthorSurname.Some? ==> info.title.Some?
    ensures info.firstAuthorSurname.Some? ==>
      exists t, a :: IsFirstTitle(SortBySize(lines), Some(t)) && NearTitle(lines, t, a)
        && info.firstAuthorSurname.value == NormalizeAuthorSurname(FirstChunk(a))
    ensures info.year.None? <==> !HasYearToken(CollapseSpaces(pageText))
    ensures info.year.Some? ==> 1900 <= info.year.value <= 2099
    ensures info.year.Some? ==>
      exists i :: BestAt(CollapseSpaces(pageText), i) && YearValue(CollapseSpaces(pageText), i) == info.year.value
    ensures info.confidence == (if info.title.Some? then 55 else 0)
      + (if info.firstAuthorSurname.Some? then 30 else 0) + (if info.year.Some? then YearBonus else 0)
    ensures 0 <= info.confidence <= 95
    ensures info.notes == "OK" <==> info.title.Some? && info.firstAuthorSurname.Some? && info.year.Some?
    ensures info.year.None? ==>
      |info.notes| >= |NoYearNote| && info.notes[|info.notes| - |NoYearNote|..] == NoYearNote
  {
    var g := GuessTitleAndAuthors(lines);
    var year := ExtractYear(pageText);
    assert lines == [] ==> SortBySize(lines) == [];

    var surname: Option<string> := None;
    if Present(g.authors) {
      surname := Some(NormalizeAuthorSurname(FirstChunk(g.authors.value)));
    }

    var yearFound := year.Some? && year.value != 0;
    var conf := if yearFound then Min(g.confidence + YearBonus, ConfidenceCap) else g.confidence;
    var notes := if yearFound then g.notes else (if g.notes != "OK" then g.notes + " " else "") + NoYearNote;
    NoYearNoteAppended(g.notes);
    assert yearFound == year.Some?;
    assert conf == g.confidence + (if yearFound then YearBonus else 0);

    var title: Option<string> := None;
    if Present(g.title) {
      title := Some(TitleCaseSoft(g.title.value));
      FirstTitleNotEmpty(SortBySize(lines), g.title.value);
    }
    info := PaperInfo(title, surname, year, conf, notes);
  }

  /** The notes after the missing-year sentence is added: never "OK", and ending in that sentence. */
  lemma NoYearNoteAppended(notes: string)
    ensures var r := (if notes != "OK" then notes + " " else "") + NoYearNote;
      r != "OK" && |r| >= |NoYearNote| && r[|r| - |NoYearNote|..] == NoYearNote
  {
  }

  /** The layout title is never blank, so its tidied form is not empty. */
  lemma FirstTitleNotEmpty(sorted: seq<PageLine>, t: string)
    requires IsFirstTitle(sorted, Some(t))
    ensures TitleCaseSoft(t) != []
  {
    var k :| 0 <= k < Min(TitleCandidates, |sorted|) && TitleAt(sorted, k) && t == StripSpace(sorted[k].text);
    StripSpaceTrimmed(sorted[k].text);
    TitleNotEmpty(t);
  }

  /** A title that is not blank stays non-blank once tidied. */
  lemma TitleNotEmpty(t: string)
    requires t != [] && !IsSpace(t[0])
    ensures TitleCaseSoft(t) != []
  {
    assert NonSpaces(t) == [t[0]] + NonSpaces(t[1..]);
  }
}
