/**
  String helpers shared by every stage of the naming pipeline: Python's notion of
  whitespace, `strip`/`rstrip` with a character set, the `re.sub(r"\s+", " ", s)`
  collapse, letters and regex word boundaries, case-insensitive literal matching
  as `re.I` does it, `str.lower`, `str.join` and decimal rendering of integers.
*/
module Text {

  // ---------------------------------------------------------------------------
  // Whitespace (Python's str.isspace, which is also what `\s` and strip() use)
  // ---------------------------------------------------------------------------

  /**
    The characters Python's `str.isspace` accepts: the ASCII controls tab to
    carriage return and file to unit separator, space, next line, no-break space,
    ogham space mark, the typographic spaces U+2000 to U+200A, line and paragraph
    separators, narrow no-break space, medium mathematical space and ideographic
    space.
  */
  predicate IsSpace(c: char) {
    ('\t' <= c <= '\r') || ('\U{1C}' <= c <= ' ') || c == '\U{85}' || c == '\U{A0}' || c == '\U{1680}'
    || ('\U{2000}' <= c <= '\U{200A}') || c == '\U{2028}' || c == '\U{2029}' || c == '\U{202F}'
    || c == '\U{205F}' || c == '\U{3000}'
  }

  // ---------------------------------------------------------------------------
  // strip / lstrip / rstrip with an explicit set of characters
  // ---------------------------------------------------------------------------

  /** `s.lstrip(cs)`: drop the longest prefix made of characters of `cs`. */
  function LStrip(s: string, cs: set<char>): (r: string)
    ensures |r| <= |s| && r == s[|s| - |r|..]
    ensures r == [] || r[0] !in cs
  {
    if s != [] && s[0] in cs then LStrip(s[1..], cs) else s
  }

  /** What `LStrip` drops is made of characters of `cs`. */
  lemma {:induction false} LStripDropped(s: string, cs: set<char>)
    ensures forall i :: 0 <= i < |s| - |LStrip(s, cs)| ==> s[i] in cs
  {
    if s != [] && s[0] in cs {
      LStripDropped(s[1..], cs);
      assert forall i :: 1 <= i < |s| ==> s[i] == s[1..][i - 1];
    }
  }

  /** `s.rstrip(cs)`: drop the longest suffix made of characters of `cs`. */
  function RStrip(s: string, cs: set<char>): (r: string)
    ensures |r| <= |s| && r == s[..|r|]
    ensures r == [] || r[|r| - 1] !in cs
  {
    if s != [] && s[|s| - 1] in cs then RStrip(s[..|s| - 1], cs) else s
  }

  /** What `RStrip` drops is made of characters of `cs`. */
  lemma {:induction false} RStripDropped(s: string, cs: set<char>)
    ensures forall i :: |RStrip(s, cs)| <= i < |s| ==> s[i] in cs
  {
    if s != [] && s[|s| - 1] in cs {
      RStripDropped(s[..|s| - 1], cs);
    }
  }

  /** `s.strip(cs)`. */
  function Strip(s: string, cs: set<char>): string {
    RStrip(LStrip(s, cs), cs)
  }

  /** `s.lstrip()`: drop leading whitespace. */
  function LStripSpace(s: string): (r: string)
    ensures |r| <= |s| && r == s[|s| - |r|..]
    ensures r == [] || !IsSpace(r[0])
  {
    if s != [] && IsSpace(s[0]) then LStripSpace(s[1..]) else s
  }

  /** What `lstrip()` drops is whitespace. */
  lemma {:induction false} LStripSpaceDropped(s: string)
    ensures forall i :: 0 <= i < |s| - |LStripSpace(s)| ==> IsSpace(s[i])
  {
    if s != [] && IsSpace(s[0]) {
      LStripSpaceDropped(s[1..]);
      forall i | 1 <= i < |s| - |LStripSpace(s)|
        ensures IsSpace(s[i])
      {
        assert s[i] == s[1..][i - 1];
      }
    }
  }

  /** `s.rstrip()`: drop trailing whitespace. */
  function RStripSpace(s: string): (r: string)
    ensures |r| <= |s| && r == s[..|r|]
    ensures r == [] || !IsSpace(r[|r| - 1])
  {
    if s != [] && IsSpace(s[|s| - 1]) then RStripSpace(s[..|s| - 1]) else s
  }

  /** What `rstrip()` drops is whitespace. */
  lemma {:induction false} RStripSpaceDropped(s: string)
    ensures forall i :: |RStripSpace(s)| <= i < |s| ==> IsSpace(s[i])
  {
    if s != [] && IsSpace(s[|s| - 1]) {
      RStripSpaceDropped(s[..|s| - 1]);
    }
  }

  /** What `rstrip()` drops, as a string of its own, is whitespace. */
  lemma RStripSpaceTail(s: string)
    ensures forall i :: 0 <= i < |s| - |RStripSpace(s)| ==> IsSpace(s[|RStripSpace(s)|..][i])
  {
    var r := RStripSpace(s);
    RStripSpaceDropped(s);
    assert forall i :: 0 <= i < |s| - |r| ==> s[|r|..][i] == s[|r| + i];
  }

  /** `s.strip()` with no argument: trims Python whitespace. */
  function StripSpace(s: string): string {
    RStripSpace(LStripSpace(s))
  }

  /** True when `s` has no whitespace at either end. */
  predicate Trimmed(s: string) {
    s == [] || (!IsSpace(s[0]) && !IsSpace(s[|s| - 1]))
  }

  lemma StripSpaceTrimmed(s: string)
    ensures Trimmed(StripSpace(s))
  {
    var l := LStripSpace(s);
    var r := RStripSpace(l);
    if r != [] {
      assert r[0] == l[0];
    }
  }

  /** A string is its prefix up to `k` followed by the rest. */
  lemma SplitAt(s: string, k: nat)
    requires k <= |s|
    ensures s == s[..k] + s[k..]
  {
  }

  /** A prefix of a suffix is a slice. */
  lemma PrefixOfSuffix(s: string, a: nat, n: nat)
    requires a + n <= |s|
    ensures s[a..][..n] == s[a..a + n]
  {
  }

  /** The characters that `strip()` keeps are a contiguous slice of its input. */
  lemma StripSpaceIsSlice(s: string)
    ensures exists a, b :: 0 <= a <= b <= |s| && StripSpace(s) == s[a..b]
  {
    var l := LStripSpace(s);
    var a := |s| - |l|;
    var r := RStripSpace(l);
    PrefixOfSuffix(s, a, |r|);
    assert r == s[a..a + |r|];
  }

  /** A string holding a non-whitespace character does not strip to nothing. */
  lemma NonSpaceSurvivesStrip(s: string, m: int)
    requires 0 <= m < |s| && !IsSpace(s[m])
    ensures StripSpace(s) != []
  {
    var l := LStripSpace(s);
    LStripSpaceDropped(s);
    assert m >= |s| - |l|;
    RStripSpaceDropped(l);
    assert l != [] && !IsSpace(l[0]);
  }

  /** A character absent from `s` is absent from `s.strip()`. */
  lemma StripSpaceKeepsAbsent(s: string, c: char)
    requires forall k :: 0 <= k < |s| ==> s[k] != c
    ensures forall k :: 0 <= k < |StripSpace(s)| ==> StripSpace(s)[k] != c
  {
    var l := LStripSpace(s);
    var r := RStripSpace(l);
    forall k | 0 <= k < |r|
      ensures r[k] != c
    {
      assert r[k] == l[k] == s[|s| - |l| + k];
    }
  }

  /** Stripping a string whose ends are already clean changes nothing. */
  lemma StripNoOp(s: string, cs: set<char>)
    requires s == [] || (s[0] !in cs && s[|s| - 1] !in cs)
    ensures Strip(s, cs) == s
  {
  }

  /** `strip()` leaves a trimmed string as it is. */
  lemma StripSpaceNoOp(s: string)
    requires Trimmed(s)
    ensures StripSpace(s) == s
  {
  }

  // ---------------------------------------------------------------------------
  // re.sub(r"\s+", " ", s)
  // ---------------------------------------------------------------------------

  /** Position `i` of `s` holds whitespace other than a plain space. */
  predicate OddSpaceAt(s: string, i: int) {
    0 <= i < |s| && IsSpace(s[i]) && s[i] != ' '
  }

  /** Positions `i` and `i + 1` of `s` both hold a plain space. */
  predicate DoubleSpaceAt(s: string, i: int) {
    0 <= i && i + 1 < |s| && s[i] == ' ' && s[i + 1] == ' '
  }

  /** Every whitespace character is a plain space and no two spaces are adjacent. */
  predicate Collapsed(s: string) {
    forall i :: 0 <= i < |s| ==> !OddSpaceAt(s, i) && !DoubleSpaceAt(s, i)
  }

  /** Putting `c` in front of a collapsed string keeps it collapsed when `c` is a lone plain space or no whitespace. */
  lemma CollapsedCons(c: char, r: string)
    requires Collapsed(r)
    requires IsSpace(c) ==> c == ' '
    requires c == ' ' && r != [] ==> r[0] != ' '
    ensures Collapsed([c] + r)
  {
    var s := [c] + r;
    forall i | 0 <= i < |s|
      ensures !OddSpaceAt(s, i) && !DoubleSpaceAt(s, i)
    {
      if i > 0 {
        assert !OddSpaceAt(r, i - 1) && !DoubleSpaceAt(r, i - 1);
        assert s[i] == r[i - 1];
        if i + 1 < |s| {
          assert s[i + 1] == r[i];
        }
      }
    }
  }

  /** The non-whitespace characters of `s`, in order. */
  function NonSpaces(s: string): string {
    if s == [] then [] else (if IsSpace(s[0]) then [] else [s[0]]) + NonSpaces(s[1..])
  }

  /** `re.sub(r"\s+", " ", s)`: every maximal run of whitespace becomes one space. */
  function CollapseSpaces(s: string): (r: string)
    ensures Collapsed(r)
    ensures (r == []) == (s == [])
    ensures r != [] ==> (IsSpace(r[0]) <==> IsSpace(s[0]))
    ensures r != [] ==> (IsSpace(r[|r| - 1]) <==> IsSpace(s[|s| - 1]))
    decreases |s|
  {
    if s == [] then []
    else if IsSpace(s[0]) then
      LStripSpaceDropped(s);
      CollapsedCons(' ', CollapseSpaces(LStripSpace(s)));
      " " + CollapseSpaces(LStripSpace(s))
    else
      CollapsedCons(s[0], CollapseSpaces(s[1..]));
      [s[0]] + CollapseSpaces(s[1..])
  }

  lemma {:induction false} NonSpacesAppend(a: string, b: string)
    ensures NonSpaces(a + b) == NonSpaces(a) + NonSpaces(b)
  {
    if a == [] {
      assert a + b == b;
    } else {
      assert (a + b)[0] == a[0];
      assert (a + b)[1..] == a[1..] + b;
      NonSpacesAppend(a[1..], b);
    }
  }

  lemma {:induction false} NonSpacesOfLStrip(s: string)
    ensures NonSpaces(LStripSpace(s)) == NonSpaces(s)
  {
    if s != [] && IsSpace(s[0]) {
      NonSpacesOfLStrip(s[1..]);
    }
  }

  /** Collapsing whitespace keeps every other character, in order. */
  lemma {:induction false} CollapseKeepsNonSpaces(s: string)
    ensures NonSpaces(CollapseSpaces(s)) == NonSpaces(s)
    decreases |s|
  {
    if s == [] {
    } else if IsSpace(s[0]) {
      var rest := LStripSpace(s);
      CollapseKeepsNonSpaces(rest);
      NonSpacesOfLStrip(s);
      NonSpacesAppend(" ", CollapseSpaces(rest));
    } else {
      CollapseKeepsNonSpaces(s[1..]);
      NonSpacesAppend([s[0]], CollapseSpaces(s[1..]));
    }
  }

  /** A string that is already collapsed is left unchanged. */
  lemma {:induction false} CollapseFixesCollapsed(s: string)
    requires Collapsed(s)
    ensures CollapseSpaces(s) == s
    decreases |s|
  {
    if s != [] {
      CollapsedDrop(s, 1);
      CollapseFixesCollapsed(s[1..]);
      if IsSpace(s[0]) {
        CollapsedLeadingSpace(s);
        assert CollapseSpaces(s) == " " + CollapseSpaces(s[1..]) == " " + s[1..];
      } else {
        assert CollapseSpaces(s) == [s[0]] + CollapseSpaces(s[1..]) == [s[0]] + s[1..];
        assert s == [s[0]] + s[1..];
      }
    }
  }

  lemma CollapseIdempotent(s: string)
    ensures CollapseSpaces(CollapseSpaces(s)) == CollapseSpaces(s)
  {
    CollapseFixesCollapsed(CollapseSpaces(s));
  }

  /** A string without whitespace is collapsed. */
  lemma NoSpaceCollapsed(s: string)
    requires forall i :: 0 <= i < |s| ==> !IsSpace(s[i])
    ensures Collapsed(s)
  {
    forall i | 0 <= i < |s|
      ensures !OddSpaceAt(s, i) && !DoubleSpaceAt(s, i)
    {
      assert !IsSpace(s[i]);
    }
  }

  /** Two collapsed strings joined where they do not both have a space are collapsed. */
  lemma CollapsedAppend(a: string, b: string)
    requires Collapsed(a) && Collapsed(b)
    requires a != [] && b != [] ==> !(a[|a| - 1] == ' ' && b[0] == ' ')
    ensures Collapsed(a + b)
  {
    var s := a + b;
    forall i | 0 <= i < |s|
      ensures !OddSpaceAt(s, i) && !DoubleSpaceAt(s, i)
    {
      if i < |a| {
        assert s[i] == a[i] && !OddSpaceAt(a, i) && !DoubleSpaceAt(a, i);
        if i + 1 < |a| {
          assert s[i + 1] == a[i + 1];
        } else if i + 1 < |s| {
          assert s[i + 1] == b[0];
        }
      } else {
        assert s[i] == b[i - |a|] && !OddSpaceAt(b, i - |a|) && !DoubleSpaceAt(b, i - |a|);
        if i + 1 < |s| {
          assert s[i + 1] == b[i + 1 - |a|];
        }
      }
    }
  }

  /** Any slice of a collapsed string is collapsed. */
  lemma CollapsedSlice(s: string, a: int, b: int)
    requires Collapsed(s) && 0 <= a <= b <= |s|
    ensures Collapsed(s[a..b])
  {
    forall i | 0 <= i < b - a
      ensures !OddSpaceAt(s[a..b], i) && !DoubleSpaceAt(s[a..b], i)
    {
      assert !OddSpaceAt(s, a + i) && !DoubleSpaceAt(s, a + i);
      assert s[a..b][i] == s[a + i];
      if i + 1 < b - a {
        assert s[a..b][i + 1] == s[a + i + 1];
      }
    }
  }

  /** Any suffix of a collapsed string is collapsed. */
  lemma CollapsedDrop(s: string, a: nat)
    requires Collapsed(s) && a <= |s|
    ensures Collapsed(s[a..])
  {
    CollapsedSlice(s, a, |s|);
    assert s[a..|s|] == s[a..];
  }

  /** Collapsing and stripping leaves a collapsed, trimmed string. */
  lemma StripCollapsed(s: string)
    requires Collapsed(s)
    ensures Collapsed(StripSpace(s)) && Trimmed(StripSpace(s))
  {
    StripSpaceIsSlice(s);
    var a, b :| 0 <= a <= b <= |s| && StripSpace(s) == s[a..b];
    CollapsedSlice(s, a, b);
    StripSpaceTrimmed(s);
  }

  // ---------------------------------------------------------------------------
  // s.split(): the words of a string
  // ---------------------------------------------------------------------------

  /** A word of `s.split()`: non-empty and free of whitespace. */
  predicate IsWord(w: string) {
    w != [] && forall m :: 0 <= m < |w| ==> !IsSpace(w[m])
  }

  /** `s.split()`: the maximal runs of non-whitespace characters of `s`, in order. */
  function Words(s: string): (ws: seq<string>)
    ensures forall k :: 0 <= k < |ws| ==> IsWord(ws[k])
    ensures s != [] && !IsSpace(s[0]) ==> ws != []
    decreases |s|
  {
    if s == [] then []
    else if IsSpace(s[0]) then Words(s[1..])
    else if |s| > 1 && !IsSpace(s[1]) then
      var rest := Words(s[1..]);
      [[s[0]] + rest[0]] + rest[1..]
    else [[s[0]]] + Words(s[1..])
  }

  /** Leading whitespace does not change the words. */
  lemma {:induction false} WordsOfLStrip(s: string)
    ensures Words(LStripSpace(s)) == Words(s)
  {
    if s != [] && IsSpace(s[0]) {
      WordsOfLStrip(s[1..]);
    }
  }

  /** A string of whitespace has no words. */
  lemma {:induction false} WordsOfSpaces(sp: string)
    requires forall i :: 0 <= i < |sp| ==> IsSpace(sp[i])
    ensures Words(sp) == []
  {
    if sp != [] {
      WordsOfSpaces(sp[1..]);
    }
  }

  /** Trailing whitespace does not change the words. */
  lemma {:induction false} WordsOfTrailingSpaces(x: string, sp: string)
    requires forall i :: 0 <= i < |sp| ==> IsSpace(sp[i])
    ensures Words(x + sp) == Words(x)
  {
    if x == [] {
      assert x + sp == sp;
      WordsOfSpaces(sp);
    } else {
      var s := x + sp;
      assert s[0] == x[0];
      assert s[1..] == x[1..] + sp;
      WordsOfTrailingSpaces(x[1..], sp);
      if |x| == 1 && sp != [] {
        assert s[1] == sp[0];
      } else if |x| > 1 {
        assert s[1] == x[1];
      }
    }
  }

  /** `strip()` does not change the words. */
  lemma WordsOfStrip(s: string)
    ensures Words(StripSpace(s)) == Words(s)
  {
    var l := LStripSpace(s);
    var r := RStripSpace(l);
    SplitAt(l, |r|);
    RStripSpaceTail(l);
    WordsOfTrailingSpaces(r, l[|r|..]);
    WordsOfLStrip(s);
  }

  /** Collapsing whitespace does not change the words. */
  lemma {:induction false} WordsOfCollapse(s: string)
    ensures Words(CollapseSpaces(s)) == Words(s)
    decreases |s|
  {
    if s == [] {
    } else if IsSpace(s[0]) {
      var l := LStripSpace(s);
      WordsOfCollapse(l);
      WordsOfLStrip(s);
      assert (" " + CollapseSpaces(l))[1..] == CollapseSpaces(l);
    } else {
      var x := CollapseSpaces(s[1..]);
      var c := [s[0]] + x;
      WordsOfCollapse(s[1..]);
      assert c[1..] == x;
      if x != [] {
        assert c[1] == x[0];
        assert s[1..][0] == s[1];
      }
    }
  }

  /** Putting a character in front of the first word puts it in front of the joined words. */
  lemma JoinConsChar(sep: string, c: char, w: string, rest: seq<string>)
    ensures Join(sep, [[c] + w] + rest) == [c] + Join(sep, [w] + rest)
  {
    assert ([[c] + w] + rest)[1..] == rest;
    assert ([w] + rest)[1..] == rest;
  }

  /** A collapsed, trimmed string is its words joined by single spaces. */
  lemma {:induction false} JoinWordsOfTidy(r: string)
    requires Collapsed(r) && Trimmed(r)
    ensures Join(" ", Words(r)) == r
    decreases |r|
  {
    if r != [] {
      var c := r[0];
      var r1 := r[1..];
      if r1 == [] {
        assert Words(r) == [[c]] + Words(r1);
      } else if !IsSpace(r1[0]) {
        CollapsedDrop(r, 1);
        JoinWordsOfTidy(r1);
        var ws := Words(r1);
        assert Words(r) == [[c] + ws[0]] + ws[1..];
        JoinConsChar(" ", c, ws[0], ws[1..]);
        assert [ws[0]] + ws[1..] == ws;
      } else {
        assert !OddSpaceAt(r, 1) && !DoubleSpaceAt(r, 1);
        assert |r| > 2;
        assert !OddSpaceAt(r, 2);
        var r2 := r[2..];
        CollapsedDrop(r, 2);
        JoinWordsOfTidy(r2);
        assert r1[1..] == r2;
        var ws := Words(r2);
        assert Words(r) == [[c]] + ws;
        assert ([[c]] + ws)[1..] == ws;
        assert r == [c] + " " + r2;
      }
    }
  }

  /** Collapsing and stripping gives the words joined by single spaces: `" ".join(s.split())`. */
  lemma StripCollapseIsJoin(s: string)
    ensures StripSpace(CollapseSpaces(s)) == Join(" ", Words(s))
  {
    var c := CollapseSpaces(s);
    StripCollapsed(c);
    WordsOfStrip(c);
    WordsOfCollapse(s);
    JoinWordsOfTidy(StripSpace(c));
  }

  /** The joined words are empty exactly when there are no words. */
  lemma JoinWordsEmpty(ws: seq<string>)
    requires forall k :: 0 <= k < |ws| ==> IsWord(ws[k])
    ensures Join(" ", ws) == [] <==> ws == []
  {
    if ws != [] {
      JoinStartsWithFirst(" ", ws);
    }
  }

  /**
    `re.sub(r"\s+", " ", s)` exactly: a single space for leading whitespace, the
    words joined by single spaces, and a single space for trailing whitespace
    after the last word.
  */
  lemma CollapseSpacesRuns(s: string)
    ensures CollapseSpaces(s) ==
      (if s != [] && IsSpace(s[0]) then " " else "")
      + (Join(" ", Words(s)) + (if Words(s) != [] && IsSpace(s[|s| - 1]) then " " else ""))
  {
    var c := CollapseSpaces(s);
    var l := LStripSpace(c);
    var front := CollapsedFront(c);
    var back := CollapsedBack(l);
    assert l != [] ==> c[|c| - 1] == l[|l| - 1];
    StripCollapseIsJoin(s);
    JoinWordsEmpty(Words(s));
  }

  /** What `lstrip()` removes from a collapsed string: one space when it starts with whitespace, else nothing. */
  lemma CollapsedFront(c: string) returns (front: string)
    requires Collapsed(c)
    ensures c == front + LStripSpace(c)
    ensures front == (if c != [] && IsSpace(c[0]) then " " else "")
    ensures Collapsed(LStripSpace(c))
  {
    if c == [] || !IsSpace(c[0]) {
      front := "";
      assert front + c == c;
    } else {
      front := " ";
      CollapsedLeadingSpace(c);
      CollapsedDrop(c, 1);
    }
  }

  /** A collapsed string that starts with whitespace starts with one plain space and then no whitespace. */
  lemma CollapsedLeadingSpace(c: string)
    requires Collapsed(c) && c != [] && IsSpace(c[0])
    ensures c == " " + c[1..] && LStripSpace(c) == c[1..]
  {
    assert !OddSpaceAt(c, 0);
    if |c| >= 2 {
      assert !OddSpaceAt(c, 1) && !DoubleSpaceAt(c, 0);
      assert c[1..][0] == c[1];
    }
    assert c[..1] == " ";
    SplitAt(c, 1);
  }

  /**
    What `rstrip()` removes from a collapsed string that does not start with
    whitespace: one space when it ends with whitespace, else nothing; and it
    removes everything only from the empty string.
  */
  lemma CollapsedBack(l: string) returns (back: string)
    requires Collapsed(l) && (l == [] || !IsSpace(l[0]))
    ensures l == RStripSpace(l) + back
    ensures back == (if l != [] && IsSpace(l[|l| - 1]) then " " else "")
    ensures RStripSpace(l) == [] ==> l == []
  {
    var m := RStripSpace(l);
    back := l[|m|..];
    SplitAt(l, |m|);
    RStripSpaceDropped(l);
    if |l| >= 2 {
      assert !OddSpaceAt(l, |l| - 2) && !OddSpaceAt(l, |l| - 1) && !DoubleSpaceAt(l, |l| - 2);
    }
    if back == [] {
      assert m == l;
    } else {
      assert |back| == 1 && back == [l[|l| - 1]];
      assert !OddSpaceAt(l, |l| - 1);
      assert l[|l| - 1] == ' ';
      assert m != [] by {
        assert !IsSpace(l[0]);
      }
    }
  }

  // ---------------------------------------------------------------------------
  // Letters, digits and regex word boundaries
  // ---------------------------------------------------------------------------

  /**
    `str.isalpha` on Latin (Basic, Latin-1, Extended-A and -B, IPA, the spacing
    modifier letters and Extended Additional), Greek (with Greek Extended) and
    Cyrillic (with the Supplement and Extended-B and -C).
  */
  predicate IsLetter(c: char) {
    ('A' <= c <= 'Z') || ('a' <= c <= 'z')
    || c == '\U{AA}' || c == '\U{B5}' || c == '\U{BA}'
    || ('\U{C0}' <= c <= '\U{D6}') || ('\U{D8}' <= c <= '\U{F6}') || ('\U{F8}' <= c <= '\U{2C1}')
    || ('\U{2C6}' <= c <= '\U{2D1}') || ('\U{2E0}' <= c <= '\U{2E4}') || c == '\U{2EC}' || c == '\U{2EE}'
    || IsGreekLetter(c) || IsCyrillicLetter(c)
    || ('\U{1E00}' <= c <= '\U{1EFF}')
  }

  predicate IsGreekLetter(c: char) {
    ('\U{370}' <= c <= '\U{374}') || ('\U{376}' <= c <= '\U{377}') || ('\U{37A}' <= c <= '\U{37D}')
    || c == '\U{37F}' || c == '\U{386}' || ('\U{388}' <= c <= '\U{38A}') || c == '\U{38C}'
    || ('\U{38E}' <= c <= '\U{3A1}') || ('\U{3A3}' <= c <= '\U{3F5}')
    || ('\U{1F00}' <= c <= '\U{1F15}') || ('\U{1F18}' <= c <= '\U{1F1D}')
    || ('\U{1F20}' <= c <= '\U{1F45}') || ('\U{1F48}' <= c <= '\U{1F4D}')
    || ('\U{1F50}' <= c <= '\U{1F57}') || c == '\U{1F59}' || c == '\U{1F5B}' || c == '\U{1F5D}'
    || ('\U{1F5F}' <= c <= '\U{1F7D}') || ('\U{1F80}' <= c <= '\U{1FB4}')
    || ('\U{1FB6}' <= c <= '\U{1FBC}') || c == '\U{1FBE}' || ('\U{1FC2}' <= c <= '\U{1FC4}')
    || ('\U{1FC6}' <= c <= '\U{1FCC}') || ('\U{1FD0}' <= c <= '\U{1FD3}')
    || ('\U{1FD6}' <= c <= '\U{1FDB}') || ('\U{1FE0}' <= c <= '\U{1FEC}')
    || ('\U{1FF2}' <= c <= '\U{1FF4}') || ('\U{1FF6}' <= c <= '\U{1FFC}')
  }

  predicate IsCyrillicLetter(c: char) {
    ('\U{3F7}' <= c <= '\U{481}') || ('\U{48A}' <= c <= '\U{52F}')
    || ('\U{1C80}' <= c <= '\U{1C88}') || ('\U{A640}' <= c <= '\U{A66E}') || ('\U{A67F}' <= c <= '\U{A69D}')
  }

  /**
    The characters outside the ASCII digits that `\w` accepts because
    `str.isalnum` holds for them: superscript two, three and one, and the
    vulgar fractions one quarter, one half and three quarters.
  */
  predicate IsOtherNumeric(c: char) {
    c == '\U{B2}' || c == '\U{B3}' || c == '\U{B9}' || ('\U{BC}' <= c <= '\U{BE}')
  }

  predicate IsDigit(c: char) {
    '0' <= c <= '9'
  }

  /** A regex word character: a letter, a digit, another numeric character or the underscore. */
  predicate IsWordChar(c: char) {
    IsLetter(c) || IsDigit(c) || IsOtherNumeric(c) || c == '_'
  }

  /** `\b` at position `k` of `s`: word-ness of the characters on both sides differs. */
  predicate Boundary(s: string, k: int)
    requires 0 <= k <= |s|
  {
    (k > 0 && IsWordChar(s[k - 1])) != (k < |s| && IsWordChar(s[k]))
  }

  // ---------------------------------------------------------------------------
  // Literal matching, exact and case-insensitive (`re.I`)
  // ---------------------------------------------------------------------------

  /** `pat` occurs in `s` at position `i`. */
  predicate At(s: string, i: int, pat: string) {
    0 <= i && i + |pat| <= |s| && s[i..i + |pat|] == pat
  }

  /** `pat in s`. */
  predicate Contains(s: string, pat: string) {
    exists i :: 0 <= i <= |s| && At(s, i, pat)
  }

  /** `any(p in s for p in pats)`. */
  predicate ContainsAny(s: string, pats: seq<string>) {
    exists i, p :: 0 <= i <= |s| && 0 <= p < |pats| && At(s, i, pats[p])
  }

  /**
    Under `re.I`, pattern character `p` matches text character `c`: ASCII letters
    match either case, and the four non-ASCII letters Python's `re` folds into
    ASCII ones (dotted capital I and dotless small i for `i`, long s for `s`,
    the Kelvin sign for `k`) match as well.
  */
  predicate CharMatchesCI(c: char, p: char) {
    if 'a' <= p <= 'z' then
      c == p || c as int == p as int - 32
      || (p == 'i' && (c == '\U{130}' || c == '\U{131}'))
      || (p == 's' && c == '\U{17F}')
      || (p == 'k' && c == '\U{212A}')
    else if 'A' <= p <= 'Z' then
      c == p || c as int == p as int + 32
    else c == p
  }

  /** `pat` (written in lower case) matches `s` at position `i` under `re.I`. */
  predicate AtCI(s: string, i: int, pat: string) {
    0 <= i && i + |pat| <= |s| && forall j :: 0 <= j < |pat| ==> CharMatchesCI(s[i + j], pat[j])
  }

  /** `re.search(r"p1|p2|...", s, flags=re.I)` for literal alternatives. */
  predicate ContainsAnyCI(s: string, pats: seq<string>) {
    exists i, p :: 0 <= i <= |s| && 0 <= p < |pats| && AtCI(s, i, pats[p])
  }

  /** A case-insensitive match inside a slice of `s` is a match in `s`, at the shifted position. */
  lemma AtCISlice(s: string, x: nat, y: nat, k: int, pat: string)
    requires x <= y <= |s| && AtCI(s[x..y], k, pat)
    ensures AtCI(s, x + k, pat) && x + k + |pat| <= y
  {
    forall j | 0 <= j < |pat|
      ensures CharMatchesCI(s[x + k + j], pat[j])
    {
      assert s[x..y][k + j] == s[x + k + j];
    }
  }

  /** `\b` + `pat` + `\b` matches `s` at position `i` under `re.I`. */
  predicate WordAtCI(s: string, i: int, pat: string) {
    AtCI(s, i, pat) && Boundary(s, i) && Boundary(s, i + |pat|)
  }

  /** `re.search(r"\b(p1|p2|...)\b", s, flags=re.I)` for literal alternatives. */
  predicate ContainsWordCI(s: string, pats: seq<string>) {
    exists i, p :: 0 <= i <= |s| && 0 <= p < |pats| && WordAtCI(s, i, pats[p])
  }

  // ---------------------------------------------------------------------------
  // str.lower
  // ---------------------------------------------------------------------------

  /**
    Lower case of one character. ASCII letters, the Kelvin sign (to `k`) and the
    dotted capital I (to `i` and a combining dot above) are lowered; these are the
    only characters whose lower case contains an ASCII letter.
  */
  function LowerChar(c: char): (r: string)
    ensures |r| >= 1
  {
    if 'A' <= c <= 'Z' then [(c as int + 32) as char]
    else if c == '\U{212A}' then ['k']
    else if c == '\U{130}' then ['i', '\U{307}']
    else [c]
  }

  /** `s.lower()`. */
  function Lower(s: string): (r: string)
    ensures |r| >= |s|
  {
    if s == [] then [] else LowerChar(s[0]) + Lower(s[1..])
  }

  // ---------------------------------------------------------------------------
  // str.join
  // ---------------------------------------------------------------------------

  /** `sep.join(parts)`. */
  function Join(sep: string, parts: seq<string>): string {
    if |parts| == 0 then ""
    else if |parts| == 1 then parts[0]
    else parts[0] + sep + Join(sep, parts[1..])
  }

  /** A joined list begins with its first part. */
  lemma JoinStartsWithFirst(sep: string, parts: seq<string>)
    requires parts != []
    ensures |Join(sep, parts)| >= |parts[0]| && Join(sep, parts)[..|parts[0]|] == parts[0]
  {
    if |parts| > 1 {
      assert Join(sep, parts) == parts[0] + (sep + Join(sep, parts[1..]));
    }
  }

  // ---------------------------------------------------------------------------
  // Decimal rendering of integers (f"{n}") and its inverse
  // ---------------------------------------------------------------------------

  function DigitChar(d: nat): char
    requires d < 10
  {
    ('0' as int + d) as char
  }

  function DigitVal(c: char): nat
    requires IsDigit(c)
  {
    c as int - '0' as int
  }

  /** Decimal digits of `n`, without leading zeros. */
  function NatToString(n: nat): (r: string)
    ensures |r| >= 1 && forall i :: 0 <= i < |r| ==> IsDigit(r[i])
  {
    if n < 10 then [DigitChar(n)] else NatToString(n / 10) + [DigitChar(n % 10)]
  }

  /** `str(i)` for any integer. */
  function IntToString(i: int): string {
    if i < 0 then "-" + NatToString(-i) else NatToString(i)
  }

  /** `int(s)` for a string of decimal digits. */
  function DigitsValue(s: string): nat
    requires forall i :: 0 <= i < |s| ==> IsDigit(s[i])
  {
    if s == [] then 0 else DigitsValue(s[..|s| - 1]) * 10 + DigitVal(s[|s| - 1])
  }

  /** Reading back the decimal rendering of `n` gives `n`. */
  lemma {:induction false} DigitsValueOfNatToString(n: nat)
    ensures DigitsValue(NatToString(n)) == n
  {
    var s := NatToString(n);
    if n < 10 {
    } else {
      DigitsValueOfNatToString(n / 10);
      assert s[..|s| - 1] == NatToString(n / 10);
    }
  }

  /** Distinct numbers render as distinct strings. */
  lemma NatToStringInjective(m: nat, n: nat)
    requires NatToString(m) == NatToString(n)
    ensures m == n
  {
    DigitsValueOfNatToString(m);
    DigitsValueOfNatToString(n);
  }
}
