# PDF renamer: extraction and naming pipeline in Dafny

This project models the part of the PDF renamer (`app.py`) that turns what was read
from a paper's first page into a proposed file name, and proves properties of it:

- **Filename clean-up.** `sanitize_filename` makes a stem safe for Windows. `title_case_soft` tidies the whitespace of a title.
- **Year disambiguation.** `extract_year` and its inner `score` pick the publication year among all `19dd`/`20dd` tokens of the page text.
- **Surname normalisation.** `normalize_author_surname` and its inner `keep_letters` take the first author's surname from an author string.
- **Layout heuristic.** `guess_title_and_authors` works on the first page's lines and their font sizes. It picks the title from the largest lines, then finds the author line below it with a separator pass and a capitalised-word pass. It also builds the confidence and the notes.
- **Result assembly.** The pure part of `extract_paper_info` splits off the first author, adds the year bonus and completes the notes.
- **Naming.** `build_new_name` composes the "Surname et al. (Year). Title" stem with its fallbacks. `avoid_collision` numbers a name that is already taken.

The modules follow the source:

- `optional.dfy`: `Option` and Python truthiness of an optional string.
- `text.dfy`: the Python string semantics the pipeline relies on.
  - `str.isspace` whitespace, used by `\s` and by `strip()`.
  - `re.sub(r"\s+", " ", …)`.
  - `\b`, plain and `re.I` literal matching, and `str.lower`.
  - `join`, and decimal rendering of integers.
- `sanitize.dfy`, `year.dfy`, `surname.dfy`, `layout.dfy`, `paper_info.dfy` and `naming.dfy`: one per part above.

Where the source loops and updates variables, the model does the same:

- the `finditer` loop and the choice of the best year;
- the title loop and the two author-line scans;
- the notes list and the reason list;
- the `while True` loop of `avoid_collision`.

These are methods with loop invariants. Each one is proved against predicates and functions that state what the loop finds. The string expressions are functions with lemmas.

Modelling conventions:
- Confidence is kept in integer hundredths: 55, 30, 10, with caps of 95 and 99.
- Python truthiness is kept as written. A title or author line counts as found when it is present and non-empty. A year counts when it is present and non-zero.
- Page lines are `(text, fontSize)` pairs and the page text is a string. Both are parameters.
- The files that already exist in the target folder are a finite set of names.

Confidence 0 does not only mean that a document could not be opened. An opened page where no title, no author line and no year are found also gets confidence 0 (app.py:228-239, 261-265).

## Model

| member | source | states |
|---|---|---|
| Sanitize.ReplaceInvalid | app.py:18-24 | each reserved Windows character becomes `_`, position by position, and every other character is kept |
| Sanitize.SanitizeFilename | app.py:20-29 | no reserved character; does not end in a space or a period; at most `maxLen` long; whitespace collapsed to single spaces and trimmed; a prefix of the cleaned name, and equal to it when that fits. When the cleaned name is too long, the result is its first `maxLen` characters less only a trailing run of spaces and periods |
| Sanitize.CleanedFixesSafe | app.py:22-26 | a name that is already safe, collapsed and trimmed comes through the clean-up unchanged |
| Sanitize.SanitizeIdempotent | app.py:20-29 | sanitising a sanitised name changes nothing |
| Sanitize.TitleCaseSoft | app.py:31-34 | the result is the words of the title (Python's `split()`, the maximal whitespace-free runs) joined by single spaces, so it is `" ".join(title.split())`: collapsed, trimmed, every non-whitespace character kept in order and in its case |
| Sanitize.TitleCaseSoftIdempotent | app.py:31-34 | tidying a tidied title changes nothing |
| Text.StripSpaceTrimmed | app.py:22 | `strip()` leaves no whitespace at either end |
| Text.CollapseSpaces | app.py:23 | `re.sub(r"\s+", " ", s)` is collapsed: every whitespace character is a plain space and no two are adjacent; it is empty exactly when `s` is, and starts and ends with whitespace exactly when `s` does |
| Text.CollapseKeepsNonSpaces | app.py:23 | collapsing keeps every non-whitespace character, in order |
| Text.CollapseSpacesRuns | app.py:23 | `re.sub(r"\s+", " ", s)` is the words of `s` joined by single spaces, with one space in front when `s` starts with whitespace and one at the end when it ends with whitespace after a word: every whitespace run becomes exactly one space |
| Text.WordsOfCollapse | app.py:33 | collapsing whitespace does not change the words of a string |
| Text.StripCollapseIsJoin | app.py:33 | collapsing then stripping gives the words joined by single spaces |
| Text.CollapseFixesCollapsed | app.py:23 | a collapsed string is left unchanged |
| Text.CollapseIdempotent | app.py:23 | collapsing twice is collapsing once |
| Text.DigitsValueOfNatToString | app.py:286 | reading back the decimal rendering of `n` gives `n` |
| Text.NatToStringInjective | app.py:305 | distinct numbers render as distinct strings |
| Year.YearAtShape | app.py:50 | a year match (`19dd` or `20dd` between `\b` boundaries) is four digits inside the text, with no word character (letter, digit, `_` or a numeric such as `²`) just before or just after it |
| Year.YearValue | app.py:50-51 | a year token's value lies in 1900..2099 |
| Year.NoTokenInside | app.py:50 | year tokens never overlap: none starts in the three characters after another's start |
| Year.FindYearTokens | app.py:49-55 | every year token of the normalised text is found, each with its year and its lower-cased context of 60 characters on each side |
| Year.Score | app.py:60-75 | the score is the decade term `(y - 1900) // 10` plus at most 7 and at least -3; a context with a strong signal and no penalty scores at least 5 above the decade term; one with neither a strong nor a medium signal scores at most the decade term |
| Year.ScoreRecency | app.py:74 | in the same context a later year never scores lower |
| Year.PickBest | app.py:77-80 | the chosen match has the greatest `(score, year)` key of all matches |
| Year.ExtractYear | app.py:36-80 | None exactly when the normalised text has no year token; otherwise a year in 1900..2099 carried by a token whose `(score, year)` key is maximal |
| Year.BestYearUnique | app.py:77-80 | any two tokens with the maximal key carry the same year, so the result does not depend on how ties in the sort are broken |
| Surname.KeepLetters | app.py:89-91 | the result is the input's letters, `-` and `'` in order, less one run of `-`/`'` at each end (so inner `-` and `'` survive); it holds only those characters and neither starts nor ends with `-` or `'` |
| Surname.KeepLettersRetainsLetters | app.py:89-91 | `keep_letters` keeps every letter of its input, in order |
| Surname.KeepLettersEmpty | app.py:89-91 | `keep_letters` yields "" exactly when its input has no letter |
| Surname.KeepLettersFixesClean | app.py:89-91 | a clean surname is its own `keep_letters` |
| Surname.BeforeFirstComma | app.py:95 | the text before the first comma: a prefix that contains no comma and is followed by a comma unless it is the whole string |
| Surname.LastToken | app.py:100-105 | the last whitespace-free token: a suffix without whitespace that is preceded by whitespace unless it is the whole string |
| Surname.NormalizeAuthorSurname | app.py:82-106 | `keep_letters` of the part before the first comma, or of the last token when there is no comma; when that has no letter, the trimmed input. A non-fallback result is clean, non-empty and keeps every letter of that fragment. The result is "" exactly when the trimmed input is |
| Surname.NormalizeOfClean | app.py:82-106 | a clean, non-empty surname normalises to itself |
| Surname.NormalizeIdempotent | app.py:82-106 | normalising a normalised surname changes nothing |
| Layout.SortBySize | app.py:158 | the sorted lines are a permutation of the input, largest font first |
| Layout.SortBySizeStable | app.py:158 | the sort is stable: the lines of each font size keep their reading order |
| Layout.FirstTitle | app.py:160-174 | the title chosen from the size-sorted lines: the stripped text of the first of the six largest lines that passes the title test, with none before it passing; None when none of them passes; at least 12 characters long |
| Layout.TitleCheck | app.py:166-172 | a stripped candidate is accepted exactly when it has no journal/doi/www./http/volume/issue word and at least 12 characters |
| Layout.PickTitle | app.py:160-174 | the loop's title is `FirstTitle`: the first of the six largest lines whose stripped text has at least 12 characters and no journal/doi/www./http/volume/issue word; None when there is no such line |
| Layout.FindAnchor | app.py:180-185 | the first of the first `scope` lines related to the title (`title[:20] in t`, `t in title` or `title in t`), or None when none is |
| Layout.PrimaryCheck | app.py:190-198 | a line is accepted exactly when it has at least 6 characters and a name separator, and names no affiliation |
| Layout.PrimaryBelowSpec | app.py:188-198 | the first pass below line `idx`: None exactly when no line of the window (seven lines, within the first 40) is accepted; otherwise the stripped text of the first accepted one |
| Layout.PrimaryScan | app.py:186-198 | the first line within seven below the anchor that the first pass accepts, stripped; None when no line there is accepted |
| Layout.FallbackCheck | app.py:213-226 | a stripped line is accepted exactly when it names no affiliation or section and has at least two capitalised words |
| Layout.CapWordCountTwo | app.py:223-224 | the count of capitalised-word matches is at least 1 exactly when there is a match, and at least 2 exactly when there are two matches at different positions |
| Layout.FallbackBelowSpec | app.py:211-226 | the capitalised-word pass below line `idx`: None exactly when no line of the window (nine lines, within the first 50) is accepted; otherwise the stripped text of the first accepted one |
| Layout.FallbackScan | app.py:210-226 | the first line within nine below the anchor that the second pass accepts, stripped; None when no line there is accepted |
| Layout.PrimaryResultSpec | app.py:177-198 | the first pass's result: with the first line related to the title among the first 40, the first accepted line of the seven below it, stripped; None exactly when there is no such related line or no line there is accepted |
| Layout.FallbackResultSpec | app.py:200-226 | the capitalised-word pass's result: the same, with the first related line among the first 50 and the nine lines below it |
| Layout.AuthorsOf | app.py:176-226 | the author line is the first pass's result when that finds one and otherwise the capitalised-word pass's result; a line found is non-empty and lies a few lines below a line related to the title |
| Layout.AuthorsOfSpec | app.py:176-226 | None exactly when neither pass accepts a line below the first related line; otherwise the line the first pass accepts, or, when it accepts none, the one the second pass accepts |
| Layout.FindAuthors | app.py:176-226 | the author line found is `AuthorsOf` of the lines and the title: the first pass's line, else the second pass's, else None |
| Layout.Assess | app.py:228-239 | confidence is 55 for a title plus 30 for authors. The notes are "OK" when both were found, the missing-authors note when only the title was, the missing-title note when only the authors were, and the two notes joined by a space when neither was |
| Layout.NotesDetermine | app.py:228-239 | the notes tell which of title and authors were found: equal notes come from equal findings |
| Layout.GuessTitleAndAuthors | app.py:148-239 | no lines give no title, no authors, confidence 0 and the no-text note. Otherwise the title is `FirstTitle` of the size-sorted lines, the author line is `AuthorsOf` the lines and that title (None without a title), and the notes are the `Assess` notes for what was found. Confidence is 55·[title] + 30·[authors], at most 95 |
| PaperInfo.ChunkEnd | app.py:258 | the leftmost `,`, ` and ` or ` & ` separator (any case) at or after `i`, or the end of the string |
| PaperInfo.FirstChunk | app.py:258 | the first author's fragment is the text before the leftmost `,`, ` and ` or ` & ` (any case), or the whole line when there is none, stripped; it is trimmed and holds no comma and no ` and ` or ` & ` |
| PaperInfo.FirstChunkUsesLastToken | app.py:255-259 | on the first fragment, the surname is always taken from its last token: the comma form of `normalize_author_surname` is never reached from here |
| PaperInfo.ExtractPaperInfo | app.py:249-273 | the title is `TitleCaseSoft` of the layout title, non-empty, collapsed and trimmed, and None when there is none. The surname is present exactly when the layout finds an author line, and is then `NormalizeAuthorSurname` of that line's first fragment. The year is None exactly when the page text has no year token, and otherwise a best-scoring year. Confidence is 55·[title] + 30·[surname] + 10·[year], within 0..95. With a year the notes are the layout notes unchanged; without one the missing-year note is appended to them, after a space unless they were "OK" |
| Naming.ReasonDetermines | app.py:288-295 | different sets of fallbacks give different reason texts |
| Naming.FallbackReason | app.py:288-295 | the reason lists "fallback autor", "fallback año", "fallback título" for the fallbacks used, in that order, joined by ", "; it is "OK" exactly when none was used |
| Naming.BuildNewName | app.py:277-296 | the stem is the sanitised "author et al. (year). title", using "Autor", the fallback year and the original stem for missing parts. It is safe for Windows and at most 160 characters long. The reason names exactly the fallbacks used, and is "OK" exactly when none was |
| Naming.CitationClean | app.py:286 | a citation made from a clean surname, digits and a clean title is itself safe, collapsed and trimmed |
| Naming.CitationKept | app.py:286-287 | such a citation, when it fits in 160 characters, is not altered by sanitising |
| Naming.Suffix | app.py:305 | `target.suffix`: empty, or a period followed by at least one character and no further period |
| Naming.Stem | app.py:302-305 | stem and suffix put back together give the name, and a name with a suffix has a non-empty stem |
| Naming.CandidateInjective | app.py:305 | different numbers give different candidate names |
| Naming.CandidateKeepsSuffix | app.py:305 | a numbered candidate keeps the original extension, and its stem carries the number |
| Naming.AvoidCollision | app.py:298-308 | the result is not taken. It is the target itself when the target is free. Otherwise it is "stem (n)suffix" for the least n ≥ 1 whose candidate is free, so every smaller number's candidate is taken |

## Left out

- Reading the PDF is not modelled: `fitz.open`, `get_first_page_lines_with_font`, `load_page`, `get_text` and `doc.close`. This is a foreign library and resource handling. The first page's lines and plain text are parameters of `ExtractPaperInfo`.
- The open-failure path of `extract_paper_info` (app.py:242-245) is not modelled. It only builds a record with a fixed message from a library exception.
- The Streamlit and pandas interface, the status column and the rename loop (app.py:311 onwards) are not modelled. They are user interface and file system I/O.
- Floating point is not modelled. Confidence is in integer hundredths, and the `round(…, 2)` of the display is out of scope. Font sizes are integers, because the core only compares them.
- Naming.AvoidCollision: existence is membership in a finite set of names for one folder. Case-insensitive file systems and other processes creating files meanwhile are not modelled.
- Unicode digits are not modelled. `\d` and `int()` accept only ASCII digits here; Python accepts every decimal digit.
- Text.IsLetter: `str.isalpha` and the letters of `\w` are modelled on Basic Latin, Latin-1, Latin Extended-A and -B, IPA, Latin Extended Additional, Greek (with Greek Extended) and Cyrillic (with its Supplement and Extended blocks). Letters of other scripts (Latin Extended-C/D/E, Armenian, Hebrew, Arabic, CJK, …) count as non-letters in `keep_letters` and in `\b`.
- Text.IsWordChar: besides letters, digits and `_`, `\w` matches numeric characters; only the Latin-1 ones (`²`, `³`, `¹`, `¼`, `½`, `¾`) are modelled.
- Text.Lower: `str.lower` maps ASCII capitals, the Kelvin sign and U+0130. Other non-ASCII capitals are left unchanged; they cannot change whether an ASCII keyword or `©` occurs in the context.
- Year.PickBest: only the head of the sorted `scored` list is used, so the model finds a match with the greatest key instead of sorting the whole list. Year.BestYearUnique shows the year does not depend on how ties are broken.
- The confidence caps (`min(…, 0.95)` and `min(…, 0.99)`) are modelled but never take effect: the largest possible sum is 95.
