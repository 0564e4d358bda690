# Smart CV Reader — a verified model of the résumé screener

Smart CV Reader (`app.py`) is a small Streamlit application. A recruiter
uploads a batch of résumés (PDF or DOCX) and types a comma-separated list of
required skills. For every résumé, the application:

- reads its text;
- pulls out a name, an e-mail address, a phone number, the vocabulary skills
  it mentions and two free-text snippets (education and experience);
- scores the résumé by the share of required skills it covers.

It then shows one table, sorted by score from best to worst.

This project models that screening core in Dafny and proves what it
computes:

| Module | File | What it models |
|---|---|---|
| `Text` | `text.dfy` | The Python string operations the core relies on: `str.strip` (Unicode whitespace), `str.split` with one separator, `str.join`, `str.lower` on ASCII letters, and substring search. Each is proved against a declarative description, for example: the stripped string is the unique trim of its input, and `split` followed by `join` gives back the input. |
| `Seqs` | `seqs.dfy` | List comprehensions with a condition, `[x for x in xs if p(x)]`, as `Filter`, with its order and its multiplicities. |
| `Name` | `name.dfy` | `extract_name`. |
| `Contact` | `contact.dfy` | `extract_email` and `extract_phone`. The two regular expressions are written as backtracking matchers. Each matcher is proved sound and complete against a declarative description of the pattern: the leftmost match, then the longest match at that position, as Python's `re.search` returns. |
| `Sections` | `sections.dfy` | `extract_section`. The pattern `kw.*?(?:\n\s*\n\|$)` is matched with `IGNORECASE` and `DOTALL`, lazily, up to the first blank line or the end of the text. |
| `Skills` | `skills.dfy` | `extract_skills`, `match_score`, the vocabulary, and the parsing of the typed requirement. |
| `Ranking` | `ranking.dfy` | The batch loop: choosing a reader by file extension, the warning for other files, building one row per résumé, and the descending sort by score. |

The batch is the imperative method `Ranking.RankResumes`, a loop over the
uploads with invariants. Its loop body, which screens one upload, is the
method `Ranking.ScreenOne`. The loop is proved against the functions
`RowsOf` and `WarningsOf`: the rows of the supported uploads and the warnings
for the others, in upload order. Everything else in the core is pure and is
modelled as functions and lemmas.

The PDF and DOCX readers are a parameter, `decode: (DocKind, seq<bv8>) -> String`.
Their text is whatever that parameter returns.

### Behaviour worth knowing

- **Blank text gives an empty name.** `extract_name` returns `""` for a text
  made only of whitespace. Its `"Unknown"` fallback (`app.py:15`) is never
  taken, because `split` always returns at least one piece.
  `Name.NameIsFirstNonBlankLine` proves that the name is empty exactly when
  the text is blank.
- **Two digits make a phone number.** The phone pattern (`app.py:22`) needs
  nine characters, but only the first and the last must be digits. Two
  digits are enough: `Contact.TwoDigitsCanMatch` shows `"1 - - - 2"` found
  as a phone number. What does hold is that a text with fewer than two
  digits has no phone number (`Contact.FewerThanTwoDigitsNoPhone`).
- **Tied scores have no guaranteed order.** The sort at `app.py:99` is
  pandas' default quicksort, which is not stable. The model promises only a permutation
  ordered by non-increasing score.
- **No supported file is an error.** When no uploaded file is supported,
  the result list built at `app.py:59-97` is empty, and sorting an empty frame by `"Score (%)"`
  raises `KeyError`. The model reports this as `Outcome.NoScoreColumn`.
- **Reader failures are not caught.** `app.py:64` and `app.py:66` call the
  PDF and DOCX readers without catching their exceptions, so a failing
  reader ends the run.

## Model

| member | source | states |
|---|---|---|
| Text.LowerChar | app.py:26 | Lower-casing maps each ASCII capital to its small letter and leaves every other character alone; the result is never a capital. |
| Text.Lower | app.py:26 | Lower-casing keeps the length and leaves no capital letter. |
| Text.LowerSlice | app.py:30 | Lower-casing commutes with taking a slice, so a match found in `text.lower()` is a case-insensitive match in `text`. |
| Text.LowerFixed | app.py:56-57 | A string with no capitals is its own lower-case form. |
| Text.LStripSpec | app.py:14 | The left strip is a suffix of the input; everything removed is whitespace, and it starts with a non-space. |
| Text.RStripSpec | app.py:14 | The right strip is a prefix of the input; everything removed is whitespace, and it ends with a non-space. |
| Text.Strip | app.py:14-15 | `strip` returns a trim of its input: a slice with only whitespace outside it and non-space characters at both of its ends. |
| Text.TrimUnique | app.py:14 | A string has exactly one trim, so `strip` is fully determined by that description. |
| Text.StripIs | app.py:34 | Any slice that is a trim of the string is what `strip` returns. |
| Text.StripAfterSpace | app.py:14 | Leading whitespace does not change the result of `strip`. |
| Text.StripBeforeSpace | app.py:14 | Trailing whitespace does not change the result of `strip`. |
| Text.StripIdempotent | app.py:15 | Stripping twice is the same as stripping once. |
| Text.Split | app.py:14 | `split` returns at least one piece, and no piece holds the separator. |
| Text.JoinSplit | app.py:14 | Joining the pieces of a split with the separator gives back the original string. |
| Text.SplitJoin | app.py:55 | Splitting a join of separator-free pieces gives back the pieces. |
| Text.SplitWhole | app.py:55 | A string without the separator splits into itself alone. |
| Text.SplitAt | app.py:55 | Splitting at a first separator gives the part before it, followed by the split of the rest. |
| Text.SplitHead | app.py:14-15 | The first piece of a split is the prefix up to the first separator. |
| Text.SplitLast | app.py:62 | The last piece of a split is the suffix after the last separator. |
| Text.SplitCount | app.py:55 | A split gives one more piece than there are separators. |
| Text.JoinEnds | app.py:93 | `", ".join(matched)` is empty for no skills; otherwise it starts with the first skill and ends with the last. |
| Text.FindFrom | app.py:26 | Substring search returns the leftmost occurrence at or after its start, or reports that there is none. |
| Text.ContainsIff | app.py:30 | `p in s` holds exactly when `p` occurs in `s` at some position. |
| Text.RunLength | app.py:18 | The greedy run of a character class is maximal: every character in it is in the class, and the next one is not. |
| Seqs.Filter | app.py:26 | A comprehension with a condition keeps the elements that pass, in order, each as often as it occurs, and drops the rest. |
| Seqs.FilterKeepsAll | app.py:38 | Nothing is dropped exactly when every element passes. |
| Seqs.NoneKept | app.py:61-69 | The result is empty exactly when no element passes. |
| Seqs.FilterSnoc | app.py:61-97 | Filtering a list with one more element at the end appends that element when it passes. |
| Seqs.FilterGrows | app.py:38 | A weaker condition keeps at least as many elements. |
| Seqs.FilterComplement | app.py:61-69 | The elements that pass a condition and those that fail it add up to the whole list. |
| Seqs.FilterMap | app.py:61-97 | Building one result per passing element gives as many results as there are passing elements. |
| Seqs.FilterMapSnoc | app.py:61-97 | One more element at the end adds its result when it passes, and nothing otherwise. |
| Seqs.FilterMapAt | app.py:61-97 | The `k`-th result is built from the `k`-th passing element. |
| Name.ExtractName | app.py:13-15 | The name is empty exactly when the text is blank. It holds no line break, and when it is not empty it starts and ends with a non-space. |
| Name.FirstLineOfStrip | app.py:14-15 | The first line of the stripped text, stripped again, has no line break, is empty exactly when the text is blank, and has non-space ends. |
| Name.StripNonBlank | app.py:15 | A line that is not blank strips to a non-empty string. |
| Name.StripBlank | app.py:15 | A blank line strips to the empty string. |
| Name.HeadOfNonBlankLine | app.py:13-15 | When the text starts with a non-blank line, the name is that line, stripped. |
| Name.NameSkipsBlankLine | app.py:13-15 | A blank first line is skipped: the name is the name of the rest of the text. |
| Name.NameOfSingleLine | app.py:13-15 | For a text with one line, the name is that line stripped, and empty when the line is blank. |
| Name.NameIsFirstNonBlankLine | app.py:13-15 | The name is the first non-blank line, stripped. It is empty exactly when the whole text is blank, so the `"Unknown"` fallback (app.py:15) is never taken. |
| Contact.BacktrackDomain | app.py:18 | Backtracking in the domain part finds the last `.` that can start the letter-only top-level part. |
| Contact.MatchEmailAtSound | app.py:18 | Whatever the e-mail matcher returns at a position is an e-mail-shaped span there: a local part, `@`, a domain, `.` and two or more letters. |
| Contact.MatchEmailAtComplete | app.py:18 | Every e-mail-shaped span at a position is found, and the match is at least as long. |
| Contact.NoEmailAt | app.py:18 | When the matcher fails at a position, no e-mail-shaped span starts there. |
| Contact.SearchEmail | app.py:18 | The search returns the leftmost e-mail-shaped span, and the longest one at that position; if it finds none, there is none. |
| Contact.EmailSpanShift | app.py:19 | The returned slice is itself an e-mail address. |
| Contact.EmailIsNotMarker | app.py:19 | An e-mail address is never the `"Not found"` marker. |
| Contact.ExtractEmail | app.py:17-19 | The result is `"Not found"` exactly when the text holds no e-mail-shaped span; otherwise it is an e-mail address sliced from the text. |
| Contact.EmailIsFirst | app.py:17-19 | `extract_email` returns the leftmost e-mail-shaped span, taking the longest one at that position. |
| Contact.NoAtSignNoEmail | app.py:18-19 | A text without `@` has no e-mail address. |
| Contact.BacktrackPhone | app.py:22 | Backtracking the phone body finds the last digit that can end the match. |
| Contact.MatchPhoneAtSound | app.py:22 | Whatever the phone matcher returns at a position is a phone-shaped span: an optional `+`, then at least nine characters that start and end with a digit and hold only digits, whitespace, `(`, `)`, `.` and `-`. |
| Contact.MatchPhoneAtComplete | app.py:22 | Every phone-shaped span at a position is found, and the match is at least as long. |
| Contact.PhoneAtMost | app.py:22 | The match at a position is at least as long as every phone-shaped span there. |
| Contact.SearchPhone | app.py:22 | The search returns the leftmost phone-shaped span, and the longest one at that position; if it finds none, there is none. |
| Contact.ExtractPhone | app.py:21-23 | The result is `"Not found"` exactly when the text holds no phone-shaped span; otherwise it is such a span sliced from the text. |
| Contact.PhoneIsFirst | app.py:21-23 | `extract_phone` returns the leftmost phone-shaped span, taking the longest one at that position. |
| Contact.FewerThanTwoDigitsNoPhone | app.py:22-23 | A text with fewer than two digits has no phone number. |
| Contact.TwoDigitsCanMatch | app.py:22-23 | Two digits are enough for a phone number: `"1 - - - 2"` is returned whole. |
| Sections.BacktrackBlank | app.py:31 | Backtracking over `\s*` finds the last line break that can close the blank line. |
| Sections.BlankLineEndSound | app.py:31 | The blank-line matcher returns a line break, then whitespace, then a line break. |
| Sections.BlankLineEndComplete | app.py:31 | Every blank line starting at a position is found. |
| Sections.BlankLineEndIsLongest | app.py:31 | The blank line found is the longest one at its start, as greedy `\s*` gives. |
| Sections.LazyEnd | app.py:31-32 | The lazy `.*?` stops at the first place where a blank line begins or the text ends, as `$` allows: at the end, or before a final line break. At a blank line, the match runs through the longest blank line. |
| Sections.StopLater | app.py:31 | Where the lazy scan cannot stop, its first stop is the first stop from the next position. |
| Sections.SectionMatch | app.py:31-33 | The search finds nothing exactly when the keyword occurs nowhere, ignoring case. Otherwise the snippet runs from the first case-insensitive occurrence to the lazy end, stripped. |
| Sections.GuardFindsMatch | app.py:30-33 | When the keyword is in the lower-cased text, the search finds a match. |
| Sections.FindSection | app.py:29-34 | The first keyword, in list order, that occurs in the lower-cased text decides the snippet; with none, there is no snippet. |
| Sections.KeywordLater | app.py:29 | When the first keyword is absent, the result is decided by the first present keyword among the rest. |
| Sections.ScreenerHeadingWords | app.py:75-76 | The six section keywords are headings: non-empty words that start and end with a letter, and none starts with `n`. |
| Sections.HeadingEndsAreLetters | app.py:32 | For a keyword that starts and ends with a letter, a case-insensitive occurrence starts and ends on letters of the text. |
| Sections.SnippetStartsWithHeading | app.py:31-34 | For a keyword that starts and ends with a letter, the snippet starts with the heading as written in the text. |
| Sections.SnippetIsNotMarker | app.py:34-35 | For a keyword that starts and ends with a letter and does not start with `n`, the snippet is never the `"Not found"` marker. |
| Sections.ExtractSection | app.py:28-35 | When no keyword occurs, as written, in the lower-cased text, the result is `"Not found"`. When some keyword occurs, the result is the snippet of the first such keyword in list order. Any result other than `"Not found"` is such a snippet. |
| Sections.SectionExample | app.py:28-35 | For `"x\nEdu\nB\n\nZ"` and the keyword `edu`, the snippet is `"Edu\nB"`: it starts at the heading in its own letter case and stops at the blank line, which is stripped off. |
| Sections.NotFoundIffNoHeading | app.py:28-35 | For keywords that start and end with a letter and do not start with `n`, `extract_section` returns `"Not found"` exactly when none of its keywords occurs in the lower-cased text. |
| Sections.ScreenerSectionsNotFound | app.py:75-76 | The education and experience snippets are `"Not found"` exactly when none of their keywords occurs. |
| Skills.ExtractSkills | app.py:25-26 | The skills found are the vocabulary entries the text mentions in any letter case, in vocabulary order, with repeats as in the vocabulary. |
| Skills.LowerAll | app.py:38 | The lower-cased list holds each element lower-cased, in place. |
| Skills.MatchScore | app.py:37-40 | The matched skills are the required skills found among the extracted ones, in order and with repeats. The score is their share of the required skills, as a percentage between 0 and 100, and 0 when nothing is required. |
| Skills.Percent | app.py:39-40 | `part / whole * 100` lies between 0 and 100 and is exactly that share. |
| Skills.ShareExtremes | app.py:39-40 | A share is 100 exactly when the part is the whole, and 0 exactly when the part is empty. |
| Skills.ShareMonotone | app.py:39-40 | A larger part never gives a smaller share. |
| Skills.ShareBound | app.py:39-40 | A share of a part no bigger than the whole lies between 0 and 100. |
| Skills.ScoreExtremes | app.py:37-40 | With skills required, the score is 100 exactly when every one is found, and 0 exactly when none is. |
| Skills.ScoreHalfExample | app.py:37-40 | With `python` extracted and `Python` and `SQL` required, `Python` is matched in its own letter case and the score is 50. |
| Skills.ScoreMonotone | app.py:37-40 | Finding more skills never lowers the score. |
| Skills.SkillKeywordsAreLower | app.py:56-57 | The vocabulary is written in lower case. |
| Skills.ExtractedIff | app.py:26 | A skill is extracted exactly when it is in the vocabulary and the text mentions it. |
| Skills.MatchedIff | app.py:38 | A skill is matched exactly when it is required and found among the extracted skills. |
| Skills.FoundInLowerList | app.py:38 | Against a lower-case list, "found" is membership of the skill's lower-case form. |
| Skills.ScreenerMatch | app.py:74-78 | In the screener, a required skill is matched exactly when its lower-case form is a vocabulary entry that the résumé mentions. |
| Skills.ParseRequired | app.py:55 | The typed requirement gives one skill per comma-separated piece, so one more skill than there are commas. Each skill is its piece stripped, and holds no comma. |
| Skills.ParseJoined | app.py:52-55 | Skills typed with `", "` between them are read back exactly. |
| Skills.StripSkillName | app.py:55 | A skill name, with or without a space before it, strips to itself. |
| Skills.SplitCommaSpace | app.py:55 | `", ".join(skills)` splits at its commas into the skills, each after the first led by a space. |
| Skills.ParseTypedExample | app.py:52-55 | `"Python, SQL, Power BI"` is read as the three skills `Python`, `SQL` and `Power BI`. |
| Ranking.KindOf | app.py:62-69 | A file is read as PDF exactly when its extension, lower-cased, is `pdf`, and as DOCX exactly when it is `docx`. |
| Ranking.Extension | app.py:62 | The extension holds no `.` and no capital. It is the end of the name lower-cased, and is either the whole name or follows a `.`. |
| Ranking.LastPiece | app.py:62 | The extension is the text after the last `.`, or the whole name when it has no dot. |
| Ranking.ExtensionShows | app.py:62 | A name with a given extension is that extension, or ends with a dot and then the extension, ignoring case. |
| Ranking.ExtensionOfWhole | app.py:62 | A dot-free name's extension is the name itself, lower-cased. |
| Ranking.ExtensionOfSuffix | app.py:62 | A name that ends in `.` and then a dot-free extension has that extension. |
| Ranking.ExtensionIff | app.py:62 | Both directions: the name has a dot-free extension exactly when it is that extension or ends with a dot and then it, ignoring case. |
| Ranking.PdfNames | app.py:62-64 | The extension is `pdf` exactly when the name, lower-cased, is `pdf` or ends in `.pdf`. |
| Ranking.DocxNames | app.py:62-66 | The extension is `docx` exactly when the name, lower-cased, is `docx` or ends in `.docx`. |
| Ranking.SupportedNames | app.py:62-69 | The supported names are those ending in `.pdf` or `.docx` in any letter case, and the bare names `pdf` and `docx`. |
| Ranking.Cell | app.py:94-95 | A table cell is the first 100 characters of the snippet followed by `...`. |
| Ranking.CellOfMarker | app.py:94-95 | A cell reads `Not found...` exactly when its snippet was `"Not found"`. |
| Ranking.BuildRow | app.py:71-97 | A row carries its file name, a score between 0 and 100, and snippet cells of at most 103 characters. |
| Ranking.RowMeaning | app.py:71-97 | For one résumé: the name is blank only for a blank text. Email, phone and each snippet are `"Not found"` exactly when nothing of that kind occurs in the text. |
| Ranking.RowScoreFull | app.py:74-78 | With skills required, a résumé scores 100 exactly when every required skill is found, in any letter case, among the vocabulary skills extracted from it. A required skill outside the vocabulary never counts, even when the text contains it. |
| Ranking.RowFor | app.py:61-66 | A supported file, read with the reader its extension selects, gives a row under its own name. |
| Ranking.RowsOf | app.py:61-97 | There is one row for each supported upload. |
| Ranking.RowsOfAre | app.py:61-97 | The `k`-th row is the row of the `k`-th supported upload, read with the reader its extension selects. |
| Ranking.RankedPairs | app.py:99 | In a ranked table, every earlier row scores at least as much as every later one. |
| Ranking.Insert | app.py:99 | Inserting a row into a ranked table keeps it ranked, with the same rows plus the new one. |
| Ranking.SortByScore | app.py:99 | Sorting descending by score gives a permutation of the rows, ordered from best to worst score. |
| Ranking.Warning | app.py:68 | A warning is `Unsupported file: ` followed by the file's name. |
| Ranking.WarningNamesFile | app.py:68 | Two equal warnings name the same file. |
| Ranking.WarningsOf | app.py:67-69 | There is one warning for each unsupported upload. |
| Ranking.WarningsOfAre | app.py:67-69 | The `k`-th warning names the `k`-th unsupported upload. |
| Ranking.RankResumes | app.py:54-99 | Nothing happens unless there are files and a non-empty requirement. With no supported file there is no score column. Otherwise the table is the rows of the supported files, in some order, ranked by descending score, and every unsupported file is warned about in upload order. |
| Ranking.ScreenOne | app.py:61-97 | Screening one upload appends its row when it is supported, and its warning otherwise. |
| Ranking.RowsStep | app.py:61-97 | One more upload adds its row to the rows when it is supported, and nothing otherwise. |
| Ranking.WarningsStep | app.py:67-69 | One more upload adds its warning when it is unsupported, and nothing otherwise. |
| Ranking.RowsAndWarnings | app.py:61-69 | Every upload gives either a row or a warning, never both. |
| Ranking.TopRowIsBest | app.py:99-101 | The first row of the ranked table has the highest score of all rows. |

## Left out

- The Streamlit page is not modelled: titles, the uploader, the text box, the per-résumé display (including its `"None found"` text for no skills), the table view and the download button. These are user interface, not computation.
- The PDF and DOCX readers (PyMuPDF and python-docx) are not modelled. Their result is the parameter `decode`, which is total, so the model has no reader exceptions; in the code, a reader exception ends the run.
- The pandas DataFrame and the Excel export are not modelled. The table is a sequence of `Row` values.
- Skills.MatchScore: the score is the exact rational `100 · matched / required`, without the rounding to two decimals or floating point.
- Ranking.SortByScore: the order among rows with equal scores is not stated, because pandas' default quicksort is not stable.
- Text.IsDigit and Text.Lower: `\d` and `str.lower` are modelled for ASCII only. Python also accepts other Unicode decimal digits for `\d` and lower-cases non-ASCII letters. `re.IGNORECASE` case folding is modelled as ASCII lower-casing.
- Sections.SectionMatch: keywords are matched literally. The screener's six keywords contain no regular-expression metacharacters, so this matters only for other keyword lists.
- Ranking.RankResumes: the score column is the score before rounding, and the warnings are returned as a list rather than shown on the page.
- Ranking.BuildRow: its own contract covers only the file name, the score range and the cell lengths. What each field means is stated by Ranking.RowMeaning and Ranking.RowScoreFull, and which skills are matched by Skills.ScreenerMatch.
- Ranking.RowsOf: its own contract gives the number of rows. Which row stands at each position is stated by Ranking.RowsOfAre.
- Ranking.WarningsOf: its own contract gives the number of warnings. Which warning stands at each position is stated by Ranking.WarningsOfAre.
- Text.Join: has no contract of its own. Its properties are stated by Text.JoinEnds, Text.JoinSplit and Text.SplitJoin.
