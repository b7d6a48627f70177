# Résumé job recommender: a Dafny model of its text pipeline

The program reads a résumé and finds the candidate's email address, name and skills
in its text. It then matches the skills against a job catalog, writes a PDF report of
the matching postings and mails that report to the candidate. This project models the
logic of `main.py` that turns text into a report:

- `extract_email`, `extract_name`, `extract_skills`, `match_jobs` and `clean_text`;
- the text content of the report that `generate_pdf` writes;
- the report's file name;
- the decision logic of `run_resume_process`.

The project proves properties of that model.

Modules, one file each:

- `Wrappers` (`wrappers.dfy`): the `Option` and `Result` types.
- `Sequences` (`sequences.dfy`): subsequences and distinct elements.
- `Strings` (`strings.dfy`): the Python `str` operations the program uses, over
  `seq<char>`. These are `isspace`, ASCII `lower()`, `in`, single-character
  `replace`, `split(sep)`, `strip()`, `split()` and `isdigit()`.
- `EmailPattern` (`email.dfy`): the regular expression
  `[a-zA-Z0-9_.+-]+@[a-zA-Z0-9-]+\.[a-zA-Z0-9-.]+` and `re.search`. The expression
  is read two ways:
  - declaratively: some split of a window into the three runs, the leftmost start,
    the end the greedy runs reach;
  - as a deterministic scan with maximal runs.

  The lemmas prove that the two readings give the same answer.
- `ResumeFields` (`fields.dfy`): the name search and the skill vocabulary filter.
  `extract_name` is a method with a loop and an early return, proved against a
  recursive specification.
- `JobMatching` (`jobs.dfy`): the catalog as a sequence of rows, and the
  order-preserving filter plus column projection.
- `Report` (`report.dfy`):
  - `clean_text`;
  - the report's entries;
  - the file name;
  - a `ReportDocument` class whose entry list grows one `cell`/`multi_cell` at a
    time, with `GeneratePdf` filling it in a loop over the matched postings.
- `Pipeline` (`pipeline.dfy`): `run_resume_process` as a function over the results of
  the stages that reach outside the program. Each run returns one outcome (`NoEmail`,
  `NoMatches`, `Sent(address)` or `Error(message)`) together with the ordered list of
  outside actions it starts. Those actions are: load the catalog, write the report,
  send it.

External stages are parameters of the model (`StageResults`):

- reading the PDF gives the résumé text or an error;
- loading the catalog gives the rows or an error;
- the column selection of `match_jobs` on a catalog with no rows gives its `KeyError` message;
- rendering or writing the PDF gives an error or nothing;
- sending the mail gives an error or nothing.

The `except Exception` handler becomes the `Error` outcome. It carries the message of
the stage that failed.

Three points where the model follows the code closely:

- `clean_text` exists so that the report's text can be rendered whatever characters
  the catalog holds. But the title `f"Job Recommendations for {name}"` is not passed
  through it (main.py:72), so a name outside Latin-1 can still make rendering fail.
  `Report.Title` keeps the name as it is, and that failure is part of the abstract
  render error.
- On a catalog with no rows, the mask that `match_jobs` builds with `apply`
  (main.py:41-42) is an empty series of object type rather than of booleans. Indexing
  the frame with it selects columns, not rows, and the column selection at
  main.py:43 then raises `KeyError`. So an empty catalog ends in the `Error` outcome,
  not in `NoMatches`; the model has that branch (`Pipeline.EmptyCatalogFails`).
- The code reads the name before it tests the email (main.py:129-131), and reads
  the skills only after that test (main.py:135). All three are pure, so the model
  takes them together in `Pipeline.ExtractProfile`. The effects and outcome of a
  run are the same.

## Model

| member | source | states |
|---|---|---|
| EmailPattern.ExtractEmail | main.py:22-24 | `extract_email`: the window from the leftmost scan match to its end, or `None`. Characterised by `ExtractEmailNone`, `ExtractEmailIsSearchResult`, `SearchResultIsExtracted` and `ExtractedEmailShape`. |
| EmailPattern.InClass | main.py:23 | The three character classes of the pattern: `[a-zA-Z0-9_.+-]` for the local part, `[a-zA-Z0-9-]` for the domain, and `[a-zA-Z0-9-.]` for the suffix, read as ASCII letters, digits, `-` and `.` because the `-` after the range `0-9` is a literal. A definition; `RunEnd` and `Decomposes` use it. |
| EmailPattern.Decomposes | main.py:23 | The window `s[i..e]` splits into a non-empty run of the local-part class, `@`, a non-empty run of the domain class, a literal `.`, and a non-empty run of the suffix class ending at `e`. A definition; the search lemmas use it. |
| EmailPattern.RegexMatches | main.py:23 | The pattern matches the window `s[i..e]`: some placement of `@` and the dot decomposes it. A definition; `MatchAtIsRegexMatch` and `RegexMatchImpliesMatchAt` relate it to `MatchAt`. |
| EmailPattern.IsSearchResult | main.py:23-24 | What `re.search(...).group(0)` reports: a match whose start is the leftmost start admitting one, and whose end is the furthest end of a match at that start. A definition; `ExtractEmailIsSearchResult` and `SearchResultIsExtracted` tie `ExtractEmail` to it in both directions. |
| EmailPattern.MatchAt | main.py:23 | The pattern matches at a start with each part taken as a maximal run. `MatchAtIsRegexMatch` and `RegexMatchImpliesMatchAt` prove it holds exactly where the regular expression matches. |
| EmailPattern.MatchEnd | main.py:23 | The end of the maximal suffix run of the match at `i`. `DecompositionIsForced` proves no regular-expression match at `i` ends later, and `MatchAtIsRegexMatch` that one ends there. |
| EmailPattern.RunEnd | main.py:23 | The end of the maximal run of one class of the pattern starting at `i`. Every character before it is in the class; the one at it is not, or the text ends there. |
| EmailPattern.LeftmostMatch | main.py:23 | The result is a start, at or after `from`, where the pattern matches with maximal runs. No earlier start at or after `from` matches. `None` means no start matches. |
| EmailPattern.MatchAtIsRegexMatch | main.py:23 | A match found with maximal runs is a match of the regular expression (local part, `@`, domain, `.`, suffix). |
| EmailPattern.DecompositionIsForced | main.py:23 | Any way the regular expression matches at `i` puts `@` and the dot where the maximal runs put them, and ends no later than the maximal suffix run. Backtracking finds nothing else. |
| EmailPattern.RegexMatchImpliesMatchAt | main.py:23 | A regular-expression match at `i` implies that the deterministic scan matches at `i` and ends no earlier. |
| EmailPattern.ExtractEmailNone | main.py:22-24 | `extract_email` returns `None` if and only if no window of the text matches the pattern. |
| EmailPattern.ExtractEmailIsSearchResult | main.py:22-24 | A returned address is a contiguous window `s[i..e]` of the text. It is what `re.search(...).group(0)` reports: a match at the leftmost start that admits one, and the longest match at that start. |
| EmailPattern.SearchResultIsFirst | main.py:23 | Proof helper that unfolds `IsSearchResult`: any match starts no earlier than the search result, and a match at the same start ends no later. |
| EmailPattern.SearchResultIsExtracted | main.py:22-24 | Conversely, the window `re.search` reports is exactly what `extract_email` returns. |
| EmailPattern.MatchExtendsLeft | main.py:23 | If a match at `i` has a local-part character just before it, there is also a match at `i - 1`. |
| EmailPattern.MatchStartsRun | main.py:23 | So the leftmost match begins at the start of the text or just after a character outside the local-part class. |
| EmailPattern.ExtractedEmailShape | main.py:23 | A returned address has at least 5 characters and exactly one `@`. Its domain has no `.`, and a `.` with a non-empty suffix follows the domain. |
| EmailPattern.ExtractedDecomposes | main.py:23 | A returned address, taken on its own, matches the whole pattern. |
| EmailPattern.MatchedWindowDecomposes | main.py:23 | The window of a match, taken on its own string, matches the pattern with the same `@` and dot. |
| EmailPattern.DecomposesShift | main.py:23 | A match of the window `s[i..e]` inside `s` is a match of the string `s[i..e]`. |
| EmailPattern.DecomposedShape | main.py:23 | A string that matches the whole pattern has at least 5 characters, one `@`, and no `.` between `@` and the dot. |
| EmailPattern.NoAtSignNoEmail | main.py:22-24 | A text without `@` yields `None`. |
| Strings.IsSpace | main.py:29 | The characters for which `str.isspace` holds, which `strip()` and `split()` treat as whitespace. A definition; the strip and split lemmas rest on it. |
| Strings.Lower | main.py:35 | `lower()`, folding ASCII capitals one character at a time. Its two clauses only put the comprehension in pointwise form for the proofs; `LowerSpec` states what this gives. |
| Strings.LowerSpec | main.py:35 | Lowered text has no ASCII capital left. Lowering is idempotent and distributes over concatenation. An occurrence of a needle in a text is still one after both are lowered. |
| Strings.Contains | main.py:35 | `needle in hay`: some window of `hay` equals `needle`. A definition; `LowerSpec` and the skill and job lemmas use it. |
| Strings.ReplaceChar | main.py:66 | `replace` with single characters maps each position on its own and keeps the length. |
| Strings.Split | main.py:27 | `split('\n')` gives at least one piece, and no piece contains the separator. |
| Strings.JoinSplit | main.py:27 | Joining the pieces of `split(sep)` with `sep` gives back the text. |
| Strings.SplitJoin | main.py:27 | Splitting a join of separator-free pieces gives back the pieces. |
| Strings.SplitNoSeparator | main.py:27 | A text without the separator splits into itself alone. |
| Strings.StripLeft | main.py:29 | `lstrip()` is no longer than its input and does not start with whitespace. |
| Strings.StripRight | main.py:29 | `rstrip()` is no longer than its input, keeps the first character and does not end with whitespace. |
| Strings.StripLeftSpec | main.py:29 | `lstrip()` drops exactly a prefix made only of whitespace. |
| Strings.StripRightSpec | main.py:29 | `rstrip()` drops exactly a suffix made only of whitespace. |
| Strings.Strip | main.py:29 | `strip()` is empty or begins and ends with a non-whitespace character, and is no longer than its input. |
| Strings.StripSpec | main.py:29 | `strip()` is a window of the line with only whitespace on either side of it. |
| Strings.NonSpaceEnd | main.py:29 | The end of the run of non-whitespace characters from `i`. Every character before it is non-whitespace; the one at it is whitespace, or the text ends there. |
| Strings.Words | main.py:29 | `split()`: the maximal runs of non-whitespace, in order. `WordsSkipSpaces`, `WordsSplitAtSpace` and `OneWord` together fix its value on every text. |
| Strings.WordsAreRuns | main.py:29 | Every token of `split()` is non-empty and has no whitespace. |
| Strings.WordsSkipSpaces | main.py:29 | Whitespace before a text adds no token: `split()` of `g + b`, with `g` all whitespace, is `split()` of `b`. |
| Strings.NonSpaceEndPrefix | main.py:29 | A run inside `a` ends at the same place in `a + t` when `t` starts with whitespace. |
| Strings.WordsSplitAtSpace | main.py:29 | Whitespace separates tokens: `split()` of `a + g + b`, with `g` non-empty whitespace, is the tokens of `a` followed by the tokens of `b`. |
| Strings.IsDigitString | main.py:29 | `isdigit()` over ASCII digits: non-empty and all digits. `SeveralWordsNotDigits` shows it is false on every text with two or more tokens. |
| Strings.SeveralWordsHaveSpace | main.py:29 | A text that `split()` cuts into two or more tokens contains a whitespace character. |
| Strings.SeveralWordsNotDigits | main.py:29 | Such a text is not all digits. |
| Strings.OneWord | main.py:29 | A non-empty text without whitespace is a single token. |
| ResumeFields.IsNameLine | main.py:29 | The test of the loop: the stripped line has 2 or 3 tokens and is not all digits. `DigitTestIsRedundant` reduces it to the token count. |
| ResumeFields.PLACEHOLDER_NAME | main.py:31 | The fallback name `"Candidate"`. `PlaceholderIffNoNameLine` states when it is returned. |
| ResumeFields.NameFromLines | main.py:28-31 | The stripped first qualifying line, or `"Candidate"`. Characterised by `PlaceholderIffNoNameLine`, `NameIsFirstNameLine` and `NameIsTrimmed`. |
| ResumeFields.CandidateName | main.py:26-31 | `extract_name`'s result: `NameFromLines` over `split('\n')`. `ExtractName` is proved to return it. |
| ResumeFields.ExtractName | main.py:26-31 | The loop returns exactly `CandidateName(text)`: the stripped first `\n`-line with 2 or 3 whitespace tokens that is not all digits, or `"Candidate"`. |
| ResumeFields.NameFromLinesStep | main.py:28-30 | One iteration: the current line is the answer if it qualifies, otherwise the search goes on with the next line. |
| ResumeFields.DigitTestIsRedundant | main.py:29 | A line qualifies if and only if its stripped form has 2 or 3 tokens. The `isdigit` test never rejects a line. |
| ResumeFields.NoNameLineCons | main.py:28 | No line of a non-empty list qualifies exactly when the first does not and no later line does. |
| ResumeFields.PlaceholderIffNoNameLine | main.py:28-31 | The result is `"Candidate"` if and only if no line qualifies. |
| ResumeFields.NameIsFirstNameLine | main.py:28-30 | Otherwise the result is the stripped form of the first qualifying line. |
| ResumeFields.StrippedNameLineIsNotPlaceholder | main.py:29-31 | A qualifying line, stripped, is never the one-word placeholder. So the two cases cannot be confused. |
| ResumeFields.NameIsTrimmed | main.py:26-31 | The name is never empty and has no whitespace at either end. |
| ResumeFields.PresentTerms | main.py:35 | The comprehension's filter over a list of terms, in list order. Characterised by `PresentTermsSpec`. |
| ResumeFields.VOCABULARY | main.py:34 | The six skill terms in their order: `Python`, `Java`, `SQL`, `Machine Learning`, `Communication`, `Teamwork`. `ExtractSkillsSpec` states the skills are drawn from it. |
| ResumeFields.ExtractSkills | main.py:33-35 | `extract_skills`: the vocabulary filtered by case-insensitive containment. Characterised by `ExtractSkillsSpec`. |
| ResumeFields.PresentTermsSpec | main.py:35 | The filter keeps a subsequence of the terms, and a term is kept if and only if its lower-case form occurs in the lowered text. |
| ResumeFields.ExtractSkillsSpec | main.py:33-35 | The skills are a subsequence of the six-term vocabulary, in vocabulary order. A term is included if and only if its lower-case form is a substring of the lowered text. No term repeats, and there are at most six. |
| JobMatching.ProjectAll | main.py:43 | The recursive projection is proved equal to its closed form: same number of rows, row `k` cut to its four columns. |
| JobMatching.Project | main.py:43 | One row restricted to the columns `company`, `job_role`, `location` and `key_skills`. A definition; `ProjectAll` and `MatchJobsSpec` use it. |
| JobMatching.ProjectAllAppend | main.py:43 | Projection distributes over concatenation of the catalog. |
| JobMatching.RowMatches | main.py:42 | The lambda of `match_jobs`: some skill, lowered, is a substring of the row's lowered `key_skills`. Used by every matching lemma. |
| JobMatching.MatchJobs | main.py:40-43 | `match_jobs`: keep the matching rows in order, then cut them to four columns. The `KeyError` it raises on a catalog with no rows is the branch `rows == []` of `Pipeline.RunWithProfile`. Characterised by `MatchJobsSpec`, `MatchJobsAppend` and `MatchJobsEmpty`. |
| JobMatching.MatchJobsSingleton | main.py:41-43 | On one row the filter keeps exactly the matching row, projected. |
| JobMatching.MatchJobsAppend | main.py:41-43 | Filtering distributes over concatenation of the catalog, so kept rows keep catalog order. |
| JobMatching.MatchJobsSpec | main.py:40-43 | The result is a subsequence of the projected catalog. A posting is in it if and only if some catalog row matches and projects to it. A row matches when some skill, lowered, is a substring of its lowered `key_skills`. |
| JobMatching.MatchJobsEmpty | main.py:40-43 | The match set is empty if and only if no row matches. |
| JobMatching.NoSkillsNoMatches | main.py:42 | An empty skill list yields an empty match set. |
| Report.Latin1Replace | main.py:66 | The Latin-1 round trip with `replace` keeps the length. It keeps code points up to U+00FF and turns every other code point into `?`. |
| Report.CleanChar | main.py:66 | What `clean_text` does to one character: en dash and em dash become `-`, another character above U+00FF becomes `?`, the rest is kept. `CleanText` is proved to act as this pointwise. |
| Report.CleanText | main.py:65-66 | `clean_text` keeps the length. It maps en dash and em dash to `-` and every other code point above U+00FF to `?`, and keeps the rest. |
| Report.CleanTextSpec | main.py:65-66 | Sanitised text is Latin-1 only, Latin-1 text is unchanged, and sanitising is idempotent. |
| Report.Title | main.py:72 | The title cell: `"Job Recommendations for "` + the name, not sanitised. |
| Report.PostingEntries | main.py:79-85 | The four cells of one posting: the sanitised company, then `"Job Title: "`, `"Location: "` and `"Required Skills: "` with the sanitised field. |
| Report.RowEntries | main.py:76-85 | The cells of all postings, the four of each in turn, in row order. Characterised by `RowEntriesLength`, `RowEntriesAt`, `RowEntriesLayout` and `RowEntriesAppend`. |
| Report.ReportContent | main.py:72-85 | The title, then the four cells of each posting. Characterised by `ReportLayout`; `GeneratePdf` is proved to produce it. |
| Report.RowEntriesAppend | main.py:76-85 | The entries for two blocks of postings are the entries of the first followed by those of the second. |
| Report.ReportContentExtend | main.py:76-85 | One more posting extends the report by exactly its four entries. |
| Report.ReportContentStep | main.py:76-85 | The report up to posting `i + 1` is the report up to posting `i` followed by posting `i`'s four entries. |
| Report.ReportLayout | main.py:72-85 | The report has `1 + 4n` entries. Entry 0 is `"Job Recommendations for " + name`. Entries `4k+1..4k+4` are posting `k`'s sanitised company, `"Job Title: "` + role, `"Location: "` + location and `"Required Skills: "` + key skills, in row order. |
| Report.RowEntriesLayout | main.py:76-85 | The posting entries number 4 per posting, and block `k` is posting `k`'s four entries. |
| Report.RowEntriesLength | main.py:76-85 | 4 entries per posting. |
| Report.RowEntriesAt | main.py:76-85 | Block `k` of the posting entries is posting `k`'s four entries. |
| Report.ReportPath | main.py:143 | `f"Job_Report_{name.replace(' ', '_')}.pdf"`. Characterised by `ReportPathShape` and `ReportPathCollision`. |
| Report.ReportPathShape | main.py:143 | The path is `"Job_Report_"` + the name with spaces turned into `_` + `".pdf"`. It is 15 characters longer than the name and has no space. |
| Report.ReportPathCollision | main.py:143 | Two names get the same file exactly when they agree once spaces are turned into `_`. |
| Report.ReportDocument.constructor | main.py:69-70 | A new document holds none of `generate_pdf`'s own cells yet; the page header that `add_page` writes is left out. |
| Report.ReportDocument.AddText | main.py:72-85 | `cell`/`multi_cell` appends its text after everything written so far. |
| Report.GeneratePdf | main.py:68-88 | The document the loop fills holds exactly `ReportContent(data, name)`: the title, then the four entries of each posting in order. |
| Pipeline.RunResumeProcess | main.py:125-149 | `run_resume_process`: an unreadable résumé ends in its error, otherwise `RunWithProfile` on the fields read from the text. Characterised by `NoEmailOutcome`, `SentToExtractedAddress`, `DocumentFailureHalts`, `NoAtSignHalts` and `CatalogFailureHalts`. |
| Pipeline.CATALOG_PATH | main.py:136 | The catalog file `"data/jobs_data.xlsx"`. The first outside action of any run past the email test loads it, as `RunIsLinear` and `SentToExtractedAddress` state. |
| Pipeline.Outcome | main.py:132-149 | The four messages a run ends in: no email, no matches, success with the address, or an error with its text. `NoEmailOutcome`, `NoMatchesOutcome`, `SentOutcome` and `ErrorOutcome` give the exact condition for each. |
| Pipeline.ExtractProfile | main.py:127-134 | The address, name and skills read off the text, by `ExtractEmail`, `CandidateName` and `ExtractSkills`. `SentToExtractedAddress` states a sent report uses exactly these. |
| Pipeline.IsTruthy | main.py:131 | Python's truth value of `extract_email`'s result: `None` and `""` are false. `TruthyIffFound` proves it is false exactly for `None`. |
| Pipeline.RunWithProfile | main.py:131-149 | The run after the text was read, in the order of the code: email test, catalog, match set, render, send. Characterised by `NoMatchesOutcome`, `SentOutcome`, `ErrorOutcome`, `RunIsLinear` and the per-stage failure lemmas. |
| Pipeline.TruthyIffFound | main.py:128-131 | `not email` holds exactly when `extract_email` returned `None`, since a returned address is never empty. |
| Pipeline.NoEmailOutcome | main.py:127-133 | The outcome is `NoEmail` if and only if the text was read and has no address. Such a run starts no outside action: no catalog load, no render, no send. |
| Pipeline.NoMatchesOutcome | main.py:135-141 | Once an address was found, the outcome is `NoMatches` if and only if the catalog loaded, has at least one row, and the match set is empty. Then the only action was the catalog load, so nothing is rendered or sent. |
| Pipeline.SentOutcome | main.py:135-146 | The outcome is `Sent(address)` if and only if the address was found, the catalog loaded, some job matched, and rendering and sending succeeded. Such a run loads the catalog, writes the report to `Job_Report_<name>.pdf` and sends that file to the address. |
| Pipeline.SentToExtractedAddress | main.py:125-146 | A whole run that ends in `Sent(address)` read the text, and `extract_email` found `address` there. The catalog loaded and the match set for the extracted skills is non-empty. The run's actions are exactly: load `data/jobs_data.xlsx`; write `ReportContent(MatchJobs(ExtractSkills(text), rows), CandidateName(text))` to `ReportPath(CandidateName(text))`; send that file to `address`. |
| Pipeline.ErrorOutcome | main.py:131-149 | Once the text was read, the outcome is `Error(m)` if and only if an address was found and `m` is the message of the first stage that fails: the catalog load, the column selection on an empty catalog, the rendering after a non-empty match, or the sending after a successful rendering. |
| Pipeline.DocumentFailureHalts | main.py:126-149 | An unreadable résumé ends in its own error with no outside action. |
| Pipeline.EmptyCatalogFails | main.py:136-143 | A catalog with no rows ends in the column selection's error after the load alone, so nothing is rendered or sent. |
| Pipeline.RenderFailureHalts | main.py:144-149 | A failed rendering ends in its error after the load and the write attempt, before any send. |
| Pipeline.SendFailureReported | main.py:145-149 | A failed send ends in its error after all three actions of a delivery. |
| Pipeline.RunIsLinear | main.py:125-149 | Every run's actions are a prefix of a full delivery's: load the catalog at `data/jobs_data.xlsx`, write the report, send it. So a report is sent only after it was written and only to the extracted address. A run with all three actions ends in `Sent` or in the send stage's own error. |
| Pipeline.WrittenReport | main.py:139-144 | A report is written only for a non-empty match set, to the path derived from the name, which has no space. |
| Pipeline.NoAtSignHalts | main.py:128-133 | A text without `@` ends in `NoEmail` with no outside action. |
| Pipeline.CatalogFailureHalts | main.py:136-149 | If the catalog cannot be loaded after an address was found, the run ends in an error after the load attempt alone. |

## Left out

- The tkinter window, the file dialog and the message boxes (main.py:155-171, 132, 140, 146, 149) are user interface. The text each message box would show is reduced to the `Outcome`.
- `parse_resume` (main.py:18-20) depends on PyMuPDF, a foreign library. The résumé text is an input, and a failure to read is a given error.
- `load_jobs` (main.py:37-38) reads a file through pandas. The catalog is a given sequence of rows whose cells are already text, as `str()` makes them (a missing cell reads `"nan"`). A failure to load is a given error. The model also folds a missing column, which makes `match_jobs` raise `KeyError`, into that error. The `KeyError` on a catalog with no rows is modelled, with its message given as an input.
- FPDF layout (main.py:49-63, 69-71, 73-74, 77-78, 81-82, 86-88) is left out because it depends on font metrics and page geometry: fonts, colours, lines, cell sizes, spacing, page breaks, and the running header ("Job Recommendations") and footer ("Page n"). Writing the file with `pdf.output` is I/O and appears only as the `WriteReport` action. Only the ordered text of the `cell`/`multi_cell` calls in `generate_pdf` is modelled.
- `send_email` (main.py:94-119) is network I/O and MIME plumbing. It appears only as the `SendReport(address, path)` action and a possible error. Its credentials are not reproduced.
- Python exception semantics are left out. Any exception raised inside the `try` becomes the `Error` outcome with the failing stage's message.
- Strings.Lower: folds ASCII letters only. It does not model full Unicode `str.lower()` on letters outside ASCII, nor the characters whose lower-case form is longer than one character.
- Strings.IsDigitString: accepts ASCII digits only; Python's `isdigit` also accepts other Unicode digits. `Strings.SeveralWordsHaveSpace` shows that a text with two or more tokens contains whitespace, so no digit class without whitespace accepts it; the choice therefore does not change `extract_name` (`ResumeFields.DigitTestIsRedundant` states this for the ASCII class).
- Report.Latin1Replace: models each Python code point as one Dafny `char`. Lone surrogate code points, which Dafny strings cannot hold, are not modelled.
- Report.Title: does not model sanitising the title, because the code does not sanitise it (main.py:72). Whether the PDF library then rejects a non-Latin-1 name is part of the abstract render error.
- The order of evaluation inside `run_resume_process` (name before the email test, skills after it) is not kept. The three reads are pure, so the outcome and the actions are the same.
