# Section extraction from reference-form text, and the task store

The service answers questions about a company's reference form. It works on the plain
text of the PDF, and for each question it first cuts out the text of one numbered
section (such as `7.1`). This project models that section extractor and the in-memory
task store, as pure Dafny functions over strings, sequences and maps, and proves what
they do.

The extractor (`src/app/services/service.py`) works in these steps:

- **Pages.** The document text is split on `"---  PÁGINA "`. The text extraction writes
  each PDF page behind the marker `"\n---  PÁGINA <n> ---\n"`. So the first piece is the
  preamble, and piece `k` starts with `"<k> ---"` (`Pages.PagesOfRender`).
- **Index lookup.** The lookup walks the pages in order. It considers a page only when the
  page holds `"<x> "` and is either one of the first five pieces or holds `Índice`. It
  stops at the first such page where `x\s+([^\n]+)\s*(\d+)` matches, and the page group
  gives the section's page (`IndexLookup`).
- **Fallback.** When the section is not in the index, its neighbours are computed from the
  number (`SectionRange`). The text between them is then extracted over an inclusive
  page window (`RangeExtract`). If that text is empty, the result is a fixed message.
- **Heading.** The first page that shows the section's page number and holds a heading line
  `^x\s+<letter>.{10,}…$` is where the section's text starts (`SectionExtract.FindHeading`).
- **Boundary.** The entries of the index page are collected with `re.findall`. The next
  section is the first entry after the section's own entry at the same depth or
  shallower (`SectionBoundary`).
- **Sweep.** Each page is tested against the half-open window `[start, boundary)`. The
  smallest page number the page shows, written as `"{t} "` or `PÁGINA: {t}`, decides for
  that page. A page gives its kept lines only when that number is past the start and no
  line of the page opens the next section (`SectionExtract.SweepPage`).
- **Noise filter and clean-up.** Each line is tested in stripped form and kept unstripped
  (`NoiseFilter`). The joined text has runs of blank lines collapsed by
  `re.sub(r"\n\s*\n\s*\n+", "\n\n", …)` and is then stripped (`Collapse`). On the text
  the extractor builds, the substitution never fires. Every joined line comes from
  splitting at newlines, so it holds no newline, and the filter never keeps a blank line.
  So no whitespace stretch of the joined text holds two newlines, and the result is the
  kept lines joined with `"\n"` and stripped (`Collapse.NormalizeJoinedLines`,
  `RangeExtract.ExtractRangeText`, `SectionExtract.SectionText`).

The regular expressions are modelled as dedicated matchers with Python's leftmost,
greedy, backtracking semantics (`Patterns`). For each of them the model states when it
matches and which match Python returns:

- the entry tail `\s+([^\n]+)\s*(\d+)` matches exactly when some way of matching exists,
  and gives the way backtracking tries first (`Patterns.MatchTail`);
- the dotted number `\d+(?:\.\d+)*` is maximal (`Patterns.DottedEnd`), and no shorter
  number lets the tail match (`Patterns.NoBacktrackIntoNumber`);
- the heading `^x\s+([A-Za-zÀ-ÿ].{10,}.*?)$` matches exactly when a line starts with `x`
  and the whitespace after it, which may cross newlines, is followed by a letter with at
  least ten more characters on that letter's line. The title group then starts at that
  letter and runs to the end of its line (`Patterns.HeadingAt`, `Patterns.HeadingFrom`);
- the next-section guard `^n\s+` holds exactly when some line starts with `n` followed by
  whitespace (`SectionExtract.GuardMeans`);
- the clean-up pattern matches at a newline exactly when the whitespace after it holds two
  more newlines (`Collapse.CollapseAt`).

`re.search` gives the leftmost match (`Patterns.Search`). `re.findall` gives every match
its scan meets, left to right, and no match starts in a gap the scan crosses
(`Patterns.FindAll`).

Two effects of the entry pattern's backtracking are proved, not corrected:

- When the first non-whitespace character after an index entry's line is a digit, `\s*`
  crosses the newline, and any indentation or blank lines after it. The page group is
  then the digits found there, whatever the entry's own line ends with. In
  `7.1 Capital 12` followed by `7.2 Risk 15`, section `7.1` reads page `7`; followed by a
  line ` 15`, it reads page `15` (`Patterns.TailAcrossNewline`,
  `Patterns.NewlineSwallowed`, `Patterns.NumberedLineReadsNext`).
- When that character is not a digit, or the text ends, and the entry's line ends with
  a digit, the greedy title keeps every digit of the line but the last one. A
  multi-digit page number then reads as its last digit (`Patterns.TailLastDigit`,
  `Patterns.TailAtTextEnd`, `Patterns.LastDigitOnly`).

The key choice (`KeyChoice`) gives the environment as a map. The task store
(`TaskStorage`, `src/app/services/tasks_storage.py`) is a map from task id to record,
updated by pure functions. Timestamps and fresh ids are parameters.

Files: `wrappers.dfy` (Option and Result), `chars.dfy`, `text.dfy`, `numerals.dfy`,
`scan.dfy` (first-match scans and flat-map), `pages.dfy`, `patterns.dfy`,
`noise_filter.dfy`, `collapse.dfy`, `index_lookup.dfy`, `section_range.dfy`,
`boundary.dfy`, `range_extract.dfy`, `section_extract.dfy`, `key_choice.dfy`,
`task_storage.dfy`.

### Behaviour of the code the model keeps

- The `break` at line 205 only leaves the loop over page numbers. The guarded page gives
  nothing, and later pages are still swept (`SectionExtract.SweepPage`).
- `int()` on a non-numeric last component raises `ValueError` at line 25. Nothing catches
  it, so `_section_extract` raises (`Outcome.RaisesValueError`).
- The heading is searched on every page of the document, in order. The first page that
  shows the page number and holds the heading is used, even when it is not the page the
  index points to (lines 131-164).
- Pages are recognised only by substring tests for a number (lines 72, 133, 200). No page
  number is ever read from a page marker. The tests confuse numbers whose spelling
  contains another's. Text that passes the `" {n}"` test for page 12 passes it for page 1,
  and text holding `12 ` passes the `"{n} "` test for page 2
  (`Pages.SpaceBeforeConfusesPrefix`, `Pages.SpaceAfterConfusesLastDigit`).
- No store operation checks the status. A completed task can fail, and a failed one can
  complete (`TaskStorage.FailAfterComplete`, `TaskStorage.CompleteAfterFail`).

## Model

| member | source | states |
|---|---|---|
| SectionRange.Neighbours | src/app/services/service.py:21-38 | The neighbours fail (`ValueError`) exactly when the last component is not an integer as `int()` reads it |
| SectionRange.NextNeighbour | src/app/services/service.py:24-26 | The next neighbour has the same leading components, and its last component reads as the section's last plus two |
| SectionRange.PreviousNeighbour | src/app/services/service.py:28-36 | Previous neighbour: the section itself at depth one; with a positive last component, same leading components and last minus one; otherwise, whose components are exactly the leading ones (the parent) |
| SectionRange.LevelCountsDots | src/app/services/service.py:169 | The depth `len(s.split("."))` is the number of dots plus one |
| SectionRangeExamples.SiblingExample | src/app/services/service.py:21-38 | `7.1` gives the range `7.0` … `7.3` |
| SectionRangeExamples.ParentExample | src/app/services/service.py:31-34 | `7.0` falls back to its parent: `7` … `7.2` |
| SectionRangeExamples.TopLevelExample | src/app/services/service.py:35-36 | `12` gives `12` … `14` |
| SectionRangeExamples.NonNumericExample | src/app/services/service.py:25 | `7.x` makes `int()` raise |
| Numerals.ParseIntOfIntToString | src/app/services/service.py:25-32 | `int(str(i)) == i` for every integer: the component written into a neighbour reads back as written |
| Numerals.NatToStringInjective | src/app/services/service.py:72 | Distinct page numbers are written differently: `str` is injective on naturals |
| Numerals.DigitsValueOfNatToString | src/app/services/service.py:51 | Reading back a formatted page number gives the number |
| Pages.SplitPages | src/app/services/service.py:43 | Splitting on the delimiter gives at least one piece, no piece holds the delimiter, and joining the pieces gives the text back |
| Pages.PagesOfRender | src/app/services/service.py:284 | Text built as the PDF reader builds it, from page texts without the delimiter, splits into the piece `"\n"` followed by one piece per PDF page, numbered from 1 |
| Pages.PieceShowsOwnNumber | src/app/services/service.py:200 | Every page piece shows its own number under the `"{n} "` test, through its marker residue |
| Pages.SpaceBeforeConfusesPrefix | src/app/services/service.py:72 | A page that passes the `" {n}"` test (or the `PÁGINA: {n}` test) for `10n + d` passes it for `n` too: page 12's text shows page 1 |
| Pages.SpaceAfterConfusesLastDigit | src/app/services/service.py:200 | Text holding `"{10n + d} "` passes the `"{n} "` test for the single digit `d`: `12 ` shows page 2 |
| Pages.FirstShown | src/app/services/service.py:71-72 | The first number of the window that the page shows; no smaller number of the window is shown; with no result, no number of the window is shown |
| Patterns.PageFrom | src/app/services/service.py:48 | `\s*(\d+)` tries the longest whitespace first: the result is a valid page start and no longer one exists |
| Patterns.TitleFrom | src/app/services/service.py:48 | `([^\n]+)` tries the longest title first: the result is valid and no longer title is followed by a page group |
| Patterns.TailFrom | src/app/services/service.py:48 | `\s+…` tries the longest lead first: the result is valid and ranks above every way of matching within the bound |
| Patterns.MatchTail | src/app/services/service.py:48 | The tail matches exactly when some way of matching exists, and it returns the way backtracking prefers |
| Patterns.DottedEnd | src/app/services/service.py:177 | `(?:\.\d+)*` runs over digits and dots, ends on a digit, and stops only where no `.` followed by a digit comes next |
| Patterns.NoBacktrackIntoNumber | src/app/services/service.py:177 | Shortening the dotted number never lets the tail match |
| Patterns.HeadingFrom | src/app/services/service.py:137 | The title group starts at the last position the greedy `\s+` can stop at where a letter of `[A-Za-zÀ-ÿ]` has at least ten more characters on its line (`.{10,}`), and runs to the end of that line; when no such position exists there is no group |
| Patterns.HeadingAt | src/app/services/service.py:137-140 | The heading matches at an index exactly when the index starts a line, the section number occurs there, and the whitespace after it reaches a letter with ten more characters on its line; that letter is the only one possible, and the match ends at the end of its line |
| Patterns.MatchAt | src/app/services/service.py:105-106 | A match at an index starts there, is non-empty, and has the pattern's groups inside it; the last group of an entry match is all digits; heading and line matches start a line; a heading matches exactly when the conditions of `HeadingAt` hold |
| Patterns.Search | src/app/services/service.py:49 | `re.search` returns the match at the smallest index, and none exists when it returns none |
| Patterns.FindAll | src/app/services/service.py:178 | `re.findall` returns genuine matches, left to right and non-overlapping; it is empty exactly when `re.search` finds nothing, its first match is `re.search`'s, and no match starts before the first, between two consecutive ones, or after the last |
| Patterns.TailAtTextEnd | src/app/services/service.py:48 | On a last line ending in a digit, the page group is that single digit |
| Patterns.TailAcrossNewline | src/app/services/service.py:48 | When the first non-whitespace character after the title line is a digit, even past indentation or blank lines, the title is the whole line and the page group is the digits found there |
| Patterns.TailLastDigit | src/app/services/service.py:48 | When the title line ends in a digit and the first non-whitespace character after it is not a digit, or there is none, the title is the line minus its last character and the page group is that last digit |
| Patterns.LastDigitOnly | src/app/services/service.py:48-51 | `x title12` at the end of the text gives the page group `2` |
| Patterns.NewlineSwallowed | src/app/services/service.py:48-51 | `x title\n<digits>…` takes its page group from the next line, whatever the title line ends with |
| Patterns.NumberedLineReadsNext | src/app/services/service.py:48 | `7.1 Capital 12` followed by `7.2 Risk 15` gives the whole first line as title and `7` as page group |
| Patterns.HeadingNotBlank | src/app/services/service.py:143-166 | A heading match is never blank after `strip()`, so `if not full_title` fails only when no heading was found |
| NoiseFilter.KeepMeans | src/app/services/service.py:76-87 | A line is kept exactly when its stripped form is non-empty, holds none of `PÁGINA:`, the form title and `Versão`, is not all digits, is longer than two characters, and (under a marker rule) lacks the marker text |
| NoiseFilter.KeptLinesVisible | src/app/services/service.py:76-87 | A kept line is never blank, so a non-empty list of kept lines has non-whitespace content |
| NoiseFilter.FilterLines | src/app/services/service.py:151-161 | Kept lines are lines of the input that pass the filter, and every such line is kept, untrimmed |
| NoiseFilter.FilterAppend | src/app/services/service.py:76-90 | Filtering goes line by line, in order: the filter of a concatenation is the concatenation of the filters |
| NoiseFilter.FilterSingle | src/app/services/service.py:87 | A single line is kept exactly when it passes the tests |
| NoiseFilter.RulesNested | src/app/services/service.py:85 | The range filter (any `--- PÁGINA`) is stricter than the sweep filter (`--- PÁGINA <t>`), which is stricter than the heading-page filter |
| NoiseFilter.MarkerResidueKept | src/app/services/service.py:210-221 | Every filter keeps a page's `"<n> ---"` marker residue line |
| NoiseFilter.ResidueShape | src/app/services/service.py:284 | The marker residue is its own stripped form, longer than two characters, not all digits, and made only of digits, spaces and dashes |
| Collapse.CollapseAt | src/app/services/service.py:94 | The substitution matches at a newline exactly when the whitespace run after it holds at least two more newlines, and the match runs to just after the run's last newline |
| Collapse.Collapse | src/app/services/service.py:94 | After the substitution, no whitespace stretch holds three newlines, and only whitespace has changed: the other characters are the same, in order; text with no such stretch comes back unchanged |
| Collapse.CollapseBlankRun | src/app/services/service.py:94 | Three newlines between two non-whitespace characters become exactly `"\n\n"` |
| Collapse.CollapseExample | src/app/services/service.py:94 | `a`, three newlines, `b` becomes `a`, two newlines, `b` |
| Collapse.CollapseKeepsCalmText | src/app/services/service.py:94 | Text without such a stretch comes back unchanged |
| Collapse.CollapseIdempotent | src/app/services/service.py:231 | Substituting twice is substituting once |
| Collapse.Normalize | src/app/services/service.py:93-95 | The final text has no leading or trailing whitespace, no three newlines separated only by whitespace, and the same non-whitespace characters as the input, in order; on text with no such stretch it is exactly `strip()` |
| Collapse.NormalizeJoinedLines | src/app/services/service.py:92-95 | Newline-free lines, none blank after the first, joined with `"\n"`: the substitution changes nothing and the clean-up is exactly `strip()` |
| Text.StripKeepsVisible | src/app/services/service.py:95 | `strip()` removes whitespace only |
| Collapse.NormalizeIdempotent | src/app/services/service.py:231-232 | Cleaning up cleaned-up text changes nothing |
| IndexLookup.Lookup | src/app/services/service.py:103-110 | The lookup stops at the first page in document order that holds `"<x> "`, is early or an index page, and matches the entry pattern; it reads the page there; with no result, no page qualifies |
| IndexLookup.LookupIgnoresLaterPages | src/app/services/service.py:46-52 | Once a page qualifies, pages after it make no difference |
| SectionBoundary.Entries | src/app/services/service.py:177-178 | One entry per `findall` match, in order: entry `k` holds the number, title and page groups of match `k`, the page read as a number |
| SectionBoundary.FirstNamed | src/app/services/service.py:188 | The first position whose entry has the section's number; every earlier one has another number |
| SectionBoundary.FirstShallow | src/app/services/service.py:183-184 | The first position at the section's depth or shallower; every earlier one in range is deeper |
| SectionBoundary.BoundaryIsSuccessor | src/app/services/service.py:180-189 | The loop picks exactly the first entry at depth at most the section's, after the first entry with the section's number |
| SectionBoundary.BoundaryPosition | src/app/services/service.py:180-189 | The boundary lies after the section's entry, is at most as deep, and every entry in between is deeper |
| SectionBoundary.NoTargetNoBoundary | src/app/services/service.py:188-189 | Without an entry with the section's number there is no boundary |
| SectionBoundary.EarlierEntriesIgnored | src/app/services/service.py:181-189 | Entries before the section's entry never affect the boundary |
| RangeExtract.RangePage | src/app/services/service.py:70-91 | A page that shows no number of the inclusive window gives nothing; every line a page gives is one of its lines and passes the range filter |
| RangeExtract.RangePageShown | src/app/services/service.py:71-72 | A page showing any number of the window gives all its kept lines |
| RangeExtract.WindowIncludesEnd | src/app/services/service.py:66-71 | The range window includes the end page itself |
| RangeExtract.RangeLinesAppend | src/app/services/service.py:69-91 | Pages contribute one after another, in document order |
| RangeExtract.RangeLinesKept | src/app/services/service.py:76-90 | Every gathered line passes the range filter and holds no newline |
| RangeExtract.ExtractRange | src/app/services/service.py:40-95 | Empty when the start section is missing from the index or indexed at page 0; otherwise cleaned-up text |
| RangeExtract.ExtractRangeContent | src/app/services/service.py:69-95 | With a start page, the range text holds exactly the non-whitespace characters of the gathered lines, in page and line order |
| RangeExtract.ExtractRangeText | src/app/services/service.py:63-95 | With a start page, the range text is exactly the gathered lines, in page and line order, joined with `"\n"` and stripped |
| RangeExtract.ExtractRangeEmpty | src/app/services/service.py:63-95 | The range text is empty exactly when the start section has no page, or no page of the window gives a line |
| SectionExtract.FindHeading | src/app/services/service.py:131-164 | The first page in document order that shows the page number as `" {n}"` or `PÁGINA: {n}` and holds the heading line |
| SectionExtract.HeadingContentLines | src/app/services/service.py:145-163 | The heading content splits back into exactly the kept lines after the heading |
| SectionExtract.SweepPage | src/app/services/service.py:198-225 | A page that shows no number of `[start, end)` gives nothing; a page that opens the next section gives nothing; every line given is a page line that passes the common filter |
| SectionExtract.SweepSkipsStartPage | src/app/services/service.py:199-201 | A page showing the start page number gives nothing, whatever else it shows |
| SectionExtract.SweepPageDecided | src/app/services/service.py:199-225 | The smallest window number shown decides alone; the page then gives the lines kept by the filter for that page's marker |
| SectionExtract.GuardMeans | src/app/services/service.py:202-205 | The guard holds exactly when some line starts with the next section's number followed by whitespace |
| SectionExtract.SweepAppend | src/app/services/service.py:198-225 | Each page contributes once and on its own, in document order |
| SectionExtract.SweepKept | src/app/services/service.py:210-221 | Every swept line passes the common filter and holds no newline |
| SectionExtract.Assemble | src/app/services/service.py:227-233 | The assembled text is cleaned up and holds the non-whitespace characters of the heading content and then of the swept lines, in order |
| SectionExtract.SectionText | src/app/services/service.py:227-233 | The heading content followed by the swept lines comes out as exactly all those lines, joined with `"\n"` and stripped |
| SectionExtract.SectionLines | src/app/services/service.py:145-225 | Every line of the section, after the heading or swept, passes the common filter and holds no newline |
| SectionExtract.HeadingSection | src/app/services/service.py:142-234 | Once the heading is found, the result is cleaned-up text holding the non-whitespace characters of the section's lines in order, and it is empty exactly when there are no such lines; it is exactly those lines joined with `"\n"` and stripped |
| SectionExtract.IndexedSection | src/app/services/service.py:128-167 | With no heading page, the result is the message quoting the page number; otherwise the section text built from the first heading page |
| SectionExtract.Fallback | src/app/services/service.py:112-126 | Raises exactly when the neighbours cannot be computed; otherwise a non-empty range text is returned as it is, and an empty one gives the not-in-index message |
| SectionExtract.Extract | src/app/services/service.py:97-126 | Raises only when the section is missing from the index and its number has a non-numeric last component; missing sections go to the fallback; an indexed section returns the section text built from its index hit |
| KeyChoice.ChooseKey | src/app/services/service.py:236-252 | Succeeds exactly when the bucket's variable is set and non-empty, and then returns its value; otherwise the error names the question |
| KeyChoice.BucketArithmetic | src/app/services/service.py:238-245 | The bucket is 1 up to question 6 (and below 1), then `(q - 1) / 6 + 1` up to 24, and 4 past 18 |
| KeyChoice.BucketMonotone | src/app/services/service.py:238-245 | Later questions never use an earlier key |
| KeyChoice.KeyNameDistinct | src/app/services/service.py:238-245 | Two questions read the same variable exactly when they are in the same bucket |
| TaskStorage.CreateTask | src/app/services/tasks_storage.py:12-27 | Returns the given id or the fresh one; that id now maps to a pending record with zero counters and no result or error; other tasks are unchanged |
| TaskStorage.Apply | src/app/services/tasks_storage.py:32 | Each field passed is overwritten, and every other field is kept |
| TaskStorage.UpdateTask | src/app/services/tasks_storage.py:29-33 | An unknown id leaves the store unchanged; otherwise only that task changes, by the patch and the new `updated_at` |
| TaskStorage.GetTask | src/app/services/tasks_storage.py:35-39 | The record for a known id; the `not_found` stand-in otherwise |
| TaskStorage.SetProgress | src/app/services/tasks_storage.py:41-46 | Records current and total; progress is 0 when total is not positive; status and result are kept |
| TaskStorage.CompleteTask | src/app/services/tasks_storage.py:48-50 | Status `completed`, the result stored, progress 100, the error kept |
| TaskStorage.FailTask | src/app/services/tasks_storage.py:52-54 | Status `failed`, the error stored, result and progress kept |
| TaskStorage.GetAfterCreate | src/app/services/tasks_storage.py:12-39 | A created task reads back as the new pending record |
| TaskStorage.CreateOverwrites | src/app/services/tasks_storage.py:17 | Creating under an existing id discards whatever that task held |
| TaskStorage.UpdatesCommute | src/app/services/tasks_storage.py:29-33 | Updates of different tasks commute |
| TaskStorage.UpdateIdempotent | src/app/services/tasks_storage.py:29-33 | The same update twice is the update once |
| TaskStorage.FailAfterComplete | src/app/services/tasks_storage.py:48-54 | A completed task can still fail; it keeps its result and progress 100 |
| TaskStorage.CompleteAfterFail | src/app/services/tasks_storage.py:48-54 | A failed task can still complete; it keeps its error message |
| TaskStorage.UnknownIdUntouched | src/app/services/tasks_storage.py:29-31 | Progress, completion and failure on an unknown id change nothing |

## Left out

- Reading the PDF with PyMuPDF, `extract_response`'s per-question loop and its one-entry section cache, the answer file, and the `print` calls are not modelled. They are I/O and orchestration around the extractor. Only the marker format the reader writes (line 284) is modelled.
- `_get_answer` and the Gemini client are not modelled, because they are network calls.
- `key_choice` reads the environment through a map parameter, not `os.environ`.
- The FastAPI controller and server are not modelled. They only call the store.
- Numerals.ParseInt: accepts an optional sign and ASCII digits, surrounded by whitespace. Python's `int()` also accepts non-ASCII decimal digits and underscores between digits (`int("1_0") == 10`), which the model rejects.
- `\d` and the `(\d+)` groups match ASCII digits only, where Python's `\d` accepts every Unicode decimal digit. `str.isdigit()` is modelled as the ASCII digits and the Latin-1 superscripts; Python's accepts every character with a digit value, non-decimal ones such as `①` included.
- TaskStorage.SetProgress: the percentage `int((current / total) * 100)` is a parameter, not computed, because the float division can differ from integer arithmetic.
- Timestamps (`datetime.now().isoformat()`) and fresh ids (`uuid4`) are parameters of the store operations.
- TaskStorage.CreateTask: both timestamps are the one `now` parameter. The code reads the clock twice (lines 19-20), so `created_at` and `updated_at` can differ by a few microseconds.
- TaskStorage.UpdateTask: the keyword arguments are the six fields the callers pass. Python's `dict.update` would also add keys the record did not have, which the fixed record cannot express.
- TaskStorage.FailTask: `str(error)` is not modelled. The error comes in as a string.
- The title group of each index entry is kept in `SectionBoundary.Entry` but plays no part, as in the code.
