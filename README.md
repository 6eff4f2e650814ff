# Municipal accreditation reports: extraction and query service, in Dafny

This project models the two parts of the repository that do work, rather than gluing a framework together:

- **The extractor** (`scripts/extract_reports.py`). It reads municipal accreditation report PDFs (the NJUCF program, whose municipalities lie in 21 New Jersey counties) and writes one record per municipality page.
  - Four scanners read a page's text: the `Municipality:` / `County:` header, the `Updated:` date, the plan year before `Most Recent Plan Expires`, and the `NJUCF Accredited:` answer.
  - `parse_pdf` takes a report year from the file name. It drops every page without a municipality and numbers the remaining pages from 1.
  - `main` concatenates the records of all files.
- **The query service** (`app/__init__.py`). It loads those records and serves them:
  - `slugify` and the slug assigned to each record on load;
  - the county, year and municipality facet lists;
  - `filtered_reports`, with its four optional criteria;
  - the lookup of a municipality by slug, with its page sorted by report year.

Each regular expression has its own scanner, and `re.search` is modelled as the match at the leftmost position where the scanner succeeds (`ExtractReports.Search`). A PDF file is its path, the stem of its name and the text of its pages. The dataset is a sequence of `Records.Report` values whose optional JSON fields are `Option`s.

Files:

- `wrappers.dfy`: `Option`.
- `records.dfy`: the record.
- `strings.dfy`: character classes, ASCII lower-casing, run collapsing as `re.sub` does it, and `str.strip`.
- `seqs.dfy`: list-comprehension filtering, and `sorted(set(...))`.
- `extract.dfy`: the extractor.
- `app.dfy`: the query service.

The state-changing code is written as methods:

- `load_reports` updates each record in place, so `App.LoadReports` works on an `array`.
- `ExtractReports.ParsePdf` and `ExtractReports.ExtractAll` are the extractor's append loops. Each is proved equal to a function, and the properties are proved about that function.

## Model

| member | source | states |
|---|---|---|
| Strings.CollapseRuns | app/__init__.py:14 | `re.sub(P+, c, s)`: the result is empty iff the input is. Every character of the class is `c`, and no two of them are adjacent. Which run becomes which `c` is fixed by `CollapseRunsOfRun` and `CollapseRunsSplit`. |
| Strings.CollapseRunsOfRun | app/__init__.py:14 | A non-empty run of class characters becomes exactly one `c`. |
| Strings.CollapseRunsConcat | app/__init__.py:14 | Collapsing distributes over a cut that is not inside a run: one side has a character outside the class next to the cut. |
| Strings.CollapseRunsSplit | app/__init__.py:14 | A character outside the class is kept in place: `collapse(a + [x] + b) == collapse(a) + [x] + collapse(b)`. |
| Strings.CollapseRunsJoin | app/__init__.py:14 | A maximal run between two other parts becomes exactly one `c` between their collapsed forms. |
| Strings.CollapseRunsKeepsOthers | app/__init__.py:14 | Collapsing runs keeps every character outside the class, in order. |
| Strings.CollapseRunsKeepsCollapsed | app/__init__.py:14 | A string already collapsed to single `c`s is returned unchanged. |
| Strings.Trim | app/__init__.py:14 | `strip`: the result is a contiguous slice of the input, with no stripped character at either end. Everything cut off is stripped characters (via `TrimFrom`/`TrimTo`). |
| Strings.TrimKeepsTrimmed | app/__init__.py:14 | A string with nothing to strip at either end is returned unchanged. |
| Strings.TrimJoin | app/__init__.py:14 | Stripping `a + sep + b`, where `a` ends and `b` starts with a kept character, strips only `a`'s front and `b`'s back. |
| Strings.CollapseTrimJoin | app/__init__.py:14 | Collapsing then stripping turns a maximal run between two kept parts into exactly one `c` between their results. |
| Strings.TrimCollapsed | app/__init__.py:14 | Stripping a collapsed string leaves it collapsed. |
| Strings.WithoutTrim | app/__init__.py:14 | Stripping only characters of the class keeps the characters outside it. |
| Strings.RunEnd | scripts/extract_reports.py:34 | A greedy `\s*` / `[0-9/]+` run stops at the first character outside the class, or at the end of the text. |
| Strings.StrLess | app/__init__.py:29 | Python's `<` on `str`: lexicographic by code point, a proper prefix before the longer string. Its properties are `Strings.StrLessIrreflexive`, `Strings.StrLessTransitive` and `Strings.StrLessTotal`. |
| Strings.StrLessIrreflexive | app/__init__.py:29 | No string is below itself. |
| Strings.StrLessTransitive | app/__init__.py:29 | `a < b` and `b < c` give `a < c`. |
| Strings.StrLessTotal | app/__init__.py:29 | Of two different strings, one is below the other. |
| App.Slugify | app/__init__.py:13-14 | The slug has only `a-z`, `0-9` and single dashes, with no dash at either end. Its letters and digits are exactly those of the lower-cased value, in order. |
| App.SlugifyJoin | app/__init__.py:13-14 | Each maximal run of non-slug characters between two slug characters becomes exactly one dash: `slugify(u + w + v) == slugify(u) + "-" + slugify(v)`. |
| App.SlugifyFixesSlugs | app/__init__.py:13-14 | Every slug is its own slug. |
| App.SlugifyIdempotent | app/__init__.py:13-14 | `slugify(slugify(s)) == slugify(s)`. |
| App.SlugifyEmpty | app/__init__.py:13-14 | The slug is empty iff the value has no ASCII letter or digit. |
| App.AssignSlugs | app/__init__.py:20-21 | The load loop replaces each record's slug with the one computed from its own municipality. No other field and no other record changes. |
| App.LoadReports | app/__init__.py:17-22 | After loading, each record is the parsed one with `slug == slugify(municipality)`. |
| Seqs.FilterMap | app/__init__.py:29 | The truthy values picked from the records are exactly the values some record holds. |
| Seqs.InsertSortedSpec | app/__init__.py:29 | Inserting into a strictly ascending list keeps it strictly ascending and adds exactly that one value. |
| Seqs.SortedSet | app/__init__.py:29 | `sorted(set(values))` by repeated sorted insertion. Specified by `Seqs.SortedSetSpec`. |
| Seqs.SortedSetSpec | app/__init__.py:29 | `sorted(set(values))` is strictly ascending and holds exactly the values. |
| App.StrLessIsStrictTotalOrder | app/__init__.py:29 | Python's string `<` is a strict total order. |
| App.CountyFacet | app/__init__.py:29 | The county list is strictly ascending. A county is in it iff it is non-empty and some record holds it. |
| App.YearFacet | app/__init__.py:30 | The year list is strictly ascending. A year is in it iff it is non-zero and some record holds it. |
| App.MunicipalityFacet | app/__init__.py:80 | The municipality list is strictly ascending. A name is in it iff it is non-empty and some record holds it. |
| App.ParseInt | app/__init__.py:45 | `int(year)`: whitespace that `int` ignores (ASCII `\t`..`\r` and space, and non-ASCII `str.isspace` characters) around an optional sign and digits. More than 4300 digits raise `ValueError`, CPython's default `int_max_str_digits` limit. Specified by `App.ParseIntRoundTrip`, `App.ParseIntRejectsSeparator` and `App.FilteredReportsBadYear`. |
| App.ParseTrimmed | app/__init__.py:45 | After stripping: one optional sign, then an unsigned literal, negated for `-`. |
| App.ParseUnsigned | app/__init__.py:45 | An unsigned literal is read only when it is digits with single underscores between them and has at most 4300 digits; otherwise `ValueError`. |
| App.DigitCountOfDigits | app/__init__.py:45 | The digit count of a string of plain digits is its length, so the 4300-digit limit applies to the decimal form's length. |
| App.DigitChar | app/__init__.py:45 | Each digit value has a decimal digit character that reads back as that value. |
| App.DecimalDigits | app/__init__.py:45 | The decimal form of a natural number is a valid digit string whose value is that number. |
| App.ParseUnsignedDecimal | app/__init__.py:45 | The decimal form of `n` reads back as `n` when it has at most 4300 digits, and is rejected otherwise. |
| App.ParseDecimal | app/__init__.py:45 | `int(str(n)) == n` for a natural number of at most 4300 digits; `ValueError` for a longer one. |
| App.ParseNegativeDecimal | app/__init__.py:45 | `int("-" + str(n)) == -n` when `n` has at most 4300 digits; `ValueError` for a longer one. |
| App.ParseIntRoundTrip | app/__init__.py:45 | `int(str(n)) == n` for every integer of at most 4300 digits; `ValueError` beyond. |
| App.DecimalLength | app/__init__.py:45 | The decimal form of `n` has at most `d` digits iff `n < 10^d`, so the round trip holds exactly for `abs(n) < 10^4300`. |
| App.ParseIntRejectsSeparator | app/__init__.py:45 | A string that starts with U+001C..U+001F is rejected: `int` does not take those as whitespace. |
| Seqs.Filter | app/__init__.py:40 | A comprehension never yields more records than it scans. |
| Seqs.FilterMembers | app/__init__.py:40 | A record is in the comprehension's result iff it is in the input and meets the condition. |
| Seqs.FilterConcat | app/__init__.py:40 | A comprehension over two concatenated lists is the concatenation of the two comprehensions. |
| Seqs.FilterIsSubsequence | app/__init__.py:40 | A comprehension's result is a subsequence of its input, in input order. |
| App.FilteredReports | app/__init__.py:32-54 | `filtered_reports`: the four optional narrowing steps in source order. Specified by `App.FilteredReportsMatch`, `App.FilteredReportsSingle` and the rows below. |
| App.NarrowConcat | app/__init__.py:39-53 | Each optional narrowing step distributes over concatenation. |
| App.FilteredReportsConcat | app/__init__.py:32-54 | The filter of two concatenated datasets is the concatenation of their filters. |
| App.FilteredReportsSingle | app/__init__.py:39-53 | A single record is kept iff it meets every active criterion. Active criteria: case-insensitive county and municipality equality (never matching a missing or empty field), report year equal to the parsed year, and accredited exactly true for true/yes and exactly false for false/no. |
| App.FilteredReportsMatch | app/__init__.py:32-54 | The successive filters equal one filter on the conjunction of the active criteria, so the result keeps dataset order. |
| App.FilteredReportsNoCriteria | app/__init__.py:33-54 | With every parameter absent or empty, the whole dataset is returned. |
| App.AccreditedChoice | app/__init__.py:50-53 | The accredited value asked for: true for "true"/"yes", false for "false"/"no", in any case, and nothing otherwise. Its use is stated by `App.FilteredReportsSingle` and `App.FilteredReportsUnknownAccredited`. |
| App.FilteredReportsBadYear | app/__init__.py:43-48 | A year that `int` rejects, including one over the 4300-digit limit, leaves the result as if no year were given. |
| App.FilteredReportsUnknownAccredited | app/__init__.py:49-53 | An accredited value other than true/yes/false/no, in any case, leaves the result as if none were given. |
| App.MunicipalityEntries | app/__init__.py:101-103 | Not found iff no record has the slug. Otherwise the entries are exactly the records with that slug, as a subsequence of the dataset. |
| App.LoadedReportIsFound | app/__init__.py:62-64 | After loading, every record is found under the slug of its own municipality. |
| App.YearKey | app/__init__.py:75 | The sort key `e.get("report_year", 0)` with a missing or null year read as 0, the intended reading (see Findings). Its use is stated by `App.SortByYearSpec`. |
| App.InsertByYearCount | app/__init__.py:75 | Inserting a record into the sorted prefix adds exactly that record. |
| App.InsertByYearAtMost | app/__init__.py:75 | Inserting keeps an upper bound on the year keys. |
| App.InsertByYearOrdered | app/__init__.py:75 | Inserting into a year-ordered list keeps it ordered. |
| App.InsertByYearStable | app/__init__.py:75 | Inserting after every record with a key no larger than its own keeps same-year records in their original order. |
| App.SortByYear | app/__init__.py:75 | `sorted(entries, key=report_year)` as an insertion sort. Specified by `App.SortByYearSpec`. |
| App.SortByYearSpec | app/__init__.py:75 | The sort by `report_year` (missing as 0) is ordered, is a permutation, and is stable: the records of each year keep dataset order. |
| App.MunicipalityPageAsWritten | app/__init__.py:61-76 | As written, the page fails iff the slug has at least two records and one of them has a null report year. |
| App.MunicipalityPage | app/__init__.py:61-76 | The page never fails, and is not found iff no record has the slug. Otherwise: the name is the first matching record's municipality, and the entries are the matching records, sorted by year and stable. |
| App.NullYearBreaksPage | app/__init__.py:75 | Two records of one municipality with null years: the page as written fails, while the intended page lists both. |
| ExtractReports.LeftmostMatch | scripts/extract_reports.py:34 | The scan returns a start position inside the searched range. |
| ExtractReports.LeftmostMatchSpec | scripts/extract_reports.py:34 | The position found holds a match, and no earlier position does. None iff no position in the range matches. |
| ExtractReports.Search | scripts/extract_reports.py:34 | `re.search`: the match at the leftmost position. Specified by `ExtractReports.SearchSpec`. |
| ExtractReports.SearchSpec | scripts/extract_reports.py:34 | `re.search` returns what the pattern yields at the leftmost position where it matches. It returns None iff it matches nowhere. |
| ExtractReports.SearchFirst | scripts/extract_reports.py:34 | If the pattern matches at `i` and nowhere before, `re.search` yields the match at `i`. |
| ExtractReports.MarkerFrom | scripts/extract_reports.py:34 | The lazy `(.+?)` stops at a position at or after where it starts. |
| ExtractReports.MarkerFromSpec | scripts/extract_reports.py:34 | The lazy group ends at the first `A C C R E D I T A T I O N` on the same line. There is none iff no such marker follows before the line ends. |
| ExtractReports.MarkerFromFound | scripts/extract_reports.py:34 | A marker found lies on the line and is the first marker from the start. |
| ExtractReports.MarkerFromMissing | scripts/extract_reports.py:34 | When none is found, no marker starts anywhere up to the end of the line. |
| ExtractReports.MarkerFromFinds | scripts/extract_reports.py:34 | A marker later on the same line is always found, at or before its position. |
| ExtractReports.GroupFrom | scripts/extract_reports.py:34 | The group after `County:`, with `\s*` and `(.+?)` backtracking resolved. Specified by `ExtractReports.GroupFromShape`, `ExtractReports.GroupFromFinds` and `ExtractReports.GroupFromIs`. |
| ExtractReports.GroupFromShape | scripts/extract_reports.py:34 | After `County:`, the captured group is a non-empty slice with no newline, directly followed by the marker, reached after a whitespace run. It is the match the engine picks: `\s*` took as much whitespace as still lets a group and a marker follow, and the group holds no earlier marker. |
| ExtractReports.GroupFromFinds | scripts/extract_reports.py:34 | Conversely: whenever whitespace, a one-line group and the marker follow `County:`, a group is captured. |
| ExtractReports.GroupShapeUnique | scripts/extract_reports.py:34 | The engine's choice is unique: at most one whitespace end and group end have that shape. |
| ExtractReports.GroupFromIs | scripts/extract_reports.py:34 | Conversely: a group of that shape is exactly what is captured. |
| ExtractReports.NoGroupAfterRun | scripts/extract_reports.py:34 | A group cannot start after the greedy whitespace run ends, since `\s*` matches only whitespace. |
| ExtractReports.GroupAtRunFinds | scripts/extract_reports.py:34 | A group directly after the whole whitespace run means a marker follows on that line. |
| ExtractReports.GroupAtRunShape | scripts/extract_reports.py:34 | The first marker after the whole whitespace run gives the engine's match, with `\s*` taking all the whitespace. |
| ExtractReports.GroupBeforeRunEndShape | scripts/extract_reports.py:34 | With no marker after the run, `\s*` gives back one whitespace character, which becomes the group when the marker follows it. |
| ExtractReports.HeaderGroupAtShape | scripts/extract_reports.py:34 | A header match at `i` has both labels, their whitespace runs, and a non-empty group with no newline, directly followed by the marker. |
| ExtractReports.HeaderGroupAtFinds | scripts/extract_reports.py:34 | Whenever the whole pattern can match at `i`, the scanner captures a group there. |
| ExtractReports.LabelsEnd | scripts/extract_reports.py:34 | The `Municipality:\s*County:` prefix: present only where `Municipality:` starts, and ending within the text. |
| ExtractReports.HeaderGroupAtCandidate | scripts/extract_reports.py:34 | A header match at `i` has a whitespace end and group end that fit the pattern. |
| ExtractReports.HeaderGroupAtIs | scripts/extract_reports.py:34 | A group of the engine's shape at `i` is exactly what the scanner captures there. |
| ExtractReports.HeaderGroup | scripts/extract_reports.py:34 | The header group `re.search` captures. Specified by `ExtractReports.HeaderGroupSpec`, `ExtractReports.HeaderGroupFinds` and `ExtractReports.HeaderGroupIs`. |
| ExtractReports.HeaderGroupSpec | scripts/extract_reports.py:34 | The header group is that of the leftmost matching position. There is none iff no position matches. |
| ExtractReports.HeaderGroupLeftmost | scripts/extract_reports.py:34 | The header group is the group at the leftmost position where the pattern matches, and there is none iff it matches nowhere. |
| ExtractReports.HeaderGroupFinds | scripts/extract_reports.py:34 | Whenever the pattern can match anywhere in the text, `re.search` captures a group. |
| ExtractReports.HeaderGroupIs | scripts/extract_reports.py:34 | A group of the engine's shape at `i`, with no possible match before `i`, is exactly what `re.search` captures. |
| ExtractReports.Segment | scripts/extract_reports.py:38 | `re.sub(r"\s+", " ", group).strip()`. Specified by `ExtractReports.SegmentSpec`, `ExtractReports.SegmentJoin` and `ExtractReports.SegmentOfWord`. |
| ExtractReports.SegmentSpec | scripts/extract_reports.py:38 | The segment has no leading or trailing whitespace and only single spaces inside. It keeps every non-whitespace character of the group, in order. |
| ExtractReports.SegmentJoin | scripts/extract_reports.py:38 | Each maximal whitespace run between two words becomes exactly one space: `segment(u + w + v) == segment(u) + " " + segment(v)`. |
| ExtractReports.SegmentOfWord | scripts/extract_reports.py:38 | A group without whitespace is its own segment. |
| ExtractReports.Counties | scripts/extract_reports.py:8-30 | The 21 New Jersey counties, in the source's order, which decides which county wins when two could end a segment. |
| ExtractReports.FirstEndingIndex | scripts/extract_reports.py:39-43 | The county loop returns an index into the list, or nothing. |
| ExtractReports.FirstEndingIndexSpec | scripts/extract_reports.py:39-43 | The county found is the first in list order whose lower-cased name ends the lower-cased segment. None iff no county does. |
| ExtractReports.MunicipalityPart | scripts/extract_reports.py:42 | Cutting the county off a collapsed segment and stripping the rest leaves a name without edge whitespace or doubled spaces. |
| ExtractReports.SplitSegment | scripts/extract_reports.py:39-43 | Municipality and county are set together or not at all. |
| ExtractReports.SplitSegmentSpec | scripts/extract_reports.py:39-43 | The county is the first list entry ending the segment, ignoring case. The municipality is the segment with that many characters cut off, then stripped. With no such entry both are None. A collapsed segment gives a well-spaced municipality. |
| ExtractReports.ExtractHeader | scripts/extract_reports.py:33-44 | Municipality and county are both set or both None. Both are None when the header pattern does not match. |
| ExtractReports.ExtractHeaderSpec | scripts/extract_reports.py:35-44 | A county found is one of the 21 counties. The municipality never has edge whitespace or two spaces in a row. |
| ExtractReports.UpdatedAtSpec | scripts/extract_reports.py:48 | A date read at `i` is a non-empty run of digits and `/`. It follows `Updated:` and optional whitespace, and is maximal. |
| ExtractReports.UpdatedAtMatch | scripts/extract_reports.py:48 | A date read at `i` is a match of `Updated:\s*([0-9/]+)` there. |
| ExtractReports.UpdatedAtFinds | scripts/extract_reports.py:48 | Conversely: wherever `Updated:`, whitespace and at least one date character follow, the date is read, as the maximal run of date characters. |
| ExtractReports.ExtractUpdated | scripts/extract_reports.py:47-49 | `extract_updated`. Specified by `ExtractReports.ExtractUpdatedSpec`, `ExtractReports.ExtractUpdatedIs` and `ExtractReports.ExtractUpdatedNone`. |
| ExtractReports.ExtractUpdatedSpec | scripts/extract_reports.py:47-49 | `extract_updated` returns the date of the leftmost `Updated:` match, and None iff there is none. |
| ExtractReports.ExtractUpdatedIs | scripts/extract_reports.py:47-49 | The leftmost match of `Updated:\s*([0-9/]+)` gives exactly the maximal date run after it. |
| ExtractReports.ExtractUpdatedNone | scripts/extract_reports.py:47-49 | `extract_updated` returns None iff the pattern matches nowhere in the text. |
| ExtractReports.YearTokenValue | scripts/extract_reports.py:53 | A `20dd` token reads as a year in 2000..2099. |
| ExtractReports.PlanYearAtMatch | scripts/extract_reports.py:53 | A year read at `i` is a match of `(20\d{2})\s+Most Recent Plan Expires` there. |
| ExtractReports.PlanYearAtFinds | scripts/extract_reports.py:53 | Conversely: wherever a `20dd` token, at least one whitespace character and the phrase follow, the token's year is read. |
| ExtractReports.ExtractPlanYear | scripts/extract_reports.py:52-59 | `extract_plan_year`. Specified by `ExtractReports.ExtractPlanYearSpec`, `ExtractReports.ExtractPlanYearIs` and `ExtractReports.ExtractPlanYearNone`. |
| ExtractReports.ExtractPlanYearSpec | scripts/extract_reports.py:52-59 | The plan year is in 2000..2099. It is the token at the leftmost position followed by whitespace and `Most Recent Plan Expires`, and None iff there is none. |
| ExtractReports.ExtractPlanYearIs | scripts/extract_reports.py:52-59 | The leftmost match gives exactly its token's year. |
| ExtractReports.ExtractPlanYearNone | scripts/extract_reports.py:52-59 | `extract_plan_year` returns None iff the pattern matches nowhere in the text. |
| ExtractReports.ReportYear | scripts/extract_reports.py:72-74 | The report year read from the file stem. Specified by `ExtractReports.ReportYearSpec`. |
| ExtractReports.ReportYearSpec | scripts/extract_reports.py:72-74 | The report year is the value of the first `20dd` token of the file stem, in 2000..2099. It is None iff the stem has no such token. |
| ExtractReports.LabelEnd | scripts/extract_reports.py:63 | The `NJUCF<ws>Accredited:` label ends after it starts and within the text. |
| ExtractReports.FirstAnswerSpec | scripts/extract_reports.py:63 | The lazy `[\s\S]*?(Yes\|No)` takes the first "yes" or "no" from the label's end, in any case, even inside a longer word. None iff there is none. |
| ExtractReports.LabelTailHasNoN | scripts/extract_reports.py:63 | No character of a label after its first is an `n` in any case. |
| ExtractReports.LabelStartsWithN | scripts/extract_reports.py:63 | A label starts with an `n` in any case. |
| ExtractReports.NoLabelInside | scripts/extract_reports.py:63 | No second label starts inside a label. |
| ExtractReports.ExtractAccredited | scripts/extract_reports.py:62-66 | `extract_accredited`. Specified by `ExtractReports.AccreditedNeedsLabel` and `ExtractReports.AccreditedReadsFirstLabel`. |
| ExtractReports.AccreditedNeedsLabel | scripts/extract_reports.py:62-66 | Without a label, `extract_accredited` returns None. |
| ExtractReports.AccreditedReadsFirstLabel | scripts/extract_reports.py:62-66 | With labels, `extract_accredited` returns the first answer after the first label's end: true iff it is "yes", and None when no answer follows. |
| ExtractReports.PageReport | scripts/extract_reports.py:78-98 | A page yields a record iff its header has a non-empty municipality. The record has a county, page `index + 1`, the file's path and the stem's report year. |
| ExtractReports.PageReportSpec | scripts/extract_reports.py:84-98 | A page's record has a county from the list and a well-spaced municipality. |
| ExtractReports.KeptReports | scripts/extract_reports.py:84-98 | The records the `continue`/`append` loop keeps. Specified by `ExtractReports.KeptReportsSpec`, `ExtractReports.KeptReportsAscending` and `ExtractReports.KeptReportsComplete`. |
| ExtractReports.KeptReportsAppend | scripts/extract_reports.py:84-98 | One more page appends its record, or nothing when it is dropped. |
| ExtractReports.KeptReportsFromCandidates | scripts/extract_reports.py:76-99 | Each kept record is the candidate of the page its number names. |
| ExtractReports.KeptReportsAscending | scripts/extract_reports.py:77-96 | Kept records are in strictly ascending page order. |
| ExtractReports.KeptReportsComplete | scripts/extract_reports.py:84-98 | Every page that yields a record has it kept. |
| ExtractReports.KeptReportsSpec | scripts/extract_reports.py:76-99 | Kept records are exactly the records of the pages that yield one, in page order. |
| ExtractReports.Candidates | scripts/extract_reports.py:77 | One candidate per page read. |
| ExtractReports.CandidatesAt | scripts/extract_reports.py:77 | The candidate at position `i` is what page `i` yields. |
| ExtractReports.CandidatesOf | scripts/extract_reports.py:94-96 | A reader that numbers and stamps each record gives candidates numbered by position, sharing one path and year. |
| ExtractReports.PageReaderStamps | scripts/extract_reports.py:94-96 | Each page's record is numbered by its page and stamped with the file's path and report year. |
| ExtractReports.PageReports | scripts/extract_reports.py:77-96 | The candidates of the first `n` pages: `n` of them, numbered by position, all with the file's path and report year. |
| ExtractReports.PageReportsAt | scripts/extract_reports.py:77-82 | The candidate at position `i` is page `i`'s record. |
| ExtractReports.PdfReports | scripts/extract_reports.py:69-99 | The records `parse_pdf` returns. Specified by `ExtractReports.PdfReportsSpec` and `ExtractReports.PdfReportsShareFile`; the loop `ExtractReports.ParsePdf` is proved equal to it. |
| ExtractReports.PdfReportsSpec | scripts/extract_reports.py:76-99 | `parse_pdf` returns one record per page whose municipality is non-empty, numbered `index + 1`, in page order, with none missing. |
| ExtractReports.PdfReportsShareFile | scripts/extract_reports.py:71-95 | Every record of a file has that file's path and the report year of its name. |
| ExtractReports.ParsePdf | scripts/extract_reports.py:69-99 | The page loop with its `continue` returns exactly the file's records. |
| ExtractReports.AllReports | scripts/extract_reports.py:104-108 | The concatenated records of all files. Specified by `ExtractReports.AllReportsFromFiles`; the loop `ExtractReports.ExtractAll` is proved equal to it. |
| ExtractReports.AllReportsFromFiles | scripts/extract_reports.py:105-108 | Every record of the dataset comes from one file, with that file's path and report year. |
| ExtractReports.ExtractAll | scripts/extract_reports.py:104-108 | The `extend` loop returns the records of the files in the given order. |

## Left out

- The Flask application is not part of this model: app construction, the routes, `render_template`, `jsonify`, `abort` and `app.run`. The route handlers appear only as the values they compute; a 404 is `None` or `NotFound`.
- The `/pdf/<filename>` route is left out. It checks for a file and sends it, which is file-system I/O.
- JSON reading and writing, `glob`, `mkdir` and `print` are left out (I/O). The dataset and the files are inputs. `ExtractAll` takes the files in the order given, so the sorting of the globbed paths is not modelled.
- `PdfReader` and `page.extract_text()` are a foreign library. Each page is given as its text, so the `or ""` for a page without text is not modelled.
- The `pdf_url` and `municipality_url` fields added by the handlers are left out. They are presentation strings built with `Path.name`. The page and the lookup return the records themselves.
- `str.lower()` and `re.IGNORECASE` are ASCII only. Python also folds non-ASCII letters.
- `\d` and `int()` accept ASCII digits only. Python also accepts other Unicode decimal digits.
- `int()` is modelled for surrounding whitespace, one sign, and digits with single underscores between them. Other accepted forms are left out.
- `App.IsIntSpace` takes `str.isspace` for the non-ASCII whitespace `int()` ignores. CPython converts those characters to spaces before it strips, which comes to the same result.
- `ExtractReports.ExtractPlanYear` has no `ValueError` path. The source's `except` branch cannot be taken for ASCII digits.
- `request.args` is a `map` from name to one value. A parameter given several times is not modelled, and an absent parameter reads as the empty string, which the source treats the same way.
- JSON's dynamic typing is not modelled. Each field has the type the extractor writes, so a dataset edited by hand with other types is outside the model.
- Python's general regex engine and backtracking are not modelled. Each pattern has a scanner written for it, with its backtracking cases worked out by hand.

## Findings

| source | as written | input that shows it | evidently intended | confidence | as-written member | corrected member |
|---|---|---|---|---|---|---|
| app/__init__.py:75 | `e.get("report_year", 0)` returns null when the key holds null, which the extractor writes for a file name without a `20dd` token. `sorted` cannot compare null, so the municipality page raises `TypeError`. | two records with slug `hope` and a null `report_year` | a missing year sorts as 0, so the page lists every record | not executed | App.MunicipalityPageAsWritten, App.NullYearBreaksPage | App.MunicipalityPage |
