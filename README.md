# Delhi High Court case-status lookup: the row parser and the response decision

The service takes a case type, a case number and a year, fills in the
case-status form on the Delhi High Court website in a headless browser, and
turns the results table into a list of six-field records. This project models
the part of that work that is pure computation, and proves properties of it:

- **The row normaliser** of `fetch_case` (`app.py` lines 46-67). Each row's
  cell texts are stripped. A row with fewer than four cells is skipped. From
  a longer row the loop keeps:
  - the serial number;
  - the case information, with every `Orders` removed and stripped again;
  - the parties;
  - three fields searched for in the fourth cell with case-insensitive
    regular expressions: the next date, the last date and the court number.
  A field the search does not find is the empty string.
- **The status decision** of `case_search` (`app.py` lines 77-88):
  - 400 when a field is missing or empty;
  - 404 when `fetch_case` returns an error dictionary or an empty list;
  - 500 when it raises;
  - otherwise 200 with the records.

Modules, one file each:

| file | module | what it holds |
|---|---|---|
| `wrappers.dfy` | `Wrappers` | `Option` |
| `text.dfy` | `PyText` | Python's whitespace class (shared by `str.strip()` and the regex `\s`), `str.strip()`, and `str.replace(w, "")` |
| `patterns.dfy` | `CasePatterns` | the three regular expressions, written as scanners, and `re.search`'s leftmost match |
| `case_table.dfy` | `CaseTable` | `CaseRecord`, the row loop (`ParseTable`, a method with a loop, like the source) and its specification `ParseRows` |
| `case_search.dfy` | `CaseSearch` | the outcomes of the browser session, `fetch_case` after the browser work, and the endpoint's response |

### How the patterns are modelled

Each regular expression has three parts: a label, an optional colon (in the
court-number pattern only), and `\s*` followed by a value class repeated with
`+`.

- Where a match starts, the label must be present (letters compared without
  regard to case).
- Then the colon is taken if the pattern allows one and it is there.
- Then all whitespace is skipped, and at least one value character must
  follow.

Backtracking adds no other match: the characters it would give back are
whitespace or a colon, and neither belongs to a value class. The captured
group is the longest run of value characters. `re.search` takes the leftmost
start position that matches, including the position at the end of the text.

One behaviour follows from this and is kept as the code has it: the pattern
for the court number has no boundary after `NO`. So `COURT NOTICE` yields the
court number `TICE` (`CasePatterns.CourtNoticeReadsAsCourtNo`).

## Model

| member | source | states |
|---|---|---|
| `PyText.Strip` | app.py:50 | the stripped text neither starts nor ends with whitespace |
| `PyText.StripIsInfix` | app.py:50 | stripping only cuts a whitespace-only prefix and a whitespace-only suffix: the result is a contiguous slice of the input with whitespace on both sides of it |
| `PyText.StripUnique` | app.py:50 | conversely, whenever the text splits into whitespace, a middle without outer whitespace, and whitespace, the stripped text is that middle |
| `PyText.StripKeepsStripped` | app.py:54 | a text without outer whitespace is left unchanged by `strip` |
| `PyText.StripIdempotent` | app.py:54 | stripping twice is stripping once, so `parties` is the stripped third cell |
| `PyText.RemoveAll` | app.py:53 | `replace("Orders", "")` never lengthens the cell; what it removes is stated by `RemoveAllIsRemoveEach`, `RemoveFromNoOccurrence` and `RemoveAllIsSinglePass` |
| `PyText.RemoveFrom` | app.py:53 | the replacement never lengthens the text |
| `PyText.RemoveFromNoOccurrence` | app.py:53 | a text in which the removed word never occurs comes back unchanged |
| `PyText.FindFrom` | app.py:53 | the search finds the leftmost occurrence of the word at or after a position, or reports that none exists |
| `PyText.RemoveFromIsRemoveEach` | app.py:53 | the single left-to-right removal equals the find-skip-and-continue definition of `str.replace`, from every position |
| `PyText.RemoveAllIsRemoveEach` | app.py:53 | `replace("Orders", "")` on a whole cell equals the find-skip-and-continue definition |
| `PyText.RemoveAllIsSinglePass` | app.py:53 | the replacement is one pass: `OrOrdersders` becomes `Orders`, because the occurrence formed by the removal is kept |
| `CasePatterns.RunEnd` | app.py:56-58 | the greedy `+`: every character of the run is in the value class, and the run is followed by the end of the text or a character outside the class |
| `CasePatterns.FirstMatch` | app.py:56-58 | a position the search reports is within the text (the end included) and the pattern matches there |
| `CasePatterns.FirstMatchLeftmost` | app.py:56-58 | the reported position is the leftmost match; when nothing is reported, the pattern matches at no position |
| `CasePatterns.Extract` | app.py:56-62 | a field is never longer than the fourth cell; which text it is is stated by `ExtractSpec`, `ExtractLeftmostGreedy`, `ExtractAfterLabel` and `FieldInContext` |
| `CasePatterns.ExtractSpec` | app.py:56-62 | each field is empty or made only of value-class characters, and it is empty exactly when the pattern matches nowhere in the cell |
| `CasePatterns.ExtractLeftmostGreedy` | app.py:56-62 | given the leftmost match, the field is the text right after its label, colon and whitespace, and it cannot be extended by another value character |
| `CasePatterns.ExtractIgnoresCase` | app.py:56-58 | two cells that differ only in letter case give fields that differ only in letter case, and identical dates |
| `CasePatterns.MatchInWindow` | app.py:56-58 | a match at the start of a piece of text, with its value ended inside that piece, stays a match with the same value wherever the piece is placed |
| `CasePatterns.TokenInContext` | app.py:56-62 | a token that starts with the label and whose value is ended inside the token by a non-class character gives the same field whatever text is placed before and after it, other labels included, provided the same label does not start earlier. A value that runs into the following text is not covered: `COURT NO 5` followed by `6` reads `56` |
| `CasePatterns.FieldInContext` | app.py:56-62 | a label head followed by a value that is ended by the end of the cell or by a non-class character gives exactly that value, wherever in the cell it stands, provided the same label does not start earlier |
| `CasePatterns.FieldAtEnd` | app.py:56-62 | a label head followed by a value that ends the cell gives exactly that value, whatever text comes before it, provided the same label does not start earlier |
| `CasePatterns.ExtractAfterLabel` | app.py:56-62 | for a cell that starts with the label, written in any case, then the colon where allowed, then whitespace, then a value ended by the end of the cell or a non-class character: the pattern matches at the start, the value starts right after the head and the run ends right after the value, and the field is exactly that value |
| `CasePatterns.NextDateExample` | app.py:56 | `NEXT DATE: 12/01/2025` gives the next date `12/01/2025` |
| `CasePatterns.CourtNoColonOptional` | app.py:58 | `COURT NO 5` and `court no: 5` both give the court number `5` |
| `CasePatterns.CourtNoticeReadsAsCourtNo` | app.py:58 | `COURT NOTICE` gives the court number `TICE`, because nothing has to follow the label |
| `CaseTable.Columns` | app.py:50 | one stripped text per cell |
| `CaseTable.ColumnsAt` | app.py:50 | column `k` is cell `k` stripped |
| `CaseTable.ParseRow` | app.py:53-64 | the case information and the parties have no outer whitespace, and each of the three searched fields is no longer than the fourth cell; `RecordFields` states the cells each field comes from |
| `CaseTable.ParseRows` | app.py:48-64 | the specification of the row loop: never more records than rows; `ParseRowsByIndex`, `ParseRowsEmpty`, `ParseRowsAppend` and `ShortRowIgnored` state which records it holds |
| `CaseTable.ParseRowsSnoc` | app.py:49-64 | one more row adds that row's record, if it has at least four cells, at the end and changes nothing before it |
| `CaseTable.ParseTable` | app.py:48-64 | the loop that appends records builds exactly the specified list of records |
| `CaseTable.KeptIndices` | app.py:52 | the kept positions are exactly the rows with at least four cells, in increasing order |
| `CaseTable.ParseRowsByIndex` | app.py:48-64 | there is one record per row with at least four cells, and record `k` comes from the `k`-th such row, in table order |
| `CaseTable.ParseRowsEmpty` | app.py:52 | the list is empty exactly when no row has four cells |
| `CaseTable.ParseRowsAppend` | app.py:49-64 | parsing two stretches of rows one after the other gives the two lists one after the other |
| `CaseTable.ShortRowIgnored` | app.py:52 | a row with fewer than four cells contributes nothing, wherever it stands |
| `CaseTable.RecordFields` | app.py:50-54 | the serial and the parties are the first and third cells stripped, and the case information has no outer whitespace |
| `CaseSearch.FetchResult` | app.py:22-67 | the specification of `fetch_case` after the browser work: a list exactly when the table loaded, and every error dictionary carries one of the two timeout messages; `FetchCase`, `SearchOverLoadedTable` and `SearchWhenSessionFails` state the rest |
| `CaseSearch.FetchCase` | app.py:22-67 | `fetch_case` after the browser work: each timeout gives its error dictionary, any other browser exception propagates, and a loaded table gives the records of the row loop |
| `CaseSearch.CaseSearchResponse` | app.py:77-88 | the status is 200, 400, 404 or 500. It is 400 exactly when a field is missing or empty. Otherwise it is 404 exactly for an error dictionary or an empty list, 500 exactly for an exception, and 200 exactly for a non-empty list. A 200 carries exactly the records; every other status carries its fixed message |
| `CaseSearch.MissingParameterNeverFetches` | app.py:77-78 | with a field missing, the answer does not depend on what the fetch would do |
| `CaseSearch.SearchOverLoadedTable` | app.py:80-86 | when the results table loads, the answer is 404 exactly when no row has four cells, and otherwise 200 with the records of the row loop |
| `CaseSearch.SearchWhenSessionFails` | app.py:80-88 | when the session ends without a table, the body is `Data not found`: 500 for a browser exception, and 404 for the captcha timeout (app.py:24) or the table timeout (app.py:42) |

## Left out

- The browser session is not modelled: launching Chromium, opening the page,
  filling the form, copying the captcha, clicking and waiting. How the session
  ends is an input, `CaseSearch.PageOutcome`. The timeouts therefore appear
  only as the outcomes they lead to. The 60 s page-load timeout (app.py:14) is
  not caught inside `fetch_case`, so it counts as `BrowserFailure` and gives
  500. A loaded table is given
  by each row's cell texts, as `inner_text()` returns them.
- `browser.close()` is not modelled, because it has no effect on any value.
- Flask, CORS and `jsonify` are not modelled. A response is a status and a
  body value.
- A request body that is not a JSON object is not modelled. It makes
  `data.get` fail before the `try`, and the framework answers that error
  itself.
- JSON parameters that are not strings are not modelled. Each field is absent
  or a string, and only absence and the empty string are falsy.
- Only ASCII is modelled. Python's `\s`, `\d`, `strip()` and `IGNORECASE` also
  accept non-ASCII whitespace and digits, and case folds such as `ſ` for `s`
  or the Kelvin sign for `k`.
- No general regular-expression engine is modelled. Each of the three fixed
  patterns is written as a scanner that gives the same matches.
- A record is a datatype with six named fields, rather than the six-element
  list the source appends. The order of the fields is the same.
- `app.py` neither stores records nor lists earlier searches, so neither is
  modelled.
