# Borrower readiness filter for Intent to Proceed processing

This project models the deterministic core of the ITP-Princeton agent: the
tool `filter_borrowers_ready_for_itp`. The tool reads the borrower table that
an earlier extraction step stored in the agent's run state. It finds the
borrowers whose rows carry a document date and both eDisclosure dates, and
returns a text report of them.

The model follows the tool step by step:

- **Choosing the CSV text** (`ItpFilter`). The stored file
  `/borrower_table.csv` wins when it has a `content` line list; the lines are
  joined with newlines. Otherwise the `table_csv` value is used. With neither,
  or with empty text, the tool returns a fixed "no data" error.
- **Splitting the text** (`Text`). The text is stripped and split at `\n`.
  Fewer than two lines gives the fixed "empty or malformed" error, so a
  table with only a header line gives that error (itp_agent.py:65-67,
  `ItpFilter.MalformedIff`). A header followed only by blank lines gives
  that error too: the strip removes trailing blank lines, so the last of two
  or more lines is never blank (`ItpFilter.BlankDataLinesMalformed`).
- **Resolving the header** (`Header`). The header is split at bare commas and
  each name is stripped. "Borrower Name", "Loan Number" and "Document Date R"
  resolve to their first position, or -1 when absent. Every
  "eDisclosure D" position is kept, left to right.
- **Parsing each data line** (`Csv`). `next(csv.reader([line]))` is modelled
  as the reader's state machine for the default dialect. A quote opens a
  quoted field only at the start of a field, and a doubled quote inside it
  stands for one quote. Text after a closing quote joins the field. A
  carriage return or line feed outside quotes ends the record, and any other
  character after it is an error. A quoted field still open at the end of
  the line is kept. A field longer than 131072 characters is an error.
  Either error makes the tool skip the line.
- **Classifying lines** (`Readiness`). A data line is skipped when it is
  blank, does not parse, or has no more fields than the largest
  single-valued column position. Otherwise it is ready when its stripped
  document date is not a sentinel (`""`, `"="`, `","`) and it records exactly
  two eDisclosure entries, both dated. A disclosure position past the end of
  the row records nothing.
- **Collecting and rendering** (`Readiness`, `Report`). Ready borrowers are
  collected in line order. An empty list gives the fixed "none ready"
  message. Otherwise the report is a count line, numbered entries 1..n and a
  closing sentence.

The loops of the tool are Dafny methods proved equal to specification
functions: `Readiness.CollectDisclosureDates` (the per-row disclosure loop),
`Readiness.EvaluateRows` (the loop over data lines), `Report.FormatReady`
(the `+=` loop that builds the report) and
`ItpFilter.FilterBorrowersReadyForItp` (the whole tool). The properties are
lemmas about those functions. `Scenarios` works through the five-column
example table with a quoted borrower name.

The run state is an explicit record: `RunState(files, tableCsv)`. `files`
maps paths to `FileData(content)`, and `content` is the optional list of
lines.

### Where the tool's own texts and its code differ

The model follows the code in each case.

- The tool's doc comment (itp_agent.py:26-28) asks for a date in "at least
  one" eDisclosure column. The code (itp_agent.py:109-117) requires both.
  So do the "none ready" message (itp_agent.py:128-136) and the agent's
  instructions for the tool (itp_agent.py:169-171). The model requires both.
- The comment at itp_agent.py:110 says there should be exactly two
  "eDisclosure D" columns. The code never checks the header for that. A
  position past the end of a row records nothing (itp_agent.py:100-101).
  So with three such columns, a row that ends after the second one is ready
  (`Readiness.ShortRowWithThreeDisclosureColumnsIsReady`). With fewer than
  two such columns, no row is ever ready.

## Model

| member | source | states |
|---|---|---|
| `ItpFilter.FilterBorrowersReadyForItp` | itp_agent.py:44-149 | the tool's result, composed from the row loop and the report loop, is exactly the specification `ToolOutput` of the run state |
| `ItpFilter.CsvContent` | itp_agent.py:45-58 | definition: the stored file's content lines joined by newlines, otherwise `table_csv`, otherwise ""; characterised by `ItpFilter.StoredTablePreferred` |
| `ItpFilter.ToolOutput` | itp_agent.py:60-149 | definition of the tool's result; characterised by `ItpFilter.NoDataIff`, `ItpFilter.MalformedIff`, `ItpFilter.ReportCountsReadyLines` and the scenarios, and implemented by `ItpFilter.FilterBorrowersReadyForItp` |
| `ItpFilter.StoredTablePreferred` | itp_agent.py:49-58 | with a stored `/borrower_table.csv` content list, the CSV text is those lines joined by newlines, and `table_csv` does not affect the result |
| `ItpFilter.NoDataIff` | itp_agent.py:60-62 | the "no borrower table data" error is returned if and only if the chosen CSV text is empty |
| `ItpFilter.MalformedIff` | itp_agent.py:65-67 | with CSV text present, the "empty or malformed" error is returned if and only if the stripped text has fewer than two newline-separated lines |
| `ItpFilter.OutputsDistinct` | itp_agent.py:60-67 | the two error messages differ from each other and from every rendered report |
| `ItpFilter.LastTableLineNotBlank` | itp_agent.py:65 | when the stripped text splits into two or more lines, the last line does not strip to the empty text |
| `ItpFilter.BlankDataLinesMalformed` | itp_agent.py:65-67 | a non-empty table whose lines after the header are all blank is answered with the "empty or malformed" error |
| `ItpFilter.FewerThanTwoDisclosureHeadersNoneReady` | itp_agent.py:109-136 | with fewer than two "eDisclosure D" headers the result is always the "none ready" message |
| `ItpFilter.ReportCountsReadyLines` | itp_agent.py:128-139 | the result is the "none ready" message when no data line is ready; otherwise the count it announces equals the number of ready data lines |
| `Text.TrimLeftSpec` | itp_agent.py:82 | left stripping removes exactly the longest prefix of droppable characters |
| `Text.TrimRightSpec` | itp_agent.py:82 | right stripping removes exactly the longest suffix of droppable characters |
| `Text.Trim` | itp_agent.py:94 | definition of `s.strip(chars)`: right trim of the left trim; characterised by `Text.TrimLeftSpec`, `Text.TrimRightSpec`, `Text.TrimEmptyIff` and `Text.TrimIdempotent` |
| `Text.Strip` | itp_agent.py:82 | definition of `s.strip()` over six whitespace characters (see "## Left out"); characterised by the same lemmas |
| `Text.TrimEmptyIff` | itp_agent.py:82 | a line strips to "" if and only if every character is whitespace, which is the blank-line test |
| `Text.TrimIdempotent` | itp_agent.py:69 | stripping twice equals stripping once |
| `Text.Split` | itp_agent.py:65 | splitting gives at least one piece and no piece contains the separator |
| `Text.JoinSplit` | itp_agent.py:65 | joining the pieces of a split with the separator gives back the original text |
| `Text.Join` | itp_agent.py:53 | definition of `sep.join(parts)`; characterised by `Text.JoinSplit` and `Text.SplitJoin` |
| `Text.SplitJoin` | itp_agent.py:69 | splitting the join of separator-free pieces gives back the pieces |
| `Text.NatToString` | itp_agent.py:139 | the rendered count is non-empty, all decimal digits, with no leading zero |
| `Text.NatToStringRoundTrip` | itp_agent.py:139 | reading the rendered count back as a decimal number gives the count |
| `Header.IndexOf` | itp_agent.py:72-74 | the result is -1 exactly when the name is absent; otherwise it is a position holding the name with no earlier occurrence |
| `Header.AllIndices` | itp_agent.py:75 | the positions are strictly increasing, each holds the name, and every position holding the name is listed |
| `Header.AllIndicesAbsent` | itp_agent.py:75 | a name that does not occur has no positions |
| `Header.AllIndicesExample` | itp_agent.py:75 | the name `A` in the header `A,B,A` resolves to positions [0, 2] |
| `Header.ResolveColumnsSound` | itp_agent.py:69-75 | the document-date column is -1 exactly when absent and otherwise names the column; the disclosure positions are increasing and are exactly the "eDisclosure D" positions |
| `Header.HeadersStripped` | itp_agent.py:69 | every resolved header name is already stripped |
| `Header.Headers` | itp_agent.py:69 | definition: the header line split at every comma, each piece stripped; characterised by `Header.HeadersStripped` and `Header.HeadersOfJoin` |
| `Header.HeadersOfJoin` | itp_agent.py:69 | names without commas or surrounding whitespace, joined by commas, come back as the header names |
| `Header.ResolveColumns` | itp_agent.py:72-75 | definition of the four column lookups; characterised by `Header.ResolveColumnsSound`, `Header.IndexOf` and `Header.AllIndices` |
| `Csv.ParseRow` | itp_agent.py:85-89 | definition: the reader's state machine run over the line, then the end of the line and the end of the input; characterised by the `Csv` lemmas below |
| `Csv.FeedAppend` | itp_agent.py:86 | reading two stretches of text one after the other equals reading their concatenation |
| `Csv.FeedEscaped` | itp_agent.py:86 | inside quotes, a doubled quote reads back as one quote, and every other character, commas and line breaks included, reads back as itself |
| `Csv.FeedField` | itp_agent.py:86 | one written field, quoted or plain, reads back as exactly that field, still open for a comma or the end of the line |
| `Csv.ParseMixedRow` | itp_agent.py:86 | fields within the limit, each written quoted or (when it has no comma or line break and does not start with a quote) unquoted, read back as themselves; trailing carriage returns or line feeds change nothing. The requires excludes one line only: a single empty unquoted field, which is the empty line, covered by `Csv.ParseRowLineBreaksOnly` |
| `Csv.ParseRowLineBreaksOnly` | itp_agent.py:86 | a line of only line breaks, the empty line included, has no fields |
| `Csv.BreakInsideLine` | itp_agent.py:85-89 | written fields followed by a line break and then any character that is not a line break make the reader fail, so the line is skipped |
| `Csv.ParseUnclosedQuote` | itp_agent.py:86 | a quoted field that is never closed takes the rest of the line as its text |
| `Csv.ParseTextAfterClosingQuote` | itp_agent.py:86 | plain text right after a closing quote joins the quoted field |
| `Csv.ParseRowOverLimit` | itp_agent.py:85-89 | a line whose plain first field is longer than 131072 characters makes the reader fail |
| `Csv.ParseEncodeRow` | itp_agent.py:86 | for any non-empty list of fields within the limit, quoting every field (commas, quotes and line breaks included) and parsing the line gives the fields back |
| `Csv.ParseRowUnquoted` | itp_agent.py:86 | a line without quotes or line breaks, and with no piece over the limit, parses to its split at every comma; the empty line has no fields |
| `Csv.EscapeUnquoted` | itp_agent.py:86 | a field without quotes is written unchanged inside its quotes |
| `Readiness.DisclosureEntries` | itp_agent.py:99-107 | there is at most one entry per disclosure position, and every dated entry is a non-sentinel value |
| `Readiness.CollectDisclosureDates` | itp_agent.py:99-107 | the loop's entry list equals the specification list for the row and the positions |
| `Readiness.DisclosureEntriesEmptyIff` | itp_agent.py:100-101 | no entry is recorded if and only if every disclosure position lies at or past the end of the row |
| `Readiness.DisclosureEntriesInRange` | itp_agent.py:99-107 | when the row covers every position, there is one entry per position, in header order |
| `Readiness.PresentDates` | itp_agent.py:119 | the dated values are no more than the entries, and each comes from a dated entry |
| `Readiness.PresentDatesOfPair` | itp_agent.py:119 | for two dated entries, the dated values are exactly those two, in order |
| `Readiness.EntriesBothPresent` | itp_agent.py:99-119 | for increasing disclosure positions, two dated entries are recorded if and only if the first two positions lie in the row with non-sentinel cells and any third lies past the row; the dated values are then those two cells in order |
| `Readiness.ClassifyRow` | itp_agent.py:94-125 | definition of the readiness rule on a long-enough row; characterised by `Readiness.ReadyCharacterization` and `Readiness.ClassifyRowWellFormed` |
| `Readiness.EvaluateLine` | itp_agent.py:82-125 | definition of one data line's fate (blank, unparsable, too short, not ready, ready); characterised by `Readiness.SentinelDocumentDateNeverReady`, `Readiness.SkippedLineContributesNothing` and the scenarios |
| `Readiness.ReadyCharacterization` | itp_agent.py:94-125 | a row is ready if and only if its document date is not a sentinel, the first two disclosure positions lie in the row, any third lies past it, and the first two cells are not sentinels; the borrower then carries the name, the loan number, the document date and those two dates in header order |
| `Readiness.ClassifyRowWellFormed` | itp_agent.py:109-125 | a ready borrower has a non-sentinel document date and exactly two non-sentinel disclosure dates |
| `Readiness.SentinelDocumentDateNeverReady` | itp_agent.py:96-117 | a parsed row with a sentinel or absent document date is never ready, whatever its disclosure cells hold |
| `Readiness.ShortRowWithThreeDisclosureColumnsIsReady` | itp_agent.py:100-117 | with three disclosure positions, a row that ends after the second one is ready, because past-the-end positions record nothing |
| `Readiness.EvaluateRows` | itp_agent.py:79-125 | the loop over the data lines returns exactly the specification ready list |
| `Readiness.ReadyList` | itp_agent.py:78-125 | definition of the ready borrowers in line order; characterised by `Readiness.ReadyListSelection`, `Readiness.ReadyListAppend` and `Readiness.ReadyListWellFormed`, and implemented by `Readiness.EvaluateRows` |
| `Readiness.ReadyListAppend` | itp_agent.py:81-92 | data lines are evaluated independently: the ready list of two stretches of lines is the concatenation of their ready lists |
| `Readiness.SkippedLineContributesNothing` | itp_agent.py:81-92 | a blank, unparsable, short or not-ready line can be removed anywhere without changing the ready list |
| `Readiness.ReadyPositions` | itp_agent.py:117-125 | the ready line positions are strictly increasing and each names a ready line |
| `Readiness.ReadyPositionsComplete` | itp_agent.py:117-125 | every ready line's position is listed |
| `Readiness.ReadyListSelection` | itp_agent.py:117-125 | the ready list has one borrower per ready line, in line order, each the borrower of that line, with no reordering or merging |
| `Readiness.ReadyListWellFormed` | itp_agent.py:109-125 | every borrower in the ready list has a dated document and two dated disclosures |
| `Readiness.FewerThanTwoDisclosureColumnsNoneReady` | itp_agent.py:111-115 | with fewer than two disclosure positions the ready list is empty for any lines |
| `Readiness.AbsentDocumentDateNoneReady` | itp_agent.py:96 | without a "Document Date R" column the ready list is empty for any lines |
| `Readiness.BlankLinesNoneReady` | itp_agent.py:82-83 | lines that are all blank give an empty ready list |
| `Report.FormatReady` | itp_agent.py:128-147 | the loop's text equals the specification report of the ready list |
| `Report.Render` | itp_agent.py:128-149 | definition of the report; characterised by `Report.RenderNoneIff`, `Report.RenderFirstChar`, `Report.EntryNumbering` and `Report.AnnouncedCountIsLength`, and implemented by `Report.FormatReady` |
| `Report.EntriesAppend` | itp_agent.py:141-145 | the entries of two consecutive lists are the first list's entries followed by the second's, numbered on from where the first stopped |
| `Report.EntryNumbering` | itp_agent.py:141-145 | the borrower at list position k is printed as entry number k + 1, after the entries of all earlier borrowers |
| `Report.RenderNoneIff` | itp_agent.py:128-136 | the fixed "none ready" message is returned if and only if the ready list is empty |
| `Report.RenderFirstChar` | itp_agent.py:128-139 | a report starts with `*` (the count line) if and only if some borrower is ready, and otherwise with the "none ready" message's `N` |
| `Report.AnnouncedCountIsLength` | itp_agent.py:139-147 | a non-empty report announces exactly the number of ready borrowers and ends with the closing sentence |
| `Scenarios.ExampleColumns` | itp_agent.py:72-75 | the header of the five-column example resolves to name 0, loan 1, document date 2 and disclosures [3, 4] |
| `Scenarios.ExampleHeaders` | itp_agent.py:69 | the header text of the example table splits into its five column names |
| `Scenarios.ExampleLineParses` | itp_agent.py:86 | the example line with the quoted name `"Doe, Jane"` parses to five fields, and the comma stays inside the name |
| `Scenarios.ExampleLineCrParses` | itp_agent.py:86 | the example line followed by a carriage return, as every line but the last of a CRLF table is left (the strip at itp_agent.py:65 removes the last one's), parses to the same five fields |
| `Scenarios.ExampleLineBlankParses` | itp_agent.py:86 | the example line with an empty last cell parses with an empty fifth field |
| `Scenarios.ExampleRowReady` | itp_agent.py:109-125 | the example row with all three dates is ready and carries both disclosure dates |
| `Scenarios.ExampleRowSecondDisclosureBlank` | itp_agent.py:103-117 | the example row with the second disclosure cell blank is not ready |
| `Scenarios.ExampleLineReady` | itp_agent.py:81-125 | the whole example line, parsing included, is evaluated as ready with the expected borrower, with or without a trailing carriage return; the line with the empty second disclosure cell is evaluated as not ready |
| `Scenarios.TwoLineTable` | itp_agent.py:60-149 | a table of the example header and one data line is split into those two lines, and the tool reports on that one line |
| `Scenarios.ExampleToolOutput` | itp_agent.py:44-149 | for the example table the tool returns the report of exactly the one example borrower |
| `Scenarios.ExampleBlankToolOutput` | itp_agent.py:44-136 | for the example table with the second disclosure cell empty, the tool returns the "none ready" message |

## Left out

- Logging calls (itp_agent.py:37-42 and the `logger` calls in the body) are side effects with no effect on the result.
- The loosely typed run state is replaced by the `RunState` record. A stored file entry that is not a dictionary, or whose `content` is not a list of strings, cannot be expressed in the record. An entry without a `content` key is `FileData(None)` and falls back to `table_csv`, as in the code.
- Agent construction (`create_deep_agent`, the two subagent factories), the instruction prompt, and the `planner_prompt.md` read are left out. They are foreign library calls, plain text and file I/O.
- The `__main__` banner prints are left out; they are output only.
- Csv.ParseRow: the reader's dialect is fixed to Python's default. There is no strict mode, no escape character and no other delimiter or quote character, since the tool sets none.
- Csv.ParseRow: a NUL character is an ordinary character. Python's reader may reject it, depending on the version; the model does not cover that.
- Text.Strip: it removes only these six characters: space, tab, line feed, vertical tab, form feed and carriage return. Python also strips U+001C to U+001F and Unicode spaces such as U+0085 and U+00A0.
- Repeated evaluation of the same table gives the same result because the model is a function of its input; no separate lemma states it.
