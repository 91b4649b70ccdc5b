/** The borrower readiness filter as a whole: choose the CSV text from the
    run state, split it into lines, resolve the header, evaluate the data
    lines and render the result. */
module ItpFilter {
  import opened Wrappers
  import opened Text
  import opened Header
  import opened Readiness
  import opened Report

  /** A stored file; `content` is its "content" entry (the list of lines),
      when it has one. */
  datatype FileData = FileData(content: Option<seq<string>>)

  /** The part of the agent's run state the filter reads: the stored files
      and the `table_csv` fallback. */
  datatype RunState = RunState(files: map<string, FileData>, tableCsv: Option<string>)

  const BorrowerTablePath: string := "/borrower_table.csv"

  const NoDataError: string :=
    "Error: No borrower table data found." + " Please run the cute-linear agent first to extract borrower data."

  const MalformedError: string := "Error: CSV data is empty or malformed."

  /** The stored table file's content lines, if the file and its content exist. */
  function StoredTable(state: RunState): Option<seq<string>> {
    if BorrowerTablePath in state.files then state.files[BorrowerTablePath].content else None
  }

  /** The CSV text: the stored file's lines joined by newlines, otherwise
      `table_csv`; "" when neither is there. */
  function CsvContent(state: RunState): string {
    match StoredTable(state)
    case Some(lines) => Join(lines, "\n")
    case None => state.tableCsv.GetOr("")
  }

  /** The lines of the stripped CSV text. */
  function TableLines(csv: string): seq<string> {
    Split(Strip(csv), '\n')
  }

  /** What the filter returns for a run state. */
  function ToolOutput(state: RunState): string {
    var csv := CsvContent(state);
    if csv == "" then NoDataError
    else
      var lines := TableLines(csv);
      if |lines| < 2 then MalformedError
      else Render(ReadyList(lines[1..], ResolveColumns(Headers(lines[0]))))
  }

  /** The filter: the imperative loops over the data lines and over the
      ready borrowers, composed as the tool composes them. */
  method FilterBorrowersReadyForItp(state: RunState) returns (out: string)
    ensures out == ToolOutput(state)
  {
    var fileData := StoredTable(state);
    var csvContent: string;
    if fileData.Some? {
      csvContent := Join(fileData.value, "\n");
    } else {
      csvContent := state.tableCsv.GetOr("");
    }
    if csvContent == "" {
      return NoDataError;
    }
    var lines := Split(Strip(csvContent), '\n');
    if |lines| < 2 {
      return MalformedError;
    }
    var headers := Headers(lines[0]);
    var cols := ResolveColumns(headers);
    var ready := EvaluateRows(lines[1..], cols);
    out := FormatReady(ready);
  }

  /** The stored file, when it has content, decides the CSV text on its own:
      `table_csv` is then ignored. */
  lemma StoredTablePreferred(state: RunState, fallback: Option<string>)
    requires StoredTable(state).Some?
    ensures CsvContent(state) == Join(StoredTable(state).value, "\n")
    ensures ToolOutput(state) == ToolOutput(state.(tableCsv := fallback))
  {
  }

  /** The error messages and the two report forms are told apart by their
      first characters. */
  lemma OutputsDistinct(bs: seq<Borrower>)
    ensures NoDataError != MalformedError
    ensures Render(bs) != NoDataError && Render(bs) != MalformedError
  {
    assert NoDataError[7] == 'N' && MalformedError[7] == 'C';
    assert NoDataError[0] == 'E' && MalformedError[0] == 'E';
    RenderFirstChar(bs);
  }

  /** The "no data" error is returned exactly when there is no CSV text. */
  lemma NoDataIff(state: RunState)
    ensures ToolOutput(state) == NoDataError <==> CsvContent(state) == ""
  {
    var csv := CsvContent(state);
    if csv != "" {
      var lines := TableLines(csv);
      if |lines| >= 2 {
        OutputsDistinct(ReadyList(lines[1..], ResolveColumns(Headers(lines[0]))));
      } else {
        OutputsDistinct([]);
      }
    }
  }

  /** With CSV text present, the "malformed" error is returned exactly when
      the stripped text has fewer than two lines; no line is then evaluated. */
  lemma MalformedIff(state: RunState)
    requires CsvContent(state) != ""
    ensures ToolOutput(state) == MalformedError <==> |TableLines(CsvContent(state))| < 2
  {
    var lines := TableLines(CsvContent(state));
    if |lines| >= 2 {
      OutputsDistinct(ReadyList(lines[1..], ResolveColumns(Headers(lines[0]))));
    }
  }

  /** The strip before the split removes trailing blank lines: when the
      table has two or more lines, the last one is never blank. */
  lemma LastTableLineNotBlank(csv: string)
    ensures var lines := TableLines(csv);
      |lines| >= 2 ==> Strip(lines[|lines| - 1]) != ""
  {
    var t := Strip(csv);
    var lines := TableLines(csv);
    if |lines| >= 2 {
      var n := |lines| - 1;
      var p := lines[n];
      var pre := Join(lines[..n], "\n");
      JoinSplit(t, '\n');
      JoinLast(lines, "\n");
      assert t == pre + "\n" + p;
      TrimRightSpec(TrimLeft(csv, Whitespace), Whitespace);
      assert t[|t| - 1] !in Whitespace;
      assert p != [] && p[|p| - 1] == t[|t| - 1];
      TrimEmptyIff(p, Whitespace);
    }
  }

  /** So a header followed only by blank lines is answered with the
      "malformed" error, not with the "none ready" message. */
  lemma BlankDataLinesMalformed(state: RunState)
    requires CsvContent(state) != ""
    requires var lines := TableLines(CsvContent(state));
      forall i :: 1 <= i < |lines| ==> Strip(lines[i]) == ""
    ensures ToolOutput(state) == MalformedError
  {
    LastTableLineNotBlank(CsvContent(state));
    MalformedIff(state);
  }

  /** With fewer than two "eDisclosure D" headers the report always says that
      no borrower is ready. */
  lemma FewerThanTwoDisclosureHeadersNoneReady(state: RunState)
    requires CsvContent(state) != ""
    requires |TableLines(CsvContent(state))| >= 2
    requires |AllIndices(Headers(TableLines(CsvContent(state))[0]), DisclosureColumn)| < 2
    ensures ToolOutput(state) == NoneReadyMessage
  {
    var lines := TableLines(CsvContent(state));
    FewerThanTwoDisclosureColumnsNoneReady(lines[1..], ResolveColumns(Headers(lines[0])));
  }

  /** Otherwise the report announces as many borrowers as there are ready
      lines among the data lines. */
  lemma ReportCountsReadyLines(state: RunState)
    requires CsvContent(state) != ""
    requires |TableLines(CsvContent(state))| >= 2
    ensures var lines := TableLines(CsvContent(state));
      var n := |ReadyPositions(lines[1..], ResolveColumns(Headers(lines[0])))|;
      (n == 0 ==> ToolOutput(state) == NoneReadyMessage) &&
      (n > 0 ==> AnnouncedCount(ToolOutput(state)) == n)
  {
    var lines := TableLines(CsvContent(state));
    var cols := ResolveColumns(Headers(lines[0]));
    var ready := ReadyList(lines[1..], cols);
    ReadyListSelection(lines[1..], cols);
    if ready != [] {
      AnnouncedCountIsLength(ready);
    }
  }
}
