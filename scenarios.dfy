/** A worked example: a five-column borrower table whose single data row
    carries a quoted borrower name with a comma in it. */
module Scenarios {
  import opened Wrappers
  import opened Text
  import Csv
  import opened Header
  import opened Readiness
  import opened Report
  import opened ItpFilter

  /** The header text. */
  const HeaderLine: string :=
    BorrowerNameColumn + "," + LoanNumberColumn + "," + DocumentDateColumn + "," +
    DisclosureColumn + "," + DisclosureColumn

  const HeaderNames: seq<string> :=
    [BorrowerNameColumn, LoanNumberColumn, DocumentDateColumn, DisclosureColumn, DisclosureColumn]

  lemma NamesDiffer()
    ensures DisclosureColumn != BorrowerNameColumn && DisclosureColumn != LoanNumberColumn
    ensures DisclosureColumn != DocumentDateColumn
  {
    assert DisclosureColumn[0] != BorrowerNameColumn[0];
  }

  /** Five pieces joined by commas. */
  lemma {:induction false} JoinFive(hs: seq<string>)
    requires |hs| == 5
    ensures Join(hs, ",") == hs[0] + "," + hs[1] + "," + hs[2] + "," + hs[3] + "," + hs[4]
  {
    assert hs[3..][1..] == hs[4..];
    assert Join(hs[3..], ",") == hs[3] + "," + hs[4];
    assert hs[2..][1..] == hs[3..];
    assert Join(hs[2..], ",") == hs[2] + "," + (hs[3] + "," + hs[4]);
    assert hs[1..][1..] == hs[2..];
    assert Join(hs[1..], ",") == hs[1] + "," + (hs[2] + "," + (hs[3] + "," + hs[4]));
    assert Join(hs, ",") == hs[0] + "," + (hs[1] + "," + (hs[2] + "," + (hs[3] + "," + hs[4])));
  }

  /** The header text is the five names joined by commas. */
  lemma HeaderLineJoined()
    ensures HeaderLine == Join(HeaderNames, ",")
  {
    JoinFive(HeaderNames);
  }

  /** The header text begins with `B` and contains no line feed. */
  lemma HeaderLineChars()
    ensures HeaderLine[0] == 'B' && '\n' !in HeaderLine
  {
    assert BorrowerNameColumn[0] == 'B';
    assert '\n' !in BorrowerNameColumn && '\n' !in LoanNumberColumn;
    assert '\n' !in DocumentDateColumn && '\n' !in DisclosureColumn;
  }

  /** The header text splits into the five column names. */
  lemma ExampleHeaders()
    ensures Headers(HeaderLine) == HeaderNames
  {
    HeaderLineJoined();
    forall i | 0 <= i < |HeaderNames| ensures ',' !in HeaderNames[i] && Strip(HeaderNames[i]) == HeaderNames[i] {
      TrimUnchanged(HeaderNames[i], Whitespace);
    }
    HeadersOfJoin(HeaderNames);
  }

  lemma ExampleIdx()
    ensures IndexOf(HeaderNames, BorrowerNameColumn) == 0
    ensures IndexOf(HeaderNames, LoanNumberColumn) == 1
    ensures IndexOf(HeaderNames, DocumentDateColumn) == 2
  {
    var hs := HeaderNames;
    assert hs[0] == BorrowerNameColumn && hs[1] == LoanNumberColumn && hs[2] == DocumentDateColumn;
  }

  lemma ExampleDisc()
    ensures AllIndices(HeaderNames, DisclosureColumn) == [3, 4]
  {
    var hs := HeaderNames;
    NamesDiffer();
    assert hs[..3] == [BorrowerNameColumn, LoanNumberColumn, DocumentDateColumn];
    AllIndicesAbsent(hs[..3], DisclosureColumn);
    assert hs[..4][..3] == hs[..3];
    assert AllIndices(hs[..4], DisclosureColumn) == [3];
  }

  const ExampleColumnsResolved: Columns := Columns(0, 1, 2, [3, 4])

  /** The header text resolves to name 0, loan 1, document date 2 and the
      disclosures 3 and 4. */
  lemma ExampleColumns()
    ensures ResolveColumns(Headers(HeaderLine)) == ExampleColumnsResolved
  {
    ExampleHeaders();
    ExampleIdx();
    ExampleDisc();
  }

  /** The example data line, written out field by field. */
  const ExampleLine: string := "\"Doe, Jane\"" + "," + "000123" + "," + "2024-01-01" + "," + "2024-01-02" + "," + "2024-01-03"

  /** The same row with the second disclosure cell left empty. */
  const ExampleLineBlank: string := "\"Doe, Jane\"" + "," + "000123" + "," + "2024-01-01" + "," + "2024-01-02" + ","

  const ExampleFields: seq<string> := ["Doe, Jane", "000123", "2024-01-01", "2024-01-02", "2024-01-03"]

  const ExampleFieldsBlank: seq<string> := ["Doe, Jane", "000123", "2024-01-01", "2024-01-02", ""]

  /** Only the name is written quoted. */
  const ExampleQuoting: seq<bool> := [true, false, false, false, false]

  const ExampleBorrower: Borrower :=
    Borrower("Doe, Jane", "000123", "2024-01-01", ["2024-01-02", "2024-01-03"])

  /** Five fields written out are the five encodings between commas. */
  lemma {:induction false} EncodeFive(fs: seq<string>, qs: seq<bool>)
    requires |fs| == |qs| == 5
    ensures Csv.EncodeMixed(fs, qs) ==
      Csv.EncodeField(fs[0], qs[0]) + "," + Csv.EncodeField(fs[1], qs[1]) + "," +
      Csv.EncodeField(fs[2], qs[2]) + "," + Csv.EncodeField(fs[3], qs[3]) + "," +
      Csv.EncodeField(fs[4], qs[4])
  {
    var e0, e1, e2 := Csv.EncodeField(fs[0], qs[0]), Csv.EncodeField(fs[1], qs[1]), Csv.EncodeField(fs[2], qs[2]);
    var e3, e4 := Csv.EncodeField(fs[3], qs[3]), Csv.EncodeField(fs[4], qs[4]);
    assert fs[3..][1..] == fs[4..] && qs[3..][1..] == qs[4..];
    assert Csv.EncodeMixed(fs[3..], qs[3..]) == e3 + "," + e4;
    assert fs[2..][1..] == fs[3..] && qs[2..][1..] == qs[3..];
    assert Csv.EncodeMixed(fs[2..], qs[2..]) == e2 + "," + (e3 + "," + e4);
    assert fs[1..][1..] == fs[2..] && qs[1..][1..] == qs[2..];
    assert Csv.EncodeMixed(fs[1..], qs[1..]) == e1 + "," + (e2 + "," + (e3 + "," + e4));
    assert Csv.EncodeMixed(fs, qs) == e0 + "," + (e1 + "," + (e2 + "," + (e3 + "," + e4)));
  }

  /** Both example lines are the example fields written with the name
      quoted. */
  lemma ExampleLineWritten()
    ensures Csv.EncodeMixed(ExampleFields, ExampleQuoting) == ExampleLine
    ensures Csv.EncodeMixed(ExampleFieldsBlank, ExampleQuoting) == ExampleLineBlank
  {
    NameWritten();
    EncodeFive(ExampleFields, ExampleQuoting);
    EncodeFive(ExampleFieldsBlank, ExampleQuoting);
  }

  lemma NameWritten()
    ensures Csv.QuoteField("Doe, Jane") == "\"Doe, Jane\""
  {
    NameEscaped();
    NameQuoted();
  }

  lemma NameEscaped()
    ensures Csv.QuoteField("Doe, Jane") == [Csv.Quote] + "Doe, Jane" + [Csv.Quote]
  {
    Csv.EscapeUnquoted("Doe, Jane");
  }

  lemma NameQuoted()
    ensures [Csv.Quote] + "Doe, Jane" + [Csv.Quote] == "\"Doe, Jane\""
  {
  }

  lemma ExampleFieldsWritable()
    ensures Csv.AllWritable(ExampleFields, ExampleQuoting)
    ensures Csv.AllWritable(ExampleFieldsBlank, ExampleQuoting)
  {
    forall i | 1 <= i < 5 ensures Csv.Plain(ExampleFields[i]) && Csv.Plain(ExampleFieldsBlank[i]) {
    }
  }

  /** The quoted name keeps its comma: the example line reads back as five
      fields. */
  lemma ExampleLineParses()
    ensures Csv.ParseRow(ExampleLine) == Some(ExampleFields)
  {
    ExampleLineWritten();
    ExampleFieldsWritable();
    Csv.ParseMixedRow(ExampleFields, ExampleQuoting, "");
    assert ExampleLine + "" == ExampleLine;
  }

  /** So does the line followed by a carriage return, as every line but the
      last of a table written with CRLF line ends is left (the strip before
      the split removes the last one's). */
  lemma ExampleLineCrParses()
    ensures Csv.ParseRow(ExampleLine + "\r") == Some(ExampleFields)
  {
    ExampleLineWritten();
    ExampleFieldsWritable();
    assert Csv.LineBreaks("\r") by {
      assert "\r"[0] == '\r';
    }
    Csv.ParseMixedRow(ExampleFields, ExampleQuoting, "\r");
  }

  /** The line with the empty last cell reads back with an empty fifth
      field. */
  lemma ExampleLineBlankParses()
    ensures Csv.ParseRow(ExampleLineBlank) == Some(ExampleFieldsBlank)
  {
    ExampleLineWritten();
    ExampleFieldsWritable();
    Csv.ParseMixedRow(ExampleFieldsBlank, ExampleQuoting, "");
    assert ExampleLineBlank + "" == ExampleLineBlank;
  }

  /** All three dates present: the borrower is ready and carries both
      disclosure dates. */
  lemma ExampleRowReady()
    ensures ClassifyRow(ExampleFields, ExampleColumnsResolved) == Some(ExampleBorrower)
  {
    var row := ExampleFields;
    forall i | 0 <= i < |row| ensures Strip(row[i]) == row[i] {
      TrimUnchanged(row[i], Whitespace);
    }
    TrimUnchanged(row[0], {Csv.Quote});
    assert Increasing(ExampleColumnsResolved.disclosure);
    ReadyCharacterization(row, ExampleColumnsResolved);
  }

  /** The second disclosure cell blank: the borrower is not ready. */
  lemma ExampleRowSecondDisclosureBlank()
    ensures ClassifyRow(ExampleFieldsBlank, ExampleColumnsResolved).None?
  {
    var row := ExampleFieldsBlank;
    TrimUnchanged(row[2], Whitespace);
    assert Increasing(ExampleColumnsResolved.disclosure);
    ReadyCharacterization(row, ExampleColumnsResolved);
  }

  lemma ExampleLinesNotBlank()
    ensures Strip(ExampleLine) != "" && Strip(ExampleLine + "\r") != "" && Strip(ExampleLineBlank) != ""
  {
    assert ExampleLine[0] == Csv.Quote && ExampleLineBlank[0] == Csv.Quote;
    assert (ExampleLine + "\r")[0] == Csv.Quote;
    TrimEmptyIff(ExampleLine, Whitespace);
    TrimEmptyIff(ExampleLine + "\r", Whitespace);
    TrimEmptyIff(ExampleLineBlank, Whitespace);
  }

  /** The whole example line, parsing included, is evaluated as ready, with
      or without a trailing carriage return; the line with the empty second
      disclosure cell is not ready. */
  lemma ExampleLineReady()
    ensures EvaluateLine(ExampleLine, ExampleColumnsResolved) == Ready(ExampleBorrower)
    ensures EvaluateLine(ExampleLine + "\r", ExampleColumnsResolved) == Ready(ExampleBorrower)
    ensures EvaluateLine(ExampleLineBlank, ExampleColumnsResolved) == NotReady
  {
    ExampleLinesNotBlank();
    ExampleLineParses();
    ExampleLineCrParses();
    ExampleLineBlankParses();
    ExampleRowReady();
    ExampleRowSecondDisclosureBlank();
  }

  /** The run state whose `table_csv` is the header line and one data line. */
  function TableState(line: string): RunState {
    RunState(map[], Some(HeaderLine + "\n" + line))
  }

  /** A two-line table is split into the header and the data line, and the
      filter reports on that one line. */
  lemma TwoLineTable(line: string)
    requires line != [] && line[|line| - 1] !in Whitespace && '\n' !in line
    ensures ToolOutput(TableState(line)) == Render(ReadyList([line], ExampleColumnsResolved))
  {
    var csv := HeaderLine + "\n" + line;
    assert CsvContent(TableState(line)) == csv;
    HeaderLineChars();
    assert csv[0] == 'B' && csv[|csv| - 1] == line[|line| - 1];
    TrimUnchanged(csv, Whitespace);
    assert Strip(csv) == csv;
    FindAfter(HeaderLine, '\n', line);
    FindAbsent(line, '\n');
    var k := |HeaderLine|;
    assert Find(csv, '\n') == k;
    assert csv[..k] == HeaderLine && csv[k + 1..] == line;
    assert Split(line, '\n') == [line];
    assert Split(csv, '\n') == [HeaderLine] + [line];
    assert TableLines(csv) == [HeaderLine, line];
    ExampleColumns();
    assert [HeaderLine, line][1..] == [line];
  }

  /** The example line yields the one borrower; the line with the blank
      disclosure yields none. */
  lemma ExampleReadyLists()
    ensures ReadyList([ExampleLine], ExampleColumnsResolved) == [ExampleBorrower]
    ensures ReadyList([ExampleLineBlank], ExampleColumnsResolved) == []
  {
    ExampleLineReady();
    assert [ExampleLine][1..] == [] && [ExampleLineBlank][1..] == [];
  }

  /** The example table reports exactly the one ready borrower. */
  lemma ExampleToolOutput()
    ensures ToolOutput(TableState(ExampleLine)) == Render([ExampleBorrower])
  {
    assert '\n' !in ExampleLine && ExampleLine[|ExampleLine| - 1] == '3';
    TwoLineTable(ExampleLine);
    ExampleReadyLists();
  }

  /** With the second disclosure cell empty, the table reports that no
      borrower is ready. */
  lemma ExampleBlankToolOutput()
    ensures ToolOutput(TableState(ExampleLineBlank)) == NoneReadyMessage
  {
    assert '\n' !in ExampleLineBlank && ExampleLineBlank[|ExampleLineBlank| - 1] == ',';
    TwoLineTable(ExampleLineBlank);
    ExampleReadyLists();
  }
}
