/** The readiness gate: each data line is skipped, classified not ready, or
    turned into a ready borrower; the ready borrowers are collected in line
    order. */
module Readiness {
  import opened Wrappers
  import opened Text
  import Csv
  import opened Header

  /** One ready borrower as the report shows it. */
  datatype Borrower = Borrower(name: string, loanNumber: string, docDate: string,
                               disclosureDates: seq<string>)

  /** What becomes of one data line. */
  datatype LineOutcome = Blank | Unparsable | TooShort | NotReady | Ready(borrower: Borrower)

  /** The values that count as "no date". */
  predicate IsSentinel(v: string) {
    v == "" || v == "=" || v == ","
  }

  /** The largest single-valued column position (-1 when all are absent). */
  function MaxRequired(cols: Columns): int {
    var m := if cols.name > cols.loan then cols.name else cols.loan;
    if m > cols.docDate then m else cols.docDate
  }

  /** A stripped cell, or "" for an absent column. */
  function Cell(row: seq<string>, idx: int): string
    requires idx < |row|
  {
    if idx >= 0 then Strip(row[idx]) else ""
  }

  /** The borrower name cell: stripped of whitespace, then of double quotes. */
  function NameCell(row: seq<string>, idx: int): string
    requires idx < |row|
  {
    if idx >= 0 then Trim(Strip(row[idx]), {Csv.Quote}) else ""
  }

  /** A recorded disclosure entry: the stripped value, or `None` for a sentinel. */
  function DisclosureEntry(v: string): Option<string> {
    var d := Strip(v);
    if IsSentinel(d) then None else Some(d)
  }

  /** The entries recorded for a row: one per disclosure position inside the
      row, in header order; positions past the end of the row record nothing. */
  function DisclosureEntries(row: seq<string>, idxs: seq<nat>): (entries: seq<Option<string>>)
    ensures |entries| <= |idxs|
    ensures forall k :: 0 <= k < |entries| && entries[k].Some? ==> !IsSentinel(entries[k].value)
    decreases |idxs|
  {
    if idxs == [] then []
    else (if idxs[0] < |row| then [DisclosureEntry(row[idxs[0]])] else []) + DisclosureEntries(row, idxs[1..])
  }

  /** The gate on the disclosure entries: exactly two, both dated. */
  predicate BothPresent(entries: seq<Option<string>>) {
    |entries| == 2 && entries[0].Some? && entries[1].Some?
  }

  /** The dated entries, in order (`[d for d in dates if d is not None]`). */
  function PresentDates(entries: seq<Option<string>>): (r: seq<string>)
    ensures |r| <= |entries|
    ensures forall k :: 0 <= k < |r| ==> Some(r[k]) in entries
    decreases |entries|
  {
    if entries == [] then []
    else (if entries[0].Some? then [entries[0].value] else []) + PresentDates(entries[1..])
  }

  /** The readiness rule on a row long enough for the single-valued columns. */
  function ClassifyRow(row: seq<string>, cols: Columns): Option<Borrower>
    requires MaxRequired(cols) < |row|
  {
    var doc := Cell(row, cols.docDate);
    var entries := DisclosureEntries(row, cols.disclosure);
    if !IsSentinel(doc) && BothPresent(entries) then
      Some(Borrower(NameCell(row, cols.name), Cell(row, cols.loan), doc, PresentDates(entries)))
    else None
  }

  /** The fate of one data line. */
  function EvaluateLine(line: string, cols: Columns): LineOutcome {
    if Strip(line) == "" then Blank
    else
      match Csv.ParseRow(line)
      case None => Unparsable
      case Some(row) =>
        if |row| <= MaxRequired(cols) then TooShort
        else
          match ClassifyRow(row, cols)
          case None => NotReady
          case Some(b) => Ready(b)
  }

  /** The ready borrowers of the data lines, in line order. */
  function ReadyList(lines: seq<string>, cols: Columns): seq<Borrower>
    decreases |lines|
  {
    if lines == [] then []
    else
      var o := EvaluateLine(lines[0], cols);
      (if o.Ready? then [o.borrower] else []) + ReadyList(lines[1..], cols)
  }

  /** The outcome of every data line, in line order. */
  function Outcomes(lines: seq<string>, cols: Columns): seq<LineOutcome> {
    seq(|lines|, i requires 0 <= i < |lines| => EvaluateLine(lines[i], cols))
  }

  /** The positions of the ready outcomes. */
  function ReadyIndices(os: seq<LineOutcome>): (ps: seq<nat>)
    ensures Increasing(ps)
    ensures forall k :: 0 <= k < |ps| ==> ps[k] < |os| && os[ps[k]].Ready?
    decreases |os|
  {
    if os == [] then []
    else
      var n := |os| - 1;
      var ps0 := ReadyIndices(os[..n]);
      assert forall k :: 0 <= k < |ps0| ==> ps0[k] < n;
      ps0 + (if os[n].Ready? then [n] else [])
  }

  /** No ready outcome is missed. */
  lemma {:induction false} ReadyIndicesComplete(os: seq<LineOutcome>, i: nat)
    requires i < |os| && os[i].Ready?
    ensures i in ReadyIndices(os)
    decreases |os|
  {
    var n := |os| - 1;
    if i < n {
      assert os[..n][i] == os[i];
      ReadyIndicesComplete(os[..n], i);
    }
  }

  /** The positions of the ready lines. */
  function ReadyPositions(lines: seq<string>, cols: Columns): (ps: seq<nat>)
    ensures Increasing(ps)
    ensures forall k :: 0 <= k < |ps| ==> ps[k] < |lines| && EvaluateLine(lines[ps[k]], cols).Ready?
  {
    ReadyIndices(Outcomes(lines, cols))
  }

  /** No ready line is missed: every ready line's position is listed. */
  lemma ReadyPositionsComplete(lines: seq<string>, cols: Columns, i: nat)
    requires i < |lines| && EvaluateLine(lines[i], cols).Ready?
    ensures i in ReadyPositions(lines, cols)
  {
    ReadyIndicesComplete(Outcomes(lines, cols), i);
  }

  /** Dropping the last line drops at most its own position. */
  lemma ReadyPositionsSnoc(lines: seq<string>, cols: Columns)
    requires lines != []
    ensures var n := |lines| - 1;
      ReadyPositions(lines, cols) ==
        ReadyPositions(lines[..n], cols) + (if EvaluateLine(lines[n], cols).Ready? then [n] else [])
  {
    var n := |lines| - 1;
    var os := Outcomes(lines, cols);
    assert os[..n] == Outcomes(lines[..n], cols);
  }

  /** What the report relies on about every ready borrower. */
  predicate WellFormedEntry(b: Borrower) {
    !IsSentinel(b.docDate) && |b.disclosureDates| == 2 &&
    !IsSentinel(b.disclosureDates[0]) && !IsSentinel(b.disclosureDates[1])
  }

  // ---------------------------------------------------------------------
  // The imperative loops of the filter

  /** The loop that records one entry per in-range disclosure position. */
  method CollectDisclosureDates(row: seq<string>, idxs: seq<nat>) returns (dates: seq<Option<string>>)
    ensures dates == DisclosureEntries(row, idxs)
  {
    dates := [];
    for i := 0 to |idxs|
      invariant dates == DisclosureEntries(row, idxs[..i])
    {
      var idx := idxs[i];
      if idx < |row| {
        var dateVal := Strip(row[idx]);
        if dateVal != "" && !IsSentinel(dateVal) {
          dates := dates + [Some(dateVal)];
        } else {
          dates := dates + [None];
        }
      }
      DisclosureEntriesAppend(row, idxs[..i], [idx]);
      assert idxs[..i + 1] == idxs[..i] + [idx];
    }
    assert idxs[..|idxs|] == idxs;
  }

  /** The loop over the data lines that appends each ready borrower. */
  method EvaluateRows(lines: seq<string>, cols: Columns) returns (ready: seq<Borrower>)
    ensures ready == ReadyList(lines, cols)
  {
    ready := [];
    for i := 0 to |lines|
      invariant ready == ReadyList(lines[..i], cols)
    {
      var line := lines[i];
      ReadyListAppend(lines[..i], [line], cols);
      assert lines[..i + 1] == lines[..i] + [line];
      assert ReadyList([line], cols) == (if EvaluateLine(line, cols).Ready? then [EvaluateLine(line, cols).borrower] else []);
      if Strip(line) == "" {
        continue;
      }
      var parsed := Csv.ParseRow(line);
      if parsed.None? {
        continue;
      }
      var row := parsed.value;
      if |row| <= MaxRequired(cols) {
        continue;
      }
      var name := if cols.name >= 0 then Trim(Strip(row[cols.name]), {Csv.Quote}) else "";
      var loan := if cols.loan >= 0 then Strip(row[cols.loan]) else "";
      var doc := if cols.docDate >= 0 then Strip(row[cols.docDate]) else "";
      var dates := CollectDisclosureDates(row, cols.disclosure);
      var both := |dates| == 2 && dates[0].Some? && dates[1].Some?;
      if doc != "" && !IsSentinel(doc) && both {
        var valid := PresentDates(dates);
        ready := ready + [Borrower(name, loan, doc, valid)];
      }
    }
    assert lines[..|lines|] == lines;
  }

  // ---------------------------------------------------------------------
  // Disclosure entries

  lemma {:induction false} DisclosureEntriesAppend(row: seq<string>, a: seq<nat>, b: seq<nat>)
    ensures DisclosureEntries(row, a + b) == DisclosureEntries(row, a) + DisclosureEntries(row, b)
    decreases |a|
  {
    if a != [] {
      assert (a + b)[1..] == a[1..] + b;
      DisclosureEntriesAppend(row, a[1..], b);
    } else {
      assert a + b == b;
    }
  }

  /** No entry is recorded exactly when every position lies past the row. */
  lemma {:induction false} DisclosureEntriesEmptyIff(row: seq<string>, idxs: seq<nat>)
    ensures DisclosureEntries(row, idxs) == [] <==> forall k :: 0 <= k < |idxs| ==> idxs[k] >= |row|
    decreases |idxs|
  {
    if idxs != [] {
      DisclosureEntriesEmptyIff(row, idxs[1..]);
      assert forall k :: 1 <= k < |idxs| ==> idxs[k] == idxs[1..][k - 1];
    }
  }

  /** When the row covers every position, there is one entry per position. */
  lemma {:induction false} DisclosureEntriesInRange(row: seq<string>, idxs: seq<nat>)
    requires forall k :: 0 <= k < |idxs| ==> idxs[k] < |row|
    ensures |DisclosureEntries(row, idxs)| == |idxs|
    ensures forall k :: 0 <= k < |idxs| ==> DisclosureEntries(row, idxs)[k] == DisclosureEntry(row[idxs[k]])
    decreases |idxs|
  {
    if idxs != [] {
      DisclosureEntriesInRange(row, idxs[1..]);
    }
  }

  lemma PresentDatesOfPair(entries: seq<Option<string>>)
    requires BothPresent(entries)
    ensures PresentDates(entries) == [entries[0].value, entries[1].value]
  {
    assert entries[1..][1..] == [];
  }

  // ---------------------------------------------------------------------
  // The readiness rule

  /** A row is ready exactly when its document date is not a sentinel, the
      first two disclosure positions lie inside the row, a third one (if
      any) does not, and the first two hold non-sentinel values; the
      borrower then carries those two values in header order. */
  lemma ReadyCharacterization(row: seq<string>, cols: Columns)
    requires MaxRequired(cols) < |row|
    requires Increasing(cols.disclosure)
    ensures ClassifyRow(row, cols).Some? <==>
      !IsSentinel(Cell(row, cols.docDate)) &&
      |cols.disclosure| >= 2 && cols.disclosure[1] < |row| &&
      (|cols.disclosure| == 2 || cols.disclosure[2] >= |row|) &&
      !IsSentinel(Strip(row[cols.disclosure[0]])) && !IsSentinel(Strip(row[cols.disclosure[1]]))
    ensures ClassifyRow(row, cols).Some? ==>
      ClassifyRow(row, cols).value ==
        Borrower(NameCell(row, cols.name), Cell(row, cols.loan), Cell(row, cols.docDate),
                 [Strip(row[cols.disclosure[0]]), Strip(row[cols.disclosure[1]])])
  {
    EntriesBothPresent(row, cols.disclosure);
  }

  /** The disclosure gate in terms of the positions: two dated entries exactly
      when the first two (increasing) positions lie in the row with
      non-sentinel values and any third lies past the row. */
  lemma EntriesBothPresent(row: seq<string>, d: seq<nat>)
    requires Increasing(d)
    ensures BothPresent(DisclosureEntries(row, d)) <==>
      |d| >= 2 && d[1] < |row| && (|d| == 2 || d[2] >= |row|) &&
      !IsSentinel(Strip(row[d[0]])) && !IsSentinel(Strip(row[d[1]]))
    ensures BothPresent(DisclosureEntries(row, d)) ==>
      PresentDates(DisclosureEntries(row, d)) == [Strip(row[d[0]]), Strip(row[d[1]])]
  {
    if |d| >= 2 {
      EntriesSplit(row, d);
      if d[1] < |row| {
        EntriesOfPair(row, d[0], d[1]);
        EntriesAfterPair(row, d);
      } else {
        EntriesPairPastRow(row, d);
      }
    }
  }

  /** Two positions inside the row record one entry each. */
  lemma EntriesOfPair(row: seq<string>, x: nat, y: nat)
    requires x < |row| && y < |row|
    ensures DisclosureEntries(row, [x, y]) == [DisclosureEntry(row[x]), DisclosureEntry(row[y])]
  {
    assert [x, y][1..] == [y] && [y][1..] == [];
  }

  /** Past the first two increasing positions, entries are recorded exactly
      when a third position lies inside the row. */
  lemma EntriesAfterPair(row: seq<string>, d: seq<nat>)
    requires |d| >= 2 && Increasing(d)
    ensures DisclosureEntries(row, d[2..]) == [] <==> |d| == 2 || d[2] >= |row|
  {
    var tail := d[2..];
    DisclosureEntriesEmptyIff(row, tail);
    if |d| > 2 {
      if d[2] >= |row| {
        forall k | 0 <= k < |tail| ensures tail[k] >= |row| {
          assert tail[k] == d[k + 2];
          assert k == 0 || d[2] < d[k + 2];
        }
      } else {
        assert tail[0] < |row|;
      }
    }
  }

  /** With the second position past the row, at most one entry is recorded. */
  lemma EntriesPairPastRow(row: seq<string>, d: seq<nat>)
    requires |d| >= 2 && Increasing(d) && d[1] >= |row|
    ensures |DisclosureEntries(row, [d[0], d[1]])| <= 1
    ensures DisclosureEntries(row, d[2..]) == []
  {
    var head := [d[0], d[1]];
    var tail := d[2..];
    assert head[1..] == [d[1]] && head[1..][1..] == [];
    DisclosureEntriesEmptyIff(row, tail);
    forall k | 0 <= k < |tail| ensures tail[k] >= |row| {
      assert tail[k] == d[k + 2] && d[1] < d[k + 2];
    }
  }

  /** The entries of the first two positions followed by those of the rest. */
  lemma EntriesSplit(row: seq<string>, d: seq<nat>)
    requires |d| >= 2
    ensures DisclosureEntries(row, d) == DisclosureEntries(row, [d[0], d[1]]) + DisclosureEntries(row, d[2..])
  {
    assert d == [d[0], d[1]] + d[2..];
    DisclosureEntriesAppend(row, [d[0], d[1]], d[2..]);
  }

  /** Every ready borrower has a dated document and two dated disclosures. */
  lemma ClassifyRowWellFormed(row: seq<string>, cols: Columns)
    requires MaxRequired(cols) < |row|
    ensures ClassifyRow(row, cols).Some? ==> WellFormedEntry(ClassifyRow(row, cols).value)
  {
    var entries := DisclosureEntries(row, cols.disclosure);
    if BothPresent(entries) {
      PresentDatesOfPair(entries);
    }
  }

  /** Positions past the end of a row record nothing, so with three
      disclosure columns a row that stops after the second one is ready. */
  lemma ShortRowWithThreeDisclosureColumnsIsReady()
    ensures ClassifyRow(["2024-01-01", "2024-01-02", "2024-01-03"], Columns(-1, -1, 0, [1, 2, 3])).Some?
  {
    var row := ["2024-01-01", "2024-01-02", "2024-01-03"];
    var cols := Columns(-1, -1, 0, [1, 2, 3]);
    TrimUnchanged(row[0], Whitespace);
    TrimUnchanged(row[1], Whitespace);
    TrimUnchanged(row[2], Whitespace);
    ReadyCharacterization(row, cols);
  }

  // ---------------------------------------------------------------------
  // The ready list

  /** Lines are evaluated independently: a skipped line never stops the
      lines after it from being classified. */
  lemma {:induction false} ReadyListAppend(a: seq<string>, b: seq<string>, cols: Columns)
    ensures ReadyList(a + b, cols) == ReadyList(a, cols) + ReadyList(b, cols)
    decreases |a|
  {
    if a != [] {
      assert (a + b)[1..] == a[1..] + b;
      ReadyListAppend(a[1..], b, cols);
    } else {
      assert a + b == b;
    }
  }

  /** A line that is skipped or not ready can be removed without changing
      the ready list. */
  lemma SkippedLineContributesNothing(a: seq<string>, line: string, b: seq<string>, cols: Columns)
    requires !EvaluateLine(line, cols).Ready?
    ensures ReadyList(a + [line] + b, cols) == ReadyList(a + b, cols)
  {
    ReadyListAppend(a + [line], b, cols);
    ReadyListAppend(a, [line], cols);
    ReadyListAppend(a, b, cols);
    assert ReadyList([line], cols) == [];
  }

  /** A parsed line whose stripped document date is a sentinel, or whose
      document date column is absent, is not ready, whatever its disclosure
      cells hold. */
  lemma SentinelDocumentDateNeverReady(line: string, cols: Columns)
    requires Csv.ParseRow(line).Some?
    requires var row := Csv.ParseRow(line).value;
      MaxRequired(cols) < |row| && IsSentinel(Cell(row, cols.docDate))
    ensures !EvaluateLine(line, cols).Ready?
  {
  }

  /** The ready list holds exactly one borrower per ready line, in line
      order, with nothing reordered or merged. */
  lemma {:induction false} ReadyListSelection(lines: seq<string>, cols: Columns)
    ensures |ReadyList(lines, cols)| == |ReadyPositions(lines, cols)|
    ensures forall k :: 0 <= k < |ReadyPositions(lines, cols)| ==>
      ReadyList(lines, cols)[k] == EvaluateLine(lines[ReadyPositions(lines, cols)[k]], cols).borrower
    decreases |lines|
  {
    if lines != [] {
      var n := |lines| - 1;
      var init := lines[..n];
      var last := EvaluateLine(lines[n], cols);
      assert lines == init + [lines[n]];
      ReadyListAppend(init, [lines[n]], cols);
      assert [lines[n]][1..] == [];
      ReadyListSelection(init, cols);
      var ps := ReadyPositions(lines, cols);
      var ps0 := ReadyPositions(init, cols);
      var ready := ReadyList(lines, cols);
      var ready0 := ReadyList(init, cols);
      ReadyPositionsSnoc(lines, cols);
      assert ready == ready0 + (if last.Ready? then [last.borrower] else []);
      forall k | 0 <= k < |ps| ensures ready[k] == EvaluateLine(lines[ps[k]], cols).borrower {
        if k < |ps0| {
          assert ps[k] == ps0[k] && ready[k] == ready0[k];
          assert init[ps0[k]] == lines[ps0[k]];
        } else {
          assert ps[k] == n && ready[k] == last.borrower;
        }
      }
    }
  }

  /** Every borrower in the ready list passed the gate. */
  lemma {:induction false} ReadyListWellFormed(lines: seq<string>, cols: Columns)
    ensures forall b :: b in ReadyList(lines, cols) ==> WellFormedEntry(b)
    decreases |lines|
  {
    if lines != [] {
      ReadyListWellFormed(lines[1..], cols);
      match Csv.ParseRow(lines[0])
      case None =>
      case Some(row) =>
        if |row| > MaxRequired(cols) {
          ClassifyRowWellFormed(row, cols);
        }
    }
  }

  /** With fewer than two disclosure columns in the header, no line is ready. */
  lemma {:induction false} FewerThanTwoDisclosureColumnsNoneReady(lines: seq<string>, cols: Columns)
    requires |cols.disclosure| < 2
    ensures ReadyList(lines, cols) == []
    decreases |lines|
  {
    if lines != [] {
      FewerThanTwoDisclosureColumnsNoneReady(lines[1..], cols);
    }
  }

  /** Without a "Document Date R" column, no line is ready. */
  lemma {:induction false} AbsentDocumentDateNoneReady(lines: seq<string>, cols: Columns)
    requires cols.docDate < 0
    ensures ReadyList(lines, cols) == []
    decreases |lines|
  {
    if lines != [] {
      AbsentDocumentDateNoneReady(lines[1..], cols);
    }
  }

  /** Blank data lines contribute nothing: a table with no data rows has no
      ready borrower. */
  lemma {:induction false} BlankLinesNoneReady(lines: seq<string>, cols: Columns)
    requires forall i :: 0 <= i < |lines| ==> Strip(lines[i]) == ""
    ensures ReadyList(lines, cols) == []
    decreases |lines|
  {
    if lines != [] {
      assert forall i :: 1 <= i < |lines| ==> lines[1..][i - 1] == lines[i];
      BlankLinesNoneReady(lines[1..], cols);
    }
  }
}
