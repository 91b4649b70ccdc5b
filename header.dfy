/** Resolution of the header line to column positions. Single-valued
    columns resolve to their first position, or -1 when absent; the
    duplicated "eDisclosure D" column resolves to all of its positions. */
module Header {
  import opened Text

  const BorrowerNameColumn := "Borrower Name"
  const LoanNumberColumn := "Loan Number"
  const DocumentDateColumn := "Document Date R"
  const DisclosureColumn := "eDisclosure D"

  /** Resolved positions; -1 marks an absent single-valued column. */
  datatype Columns = Columns(name: int, loan: int, docDate: int, disclosure: seq<nat>)

  /** The header names: the line split at every comma, each piece stripped
      (no quote handling, unlike the data rows). */
  function Headers(line: string): seq<string> {
    var parts := Split(line, ',');
    seq(|parts|, i requires 0 <= i < |parts| => Strip(parts[i]))
  }

  /** Names without commas and without surrounding whitespace, joined by
      commas, come back as the header names. */
  lemma HeadersOfJoin(hs: seq<string>)
    requires |hs| >= 1
    requires forall i :: 0 <= i < |hs| ==> ',' !in hs[i] && Strip(hs[i]) == hs[i]
    ensures Headers(Join(hs, ",")) == hs
  {
    SplitJoin(hs, ',');
  }

  /** Python's `hs.index(name) if name in hs else -1`. */
  function IndexOf(hs: seq<string>, name: string): (r: int)
    ensures -1 <= r < |hs|
    ensures r == -1 <==> name !in hs
    ensures r >= 0 ==> hs[r] == name && name !in hs[..r]
    decreases |hs|
  {
    if hs == [] then -1
    else if hs[0] == name then 0
    else
      var k := IndexOf(hs[1..], name);
      if k == -1 then -1 else k + 1
  }

  predicate Increasing(xs: seq<nat>) {
    forall i, j :: 0 <= i < j < |xs| ==> xs[i] < xs[j]
  }

  /** Every position of `name` in `hs`, left to right (the comprehension
      `[i for i, h in enumerate(hs) if h == name]`). */
  function AllIndices(hs: seq<string>, name: string): (r: seq<nat>)
    ensures Increasing(r)
    ensures forall k :: 0 <= k < |r| ==> r[k] < |hs| && hs[r[k]] == name
    ensures forall i :: 0 <= i < |hs| && hs[i] == name ==> i in r
    decreases |hs|
  {
    if hs == [] then []
    else
      var n := |hs| - 1;
      AllIndices(hs[..n], name) + (if hs[n] == name then [n] else [])
  }

  /** A name that does not occur has no positions. */
  lemma {:induction false} AllIndicesAbsent(hs: seq<string>, name: string)
    requires name !in hs
    ensures AllIndices(hs, name) == []
    decreases |hs|
  {
    if hs != [] {
      var n := |hs| - 1;
      assert name !in hs[..n] by {
        assert forall i :: 0 <= i < n ==> hs[..n][i] == hs[i];
      }
      AllIndicesAbsent(hs[..n], name);
    }
  }

  function ResolveColumns(hs: seq<string>): Columns {
    Columns(IndexOf(hs, BorrowerNameColumn), IndexOf(hs, LoanNumberColumn),
            IndexOf(hs, DocumentDateColumn), AllIndices(hs, DisclosureColumn))
  }

  /** The resolved columns of a header line: each single-valued column is
      absent or names its first occurrence, and the disclosure positions are
      increasing and name every occurrence. */
  lemma ResolveColumnsSound(line: string)
    ensures var hs := Headers(line); var cols := ResolveColumns(hs);
      (cols.docDate == -1 <==> DocumentDateColumn !in hs) &&
      (cols.docDate >= 0 ==> hs[cols.docDate] == DocumentDateColumn) &&
      Increasing(cols.disclosure) &&
      forall i :: 0 <= i < |hs| ==> (hs[i] == DisclosureColumn <==> i in cols.disclosure)
  {
  }

  /** Every header name is already stripped. */
  lemma HeadersStripped(line: string)
    ensures forall i :: 0 <= i < |Headers(line)| ==> Strip(Headers(line)[i]) == Headers(line)[i]
  {
    var parts := Split(line, ',');
    forall i | 0 <= i < |parts| ensures Strip(Headers(line)[i]) == Headers(line)[i] {
      TrimIdempotent(parts[i], Whitespace);
    }
  }

  /** Duplicate names resolve to all their positions in order. */
  lemma AllIndicesExample()
    ensures AllIndices(["A", "B", "A"], "A") == [0, 2]
  {
    var hs := ["A", "B", "A"];
    assert hs[..2] == ["A", "B"] && hs[..2][..1] == ["A"] && hs[..2][..1][..0] == [];
    assert AllIndices(["A"], "A") == [0];
    assert AllIndices(["A", "B"], "A") == [0];
  }
}
