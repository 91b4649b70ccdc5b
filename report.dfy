/** The text the filter returns once the ready list is known: a fixed
    message when it is empty, otherwise a count line, one numbered entry per
    ready borrower in list order, and a fixed closing sentence. */
module Report {
  import opened Text
  import opened Readiness

  /** The message for an empty ready list. */
  const NoneReadyMessage: string :=
    "No borrowers are currently " + "ready for ITP processing.\n" +
    "\n" +
    "Borrowers need ALL THREE dates filled:\n" +
    "1. A date in the \"Document Date R\" column\n" +
    "2. A date in the FIRST \"eDisclosure D\" column\n" +
    "3. A date in the SECOND \"eDisclosure D\" column\n" +
    "\n" +
    "Please check the borrower table for status updates."

  const CountPrefix: string := "**Found "

  const Closing: string :=
    "These borrowers have completed the necessary documentation steps and are ready for ITP document processing."

  /** The rest of the count line. */
  const CountSuffix: string := " borrower(s) ready for " + "Intent to Proceed (ITP) processing:**\n\n"

  /** The opening line, announcing the number of ready borrowers. */
  function CountLine(n: nat): string {
    CountPrefix + NatToString(n) + CountSuffix
  }

  function NameLine(number: nat, b: Borrower): string {
    NatToString(number) + ". **" + b.name + "**\n"
  }

  function LoanLine(b: Borrower): string {
    "   - Loan Number: " + b.loanNumber + "\n"
  }

  function DateLine(b: Borrower): string {
    "   - Document Date: " + b.docDate + "\n"
  }

  /** The disclosure dates, separated by ", ". */
  function DisclosureLine(b: Borrower): string {
    "   - eDisclosure Date(s): " + Join(b.disclosureDates, ", ") + "\n\n"
  }

  /** The four lines of the entry numbered `number`. */
  function EntryText(number: nat, b: Borrower): string {
    NameLine(number, b) + LoanLine(b) + DateLine(b) + DisclosureLine(b)
  }

  /** The entries of `bs`, numbered from `first`. */
  function Entries(bs: seq<Borrower>, first: nat): string
    decreases |bs|
  {
    if bs == [] then "" else EntryText(first, bs[0]) + Entries(bs[1..], first + 1)
  }

  function Render(bs: seq<Borrower>): string {
    if bs == [] then NoneReadyMessage else CountLine(|bs|) + Entries(bs, 1) + Closing
  }

  /** The loop that accumulates the report text entry by entry. */
  method FormatReady(bs: seq<Borrower>) returns (result: string)
    ensures result == Render(bs)
  {
    if bs == [] {
      return NoneReadyMessage;
    }
    result := CountPrefix + NatToString(|bs|) + CountSuffix;
    for i := 0 to |bs|
      invariant result == CountLine(|bs|) + Entries(bs[..i], 1)
    {
      var b := bs[i];
      ghost var before := result;
      result := result + NameLine(i + 1, b);
      result := result + LoanLine(b);
      result := result + DateLine(b);
      result := result + DisclosureLine(b);
      AppendEntry(before, i + 1, b);
      EntriesStep(bs, i);
    }
    assert bs[..|bs|] == bs;
    result := result + Closing;
  }

  /** Appending an entry's four lines one by one appends its text. */
  lemma AppendEntry(acc: string, number: nat, b: Borrower)
    ensures acc + NameLine(number, b) + LoanLine(b) + DateLine(b) + DisclosureLine(b) ==
            acc + EntryText(number, b)
  {
    AppendAssoc(acc, NameLine(number, b) + LoanLine(b) + DateLine(b), DisclosureLine(b));
    AppendAssoc(acc, NameLine(number, b) + LoanLine(b), DateLine(b));
    AppendAssoc(acc, NameLine(number, b), LoanLine(b));
  }

  /** One more entry extends the report text by that entry. */
  lemma EntriesStep(bs: seq<Borrower>, i: nat)
    requires i < |bs|
    ensures CountLine(|bs|) + Entries(bs[..i], 1) + EntryText(i + 1, bs[i]) ==
            CountLine(|bs|) + Entries(bs[..i + 1], 1)
  {
    EntriesAppend(bs[..i], [bs[i]], 1);
    assert bs[..i + 1] == bs[..i] + [bs[i]];
    assert Entries([bs[i]], i + 1) == EntryText(i + 1, bs[i]);
    AppendAssoc(CountLine(|bs|), Entries(bs[..i], 1), EntryText(i + 1, bs[i]));
  }

  lemma {:induction false} EntriesAppend(a: seq<Borrower>, b: seq<Borrower>, first: nat)
    ensures Entries(a + b, first) == Entries(a, first) + Entries(b, first + |a|)
    decreases |a|
  {
    if a != [] {
      assert (a + b)[1..] == a[1..] + b;
      EntriesAppend(a[1..], b, first + 1);
      AppendAssoc(EntryText(first, a[0]), Entries(a[1..], first + 1), Entries(b, first + |a|));
    } else {
      assert a + b == b;
    }
  }

  /** The borrower at list position k is printed as entry number k + 1,
      after the entries of the borrowers before it. */
  lemma EntryNumbering(bs: seq<Borrower>, k: nat)
    requires k < |bs|
    ensures Entries(bs, 1) == Entries(bs[..k], 1) + EntryText(k + 1, bs[k]) + Entries(bs[k + 1..], k + 2)
  {
    var later := [bs[k]] + bs[k + 1..];
    assert bs == bs[..k] + later;
    EntriesAppend(bs[..k], later, 1);
    assert later[1..] == bs[k + 1..];
    assert Entries(later, k + 1) == EntryText(k + 1, bs[k]) + Entries(bs[k + 1..], k + 2);
    AppendAssoc(Entries(bs[..k], 1), EntryText(k + 1, bs[k]), Entries(bs[k + 1..], k + 2));
  }

  /** The fixed message is returned exactly when no borrower is ready. */
  lemma RenderNoneIff(bs: seq<Borrower>)
    ensures Render(bs) == NoneReadyMessage <==> bs == []
  {
    if bs != [] {
      assert Render(bs)[0] == '*';
      assert NoneReadyMessage[0] == 'N';
    }
  }

  /** Every report starts with 'N' (none ready) or '*' (the count line). */
  lemma RenderFirstChar(bs: seq<Borrower>)
    ensures |Render(bs)| > 0 && (Render(bs)[0] == 'N' || Render(bs)[0] == '*')
    ensures Render(bs)[0] == '*' <==> bs != []
  {
    if bs != [] {
      assert Render(bs)[0] == '*';
    } else {
      assert NoneReadyMessage[0] == 'N';
    }
  }

  /** The longest prefix made of decimal digits. */
  function LeadingDigits(s: string): (d: string)
    ensures |d| <= |s| && IsDigits(d) && d == s[..|d|]
    ensures |d| < |s| ==> !('0' <= s[|d|] <= '9')
    decreases |s|
  {
    if |s| > 0 && '0' <= s[0] <= '9' then [s[0]] + LeadingDigits(s[1..]) else ""
  }

  /** The count a report announces, read back from its text. */
  function AnnouncedCount(report: string): nat {
    if |report| >= |CountPrefix| && report[..|CountPrefix|] == CountPrefix
    then DigitsValue(LeadingDigits(report[|CountPrefix|..]))
    else 0
  }

  lemma {:induction false} LeadingDigitsOfDigits(d: string, rest: string)
    requires IsDigits(d)
    requires rest == [] || !('0' <= rest[0] <= '9')
    ensures LeadingDigits(d + rest) == d
    decreases |d|
  {
    if d != [] {
      assert (d + rest)[1..] == d[1..] + rest;
      LeadingDigitsOfDigits(d[1..], rest);
      assert [d[0]] + d[1..] == d;
    } else {
      assert d + rest == rest;
    }
  }

  /** A non-empty report announces exactly the number of ready borrowers,
      and ends with the closing sentence. */
  lemma AnnouncedCountIsLength(bs: seq<Borrower>)
    requires bs != []
    ensures AnnouncedCount(Render(bs)) == |bs|
    ensures |Render(bs)| >= |Closing| && Render(bs)[|Render(bs)| - |Closing|..] == Closing
  {
    var r := Render(bs);
    var digits := NatToString(|bs|);
    var tail := CountSuffix;
    var rest := tail + Entries(bs, 1) + Closing;
    AppendAssoc(CountPrefix, digits, tail);
    AppendAssoc(CountPrefix + digits, tail, Entries(bs, 1));
    AppendAssoc(CountPrefix, digits, tail + Entries(bs, 1));
    AppendAssoc(CountPrefix + digits, tail + Entries(bs, 1), Closing);
    AppendAssoc(CountPrefix, digits, tail + Entries(bs, 1) + Closing);
    assert r == CountPrefix + (digits + rest);
    assert r[..|CountPrefix|] == CountPrefix;
    assert r[|CountPrefix|..] == digits + rest;
    LeadingDigitsOfDigits(digits, rest);
    NatToStringRoundTrip(|bs|);
  }
}
