/** One data line turned into its fields, as `next(csv.reader([line]))`
    does with the default dialect: comma delimiter, double-quote quoting
    with `""` standing for one quote inside a quoted field, no escape
    character, no strict mode, and at most 131072 characters per field.

    The reader is a state machine over the characters of the line. A quote
    opens a quoted field only at the start of a field; anywhere else it is
    an ordinary character. Text after a closing quote is added to the
    field. A carriage return or line feed outside quotes ends the record,
    and only more of them may follow it. A quoted field still open at the
    end of the line is kept as it stands. `None` stands for the reader's
    exception, which makes the filter skip the line. */
module Csv {
  import opened Wrappers
  import opened Text

  const Quote: char := '"'
  const Comma: char := ','

  /** The reader's default `field_size_limit`. */
  const FieldLimit: nat := 131072

  predicate IsLineBreak(c: char) {
    c == '\r' || c == '\n'
  }

  /** Where the reader is: before the first field, at the start of a field,
      inside an unquoted field, inside a quoted field, just after a quote
      inside a quoted field, or past the end of the record. */
  datatype Mode = StartRecord | StartField | InField | InQuotedField | QuoteInQuotedField | EatLineBreaks

  /** The reader's state: its mode, the field being read, and the fields
      already read. */
  datatype Reader = Reader(mode: Mode, field: string, fields: seq<string>)

  const Initial: Reader := Reader(StartRecord, "", [])

  /** Adds a character to the field, failing once the field is at the limit. */
  function AddChar(r: Reader, c: char, mode: Mode): Option<Reader> {
    if |r.field| >= FieldLimit then None else Some(Reader(mode, r.field + [c], r.fields))
  }

  /** Ends the current field. */
  function SaveField(r: Reader, mode: Mode): Reader {
    Reader(mode, "", r.fields + [r.field])
  }

  /** The first character of a field. */
  function BeginField(r: Reader, c: char): Option<Reader> {
    if IsLineBreak(c) then Some(SaveField(r, EatLineBreaks))
    else if c == Quote then Some(r.(mode := InQuotedField))
    else if c == Comma then Some(SaveField(r, StartField))
    else AddChar(r, c, InField)
  }

  /** One character of the line. */
  function Step(r: Reader, c: char): Option<Reader> {
    match r.mode
    case StartRecord => if IsLineBreak(c) then Some(r.(mode := EatLineBreaks)) else BeginField(r, c)
    case StartField => BeginField(r, c)
    case InField =>
      if IsLineBreak(c) then Some(SaveField(r, EatLineBreaks))
      else if c == Comma then Some(SaveField(r, StartField))
      else AddChar(r, c, InField)
    case InQuotedField =>
      if c == Quote then Some(r.(mode := QuoteInQuotedField)) else AddChar(r, c, InQuotedField)
    case QuoteInQuotedField =>
      if c == Quote then AddChar(r, c, InQuotedField)
      else if c == Comma then Some(SaveField(r, StartField))
      else if IsLineBreak(c) then Some(SaveField(r, EatLineBreaks))
      else AddChar(r, c, InField)
    case EatLineBreaks => if IsLineBreak(c) then Some(r) else None
  }

  /** The characters of `s`, one after the other. */
  function Feed(r: Reader, s: string): Option<Reader>
    decreases |s|
  {
    if s == [] then Some(r)
    else
      match Step(r, s[0])
      case None => None
      case Some(next) => Feed(next, s[1..])
  }

  /** Feeds `s` unless the reader has already failed. */
  function Then(r: Option<Reader>, s: string): Option<Reader> {
    match r
    case None => None
    case Some(r) => Feed(r, s)
  }

  /** The end of the line closes an unquoted field; an open quoted field
      waits for more input. */
  function EndOfLine(r: Reader): Reader {
    match r.mode
    case StartRecord => r
    case StartField => SaveField(r, StartRecord)
    case InField => SaveField(r, StartRecord)
    case QuoteInQuotedField => SaveField(r, StartRecord)
    case InQuotedField => r
    case EatLineBreaks => r.(mode := StartRecord)
  }

  /** The end of the input: a record still open (an unclosed quoted field)
      gets its field saved. */
  function EndOfData(r: Reader): seq<string> {
    if r.mode == StartRecord then r.fields else r.fields + [r.field]
  }

  function Finish(r: Option<Reader>): Option<seq<string>> {
    match r
    case None => None
    case Some(r) => Some(EndOfData(EndOfLine(r)))
  }

  /** The fields of a line. */
  function ParseRow(line: string): Option<seq<string>> {
    Finish(Feed(Initial, line))
  }

  lemma {:induction false} FeedAppend(r: Reader, a: string, b: string)
    ensures Feed(r, a + b) == Then(Feed(r, a), b)
    decreases |a|
  {
    if a == [] {
      assert a + b == b;
    } else {
      assert (a + b)[0] == a[0];
      assert (a + b)[1..] == a[1..] + b;
      match Step(r, a[0])
      case None =>
      case Some(next) => FeedAppend(next, a[1..], b);
    }
  }

  /** No comma and no line break: the characters that continue an unquoted
      field. */
  predicate PlainChars(f: string) {
    forall i :: 0 <= i < |f| ==> f[i] != Comma && !IsLineBreak(f[i])
  }

  /** A field that reads back unquoted: plain characters, and no quote at its
      start. Quotes elsewhere in it are ordinary characters. */
  predicate Plain(f: string) {
    PlainChars(f) && (f == [] || f[0] != Quote)
  }

  predicate LineBreaks(s: string) {
    forall i :: 0 <= i < |s| ==> IsLineBreak(s[i])
  }

  /** Plain characters extend an unquoted field. */
  lemma {:induction false} FeedPlain(r: Reader, f: string)
    requires r.mode == InField && PlainChars(f) && |r.field| + |f| <= FieldLimit
    ensures Feed(r, f) == Some(Reader(InField, r.field + f, r.fields))
    decreases |f|
  {
    if f == [] {
      assert r.field + f == r.field;
    } else {
      var next := Reader(InField, r.field + [f[0]], r.fields);
      assert Step(r, f[0]) == Some(next);
      assert PlainChars(f[1..]) by {
        forall i | 0 <= i < |f[1..]| ensures f[1..][i] != Comma && !IsLineBreak(f[1..][i]) {
          assert f[1..][i] == f[i + 1];
        }
      }
      FeedPlain(next, f[1..]);
      assert r.field + [f[0]] + f[1..] == r.field + f;
    }
  }

  /** A field's text with every quote doubled. */
  function Escape(f: string): string
    decreases |f|
  {
    if f == [] then "" else (if f[0] == Quote then [Quote, Quote] else [f[0]]) + Escape(f[1..])
  }

  /** A field without quotes needs no escaping. */
  lemma {:induction false} EscapeUnquoted(f: string)
    requires Quote !in f
    ensures Escape(f) == f
    decreases |f|
  {
    if f != [] {
      assert Quote !in f[1..] by {
        forall i | 0 <= i < |f[1..]| ensures f[1..][i] != Quote {
          assert f[1..][i] == f[i + 1];
        }
      }
      EscapeUnquoted(f[1..]);
      assert [f[0]] + f[1..] == f;
    }
  }

  /** Inside quotes, a doubled quote reads back as one quote and every other
      character, commas and line breaks included, as itself. */
  lemma {:induction false} FeedEscaped(r: Reader, f: string)
    requires r.mode == InQuotedField && |r.field| + |f| <= FieldLimit
    ensures Feed(r, Escape(f)) == Some(Reader(InQuotedField, r.field + f, r.fields))
    decreases |f|
  {
    if f == [] {
      assert r.field + f == r.field;
    } else {
      var next := Reader(InQuotedField, r.field + [f[0]], r.fields);
      var head := if f[0] == Quote then [Quote, Quote] else [f[0]];
      assert Escape(f) == head + Escape(f[1..]);
      FeedAppend(r, head, Escape(f[1..]));
      if f[0] == Quote {
        var q := r.(mode := QuoteInQuotedField);
        assert head[1..] == [Quote] && [Quote][1..] == [];
        assert Feed(q, [Quote]) == Some(next);
        assert Feed(r, head) == Some(next);
      } else {
        assert head[1..] == [];
        assert Feed(r, head) == Some(next);
      }
      FeedEscaped(next, f[1..]);
      assert r.field + [f[0]] + f[1..] == r.field + f;
    }
  }

  /** A field written in quoted form. */
  function QuoteField(f: string): string {
    [Quote] + Escape(f) + [Quote]
  }

  /** A field as it appears on a line, quoted or as it stands. */
  function EncodeField(f: string, quoted: bool): string {
    if quoted then QuoteField(f) else f
  }

  /** A field that survives being written in the chosen form. */
  predicate Writable(f: string, quoted: bool) {
    |f| <= FieldLimit && (quoted || Plain(f))
  }

  /** The modes in which a comma or the end of the line closes the field. */
  predicate FieldOpen(m: Mode) {
    m == StartField || m == InField || m == QuoteInQuotedField
  }

  /** Reading one written field leaves exactly that field open. */
  lemma FeedField(acc: seq<string>, f: string, quoted: bool)
    requires Writable(f, quoted)
    ensures var r := Feed(Reader(StartField, "", acc), EncodeField(f, quoted));
      r.Some? && FieldOpen(r.value.mode) && r.value.field == f && r.value.fields == acc &&
      (quoted ==> r.value.mode == QuoteInQuotedField)
  {
    var r0 := Reader(StartField, "", acc);
    if quoted {
      var r1 := Reader(InQuotedField, "", acc);
      var r2 := Reader(InQuotedField, f, acc);
      assert [Quote][1..] == [];
      assert Feed(r0, [Quote]) == Some(r1);
      FeedEscaped(r1, f);
      assert "" + f == f;
      assert Feed(r2, [Quote]) == Some(r2.(mode := QuoteInQuotedField));
      FeedAppend(r1, Escape(f), [Quote]);
      assert QuoteField(f) == [Quote] + (Escape(f) + [Quote]);
      FeedAppend(r0, [Quote], Escape(f) + [Quote]);
    } else if f != [] {
      var r1 := Reader(InField, [f[0]], acc);
      assert f[0] != Comma && !IsLineBreak(f[0]);
      assert "" + [f[0]] == [f[0]];
      assert Step(r0, f[0]) == Some(r1);
      assert PlainChars(f[1..]) by {
        forall i | 0 <= i < |f[1..]| ensures f[1..][i] != Comma && !IsLineBreak(f[1..][i]) {
          assert f[1..][i] == f[i + 1];
        }
      }
      FeedPlain(r1, f[1..]);
      assert [f[0]] + f[1..] == f;
    }
  }

  /** Line breaks after the end of the record are consumed. */
  lemma {:induction false} FeedLineBreaks(r: Reader, s: string)
    requires r.mode == EatLineBreaks && LineBreaks(s)
    ensures Feed(r, s) == Some(r)
    decreases |s|
  {
    if s != [] {
      assert LineBreaks(s[1..]) by {
        forall i | 0 <= i < |s[1..]| ensures IsLineBreak(s[1..][i]) {
          assert s[1..][i] == s[i + 1];
        }
      }
      FeedLineBreaks(r, s[1..]);
    }
  }

  /** The end of the line, after any number of line breaks, closes the open
      field and the record. */
  lemma CloseLastField(r: Reader, tail: string)
    requires FieldOpen(r.mode) && LineBreaks(tail)
    ensures Finish(Feed(r, tail)) == Some(r.fields + [r.field])
  {
    if tail != [] {
      var next := SaveField(r, EatLineBreaks);
      assert Step(r, tail[0]) == Some(next);
      assert LineBreaks(tail[1..]) by {
        forall i | 0 <= i < |tail[1..]| ensures IsLineBreak(tail[1..][i]) {
          assert tail[1..][i] == tail[i + 1];
        }
      }
      FeedLineBreaks(next, tail[1..]);
    }
  }

  /** A line of fields, each written quoted or unquoted as `qs` says,
      separated by commas. */
  function EncodeMixed(fs: seq<string>, qs: seq<bool>): string
    requires |fs| == |qs| >= 1
    decreases |fs|
  {
    var head := EncodeField(fs[0], qs[0]);
    if |fs| == 1 then head else head + [Comma] + EncodeMixed(fs[1..], qs[1..])
  }

  predicate AllWritable(fs: seq<string>, qs: seq<bool>)
    requires |fs| == |qs|
  {
    forall i :: 0 <= i < |fs| ==> Writable(fs[i], qs[i])
  }

  /** After the written fields, the last one is still open and all the
      others are read. */
  lemma {:induction false} FeedMixed(acc: seq<string>, fs: seq<string>, qs: seq<bool>)
    requires |fs| == |qs| >= 1 && AllWritable(fs, qs)
    ensures var r := Feed(Reader(StartField, "", acc), EncodeMixed(fs, qs));
      r.Some? && FieldOpen(r.value.mode) && r.value.fields + [r.value.field] == acc + fs
    decreases |fs|
  {
    var r0 := Reader(StartField, "", acc);
    var head := EncodeField(fs[0], qs[0]);
    assert Writable(fs[0], qs[0]);
    FeedField(acc, fs[0], qs[0]);
    var r1 := Feed(r0, head).value;
    if |fs| == 1 {
      assert acc + fs == acc + [fs[0]];
    } else {
      var more := EncodeMixed(fs[1..], qs[1..]);
      assert EncodeMixed(fs, qs) == head + ([Comma] + more);
      FeedAppend(r0, head, [Comma] + more);
      var r2 := SaveField(r1, StartField);
      assert ([Comma] + more)[0] == Comma && ([Comma] + more)[1..] == more;
      assert Feed(r1, [Comma] + more) == Feed(r2, more);
      assert AllWritable(fs[1..], qs[1..]) by {
        forall i | 0 <= i < |fs[1..]| ensures Writable(fs[1..][i], qs[1..][i]) {
          assert fs[1..][i] == fs[i + 1] && qs[1..][i] == qs[i + 1];
        }
      }
      FeedMixed(acc + [fs[0]], fs[1..], qs[1..]);
      assert acc + [fs[0]] + fs[1..] == acc + fs;
    }
  }

  /** A written line that is not empty does not start with a line break. */
  lemma EncodeMixedStart(fs: seq<string>, qs: seq<bool>)
    requires |fs| == |qs| >= 1 && AllWritable(fs, qs)
    requires |fs| > 1 || qs[0] || fs[0] != []
    ensures EncodeMixed(fs, qs) != [] && !IsLineBreak(EncodeMixed(fs, qs)[0])
  {
    var head := EncodeField(fs[0], qs[0]);
    assert Writable(fs[0], qs[0]);
    if head == [] {
      assert EncodeMixed(fs, qs) == head + [Comma] + EncodeMixed(fs[1..], qs[1..]);
    } else {
      assert EncodeMixed(fs, qs)[0] == head[0];
    }
  }

  /** Before the first character the reader behaves as at the start of a
      field, unless that character is a line break. */
  lemma FeedFromStart(line: string)
    requires line != [] && !IsLineBreak(line[0])
    ensures Feed(Initial, line) == Feed(Reader(StartField, "", []), line)
  {
    assert Step(Initial, line[0]) == Step(Reader(StartField, "", []), line[0]);
  }

  /** Any fields, each written quoted or unquoted, read back as themselves;
      line breaks at the end of the line (the carriage return a CRLF table
      leaves after splitting at line feeds) change nothing. The one line
      this excludes, a single empty unquoted field, is the empty line. */
  lemma ParseMixedRow(fs: seq<string>, qs: seq<bool>, tail: string)
    requires |fs| == |qs| >= 1 && AllWritable(fs, qs) && LineBreaks(tail)
    requires |fs| > 1 || qs[0] || fs[0] != []
    ensures ParseRow(EncodeMixed(fs, qs) + tail) == Some(fs)
  {
    var written := EncodeMixed(fs, qs);
    var line := written + tail;
    var start := Reader(StartField, "", []);
    EncodeMixedStart(fs, qs);
    assert line[0] == written[0];
    FeedFromStart(line);
    FeedMixed([], fs, qs);
    FeedAppend(start, written, tail);
    CloseLastField(Feed(start, written).value, tail);
    assert [] + fs == fs;
  }

  /** A line holding only line breaks, the empty line included, has no
      fields. */
  lemma ParseRowLineBreaksOnly(line: string)
    requires LineBreaks(line)
    ensures ParseRow(line) == Some([])
  {
    if line != [] {
      var next := Initial.(mode := EatLineBreaks);
      assert Step(Initial, line[0]) == Some(next);
      assert LineBreaks(line[1..]) by {
        forall i | 0 <= i < |line[1..]| ensures IsLineBreak(line[1..][i]) {
          assert line[1..][i] == line[i + 1];
        }
      }
      FeedLineBreaks(next, line[1..]);
    }
  }

  /** Written fields followed by a line break and then anything but a line
      break make the reader fail: the record ended, and the rest of the line
      is an error, not more fields. */
  lemma BreakInsideLine(fs: seq<string>, qs: seq<bool>, b: char, c: char, rest: string)
    requires |fs| == |qs| >= 1 && AllWritable(fs, qs)
    requires IsLineBreak(b) && !IsLineBreak(c)
    ensures ParseRow(EncodeMixed(fs, qs) + [b, c] + rest) == None
  {
    var written := EncodeMixed(fs, qs);
    var after := [b, c] + rest;
    var line := written + [b, c] + rest;
    assert line == written + after;
    if |fs| > 1 || qs[0] || fs[0] != [] {
      var start := Reader(StartField, "", []);
      EncodeMixedStart(fs, qs);
      assert line[0] == written[0];
      FeedFromStart(line);
      FeedMixed([], fs, qs);
      FeedAppend(start, written, after);
      var r := Feed(start, written).value;
      assert Step(r, b) == Some(SaveField(r, EatLineBreaks));
      BreakThenText(SaveField(r, EatLineBreaks), r, b, c, rest);
    } else {
      assert written == [];
      assert line == after;
      assert Step(Initial, b) == Some(Initial.(mode := EatLineBreaks));
      BreakThenText(Initial.(mode := EatLineBreaks), Initial, b, c, rest);
    }
  }

  /** Once a line break has ended the record, a further character that is
      not a line break is an error. */
  lemma BreakThenText(next: Reader, r: Reader, b: char, c: char, rest: string)
    requires next.mode == EatLineBreaks && Step(r, b) == Some(next)
    requires !IsLineBreak(c)
    ensures Feed(r, [b, c] + rest) == None
  {
    var after := [b, c] + rest;
    assert after[0] == b && after[1..] == [c] + rest;
    assert ([c] + rest)[0] == c;
    assert Feed(next, [c] + rest) == None;
  }

  /** A quoted field that is never closed takes the rest of the line,
      commas and line breaks included. */
  lemma ParseUnclosedQuote(f: string)
    requires |f| <= FieldLimit
    ensures ParseRow([Quote] + Escape(f)) == Some([f])
  {
    var r1 := Reader(InQuotedField, "", []);
    var r2 := Reader(InQuotedField, f, []);
    assert [Quote][1..] == [];
    assert Feed(Initial, [Quote]) == Some(r1);
    FeedAppend(Initial, [Quote], Escape(f));
    FeedEscaped(r1, f);
    assert "" + f == f;
    assert Feed(Initial, [Quote] + Escape(f)) == Some(r2);
    assert EndOfData(EndOfLine(r2)) == [f];
  }

  /** Text after a closing quote joins the field, up to the next comma. */
  lemma ParseTextAfterClosingQuote(f: string, g: string)
    requires |f| + |g| <= FieldLimit && Plain(g)
    ensures ParseRow(QuoteField(f) + g) == Some([f + g])
  {
    var start := Reader(StartField, "", []);
    FeedField([], f, true);
    var r := Feed(start, QuoteField(f)).value;
    assert r == Reader(QuoteInQuotedField, f, []);
    assert QuoteField(f)[0] == Quote;
    var line := QuoteField(f) + g;
    assert line[0] == Quote;
    FeedFromStart(line);
    FeedAppend(start, QuoteField(f), g);
    if g != [] {
      var next := Reader(InField, f + [g[0]], []);
      assert g[0] != Comma && !IsLineBreak(g[0]) && g[0] != Quote;
      assert Step(r, g[0]) == Some(next);
      assert PlainChars(g[1..]) by {
        forall i | 0 <= i < |g[1..]| ensures g[1..][i] != Comma && !IsLineBreak(g[1..][i]) {
          assert g[1..][i] == g[i + 1];
        }
      }
      FeedPlain(next, g[1..]);
      assert f + [g[0]] + g[1..] == f + g;
      var last := Reader(InField, f + g, []);
      assert Feed(r, g) == Some(last);
      assert Feed(Initial, line) == Some(last);
      assert EndOfData(EndOfLine(last)) == [f + g];
    } else {
      assert f + g == f;
      assert Feed(Initial, line) == Some(r);
      assert EndOfData(EndOfLine(r)) == [f];
    }
  }

  /** A field longer than the limit makes the reader fail. */
  lemma {:induction false} FeedOverLimit(r: Reader, f: string)
    requires r.mode == InField && PlainChars(f)
    requires |r.field| <= FieldLimit < |r.field| + |f|
    ensures Feed(r, f) == None
    decreases |f|
  {
    assert f[0] != Comma && !IsLineBreak(f[0]);
    if |r.field| < FieldLimit {
      var next := Reader(InField, r.field + [f[0]], r.fields);
      assert Step(r, f[0]) == Some(next);
      assert PlainChars(f[1..]) by {
        forall i | 0 <= i < |f[1..]| ensures f[1..][i] != Comma && !IsLineBreak(f[1..][i]) {
          assert f[1..][i] == f[i + 1];
        }
      }
      FeedOverLimit(next, f[1..]);
    } else {
      assert Step(r, f[0]) == None;
    }
  }

  /** A line whose first field is plain and over the limit is unparsable. */
  lemma ParseRowOverLimit(f: string, rest: string)
    requires Plain(f) && |f| > FieldLimit
    ensures ParseRow(f + rest) == None
  {
    var line := f + rest;
    var r1 := Reader(InField, [f[0]], []);
    assert f[0] != Comma && !IsLineBreak(f[0]);
    assert "" + [f[0]] == [f[0]];
    assert Step(Initial, f[0]) == Some(r1);
    assert line == [f[0]] + (f[1..] + rest);
    FeedAppend(Initial, [f[0]], f[1..] + rest);
    assert [f[0]][1..] == [];
    assert PlainChars(f[1..]) by {
      forall i | 0 <= i < |f[1..]| ensures f[1..][i] != Comma && !IsLineBreak(f[1..][i]) {
        assert f[1..][i] == f[i + 1];
      }
    }
    FeedOverLimit(r1, f[1..]);
    FeedAppend(r1, f[1..], rest);
  }

  /** Fields joined by plain commas, every one written unquoted. */
  lemma {:induction false} EncodePlainIsJoin(fs: seq<string>, qs: seq<bool>)
    requires |fs| == |qs| >= 1
    requires forall i :: 0 <= i < |qs| ==> !qs[i]
    ensures EncodeMixed(fs, qs) == Join(fs, [Comma])
    decreases |fs|
  {
    assert !qs[0];
    if |fs| > 1 {
      assert forall i :: 0 <= i < |qs[1..]| ==> !qs[1..][i] by {
        forall i | 0 <= i < |qs[1..]| ensures !qs[1..][i] {
          assert qs[1..][i] == qs[i + 1];
        }
      }
      EncodePlainIsJoin(fs[1..], qs[1..]);
    }
  }

  /** A line with no quote and no line break is split at every comma, when
      no piece is over the limit; the empty line has no fields. */
  lemma ParseRowUnquoted(line: string)
    requires forall i :: 0 <= i < |line| ==> line[i] != Quote && !IsLineBreak(line[i])
    requires forall i :: 0 <= i < |Split(line, Comma)| ==> |Split(line, Comma)[i]| <= FieldLimit
    ensures ParseRow(line) == Some(if line == [] then [] else Split(line, Comma))
  {
    if line == [] {
      ParseRowLineBreaksOnly(line);
    } else {
      var parts := Split(line, Comma);
      var qs := seq(|parts|, i => false);
      forall i | 0 <= i < |parts| ensures Writable(parts[i], qs[i]) {
        forall j | 0 <= j < |parts[i]| ensures parts[i][j] != Quote && !IsLineBreak(parts[i][j]) {
          SplitPieceChars(line, Comma, i, j);
        }
        assert parts[i] == [] || parts[i][0] != Quote;
      }
      EncodePlainIsJoin(parts, qs);
      JoinSplit(line, Comma);
      assert |parts| > 1 || parts[0] != [] by {
        if |parts| == 1 {
          assert Join(parts, [Comma]) == parts[0];
        }
      }
      ParseMixedRow(parts, qs, "");
      assert EncodeMixed(parts, qs) + "" == line;
    }
  }

  /** A line holding the given fields, each one quoted. */
  function EncodeRow(fields: seq<string>): string
    requires |fields| >= 1
  {
    EncodeMixed(fields, seq(|fields|, i => true))
  }

  /** Every list of fields within the limit survives being written out
      quoted and read back. */
  lemma ParseEncodeRow(fields: seq<string>)
    requires |fields| >= 1
    requires forall i :: 0 <= i < |fields| ==> |fields[i]| <= FieldLimit
    ensures ParseRow(EncodeRow(fields)) == Some(fields)
  {
    var qs := seq(|fields|, i => true);
    assert AllWritable(fields, qs);
    ParseMixedRow(fields, qs, "");
    assert EncodeRow(fields) + "" == EncodeRow(fields);
  }
}
