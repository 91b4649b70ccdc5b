/** The string primitives the filter relies on: Python's `str.strip`,
    `str.split` with a one-character separator, `str.join`, and the decimal
    rendering of a count in an f-string. */
module Text {

  /** The characters `str.strip()` removes in this model: space, tab, line
      feed, vertical tab, form feed and carriage return. Python also strips
      U+001C to U+001F and Unicode spaces such as U+0085 and U+00A0. */
  const Whitespace: set<char> := {' ', '\t', '\n', '\U{000B}', '\U{000C}', '\r'}

  /** Removes the leading characters that belong to `drop`. */
  function TrimLeft(s: string, drop: set<char>): string
    decreases |s|
  {
    if |s| > 0 && s[0] in drop then TrimLeft(s[1..], drop) else s
  }

  /** Removes the trailing characters that belong to `drop`. */
  function TrimRight(s: string, drop: set<char>): string
    decreases |s|
  {
    if |s| > 0 && s[|s| - 1] in drop then TrimRight(s[..|s| - 1], drop) else s
  }

  /** TrimLeft drops the longest prefix made of droppable characters. */
  lemma {:induction false} TrimLeftSpec(s: string, drop: set<char>)
    ensures var r := TrimLeft(s, drop);
      |r| <= |s| && r == s[|s| - |r|..] &&
      (forall i :: 0 <= i < |s| - |r| ==> s[i] in drop) &&
      (r != [] ==> r[0] !in drop)
    decreases |s|
  {
    if |s| > 0 && s[0] in drop {
      TrimLeftSpec(s[1..], drop);
      forall i | 1 <= i < |s| ensures s[i] == s[1..][i - 1] { }
    }
  }

  /** TrimRight drops the longest suffix made of droppable characters. */
  lemma {:induction false} TrimRightSpec(s: string, drop: set<char>)
    ensures var r := TrimRight(s, drop);
      |r| <= |s| && r == s[..|r|] &&
      (forall i :: |r| <= i < |s| ==> s[i] in drop) &&
      (r != [] ==> r[|r| - 1] !in drop)
    decreases |s|
  {
    if |s| > 0 && s[|s| - 1] in drop {
      TrimRightSpec(s[..|s| - 1], drop);
    }
  }

  /** Python's `s.strip(chars)`: both ends, leading characters first. */
  function Trim(s: string, drop: set<char>): string {
    TrimRight(TrimLeft(s, drop), drop)
  }

  /** Python's `s.strip()` over the whitespace set above. */
  function Strip(s: string): string {
    Trim(s, Whitespace)
  }

  lemma TrimIdempotent(s: string, drop: set<char>)
    ensures Trim(Trim(s, drop), drop) == Trim(s, drop)
  {
    var l := TrimLeft(s, drop);
    var t := Trim(s, drop);
    TrimLeftSpec(s, drop);
    TrimRightSpec(l, drop);
    TrimLeftSpec(t, drop);
    TrimRightSpec(t, drop);
    assert TrimLeft(t, drop) == t;
    assert TrimRight(t, drop) == t;
  }

  /** A string that neither starts nor ends with a droppable character is
      left as it is. */
  lemma TrimUnchanged(s: string, drop: set<char>)
    requires s != [] && s[0] !in drop && s[|s| - 1] !in drop
    ensures Trim(s, drop) == s
  {
  }

  /** Trimming leaves nothing exactly when every character is droppable:
      this is the test `not line.strip()` makes on a blank line. */
  lemma TrimEmptyIff(s: string, drop: set<char>)
    ensures Trim(s, drop) == [] <==> forall i :: 0 <= i < |s| ==> s[i] in drop
  {
    var l := TrimLeft(s, drop);
    TrimLeftSpec(s, drop);
    TrimRightSpec(l, drop);
    if Trim(s, drop) == [] {
      assert l == [];
    }
  }

  /** Concatenation regrouped; stated once so that proofs about long texts
      need not rediscover it. */
  lemma AppendAssoc<T>(x: seq<T>, y: seq<T>, z: seq<T>)
    ensures x + (y + z) == (x + y) + z
  {
  }

  /** The first position of `c` in `s`, or `|s|` when it does not occur. */
  function Find(s: string, c: char): (k: nat)
    ensures k <= |s|
    ensures k < |s| ==> s[k] == c
    ensures forall i :: 0 <= i < k ==> s[i] != c
    decreases |s|
  {
    if |s| == 0 || s[0] == c then 0 else 1 + Find(s[1..], c)
  }

  /** Python's `s.split(sep)` for a one-character separator. */
  function Split(s: string, sep: char): (parts: seq<string>)
    ensures |parts| >= 1
    ensures forall i :: 0 <= i < |parts| ==> sep !in parts[i]
    decreases |s|
  {
    var k := Find(s, sep);
    if k == |s| then [s] else [s[..k]] + Split(s[k + 1..], sep)
  }

  /** Python's `sep.join(parts)`. */
  function Join(parts: seq<string>, sep: string): string
    decreases |parts|
  {
    if |parts| == 0 then ""
    else if |parts| == 1 then parts[0]
    else parts[0] + sep + Join(parts[1..], sep)
  }

  /** Splitting loses nothing: joining the pieces back gives the input. */
  lemma {:induction false} JoinSplit(s: string, sep: char)
    ensures Join(Split(s, sep), [sep]) == s
    decreases |s|
  {
    var k := Find(s, sep);
    if k < |s| {
      var rest := s[k + 1..];
      var tail := Split(rest, sep);
      JoinSplit(rest, sep);
      SplitAtFirst(s, sep);
      JoinCons(s[..k], tail, [sep]);
      assert s == s[..k] + [sep] + rest by {
        assert s[k] == sep;
      }
    }
  }

  /** One unfolding of Split at the first separator. */
  lemma SplitAtFirst(s: string, sep: char)
    requires Find(s, sep) < |s|
    ensures Split(s, sep) == [s[..Find(s, sep)]] + Split(s[Find(s, sep) + 1..], sep)
  {
  }

  /** Joining splits off the first piece and the separator after it. */
  lemma JoinCons(p: string, tail: seq<string>, sep: string)
    requires tail != []
    ensures Join([p] + tail, sep) == p + sep + Join(tail, sep)
  {
    assert ([p] + tail)[1..] == tail;
  }

  /** Splitting a text that starts with a separator-free piece and a
      separator yields that piece, then the pieces of the rest. */
  lemma SplitCons(p: string, sep: char, rest: string)
    requires sep !in p
    ensures Split(p + [sep] + rest, sep) == [p] + Split(rest, sep)
  {
    var s := p + [sep] + rest;
    FindAfter(p, sep, rest);
    assert s[..|p|] == p && s[|p| + 1..] == rest;
  }

  /** Joining pieces that do not contain the separator and splitting again
      gives the pieces back. */
  lemma {:induction false} SplitJoin(parts: seq<string>, sep: char)
    requires |parts| >= 1
    requires forall i :: 0 <= i < |parts| ==> sep !in parts[i]
    ensures Split(Join(parts, [sep]), sep) == parts
    decreases |parts|
  {
    var p := parts[0];
    if |parts| > 1 {
      var tail := parts[1..];
      assert parts == [p] + tail;
      JoinCons(p, tail, [sep]);
      SplitCons(p, sep, Join(tail, [sep]));
      SplitJoin(tail, sep);
    } else {
      FindAbsent(p, sep);
    }
  }

  /** A join of two or more pieces ends with the separator and the last
      piece. */
  lemma {:induction false} JoinLast(parts: seq<string>, sep: string)
    requires |parts| >= 2
    ensures var n := |parts| - 1;
      Join(parts, sep) == Join(parts[..n], sep) + sep + parts[n]
    decreases |parts|
  {
    var n := |parts| - 1;
    if |parts| > 2 {
      var tail := parts[1..];
      JoinLast(tail, sep);
      assert tail[..n - 1] == parts[1..n] && tail[n - 1] == parts[n];
      assert parts[..n][1..] == parts[1..n];
      JoinCons(parts[0], parts[1..n], sep);
      assert [parts[0]] + parts[1..n] == parts[..n];
      AppendAssoc(parts[0] + sep, Join(parts[1..n], sep), sep + parts[n]);
      AppendAssoc(parts[0] + sep + Join(parts[1..n], sep), sep, parts[n]);
    } else {
      assert parts[..1] == [parts[0]] && parts[1..] == [parts[1]];
    }
  }

  /** Every character of a piece comes from the split text. */
  lemma {:induction false} SplitPieceChars(s: string, sep: char, i: nat, j: nat)
    requires i < |Split(s, sep)| && j < |Split(s, sep)[i]|
    ensures Split(s, sep)[i][j] in s
    decreases |s|
  {
    var k := Find(s, sep);
    if k < |s| {
      var rest := s[k + 1..];
      assert Split(s, sep) == [s[..k]] + Split(rest, sep);
      if i == 0 {
        assert s[..k][j] == s[j];
      } else {
        SplitPieceChars(rest, sep, i - 1, j);
        var c := Split(rest, sep)[i - 1][j];
        var m :| 0 <= m < |rest| && rest[m] == c;
        assert s[k + 1 + m] == c;
      }
    } else {
      assert Split(s, sep)[0] == s;
    }
  }

  lemma FindAbsent(p: string, c: char)
    requires c !in p
    ensures Find(p, c) == |p|
  {
  }

  lemma FindAfter(p: string, c: char, rest: string)
    requires c !in p
    ensures Find(p + [c] + rest, c) == |p|
  {
    var s := p + [c] + rest;
    var k := Find(s, c);
    assert s[|p|] == c;
    assert forall i :: 0 <= i < |p| ==> s[i] == p[i];
  }

  /** The character of a decimal digit. */
  function DigitChar(d: nat): (c: char)
    requires d < 10
    ensures '0' <= c <= '9' && c as int - '0' as int == d
  {
    ('0' as int + d) as char
  }

  predicate IsDigits(s: string) {
    forall i :: 0 <= i < |s| ==> '0' <= s[i] <= '9'
  }

  /** The decimal text of `n`, as `f"{n}"` produces it. */
  function NatToString(n: nat): (s: string)
    ensures |s| >= 1 && IsDigits(s)
    ensures s[0] == '0' ==> n == 0
    decreases n
  {
    if n < 10 then [DigitChar(n)] else NatToString(n / 10) + [DigitChar(n % 10)]
  }

  /** The number a string of decimal digits denotes. */
  function DigitsValue(s: string): nat
    requires IsDigits(s)
    decreases |s|
  {
    if s == [] then 0 else DigitsValue(s[..|s| - 1]) * 10 + (s[|s| - 1] as int - '0' as int)
  }

  /** The rendered count reads back as the count. */
  lemma {:induction false} NatToStringRoundTrip(n: nat)
    ensures DigitsValue(NatToString(n)) == n
    decreases n
  {
    var s := NatToString(n);
    if n >= 10 {
      NatToStringRoundTrip(n / 10);
      assert s[..|s| - 1] == NatToString(n / 10);
    }
  }
}
