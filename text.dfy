/** The JavaScript string operations the uploader relies on, with the semantics
    ECMAScript gives them: `trim`, `startsWith`, `endsWith`, `toLowerCase` (on the
    ASCII range), `split` with a string separator, `split(/\r?\n/)`,
    `Number.parseInt(s, 10)`, `Number.prototype.toString()` and `padStart(2, '0')`. */
module Text {
  import opened Wrappers

  // ---------------------------------------------------------------- whitespace

  /** The characters `String.prototype.trim` and `Number.parseInt` skip:
      ECMAScript's WhiteSpace and LineTerminator productions. */
  predicate IsWhitespace(c: char) {
    c == '\t' || c == '\n' || c == '\U{000B}' || c == '\U{000C}' || c == '\r' || c == ' '
    || c == '\U{00A0}' || c == '\U{1680}' || ('\U{2000}' <= c <= '\U{200A}')
    || c == '\U{2028}' || c == '\U{2029}' || c == '\U{202F}' || c == '\U{205F}'
    || c == '\U{3000}' || c == '\U{FEFF}'
  }

  /** `trimStart`: drops the leading whitespace and nothing else. */
  function TrimStart(s: string): (r: string)
    ensures |r| <= |s| && r == s[|s| - |r|..]
    ensures forall i :: 0 <= i < |s| - |r| ==> IsWhitespace(s[i])
    ensures r == [] || !IsWhitespace(r[0])
  {
    if s != [] && IsWhitespace(s[0]) then TrimStart(s[1..]) else s
  }

  /** `trimEnd`: drops the trailing whitespace and nothing else. */
  function TrimEnd(s: string): (r: string)
    ensures |r| <= |s| && r == s[..|r|]
    ensures forall i :: |r| <= i < |s| ==> IsWhitespace(s[i])
    ensures r == [] || !IsWhitespace(r[|r| - 1])
  {
    if s != [] && IsWhitespace(s[|s| - 1]) then TrimEnd(s[..|s| - 1]) else s
  }

  /** `trim`: both ends. */
  function Trim(s: string): string {
    TrimEnd(TrimStart(s))
  }

  /** A string that neither starts nor ends with whitespace is its own trim. */
  lemma TrimUnchanged(s: string)
    requires s == [] || (!IsWhitespace(s[0]) && !IsWhitespace(s[|s| - 1]))
    ensures Trim(s) == s
  {
  }

  /** Trimming twice is trimming once; a trimmed string has no whitespace at either end. */
  lemma TrimIdempotent(s: string)
    ensures Trim(s) == [] || (!IsWhitespace(Trim(s)[0]) && !IsWhitespace(Trim(s)[|Trim(s)| - 1]))
    ensures Trim(Trim(s)) == Trim(s)
  {
    var t := TrimStart(s);
    var r := TrimEnd(t);
    if r != [] {
      assert r[0] == t[0];
    }
    TrimUnchanged(r);
  }

  // ---------------------------------------------------------------- prefixes, suffixes

  predicate StartsWith(s: string, prefix: string) {
    |prefix| <= |s| && s[..|prefix|] == prefix
  }

  predicate EndsWith(s: string, suffix: string) {
    |suffix| <= |s| && s[|s| - |suffix|..] == suffix
  }

  // ---------------------------------------------------------------- case

  /** `toLowerCase` on one character of the ASCII range; other characters are kept. */
  function LowerChar(c: char): char {
    if 'A' <= c <= 'Z' then (c as int + 32) as char else c
  }

  function Lower(s: string): (r: string)
    ensures |r| == |s|
    ensures forall i :: 0 <= i < |s| ==> r[i] == LowerChar(s[i])
  {
    seq(|s|, i requires 0 <= i < |s| => LowerChar(s[i]))
  }

  /** A string with no upper-case ASCII letter. */
  predicate IsLowerCase(s: string) {
    forall i :: 0 <= i < |s| ==> !('A' <= s[i] <= 'Z')
  }

  /** Lower-casing yields a lower-case string, and a lower-case string is its own lower case. */
  lemma LowerIsLowerCase(s: string)
    ensures IsLowerCase(Lower(s))
    ensures IsLowerCase(s) ==> Lower(s) == s
  {
  }

  lemma LowerIdempotent(s: string)
    ensures Lower(Lower(s)) == Lower(s)
  {
    LowerIsLowerCase(s);
  }

  // ---------------------------------------------------------------- searching and splitting

  predicate OccursAt(s: string, sep: string, i: nat) {
    i + |sep| <= |s| && s[i..i + |sep|] == sep
  }

  /** `s.indexOf(sep, from)`: the first position at or after `from` where `sep` occurs. */
  function IndexOf(s: string, sep: string, from: nat): (r: Option<nat>)
    requires from <= |s|
    requires |sep| > 0
    decreases |s| - from
    ensures r.Some? ==> from <= r.value && OccursAt(s, sep, r.value)
    ensures r.Some? ==> forall k :: from <= k < r.value ==> !OccursAt(s, sep, k)
    ensures r.None? ==> forall k :: from <= k <= |s| ==> !OccursAt(s, sep, k)
  {
    if from + |sep| > |s| then None
    else if OccursAt(s, sep, from) then Some(from)
    else IndexOf(s, sep, from + 1)
  }

  /** `const [first, second] = s.split(sep)`: the text before the first separator
      (all of `s` when there is none) and the text between the first and the second
      separator (the rest of `s` when there is no second one; absent when there is
      no first one). */
  function SplitFirstTwo(s: string, sep: string): (r: (string, Option<string>))
    requires |sep| > 0
  {
    match IndexOf(s, sep, 0)
    case None => (s, None)
    case Some(i) =>
      var rest := s[i + |sep|..];
      match IndexOf(rest, sep, 0)
      case None => (s[..i], Some(rest))
      case Some(j) => (s[..i], Some(rest[..j]))
  }

  /** `s.split(sep)` leaves no separator inside the first part, and glues back
      into `s` at the first separator. */
  lemma SplitFirstTwoParts(s: string, sep: string)
    requires |sep| > 0
    ensures var (first, second) := SplitFirstTwo(s, sep);
      (forall k :: 0 <= k < |first| ==> !OccursAt(s, sep, k))
      && (second.None? ==> first == s)
      && (second.Some? ==> StartsWith(s, first + sep) && StartsWith(s[|first| + |sep|..], second.value))
  {
    match IndexOf(s, sep, 0)
    case None =>
    case Some(i) =>
      var rest := s[i + |sep|..];
      assert s[..i + |sep|] == s[..i] + sep;
      match IndexOf(rest, sep, 0)
      case None =>
      case Some(j) =>
  }

  /** `s.split(/\r?\n/)`: cut at every LF, dropping one CR that immediately precedes it. */
  function SplitLines(s: string): (r: seq<string>)
    decreases |s|
    ensures |r| >= 1
    ensures forall k :: 0 <= k < |r| ==> '\n' !in r[k]
  {
    match IndexOf(s, "\n", 0)
    case None =>
      assert forall k :: 0 <= k < |s| ==> !OccursAt(s, "\n", k) && (s[k..k + 1] == [s[k]]);
      [s]
    case Some(i) =>
      var piece := if i > 0 && s[i - 1] == '\r' then s[..i - 1] else s[..i];
      assert forall k :: 0 <= k < i ==> !OccursAt(s, "\n", k) && (s[k..k + 1] == [s[k]]);
      [piece] + SplitLines(s[i + 1..])
  }

  /** The text a sequence of lines makes when each is followed by `eol`, except the last. */
  function JoinLines(lines: seq<string>, eol: string): string
    requires |lines| >= 1
  {
    if |lines| == 1 then lines[0] else lines[0] + eol + JoinLines(lines[1..], eol)
  }

  /** Where no LF occurs, `"\n"` occurs nowhere either. */
  lemma NoNewlineOccurs(s: string, i: nat)
    requires i <= |s|
    requires forall k :: 0 <= k < i ==> s[k] != '\n'
    ensures forall k :: 0 <= k < i ==> !OccursAt(s, "\n", k)
  {
    forall k | 0 <= k < i ensures !OccursAt(s, "\n", k) {
      if k + 1 <= |s| { assert s[k..k + 1] == [s[k]]; }
    }
  }

  /** In a line followed by a line end, the first LF is the one the line end holds. */
  lemma FirstNewline(l: string, eol: string, tail: string)
    requires '\n' !in l
    requires eol == "\n" || eol == "\r\n"
    ensures IndexOf(l + eol + tail, "\n", 0) == Some(|l| + |eol| - 1)
  {
    var s := l + eol + tail;
    var i := |l| + |eol| - 1;
    assert s[i..i + 1] == "\n";
    assert forall k :: 0 <= k < i ==> s[k] != '\n' by {
      forall k | 0 <= k < i ensures s[k] != '\n' {
        if k < |l| { assert s[k] == l[k]; } else { assert s[k] == eol[0] == '\r'; }
      }
    }
    NoNewlineOccurs(s, i);
    assert OccursAt(s, "\n", i);
    match IndexOf(s, "\n", 0)
    case None =>
    case Some(v) => assert !(v < i) && !(i < v);
  }

  /** A line `\r?\n` splitting gives back whole: no LF in it, and no CR at its end
      (which would be taken for part of a CRLF). */
  predicate PlainLine(l: string) {
    '\n' !in l && (l == [] || l[|l| - 1] != '\r')
  }

  /** A plain line, then a line end: splitting takes off exactly that line. */
  lemma SplitLineStep(l: string, eol: string, tail: string)
    requires PlainLine(l)
    requires eol == "\n" || eol == "\r\n"
    ensures SplitLines(l + eol + tail) == [l] + SplitLines(tail)
  {
    var s := l + eol + tail;
    var i := |l| + |eol| - 1;
    FirstNewline(l, eol, tail);
    assert s[i + 1..] == tail;
    if eol == "\r\n" {
      assert s[..i - 1] == l;
    } else {
      assert s[..i] == l;
      assert l != [] ==> s[i - 1] == l[|l| - 1];
    }
  }

  /** A plain line alone splits into itself. */
  lemma SplitLastLine(l: string)
    requires PlainLine(l)
    ensures SplitLines(l) == [l]
  {
    NoNewlineOccurs(l, |l|);
    assert IndexOf(l, "\n", 0).None?;
  }

  /** Splitting undoes joining, with LF and with CRLF line ends alike, for plain lines. */
  lemma {:induction false} SplitJoinLines(lines: seq<string>, crlf: bool)
    requires |lines| >= 1
    requires forall k :: 0 <= k < |lines| ==> PlainLine(lines[k])
    ensures SplitLines(JoinLines(lines, if crlf then "\r\n" else "\n")) == lines
  {
    var eol := if crlf then "\r\n" else "\n";
    var l := lines[0];
    if |lines| == 1 {
      SplitLastLine(l);
    } else {
      var rest := lines[1..];
      var tail := JoinLines(rest, eol);
      assert JoinLines(lines, eol) == l + eol + tail;
      SplitLineStep(l, eol, tail);
      assert forall k :: 0 <= k < |rest| ==> rest[k] == lines[k + 1];
      SplitJoinLines(rest, crlf);
      assert lines == [l] + rest;
    }
  }

  // ---------------------------------------------------------------- decimal numbers

  predicate IsDigit(c: char) {
    '0' <= c <= '9'
  }

  predicate AllDigits(s: string) {
    forall i :: 0 <= i < |s| ==> IsDigit(s[i])
  }

  function DigitValue(c: char): nat
    requires IsDigit(c)
  {
    c as int - '0' as int
  }

  function DigitChar(d: nat): (c: char)
    requires d < 10
    ensures IsDigit(c) && DigitValue(c) == d
  {
    ('0' as int + d) as char
  }

  /** The number a string of decimal digits denotes. */
  function DecimalValue(ds: string): nat
    requires AllDigits(ds)
  {
    if ds == [] then 0 else DecimalValue(ds[..|ds| - 1]) * 10 + DigitValue(ds[|ds| - 1])
  }

  /** Leading zeros do not change the value of a digit string. */
  lemma {:induction false} DecimalLeadingZero(ds: string)
    requires AllDigits(ds)
    ensures AllDigits("0" + ds) && DecimalValue("0" + ds) == DecimalValue(ds)
  {
    if ds != [] {
      assert ("0" + ds)[..|ds|] == "0" + ds[..|ds| - 1];
      DecimalLeadingZero(ds[..|ds| - 1]);
    }
  }

  /** `n.toString()` for a non-negative integer: its decimal digits, no leading zero. */
  function NatToString(n: nat): (r: string)
    ensures |r| >= 1 && AllDigits(r)
    ensures r[0] == '0' ==> n == 0
  {
    if n < 10 then [DigitChar(n)] else NatToString(n / 10) + [DigitChar(n % 10)]
  }

  /** Reading back the digits `toString` writes gives the number. */
  lemma {:induction false} NatToStringValue(n: nat)
    ensures DecimalValue(NatToString(n)) == n
  {
    if n >= 10 {
      var s := NatToString(n);
      assert s[..|s| - 1] == NatToString(n / 10);
      NatToStringValue(n / 10);
    }
  }

  /** A number below 10^k is written with at most k digits. */
  lemma {:induction false} NatToStringLength(n: nat)
    ensures n < 10 ==> |NatToString(n)| == 1
    ensures 10 <= n < 100 ==> |NatToString(n)| == 2
    ensures 100 <= n < 1000 ==> |NatToString(n)| == 3
  {
    if n >= 10 {
      NatToStringLength(n / 10);
    }
  }

  /** `s.padStart(2, '0')`. */
  function PadStart2(s: string): (r: string)
    ensures |r| >= 2
    ensures |s| >= 2 ==> r == s
    ensures |s| < 2 ==> r == seq(2 - |s|, _ => '0') + s
  {
    if |s| >= 2 then s else if |s| == 1 then "0" + s else "00"
  }

  /** Zero-padding a number's digits keeps them digits of the same value. */
  lemma PadStart2Value(n: nat)
    ensures AllDigits(PadStart2(NatToString(n)))
    ensures DecimalValue(PadStart2(NatToString(n))) == n
  {
    NatToStringValue(n);
    var s := NatToString(n);
    if |s| < 2 {
      DecimalLeadingZero(s);
    }
  }

  // ---------------------------------------------------------------- Number.parseInt

  /** The length of the longest prefix of `s` made of decimal digits. */
  function DigitPrefixLength(s: string): (n: nat)
    ensures n <= |s| && AllDigits(s[..n])
    ensures n < |s| ==> !IsDigit(s[n])
  {
    if s == [] || !IsDigit(s[0]) then 0
    else
      var n := 1 + DigitPrefixLength(s[1..]);
      assert s[..n] == [s[0]] + s[1..][..n - 1];
      n
  }

  /** `Number.parseInt(s, 10)`: skip leading whitespace, take an optional sign, then
      the longest run of decimal digits; no digit at all gives NaN (here `None`).
      Whatever follows the digits is ignored. */
  function ParseInt(s: string): (r: Option<int>)
  {
    var t := TrimStart(s);
    var negative := t != [] && t[0] == '-';
    var u := if t != [] && (t[0] == '-' || t[0] == '+') then t[1..] else t;
    match ParseDigits(u)
    case None => None
    case Some(magnitude) => var m: int := magnitude; Some(if negative then -m else m)
  }

  /** The value of the digit run at the start of `u`, if there is one. */
  function ParseDigits(u: string): Option<nat> {
    var n := DigitPrefixLength(u);
    if n == 0 then None else Some(DecimalValue(u[..n]))
  }

  /** `parseInt` reads back what `toString` writes, whatever text follows the digits. */
  lemma ParseIntPrefix(n: nat, tail: string)
    requires tail == [] || !IsDigit(tail[0])
    ensures ParseInt(NatToString(n) + tail) == Some(n)
  {
    var s := NatToString(n) + tail;
    var d := NatToString(n);
    assert !IsWhitespace(s[0]) && s[0] != '-' && s[0] != '+';
    assert TrimStart(s) == s;
    DigitPrefixUpTo(s, |d|);
    assert s[..|d|] == d;
    NatToStringValue(n);
  }

  /** The digit run of `ds + tail` is `ds` when `tail` does not start with a digit. */
  lemma {:induction false} DigitPrefixUpTo(s: string, k: nat)
    requires k <= |s| && AllDigits(s[..k])
    requires k == |s| || !IsDigit(s[k])
    ensures DigitPrefixLength(s) == k
  {
    if k > 0 {
      assert s[0] == s[..k][0];
      assert s[1..][..k - 1] == s[..k][1..];
      DigitPrefixUpTo(s[1..], k - 1);
    }
  }

  /** Text that starts with neither a digit nor a sign followed by a digit is NaN. */
  lemma ParseIntNoDigit(s: string)
    requires s != [] && !IsWhitespace(s[0]) && !IsDigit(s[0])
    requires (s[0] == '-' || s[0] == '+') ==> |s| == 1 || !IsDigit(s[1])
    ensures ParseInt(s) == None
  {
    assert TrimStart(s) == s;
  }

  /** After a minus sign, `parseInt` reads the digit run and negates it. */
  lemma ParseIntMinus(u: string)
    ensures ParseInt("-" + u) == match ParseDigits(u) case None => None case Some(m) => Some(-(m as int))
  {
    var s := "-" + u;
    assert !IsWhitespace(s[0]);
    assert TrimStart(s) == s;
    assert s[1..] == u;
  }

  /** A minus sign before the digits negates the number read. */
  lemma ParseIntNegative(n: nat, tail: string)
    requires tail == [] || !IsDigit(tail[0])
    ensures ParseInt("-" + NatToString(n) + tail) == Some(-(n as int))
  {
    var d := NatToString(n);
    var u := d + tail;
    assert "-" + d + tail == "-" + u;
    ParseIntMinus(u);
    assert u[..|d|] == d;
    DigitPrefixUpTo(u, |d|);
    NatToStringValue(n);
  }

  /** `parseInt` fails exactly when no digit follows the whitespace and the sign. */
  lemma ParseIntNaN(s: string)
    ensures var t := TrimStart(s);
      var u := if t != [] && (t[0] == '-' || t[0] == '+') then t[1..] else t;
      ParseInt(s).None? <==> (u == [] || !IsDigit(u[0]))
  {
  }
}
