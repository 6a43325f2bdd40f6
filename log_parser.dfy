/** `parseCompletedEntriesFromLog` (src/log-parser.ts): reads the paths a previous run
    reported as uploaded or as already uploaded. The file is given by its content
    (absent when it is missing or not a regular file); `path.resolve` is the parameter
    `resolve`. The `dedup` Map is an insertion-ordered map: a sequence of keys in
    insertion order beside a map from key to value. */
module LogParser {
  import opened Wrappers
  import opened Text
  import opened Types

  const UPLOADED_PREFIX: string := "Uploaded: "
  const SKIPPING_PREFIX: string := "Skipping already uploaded file: "
  const ARROW: string := " -> "

  datatype ParseError = LogFileNotFound(logPath: string)

  /** A character `\b` counts as part of a word: `[A-Za-z0-9_]`. */
  predicate IsWordChar(c: char) {
    'a' <= c <= 'z' || 'A' <= c <= 'Z' || '0' <= c <= '9' || c == '_'
  }

  /** `afterArrow.match(/^(\d{3})\b/)` and `Number.parseInt` of the three digits. */
  predicate HasStatusCode(text: string) {
    |text| >= 3 && AllDigits(text[..3]) && (|text| == 3 || !IsWordChar(text[3]))
  }

  /** The status code of an `Uploaded:` line: the three-digit number that starts the
      text after the arrow, if that text exists and is non-empty and the digits end at
      a word boundary; otherwise null. */
  function StatusCodeOf(afterArrow: Option<string>): (r: Option<int>)
    ensures r.Some? ==> 0 <= r.value <= 999
    ensures r.Some? <==> afterArrow.Some? && HasStatusCode(afterArrow.value)
    ensures r.Some? ==> r.value == DecimalValue(afterArrow.value[..3])
  {
    if afterArrow.Some? && afterArrow.value != [] && HasStatusCode(afterArrow.value) then
      var d := afterArrow.value[..3];
      assert d[..2][..1] == d[..1] && d[..1][..0] == [];
      assert DecimalValue(d) == DecimalValue(d[..2]) * 10 + DigitValue(d[2]);
      assert DecimalValue(d[..2]) == DecimalValue(d[..1]) * 10 + DigitValue(d[1]);
      assert DecimalValue(d[..1]) == DigitValue(d[0]);
      Some(DecimalValue(d))
    else None
  }

  /** What one line of the log asks of the `dedup` map (before path resolution). */
  datatype LineEffect =
    | SetCode(path: string, code: Option<int>)  // `Uploaded: <path> -> <code>...`
    | KeepCode(path: string)                    // `Skipping already uploaded file: <path>`
    | NoEffect                                  // any other line

  function ReadLine(rawLine: string): LineEffect {
    var line := Trim(rawLine);
    if StartsWith(line, UPLOADED_PREFIX) then
      var (filePathPart, afterArrow) := SplitFirstTwo(line[|UPLOADED_PREFIX|..], ARROW);
      if filePathPart == [] then NoEffect
      else SetCode(Trim(filePathPart), StatusCodeOf(afterArrow))
    else if StartsWith(line, SKIPPING_PREFIX) then
      var filePath := Trim(line[|SKIPPING_PREFIX|..]);
      if |filePath| > 0 then KeepCode(filePath) else NoEffect
    else NoEffect
  }

  /** The effect of each line, in order. */
  function Effects(lines: seq<string>): (r: seq<LineEffect>)
    ensures |r| == |lines|
    ensures forall i :: 0 <= i < |lines| ==> r[i] == ReadLine(lines[i])
  {
    seq(|lines|, i requires 0 <= i < |lines| => ReadLine(lines[i]))
  }

  /** The resolved path an effect is about, if any. */
  function Mentioned(effect: LineEffect, resolve: string -> string): Option<string> {
    match effect
    case SetCode(p, _) => Some(resolve(p))
    case KeepCode(p) => Some(resolve(p))
    case NoEffect => None
  }

  // ---------------------------------------------------------------- the dedup map

  datatype OrderedMap = OrderedMap(keys: seq<string>, values: map<string, Option<int>>)

  /** A JavaScript Map: each key once, in insertion order, and exactly the keys of `values`. */
  ghost predicate ValidMap(m: OrderedMap) {
    (forall i, j :: 0 <= i < j < |m.keys| ==> m.keys[i] != m.keys[j])
    && (forall k :: k in m.values <==> k in m.keys)
  }

  /** `Map.prototype.set`: a new key goes to the end, an existing one keeps its place. */
  function MapSet(m: OrderedMap, key: string, value: Option<int>): (r: OrderedMap)
    requires ValidMap(m)
    ensures ValidMap(r)
    ensures r.values == m.values[key := value]
    ensures key in m.values ==> r.keys == m.keys
    ensures key !in m.values ==> r.keys == m.keys + [key]
  {
    if key in m.values then OrderedMap(m.keys, m.values[key := value])
    else
      assert forall i :: 0 <= i < |m.keys| ==> m.keys[i] != key;
      OrderedMap(m.keys + [key], m.values[key := value])
  }

  /** One line's effect on the map. A skip line sets `dedup.get(p) ?? null`: it keeps
      the code already stored for `p`, and adds `p` with null when it is new. */
  function Apply(m: OrderedMap, effect: LineEffect, resolve: string -> string): (r: OrderedMap)
    requires ValidMap(m)
    ensures ValidMap(r)
  {
    match effect
    case SetCode(p, code) => MapSet(m, resolve(p), code)
    case KeepCode(p) =>
      var key := resolve(p);
      MapSet(m, key, if key in m.values then m.values[key] else None)
    case NoEffect => m
  }

  /** The map after the given effects, in order. */
  function Fold(effects: seq<LineEffect>, resolve: string -> string): (m: OrderedMap)
    ensures ValidMap(m)
  {
    if effects == [] then OrderedMap([], map[])
    else Apply(Fold(effects[..|effects| - 1], resolve), effects[|effects| - 1], resolve)
  }

  /** `Array.from(dedup.entries()).map(...)`. */
  function EntriesOf(m: OrderedMap): (r: seq<CompletedLogEntry>)
    requires ValidMap(m)
    ensures |r| == |m.keys|
    ensures forall i :: 0 <= i < |r| ==> r[i] == CompletedLogEntry(m.keys[i], m.values[m.keys[i]])
  {
    seq(|m.keys|, i requires 0 <= i < |m.keys| => CompletedLogEntry(m.keys[i], m.values[m.keys[i]]))
  }

  /** The entries `parseCompletedEntriesFromLog` returns for a log's text. */
  function CompletedEntries(text: string, resolve: string -> string): seq<CompletedLogEntry> {
    EntriesOf(Fold(Effects(SplitLines(text)), resolve))
  }

  /** `parseCompletedEntriesFromLog(logPath)`. */
  method ParseCompletedEntriesFromLog(logPath: string, log: Option<string>, resolve: string -> string)
    returns (r: Result<seq<CompletedLogEntry>, ParseError>)
    ensures log.None? ==> r == Err(LogFileNotFound(logPath))
    ensures log.Some? ==> r == Ok(CompletedEntries(log.value, resolve))
  {
    if log.None? {
      return Err(LogFileNotFound(logPath));
    }
    var lines := SplitLines(log.value);
    ghost var effects := Effects(lines);
    var keys: seq<string> := [];
    var values: map<string, Option<int>> := map[];

    for i := 0 to |lines|
      invariant OrderedMap(keys, values) == Fold(effects[..i], resolve)
    {
      ghost var before := OrderedMap(keys, values);
      FoldStep(effects, i, resolve);
      var line := Trim(lines[i]);
      if StartsWith(line, UPLOADED_PREFIX) {
        var rest := line[|UPLOADED_PREFIX|..];
        var (filePathPart, afterArrow) := SplitFirstTwo(rest, ARROW);
        if filePathPart != [] {
          var statusCode: Option<int> := None;
          if afterArrow.Some? && afterArrow.value != [] && HasStatusCode(afterArrow.value) {
            statusCode := StatusCodeOf(afterArrow);
          }
          var key := resolve(Trim(filePathPart));
          if key !in values {
            keys := keys + [key];
          }
          values := values[key := statusCode];
          assert effects[i] == SetCode(Trim(filePathPart), statusCode);
        } else {
          assert effects[i] == NoEffect;
        }
      } else if StartsWith(line, SKIPPING_PREFIX) {
        var filePath := Trim(line[|SKIPPING_PREFIX|..]);
        if |filePath| > 0 {
          var key := resolve(filePath);
          var kept := if key in values then values[key] else None;
          if key !in values {
            keys := keys + [key];
          }
          values := values[key := kept];
          assert effects[i] == KeepCode(filePath);
        } else {
          assert effects[i] == NoEffect;
        }
      } else {
        assert effects[i] == NoEffect;
      }
      assert OrderedMap(keys, values) == Apply(before, effects[i], resolve);
    }
    assert effects[..|lines|] == effects;
    r := Ok(EntriesOf(OrderedMap(keys, values)));
  }

  lemma FoldStep(effects: seq<LineEffect>, i: nat, resolve: string -> string)
    requires i < |effects|
    ensures Fold(effects[..i + 1], resolve) == Apply(Fold(effects[..i], resolve), effects[i], resolve)
  {
    assert effects[..i + 1][..i] == effects[..i];
  }

  // ---------------------------------------------------------------- what the parser promises

  /** Some line before the `l`-th mentions `p`. */
  ghost predicate MentionedBefore(effects: seq<LineEffect>, resolve: string -> string, l: nat, p: string)
    requires l <= |effects|
  {
    exists l' :: 0 <= l' < l && Mentioned(effects[l'], resolve) == Some(p)
  }

  lemma MentionedBeforePrefix(effects: seq<LineEffect>, resolve: string -> string, n: nat, l: nat, p: string)
    requires l <= n <= |effects|
    ensures MentionedBefore(effects[..n], resolve, l, p) <==> MentionedBefore(effects, resolve, l, p)
  {
    if MentionedBefore(effects[..n], resolve, l, p) {
      var k :| 0 <= k < l && Mentioned(effects[..n][k], resolve) == Some(p);
      assert effects[..n][k] == effects[k];
    }
    if MentionedBefore(effects, resolve, l, p) {
      var k :| 0 <= k < l && Mentioned(effects[k], resolve) == Some(p);
      assert effects[..n][k] == effects[k];
    }
  }

  /** The parsed paths are exactly the resolved paths some line mentions. */
  lemma {:induction false} FoldKeys(effects: seq<LineEffect>, resolve: string -> string, p: string)
    ensures p in Fold(effects, resolve).values <==>
      exists l :: 0 <= l < |effects| && Mentioned(effects[l], resolve) == Some(p)
  {
    if effects != [] {
      var n := |effects| - 1;
      FoldKeys(effects[..n], resolve, p);
      MentionedBeforePrefix(effects, resolve, n, n, p);
      if MentionedBefore(effects, resolve, n + 1, p) && !MentionedBefore(effects, resolve, n, p) {
        var l :| 0 <= l < n + 1 && Mentioned(effects[l], resolve) == Some(p);
        assert l == n;
      }
      if Mentioned(effects[n], resolve) == Some(p) {
        assert MentionedBefore(effects, resolve, n + 1, p);
      }
    }
  }

  /** The code of the last `Uploaded:` line for `p`, or null if there is none: skip
      lines and lines about other paths are passed over. */
  function LastUploadedCode(effects: seq<LineEffect>, p: string, resolve: string -> string): Option<int> {
    if effects == [] then None
    else match effects[|effects| - 1]
      case SetCode(q, code) =>
        if resolve(q) == p then code else LastUploadedCode(effects[..|effects| - 1], p, resolve)
      case _ => LastUploadedCode(effects[..|effects| - 1], p, resolve)
  }

  /** Last occurrence wins: the code stored for a path is that of its last `Uploaded:`
      line, null included; a skip line never replaces a code. */
  lemma {:induction false} FoldValue(effects: seq<LineEffect>, resolve: string -> string, p: string)
    requires p in Fold(effects, resolve).values
    ensures Fold(effects, resolve).values[p] == LastUploadedCode(effects, p, resolve)
  {
    var n := |effects| - 1;
    var prev := Fold(effects[..n], resolve);
    match effects[n]
    case SetCode(q, code) =>
      if resolve(q) != p {
        FoldValue(effects[..n], resolve, p);
      }
    case KeepCode(q) =>
      if p in prev.values {
        FoldValue(effects[..n], resolve, p);
      } else {
        NoCodeWithoutUpload(effects[..n], resolve, p);
      }
    case NoEffect =>
      FoldValue(effects[..n], resolve, p);
  }

  /** A path no line mentions has no `Uploaded:` code. */
  lemma {:induction false} NoCodeWithoutUpload(effects: seq<LineEffect>, resolve: string -> string, p: string)
    requires p !in Fold(effects, resolve).values
    ensures LastUploadedCode(effects, p, resolve) == None
  {
    if effects != [] {
      var n := |effects| - 1;
      assert p !in Fold(effects[..n], resolve).values;
      NoCodeWithoutUpload(effects[..n], resolve, p);
    }
  }

  /** Entries come in the order of each path's first mention: any line that mentions a
      later entry's path is preceded by a line that mentions each earlier entry's path. */
  lemma {:induction false} FoldOrder(effects: seq<LineEffect>, resolve: string -> string)
    ensures var keys := Fold(effects, resolve).keys;
      forall a, b, l :: 0 <= a < b < |keys| && 0 <= l < |effects| && Mentioned(effects[l], resolve) == Some(keys[b]) ==>
        exists l' :: 0 <= l' < l && Mentioned(effects[l'], resolve) == Some(keys[a])
  {
    var keys := Fold(effects, resolve).keys;
    forall a, b, l | 0 <= a < b < |keys| && 0 <= l < |effects| && Mentioned(effects[l], resolve) == Some(keys[b])
      ensures exists l' :: 0 <= l' < l && Mentioned(effects[l'], resolve) == Some(keys[a])
    {
      FoldOrderAt(effects, resolve, a, b, l);
      var l' :| 0 <= l' < l && Mentioned(effects[l'], resolve) == Some(keys[a]);
    }
  }

  /** The last line either leaves the key order as it was or appends the path it
      mentions, which no earlier line mentions. */
  lemma FoldLastKeys(effects: seq<LineEffect>, resolve: string -> string)
    requires effects != []
    ensures var prev := Fold(effects[..|effects| - 1], resolve);
      var keys := Fold(effects, resolve).keys;
      keys == prev.keys
      || (|keys| == |prev.keys| + 1 && keys[..|prev.keys|] == prev.keys
          && Mentioned(effects[|effects| - 1], resolve) == Some(keys[|prev.keys|])
          && keys[|prev.keys|] !in prev.values)
  {
  }

  /** One instance of `FoldOrder`, by induction on the lines. */
  lemma {:induction false} FoldOrderAt(effects: seq<LineEffect>, resolve: string -> string, a: nat, b: nat, l: nat)
    requires a < b < |Fold(effects, resolve).keys| && l < |effects|
    requires Mentioned(effects[l], resolve) == Some(Fold(effects, resolve).keys[b])
    ensures exists l' :: 0 <= l' < l && Mentioned(effects[l'], resolve) == Some(Fold(effects, resolve).keys[a])
    decreases |effects|
  {
    var n := |effects| - 1;
    var prefix := effects[..n];
    var prev := Fold(prefix, resolve);
    var keys := Fold(effects, resolve).keys;
    FoldLastKeys(effects, resolve);
    assert a < |prev.keys| && keys[a] == prev.keys[a];
    if l < n {
      assert prefix[l] == effects[l];
      if b < |prev.keys| {
        assert keys[b] == prev.keys[b];
        FoldOrderAt(prefix, resolve, a, b, l);
        MentionedBeforePrefix(effects, resolve, n, l, keys[a]);
      } else {
        // keys[b] is the path the last line added: no earlier line mentions it.
        FoldKeys(prefix, resolve, keys[b]);
        assert false;
      }
    } else {
      // The last line mentions keys[b]; keys[a] was already in the map, so an earlier line mentions it.
      FoldKeys(prefix, resolve, keys[a]);
      MentionedBeforePrefix(effects, resolve, n, n, keys[a]);
    }
  }

  /** The line printed for a file the server already had is read as a skip of that path. */
  lemma ReadSkippingLogLine(path: string)
    requires path != [] && !IsWhitespace(path[0]) && !IsWhitespace(path[|path| - 1])
    ensures ReadLine(SKIPPING_PREFIX + path) == KeepCode(path)
  {
    SkipLineShape(path);
    ReadsAsSkip(SKIPPING_PREFIX + path, path);
  }

  lemma SkipLineShape(path: string)
    requires path != [] && !IsWhitespace(path[0]) && !IsWhitespace(path[|path| - 1])
    ensures var line := SKIPPING_PREFIX + path;
      Trim(line) == line && StartsWith(line, SKIPPING_PREFIX) && Trim(line[|SKIPPING_PREFIX|..]) == path
  {
    PrefixedLineTrimmed(SKIPPING_PREFIX, path);
    PrefixedLineRest(SKIPPING_PREFIX, path);
  }

  /** A line made of a prefix that starts with a non-blank and of a trimmed text is trimmed. */
  lemma PrefixedLineTrimmed(prefix: string, text: string)
    requires prefix != [] && !IsWhitespace(prefix[0])
    requires text != [] && !IsWhitespace(text[|text| - 1])
    ensures Trim(prefix + text) == prefix + text
  {
    var line := prefix + text;
    assert line[0] == prefix[0] && line[|line| - 1] == text[|text| - 1];
    TrimUnchanged(line);
  }

  /** What follows the prefix of such a line is the text, trimmed. */
  lemma PrefixedLineRest(prefix: string, text: string)
    requires text != [] && !IsWhitespace(text[0]) && !IsWhitespace(text[|text| - 1])
    ensures StartsWith(prefix + text, prefix)
    ensures Trim((prefix + text)[|prefix|..]) == text
  {
    var line := prefix + text;
    assert line[..|prefix|] == prefix;
    assert line[|prefix|..] == text;
    TrimUnchanged(text);
  }

  lemma SkipIsNotUpload(line: string)
    requires StartsWith(line, SKIPPING_PREFIX)
    ensures !StartsWith(line, UPLOADED_PREFIX)
  {
    assert line[0] == SKIPPING_PREFIX[0] == 'S';
  }

  /** How `ReadLine` treats a trimmed skip line. */
  lemma ReadsAsSkip(line: string, path: string)
    requires Trim(line) == line
    requires StartsWith(line, SKIPPING_PREFIX)
    requires Trim(line[|SKIPPING_PREFIX|..]) == path && path != []
    ensures ReadLine(line) == KeepCode(path)
  {
    SkipIsNotUpload(line);
  }

  // ---------------------------------------------------------------- reading back the uploader's lines

  /** The line the uploader prints after a successful upload (src/uploader.ts). */
  function UploadedLogLine(filePath: string, status: nat, msg: string): string {
    UPLOADED_PREFIX + (filePath + ARROW + (NatToString(status) + "  : " + msg))
  }

  /** A path the uploader can print so that the parser reads it back whole: no
      surrounding whitespace and no ` -> ` in it (nor at its end, before the arrow). */
  predicate PrintablePath(filePath: string) {
    filePath != [] && !IsWhitespace(filePath[0]) && !IsWhitespace(filePath[|filePath| - 1])
    && forall k :: 0 <= k <= |filePath| ==> !OccursAt(filePath + " ", ARROW, k)
  }

  /** The parser reads back the path and the three-digit status the uploader printed,
      whatever progress message follows (as long as it does not end in whitespace). */
  lemma ReadUploadedLogLine(filePath: string, status: nat, msg: string)
    requires PrintablePath(filePath)
    requires 100 <= status <= 999
    requires msg != [] && !IsWhitespace(msg[|msg| - 1])
    ensures ReadLine(UploadedLogLine(filePath, status, msg)) == SetCode(filePath, Some(status))
  {
    var tail := NatToString(status) + "  : " + msg;
    var rest := filePath + ARROW + tail;
    assert rest[|rest| - 1] == msg[|msg| - 1] by {
      assert tail[|tail| - 1] == msg[|msg| - 1];
    }
    PrefixedLine(UPLOADED_PREFIX, rest);
    SplitAtPrintedPath(filePath, tail);
    StatusOfPrintedCode(status, msg);
    TrimUnchanged(filePath);
    ReadsAsUpload(UPLOADED_PREFIX + rest, filePath, SecondPart(tail), Some(status));
  }

  /** A line made of a prefix that starts with a non-blank and of a text that ends
      with one is its own trim, and the text is what follows the prefix. */
  lemma PrefixedLine(prefix: string, text: string)
    requires prefix != [] && !IsWhitespace(prefix[0])
    requires text != [] && !IsWhitespace(text[|text| - 1])
    ensures Trim(prefix + text) == prefix + text
    ensures StartsWith(prefix + text, prefix) && (prefix + text)[|prefix|..] == text
  {
    PrefixedLineTrimmed(prefix, text);
    assert (prefix + text)[..|prefix|] == prefix;
  }

  /** How `ReadLine` treats a trimmed `Uploaded:` line. */
  lemma ReadsAsUpload(line: string, filePath: string, second: string, code: Option<int>)
    requires Trim(line) == line && StartsWith(line, UPLOADED_PREFIX)
    requires SplitFirstTwo(line[|UPLOADED_PREFIX|..], ARROW) == (filePath, Some(second))
    requires filePath != [] && Trim(filePath) == filePath
    requires StatusCodeOf(Some(second)) == code
    ensures ReadLine(line) == SetCode(filePath, code)
  {
  }

  /** The text between the first and the second arrow of `tail`, or all of it. */
  function SecondPart(tail: string): string {
    match IndexOf(tail, ARROW, 0)
    case None => tail
    case Some(j) => tail[..j]
  }

  /** The path the uploader printed is the first part of the text after the prefix. */
  lemma SplitAtPrintedPath(filePath: string, tail: string)
    requires PrintablePath(filePath)
    ensures SplitFirstTwo(filePath + ARROW + tail, ARROW) == (filePath, Some(SecondPart(tail)))
  {
    var s := filePath + ARROW + tail;
    FirstArrowAfterPath(filePath, tail);
    assert s[..|filePath|] == filePath;
    assert s[|filePath| + |ARROW|..] == tail;
  }

  lemma FirstArrowAfterPath(filePath: string, tail: string)
    requires PrintablePath(filePath)
    ensures IndexOf(filePath + ARROW + tail, ARROW, 0) == Some(|filePath|)
  {
    var s := filePath + ARROW + tail;
    var t := filePath + " ";
    assert OccursAt(s, ARROW, |filePath|) by {
      assert s[|filePath|..|filePath| + 4] == ARROW;
    }
    forall k | 0 <= k < |filePath| ensures !OccursAt(s, ARROW, k) {
      if k + 4 <= |filePath| + 1 {
        assert s[k..k + 4] == t[k..k + 4];
        assert !OccursAt(t, ARROW, k);
      } else if k == |filePath| - 2 {
        assert s[k + 2] == ' ' && ARROW[2] == '>';
      } else {
        assert k == |filePath| - 1;
        assert s[k + 1] == ' ' && ARROW[1] == '-';
      }
    }
    match IndexOf(s, ARROW, 0)
    case None =>
    case Some(v) => assert !(v < |filePath|) && !(|filePath| < v);
  }

  /** The text after the arrow starts with the printed status, ended by a blank. */
  lemma StatusOfPrintedCode(status: nat, msg: string)
    requires 100 <= status <= 999
    ensures StatusCodeOf(Some(SecondPart(NatToString(status) + "  : " + msg))) == Some(status)
  {
    var code := NatToString(status);
    NatToStringLength(status);
    NatToStringValue(status);
    SecondPartStartsWithCode(code, msg);
    var second := SecondPart(code + "  : " + msg);
    assert second[..3] == code;
  }

  lemma SecondPartStartsWithCode(code: string, msg: string)
    requires |code| == 3 && AllDigits(code)
    ensures var second := SecondPart(code + "  : " + msg);
      second != [] && HasStatusCode(second) && second[..3] == code
  {
    var rest := code + "  : " + msg;
    assert rest[3] == ' ' && rest[4] == ' ';
    match IndexOf(rest, ARROW, 0)
    case None =>
      assert rest[..3] == code;
    case Some(j) =>
      assert rest[j] == ' ' && rest[j + 1] == '-' by {
        assert OccursAt(rest, ARROW, j);
        assert rest[j..j + 4][0] == rest[j] && rest[j..j + 4][1] == rest[j + 1];
      }
      assert j >= 4;
      assert rest[..j][..3] == code;
  }
}
