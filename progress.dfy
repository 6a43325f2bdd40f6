/** Progress reporting, src/utils/progress.ts: the `HH:MM:SS` duration text, the
    rule for which calls print a line when the output is not a terminal, and the
    module state of `renderProgress` (the start time of each name and the bar
    currently drawn). Durations and clock readings are whole milliseconds; a
    non-finite number (`NaN`, `Infinity`) is `None`. */
module Progress {
  import opened Wrappers
  import opened Types
  import opened Text

  // ---------------------------------------------------------------- formatDuration

  const UNKNOWN_DURATION: string := "--:--"
  const ZERO_ETA: string := "00:00"

  /** A field of the duration text: `n.toString().padStart(2, '0')`. */
  function Field(n: nat): (r: string)
    ensures AllDigits(r) && |r| >= 2 && DecimalValue(r) == n
    ensures n < 100 ==> |r| == 2
  {
    PadStart2Value(n);
    NatToStringLength(n);
    PadStart2(NatToString(n))
  }

  /** `formatDuration(ms)`. */
  function FormatDuration(ms: Option<int>): (r: string)
    ensures ms.None? || ms.value < 0 ==> r == UNKNOWN_DURATION
  {
    if ms.None? || ms.value < 0 then UNKNOWN_DURATION
    else
      var totalSeconds := ms.value / 1000;
      var hours := totalSeconds / 3600;
      var minutes := (totalSeconds % 3600) / 60;
      var seconds := totalSeconds % 60;
      if hours > 0 then Field(hours) + ":" + Field(minutes) + ":" + Field(seconds)
      else Field(minutes) + ":" + Field(seconds)
  }

  /** Two two-digit fields below 60, read as minutes and seconds. */
  function ReadMinutesSeconds(m: string, s: string): Option<nat> {
    if |m| == 2 && |s| == 2 && AllDigits(m) && AllDigits(s) && DecimalValue(m) < 60 && DecimalValue(s) < 60
    then Some(DecimalValue(m) * 60 + DecimalValue(s))
    else None
  }

  /** Reads a duration text back as whole seconds: `MM:SS`, or `H…H:MM:SS` with at
      least two hour digits; minutes and seconds below 60. */
  function ReadDuration(r: string): Option<nat> {
    if |r| == 5 && r[2] == ':' then ReadMinutesSeconds(r[..2], r[3..])
    else if |r| >= 8 && r[|r| - 6] == ':' && r[|r| - 3] == ':' then
      ReadHours(r[..|r| - 6], ReadMinutesSeconds(r[|r| - 5..|r| - 3], r[|r| - 2..]))
    else None
  }

  /** An hours field of digits ahead of a minutes-and-seconds reading. */
  function ReadHours(h: string, minutesSeconds: Option<nat>): Option<nat> {
    if AllDigits(h) && minutesSeconds.Some? then Some(DecimalValue(h) * 3600 + minutesSeconds.value) else None
  }

  lemma ReadShort(m: string, s: string)
    requires |m| == 2 && |s| == 2
    ensures ReadDuration(m + ":" + s) == ReadMinutesSeconds(m, s)
  {
    var r := m + ":" + s;
    assert r[..2] == m && r[3..] == s;
  }

  lemma ReadLong(h: string, m: string, s: string)
    requires |h| >= 2 && |m| == 2 && |s| == 2
    ensures ReadDuration(h + ":" + m + ":" + s) == ReadHours(h, ReadMinutesSeconds(m, s))
  {
    var r := h + ":" + m + ":" + s;
    var n := |r|;
    assert n == |h| + 6;
    assert r[n - 6] == ':' && r[n - 3] == ':';
    assert r[..n - 6] == h && r[n - 5..n - 3] == m && r[n - 2..] == s;
  }

  lemma RemainderOfSixties(a: nat, b: nat)
    requires b < 60
    ensures (a * 60 + b) % 60 == b
  {
  }

  /** `t % 3600` split into whole minutes and seconds, the seconds being `t % 60`. */
  lemma SplitSeconds(t: nat)
    ensures (t % 3600) / 60 < 60 && t % 60 < 60
    ensures t == (t / 3600) * 3600 + ((t % 3600) / 60) * 60 + t % 60
  {
    var q, r := t / 3600, t % 3600;
    var mm, ss := r / 60, r % 60;
    assert r == mm * 60 + ss && mm < 60 && ss < 60 && t == q * 3600 + r;
    RemainderOfSixties(q * 60 + mm, ss);
  }

  /** The text of a non-negative duration reads back as its whole seconds, and it has
      an hours field exactly when the duration reaches an hour. */
  lemma FormatDurationReadsBack(ms: nat)
    ensures ReadDuration(FormatDuration(Some(ms))) == Some(ms / 1000)
    ensures |FormatDuration(Some(ms))| == 5 <==> ms / 1000 < 3600
  {
    var totalSeconds := ms / 1000;
    var hours := totalSeconds / 3600;
    var minutes := (totalSeconds % 3600) / 60;
    var seconds := totalSeconds % 60;
    SplitSeconds(totalSeconds);
    var m, s := Field(minutes), Field(seconds);
    assert ReadMinutesSeconds(m, s) == Some(minutes * 60 + seconds);
    if hours > 0 {
      ReadLong(Field(hours), m, s);
    } else {
      ReadShort(m, s);
    }
  }

  /** A negative or non-finite duration has no reading. */
  lemma UnknownDurationUnreadable()
    ensures ReadDuration(UNKNOWN_DURATION) == None
  {
    assert !IsDigit(UNKNOWN_DURATION[0]);
    assert !AllDigits(UNKNOWN_DURATION[..2]);
    assert |UNKNOWN_DURATION| == 5;
  }

  // ---------------------------------------------------------------- renderProgress

  /** Off a terminal, `renderProgress` prints the first call, the last one and every
      hundredth. */
  predicate PrintsLine(current: int, total: int) {
    total > 0 && (current == 1 || current == total || current % 100 == 0)
  }

  /** Over a run `1..total` off a terminal, the first and last calls print and no more
      than 99 calls in a row stay silent. */
  lemma PrintedOften(total: nat, current: nat)
    requires 1 <= current <= total
    ensures PrintsLine(1, total) && PrintsLine(total, total)
    ensures exists p :: current <= p <= total && p < current + 100 && PrintsLine(p, total)
  {
    var next := current + (100 - current % 100) % 100;
    assert next % 100 == 0 && current <= next < current + 100;
    if next <= total {
      assert PrintsLine(next, total);
    } else {
      assert PrintsLine(total, total);
    }
  }

  /** What `elapsedMs / current * max(0, total - current)` formats to: whole
      milliseconds, unknown before the first item. */
  function EtaMs(elapsedMs: nat, current: int, total: int): Option<int> {
    if current > 0 then Some(elapsedMs * (if total > current then total - current else 0) / current) else None
  }

  /** The bar `renderProgress` draws on a terminal. */
  function BarState(name: string, current: int, total: int, startMs: int, now: int): (p: ProgressState)
    ensures p.name == name && p.current == current && p.total == total
    ensures current >= total ==> p.etaText == ZERO_ETA
  {
    var elapsedMs := if now - startMs > 0 then now - startMs else 0;
    ProgressState(name, current, total, FormatDuration(Some(elapsedMs)),
                  if current >= total then ZERO_ETA else FormatDuration(EtaMs(elapsedMs, current, total)))
  }

  /** What one call shows: nothing, the bar (and whether it was finished), or a text line. */
  datatype Shown = Nothing | Drawn(bar: ProgressState, finished: bool) | Printed(name: string, current: int, total: int)

  /** One write of `withProgressSafeLog`: to stdout, to stderr, or the bar redrawn. */
  datatype Write = Stdout(text: string) | Stderr(text: string) | Redraw(bar: ProgressState)

  /** The module state of src/utils/progress.ts: `progressStartTimes` and
      `activeProgress`, with whether stdout is a terminal. */
  class ProgressDisplay {
    const tty: bool
    var startTimes: map<string, int>
    var active: Option<ProgressState>

    constructor (tty: bool)
      ensures this.tty == tty && startTimes == map[] && active == None
    {
      this.tty := tty;
      startTimes := map[];
      active := None;
    }

    /** `renderProgress(label, current, total)` at clock reading `now`. */
    method Render(name: string, current: int, total: int, now: int) returns (shown: Shown)
      modifies this
      ensures total <= 0 ==> shown == Nothing && unchanged(this)
      ensures total > 0 && !tty ==>
        shown == (if PrintsLine(current, total) then Printed(name, current, total) else Nothing) && unchanged(this)
      ensures total > 0 && tty ==>
        var start := if name in old(startTimes) then old(startTimes)[name] else now;
        var bar := BarState(name, current, total, start, now);
        shown == Drawn(bar, current >= total)
        && (current >= total ==> startTimes == old(startTimes) - {name} && active == None)
        && (current < total ==> startTimes == old(startTimes)[name := start] && active == Some(bar))
      ensures tty ==> startTimes == StartTimesAfter(old(startTimes), name, current, total, now)
    {
      if total <= 0 {
        return Nothing;
      }
      if tty {
        ghost var before := startTimes;
        var startMs := if name in startTimes then startTimes[name] else now;
        if name !in startTimes {
          startTimes := startTimes[name := startMs];
        }
        assert startTimes == before[name := startMs];
        var bar := BarState(name, current, total, startMs, now);
        active := Some(bar);
        shown := Drawn(bar, current >= total);
        if current >= total {
          active := None;
          startTimes := startTimes - {name};
          RemoveAfterInsert(before, name, startMs);
        }
        return;
      }
      if current == 1 || current == total || current % 100 == 0 {
        return Printed(name, current, total);
      }
      return Nothing;
    }

    /** `logInfo` / `logError` (`toStderr`): the message, set off from a bar being drawn
      on a terminal by a line break before it and the bar redrawn after it. */
    method SafeLog(message: string, toStderr: bool) returns (writes: seq<Write>)
      ensures var line := if toStderr then Stderr(message + "\n") else Stdout(message + "\n");
        line in writes
        && (tty && active.Some? ==> writes == [Stdout("\n"), line, Redraw(active.value)])
        && (!(tty && active.Some?) ==> writes == [line])
    {
      var hasActiveProgress := tty && active.Some?;
      writes := [];
      if hasActiveProgress {
        writes := writes + [Stdout("\n")];
      }
      writes := writes + [if toStderr then Stderr(message + "\n") else Stdout(message + "\n")];
      if hasActiveProgress && active.Some? {
        writes := writes + [Redraw(active.value)];
      }
    }
  }

  // ---------------------------------------------------------------- the start-time lifecycle

  /** Dropping a label forgets whether it was just inserted. */
  lemma RemoveAfterInsert(m: map<string, int>, name: string, v: int)
    ensures m[name := v] - {name} == m - {name}
  {
    assert (m[name := v] - {name}).Keys == (m - {name}).Keys;
  }

  /** The start times after one terminal call. */
  function StartTimesAfter(startTimes: map<string, int>, name: string, current: int, total: int, now: int): map<string, int> {
    if total <= 0 then startTimes
    else
      var start := if name in startTimes then startTimes[name] else now;
      if current >= total then startTimes - {name} else startTimes[name := start]
  }

  /** The start times after the calls `1..|times|` of one label on a terminal, the
      `i`-th at clock reading `times[i - 1]`. */
  function StartTimesAlong(startTimes: map<string, int>, name: string, total: int, times: seq<int>): map<string, int> {
    if times == [] then startTimes
    else
      var n := |times| - 1;
      StartTimesAfter(StartTimesAlong(startTimes, name, total, times[..n]), name, n + 1, total, times[n])
  }

  /** A label's start time is taken at its first call, kept through the calls before
      the last, and dropped at the last one; other labels are untouched. */
  lemma {:induction false} StartTimeLifecycle(startTimes: map<string, int>, name: string, total: int, times: seq<int>)
    requires name !in startTimes && 0 < |times| <= total
    ensures var after := StartTimesAlong(startTimes, name, total, times);
      (|times| < total ==> name in after && after[name] == times[0])
      && (|times| == total ==> name !in after)
      && (forall other :: other != name ==>
            (other in after <==> other in startTimes) && (other in after ==> after[other] == startTimes[other]))
  {
    var n := |times| - 1;
    if n > 0 {
      StartTimeLifecycle(startTimes, name, total, times[..n]);
    }
  }
}
