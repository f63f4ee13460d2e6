// The progress reader inside one encode attempt of RunEncode: ffmpeg's
// stdout arrives in chunks, complete '\n'-terminated lines are cut from a
// buffer, `out_time_ms=` lines become percentages and a percentage is
// reported only when it is the first one or has risen by at least half a
// point. Percentages are exact reals here.

module Progress {
  import opened Strings
  import opened Parsers

  // ---------------------------------------------------------------
  // Cutting lines from the buffer
  // ---------------------------------------------------------------

  /** buffer.find('\n', pos), |buf| standing for npos. */
  function NextNewline(buf: string, pos: nat): (k: nat)
    requires pos <= |buf|
    decreases |buf| - pos
    ensures pos <= k <= |buf|
    ensures k < |buf| ==> buf[k] == '\n'
  {
    if pos == |buf| || buf[pos] == '\n' then pos else NextNewline(buf, pos + 1)
  }

  /** Nothing between `pos` and the newline found is a '\n'. */
  lemma {:induction false} NoNewlineBefore(buf: string, pos: nat)
    requires pos <= |buf|
    ensures forall i :: pos <= i < NextNewline(buf, pos) ==> buf[i] != '\n'
    decreases |buf| - pos
  {
    if pos < |buf| && buf[pos] != '\n' {
      NoNewlineBefore(buf, pos + 1);
    }
  }

  /** The '\n'-terminated lines from `pos` on, without their terminators,
      as the `find('\n', pos)` loop cuts them. */
  function LinesFrom(buf: string, pos: nat): seq<string>
    requires pos <= |buf|
    decreases |buf| - pos
  {
    var nl := NextNewline(buf, pos);
    if nl == |buf| then [] else [buf[pos..nl]] + LinesFrom(buf, nl + 1)
  }

  /** What is left from `pos` on after the last '\n'. */
  function TailFrom(buf: string, pos: nat): string
    requires pos <= |buf|
    decreases |buf| - pos
  {
    var nl := NextNewline(buf, pos);
    if nl == |buf| then buf[pos..] else TailFrom(buf, nl + 1)
  }

  /** The complete lines of the buffer. */
  function CompleteLines(buf: string): seq<string>
  {
    LinesFrom(buf, 0)
  }

  /** The unterminated tail of the buffer. */
  function Remainder(buf: string): string
  {
    TailFrom(buf, 0)
  }

  /** The first '\n' from `pos` on is at `k`. */
  lemma NextNewlineAt(buf: string, pos: nat, k: nat)
    requires pos <= k <= |buf|
    requires k < |buf| ==> buf[k] == '\n'
    requires forall i :: pos <= i < k ==> buf[i] != '\n'
    ensures NextNewline(buf, pos) == k
  {
    NoNewlineBefore(buf, pos);
  }

  lemma JoinLinesCons(l: string, ls: seq<string>)
    ensures JoinLines([l] + ls) == l + "\n" + JoinLines(ls)
  {
    assert ([l] + ls)[0] == l && ([l] + ls)[1..] == ls;
  }

  /** Sequence algebra of one cut, kept apart from the cutting functions. */
  lemma SplitStep(buf: string, pos: nat, nl: nat, ls: seq<string>, rest: seq<string>, tail: string)
    requires pos <= nl < |buf| && buf[nl] == '\n'
    requires buf[nl + 1..] == JoinLines(rest) + tail
    requires ls == [buf[pos..nl]] + rest
    ensures buf[pos..] == JoinLines(ls) + tail
  {
    JoinLinesCons(buf[pos..nl], rest);
    assert buf[pos..] == buf[pos..nl] + "\n" + buf[nl + 1..];
  }

  /** One cut: the line up to the next '\n', then the cuts after it. */
  lemma CutStep(buf: string, pos: nat, nl: nat, line: string)
    requires pos <= nl < |buf| && nl == NextNewline(buf, pos)
    requires line == buf[pos..nl]
    ensures LinesFrom(buf, pos) == [line] + LinesFrom(buf, nl + 1)
    ensures TailFrom(buf, pos) == TailFrom(buf, nl + 1)
  {
  }

  lemma {:induction false} SplitsFrom(buf: string, pos: nat)
    requires pos <= |buf|
    ensures buf[pos..] == JoinLines(LinesFrom(buf, pos)) + TailFrom(buf, pos)
    decreases |buf| - pos
  {
    var nl := NextNewline(buf, pos);
    if nl < |buf| {
      SplitsFrom(buf, nl + 1);
      SplitsAfterCut(buf, pos, nl);
    }
  }

  lemma SplitsAfterCut(buf: string, pos: nat, nl: nat)
    requires pos <= nl < |buf| && nl == NextNewline(buf, pos)
    requires buf[nl + 1..] == JoinLines(LinesFrom(buf, nl + 1)) + TailFrom(buf, nl + 1)
    ensures buf[pos..] == JoinLines(LinesFrom(buf, pos)) + TailFrom(buf, pos)
  {
    CutStep(buf, pos, nl, buf[pos..nl]);
    SplitStep(buf, pos, nl, LinesFrom(buf, pos), LinesFrom(buf, nl + 1), TailFrom(buf, nl + 1));
  }

  /** The buffer is its complete lines, each re-terminated, then the tail. */
  lemma BufferSplits(buf: string)
    ensures buf == JoinLines(CompleteLines(buf)) + Remainder(buf)
  {
    SplitsFrom(buf, 0);
    assert buf[0..] == buf;
  }

  /** No cut line and no tail holds a '\n' of its own. */
  lemma {:induction false} CutLinesHaveNoNewline(buf: string, pos: nat)
    requires pos <= |buf|
    ensures forall i :: 0 <= i < |LinesFrom(buf, pos)| ==> NoNewline(LinesFrom(buf, pos)[i])
    ensures NoNewline(TailFrom(buf, pos))
    decreases |buf| - pos
  {
    var nl := NextNewline(buf, pos);
    NoNewlineBefore(buf, pos);
    if nl < |buf| {
      CutLinesHaveNoNewline(buf, nl + 1);
      assert LinesFrom(buf, pos) == [buf[pos..nl]] + LinesFrom(buf, nl + 1);
    }
  }

  lemma NoNewlineInSuffix(buf: string, pos: nat)
    requires pos <= |buf| && NoNewline(buf[pos..])
    ensures NextNewline(buf, pos) == |buf|
  {
    assert forall i :: pos <= i < |buf| ==> buf[i] == buf[pos..][i - pos];
    NextNewlineAt(buf, pos, |buf|);
  }

  /** A text without '\n' has no complete line and is all tail. */
  lemma NoNewlineCutsNothing(tail: string)
    requires NoNewline(tail)
    ensures CompleteLines(tail) == [] && Remainder(tail) == tail
  {
    assert tail[0..] == tail;
    NoNewlineInSuffix(tail, 0);
  }

  /** A written line is cut off first, and the rest is cut as before. */
  lemma CutFirstLine(l: string, r: string)
    requires NoNewline(l)
    ensures CompleteLines(l + "\n" + r) == [l] + CompleteLines(r)
    ensures Remainder(l + "\n" + r) == Remainder(r)
  {
    var buf, n := l + "\n" + r, |l|;
    assert forall i :: 0 <= i < n ==> buf[i] == l[i];
    assert buf[n] == '\n';
    NextNewlineAt(buf, 0, n);
    assert buf[0..n] == l;
    CutStep(buf, 0, n, l);
    CutShiftLines(buf, n + 1, 0);
    CutShiftTail(buf, n + 1, 0);
    assert buf[n + 1..] == r;
  }

  /** Written lines followed by an unterminated tail are cut back into
      exactly those lines and that tail. */
  lemma {:induction false} CutJoinedLines(ls: seq<string>, tail: string)
    requires forall i :: 0 <= i < |ls| ==> NoNewline(ls[i])
    requires NoNewline(tail)
    ensures CompleteLines(JoinLines(ls) + tail) == ls
    ensures Remainder(JoinLines(ls) + tail) == tail
  {
    if ls == [] {
      assert JoinLines(ls) + tail == tail;
      NoNewlineCutsNothing(tail);
    } else {
      var r := JoinLines(ls[1..]) + tail;
      assert forall i :: 0 <= i < |ls[1..]| ==> ls[1..][i] == ls[i + 1];
      CutJoinedLines(ls[1..], tail);
      assert JoinLines(ls) + tail == ls[0] + "\n" + r;
      CutFirstLine(ls[0], r);
      assert ls == [ls[0]] + ls[1..];
    }
  }

  /** One `find` in the suffix from `pos` agrees with the one in the
      whole text. */
  lemma ShiftStep(x: string, pos: nat, q: nat)
    requires pos + q <= |x|
    ensures NextNewline(x[pos..], q) == NextNewline(x, pos + q) - pos
    ensures var k := NextNewline(x, pos + q);
      k < |x| ==> x[pos..][q..k - pos] == x[pos + q..k]
    ensures NextNewline(x, pos + q) == |x| ==> x[pos..][q..] == x[pos + q..]
  {
    var y := x[pos..];
    var k := NextNewline(x, pos + q);
    NoNewlineBefore(x, pos + q);
    assert forall i :: 0 <= i < |y| ==> y[i] == x[pos + i];
    NextNewlineAt(y, q, k - pos);
  }

  /** Cutting from `pos + q` is cutting the suffix from `pos` at `q`. */
  lemma {:induction false} CutShiftLines(x: string, pos: nat, q: nat)
    requires pos + q <= |x|
    ensures LinesFrom(x, pos + q) == LinesFrom(x[pos..], q)
    decreases |x| - pos - q
  {
    var y, k := x[pos..], NextNewline(x, pos + q);
    ShiftStep(x, pos, q);
    if k < |x| {
      var q2 := k + 1 - pos;
      CutShiftLines(x, pos, q2);
      assert LinesFrom(x, pos + q) == [x[pos + q..k]] + LinesFrom(x, pos + q2);
      assert LinesFrom(y, q) == [y[q..k - pos]] + LinesFrom(y, q2);
    }
  }

  lemma {:induction false} CutShiftTail(x: string, pos: nat, q: nat)
    requires pos + q <= |x|
    ensures TailFrom(x, pos + q) == TailFrom(x[pos..], q)
    decreases |x| - pos - q
  {
    var y, k := x[pos..], NextNewline(x, pos + q);
    ShiftStep(x, pos, q);
    if k < |x| {
      var q2 := k + 1 - pos;
      CutShiftTail(x, pos, q2);
      assert TailFrom(x, pos + q) == TailFrom(x, pos + q2);
      assert TailFrom(y, q) == TailFrom(y, q2);
    } else {
      assert TailFrom(x, pos + q) == x[pos + q..];
      assert TailFrom(y, q) == y[q..];
    }
  }

  /** Appending text leaves a `find` that succeeds in the old text, and
      the line it ends, unchanged. */
  lemma AppendStep(a: string, b: string, pos: nat)
    requires pos <= |a| && NextNewline(a, pos) < |a|
    ensures NextNewline(a + b, pos) == NextNewline(a, pos)
    ensures (a + b)[pos..NextNewline(a, pos)] == a[pos..NextNewline(a, pos)]
  {
    var ab, nl := a + b, NextNewline(a, pos);
    NoNewlineBefore(a, pos);
    assert forall i :: pos <= i <= nl ==> ab[i] == a[i];
    NextNewlineAt(ab, pos, nl);
  }

  lemma ConsAppend<T>(x: T, l: seq<T>, m: seq<T>)
    ensures [x] + (l + m) == ([x] + l) + m
  {
  }

  lemma {:induction false} AppendedLines(a: string, b: string, pos: nat)
    requires pos <= |a|
    ensures LinesFrom(a + b, pos) == LinesFrom(a, pos) + CompleteLines(TailFrom(a, pos) + b)
    decreases |a| - pos
  {
    var ab, nl := a + b, NextNewline(a, pos);
    if nl < |a| {
      AppendStep(a, b, pos);
      var line, later, more := a[pos..nl], LinesFrom(a, nl + 1), CompleteLines(TailFrom(a, nl + 1) + b);
      assert LinesFrom(ab, pos) == [line] + LinesFrom(ab, nl + 1);
      assert LinesFrom(a, pos) == [line] + later;
      assert TailFrom(a, pos) == TailFrom(a, nl + 1);
      AppendedLines(a, b, nl + 1);
      ConsAppend(line, later, more);
    } else {
      assert ab[pos..] == a[pos..] + b;
      CutShiftLines(ab, pos, 0);
    }
  }

  lemma {:induction false} AppendedTail(a: string, b: string, pos: nat)
    requires pos <= |a|
    ensures TailFrom(a + b, pos) == Remainder(TailFrom(a, pos) + b)
    decreases |a| - pos
  {
    var ab, nl := a + b, NextNewline(a, pos);
    if nl < |a| {
      AppendStep(a, b, pos);
      assert TailFrom(ab, pos) == TailFrom(ab, nl + 1);
      assert TailFrom(a, pos) == TailFrom(a, nl + 1);
      AppendedTail(a, b, nl + 1);
    } else {
      assert ab[pos..] == a[pos..] + b;
      CutShiftTail(ab, pos, 0);
    }
  }

  /** Appending to the buffer: the old complete lines stay, and the new
      ones are cut from the old tail followed by the new text. */
  lemma CutAppended(a: string, b: string)
    ensures CompleteLines(a + b) == CompleteLines(a) + CompleteLines(Remainder(a) + b)
    ensures Remainder(a + b) == Remainder(Remainder(a) + b)
  {
    AppendedLines(a, b, 0);
    AppendedTail(a, b, 0);
  }

  /** The whole output read so far. */
  function Concat(chunks: seq<string>): string
  {
    if chunks == [] then [] else Concat(chunks[..|chunks| - 1]) + chunks[|chunks| - 1]
  }

  // ---------------------------------------------------------------
  // Percentages
  // ---------------------------------------------------------------

  /** One trailing '\r' is dropped. */
  function StripCR(line: string): (r: string)
    ensures r == line || (line == r + "\r")
  {
    if |line| > 0 && line[|line| - 1] == '\r' then line[..|line| - 1] else line
  }

  /** `out_time_ms` (microseconds, despite the name) as a percentage of
      the duration in seconds. */
  function Percent(us: int, duration: real): real
    requires duration > 0.0
  {
    (us as real) / (duration * 1000000.0) * 100.0
  }

  /** The share of the duration (seconds) that out_time_ms (microseconds)
      has reached, as a percentage capped at 100; none for a line that is
      not a progress line or when the duration is unknown. */
  function LinePercent(line: string, duration: real): (r: Option<real>)
    ensures r.Some? ==> 0.0 <= r.value <= 100.0
    ensures r.Some? <==> IsProgressLine(StripCR(line)) && duration > 0.0
  {
    var us := OutTimeMs(StripCR(line));
    if us >= 0 && duration > 0.0 then
      var pct := Percent(us, duration);
      Some(if pct > 100.0 then 100.0 else pct)
    else None
  }

  /** The per-line computation of the worker: strip '\r', parse
      out_time_ms, and turn it into a capped percentage. */
  method LinePercentOf(rawLine: string, duration: real) returns (r: Option<real>)
    ensures r == LinePercent(rawLine, duration)
  {
    var line := rawLine;
    if |line| > 0 && line[|line| - 1] == '\r' {
      line := line[..|line| - 1];
    }
    var outMs := ParseOutTimeMs(line);
    r := None;
    if outMs >= 0 && duration > 0.0 {
      var pct := (outMs as real) / (duration * 1000000.0) * 100.0;
      if pct > 100.0 {
        pct := 100.0;
      }
      r := Some(pct);
    }
  }

  /** The reading the worker applies to every line: its percentage of a
      duration that is fixed for the whole attempt. */
  function ProgressReading(duration: real): string -> Option<real>
  {
    line => LinePercent(line, duration)
  }

  /** A reading whose percentages lie in [0, 100]. */
  ghost predicate Bounded(reading: string -> Option<real>)
  {
    forall line :: reading(line).Some? ==> 0.0 <= reading(line).value <= 100.0
  }

  /** A progress line for `n` reads back as `n`, with or without one
      trailing '\r'. */
  lemma ProgressLineReads(n: nat)
    ensures OutTimeMs(StripCR(OutTimeKey + FormatNat(n))) == n
    ensures StripCR(OutTimeKey + FormatNat(n) + "\r") == OutTimeKey + FormatNat(n)
  {
    var line := OutTimeKey + FormatNat(n);
    OutTimeRoundTrip(n, []);
    assert line + [] == line;
    assert IsDigit(line[|line| - 1]);
    assert StripCR(line) == line;
    assert (line + "\r")[..|line|] == line;
  }

  /** `out_time_ms=<n>` against a duration of d seconds is n / (d * 10^6)
      of the whole, capped at 100; one trailing '\r' makes no difference. */
  lemma PercentOfProgressLine(n: nat, duration: real)
    requires duration > 0.0
    ensures var pct := (n as real) / (duration * 1000000.0) * 100.0;
      LinePercent(OutTimeKey + FormatNat(n), duration) == Some(if pct > 100.0 then 100.0 else pct)
      && LinePercent(OutTimeKey + FormatNat(n) + "\r", duration) == LinePercent(OutTimeKey + FormatNat(n), duration)
  {
    ProgressLineReads(n);
  }

  /** Halfway through the duration (in microseconds) the encode is 50%
      done. */
  lemma HalfwayIsFifty(n: nat, duration: real)
    requires duration > 0.0 && (n as real) == duration * 500000.0
    ensures LinePercent(OutTimeKey + FormatNat(n), duration) == Some(50.0)
  {
    HalfShare(n as real, duration);
    PercentOfProgressLine(n, duration);
  }

  lemma HalfShare(x: real, duration: real)
    requires duration > 0.0 && x == duration * 500000.0
    ensures x / (duration * 1000000.0) * 100.0 == 50.0
  {
    var whole := duration * 1000000.0;
    assert x == 0.5 * whole;
    ScaledShare(0.5, whole);
  }

  lemma ScaledShare(share: real, whole: real)
    requires whole > 0.0
    ensures (share * whole) / whole == share
  {
  }

  // ---------------------------------------------------------------
  // The throttle
  // ---------------------------------------------------------------

  /** The reported percentages and the last one (lastPct, -1 before the
      first report). */
  datatype Tracker = Tracker(emitted: seq<real>, last: real)

  const Start: Tracker := Tracker([], -1.0)

  /** One line through the throttle: its reading is reported when it is
      the first or has risen by at least half a point. */
  function Step(t: Tracker, line: string, reading: string -> Option<real>): Tracker
  {
    match reading(line)
    case None => t
    case Some(pct) =>
      if pct - t.last >= 0.5 || t.last < 0.0 then Tracker(t.emitted + [pct], pct) else t
  }

  /** Lines through the throttle in arrival order. */
  function Run(t: Tracker, lines: seq<string>, reading: string -> Option<real>): Tracker
    decreases |lines|
  {
    if lines == [] then t
    else Run(Step(t, lines[0], reading), lines[1..], reading)
  }

  lemma RunCons(t: Tracker, line: string, later: seq<string>, reading: string -> Option<real>)
    ensures Run(t, [line] + later, reading) == Run(Step(t, line, reading), later, reading)
  {
    assert ([line] + later)[0] == line && ([line] + later)[1..] == later;
  }

  /** Feeding two stretches of lines is feeding them one after the other. */
  lemma {:induction false} RunAppend(t: Tracker, a: seq<string>, b: seq<string>, reading: string -> Option<real>)
    ensures Run(t, a + b, reading) == Run(Run(t, a, reading), b, reading)
    decreases |a|
  {
    if a == [] {
      assert a + b == b;
    } else {
      assert (a + b)[0] == a[0];
      assert (a + b)[1..] == a[1..] + b;
      RunAppend(Step(t, a[0], reading), a[1..], b, reading);
    }
  }

  /** What the throttle keeps true: reports lie in [0, 100], each is at
      least half a point above the one before, and `last` is the latest
      report (or -1 before any). */
  ghost predicate Monotone(t: Tracker)
  {
    && (t.emitted == [] ==> t.last == -1.0)
    && (t.emitted != [] ==> t.last == t.emitted[|t.emitted| - 1])
    && (forall i :: 0 <= i < |t.emitted| ==> 0.0 <= t.emitted[i] <= 100.0)
    && (forall i :: 0 < i < |t.emitted| ==> t.emitted[i] - t.emitted[i - 1] >= 0.5)
  }

  /** One line keeps the throttle's invariant. */
  lemma StepKeepsMonotone(t: Tracker, line: string, reading: string -> Option<real>)
    requires Monotone(t) && Bounded(reading)
    ensures Monotone(Step(t, line, reading))
  {
    match reading(line)
    case None =>
    case Some(pct) =>
      if pct - t.last >= 0.5 || t.last < 0.0 {
        var e := t.emitted + [pct];
        assert forall i :: 0 <= i < |t.emitted| ==> e[i] == t.emitted[i];
        assert t.emitted != [] ==> e[|e| - 1] - e[|e| - 2] >= 0.5;
      }
  }

  /** Any run of lines keeps the throttle's invariant. */
  lemma {:induction false} RunKeepsMonotone(t: Tracker, lines: seq<string>, reading: string -> Option<real>)
    requires Monotone(t) && Bounded(reading)
    ensures Monotone(Run(t, lines, reading))
    decreases |lines|
  {
    if lines != [] {
      StepKeepsMonotone(t, lines[0], reading);
      RunKeepsMonotone(Step(t, lines[0], reading), lines[1..], reading);
    }
  }

  /** Reported percentages only go up, by at least half a point, and stay
      within [0, 100]. */
  lemma RunIsMonotone(lines: seq<string>, duration: real)
    ensures Monotone(Run(Start, lines, ProgressReading(duration)))
  {
    assert Bounded(ProgressReading(duration));
    RunKeepsMonotone(Start, lines, ProgressReading(duration));
  }

  /** A reading that never yields a value leaves the throttle as it was. */
  lemma {:induction false} RunWithoutReadings(t: Tracker, lines: seq<string>, reading: string -> Option<real>)
    requires forall line :: reading(line).None?
    ensures Run(t, lines, reading) == t
    decreases |lines|
  {
    if lines != [] {
      RunWithoutReadings(t, lines[1..], reading);
    }
  }

  /** Without a known duration nothing is reported. */
  lemma UnknownDurationReportsNothing(lines: seq<string>, duration: real)
    requires duration <= 0.0
    ensures Run(Start, lines, ProgressReading(duration)).emitted == []
  {
    RunWithoutReadings(Start, lines, ProgressReading(duration));
  }

  /** Reports are strictly increasing over the whole run. */
  lemma EmittedIncrease(lines: seq<string>, duration: real, i: nat, j: nat)
    requires i < j < |Run(Start, lines, ProgressReading(duration)).emitted|
    ensures Run(Start, lines, ProgressReading(duration)).emitted[i]
          < Run(Start, lines, ProgressReading(duration)).emitted[j]
  {
    RunIsMonotone(lines, duration);
    StepsIncrease(Run(Start, lines, ProgressReading(duration)).emitted, i, j);
  }

  /** Steps of at least half a point make a strictly increasing sequence. */
  lemma StepsIncrease(e: seq<real>, i: nat, j: nat)
    requires forall k :: 0 < k < |e| ==> e[k] - e[k - 1] >= 0.5
    requires i < j < |e|
    ensures e[i] < e[j]
  {
    var k := i + 1;
    while k < j
      invariant i < k <= j
      invariant e[i] < e[k]
    {
      k := k + 1;
    }
  }

  /** The first percentage is always reported. */
  lemma FirstPercentReported(line: string, duration: real)
    requires LinePercent(line, duration).Some?
    ensures Run(Start, [line], ProgressReading(duration)).emitted == [LinePercent(line, duration).value]
  {
    assert [line][1..] == [];
  }

  /** A rise of less than half a point over the last report is not
      reported. */
  lemma SmallRiseNotReported(t: Tracker, line: string, duration: real)
    requires t.last >= 0.0
    requires LinePercent(line, duration).Some?
    requires LinePercent(line, duration).value - t.last < 0.5
    ensures Step(t, line, ProgressReading(duration)) == t
  {
  }

  /** Two progress lines 0.3 points apart give a single report. */
  lemma CloseUpdatesReportOnce(l1: string, l2: string, duration: real)
    requires LinePercent(l1, duration).Some? && LinePercent(l2, duration).Some?
    requires LinePercent(l2, duration).value - LinePercent(l1, duration).value == 0.3
    ensures Run(Start, [l1, l2], ProgressReading(duration)).emitted == [LinePercent(l1, duration).value]
  {
    var reading := ProgressReading(duration);
    var t1 := Step(Start, l1, reading);
    RunCons(Start, l1, [l2], reading);
    assert [l1] + [l2] == [l1, l2];
    RunCons(t1, l2, [], reading);
    assert [l2] + [] == [l2];
  }

  // ---------------------------------------------------------------
  // The reading loop
  // ---------------------------------------------------------------

  /** The throttle step of the line loop. */
  method TrackLine(line: string, reading: string -> Option<real>, emitted0: seq<real>, last0: real,
                   ghost later: seq<string>)
    returns (emitted: seq<real>, lastPct: real)
    ensures Tracker(emitted, lastPct) == Step(Tracker(emitted0, last0), line, reading)
    ensures Run(Tracker(emitted0, last0), [line] + later, reading) == Run(Tracker(emitted, lastPct), later, reading)
  {
    RunCons(Tracker(emitted0, last0), line, later, reading);
    emitted, lastPct := emitted0, last0;
    var r := reading(line);
    if r.Some? {
      var pct := r.value;
      if pct - lastPct >= 0.5 || lastPct < 0.0 {
        emitted := emitted + [pct];
        lastPct := pct;
      }
    }
  }

  /** The inner `find('\n', pos)` loop over the buffer, followed by the
      erase of everything it consumed. */
  method DrainLines(buffer0: string, reading: string -> Option<real>, emitted0: seq<real>, last0: real)
    returns (emitted: seq<real>, lastPct: real, buffer: string)
    ensures Tracker(emitted, lastPct) == Run(Tracker(emitted0, last0), CompleteLines(buffer0), reading)
    ensures buffer == Remainder(buffer0)
  {
    emitted, lastPct := emitted0, last0;
    var pos := 0;
    while true
      invariant pos <= |buffer0|
      invariant Run(Tracker(emitted0, last0), LinesFrom(buffer0, 0), reading)
             == Run(Tracker(emitted, lastPct), LinesFrom(buffer0, pos), reading)
      invariant TailFrom(buffer0, 0) == TailFrom(buffer0, pos)
      decreases |buffer0| - pos
    {
      var nl := NextNewline(buffer0, pos);
      if nl == |buffer0| {
        break;
      }
      emitted, lastPct := TrackLine(buffer0[pos..nl], reading, emitted, lastPct, LinesFrom(buffer0, nl + 1));
      pos := nl + 1;
    }
    buffer := buffer0;
    if pos > 0 {
      buffer := buffer[pos..];
    }
  }

  /** The reading loop of one attempt: chunk by chunk, every complete line
      goes through the throttle and only the unterminated tail is kept.
      The reports are those of the whole output cut into lines at once, so
      they do not depend on where the chunks end. */
  method ReadProgress(chunks: seq<string>, reading: string -> Option<real>) returns (emitted: seq<real>, buffer: string)
    ensures buffer == Remainder(Concat(chunks))
    ensures emitted == Run(Start, CompleteLines(Concat(chunks)), reading).emitted
  {
    buffer := [];
    emitted := [];
    var lastPct := -1.0;
    for i := 0 to |chunks|
      invariant buffer == Remainder(Concat(chunks[..i]))
      invariant Tracker(emitted, lastPct) == Run(Start, CompleteLines(Concat(chunks[..i])), reading)
    {
      ghost var before := Concat(chunks[..i]);
      assert chunks[..i + 1][..i] == chunks[..i];
      assert Concat(chunks[..i + 1]) == before + chunks[i];
      CutAppended(before, chunks[i]);
      RunAppend(Start, CompleteLines(before), CompleteLines(buffer + chunks[i]), reading);
      emitted, lastPct, buffer := DrainLines(buffer + chunks[i], reading, emitted, lastPct);
    }
    assert chunks[..|chunks|] == chunks;
  }
}
