// RunEncode and its background worker: the job is planned on the UI
// thread, then each candidate encoder is tried in turn until one exits
// with code 0. What the operating system does for an attempt (creating the
// pipe, starting ffmpeg, the chunks read from its output, the exit code) is
// given as an Outcome; the status strings the worker posts to the window are
// collected, in order, as Messages.

module Worker {
  import opened Strings
  import opened Paths
  import opened Plan
  import opened Progress
  import opened Parsers

  /** How one attempt ended: CreatePipe failed, CreateProcessW failed, or
      ffmpeg ran, wrote `output` to its standard output and error, and
      exited with `exitCode` (1 when the code could not be read). Whether
      the worker sees `output` depends on the job: see PipeChunks. */
  datatype Outcome = PipeFailed | SpawnFailed | Exited(output: seq<string>, exitCode: int)

  predicate Succeeded(o: Outcome)
  {
    o.Exited? && o.exitCode == 0
  }

  /** The status lines of the window. Percent carries the value that
      "Encoding (enc)... %.1f%%" prints. */
  datatype Message =
    | NoVideo
    | Encoding
    | Attempting(enc: string)
    | Percent(enc: string, pct: real)
    | Done(out: string)
    | Failed(logPath: string)

  /** The text of every message but Percent, whose number formatting is
      not modelled. */
  function MessageText(m: Message): string
    requires !m.Percent?
  {
    match m
    case NoVideo => "No video loaded."
    case Encoding => "Encoding..."
    case Attempting(enc) => "Encoding (" + enc + ")..."
    case Done(out) => "Done: " + out
    case Failed(logPath) => "Encode failed. See log: " + logPath
  }

  /** What the worker runs with. The thread in the source captures every
      field here but `video`: each attempt reads the input path again from
      the window's loaded-video state, which opening or dropping a file
      replaces while the encode runs. The job keeps the video RunEncode
      planned with, so input and output stay paired; LiveAttemptCommand is
      the command as the source builds it. */
  datatype Job = Job(
    ffmpeg: string,
    video: string,
    vf: string,
    out: string,
    logPath: string,
    encoders: seq<string>,
    targetMbps: int,
    combined: string,
    durationSec: real,
    logCreated: bool)

  // ---------------------------------------------------------------
  // The specification of the worker
  // ---------------------------------------------------------------

  /** The chunks ReadFile returns from the pipe. The source hands the pipe
      to ffmpeg as its standard output and error, but sets the flag that
      makes CreateProcessW use those handles only when the log file was
      created; without a log ffmpeg's output never reaches the pipe, and
      the read loop ends at once. */
  function PipeChunks(job: Job, output: seq<string>): seq<string>
  {
    if job.logCreated then output else []
  }

  /** The progress values one attempt reports: the throttle run over the
      complete lines of the chunks read. */
  function Reported(output: seq<string>, durationSec: real): seq<real>
  {
    Run(Start, CompleteLines(Concat(output)), ProgressReading(durationSec)).emitted
  }

  function PercentMessages(enc: string, pcts: seq<real>): (ms: seq<Message>)
    ensures |ms| == |pcts|
  {
    seq(|pcts|, i requires 0 <= i < |pcts| => Percent(enc, pcts[i]))
  }

  /** The messages of one attempt: the attempt is announced before the pipe
      is created, and only a started ffmpeg whose output reaches the pipe
      can report progress. */
  function AttemptMessages(job: Job, enc: string, o: Outcome): seq<Message>
  {
    [Attempting(enc)] + (if o.Exited? then PercentMessages(enc, Reported(PipeChunks(job, o.output), job.durationSec)) else [])
  }

  /** The messages of one attempt when the pipe is always handed to ffmpeg,
      whether or not the log could be created. */
  function WiredAttemptMessages(job: Job, enc: string, o: Outcome): seq<Message>
  {
    [Attempting(enc)] + (if o.Exited? then PercentMessages(enc, Reported(o.output, job.durationSec)) else [])
  }

  /** What one attempt appends to the log: a header and the command line,
      then everything ffmpeg wrote; nothing when the log could not be
      created. */
  function AttemptLog(job: Job, enc: string, o: Outcome): string
  {
    if !job.logCreated then []
    else
      AttemptHeader(enc) + AttemptCommand(job, enc) + "\r\n" + (if o.Exited? then Concat(o.output) else [])
  }

  /** The command line of one attempt with encoder `enc`. */
  function AttemptCommand(job: Job, enc: string): string
  {
    EncodeCommand(job.ffmpeg, job.video, job.vf, enc, job.targetMbps, job.durationSec, job.out)
  }

  /** The command line as the source builds it: the input is whatever
      video is loaded when the attempt starts, the rest comes from the job. */
  function LiveAttemptCommand(job: Job, enc: string, loaded: string): string
  {
    EncodeCommand(job.ffmpeg, loaded, job.vf, enc, job.targetMbps, job.durationSec, job.out)
  }

  /** The line that opens each attempt in the log. */
  function AttemptHeader(enc: string): string
  {
    "\r\n=== Attempt encoder: " + enc + " ===\r\n"
  }

  datatype Trial = Trial(messages: seq<Message>, log: string, success: bool)

  /** The attempts from the first candidate on: stop at the first exit code
      0, move on after anything else. */
  function Attempts(job: Job, encs: seq<string>, outs: seq<Outcome>): Trial
    requires |encs| == |outs|
    decreases |encs|
  {
    if encs == [] then Trial([], [], false)
    else
      var msgs := AttemptMessages(job, encs[0], outs[0]);
      var log := AttemptLog(job, encs[0], outs[0]);
      if Succeeded(outs[0]) then Trial(msgs, log, true)
      else
        var rest := Attempts(job, encs[1..], outs[1..]);
        Trial(msgs + rest.messages, log + rest.log, rest.success)
  }

  /** What the worker leaves behind. */
  datatype WorkerResult = WorkerResult(messages: seq<Message>, log: string, success: bool, tempDeleted: bool)

  /** The whole worker: the attempts, then the temp script is deleted when
      there is one, then the final status. */
  function WorkerOutcome(job: Job, outs: seq<Outcome>): WorkerResult
    requires |outs| == |job.encoders|
  {
    var trial := Attempts(job, job.encoders, outs);
    var final := if trial.success then Done(job.out) else Failed(job.logPath);
    WorkerResult(trial.messages + [final], trial.log, trial.success, job.combined != [])
  }

  // ---------------------------------------------------------------
  // The worker
  // ---------------------------------------------------------------

  /** One pass of the worker loop: log the command, announce the encoder,
      and when ffmpeg starts, read its output through the progress
      throttle. */
  method RunAttempt(job: Job, enc: string, o: Outcome) returns (msgs: seq<Message>, log: string, ok: bool)
    ensures msgs == AttemptMessages(job, enc, o)
    ensures log == AttemptLog(job, enc, o)
    ensures ok == Succeeded(o)
  {
    var cmd := EncodeCommand(job.ffmpeg, job.video, job.vf, enc, job.targetMbps, job.durationSec, job.out);
    log := [];
    if job.logCreated {
      log := AttemptHeader(enc) + cmd + "\r\n";
    }
    msgs := [Attempting(enc)];
    ok := false;
    match o {
      case PipeFailed =>
      case SpawnFailed =>
      case Exited(output, exitCode) =>
        var emitted, _ := ReadProgress(PipeChunks(job, output), ProgressReading(job.durationSec));
        msgs := msgs + PercentMessages(enc, emitted);
        if job.logCreated {
          log := log + Concat(output);
        }
        ok := exitCode == 0;
    }
  }

  /** The body of the worker thread, one outcome per candidate (outcomes
      after the first success are never looked at). */
  method EncodeWorker(job: Job, outcomes: seq<Outcome>) returns (r: WorkerResult)
    requires |outcomes| == |job.encoders|
    ensures r == WorkerOutcome(job, outcomes)
  {
    var encs := job.encoders;
    var messages: seq<Message> := [];
    var log: string := [];
    var i := 0;
    while i < |encs|
      invariant 0 <= i <= |encs|
      invariant var rest := Attempts(job, encs[i..], outcomes[i..]);
        Attempts(job, encs, outcomes) == Trial(messages + rest.messages, log + rest.log, rest.success)
    {
      var msgs, attemptLog, ok := RunAttempt(job, encs[i], outcomes[i]);
      AttemptsStep(job, encs, outcomes, i, messages, log);
      messages, log := messages + msgs, log + attemptLog;
      if ok {
        EmptyTrialUnit(messages, log);
        return WorkerResult(messages + [Done(job.out)], log, true, job.combined != []);
      }
      i := i + 1;
    }
    assert encs[i..] == [] && outcomes[i..] == [];
    EmptyTrialUnit(messages, log);
    r := WorkerResult(messages + [Failed(job.logPath)], log, false, job.combined != []);
  }

  /** One attempt of the loop: either it succeeds and ends the trial, or
      the trial goes on from the next candidate. */
  lemma AttemptsStep(job: Job, encs: seq<string>, outs: seq<Outcome>, i: nat,
                     messages: seq<Message>, log: string)
    requires i < |encs| == |outs|
    requires var rest := Attempts(job, encs[i..], outs[i..]);
      Attempts(job, encs, outs) == Trial(messages + rest.messages, log + rest.log, rest.success)
    ensures var msgs, alog := AttemptMessages(job, encs[i], outs[i]), AttemptLog(job, encs[i], outs[i]);
      && (Succeeded(outs[i]) ==> Attempts(job, encs, outs) == Trial(messages + msgs, log + alog, true))
      && (!Succeeded(outs[i]) ==>
            var rest := Attempts(job, encs[i + 1..], outs[i + 1..]);
            Attempts(job, encs, outs) == Trial((messages + msgs) + rest.messages, (log + alog) + rest.log, rest.success))
  {
    var msgs, alog := AttemptMessages(job, encs[i], outs[i]), AttemptLog(job, encs[i], outs[i]);
    var rest := Attempts(job, encs[i + 1..], outs[i + 1..]);
    assert encs[i..][1..] == encs[i + 1..] && outs[i..][1..] == outs[i + 1..];
    ConcatAssoc(messages, msgs, rest.messages);
    ConcatAssoc(log, alog, rest.log);
  }

  lemma EmptyTrialUnit(messages: seq<Message>, log: string)
    ensures messages + [] == messages && log + [] == log
  {
  }

  // ---------------------------------------------------------------
  // Properties of the worker
  // ---------------------------------------------------------------

  /** How many candidates are tried: up to and including the first that
      exits with code 0, or all of them. */
  function AttemptsMade(outs: seq<Outcome>): (n: nat)
    ensures n <= |outs|
    ensures forall k :: 0 <= k < n - 1 ==> !Succeeded(outs[k])
    ensures n < |outs| ==> n > 0 && Succeeded(outs[n - 1])
    ensures outs != [] ==> n > 0
  {
    if outs == [] then 0
    else if Succeeded(outs[0]) then 1
    else 1 + AttemptsMade(outs[1..])
  }

  /** The encoders announced by a list of messages, in order. */
  function Announced(ms: seq<Message>): seq<string>
  {
    if ms == [] then []
    else (if ms[0].Attempting? then [ms[0].enc] else []) + Announced(ms[1..])
  }

  lemma {:induction false} AnnouncedAppend(a: seq<Message>, b: seq<Message>)
    ensures Announced(a + b) == Announced(a) + Announced(b)
  {
    if a == [] {
      assert a + b == b;
    } else {
      assert (a + b)[0] == a[0];
      assert (a + b)[1..] == a[1..] + b;
      AnnouncedAppend(a[1..], b);
    }
  }

  lemma {:induction false} NoAnnouncedPercent(enc: string, pcts: seq<real>)
    ensures Announced(PercentMessages(enc, pcts)) == []
  {
    if pcts != [] {
      assert PercentMessages(enc, pcts)[1..] == PercentMessages(enc, pcts[1..]);
      NoAnnouncedPercent(enc, pcts[1..]);
    }
  }

  lemma AttemptAnnouncesOnce(job: Job, enc: string, o: Outcome)
    ensures Announced(AttemptMessages(job, enc, o)) == [enc]
  {
    var pcts := if o.Exited? then Reported(PipeChunks(job, o.output), job.durationSec) else [];
    var tail := if o.Exited? then PercentMessages(enc, pcts) else [];
    AnnouncedAppend([Attempting(enc)], tail);
    if o.Exited? {
      NoAnnouncedPercent(enc, pcts);
    }
    assert Announced([Attempting(enc)]) == [enc] + Announced([]);
  }

  /** The trial tries the candidates in order, up to the first success. */
  lemma {:induction false} AttemptsInOrder(job: Job, encs: seq<string>, outs: seq<Outcome>)
    requires |encs| == |outs|
    ensures Announced(Attempts(job, encs, outs).messages) == encs[..AttemptsMade(outs)]
    decreases |encs|
  {
    if encs != [] {
      var msgs := AttemptMessages(job, encs[0], outs[0]);
      AttemptAnnouncesOnce(job, encs[0], outs[0]);
      if !Succeeded(outs[0]) {
        var rest := Attempts(job, encs[1..], outs[1..]);
        AttemptsInOrder(job, encs[1..], outs[1..]);
        AnnouncedAppend(msgs, rest.messages);
        assert encs[..AttemptsMade(outs)] == [encs[0]] + encs[1..][..AttemptsMade(outs[1..])];
      } else {
        assert encs[..1] == [encs[0]];
      }
    }
  }

  /** The trial succeeds exactly when some attempt exited with code 0. */
  lemma {:induction false} AttemptsSucceedIff(job: Job, encs: seq<string>, outs: seq<Outcome>)
    requires |encs| == |outs|
    ensures Attempts(job, encs, outs).success <==> exists k :: 0 <= k < |outs| && Succeeded(outs[k])
    decreases |encs|
  {
    if encs != [] && !Succeeded(outs[0]) {
      AttemptsSucceedIff(job, encs[1..], outs[1..]);
      if exists k :: 0 <= k < |outs| && Succeeded(outs[k]) {
        var k :| 0 <= k < |outs| && Succeeded(outs[k]);
        assert outs[1..][k - 1] == outs[k];
      }
      if exists k :: 0 <= k < |outs[1..]| && Succeeded(outs[1..][k]) {
        var k :| 0 <= k < |outs[1..]| && Succeeded(outs[1..][k]);
        assert outs[k + 1] == outs[1..][k];
      }
    }
  }

  /** Without a success every candidate is tried. */
  lemma {:induction false} NoSuccessTriesAll(outs: seq<Outcome>)
    requires forall k :: 0 <= k < |outs| ==> !Succeeded(outs[k])
    ensures AttemptsMade(outs) == |outs|
  {
    if outs != [] {
      NoSuccessTriesAll(outs[1..]);
    }
  }

  /** The worker ends with "Done: out" exactly when some attempt exited
      with code 0, and with "Encode failed. See log: logPath" otherwise; the
      encoders it announces are the candidates up to the first success. */
  lemma WorkerReports(job: Job, outs: seq<Outcome>)
    requires |outs| == |job.encoders|
    ensures var r := WorkerOutcome(job, outs);
      && (r.success <==> exists k :: 0 <= k < |outs| && Succeeded(outs[k]))
      && r.messages[|r.messages| - 1] == (if r.success then Done(job.out) else Failed(job.logPath))
      && Announced(r.messages) == job.encoders[..AttemptsMade(outs)]
      && r.tempDeleted == (job.combined != [])
  {
    var trial := Attempts(job, job.encoders, outs);
    var final := if trial.success then Done(job.out) else Failed(job.logPath);
    AttemptsInOrder(job, job.encoders, outs);
    AttemptsSucceedIff(job, job.encoders, outs);
    AnnouncedAppend(trial.messages, [final]);
    assert Announced([final]) == [] + Announced([]);
  }

  /** When no candidate succeeds, every one is announced and the worker
      ends by pointing at the log. */
  lemma WorkerFailsAfterAll(job: Job, outs: seq<Outcome>)
    requires |outs| == |job.encoders|
    requires forall k :: 0 <= k < |outs| ==> !Succeeded(outs[k])
    ensures Announced(WorkerOutcome(job, outs).messages) == job.encoders
    ensures var ms := WorkerOutcome(job, outs).messages; ms[|ms| - 1] == Failed(job.logPath)
  {
    WorkerReports(job, outs);
    NoSuccessTriesAll(outs);
    assert job.encoders[..|outs|] == job.encoders;
  }

  /** When the log file could not be created nothing is logged; otherwise
      the log opens with the header of the first attempt. */
  lemma {:induction false} LogOnlyWhenCreated(job: Job, encs: seq<string>, outs: seq<Outcome>)
    requires |encs| == |outs|
    ensures !job.logCreated ==> Attempts(job, encs, outs).log == []
    ensures job.logCreated && encs != [] ==> StartsWith(Attempts(job, encs, outs).log, AttemptHeader(encs[0]))
    decreases |encs|
  {
    if encs != [] {
      if !Succeeded(outs[0]) {
        LogOnlyWhenCreated(job, encs[1..], outs[1..]);
      }
      if job.logCreated {
        var h := AttemptHeader(encs[0]);
        var cmd := EncodeCommand(job.ffmpeg, job.video, job.vf, encs[0], job.targetMbps, job.durationSec, job.out);
        var first := AttemptLog(job, encs[0], outs[0]);
        StartsWithExtend(h, h, cmd);
        StartsWithExtend(h + cmd, h, "\r\n");
        StartsWithExtend(h + cmd + "\r\n", h, if outs[0].Exited? then Concat(outs[0].output) else []);
        if !Succeeded(outs[0]) {
          StartsWithExtend(first, h, Attempts(job, encs[1..], outs[1..]).log);
        }
      }
    }
  }

  lemma StartsWithExtend(s: string, p: string, x: string)
    requires StartsWith(s, p) || s == p
    ensures StartsWith(s + x, p)
  {
    assert (s + x)[..|p|] == s[..|p|];
  }

  /** Without a known duration an attempt posts only its announcement. */
  lemma AttemptWithoutDuration(job: Job, enc: string, o: Outcome)
    requires job.durationSec <= 0.0
    ensures AttemptMessages(job, enc, o) == [Attempting(enc)]
  {
    if o.Exited? {
      UnknownDurationReportsNothing(CompleteLines(Concat(PipeChunks(job, o.output))), job.durationSec);
    }
  }

  /** Without a log file an attempt posts only its announcement, whatever
      ffmpeg wrote: its output never reaches the pipe. */
  lemma NoLogNoProgress(job: Job, enc: string, o: Outcome)
    requires !job.logCreated
    ensures AttemptMessages(job, enc, o) == [Attempting(enc)]
  {
    if o.Exited? {
      assert Concat(PipeChunks(job, o.output)) == [];
      NothingReadNothingReported(job.durationSec);
    }
  }

  lemma NothingReadNothingReported(durationSec: real)
    ensures Reported([], durationSec) == []
  {
    assert Concat([]) == [];
    NoNewlineCutsNothing([]);
  }

  /** With the pipe always wired, an attempt reports what ffmpeg wrote
      whether or not the log was created, as the source does when it was. */
  lemma WiredProgressIgnoresLog(job: Job, enc: string, o: Outcome)
    ensures WiredAttemptMessages(job, enc, o) == AttemptMessages(job.(logCreated := true), enc, o)
    ensures job.logCreated ==> WiredAttemptMessages(job, enc, o) == AttemptMessages(job, enc, o)
  {
  }

  /** The discrepancy on one input: ffmpeg reports it is halfway through,
      and without a log the attempt posts no percentage, where the wired
      pipe would post 50%. */
  lemma ProgressLostWithoutLog(job: Job, enc: string, n: nat)
    requires !job.logCreated && job.durationSec > 0.0 && (n as real) == job.durationSec * 500000.0
    ensures var o := Exited([OutTimeKey + FormatNat(n) + "\n"], 0);
      && AttemptMessages(job, enc, o) == [Attempting(enc)]
      && WiredAttemptMessages(job, enc, o) == [Attempting(enc), Percent(enc, 50.0)]
  {
    var line := OutTimeKey + FormatNat(n);
    NoLogNoProgress(job, enc, Exited([line + "\n"], 0));
    ProgressLineIsOneLine(n);
    HalfwayIsFifty(n, job.durationSec);
    OneLineReported(line, job.durationSec);
    assert PercentMessages(enc, [50.0]) == [Percent(enc, 50.0)];
  }

  lemma ProgressLineIsOneLine(n: nat)
    ensures NoNewline(OutTimeKey + FormatNat(n))
  {
    var line := OutTimeKey + FormatNat(n);
    assert forall i :: 0 <= i < |FormatNat(n)| ==> line[|OutTimeKey| + i] == FormatNat(n)[i];
  }

  /** One chunk holding one complete line reports that line's percentage. */
  lemma OneLineReported(line: string, duration: real)
    requires NoNewline(line) && LinePercent(line, duration).Some?
    ensures Reported([line + "\n"], duration) == [LinePercent(line, duration).value]
  {
    assert Concat([line + "\n"]) == JoinLines([line]) + [] by {
      assert [line + "\n"][..0] == [];
      assert JoinLines([line]) == line + "\n" + JoinLines([]);
    }
    CutJoinedLines([line], []);
    FirstPercentReported(line, duration);
  }

  /** Without a known duration, or without a log file, the worker posts
      one message per attempt and the final status, no percentage. */
  lemma {:induction false} WithoutDurationOnlyStatuses(job: Job, encs: seq<string>, outs: seq<Outcome>)
    requires |encs| == |outs| && (job.durationSec <= 0.0 || !job.logCreated)
    ensures |Attempts(job, encs, outs).messages| == AttemptsMade(outs)
    ensures forall k :: 0 <= k < |Attempts(job, encs, outs).messages| ==>
      Attempts(job, encs, outs).messages[k].Attempting?
    decreases |encs|
  {
    if encs != [] {
      if job.durationSec <= 0.0 {
        AttemptWithoutDuration(job, encs[0], outs[0]);
      } else {
        NoLogNoProgress(job, encs[0], outs[0]);
      }
      if !Succeeded(outs[0]) {
        WithoutDurationOnlyStatuses(job, encs[1..], outs[1..]);
      }
    }
  }

  /** Within one attempt the reported percentages rise strictly. */
  lemma AttemptPercentsRise(job: Job, enc: string, o: Outcome, i: nat, j: nat)
    requires 1 <= i < j < |AttemptMessages(job, enc, o)|
    ensures AttemptMessages(job, enc, o)[i].Percent? && AttemptMessages(job, enc, o)[j].Percent?
    ensures AttemptMessages(job, enc, o)[i].pct < AttemptMessages(job, enc, o)[j].pct
  {
    var pcts := Reported(PipeChunks(job, o.output), job.durationSec);
    var ms := AttemptMessages(job, enc, o);
    assert o.Exited? && ms == [Attempting(enc)] + PercentMessages(enc, pcts);
    assert ms[i] == Percent(enc, pcts[i - 1]) && ms[j] == Percent(enc, pcts[j - 1]);
    ReportedRises(PipeChunks(job, o.output), job.durationSec, i - 1, j - 1);
  }

  lemma ReportedRises(output: seq<string>, durationSec: real, i: nat, j: nat)
    requires i < j < |Reported(output, durationSec)|
    ensures Reported(output, durationSec)[i] < Reported(output, durationSec)[j]
  {
    EmittedIncrease(CompleteLines(Concat(output)), durationSec, i, j);
  }

  // ---------------------------------------------------------------
  // RunEncode
  // ---------------------------------------------------------------

  /** The state of the window RunEncode reads: the loaded video, the two
      combo choices and the 1440p switch. */
  datatype Choices = Choices(video: string, encoderChoice: string, bitrateMbps: int, to1440p: bool)

  /** Everything RunEncode learns from outside: the ffmpeg path, the
      program's directory, the clock, whether the temp script and the log
      could be created, the video size, the three bitrate sources and the
      duration mpv reports (0 when unknown). */
  datatype Env = Env(
    ffmpeg: string,
    exeDir: string,
    clock: SystemTime,
    tempCreated: bool,
    videoW: int,
    videoH: int,
    mpvBps: int,
    estimate: Option<int>,
    probeKbps: int,
    durationSec: real,
    logCreated: bool)

  /** The job RunEncode hands to the worker. */
  function PlanJob(c: Choices, env: Env): (job: Job)
    ensures job.encoders == Candidates(c.encoderChoice)
    ensures job.targetMbps > 0
  {
    var temp := WriteCombinedShaderTemp(env.exeDir, env.clock, env.tempCreated);
    var out := OutputPath(c.video, c.to1440p);
    var target := TargetMbps(c.bitrateMbps, InputBitrateMbps(env.mpvBps, env.estimate, env.probeKbps));
    Job(env.ffmpeg, c.video, FilterGraph(temp, c.to1440p, env.videoW, env.videoH), out,
        LogPath(env.exeDir, out), Candidates(c.encoderChoice), target, temp.path, env.durationSec,
        env.logCreated)
  }

  /** RunEncode: nothing but a status without a video; otherwise
      "Encoding..." and then everything the worker posts. */
  method RunEncode(c: Choices, env: Env, outcomes: seq<Outcome>) returns (messages: seq<Message>, tempDeleted: bool)
    requires |outcomes| == |Candidates(c.encoderChoice)|
    ensures c.video == [] ==> messages == [NoVideo] && !tempDeleted
    ensures c.video != [] ==>
      var r := WorkerOutcome(PlanJob(c, env), outcomes);
      messages == [Encoding] + r.messages && tempDeleted == r.tempDeleted
  {
    if c.video == [] {
      return [NoVideo], false;
    }
    var job := PlanJob(c, env);
    var r := EncodeWorker(job, outcomes);
    messages := [Encoding] + r.messages;
    tempDeleted := r.tempDeleted;
  }

  /** With a video, RunEncode ends with "Done: " and the output path next
      to the input exactly when some candidate succeeded, and otherwise
      points at the log; the temp script is deleted exactly when it was
      created. */
  lemma RunEncodeReports(c: Choices, env: Env, outcomes: seq<Outcome>)
    requires |outcomes| == |Candidates(c.encoderChoice)| && c.video != []
    ensures var r := WorkerOutcome(PlanJob(c, env), outcomes);
      var out := OutputPath(c.video, c.to1440p);
      && r.messages[|r.messages| - 1]
           == (if exists k :: 0 <= k < |outcomes| && Succeeded(outcomes[k]) then Done(out)
               else Failed(LogPath(env.exeDir, out)))
      && (r.tempDeleted <==> env.tempCreated)
  {
    WorkerReports(PlanJob(c, env), outcomes);
  }

  /** With `auto` and no encoder that works, all five are tried in order
      before the failure is reported. */
  lemma AutoTriesEveryEncoder(c: Choices, env: Env, outcomes: seq<Outcome>)
    requires c.encoderChoice == "auto" && c.video != []
    requires |outcomes| == |AutoEncoders|
    requires forall k :: 0 <= k < |outcomes| ==> !Succeeded(outcomes[k])
    ensures var r := WorkerOutcome(PlanJob(c, env), outcomes);
      && Announced(r.messages) == AutoEncoders
      && r.messages[|r.messages| - 1] == Failed(LogPath(env.exeDir, OutputPath(c.video, c.to1440p)))
  {
    WorkerFailsAfterAll(PlanJob(c, env), outcomes);
  }

  // ---------------------------------------------------------------
  // The loaded video, read again at each attempt
  // ---------------------------------------------------------------

  /** As the source is written: when another video is loaded before an
      attempt starts, that attempt encodes the new video into the output
      named after the video the encode was started for. */
  lemma ReplacedVideoKeepsOldOutput(c: Choices, env: Env, enc: string, loaded: string)
    requires BasenameNoExt(loaded) != BasenameNoExt(c.video)
    ensures var job := PlanJob(c, env);
      && LiveAttemptCommand(job, enc, loaded)
           == EncodeCommand(env.ffmpeg, loaded, job.vf, enc, job.targetMbps, env.durationSec,
                            OutputPath(c.video, c.to1440p))
      && OutputPath(c.video, c.to1440p) != OutputPath(loaded, c.to1440p)
  {
    OutputNamedAfterInput(c.video, c.to1440p);
    OutputNamedAfterInput(loaded, c.to1440p);
    if OutputPath(c.video, c.to1440p) == OutputPath(loaded, c.to1440p) {
      SameSuffixSamePrefix(BasenameNoExt(c.video), BasenameNoExt(loaded), OutputStem(c.to1440p));
    }
  }

  lemma SameSuffixSamePrefix(a: string, b: string, s: string)
    requires a + s == b + s
    ensures a == b
  {
    assert a == (a + s)[..|a|];
    assert b == (b + s)[..|b|];
  }

  /** As intended: every attempt encodes the video the job was planned for
      into the output named after it, and the command is the one the
      source builds whenever the loaded video is left unchanged. */
  lemma SnapshotPairsInputAndOutput(c: Choices, env: Env, enc: string)
    ensures var job := PlanJob(c, env);
      && AttemptCommand(job, enc)
           == EncodeCommand(env.ffmpeg, c.video, job.vf, enc, job.targetMbps, env.durationSec,
                            OutputPath(c.video, c.to1440p))
      && BasenameNoExt(job.out) == BasenameNoExt(c.video) + OutputStem(c.to1440p)
      && AttemptCommand(job, enc) == LiveAttemptCommand(job, enc, c.video)
  {
    OutputNamedAfterInput(c.video, c.to1440p);
  }
}
