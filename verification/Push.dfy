/** Pushing a payload to the configured targets one after the other, within a time
    budget that ends before the web server's write timeout. */
module Push {
  import opened Clock
  import opened Redact
  import opened Text
  import Rfc3339

  const BUDGET: int := 12 * SECOND
  const WRITE_TIMEOUT: int := 15 * SECOND
  /** How long a killed ssh may keep its output open. */
  const WAIT_DELAY: int := 2 * SECOND
  const MAX_CAPTURE: nat := 4096
  const MILLISECOND: int := 1_000_000

  datatype Target = Target(
    name: string, user: string, host: string, port: int,
    identityFile: string, strictHostKey: bool, knownHostsFile: string)

  datatype Result = Result(
    name: string, host: string, port: int, durationMs: int,
    ok: bool, exitStatus: int, stdout: string, reason: string)

  // ---------------------------------------------------------------- one push

  predicate IsSpace(c: char) {
    c == ' ' || c == '\t' || c == '\n' || c == '\r'
  }

  /** Outside `i..j` there are only blanks, and it neither starts nor ends with one. */
  ghost predicate CutAt(s: string, i: int, j: int) {
    && 0 <= i <= j <= |s|
    && (forall k :: 0 <= k < i || j <= k < |s| ==> s[k] in " \t\n\r")
    && (i < j ==> !IsSpace(s[i]) && !IsSpace(s[j - 1]))
  }

  ghost predicate Trims(s: string, r: string) {
    exists i, j :: CutAt(s, i, j) && s[i..j] == r
  }

  method TrimSpaceASCII(s: string) returns (r: string)
    ensures Trims(s, r)
  {
    var start := 0;
    while start < |s| && IsSpace(s[start])
      invariant start <= |s| && forall k :: 0 <= k < start ==> IsSpace(s[k])
    {
      start := start + 1;
    }
    var end := |s|;
    while end > start && IsSpace(s[end - 1])
      invariant start <= end <= |s| && forall k :: end <= k < |s| ==> IsSpace(s[k])
    {
      end := end - 1;
    }
    assert CutAt(s, start, end);
    r := s[start..end];
  }

  function Capped(s: string): string {
    if |s| > MAX_CAPTURE then s[..MAX_CAPTURE] + "...(truncated)" else s
  }

  method Truncated(s: string) returns (r: string)
    ensures Trims(Capped(s), r)
  {
    var t := s;
    if |s| > MAX_CAPTURE {
      t := s[..MAX_CAPTURE] + "...(truncated)";
    }
    r := TrimSpaceASCII(t);
  }

  /** What is kept of an output: all of it up to 4096 characters, and otherwise those with a
      mark behind. */
  lemma CappedMeans(s: string)
    ensures |s| <= 4096 ==> Capped(s) == s
    ensures |s| > 4096 ==> Capped(s) == s[..4096] + "...(truncated)"
  {
  }

  // ---------------------------------------------------------------- the command

  /** The values given with -o. */
  function SshOptions(t: Target, timeout: int): seq<string> {
    ["BatchMode=yes",
     "ConnectTimeout=" + IntText(if timeout < SECOND then 1 else timeout / SECOND),
     "StrictHostKeyChecking=" + if t.strictHostKey then "yes" else "no"]
    + if t.knownHostsFile == "" then [] else ["UserKnownHostsFile=" + t.knownHostsFile]
  }

  /** Each value with its flag. */
  function Flagged(values: seq<string>): (r: seq<string>) {
    if values == [] then [] else Flagged(values[..|values| - 1]) + ["-o", values[|values| - 1]]
  }

  function SshArgs(t: Target, timeout: int): seq<string> {
    ["-i", t.identityFile, "-p", IntText(t.port)] + Flagged(SshOptions(t, timeout)) + [t.user + "@" + t.host]
  }

  /** What the options say: never to ask, how long to wait at least a second, whether an unknown
      host is refused, and which hosts are known if that is configured. */
  lemma OptionsMean(t: Target, timeout: int)
    ensures var o := SshOptions(t, timeout);
            && |o| == (if t.knownHostsFile == "" then 3 else 4) && o[0] == "BatchMode=yes"
            && o[1] == "ConnectTimeout=" + IntText(if timeout < 1_000_000_000 then 1 else timeout / 1_000_000_000)
            && o[2] == "StrictHostKeyChecking=" + (if t.strictHostKey then "yes" else "no")
            && (t.knownHostsFile != "" ==> o[3] == "UserKnownHostsFile=" + t.knownHostsFile)
  {
  }

  /** The arguments: the key, the port, each option behind -o, and the destination. */
  lemma ArgsMean(t: Target, timeout: int)
    ensures var args, o := SshArgs(t, timeout), SshOptions(t, timeout);
            && |args| == 2 * |o| + 5
            && args[0] == "-i" && args[1] == t.identityFile && args[2] == "-p" && args[3] == IntText(t.port)
            && (forall i :: 0 <= i < |o| ==> args[4 + 2 * i] == "-o" && args[5 + 2 * i] == o[i])
            && args[|args| - 1] == t.user + "@" + t.host
  {
    hide SshOptions, IntText, Flagged;
    var args, o, f := SshArgs(t, timeout), SshOptions(t, timeout), Flagged(SshOptions(t, timeout));
    FlaggedPairs(o);
    forall i | 0 <= i < |o| ensures args[4 + 2 * i] == "-o" && args[5 + 2 * i] == o[i] {
      assert args[4 + 2 * i] == f[2 * i] && args[5 + 2 * i] == f[2 * i + 1];
    }
  }

  lemma {:induction false} FlaggedPairs(values: seq<string>)
    ensures |Flagged(values)| == 2 * |values|
    ensures forall i :: 0 <= i < |values| ==> Flagged(values)[2 * i] == "-o" && Flagged(values)[2 * i + 1] == values[i]
  {
    if values != [] {
      FlaggedPairs(values[..|values| - 1]);
    }
  }

  lemma OptionAdded(args: seq<string>, head: seq<string>, values: seq<string>, v: string)
    requires args == head + Flagged(values)
    ensures args + ["-o", v] == head + Flagged(values + [v])
  {
    assert (values + [v])[..|values|] == values;
  }

  method BuildArgs(t: Target, timeout: int) returns (args: seq<string>)
    ensures args == SshArgs(t, timeout)
  {
    var connectTimeout := timeout / SECOND;
    if connectTimeout < 1 {
      connectTimeout := 1;
    }
    ghost var head := ["-i", t.identityFile, "-p", IntText(t.port)];
    args := ["-i", t.identityFile, "-p", IntText(t.port)];
    args := AddOption(args, "BatchMode=yes", head, []);
    var connect := "ConnectTimeout=" + IntText(connectTimeout);
    args := AddOption(args, connect, head, ["BatchMode=yes"]);
    var strict: string;
    if t.strictHostKey {
      strict := "StrictHostKeyChecking=" + "yes";
    } else {
      strict := "StrictHostKeyChecking=" + "no";
    }
    ghost var values := ["BatchMode=yes"] + [connect];
    args := AddOption(args, strict, head, values);
    if t.knownHostsFile != "" {
      args := AddOption(args, "UserKnownHostsFile=" + t.knownHostsFile, head, values + [strict]);
    }
    OptionsInOrder(t, timeout, connect, strict);
    args := args + [t.user + "@" + t.host];
  }

  lemma OptionsInOrder(t: Target, timeout: int, connect: string, strict: string)
    requires connect == "ConnectTimeout=" + IntText(if timeout < SECOND then 1 else timeout / SECOND)
    requires strict == "StrictHostKeyChecking=" + if t.strictHostKey then "yes" else "no"
    ensures var some := ["BatchMode=yes"] + [connect] + [strict];
            SshOptions(t, timeout) == if t.knownHostsFile == "" then some else some + ["UserKnownHostsFile=" + t.knownHostsFile]
  {
  }

  method AddOption(args: seq<string>, v: string, ghost head: seq<string>, ghost values: seq<string>)
    returns (more: seq<string>)
    requires args == head + Flagged(values)
    ensures more == head + Flagged(values + [v])
  {
    OptionAdded(args, head, values, v);
    more := args + ["-o", v];
  }

  /** Every argument but the last belongs to an option, and the last is where to go. */
  ghost predicate NoRemoteCommand(args: seq<string>, destination: string) {
    && |args| % 2 == 1 && args[|args| - 1] == destination
    && forall i :: 0 <= i < |args| - 1 && i % 2 == 0 ==> args[i] in ["-i", "-p", "-o"]
  }

  lemma {:induction false} FlagsOnly(values: seq<string>)
    ensures |Flagged(values)| == 2 * |values|
    ensures forall i :: 0 <= i < |Flagged(values)| && i % 2 == 0 ==> Flagged(values)[i] == "-o"
  {
    if values != [] {
      FlagsOnly(values[..|values| - 1]);
    }
  }

  /** There is no remote command, whatever the configuration says. */
  lemma NeverACommand(t: Target, timeout: int)
    ensures NoRemoteCommand(SshArgs(t, timeout), t.user + "@" + t.host)
  {
    FlagsOnly(SshOptions(t, timeout));
    var flags := Flagged(SshOptions(t, timeout));
    var args := SshArgs(t, timeout);
    forall i | 0 <= i < |args| - 1 && i % 2 == 0 ensures args[i] in ["-i", "-p", "-o"] {
      assert i >= 4 ==> args[i] == flags[i - 4];
    }
  }

  /** The digits of `v` behind the point, without the zeros at the end. */
  function Fraction(v: nat, digits: nat): string {
    if v == 0 then "" else "." + Rfc3339.TrimZeros(Rfc3339.Padded(v, digits))
  }

  /** time.Duration.String of a duration that is not negative. */
  function DurationText(d: nat): string {
    if d == 0 then "0s"
    else if d < 1_000 then NumText(d, 10) + "ns"
    else if d < 1_000_000 then NumText(d / 1_000, 10) + Fraction(d % 1_000, 3) + "\U{00B5}s"
    else if d < SECOND then NumText(d / 1_000_000, 10) + Fraction(d % 1_000_000, 6) + "ms"
    else
      var seconds := d / SECOND;
      var s := NumText(seconds % 60, 10) + Fraction(d % SECOND, 9) + "s";
      if seconds < 60 then s
      else
        var m := NumText(seconds / 60 % 60, 10) + "m" + s;
        if seconds < 3600 then m else NumText(seconds / 3600, 10) + "h" + m
  }

  /** How timeouts look. */
  lemma DurationExamples()
    ensures DurationText(0) == "0s" && DurationText(5 * SECOND) == "5s" && DurationText(12 * SECOND) == "12s"
    ensures DurationText(780_000_000) == "780ms" && DurationText(1_780_000_000) == "1.78s"
  {
    hide Fraction, NumText, Rfc3339.FormatFraction;
    NoFraction();
    Rfc3339.FractionExample();
    NumbersWritten();
    Suffixes();
  }

  lemma LongDurationExamples()
    ensures DurationText(90_000_000_000) == "1m30s" && DurationText(3_600_000_000_000) == "1h0m0s"
  {
    hide DurationText, Fraction, NumText;
    NoFraction();
    NumbersWritten();
    LongSuffixes();
    TwoParts(90_000_000_000, 90);
    ThreeParts(3_600_000_000_000, 3600);
  }

  /** From a minute on, minutes stand in front of the seconds. */
  lemma TwoParts(d: nat, seconds: nat)
    requires d == seconds * SECOND && 60 <= seconds < 3600
    ensures DurationText(d) == NumText(seconds / 60, 10) + "m" + (NumText(seconds % 60, 10) + Fraction(0, 9) + "s")
  {
    hide Fraction, NumText;
    assert d / SECOND == seconds && d % SECOND == 0 && seconds / 60 % 60 == seconds / 60;
  }

  /** From an hour on, hours stand in front of them. */
  lemma ThreeParts(d: nat, seconds: nat)
    requires d == seconds * SECOND && 3600 <= seconds
    ensures DurationText(d)
         == NumText(seconds / 3600, 10) + "h"
            + (NumText(seconds / 60 % 60, 10) + "m" + (NumText(seconds % 60, 10) + Fraction(0, 9) + "s"))
  {
    hide Fraction, NumText;
    assert d / SECOND == seconds && d % SECOND == 0;
  }

  lemma Suffixes()
    ensures "5" + "" + "s" == "5s" && "12" + "" + "s" == "12s" && "780" + "" + "ms" == "780ms"
    ensures "1" + ".78" + "s" == "1.78s"
  {
  }

  lemma LongSuffixes()
    ensures "1" + "m" + ("30" + "" + "s") == "1m30s"
    ensures "1" + "h" + ("0" + "m" + ("0" + "" + "s")) == "1h0m0s"
  {
  }

  lemma NoFraction()
    ensures Fraction(0, 6) == "" && Fraction(0, 9) == "" && Fraction(0, 3) == ""
    ensures Fraction(780_000_000, 9) == Rfc3339.FormatFraction(780_000_000)
  {
  }

  lemma NumbersWritten()
    ensures NumText(5, 10) == "5" && NumText(12, 10) == "12" && NumText(1, 10) == "1" && NumText(30, 10) == "30"
    ensures NumText(780, 10) == "780" && NumText(0, 10) == "0"
  {
    assert NumText(78, 10) == "78";
  }

  /** How an ssh run ends: the deadline passed, it exited, or it could not be run; with
      the text that Go gives for it. */
  datatype Exit = Expired | Clean | Status(code: int, text: string) | Unstarted(text: string)

  /** A run of ssh: what it was given, and what came of it; `took` is in nanoseconds. */
  datatype Ssh = Ssh(args: seq<string>, stdin: string, took: int, exit: Exit, stdout: string, stderr: string)

  /** The command itself, with these arguments and this input: anything within the timeout
      and the wait that follows it. */
  method RunSsh(args: seq<string>, payload: string, timeout: nat) returns (run: Ssh)
    ensures run.args == args && run.stdin == payload
    ensures 0 <= run.took <= timeout + WAIT_DELAY
  {
    run := *;
    var took :| 0 <= took <= timeout + WAIT_DELAY;
    run := run.(args := args, stdin := payload, took := took);
  }

  /** The run is of the target's command with the payload, and this is what is reported. */
  ghost predicate ReportsRun(t: Target, payload: string, timeout: nat, run: Ssh, r: Result) {
    && run.args == SshArgs(t, timeout) && run.stdin == payload
    && r.name == t.name && r.host == t.host && r.port == t.port && r.durationMs == run.took / 1_000_000
    && Trims(Capped(run.stdout), r.stdout)
    && (r.ok <==> run.exit.Clean?)
    && match run.exit
       case Clean => r.exitStatus == 0 && r.reason == ""
       case Expired => r.exitStatus == 0 && r.reason == "timeout after " + DurationText(timeout)
       case Status(code, text) => r.exitStatus == code && Explains(run.stderr, text, r.reason)
       case Unstarted(text) => r.exitStatus == -1 && Explains(run.stderr, text, r.reason)
  }

  /** What the command printed as an error, or else the error itself. */
  ghost predicate Explains(stderr: string, text: string, reason: string) {
    exists err :: Trims(Capped(stderr), err) && reason == if err != "" then err else text
  }

  /** Never fails: every problem is in the result. */
  method PushOne(t: Target, payload: string, timeout: nat) returns (r: Result, run: Ssh)
    ensures 0 <= run.took <= timeout + WAIT_DELAY
    ensures ReportsRun(t, payload, timeout, run, r)
  {
    r := Result(t.name, t.host, t.port, 0, false, 0, "", "");
    var args := BuildArgs(t, timeout);
    run := RunSsh(args, payload, timeout);
    r := r.(durationMs := run.took / MILLISECOND);
    var out := Truncated(run.stdout);
    r := r.(stdout := out);
    match run.exit {
      case Expired =>
        r := r.(ok := false, reason := "timeout after " + DurationText(timeout));
        return;
      case Clean =>
        r := r.(ok := true, exitStatus := 0);
        return;
      case _ =>
    }
    r := r.(ok := false, exitStatus := if run.exit.Status? then run.exit.code else -1);
    var err := Truncated(run.stderr);
    r := r.(reason := if err != "" then err else run.exit.text);
  }

  // ---------------------------------------------------------------- all targets

  /** What happened at a target. */
  datatype Attempt = Skipped | Tried(timeout: nat, run: Ssh, raw: Result)

  function Cost(a: Attempt): int {
    if a.Skipped? then 0 else a.run.took
  }

  /** When the loop reaches target `i`. */
  function TimeAt(start: int, attempts: seq<Attempt>, i: nat): int
    requires i <= |attempts|
  {
    if i == 0 then start else TimeAt(start, attempts, i - 1) + Cost(attempts[i - 1])
  }

  predicate MayHappen(a: Attempt, at: int, deadline: int, perTarget: int) {
    match a
    case Skipped => at >= deadline
    case Tried(timeout, run, _) =>
      && at < deadline
      && timeout == (if deadline - at < perTarget then deadline - at else perTarget)
      && 0 <= run.took <= timeout + WAIT_DELAY
  }

  predicate Happens(attempts: seq<Attempt>, i: nat, start: int, deadline: int, perTarget: int)
    requires i < |attempts|
  {
    MayHappen(attempts[i], TimeAt(start, attempts, i), deadline, perTarget)
  }

  /** A target is tried exactly while the deadline has not been reached, with whatever
      time is left. */
  ghost predicate Schedule(attempts: seq<Attempt>, start: int, deadline: int, perTarget: int) {
    forall i :: 0 <= i < |attempts| ==> Happens(attempts, i, start, deadline, perTarget)
  }

  function Reported(t: Target, a: Attempt, secrets: seq<string>): Result {
    match a
    case Skipped => Result(t.name, t.host, t.port, 0, false, -1, "", "push budget exhausted")
    case Tried(_, _, raw) =>
      raw.(stdout := Redacted(raw.stdout, secrets), reason := Redacted(raw.reason, secrets))
  }

  /** What is reported of a target that was skipped, and what redaction changes in what is
      reported of one that was tried: nothing but the two texts. */
  lemma ReportedMeans(t: Target, a: Attempt, secrets: seq<string>)
    ensures var r := Reported(t, a, secrets);
            && (a.Skipped? ==>
                  && r.name == t.name && r.host == t.host && r.port == t.port && r.durationMs == 0
                  && !r.ok && r.exitStatus == -1 && r.stdout == "" && r.reason == "push budget exhausted")
            && (a.Tried? ==>
                  && r == a.raw.(stdout := r.stdout, reason := r.reason)
                  && r.stdout == Redacted(a.raw.stdout, secrets) && r.reason == Redacted(a.raw.reason, secrets))
  {
  }

  ghost predicate Matches(t: Target, payload: string, a: Attempt) {
    a.Tried? ==> ReportsRun(t, payload, a.timeout, a.run, a.raw)
  }

  /** One turn of the loop, at time `at`. */
  method TryTarget(t: Target, payload: string, at: int, deadline: int, perTarget: int, secrets: seq<string>)
    returns (r: Result, a: Attempt)
    requires perTarget > 0
    ensures MayHappen(a, at, deadline, perTarget) && Handled(t, payload, a, r, secrets)
  {
    var remaining := deadline - at;
    if remaining <= 0 {
      return Result(t.name, t.host, t.port, 0, false, -1, "", "push budget exhausted"), Skipped;
    }
    var timeout := perTarget;
    if remaining < timeout {
      timeout := remaining;
    }
    var raw, run := PushOne(t, payload, timeout);
    var stdout := RedactSecrets(raw.stdout, secrets);
    var reason := RedactSecrets(raw.reason, secrets);
    return raw.(stdout := stdout, reason := reason), Tried(timeout, run, raw);
  }

  /** What happened at a target, and what is reported of it. */
  ghost predicate Handled(t: Target, payload: string, a: Attempt, r: Result, secrets: seq<string>) {
    Matches(t, payload, a) && r == Reported(t, a, secrets)
  }

  /** One result per attempt, in the order of the targets. */
  ghost predicate InOrder(
      targets: seq<Target>, payload: string, attempts: seq<Attempt>, results: seq<Result>, secrets: seq<string>) {
    && |results| == |attempts| <= |targets|
    && forall i :: 0 <= i < |results| ==> Handled(targets[i], payload, attempts[i], results[i], secrets)
  }

  lemma NextInOrder(
      targets: seq<Target>, payload: string, attempts: seq<Attempt>, results: seq<Result>, secrets: seq<string>, a: Attempt, r: Result)
    requires |attempts| < |targets| && Handled(targets[|attempts|], payload, a, r, secrets)
    ensures InOrder(targets, payload, attempts, results, secrets) ==> InOrder(targets, payload, attempts + [a], results + [r], secrets)
  {
    hide Handled;
  }

  /** The loop has dealt with the first targets, at time `end`. */
  ghost predicate Underway(
      targets: seq<Target>, payload: string, attempts: seq<Attempt>, results: seq<Result>, secrets: seq<string>,
      start: int, end: int, deadline: int, perTarget: int) {
    && InOrder(targets, payload, attempts, results, secrets)
    && Schedule(attempts, start, deadline, perTarget)
    && end == TimeAt(start, attempts, |attempts|)
  }

  lemma OneTargetOn(
      targets: seq<Target>, payload: string, attempts: seq<Attempt>, results: seq<Result>, secrets: seq<string>,
      start: int, end: int, deadline: int, perTarget: int, a: Attempt, r: Result)
    requires |attempts| < |targets| && Handled(targets[|attempts|], payload, a, r, secrets)
    requires MayHappen(a, end, deadline, perTarget)
    ensures Underway(targets, payload, attempts, results, secrets, start, end, deadline, perTarget) ==>
              Underway(targets, payload, attempts + [a], results + [r], secrets, start, end + Cost(a), deadline, perTarget)
  {
    if Underway(targets, payload, attempts, results, secrets, start, end, deadline, perTarget) {
      OneMore(attempts, a, start, deadline, perTarget);
      NextInOrder(targets, payload, attempts, results, secrets, a, r);
    }
  }

  /** Everything but the pushes is taken to need no time. */
  method PushAll(targets: seq<Target>, payload: string, perTarget: int, start: int, budget: int, secrets: seq<string>)
    returns (results: seq<Result>, attempts: seq<Attempt>, end: int)
    requires perTarget > 0
    ensures |results| == |targets|
    ensures Underway(targets, payload, attempts, results, secrets, start, end, start + budget, perTarget)
  {
    var deadline := start + budget;
    results, attempts, end := [], [], start;
    for i := 0 to |targets|
      invariant |results| == |attempts| == i
      invariant Underway(targets, payload, attempts, results, secrets, start, end, deadline, perTarget)
    {
      var r, a := TryTarget(targets[i], payload, end, deadline, perTarget, secrets);
      OneTargetOn(targets, payload, attempts, results, secrets, start, end, deadline, perTarget, a, r);
      end := end + Cost(a);
      results, attempts := results + [r], attempts + [a];
    }
  }

  /** A later attempt does not move earlier ones. */
  lemma OneMore(attempts: seq<Attempt>, a: Attempt, start: int, deadline: int, perTarget: int)
    requires Schedule(attempts, start, deadline, perTarget)
    requires MayHappen(a, TimeAt(start, attempts, |attempts|), deadline, perTarget)
    ensures Schedule(attempts + [a], start, deadline, perTarget)
    ensures TimeAt(start, attempts + [a], |attempts| + 1) == TimeAt(start, attempts, |attempts|) + Cost(a)
  {
    SameStart(start, attempts, a, |attempts|);
    forall i | 0 <= i < |attempts + [a]| ensures Happens(attempts + [a], i, start, deadline, perTarget) {
      SameStart(start, attempts, a, i);
      if i < |attempts| {
        assert Happens(attempts, i, start, deadline, perTarget);
      }
    }
  }

  lemma {:induction false} SameStart(start: int, attempts: seq<Attempt>, a: Attempt, i: nat)
    requires i <= |attempts|
    ensures TimeAt(start, attempts + [a], i) == TimeAt(start, attempts, i)
  {
    if i > 0 {
      SameStart(start, attempts, a, i - 1);
    }
  }

  // ---------------------------------------------------------------- time

  /** The loop is past every target by the budget and one wait, however many targets
      there are and whatever each push does. */
  lemma {:induction false} EndsInTime(attempts: seq<Attempt>, start: int, budget: int, perTarget: int, i: nat)
    requires budget >= 0 && perTarget > 0
    requires Schedule(attempts, start, start + budget, perTarget) && i <= |attempts|
    ensures start <= TimeAt(start, attempts, i) <= start + budget + WAIT_DELAY
    ensures i > 0 && attempts[i - 1].Tried? ==>
              start <= TimeAt(start, attempts, i - 1) < start + budget
  {
    if i > 0 {
      EndsInTime(attempts, start, budget, perTarget, i - 1);
      assert Happens(attempts, i - 1, start, start + budget, perTarget);
    }
  }

  /** A request's pushes end before its response may no longer be written. */
  lemma EndsBeforeWriteTimeout(attempts: seq<Attempt>, start: int, perTarget: int)
    requires perTarget > 0 && Schedule(attempts, start, start + BUDGET, perTarget)
    ensures TimeAt(start, attempts, |attempts|) <= start + 14_000_000_000 < start + WRITE_TIMEOUT == start + 15_000_000_000
  {
    EndsInTime(attempts, start, BUDGET, perTarget, |attempts|);
  }

  /** Once the budget is gone it stays gone. */
  lemma {:induction false} SkippedFromThenOn(attempts: seq<Attempt>, start: int, deadline: int, perTarget: int, i: nat, j: nat)
    requires perTarget > 0 && Schedule(attempts, start, deadline, perTarget)
    requires i <= j < |attempts| && attempts[i].Skipped?
    ensures attempts[j].Skipped? && TimeAt(start, attempts, j) == TimeAt(start, attempts, i)
    decreases j
  {
    if i < j {
      SkippedFromThenOn(attempts, start, deadline, perTarget, i, j - 1);
    }
    assert Happens(attempts, i, start, deadline, perTarget);
    assert Happens(attempts, j, start, deadline, perTarget);
  }

  lemma {:induction false} ReachedBy(attempts: seq<Attempt>, start: int, deadline: int, perTarget: int, i: nat)
    requires perTarget > 0 && Schedule(attempts, start, deadline, perTarget) && i <= |attempts|
    ensures TimeAt(start, attempts, i) <= start + i * (perTarget + WAIT_DELAY)
  {
    if i > 0 {
      ReachedBy(attempts, start, deadline, perTarget, i - 1);
      assert Happens(attempts, i - 1, start, deadline, perTarget);
      OneMoreTime(i, perTarget + WAIT_DELAY);
    }
  }

  lemma OneMoreTime(i: nat, d: int)
    requires i > 0
    ensures i * d == (i - 1) * d + d
  {
  }

  /** No target is skipped while the ones before it, each at its slowest, fit in the
      budget; and a skipped one was preceded by a whole budget of pushing. */
  lemma EarlyTargetsTried(attempts: seq<Attempt>, start: int, budget: int, perTarget: int, i: nat)
    requires perTarget > 0 && Schedule(attempts, start, start + budget, perTarget) && i < |attempts|
    ensures attempts[i].Skipped? ==> TimeAt(start, attempts, i) >= start + budget
    ensures i * (perTarget + WAIT_DELAY) < budget ==> attempts[i].Tried?
  {
    ReachedBy(attempts, start, start + budget, perTarget, i);
    assert Happens(attempts, i, start, start + budget, perTarget);
  }

  /** Both bounds are reached: the pushes can take the budget and the wait, and then the
      next target is skipped. */
  lemma BoundReached(start: int, budget: int, perTarget: int, run: Ssh, raw: Result) returns (attempts: seq<Attempt>)
    requires 0 < budget <= perTarget && run.took == budget + WAIT_DELAY
    ensures Schedule(attempts, start, start + budget, perTarget)
    ensures attempts == [Tried(budget, run, raw), Skipped]
    ensures TimeAt(start, attempts, 2) == start + budget + WAIT_DELAY
  {
    attempts := [Tried(budget, run, raw), Skipped];
    assert TimeAt(start, attempts, 0) == start;
    assert TimeAt(start, attempts, 1) == start + budget + WAIT_DELAY;
  }

  // ---------------------------------------------------------------- what is shown

  /** Nothing a remote printed reaches the page or the audit log with a secret in it. */
  lemma ReportsHoldNoSecret(t: Target, a: Attempt, hmac: string, token: string, password: string, secret: string)
    requires secret in [hmac, token, password] && a.Tried?
    requires |secret| >= 16 && '<' !in secret && '>' !in secret
    ensures var r := Reported(t, a, [hmac, token, password]);
            !Contains(r.stdout, secret) && !Contains(r.reason, secret)
  {
    ServerSecretsRedacted(a.raw.stdout, hmac, token, password, secret);
    ServerSecretsRedacted(a.raw.reason, hmac, token, password, secret);
  }
}
