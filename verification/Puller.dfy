/** The puller's cycle: fetch or read an envelope, verify and filter it, publish the list,
    and apply the guard when that is enabled. */
module Puller {
  import opened Text
  import opened Signer
  import opened Pipeline
  import opened AtomicFile
  import opened NftGuard
  import opened NftScript
  import opened Json
  import Rfc3339

  datatype Config = Config(
    params: Params, fromFile: bool, input: Path, requireHttps: bool, serverUrl: string,
    nftMode: bool, nftEnabled: bool, tcp: seq<int>, udp: seq<int>,
    state: Option<Path>, allow: Path)

  /** What config.Validate guarantees of the paths. */
  predicate Distinct(cfg: Config) {
    && cfg.allow.Named? && (cfg.state.Some? ==> cfg.state.value.Named?)
    && cfg.state != Some(cfg.allow)
  }

  datatype Options = Options(dryRun: bool, apply: bool)

  datatype Response = NoAnswer | Answer(status: int, body: string)

  datatype Failure = NotHttps | NotFetched | Undecodable | Refused(reason: Reason) | NotWritten | NotApplied

  datatype Result = Done | Failed(failure: Failure)

  const BODY_LIMIT: nat := 8 * 1024 * 1024

  /** What the configured source gives; a longer body is cut at the limit. */
  function Fetched(cfg: Config, files: Files, readable: bool, answer: Response): Option<string> {
    if cfg.fromFile then
      if readable && cfg.input in files then Some(files[cfg.input]) else None
    else if answer.NoAnswer? || answer.status != 200 then None
    else Some(if |answer.body| <= BODY_LIMIT then answer.body else answer.body[..BODY_LIMIT])
  }

  datatype Verdict = Proceed(env: Envelope) | Stop(failure: Failure)

  predicate Insecure(cfg: Config) {
    !cfg.fromFile && cfg.requireHttps && !("https://" <= Lower(cfg.serverUrl))
  }

  /** What a cycle makes of its input, before it writes anything. */
  function Judge(cfg: Config, data: Option<string>, mac: Mac, now: int): Verdict {
    if Insecure(cfg) then Stop(NotHttps) else JudgeData(cfg.params, data, mac, now)
  }

  function JudgeData(p: Params, data: Option<string>, mac: Mac, now: int): Verdict {
    if data == None then Stop(NotFetched)
    else
      var env := Decode(data.value);
      if env == None then Stop(Undecodable)
      else
        var refusal := Refusal(Verify(env.value, p.secret, mac), env.value, p, now);
        if refusal.Some? then Stop(Refused(refusal.value)) else Proceed(env.value)
  }

  predicate ApplyAllowed(cfg: Config) {
    cfg.nftMode || cfg.nftEnabled
  }

  function Script(cfg: Config, cidrs: seq<string>): string {
    Header() + RenderScript(Compile(PolicyFor(cidrs, cfg.tcp, cfg.udp)))
  }

  /** The address begins with https:// in any case of letters. */
  ghost predicate Secure(url: string) {
    && |url| >= 8 && url[0] in {'h', 'H'} && url[1] in {'t', 'T'} && url[2] in {'t', 'T'}
    && url[3] in {'p', 'P'} && url[4] in {'s', 'S'} && url[5] == ':' && url[6] == '/' && url[7] == '/'
  }

  lemma LowerIs(c: char, lower: char, upper: char, s: string, i: nat)
    requires i < |s| && s[i] == c && 'a' <= lower <= 'z' && upper as int == lower as int - 32
    ensures Lower(s)[i] == lower <==> c in {lower, upper}
  {
  }

  lemma InsecureMeans(cfg: Config)
    ensures Insecure(cfg) <==> !cfg.fromFile && cfg.requireHttps && !Secure(cfg.serverUrl)
  {
    var u, l := cfg.serverUrl, Lower(cfg.serverUrl);
    if |u| >= 8 {
      LowerIs(u[0], 'h', 'H', u, 0);
      LowerIs(u[1], 't', 'T', u, 1);
      LowerIs(u[2], 't', 'T', u, 2);
      LowerIs(u[3], 'p', 'P', u, 3);
      LowerIs(u[4], 's', 'S', u, 4);
      StartsWith(l);
    }
  }

  lemma StartsWith(l: string)
    requires |l| >= 8
    ensures "https://" <= l <==>
            l[0] == 'h' && l[1] == 't' && l[2] == 't' && l[3] == 'p' && l[4] == 's' && l[5] == ':' && l[6] == '/' && l[7] == '/'
  {
    assert l[..8] == [l[0], l[1], l[2], l[3], l[4], l[5], l[6], l[7]];
  }

  /** What there is to decode: the file, or the body of an answer with status 200 up to
      eight megabytes. */
  lemma FetchedMeans(cfg: Config, files: Files, readable: bool, answer: Response, data: string)
    ensures Fetched(cfg, files, readable, answer) == Some(data) <==>
            if cfg.fromFile then readable && cfg.input in files && files[cfg.input] == data
            else answer.Answer? && answer.status == 200 && data <= answer.body
                 && |data| == if |answer.body| <= 8_388_608 then |answer.body| else 8_388_608
  {
    if answer.Answer? {
      assert data <= answer.body ==> data == answer.body[..|data|];
      assert answer.body[..|answer.body|] == answer.body;
    }
  }

  /** When a cycle goes on with an envelope: when that is what was fetched, signed, of
      version 1, not expired and not too long, and the address was secure if it had to be. */
  lemma ProceedsExactly(cfg: Config, data: Option<string>, mac: Mac, now: int, env: Envelope)
    ensures Judge(cfg, data, mac, now) == Proceed(env) <==>
            && (cfg.fromFile || !cfg.requireHttps || Secure(cfg.serverUrl))
            && data.Some? && Decode(data.value) == Some(env)
            && Verify(env, cfg.params.secret, mac) && env.version == 1
            && env.expiresAt != 0 && env.expiresAt > now && |env.entries| <= cfg.params.maxEntries
  {
    hide Decode, Verify, Secure, Insecure;
    InsecureMeans(cfg);
  }

  /** Why a cycle stops before it writes: the first of these that applies. */
  lemma StopsBecause(cfg: Config, data: Option<string>, mac: Mac, now: int)
    ensures var v := Judge(cfg, data, mac, now);
            var open := cfg.fromFile || !cfg.requireHttps || Secure(cfg.serverUrl);
            && (v == Stop(NotHttps) <==> !open)
            && (v == Stop(NotFetched) <==> open && data == None)
            && (v == Stop(Undecodable) <==> open && data.Some? && Decode(data.value) == None)
            && (v.Stop? && v.failure.Refused? ==>
                  var env := Decode(data.value).value;
                  Refusal(Verify(env, cfg.params.secret, mac), env, cfg.params, now) == Some(v.failure.reason))
  {
    hide Decode, Verify, Secure, Insecure, Refusal;
    InsecureMeans(cfg);
  }

  /** None of the operations that write the outputs fails. */
  ghost predicate WritesSucceed(cfg: Config, fails: nat -> bool, from: nat) {
    NoFault(fails, from, 7) && (cfg.state.Some? ==> NoFault(fails, from + 8, 7))
  }

  predicate Applies(cfg: Config, opts: Options) {
    opts.apply && ApplyAllowed(cfg)
  }

  /** How a cycle ends, given whether the outputs could be written and whether nft
      accepted the script. */
  function Outcome(cfg: Config, opts: Options, verdict: Verdict, written: bool, accepted: bool): Result {
    if verdict.Stop? then Failed(verdict.failure)
    else if opts.dryRun then Done
    else if !written then Failed(NotWritten)
    else if Applies(cfg, opts) && !accepted then Failed(NotApplied)
    else Done
  }

  /** Whether a cycle replaces allow.txt. */
  predicate Replaces(opts: Options, verdict: Verdict, written: bool) {
    verdict.Proceed? && !opts.dryRun && written
  }

  /** A cycle can end in an error with the new allow.txt in place if and only if its input
      is accepted and it goes on to apply the guard; and then it does so exactly when the
      outputs are written and nft refuses. */
  lemma ErrorAfterReplacement(cfg: Config, opts: Options, verdict: Verdict)
    ensures forall written, accepted ::
              Outcome(cfg, opts, verdict, written, accepted).Failed? && Replaces(opts, verdict, written) <==>
              verdict.Proceed? && !opts.dryRun && Applies(cfg, opts) && written && !accepted
    ensures (exists written, accepted ::
               Outcome(cfg, opts, verdict, written, accepted).Failed? && Replaces(opts, verdict, written)) <==>
            verdict.Proceed? && !opts.dryRun && Applies(cfg, opts)
  {
    if verdict.Proceed? && !opts.dryRun && Applies(cfg, opts) {
      assert Outcome(cfg, opts, verdict, true, false).Failed? && Replaces(opts, verdict, true);
    }
  }

  /** nftguard.Apply: nft checks the script, which it may refuse, and applies it as one
      transaction. */
  method ApplyScript(rs: Ruleset, script: string, accepted: bool) returns (ok: bool, rs': Ruleset)
    ensures ok <==> accepted && RunScript(rs, script).Some?
    ensures if ok then RunScript(rs, script) == Some(rs') else rs' == rs
  {
    var result := RunScript(rs, script);
    if accepted && result.Some? {
      return true, result.value;
    }
    return false, rs;
  }

  /** `answer`, `readable`, the file system's faults and `accepted` are what the cycle meets.
      They decide how it ends, and whether allow.txt and the machine's tables change. */
  method RunOnce(
      fs: FileSystem, cfg: Config, opts: Options, readable: bool, answer: Response, accepted: bool, mac: Mac, now: int,
      pulledAt: string, origin: string, rs: Ruleset)
    returns (r: Result, cidrs: seq<string>, rs': Ruleset)
    requires fs.Valid() && Distinct(cfg)
    modifies fs
    ensures fs.Valid()
    ensures var verdict := Judge(cfg, Fetched(cfg, old(fs.files), readable, answer), mac, now);
            var written := WritesSucceed(cfg, fs.fails, old(fs.ops));
            && r == Outcome(cfg, opts, verdict, written, accepted)
            && (verdict.Proceed? ==> Publishes(cidrs, verdict.env.entries, CanonFor(cfg.params), now))
            && (verdict.Stop? || opts.dryRun ==> fs.files == old(fs.files))
            && (Replaces(opts, verdict, written) ==> cfg.allow in fs.files && fs.files[cfg.allow] == AllowText(cidrs))
            && Frame(old(fs.files), fs.files, StateFile(cfg.state) + if Replaces(opts, verdict, written) then {cfg.allow} else {})
    ensures if r == Done && !opts.dryRun && Applies(cfg, opts) then RunScript(rs, Script(cfg, cidrs)) == Some(rs')
            else rs' == rs
    // The tables are left alone unless the guard is asked for and enabled.
    ensures !opts.apply || (!cfg.nftMode && !cfg.nftEnabled) || opts.dryRun ==> rs' == rs && r != Failed(NotApplied)
    ensures r == Done && opts.apply && (cfg.nftMode || cfg.nftEnabled) && !opts.dryRun ==>
              RunScript(rs, Script(cfg, cidrs)) == Some(rs')
    ensures accepted ==> r != Failed(NotApplied)
    ensures var proceeds := Judge(cfg, Fetched(cfg, old(fs.files), readable, answer), mac, now).Proceed?;
            var written := WritesSucceed(cfg, fs.fails, old(fs.ops));
            && (r == Done <==>
                  proceeds && (opts.dryRun || (written && (accepted || !opts.apply || (!cfg.nftMode && !cfg.nftEnabled)))))
            && (r == Failed(NotWritten) <==> proceeds && !opts.dryRun && !written)
            && (proceeds && !opts.dryRun && written ==> cfg.allow in fs.files && fs.files[cfg.allow] == AllowText(cidrs))
            && (!proceeds || opts.dryRun || !written ==>
                  (cfg.allow in fs.files <==> cfg.allow in old(fs.files))
                  && (cfg.allow in fs.files ==> fs.files[cfg.allow] == old(fs.files)[cfg.allow]))
    // No temp file is left behind.
    ensures r != Failed(NotWritten) ==> fs.files.Keys <= old(fs.files).Keys + StateFile(cfg.state) + {cfg.allow}
    ensures r == Failed(NotHttps) <==> !cfg.fromFile && cfg.requireHttps && !Secure(cfg.serverUrl)
  {
    InsecureMeans(cfg);
    hide Secure, RunScript, Script, Publishes, WritesSucceed;
    cidrs, rs' := [], rs;
    if Insecure(cfg) {
      return Failed(NotHttps), cidrs, rs;
    }
    var data := Fetched(cfg, fs.files, readable, answer);
    var verdict, kept;
    verdict, kept, cidrs := Evaluate(cfg.params, data, mac, now);
    if verdict.Stop? {
      return Failed(verdict.failure), cidrs, rs;
    }
    if opts.dryRun {
      return Done, cidrs, rs;
    }
    GeneratedRuns(cfg, verdict.env, now, cidrs, rs);
    r, rs' := PublishAndApply(fs, cfg, opts, accepted, pulledAt, origin, kept, cidrs, rs);
  }

  /** Decodes, verifies and filters. */
  method Evaluate(p: Params, data: Option<string>, mac: Mac, now: int)
    returns (verdict: Verdict, kept: seq<Entry>, cidrs: seq<string>)
    ensures verdict == JudgeData(p, data, mac, now)
    ensures verdict.Proceed? ==> WritableEntries(kept) && kept == KeptOf(verdict.env.entries, CanonFor(p), now)
    ensures verdict.Proceed? ==> Publishes(cidrs, verdict.env.entries, CanonFor(p), now)
  {
    kept, cidrs := [], [];
    if data == None {
      return Stop(NotFetched), kept, cidrs;
    }
    var env := Decode(data.value);
    if env == None {
      return Stop(Undecodable), kept, cidrs;
    }
    var res := VerifyAndFilter(env.value, p, mac, now);
    if res.Rejected? {
      return Stop(Refused(res.reason)), kept, cidrs;
    }
    KeptWritable(env.value.entries, CanonFor(p), now);
    return Proceed(env.value), res.kept, res.cidrs;
  }

  /** A generated script never fails on its own account. */
  lemma GeneratedRuns(cfg: Config, env: Envelope, now: int, cidrs: seq<string>, rs: Ruleset)
    requires Publishes(cidrs, env.entries, CanonFor(cfg.params), now)
    ensures RunScript(rs, Script(cfg, cidrs)).Some?
  {
    PublishedScriptReads(env.entries, cfg.params, now, cidrs, cfg.tcp, cfg.udp);
    ApplyReplaces(rs, PolicyFor(cidrs, cfg.tcp, cfg.udp));
  }

  method PublishAndApply(
      fs: FileSystem, cfg: Config, opts: Options, accepted: bool, pulledAt: string, origin: string,
      kept: seq<Entry>, cidrs: seq<string>, rs: Ruleset) returns (r: Result, rs': Ruleset)
    requires fs.Valid() && Distinct(cfg) && WritableEntries(kept) && RunScript(rs, Script(cfg, cidrs)).Some?
    modifies fs
    ensures fs.Valid()
    ensures r == (if !WritesSucceed(cfg, fs.fails, old(fs.ops)) then Failed(NotWritten)
                  else if Applies(cfg, opts) && !accepted then Failed(NotApplied) else Done)
    ensures r != Failed(NotWritten) ==>
              fs.files == Outputs(old(fs.files), pulledAt, origin, kept, cidrs, cfg.state, cfg.allow)
    ensures r != Failed(NotWritten) && cfg.state.Some? ==> HoldsState(fs.files, cfg.state.value, pulledAt, origin, kept)
    ensures Frame(old(fs.files), fs.files, StateFile(cfg.state) + if r == Failed(NotWritten) then {} else {cfg.allow})
    ensures if r == Done && Applies(cfg, opts) then RunScript(rs, Script(cfg, cidrs)) == Some(rs') else rs' == rs
  {
    hide RunScript, HoldsState, AllowText, Frame;
    var ok := WriteOutputs(fs, pulledAt, origin, kept, cidrs, cfg.state, cfg.allow);
    if !ok {
      return Failed(NotWritten), rs;
    }
    if opts.apply && ApplyAllowed(cfg) {
      var script := BuildNftScript(cidrs, cfg.tcp, cfg.udp);
      ok, rs' := ApplyScript(rs, script, accepted);
      return if ok then Done else Failed(NotApplied), rs';
    }
    return Done, rs;
  }

  /** Every receiver accepts some envelope: one without entries, signed now. */
  lemma EmptyAccepted(p: Params, mac: Mac, now: int) returns (env: Envelope)
    requires 0 <= now && Rfc3339.Writable(now) && Rfc3339.Writable(now + 1) && p.maxEntries >= 0
    ensures Writable(env) && env.entries == []
    ensures Verify(env, p.secret, mac) && Refusal(true, env, p, now) == None
  {
    hide Rfc3339.Writable, Verify, Json.Compact, PayloadValue;
    var unsigned := Envelope(1, now, now + 1, [], "");
    SignVerifies(unsigned, p.secret, mac);
    env := Sign(unsigned, p.secret, mac).value;
  }

  /** An answer with the text of an envelope is judged as the envelope. */
  lemma AnswerJudged(cfg: Config, files: Files, mac: Mac, env: Envelope, now: int)
    requires !cfg.fromFile && !Insecure(cfg) && Writable(env) && |Compact(EnvelopeValue(env))| <= BODY_LIMIT
    requires Verify(env, cfg.params.secret, mac) && Refusal(true, env, cfg.params, now) == None
    ensures Judge(cfg, Fetched(cfg, files, true, Answer(200, Compact(EnvelopeValue(env)))), mac, now) == Proceed(env)
  {
    hide Decode, Verify, Refusal, Compact, EnvelopeValue;
    DecodeWritten(env);
  }

  /** Such a cycle: the server answers with an accepted envelope, no operation fails, and nft
      refuses. It ends in an error, with the new list in place and the old tables. */
  method ErrorReached(
      cfg: Config, opts: Options, mac: Mac, env: Envelope, now: int, pulledAt: string, origin: string,
      found: Files, from: nat, rs: Ruleset) returns (fs: FileSystem, r: Result, cidrs: seq<string>, rs': Ruleset)
    requires Distinct(cfg) && !cfg.fromFile && !Insecure(cfg) && !opts.dryRun && Applies(cfg, opts)
    requires forall p :: p in found && p.Temp? ==> p.n < from
    requires Writable(env) && |Compact(EnvelopeValue(env))| <= BODY_LIMIT
    requires Verify(env, cfg.params.secret, mac) && Refusal(true, env, cfg.params, now) == None
    ensures r == Failed(NotApplied) && rs' == rs
    ensures Publishes(cidrs, env.entries, CanonFor(cfg.params), now)
    ensures cfg.allow in fs.files && fs.files[cfg.allow] == AllowText(cidrs)
  {
    hide Judge, Fetched, Publishes, RunScript, Script, AllowText, Frame, Verify, Refusal, Writable;
    AnswerJudged(cfg, found, mac, env, now);
    fs := new FileSystem(found, from, _ => false, _ => 0);
    var answer := Answer(200, Compact(EnvelopeValue(env)));
    r, cidrs, rs' := RunOnce(fs, cfg, opts, true, answer, false, mac, now, pulledAt, origin, rs);
  }

  /** After a successful applying cycle the machine drops exactly the traffic to protected
      ports from sources that no live, allowed entry of the envelope contains, and no
      other table has changed. */
  lemma AppliedCycleGuards(cfg: Config, env: Envelope, now: int, cidrs: seq<string>, rs: Ruleset, rs': Ruleset, p: Packet)
    requires Publishes(cidrs, env.entries, CanonFor(cfg.params), now)
    requires RunScript(rs, Script(cfg, cidrs)) == Some(rs')
    ensures rs' - {TABLE} == rs - {TABLE} && TABLE in rs'
    ensures Decide(rs'[TABLE], rs'[TABLE].chain, p) == Dropped <==>
            p.port in (if p.proto.Tcp? then cfg.tcp else cfg.udp) && !AllowedSource(env.entries, cfg.params, now, p.src)
  {
    PublishedScriptGuards(env.entries, cfg.params, now, cidrs, cfg.tcp, cfg.udp, rs, Script(cfg, cidrs), p);
  }
}
