/** nft-auth-receive: one signed envelope from standard input to allow.txt. */
module Receive {
  import opened Text
  import opened Signer
  import opened Store
  import opened Pipeline
  import opened AtomicFile
  import opened Json

  /** The receive settings; paths are compared after cleaning, so equal paths are
      the same file. */
  datatype Config = Config(params: Params, maxBytes: nat, inbox: Path, state: Path, allow: Path)

  /** What config.Validate guarantees of the paths. */
  predicate Distinct(cfg: Config) {
    && cfg.inbox.Named? && cfg.state.Named? && cfg.allow.Named?
    && cfg.inbox != cfg.allow && cfg.state != cfg.allow && cfg.inbox != cfg.state
  }

  /** What arrives: the bytes up to the end or to a read error. */
  datatype Stream = Stream(data: string, broken: bool)

  datatype Failure = ReadError | InputTooLarge | EmptyInput | InvalidJson | Refused(reason: Reason) | WriteError

  datatype Result = Ok(cidrs: seq<string>) | Err(failure: Failure)

  /** Reads at most one byte past the limit, so an endless peer is cut off. */
  function ReadLimited(s: Stream, max: nat): (r: (Option<Failure>, string))
    ensures r.0 == None ==> r.1 == s.data && |r.1| <= max && !s.broken
    ensures r.0.Some? <==> |s.data| > max || s.broken
  {
    if |s.data| > max then (Some(InputTooLarge), "")
    else if s.broken then (Some(ReadError), "")
    else (None, s.data)
  }

  /** What a run makes of its input, before it writes anything. */
  datatype Verdict = Proceed(env: Envelope) | Stop(failure: Failure)

  function Judge(s: Stream, cfg: Config, mac: Mac, now: int): Verdict {
    var (failure, data) := ReadLimited(s, cfg.maxBytes);
    if failure.Some? then Stop(failure.value)
    else if |data| == 0 then Stop(EmptyInput)
    else
      var env := Decode(data);
      if env == None then Stop(InvalidJson)
      else
        var refusal := Refusal(Verify(env.value, cfg.params.secret, mac), env.value, cfg.params, now);
        if refusal.Some? then Stop(Refused(refusal.value)) else Proceed(env.value)
  }

  /** When a run goes on with an envelope: when that is what arrived, whole, within the limit
      and not empty, signed, of version 1, not expired and not too long. */
  lemma ProceedsExactly(s: Stream, cfg: Config, mac: Mac, now: int, env: Envelope)
    ensures Judge(s, cfg, mac, now) == Proceed(env) <==>
            && !s.broken && 0 < |s.data| <= cfg.maxBytes && Decode(s.data) == Some(env)
            && Verify(env, cfg.params.secret, mac) && env.version == 1
            && env.expiresAt != 0 && env.expiresAt > now && |env.entries| <= cfg.params.maxEntries
  {
    hide Decode, Verify;
  }

  /** Why a run stops before it writes: the first of these that applies. */
  lemma StopsBecause(s: Stream, cfg: Config, mac: Mac, now: int)
    ensures var v := Judge(s, cfg, mac, now);
            && (v == Stop(InputTooLarge) <==> |s.data| > cfg.maxBytes)
            && (v == Stop(ReadError) <==> |s.data| <= cfg.maxBytes && s.broken)
            && (v == Stop(EmptyInput) <==> |s.data| <= cfg.maxBytes && !s.broken && s.data == "")
            && (v == Stop(InvalidJson) <==>
                  0 < |s.data| <= cfg.maxBytes && !s.broken && Decode(s.data) == None)
            && (v.Stop? && v.failure.Refused? ==>
                  var env := Decode(s.data).value;
                  Refusal(Verify(env, cfg.params.secret, mac), env, cfg.params, now) == Some(v.failure.reason))
  {
    hide Decode, Verify, Refusal;
  }

  ghost predicate HoldsInbox(files: Files, cfg: Config, data: string) {
    cfg.inbox in files && files[cfg.inbox] == data
  }

  /** None of the operations that write the three files fails. */
  ghost predicate WritesSucceed(fails: nat -> bool, from: nat) {
    NoFault(fails, from, 7) && NoFault(fails, from + 8, 7) && NoFault(fails, from + 16, 7)
  }

  /** A verified envelope's entries can be written to the state record. */
  lemma AcceptedWritable(s: Stream, cfg: Config, mac: Mac, now: int)
    requires Judge(s, cfg, mac, now).Proceed?
    ensures WritableEntries(KeptOf(Judge(s, cfg, mac, now).env.entries, CanonFor(cfg.params), now))
  {
    var env := Judge(s, cfg, mac, now).env;
    assert Verify(env, cfg.params.secret, mac);
    KeptWritable(env.entries, CanonFor(cfg.params), now);
  }

  /** The run succeeds exactly when its input is accepted and no write fails. allow.txt is
      replaced exactly then, with the complete list of the accepted envelope, and no file but
      the three is left behind; an input that is not accepted changes no file at all. */
  method Run(fs: FileSystem, s: Stream, cfg: Config, mac: Mac, now: int, pulledAt: string) returns (r: Result)
    requires fs.Valid() && Distinct(cfg)
    modifies fs
    ensures fs.Valid()
    ensures Judge(s, cfg, mac, now).Stop? ==> r == Err(Judge(s, cfg, mac, now).failure) && fs.files == old(fs.files)
    ensures r.Ok? <==> Judge(s, cfg, mac, now).Proceed? && WritesSucceed(fs.fails, old(fs.ops))
    ensures r.Ok? ==>
              && Publishes(r.cidrs, Judge(s, cfg, mac, now).env.entries, CanonFor(cfg.params), now)
              && cfg.allow in fs.files && fs.files[cfg.allow] == AllowText(r.cidrs)
              && HoldsInbox(fs.files, cfg, s.data)
              && var kept := KeptOf(Judge(s, cfg, mac, now).env.entries, CanonFor(cfg.params), now);
              && HoldsState(fs.files, cfg.state, pulledAt, "stdin", kept)
              && fs.files == Outputs(old(fs.files)[cfg.inbox := s.data], pulledAt, "stdin", kept, r.cidrs, Some(cfg.state), cfg.allow)
    ensures Frame(old(fs.files), fs.files, {cfg.inbox, cfg.state} + if r.Ok? then {cfg.allow} else {})
  {
    var (failure, data) := ReadLimited(s, cfg.maxBytes);
    if failure.Some? {
      return Err(failure.value);
    }
    if |data| == 0 {
      return Err(EmptyInput);
    }
    var env := Decode(data);
    if env == None {
      return Err(InvalidJson);
    }
    var res := VerifyAndFilter(env.value, cfg.params, mac, now);
    if res.Rejected? {
      return Err(Refused(res.reason));
    }
    AcceptedWritable(s, cfg, mac, now);
    r := Publish(fs, cfg, data, pulledAt, res.kept, res.cidrs);
  }

  lemma InboxKept(before: Files, after: Files, cfg: Config, data: string, changed: set<Path>)
    requires HoldsInbox(before, cfg, data) && Frame(before, after, changed) && cfg.inbox !in changed
    ensures HoldsInbox(after, cfg, data)
  {
  }

  /** The inbox copy, the state record, and allow.txt last. */
  method Publish(fs: FileSystem, cfg: Config, data: string, pulledAt: string, kept: seq<Entry>, cidrs: seq<string>)
    returns (r: Result)
    requires fs.Valid() && Distinct(cfg) && WritableEntries(kept)
    modifies fs
    ensures fs.Valid() && r in {Ok(cidrs), Err(WriteError)}
    ensures r.Ok? <==> WritesSucceed(fs.fails, old(fs.ops))
    ensures r.Ok? ==> cfg.allow in fs.files && fs.files[cfg.allow] == AllowText(cidrs)
    ensures r.Ok? ==> HoldsState(fs.files, cfg.state, pulledAt, "stdin", kept)
    ensures r.Ok? ==> HoldsInbox(fs.files, cfg, data)
    ensures r.Ok? ==>
              fs.files == Outputs(old(fs.files)[cfg.inbox := data], pulledAt, "stdin", kept, cidrs, Some(cfg.state), cfg.allow)
    ensures Frame(old(fs.files), fs.files, {cfg.inbox, cfg.state} + if r.Ok? then {cfg.allow} else {})
  {
    hide HoldsState, Frame, NoFault;
    ghost var before := fs.files;
    var ok := fs.WriteWithDir(cfg.inbox, data);
    if !ok {
      FrameGrows(before, fs.files, {}, {cfg.inbox, cfg.state} + {});
      return Err(WriteError);
    }
    ghost var between := fs.files;
    ok := WriteOutputs(fs, pulledAt, "stdin", kept, cidrs, Some(cfg.state), cfg.allow);
    ghost var changed := {cfg.state} + if ok then {cfg.allow} else {};
    InboxKept(between, fs.files, cfg, data, changed);
    FrameThen(before, between, fs.files, {cfg.inbox}, changed);
    assert {cfg.inbox} + changed == {cfg.inbox, cfg.state} + if ok then {cfg.allow} else {};
    r := if ok then Ok(cidrs) else Err(WriteError);
  }
}
