/** The auth-server's requests and background jobs: the order in which they touch the
    limiter, the store and the receivers. */
module Server {
  import opened Text
  import opened Clock
  import opened Signer
  import opened Store
  import Records = Store
  import opened RateLimit
  import opened Delivery
  import Ipx
  import Json
  import IpText
  import Push
  import Rfc3339

  datatype Config = Config(
    hmac: string, token: string, password: string,
    ttl: int, allowExpand: bool, allowV4: bool, allowV6: bool,
    pushEnabled: bool, targets: seq<Push.Target>, perTarget: int)

  datatype Method = Get | Post | Other

  /** A request, with the address the extractor found for it. */
  datatype Request = Request(
    path: string, verb: Method, authorised: bool, clientIp: Option<nat>, rateKey: string, wide: bool)

  /** The clock readings of one request, in the order they are taken. */
  datatype Readings = Readings(failed: int, purge: int, record: int, push: int)

  /** Whether the writes of entries.json go through. */
  datatype Writes = Writes(purge: bool, record: bool)

  const OK := 200
  const BAD_REQUEST := 400
  const UNAUTHORIZED := 401
  const FORBIDDEN := 403
  const NOT_FOUND := 404
  const METHOD_NOT_ALLOWED := 405
  const TOO_MANY_REQUESTS := 429
  const INTERNAL_ERROR := 500
  const UNAVAILABLE := 503

  function CidrOf(cfg: Config, r: Request): Ipx.Recorded
    requires r.clientIp.Some? ==> r.clientIp.value < IpText.TWO128
  {
    Ipx.CIDRForRequest(r.clientIp, cfg.allowExpand && r.wide, cfg.allowExpand, cfg.allowV4, cfg.allowV6)
  }

  /** The CIDR of a request: the requester's own address, or for IPv4 its 24 leading bits where
      the request asks for them and the settings allow it; none for a family that is not
      allowed. */
  lemma CidrOfMeans(cfg: Config, r: Request) returns (n: Ipx.Net)
    requires r.clientIp.Some? && r.clientIp.value < IpText.TWO128
    ensures var v4 := Ipx.SourceOf(r.clientIp.value).V4?;
            && (CidrOf(cfg, r).Cidr? <==> if v4 then cfg.allowV4 else cfg.allowV6)
            && (CidrOf(cfg, r).Cidr? ==>
                  && n.Valid() && n.Contains(Ipx.SourceOf(r.clientIp.value)) && n.v4 == v4
                  && n.ones == (if !v4 then 128 else if cfg.allowExpand && r.wide then 24 else 32)
                  && CidrOf(cfg, r).text == Ipx.NetText(n))
  {
    var wide := cfg.allowExpand && r.wide;
    Ipx.RequestDecided(r.clientIp, wide, cfg.allowExpand, cfg.allowV4, cfg.allowV6);
    n := Ipx.Net(true, 0, 0);
    if CidrOf(cfg, r).Cidr? {
      n := Ipx.RequestCidrCanonical(r.clientIp.value, wide, cfg.allowExpand, cfg.allowV4, cfg.allowV6);
    }
  }

  /** The requester's address is of a family that may be recorded. */
  predicate FamilyAllowed(cfg: Config, r: Request)
    requires r.clientIp.Some? && r.clientIp.value < IpText.TWO128
  {
    if Ipx.SourceOf(r.clientIp.value).V4? then cfg.allowV4 else cfg.allowV6
  }

  /** Whether a request gets as far as the password. */
  predicate Served(r: Request) {
    r.path == "/" && !r.verb.Other?
  }

  /** Whether it gets as far as changing the store. */
  predicate Accepted(r: Request, frozen: bool) {
    Served(r) && r.authorised && !frozen && r.clientIp.Some? && r.verb.Post?
  }

  /** The store afterwards is the purged one with `cidr` recorded. */
  ghost predicate PurgedAndRecorded(s: State, s': State, cidr: string, ip: string, at: Readings, ttl: int, stored: bool) {
    exists mid: State, written: bool ::
      && Records.Step(s, Event.Purge(at.purge, written), mid)
      && Records.Step(mid, Event.Record(cidr, ip, "web_auth", at.record, ttl, stored), s')
  }

  /** Memory and file hold CIDRs of requests only, which every step keeps: a Record of one, a
      purge, and a restart. */
  ghost predicate HoldsRecordable(s: State) {
    AllRecordable(s.entries) && AllRecordable(OnDisk(s.disk))
  }

  lemma StepKeepsRecordable(s: State, e: Event, s': State)
    requires Records.Step(s, e, s') && Keyed(s.entries) && HoldsRecordable(s)
    requires e.Record? ==> Recordable(e.cidr)
    ensures HoldsRecordable(s')
  {
    StepKeyed(s, e, s');
    assert AllRecordable(s'.entries);
    if s'.disk != s.disk {
      LoadListing(s'.disk.value, s'.entries);
    }
  }

  lemma RemovedNothing(m: Entries, now: int, removed: seq<string>)
    requires Members(removed) == m.Keys - LivePart(m, now).Keys
    ensures removed == [] <==> LivePart(m, now) == m
  {
    if removed == [] {
      assert forall k :: k in m.Keys ==> k in LivePart(m, now) || k in Members(removed);
    } else {
      assert removed[0] in Members(removed);
    }
  }

  lemma CidrRecordable(cfg: Config, r: Request)
    requires r.clientIp.Some? && r.clientIp.value < IpText.TWO128 && CidrOf(cfg, r).Cidr?
    ensures Recordable(CidrOf(cfg, r).text)
  {
    var n := Ipx.RequestCidrCanonical(r.clientIp.value, cfg.allowExpand && r.wide, cfg.allowExpand, cfg.allowV4, cfg.allowV6);
  }

  /** Snapshots of entries with years 0 to 9999 can be written. */
  lemma SnapshotWritable(list: seq<Entry>, m: Entries, now: int)
    requires IsSnapshot(list, m, Truncate(now)) && forall k :: k in m ==> WritableEntry(m[k])
    requires Rfc3339.Writable(Truncate(now)) && Rfc3339.Writable(Truncate(Truncate(now) + ENVELOPE_TTL))
    ensures Writable(Unsigned(list, now, ENVELOPE_TTL))
  {
    forall e | e in list ensures WritableEntry(e) {
      assert e.cidr in LivePart(m, Truncate(now));
    }
    AllWritable(list);
  }

  lemma BuiltWritable(env: Envelope, m: Entries, now: int, secret: string, mac: Mac)
    requires Builds(env, m, now, ENVELOPE_TTL, secret, mac)
    ensures Writable(env)
  {
    SignVerifies(Unsigned(env.entries, now, ENVELOPE_TTL), secret, mac);
  }

  class Server {
    const cfg: Config
    const mac: Mac
    const store: Store
    const limiter: FailureLimiter
    /** Every envelope handed to the pusher. */
    ghost var pushed: seq<Envelope>

    ghost predicate Valid()
      reads store
    {
      store.Valid() && HoldsRecordable(store.Now()) && cfg.perTarget > 0
    }

    /** The one envelope pushed since `before` is a snapshot of the store at `now`. */
    ghost predicate PushedSnapshot(before: seq<Envelope>, now: int)
      reads this, store
    {
      && |pushed| == |before| + 1 && pushed[..|before|] == before
      && Builds(pushed[|before|], store.entries, now, ENVELOPE_TTL, cfg.hmac, mac)
    }

    /** A snapshot has been pushed since `before`, unless it could not be written. */
    ghost predicate PushedSince(before: seq<Envelope>, now: int)
      reads this, store
    {
      PushedSnapshot(before, now) || (pushed == before && Unwritable(store.entries, now, ENVELOPE_TTL))
    }

    constructor (cfg: Config, mac: Mac, store: Store, limiter: FailureLimiter)
      ensures this.cfg == cfg && this.mac == mac && this.store == store && this.limiter == limiter && pushed == []
    {
      this.cfg, this.mac, this.store, this.limiter := cfg, mac, store, limiter;
      pushed := [];
    }

    /** One result per target, in order, each within the budget and without the secrets;
        what was sent is the text of the envelope last pushed. */
    ghost predicate Reports(results: seq<Push.Result>, attempts: seq<Push.Attempt>, start: int)
      reads this
    {
      && pushed != [] && Writable(pushed[|pushed| - 1])
      && |results| == |cfg.targets|
      && Push.Schedule(attempts, start, start + Push.BUDGET, cfg.perTarget)
      && Push.InOrder(cfg.targets, Json.Compact(EnvelopeValue(pushed[|pushed| - 1])), attempts, results, [cfg.hmac, cfg.token, cfg.password])
    }

    /** The results a success page shows. */
    ghost predicate Shown(results: seq<Push.Result>, start: int)
      reads this
    {
      (|results| == 1 && !results[0].ok) || exists attempts :: Reports(results, attempts, start)
    }

    /** `now` dates the envelope, `start` is the clock of the budget. */
    method DoPush(now: int, start: int)
      returns (results: seq<Push.Result>, attempts: seq<Push.Attempt>, end: int)
      requires Valid()
      modifies this`pushed
      ensures start <= end < start + 15_000_000_000
      ensures PushedSince(old(pushed), now)
      ensures if pushed == old(pushed) then |results| == 1 && !results[0].ok else Reports(results, attempts, start)
    {
      hide Builds, Unwritable, Push.Schedule, Push.InOrder, Push.TimeAt, Json.Compact, EnvelopeValue, Writable;
      var env := store.BuildEnvelope(now, ENVELOPE_TTL, cfg.hmac, mac);
      if env == None {
        return [Push.Result("(envelope)", "", 0, 0, false, 0, "", "internal error building envelope")], [], start;
      }
      pushed := pushed + [env.value];
      BuiltWritable(env.value, store.entries, now, cfg.hmac, mac);
      var payload := Json.Compact(EnvelopeValue(env.value));
      results, attempts, end := Push.PushAll(cfg.targets, payload, cfg.perTarget, start, Push.BUDGET, [cfg.hmac, cfg.token, cfg.password]);
      Push.EndsBeforeWriteTimeout(attempts, start, cfg.perTarget);
      Push.EndsInTime(attempts, start, Push.BUDGET, cfg.perTarget, |attempts|);
    }

    /** The purge job: pushes when it has itself removed something. */
    method PurgeAndSync(now: int, start: int, writes: bool) returns (removed: seq<string>)
      requires Valid()
      modifies this`pushed, store
      ensures Valid() && store.entries == LivePart(old(store.entries), now)
      ensures Members(removed) == old(store.entries).Keys - store.entries.Keys
      ensures if cfg.pushEnabled && store.entries != old(store.entries) then PushedSince(old(pushed), now)
              else pushed == old(pushed)
    {
      ghost var before := store.Now();
      removed := store.Purge(now, writes);
      StepKeepsRecordable(before, Event.Purge(now, writes && AllEntriesWritable(store.entries)), store.Now());
      RemovedNothing(old(store.entries), now, removed);
      if |removed| > 0 && cfg.pushEnabled {
        var _, _, _ := DoPush(now, start);
      }
    }

    /** The reconcile job: pushes what the store holds, whatever was removed. */
    method ReconcileSync(now: int, start: int, writes: bool)
      requires Valid()
      modifies this`pushed, store
      ensures Valid() && store.entries == LivePart(old(store.entries), now)
      ensures if cfg.pushEnabled then PushedSince(old(pushed), now) else pushed == old(pushed)
    {
      ghost var before := store.Now();
      var _ := store.Purge(now, writes);
      StepKeepsRecordable(before, Event.Purge(now, writes && AllEntriesWritable(store.entries)), store.Now());
      if !cfg.pushEnabled {
        return;
      }
      var _, _, _ := DoPush(now, start);
    }

    /** The part of a request that an accepted POST reaches: purge, then record the
        requester's CIDR, then push if the store was written. A refused address family
        has purged, but neither recorded nor pushed. */
    method RecordRequest(r: Request, at: Readings, writes: Writes, start: int)
      returns (status: int, results: seq<Push.Result>, end: int)
      requires Valid() && r.clientIp.Some? && r.clientIp.value < IpText.TWO128
      modifies this`pushed, store
      ensures Valid() && start <= end < start + 15_000_000_000
      ensures CidrOf(cfg, r).Cidr? ==>
                && status == (if writes.record && AllEntriesWritable(store.entries) then OK else INTERNAL_ERROR)
                && PurgedAndRecorded(old(store.Now()), store.Now(), CidrOf(cfg, r).text,
                                     Ipx.IpString(r.clientIp.value), at, cfg.ttl, status == OK)
      ensures !CidrOf(cfg, r).Cidr? ==>
                status == FORBIDDEN && store.entries == LivePart(old(store.entries), at.purge)
      ensures if status == OK && cfg.pushEnabled then PushedSince(old(pushed), at.push) else pushed == old(pushed)
      ensures if status == OK && cfg.pushEnabled then Shown(results, start) else results == []
    {
      hide Records.Step, Shown, PushedSince, HoldsRecordable, AllEntriesWritable;
      results, end := [], start;
      ghost var before := store.Now();
      var _ := store.Purge(at.purge, writes.purge);
      StepKeepsRecordable(before, Event.Purge(at.purge, writes.purge && AllEntriesWritable(store.entries)), store.Now());
      var expand24 := cfg.allowExpand && r.wide;
      var cidr := Ipx.CIDRForRequest(r.clientIp, expand24, cfg.allowExpand, cfg.allowV4, cfg.allowV6);
      if !cidr.Cidr? {
        return FORBIDDEN, results, end;
      }
      CidrRecordable(cfg, r);
      status, results, end := RecordAndPush(cidr.text, Ipx.IpString(r.clientIp.value), at, writes.record, start);
    }

    method RecordAndPush(cidr: string, ip: string, at: Readings, writes: bool, start: int)
      returns (status: int, results: seq<Push.Result>, end: int)
      requires Valid() && Recordable(cidr)
      modifies this`pushed, store
      ensures Valid() && start <= end < start + 15_000_000_000
      ensures status == if writes && AllEntriesWritable(store.entries) then OK else INTERNAL_ERROR
      ensures Records.Step(old(store.Now()), Event.Record(cidr, ip, "web_auth", at.record, cfg.ttl, status == OK), store.Now())
      ensures if status == OK && cfg.pushEnabled then PushedSince(old(pushed), at.push) else pushed == old(pushed)
      ensures if status == OK && cfg.pushEnabled then Shown(results, start) else results == []
    {
      results, end := [], start;
      ghost var before := store.Now();
      var _, _, _, stored := store.Record(cidr, ip, "web_auth", at.record, cfg.ttl, writes);
      StepKeepsRecordable(before, Event.Record(cidr, ip, "web_auth", at.record, cfg.ttl, stored), store.Now());
      if !stored {
        return INTERNAL_ERROR, results, end;
      }
      status := OK;
      if cfg.pushEnabled {
        var pushResults, attempts, pushEnd := DoPush(at.push, start);
        results, end := pushResults, pushEnd;
      }
    }

    /** Every way a request can go. */
    method HandleRoot(r: Request, frozen: bool, at: Readings, writes: Writes, start: int)
      returns (status: int, results: seq<Push.Result>, end: int)
      requires Valid() && (r.clientIp.Some? ==> r.clientIp.value < IpText.TWO128)
      modifies this`pushed, store, limiter
      ensures Valid() && start <= end < start + 15_000_000_000
      ensures status == 404 <==> r.path != "/"
      ensures status == 405 <==> r.path == "/" && r.verb.Other?
      ensures status in {401, 429} <==> r.path == "/" && !r.verb.Other? && !r.authorised
      ensures status == 503 <==> r.path == "/" && !r.verb.Other? && r.authorised && frozen
      ensures status == 400 <==> r.path == "/" && !r.verb.Other? && r.authorised && !frozen && r.clientIp == None
      ensures status == 403 <==>
              && r.path == "/" && r.verb.Post? && r.authorised && !frozen && r.clientIp.Some? && !FamilyAllowed(cfg, r)
      ensures status == 500 <==>
              && r.path == "/" && r.verb.Post? && r.authorised && !frozen && r.clientIp.Some? && FamilyAllowed(cfg, r)
              && !(writes.record && AllEntriesWritable(store.entries))
      ensures status in {200, 400, 401, 403, 404, 405, 429, 500, 503}
      ensures status !in {200, 403, 500} || r.verb.Get? ==> store.Now() == old(store.Now()) && pushed == old(pushed)
      // Only a failed login touches the limiter.
      ensures !Served(r) || r.authorised ==> limiter.buckets == old(limiter.buckets)
      ensures Served(r) && !r.authorised ==> status in {UNAUTHORIZED, TOO_MANY_REQUESTS}
      ensures Served(r) && !r.authorised && (!limiter.enabled || limiter.max <= 0) ==>
                status == UNAUTHORIZED && limiter.buckets == old(limiter.buckets)
      ensures Served(r) && !r.authorised && limiter.enabled && limiter.max > 0 ==>
                && limiter.buckets == After(old(limiter.buckets), Failure(r.rateKey, at.failed))
                && (status == TOO_MANY_REQUESTS <==> limiter.buckets[r.rateKey].count > limiter.max)
      // Only an accepted POST changes the store or pushes.
      ensures !Accepted(r, frozen) ==> store.Now() == old(store.Now()) && pushed == old(pushed)
      ensures Served(r) && r.authorised && !Accepted(r, frozen) ==>
                status == if frozen then UNAVAILABLE else if r.clientIp == None then BAD_REQUEST else OK
      ensures Accepted(r, frozen) && CidrOf(cfg, r).Cidr? ==>
                && status == (if writes.record && AllEntriesWritable(store.entries) then OK else INTERNAL_ERROR)
                && PurgedAndRecorded(old(store.Now()), store.Now(), CidrOf(cfg, r).text,
                                     Ipx.IpString(r.clientIp.value), at, cfg.ttl, status == OK)
      ensures Accepted(r, frozen) && !CidrOf(cfg, r).Cidr? ==>
                status == FORBIDDEN && store.entries == LivePart(old(store.entries), at.purge)
      ensures Accepted(r, frozen) ==>
                if status == OK && cfg.pushEnabled then PushedSince(old(pushed), at.push) else pushed == old(pushed)
      ensures if Accepted(r, frozen) && status == OK && cfg.pushEnabled then Shown(results, start) else results == []
    {
      results, end := [], start;
      if r.path != "/" {
        return NOT_FOUND, results, end;
      }
      if !r.verb.Get? && !r.verb.Post? {
        return METHOD_NOT_ALLOWED, results, end;
      }
      if !r.authorised {
        var blocked := limiter.Blocked(r.rateKey, at.failed);
        status := if blocked then TOO_MANY_REQUESTS else UNAUTHORIZED;
        return;
      }
      if frozen {
        return UNAVAILABLE, results, end;
      }
      if r.clientIp == None {
        return BAD_REQUEST, results, end;
      }
      if r.verb.Get? {
        return OK, results, end;
      }
      var _ := CidrOfMeans(cfg, r);
      status, results, end := RecordRequest(r, at, writes, start);
    }
  }

  /** An expiry that a refused request has already purged is never seen by the purge job:
      receivers learn of it only from the next reconcile, pull or recording. */
  method RefusalHidesExpiry(s: Server, r: Request, at: Readings, writes: Writes, now: int, start: int)
    requires s.Valid() && Accepted(r, false) && r.clientIp.value < IpText.TWO128 && !CidrOf(s.cfg, r).Cidr?
    requires forall k :: k in s.store.entries && Live(s.store.entries[k], at.purge) ==> Live(s.store.entries[k], now)
    modifies s`pushed, s.store, s.limiter
    ensures s.pushed == old(s.pushed)
    ensures s.store.entries == LivePart(old(s.store.entries), at.purge)
  {
    var status, _, _ := s.HandleRoot(r, false, at, writes, start);
    AllLive(s.store.entries, now);
    var removed := s.PurgeAndSync(now, start, writes.purge);
  }
}
