/** From the requests to the receiver's list: a store filled by requests over any run, its
    envelope sent as text, and what a receiver makes of it. */
module EndToEnd {
  import opened Text
  import opened Clock
  import opened Signer
  import opened Store
  import opened Lru
  import opened Pipeline
  import opened Delivery
  import opened Json
  import Receive
  import Ipx
  import IpText

  /** The CIDR is what the server records for some address under some settings. */
  ghost predicate Requested(c: string) {
    exists ip: nat, expand24: bool, allowExpand: bool, allowV4: bool, allowV6: bool ::
      ip < IpText.TWO128 && Ipx.CIDRForRequest(Some(ip), expand24, allowExpand, allowV4, allowV6) == Ipx.Cidr(c)
  }

  /** The store is filled by requests. */
  ghost predicate FromRequests(events: seq<Event>) {
    forall i :: 0 <= i < |events| && events[i].Record? ==> Requested(events[i].cidr)
  }

  lemma RequestedRecordable(c: string)
    requires Requested(c)
    ensures Recordable(c)
  {
    var ip: nat, expand24: bool, allowExpand: bool, allowV4: bool, allowV6: bool :|
      ip < IpText.TWO128 && Ipx.CIDRForRequest(Some(ip), expand24, allowExpand, allowV4, allowV6) == Ipx.Cidr(c);
    var n := Ipx.RequestCidrCanonical(ip, expand24, allowExpand, allowV4, allowV6);
  }

  lemma {:induction false} HistoryRequested(events: seq<Event>, c: string)
    requires FromRequests(events) && c in History(events)
    ensures Requested(c)
  {
    var n := |events| - 1;
    if !(events[n].Record? && events[n].cidr == c) {
      HistoryRequested(events[..n], c);
    }
  }

  /** After any such run the store is within its limit and holds recorded CIDRs only. */
  lemma FilledByRequests(events: seq<Event>, states: seq<State>, max: int, ttl: int, t: int)
    requires Premises(events, states, max, ttl, t) && FromRequests(events)
    ensures var m := states[|events|].entries; Keyed(m) && |m| <= max && AllRecordable(m)
  {
    var m := states[|events|].entries;
    InvAt(events, states, max, ttl, t, |events|);
    assert events[..|events|] == events;
    forall k | k in m ensures Recordable(k) {
      HistoryRequested(events, k);
      RequestedRecordable(k);
    }
  }

  /** A signed envelope as it is sent, pushed compact or served indented. */
  predicate SentAs(text: string, env: Envelope)
    requires Writable(env)
  {
    text == Compact(EnvelopeValue(env)) || text == Indented(EnvelopeValue(env))
  }

  lemma EmptyUndecoded()
    ensures Decode("") == None
  {
    assert Lex("") == Some([]);
  }

  /** The receiver's judgement of the text is its judgement of the envelope. */
  lemma JudgedAsSent(text: string, env: Envelope, cfg: Receive.Config, mac: Mac, now: int)
    requires Writable(env) && SentAs(text, env)
    requires Refusal(Verify(env, cfg.params.secret, mac), env, cfg.params, now) == None
    ensures Receive.Judge(Receive.Stream(text, false), cfg, mac, now) ==
            if |text| <= cfg.maxBytes then Receive.Proceed(env) else Receive.Stop(Receive.InputTooLarge)
  {
    DecodeWritten(env);
    EmptyUndecoded();
  }

  /** The published CIDRs as a set: the live ones of the allowed families. */
  lemma PublishedMembers(m: Entries, env: Envelope, issued: int, p: Params, now: int, cidrs: seq<string>)
    requires Keyed(m) && AllRecordable(m) && IsSnapshot(env.entries, m, Truncate(issued))
    requires Publishes(cidrs, env.entries, CanonFor(p), now)
    ensures forall c :: c in cidrs <==> c in LivePart(m, Later(Truncate(issued), now)) && Allowed(c, p)
  {
    var t := Later(Truncate(issued), now);
    SnapshotPublishes(cidrs, env.entries, m, CanonFor(p), Truncate(issued), now);
    forall c ensures StoredAndLive(c, m, CanonFor(p), t) <==> c in LivePart(m, t) && Allowed(c, p) {
      if StoredAndLive(c, m, CanonFor(p), t) {
        var k :| k in m && Live(m[k], t) && CanonFor(p)(k) == Some(c);
        RecordableIdentity(k, p);
      }
      if c in LivePart(m, t) && Allowed(c, p) {
        RecordableIdentity(c, p);
        assert CanonFor(p)(c) == Some(c);
      }
    }
  }

  /** End to end: over any run of requests, purges, failed writes and restarts that keeps one
      limit and one TTL, an envelope built from the store and received before it expires,
      with the same secret and a limit no smaller, is accepted unless it is longer than
      the receiver reads. What is published is then the envelope's live allowed CIDRs just
      as they stand; as a set, those of an allowed family among the most recent `max`
      CIDRs that were recorded less than the TTL ago. */
  lemma RequestsToList(
      events: seq<Event>, states: seq<State>, max: int, ttl: int, env: Envelope, issued: int, text: string,
      cfg: Receive.Config, mac: Mac, now: int, cidrs: seq<string>)
    requires Premises(events, states, max, ttl, Later(Truncate(issued), now)) && FromRequests(events)
    requires max <= cfg.params.maxEntries
    requires Builds(env, states[|events|].entries, issued, ENVELOPE_TTL, cfg.params.secret, mac)
    requires 0 <= now < env.expiresAt && Writable(env) && SentAs(text, env)
    ensures Receive.Judge(Receive.Stream(text, false), cfg, mac, now) ==
            if |text| <= cfg.maxBytes then Receive.Proceed(env) else Receive.Stop(Receive.InputTooLarge)
    ensures Publishes(cidrs, env.entries, CanonFor(cfg.params), now) <==>
            cidrs == Keys(LiveAllowed(env.entries, c => Allowed(c, cfg.params), now))
    ensures Publishes(cidrs, env.entries, CanonFor(cfg.params), now) ==>
              MostRecentAllowed(cidrs, cfg.params, Recent(events, ttl, Later(Truncate(issued), now)), max)
  {
    var m, t := states[|events|].entries, Later(Truncate(issued), now);
    FilledByRequests(events, states, max, ttl, t);
    EndToEndExact(m, env, issued, cfg.params, mac, now, cidrs);
    JudgedAsSent(text, env, cfg, mac, now);
    if Publishes(cidrs, env.entries, CanonFor(cfg.params), now) {
      PublishedMembers(m, env, issued, cfg.params, now, cidrs);
      LruOverHistory(events, states, max, ttl, t);
      KeptAllowed(LivePart(m, t).Keys, cidrs, cfg.params, Recent(events, ttl, t), max);
    }
  }

  /** `cidrs` are those of an allowed family among some most recent `max` of `recent`. */
  ghost predicate MostRecentAllowed(cidrs: seq<string>, p: Params, recent: map<string, int>, max: int) {
    exists kept: set<string> :: MostRecent(kept, recent, max) && forall c :: c in cidrs <==> c in kept && Allowed(c, p)
  }

  lemma KeptAllowed(kept: set<string>, cidrs: seq<string>, p: Params, recent: map<string, int>, max: int)
    requires MostRecent(kept, recent, max) && forall c :: c in cidrs <==> c in kept && Allowed(c, p)
    ensures MostRecentAllowed(cidrs, p, recent, max)
  {
  }
}
