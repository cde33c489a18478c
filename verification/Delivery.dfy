/** The allowlist's way from the store to the receivers: signed snapshots that may
    be lost, repeated, delayed or reordered, and receivers that apply whatever
    verifies. No step compares issue times. */
module Delivery {
  import opened Text
  import opened Clock
  import opened Signer
  import opened Store
  import Records = Store
  import opened Pipeline
  import Ipx

  const ENVELOPE_TTL: int := 5 * MINUTE

  /** Server secret, MAC, and the receivers' settings. */
  datatype Setup = Setup(secret: string, mac: Mac, receivers: map<string, Params>)

  /** `sent` is every envelope the server ever signed; the network may deliver any
      of them to anyone at any later time, any number of times, or never. */
  datatype World = World(clock: int, store: State, sent: seq<Envelope>, allow: map<string, string>)

  /** A receiver run reads its clock at `now` and decodes `env`; `verified` is what
      signer.Verify says, `cidrs` what it would publish, and `written` whether every
      write up to the last one succeeded. */
  datatype Move =
    | Tick(to: int)
    | Stored(event: Event)
    | Issue(now: int, signed: Envelope)
    | Receive(receiver: string, env: Envelope, now: int, verified: bool, cidrs: seq<string>, written: bool)

  /** The run replaces allow.txt. */
  predicate Applies(s: Setup, m: Move) {
    && m.Receive? && m.written && m.receiver in s.receivers
    && Refusal(m.verified, m.env, s.receivers[m.receiver], m.now) == None
  }

  /** What a move does. */
  ghost predicate Effect(s: Setup, w: World, m: Move, w': World) {
    match m
    case Tick(to) =>
      w.clock <= to && w' == w.(clock := to)
    case Stored(e) =>
      && (e.Timed() ==> e.now <= w.clock)
      && Records.Step(w.store, e, w'.store)
      && w' == w.(store := w'.store)
    case Issue(now, signed) =>
      now <= w.clock && w' == w.(sent := w.sent + [signed])
    case Receive(r, env, now, _, cidrs, _) =>
      && r in s.receivers && now <= w.clock
      && w' == if Applies(s, m) then w.(allow := w.allow[r := AllowText(cidrs)]) else w
  }

  /** The MAC cannot be forged: what verifies has the bytes of something signed. */
  ghost predicate Unforged(w: World, env: Envelope) {
    exists i :: 0 <= i < |w.sent| && Canonical(w.sent[i]) == Canonical(env)
  }

  /** What the server signs is a snapshot, and receivers verify and filter. */
  ghost predicate Honest(s: Setup, w: World, m: Move) {
    match m
    case Issue(now, signed) =>
      Builds(signed, w.store.entries, now, ENVELOPE_TTL, s.secret, s.mac)
    case Receive(r, env, now, verified, cidrs, _) =>
      && r in s.receivers
      && verified == Verify(env, s.receivers[r].secret, s.mac)
      && (verified ==> Unforged(w, env))
      && (Applies(s, m) ==> Publishes(cidrs, env.entries, CanonFor(s.receivers[r]), now))
    case _ => true
  }

  ghost predicate Effects(s: Setup, moves: seq<Move>, worlds: seq<World>) {
    && |worlds| == |moves| + 1
    && worlds[0].sent == [] && Keyed(worlds[0].store.entries)
    && worlds[0].allow.Keys == s.receivers.Keys
    && forall i :: 0 <= i < |moves| ==> Effect(s, worlds[i], moves[i], worlds[i + 1])
  }

  ghost predicate Run(s: Setup, moves: seq<Move>, worlds: seq<World>) {
    && Effects(s, moves, worlds)
    && forall i :: 0 <= i < |moves| ==> Honest(s, worlds[i], moves[i])
  }

  // ---------------------------------------------------------------- content

  function Later(a: int, b: int): int {
    if a <= b then b else a
  }

  /** `cidrs` are, in order, the canonical CIDRs of the entries of a store that are
      live at `t` and of an allowed family. */
  ghost predicate PublishesStore(cidrs: seq<string>, m: Entries, canon: Canon, t: int) {
    && Increasing(cidrs)
    && forall c :: c in cidrs <==> StoredAndLive(c, m, canon, t)
  }

  ghost predicate StoredAndLive(c: string, m: Entries, canon: Canon, t: int) {
    exists k :: k in m && Live(m[k], t) && canon(k) == Some(c)
  }

  lemma SnapshotPublishes(cidrs: seq<string>, es: seq<Entry>, m: Entries, canon: Canon, issued: int, now: int)
    requires Keyed(m) && IsSnapshot(es, m, issued) && Publishes(cidrs, es, canon, now)
    ensures PublishesStore(cidrs, m, canon, Later(issued, now))
  {
    forall c ensures PublishedBy(c, es, canon, now) <==> StoredAndLive(c, m, canon, Later(issued, now)) {
      if PublishedBy(c, es, canon, now) {
        var e :| e in es && Keeps(e, canon, now) && canon(e.cidr).value == c;
        assert e.cidr in LivePart(m, issued);
      }
      if StoredAndLive(c, m, canon, Later(issued, now)) {
        var k :| k in m && Live(m[k], Later(issued, now)) && canon(k) == Some(c);
        assert k in LivePart(m, issued);
        assert m[k] in es && Keeps(m[k], canon, now);
      }
    }
  }

  lemma PublishedStoreUnique(a: seq<string>, b: seq<string>, m: Entries, canon: Canon, t: int)
    requires PublishesStore(a, m, canon, t) && PublishesStore(b, m, canon, t)
    ensures a == b
  {
    IncreasingUnique(a, b);
  }

  // ---------------------------------------------------------------- the ledger

  lemma {:induction false} KeyedAt(s: Setup, moves: seq<Move>, worlds: seq<World>, n: nat)
    requires Effects(s, moves, worlds) && n <= |moves|
    ensures Keyed(worlds[n].store.entries)
  {
    if n > 0 {
      KeyedAt(s, moves, worlds, n - 1);
      assert Effect(s, worlds[n - 1], moves[n - 1], worlds[n]);
      if moves[n - 1].Stored? {
        StepKeyed(worlds[n - 1].store, moves[n - 1].event, worlds[n].store);
      }
    }
  }

  lemma {:induction false} ClockMonotone(s: Setup, moves: seq<Move>, worlds: seq<World>, i: nat, n: nat)
    requires Effects(s, moves, worlds) && i <= n <= |moves|
    ensures worlds[i].clock <= worlds[n].clock
  {
    if i < n {
      ClockMonotone(s, moves, worlds, i, n - 1);
      assert Effect(s, worlds[n - 1], moves[n - 1], worlds[n]);
    }
  }

  /** Where an envelope of the ledger was signed. */
  lemma {:induction false} Origin(s: Setup, moves: seq<Move>, worlds: seq<World>, n: nat, k: nat) returns (i: nat)
    requires Effects(s, moves, worlds) && n <= |moves| && k < |worlds[n].sent|
    ensures i < n && moves[i].Issue? && moves[i].now <= worlds[i].clock
    ensures moves[i].signed == worlds[n].sent[k]
  {
    var w, m := worlds[n - 1], moves[n - 1];
    assert Effect(s, w, m, worlds[n]);
    if k < |w.sent| {
      i := Origin(s, moves, worlds, n - 1, k);
    } else {
      i := n - 1;
    }
  }

  // --------------------------------------------------------- bounded staleness

  /** The content comes from the store as it was in world `i`, less than five
      minutes before the reading `now` of the receiver's clock in world `j`. */
  ghost predicate Explains(s: Setup, moves: seq<Move>, worlds: seq<World>, r: string, text: string, i: nat, j: nat) {
    && i < j < |moves| && j < |worlds| && i < |worlds|
    && moves[i].Issue? && Applies(s, moves[j]) && moves[j].receiver == r
    && moves[j].now - 300_000_000_000 < worlds[i].clock <= worlds[j].clock
    && moves[j].now <= worlds[j].clock
    && text == AllowText(moves[j].cidrs)
    && PublishesStore(moves[j].cidrs, worlds[i].store.entries, CanonFor(s.receivers[r]),
                      Later(Truncate(moves[i].now), moves[j].now))
  }

  lemma BuildsFields(env: Envelope, m: Entries, now: int, secret: string, mac: Mac)
    requires Builds(env, m, now, ENVELOPE_TTL, secret, mac)
    ensures env.version == 1 && env.issuedAt == Truncate(now)
    ensures env.expiresAt == Truncate(now) + ENVELOPE_TTL
    ensures Verify(env, secret, mac) && Canonical(env).Some?
    ensures IsSnapshot(env.entries, m, Truncate(now))
  {
    SignVerifies(Unsigned(env.entries, now, ENVELOPE_TTL), secret, mac);
    WholeSeconds(now);
  }

  lemma WholeSeconds(now: int)
    ensures Truncate(Truncate(now) + ENVELOPE_TTL) == Truncate(now) + ENVELOPE_TTL
  {
  }

  /** An envelope with the signed bytes of a snapshot is that snapshot. */
  lemma AppliedSnapshot(sent: Envelope, env: Envelope, m: Entries, now: int, secret: string, mac: Mac)
    requires Builds(sent, m, now, ENVELOPE_TTL, secret, mac) && Canonical(sent) == Canonical(env)
    ensures env.entries == sent.entries && IsSnapshot(env.entries, m, Truncate(now))
    ensures env.expiresAt == Truncate(now) + ENVELOPE_TTL
  {
    BuildsFields(sent, m, now, secret, mac);
    CanonicalInjective(sent, env);
    SameFields(sent, env);
  }

  lemma SameFields(a: Envelope, b: Envelope)
    requires a.(signature := "") == b.(signature := "")
    ensures a.entries == b.entries && a.expiresAt == b.expiresAt
  {
    var c := a.(signature := "");
    assert c.entries == a.entries && c.expiresAt == a.expiresAt;
  }

  /** Whatever the ledger gave a receiver that applied it. */
  lemma AppliedOrigin(s: Setup, moves: seq<Move>, worlds: seq<World>, j: nat) returns (i: nat)
    requires Run(s, moves, worlds) && j < |moves| && Applies(s, moves[j])
    ensures i < j && moves[i].Issue? && moves[i].now <= worlds[i].clock
    ensures Canonical(moves[i].signed) == Canonical(moves[j].env)
  {
    assert Honest(s, worlds[j], moves[j]);
    var k :| 0 <= k < |worlds[j].sent| && Canonical(worlds[j].sent[k]) == Canonical(moves[j].env);
    i := Origin(s, moves, worlds, j, k);
  }

  /** What applying an envelope issued in world `i` writes. */
  lemma AppliedFrom(s: Setup, moves: seq<Move>, worlds: seq<World>, i: nat, j: nat)
    requires Run(s, moves, worlds) && i < j < |moves| && Applies(s, moves[j])
    requires moves[i].Issue? && Canonical(moves[i].signed) == Canonical(moves[j].env)
    ensures moves[j].now < Truncate(moves[i].now) + ENVELOPE_TTL
    ensures PublishesStore(moves[j].cidrs, worlds[i].store.entries, CanonFor(s.receivers[moves[j].receiver]),
                           Later(Truncate(moves[i].now), moves[j].now))
  {
    IssueHonest(s, moves, worlds, i);
    ReceiveHonest(s, moves, worlds, j);
    AppliedSnapshot(moves[i].signed, moves[j].env, worlds[i].store.entries, moves[i].now, s.secret, s.mac);
    KeyedAt(s, moves, worlds, i);
    SnapshotPublishes(moves[j].cidrs, moves[j].env.entries, worlds[i].store.entries,
                      CanonFor(s.receivers[moves[j].receiver]), Truncate(moves[i].now), moves[j].now);
  }

  lemma IssueHonest(s: Setup, moves: seq<Move>, worlds: seq<World>, i: nat)
    requires Run(s, moves, worlds) && i < |moves| && moves[i].Issue?
    ensures Builds(moves[i].signed, worlds[i].store.entries, moves[i].now, ENVELOPE_TTL, s.secret, s.mac)
  {
    assert Honest(s, worlds[i], moves[i]);
  }

  lemma ReceiveHonest(s: Setup, moves: seq<Move>, worlds: seq<World>, j: nat)
    requires Run(s, moves, worlds) && j < |moves| && Applies(s, moves[j])
    ensures moves[j].env.expiresAt > moves[j].now
    ensures Publishes(moves[j].cidrs, moves[j].env.entries, CanonFor(s.receivers[moves[j].receiver]), moves[j].now)
  {
    assert Honest(s, worlds[j], moves[j]);
  }

  lemma AppliedExplained(s: Setup, moves: seq<Move>, worlds: seq<World>, j: nat) returns (i: nat)
    requires Run(s, moves, worlds) && j < |moves| && Applies(s, moves[j])
    ensures Explains(s, moves, worlds, moves[j].receiver, AllowText(moves[j].cidrs), i, j)
  {
    i := AppliedOrigin(s, moves, worlds, j);
    AppliedFrom(s, moves, worlds, i, j);
    ClockMonotone(s, moves, worlds, i, j);
    assert Effect(s, worlds[j], moves[j], worlds[j + 1]);
  }

  ghost predicate FromSnapshot(s: Setup, moves: seq<Move>, worlds: seq<World>, r: string, text: string, n: nat) {
    exists i: nat, j: nat :: j < n && Explains(s, moves, worlds, r, text, i, j)
  }

  /** In world `n` the receiver's allow.txt is as at the start, or from a snapshot. */
  ghost predicate InitialOrSnapshot(s: Setup, moves: seq<Move>, worlds: seq<World>, r: string, n: nat) {
    && n < |worlds| && r in worlds[n].allow && r in worlds[0].allow
    && (worlds[n].allow[r] == worlds[0].allow[r] || FromSnapshot(s, moves, worlds, r, worlds[n].allow[r], n))
  }

  lemma Changed(s: Setup, moves: seq<Move>, worlds: seq<World>, k: nat, r: string)
    requires Run(s, moves, worlds) && k < |moves| && r in worlds[k].allow
    ensures r in worlds[k + 1].allow
    ensures worlds[k + 1].allow[r] == worlds[k].allow[r] || FromSnapshot(s, moves, worlds, r, worlds[k + 1].allow[r], k + 1)
  {
    var applied := AllowAfter(s, moves, worlds, k, r);
    if applied {
      var i := AppliedExplained(s, moves, worlds, k);
    }
  }

  lemma StalenessStep(s: Setup, moves: seq<Move>, worlds: seq<World>, k: nat, r: string)
    requires Run(s, moves, worlds) && k < |moves|
    ensures InitialOrSnapshot(s, moves, worlds, r, k) ==> InitialOrSnapshot(s, moves, worlds, r, k + 1)
  {
    if InitialOrSnapshot(s, moves, worlds, r, k) {
      Changed(s, moves, worlds, k, r);
      StillFromSnapshot(s, moves, worlds, r, worlds[k].allow[r], k);
    }
  }

  lemma StillFromSnapshot(s: Setup, moves: seq<Move>, worlds: seq<World>, r: string, text: string, n: nat)
    ensures FromSnapshot(s, moves, worlds, r, text, n) ==> FromSnapshot(s, moves, worlds, r, text, n + 1)
  {
  }

  /** At every point of every run a receiver's allow.txt is what it was at the start,
      or from a store snapshot that was less than five minutes old when the receiver read
      its clock: entries live then, of the allowed families, and nothing else. */
  lemma {:induction false} BoundedStaleness(s: Setup, moves: seq<Move>, worlds: seq<World>, n: nat, r: string)
    requires Run(s, moves, worlds) && n <= |moves| && r in s.receivers
    ensures InitialOrSnapshot(s, moves, worlds, r, n)
  {
    hide Run, InitialOrSnapshot;
    if n == 0 {
      StalenessStart(s, moves, worlds, r);
    } else {
      BoundedStaleness(s, moves, worlds, n - 1, r);
      StalenessStep(s, moves, worlds, n - 1, r);
    }
  }

  lemma StalenessStart(s: Setup, moves: seq<Move>, worlds: seq<World>, r: string)
    requires Run(s, moves, worlds) && r in s.receivers
    ensures InitialOrSnapshot(s, moves, worlds, r, 0)
  {
  }

  /** A move changes a receiver's allow.txt only by applying an envelope there. */
  lemma AllowAfter(s: Setup, moves: seq<Move>, worlds: seq<World>, k: nat, r: string) returns (applied: bool)
    requires Effects(s, moves, worlds) && k < |moves| && r in worlds[k].allow
    ensures applied <==> Applies(s, moves[k]) && moves[k].receiver == r
    ensures r in worlds[k + 1].allow
    ensures worlds[k + 1].allow[r] == if applied then AllowText(moves[k].cidrs) else worlds[k].allow[r]
  {
    assert Effect(s, worlds[k], moves[k], worlds[k + 1]);
    applied := Applies(s, moves[k]) && moves[k].receiver == r;
  }

  // ---------------------------------------------------------------- delivery

  lemma FreshAccepted(env: Envelope, list: seq<Entry>, m: Entries, now: int, p: Params, mac: Mac)
    requires Sign(Unsigned(list, now, ENVELOPE_TTL), p.secret, mac) == Some(env)
    requires 0 <= now && |list| <= p.maxEntries
    requires IsSnapshot(list, m, Truncate(now))
    ensures Builds(env, m, now, ENVELOPE_TTL, p.secret, mac) && env.entries == list
    ensures Verify(env, p.secret, mac) && Refusal(true, env, p, now) == None
  {
    hide Sign, Verify, Builds, IsSnapshot, Refusal;
    SignVerifies(Unsigned(list, now, ENVELOPE_TTL), p.secret, mac);
    SignedSnapshotBuilds(list, m, now, ENVELOPE_TTL, p.secret, mac);
    BuildsFields(env, m, now, p.secret, mac);
    FreshNotRefused(env, now, p);
  }

  lemma FreshNotRefused(env: Envelope, now: int, p: Params)
    requires env.version == 1 && env.issuedAt == Truncate(now) && env.expiresAt == Truncate(now) + ENVELOPE_TTL
    requires 0 <= now && |env.entries| <= p.maxEntries
    ensures Refusal(true, env, p, now) == None
  {
  }

  /** From any store, a snapshot issued and received at once is applied: the next two moves
      of a run can be these, and they put the list in place. */
  lemma DeliverySucceeds(
      s: Setup, w: World, r: string, list: seq<Entry>, cidrs: seq<string>, now: int)
    returns (moves: seq<Move>, worlds: seq<World>)
    requires w.sent == [] && Keyed(w.store.entries) && w.allow.Keys == s.receivers.Keys
    requires r in s.receivers && s.receivers[r].secret == s.secret && |list| <= s.receivers[r].maxEntries
    requires 0 <= now <= w.clock && IsSnapshot(list, w.store.entries, Truncate(now))
    requires Writable(Unsigned(list, now, ENVELOPE_TTL)) && Publishes(cidrs, list, CanonFor(s.receivers[r]), now)
    ensures |moves| == 2 && Run(s, moves, worlds) && worlds[0] == w
    ensures moves[0].Issue? && Applies(s, moves[1]) && r in worlds[2].allow && worlds[2].allow[r] == AllowText(cidrs)
  {
    hide Builds, Verify, Publishes, IsSnapshot, Refusal, Run;
    var env := Sign(Unsigned(list, now, ENVELOPE_TTL), s.secret, s.mac).value;
    FreshAccepted(env, list, w.store.entries, now, s.receivers[r], s.mac);
    moves, worlds := IssuedAndReceived(s, w, r, env, cidrs, now);
  }

  lemma IssuedAndReceived(
      s: Setup, w: World, r: string, env: Envelope, cidrs: seq<string>, now: int)
    returns (moves: seq<Move>, worlds: seq<World>)
    requires w.sent == [] && Keyed(w.store.entries) && w.allow.Keys == s.receivers.Keys
    requires r in s.receivers && s.receivers[r].secret == s.secret && now <= w.clock
    requires Builds(env, w.store.entries, now, ENVELOPE_TTL, s.secret, s.mac)
    requires Verify(env, s.secret, s.mac) && Refusal(true, env, s.receivers[r], now) == None
    requires Publishes(cidrs, env.entries, CanonFor(s.receivers[r]), now)
    ensures |moves| == 2 && Run(s, moves, worlds) && worlds[0] == w
    ensures moves[0].Issue? && Applies(s, moves[1]) && r in worlds[2].allow && worlds[2].allow[r] == AllowText(cidrs)
  {
    hide Builds, Verify, Publishes, Refusal, Run, AllowText, Honest, Applies;
    var issue, receive := Issue(now, env), Receive(r, env, now, true, cidrs, true);
    var w1 := w.(sent := w.sent + [env]);
    var w2 := w1.(allow := w1.allow[r := AllowText(cidrs)]);
    IssuedNow(s, w, env, now);
    HonestReceipt(s, w1, r, env, now, cidrs);
    TwoMoves(s, w, issue, w1, receive, w2);
    moves, worlds := [issue, receive], [w, w1, w2];
  }

  lemma IssuedNow(s: Setup, w: World, env: Envelope, now: int)
    requires Builds(env, w.store.entries, now, ENVELOPE_TTL, s.secret, s.mac)
    ensures Honest(s, w, Issue(now, env))
  {
    hide Builds;
  }

  lemma HonestReceipt(s: Setup, w: World, r: string, env: Envelope, now: int, cidrs: seq<string>)
    requires r in s.receivers && w.sent == [env] && Verify(env, s.receivers[r].secret, s.mac)
    requires Publishes(cidrs, env.entries, CanonFor(s.receivers[r]), now)
    requires Refusal(true, env, s.receivers[r], now) == None
    ensures Honest(s, w, Receive(r, env, now, true, cidrs, true))
    ensures Applies(s, Receive(r, env, now, true, cidrs, true))
  {
    hide Verify, Publishes, Refusal;
    assert w.sent[0] == env;
  }

  lemma TwoMoves(s: Setup, w: World, a: Move, w1: World, b: Move, w2: World)
    requires w.sent == [] && Keyed(w.store.entries) && w.allow.Keys == s.receivers.Keys
    requires Effect(s, w, a, w1) && Effect(s, w1, b, w2)
    ensures Honest(s, w, a) && Honest(s, w1, b) ==> Run(s, [a, b], [w, w1, w2])
  {
    hide Effect, Honest, Keyed;
    var moves, worlds := [a, b], [w, w1, w2];
    assert Effects(s, moves, worlds) by {
      forall i | 0 <= i < 2 ensures Effect(s, worlds[i], moves[i], worlds[i + 1]) {
        assert i == 0 || i == 1;
      }
    }
    if Honest(s, w, a) && Honest(s, w1, b) {
      forall i | 0 <= i < 2 ensures Honest(s, worlds[i], moves[i]) {
        assert i == 0 || i == 1;
      }
    }
  }

  // ---------------------------------------------------------------- convergence

  /** Nothing is recorded; the server may purge, and restart. */
  ghost predicate NoRecord(moves: seq<Move>, from: nat, to: nat) {
    forall k :: from <= k < to && k < |moves| && moves[k].Stored? ==> !moves[k].event.Record?
  }

  ghost predicate NoRestart(moves: seq<Move>, from: nat, to: nat) {
    forall k :: from <= k < to && k < |moves| && moves[k].Stored? ==> !moves[k].event.Restart?
  }

  ghost predicate PurgedBy(moves: seq<Move>, from: nat, to: nat, t: int) {
    forall k :: from <= k < to && k < |moves| && moves[k].Stored? && moves[k].event.Purge? ==> moves[k].event.now <= t
  }

  /** Purges do not change what is live later. */
  lemma {:induction false} LiveUnchanged(s: Setup, moves: seq<Move>, worlds: seq<World>, i: nat, m: nat, t: int)
    requires Effects(s, moves, worlds) && i <= m <= |moves|
    requires NoRecord(moves, i, m) && NoRestart(moves, i, m) && PurgedBy(moves, i, m, t)
    ensures LivePart(worlds[m].store.entries, t) == LivePart(worlds[i].store.entries, t)
  {
    if i < m {
      LiveUnchanged(s, moves, worlds, i, m - 1, t);
      EffectAt(s, moves, worlds, m - 1);
      if moves[m - 1].Stored? {
        PurgeTwice(worlds[m - 1].store.entries, moves[m - 1].event.now, t);
      }
    }
  }

  lemma EffectAt(s: Setup, moves: seq<Move>, worlds: seq<World>, k: nat)
    requires Effects(s, moves, worlds) && k < |moves|
    ensures Effect(s, worlds[k], moves[k], worlds[k + 1])
  {
  }

  /** A purge or a restart keeps what is live later, and a file that covers memory. */
  lemma CoveredStep(a: State, e: Event, b: State, t: int)
    requires Records.Step(a, e, b) && !e.Record? && (e.Purge? ==> e.now <= t)
    requires Keyed(a.entries) && DiskCovers(a, t)
    ensures DiskCovers(b, t) && LivePart(b.entries, t) == LivePart(a.entries, t)
  {
    match e
    case Purge(now, stored) =>
      PurgeTwice(a.entries, now, t);
      if b.entries != a.entries && stored {
        LoadListing(b.disk.value, b.entries);
      }
    case Restart =>
      assert LivePart(OnDisk(a.disk), t) == LivePart(a.entries, t);
  }

  /** Nor do restarts, while the file covers memory. */
  lemma {:induction false} LiveThroughRestarts(s: Setup, moves: seq<Move>, worlds: seq<World>, i: nat, m: nat, t: int)
    requires Effects(s, moves, worlds) && i <= m <= |moves|
    requires NoRecord(moves, i, m) && PurgedBy(moves, i, m, t) && DiskCovers(worlds[i].store, t)
    ensures DiskCovers(worlds[m].store, t)
    ensures LivePart(worlds[m].store.entries, t) == LivePart(worlds[i].store.entries, t)
  {
    if i < m {
      LiveThroughRestarts(s, moves, worlds, i, m - 1, t);
      KeyedAt(s, moves, worlds, m - 1);
      EffectAt(s, moves, worlds, m - 1);
      if moves[m - 1].Stored? {
        CoveredStep(worlds[m - 1].store, moves[m - 1].event, worlds[m].store, t);
      }
    }
  }

  // ---------------------------------------------------------------- the store's own run

  /** What happened to the store. */
  function StoreEvents(moves: seq<Move>): seq<Event> {
    if moves == [] then []
    else
      var last := moves[|moves| - 1];
      StoreEvents(moves[..|moves| - 1]) + if last.Stored? then [last.event] else []
  }

  /** The part of a run that concerns the store is a run of the store. */
  lemma {:induction false} StoreRun(s: Setup, moves: seq<Move>, worlds: seq<World>, n: nat) returns (states: seq<State>)
    requires Effects(s, moves, worlds) && n <= |moves|
    ensures Records.Run(StoreEvents(moves[..n]), states)
    ensures states[0] == worlds[0].store && states[|StoreEvents(moves[..n])|] == worlds[n].store
  {
    if n == 0 {
      states := [worlds[0].store];
    } else {
      var before := StoreRun(s, moves, worlds, n - 1);
      EffectAt(s, moves, worlds, n - 1);
      EventsLast(moves, n);
      if moves[n - 1].Stored? {
        RunLonger(StoreEvents(moves[..n - 1]), before, moves[n - 1].event, worlds[n].store);
        states := before + [worlds[n].store];
      } else {
        states := before;
      }
    }
  }

  lemma EventsLast(moves: seq<Move>, n: nat)
    requires 0 < n <= |moves|
    ensures StoreEvents(moves[..n]) ==
            if moves[n - 1].Stored? then StoreEvents(moves[..n - 1]) + [moves[n - 1].event] else StoreEvents(moves[..n - 1])
  {
    assert moves[..n][..n - 1] == moves[..n - 1];
    assert StoreEvents(moves[..n - 1]) + [] == StoreEvents(moves[..n - 1]);
  }

  lemma RunLonger(events: seq<Event>, states: seq<State>, e: Event, next: State)
    requires Records.Run(events, states) && Records.Step(states[|events|], e, next)
    ensures Records.Run(events + [e], states + [next])
  {
    var es, ss := events + [e], states + [next];
    forall k | 0 <= k < |es| ensures Records.Step(ss[k], es[k], ss[k + 1]) {
      if k < |events| {
        assert Records.Step(states[k], events[k], states[k + 1]);
      }
    }
  }

  /** Before an envelope was issued the last Record had reached the file. */
  lemma SettledCovers(s: Setup, moves: seq<Move>, worlds: seq<World>, i: nat, t: int)
    requires Effects(s, moves, worlds) && i <= |moves|
    requires worlds[0].store.entries == OnDisk(worlds[0].store.disk)
    requires Settled(StoreEvents(moves[..i])) && NotBefore(t, StoreEvents(moves[..i]))
    ensures DiskCovers(worlds[i].store, t)
  {
    var states := StoreRun(s, moves, worlds, i);
    DiskCoversMemory(StoreEvents(moves[..i]), states, t);
  }

  ghost predicate LastApplied(s: Setup, moves: seq<Move>, r: string, j: nat, n: nat) {
    && j < n <= |moves| && Applies(s, moves[j]) && moves[j].receiver == r
    && forall k :: j < k < n && Applies(s, moves[k]) ==> moves[k].receiver != r
  }

  lemma {:induction false} AllowKept(s: Setup, moves: seq<Move>, worlds: seq<World>, n: nat, r: string)
    requires Effects(s, moves, worlds) && n <= |moves| && r in s.receivers
    ensures r in worlds[n].allow
  {
    if n > 0 {
      AllowKept(s, moves, worlds, n - 1, r);
      var _ := AllowAfter(s, moves, worlds, n - 1, r);
    }
  }

  lemma {:induction false} KeptSince(s: Setup, moves: seq<Move>, worlds: seq<World>, r: string, j: nat, n: nat)
    requires Effects(s, moves, worlds) && LastApplied(s, moves, r, j, n)
    ensures r in worlds[n].allow && worlds[n].allow[r] == AllowText(moves[j].cidrs)
    decreases n
  {
    AllowKept(s, moves, worlds, n - 1, r);
    var applied := AllowAfter(s, moves, worlds, n - 1, r);
    if n > j + 1 {
      KeptSince(s, moves, worlds, r, j, n - 1);
    }
  }

  lemma LiveDecidesPublished(cidrs: seq<string>, a: Entries, b: Entries, canon: Canon, t: int)
    requires LivePart(a, t) == LivePart(b, t) && PublishesStore(cidrs, a, canon, t)
    ensures PublishesStore(cidrs, b, canon, t)
  {
    forall c ensures StoredAndLive(c, a, canon, t) <==> StoredAndLive(c, b, canon, t) {
      if StoredAndLive(c, a, canon, t) { SameLive(c, a, b, canon, t); }
      if StoredAndLive(c, b, canon, t) { SameLive(c, b, a, canon, t); }
    }
  }

  lemma SameLive(c: string, a: Entries, b: Entries, canon: Canon, t: int)
    requires LivePart(a, t) == LivePart(b, t) && StoredAndLive(c, a, canon, t)
    ensures StoredAndLive(c, b, canon, t)
  {
    var k :| k in a && Live(a[k], t) && canon(k) == Some(c);
    assert k in LivePart(a, t) && LivePart(a, t)[k] == a[k];
    assert k in LivePart(b, t) && LivePart(b, t)[k] == b[k];
  }

  /** The time from which a receipt decides what is live: the later of the two clocks. */
  function DecidedAt(moves: seq<Move>, i: nat, j: nat): int
    requires i < |moves| && j < |moves| && moves[i].Issue? && moves[j].Receive?
  {
    Later(Truncate(moves[i].now), moves[j].now)
  }

  /** The receiver's allow.txt is what the store itself would publish in world `m`. */
  ghost predicate Converged(s: Setup, moves: seq<Move>, worlds: seq<World>, r: string, i: nat, j: nat, n: nat, m: nat)
    requires i < |moves| && j < |moves| && moves[i].Issue? && moves[j].Receive? && r in s.receivers
  {
    && n < |worlds| && m < |worlds|
    && r in worlds[n].allow && worlds[n].allow[r] == AllowText(moves[j].cidrs)
    && PublishesStore(moves[j].cidrs, worlds[m].store.entries, CanonFor(s.receivers[r]), DecidedAt(moves, i, j))
  }

  lemma ConvergesIfLiveKept(
      s: Setup, moves: seq<Move>, worlds: seq<World>, r: string, i: nat, j: nat, n: nat, m: nat)
    requires Run(s, moves, worlds) && LastApplied(s, moves, r, j, n)
    requires i < j && moves[i].Issue? && Canonical(moves[i].signed) == Canonical(moves[j].env)
    requires i < m <= |moves|
    requires LivePart(worlds[m].store.entries, DecidedAt(moves, i, j)) == LivePart(worlds[i].store.entries, DecidedAt(moves, i, j))
    ensures Converged(s, moves, worlds, r, i, j, n, m)
  {
    KeptSince(s, moves, worlds, r, j, n);
    AppliedFrom(s, moves, worlds, i, j);
    LiveDecidesPublished(moves[j].cidrs, worlds[i].store.entries, worlds[m].store.entries, CanonFor(s.receivers[r]),
                         DecidedAt(moves, i, j));
  }

  /** Convergence: if nothing is recorded after an envelope was issued and that envelope is
      the last one applied, allow.txt is what the store itself would publish, in any world
      since, whatever purges and restarts there were and however the envelope travelled;
      of the issue it needs that the file covered memory. */
  lemma ConvergesCovered(
      s: Setup, moves: seq<Move>, worlds: seq<World>, r: string, i: nat, j: nat, n: nat, m: nat)
    requires Run(s, moves, worlds) && LastApplied(s, moves, r, j, n)
    requires i < j && moves[i].Issue? && Canonical(moves[i].signed) == Canonical(moves[j].env)
    requires i < m <= |moves| && NoRecord(moves, i, m) && PurgedBy(moves, i, m, DecidedAt(moves, i, j))
    requires DiskCovers(worlds[i].store, DecidedAt(moves, i, j))
    ensures Converged(s, moves, worlds, r, i, j, n, m)
  {
    LiveThroughRestarts(s, moves, worlds, i, m, DecidedAt(moves, i, j));
    ConvergesIfLiveKept(s, moves, worlds, r, i, j, n, m);
  }

  /** The same from the run: when the last Record before the issue had been written. */
  lemma Converges(
      s: Setup, moves: seq<Move>, worlds: seq<World>, r: string, i: nat, j: nat, n: nat, m: nat)
    requires Run(s, moves, worlds) && LastApplied(s, moves, r, j, n)
    requires i < j && moves[i].Issue? && Canonical(moves[i].signed) == Canonical(moves[j].env)
    requires i < m <= |moves| && NoRecord(moves, i, m) && PurgedBy(moves, i, m, DecidedAt(moves, i, j))
    requires worlds[0].store.entries == OnDisk(worlds[0].store.disk)
    requires Settled(StoreEvents(moves[..i])) && NotBefore(DecidedAt(moves, i, j), StoreEvents(moves[..i]))
    ensures Converged(s, moves, worlds, r, i, j, n, m)
  {
    SettledCovers(s, moves, worlds, i, DecidedAt(moves, i, j));
    ConvergesCovered(s, moves, worlds, r, i, j, n, m);
  }

  /** Where the server does not restart since the issue, the file does not matter. */
  lemma ConvergesUninterrupted(
      s: Setup, moves: seq<Move>, worlds: seq<World>, r: string, i: nat, j: nat, n: nat, m: nat)
    requires Run(s, moves, worlds) && LastApplied(s, moves, r, j, n)
    requires i < j && moves[i].Issue? && Canonical(moves[i].signed) == Canonical(moves[j].env)
    requires i < m <= |moves| && NoRecord(moves, i, m) && NoRestart(moves, i, m)
    requires PurgedBy(moves, i, m, DecidedAt(moves, i, j))
    ensures Converged(s, moves, worlds, r, i, j, n, m)
  {
    LiveUnchanged(s, moves, worlds, i, m, DecidedAt(moves, i, j));
    ConvergesIfLiveKept(s, moves, worlds, r, i, j, n, m);
  }

  // ---------------------------------------------------------- end-to-end exactness

  /** Every CIDR in the store is one the server records for requests. */
  ghost predicate Recordable(c: string) {
    exists n: Ipx.Net :: n.Valid() && n.Readable() && c == Ipx.NetText(n)
  }

  ghost predicate AllRecordable(m: Entries) {
    forall k :: k in m ==> Recordable(k)
  }

  predicate Allowed(c: string, p: Params) {
    match Ipx.FamilyOfCIDR(c)
    case IPv4 => p.allowV4
    case IPv6 => p.allowV6
    case Neither => false
  }

  lemma RecordableIdentity(c: string, p: Params)
    requires Recordable(c)
    ensures CanonFor(p)(c) == if Allowed(c, p) then Some(c) else None
  {
    var n: Ipx.Net :| n.Valid() && n.Readable() && c == Ipx.NetText(n);
    Ipx.NetTextTrimmed(n);
    Ipx.NetTextReadsBack(n);
  }

  /** The live entries of the allowed families, as they stand. */
  function LiveAllowed(es: seq<Entry>, allowed: string -> bool, now: int): seq<Entry> {
    if es == [] then []
    else
      var init, last := LiveAllowed(es[..|es| - 1], allowed, now), es[|es| - 1];
      if Live(last, now) && allowed(last.cidr) then init + [last] else init
  }

  ghost predicate Identity(canon: Canon, allowed: string -> bool, es: seq<Entry>) {
    forall e :: e in es ==> canon(e.cidr) == if allowed(e.cidr) then Some(e.cidr) else None
  }

  lemma IdentityParts(canon: Canon, allowed: string -> bool, es: seq<Entry>, n: nat)
    requires n < |es| && Identity(canon, allowed, es)
    ensures Identity(canon, allowed, es[..n])
    ensures canon(es[n].cidr) == if allowed(es[n].cidr) then Some(es[n].cidr) else None
  {
    assert es[n] in es;
    assert forall e :: e in es[..n] ==> e in es;
  }

  lemma {:induction false} KeptIsLiveAllowed(es: seq<Entry>, canon: Canon, allowed: string -> bool, now: int)
    requires Identity(canon, allowed, es)
    ensures KeptOf(es, canon, now) == LiveAllowed(es, allowed, now)
  {
    if es != [] {
      hide Identity;
      var n := |es| - 1;
      IdentityParts(canon, allowed, es, n);
      KeptIsLiveAllowed(es[..n], canon, allowed, now);
    }
  }

  lemma {:induction false} LiveAllowedIncreasing(es: seq<Entry>, allowed: string -> bool, now: int)
    requires Increasing(Keys(es))
    ensures Increasing(Keys(LiveAllowed(es, allowed, now)))
    ensures forall e :: e in LiveAllowed(es, allowed, now) ==> e in es
  {
    if es != [] {
      var n := |es| - 1;
      assert Keys(es[..n]) == Keys(es)[..n];
      LiveAllowedIncreasing(es[..n], allowed, now);
      var init := LiveAllowed(es[..n], allowed, now);
      forall i | 0 <= i < |init| ensures Less(init[i].cidr, es[n].cidr) {
        assert init[i] in init;
        assert init[i] in es[..n];
        var k :| 0 <= k < n && es[k] == init[i];
        assert Less(Keys(es)[k], Keys(es)[n]);
      }
      KeysExtended(init, es[n]);
    }
  }

  lemma KeysExtended(init: seq<Entry>, last: Entry)
    requires Increasing(Keys(init)) && forall i :: 0 <= i < |init| ==> Less(init[i].cidr, last.cidr)
    ensures Increasing(Keys(init + [last]))
  {
    assert Keys(init + [last]) == Keys(init) + [last.cidr];
  }

  /** An envelope built from a store of recorded CIDRs and received before it
      expires, with the same secret and a limit no smaller, is accepted; and
      canonicalising, sorting and de-duplicating leave its live allowed CIDRs
      exactly as they stand. */
  lemma EndToEndExact(m: Entries, env: Envelope, issued: int, p: Params, mac: Mac, now: int, cidrs: seq<string>)
    requires Keyed(m) && AllRecordable(m) && |m| <= p.maxEntries
    requires Builds(env, m, issued, ENVELOPE_TTL, p.secret, mac)
    requires 0 <= now < env.expiresAt
    ensures Refusal(Verify(env, p.secret, mac), env, p, now) == None
    ensures Publishes(cidrs, env.entries, CanonFor(p), now) <==>
            cidrs == Keys(LiveAllowed(env.entries, c => Allowed(c, p), now))
    ensures KeptOf(env.entries, CanonFor(p), now) == LiveAllowed(env.entries, c => Allowed(c, p), now)
  {
    BuildsFields(env, m, issued, p.secret, mac);
    SnapshotSize(env.entries, m, Truncate(issued));
    var allowed := c => Allowed(c, p);
    forall e | e in env.entries ensures CanonFor(p)(e.cidr) == if allowed(e.cidr) then Some(e.cidr) else None {
      assert e.cidr in LivePart(m, Truncate(issued));
      RecordableIdentity(e.cidr, p);
    }
    ExactOutput(env.entries, CanonFor(p), allowed, now, cidrs);
  }

  lemma ExactOutput(es: seq<Entry>, canon: Canon, allowed: string -> bool, now: int, cidrs: seq<string>)
    requires Increasing(Keys(es)) && Identity(canon, allowed, es)
    ensures Publishes(cidrs, es, canon, now) <==> cidrs == Keys(LiveAllowed(es, allowed, now))
    ensures KeptOf(es, canon, now) == LiveAllowed(es, allowed, now)
  {
    KeptIsLiveAllowed(es, canon, allowed, now);
    LiveAllowedIncreasing(es, allowed, now);
    KeptPublishes(es, canon, now, Keys(LiveAllowed(es, allowed, now)));
    if Publishes(cidrs, es, canon, now) {
      PublishedUnique(cidrs, Keys(LiveAllowed(es, allowed, now)), es, canon, now);
    }
  }

  lemma SnapshotSize(es: seq<Entry>, m: Entries, t: int)
    requires Keyed(m) && IsSnapshot(es, m, t)
    ensures |es| <= |m|
  {
    var live := LivePart(m, t);
    KeysMembers(es, live);
    IncreasingDistinct(Keys(es));
    MembersCount(Keys(es));
    assert Members(Keys(es)) == live.Keys;
    assert live.Keys <= m.Keys;
    SubsetSize(live.Keys, m.Keys);
    MapSize(m);
  }
}
