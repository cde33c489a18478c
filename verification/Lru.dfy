/** The store refines a specification that knows nothing of maps, eviction or
    files: "of the CIDRs recorded less than the TTL ago, the most recent ones". */
module Lru {
  import opened Text
  import opened Clock
  import opened Store

  /** Each CIDR ever recorded, with the second of its last Record. */
  function History(events: seq<Event>): map<string, int> {
    if events == [] then map[]
    else
      var h := History(events[..|events| - 1]);
      match events[|events| - 1]
      case Record(cidr, _, _, now, _, _) => h[cidr := Truncate(now)]
      case _ => h
  }

  /** Those of them whose entries have not expired at `t`. */
  function Since(h: map<string, int>, ttl: int, t: int): map<string, int> {
    map c | c in h && Expiry(h[c], ttl) > t :: h[c]
  }

  /** Those recorded less than the TTL ago, in whole seconds. */
  function Recent(events: seq<Event>, ttl: int, t: int): map<string, int> {
    var h := History(events);
    map c | c in h && t / 1_000_000_000 < (h[c] + ttl) / 1_000_000_000 :: h[c]
  }

  lemma {:induction false} HistoryWhole(events: seq<Event>)
    ensures forall c :: c in History(events) ==> History(events)[c] % 1_000_000_000 == 0
  {
    if events != [] {
      HistoryWhole(events[..|events| - 1]);
    }
  }

  lemma RecentIsSince(events: seq<Event>, ttl: int, t: int)
    ensures Recent(events, ttl, t) == Since(History(events), ttl, t)
  {
    HistoryWhole(events);
    var h := History(events);
    forall c | c in h ensures Expiry(h[c], ttl) > t <==> t / 1_000_000_000 < (h[c] + ttl) / 1_000_000_000 {
      ExpiryMeans(h[c], ttl, t);
    }
  }

  /** `kept` is `limit` of `all`, or all of it, and nothing left out is newer than
      anything kept. */
  ghost predicate MostRecent(kept: set<string>, all: map<string, int>, limit: int) {
    && kept <= all.Keys
    && |kept| == (if |all| <= limit then |all| else limit)
    && forall k, c :: k in kept && c in all && c !in kept ==> all[c] <= all[k]
  }

  ghost predicate FixedTtl(events: seq<Event>, ttl: int) {
    forall i :: 0 <= i < |events| && events[i].Record? ==> events[i].ttl == ttl
  }

  /** A restart happens only when the last Record had been written. */
  ghost predicate RestartsSettled(events: seq<Event>) {
    forall i :: 0 <= i < |events| && events[i].Restart? ==> Settled(events[..i])
  }

  // ------------------------------------------------------------- the invariant

  ghost predicate Consistent(m: Entries, h: map<string, int>, ttl: int) {
    forall k :: k in m ==> k in h && m[k].lastSeenAt == h[k] && m[k].expiresAt == Expiry(h[k], ttl)
  }

  /** A CIDR still recent at `t` is missing only if the store is full of entries
      at least as recent. */
  ghost predicate MissingOnlyWhenFull(m: Entries, h: map<string, int>, ttl: int, t: int, max: int) {
    forall c :: c in h && Expiry(h[c], ttl) > t && c !in m ==>
      |m| == max && forall k :: k in m ==> h[c] <= m[k].lastSeenAt
  }

  ghost predicate MemoryInv(s: State, h: map<string, int>, ttl: int, t: int) {
    && Keyed(s.entries)
    && Consistent(s.entries, h, ttl)
    && |s.entries| <= s.maxEntries
    && MissingOnlyWhenFull(s.entries, h, ttl, t, s.maxEntries)
  }

  ghost predicate DiskInv(s: State, h: map<string, int>, ttl: int, t: int) {
    && Consistent(OnDisk(s.disk), h, ttl)
    && |OnDisk(s.disk)| <= s.maxEntries
    && DiskCovers(s, t)
  }

  lemma ExpiryMonotone(a: int, b: int, ttl: int)
    requires a <= b
    ensures Expiry(a, ttl) <= Expiry(b, ttl)
  {
    TruncateMonotone(a, b);
    TruncateMonotone(Truncate(a) + ttl, Truncate(b) + ttl);
  }

  lemma {:induction false} HistoryBefore(events: seq<Event>, now: int)
    requires NotBefore(now, events)
    ensures forall c :: c in History(events) ==>
              History(events)[c] <= Truncate(now)
  {
    if events != [] {
      var n := |events| - 1;
      HistoryBefore(events[..n], now);
      if events[n].Record? {
        TruncateMonotone(events[n].now, now);
      }
    }
  }

  lemma SubmapSize(a: Entries, b: Entries)
    requires forall k :: k in a ==> k in b && b[k] == a[k]
    ensures |a| <= |b| && (|a| == |b| ==> a == b)
  {
    MapSize(a);
    MapSize(b);
    SubsetSize(a.Keys, b.Keys);
  }

  lemma UpsertConsistent(m: Entries, h: map<string, int>, e: Event, ttl: int)
    requires e.Record? && e.ttl == ttl && Consistent(m, h, ttl)
    requires forall c :: c in h ==> h[c] <= Truncate(e.now)
    ensures Consistent(Upsert(m, e.cidr, e.ip, e.source, e.now, ttl), h[e.cidr := Truncate(e.now)], ttl)
    ensures m.Keys + {e.cidr} == Upsert(m, e.cidr, e.ip, e.source, e.now, ttl).Keys
  {
  }

  /** Room was made in a store full of entries at least as recent. */
  lemma FullStoreStaysFull(
      m: Entries, m': Entries, after: Entries, expired: seq<string>, victims: seq<string>,
      cidr: string, since: int, ttl: int, t: int, now: int)
    requires |m| > 0 && Evicts(m', expired, victims, after, now, |m|)
    requires m'.Keys == m.Keys + {cidr} && now <= t < Expiry(since, ttl)
    requires forall k :: k in m' ==> since <= m'[k].lastSeenAt && m'[k].expiresAt == Expiry(m'[k].lastSeenAt, ttl)
    ensures |after| == |m| && forall k :: k in after ==> since <= after[k].lastSeenAt
  {
    AllNewerStayLive(m', since, ttl, t, now);
    AllLive(m', now);
    MapSize(m);
    MapSize(m');
    SubsetSize(m.Keys, m'.Keys);
    EvictionConserves(m', expired, victims, after, now, |m|);
  }

  /** A live entry that was evicted left a full store of entries at least as recent. */
  lemma VictimLeavesFullStore(
      m: Entries, after: Entries, expired: seq<string>, victims: seq<string>, now: int, max: int, c: string)
    requires max > 0 && Evicts(m, expired, victims, after, now, max)
    requires c in m && Live(m[c], now) && c !in after
    ensures |after| == max && forall k :: k in after ==> m[c].lastSeenAt <= after[k].lastSeenAt
  {
    assert c in LivePart(m, now);
    assert c in victims;
    EvictionConserves(m, expired, victims, after, now, max);
  }

  lemma MissingAfterRecord(
      stored: Entries, m: Entries, after: Entries, expired: seq<string>, victims: seq<string>,
      h: map<string, int>, cidr: string, now: int, ttl: int, t: int, max: int, c: string)
    requires max > 0 && Evicts(m, expired, victims, after, now, max)
    requires m.Keys == stored.Keys + {cidr} && now <= t
    requires Consistent(m, h[cidr := now], ttl)
    requires Consistent(stored, h, ttl) && MissingOnlyWhenFull(stored, h, ttl, t, max)
    requires forall k :: k in h ==> h[k] <= now
    requires c in h[cidr := now] && Expiry(h[cidr := now][c], ttl) > t && c !in after
    ensures |after| == max && forall k :: k in after ==> h[cidr := now][c] <= after[k].lastSeenAt
  {
    if c in m {
      VictimLeavesFullStore(m, after, expired, victims, now, max, c);
    } else {
      FullStoreStaysFull(stored, m, after, expired, victims, cidr, h[c], ttl, t, now);
    }
  }

  lemma EvictionKeepsConsistent(
      m: Entries, after: Entries, expired: seq<string>, victims: seq<string>,
      h: map<string, int>, ttl: int, now: int, max: int)
    requires max > 0 && Evicts(m, expired, victims, after, now, max) && Consistent(m, h, ttl)
    ensures |after| <= max && Consistent(after, h, ttl)
  {
    EvictionConserves(m, expired, victims, after, now, max);
  }

  lemma RecordEvicts(s: State, e: Event, s': State) returns (expired: seq<string>, victims: seq<string>)
    requires e.Record? && Step(s, e, s')
    ensures Evicts(Upsert(s.entries, e.cidr, e.ip, e.source, e.now, e.ttl), expired, victims, s'.entries, Truncate(e.now), s.maxEntries)
  {
    expired, victims :| Evicts(Upsert(s.entries, e.cidr, e.ip, e.source, e.now, e.ttl), expired, victims, s'.entries, Truncate(e.now), s.maxEntries);
  }

  /** Adding or refreshing an entry, and evicting, keeps "missing only when full". */
  lemma RecordKeepsMissing(s: State, e: Event, s': State, h: map<string, int>, ttl: int, t: int)
    requires e.Record? && e.ttl == ttl && Step(s, e, s') && s.maxEntries > 0 && e.now <= t
    requires Consistent(s.entries, h, ttl)
    requires MissingOnlyWhenFull(s.entries, h, ttl, t, s.maxEntries)
    requires forall c :: c in h ==> h[c] <= Truncate(e.now)
    ensures |s'.entries| <= s.maxEntries
    ensures Consistent(s'.entries, h[e.cidr := Truncate(e.now)], ttl)
    ensures MissingOnlyWhenFull(s'.entries, h[e.cidr := Truncate(e.now)], ttl, t, s.maxEntries)
  {
    var expired, victims := RecordEvicts(s, e, s');
    UpsertThenEvict(s.entries, s'.entries, e, expired, victims, h, ttl, t, s.maxEntries);
  }

  lemma UpsertThenEvict(
      m: Entries, after: Entries, e: Event, expired: seq<string>, victims: seq<string>,
      h: map<string, int>, ttl: int, t: int, max: int)
    requires e.Record? && e.ttl == ttl && max > 0 && e.now <= t
    requires Evicts(Upsert(m, e.cidr, e.ip, e.source, e.now, ttl), expired, victims, after, Truncate(e.now), max)
    requires Consistent(m, h, ttl) && MissingOnlyWhenFull(m, h, ttl, t, max)
    requires forall c :: c in h ==> h[c] <= Truncate(e.now)
    ensures |after| <= max
    ensures Consistent(after, h[e.cidr := Truncate(e.now)], ttl)
    ensures MissingOnlyWhenFull(after, h[e.cidr := Truncate(e.now)], ttl, t, max)
  {
    var m' := Upsert(m, e.cidr, e.ip, e.source, e.now, ttl);
    UpsertConsistent(m, h, e, ttl);
    EvictionKeepsConsistent(m', after, expired, victims, h[e.cidr := Truncate(e.now)], ttl, Truncate(e.now), max);
    EvictionKeepsMissing(m, m', after, expired, victims, h, e.cidr, Truncate(e.now), ttl, t, max);
  }

  lemma EvictionKeepsMissing(
      stored: Entries, m: Entries, after: Entries, expired: seq<string>, victims: seq<string>,
      h: map<string, int>, cidr: string, now: int, ttl: int, t: int, max: int)
    requires max > 0 && Evicts(m, expired, victims, after, now, max)
    requires m.Keys == stored.Keys + {cidr} && now <= t
    requires Consistent(m, h[cidr := now], ttl)
    requires Consistent(stored, h, ttl) && MissingOnlyWhenFull(stored, h, ttl, t, max)
    requires forall k :: k in h ==> h[k] <= now
    ensures MissingOnlyWhenFull(after, h[cidr := now], ttl, t, max)
  {
    forall c | c in h[cidr := now] && Expiry(h[cidr := now][c], ttl) > t && c !in after
      ensures |after| == max && forall k :: k in after ==> h[cidr := now][c] <= after[k].lastSeenAt
    {
      MissingAfterRecord(stored, m, after, expired, victims, h, cidr, now, ttl, t, max, c);
    }
  }

  lemma AllNewerStayLive(m: Entries, since: int, ttl: int, t: int, now: int)
    requires forall k :: k in m ==> since <= m[k].lastSeenAt && m[k].expiresAt == Expiry(m[k].lastSeenAt, ttl)
    requires Expiry(since, ttl) > t >= now
    ensures forall k :: k in m ==> Live(m[k], now) && Live(m[k], t)
  {
    forall k | k in m ensures Live(m[k], now) && Live(m[k], t) {
      ExpiryMonotone(since, m[k].lastSeenAt, ttl);
    }
  }

  lemma PurgeKeepsMissing(s: State, e: Event, s': State, h: map<string, int>, ttl: int, t: int)
    requires e.Purge? && Step(s, e, s') && e.now <= t
    requires Consistent(s.entries, h, ttl)
    requires MissingOnlyWhenFull(s.entries, h, ttl, t, s.maxEntries)
    ensures MissingOnlyWhenFull(s'.entries, h, ttl, t, s.maxEntries)
  {
    forall c | c in h && Expiry(h[c], ttl) > t && c !in s'.entries
      ensures |s'.entries| == s.maxEntries && forall k :: k in s'.entries ==> h[c] <= s'.entries[k].lastSeenAt
    {
      assert c !in s.entries;
      AllNewerStayLive(s.entries, h[c], ttl, t, e.now);
      assert s'.entries == s.entries;
    }
  }

  lemma RecordInv(s: State, e: Event, s': State, h: map<string, int>, ttl: int, t: int)
    requires MemoryInv(s, h, ttl, t) && Step(s, e, s') && s.maxEntries > 0
    requires e.Record? && e.ttl == ttl && e.now <= t
    requires forall c :: c in h ==> h[c] <= Truncate(e.now)
    ensures MemoryInv(s', h[e.cidr := Truncate(e.now)], ttl, t)
    ensures e.stored ==> DiskInv(s', h[e.cidr := Truncate(e.now)], ttl, t)
  {
    StepKeyed(s, e, s');
    RecordKeepsMissing(s, e, s', h, ttl, t);
    if e.stored { WrittenInv(s', h[e.cidr := Truncate(e.now)], ttl, t); }
  }

  lemma PurgeInv(s: State, e: Event, s': State, h: map<string, int>, ttl: int, t: int)
    requires MemoryInv(s, h, ttl, t) && Step(s, e, s') && e.Purge? && e.now <= t
    ensures MemoryInv(s', h, ttl, t)
  {
    StepKeyed(s, e, s');
    PurgeKeepsMissing(s, e, s', h, ttl, t);
    SubmapSize(s'.entries, s.entries);
  }

  lemma PurgeDiskInv(s: State, e: Event, s': State, h: map<string, int>, ttl: int, t: int)
    requires MemoryInv(s, h, ttl, t) && DiskInv(s, h, ttl, t) && Step(s, e, s') && e.Purge? && e.now <= t
    ensures DiskInv(s', h, ttl, t)
  {
    StepKeyed(s, e, s');
    if s'.entries != s.entries && e.stored {
      SubmapSize(s'.entries, s.entries);
      WrittenInv(s', h, ttl, t);
    } else {
      assert s'.disk == s.disk;
      CoversAfterPurge(s, s', e.now, t);
    }
  }

  lemma CoversAfterPurge(s: State, s': State, now: int, t: int)
    requires DiskCovers(s, t) && now <= t && s'.disk == s.disk && s'.entries == LivePart(s.entries, now)
    ensures DiskCovers(s', t)
  {
  }

  lemma WrittenInv(s: State, h: map<string, int>, ttl: int, t: int)
    requires Keyed(s.entries) && Consistent(s.entries, h, ttl) && |s.entries| <= s.maxEntries
    requires s.disk.Some? && IsListing(s.disk.value, s.entries)
    ensures DiskInv(s, h, ttl, t)
  {
    LoadListing(s.disk.value, s.entries);
  }

  lemma RestartInv(s: State, s': State, h: map<string, int>, ttl: int, t: int)
    requires MemoryInv(s, h, ttl, t) && DiskInv(s, h, ttl, t) && Step(s, Restart, s')
    ensures MemoryInv(s', h, ttl, t) && DiskInv(s', h, ttl, t)
  {
    RestartKeepsMissing(s, s', h, ttl, t);
  }

  lemma RestartKeepsMissing(s: State, s': State, h: map<string, int>, ttl: int, t: int)
    requires Step(s, Restart, s') && DiskCovers(s, t) && |s'.entries| <= s.maxEntries
    requires MissingOnlyWhenFull(s.entries, h, ttl, t, s.maxEntries)
    ensures MissingOnlyWhenFull(s'.entries, h, ttl, t, s.maxEntries)
  {
    forall c | c in h && Expiry(h[c], ttl) > t && c !in s'.entries
      ensures |s'.entries| == s.maxEntries && forall k :: k in s'.entries ==> h[c] <= s'.entries[k].lastSeenAt
    {
      SubmapSize(s.entries, s'.entries);
    }
  }

  lemma InvStep(s: State, e: Event, s': State, h: map<string, int>, h': map<string, int>, settled: bool, settled': bool, ttl: int, t: int)
    requires MemoryInv(s, h, ttl, t) && (settled ==> DiskInv(s, h, ttl, t))
    requires Step(s, e, s') && s.maxEntries > 0
    requires e.Timed() ==> e.now <= t
    requires e.Record? ==> e.ttl == ttl && h' == h[e.cidr := Truncate(e.now)] && settled' == e.stored
    requires e.Record? ==> forall c :: c in h ==> h[c] <= Truncate(e.now)
    requires e.Purge? ==> h' == h && settled' == settled
    requires e.Restart? ==> h' == h && settled
    ensures MemoryInv(s', h', ttl, t) && (settled' ==> DiskInv(s', h', ttl, t))
  {
    match e {
      case Record(_, _, _, _, _, _) =>
        RecordInv(s, e, s', h, ttl, t);
      case Purge(_, _) =>
        PurgeInv(s, e, s', h, ttl, t);
        if settled { PurgeDiskInv(s, e, s', h, ttl, t); }
      case Restart =>
        RestartInv(s, s', h, ttl, t);
    }
  }

  lemma EmptyInv(max: int, ttl: int, t: int)
    requires max > 0
    ensures MemoryInv(State(max, map[], None), map[], ttl, t)
    ensures DiskInv(State(max, map[], None), map[], ttl, t)
  {
  }

  ghost predicate Premises(events: seq<Event>, states: seq<State>, max: int, ttl: int, t: int) {
    && max > 0 && Run(events, states) && states[0] == State(max, map[], None)
    && FixedTtl(events, ttl) && Monotone(events) && NotBefore(t, events) && RestartsSettled(events)
  }

  lemma {:induction false} InvAt(events: seq<Event>, states: seq<State>, max: int, ttl: int, t: int, n: nat)
    requires Premises(events, states, max, ttl, t) && n <= |events|
    ensures states[n].maxEntries == max
    ensures MemoryInv(states[n], History(events[..n]), ttl, t)
    ensures Settled(events[..n]) ==> DiskInv(states[n], History(events[..n]), ttl, t)
  {
    if n == 0 {
      EmptyInv(max, ttl, t);
    } else {
      var i := n - 1;
      InvAt(events, states, max, ttl, t, i);
      PremisesAt(events, states, max, ttl, t, i);
      assert events[..n][..i] == events[..i];
      InvStep(states[i], events[i], states[n], History(events[..i]), History(events[..n]),
              Settled(events[..i]), Settled(events[..n]), ttl, t);
    }
  }

  /** What the premises of a run say about one of its steps. */
  lemma PremisesAt(events: seq<Event>, states: seq<State>, max: int, ttl: int, t: int, i: nat)
    requires Premises(events, states, max, ttl, t) && i < |events|
    ensures Step(states[i], events[i], states[i + 1])
    ensures events[i].Timed() ==> events[i].now <= t
    ensures events[i].Record? ==> events[i].ttl == ttl
    ensures events[i].Record? ==>
              forall c :: c in History(events[..i]) ==> History(events[..i])[c] <= Truncate(events[i].now)
    ensures events[i].Restart? ==> Settled(events[..i])
  {
    if events[i].Record? {
      HistoryBefore(events[..i], events[i].now);
    }
  }

  // ------------------------------------------------------------- main results

  /** After any run from an empty store, with purges, failed writes and restarts
      anywhere the premises allow, the live entries at `t` are the most recent
      `max` of the CIDRs recorded less than the TTL before `t`. */
  lemma LruOverHistory(events: seq<Event>, states: seq<State>, max: int, ttl: int, t: int)
    requires Premises(events, states, max, ttl, t)
    ensures MostRecent(LivePart(states[|events|].entries, t).Keys, Recent(events, ttl, t), max)
  {
    InvAt(events, states, max, ttl, t, |events|);
    assert events[..|events|] == events;
    RecentIsSince(events, ttl, t);
    KeptMostRecent(states[|events|].entries, History(events), ttl, t, max);
  }

  lemma KeptMostRecent(m: Entries, h: map<string, int>, ttl: int, t: int, max: int)
    requires Consistent(m, h, ttl) && |m| <= max && MissingOnlyWhenFull(m, h, ttl, t, max)
    ensures MostRecent(LivePart(m, t).Keys, Since(h, ttl, t), max)
  {
    var kept, all := LivePart(m, t).Keys, Since(h, ttl, t);
    assert kept <= all.Keys && all.Keys - kept == all.Keys - m.Keys;
    assert |all| == |all.Keys|;
    SubsetSize(kept, all.Keys);
    MapSize(m);
    assert kept <= m.Keys;
    SubsetSize(kept, m.Keys);
    if kept != all.Keys {
      var c :| c in all && c !in kept;
      AllNewerStayLive(m, all[c], ttl, t, t);
      AllLive(m, t);
    }
  }

  /** The limit holds at every point of such a run, for stored entries and for the
      rows of the file alike. */
  lemma WithinLimit(events: seq<Event>, states: seq<State>, max: int, ttl: int, t: int)
    requires Premises(events, states, max, ttl, t)
    ensures |states[|events|].entries| <= max
    ensures Settled(events) ==> |OnDisk(states[|events|].disk)| <= max
  {
    InvAt(events, states, max, ttl, t, |events|);
    assert events[..|events|] == events;
  }

  lemma AllExpireWithLast(s: State, h: map<string, int>, ttl: int, now: int)
    requires Consistent(s.entries, h, ttl) && Consistent(OnDisk(s.disk), h, ttl)
    requires forall c :: c in h ==> h[c] <= Truncate(now)
    ensures AllExpireBy(s, Expiry(now, ttl))
  {
    forall c | c in h ensures Expiry(h[c], ttl) <= Expiry(now, ttl) {
      ExpiryMonotone(h[c], Truncate(now), ttl);
    }
  }

  /** Under the premises of these theorems up to a Record that was not written, and with no
      Record after it: a restart shows exactly until the entry expires, if it was kept, and
      unless a purge has been written or a restart has happened since. */
  lemma RestartShowsUntilExpiry(events: seq<Event>, states: seq<State>, max: int, ttl: int, n: nat, t: int)
    requires Run(events, states) && n < |events| && events[n].Record? && !events[n].stored
    requires Premises(events[..n + 1], states[..n + 2], max, ttl, events[n].now) && Settled(events[..n])
    requires NotBefore(t, events) && forall k :: n < k < |events| ==> !events[k].Record?
    ensures Agrees(states[|events|], t) <==>
            || Expiry(events[n].now, ttl) <= t
            || events[n].cidr !in states[n + 1].entries
            || RewrittenIn(events, states, n + 1, |events|)
  {
    hide Step, MissingOnlyWhenFull, DiskCovers, Agrees, RewrittenIn, AllExpireBy;
    var now, upTo := events[n].now, events[..n + 1];
    assert upTo[..n] == events[..n];
    InvAt(upTo, states[..n + 2], max, ttl, now, n);
    assert NotBefore(now, events[..n]);
    HistoryBefore(events[..n], now);
    AllExpireWithLast(states[n], History(events[..n]), ttl, now);
    assert upTo[n] == events[n];
    RestartAgreesExactly(events, states, n, t);
  }

  /** Two Records in the same second: the entry just recorded may be the victim. */
  lemma TieMayEvictRecorded()
    ensures exists s: State, e: Event, s': State ::
              && e.Record? && e.ttl >= SECOND && s.maxEntries > 0 && |s.entries| <= s.maxEntries
              && Keyed(s.entries) && Step(s, e, s') && e.cidr !in s'.entries
  {
    hide Evicts, Step, LivePart;
    var a, b := "192.0.2.1/32", "192.0.2.2/32";
    assert a[8] != b[8];
    var m := Upsert(map[], a, "192.0.2.1", "web_auth", 0, MINUTE);
    assert m.Keys == {a};
    var e := Record(b, "192.0.2.2", "web_auth", 0, MINUTE, false);
    var m' := Upsert(m, b, e.ip, e.source, 0, MINUTE);
    assert m'.Keys == {a, b};
    AllLive(m', 0);
    MapSize(m);
    MapSize(m');
    assert m == m' - Members([b]);
    EvictsAssembled(m', [], [b], m', m, 0, 1);
    RecordStep(State(1, m, None), e, m, [], [b]);
  }

  lemma RecordStep(s: State, e: Event, after: Entries, expired: seq<string>, victims: seq<string>)
    requires e.Record? && !e.stored
    requires Evicts(Upsert(s.entries, e.cidr, e.ip, e.source, e.now, e.ttl), expired, victims, after, Truncate(e.now), s.maxEntries)
    ensures Step(s, e, s.(entries := after))
  {
  }
}
