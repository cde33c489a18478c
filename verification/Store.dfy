/** The auth-server's record store: a bounded TTL map with least-recently-seen
    eviction, rewritten to one file on every change. */
module Store {
  import opened Sorting
  import opened Text
  import opened Clock
  import opened Signer
  import Json

  type Entries = map<string, Entry>

  predicate Live(e: Entry, now: int) {
    e.expiresAt > now
  }

  function LivePart(m: Entries, now: int): Entries {
    map k | k in m && Live(m[k], now) :: m[k]
  }

  lemma AllLive(m: Entries, now: int)
    requires forall k :: k in m ==> Live(m[k], now)
    ensures LivePart(m, now) == m
  {
  }

  /** Entries are stored under their own CIDR. */
  ghost predicate Keyed(m: Entries) {
    forall k :: k in m ==> m[k].cidr == k
  }

  /** When an entry recorded at `now` stops being allowed. */
  function Expiry(now: int, ttl: int): int {
    Truncate(Truncate(now) + ttl)
  }

  /** In whole seconds: the last second of a lifetime is the one before the TTL is over. */
  lemma ExpiryMeans(now: int, ttl: int, t: int)
    ensures Expiry(now, ttl) > t <==> t / 1_000_000_000 < (now - now % 1_000_000_000 + ttl) / 1_000_000_000
    ensures ttl % 1_000_000_000 == 0 ==> (Expiry(now, ttl) > t <==> t < now - now % 1_000_000_000 + ttl)
  {
  }

  /** The map after Record has added or refreshed `cidr`, before eviction. */
  function Upsert(m: Entries, cidr: string, ip: string, source: string, now: int, ttl: int): Entries {
    var seen := Truncate(now);
    if cidr in m then
      m[cidr := m[cidr].(lastSeenAt := seen, expiresAt := Expiry(now, ttl), hitCount := m[cidr].hitCount + 1)]
    else
      m[cidr := Entry(ip, cidr, source, seen, Expiry(now, ttl), seen, 1)]
  }

  // ---------------------------------------------------------------- eviction

  function Members(s: seq<string>): set<string> {
    set x | x in s
  }

  function Excess(live: nat, max: int): nat {
    if live <= max || max < 0 then 0 else live - max
  }

  /** Victims seen earliest, in the order they were seen; every key kept was seen
      no earlier than every victim. */
  ghost predicate LeastRecent(live: Entries, victims: seq<string>) {
    && (forall i :: 0 <= i < |victims| ==> victims[i] in live)
    && (forall i, j :: 0 <= i < j < |victims| ==> live[victims[i]].lastSeenAt <= live[victims[j]].lastSeenAt)
    && (forall i, k :: 0 <= i < |victims| && k in live && k !in Members(victims) ==>
          live[victims[i]].lastSeenAt <= live[k].lastSeenAt)
  }

  /** What enforceLimitLocked may do: drop every expired entry, in some order, then
      exactly as many live ones as exceed the limit, least recently seen first. */
  ghost predicate Evicts(before: Entries, expired: seq<string>, victims: seq<string>, after: Entries, now: int, max: int) {
    && Distinct(expired + victims)
    && Members(expired) == before.Keys - LivePart(before, now).Keys
    && LeastRecent(LivePart(before, now), victims)
    && |victims| == Excess(|LivePart(before, now)|, max)
    && after == LivePart(before, now) - Members(victims)
  }

  lemma {:induction false} MembersCount(s: seq<string>)
    requires Distinct(s)
    ensures |Members(s)| == |s|
  {
    if s != [] {
      var n := |s| - 1;
      MembersCount(s[..n]);
      assert Members(s) == Members(s[..n]) + {s[n]};
    }
  }

  lemma MembersExtend(s: seq<string>, x: string)
    ensures Members(s + [x]) == Members(s) + {x}
    ensures Distinct(s) && x !in Members(s) ==> Distinct(s + [x])
  {
  }

  lemma MapSize(m: Entries)
    ensures |m| == |m.Keys|
  {
  }

  /** Eviction loses nothing and invents nothing: the keys before are the disjoint
      union of the keys left and the keys reported, reported once each; what stays
      is live, unchanged, and as many as fit. */
  lemma EvictionConserves(before: Entries, expired: seq<string>, victims: seq<string>, after: Entries, now: int, max: int)
    requires max > 0 && Evicts(before, expired, victims, after, now, max)
    ensures before.Keys == after.Keys + Members(expired + victims)
    ensures after.Keys !! Members(expired + victims)
    ensures |before| == |after| + |expired + victims|
    ensures forall k :: k in after ==> k in before && after[k] == before[k] && Live(after[k], now)
    ensures |after| == (if |LivePart(before, now)| <= max then |LivePart(before, now)| else max)
    ensures forall v, k :: v in victims && k in after ==> before[v].lastSeenAt <= after[k].lastSeenAt
  {
    var live := LivePart(before, now);
    assert Members(expired + victims) == Members(expired) + Members(victims);
    PartitionSizes(before.Keys, live.Keys, Members(expired), Members(victims));
    assert after.Keys == live.Keys - Members(victims);
    DistinctParts(expired, victims);
    MembersCount(expired);
    MembersCount(victims);
    MapSize(before);
    MapSize(after);
    MapSize(live);
  }

  lemma DistinctParts(a: seq<string>, b: seq<string>)
    requires Distinct(a + b)
    ensures Distinct(a) && Distinct(b)
  {
    forall i, j | 0 <= i < j < |a| ensures a[i] != a[j] {
      assert (a + b)[i] != (a + b)[j];
    }
    forall i, j | 0 <= i < j < |b| ensures b[i] != b[j] {
      assert (a + b)[|a| + i] != (a + b)[|a| + j];
    }
  }

  lemma PartitionSizes(all: set<string>, live: set<string>, dead: set<string>, victims: set<string>)
    requires live <= all && dead == all - live && victims <= live
    ensures all == (live - victims) + (dead + victims)
    ensures (live - victims) !! (dead + victims)
    ensures |live - victims| == |live| - |victims|
    ensures |all| == |live - victims| + |dead| + |victims|
  {
    assert all == live + dead;
    assert live == (live - victims) + victims;
  }

  /** The entry just recorded survives if some other live entry is older. */
  lemma RecordedSurvives(
      m: Entries, cidr: string, ip: string, source: string, now: int, ttl: int,
      expired: seq<string>, victims: seq<string>, after: Entries, max: int, older: string)
    requires max > 0 && ttl >= SECOND && |m| <= max
    requires Evicts(Upsert(m, cidr, ip, source, now, ttl), expired, victims, after, Truncate(now), max)
    requires older != cidr && older in m && Live(m[older], Truncate(now)) && m[older].lastSeenAt < Truncate(now)
    ensures cidr in after
  {
    var before := Upsert(m, cidr, ip, source, now, ttl);
    OneVictimAtMost(m, before, expired, victims, after, Truncate(now), max, cidr);
    SurvivesYounger(LivePart(before, Truncate(now)), victims, cidr, older);
  }

  lemma OneVictimAtMost(
      m: Entries, before: Entries, expired: seq<string>, victims: seq<string>, after: Entries, now: int, max: int, cidr: string)
    requires max > 0 && |m| <= max && Evicts(before, expired, victims, after, now, max)
    requires before.Keys == m.Keys + {cidr}
    ensures |victims| <= 1
  {
    var live := LivePart(before, now);
    assert live.Keys <= before.Keys;
    MapSize(m);
    MapSize(live);
    MapSize(before);
    SubsetSize(live.Keys, before.Keys);
  }

  lemma SurvivesYounger(live: Entries, victims: seq<string>, k: string, older: string)
    requires LeastRecent(live, victims) && |victims| <= 1
    requires k in live && older in live && live[older].lastSeenAt < live[k].lastSeenAt
    ensures k in live - Members(victims)
  {
    assert k != older;
  }

  lemma SubsetSize(a: set<string>, b: set<string>)
    requires a <= b
    ensures |a| <= |b| && (|a| == |b| ==> a == b)
  {
    assert b == a + (b - a);
  }

  /** Whichever of the allowed evictions happens, the entry just recorded is kept. */
  ghost predicate AlwaysSurvives(before: Entries, cidr: string, now: int, max: int) {
    forall expired, victims, after :: Evicts(before, expired, victims, after, now, max) ==> cidr in after
  }

  ghost predicate HasOlder(m: Entries, cidr: string, now: int) {
    exists k :: k in m && k != cidr && Live(m[k], now) && m[k].lastSeenAt < now
  }

  lemma UpsertShape(m: Entries, cidr: string, ip: string, source: string, now: int, ttl: int)
    ensures var before := Upsert(m, cidr, ip, source, now, ttl);
            && before.Keys == m.Keys + {cidr}
            && (forall k :: k in m && k != cidr ==> before[k] == m[k])
            && before[cidr].lastSeenAt == Truncate(now)
            && (Live(before[cidr], Truncate(now)) <==> ttl >= SECOND)
  {
  }

  lemma RoomSurvives(before: Entries, expired: seq<string>, victims: seq<string>, after: Entries, now: int, max: int, k: string)
    requires Evicts(before, expired, victims, after, now, max) && |LivePart(before, now)| <= max
    requires k in before && Live(before[k], now)
    ensures k in after
  {
    assert victims == [];
  }

  lemma OlderSurvives(
      m: Entries, cidr: string, ip: string, source: string, now: int, ttl: int,
      expired: seq<string>, victims: seq<string>, after: Entries, max: int)
    requires max > 0 && ttl >= SECOND && |m| <= max && HasOlder(m, cidr, Truncate(now))
    requires Evicts(Upsert(m, cidr, ip, source, now, ttl), expired, victims, after, Truncate(now), max)
    ensures cidr in after
  {
    var older :| older in m && older != cidr && Live(m[older], Truncate(now)) && m[older].lastSeenAt < Truncate(now);
    RecordedSurvives(m, cidr, ip, source, now, ttl, expired, victims, after, max, older);
  }

  /** Exactly when a Record into a store within its limit can be relied on to keep its own
      entry: it must be live at all, and there must be room or a strictly older entry. */
  lemma SurvivesExactly(m: Entries, cidr: string, ip: string, source: string, now: int, ttl: int, max: int)
    requires max > 0 && |m| <= max
    ensures var before, seen := Upsert(m, cidr, ip, source, now, ttl), Truncate(now);
            AlwaysSurvives(before, cidr, seen, max) <==>
            ttl >= SECOND && (|LivePart(before, seen)| <= max || HasOlder(m, cidr, seen))
  {
    var before, seen := Upsert(m, cidr, ip, source, now, ttl), Truncate(now);
    UpsertShape(m, cidr, ip, source, now, ttl);
    if ttl < SECOND || (|LivePart(before, seen)| > max && !HasOlder(m, cidr, seen)) {
      RecordedVictim(m, before, cidr, seen, max);
    } else {
      forall expired, victims, after | Evicts(before, expired, victims, after, seen, max) ensures cidr in after {
        if |LivePart(before, seen)| <= max {
          RoomSurvives(before, expired, victims, after, seen, max, cidr);
        } else {
          OlderSurvives(m, cidr, ip, source, now, ttl, expired, victims, after, max);
        }
      }
    }
  }

  /** The other case: an eviction that takes the recorded entry. */
  lemma RecordedVictim(m: Entries, before: Entries, cidr: string, now: int, max: int)
    requires max > 0 && |m| <= max && before.Keys == m.Keys + {cidr}
    requires forall k :: k in m && k != cidr ==> before[k] == m[k]
    requires before[cidr].lastSeenAt == now
    requires Live(before[cidr], now) ==> |LivePart(before, now)| > max && !HasOlder(m, cidr, now)
    ensures !AlwaysSurvives(before, cidr, now, max)
  {
    hide AlwaysSurvives, Evicts, LeastRecent, HasOlder;
    var live := LivePart(before, now);
    var expired := ListSet(before.Keys - live.Keys);
    var victims: seq<string> := if cidr in live then [cidr] else [];
    LiveCount(m, before, cidr, live, max);
    LeastRecentVictim(m, before, cidr, now, victims);
    var after := live - Members(victims);
    EvictsAssembled(before, expired, victims, live, after, now, max);
    NotSure(before, expired, victims, after, cidr, now, max);
  }

  lemma LeastRecentVictim(m: Entries, before: Entries, cidr: string, now: int, victims: seq<string>)
    requires before.Keys == m.Keys + {cidr} && before[cidr].lastSeenAt == now
    requires forall k :: k in m && k != cidr ==> before[k] == m[k]
    requires victims == [] || (victims == [cidr] && cidr in LivePart(before, now) && !HasOlder(m, cidr, now))
    ensures LeastRecent(LivePart(before, now), victims)
  {
  }

  lemma NotSure(
      before: Entries, expired: seq<string>, victims: seq<string>, after: Entries, cidr: string, now: int, max: int)
    requires Evicts(before, expired, victims, after, now, max) && cidr !in after
    ensures !AlwaysSurvives(before, cidr, now, max)
  {
  }

  lemma LiveCount(m: Entries, before: Entries, cidr: string, live: Entries, max: int)
    requires |m| <= max && before.Keys == m.Keys + {cidr} && live.Keys <= before.Keys
    ensures |live| <= max + 1 && (cidr !in live ==> |live| <= max)
  {
    MapSize(m);
    MapSize(before);
    MapSize(live);
    SubsetSize(live.Keys, before.Keys);
    if cidr !in live {
      SubsetSize(live.Keys, m.Keys);
    }
  }

  lemma {:induction false} ListSet(s: set<string>) returns (list: seq<string>)
    ensures Distinct(list) && Members(list) == s
  {
    if s == {} {
      list := [];
    } else {
      var x :| x in s;
      var others := ListSet(s - {x});
      MembersExtend(others, x);
      list := others + [x];
    }
  }

  // ---------------------------------------------------------------- snapshots

  function Keys(list: seq<Entry>): seq<string> {
    seq(|list|, i requires 0 <= i < |list| => list[i].cidr)
  }

  /** The entries of `m` in the order of their CIDRs. */
  ghost predicate IsListing(list: seq<Entry>, m: Entries) {
    && Increasing(Keys(list))
    && (forall e :: e in list <==> e.cidr in m && m[e.cidr] == e)
  }

  ghost predicate IsSnapshot(list: seq<Entry>, m: Entries, now: int) {
    IsListing(list, LivePart(m, now))
  }

  lemma KeysMembers(list: seq<Entry>, m: Entries)
    requires Keyed(m) && IsListing(list, m)
    ensures forall k :: k in Keys(list) <==> k in m
  {
    forall k ensures k in Keys(list) <==> k in m {
      if k in Keys(list) {
        var i :| 0 <= i < |list| && Keys(list)[i] == k;
        assert list[i] in list;
      }
      if k in m {
        assert m[k] in list;
        var i :| 0 <= i < |list| && list[i] == m[k];
        assert Keys(list)[i] == k;
      }
    }
  }

  /** Signing depends on this: the listing of a map is unique. */
  lemma ListingUnique(a: seq<Entry>, b: seq<Entry>, m: Entries)
    requires Keyed(m) && IsListing(a, m) && IsListing(b, m)
    ensures a == b
  {
    KeysMembers(a, m);
    KeysMembers(b, m);
    IncreasingUnique(Keys(a), Keys(b));
    assert |a| == |Keys(a)| == |b|;
    forall i | 0 <= i < |a| ensures a[i] == b[i] {
      assert a[i] in a && b[i] in b;
      assert Keys(a)[i] == Keys(b)[i];
    }
  }

  // ---------------------------------------------------------------- the file

  /** load: later rows overwrite earlier ones with the same CIDR. */
  function LoadList(list: seq<Entry>): (m: Entries)
    ensures Keyed(m)
  {
    if list == [] then map[]
    else
      var last := list[|list| - 1];
      LoadList(list[..|list| - 1])[last.cidr := last]
  }

  /** What a start finds; a missing file is an empty store. */
  function OnDisk(disk: Option<seq<Entry>>): (m: Entries)
    ensures Keyed(m)
  {
    if disk.Some? then LoadList(disk.value) else map[]
  }

  lemma {:induction false} LoadListMembers(list: seq<Entry>, k: string)
    requires k in LoadList(list)
    ensures LoadList(list)[k] in list
  {
    var n := |list| - 1;
    if k != list[n].cidr {
      LoadListMembers(list[..n], k);
    }
  }

  lemma {:induction false} LoadListLookup(list: seq<Entry>, i: nat)
    requires Distinct(Keys(list)) && i < |list|
    ensures list[i].cidr in LoadList(list) && LoadList(list)[list[i].cidr] == list[i]
  {
    var n := |list| - 1;
    if i < n {
      assert Keys(list[..n]) == Keys(list)[..n];
      LoadListLookup(list[..n], i);
      assert Keys(list)[i] != Keys(list)[n];
    }
  }

  /** Of several rows of one CIDR the last counts. */
  lemma {:induction false} LoadListMeans(list: seq<Entry>, k: string)
    ensures k in LoadList(list) <==> exists i :: 0 <= i < |list| && list[i].cidr == k
    ensures forall i :: 0 <= i < |list| && list[i].cidr == k && (forall j :: i < j < |list| ==> list[j].cidr != k) ==>
              k in LoadList(list) && LoadList(list)[k] == list[i]
  {
    if list != [] {
      var n := |list| - 1;
      var init := list[..n];
      LoadListMeans(init, k);
      assert forall i :: 0 <= i < n ==> init[i] == list[i];
      if i :| 0 <= i < n && init[i].cidr == k {
        assert list[i].cidr == k;
      }
      forall i | 0 <= i < |list| && list[i].cidr == k && (forall j :: i < j < |list| ==> list[j].cidr != k)
        ensures k in LoadList(list) && LoadList(list)[k] == list[i]
      {
        assert i < n ==> list[n].cidr != k;
      }
    }
  }

  lemma IncreasingDistinct(s: seq<string>)
    requires Increasing(s)
    ensures Distinct(s)
  {
    forall i, j | 0 <= i < j < |s| ensures s[i] != s[j] {
      LessIrreflexive(s[i]);
    }
  }

  /** Reading back what persistLocked wrote gives the same map. */
  lemma LoadListing(list: seq<Entry>, m: Entries)
    requires Keyed(m) && IsListing(list, m)
    ensures LoadList(list) == m
  {
    IncreasingDistinct(Keys(list));
    forall k | k in m ensures k in LoadList(list) && LoadList(list)[k] == m[k] {
      assert m[k] in list;
      var i :| 0 <= i < |list| && list[i] == m[k];
      LoadListLookup(list, i);
    }
    forall k | k in LoadList(list) ensures k in m {
      LoadListMembers(list, k);
    }
  }

  // ---------------------------------------------------------------- steps

  datatype State = State(maxEntries: int, entries: Entries, disk: Option<seq<Entry>>)

  /** `stored` is whether the file write of that call succeeds. A crash between a
      change and its write is that change with `stored` false, then Restart. */
  datatype Event =
    | Record(cidr: string, ip: string, source: string, now: int, ttl: int, stored: bool)
    | Purge(now: int, stored: bool)
    | Restart
  {
    predicate Timed() {
      !Restart?
    }
  }

  ghost predicate Persisted(s: State, s': State, stored: bool) {
    if stored then s'.disk.Some? && IsListing(s'.disk.value, s'.entries) else s'.disk == s.disk
  }

  ghost predicate Step(s: State, e: Event, s': State) {
    && s'.maxEntries == s.maxEntries
    && match e
       case Record(cidr, ip, source, now, ttl, stored) =>
         && (exists expired, victims ::
               Evicts(Upsert(s.entries, cidr, ip, source, now, ttl), expired, victims, s'.entries, Truncate(now), s.maxEntries))
         && Persisted(s, s', stored)
       case Purge(now, stored) =>
         && s'.entries == LivePart(s.entries, now)
         && (if s'.entries == s.entries then s'.disk == s.disk else Persisted(s, s', stored))
       case Restart =>
         s'.entries == OnDisk(s.disk) && s'.disk == s.disk
  }

  ghost predicate Run(events: seq<Event>, states: seq<State>) {
    && |states| == |events| + 1
    && forall i :: 0 <= i < |events| ==> Step(states[i], events[i], states[i + 1])
  }

  lemma StepKeyed(s: State, e: Event, s': State)
    requires Keyed(s.entries) && Step(s, e, s')
    ensures Keyed(s'.entries)
  {
  }

  /** No event happens after `t`. */
  ghost predicate NotBefore(t: int, events: seq<Event>) {
    forall i :: 0 <= i < |events| && events[i].Timed() ==> events[i].now <= t
  }

  /** The clock readings do not go back from one lock acquisition to the next. */
  ghost predicate Monotone(events: seq<Event>) {
    forall i, j :: 0 <= i < j < |events| && events[i].Timed() && events[j].Timed() ==> events[i].now <= events[j].now
  }

  // ------------------------------------------------- crash and restart agreement

  /** The last Record since the last start reached the file. Purge's writes do not
      matter: their errors are ignored by the store. */
  predicate Settled(events: seq<Event>) {
    if events == [] then true
    else
      match events[|events| - 1]
      case Restart => true
      case Record(_, _, _, _, _, stored) => stored
      case Purge(_, _) => Settled(events[..|events| - 1])
  }

  /** The file holds everything in memory, and otherwise only entries dead at `t`. */
  ghost predicate DiskCovers(s: State, t: int) {
    var d := OnDisk(s.disk);
    && (forall k :: k in s.entries ==> k in d && d[k] == s.entries[k])
    && (forall k :: k in d && k !in s.entries ==> !Live(d[k], t))
  }

  lemma {:induction false} DiskCoversMemory(events: seq<Event>, states: seq<State>, t: int)
    requires Run(events, states)
    requires states[0].entries == OnDisk(states[0].disk)
    requires Settled(events) && NotBefore(t, events)
    ensures Keyed(states[|events|].entries)
    ensures DiskCovers(states[|events|], t)
  {
    RunKeyed(events, states);
    if events != [] {
      var n := |events| - 1;
      var s, e, s' := states[n], events[n], states[n + 1];
      assert Step(s, e, s');
      if e.Purge? {
        DiskCoversMemory(events[..n], states[..n + 1], t);
        if s'.entries != s.entries && e.stored {
          LoadListing(s'.disk.value, s'.entries);
        }
      } else if e.Record? {
        LoadListing(s'.disk.value, s'.entries);
      }
    }
  }

  lemma {:induction false} RunKeyed(events: seq<Event>, states: seq<State>)
    requires Run(events, states) && Keyed(states[0].entries)
    ensures Keyed(states[|events|].entries)
  {
    if events != [] {
      var n := |events| - 1;
      RunKeyed(events[..n], states[..n + 1]);
      StepKeyed(states[n], events[n], states[n + 1]);
    }
  }

  /** After any run whose last Record was written, a restart is invisible: every
      snapshot from then on is the one memory would have given. */
  lemma CrashRestartAgreement(
      events: seq<Event>, states: seq<State>, t: int, before: seq<Entry>, after: seq<Entry>)
    requires Run(events, states)
    requires states[0].entries == OnDisk(states[0].disk)
    requires Settled(events) && NotBefore(t, events)
    requires IsSnapshot(before, states[|events|].entries, t)
    requires IsSnapshot(after, OnDisk(states[|events|].disk), t)
    ensures before == after
  {
    DiskCoversMemory(events, states, t);
    var s := states[|events|];
    assert LivePart(s.entries, t) == LivePart(OnDisk(s.disk), t);
    ListingUnique(before, after, LivePart(s.entries, t));
  }

  lemma FirstRecord(max: int, e: Event) returns (m: Entries)
    requires max > 0 && e == Record("192.0.2.1/32", "192.0.2.1", "web_auth", 0, SECOND, false)
    ensures Step(State(max, map[], None), e, State(max, m, None))
    ensures e.cidr in LivePart(m, 0)
  {
    m := Upsert(map[], e.cidr, e.ip, e.source, e.now, e.ttl);
    assert Live(m[e.cidr], 0);
    assert LivePart(m, 0) == m;
    assert m.Keys == {e.cidr};
    MapSize(m);
    assert Evicts(m, [], [], m, Truncate(0), max);
  }

  /** The premise matters: a Record whose write failed is lost by a restart. */
  lemma UnsettledRestartLoses(max: int)
    requires max > 0
    ensures exists events: seq<Event>, states: seq<State> ::
              && Run(events, states) && states[0].entries == OnDisk(states[0].disk)
              && !Settled(events) && NotBefore(0, events)
              && LivePart(states[|events|].entries, 0) != LivePart(OnDisk(states[|events|].disk), 0)
  {
    var e := Record("192.0.2.1/32", "192.0.2.1", "web_auth", 0, SECOND, false);
    var m := FirstRecord(max, e);
    var s0, s1 := State(max, map[], None), State(max, m, None);
    assert Run([e], [s0, s1]);
    assert e.cidr !in LivePart(OnDisk(s1.disk), 0);
  }

  // ------------------------------------------------- when a restart shows

  /** A restart now would not change what is live at `t` or later. */
  ghost predicate Agrees(s: State, t: int) {
    LivePart(s.entries, t) == LivePart(OnDisk(s.disk), t)
  }

  /** The event makes memory and file the same: a purge that is written, or a restart. */
  ghost predicate Rewrites(s: State, e: Event, s': State) {
    e.Restart? || (e.Purge? && e.stored && s'.entries != s.entries)
  }

  lemma PurgeTwice(m: Entries, now: int, t: int)
    requires now <= t
    ensures LivePart(LivePart(m, now), t) == LivePart(m, t)
  {
  }

  lemma AgreesStep(s: State, e: Event, s': State, t: int)
    requires Step(s, e, s') && !e.Record? && (e.Purge? ==> e.now <= t) && Keyed(s.entries)
    ensures Agrees(s', t) <==> Agrees(s, t) || Rewrites(s, e, s')
  {
    if e.Purge? {
      PurgeTwice(s.entries, e.now, t);
      if Rewrites(s, e, s') {
        StepKeyed(s, e, s');
        LoadListing(s'.disk.value, s'.entries);
      }
    }
  }

  ghost predicate RewrittenIn(events: seq<Event>, states: seq<State>, from: nat, to: nat) {
    exists k :: from <= k < to && k < |events| && k + 1 < |states| && Rewrites(states[k], events[k], states[k + 1])
  }

  lemma {:induction false} KeyedAt(events: seq<Event>, states: seq<State>, n: nat)
    requires Run(events, states) && Keyed(states[0].entries) && n <= |events|
    ensures Keyed(states[n].entries)
  {
    if n > 0 {
      KeyedAt(events, states, n - 1);
      StepKeyed(states[n - 1], events[n - 1], states[n]);
    }
  }

  lemma RewrittenLater(events: seq<Event>, states: seq<State>, from: nat, m: nat)
    requires from <= m < |events| && |states| == |events| + 1
    ensures RewrittenIn(events, states, from, m + 1) <==>
            RewrittenIn(events, states, from, m) || Rewrites(states[m], events[m], states[m + 1])
  {
  }

  /** Without a Record memory and file agree if they did, or once something has rewritten
      one from the other. */
  lemma {:induction false} AgreesSince(events: seq<Event>, states: seq<State>, n: nat, m: nat, t: int)
    requires Run(events, states) && Keyed(states[0].entries) && n <= m <= |events| && NotBefore(t, events)
    requires forall k :: n <= k < m ==> !events[k].Record?
    ensures Agrees(states[m], t) <==> Agrees(states[n], t) || RewrittenIn(events, states, n, m)
  {
    hide Agrees, Step, Rewrites, Keyed;
    if m > n {
      AgreesSince(events, states, n, m - 1, t);
      KeyedAt(events, states, m - 1);
      AgreesStep(states[m - 1], events[m - 1], states[m], t);
      RewrittenLater(events, states, n, m - 1);
    }
  }

  /** Nothing in memory or in the file stays allowed beyond `x`. */
  ghost predicate AllExpireBy(s: State, x: int) {
    && (forall k :: k in s.entries ==> s.entries[k].expiresAt <= x)
    && (forall k :: k in OnDisk(s.disk) ==> OnDisk(s.disk)[k].expiresAt <= x)
  }

  lemma RecordedEntry(s: State, e: Event, s': State)
    requires e.Record? && Step(s, e, s')
    ensures forall k :: k in s'.entries && k != e.cidr ==> k in s.entries && s'.entries[k] == s.entries[k]
    ensures e.cidr in s'.entries ==>
              && s'.entries[e.cidr].lastSeenAt == Truncate(e.now)
              && s'.entries[e.cidr].expiresAt == Expiry(e.now, e.ttl)
              && s'.entries[e.cidr].hitCount == 1 + if e.cidr in s.entries then s.entries[e.cidr].hitCount else 0
  {
  }

  /** What a Record that keeps its entry stores: of a CIDR that was there the time, the expiry
      and one more hit, of another everything. */
  lemma RecordStores(s: State, e: Event, s': State)
    requires e.Record? && Step(s, e, s') && Keyed(s.entries) && e.cidr in s'.entries
    ensures var r := s'.entries[e.cidr];
            && r.cidr == e.cidr && r.lastSeenAt == e.now - e.now % 1_000_000_000
            && if e.cidr in s.entries then
                 var was := s.entries[e.cidr];
                 r.ip == was.ip && r.source == was.source && r.createdAt == was.createdAt && r.hitCount == was.hitCount + 1
               else r.ip == e.ip && r.source == e.source && r.createdAt == r.lastSeenAt && r.hitCount == 1
  {
  }

  /** The lifetime of a Record: its CIDR is in the snapshots for one TTL from the second of
      the Record, to whole seconds, and in none later. */
  lemma Lifetime(s: State, e: Event, s': State, t: int, list: seq<Entry>)
    requires e.Record? && Step(s, e, s') && Keyed(s.entries) && e.cidr in s'.entries
    requires IsSnapshot(list, s'.entries, t)
    ensures (exists i :: 0 <= i < |list| && list[i].cidr == e.cidr) <==>
            t / 1_000_000_000 < (e.now - e.now % 1_000_000_000 + e.ttl) / 1_000_000_000
    ensures e.ttl % 1_000_000_000 == 0 ==>
              ((exists i :: 0 <= i < |list| && list[i].cidr == e.cidr) <==> t < e.now - e.now % 1_000_000_000 + e.ttl)
  {
    RecordedEntry(s, e, s');
    StepKeyed(s, e, s');
    ExpiryMeans(e.now, e.ttl, t);
    ListedExactly(list, s'.entries, t, e.cidr);
  }

  lemma ListedExactly(list: seq<Entry>, m: Entries, t: int, k: string)
    requires Keyed(m) && IsSnapshot(list, m, t) && k in m
    ensures (exists i :: 0 <= i < |list| && list[i].cidr == k) <==> m[k].expiresAt > t
  {
    if m[k].expiresAt > t {
      assert LivePart(m, t)[k] in list;
    }
    if i :| 0 <= i < |list| && list[i].cidr == k {
      assert list[i] in list;
    }
  }

  /** The Record's entry, while it lives, is not the file's: it has been hit once more. */
  lemma KeptRecordShows(s: State, e: Event, s': State, t: int)
    requires e.Record? && !e.stored && Step(s, e, s') && AllExpireBy(s, Expiry(e.now, e.ttl)) && e.cidr in s'.entries
    requires || (DiskCovers(s, e.now) && e.now <= t)
             || (e.cidr in OnDisk(s.disk) ==> OnDisk(s.disk)[e.cidr].lastSeenAt != Truncate(e.now))
    ensures Agrees(s', t) <==> Expiry(e.now, e.ttl) <= t
  {
    RecordedEntry(s, e, s');
    if Expiry(e.now, e.ttl) <= t {
      ExpiredAgrees(s', Expiry(e.now, e.ttl), t);
    } else {
      assert e.cidr in LivePart(s'.entries, t);
    }
  }

  /** What the file covers now it agrees with later. */
  lemma CoveredAgrees(s: State, now: int, t: int)
    requires DiskCovers(s, now) && now <= t
    ensures Agrees(s, t)
  {
  }

  lemma ExpiredAgrees(s: State, x: int, t: int)
    requires AllExpireBy(s, x) && x <= t
    ensures Agrees(s, t)
  {
    assert LivePart(s.entries, t) == map[] == LivePart(OnDisk(s.disk), t);
  }

  /** A Record evicted at once leaves a full store as it was. */
  lemma LostRecordHides(s: State, e: Event, s': State, t: int)
    requires e.Record? && !e.stored && Step(s, e, s') && e.now <= t && AllExpireBy(s, Expiry(e.now, e.ttl))
    requires s.maxEntries > 0 && |s.entries| <= s.maxEntries && DiskCovers(s, e.now) && e.cidr !in s'.entries
    ensures Agrees(s', t)
  {
    var now, before := Truncate(e.now), Upsert(s.entries, e.cidr, e.ip, e.source, e.now, e.ttl);
    UpsertShape(s.entries, e.cidr, e.ip, e.source, e.now, e.ttl);
    var expired, victims :| Evicts(before, expired, victims, s'.entries, now, s.maxEntries);
    hide Evicts, Upsert, Agrees, AllExpireBy;
    if Live(before[e.cidr], now) {
      OneVictimAtMost(s.entries, before, expired, victims, s'.entries, now, s.maxEntries, e.cidr);
      OnlyVictim(before, expired, victims, s'.entries, now, s.maxEntries, e.cidr);
      MapSize(before);
      MapSize(s.entries);
      assert e.cidr in s.entries ==> before.Keys == s.entries.Keys;
      SameWithout(s.entries, before, s'.entries, e.cidr, now, t);
      CoveredAgrees(s, e.now, t);
      SameAgrees(s, s', t);
    } else {
      RecordExpireBy(s, e, s');
      ExpiredAgrees(s', Expiry(e.now, e.ttl), t);
    }
  }

  lemma SameAgrees(s: State, s': State, t: int)
    requires Agrees(s, t) && LivePart(s'.entries, t) == LivePart(s.entries, t) && s'.disk == s.disk
    ensures Agrees(s', t)
  {
  }

  lemma RecordExpireBy(s: State, e: Event, s': State)
    requires e.Record? && !e.stored && Step(s, e, s') && AllExpireBy(s, Expiry(e.now, e.ttl))
    ensures AllExpireBy(s', Expiry(e.now, e.ttl))
  {
    RecordedEntry(s, e, s');
  }

  /** What was evicted was not there before. */
  lemma SameWithout(m: Entries, before: Entries, after: Entries, cidr: string, now: int, t: int)
    requires before.Keys == m.Keys + {cidr} && forall k :: k in m && k != cidr ==> before[k] == m[k]
    requires after == LivePart(before, now) - {cidr} && now <= t && cidr !in m
    ensures LivePart(after, t) == LivePart(m, t)
  {
  }

  lemma OnlyVictim(before: Entries, expired: seq<string>, victims: seq<string>, after: Entries, now: int, max: int, k: string)
    requires Evicts(before, expired, victims, after, now, max) && |victims| <= 1
    requires k in before && Live(before[k], now) && k !in after
    ensures after == LivePart(before, now) - {k} && |before| > max
  {
    MapSize(before);
    MapSize(LivePart(before, now));
    SubsetSize(LivePart(before, now).Keys, before.Keys);
    assert k in Members(victims);
    assert victims == [k];
    assert Members(victims) == {k};
  }

  /** Exactly when a restart shows after one Record that was not written, the last Record
      of a run that was settled before it: until its entry expires, if the Record kept it,
      and unless a purge has been written or a restart has happened since. */
  lemma RestartAgreesExactly(events: seq<Event>, states: seq<State>, n: nat, t: int)
    requires Run(events, states) && states[0].entries == OnDisk(states[0].disk) && n < |events|
    requires events[n].Record? && !events[n].stored && Settled(events[..n])
    requires forall k :: n < k < |events| ==> !events[k].Record?
    requires NotBefore(events[n].now, events[..n]) && NotBefore(t, events)
    requires 0 < states[n].maxEntries && |states[n].entries| <= states[n].maxEntries
    requires AllExpireBy(states[n], Expiry(events[n].now, events[n].ttl))
    ensures Agrees(states[|events|], t) <==>
            || Expiry(events[n].now, events[n].ttl) <= t
            || events[n].cidr !in states[n + 1].entries
            || RewrittenIn(events, states, n + 1, |events|)
  {
    var s, e, s' := states[n], events[n], states[n + 1];
    assert Step(s, e, s');
    DiskCoversMemory(events[..n], states[..n + 1], e.now);
    AgreesSince(events, states, n + 1, |events|, t);
    if e.cidr in s'.entries {
      KeptRecordShows(s, e, s', t);
    } else {
      LostRecordHides(s, e, s', t);
    }
  }

  /** The same after any number of Records that were not written, for the last of them, where
      the file holds no entry of its CIDR seen in the same second. */
  lemma RestartAgreesAfterMany(events: seq<Event>, states: seq<State>, n: nat, t: int)
    requires Run(events, states) && Keyed(states[0].entries) && n < |events|
    requires events[n].Record? && !events[n].stored && events[n].cidr in states[n + 1].entries
    requires forall k :: n < k < |events| ==> !events[k].Record?
    requires NotBefore(t, events) && AllExpireBy(states[n], Expiry(events[n].now, events[n].ttl))
    requires var d := OnDisk(states[n].disk);
             events[n].cidr in d ==> d[events[n].cidr].lastSeenAt != Truncate(events[n].now)
    ensures Agrees(states[|events|], t) <==>
            Expiry(events[n].now, events[n].ttl) <= t || RewrittenIn(events, states, n + 1, |events|)
  {
    assert Step(states[n], events[n], states[n + 1]);
    AgreesSince(events, states, n + 1, |events|, t);
    KeptRecordShows(states[n], events[n], states[n + 1], t);
  }

  // ---------------------------------------------------------------- the store

  datatype Seen = Seen(key: string, at: int)

  predicate SeenBefore(a: Seen, b: Seen) {
    a.at < b.at
  }

  /** sort.Slice by last-seen time: not stable, so callers know no more than that
      the result is sorted and has the same elements. */
  method SortBySeen(list: seq<Seen>) returns (r: seq<Seen>)
    ensures multiset(r) == multiset(list) && Sorted(r, SeenBefore)
  {
    SortSorts(list, SeenBefore);
    r := Sort(list, SeenBefore);
  }

  predicate CidrBefore(a: Entry, b: Entry) {
    Less(a.cidr, b.cidr)
  }

  /** sort.Slice by CIDR, equally unstable. */
  method SortByCidr(list: seq<Entry>) returns (r: seq<Entry>)
    ensures multiset(r) == multiset(list) && Sorted(r, CidrBefore)
  {
    LessOrders();
    SortSorts(list, CidrBefore);
    r := Sort(list, CidrBefore);
  }

  /** The content of entries.json. */
  function FileText(list: seq<Entry>): string
    requires WritableEntries(list)
  {
    Json.Indented(Json.Obj([Json.Field("entries", Json.Arr(EntryValues(list)))]))
  }

  /** json.Unmarshal of it: the rows, or an error. */
  function ReadRows(text: string): Option<seq<Entry>> {
    var v := Json.Read(text);
    if v == None then None
    else if v.value.Null? then Some([])
    else if !v.value.Obj? then None
    else EntriesField(v.value.fields, "entries")
  }

  lemma FileRoundTrip(list: seq<Entry>)
    requires WritableEntries(list)
    ensures ReadRows(FileText(list)) == Some(list)
  {
    hide EntriesField, Json.Read, Json.Indented;
    var fields := [Json.Field("entries", Json.Arr(EntryValues(list)))];
    Json.RoundTrip(Json.Obj(fields));
    ReadEntriesField(fields, 0, list);
  }

  /** The file holds the rows under this name. */
  lemma FileNames(list: seq<Entry>)
    requires WritableEntries(list)
    ensures FileText(list) == Json.PrettyText(Json.Obj([Json.Field("entries", Json.Arr(EntryValues(list)))]), 0)
  {
    Json.IndentedIsPretty(Json.Obj([Json.Field("entries", Json.Arr(EntryValues(list)))]));
  }

  /** The text of the file reads as these rows. */
  ghost predicate FileHolds(file: Option<string>, rows: Option<seq<Entry>>) {
    (file == None <==> rows == None) && (file.Some? ==> ReadRows(file.value) == rows)
  }

  ghost predicate AllEntriesWritable(m: Entries) {
    forall k :: k in m ==> WritableEntry(m[k])
  }

  lemma ListingWritable(list: seq<Entry>, m: Entries)
    requires Keyed(m) && IsListing(list, m)
    ensures WritableEntries(list) <==> AllEntriesWritable(m)
  {
    if AllEntriesWritable(m) {
      AllWritable(list);
    }
    if WritableEntries(list) {
      WritableMembers(list);
      assert forall k :: k in m ==> m[k] in list;
    }
  }

  /** What a start finds at the path of the file. */
  datatype Found = Missing | Unreadable | Holding(text: string)

  function Limit(limit: int): int {
    if limit <= 0 then 200 else limit
  }

  /** New: opens the store on what an earlier process left. There is no store when the
      directory cannot be made or the file cannot be read or understood. */
  method Open(dirMade: bool, found: Found, limit: int) returns (s: Store?)
    ensures s != null <==> dirMade && !found.Unreadable? && (found.Holding? ==> ReadRows(found.text).Some?)
    ensures s != null ==> fresh(s) && s.Valid() && s.file == if found.Holding? then Some(found.text) else None
    ensures s != null ==>
              var rows := if found.Holding? then ReadRows(found.text) else None;
              s.Now() == State(Limit(limit), OnDisk(rows), rows)
    ensures s != null ==> s.maxEntries == if limit > 0 then limit else 200
  {
    if !dirMade || found.Unreadable? {
      return null;
    }
    if found.Missing? {
      s := new Store(None, None, limit);
      return;
    }
    var rows := ReadRows(found.text);
    if rows == None {
      return null;
    }
    s := new Store(Some(found.text), rows, limit);
  }

  /** A process started on the file of another goes on from what the file says. */
  method Reopen(earlier: Store) returns (s: Store?)
    requires earlier.Valid()
    ensures s != null && fresh(s) && s.Valid() && s.file == earlier.file
    ensures Step(earlier.Now(), Restart, s.Now())
  {
    s := Open(true, if earlier.file == None then Missing else Holding(earlier.file.value), earlier.maxEntries);
  }

  class Store {
    var maxEntries: int
    var entries: Entries
    /** The text of entries.json; None when it does not exist. */
    var file: Option<string>
    /** The rows it holds. */
    ghost var disk: Option<seq<Entry>>

    ghost function Now(): State
      reads this
    {
      State(maxEntries, entries, disk)
    }

    ghost predicate Valid()
      reads this
    {
      maxEntries > 0 && Keyed(entries) && FileHolds(file, disk)
    }

    constructor (found: Option<string>, rows: Option<seq<Entry>>, limit: int)
      requires FileHolds(found, rows)
      ensures Valid() && file == found && Now() == State(Limit(limit), OnDisk(rows), rows)
    {
      maxEntries := Limit(limit);
      entries := map[];
      file, disk := found, rows;
      new;
      hide FileHolds, ReadRows;
      if rows.Some? {
        var list := rows.value;
        for i := 0 to |list|
          invariant entries == LoadList(list[..i]) && disk == rows && file == found
          invariant maxEntries == Limit(limit)
        {
          assert list[..i + 1][..i] == list[..i];
          entries := entries[list[i].cidr := list[i]];
        }
        assert list[..|list|] == list;
      }
    }

    /** Returns the CIDRs removed, expired ones first. */
    method EnforceLimit(now: int) returns (evicted: seq<string>, ghost expired: seq<string>, ghost victims: seq<string>)
      requires maxEntries > 0
      modifies this`entries
      ensures evicted == expired + victims
      ensures Evicts(old(entries), expired, victims, entries, now, maxEntries)
    {
      evicted := DropExpired(now);
      expired, victims := evicted, [];
      ghost var live := entries;
      if |entries| > maxEntries {
        var dropped := EvictOldest();
        victims := dropped;
        evicted := evicted + dropped;
      } else {
        NothingDropped(live);
      }
      EvictsAssembled(old(entries), expired, victims, live, entries, now, maxEntries);
    }

    /** Only called with more entries than the limit. */
    method EvictOldest() returns (victims: seq<string>)
      requires |entries| > maxEntries > 0
      modifies this`entries
      ensures Distinct(victims) && LeastRecent(old(entries), victims)
      ensures |victims| == |old(entries)| - maxEntries
      ensures entries == old(entries) - Members(victims)
    {
      ghost var all, n := entries, |entries| - maxEntries;
      var sorted := OldestFirst(n);
      ghost var oldest := SeenKeys(sorted)[..n];
      assert Distinct(oldest) && LeastRecent(all, oldest);
      victims := DropOldest(sorted);
      assert victims == oldest;
      assert all == old(entries);
    }

    method OldestFirst(ghost n: nat) returns (sorted: seq<Seen>)
      requires n <= |entries|
      ensures |sorted| == |entries| && Distinct(SeenKeys(sorted)) && Members(SeenKeys(sorted)) <= entries.Keys
      ensures LeastRecent(entries, SeenKeys(sorted)[..n]) && Distinct(SeenKeys(sorted)[..n])
    {
      var list := ListSeen();
      sorted := SortBySeen(list);
      OldestListed(entries, list, sorted, n);
    }

    /** Deletes while ranging over the map, whose order is arbitrary. */
    method DropExpired(now: int) returns (removed: seq<string>)
      modifies this`entries
      ensures entries == LivePart(old(entries), now)
      ensures Distinct(removed)
      ensures Members(removed) == old(entries).Keys - entries.Keys
    {
      removed := [];
      var pending := entries.Keys;
      while pending != {}
        invariant pending <= entries.Keys <= old(entries).Keys
        invariant forall k :: k in entries ==> entries[k] == old(entries)[k]
        invariant forall k :: k in entries && k !in pending ==> Live(entries[k], now)
        invariant forall k :: k in old(entries) && k !in entries ==> !Live(old(entries)[k], now)
        invariant Distinct(removed)
        invariant Members(removed) == old(entries).Keys - entries.Keys
        decreases pending
      {
        var k :| k in pending;
        pending := pending - {k};
        if entries[k].expiresAt <= now {
          assert k !in Members(removed);
          MembersExtend(removed, k);
          entries := entries - {k};
          removed := removed + [k];
        }
      }
    }

    method ListSeen() returns (list: seq<Seen>)
      ensures |list| == |entries| && Lists(list, entries)
    {
      list := [];
      var pending := entries.Keys;
      while pending != {}
        invariant pending <= entries.Keys
        invariant Distinct(list)
        invariant forall x :: x in list <==> x.key in entries && x.key !in pending && x.at == entries[x.key].lastSeenAt
        invariant |list| + |pending| == |entries|
        decreases pending
      {
        var k :| k in pending;
        pending := pending - {k};
        list := list + [Seen(k, entries[k].lastSeenAt)];
      }
    }

    method DropOldest(list: seq<Seen>) returns (victims: seq<string>)
      requires maxEntries > 0 && |list| == |entries| > maxEntries
      requires Distinct(SeenKeys(list)) && Members(SeenKeys(list)) <= entries.Keys
      modifies this`entries
      ensures victims == SeenKeys(list)[..|list| - maxEntries]
      ensures entries == old(entries) - Members(victims)
    {
      ghost var all, keys := entries, SeenKeys(list);
      victims := [];
      var i := 0;
      while |entries| > maxEntries && i < |list|
        invariant i <= |list| && victims == keys[..i]
        invariant entries == all - Members(victims)
        invariant |entries| + i == |list| && maxEntries <= |entries|
        decreases |list| - i
      {
        PrefixMembers(keys, i);
        assert keys[i] in Members(keys);
        DropOne(all, Members(victims), list[i].key);
        entries := entries - {list[i].key};
        victims := victims + [list[i].key];
        i := i + 1;
      }
    }

    /** `writes` is whether atomicfile.Write succeeds; it either replaces the file or
        leaves it as it was. */
    method PersistLocked(writes: bool) returns (stored: bool)
      requires Valid()
      modifies this`file, this`disk
      ensures Valid() && stored == (writes && AllEntriesWritable(entries))
      ensures stored ==> file.Some? && disk.Some? && IsListing(disk.value, entries)
      ensures !stored ==> file == old(file) && disk == old(disk)
    {
      hide ReadRows, FileText;
      var list := Listed(entries);
      ListingWritable(list, entries);
      if !WritableEntries(list) {
        return false;
      }
      stored := writes;
      if stored {
        FileRoundTrip(list);
        file, disk := Some(FileText(list)), Some(list);
      }
    }

    /** Adds or refreshes the entry of `cidr`; `stored` is false when the file could
        not be written, which callers see as an error. */
    method Record(cidr: string, ip: string, source: string, now: int, ttl: int, writes: bool)
      returns (entry: Entry, isNew: bool, evicted: seq<string>, stored: bool)
      requires Valid()
      modifies this`entries, this`file, this`disk
      ensures Valid() && stored == (writes && AllEntriesWritable(entries))
      ensures Step(old(Now()), Event.Record(cidr, ip, source, now, ttl, stored), Now())
      ensures isNew == (cidr !in old(entries))
      ensures entry == Upsert(old(entries), cidr, ip, source, now, ttl)[cidr]
      ensures exists expired, victims ::
                && evicted == expired + victims
                && Evicts(Upsert(old(entries), cidr, ip, source, now, ttl), expired, victims, entries, Truncate(now), maxEntries)
    {
      var seen := Truncate(now);
      var exp := Truncate(seen + ttl);
      if cidr in entries {
        var e := entries[cidr];
        e := e.(lastSeenAt := seen);
        e := e.(expiresAt := exp);
        e := e.(hitCount := e.hitCount + 1);
        entries := entries[cidr := e];
        entry, isNew := e, false;
      } else {
        var e := Entry(ip, cidr, source, seen, exp, seen, 1);
        entries := entries[cidr := e];
        entry, isNew := e, true;
      }
      assert entries == Upsert(old(entries), cidr, ip, source, now, ttl);
      ghost var expired, victims;
      evicted, expired, victims := EnforceLimit(seen);
      stored := PersistLocked(writes);
    }

    /** The write error of a purge is ignored. */
    method Purge(now: int, writes: bool) returns (removed: seq<string>)
      requires Valid()
      modifies this`entries, this`file, this`disk
      ensures Valid() && entries == LivePart(old(entries), now)
      ensures Step(old(Now()), Event.Purge(now, writes && AllEntriesWritable(entries)), Now())
      ensures Distinct(removed) && Members(removed) == old(entries).Keys - entries.Keys
    {
      removed := DropExpired(now);
      if |removed| > 0 {
        assert removed[0] in Members(removed);
        var stored := PersistLocked(writes);
      } else {
        assert Members(removed) == {};
        assert forall k :: k in old(entries).Keys ==> k in entries.Keys || k in Members(removed);
        assert entries == old(entries);
      }
    }

    method Snapshot(now: int) returns (out: seq<Entry>)
      requires Keyed(entries)
      ensures IsSnapshot(out, entries, now) && InOrder(Keys(out))
    {
      out := Listed(LivePart(entries, now));
      IncreasingInOrder(Keys(out));
    }

    /** A signed snapshot; None exactly when some instant of it has no text. */
    method BuildEnvelope(now: int, envelopeTtl: int, secret: string, mac: Mac) returns (env: Option<Envelope>)
      requires Keyed(entries)
      ensures env.Some? ==> Builds(env.value, entries, now, envelopeTtl, secret, mac)
      ensures env == None ==> Unwritable(entries, now, envelopeTtl)
    {
      var issued := Truncate(now);
      var snapshot := Snapshot(issued);
      var unsigned := Envelope(1, issued, Truncate(issued + envelopeTtl), snapshot, "");
      assert unsigned == Unsigned(snapshot, now, envelopeTtl);
      env := Sign(unsigned, secret, mac);
      if env.Some? {
        SignedSnapshotBuilds(snapshot, entries, now, envelopeTtl, secret, mac);
      }
    }
  }

  /** Some instant of the snapshot has no RFC 3339 text. */
  ghost predicate Unwritable(m: Entries, now: int, envelopeTtl: int) {
    exists list :: IsSnapshot(list, m, Truncate(now)) && !Writable(Unsigned(list, now, envelopeTtl))
  }

  function Unsigned(list: seq<Entry>, now: int, envelopeTtl: int): Envelope {
    Envelope(1, Truncate(now), Truncate(Truncate(now) + envelopeTtl), list, "")
  }

  /** `env` is a signed snapshot of `m`, dated `now`. */
  ghost predicate Builds(env: Envelope, m: Entries, now: int, envelopeTtl: int, secret: string, mac: Mac) {
    && IsSnapshot(env.entries, m, Truncate(now))
    && Sign(Unsigned(env.entries, now, envelopeTtl), secret, mac) == Some(env)
  }

  lemma SignedSnapshotBuilds(list: seq<Entry>, m: Entries, now: int, envelopeTtl: int, secret: string, mac: Mac)
    requires IsSnapshot(list, m, Truncate(now)) && Sign(Unsigned(list, now, envelopeTtl), secret, mac).Some?
    ensures Builds(Sign(Unsigned(list, now, envelopeTtl), secret, mac).value, m, now, envelopeTtl, secret, mac)
  {
    SignVerifies(Unsigned(list, now, envelopeTtl), secret, mac);
  }

  function SeenKeys(list: seq<Seen>): seq<string> {
    seq(|list|, i requires 0 <= i < |list| => list[i].key)
  }

  /** Every key of the map once, with its last-seen time. */
  ghost predicate Lists(list: seq<Seen>, m: Entries) {
    && Distinct(list)
    && (forall x :: x in list <==> x.key in m && x.at == m[x.key].lastSeenAt)
  }

  lemma NothingDropped(m: Entries)
    ensures LeastRecent(m, []) && m == m - Members([])
  {
  }

  lemma EvictsAssembled(
      before: Entries, expired: seq<string>, victims: seq<string>, live: Entries, after: Entries, now: int, max: int)
    requires max > 0 && live == LivePart(before, now)
    requires Distinct(expired) && Members(expired) == before.Keys - live.Keys
    requires Distinct(victims) && LeastRecent(live, victims)
    requires |victims| == Excess(|live|, max)
    requires after == live - Members(victims)
    ensures Evicts(before, expired, victims, after, now, max)
  {
    assert Members(victims) <= live.Keys;
    DisjointDistinct(expired, victims);
  }

  lemma DisjointDistinct(a: seq<string>, b: seq<string>)
    requires Distinct(a) && Distinct(b) && Members(a) !! Members(b)
    ensures Distinct(a + b)
  {
    forall i, j | 0 <= i < j < |a + b| ensures (a + b)[i] != (a + b)[j] {
      if i < |a| <= j {
        assert a[i] in Members(a) && b[j - |a|] in Members(b);
      }
    }
  }

  lemma ReorderLists(list: seq<Seen>, sorted: seq<Seen>, m: Entries)
    requires Lists(list, m) && multiset(sorted) == multiset(list)
    ensures Lists(sorted, m) && |sorted| == |list|
  {
    assert |sorted| == |multiset(sorted)| == |list|;
    forall x ensures x in sorted <==> x in list {
      assert x in multiset(sorted) <==> x in multiset(list);
    }
    PermutedDistinct(list, sorted);
  }

  lemma MinusOne(m: Entries, ks: set<string>, k: string)
    ensures m - ks - {k} == m - (ks + {k})
  {
  }

  lemma PrefixMembers(keys: seq<string>, i: nat)
    requires i < |keys|
    ensures keys[..i + 1] == keys[..i] + [keys[i]]
    ensures Members(keys[..i + 1]) == Members(keys[..i]) + {keys[i]}
    ensures Distinct(keys) ==> keys[i] !in Members(keys[..i])
  {
    MembersExtend(keys[..i], keys[i]);
  }

  lemma DropOne(m: Entries, ks: set<string>, k: string)
    requires k in m && k !in ks
    ensures m - ks - {k} == m - (ks + {k})
    ensures |m - ks - {k}| == |m - ks| - 1
  {
    MinusOne(m, ks, k);
    var rest := m - ks;
    MapSize(rest);
    MapSize(rest - {k});
    assert (rest - {k}).Keys == rest.Keys - {k};
  }

  lemma ListedKeys(list: seq<Seen>, m: Entries)
    requires Lists(list, m)
    ensures Distinct(SeenKeys(list))
    ensures forall i :: 0 <= i < |list| ==> SeenKeys(list)[i] in m && list[i].at == m[list[i].key].lastSeenAt
    ensures forall k :: k in m ==> k in SeenKeys(list)
  {
    forall i | 0 <= i < |list| ensures SeenKeys(list)[i] in m && list[i].at == m[list[i].key].lastSeenAt {
      assert list[i] in list;
    }
    forall k | k in m ensures k in SeenKeys(list) {
      assert Seen(k, m[k].lastSeenAt) in list;
      var i :| 0 <= i < |list| && list[i] == Seen(k, m[k].lastSeenAt);
      assert SeenKeys(list)[i] == k;
    }
  }

  lemma ListedInOrder(m: Entries, list: seq<Seen>)
    requires Lists(list, m) && Sorted(list, SeenBefore)
    ensures Distinct(SeenKeys(list)) && forall k :: k in SeenKeys(list) <==> k in m
    ensures forall i, j :: 0 <= i < j < |list| ==>
              m[SeenKeys(list)[i]].lastSeenAt <= m[SeenKeys(list)[j]].lastSeenAt
  {
    ListedKeys(list, m);
    forall i, j | 0 <= i < j < |list| ensures m[SeenKeys(list)[i]].lastSeenAt <= m[SeenKeys(list)[j]].lastSeenAt {
      assert !SeenBefore(list[j], list[i]);
    }
  }

  lemma OldestAreLeastRecent(m: Entries, keys: seq<string>, n: nat)
    requires n <= |keys| && Distinct(keys) && forall k :: k in keys <==> k in m
    requires forall i, j :: 0 <= i < j < |keys| ==> m[keys[i]].lastSeenAt <= m[keys[j]].lastSeenAt
    ensures LeastRecent(m, keys[..n]) && Distinct(keys[..n])
  {
    forall j | 0 <= j < n ensures keys[j] in keys[..n] {
      assert keys[..n][j] == keys[j];
    }
    forall i, k | 0 <= i < n && k in m && k !in Members(keys[..n])
      ensures m[keys[..n][i]].lastSeenAt <= m[k].lastSeenAt
    {
      var j :| 0 <= j < |keys| && keys[j] == k;
    }
  }

  lemma OldestListed(m: Entries, list: seq<Seen>, sorted: seq<Seen>, n: nat)
    requires Lists(list, m) && multiset(sorted) == multiset(list) && Sorted(sorted, SeenBefore) && n <= |list|
    ensures |sorted| == |list| && Distinct(SeenKeys(sorted)) && Members(SeenKeys(sorted)) <= m.Keys
    ensures LeastRecent(m, SeenKeys(sorted)[..n]) && Distinct(SeenKeys(sorted)[..n])
  {
    ReorderLists(list, sorted, m);
    ListedInOrder(m, sorted);
    OldestAreLeastRecent(m, SeenKeys(sorted), n);
  }

  /** Collects the map's values in whatever order it yields them, then sorts. */
  method Listed(m: Entries) returns (out: seq<Entry>)
    requires Keyed(m)
    ensures IsListing(out, m)
  {
    out := [];
    var pending := m.Keys;
    while pending != {}
      invariant pending <= m.Keys
      invariant forall e :: e in out <==> e.cidr in m && e.cidr !in pending && m[e.cidr] == e
      invariant Distinct(out)
      decreases pending
    {
      var k :| k in pending;
      pending := pending - {k};
      out := out + [m[k]];
    }
    var sorted := SortByCidr(out);
    SortedListing(out, sorted);
    out := sorted;
  }

  lemma SortedListing(list: seq<Entry>, sorted: seq<Entry>)
    requires multiset(sorted) == multiset(list) && Sorted(sorted, CidrBefore)
    requires Distinct(list) && forall a, b :: a in list && b in list && a.cidr == b.cidr ==> a == b
    ensures Increasing(Keys(sorted))
    ensures forall e :: e in sorted <==> e in list
  {
    forall e ensures e in sorted <==> e in list {
      assert e in multiset(sorted) <==> e in multiset(list);
    }
    PermutedDistinct(list, sorted);
    forall i, j | 0 <= i < j < |sorted| ensures Less(Keys(sorted)[i], Keys(sorted)[j]) {
      assert !CidrBefore(sorted[j], sorted[i]);
      LessTotal(sorted[i].cidr, sorted[j].cidr);
      assert sorted[i] in list && sorted[j] in list;
    }
  }
}
