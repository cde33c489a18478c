/** Verify a signed envelope, filter it, and publish it: the core that the puller
    and the receiver share. */
module Pipeline {
  import opened Sorting
  import opened Text
  import opened Signer
  import opened Store
  import opened Json
  import opened AtomicFile
  import Ipx

  datatype Params = Params(secret: string, maxEntries: int, allowV4: bool, allowV6: bool)

  datatype Reason =
    | BadSignature
    | UnsupportedVersion(version: int)
    | MissingExpiry
    | EnvelopeExpired(at: int)
    | TooManyEntries(got: nat)

  datatype Outcome =
    | Accepted(kept: seq<Entry>, cidrs: seq<string>)
    | Rejected(reason: Reason)

  /** Why an envelope is refused, the first reason that applies. */
  function Refusal(verified: bool, env: Envelope, p: Params, now: int): Option<Reason> {
    if !verified then Some(BadSignature)
    else if env.version != 1 then Some(UnsupportedVersion(env.version))
    else if env.expiresAt == 0 then Some(MissingExpiry)
    else if env.expiresAt <= now then Some(EnvelopeExpired(env.expiresAt))
    else if |env.entries| > p.maxEntries then Some(TooManyEntries(|env.entries|))
    else None
  }

  /** How a receiver reads one CIDR: its canonical text, if it is well formed and of
      an allowed family. Filtering is the same whatever it does. */
  type Canon = string -> Option<string>

  function CanonFor(p: Params): Canon {
    (s: string) => Ipx.CanonicalCIDR(s, p.allowV4, p.allowV6)
  }

  predicate Keeps(e: Entry, canon: Canon, now: int) {
    Live(e, now) && canon(e.cidr).Some?
  }

  function Canonicalised(e: Entry, canon: Canon): Entry
    requires canon(e.cidr).Some?
  {
    e.(cidr := canon(e.cidr).value)
  }

  /** The entries kept, in their order and as often as they occur. */
  function KeptOf(es: seq<Entry>, canon: Canon, now: int): (r: seq<Entry>)
    ensures |r| <= |es|
  {
    if es == [] then []
    else
      var last := es[|es| - 1];
      var init := KeptOf(es[..|es| - 1], canon, now);
      if Keeps(last, canon, now) then init + [Canonicalised(last, canon)] else init
  }

  /** Exactly the canonical CIDRs of the entries kept, each once, in order. */
  ghost predicate Publishes(cidrs: seq<string>, es: seq<Entry>, canon: Canon, now: int) {
    && Increasing(cidrs)
    && (forall c :: c in cidrs <==> PublishedBy(c, es, canon, now))
  }

  ghost predicate PublishedBy(c: string, es: seq<Entry>, canon: Canon, now: int) {
    exists e :: e in es && Keeps(e, canon, now) && canon(e.cidr).value == c
  }

  // ---------------------------------------------------------------- the list

  /** `sorted` with repetitions dropped. */
  function Deduped(s: seq<string>): (r: seq<string>)
    ensures |r| <= |s|
    ensures s != [] ==> r != [] && r[|r| - 1] == s[|s| - 1]
  {
    if |s| <= 1 then s
    else
      var n := |s| - 1;
      var init := Deduped(s[..n]);
      assert init[|init| - 1] == s[..n][n - 1];
      if s[n] == s[n - 1] then init else init + [s[n]]
  }

  /** dedup writes into the array it is reading: the part already read. */
  method Dedup(a: array<string>) returns (n: nat)
    modifies a
    ensures n <= a.Length
    ensures a[..n] == Deduped(old(a[..]))
  {
    if a.Length == 0 {
      return 0;
    }
    n := 1;
    ghost var was := a[..];
    for i := 1 to a.Length
      invariant 1 <= n <= i
      invariant a[..n] == Deduped(was[..i])
      invariant forall j :: i <= j < a.Length ==> a[j] == was[j]
    {
      DedupedNext(was, i);
      assert a[n - 1] == a[..n][n - 1] == was[i - 1];
      if a[i] != a[n - 1] {
        ghost var done := a[..n];
        a[n] := a[i];
        assert a[..n + 1] == done + [was[i]];
        n := n + 1;
      }
    }
    assert was[..a.Length] == was;
  }

  lemma DedupedNext(s: seq<string>, i: nat)
    requires 1 <= i < |s|
    ensures Deduped(s[..i + 1]) == if s[i] == s[i - 1] then Deduped(s[..i]) else Deduped(s[..i]) + [s[i]]
    ensures Deduped(s[..i]) != [] && Deduped(s[..i])[|Deduped(s[..i])| - 1] == s[i - 1]
  {
    assert s[..i + 1][..i] == s[..i];
  }

  /** sort.Strings. */
  method SortInPlace(a: array<string>)
    modifies a
    ensures a[..] == Sort(old(a[..]), Less)
  {
    var s := Sort(a[..], Less);
    forall i | 0 <= i < a.Length {
      a[i] := s[i];
    }
  }

  lemma {:induction false} DedupedMembers(s: seq<string>, x: string)
    ensures x in Deduped(s) <==> x in s
  {
    if |s| > 1 {
      var n := |s| - 1;
      DedupedMembers(s[..n], x);
      assert s == s[..n] + [s[n]];
      assert s[n - 1] == s[..n][n - 1];
    }
  }

  lemma {:induction false} DedupedIncreasing(s: seq<string>)
    requires Sorted(s, Less)
    ensures Increasing(Deduped(s))
  {
    if |s| > 1 {
      var n := |s| - 1;
      DedupedIncreasing(s[..n]);
      assert s[..n][n - 1] == s[n - 1];
      if s[n] != s[n - 1] {
        assert !Less(s[n], s[n - 1]);
        LessTotal(s[n], s[n - 1]);
        IncreasingAppend(Deduped(s[..n]), s[n]);
      }
    }
  }

  lemma IncreasingAppend(d: seq<string>, x: string)
    requires d != [] && Increasing(d) && Less(d[|d| - 1], x)
    ensures Increasing(d + [x])
  {
    forall i | 0 <= i < |d| ensures Less(d[i], x) {
      if i < |d| - 1 { LessTransitive(d[i], d[|d| - 1], x); }
    }
  }

  /** Sorting and de-duplicating lose no CIDR and leave none twice. */
  lemma SortedDeduped(s: seq<string>)
    ensures Increasing(Deduped(Sort(s, Less)))
    ensures forall x :: x in Deduped(Sort(s, Less)) <==> x in s
  {
    LessOrders();
    SortSorts(s, Less);
    DedupedIncreasing(Sort(s, Less));
    forall x ensures x in Deduped(Sort(s, Less)) <==> x in s {
      DedupedMembers(Sort(s, Less), x);
      SortMembers(s, Less);
    }
  }

  // ---------------------------------------------------------------- filtering

  /** The entry is live, its text is that of a network of an allowed family, and `c` is how
      that network is written. */
  ghost predicate Lists(c: string, e: Entry, p: Params, now: int) {
    var n := Ipx.ParseCIDR(TrimSpace(e.cidr));
    && e.expiresAt > now
    && n.Some? && (if n.value.v4 then p.allowV4 else p.allowV6)
    && c == Ipx.NetText(n.value)
  }

  ghost predicate Listed(c: string, es: seq<Entry>, p: Params, now: int) {
    exists i :: 0 <= i < |es| && Lists(c, es[i], p, now)
  }

  lemma ListedMeans(c: string, es: seq<Entry>, p: Params, now: int)
    ensures PublishedBy(c, es, CanonFor(p), now) <==> Listed(c, es, p, now)
  {
    if e :| e in es && Keeps(e, CanonFor(p), now) && CanonFor(p)(e.cidr).value == c {
      var i :| 0 <= i < |es| && es[i] == e;
      assert Lists(c, es[i], p, now);
    }
    if i :| 0 <= i < |es| && Lists(c, es[i], p, now) {
      assert es[i] in es && Keeps(es[i], CanonFor(p), now) && CanonFor(p)(es[i].cidr).value == c;
    }
  }

  /** What is published, in plain terms: in the order of dictionaries and without
      repetitions, the written networks of the live entries of allowed families. */
  lemma PublishesMeans(cidrs: seq<string>, es: seq<Entry>, p: Params, now: int)
    ensures Publishes(cidrs, es, CanonFor(p), now) <==> InOrder(cidrs) && forall c :: c in cidrs <==> Listed(c, es, p, now)
  {
    hide Increasing, InOrder, PublishedBy, Listed;
    IncreasingInOrder(cidrs);
    forall c ensures PublishedBy(c, es, CanonFor(p), now) <==> Listed(c, es, p, now) {
      ListedMeans(c, es, p, now);
    }
  }

  /** `at` are the places of the entries that are listed, in order, and `kept` those entries
      with their CIDRs written canonically. */
  ghost predicate KeptAt(at: seq<nat>, es: seq<Entry>, kept: seq<Entry>, p: Params, now: int) {
    && |at| == |kept|
    && (forall i, j :: 0 <= i < j < |at| ==> at[i] < at[j])
    && (forall i :: 0 <= i < |at| ==> at[i] < |es| && Lists(kept[i].cidr, es[at[i]], p, now))
    && (forall i :: 0 <= i < |at| ==> kept[i] == es[at[i]].(cidr := kept[i].cidr))
    && (forall k :: 0 <= k < |es| && Lists(Canonic(es[k]), es[k], p, now) ==> k in at)
  }

  ghost function Canonic(e: Entry): string {
    var n := Ipx.ParseCIDR(TrimSpace(e.cidr));
    if n == None then "" else Ipx.NetText(n.value)
  }

  lemma KeepsMeans(e: Entry, p: Params, now: int)
    ensures Keeps(e, CanonFor(p), now) <==> Lists(Canonic(e), e, p, now)
    ensures Keeps(e, CanonFor(p), now) ==> Canonicalised(e, CanonFor(p)) == e.(cidr := Canonic(e))
  {
  }

  /** The entries kept are those, each once, in their order, and otherwise unchanged. */
  lemma {:induction false} KeptMeans(es: seq<Entry>, p: Params, now: int) returns (at: seq<nat>)
    ensures KeptAt(at, es, KeptOf(es, CanonFor(p), now), p, now)
  {
    hide KeptAt, Keeps, Canonicalised, Canonic;
    if es == [] {
      at := [];
      NothingKept(p, now);
    } else {
      var n := |es| - 1;
      var init := KeptMeans(es[..n], p, now);
      KeepsMeans(es[n], p, now);
      at := if Keeps(es[n], CanonFor(p), now) then init + [n] else init;
      KeptAtNext(init, es[..n], KeptOf(es[..n], CanonFor(p), now), es[n], p, now);
      assert es == es[..n] + [es[n]];
    }
  }

  lemma NothingKept(p: Params, now: int)
    ensures KeptAt([], [], [], p, now)
  {
  }

  lemma KeptAtNext(at: seq<nat>, es: seq<Entry>, kept: seq<Entry>, e: Entry, p: Params, now: int)
    requires KeptAt(at, es, kept, p, now)
    ensures Lists(Canonic(e), e, p, now) ==>
              KeptAt(at + [|es|], es + [e], kept + [e.(cidr := Canonic(e))], p, now)
    ensures !Lists(Canonic(e), e, p, now) ==> KeptAt(at, es + [e], kept, p, now)
  {
    hide Lists, Canonic;
    forall k | 0 <= k < |es + [e]| && Lists(Canonic((es + [e])[k]), (es + [e])[k], p, now)
      ensures k in (if Lists(Canonic(e), e, p, now) then at + [|es|] else at)
    {
      assert k < |es| ==> (es + [e])[k] == es[k];
    }
  }

  /** Verifies and filters; writes nothing. An envelope is accepted exactly if it is signed,
      of version 1, has not expired and is not too long. */
  method VerifyAndFilter(env: Envelope, p: Params, mac: Mac, now: int) returns (r: Outcome)
    ensures r.Accepted? <==>
            && Verify(env, p.secret, mac) && env.version == 1
            && env.expiresAt != 0 && env.expiresAt > now && |env.entries| <= p.maxEntries
    ensures r.Accepted? ==> InOrder(r.cidrs) && forall c :: c in r.cidrs <==> Listed(c, env.entries, p, now)
    ensures r.Accepted? ==> exists at :: KeptAt(at, env.entries, r.kept, p, now)
    ensures Refusal(Verify(env, p.secret, mac), env, p, now) == if r.Rejected? then Some(r.reason) else None
    ensures r.Accepted? ==> r.kept == KeptOf(env.entries, CanonFor(p), now)
    ensures r.Accepted? ==> Publishes(r.cidrs, env.entries, CanonFor(p), now)
  {
    if !Verify(env, p.secret, mac) {
      return Rejected(BadSignature);
    }
    if env.version != 1 {
      return Rejected(UnsupportedVersion(env.version));
    }
    if env.expiresAt == 0 {
      return Rejected(MissingExpiry);
    }
    if !(env.expiresAt > now) {
      return Rejected(EnvelopeExpired(env.expiresAt));
    }
    if |env.entries| > p.maxEntries {
      return Rejected(TooManyEntries(|env.entries|));
    }
    var kept, cidrs := Filter(env.entries, CanonFor(p), now);
    cidrs := SortAndDedup(cidrs);
    KeptPublishes(env.entries, CanonFor(p), now, cidrs);
    PublishesMeans(cidrs, env.entries, p, now);
    ghost var at := KeptMeans(env.entries, p, now);
    r := Accepted(kept, cidrs);
  }

  /** Which reason is given: the first in this order that applies. */
  lemma RefusedBecause(verified: bool, env: Envelope, p: Params, now: int)
    ensures var r := Refusal(verified, env, p, now);
            && (r == Some(BadSignature) <==> !verified)
            && (r == Some(UnsupportedVersion(env.version)) <==> verified && env.version != 1)
            && (r == Some(MissingExpiry) <==> verified && env.version == 1 && env.expiresAt == 0)
            && (r == Some(EnvelopeExpired(env.expiresAt)) <==>
                  verified && env.version == 1 && env.expiresAt != 0 && env.expiresAt <= now)
            && (r == Some(TooManyEntries(|env.entries|)) <==>
                  && verified && env.version == 1 && env.expiresAt != 0 && env.expiresAt > now
                  && |env.entries| > p.maxEntries)
            && (r == None <==>
                  && verified && env.version == 1 && env.expiresAt != 0 && env.expiresAt > now
                  && |env.entries| <= p.maxEntries)
  {
  }

  method Filter(es: seq<Entry>, canon: Canon, now: int) returns (kept: seq<Entry>, cidrs: seq<string>)
    ensures kept == KeptOf(es, canon, now)
    ensures cidrs == Keys(kept)
  {
    kept, cidrs := [], [];
    for i := 0 to |es|
      invariant kept == KeptOf(es[..i], canon, now)
      invariant cidrs == Keys(kept)
    {
      var e := es[i];
      KeptNext(es[..i], e, canon, now);
      assert es[..i + 1] == es[..i] + [e];
      if !(e.expiresAt > now) {
        continue;
      }
      var c := canon(e.cidr);
      if c == None {
        continue;
      }
      e := e.(cidr := c.value);
      assert Keys(kept + [e]) == Keys(kept) + [e.cidr];
      kept := kept + [e];
      cidrs := cidrs + [c.value];
    }
    assert es[..|es|] == es;
  }

  lemma KeptNext(es: seq<Entry>, e: Entry, canon: Canon, now: int)
    ensures KeptOf(es + [e], canon, now) ==
            KeptOf(es, canon, now) + (if Keeps(e, canon, now) then [Canonicalised(e, canon)] else [])
  {
    assert (es + [e])[..|es|] == es;
  }

  /** sort.Strings, then dedup, on the slice of canonical CIDRs. */
  method SortAndDedup(cidrs: seq<string>) returns (r: seq<string>)
    ensures Increasing(r)
    ensures forall x :: x in r <==> x in cidrs
  {
    var a := new string[|cidrs|](i requires 0 <= i < |cidrs| => cidrs[i]);
    assert a[..] == cidrs;
    SortInPlace(a);
    var n := Dedup(a);
    SortedDeduped(cidrs);
    r := a[..n];
  }

  lemma {:induction false} KeptMembers(es: seq<Entry>, canon: Canon, now: int, c: string)
    ensures c in Keys(KeptOf(es, canon, now)) <==> PublishedBy(c, es, canon, now)
  {
    if es != [] {
      var n := |es| - 1;
      var init := KeptOf(es[..n], canon, now);
      KeptMembers(es[..n], canon, now, c);
      assert es == es[..n] + [es[n]];
      if Keeps(es[n], canon, now) {
        assert Keys(init + [Canonicalised(es[n], canon)]) == Keys(init) + [canon(es[n].cidr).value];
      }
    }
  }

  lemma KeptPublishes(es: seq<Entry>, canon: Canon, now: int, cidrs: seq<string>)
    requires Increasing(cidrs)
    requires forall c :: c in cidrs <==> c in Keys(KeptOf(es, canon, now))
    ensures Publishes(cidrs, es, canon, now)
  {
    forall c ensures c in cidrs <==> PublishedBy(c, es, canon, now) {
      KeptMembers(es, canon, now, c);
    }
  }

  // ---------------------------------------------------------------- properties

  /** Whatever is published is determined by the entries, the families and the
      time alone. */
  lemma PublishedUnique(a: seq<string>, b: seq<string>, es: seq<Entry>, canon: Canon, now: int)
    requires Publishes(a, es, canon, now) && Publishes(b, es, canon, now)
    ensures a == b
  {
    IncreasingUnique(a, b);
  }

  /** Filtering looks at one entry at a time: it keeps order and multiplicity. */
  lemma {:induction false} KeptAppend(a: seq<Entry>, b: seq<Entry>, canon: Canon, now: int)
    ensures KeptOf(a + b, canon, now) == KeptOf(a, canon, now) + KeptOf(b, canon, now)
  {
    if b == [] {
      assert a + b == a;
    } else {
      hide KeptOf, Keeps, Canonicalised;
      var init, last := b[..|b| - 1], b[|b| - 1];
      KeptAppend(a, init, canon, now);
      assert a + b == (a + init) + [last] && b == init + [last];
      KeptNext(a + init, last, canon, now);
      KeptNext(init, last, canon, now);
    }
  }

  /** |CIDRs| <= |Kept| <= |Entries| <= MaxEntries. */
  lemma AcceptedSizes(verified: bool, env: Envelope, p: Params, now: int, cidrs: seq<string>)
    requires Refusal(verified, env, p, now) == None && Publishes(cidrs, env.entries, CanonFor(p), now)
    ensures |cidrs| <= |KeptOf(env.entries, CanonFor(p), now)| <= |env.entries| <= p.maxEntries
  {
    PublishedSizes(env.entries, CanonFor(p), now, cidrs);
  }

  lemma PublishedSizes(es: seq<Entry>, canon: Canon, now: int, cidrs: seq<string>)
    requires Publishes(cidrs, es, canon, now)
    ensures |cidrs| <= |KeptOf(es, canon, now)|
  {
    var kept := Keys(KeptOf(es, canon, now));
    forall c | c in cidrs ensures c in kept {
      KeptMembers(es, canon, now, c);
    }
    IncreasingDistinct(cidrs);
    DistinctWithin(cidrs, kept);
  }

  lemma {:induction false} DistinctWithin(a: seq<string>, b: seq<string>)
    requires Distinct(a) && forall x :: x in a ==> x in b
    ensures |a| <= |b|
  {
    MembersCount(a);
    assert Members(a) <= Members(b);
    SubsetSize(Members(a), Members(b));
    MembersAtMost(b);
  }

  lemma {:induction false} MembersAtMost(s: seq<string>)
    ensures |Members(s)| <= |s|
  {
    if s != [] {
      var n := |s| - 1;
      MembersAtMost(s[..n]);
      assert s == s[..n] + [s[n]];
      MembersExtend(s[..n], s[n]);
    }
  }

  // ---------------------------------------------------------------- allow.txt

  /** One CIDR per line. */
  function AllowText(cidrs: seq<string>): string {
    Join(cidrs, '\n') + (if |cidrs| > 0 then "\n" else "")
  }

  /** The lines of the file are the CIDRs, and only a complete file ends with the
      end of its last line. */
  lemma AllowTextLines(cidrs: seq<string>)
    requires forall c :: c in cidrs ==> '\n' !in c
    ensures Split(AllowText(cidrs), '\n') == cidrs + [""]
  {
    if cidrs != [] {
      SplitJoin(cidrs, '\n');
      SplitAppend(Join(cidrs, '\n'), '\n', "");
      assert AllowText(cidrs) == Join(cidrs, '\n') + ['\n'] + "";
    }
  }

  lemma PublishedOneLine(cidrs: seq<string>, es: seq<Entry>, p: Params, now: int)
    requires Publishes(cidrs, es, CanonFor(p), now)
    ensures forall c :: c in cidrs ==> '\n' !in c
  {
    forall c | c in cidrs ensures '\n' !in c {
      var e :| e in es && Keeps(e, CanonFor(p), now) && CanonFor(p)(e.cidr).value == c;
      CanonicalOneLine(e.cidr, p);
    }
  }

  lemma CanonicalOneLine(s: string, p: Params)
    requires CanonFor(p)(s).Some?
    ensures '\n' !in CanonFor(p)(s).value
  {
    Ipx.NetTextChars(Ipx.ParseCIDR(TrimSpace(s)).value, '\n');
  }

  // ---------------------------------------------------------------- outputs

  /** The debug record written before allow.txt. */
  function StateValue(pulledAt: string, source: string, kept: seq<Entry>): Value
    requires WritableEntries(kept)
  {
    Obj([Field("pulled_at", Str(pulledAt)), Field("source_url", Str(source)),
         Field("count", Num(|kept|)), Field("entries", Arr(EntryValues(kept)))])
  }

  /** The state record reads back: when, from where, how many entries, and which. */
  lemma {:induction false} StateReadsBack(pulledAt: string, source: string, kept: seq<Entry>)
    requires WritableEntries(kept)
    ensures var v := Read(Indented(StateValue(pulledAt, source, kept)));
            && v.Some? && v.value.Obj?
            && Lookup(v.value.fields, "pulled_at") == Some(Str(pulledAt))
            && Lookup(v.value.fields, "source_url") == Some(Str(source))
            && Lookup(v.value.fields, "count") == Some(Num(|kept|))
            && EntriesField(v.value.fields, "entries") == Some(kept)
  {
    hide Read, Indented, EntriesField, Lookup, EntryValues, DistinctNames;
    var v := StateValue(pulledAt, source, kept);
    RoundTrip(v);
    StateNamesDistinct(v.fields);
    LookupAt(v.fields, 0);
    LookupAt(v.fields, 1);
    LookupAt(v.fields, 2);
    ReadEntriesField(v.fields, 3, kept);
  }

  lemma StateNamesDistinct(f: seq<Field>)
    requires |f| == 4 && f[0].name == "pulled_at" && f[1].name == "source_url"
    requires f[2].name == "count" && f[3].name == "entries"
    ensures DistinctNames(f)
  {
    assert f[0].name[0] == 'p' && f[1].name[0] == 's' && f[2].name[0] == 'c' && f[3].name[0] == 'e';
  }

  ghost predicate HoldsState(files: Files, at: Path, pulledAt: string, source: string, kept: seq<Entry>) {
    && WritableEntries(kept)
    && at in files && files[at] == Indented(StateValue(pulledAt, source, kept))
  }

  method WriteState(fs: FileSystem, pulledAt: string, source: string, kept: seq<Entry>, at: Path) returns (ok: bool)
    requires fs.Valid() && at.Named?
    modifies fs
    ensures fs.Valid()
    ensures ok <==> WritableEntries(kept) && NoFault(fs.fails, old(fs.ops), 7)
    ensures ok ==> fs.files == old(fs.files)[at := Indented(StateValue(pulledAt, source, kept))] && fs.ops == old(fs.ops) + 8
    ensures Frame(old(fs.files), fs.files, if ok then {at} else {})
  {
    if !WritableEntries(kept) {
      return false;
    }
    ok := fs.WriteWithDir(at, Indented(StateValue(pulledAt, source, kept)));
  }

  /** No operation of WriteOutputs fails: of the state record's, if it is written, and of
      allow.txt's. */
  ghost predicate OutputsSucceed(fails: nat -> bool, from: nat, kept: seq<Entry>, withState: bool) {
    if withState then WritableEntries(kept) && NoFault(fails, from, 7) && NoFault(fails, from + 8, 7)
    else NoFault(fails, from, 7)
  }

  /** The state record, if it is written, and allow.txt; nothing else is left behind. */
  ghost function Outputs(
      files: Files, pulledAt: string, source: string, kept: seq<Entry>, cidrs: seq<string>,
      statePath: Option<Path>, allowPath: Path): Files
    requires statePath.Some? ==> WritableEntries(kept)
  {
    if statePath == None then files[allowPath := AllowText(cidrs)]
    else files[statePath.value := Indented(StateValue(pulledAt, source, kept))][allowPath := AllowText(cidrs)]
  }

  function StateFile(statePath: Option<Path>): set<Path> {
    if statePath.Some? then {statePath.value} else {}
  }

  /** Writes the state record, if a path for it is set, and then allow.txt, last:
      success means that these and no other files have changed, any error that allow.txt
      has not, and it succeeds exactly when no operation fails. */
  method WriteOutputs(
      fs: FileSystem, pulledAt: string, source: string, kept: seq<Entry>, cidrs: seq<string>,
      statePath: Option<Path>, allowPath: Path) returns (ok: bool)
    requires fs.Valid() && allowPath.Named? && (statePath.Some? ==> statePath.value.Named?)
    requires statePath != Some(allowPath)
    modifies fs
    ensures fs.Valid()
    ensures ok <==> OutputsSucceed(fs.fails, old(fs.ops), kept, statePath.Some?)
    ensures ok ==> fs.files == Outputs(old(fs.files), pulledAt, source, kept, cidrs, statePath, allowPath)
    ensures statePath.Some? ==>
              || (!ok && Frame(old(fs.files), fs.files, {}))
              || HoldsState(fs.files, statePath.value, pulledAt, source, kept)
    ensures Frame(old(fs.files), fs.files, StateFile(statePath) + if ok then {allowPath} else {})
  {
    if statePath == None {
      ok := WriteAllow(fs, cidrs, allowPath);
    } else {
      ok := WriteStateAndAllow(fs, pulledAt, source, kept, cidrs, statePath.value, allowPath);
    }
  }

  method WriteStateAndAllow(
      fs: FileSystem, pulledAt: string, source: string, kept: seq<Entry>, cidrs: seq<string>, at: Path, allowPath: Path)
    returns (ok: bool)
    requires fs.Valid() && allowPath.Named? && at.Named? && at != allowPath
    modifies fs
    ensures fs.Valid()
    ensures ok <==> OutputsSucceed(fs.fails, old(fs.ops), kept, true)
    ensures ok ==> fs.files == Outputs(old(fs.files), pulledAt, source, kept, cidrs, Some(at), allowPath)
    ensures (!ok && Frame(old(fs.files), fs.files, {})) || HoldsState(fs.files, at, pulledAt, source, kept)
    ensures Frame(old(fs.files), fs.files, {at} + if ok then {allowPath} else {})
  {
    ok := WriteState(fs, pulledAt, source, kept, at);
    if !ok {
      return;
    }
    ghost var before, between := old(fs.files), fs.files;
    ok := WriteAllow(fs, cidrs, allowPath);
    StateKept(between, fs.files, at, allowPath, pulledAt, source, kept);
    FrameThen(before, between, fs.files, {at}, if ok then {allowPath} else {});
  }

  method WriteAllow(fs: FileSystem, cidrs: seq<string>, allowPath: Path) returns (ok: bool)
    requires fs.Valid() && allowPath.Named?
    modifies fs
    ensures fs.Valid()
    ensures ok <==> NoFault(fs.fails, old(fs.ops), 7)
    ensures ok ==> fs.files == old(fs.files)[allowPath := AllowText(cidrs)]
    ensures Frame(old(fs.files), fs.files, if ok then {allowPath} else {})
  {
    var txt := Join(cidrs, '\n');
    if |cidrs| > 0 {
      txt := txt + "\n";
    }
    assert txt == AllowText(cidrs);
    ok := fs.WriteWithDir(allowPath, txt);
  }

  lemma StateKept(
      before: Files, after: Files, at: Path, changed: Path, pulledAt: string, source: string, kept: seq<Entry>)
    requires Frame(before, after, {changed}) && at != changed
    ensures HoldsState(before, at, pulledAt, source, kept) ==> HoldsState(after, at, pulledAt, source, kept)
  {
  }

  /** What a verified envelope keeps can always be written to the state record. */
  lemma {:induction false} KeptWritable(es: seq<Entry>, canon: Canon, now: int)
    requires WritableEntries(es)
    ensures WritableEntries(KeptOf(es, canon, now))
  {
    WritableMembers(es);
    AllWritable(KeptOf(es, canon, now)) by {
      forall e | e in KeptOf(es, canon, now) ensures WritableEntry(e) {
        var o := KeptFrom(es, canon, now, e);
      }
    }
  }

  lemma {:induction false} KeptFrom(es: seq<Entry>, canon: Canon, now: int, e: Entry) returns (o: Entry)
    requires e in KeptOf(es, canon, now)
    ensures o in es && canon(o.cidr).Some? && e == Canonicalised(o, canon)
  {
    var n := |es| - 1;
    if e in KeptOf(es[..n], canon, now) {
      o := KeptFrom(es[..n], canon, now, e);
    } else {
      o := es[n];
    }
  }
}
