# The allowlist's life, proved

The system records the source address of an authenticated request as a CIDR with a time to live,
keeps the records in a bounded store, signs snapshots of it, and delivers them by push over SSH or
by pull over HTTP. A receiver verifies an envelope, filters it, and publishes the result as
`allow.txt`; the puller can also turn it into an nftables guard. This project models that life from
the request to the packet and proves what each part keeps, over every run where runs matter.

How the parts fit together:

- `Store` is the store as a class: a map, the text of its file, and methods that delete while ranging
  over the map. `Lru` shows that over any run it holds the most recent CIDRs of the history of calls.
- `Json`, `Rfc3339` and `Signer` are the envelope: its text, the signed bytes and the signature.
- `IpText` and `Ipx` are addresses and CIDRs as bits and as text, `ClientIp` which address a request
  is taken to come from.
- `Pipeline`, `AtomicFile`, `Receive` and `Puller` are the receiving side; `Publication` interleaves
  any number of receive processes at single file operations, and `PublicationRuns` shows that they
  finish and why the premises are needed.
- `Delivery` is the whole protocol: one store, a ledger of signed envelopes that may be lost,
  repeated, delayed or reordered, and several receivers. `EndToEnd` goes from the requests that fill
  the store to the list a receiver publishes; `Interleaving` takes the receivers of `Delivery` apart
  into the processes of `Publication`.
- `NftGuard` compiles a policy to an ordered rule chain and its text; `NftScript` reads the text back.
- `RateLimit`, `Redact`, `Push` and `Server` are the request path around the store.
- `Sorting`, `Text` and `Clock` are shared.

Premises, each stated where it is used:

- The store's clock readings do not go back between lock acquisitions (`Store.Monotone`). The server
  reads the clock before it takes the store's lock, so this is a premise and not a fact. For the
  limiter `RateLimit.AloneExactly` says exactly which readings it needs.
- The MAC is an arbitrary function of key and message. Unforgeability is the ledger premise
  `Delivery.Unforged`: what verifies has the bytes of something signed.
- Temp file names are never used twice (`Publication.Unique`).
  `PublicationRuns.ReusedNamePublishesPart` is a run that goes wrong otherwise.
- The paths of a receiver are distinct, as `internal/config/config.go:587-593` demands;
  `PublicationRuns.CollidingPathsClobber` is a run that goes wrong otherwise.
- The pushes are the only work that takes time; each takes at most its timeout and the two seconds
  of `WaitDelay`.
- The run theorems of `Lru` keep one limit and one TTL and start empty, because loading a file does
  not enforce the limit.
- `sort.Slice` and `sort.Strings` are known by their contracts. `sort.Slice` is not stable, so callers
  know only that the result is sorted and has the same elements.

Where the code and its own words disagree, the code is followed:

- `internal/ipx/ipx.go:58-61` promises a canonical form. For an IPv4-mapped IPv6 network the form is
  a dotted quad with an IPv6 prefix length, which does not parse again (`Ipx.NetTextReadsBack`,
  `NftGuard.MappedEntryExists`). What the server itself records is never of this kind
  (`Ipx.RequestCidrCanonical`).
- `cmd/puller/puller.go:106-108` says that any failure leaves the outputs alone. An error from applying
  the guard comes after the new `allow.txt` is in place; `Puller.ErrorAfterReplacement` says exactly
  when that can happen.
- `cmd/auth-server/push.go:108-110` says that a secret can never leak. A secret that the
  placeholder can complete survives its own pass (`Redact.SurvivesOwnPass` says exactly which ones),
  and the password, which is replaced last, survives all three (`Redact.PasswordExactly`);
  `Redact.PasswordSurvives` gives passwords that configuration accepts. A secret without angle
  brackets is always gone (`Redact.ServerSecretsRedacted`).
- The same comment for the two secrets that others follow: `Redact.HmacExactly` and
  `Redact.TokenExactly`.
- `internal/store/store.go:79-82` says that a refreshed expiry survives a restart. When the write
  fails it does not, until the entry expires (`Store.RestartAgreesExactly`).
- The entry just recorded can itself be evicted when times are equal in seconds;
  `Store.SurvivesExactly` says exactly when it is safe.

## Model

| member | source | states |
|---|---|---|
| `Store.Open` | internal/store/store.go:33-70 | there is a store exactly when the directory can be made and the file is missing or reads as JSON; it then holds what the rows of the file say, a later row replacing an earlier one of the same CIDR, and a non-positive limit becomes 200 |
| `Store.Reopen` | internal/store/store.go:33-70 | a store reopened on the file text of another always opens, and is a `Restart` step of it |
| `Store.Store.constructor` | internal/store/store.go:53-70 | rows are loaded one after the other, the last of a CIDR deciding |
| `Store.FileRoundTrip` | internal/store/store.go:206-220 | the JSON text of entries.json reads back as the rows that were written |
| `Store.FileNames` | internal/store/store.go:206-220 | the file is the indented text of its rows under the name entries |
| `Store.Store.Record` | internal/store/store.go:83-117 | the new memory and file are one `Record` step: the entry is added or refreshed with times in whole seconds, then eviction, then the write; returns the entry, whether it is new, what was evicted, and whether the file was written, which is exactly when the write goes through and every instant has a text |
| `Store.Lifetime` | internal/store/store.go:83-117 | a recorded CIDR is in the snapshots for one TTL from the second of its Record, to whole seconds, and in none later; for a TTL in whole seconds, exactly while `t` is less than that second plus the TTL |
| `Store.RecordStores` | internal/store/store.go:87-108 | what a Record that keeps its entry stores: of a known CIDR the time, the expiry and one more hit, of a new one the address, the source and the same time for creation |
| `Store.Store.EnforceLimit` | internal/store/store.go:119-146 | for any map order and any order among equal times: every expired entry goes, then exactly as many live ones as exceed the limit, least recently seen first |
| `Store.Store.DropExpired` | internal/store/store.go:119-128 | deleting while ranging over the map removes exactly the expired entries and reports each once |
| `Store.Store.EvictOldest` | internal/store/store.go:129-146 | the victims are the required number of least recently seen entries; nothing else changes |
| `Store.Store.Purge` | internal/store/store.go:150-165 | exactly the live entries stay, the removed CIDRs are reported once each, and a failed write is ignored |
| `Store.Store.Snapshot` | internal/store/store.go:169-181 | the live entries, ordered by CIDR, whatever order the map yields them in |
| `Store.Store.BuildEnvelope` | internal/store/store.go:192-204 | a signed version 1 envelope of the snapshot at the truncated time, expiring after the TTL; none only if an instant has no RFC 3339 text |
| `Store.Store.PersistLocked` | internal/store/store.go:206-220 | it succeeds exactly when the write does and every instant has a text; the text left in the file then reads as the sorted listing of memory, and otherwise the file is as it was |
| `Store.EvictionConserves` | internal/store/store.go:119-146 | the keys before are the disjoint union of the keys left and the keys reported, each reported once; survivors are live, unchanged, as many as fit, and seen no earlier than any victim |
| `Store.RecordedSurvives` | internal/store/store.go:87-146 | in a store within its limit, with a TTL of at least a second, the recorded entry survives whenever some other live entry was last seen strictly earlier |
| `Store.SurvivesExactly` | internal/store/store.go:83-146 | the recorded entry is sure to survive if and only if the TTL is at least a second and there is room or a strictly older live entry |
| `Store.ListingUnique` | internal/store/store.go:169-181 | a map has exactly one listing, so what is signed does not depend on map order or on the unstable sort |
| `Store.LoadListing` | internal/store/store.go:53-70 | loading the rows that were persisted gives back the same map |
| `Store.LoadListMeans` | internal/store/store.go:53-70 | of several rows of one CIDR the last is loaded, and nothing that no row names |
| `Store.DiskCoversMemory` | internal/store/store.go:150-220 | in every run whose last Record was written, the file holds all of memory and beyond it only expired entries, even when purges failed to write |
| `Store.CrashRestartAgreement` | internal/store/store.go:53-70 | after every such run, every later snapshot after a restart equals the one memory would have given |
| `Store.UnsettledRestartLoses` | internal/store/store.go:112-115 | a run in which the write of a Record failed and a restart does lose a live entry |
| `Store.RestartAgreesExactly` | internal/store/store.go:53-117 | where the last Record is the one that was not written: a restart changes nothing that is live at a time if and only if the Record's entry has expired by then, or was evicted by the Record itself, or a purge was written or a restart happened since |
| `Store.RestartAgreesAfterMany` | internal/store/store.go:53-117 | the same if and only if for the last of any number of unwritten Records that was kept, where the file has no entry of its CIDR seen in the same second |
| `Lru.RestartShowsUntilExpiry` | internal/store/store.go:53-146 | the same from a run of calls alone, with one TTL and from an empty store |
| `Lru.LruOverHistory` | internal/store/store.go:83-165 | after any run of Record, Purge, failed writes and restarts from an empty store, the live entries are the most recent `max` of the CIDRs recorded less than the TTL ago, counted in whole seconds on the history of calls alone |
| `Lru.WithinLimit` | internal/store/store.go:119-146 | in every such run memory, and the file once written, stay within the limit |
| `Lru.RecordKeepsMissing` | internal/store/store.go:83-146 | a Record keeps: a recent CIDR is missing only while the store is full of entries at least as recent |
| `Lru.InvAt` | internal/store/store.go:83-220 | the invariant of memory and file at every point of every run |
| `Lru.TieMayEvictRecorded` | internal/store/store.go:130-146 | with two Records in one second the entry just recorded can be the victim |
| `Json.RoundTrip` | internal/signer/signer.go:48-55 | what the JSON writer produces, compact or indented, reads back as the value that was written |
| `Json.LexRender` | internal/signer/signer.go:48-55 | writing tokens with any blanks between them and reading them again loses nothing |
| `Json.ReadExactly` | internal/signer/signer.go:19-36 | a text is read as a value exactly when its tokens are those of the value, so nothing is skipped or taken for something else |
| `Json.CompactIsPlain` | internal/signer/signer.go:48-55 | the compact text is the value written out directly, member by member |
| `Json.IndentedIsPretty` | internal/signer/signer.go:48-55 | the indented text is the value written out on lines of its own |
| `Rfc3339.FormatRoundTrip` | internal/signer/signer.go:19-27 | every instant with a year from 0 to 9999 reads back from its RFC 3339 text, to the nanosecond |
| `Rfc3339.DateRoundTrip` | internal/signer/signer.go:19-27 | the calendar date of a day number determines the day |
| `Rfc3339.NextDay` | internal/signer/signer.go:19-27 | dates go from day to day by the lengths of the months and the leap year rule |
| `Rfc3339.FormatExamples` | internal/signer/signer.go:19-27 | the text of Go's zero time, which fixes the calendar, and of an instant with a part in every place |
| `Rfc3339.WritableMeans` | internal/signer/signer.go:19-27 | an instant can be written exactly from the first day of year 0 to the last of year 9999, in nanoseconds |
| `Text.IntTextMeans` | internal/signer/signer.go:19-27 | a decimal number has a minus sign exactly when it is negative, no zero in front, and reads back |
| `Signer.EnvelopeRoundTrip` | internal/signer/signer.go:30-36 | an envelope reads back from its JSON value, field by field |
| `Signer.CanonicalInjective` | internal/signer/signer.go:38-55 | two envelopes with the same signed bytes agree in everything but the signature |
| `Signer.PayloadText` | internal/signer/signer.go:38-55 | the signed bytes: version, dates and entries under their names and in their order |
| `Signer.EnvelopeText` | internal/signer/signer.go:19-36 | the text that is sent: the same with the signature as the last member |
| `Signer.SignatureText` | internal/signer/signer.go:57-68 | the signature is the MAC of the signed bytes under the secret, in lower-case hexadecimal digits |
| `Signer.SignVerifies` | internal/signer/signer.go:57-87 | signing changes only the signature, and what it produces verifies |
| `Signer.SignedEnvelopeTravels` | cmd/auth-server/export.go:14-35 | a signed envelope sent compact or indented is decoded as itself and verifies |
| `Signer.HexRoundTrip` | internal/signer/signer.go:66-86 | hexadecimal text of a MAC reads back as the MAC |
| `Signer.TamperedRejected` | internal/signer/signer.go:70-87 | where the MAC tells two messages apart, an envelope with another one's signature is rejected |
| `IpText.RoundTrip4` | internal/ipx/ipx.go:37-56 | dotted-quad text reads back as the address |
| `IpText.RoundTrip6` | internal/ipx/ipx.go:37-56 | the text of eight groups, with the longest zero run compressed, reads back as the groups |
| `IpText.Print6Shortens` | internal/ipx/ipx.go:37-56 | the longest run of two or more zero groups, the first of equal ones, gives way to the double colon |
| `Ipx.QuadExample` | internal/ipx/ipx.go:37-56 | 192.0.2.1 as text |
| `Ipx.GroupsExample` | internal/ipx/ipx.go:37-56 | 2001:db8::1 as text |
| `Ipx.NetTextReadsBack` | internal/ipx/ipx.go:62-81 | the canonical text of a network reads back as that network if and only if it is not an IPv4-mapped one; otherwise nothing reads it |
| `Ipx.CanonicalIdempotent` | internal/ipx/ipx.go:62-81 | canonicalising twice is canonicalising once, exactly outside the IPv4-mapped case; there the second time is refused |
| `Ipx.SameTextIffSameAddresses` | internal/ipx/ipx.go:62-81 | two accepted texts get the same canonical text if and only if they denote the same set of addresses |
| `Ipx.SameAddressesSameNet` | internal/ipx/ipx.go:62-81 | networks with the same addresses are the same network |
| `Ipx.SamePrefix` | internal/ipx/ipx.go:62-81 | the network of an address holds exactly the addresses with the same leading bits |
| `Ipx.MappedPrefixLong` | internal/ipx/ipx.go:62-81 | a mapped network has a prefix of at least 96 |
| `Ipx.RequestDecided` | internal/ipx/ipx.go:37-56 | a request gets a CIDR if and only if it has an address of an allowed family; which refusal is given otherwise |
| `Ipx.RequestCidrCanonical` | internal/ipx/ipx.go:37-56 | what is recorded for a request is the canonical text of a readable network, of the right length and an allowed family, that contains the requester |
| `Pipeline.VerifyAndFilter` | internal/pipeline/pipeline.go:65-115 | accepts exactly what is signed, of version 1, not expired and not too long; publishes, in dictionary order and without repetition, exactly the written networks of live entries of allowed families, and keeps those entries in their order |
| `Pipeline.RefusedBecause` | internal/pipeline/pipeline.go:65-83 | each reason is given exactly when it is the first that applies |
| `Pipeline.PublishesMeans` | internal/pipeline/pipeline.go:86-114 | what it is to publish a list, without the functions that compute it |
| `Pipeline.StateReadsBack` | internal/pipeline/pipeline.go:117-139 | the state record reads back: when, from where, how many, and which entries |
| `Pipeline.Filter` | internal/pipeline/pipeline.go:86-109 | the loop keeps live entries of allowed families, canonicalised, in order and with repetitions |
| `Pipeline.Dedup` | internal/pipeline/pipeline.go:154-165 | overwriting the array it reads, the method leaves exactly the de-duplicated list in front |
| `Pipeline.SortAndDedup` | internal/pipeline/pipeline.go:110-112 | strictly increasing, and the same set of strings |
| `Pipeline.SortedDeduped` | internal/pipeline/pipeline.go:154-165 | sorting and de-duplicating lose no string and leave none twice |
| `Pipeline.KeptPublishes` | internal/pipeline/pipeline.go:86-114 | the strictly increasing list of the kept CIDRs is the published one |
| `Pipeline.PublishedUnique` | internal/pipeline/pipeline.go:86-114 | entries, families and time determine the published list |
| `Pipeline.KeptAppend` | internal/pipeline/pipeline.go:86-109 | filtering looks at one entry at a time |
| `Pipeline.AcceptedSizes` | internal/pipeline/pipeline.go:76-114 | CIDRs are no more than kept entries, those no more than entries, those no more than the limit |
| `Pipeline.AllowTextLines` | internal/pipeline/pipeline.go:140-143 | the lines of allow.txt are the CIDRs, each line ended |
| `Pipeline.PublishedOneLine` | internal/pipeline/pipeline.go:86-114 | no published CIDR has a line break in it |
| `Pipeline.WriteOutputs` | internal/pipeline/pipeline.go:117-152 | succeeds exactly when no file operation of the two writes fails; then exactly the two files have changed, and otherwise allow.txt is untouched while the state record may be a step ahead |
| `AtomicFile.FileSystem.Write` | internal/atomicfile/atomicfile.go:25-49 | succeeds exactly when none of its operations up to the rename fails; then the files differ by the content at the path and by nothing else, and otherwise by nothing or by a temp file whose removal failed too |
| `AtomicFile.FileSystem.WriteWithDir` | internal/atomicfile/atomicfile.go:16-23 | the same, with the directory made first |
| `Receive.ReadLimited` | cmd/receive/receive.go:98-109 | input passes exactly when it arrives unbroken within the limit |
| `Receive.ProceedsExactly` | cmd/receive/receive.go:35-58 | when a run goes on with an envelope, by what arrived and the settings |
| `Receive.StopsBecause` | cmd/receive/receive.go:35-58 | which error a run that stops before it writes gives: the first that applies |
| `Receive.Run` | cmd/receive/receive.go:35-81 | succeeds exactly when the input is accepted and no file operation fails; then inbox, state record and allow.txt all hold the accepted envelope's content and no other file has changed; an error leaves allow.txt alone and an input that is not accepted changes no file |
| `Receive.Publish` | cmd/receive/receive.go:59-80 | inbox, state record and allow.txt are written in that order up to the first failure; success is exactly the absence of one |
| `Publication.StepInv` | internal/atomicfile/atomicfile.go:25-49 | every single file operation, failure or crash of any process keeps the invariant of all processes |
| `Publication.AllowAlwaysComplete` | cmd/receive/receive.go:28-81 | at every instant of every interleaving allow.txt is the original or the complete list of one accepted envelope |
| `Publication.ReportsTruth` | internal/pipeline/pipeline.go:117-152 | a process reports success if and only if it has replaced allow.txt |
| `Publication.ChangesAreLogged` | internal/pipeline/pipeline.go:117-152 | allow.txt changes only when a process replaces it, once per process, with its own list |
| `Publication.TempsHeld` | internal/atomicfile/atomicfile.go:25-49 | in every interleaving a new temp file belongs to a process that is still writing, or that died with it or failed to remove it |
| `PublicationRuns.Completes` | cmd/receive/receive.go:28-81 | progress in any company: a process of which nothing fails has one operation less to do with each of its turns, and after twenty-five has returned with success and replaced allow.txt |
| `PublicationRuns.AloneSucceeds` | cmd/receive/receive.go:35-81 | a process alone ends with success and leaves exactly what `Receive.Run` promises of a successful run |
| `PublicationRuns.CollidingPathsClobber` | internal/config/config.go:584-593 | a run: with the state record on allow.txt, sixteen turns of one process put its state record there with nothing logged, so what `AllowAlwaysComplete` says is false of that run |
| `PublicationRuns.ReusedNamePublishesPart` | internal/atomicfile/atomicfile.go:25-49 | a run: under one temp name for all, three processes of which nothing fails publish a part of one's input as allow.txt |
| `Delivery.Origin` | internal/store/store.go:192-204 | every envelope ever sent was signed at some step |
| `Delivery.BoundedStaleness` | internal/pipeline/pipeline.go:65-115 | in every run with loss, repetition, delay and reordering, allow.txt is its initial content or what a store snapshot gave that was less than five minutes old when the receiver read its clock |
| `Interleaving.StalenessInterleaved` | cmd/receive/receive.go:28-81 | the same with the receivers taken apart: at every instant of every interleaving of server, network and, on each receiver, any number of processes that may fail or die at any file operation, allow.txt is the original or, complete, what a snapshot gave that was less than five minutes old when a process read its clock |
| `Interleaving.InnerRun` | cmd/receive/receive.go:28-81 | what happens on one receiver is a run of its processes |
| `Interleaving.CompletesInterleaved` | cmd/receive/receive.go:28-81 | a process of which nothing fails replaces allow.txt and returns with success, whatever goes on elsewhere |
| `Delivery.DeliverySucceeds` | internal/pipeline/pipeline.go:65-115 | from any store, a snapshot issued and received at once is applied: two moves of a run put the list in place |
| `Delivery.LiveUnchanged` | internal/store/store.go:150-165 | purges never change what is live later |
| `Delivery.LiveThroughRestarts` | internal/store/store.go:53-165 | nor do restarts, while the file covers memory, and they keep it so |
| `Delivery.StoreRun` | internal/store/store.go:83-220 | what a run of the protocol does to the store is a run of the store |
| `Delivery.ConvergesCovered` | cmd/auth-server/push.go:143-158 | if nothing was recorded since an envelope was issued and it is the last applied, allow.txt is what the store itself would publish in any world since, whatever purges and restarts there were; of the issue it needs that the file covered memory |
| `Delivery.Converges` | cmd/auth-server/push.go:143-158 | the same where the last Record before the issue had been written, whatever happened before and since |
| `Delivery.ConvergesUninterrupted` | cmd/auth-server/push.go:143-158 | without a restart since the issue the file does not matter |
| `Delivery.PublishedStoreUnique` | internal/pipeline/pipeline.go:86-114 | what a store publishes at a time is one list |
| `Delivery.EndToEndExact` | internal/ipx/ipx.go:37-81 | an unexpired envelope of recorded CIDRs is always accepted, and canonicalisation, sorting and de-duplication are identities on its live allowed CIDRs |
| `EndToEnd.FilledByRequests` | cmd/auth-server/server.go:165-195 | after any run of requests, purges, failed writes and restarts the store is within its limit and holds recorded CIDRs only |
| `EndToEnd.JudgedAsSent` | cmd/receive/receive.go:35-58 | a receiver judges the text of an envelope as the envelope, up to its length limit |
| `EndToEnd.RequestsToList` | cmd/receive/receive.go:35-81 | from requests to list: after any such run, the text of an envelope of the store is accepted unless it is too long, and what is published is the envelope's live allowed CIDRs as they stand; as a set, those of an allowed family among the most recent `max` CIDRs recorded less than the TTL ago |
| `Delivery.SnapshotPublishes` | internal/pipeline/pipeline.go:86-114 | filtering a snapshot publishes the stored entries still live |
| `NftGuard.GenerateScript` | internal/nftguard/nftguard.go:53-104 | the text written piece by piece is the rendering of the compiled policy |
| `NftGuard.PortsList` | internal/nftguard/nftguard.go:34-42 | the ports, sorted and joined; empty exactly for no ports |
| `NftGuard.Elements` | internal/nftguard/nftguard.go:44-48 | splitting the text at its commas and trimming gives back the CIDRs: the same ones as often, in order |
| `NftGuard.FieldsJoined` | internal/nftguard/nftguard.go:44-48 | joined parts without commas or blanks are recovered by splitting |
| `NftGuard.GuardMeaning` | internal/nftguard/nftguard.go:80-104 | first match with policy accept drops a packet if and only if its port is protected and no allowed CIDR of its family contains its source |
| `NftGuard.ApplyReplaces` | internal/nftguard/nftguard.go:63-65 | applying never fails, replaces the guard's own table whatever was in it, and leaves every other table |
| `NftGuard.ApplyTwice` | internal/nftguard/nftguard.go:63-65 | applying again changes nothing, and only the last policy counts |
| `NftGuard.ResetNeeded` | internal/nftguard/nftguard.go:63-65 | defined over an old table without deleting it, the new one would go on letting in every source of the old one |
| `NftGuard.BuildNftScript` | cmd/puller/puller.go:179-195 | the puller's script is the rendering of the policy split by family |
| `NftGuard.SplitKeepsAddresses` | cmd/puller/puller.go:179-188 | a source is in the set of its family if and only if some CIDR of the list contains it |
| `NftGuard.GuardForList` | cmd/puller/puller.go:179-195 | the guard of a list drops by the list as a whole |
| `NftGuard.GuardForEnvelope` | cmd/puller/puller.go:109-195 | the guard of a published list drops exactly traffic to protected ports from sources no live, allowed entry contains |
| `NftGuard.MappedEntryIgnored` | internal/ipx/ipx.go:80-93 | an IPv4-mapped entry is published in a form of neither family |
| `NftGuard.MappedEntryExists` | internal/ipx/ipx.go:80-93 | such an entry exists for every IPv4 address |
| `NftScript.ScriptReadsBack` | internal/nftguard/nftguard.go:53-104 | the generated text, read word by word, is the compiled policy: every element, port and verdict |
| `NftScript.RulesReadBack` | internal/nftguard/nftguard.go:86-100 | the rendered rules read back in order |
| `NftScript.SetReadsBack` | internal/nftguard/nftguard.go:68-78 | a rendered set reads back with its elements |
| `NftScript.PublishedScriptGuards` | cmd/puller/puller.go:154-195 | running the generated text changes only the guard's table and from then on drops exactly the packets the envelope says |
| `Puller.RunOnce` | cmd/puller/puller.go:106-177 | how a cycle ends is decided by the judgement of its input, the file operations that fail and the answer of nft; allow.txt is replaced exactly when the input is accepted, the run is not dry and both writes succeed; the tables are left alone unless the guard is asked for and enabled by mode or setting, and then the script runs if nft accepts it |
| `Puller.ProceedsExactly` | cmd/puller/puller.go:106-135 | when a cycle goes on with an envelope, by what was fetched and the settings |
| `Puller.StopsBecause` | cmd/puller/puller.go:106-135 | which error a cycle that stops before it writes gives: the first that applies |
| `Puller.FetchedMeans` | cmd/puller/puller.go:51-104 | what there is to decode: the file, or the body of a 200 answer up to its limit |
| `Puller.ErrorAfterReplacement` | cmd/puller/puller.go:106-108 | a cycle can end in an error with the new allow.txt in place if and only if its input is accepted, it is not dry, and it goes on to apply the guard; then exactly when the outputs are written and nft refuses |
| `Puller.ErrorReached` | cmd/puller/puller.go:106-173 | for any configuration that applies the guard and any accepted envelope, a cycle that ends so |
| `Puller.EmptyAccepted` | internal/pipeline/pipeline.go:65-115 | every receiver accepts some envelope |
| `Puller.Evaluate` | cmd/puller/puller.go:120-135 | the first reason not to publish, or the kept entries and the list of the envelope |
| `Puller.PublishAndApply` | cmd/puller/puller.go:147-173 | outputs first, then the guard if asked for and enabled; fails exactly when a write does or nft refuses |
| `Puller.AppliedCycleGuards` | cmd/puller/puller.go:154-195 | after an applying cycle the machine drops exactly what the envelope does not allow |
| `Redact.RedactSecrets` | cmd/auth-server/push.go:111-121 | the loop is the successive replacement, skipping empty secrets |
| `Redact.RedactionComplete` | cmd/auth-server/push.go:111-121 | for any text and any secrets, one that cannot overlap the placeholder is not in the output: no later pass recreates it |
| `Redact.ServerSecretsRedacted` | cmd/auth-server/push.go:111-125 | any of the three secrets of validated length and without angle brackets is gone from the output, whatever the other two are |
| `Redact.LastSecretGone` | cmd/auth-server/push.go:111-121 | the secret replaced last is gone if the placeholder cannot complete it, whatever the others are |
| `Redact.SurvivesOwnPass` | cmd/auth-server/push.go:111-121 | exactly when some text still holds a secret after its own pass: when the placeholder can complete it |
| `Redact.ExactWhenFollowed` | cmd/auth-server/push.go:111-121 | in any list of secrets, one that a suitable other follows can be in the output if and only if it can be laid over the placeholder so that they agree |
| `Redact.HmacExactly` | cmd/auth-server/push.go:111-125 | that condition for the HMAC secret, completed where the token or the password stood |
| `Redact.TokenExactly` | cmd/auth-server/push.go:111-125 | that condition for the token, completed where the password stood |
| `Redact.PasswordExactly` | cmd/auth-server/push.go:111-125 | the password can come through all three passes if and only if the placeholder can complete it, where each other secret is twice as long or has a character of its own |
| `Redact.PasswordSurvives` | cmd/auth-server/push.go:111-125 | a password of any validated length whose only `<` is at its end comes through in a text given |
| `RateLimit.FailureLimiter.constructor` | cmd/auth-server/ratelimit.go:25-31 | a new limiter has no windows |
| `RateLimit.FailureLimiter.Blocked` | cmd/auth-server/ratelimit.go:35-51 | all windows after the call, and whether the peer is over its budget; a disabled limiter does nothing |
| `RateLimit.FailureLimiter.CleanupExpired` | cmd/auth-server/ratelimit.go:53-59 | exactly the windows that are over are dropped, in any order |
| `RateLimit.AloneExactly` | cmd/auth-server/ratelimit.go:35-59 | every interleaving of failures with given readings answers each peer, at every budget, as a counter of its own failures would, if and only if the readings are in step: once one is a minute or more past another, no later one is less |
| `RateLimit.AloneInStep` | cmd/auth-server/ratelimit.go:35-59 | with readings in step the clean-up that others trigger is invisible |
| `RateLimit.EachPeerAlone` | cmd/auth-server/ratelimit.go:35-59 | in particular with readings in order |
| `RateLimit.LateReadingForgives` | cmd/auth-server/ratelimit.go:53-59 | for any readings out of step, a trace in which another peer's clean-up lets a blocked peer start over |
| `RateLimit.WindowBound` | cmd/auth-server/ratelimit.go:42-50 | at most the budget passes within one window |
| `RateLimit.SpanBound` | cmd/auth-server/ratelimit.go:42-50 | at most twice the budget less one passes in any span shorter than a minute |
| `RateLimit.SpanBoundReached` | cmd/auth-server/ratelimit.go:42-50 | no smaller bound holds, for any budget |
| `ClientIp.PeerTrusted` | internal/clientip/clientip.go:95-102 | whether some trusted network holds the address |
| `ClientIp.MappedProxyNet` | internal/clientip/clientip.go:95-102 | a mapped network holds exactly its 16-byte range |
| `ClientIp.UsableOutsideReserved` | internal/clientip/clientip.go:178-188 | the byte tests refuse exactly the reserved address blocks |
| `ClientIp.ParseXForwardedFor` | internal/clientip/clientip.go:160-176 | the backward loop picks the rightmost candidate |
| `ClientIp.RightmostCandidate` | internal/clientip/clientip.go:160-176 | an address is returned if and only if it is usable and is what the rightmost parsable untrusted element reads as |
| `ClientIp.PrependedText` | internal/clientip/clientip.go:160-176 | text in front of a header counts only if nothing behind it is a candidate |
| `ClientIp.PrependHarmless` | internal/clientip/clientip.go:160-176 | no text in front changes the result if and only if the header holds a candidate or every usable address is trusted |
| `ClientIp.Extract` | internal/clientip/clientip.go:104-137 | on a connection from a trusted proxy the first configured header that reads as an address outside the reserved blocks gives it, under the header's name: a chain by its last element from outside, another header as a whole; otherwise the connection's own address stands |
| `ClientIp.BelievedOnlyFromProxies` | internal/clientip/clientip.go:104-137 | headers matter only on a trusted connection, and an address taken from one is usable |
| `ClientIp.RightEndDecides` | internal/clientip/clientip.go:116-137 | for the whole request only the right end of each chain matters |
| `ClientIp.ParseTrusted` | internal/clientip/clientip.go:55-74 | the loop collects the readable networks, dropping the rest |
| `ClientIp.EntriesTrust` | internal/clientip/clientip.go:55-74 | a list trusts exactly the addresses that a readable entry of it holds |
| `ClientIp.BareAddressAlone` | internal/clientip/clientip.go:55-74 | a bare address in the list trusts that address and no other |
| `ClientIp.NetworkEntry` | internal/clientip/clientip.go:55-74 | a network in the list trusts its addresses and no others |
| `Push.PushAll` | cmd/auth-server/push.go:42-106 | one result per target in order; each target is tried exactly while the deadline is ahead, with the time left and the same payload; every reported text is redacted |
| `Push.ReportedMeans` | cmd/auth-server/push.go:56-85 | what is reported of a skipped target, and that redaction changes nothing but the two texts |
| `Push.BuildArgs` | internal/sshpush/sshpush.go:51-77 | the arguments are the key, the port, each option behind its flag, and the destination |
| `Push.ArgsMean` | internal/sshpush/sshpush.go:51-77 | which argument stands where |
| `Push.OptionsMean` | internal/sshpush/sshpush.go:51-73 | what the options say |
| `Push.NeverACommand` | internal/sshpush/sshpush.go:49-77 | whatever the configuration, every argument but the last belongs to an option and the last is the destination: there is no remote command |
| `Push.PushOne` | internal/sshpush/sshpush.go:79-130 | ssh is run with the target's arguments and the payload on its input; what each way it can end is reported as: exit status, milliseconds, trimmed output, and the reason with the text of the timeout |
| `Push.TrimSpaceASCII` | internal/sshpush/sshpush.go:141-153 | blanks, and only blanks, go from both ends |
| `Push.EndsInTime` | cmd/auth-server/push.go:42-64 | for any targets, the loop is over by the budget and one wait, and no push starts at or after the deadline |
| `Push.EndsBeforeWriteTimeout` | cmd/auth-server/main.go:88-95 | a request's pushes end within 14 seconds, before the 15 of the write timeout |
| `Push.SkippedFromThenOn` | cmd/auth-server/push.go:56-74 | once the budget is gone every later target is skipped |
| `Push.EarlyTargetsTried` | cmd/auth-server/push.go:56-79 | a target is tried while the ones before it, each at its slowest, fit in the budget |
| `Push.BoundReached` | cmd/auth-server/push.go:56-79 | both bounds are reached |
| `Push.ReportsHoldNoSecret` | cmd/auth-server/push.go:81-85 | nothing a remote printed is reported with a secret in it |
| `Server.Server.DoPush` | cmd/auth-server/push.go:27-106 | the compact text of one snapshot of the store is sent, unless it cannot be written, with one redacted result per target, within the write timeout |
| `Server.Server.PurgeAndSync` | cmd/auth-server/push.go:127-141 | pushes exactly when it has itself removed something and pushing is enabled |
| `Server.Server.ReconcileSync` | cmd/auth-server/push.go:143-158 | purges and then pushes whatever was removed, if pushing is enabled |
| `Server.Server.RecordRequest` | cmd/auth-server/server.go:165-238 | purge, record and push in that order; a refused family has purged only, a failed write stops the push |
| `Server.Server.RecordAndPush` | cmd/auth-server/server.go:183-238 | one `Record` step, answered OK exactly when it was written, and then pushed |
| `Server.StepKeepsRecordable` | cmd/auth-server/server.go:165-195 | records of requested CIDRs, purges and restarts keep memory and file free of any other CIDR |
| `Server.Server.HandleRoot` | cmd/auth-server/server.go:94-238 | every way a request of any path and method can go: exactly when each status is given, and what happens to limiter, store and pushes |
| `Server.CidrOfMeans` | cmd/auth-server/server.go:174-180 | the CIDR of a request: the address itself, or 24 bits of an IPv4 one if asked for and allowed, of an allowed family only |
| `Server.RefusalHidesExpiry` | cmd/auth-server/server.go:165-195 | an expiry purged by a refused request is never pushed by the purge job |
| `Server.SnapshotWritable` | internal/store/store.go:192-204 | snapshots of entries with years 0 to 9999 can be written |
| `Server.CidrRecordable` | cmd/auth-server/server.go:177-180 | every CIDR a request records is one that receivers publish unchanged |

## Left out

- Redact.ExactWhenFollowed: assumes a later secret whose first and last characters are not in the secret asked about and which does not contain it, and that the rest have a character of their own; without that only one direction holds (`Redact.RedactionComplete`).
- Redact.ServerSecretsRedacted: speaks of whole secrets, so a secret cut by the capture limit before redaction is not covered.
- Store.RestartAgreesAfterMany: after several unwritten Records in one second an entry can be evicted and recorded anew exactly as the file has it, so the file is assumed to have no entry of the last CIDR seen in that second.
- Publication.AllowAlwaysComplete: processes interleave at file operations; a rename is taken to be atomic and what a power failure leaves is not modelled.
- Push.PushOne: the ssh process is any run within its time limit.
- Server.Server.HandleRoot: rendered pages, response headers and audit records are not modelled.
- Signer.SignedEnvelopeTravels: JSON as the program writes it. Of what a foreign sender could write, surrogate escapes, true and false, field names in another case, numbers with fractions or exponents and times with a zone offset are refused by the model where Go would read them.
- Signer.EnvelopeRoundTrip: a null or missing list of entries is read as the empty list, which Go would keep apart as nil and sign as `null`.
- Signer.TamperedRejected: the MAC is an arbitrary function, so that it tells two messages apart is a premise.
- Strings are sequences of characters and not of bytes; lengths in bytes of non-ASCII text, invalid UTF-8 and Unicode blanks are not modelled.
- Pointers to entries and buckets are values in the maps; no one outside the store and the limiter holds one.
- Mutexes: each locked section is one step.
- Instants have no upper bound; `time.Duration` saturation is not modelled.
- Zones in IPv6 literals: every caller refuses them.
- HTTP serving, TLS, `allow.json` and `allow.txt` handlers, tokens and password comparison: plumbing without a deep property.
- Notifications, the audit log, HTML and command-line flags.
- Configuration loading and defaults; the path, length and limit facts it guarantees are preconditions.
- File modes, ownership and directories; making a directory is an operation that may fail.
- Running `ssh` and `nft`: a contract each.
- SHA-256 and constant-time comparison.
