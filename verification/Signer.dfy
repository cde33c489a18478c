/** The signed allow.json envelope: its JSON, the bytes that are signed, and the
    signature over them. */
module Signer {
  import opened Text
  import opened Json
  import Rfc3339

  datatype Entry = Entry(
    ip: string, cidr: string, source: string,
    createdAt: int, expiresAt: int, lastSeenAt: int, hitCount: int)

  datatype Envelope = Envelope(
    version: int, issuedAt: int, expiresAt: int,
    entries: seq<Entry>, signature: string)

  // ---------------------------------------------------------------- writing

  predicate WritableEntry(e: Entry) {
    Rfc3339.Writable(e.createdAt) && Rfc3339.Writable(e.expiresAt) && Rfc3339.Writable(e.lastSeenAt)
  }

  predicate WritableEntries(es: seq<Entry>) {
    es == [] || (WritableEntry(es[0]) && WritableEntries(es[1..]))
  }

  lemma {:induction false} AllWritable(es: seq<Entry>)
    requires forall e :: e in es ==> WritableEntry(e)
    ensures WritableEntries(es)
  {
    if es != [] {
      AllWritable(es[1..]);
    }
  }

  lemma {:induction false} WritableMembers(es: seq<Entry>)
    requires WritableEntries(es)
    ensures forall e :: e in es ==> WritableEntry(e)
  {
    if es != [] {
      WritableMembers(es[1..]);
      assert es == [es[0]] + es[1..];
    }
  }

  /** json.Marshal succeeds. */
  predicate Writable(env: Envelope) {
    && Rfc3339.Writable(env.issuedAt) && Rfc3339.Writable(env.expiresAt)
    && WritableEntries(env.entries)
  }

  function TimeValue(t: int): Value
    requires Rfc3339.Writable(t)
  {
    Str(Rfc3339.Format(t))
  }

  function EntryFields(e: Entry): seq<Field>
    requires WritableEntry(e)
  {
    [Field("ip", Str(e.ip)), Field("cidr", Str(e.cidr)), Field("source", Str(e.source)),
     Field("created_at", TimeValue(e.createdAt)), Field("expires_at", TimeValue(e.expiresAt)),
     Field("last_seen_at", TimeValue(e.lastSeenAt)), Field("hit_count", Num(e.hitCount))]
  }

  function EntryValue(e: Entry): Value
    requires WritableEntry(e)
  {
    Obj(EntryFields(e))
  }

  function EntryValues(es: seq<Entry>): seq<Value>
    requires WritableEntries(es)
  {
    if es == [] then [] else [EntryValue(es[0])] + EntryValues(es[1..])
  }

  function PayloadFields(env: Envelope): seq<Field>
    requires Writable(env)
  {
    [Field("version", Num(env.version)), Field("issued_at", TimeValue(env.issuedAt)),
     Field("expires_at", TimeValue(env.expiresAt)), Field("entries", Arr(EntryValues(env.entries)))]
  }

  function PayloadValue(env: Envelope): Value
    requires Writable(env)
  {
    Obj(PayloadFields(env))
  }

  function EnvelopeValue(env: Envelope): Value
    requires Writable(env)
  {
    Obj(PayloadFields(env) + [Field("signature", Str(env.signature))])
  }

  // ---------------------------------------------------------------- reading

  /** The last field of that name wins. */
  function Lookup(fields: seq<Field>, name: string): Option<Value> {
    if fields == [] then None
    else
      var last := fields[|fields| - 1];
      if last.name == name then Some(last.value) else Lookup(fields[..|fields| - 1], name)
  }

  /** A missing or null field keeps Go's zero value; another type is an error. */
  function TextField(fields: seq<Field>, name: string): Option<string> {
    match Lookup(fields, name)
    case None => Some("")
    case Some(Null) => Some("")
    case Some(Str(s)) => Some(s)
    case _ => None
  }

  function IntField(fields: seq<Field>, name: string): Option<int> {
    match Lookup(fields, name)
    case None => Some(0)
    case Some(Null) => Some(0)
    case Some(Num(n)) => Some(n)
    case _ => None
  }

  function TimeField(fields: seq<Field>, name: string): Option<int> {
    match Lookup(fields, name)
    case None => Some(0)
    case Some(Null) => Some(0)
    case Some(Str(s)) => Rfc3339.Parse(s)
    case _ => None
  }

  datatype Texts = Texts(ip: string, cidr: string, source: string)
  datatype Times = Times(created: int, expires: int, seen: int)

  function TextsOf(f: seq<Field>): Option<Texts> {
    var ip, cidr, source := TextField(f, "ip"), TextField(f, "cidr"), TextField(f, "source");
    if ip == None || cidr == None || source == None then None
    else Some(Texts(ip.value, cidr.value, source.value))
  }

  function TimesOf(f: seq<Field>): Option<Times> {
    var created, expires, seen := TimeField(f, "created_at"), TimeField(f, "expires_at"), TimeField(f, "last_seen_at");
    if created == None || expires == None || seen == None then None
    else Some(Times(created.value, expires.value, seen.value))
  }

  function EntryOf(v: Value): Option<Entry> {
    if !v.Obj? then None
    else
      var texts, times, hits := TextsOf(v.fields), TimesOf(v.fields), IntField(v.fields, "hit_count");
      if texts == None || times == None || hits == None then None
      else
        var x, t := texts.value, times.value;
        Some(Entry(x.ip, x.cidr, x.source, t.created, t.expires, t.seen, hits.value))
  }

  function EntriesOf(vs: seq<Value>): Option<seq<Entry>> {
    if vs == [] then Some([])
    else
      var e, rest := EntryOf(vs[0]), EntriesOf(vs[1..]);
      if e == None || rest == None then None else Some([e.value] + rest.value)
  }

  function EntriesField(fields: seq<Field>, name: string): Option<seq<Entry>> {
    match Lookup(fields, name)
    case None => Some([])
    case Some(Null) => Some([])
    case Some(Arr(items)) => EntriesOf(items)
    case _ => None
  }

  function EnvelopeOf(v: Value): Option<Envelope> {
    if !v.Obj? then None
    else
      var f := v.fields;
      var version, issued, expires := IntField(f, "version"), TimeField(f, "issued_at"), TimeField(f, "expires_at");
      var entries, signature := EntriesField(f, "entries"), TextField(f, "signature");
      if version == None || issued == None || expires == None || entries == None || signature == None then None
      else Some(Envelope(version.value, issued.value, expires.value, entries.value, signature.value))
  }

  /** json.Unmarshal of an envelope. */
  function Decode(text: string): Option<Envelope> {
    var v := Read(text);
    if v == None then None else EnvelopeOf(v.value)
  }

  // ---------------------------------------------------------------- round trip

  ghost predicate DistinctNames(fields: seq<Field>) {
    forall i, j :: 0 <= i < j < |fields| ==> fields[i].name != fields[j].name
  }

  lemma {:induction false} LookupAt(fields: seq<Field>, i: nat)
    requires i < |fields| && DistinctNames(fields)
    ensures Lookup(fields, fields[i].name) == Some(fields[i].value)
  {
    if i < |fields| - 1 {
      LookupAt(fields[..|fields| - 1], i);
    }
  }

  lemma {:induction false} LookupAbsent(fields: seq<Field>, name: string)
    requires forall j :: 0 <= j < |fields| ==> fields[j].name != name
    ensures Lookup(fields, name) == None
  {
    if fields != [] {
      LookupAbsent(fields[..|fields| - 1], name);
    }
  }

  /** A field that is missing, or null, reads as Go's zero value. */
  lemma ZeroField(fields: seq<Field>, name: string)
    requires Lookup(fields, name) in {None, Some(Null)}
    ensures TextField(fields, name) == Some("") && IntField(fields, name) == Some(0)
    ensures TimeField(fields, name) == Some(0) && EntriesField(fields, name) == Some([])
  {
  }

  /** A field of another type is an error. */
  lemma WrongField(fields: seq<Field>, name: string, v: Value)
    requires Lookup(fields, name) == Some(v) && !v.Null?
    ensures !v.Str? ==> TextField(fields, name) == None && TimeField(fields, name) == None
    ensures !v.Num? ==> IntField(fields, name) == None
    ensures !v.Arr? ==> EntriesField(fields, name) == None
  {
  }

  lemma ReadTextField(fields: seq<Field>, i: nat, s: string)
    requires i < |fields| && DistinctNames(fields) && fields[i].value == Str(s)
    ensures TextField(fields, fields[i].name) == Some(s)
  {
    LookupAt(fields, i);
  }

  lemma ReadIntField(fields: seq<Field>, i: nat, n: int)
    requires i < |fields| && DistinctNames(fields) && fields[i].value == Num(n)
    ensures IntField(fields, fields[i].name) == Some(n)
  {
    LookupAt(fields, i);
  }

  lemma ReadTimeField(fields: seq<Field>, i: nat, t: int)
    requires i < |fields| && DistinctNames(fields)
    requires Rfc3339.Writable(t) && fields[i].value == TimeValue(t)
    ensures TimeField(fields, fields[i].name) == Some(t)
  {
    LookupAt(fields, i);
    Rfc3339.FormatRoundTrip(t);
  }

  /** The names of an entry's fields, in order. */
  ghost predicate EntryNames(f: seq<Field>) {
    && |f| == 7 && f[0].name == "ip" && f[1].name == "cidr" && f[2].name == "source"
    && f[3].name == "created_at" && f[4].name == "expires_at" && f[5].name == "last_seen_at"
    && f[6].name == "hit_count"
  }

  lemma EntryNamesDistinct(f: seq<Field>)
    requires EntryNames(f)
    ensures DistinctNames(f)
  {
    assert f[3].name[0] != f[4].name[0];
    assert forall i, j :: 0 <= i < j < 7 && !(i == 3 && j == 4) ==> |f[i].name| != |f[j].name|;
  }

  lemma ReadTexts(f: seq<Field>, ip: string, cidr: string, source: string)
    requires DistinctNames(f) && EntryNames(f)
    requires f[0].value == Str(ip) && f[1].value == Str(cidr) && f[2].value == Str(source)
    ensures TextsOf(f) == Some(Texts(ip, cidr, source))
  {
    ReadTextField(f, 0, ip);
    ReadTextField(f, 1, cidr);
    ReadTextField(f, 2, source);
  }

  lemma ReadTimes(f: seq<Field>, created: int, expires: int, seen: int)
    requires DistinctNames(f) && EntryNames(f)
    requires Rfc3339.Writable(created) && Rfc3339.Writable(expires) && Rfc3339.Writable(seen)
    requires f[3].value == TimeValue(created) && f[4].value == TimeValue(expires) && f[5].value == TimeValue(seen)
    ensures TimesOf(f) == Some(Times(created, expires, seen))
  {
    ReadTimeField(f, 3, created);
    ReadTimeField(f, 4, expires);
    ReadTimeField(f, 5, seen);
  }

  lemma ReadEntry(f: seq<Field>, x: Texts, t: Times, hits: int)
    requires TextsOf(f) == Some(x) && TimesOf(f) == Some(t) && IntField(f, "hit_count") == Some(hits)
    ensures EntryOf(Obj(f)) == Some(Entry(x.ip, x.cidr, x.source, t.created, t.expires, t.seen, hits))
  {
  }

  lemma ReadHits(f: seq<Field>, hits: int)
    requires DistinctNames(f) && EntryNames(f) && f[6].value == Num(hits)
    ensures IntField(f, "hit_count") == Some(hits)
  {
    ReadIntField(f, 6, hits);
  }

  lemma EntryRoundTrip(e: Entry)
    requires WritableEntry(e)
    ensures EntryOf(EntryValue(e)) == Some(e)
  {
    hide EntryOf, TimeValue, WritableEntry;
    var f := EntryFields(e);
    EntryFieldsRead(f, e);
  }

  lemma EntryFieldsRead(f: seq<Field>, e: Entry)
    requires WritableEntry(e) && EntryNames(f)
    requires f[0].value == Str(e.ip) && f[1].value == Str(e.cidr) && f[2].value == Str(e.source)
    requires f[3].value == TimeValue(e.createdAt) && f[4].value == TimeValue(e.expiresAt)
    requires f[5].value == TimeValue(e.lastSeenAt) && f[6].value == Num(e.hitCount)
    ensures EntryOf(Obj(f)) == Some(e)
  {
    EntryNamesDistinct(f);
    ReadTexts(f, e.ip, e.cidr, e.source);
    ReadTimes(f, e.createdAt, e.expiresAt, e.lastSeenAt);
    ReadHits(f, e.hitCount);
    ReadEntry(f, Texts(e.ip, e.cidr, e.source), Times(e.createdAt, e.expiresAt, e.lastSeenAt), e.hitCount);
  }

  lemma {:induction false} EntriesRoundTrip(es: seq<Entry>)
    requires WritableEntries(es)
    ensures EntriesOf(EntryValues(es)) == Some(es)
  {
    if es != [] {
      EntriesRoundTrip(es[1..]);
      EntryRoundTrip(es[0]);
      EntriesCons(EntryValue(es[0]), EntryValues(es[1..]), es[0], es[1..]);
      HeadTail(es);
    }
  }

  lemma HeadTail(es: seq<Entry>)
    requires es != []
    ensures [es[0]] + es[1..] == es
  {
  }

  lemma EntriesCons(v: Value, vs: seq<Value>, e: Entry, es: seq<Entry>)
    requires EntryOf(v) == Some(e) && EntriesOf(vs) == Some(es)
    ensures EntriesOf([v] + vs) == Some([e] + es)
  {
    assert ([v] + vs)[1..] == vs;
  }

  lemma PayloadNamesDistinct(f: seq<Field>)
    requires 4 <= |f| <= 5 && f[0].name == "version" && f[1].name == "issued_at"
    requires f[2].name == "expires_at" && f[3].name == "entries"
    requires |f| == 5 ==> f[4].name == "signature"
    ensures DistinctNames(f)
    ensures |f| == 4 ==> forall j :: 0 <= j < 4 ==> f[j].name != "signature"
  {
    assert f[0].name[0] != f[3].name[0];
    assert f[1].name[0] != "signature"[0];
    assert |f[0].name| == |f[3].name| == 7 && |f[1].name| == 9 && |f[2].name| == 10 && |"signature"| == 9;
  }

  lemma PayloadRead(f: seq<Field>, env: Envelope)
    requires Writable(env) && DistinctNames(f) && |f| >= 4
    requires f[0] == Field("version", Num(env.version)) && f[1] == Field("issued_at", TimeValue(env.issuedAt))
    requires f[2] == Field("expires_at", TimeValue(env.expiresAt))
    requires f[3] == Field("entries", Arr(EntryValues(env.entries)))
    ensures IntField(f, "version") == Some(env.version)
    ensures TimeField(f, "issued_at") == Some(env.issuedAt)
    ensures TimeField(f, "expires_at") == Some(env.expiresAt)
    ensures EntriesField(f, "entries") == Some(env.entries)
  {
    ReadIntField(f, 0, env.version);
    ReadTimeField(f, 1, env.issuedAt);
    ReadTimeField(f, 2, env.expiresAt);
    ReadEntriesField(f, 3, env.entries);
  }

  lemma ReadEntriesField(fields: seq<Field>, i: nat, es: seq<Entry>)
    requires i < |fields| && DistinctNames(fields)
    requires WritableEntries(es)
    requires fields[i].value == Arr(EntryValues(es))
    ensures EntriesField(fields, fields[i].name) == Some(es)
  {
    EntriesRoundTrip(es);
    ReadItems(fields, i, EntryValues(es), es);
  }

  lemma ReadItems(fields: seq<Field>, i: nat, items: seq<Value>, es: seq<Entry>)
    requires i < |fields| && DistinctNames(fields)
    requires fields[i].value == Arr(items) && EntriesOf(items) == Some(es)
    ensures EntriesField(fields, fields[i].name) == Some(es)
  {
    LookupAt(fields, i);
  }

  lemma EnvelopeRoundTrip(env: Envelope)
    requires Writable(env)
    ensures EnvelopeOf(EnvelopeValue(env)) == Some(env)
  {
    hide EnvelopeOf;
    EnvelopeFieldsRead(PayloadFields(env) + [Field("signature", Str(env.signature))], env);
  }

  lemma EnvelopeFieldsRead(f: seq<Field>, env: Envelope)
    requires Writable(env) && |f| == 5
    requires f[0] == Field("version", Num(env.version)) && f[1] == Field("issued_at", TimeValue(env.issuedAt))
    requires f[2] == Field("expires_at", TimeValue(env.expiresAt))
    requires f[3] == Field("entries", Arr(EntryValues(env.entries)))
    requires f[4] == Field("signature", Str(env.signature))
    ensures EnvelopeOf(Obj(f)) == Some(env)
  {
    hide EnvelopeOf, IntField, TimeField, EntriesField, TextField, DistinctNames;
    PayloadNamesDistinct(f);
    PayloadRead(f, env);
    ReadTextField(f, 4, env.signature);
    ReadEnvelope(f, env);
  }

  lemma ReadEnvelope(f: seq<Field>, env: Envelope)
    requires IntField(f, "version") == Some(env.version) && TimeField(f, "issued_at") == Some(env.issuedAt)
    requires TimeField(f, "expires_at") == Some(env.expiresAt)
    requires EntriesField(f, "entries") == Some(env.entries) && TextField(f, "signature") == Some(env.signature)
    ensures EnvelopeOf(Obj(f)) == Some(env)
  {
    hide IntField, TimeField, EntriesField, TextField;
  }

  lemma PayloadRoundTrip(env: Envelope)
    requires Writable(env)
    ensures EnvelopeOf(PayloadValue(env)) == Some(env.(signature := ""))
  {
    hide EnvelopeOf, IntField, TimeField, EntriesField, TextField, DistinctNames;
    var f := PayloadFields(env);
    PayloadNamesDistinct(f);
    PayloadRead(f, env);
    ReadAbsentText(f, "signature");
    ReadEnvelope(f, env.(signature := ""));
  }

  lemma ReadAbsentText(fields: seq<Field>, name: string)
    requires forall j :: 0 <= j < |fields| ==> fields[j].name != name
    ensures TextField(fields, name) == Some("")
  {
    LookupAbsent(fields, name);
  }

  // ---------------------------------------------------------------- signing

  type Byte = x: nat | x < 256

  /** HMAC-SHA256 (RFC 2104 section 2) of a key and a message: any function. */
  type Mac = (string, string) -> seq<Byte>

  function HexByte(b: Byte): string {
    [DigitChar(b / 16), DigitChar(b % 16)]
  }

  /** RFC 4648 section 8, in lower case. */
  function HexEncode(bs: seq<Byte>): string {
    if bs == [] then [] else HexByte(bs[0]) + HexEncode(bs[1..])
  }

  function HexDecode(s: string): Option<seq<Byte>> {
    if s == [] then Some([])
    else if |s| == 1 then None
    else
      var hi, lo, rest := DigitValue(s[0]), DigitValue(s[1]), HexDecode(s[2..]);
      if hi == None || lo == None || rest == None then None
      else
        var b: Byte := hi.value * 16 + lo.value;
        Some([b] + rest.value)
  }

  /** What is written in hexadecimal reads back. */
  lemma {:induction false} HexRoundTrip(bs: seq<Byte>)
    ensures HexDecode(HexEncode(bs)) == Some(bs)
  {
    if bs != [] {
      hide HexDecode;
      HexRoundTrip(bs[1..]);
      HexByteReads(bs[0], HexEncode(bs[1..]), bs[1..]);
      assert bs == [bs[0]] + bs[1..];
    }
  }

  lemma HexByteReads(b: Byte, s: string, bs: seq<Byte>)
    requires HexDecode(s) == Some(bs)
    ensures HexDecode(HexByte(b) + s) == Some([b] + bs)
  {
    hide DigitValue, DigitChar;
    var t := HexByte(b) + s;
    assert t[2..] == s;
    DigitTable(b / 16);
    DigitTable(b % 16);
  }

  /** The bytes that are signed; the signature is not among them. */
  function Canonical(env: Envelope): Option<string> {
    if Writable(env) then Some(Compact(PayloadValue(env))) else None
  }

  function Sign(env: Envelope, secret: string, mac: Mac): Option<Envelope> {
    var b := Canonical(env);
    if b == None then None else Some(env.(signature := HexEncode(mac(secret, b.value))))
  }

  predicate Verify(env: Envelope, secret: string, mac: Mac) {
    var b := Canonical(env);
    b.Some? && HexDecode(env.signature) == Some(mac(secret, b.value))
  }

  /** Nothing that is signed can change without the signed bytes changing. */
  lemma CanonicalInjective(a: Envelope, b: Envelope)
    requires Canonical(a).Some? && Canonical(a) == Canonical(b)
    ensures a.(signature := "") == b.(signature := "")
  {
    RoundTrip(PayloadValue(a));
    RoundTrip(PayloadValue(b));
    PayloadRoundTrip(a);
    PayloadRoundTrip(b);
  }

  /** Signing changes the signature only, and what it gives verifies. */
  lemma SignVerifies(env: Envelope, secret: string, mac: Mac)
    requires Sign(env, secret, mac).Some?
    ensures var e := Sign(env, secret, mac).value;
            && Verify(e, secret, mac)
            && e == env.(signature := e.signature)
            && Writable(e) && Canonical(e).Some?
  {
    var e := Sign(env, secret, mac).value;
    SameCanonical(e, env);
    HexRoundTrip(mac(secret, Canonical(env).value));
  }

  /** A signed envelope survives both ways it is sent, pushed compact or served
      indented: what the receiver decodes is the envelope, and it verifies. */
  lemma SignedEnvelopeTravels(env: Envelope, secret: string, mac: Mac)
    requires Sign(env, secret, mac).Some?
    ensures var e := Sign(env, secret, mac).value;
            && Writable(e)
            && Decode(Compact(EnvelopeValue(e))) == Some(e)
            && Decode(Indented(EnvelopeValue(e))) == Some(e)
            && Verify(e, secret, mac)
  {
    var e := Sign(env, secret, mac).value;
    SignVerifies(env, secret, mac);
    DecodeWritten(e);
  }

  lemma DecodeWritten(e: Envelope)
    requires Writable(e)
    ensures Decode(Compact(EnvelopeValue(e))) == Some(e)
    ensures Decode(Indented(EnvelopeValue(e))) == Some(e)
  {
    RoundTrip(EnvelopeValue(e));
    EnvelopeRoundTrip(e);
  }

  lemma SameCanonical(a: Envelope, b: Envelope)
    requires a.(signature := b.signature) == b
    ensures Writable(a) == Writable(b) && Canonical(a) == Canonical(b)
  {
  }

  /** With a MAC that differs on the two messages, an envelope carrying another's
      signature is rejected: any change to a signed field is noticed. */
  lemma TamperedRejected(a: Envelope, b: Envelope, secret: string, mac: Mac)
    requires Verify(a, secret, mac) && b.signature == a.signature && b != a
    requires Writable(b) && mac(secret, Canonical(a).value) == mac(secret, Canonical(b).value) ==>
               Canonical(a) == Canonical(b)
    ensures !Verify(b, secret, mac)
  {
    if Verify(b, secret, mac) {
      CanonicalInjective(a, b);
    }
  }

  // ---------------------------------------------------------------- the text of an envelope

  function TimeText(t: int): string
    requires Rfc3339.Writable(t)
  {
    "\"" + Rfc3339.Format(t) + "\""
  }

  lemma TimePlain(t: int)
    requires Rfc3339.Writable(t)
    ensures PlainText(TimeValue(t)) == TimeText(t)
  {
    hide Rfc3339.Writable, Rfc3339.Format, Escape;
    Rfc3339.FormatChars(t);
    var s := Rfc3339.Format(t);
    forall i | 0 <= i < |s| ensures Plain(s[i]) {
      assert s[i] in s;
    }
    PlainEscape(s);
  }

  /** An entry as it is signed and sent. */
  function EntryLine(e: Entry): string
    requires WritableEntry(e)
  {
    "{" + ("\"ip\"" + ":" + Quoted(e.ip) + "," +
    ("\"cidr\"" + ":" + Quoted(e.cidr) + "," +
    ("\"source\"" + ":" + Quoted(e.source) + "," +
    ("\"created_at\"" + ":" + TimeText(e.createdAt) + "," +
    ("\"expires_at\"" + ":" + TimeText(e.expiresAt) + "," +
    ("\"last_seen_at\"" + ":" + TimeText(e.lastSeenAt) + "," +
    ("\"hit_count\"" + ":" + IntText(e.hitCount)))))))) + "}"
  }

  function EntryLines(es: seq<Entry>): string
    requires WritableEntries(es)
  {
    if es == [] then ""
    else if |es| == 1 then EntryLine(es[0])
    else EntryLine(es[0]) + "," + EntryLines(es[1..])
  }

  /** An envelope as it is signed, up to its entries. */
  function PayloadLine(env: Envelope): string
    requires Writable(env)
  {
    "\"version\"" + ":" + IntText(env.version) + "," +
    ("\"issued_at\"" + ":" + TimeText(env.issuedAt) + "," +
    ("\"expires_at\"" + ":" + TimeText(env.expiresAt) + "," +
    ("\"entries\"" + ":" + ("[" + EntryLines(env.entries) + "]"))))
  }

  lemma EntryText(e: Entry)
    requires WritableEntry(e)
    ensures PlainText(EntryValue(e)) == EntryLine(e)
  {
    hide Quoted, IntText, PlainFields, TimeText, TimeValue;
    var f := EntryFields(e);
    TimePlain(e.createdAt);
    TimePlain(e.expiresAt);
    TimePlain(e.lastSeenAt);
    assert f == [f[0]] + f[1..] && f[1..] == [f[1]] + f[2..] && f[2..] == [f[2]] + f[3..];
    assert f[3..] == [f[3]] + f[4..] && f[4..] == [f[4]] + f[5..] && f[5..] == [f[5]] + f[6..];
    PlainFieldsCons(f[0], f[1..]);
    PlainFieldsCons(f[1], f[2..]);
    PlainFieldsCons(f[2], f[3..]);
    PlainFieldsCons(f[3], f[4..]);
    PlainFieldsCons(f[4], f[5..]);
    PlainFieldsCons(f[5], f[6..]);
    assert f[6..] == [f[6]];
    OneField(f[6]);
    NamesOfTexts();
    NamesOfTimes();
  }

  lemma {:induction false} EntriesText(es: seq<Entry>)
    requires WritableEntries(es)
    ensures PlainItems(EntryValues(es)) == EntryLines(es) && |EntryValues(es)| == |es|
  {
    if es != [] {
      hide PlainText, EntryLine, EntryValue;
      EntryText(es[0]);
      EntriesText(es[1..]);
      assert EntryValues(es)[1..] == EntryValues(es[1..]);
    }
  }

  lemma PayloadPlain(env: Envelope)
    requires Writable(env)
    ensures PlainFields(PayloadFields(env)) == PayloadLine(env)
  {
    hide Quoted, IntText, PlainFields, TimeText, TimeValue, EntryLines, EntryValues, PlainItems;
    var f := PayloadFields(env);
    TimePlain(env.issuedAt);
    TimePlain(env.expiresAt);
    EntriesText(env.entries);
    assert f == [f[0]] + f[1..] && f[1..] == [f[1]] + f[2..] && f[2..] == [f[2]] + f[3..] && f[3..] == [f[3]];
    PlainFieldsCons(f[0], f[1..]);
    PlainFieldsCons(f[1], f[2..]);
    PlainFieldsCons(f[2], f[3..]);
    OneField(f[3]);
    NamesOfTimes();
    NamesOfEnvelope();
  }

  /** The bytes that are signed: the members in their order, the entries among them, and
      nothing else. */
  lemma PayloadText(env: Envelope)
    requires Writable(env)
    ensures Canonical(env) == Some("{" + PayloadLine(env) + "}")
  {
    hide PlainFields, PayloadFields, PayloadLine, Compact;
    CompactIsPlain(PayloadValue(env));
    PayloadPlain(env);
  }

  /** What is sent: the same with the signature as one more member. */
  lemma EnvelopeText(env: Envelope)
    requires Writable(env)
    ensures Compact(EnvelopeValue(env)) ==
            "{" + (PayloadLine(env) + "," + ("\"signature\"" + ":" + Quoted(env.signature))) + "}"
  {
    hide PlainFields, PayloadLine, Compact, Quoted;
    CompactIsPlain(EnvelopeValue(env));
    PayloadPlain(env);
    PlainFieldsLast(PayloadFields(env), Field("signature", Str(env.signature)));
    NamesOfEnvelope();
  }

  /** The signature is the MAC of those bytes under the secret, in lower-case hexadecimal. */
  lemma SignatureText(env: Envelope, secret: string, mac: Mac)
    requires Writable(env)
    ensures var m := mac(secret, "{" + PayloadLine(env) + "}");
            && Sign(env, secret, mac).Some?
            && |Sign(env, secret, mac).value.signature| == 2 * |m|
            && forall i :: 0 <= i < |m| ==>
                 && Sign(env, secret, mac).value.signature[2 * i] == "0123456789abcdef"[m[i] / 16]
                 && Sign(env, secret, mac).value.signature[2 * i + 1] == "0123456789abcdef"[m[i] % 16]
  {
    hide PayloadLine, Canonical, Writable;
    PayloadText(env);
    var m := mac(secret, "{" + PayloadLine(env) + "}");
    HexLength(m);
    forall i | 0 <= i < |m|
      ensures HexEncode(m)[2 * i] == "0123456789abcdef"[m[i] / 16]
      ensures HexEncode(m)[2 * i + 1] == "0123456789abcdef"[m[i] % 16]
    {
      HexAt(m, i);
    }
  }

  lemma {:induction false} HexLength(bs: seq<Byte>)
    ensures |HexEncode(bs)| == 2 * |bs|
  {
    if bs != [] {
      HexLength(bs[1..]);
    }
  }

  lemma {:induction false} HexAt(bs: seq<Byte>, i: nat)
    requires i < |bs|
    ensures |HexEncode(bs)| == 2 * |bs|
    ensures HexEncode(bs)[2 * i] == "0123456789abcdef"[bs[i] / 16]
    ensures HexEncode(bs)[2 * i + 1] == "0123456789abcdef"[bs[i] % 16]
  {
    HexLength(bs);
    if i == 0 {
      DigitTable(bs[0] / 16);
      DigitTable(bs[0] % 16);
    } else {
      HexAt(bs[1..], i - 1);
    }
  }

  lemma OneField(f: Field)
    ensures PlainFields([f]) == Member(f.name, PlainText(f.value))
  {
  }

  lemma NamesOfTexts()
    ensures Quoted("ip") == "\"ip\"" && Quoted("cidr") == "\"cidr\"" && Quoted("source") == "\"source\""
    ensures Quoted("hit_count") == "\"hit_count\""
  {
    hide Escape;
    PlainEscape("ip");
    PlainEscape("cidr");
    PlainEscape("source");
    PlainEscape("hit_count");
  }

  lemma NamesOfTimes()
    ensures Quoted("created_at") == "\"created_at\"" && Quoted("expires_at") == "\"expires_at\""
    ensures Quoted("last_seen_at") == "\"last_seen_at\"" && Quoted("issued_at") == "\"issued_at\""
  {
    hide Escape;
    PlainEscape("created_at");
    PlainEscape("expires_at");
    PlainEscape("last_seen_at");
    PlainEscape("issued_at");
  }

  lemma NamesOfEnvelope()
    ensures Quoted("version") == "\"version\"" && Quoted("entries") == "\"entries\""
    ensures Quoted("signature") == "\"signature\""
  {
    hide Escape;
    PlainEscape("version");
    PlainEscape("entries");
    PlainEscape("signature");
  }

  lemma MemberOf(name: string, quoted: string, value: string)
    requires Quoted(name) == quoted
    ensures Member(name, value) == quoted + ":" + value
  {
  }
}
