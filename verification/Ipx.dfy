/** CIDR handling: what is recorded for a request, and the canonical form that
    receivers filter and publish. */
module Ipx {
  import opened Text
  import opened IpText

  /** A parsed address, as netip.Addr: "::ffff:1.2.3.4" is a V6. */
  datatype Addr = V4(bits: nat) | V6(bits: nat)

  function Width(v4: bool): nat {
    if v4 then 32 else 128
  }

  function Size(v4: bool): nat {
    if v4 then TWO32 else TWO128
  }

  predicate ValidAddr(a: Addr) {
    a.bits < Size(a.V4?)
  }

  /** net.IP holds 16 bytes; an IPv4 address is one under the mapped prefix. */
  predicate IsMapped(ip: nat) {
    ip / TWO32 == 0xffff
  }

  /** Where an address of a request lives as an IP packet's source. */
  function SourceOf(ip: nat): (a: Addr)
    requires ip < TWO128
    ensures ValidAddr(a)
  {
    if IsMapped(ip) then V4(ip % TWO32) else V6(ip)
  }

  /** net.IP.String. */
  function IpString(ip: nat): string
    requires ip < TWO128
  {
    if IsMapped(ip) then Print4(ip % TWO32) else Print6(ToGroups(ip, 8))
  }

  /** netip.ParseAddr; text with a zone is refused by every caller. */
  function ParseAddr(s: string): (r: Option<Addr>)
    ensures r.Some? ==> ValidAddr(r.value)
  {
    if ':' in s then
      var g := Parse6(s);
      if g == None then None
      else
        FromGroupsFits(g.value);
        FitsBound(FromGroups(g.value));
        Some(V6(FromGroups(g.value)))
    else
      var a := Parse4(s);
      if a == None then None else Some(V4(a.value))
  }

  /** net.ParseIP: the 16-byte form. */
  function ParseIP(s: string): (r: Option<nat>)
    ensures r.Some? ==> r.value < TWO128
  {
    match ParseAddr(s)
    case None => None
    case Some(V4(a)) => Some(0xffff * TWO32 + a)
    case Some(V6(a)) => Some(a)
  }

  // ---------------------------------------------------------------- networks

  function Pow2(n: nat): (p: nat)
    ensures p > 0
  {
    if n == 0 then 1 else 2 * Pow2(n - 1)
  }

  lemma Pow2Small()
    ensures Pow2(0) == 1 && Pow2(8) == 0x100
  {
    assert Pow2(4) == 16;
  }

  lemma Pow2Values()
    ensures Pow2(32) == TWO32 && Pow2(128) == TWO128
  {
    Pow2Small();
    Pow2Doubles(8, 8);
    assert Pow2(16) == 0x1_0000;
    Pow2Doubles(16, 16);
    assert Pow2(32) == TWO32;
    Pow2Doubles(32, 32);
    assert Pow2(64) == 0x1_0000_0000_0000_0000;
    Pow2Doubles(64, 64);
  }

  lemma {:induction false} Pow2Doubles(a: nat, b: nat)
    ensures Pow2(a + b) == Pow2(a) * Pow2(b)
  {
    if b > 0 {
      Pow2Doubles(a, b - 1);
      assert Pow2(a + b) == 2 * Pow2(a + (b - 1));
    }
  }

  /** Clears the bits below the prefix. */
  function Mask(bits: nat, hostBits: nat): (r: nat)
    ensures r <= bits < r + Pow2(hostBits) && r % Pow2(hostBits) == 0
  {
    MaskBounds(bits, Pow2(hostBits));
    bits - bits % Pow2(hostBits)
  }

  lemma MaskBounds(x: nat, m: nat)
    requires m > 0
    ensures x % m < m && x % m <= x && (x - x % m) % m == 0
  {
    assert x == m * (x / m) + x % m;
    MultipleOf(x / m, m);
  }

  lemma TimesMonotone(m: nat, a: int, b: int)
    requires a <= b
    ensures m * a <= m * b
  {
    assert m * (b - a) >= 0;
  }

  lemma MultipleOf(q: nat, m: nat)
    requires m > 0
    ensures (m * q) % m == 0 && (m * q) / m == q
  {
    QuotientUnique(m * q, q, m);
  }

  /** The quotient is the only number of whole multiples that fits. */
  lemma QuotientUnique(x: nat, q: nat, m: nat)
    requires m > 0 && m * q <= x < m * q + m
    ensures x / m == q && x % m == x - m * q
  {
    var p := x / m;
    assert x == m * p + x % m;
    if p < q {
      TimesMonotone(m, p + 1, q);
    } else if q < p {
      TimesMonotone(m, q + 1, p);
    }
  }

  /** A network: the addresses sharing the first `ones` bits of `base`. */
  datatype Net = Net(v4: bool, base: nat, ones: nat) {
    function HostBits(): nat {
      if ones <= Width(v4) then Width(v4) - ones else 0
    }

    ghost predicate Valid() {
      ones <= Width(v4) && base < Size(v4) && base % Pow2(HostBits()) == 0
    }

    predicate Contains(a: Addr) {
      a.V4? == v4 && base <= a.bits < base + Pow2(HostBits())
    }

    /** The text Go gives an IPv4-mapped IPv6 network is a dotted quad with an IPv6
        prefix length, which nothing reads back. */
    predicate Readable() {
      v4 || !IsMapped(base)
    }
  }

  /** The 16 bytes of a network's address. */
  function IpOf(n: Net): (ip: nat)
    requires n.base < Size(n.v4)
    ensures ip < TWO128
    ensures n.v4 ==> IsMapped(ip) && ip % TWO32 == n.base
    ensures !n.v4 ==> ip == n.base
  {
    if n.v4 then 0xffff * TWO32 + n.base else n.base
  }

  function NetText(n: Net): string
    requires n.base < Size(n.v4)
  {
    IpString(IpOf(n)) + "/" + NumText(n.ones, 10)
  }

  /** net.ParseCIDR, keeping the network. */
  function ParseCIDR(s: string): (r: Option<Net>)
    ensures r.Some? ==> r.value.Valid()
  {
    var parts := Split(s, '/');
    if |parts| != 2 then None
    else
      var a, n := ParseAddr(parts[0]), NumValue(parts[1], 10);
      if a == None || n == None || n.value > Width(a.value.V4?) then None
      else Some(NetOf(a.value, n.value))
  }

  /** The network of an address and a prefix length. */
  function NetOf(a: Addr, ones: nat): (n: Net)
    requires ValidAddr(a) && ones <= Width(a.V4?)
    ensures n.Valid() && n.Contains(a)
  {
    Net(a.V4?, Mask(a.bits, Width(a.V4?) - ones), ones)
  }

  function CanonicalCIDR(s: string, allowV4: bool, allowV6: bool): Option<string> {
    var n := ParseCIDR(TrimSpace(s));
    if n == None || !(if n.value.v4 then allowV4 else allowV6) then None
    else Some(NetText(n.value))
  }

  datatype Family = IPv4 | IPv6 | Neither

  function FamilyOfCIDR(s: string): Family {
    match ParseCIDR(TrimSpace(s))
    case None => Neither
    case Some(n) => if n.v4 then IPv4 else IPv6
  }

  datatype Recorded = Cidr(text: string) | NilIp | V4NotAllowed | V6NotAllowed

  /** The CIDR recorded for an authenticated source address. */
  function CIDRForRequest(ip: Option<nat>, expand24: bool, allowExpand: bool, allowV4: bool, allowV6: bool): Recorded
    requires ip.Some? ==> ip.value < TWO128
  {
    if ip == None then NilIp
    else if IsMapped(ip.value) then
      if !allowV4 then V4NotAllowed
      else if expand24 && allowExpand then
        Cidr(IpString(0xffff * TWO32 + Mask(ip.value % TWO32, 8)) + "/24")
      else Cidr(IpString(ip.value) + "/32")
    else if !allowV6 then V6NotAllowed
    else Cidr(IpString(ip.value) + "/128")
  }

  // ---------------------------------------------------------- reading text back

  lemma IpStringChars(ip: nat, c: char)
    requires ip < TWO128 && c !in {'.', ':'} && DigitValue(c) == None
    ensures c !in IpString(ip)
  {
    AddressChars(c);
  }

  lemma ParseIpString(ip: nat)
    requires ip < TWO128
    ensures ParseAddr(IpString(ip)) == Some(SourceOf(ip))
  {
    if IsMapped(ip) {
      RoundTrip4(ip % TWO32);
      AddressChars(':');
    } else {
      var g := ToGroups(ip, 8);
      RoundTrip6(g);
      Print6HasColon(g);
      Fits128(ip);
      GroupsRoundTrip(ip, 8);
    }
  }

  /** Reading an address and a prefix length written with a slash between. */
  lemma ParseWritten(ip: nat, ones: nat)
    requires ip < TWO128
    ensures var a := SourceOf(ip);
            ParseCIDR(IpString(ip) + "/" + NumText(ones, 10)) ==
            if ones <= Width(a.V4?) then Some(NetOf(a, ones)) else None
  {
    ParseIpString(ip);
    IpStringChars(ip, '/');
    NumRoundTrip(ones, 10);
    NotInNumber(ones, 10, '/');
    SplitCons(IpString(ip), '/', NumText(ones, 10));
    SplitOne(NumText(ones, 10), '/');
    assert IpString(ip) + "/" + NumText(ones, 10) == IpString(ip) + ['/'] + NumText(ones, 10);
    assert Split(IpString(ip) + "/" + NumText(ones, 10), '/') == [IpString(ip), NumText(ones, 10)];
  }

  lemma NetTextChars(n: Net, c: char)
    requires n.base < Size(n.v4) && c !in {'.', ':', '/'} && DigitValue(c) == None
    ensures c !in NetText(n)
  {
    IpStringChars(IpOf(n), c);
    NotInNumber(n.ones, 10, c);
  }

  lemma MaskAligned(x: nat, m: nat)
    requires m > 0 && x % m == 0
    ensures x - x % m == x
  {
  }

  lemma MultipleOfProduct(x: nat, m: nat, k: nat)
    requires m > 0 && k > 0 && m * k > 0 && x % (m * k) == 0
    ensures x % m == 0
  {
    var q := x / (m * k);
    assert x == (m * k) * q;
    assert (m * k) * q == m * (k * q);
    MultipleOf(k * q, m);
  }

  /** A mapped network has a prefix longer than any IPv4 one: shorter prefixes
      would have cleared the ffff. */
  lemma MappedPrefixLong(n: Net)
    requires n.Valid() && !n.v4 && IsMapped(n.base)
    ensures n.ones >= 96
  {
    var h := n.HostBits();
    if h >= 33 {
      Pow2Doubles(33, h - 33);
      Pow2Doubles(1, 32);
      Pow2Values();
      MultipleOfProduct(n.base, Pow2(33), Pow2(h - 33));
    }
  }

  lemma NetOfBase(n: Net)
    requires n.Valid()
    ensures NetOf(if n.v4 then V4(n.base) else V6(n.base), n.ones) == n
  {
    MaskAligned(n.base, Pow2(n.HostBits()));
  }

  lemma SourceOfReadable(n: Net)
    requires n.Valid() && n.Readable()
    ensures SourceOf(IpOf(n)) == if n.v4 then V4(n.base) else V6(n.base)
  {
  }

  /** Canonical text reads back as the network it was written for, exactly when the
      network is not an IPv4-mapped one. */
  lemma NetTextReadsBack(n: Net)
    requires n.Valid()
    ensures ParseCIDR(NetText(n)) == if n.Readable() then Some(n) else None
  {
    ParseWritten(IpOf(n), n.ones);
    if n.Readable() {
      SourceOfReadable(n);
      NetOfBase(n);
    } else {
      MappedPrefixLong(n);
    }
  }

  lemma NetTextTrimmed(n: Net)
    requires n.Valid()
    ensures TrimSpace(NetText(n)) == NetText(n)
  {
    var a, d := IpString(IpOf(n)), NumText(n.ones, 10);
    assert NetText(n) == a + (['/'] + d);
    NumChars(n.ones, 10);
    NotBlankEnds(a, ['/'] + d) by {
      forall c | c in a ensures !Blank(c) {
        if Blank(c) { IpStringChars(IpOf(n), c); }
      }
      assert d[|d| - 1] in d;
    }
  }

  lemma NotBlankEnds(a: string, b: string)
    requires b != [] && !Blank(b[0]) && !Blank(b[|b| - 1]) && forall c :: c in a ==> !Blank(c)
    ensures TrimSpace(a + b) == a + b
  {
    assert a == [] || a[0] in a;
    TrimNothing(a + b);
  }

  // ------------------------------------------------------------- main results

  /** Canonicalising twice is canonicalising once, exactly when the first result is
      not an IPv4-mapped network; then the second time nothing is accepted. */
  lemma CanonicalIdempotent(s: string, allowV4: bool, allowV6: bool)
    requires CanonicalCIDR(s, allowV4, allowV6).Some?
    ensures var c := CanonicalCIDR(s, allowV4, allowV6).value;
            CanonicalCIDR(c, allowV4, allowV6) ==
            if ParseCIDR(TrimSpace(s)).value.Readable() then Some(c) else None
  {
    var n := ParseCIDR(TrimSpace(s)).value;
    NetTextTrimmed(n);
    NetTextReadsBack(n);
  }

  /** The address part of a text, for networks that do and do not read back. */
  lemma TextParts(n: Net)
    requires n.Valid()
    ensures var ip := IpOf(n);
            Split(NetText(n), '/') == [IpString(ip), NumText(n.ones, 10)]
  {
    var ip := IpOf(n);
    IpStringChars(ip, '/');
    NotInNumber(n.ones, 10, '/');
    SplitCons(IpString(ip), '/', NumText(n.ones, 10));
    SplitOne(NumText(n.ones, 10), '/');
    assert NetText(n) == IpString(ip) + ['/'] + NumText(n.ones, 10);
  }

  /** Two networks have the same canonical text only if they are the same network,
      mapped ones included: textual de-duplication is semantic. */
  lemma SameTextSameNet(a: Net, b: Net)
    requires a.Valid() && b.Valid() && NetText(a) == NetText(b)
    ensures a == b
  {
    TextParts(a);
    TextParts(b);
    NumRoundTrip(a.ones, 10);
    NumRoundTrip(b.ones, 10);
    ParseIpString(IpOf(a));
    ParseIpString(IpOf(b));
    if !a.v4 && IsMapped(a.base) { MappedPrefixLong(a); }
    if !b.v4 && IsMapped(b.base) { MappedPrefixLong(b); }
  }

  /** A network is determined by the addresses in it. */
  lemma SameAddressesSameNet(a: Net, b: Net)
    requires a.Valid() && b.Valid()
    requires forall x :: ValidAddr(x) ==> (a.Contains(x) <==> b.Contains(x))
    ensures a == b
  {
    var lowA := if a.v4 then V4(a.base) else V6(a.base);
    var lowB := if b.v4 then V4(b.base) else V6(b.base);
    assert a.Contains(lowA) && b.Contains(lowB);
    assert b.Contains(lowA) && a.Contains(lowB);
    if a.ones != b.ones {
      var wide, narrow := if a.ones < b.ones then a else b, if a.ones < b.ones then b else a;
      var beyond := narrow.base + Pow2(narrow.HostBits());
      Pow2Grows(narrow.HostBits(), wide.HostBits());
      NetFits(wide);
      var x := if a.v4 then V4(beyond) else V6(beyond);
      assert wide.Contains(x) && !narrow.Contains(x);
    }
  }

  lemma {:induction false} Pow2Grows(a: nat, b: nat)
    requires a < b
    ensures Pow2(a) < Pow2(b)
  {
    if a + 1 < b {
      Pow2Grows(a, b - 1);
    }
  }

  /** The last address of a network is an address. */
  lemma NetFits(n: Net)
    requires n.Valid()
    ensures n.base + Pow2(n.HostBits()) <= Size(n.v4)
  {
    var h := n.HostBits();
    Pow2Doubles(h, Width(n.v4) - h);
    Pow2Values();
    AlignedFits(n.base, Pow2(h), Pow2(Width(n.v4) - h));
  }

  lemma AlignedFits(x: nat, m: nat, k: nat)
    requires m > 0 && x % m == 0 && x < m * k
    ensures x + m <= m * k
  {
    var q := x / m;
    assert x == m * q;
    if q >= k {
      TimesMonotone(m, k, q);
    } else {
      TimesMonotone(m, q + 1, k);
    }
  }

  /** RFC 4632 section 3.1: the network of an address holds exactly the addresses
      of its family with the same leading bits. */
  lemma SamePrefix(a: Addr, ones: nat, x: Addr)
    requires ValidAddr(a) && ones <= Width(a.V4?) && x.V4? == a.V4?
    ensures NetOf(a, ones).Contains(x) <==>
            x.bits / Pow2(Width(a.V4?) - ones) == a.bits / Pow2(Width(a.V4?) - ones)
  {
    QuotientRange(a.bits, x.bits, Pow2(Width(a.V4?) - ones));
  }

  lemma QuotientRange(a: nat, x: nat, m: nat)
    requires m > 0
    ensures a - a % m <= x < a - a % m + m <==> x / m == a / m
  {
    assert a - a % m == m * (a / m);
    if m * (a / m) <= x < m * (a / m) + m {
      QuotientUnique(x, a / m, m);
    } else {
      assert x == m * (x / m) + x % m;
    }
  }

  /** Two accepted texts get the same canonical text iff they denote the same set of
      addresses. */
  lemma SameTextIffSameAddresses(s: string, t: string)
    requires ParseCIDR(TrimSpace(s)).Some? && ParseCIDR(TrimSpace(t)).Some?
    ensures var a, b := ParseCIDR(TrimSpace(s)).value, ParseCIDR(TrimSpace(t)).value;
            NetText(a) == NetText(b) <==>
            forall x :: ValidAddr(x) ==> (a.Contains(x) <==> b.Contains(x))
  {
    var a, b := ParseCIDR(TrimSpace(s)).value, ParseCIDR(TrimSpace(t)).value;
    if NetText(a) == NetText(b) {
      SameTextSameNet(a, b);
    }
    if forall x :: ValidAddr(x) ==> (a.Contains(x) <==> b.Contains(x)) {
      SameAddressesSameNet(a, b);
    }
  }

  /** Which requests get a CIDR: those from an address of an allowed family. */
  lemma RequestDecided(ip: Option<nat>, expand24: bool, allowExpand: bool, allowV4: bool, allowV6: bool)
    requires ip.Some? ==> ip.value < TWO128
    ensures var r := CIDRForRequest(ip, expand24, allowExpand, allowV4, allowV6);
            && (r == NilIp <==> ip == None)
            && (r == V4NotAllowed <==> ip.Some? && SourceOf(ip.value).V4? && !allowV4)
            && (r == V6NotAllowed <==> ip.Some? && SourceOf(ip.value).V6? && !allowV6)
            && (r.Cidr? <==> ip.Some? && if SourceOf(ip.value).V4? then allowV4 else allowV6)
  {
  }

  /** What the server records is canonical text of a network that reads back and
      contains the requester: receivers publish it unchanged. */
  lemma RequestCidrCanonical(ip: nat, expand24: bool, allowExpand: bool, allowV4: bool, allowV6: bool) returns (n: Net)
    requires ip < TWO128 && CIDRForRequest(Some(ip), expand24, allowExpand, allowV4, allowV6).Cidr?
    ensures n.Valid() && n.Readable() && n.Contains(SourceOf(ip)) && n.v4 == SourceOf(ip).V4?
    ensures CIDRForRequest(Some(ip), expand24, allowExpand, allowV4, allowV6).text == NetText(n)
    ensures n.ones == (if !n.v4 then 128 else if expand24 && allowExpand then 24 else 32)
    ensures if n.v4 then allowV4 else allowV6
  {
    var ones := if !IsMapped(ip) then 128 else if expand24 && allowExpand then 24 else 32;
    n := NetOf(SourceOf(ip), ones);
    RequestText(ip, ones);
  }

  lemma RequestText(ip: nat, ones: nat)
    requires ip < TWO128 && ones in (if IsMapped(ip) then {24, 32} else {128})
    ensures var n := NetOf(SourceOf(ip), ones);
            && n.Readable()
            && (ones == 24 ==> NetText(n) == IpString(0xffff * TWO32 + Mask(ip % TWO32, 8)) + "/24")
            && (ones == 32 ==> NetText(n) == IpString(ip) + "/32")
            && (ones == 128 ==> NetText(n) == IpString(ip) + "/128")
  {
    var n := NetOf(SourceOf(ip), ones);
    NumTextOf();
    SlashNumber(IpString(IpOf(n)));
    if ones != 24 {
      MaskNothing(SourceOf(ip).bits);
      SameIp(n, ip);
    }
  }

  lemma SlashNumber(a: string)
    ensures a + "/" + "24" == a + "/24" && a + "/" + "32" == a + "/32" && a + "/" + "128" == a + "/128"
  {
  }

  lemma SameIp(n: Net, ip: nat)
    requires ip < TWO128 && n.base < Size(n.v4) && SourceOf(ip) == if n.v4 then V4(n.base) else V6(n.base)
    ensures IpOf(n) == ip
  {
    assert IsMapped(ip) ==> ip == 0xffff * TWO32 + ip % TWO32;
  }

  lemma MaskNothing(x: nat)
    ensures Mask(x, 0) == x
  {
    assert Pow2(0) == 1;
  }

  lemma NumTextOf()
    ensures NumText(24, 10) == "24" && NumText(32, 10) == "32" && NumText(128, 10) == "128"
  {
    assert NumText(12, 10) == "12";
  }

  // ---------------------------------------------------------------- two addresses

  lemma QuadExample()
    ensures Print4(192 * 0x100_0000 + 2 * 256 + 1) == "192.0.2.1"
  {
    var a := 192 * 0x100_0000 + 2 * 256 + 1;
    assert Octets(a) == [192, 0, 2, 1];
    assert NumText(19, 10) == "19" && NumText(192, 10) == "192";
    var f := NumTexts(Octets(a), 10);
    assert f == ["192", "0", "2", "1"];
    JoinFour("192", "0", "2", "1", '.');
  }

  lemma JoinFour(a: string, b: string, c: string, d: string, sep: char)
    ensures Join([a, b, c, d], sep) == a + [sep] + (b + [sep] + (c + [sep] + d))
  {
    JoinMore(a, [b, c, d], sep);
    JoinMore(b, [c, d], sep);
    JoinMore(c, [d], sep);
  }

  lemma JoinMore(a: string, rest: seq<string>, sep: char)
    requires rest != []
    ensures Join([a] + rest, sep) == a + [sep] + Join(rest, sep)
    ensures |rest| == 1 ==> Join(rest, sep) == rest[0]
  {
    assert ([a] + rest)[1..] == rest;
  }

  lemma GroupsExample()
    ensures Print6([0x2001, 0xdb8, 0, 0, 0, 0, 0, 1]) == "2001:db8::1"
  {
    hide NumText, Join, Print6, BestRun, JoinHex, ZeroRun;
    var g := [0x2001, 0xdb8, 0, 0, 0, 0, 0, 1];
    var from, to := Print6Shortens(g);
    FiveZeros(g);
    OnlyRun(g, from, to);
    assert g[..2] == [0x2001, 0xdb8] && g[7..] == [1];
    HexParts();
    assert "2001:db8" + "::" + "1" == "2001:db8::1";
  }

  lemma FiveZeros(g: seq<nat>)
    requires g == [0x2001, 0xdb8, 0, 0, 0, 0, 0, 1]
    ensures ZeroRun(g, 2, 7)
  {
  }

  lemma OnlyRun(g: seq<nat>, from: nat, to: nat)
    requires g == [0x2001, 0xdb8, 0, 0, 0, 0, 0, 1] && ZeroRun(g, from, to) && to - from >= 5
    ensures from == 2 && to == 7
  {
    assert g[1] != 0 && g[7] != 0;
  }

  lemma HexParts()
    ensures JoinHex([0x2001, 0xdb8]) == "2001:db8" && JoinHex([1]) == "1"
  {
    hide NumText, Join;
    HexExamples();
    assert NumTexts([0x2001, 0xdb8], 16) == ["2001"] + ["db8"] && NumTexts([1], 16) == ["1"];
    JoinMore("2001", ["db8"], ':');
    JoinOne("1", ':');
  }

  lemma JoinOne(a: string, sep: char)
    ensures Join([a], sep) == a
  {
  }

  lemma HexExamples()
    ensures NumText(0x2001, 16) == "2001" && NumText(0xdb8, 16) == "db8" && NumText(1, 16) == "1"
  {
    assert NumText(2, 16) == "2" && NumText(0x20, 16) == "20" && NumText(0x200, 16) == "200";
    assert NumText(0xd, 16) == "d" && NumText(0xdb, 16) == "db";
  }
}
