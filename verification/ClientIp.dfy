/** Which address a request is taken to come from: proxy headers are believed only
    when the connection comes from a configured proxy. */
module ClientIp {
  import opened Text
  import opened IpText
  import opened Ipx

  /** net.IPNet.Contains: an IPv4-mapped IPv6 network is looked at as the IPv4 one. */
  predicate Holds(n: Net, ip: nat)
    requires ip < TWO128
  {
    AsGo(n).Contains(SourceOf(ip))
  }

  function AsGo(n: Net): Net {
    if !n.v4 && IsMapped(n.base) && n.ones >= 96 then Net(true, n.base % TWO32, n.ones - 96) else n
  }

  predicate Trusted(trusted: seq<Net>, ip: nat)
    requires ip < TWO128
  {
    exists i :: 0 <= i < |trusted| && Holds(trusted[i], ip)
  }

  method PeerTrusted(trusted: seq<Net>, ip: nat) returns (r: bool)
    requires ip < TWO128
    ensures r == Trusted(trusted, ip)
  {
    for i := 0 to |trusted|
      invariant forall k :: 0 <= k < i ==> !Holds(trusted[k], ip)
    {
      if Holds(trusted[i], ip) {
        return true;
      }
    }
    return false;
  }

  // ---------------------------------------------------------------- usable addresses

  /** The first two bytes of an address. */
  function FirstTwo(a: Addr): int {
    a.bits / Pow2(Width(a.V4?) - 16)
  }

  /** Not unspecified, loopback, private, multicast or link-local, as net.IP tells. */
  predicate Usable(ip: nat)
    requires ip < TWO128
  {
    var a := SourceOf(ip);
    var b0, b1 := FirstTwo(a) / 256, FirstTwo(a) % 256;
    if a.V4? then
      && a.bits != 0
      && b0 != 127
      && b0 != 10 && !(b0 == 172 && b1 / 16 == 1) && !(b0 == 192 && b1 == 168)
      && b0 / 16 != 14
      && !(b0 == 169 && b1 == 254)
    else
      && a.bits != 0
      && a.bits != 1
      && b0 / 2 != 0xfc / 2
      && b0 != 0xff
      && !(b0 == 0xfe && b1 / 64 == 2)
  }

  /** The network of the addresses with these leading bits. */
  function Block(v4: bool, top: nat, ones: nat): Net
    requires ones <= Width(v4)
  {
    Net(v4, top * Pow2(Width(v4) - ones), ones)
  }

  /** The address blocks that are not for clients on the Internet. */
  function Reserved(v4: bool): seq<Net> {
    if v4 then
      [Block(true, 0, 32), Block(true, 127, 8), Block(true, 10, 8), Block(true, 172 * 16 + 1, 12),
       Block(true, 192 * 256 + 168, 16), Block(true, 14, 4), Block(true, 169 * 256 + 254, 16)]
    else
      [Block(false, 0, 128), Block(false, 1, 128), Block(false, 0xfc / 2, 7), Block(false, 0xff, 8),
       Block(false, 0xfe * 4 + 2, 10)]
  }

  lemma BlockContains(top: nat, ones: nat, a: Addr)
    requires ones <= Width(a.V4?)
    ensures Block(a.V4?, top, ones).Contains(a) <==> a.bits / Pow2(Width(a.V4?) - ones) == top
  {
    var m := Pow2(Width(a.V4?) - ones);
    MultipleOf(top, m);
    if a.bits / m == top {
      assert a.bits == m * top + a.bits % m;
    } else if top * m <= a.bits < top * m + m {
      QuotientUnique(a.bits, top, m);
    }
  }

  lemma DivideTwice(x: nat, m: nat, k: nat)
    requires m > 0 && k > 0
    ensures m * k > 0 && x / (m * k) == x / m / k
  {
    var q: nat, r := x / m, x % m;
    var p: nat, u := q / k, q % k;
    TimesMonotone(m, u + 1, k);
    Regroup(x, m, k, q, r, p, u);
    QuotientUnique(x, p, m * k);
  }

  lemma Regroup(x: nat, m: nat, k: nat, q: nat, r: nat, p: nat, u: nat)
    requires x == m * q + r && q == k * p + u && r < m
    ensures (m * k) * p <= x < (m * k) * p + m * (u + 1)
  {
    assert m * q == m * (k * p) + m * u;
    assert m * (k * p) == (m * k) * p && m * (u + 1) == m * u + m;
    assert m * u >= 0;
  }

  /** Whether an address is in a block of at most 16 leading bits shows in its first
      two bytes. */
  lemma BlockOfFirstTwo(top: nat, ones: nat, a: Addr)
    requires ones <= 16
    ensures Block(a.V4?, top, ones).Contains(a) <==> FirstTwo(a) / Pow2(16 - ones) == top
  {
    var w := Width(a.V4?);
    BlockContains(top, ones, a);
    Pow2Doubles(w - 16, 16 - ones);
    DivideTwice(a.bits, Pow2(w - 16), Pow2(16 - ones));
  }

  lemma SmallPowers()
    ensures Pow2(0) == 1 && Pow2(4) == 16 && Pow2(6) == 64 && Pow2(8) == 256 && Pow2(9) == 512
    ensures Pow2(12) == 4096
  {
    Pow2Small();
    assert Pow2(4) == 16;
    Pow2Doubles(8, 4);
  }

  lemma UsableV4(ip: nat)
    requires ip < TWO128 && IsMapped(ip)
    ensures Usable(ip) <==> forall i :: 0 <= i < 7 ==> !Reserved(true)[i].Contains(SourceOf(ip))
  {
    var a := SourceOf(ip);
    SmallPowers();
    BlockContains(0, 32, a);
    BlockOfFirstTwo(127, 8, a);
    BlockOfFirstTwo(10, 8, a);
    BlockOfFirstTwo(172 * 16 + 1, 12, a);
    BlockOfFirstTwo(192 * 256 + 168, 16, a);
    BlockOfFirstTwo(14, 4, a);
    BlockOfFirstTwo(169 * 256 + 254, 16, a);
    FourBits(FirstTwo(a));
    hide Block, Pow2;
    var nets := Reserved(true);
    assert nets[0] == Block(true, 0, 32) && nets[1] == Block(true, 127, 8) && nets[2] == Block(true, 10, 8);
    assert nets[3] == Block(true, 172 * 16 + 1, 12) && nets[4] == Block(true, 192 * 256 + 168, 16);
    assert nets[5] == Block(true, 14, 4) && nets[6] == Block(true, 169 * 256 + 254, 16);
  }

  lemma FourBits(q: int)
    ensures q / 256 / 16 == q / 4096 && q / 256 / 2 == q / 512
    ensures q / 256 == 172 && q % 256 / 16 == 1 <==> q / 16 == 172 * 16 + 1
    ensures q / 256 == 0xfe && q % 256 / 64 == 2 <==> q / 64 == 0xfe * 4 + 2
  {
  }

  lemma UsableV6(ip: nat)
    requires ip < TWO128 && !IsMapped(ip)
    ensures Usable(ip) <==> forall i :: 0 <= i < 5 ==> !Reserved(false)[i].Contains(SourceOf(ip))
  {
    var a := SourceOf(ip);
    SmallPowers();
    BlockContains(0, 128, a);
    BlockContains(1, 128, a);
    BlockOfFirstTwo(0xfc / 2, 7, a);
    BlockOfFirstTwo(0xff, 8, a);
    BlockOfFirstTwo(0xfe * 4 + 2, 10, a);
    FourBits(FirstTwo(a));
    hide Block, Pow2;
    var nets := Reserved(false);
    assert nets[0] == Block(false, 0, 128) && nets[1] == Block(false, 1, 128) && nets[2] == Block(false, 0xfc / 2, 7);
    assert nets[3] == Block(false, 0xff, 8) && nets[4] == Block(false, 0xfe * 4 + 2, 10);
  }

  /** The byte tests together refuse exactly the reserved blocks. */
  lemma UsableOutsideReserved(ip: nat)
    requires ip < TWO128
    ensures var nets := Reserved(IsMapped(ip));
            Usable(ip) <==> forall i :: 0 <= i < |nets| ==> !nets[i].Contains(SourceOf(ip))
  {
    if IsMapped(ip) {
      UsableV4(ip);
    } else {
      UsableV6(ip);
    }
  }

  // ---------------------------------------------------------------- the header scan

  /** What one element of a header reads as. */
  function Element(part: string): (ip: Option<nat>)
    ensures ip.Some? ==> ip.value < TWO128
  {
    ParseIP(TrimSpace(part))
  }

  /** An address that no trusted proxy has added itself. */
  predicate Candidate(trusted: seq<Net>, part: string) {
    Element(part).Some? && !Trusted(trusted, Element(part).value)
  }

  function UsableElement(part: string): (ip: Option<nat>)
    ensures ip.Some? ==> ip.value < TWO128 && Usable(ip.value)
  {
    if Element(part).Some? && Usable(Element(part).value) then Element(part) else None
  }

  function Candidates(trusted: seq<Net>): string -> bool {
    part => Candidate(trusted, part)
  }

  /** The index of the last element that qualifies, or -1. */
  function Rightmost<T>(p: T -> bool, s: seq<T>): (i: int)
    ensures -1 <= i < |s| && (i >= 0 ==> p(s[i]))
  {
    if s == [] then -1
    else if p(s[|s| - 1]) then |s| - 1
    else Rightmost(p, s[..|s| - 1])
  }

  lemma {:induction false} RightmostLast<T>(p: T -> bool, s: seq<T>, j: nat)
    requires Rightmost(p, s) < j < |s|
    ensures !p(s[j])
  {
    if j < |s| - 1 {
      RightmostLast(p, s[..|s| - 1], j);
    }
  }

  lemma RightmostUnique<T>(p: T -> bool, s: seq<T>, i: nat)
    requires i < |s| && p(s[i]) && forall j :: i < j < |s| ==> !p(s[j])
    ensures Rightmost(p, s) == i
  {
    if Rightmost(p, s) < i {
      RightmostLast(p, s, i);
    }
  }

  lemma RightmostTurn<T>(p: T -> bool, s: seq<T>, i: nat)
    requires Rightmost(p, s) <= i < |s|
    ensures p(s[i]) <==> Rightmost(p, s) == i
  {
    if Rightmost(p, s) < i {
      RightmostLast(p, s, i);
    }
  }

  function AtRightmost<T, U>(p: T -> bool, f: T -> Option<U>, s: seq<T>): Option<U> {
    var i := Rightmost(p, s);
    if i < 0 then None else f(s[i])
  }

  /** The address chosen from the parts of a header. */
  function Picked(trusted: seq<Net>, parts: seq<string>): (ip: Option<nat>)
    ensures ip.Some? ==> ip.value < TWO128 && Usable(ip.value)
  {
    AtRightmost(Candidates(trusted), UsableElement, parts)
  }

  /** One turn of the scan: whether it ends here, and with what. */
  method TryElement(trusted: seq<Net>, part: string) returns (ends: bool, r: Option<nat>)
    ensures ends == Candidates(trusted)(part)
    ensures ends ==> r == UsableElement(part)
  {
    var ip := ParseIP(TrimSpace(part));
    if ip == None {
      return false, None;
    }
    var known := PeerTrusted(trusted, ip.value);
    if known {
      return false, None;
    }
    if !Usable(ip.value) {
      return true, None;
    }
    return true, ip;
  }

  method ParseXForwardedFor(trusted: seq<Net>, value: string) returns (r: Option<nat>)
    ensures r == Picked(trusted, Split(value, ','))
  {
    var parts := Split(value, ',');
    for i := |parts| downto 0
      invariant Rightmost(Candidates(trusted), parts) < i
    {
      var ends, ip := TryElement(trusted, parts[i]);
      RightmostTurn(Candidates(trusted), parts, i);
      if ends {
        return ip;
      }
    }
    return None;
  }

  /** An address is returned iff it is usable and what the rightmost candidate reads as. */
  lemma RightmostCandidate(trusted: seq<Net>, parts: seq<string>, ip: nat)
    ensures Picked(trusted, parts) == Some(ip) <==>
            exists i :: 0 <= i < |parts| && UsableElement(parts[i]) == Some(ip) && Candidate(trusted, parts[i])
                        && forall j :: i < j < |parts| ==> !Candidate(trusted, parts[j])
  {
    var p := Candidates(trusted);
    if i :| 0 <= i < |parts| && UsableElement(parts[i]) == Some(ip) && Candidate(trusted, parts[i])
            && forall j :: i < j < |parts| ==> !Candidate(trusted, parts[j]) {
      assert forall j :: i < j < |parts| ==> !p(parts[j]);
      RightmostUnique(p, parts, i);
    }
    if Picked(trusted, parts) == Some(ip) {
      var i := Rightmost(p, parts);
      assert p(parts[i]);
      forall j | i < j < |parts| ensures !Candidate(trusted, parts[j]) {
        RightmostLast(p, parts, j);
        assert !p(parts[j]);
      }
    }
  }

  lemma {:induction false} RightmostAppend<T>(p: T -> bool, a: seq<T>, b: seq<T>)
    ensures Rightmost(p, a + b) == if Rightmost(p, b) < 0 then Rightmost(p, a) else |a| + Rightmost(p, b)
  {
    if b == [] {
      assert a + b == a;
    } else {
      var n := |b| - 1;
      RightmostAppend(p, a, b[..n]);
      assert (a + b)[..|a| + n] == a + b[..n];
    }
  }

  lemma AtRightmostAppend<T, U>(p: T -> bool, f: T -> Option<U>, a: seq<T>, b: seq<T>)
    ensures AtRightmost(p, f, a + b) == if Rightmost(p, b) < 0 then AtRightmost(p, f, a) else AtRightmost(p, f, b)
  {
    RightmostAppend(p, a, b);
  }

  ghost predicate HasCandidate(trusted: seq<Net>, parts: seq<string>) {
    exists i :: 0 <= i < |parts| && Candidate(trusted, parts[i])
  }

  lemma HasRightmost(trusted: seq<Net>, parts: seq<string>)
    ensures HasCandidate(trusted, parts) <==> Rightmost(Candidates(trusted), parts) >= 0
  {
    var p := Candidates(trusted);
    if i :| 0 <= i < |parts| && Candidate(trusted, parts[i]) {
      assert p(parts[i]);
      if Rightmost(p, parts) < i {
        RightmostLast(p, parts, i);
      }
    }
  }

  /** Prepending any text and a comma to a header that already holds a candidate changes
      nothing; without one, the result is what the prepended text alone gives. */
  lemma PrependedText(trusted: seq<Net>, prefix: string, value: string)
    ensures var parts := Split(value, ',');
            Picked(trusted, Split(prefix + [','] + value, ',')) ==
            if HasCandidate(trusted, parts) then Picked(trusted, parts) else Picked(trusted, Split(prefix, ','))
  {
    SplitAppend(prefix, ',', value);
    PickedAppend(trusted, Split(prefix, ','), Split(value, ','));
  }

  lemma PickedAppend(trusted: seq<Net>, a: seq<string>, b: seq<string>)
    ensures Picked(trusted, a + b) == if HasCandidate(trusted, b) then Picked(trusted, b) else Picked(trusted, a)
  {
    AtRightmostAppend(Candidates(trusted), UsableElement, a, b);
    HasRightmost(trusted, b);
  }

  /** The text of an address is a header element that reads as it. */
  lemma WrittenElement(ip: nat)
    requires ip < TWO128
    ensures Split(IpString(ip), ',') == [IpString(ip)] && Element(IpString(ip)) == Some(ip)
  {
    var s := IpString(ip);
    IpStringChars(ip, ',');
    SplitOne(s, ',');
    ParseIpString(ip);
    AddressNotBlank(ip);
    assert IsMapped(ip) ==> ip == 0xffff * TWO32 + ip % TWO32;
  }

  lemma AddressNotBlank(ip: nat)
    requires ip < TWO128
    ensures TrimSpace(IpString(ip)) == IpString(ip)
  {
    var s := IpString(ip);
    forall c | c in s ensures !Blank(c) {
      if Blank(c) { IpStringChars(ip, c); }
    }
    if s != [] {
      TrimNothing(s);
    }
  }

  /** Exactly when no text in front of a header can change what it gives. */
  lemma PrependHarmless(trusted: seq<Net>, value: string)
    ensures var parts := Split(value, ',');
            (forall prefix :: Picked(trusted, Split(prefix + [','] + value, ',')) == Picked(trusted, parts)) <==>
            HasCandidate(trusted, parts) || forall ip :: 0 <= ip < TWO128 && Usable(ip) ==> Trusted(trusted, ip)
  {
    var parts := Split(value, ',');
    forall prefix ensures Picked(trusted, Split(prefix + [','] + value, ',')) ==
      if HasCandidate(trusted, parts) then Picked(trusted, parts) else Picked(trusted, Split(prefix, ','))
    {
      PrependedText(trusted, prefix, value);
    }
    HasRightmost(trusted, parts);
    if !HasCandidate(trusted, parts) {
      if ip :| 0 <= ip < TWO128 && Usable(ip) && !Trusted(trusted, ip) {
        LoneElement(trusted, ip);
        assert Picked(trusted, Split(IpString(ip) + [','] + value, ',')) == Some(ip);
      } else {
        forall prefix ensures Picked(trusted, Split(prefix, ',')) == None {
          var i := Rightmost(Candidates(trusted), Split(prefix, ','));
          assert i >= 0 ==> Candidate(trusted, Split(prefix, ',')[i]);
        }
      }
    }
  }

  lemma LoneElement(trusted: seq<Net>, ip: nat)
    requires ip < TWO128 && Usable(ip) && !Trusted(trusted, ip)
    ensures Picked(trusted, Split(IpString(ip), ',')) == Some(ip)
  {
    WrittenElement(ip);
    var parts := [IpString(ip)];
    assert Candidate(trusted, parts[0]);
    RightmostUnique(Candidates(trusted), parts, 0);
  }

  // ---------------------------------------------------------------- the request

  const REMOTE_ADDR := "remote_addr"
  const X_FORWARDED_FOR := "x-forwarded-for"

  datatype Extractor = Extractor(trusted: seq<Net>, headers: seq<string>)

  datatype Found = Found(clientIp: Option<nat>, source: string)

  function SourceForHeader(header: string): string {
    if Lower(header) in ["cf-connecting-ip", "x-real-ip", X_FORWARDED_FOR] then Lower(header)
    else Lower(TrimSpace(header))
  }

  /** What a header of this name gives. */
  function HeaderIp(trusted: seq<Net>, header: string, value: string): Option<nat> {
    if SourceForHeader(header) == X_FORWARDED_FOR then Picked(trusted, Split(value, ','))
    else UsableElement(value)
  }

  /** What the first header that gives an address gives. */
  function FromHeaders(trusted: seq<Net>, headers: seq<string>, get: string -> string): Option<Found> {
    if headers == [] then None
    else
      var ip := HeaderIp(trusted, headers[0], get(headers[0]));
      if ip.Some? then Some(Found(ip, SourceForHeader(headers[0])))
      else FromHeaders(trusted, headers[1..], get)
  }

  function Extracted(e: Extractor, remote: Option<nat>, get: string -> string): Found
    requires remote.Some? ==> remote.value < TWO128
  {
    var direct := Found(remote, REMOTE_ADDR);
    if remote == None || !Trusted(e.trusted, remote.value) then direct
    else
      var found := FromHeaders(e.trusted, e.headers, get);
      if found == None then direct else found.value
  }

  // ------------------------------------------------------- what a request's headers say

  /** In none of the reserved blocks. */
  ghost predicate Unreserved(ip: nat)
    requires ip < TWO128
  {
    var nets := Reserved(IsMapped(ip));
    forall i :: 0 <= i < |nets| ==> !nets[i].Contains(SourceOf(ip))
  }

  /** The element is an address that no trusted network holds. */
  ghost predicate FromOutside(trusted: seq<Net>, part: string, ip: nat) {
    && ParseIP(TrimSpace(part)) == Some(ip)
    && forall k :: 0 <= k < |trusted| ==> !Holds(trusted[k], ip)
  }

  /** The header reads as this address: a chain by the last of its elements that comes from
      outside, any other header as a whole. */
  ghost predicate Reads(trusted: seq<Net>, header: string, value: string, ip: nat) {
    && ip < TWO128 && Unreserved(ip)
    && if Lower(TrimSpace(header)) == "x-forwarded-for" then
         var parts := Split(value, ',');
         exists i :: 0 <= i < |parts| && FromOutside(trusted, parts[i], ip)
                     && forall j, other :: i < j < |parts| ==> !FromOutside(trusted, parts[j], other)
       else ParseIP(TrimSpace(value)) == Some(ip)
  }

  /** The first header that reads as an address gives it, under the header's name; without
      one, and on a connection from no trusted proxy, the connection's own address stands. */
  ghost predicate Answers(e: Extractor, remote: Option<nat>, get: string -> string, r: Found)
    requires remote.Some? ==> remote.value < TWO128
  {
    if remote.Some? && exists k :: 0 <= k < |e.trusted| && Holds(e.trusted[k], remote.value) then
      && (forall i: nat, ip: nat :: First(e, get, i, ip) ==> r == Found(Some(ip), Lower(TrimSpace(e.headers[i]))))
      && (NoneBefore(e, get, |e.headers|) ==> r == Found(remote, "remote_addr"))
    else r == Found(remote, "remote_addr")
  }

  /** The header at `i` is the first that reads as an address, and it reads as `ip`. */
  ghost predicate First(e: Extractor, get: string -> string, i: nat, ip: nat) {
    i < |e.headers| && Reads(e.trusted, e.headers[i], get(e.headers[i]), ip) && NoneBefore(e, get, i)
  }

  ghost predicate NoneBefore(e: Extractor, get: string -> string, n: nat) {
    forall j, ip :: 0 <= j < n && j < |e.headers| ==> !Reads(e.trusted, e.headers[j], get(e.headers[j]), ip)
  }

  lemma LowerTrimmed(header: string)
    requires Lower(header) in ["cf-connecting-ip", "x-real-ip", X_FORWARDED_FOR]
    ensures TrimSpace(header) == header
  {
    var n := |header| - 1;
    assert |Lower(header)| == |header| && header != "";
    LowerMeans(header, 0);
    LowerMeans(header, n);
    assert Lower(header)[0] in {'c', 'x'} && Lower(header)[n] in {'p', 'r'};
    TrimNothing(header);
  }

  lemma HeaderLabel(header: string)
    ensures SourceForHeader(header) == Lower(TrimSpace(header))
  {
    if Lower(header) in ["cf-connecting-ip", "x-real-ip", X_FORWARDED_FOR] {
      LowerTrimmed(header);
    }
  }

  lemma UsableMeans(part: string, ip: nat)
    ensures UsableElement(part) == Some(ip) <==> ip < TWO128 && ParseIP(TrimSpace(part)) == Some(ip) && Unreserved(ip)
  {
    if ip < TWO128 {
      UsableOutsideReserved(ip);
    }
  }

  lemma CandidateMeans(trusted: seq<Net>, part: string)
    ensures Candidate(trusted, part) <==> exists ip: nat :: FromOutside(trusted, part, ip)
    ensures forall ip: nat :: FromOutside(trusted, part, ip) ==> Element(part) == Some(ip)
  {
    if Candidate(trusted, part) {
      assert FromOutside(trusted, part, Element(part).value);
    }
  }

  lemma ChainMeans(trusted: seq<Net>, parts: seq<string>, ip: nat)
    ensures Picked(trusted, parts) == Some(ip) <==>
            ip < TWO128 && Unreserved(ip) &&
            exists i :: 0 <= i < |parts| && FromOutside(trusted, parts[i], ip)
                        && forall j, other :: i < j < |parts| ==> !FromOutside(trusted, parts[j], other)
  {
    hide Picked, Candidate, UsableElement, Unreserved, FromOutside;
    RightmostCandidate(trusted, parts, ip);
    forall i | 0 <= i < |parts|
      ensures Candidate(trusted, parts[i]) <==> exists other :: FromOutside(trusted, parts[i], other)
      ensures UsableElement(parts[i]) == Some(ip) && Candidate(trusted, parts[i]) <==>
              ip < TWO128 && Unreserved(ip) && FromOutside(trusted, parts[i], ip)
    {
      CandidateMeans(trusted, parts[i]);
      UsableCandidate(trusted, parts[i], ip);
    }
  }

  lemma UsableCandidate(trusted: seq<Net>, part: string, ip: nat)
    ensures UsableElement(part) == Some(ip) && Candidate(trusted, part) <==>
            ip < TWO128 && Unreserved(ip) && FromOutside(trusted, part, ip)
  {
    UsableMeans(part, ip);
  }

  lemma HeaderMeans(trusted: seq<Net>, header: string, value: string, ip: nat)
    ensures HeaderIp(trusted, header, value) == Some(ip) <==> Reads(trusted, header, value, ip)
  {
    hide Picked, UsableElement, Unreserved, FromOutside, SourceForHeader;
    HeaderLabel(header);
    ChainMeans(trusted, Split(value, ','), ip);
    UsableMeans(value, ip);
  }

  /** What the headers give from the `n`-th on. */
  lemma {:induction false} FirstHeader(e: Extractor, get: string -> string, n: nat)
    requires n <= |e.headers| && NoneBefore(e, get, n)
    ensures var found := FromHeaders(e.trusted, e.headers[n..], get);
            && (found == None ==> NoneBefore(e, get, |e.headers|))
            && (found.Some? ==> exists i: nat, ip: nat ::
                  First(e, get, i, ip) && found.value == Found(Some(ip), Lower(TrimSpace(e.headers[i]))))
    decreases |e.headers| - n
  {
    if n < |e.headers| {
      hide Reads, HeaderIp, SourceForHeader;
      var h := e.headers[n];
      var ip := HeaderIp(e.trusted, h, get(h));
      assert e.headers[n..][1..] == e.headers[n + 1..];
      HeaderLabel(h);
      if ip.Some? {
        HeaderMeans(e.trusted, h, get(h), ip.value);
        assert First(e, get, n, ip.value);
      } else {
        forall other: nat ensures !Reads(e.trusted, h, get(h), other) {
          HeaderMeans(e.trusted, h, get(h), other);
        }
        FirstHeader(e, get, n + 1);
      }
    }
  }

  lemma HeaderDecides(e: Extractor, remote: Option<nat>, get: string -> string)
    requires remote.Some? ==> remote.value < TWO128
    ensures Answers(e, remote, get, Extracted(e, remote, get))
  {
    hide Reads;
    FirstHeader(e, get, 0);
    assert e.headers[0..] == e.headers;
    if remote.Some? && Trusted(e.trusted, remote.value) {
      OnlyFirst(e, get);
    }
  }

  /** Only one header is the first, and it reads as one address. */
  lemma OnlyFirst(e: Extractor, get: string -> string)
    ensures forall i: nat, j: nat, a: nat, b: nat :: First(e, get, i, a) && First(e, get, j, b) ==> i == j && a == b
  {
    hide Reads;
    forall i: nat, j: nat, a: nat, b: nat | First(e, get, i, a) && First(e, get, j, b) ensures i == j && a == b {
      HeaderMeans(e.trusted, e.headers[i], get(e.headers[i]), a);
      HeaderMeans(e.trusted, e.headers[j], get(e.headers[j]), b);
    }
  }

  /** `get` is the request's header lookup, "" for a missing one. */
  method Extract(e: Extractor, remote: Option<nat>, get: string -> string) returns (r: Found)
    requires remote.Some? ==> remote.value < TWO128
    ensures r == Extracted(e, remote, get)
    ensures Answers(e, remote, get, r)
  {
    HeaderDecides(e, remote, get);
    hide Answers;
    r := Found(remote, REMOTE_ADDR);
    if remote == None || |e.trusted| == 0 {
      return;
    }
    var known := PeerTrusted(e.trusted, remote.value);
    if !known {
      return;
    }
    for i := 0 to |e.headers|
      invariant FromHeaders(e.trusted, e.headers, get) == FromHeaders(e.trusted, e.headers[i..], get)
      invariant r == Found(remote, REMOTE_ADDR)
    {
      var header := e.headers[i];
      var value := get(header);
      assert e.headers[i..][1..] == e.headers[i + 1..];
      if TrimSpace(value) == "" {
        BlankGivesNothing(e.trusted, header, value);
        continue;
      }
      var source := SourceForHeader(header);
      var ip: Option<nat>;
      if source == X_FORWARDED_FOR {
        ip := ParseXForwardedFor(e.trusted, value);
      } else {
        ip := UsableElement(value);
      }
      if ip.Some? {
        return Found(ip, source);
      }
    }
  }

  lemma {:induction false} TrimLeftBlank(s: string)
    requires TrimLeft(s) == ""
    ensures forall c :: c in s ==> Blank(c)
  {
    if s != [] {
      TrimLeftBlank(s[1..]);
    }
  }

  lemma {:induction false} TrimRightBlank(s: string)
    requires TrimRight(s) == "" && s != ""
    ensures Blank(s[0])
  {
    if |s| > 1 {
      TrimRightBlank(s[..|s| - 1]);
    }
  }

  lemma BlankGivesNothing(trusted: seq<Net>, header: string, value: string)
    requires TrimSpace(value) == ""
    ensures HeaderIp(trusted, header, value) == None
  {
    if TrimLeft(value) != "" {
      TrimRightBlank(TrimLeft(value));
    }
    TrimLeftBlank(value);
    SplitOne(value, ',');
    assert Element(value) == None;
    var i := Rightmost(Candidates(trusted), [value]);
    assert i >= 0 ==> Candidate(trusted, value);
  }

  /** A header is only ever believed on a trusted connection, and then only an address
      that is usable. */
  lemma {:induction false} OnlyUsable(trusted: seq<Net>, headers: seq<string>, get: string -> string)
    ensures var found := FromHeaders(trusted, headers, get);
            found.Some? ==> found.value.clientIp.Some?
                            && found.value.clientIp.value < TWO128 && Usable(found.value.clientIp.value)
  {
    if headers != [] {
      OnlyUsable(trusted, headers[1..], get);
    }
  }

  lemma BelievedOnlyFromProxies(e: Extractor, remote: Option<nat>, get: string -> string, other: string -> string)
    requires remote.Some? ==> remote.value < TWO128
    ensures Extracted(e, remote, get) != Extracted(e, remote, other) ==> remote.Some? && Trusted(e.trusted, remote.value)
    ensures var r := Extracted(e, remote, get);
            r.clientIp != remote ==> r.clientIp.Some? && r.clientIp.value < TWO128 && Usable(r.clientIp.value)
  {
    OnlyUsable(e.trusted, e.headers, get);
  }

  /** The same header, or a chain with something in front of it that already holds a
      candidate. */
  ghost predicate SameRightEnd(trusted: seq<Net>, header: string, value: string, other: string) {
    || other == value
    || (&& SourceForHeader(header) == X_FORWARDED_FOR && HasCandidate(trusted, Split(value, ','))
        && exists prefix :: other == prefix + [','] + value)
  }

  lemma {:induction false} RightEndDecides(trusted: seq<Net>, headers: seq<string>, get: string -> string, other: string -> string)
    requires forall i :: 0 <= i < |headers| ==> SameRightEnd(trusted, headers[i], get(headers[i]), other(headers[i]))
    ensures FromHeaders(trusted, headers, get) == FromHeaders(trusted, headers, other)
  {
    if headers != [] {
      var h := headers[0];
      if other(h) != get(h) {
        var prefix :| other(h) == prefix + [','] + get(h);
        PrependedText(trusted, prefix, get(h));
      }
      RightEndDecides(trusted, headers[1..], get, other);
    }
  }

  // ---------------------------------------------------------------- configuration

  /** An entry of the proxy list: a network, or one address. */
  function ProxyNet(entry: string): (n: Option<Net>)
    ensures n.Some? ==> n.value.Valid()
  {
    var s := TrimSpace(entry);
    if s == "" then None
    else ParseCIDR(if '/' in s then s else if ':' in s then s + "/128" else s + "/32")
  }

  function ProxyNets(list: seq<string>): seq<Net> {
    if list == [] then []
    else
      var n := ProxyNet(list[|list| - 1]);
      ProxyNets(list[..|list| - 1]) + if n == None then [] else [n.value]
  }

  /** Unreadable entries are dropped. */
  method ParseTrusted(list: seq<string>) returns (nets: seq<Net>)
    ensures nets == ProxyNets(list)
  {
    nets := [];
    for i := 0 to |list|
      invariant nets == ProxyNets(list[..i])
    {
      assert list[..i + 1][..i] == list[..i];
      var s := TrimSpace(list[i]);
      if s == "" {
        assert nets + [] == nets;
        continue;
      }
      if '/' !in s {
        if ':' in s {
          s := s + "/128";
        } else {
          s := s + "/32";
        }
      }
      var n := ParseCIDR(s);
      if n.Some? {
        nets := nets + [n.value];
      } else {
        assert nets + [] == nets;
      }
    }
    assert list[..|list|] == list;
  }

  lemma BareAddressNet(proxy: nat)
    requires proxy < TWO128
    ensures ProxyNet(IpString(proxy)) == Some(NetOf(SourceOf(proxy), if IsMapped(proxy) then 32 else 128))
  {
    var s := IpString(proxy);
    AddressNotBlank(proxy);
    IpStringChars(proxy, '/');
    ParseIpString(proxy);
    ParseWritten(proxy, if IsMapped(proxy) then 32 else 128);
    NumTextOf();
    SlashNumber(s);
    if IsMapped(proxy) {
      AddressChars(':');
    } else {
      Print6HasColon(ToGroups(proxy, 8));
    }
  }

  lemma OneAddress(proxy: nat, ip: nat)
    requires proxy < TWO128 && ip < TWO128
    ensures Holds(NetOf(SourceOf(proxy), if IsMapped(proxy) then 32 else 128), ip) <==> ip == proxy
  {
    MaskNothing(SourceOf(proxy).bits);
    assert Pow2(0) == 1;
    SourceOfInjective(proxy, ip);
  }

  lemma SourceOfInjective(a: nat, b: nat)
    requires a < TWO128 && b < TWO128
    ensures SourceOf(a) == SourceOf(b) <==> a == b
  {
    assert IsMapped(a) ==> a == 0xffff * TWO32 + a % TWO32;
    assert IsMapped(b) ==> b == 0xffff * TWO32 + b % TWO32;
  }

  /** A bare address in the list trusts that address and no other. */
  lemma BareAddressAlone(proxy: nat, ip: nat)
    requires proxy < TWO128 && ip < TWO128
    ensures Trusted(ProxyNets([IpString(proxy)]), ip) <==> ip == proxy
  {
    BareAddressNet(proxy);
    OneAddress(proxy, ip);
    OneNet(IpString(proxy), NetOf(SourceOf(proxy), if IsMapped(proxy) then 32 else 128), ip);
  }

  lemma OneNet(entry: string, n: Net, ip: nat)
    requires ProxyNet(entry) == Some(n) && ip < TWO128
    ensures Trusted(ProxyNets([entry]), ip) <==> Holds(n, ip)
  {
    var list, nets := [entry], [n];
    assert ProxyNets(list[..0]) == [];
    assert ProxyNets(list) == nets;
    assert nets[0] == n;
  }

  lemma {:induction false} NetsOf(list: seq<string>, n: Net)
    ensures n in ProxyNets(list) <==> exists i :: 0 <= i < |list| && ProxyNet(list[i]) == Some(n)
  {
    hide ProxyNet;
    if list != [] {
      var init, last := list[..|list| - 1], list[|list| - 1];
      NetsOf(init, n);
      assert ProxyNets(list) == ProxyNets(init) + if ProxyNet(last) == None then [] else [ProxyNet(last).value];
      if i :| 0 <= i < |init| && ProxyNet(init[i]) == Some(n) {
        assert list[i] == init[i];
      }
      if i :| 0 <= i < |list| && ProxyNet(list[i]) == Some(n) {
        assert i < |init| ==> init[i] == list[i];
      }
    }
  }

  /** A list trusts what one of its entries does; one that names no network trusts nothing. */
  lemma EntriesTrust(list: seq<string>, ip: nat)
    requires ip < TWO128
    ensures Trusted(ProxyNets(list), ip) <==>
            exists i :: 0 <= i < |list| && ProxyNet(list[i]).Some? && Holds(ProxyNet(list[i]).value, ip)
  {
    var nets := ProxyNets(list);
    if k :| 0 <= k < |nets| && Holds(nets[k], ip) {
      NetsOf(list, nets[k]);
      assert nets[k] in nets;
    }
    if i :| 0 <= i < |list| && ProxyNet(list[i]).Some? && Holds(ProxyNet(list[i]).value, ip) {
      NetsOf(list, ProxyNet(list[i]).value);
    }
  }

  /** The text of a network in the list trusts the addresses of the network and no others. */
  lemma NetworkEntry(n: Net, ip: nat)
    requires n.Valid() && n.Readable() && ip < TWO128
    ensures Trusted(ProxyNets([NetText(n)]), ip) <==> n.Contains(SourceOf(ip))
  {
    var s := NetText(n);
    NetTextTrimmed(n);
    NetTextReadsBack(n);
    assert s[|IpString(IpOf(n))|] == '/' && '/' in s;
    OneNet(s, n, ip);
  }

  /** Looking at a mapped network as the IPv4 one keeps its 16-byte addresses. */
  lemma MappedProxyNet(n: Net, ip: nat)
    requires n.Valid() && !n.v4 && IsMapped(n.base) && ip < TWO128
    ensures Holds(n, ip) <==> n.base <= ip < n.base + Pow2(n.HostBits())
  {
    MappedPrefixLong(n);
    var h := n.HostBits();
    MappedBlockFits(n.base, h);
    assert AsGo(n) == Net(true, n.base % TWO32, n.ones - 96) && AsGo(n).HostBits() == h;
    MappedOffset(n.base, ip, Pow2(h));
  }

  lemma MappedBlockFits(base: nat, h: nat)
    requires h <= 32 && IsMapped(base) && base % Pow2(h) == 0
    ensures base % TWO32 + Pow2(h) <= TWO32
  {
    var m, k := Pow2(h), Pow2(32 - h);
    Pow2Doubles(h, 32 - h);
    Pow2Values();
    assert m * k == TWO32;
    AlignedPart(base, m, k);
    AlignedFits(base % (m * k), m, k);
  }

  lemma AlignedPart(x: nat, m: nat, k: nat)
    requires m > 0 && k > 0 && m * k > 0 && x % m == 0
    ensures (x % (m * k)) % m == 0
  {
    var q, r := x / (m * k), x % (m * k);
    assert x == (m * k) * q + r && (m * k) * q == m * (k * q);
    var p := x / m;
    assert x == m * p && r == m * (p - k * q);
    assert p >= k * q by {
      if p < k * q { TimesMonotone(m, p + 1, k * q); }
    }
    MultipleOf(p - k * q, m);
  }

  lemma MappedOffset(base: nat, ip: nat, size: nat)
    requires IsMapped(base) && base % TWO32 + size <= TWO32 && ip < TWO128
    ensures IsMapped(ip) && base % TWO32 <= ip % TWO32 < base % TWO32 + size <==> base <= ip < base + size
  {
  }
}
