/** Addresses and their text: dotted quads, and the IPv6 forms of RFC 4291
    section 2.2 written the way net/netip writes them. */
module IpText {
  import opened Text

  const TWO32: nat := 0x1_0000_0000
  const TWO128: nat := 0x1_0000_0000_0000_0000_0000_0000_0000_0000

  // ---------------------------------------------------------------- IPv4

  ghost predicate Below(ns: seq<nat>, bound: nat) {
    forall i :: 0 <= i < |ns| ==> ns[i] < bound
  }

  function Octets(a: nat): (r: seq<nat>)
    requires a < TWO32
    ensures |r| == 4 && Below(r, 256)
  {
    [a / 0x100_0000, a / 0x1_0000 % 256, a / 256 % 256, a % 256]
  }

  function FromOctets(o: seq<nat>): (a: nat)
    requires |o| == 4 && Below(o, 256)
    ensures a < TWO32
  {
    o[0] * 0x100_0000 + o[1] * 0x1_0000 + o[2] * 256 + o[3]
  }

  function NumTexts(ns: seq<nat>, base: nat): (r: seq<string>)
    requires base == 10 || base == 16
    ensures |r| == |ns| && forall i :: 0 <= i < |ns| ==> r[i] == NumText(ns[i], base)
  {
    seq(|ns|, i requires 0 <= i < |ns| => NumText(ns[i], base))
  }

  function Print4(a: nat): string
    requires a < TWO32
  {
    Join(NumTexts(Octets(a), 10), '.')
  }

  /** A decimal field of a dotted quad: no leading zero, at most 255. */
  function Octet(s: string): (r: Option<nat>)
    ensures r.Some? ==> r.value < 256
  {
    var v := NumValue(s, 10);
    if v == None || v.value > 255 || (|s| > 1 && s[0] == '0') then None else v
  }

  function Parse4(s: string): (r: Option<nat>)
    ensures r.Some? ==> r.value < TWO32
  {
    var f := Split(s, '.');
    if |f| != 4 then None
    else
      var a, b, c, d := Octet(f[0]), Octet(f[1]), Octet(f[2]), Octet(f[3]);
      if a == None || b == None || c == None || d == None then None
      else Some(FromOctets([a.value, b.value, c.value, d.value]))
  }

  lemma NotInNumber(n: nat, base: nat, c: char)
    requires base == 10 || base == 16
    requires DigitValue(c) == None
    ensures c !in NumText(n, base)
  {
    NumChars(n, base);
  }

  lemma {:induction false} NoLeadingZero(n: nat)
    ensures n > 0 ==> NumText(n, 10)[0] != '0'
    ensures n < 10 ==> |NumText(n, 10)| == 1
  {
    if n >= 10 {
      NoLeadingZero(n / 10);
    }
  }

  lemma OctetText(n: nat)
    requires n < 256
    ensures Octet(NumText(n, 10)) == Some(n)
  {
    NumRoundTrip(n, 10);
    NoLeadingZero(n);
  }

  lemma RoundTrip4(a: nat)
    requires a < TWO32
    ensures Parse4(Print4(a)) == Some(a)
  {
    var o := Octets(a);
    var f := NumTexts(o, 10);
    forall p | p in f ensures '.' !in p {
      var i :| 0 <= i < 4 && f[i] == p;
      NotInNumber(o[i], 10, '.');
    }
    SplitJoin(f, '.');
    forall i | 0 <= i < 4 ensures Octet(f[i]) == Some(o[i]) {
      OctetText(o[i]);
    }
    assert [o[0], o[1], o[2], o[3]] == o;
    OctetsRoundTrip(a);
  }

  lemma OctetsRoundTrip(a: nat)
    requires a < TWO32
    ensures FromOctets(Octets(a)) == a
  {
    var hi, mid := a / 0x1_0000, a / 256;
    assert mid / 256 == hi && hi / 256 == a / 0x100_0000;
    assert mid == hi * 256 + mid % 256;
  }

  // ------------------------------------------------------- IPv6: bits and groups

  function ToGroups(b: nat, n: nat): (g: seq<nat>)
    ensures |g| == n && Below(g, 0x1_0000)
  {
    if n == 0 then [] else ToGroups(b / 0x1_0000, n - 1) + [b % 0x1_0000]
  }

  function FromGroups(g: seq<nat>): nat {
    if g == [] then 0 else FromGroups(g[..|g| - 1]) * 0x1_0000 + g[|g| - 1]
  }

  ghost predicate Fits(b: nat, n: nat) {
    if n == 0 then b == 0 else Fits(b / 0x1_0000, n - 1)
  }

  lemma {:induction false} GroupsRoundTrip(b: nat, n: nat)
    requires Fits(b, n)
    ensures FromGroups(ToGroups(b, n)) == b
  {
    if n > 0 {
      GroupsRoundTrip(b / 0x1_0000, n - 1);
      assert ToGroups(b, n)[..n - 1] == ToGroups(b / 0x1_0000, n - 1);
    }
  }

  lemma Fits128(b: nat)
    requires b < TWO128
    ensures Fits(b, 8)
  {
    var b1 := b / 0x1_0000;
    var b2 := b1 / 0x1_0000;
    var b3 := b2 / 0x1_0000;
    var b4 := b3 / 0x1_0000;
    assert Fits(b4, 4) by {
      var b5 := b4 / 0x1_0000;
      var b6 := b5 / 0x1_0000;
      assert Fits(b6, 2);
    }
    assert Fits(b2, 6);
  }

  lemma {:induction false} FromGroupsFits(g: seq<nat>)
    requires Below(g, 0x1_0000)
    ensures Fits(FromGroups(g), |g|) && ToGroups(FromGroups(g), |g|) == g
  {
    if g != [] {
      var n := |g| - 1;
      FromGroupsFits(g[..n]);
      assert FromGroups(g) / 0x1_0000 == FromGroups(g[..n]);
      assert g == g[..n] + [g[n]];
    }
  }

  lemma FitsBound(b: nat)
    requires Fits(b, 8)
    ensures b < TWO128
  {
    var b1 := b / 0x1_0000;
    var b2 := b1 / 0x1_0000;
    var b3 := b2 / 0x1_0000;
    var b4 := b3 / 0x1_0000;
    var b5 := b4 / 0x1_0000;
    var b6 := b5 / 0x1_0000;
    assert Fits(b1, 7) && Fits(b2, 6);
    assert Fits(b3, 5) && Fits(b4, 4);
    assert Fits(b5, 3) && Fits(b6, 2);
    var b7 := b6 / 0x1_0000;
    assert Fits(b7, 1) && Fits(b7 / 0x1_0000, 0);
  }

  // ---------------------------------------------------------------- IPv6 text

  function RunEnd(g: seq<nat>, i: nat): (j: nat)
    requires i <= |g|
    ensures i <= j <= |g| && forall k :: i <= k < j ==> g[k] == 0
    decreases |g| - i
  {
    if i < |g| && g[i] == 0 then RunEnd(g, i + 1) else i
  }

  /** The first longest run of two or more zero groups; empty if there is none. */
  function BestRun(g: seq<nat>, i: nat, from: nat, to: nat): (r: (nat, nat))
    requires i <= |g| && from <= to <= |g| && forall k :: from <= k < to ==> g[k] == 0
    ensures r.0 <= r.1 <= |g| && forall k :: r.0 <= k < r.1 ==> g[k] == 0
    ensures to - from != 1 ==> r.1 - r.0 != 1
    decreases |g| - i
  {
    if i == |g| then (from, to)
    else
      var j := RunEnd(g, i);
      if j - i >= 2 && j - i > to - from then BestRun(g, i + 1, i, j) else BestRun(g, i + 1, from, to)
  }

  ghost predicate ZeroRun(g: seq<nat>, i: nat, j: nat) {
    i <= j <= |g| && forall k :: i <= k < j ==> g[k] == 0
  }

  lemma {:induction false} RunEndLast(g: seq<nat>, i: nat, j: nat)
    requires ZeroRun(g, i, j)
    ensures j <= RunEnd(g, i)
    decreases |g| - i
  {
    if i < j {
      RunEndLast(g, i + 1, j);
    }
  }

  lemma {:induction false} BestRunKeeps(g: seq<nat>, i: nat, from: nat, to: nat)
    requires i <= |g| && ZeroRun(g, from, to)
    ensures var r := BestRun(g, i, from, to); r.1 - r.0 > to - from || r == (from, to)
    decreases |g| - i
  {
    if i < |g| {
      var j := RunEnd(g, i);
      if j - i >= 2 && j - i > to - from {
        BestRunKeeps(g, i + 1, i, j);
      } else {
        BestRunKeeps(g, i + 1, from, to);
      }
    }
  }

  /** No run of two or more zeros from `i` on is longer, or as long and earlier. */
  lemma {:induction false} BestRunBest(g: seq<nat>, i: nat, from: nat, to: nat, a: nat, b: nat)
    requires i <= a && a + 2 <= b && ZeroRun(g, a, b) && ZeroRun(g, from, to) && (from < to ==> from < i)
    ensures var r := BestRun(g, i, from, to); r.1 - r.0 >= b - a && (r.1 - r.0 == b - a ==> r.0 <= a)
    decreases |g| - i
  {
    hide RunEnd;
    var j := RunEnd(g, i);
    if i == a {
      RunEndLast(g, a, b);
      if j - i > to - from {
        BestRunKeeps(g, i + 1, i, j);
      } else {
        BestRunKeeps(g, i + 1, from, to);
      }
    } else if j - i >= 2 && j - i > to - from {
      BestRunBest(g, i + 1, i, j, a, b);
    } else {
      BestRunBest(g, i + 1, from, to, a, b);
    }
  }

  function JoinHex(g: seq<nat>): string {
    Join(NumTexts(g, 16), ':')
  }

  function Print6(g: seq<nat>): string
    requires |g| == 8
  {
    var (from, to) := BestRun(g, 0, 0, 0);
    if from == to then JoinHex(g) else JoinHex(g[..from]) + "::" + JoinHex(g[to..])
  }

  /** How groups are shortened: the longest run of two or more zeros, the first of equal ones,
      gives way to a double colon; without such a run nothing does. */
  lemma Print6Shortens(g: seq<nat>) returns (from: nat, to: nat)
    requires |g| == 8
    ensures ZeroRun(g, from, to) && to - from != 1
    ensures forall a: nat, b: nat :: a + 2 <= b && ZeroRun(g, a, b) ==> to - from >= b - a && (to - from == b - a ==> from <= a)
    ensures Print6(g) == if from == to then JoinHex(g) else JoinHex(g[..from]) + "::" + JoinHex(g[to..])
  {
    var r := BestRun(g, 0, 0, 0);
    from, to := r.0, r.1;
    forall a: nat, b: nat | a + 2 <= b && ZeroRun(g, a, b)
      ensures to - from >= b - a && (to - from == b - a ==> from <= a)
    {
      BestRunBest(g, 0, 0, 0, a, b);
    }
  }

  function HexField(f: string): (r: Option<nat>)
    ensures r.Some? ==> r.value < 0x1_0000
  {
    if |f| > 4 || NumValue(f, 16) == None then None
    else
      HexFieldBound(f);
      NumValue(f, 16)
  }

  lemma HexFieldBound(f: string)
    requires |f| <= 4 && NumValue(f, 16).Some?
    ensures NumValue(f, 16).value < 0x1_0000
  {
    if |f| >= 2 {
      var f1 := f[..|f| - 1];
      if |f1| >= 2 {
        var f2 := f1[..|f1| - 1];
        if |f2| >= 2 {
          assert NumValue(f2[..|f2| - 1], 16).value < 16;
        }
        assert NumValue(f2, 16).value < 256;
      }
      assert NumValue(f1, 16).value < 4096;
    }
  }

  /** Groups separated by colons; the last field may be a dotted quad. */
  function ParseFields(fs: seq<string>, quad: bool): (r: Option<seq<nat>>)
    ensures r.Some? ==> Below(r.value, 0x1_0000)
  {
    if fs == [] then Some([])
    else if quad && |fs| == 1 && '.' in fs[0] then
      var a := Parse4(fs[0]);
      if a == None then None else Some([a.value / 0x1_0000, a.value % 0x1_0000])
    else
      var x := HexField(fs[0]);
      var rest := ParseFields(fs[1..], quad);
      if x == None || rest == None then None else Some([x.value] + rest.value)
  }

  function ParsePart(s: string, quad: bool): (r: Option<seq<nat>>)
    ensures r.Some? ==> Below(r.value, 0x1_0000)
  {
    if s == [] then Some([]) else ParseFields(Split(s, ':'), quad)
  }

  /** Where the first "::" starts. */
  function FirstDouble(s: string): (r: Option<nat>)
    ensures r.Some? ==> r.value + 2 <= |s|
  {
    if |s| < 2 then None
    else if s[0] == ':' && s[1] == ':' then Some(0)
    else
      var r := FirstDouble(s[1..]);
      if r == None then None else Some(r.value + 1)
  }

  function Zeros(n: nat): (z: seq<nat>)
    ensures |z| == n && forall i :: 0 <= i < n ==> z[i] == 0
  {
    seq(n, _ => 0)
  }

  /** Both sides of a double colon, with the zeros it stands for. */
  function Around(l: Option<seq<nat>>, r: Option<seq<nat>>): (g: Option<seq<nat>>)
    requires (l.Some? ==> Below(l.value, 0x1_0000)) && (r.Some? ==> Below(r.value, 0x1_0000))
    ensures g.Some? ==> |g.value| == 8 && Below(g.value, 0x1_0000)
  {
    if l == None || r == None || |l.value| + |r.value| > 7 then None
    else Some(l.value + Zeros(8 - |l.value| - |r.value|) + r.value)
  }

  function Parse6(s: string): (r: Option<seq<nat>>)
    ensures r.Some? ==> |r.value| == 8 && Below(r.value, 0x1_0000)
  {
    var p := FirstDouble(s);
    if p == None then
      var g := ParsePart(s, true);
      if g == None || |g.value| != 8 then None else g
    else Around(ParsePart(s[..p.value], false), ParsePart(s[p.value + 2..], true))
  }

  lemma HexFieldText(x: nat)
    requires x < 0x1_0000
    ensures HexField(NumText(x, 16)) == Some(x)
  {
    NumRoundTrip(x, 16);
    var x1 := x / 16;
    var x2 := x1 / 16;
    assert |NumText(x2, 16)| <= 2;
    assert |NumText(x1, 16)| <= 3;
  }

  lemma {:induction false} FieldsRoundTrip(g: seq<nat>, quad: bool)
    requires Below(g, 0x1_0000)
    ensures ParseFields(NumTexts(g, 16), quad) == Some(g)
  {
    if g != [] {
      FieldsRoundTrip(g[1..], quad);
      HexFieldText(g[0]);
      NotInNumber(g[0], 16, '.');
      assert NumTexts(g, 16)[1..] == NumTexts(g[1..], 16);
      assert g == [g[0]] + g[1..];
    }
  }

  lemma PartRoundTrip(g: seq<nat>, quad: bool)
    requires Below(g, 0x1_0000)
    ensures ParsePart(JoinHex(g), quad) == Some(g)
  {
    if g != [] {
      FieldsHaveNoColon(g);
      SplitJoin(NumTexts(g, 16), ':');
      FieldsRoundTrip(g, quad);
      JoinHexStarts(g);
    }
  }

  lemma FieldsHaveNoColon(g: seq<nat>)
    ensures forall p :: p in NumTexts(g, 16) ==> ':' !in p && p != []
  {
    forall p | p in NumTexts(g, 16) ensures ':' !in p && p != [] {
      var i :| 0 <= i < |g| && NumTexts(g, 16)[i] == p;
      NotInNumber(g[i], 16, ':');
    }
  }

  lemma JoinHexStarts(g: seq<nat>)
    requires g != []
    ensures JoinHex(g) != [] && JoinHex(g)[0] != ':'
  {
    FieldsHaveNoColon(g);
    var f := NumTexts(g, 16)[0];
    assert f in NumTexts(g, 16) && JoinHex(g)[0] == f[0];
  }

  function Shifted(at: Option<nat>, n: nat): Option<nat> {
    if at == None then None else Some(at.value + n)
  }

  lemma {:induction false} DoubleAfter(p: string, s: string)
    requires ':' !in p
    ensures FirstDouble(p + s) == Shifted(FirstDouble(s), |p|)
  {
    if p == [] {
      assert p + s == s;
    } else {
      assert (p + s)[1..] == p[1..] + s;
      DoubleAfter(p[1..], s);
      assert |p + s| < 2 ==> s == [];
    }
  }

  lemma DoubleAfterColon(rest: string)
    requires rest != "" && rest[0] != ':'
    ensures FirstDouble([':'] + rest) == Shifted(FirstDouble(rest), 1)
  {
    assert ([':'] + rest)[1..] == rest && ([':'] + rest)[1] == rest[0];
  }

  /** A field, one colon, and a text that does not start with one. */
  lemma DoubleAfterField(f: string, rest: string)
    requires ':' !in f && rest != "" && rest[0] != ':'
    ensures FirstDouble(f + ([':'] + rest)) == Shifted(FirstDouble(rest), |f| + 1)
  {
    hide FirstDouble;
    DoubleAfterColon(rest);
    DoubleAfter(f, [':'] + rest);
  }

  lemma JoinHexCons(g: seq<nat>, tail: string) returns (f: string)
    requires |g| > 1
    ensures ':' !in f && JoinHex(g) + tail == f + ([':'] + (JoinHex(g[1..]) + tail))
    ensures |JoinHex(g)| == |f| + 1 + |JoinHex(g[1..])|
  {
    FieldsHaveNoColon(g);
    var fs := NumTexts(g, 16);
    f := fs[0];
    assert f in fs && fs[1..] == NumTexts(g[1..], 16);
  }

  /** Written groups contain no "::", so the first one is the one put there. */
  lemma {:induction false} DoubleAfterGroups(g: seq<nat>, tail: string)
    requires g != []
    requires tail == "" || (|tail| >= 2 && tail[0] == ':' && tail[1] == ':')
    ensures FirstDouble(JoinHex(g) + tail) == (if tail == "" then None else Some(|JoinHex(g)|))
  {
    if |g| == 1 {
      FieldsHaveNoColon(g);
      var f := NumTexts(g, 16)[0];
      assert f in NumTexts(g, 16);
      DoubleAfter(f, tail);
    } else {
      DoubleAfterGroups(g[1..], tail);
      JoinHexStarts(g[1..]);
      var f := JoinHexCons(g, tail);
      DoubleAfterField(f, JoinHex(g[1..]) + tail);
    }
  }

  /** A text with a double colon is read on both sides of it. */
  lemma ParseAround(s: string, p: nat, left: string, right: string)
    requires FirstDouble(s) == Some(p) && p + 2 <= |s| && s[..p] == left && s[p + 2..] == right
    ensures Parse6(s) == Around(ParsePart(left, false), ParsePart(right, true))
  {
  }

  lemma AroundDouble(left: string, right: string)
    ensures var s := left + "::" + right; s[..|left|] == left && s[|left| + 2..] == right && |left| + 2 <= |s|
  {
  }

  lemma ParseJoined(left: string, l: seq<nat>, right: string)
    requires left == JoinHex(l)
    ensures Parse6(left + "::" + right) == Around(ParsePart(left, false), ParsePart(right, true))
  {
    DoubleAt(l, right);
    AroundDouble(left, right);
    ParseAround(left + "::" + right, |left|, left, right);
  }

  lemma ParseDouble(l: seq<nat>, r: seq<nat>)
    requires Below(l, 0x1_0000) && Below(r, 0x1_0000) && |l| + |r| <= 7
    ensures Parse6(JoinHex(l) + "::" + JoinHex(r)) == Some(l + Zeros(8 - |l| - |r|) + r)
  {
    hide Parse6, ParsePart;
    ParseJoined(JoinHex(l), l, JoinHex(r));
    PartRoundTrip(l, false);
    PartRoundTrip(r, true);
  }

  lemma DoubleAt(l: seq<nat>, rest: string)
    ensures FirstDouble(JoinHex(l) + "::" + rest) == Some(|JoinHex(l)|)
  {
    var tail := "::" + rest;
    assert JoinHex(l) + "::" + rest == JoinHex(l) + tail;
    if l == [] {
      assert JoinHex(l) + tail == tail;
    } else {
      DoubleAfterGroups(l, tail);
    }
  }

  lemma PlainText6(g: seq<nat>)
    requires |g| == 8 && Below(g, 0x1_0000)
    ensures Parse6(JoinHex(g)) == Some(g)
  {
    DoubleAfterGroups(g, "");
    assert JoinHex(g) + "" == JoinHex(g);
    PartRoundTrip(g, true);
  }

  lemma CompressedText6(g: seq<nat>, from: nat, to: nat)
    requires |g| == 8 && Below(g, 0x1_0000) && from < to <= 8 && forall k :: from <= k < to ==> g[k] == 0
    ensures Parse6(JoinHex(g[..from]) + "::" + JoinHex(g[to..])) == Some(g)
  {
    ParseDouble(g[..from], g[to..]);
    ZerosBetween(g, from, to);
  }

  lemma RoundTrip6(g: seq<nat>)
    requires |g| == 8 && Below(g, 0x1_0000)
    ensures Parse6(Print6(g)) == Some(g)
  {
    var (from, to) := BestRun(g, 0, 0, 0);
    if from == to {
      PlainText6(g);
    } else {
      CompressedText6(g, from, to);
    }
  }

  lemma ZerosBetween(g: seq<nat>, from: nat, to: nat)
    requires from <= to <= |g| && forall k :: from <= k < to ==> g[k] == 0
    ensures g == g[..from] + Zeros(to - from) + g[to..]
  {
  }

  lemma {:induction false} JoinChars(parts: seq<string>, sep: char, c: char)
    requires c != sep && forall p :: p in parts ==> c !in p
    ensures c !in Join(parts, sep)
  {
    if |parts| > 1 {
      JoinChars(parts[1..], sep, c);
    }
  }

  /** Neither text contains a slash or a blank, and only IPv6 text has a colon. */
  lemma AddressChars(c: char)
    requires DigitValue(c) == None
    ensures c != '.' ==> forall a: nat | a < TWO32 :: c !in Print4(a)
    ensures c != ':' ==> forall g: seq<nat> | |g| == 8 :: c !in Print6(g)
  {
    if c != '.' {
      forall a: nat | a < TWO32 ensures c !in Print4(a) {
        TextsWithout(Octets(a), 10, c);
        JoinChars(NumTexts(Octets(a), 10), '.', c);
      }
    }
    if c != ':' {
      forall g: seq<nat> | |g| == 8 ensures c !in Print6(g) {
        HexWithout(g, c);
        HexWithout(g[..BestRun(g, 0, 0, 0).0], c);
        HexWithout(g[BestRun(g, 0, 0, 0).1..], c);
      }
    }
  }

  lemma HexWithout(g: seq<nat>, c: char)
    requires DigitValue(c) == None && c != ':'
    ensures c !in JoinHex(g)
  {
    TextsWithout(g, 16, c);
    JoinChars(NumTexts(g, 16), ':', c);
  }

  lemma TextsWithout(ns: seq<nat>, base: nat, c: char)
    requires (base == 10 || base == 16) && DigitValue(c) == None
    ensures forall p :: p in NumTexts(ns, base) ==> c !in p
  {
    forall p | p in NumTexts(ns, base) ensures c !in p {
      var i :| 0 <= i < |ns| && NumTexts(ns, base)[i] == p;
      NotInNumber(ns[i], base, c);
    }
  }

  lemma Print6HasColon(g: seq<nat>)
    requires |g| == 8
    ensures ':' in Print6(g)
  {
    var (from, to) := BestRun(g, 0, 0, 0);
    if from == to {
      var f := NumTexts(g, 16);
      assert JoinHex(g) == f[0] + [':'] + Join(f[1..], ':');
    } else {
      assert Print6(g)[|JoinHex(g[..from])|] == ':';
    }
  }
}
