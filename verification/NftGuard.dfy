/** The nftables guard: a generator of scripts, read as a compiler from a policy to
    an ordered rule chain, and what nftables makes of the result. */
module NftGuard {
  import opened Sorting
  import opened Text
  import opened Ipx
  import opened IpText
  import opened Signer
  import opened Pipeline

  const TABLE := "nft_auth_whitelist"

  datatype Policy = Policy(allow4: seq<string>, allow6: seq<string>, tcp: seq<int>, udp: seq<int>)

  datatype Proto = Tcp | Udp

  datatype Rule = AcceptFrom(v4: bool, proto: Proto, ports: seq<int>) | DropTo(proto: Proto, ports: seq<int>)

  /** Two interval sets and a chain hooked on input, with policy accept. */
  datatype Table = Table(allow4: seq<string>, allow6: seq<string>, chain: seq<Rule>)

  datatype Command = Ensure(table: string) | Delete(table: string) | Define(table: string, content: Table)

  // ---------------------------------------------------------------- compiling

  predicate IntLess(a: int, b: int) {
    a < b
  }

  function Ports(ps: seq<int>): seq<int> {
    Sort(ps, IntLess)
  }

  function RulesFor(proto: Proto, ps: seq<int>): seq<Rule> {
    if ps == [] then []
    else [AcceptFrom(true, proto, Ports(ps)), AcceptFrom(false, proto, Ports(ps)), DropTo(proto, Ports(ps))]
  }

  function TableOf(c: Policy): Table {
    Table(Sort(c.allow4, Less), Sort(c.allow6, Less), RulesFor(Tcp, c.tcp) + RulesFor(Udp, c.udp))
  }

  /** Create if absent, delete, create afresh: only the guard's own table. */
  function Compile(c: Policy): seq<Command> {
    [Ensure(TABLE), Delete(TABLE), Define(TABLE, TableOf(c))]
  }

  // ---------------------------------------------------------------- the script

  function JoinComma(parts: seq<string>): string {
    if parts == [] then ""
    else if |parts| == 1 then parts[0]
    else parts[0] + ", " + JoinComma(parts[1..])
  }

  function PortTexts(ps: seq<int>): (r: seq<string>)
    ensures |r| == |ps|
  {
    seq(|ps|, i requires 0 <= i < |ps| => IntText(ps[i]))
  }

  function PortsText(ps: seq<int>): string {
    JoinComma(PortTexts(ps))
  }

  function ProtoText(p: Proto): string {
    if p.Tcp? then "tcp" else "udp"
  }

  function RenderRule(r: Rule): string {
    match r
    case AcceptFrom(v4, proto, ports) =>
      "\t\t" + (if v4 then "ip saddr @allow4 " else "ip6 saddr @allow6 ") +
      ProtoText(proto) + " dport { " + PortsText(ports) + " } accept\n"
    case DropTo(proto, ports) =>
      "\t\t" + ProtoText(proto) + " dport { " + PortsText(ports) + " } drop\n"
  }

  function Concat(parts: seq<string>): string {
    if parts == [] then "" else parts[0] + Concat(parts[1..])
  }

  function Mapped<T>(f: T -> string, xs: seq<T>): (r: seq<string>)
    ensures |r| == |xs| && forall i :: 0 <= i < |xs| ==> r[i] == f(xs[i])
  {
    seq(|xs|, i requires 0 <= i < |xs| => f(xs[i]))
  }

  function RenderSet(name: string, kind: string, elements: seq<string>): string {
    "\tset " + name + " {\n\t\ttype " + kind + "\n\t\tflags interval\n\t\tauto-merge\n" +
    (if JoinComma(elements) == "" then "" else "\t\telements = { " + JoinComma(elements) + " }\n") +
    "\t}\n\n"
  }

  function NoRules(): string {
    "\t\t" + Comment([" no protected ports", " configured: guard is", " a no-op"])
  }

  function RenderChain(rs: seq<Rule>): string {
    "\tchain guard {\n" + ("\t\ttype filter hook " + "input priority -10; " + "policy accept;\n") +
    (if rs == [] then NoRules() else Concat(Mapped(RenderRule, rs))) +
    "\t}\n"
  }

  function RenderCommand(cmd: Command): string {
    match cmd
    case Ensure(t) => "table inet " + t + "\n"
    case Delete(t) => "delete table inet " + t + "\n\n"
    case Define(t, content) =>
      RenderDefine(t, RenderSet("allow4", "ipv4_addr", content.allow4),
                   RenderSet("allow6", "ipv6_addr", content.allow6), RenderChain(content.chain))
  }

  function RenderDefine(t: string, set4: string, set6: string, chain: string): string {
    "table inet " + t + " {\n" + set4 + set6 + chain + "}\n"
  }

  /** A comment line. */
  function Comment(text: seq<string>): string {
    "#" + Concat(text) + "\n"
  }

  function Header(): string {
    Comment(["!/usr/sbin/nft -f"]) +
    (Comment([" nft-auth-whitelist standalone", " guard (additive, default-off)."]) +
     (Comment([" This script ONLY manages", " table inet ", TABLE, "."]) +
      (Comment([" It never flushes the ruleset", " and never touches any", " other table"]) +
       (Comment([" (it leaves the main project's", " tables and your other", " tables untouched)."]) + "\n"))))
  }

  function RenderScript(cmds: seq<Command>): string {
    Concat(Mapped(RenderCommand, cmds))
  }

  lemma ConcatThree(a: string, b: string, c: string)
    ensures Concat([a, b, c]) == a + b + c
  {
    assert [a, b, c][1..] == [b, c] && [b, c][1..] == [c] && [c][1..] == [];
    assert Concat([c]) == c + "";
  }

  lemma {:induction false} ConcatAppend(a: seq<string>, b: seq<string>)
    ensures Concat(a + b) == Concat(a) + Concat(b)
  {
    if a == [] {
      assert a + b == b;
    } else {
      assert (a + b)[1..] == a[1..] + b;
      ConcatAppend(a[1..], b);
    }
  }

  method PortsList(p: seq<int>) returns (r: string)
    ensures r == PortsText(Ports(p))
    ensures r == "" <==> p == []
  {
    var cp := Sort(p, IntLess);
    var parts: seq<string> := [];
    for i := 0 to |cp|
      invariant parts == PortTexts(cp[..i])
    {
      assert PortTexts(cp[..i + 1]) == PortTexts(cp[..i]) + [IntText(cp[i])];
      parts := parts + [IntText(cp[i])];
    }
    assert cp[..|cp|] == cp;
    r := JoinComma(parts);
  }

  /** The fields of a comma-separated list. */
  function Fields(text: string): (r: seq<string>) {
    if text == "" then [] else Trimmed(Split(text, ','))
  }

  function Trimmed(parts: seq<string>): (r: seq<string>)
    ensures |r| == |parts|
  {
    seq(|parts|, i requires 0 <= i < |parts| => TrimSpace(parts[i]))
  }

  /** A text without comma or blank. */
  predicate Solid(s: string) {
    s != "" && forall c :: c in s ==> c != ',' && !Blank(c)
  }

  lemma TrimSolid(s: string)
    requires Solid(s)
    ensures TrimSpace(s) == s && TrimSpace([' '] + s) == s
  {
    assert s[0] in s && s[|s| - 1] in s && ([' '] + s)[1..] == s;
  }

  /** Behind the first field each is preceded by one blank. */
  function Spaced(parts: seq<string>): (r: seq<string>)
    ensures |r| == |parts|
  {
    seq(|parts|, i requires 0 <= i < |parts| => [' '] + parts[i])
  }

  lemma {:induction false} SplitJoined(parts: seq<string>)
    requires parts != [] && forall i :: 0 <= i < |parts| ==> Solid(parts[i])
    ensures Split(JoinComma(parts), ',') == [parts[0]] + Spaced(parts[1..])
  {
    var p, others := parts[0], parts[1..];
    if others == [] {
      SplitOne(p, ',');
    } else {
      SplitJoined(others);
      var tail := JoinComma(others);
      SplitCons(p, ',', [' '] + tail);
      SplitBlank(tail);
      assert JoinComma(parts) == p + [','] + ([' '] + tail);
      assert Spaced(others) == [[' '] + others[0]] + Spaced(others[1..]);
    }
  }

  lemma SplitBlank(s: string)
    ensures Split([' '] + s, ',') == [[' '] + Split(s, ',')[0]] + Split(s, ',')[1..]
  {
    assert ([' '] + s)[1..] == s;
  }

  lemma TrimmedSpaced(parts: seq<string>)
    requires parts != [] && forall i :: 0 <= i < |parts| ==> Solid(parts[i])
    ensures Trimmed([parts[0]] + Spaced(parts[1..])) == parts
  {
    var split := [parts[0]] + Spaced(parts[1..]);
    forall i | 0 <= i < |parts| ensures TrimSpace(split[i]) == parts[i] {
      TrimSolid(parts[i]);
    }
  }

  /** Splitting the joined list at its commas gives back its elements. */
  lemma FieldsJoined(parts: seq<string>)
    requires forall i :: 0 <= i < |parts| ==> Solid(parts[i])
    ensures Fields(JoinComma(parts)) == parts
  {
    if parts != [] {
      SplitJoined(parts);
      TrimmedSpaced(parts);
      JoinedNotEmpty(parts);
    }
  }

  lemma JoinedNotEmpty(parts: seq<string>)
    requires parts != [] && parts[0] != ""
    ensures JoinComma(parts) != ""
  {
  }

  /** The text holds exactly the CIDRs, as often as they occur, in order. */
  ghost predicate ListsInOrder(text: string, cidrs: seq<string>) {
    Sorted(Fields(text), Less) && multiset(Fields(text)) == multiset(cidrs)
  }

  method Elements(cidrs: seq<string>) returns (r: string)
    ensures r == JoinComma(Sort(cidrs, Less))
    ensures (forall i :: 0 <= i < |cidrs| ==> Solid(cidrs[i])) ==> ListsInOrder(r, cidrs)
  {
    var cp := Sort(cidrs, Less);
    r := JoinComma(cp);
    SortedFields(cidrs);
  }

  lemma SortedFields(cidrs: seq<string>)
    ensures (forall i :: 0 <= i < |cidrs| ==> Solid(cidrs[i])) ==> ListsInOrder(JoinComma(Sort(cidrs, Less)), cidrs)
  {
    if !(forall i :: 0 <= i < |cidrs| ==> Solid(cidrs[i])) {
      return;
    }
    LessOrders();
    SortSorts(cidrs, Less);
    SortMembers(cidrs, Less);
    var cp := Sort(cidrs, Less);
    forall i | 0 <= i < |cp| ensures Solid(cp[i]) {
      assert cp[i] in cidrs;
    }
    FieldsJoined(cp);
  }

  method SetText(name: string, kind: string, cidrs: seq<string>) returns (b: string)
    ensures b == RenderSet(name, kind, Sort(cidrs, Less))
  {
    b := "\tset " + name + " {\n\t\ttype " + kind + "\n\t\tflags interval\n\t\tauto-merge\n";
    var e := Elements(cidrs);
    if e != "" {
      b := b + ("\t\telements = { " + e + " }\n");
    }
    b := b + "\t}\n\n";
  }

  method RulesText(proto: Proto, ghost ps: seq<int>, list: string) returns (b: string)
    requires ps != [] && list == PortsText(Ports(ps))
    ensures b == Concat(Mapped(RenderRule, RulesFor(proto, ps)))
  {
    var p := ProtoText(proto);
    var accept4 := "\t\t" + "ip saddr @allow4 " + p + " dport { " + list + " } accept\n";
    var accept6 := "\t\t" + "ip6 saddr @allow6 " + p + " dport { " + list + " } accept\n";
    var drop := "\t\t" + p + " dport { " + list + " } drop\n";
    b := accept4 + accept6 + drop;
    MappedThree(RenderRule, AcceptFrom(true, proto, Ports(ps)), AcceptFrom(false, proto, Ports(ps)), DropTo(proto, Ports(ps)));
  }

  lemma ChainRules(c: Policy)
    ensures Concat(Mapped(RenderRule, TableOf(c).chain)) ==
            Concat(Mapped(RenderRule, RulesFor(Tcp, c.tcp))) + Concat(Mapped(RenderRule, RulesFor(Udp, c.udp)))
    ensures TableOf(c).chain == [] <==> c.tcp == [] && c.udp == []
  {
    MappedAppend(RenderRule, RulesFor(Tcp, c.tcp), RulesFor(Udp, c.udp));
  }

  lemma MappedAppend<T>(f: T -> string, a: seq<T>, b: seq<T>)
    ensures Concat(Mapped(f, a + b)) == Concat(Mapped(f, a)) + Concat(Mapped(f, b))
  {
    assert Mapped(f, a + b) == Mapped(f, a) + Mapped(f, b);
    ConcatAppend(Mapped(f, a), Mapped(f, b));
  }

  lemma MappedThree<T>(f: T -> string, x: T, y: T, z: T)
    ensures Concat(Mapped(f, [x, y, z])) == f(x) + f(y) + f(z)
  {
    assert Mapped(f, [x, y, z]) == [f(x), f(y), f(z)];
    ConcatThree(f(x), f(y), f(z));
  }

  method RulesOf(c: Policy) returns (b: string)
    ensures b == if TableOf(c).chain == [] then NoRules()
                 else Concat(Mapped(RenderRule, TableOf(c).chain))
  {
    ChainRules(c);
    var tcp := PortsList(c.tcp);
    var udp := PortsList(c.udp);
    var rules, more := "", "";
    if tcp != "" {
      rules := RulesText(Tcp, c.tcp, tcp);
    }
    if udp != "" {
      more := RulesText(Udp, c.udp, udp);
    }
    b := rules + more;
    if tcp == "" && udp == "" {
      b := b + NoRules();
    }
  }

  method ChainText(c: Policy) returns (b: string)
    ensures b == RenderChain(TableOf(c).chain)
  {
    b := "\tchain guard {\n" + ("\t\ttype filter hook " + "input priority -10; " + "policy accept;\n");
    var rules := RulesOf(c);
    b := b + rules;
    b := b + "\t}\n";
  }

  /** The text is the rendering of the compiled policy. */
  method GenerateScript(c: Policy) returns (b: string)
    ensures b == Header() + RenderScript(Compile(c))
  {
    b := Header();
    var reset := "table inet " + TABLE + "\n";
    var remove := "delete table inet " + TABLE + "\n\n";
    var body := TableText(c);
    RenderCompiled(c);
    b := b + (reset + remove + body);
  }

  method TableText(c: Policy) returns (body: string)
    ensures body == RenderCommand(Define(TABLE, TableOf(c)))
  {
    body := "table inet " + TABLE + " {\n";
    var set4 := SetText("allow4", "ipv4_addr", c.allow4);
    var set6 := SetText("allow6", "ipv6_addr", c.allow6);
    var chain := ChainText(c);
    body := body + set4 + set6 + chain + "}\n";
    assert body == RenderDefine(TABLE, set4, set6, chain);
  }

  lemma RenderCompiled(c: Policy)
    ensures RenderScript(Compile(c)) ==
            RenderCommand(Ensure(TABLE)) + RenderCommand(Delete(TABLE)) + RenderCommand(Define(TABLE, TableOf(c)))
  {
    MappedThree(RenderCommand, Ensure(TABLE), Delete(TABLE), Define(TABLE, TableOf(c)));
  }

  // ---------------------------------------------------------------- applying

  /** All the tables of the machine. */
  type Ruleset = map<string, Table>

  /** Defining a table that exists adds to it; deleting one that does not is an
      error. */
  function Exec(rs: Ruleset, cmd: Command): Option<Ruleset> {
    match cmd
    case Ensure(t) => Some(if t in rs then rs else rs[t := Table([], [], [])])
    case Delete(t) => if t in rs then Some(rs - {t}) else None
    case Define(t, content) =>
      if t in rs then
        Some(rs[t := Table(rs[t].allow4 + content.allow4, rs[t].allow6 + content.allow6, rs[t].chain + content.chain)])
      else Some(rs[t := content])
  }

  /** A script is applied as one transaction. */
  function Apply(rs: Ruleset, cmds: seq<Command>): Option<Ruleset>
    decreases |cmds|
  {
    if cmds == [] then Some(rs)
    else
      var rs' := Exec(rs, cmds[0]);
      if rs' == None then None else Apply(rs'.value, cmds[1..])
  }

  /** Applying a script never fails, replaces the guard's own table whatever was in
      it, and leaves every other table as it was; applying it again changes nothing,
      and only the last policy applied counts. */
  lemma ApplyReplaces(rs: Ruleset, c: Policy)
    ensures Apply(rs, Compile(c)) == Some(rs[TABLE := TableOf(c)])
  {
    hide TableOf, Apply;
    var own := TableOf(c);
    ApplyThree(rs, Ensure(TABLE), Delete(TABLE), Define(TABLE, own));
    var rs1 := Exec(rs, Ensure(TABLE)).value;
    assert Exec(rs1, Delete(TABLE)) == Some(rs1 - {TABLE});
    assert (rs1 - {TABLE})[TABLE := own] == rs[TABLE := own];
  }

  lemma ApplyThree(rs: Ruleset, x: Command, y: Command, z: Command)
    ensures Apply(rs, [x, y, z]) ==
            var a := Exec(rs, x);
            if a == None then None
            else
              var b := Exec(a.value, y);
              if b == None then None else Exec(b.value, z)
  {
    assert [x, y, z][1..] == [y, z] && [y, z][1..] == [z] && [z][1..] == [];
    assert forall s: Ruleset :: Apply(s, [z]) == Exec(s, z);
  }

  /** Why the table is deleted first: defined over the old one, it would go on letting in
      every source of the old one. */
  lemma ResetNeeded(rs: Ruleset, c: Policy, src: Addr)
    requires TABLE in rs
    ensures var r := Apply(rs, [Ensure(TABLE), Define(TABLE, TableOf(c))]);
            && r.Some? && TABLE in r.value
            && (InSet(r.value[TABLE].allow4, src) <==> InSet(rs[TABLE].allow4, src) || InSet(TableOf(c).allow4, src))
            && (InSet(r.value[TABLE].allow6, src) <==> InSet(rs[TABLE].allow6, src) || InSet(TableOf(c).allow6, src))
            && r.value[TABLE].chain == rs[TABLE].chain + TableOf(c).chain
  {
    hide TableOf, Denotes;
    var define := Define(TABLE, TableOf(c));
    assert [Ensure(TABLE), define][1..] == [define] && [define][1..] == [];
    assert Exec(rs, Ensure(TABLE)) == Some(rs) && Apply(Exec(rs, define).value, []) == Exec(rs, define);
    assert Apply(rs, [define]) == Exec(rs, define);
    assert Apply(rs, [Ensure(TABLE), define]) == Apply(rs, [define]);
    SetsJoined(rs[TABLE].allow4, TableOf(c).allow4, src);
    SetsJoined(rs[TABLE].allow6, TableOf(c).allow6, src);
  }

  lemma SetsJoined(a: seq<string>, b: seq<string>, src: Addr)
    ensures InSet(a + b, src) <==> InSet(a, src) || InSet(b, src)
  {
    hide Denotes;
    assert forall c :: c in a + b <==> c in a || c in b;
  }

  lemma ApplyTwice(rs: Ruleset, before: Policy, c: Policy)
    ensures Apply(rs, Compile(before)).Some? && Apply(rs, Compile(c)).Some?
    ensures Apply(Apply(rs, Compile(before)).value, Compile(c)) == Apply(rs, Compile(c))
    ensures forall t :: t in rs && t != TABLE ==>
              t in Apply(rs, Compile(c)).value && Apply(rs, Compile(c)).value[t] == rs[t]
  {
    ApplyReplaces(rs, before);
    ApplyReplaces(rs[TABLE := TableOf(before)], c);
    ApplyReplaces(rs, c);
    assert rs[TABLE := TableOf(before)][TABLE := TableOf(c)] == rs[TABLE := TableOf(c)];
  }

  // ---------------------------------------------------------------- meaning

  datatype Packet = Packet(src: Addr, proto: Proto, port: int)

  datatype Verdict = Passed | Dropped

  predicate Denotes(cidr: string, src: Addr) {
    var n := ParseCIDR(TrimSpace(cidr));
    n.Some? && n.value.Contains(src)
  }

  /** Membership in an interval set written as a list of CIDRs. */
  ghost predicate InSet(cidrs: seq<string>, src: Addr) {
    exists c :: c in cidrs && Denotes(c, src)
  }

  ghost predicate Matches(t: Table, r: Rule, p: Packet) {
    match r
    case AcceptFrom(v4, proto, ports) =>
      && p.src.V4? == v4 && InSet(if v4 then t.allow4 else t.allow6, p.src)
      && p.proto == proto && p.port in ports
    case DropTo(proto, ports) => p.proto == proto && p.port in ports
  }

  /** The first rule that matches decides; the policy is accept. */
  ghost function Decide(t: Table, rs: seq<Rule>, p: Packet): Verdict {
    if rs == [] then Passed
    else if Matches(t, rs[0], p) then (if rs[0].DropTo? then Dropped else Passed)
    else Decide(t, rs[1..], p)
  }

  function Protected(c: Policy, proto: Proto): seq<int> {
    if proto.Tcp? then c.tcp else c.udp
  }

  lemma SameSet(cidrs: seq<string>, src: Addr)
    ensures InSet(Sort(cidrs, Less), src) <==> InSet(cidrs, src)
  {
    SortMembers(cidrs, Less);
  }

  lemma {:induction false} DecideAppend(t: Table, a: seq<Rule>, b: seq<Rule>, p: Packet)
    ensures Decide(t, a + b, p) ==
            if exists i :: 0 <= i < |a| && Matches(t, a[i], p) then Decide(t, a, p) else Decide(t, b, p)
  {
    if a == [] {
      assert a + b == b;
    } else {
      hide Matches;
      assert (a + b)[1..] == a[1..] + b;
      DecideAppend(t, a[1..], b, p);
      if !Matches(t, a[0], p) {
        assert (exists i :: 0 <= i < |a| && Matches(t, a[i], p)) <==>
               (exists i :: 0 <= i < |a[1..]| && Matches(t, a[1..][i], p)) by {
          if i :| 0 <= i < |a| && Matches(t, a[i], p) { assert Matches(t, a[1..][i - 1], p); }
          if i :| 0 <= i < |a[1..]| && Matches(t, a[1..][i], p) { assert Matches(t, a[i + 1], p); }
        }
      }
    }
  }

  lemma DecideRules(t: Table, proto: Proto, ps: seq<int>, p: Packet)
    ensures var hit := p.proto == proto && p.port in ps;
            && (Decide(t, RulesFor(proto, ps), p) == Dropped <==>
                  hit && !InSet(if p.src.V4? then t.allow4 else t.allow6, p.src))
            && (hit <==> exists i :: 0 <= i < |RulesFor(proto, ps)| && Matches(t, RulesFor(proto, ps)[i], p))
  {
    var rs := RulesFor(proto, ps);
    SortMembers(ps, IntLess);
    if ps != [] {
      assert rs[1..] == [rs[1], rs[2]] && rs[1..][1..] == [rs[2]] && [rs[2]][1..] == [];
      DecideThree(t, rs, p);
      if p.proto == proto && p.port in ps {
        assert Matches(t, rs[2], p);
      }
    }
  }

  lemma DecideThree(t: Table, rs: seq<Rule>, p: Packet)
    requires |rs| == 3
    ensures Decide(t, rs, p) ==
            if Matches(t, rs[0], p) then (if rs[0].DropTo? then Dropped else Passed)
            else if Matches(t, rs[1], p) then (if rs[1].DropTo? then Dropped else Passed)
            else if Matches(t, rs[2], p) then (if rs[2].DropTo? then Dropped else Passed) else Passed
  {
    var r1 := rs[1..];
    var r2 := r1[1..];
    assert r1[0] == rs[1] && r2[0] == rs[2] && r2[1..] == [];
    assert Decide(t, r2, p) == if Matches(t, rs[2], p) then (if rs[2].DropTo? then Dropped else Passed) else Passed;
  }

  /** The guard drops a packet iff its port is protected and no allowed CIDR of the
      packet's family contains its source. */
  lemma GuardMeaning(c: Policy, p: Packet)
    ensures Decide(TableOf(c), TableOf(c).chain, p) == Dropped <==>
            p.port in Protected(c, p.proto) && !InSet(if p.src.V4? then c.allow4 else c.allow6, p.src)
  {
    var t := TableOf(c);
    DecideAppend(t, RulesFor(Tcp, c.tcp), RulesFor(Udp, c.udp), p);
    DecideRules(t, Tcp, c.tcp, p);
    DecideRules(t, Udp, c.udp, p);
    SameSet(c.allow4, p.src);
    SameSet(c.allow6, p.src);
  }

  // ---------------------------------------------------------------- the puller

  function OfFamily(cidrs: seq<string>, f: Family): seq<string> {
    if cidrs == [] then []
    else
      var init, last := OfFamily(cidrs[..|cidrs| - 1], f), cidrs[|cidrs| - 1];
      if FamilyOfCIDR(last) == f then init + [last] else init
  }

  function PolicyFor(cidrs: seq<string>, tcp: seq<int>, udp: seq<int>): Policy {
    Policy(OfFamily(cidrs, IPv4), OfFamily(cidrs, IPv6), tcp, udp)
  }

  /** Splits allow.txt by family and generates the script. */
  method BuildNftScript(cidrs: seq<string>, tcp: seq<int>, udp: seq<int>) returns (b: string)
    ensures b == Header() + RenderScript(Compile(PolicyFor(cidrs, tcp, udp)))
  {
    var v4, v6 := Partition(cidrs);
    b := GenerateScript(Policy(v4, v6, tcp, udp));
  }

  method Partition(cidrs: seq<string>) returns (v4: seq<string>, v6: seq<string>)
    ensures v4 == OfFamily(cidrs, IPv4) && v6 == OfFamily(cidrs, IPv6)
  {
    v4, v6 := [], [];
    for i := 0 to |cidrs|
      invariant v4 == OfFamily(cidrs[..i], IPv4) && v6 == OfFamily(cidrs[..i], IPv6)
    {
      assert cidrs[..i + 1][..i] == cidrs[..i];
      match FamilyOfCIDR(cidrs[i])
      case IPv4 => v4 := v4 + [cidrs[i]];
      case IPv6 => v6 := v6 + [cidrs[i]];
      case Neither =>
    }
    assert cidrs[..|cidrs|] == cidrs;
  }

  lemma {:induction false} FamilyMembers(cidrs: seq<string>, f: Family, c: string)
    ensures c in OfFamily(cidrs, f) <==> c in cidrs && FamilyOfCIDR(c) == f
  {
    if cidrs != [] {
      var n := |cidrs| - 1;
      FamilyMembers(cidrs[..n], f, c);
      assert cidrs == cidrs[..n] + [cidrs[n]];
    }
  }

  /** Splitting by family loses no address: a source is in the set of its own family
      iff some CIDR of the list contains it. */
  lemma SplitKeepsAddresses(cidrs: seq<string>, src: Addr)
    ensures InSet(OfFamily(cidrs, if src.V4? then IPv4 else IPv6), src) <==> InSet(cidrs, src)
  {
    var f := if src.V4? then IPv4 else IPv6;
    if c :| c in OfFamily(cidrs, f) && Denotes(c, src) {
      FamilyMembers(cidrs, f, c);
    }
    if c :| c in cidrs && Denotes(c, src) {
      FamilyMembers(cidrs, f, c);
    }
  }

  /** The guard for a list of CIDRs drops a packet iff its port is protected and no
      CIDR of the list contains its source. */
  lemma GuardForList(cidrs: seq<string>, tcp: seq<int>, udp: seq<int>, p: Packet)
    ensures var c := PolicyFor(cidrs, tcp, udp);
            Decide(TableOf(c), TableOf(c).chain, p) == Dropped <==>
            p.port in (if p.proto.Tcp? then tcp else udp) && !InSet(cidrs, p.src)
  {
    GuardMeaning(PolicyFor(cidrs, tcp, udp), p);
    SplitKeepsAddresses(cidrs, p.src);
  }

  // ---------------------------------------------------------- from the envelope

  ghost predicate AllowedSource(es: seq<Entry>, p: Params, now: int, src: Addr) {
    exists e :: e in es && Admits(e, p, now, src)
  }

  /** The entry is kept, its canonical form reads back, and its network contains the
      source. */
  ghost predicate Admits(e: Entry, p: Params, now: int, src: Addr) {
    && Keeps(e, CanonFor(p), now)
    && ParseCIDR(TrimSpace(e.cidr)).value.Readable()
    && ParseCIDR(TrimSpace(e.cidr)).value.Contains(src)
  }

  lemma CanonDenotes(e: Entry, p: Params, now: int, src: Addr)
    requires Keeps(e, CanonFor(p), now)
    ensures Denotes(CanonFor(p)(e.cidr).value, src) <==> Admits(e, p, now, src)
  {
    var n := ParseCIDR(TrimSpace(e.cidr)).value;
    NetTextTrimmed(n);
    NetTextReadsBack(n);
  }

  /** From the signed envelope to the packet: what the guard built from a published
      list drops is exactly the traffic to protected ports from sources that no
      live, allowed entry's network contains. */
  lemma GuardForEnvelope(
      es: seq<Entry>, params: Params, now: int, cidrs: seq<string>, tcp: seq<int>, udp: seq<int>, p: Packet)
    requires Publishes(cidrs, es, CanonFor(params), now)
    ensures var c := PolicyFor(cidrs, tcp, udp);
            Decide(TableOf(c), TableOf(c).chain, p) == Dropped <==>
            p.port in (if p.proto.Tcp? then tcp else udp) && !AllowedSource(es, params, now, p.src)
  {
    GuardForList(cidrs, tcp, udp, p);
    PublishedAdmits(es, params, now, cidrs, p.src);
  }

  lemma PublishedAdmits(es: seq<Entry>, params: Params, now: int, cidrs: seq<string>, src: Addr)
    requires Publishes(cidrs, es, CanonFor(params), now)
    ensures InSet(cidrs, src) <==> AllowedSource(es, params, now, src)
  {
    if c :| c in cidrs && Denotes(c, src) {
      assert PublishedBy(c, es, CanonFor(params), now);
      var e :| e in es && Keeps(e, CanonFor(params), now) && CanonFor(params)(e.cidr).value == c;
      CanonDenotes(e, params, now, src);
    }
    if e :| e in es && Admits(e, params, now, src) {
      CanonDenotes(e, params, now, src);
      assert PublishedBy(CanonFor(params)(e.cidr).value, es, CanonFor(params), now);
    }
  }

  /** An IPv4-mapped entry is published but never guarded for: its text belongs to
      neither family. */
  lemma MappedEntryIgnored(e: Entry, params: Params, now: int)
    requires Keeps(e, CanonFor(params), now) && !ParseCIDR(TrimSpace(e.cidr)).value.Readable()
    ensures FamilyOfCIDR(CanonFor(params)(e.cidr).value) == Neither
  {
    var n := ParseCIDR(TrimSpace(e.cidr)).value;
    NetTextTrimmed(n);
    NetTextReadsBack(n);
  }

  /** Such entries exist for every IPv4 address: its mapped form in hexadecimal is a
      well-formed IPv6 CIDR, published in a form that does not read back. */
  lemma MappedEntryExists(ip: nat, p: Params)
    requires ip < TWO128 && IsMapped(ip) && p.allowV6
    ensures var s := Print6(ToGroups(ip, 8)) + (['/'] + NumText(128, 10));
            && ParseCIDR(TrimSpace(s)).Some? && !ParseCIDR(TrimSpace(s)).value.Readable()
            && CanonFor(p)(s).Some? && FamilyOfCIDR(CanonFor(p)(s).value) == Neither
  {
    hide ParseCIDR, Print6, ToGroups, NumText, TrimSpace;
    HexCidr(ip, 128);
    MaskNothing(ip);
    var n := NetOf(V6(ip), 128);
    NetTextTrimmed(n);
    NetTextReadsBack(n);
  }

  lemma HexCidr(ip: nat, ones: nat)
    requires ip < TWO128 && ones <= 128
    ensures ParseCIDR(TrimSpace(Print6(ToGroups(ip, 8)) + (['/'] + NumText(ones, 10)))) == Some(NetOf(V6(ip), ones))
  {
    var a, d := Print6(ToGroups(ip, 8)), NumText(ones, 10);
    ParseHexWritten(ip);
    AddressChars('/');
    HexTrimmed(ToGroups(ip, 8), d, ones);
    ParseSlash(a, ones, V6(ip));
  }

  lemma HexTrimmed(g: seq<nat>, d: string, ones: nat)
    requires |g| == 8 && d == NumText(ones, 10)
    ensures TrimSpace(Print6(g) + (['/'] + d)) == Print6(g) + (['/'] + d)
  {
    forall c | c in Print6(g) ensures !Blank(c) {
      if Blank(c) { AddressChars(c); }
    }
    NumChars(ones, 10);
    assert d[|d| - 1] in d;
    NotBlankEnds(Print6(g), ['/'] + d);
  }

  lemma ParseHexWritten(ip: nat)
    requires ip < TWO128
    ensures ParseAddr(Print6(ToGroups(ip, 8))) == Some(V6(ip))
  {
    RoundTrip6(ToGroups(ip, 8));
    Print6HasColon(ToGroups(ip, 8));
    Fits128(ip);
    GroupsRoundTrip(ip, 8);
  }

  lemma ParseSlash(a: string, ones: nat, addr: Addr)
    requires ParseAddr(a) == Some(addr) && '/' !in a && ones <= Width(addr.V4?)
    ensures ParseCIDR(a + (['/'] + NumText(ones, 10))) == Some(NetOf(addr, ones))
  {
    var d := NumText(ones, 10);
    NotInNumber(ones, 10, '/');
    SplitCons(a, '/', d);
    SplitOne(d, '/');
    assert a + (['/'] + d) == a + ['/'] + d;
    NumRoundTrip(ones, 10);
  }
}
