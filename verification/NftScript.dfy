/** Reading a guard script back: what nft makes of the text is what was compiled. The reader
    knows the part of the language that guard scripts use and refuses most other scripts,
    so what is proved with it is about generated text only. */
module NftScript {
  import opened Sorting
  import opened Text
  import opened Ipx
  import opened Signer
  import opened Pipeline
  import opened NftGuard

  // ---------------------------------------------------------------- words

  function FirstWord(s: string): (w: string)
    ensures w <= s && (s != "" && !Blank(s[0]) ==> w != "")
  {
    if s == "" || Blank(s[0]) then "" else [s[0]] + FirstWord(s[1..])
  }

  function AfterLine(s: string): (r: string)
    ensures |r| <= |s|
  {
    if s == "" then "" else if s[0] == '\n' then s[1..] else AfterLine(s[1..])
  }

  /** The words of a script; a word that starts with # starts a comment. */
  function Words(s: string): seq<string>
    decreases |s|
  {
    if s == "" then []
    else if Blank(s[0]) then Words(s[1..])
    else if s[0] == '#' then Words(AfterLine(s[1..]))
    else [FirstWord(s)] + Words(s[|FirstWord(s)|..])
  }

  predicate Plain(w: string) {
    w != "" && w[0] != '#' && forall c :: c in w ==> !Blank(c)
  }

  predicate Gap(g: string) {
    g != "" && forall c :: c in g ==> Blank(c)
  }

  /** Whatever follows, the text reads as these words and then the rest. */
  ghost predicate Reads(s: string, ws: seq<string>) {
    forall rest :: Words(s + rest) == ws + Words(rest)
  }

  lemma {:induction false} FirstWordThen(w: string, s: string)
    requires (forall x :: x in w ==> !Blank(x)) && (s == "" || Blank(s[0]))
    ensures FirstWord(w + s) == w
  {
    if w == "" {
      assert w + s == s;
    } else {
      assert (w + s)[1..] == w[1..] + s && (w + s)[0] in w;
      FirstWordThen(w[1..], s);
      assert w == [w[0]] + w[1..];
    }
  }

  lemma {:induction false} ReadsGap(g: string)
    requires forall c :: c in g ==> Blank(c)
    ensures Reads(g, [])
  {
    forall rest ensures Words(g + rest) == [] + Words(rest) {
      if g == "" {
        assert g + rest == rest;
      } else {
        assert (g + rest)[0] in g && (g + rest)[1..] == g[1..] + rest;
        ReadsGap(g[1..]);
      }
    }
  }

  lemma ReadsWord(w: string, g: string)
    requires Plain(w) && Gap(g)
    ensures Reads(w + g, [w])
  {
    ReadsGap(g);
    forall rest ensures Words(w + g + rest) == [w] + Words(rest) {
      var s := w + g + rest;
      assert s == w + (g + rest) && g[0] in g;
      FirstWordThen(w, g + rest);
      assert s[0] in w && s[|w|..] == g + rest;
    }
  }

  lemma {:induction false} AfterLineThen(t: string, rest: string)
    requires '\n' !in t
    ensures AfterLine(t + "\n" + rest) == rest
  {
    var s := t + "\n" + rest;
    if t == "" {
      assert s[1..] == rest;
    } else {
      assert s[1..] == t[1..] + "\n" + rest && s[0] in t;
      AfterLineThen(t[1..], rest);
    }
  }

  lemma ReadsComment(t: string)
    requires '\n' !in t
    ensures Reads("#" + t + "\n", [])
  {
    forall rest ensures Words("#" + t + "\n" + rest) == [] + Words(rest) {
      assert ("#" + t + "\n" + rest)[1..] == t + "\n" + rest;
      AfterLineThen(t, rest);
    }
  }

  lemma {:induction false} OneLine(text: seq<string>)
    requires forall i :: 0 <= i < |text| ==> '\n' !in text[i]
    ensures '\n' !in Concat(text)
  {
    if text != [] {
      OneLine(text[1..]);
    }
  }

  lemma ReadsCommentLine(text: seq<string>)
    requires forall i :: 0 <= i < |text| ==> '\n' !in text[i]
    ensures Reads(Comment(text), [])
  {
    OneLine(text);
    ReadsComment(Concat(text));
  }

  /** Texts that read whatever follows read one after the other. */
  lemma ReadsBoth(a: string, u: seq<string>, b: string, v: seq<string>)
    ensures Reads(a, u) && Reads(b, v) ==> Reads(a + b, u + v)
  {
    if Reads(a, u) && Reads(b, v) {
      forall rest ensures Words(a + b + rest) == u + v + Words(rest) {
        assert a + b + rest == a + (b + rest);
        assert u + (v + Words(rest)) == u + v + Words(rest);
      }
    }
  }

  lemma ReadsTwo(a: string, g: string, b: string, h: string)
    requires Plain(a) && Gap(g) && Plain(b) && Gap(h)
    ensures Reads(a + g + (b + h), [a, b])
  {
    ReadsWord(a, g);
    ReadsWord(b, h);
    ReadsBoth(a + g, [a], b + h, [b]);
    assert [a] + [b] == [a, b];
  }

  lemma ReadsThree(a: string, g: string, b: string, h: string, c: string, k: string)
    requires Plain(a) && Gap(g) && Plain(b) && Gap(h) && Plain(c) && Gap(k)
    ensures Reads(a + g + (b + h + (c + k)), [a, b, c])
  {
    ReadsWord(a, g);
    ReadsTwo(b, h, c, k);
    ReadsBoth(a + g, [a], b + h + (c + k), [b, c]);
    assert [a] + [b, c] == [a, b, c];
  }

  // ---------------------------------------------------------------- what is written

  /** The words of a list: a comma ends every one but the last. */
  function ListWords(parts: seq<string>): seq<string> {
    if parts == [] then []
    else if |parts| == 1 then parts
    else [parts[0] + [',']] + ListWords(parts[1..])
  }

  /** A list element: no blank, comma or # in it. */
  predicate Element(w: string) {
    Plain(w) && ',' !in w
  }

  predicate Elements(ws: seq<string>) {
    forall i :: 0 <= i < |ws| ==> Element(ws[i])
  }

  lemma {:induction false} ReadsList(parts: seq<string>)
    requires parts != [] && Elements(parts)
    ensures Reads(JoinComma(parts) + " ", ListWords(parts))
  {
    if |parts| == 1 {
      ReadsWord(parts[0], " ");
    } else {
      var first, others := parts[0] + [','], parts[1..];
      ReadsList(others);
      ReadsWord(first, " ");
      ReadsBoth(first + " ", [first], JoinComma(others) + " ", ListWords(others));
      assert JoinComma(parts) + " " == (first + " ") + (JoinComma(others) + " ");
    }
  }

  lemma IntTextElement(n: int)
    ensures Element(IntText(n))
  {
    var m: nat := if n < 0 then -n else n;
    NumChars(m, 10);
    var t := IntText(n);
    forall c | c in t ensures !Blank(c) && c != '#' && c != ',' {
      assert c == '-' || c in NumText(m, 10);
    }
    assert t[0] in t;
  }

  lemma PortElements(ps: seq<int>)
    ensures Elements(PortTexts(ps))
  {
    forall i | 0 <= i < |ps| ensures Element(PortTexts(ps)[i]) {
      IntTextElement(ps[i]);
    }
  }

  function SourceWords(v4: bool): seq<string> {
    if v4 then ["ip", "saddr", "@allow4"] else ["ip6", "saddr", "@allow6"]
  }

  function PortWords(proto: Proto, ports: seq<int>, verdict: string): seq<string> {
    [ProtoText(proto), "dport", "{"] + ListWords(PortTexts(ports)) + ["}", verdict]
  }

  function RuleWords(r: Rule): seq<string> {
    match r
    case AcceptFrom(v4, proto, ports) => SourceWords(v4) + PortWords(proto, ports, "accept")
    case DropTo(proto, ports) => PortWords(proto, ports, "drop")
  }

  lemma ReadsSource4()
    ensures Reads("ip saddr @allow4 ", ["ip", "saddr", "@allow4"])
  {
    ReadsThree("ip", " ", "saddr", " ", "@allow4", " ");
    assert "ip saddr @allow4 " == "ip" + " " + ("saddr" + " " + ("@allow4" + " "));
  }

  lemma ReadsSource6()
    ensures Reads("ip6 saddr @allow6 ", ["ip6", "saddr", "@allow6"])
  {
    ReadsThree("ip6", " ", "saddr", " ", "@allow6", " ");
    assert "ip6 saddr @allow6 " == "ip6" + " " + ("saddr" + " " + ("@allow6" + " "));
  }

  lemma ReadsSource(v4: bool)
    ensures Reads(if v4 then "ip saddr @allow4 " else "ip6 saddr @allow6 ", SourceWords(v4))
  {
    if v4 {
      ReadsSource4();
    } else {
      ReadsSource6();
    }
  }

  lemma ReadsVerdict(verdict: string)
    requires Plain(verdict)
    ensures Reads("} " + verdict + "\n", ["}", verdict])
  {
    ReadsTwo("}", " ", verdict, "\n");
    assert "} " + verdict + "\n" == "}" + " " + (verdict + "\n");
  }

  lemma ReadsDport(proto: Proto)
    ensures Reads(ProtoText(proto) + " dport { ", [ProtoText(proto), "dport", "{"])
  {
    var p := ProtoText(proto);
    ReadsThree(p, " ", "dport", " ", "{", " ");
    assert p + " dport { " == p + " " + ("dport" + " " + ("{" + " "));
  }

  function RuleTail(proto: Proto, ports: seq<int>, verdict: string): string {
    ProtoText(proto) + " dport { " + (PortsText(ports) + " " + ("} " + verdict + "\n"))
  }

  lemma ReadsPorts(proto: Proto, ports: seq<int>, verdict: string)
    requires ports != [] && Plain(verdict)
    ensures Reads(RuleTail(proto, ports, verdict), PortWords(proto, ports, verdict))
  {
    PortElements(ports);
    var list, tail := PortsText(ports) + " ", "} " + verdict + "\n";
    ReadsList(PortTexts(ports));
    ReadsVerdict(verdict);
    ReadsBoth(list, ListWords(PortTexts(ports)), tail, ["}", verdict]);
    ReadsDport(proto);
    ReadsBoth(ProtoText(proto) + " dport { ", [ProtoText(proto), "dport", "{"],
              list + tail, ListWords(PortTexts(ports)) + ["}", verdict]);
    assert PortWords(proto, ports, verdict)
        == [ProtoText(proto), "dport", "{"] + (ListWords(PortTexts(ports)) + ["}", verdict]);
  }

  lemma ReadsIndented(s: string, ws: seq<string>)
    ensures Reads(s, ws) ==> Reads("\t\t" + s, ws)
  {
    ReadsGap("\t\t");
    ReadsBoth("\t\t", [], s, ws);
    assert [] + ws == ws;
  }

  lemma ReadsSourceThen(v4: bool, tail: string, ws: seq<string>)
    ensures Reads(tail, ws) ==>
              Reads("\t\t" + ((if v4 then "ip saddr @allow4 " else "ip6 saddr @allow6 ") + tail), SourceWords(v4) + ws)
  {
    var src := if v4 then "ip saddr @allow4 " else "ip6 saddr @allow6 ";
    ReadsSource(v4);
    ReadsBoth(src, SourceWords(v4), tail, ws);
    ReadsIndented(src + tail, SourceWords(v4) + ws);
  }

  lemma ReadsAccept(v4: bool, proto: Proto, ports: seq<int>)
    requires ports != []
    ensures Reads(RenderRule(AcceptFrom(v4, proto, ports)), SourceWords(v4) + PortWords(proto, ports, "accept"))
  {
    ReadsPorts(proto, ports, "accept");
    ReadsSourceThen(v4, RuleTail(proto, ports, "accept"), PortWords(proto, ports, "accept"));
    SplitsAccept(v4, proto, ports);
  }

  lemma ReadsDrop(proto: Proto, ports: seq<int>)
    requires ports != []
    ensures Reads(RenderRule(DropTo(proto, ports)), PortWords(proto, ports, "drop"))
  {
    ReadsPorts(proto, ports, "drop");
    ReadsIndented(RuleTail(proto, ports, "drop"), PortWords(proto, ports, "drop"));
    SplitsDrop(proto, ports);
  }

  lemma ReadsRule(r: Rule)
    requires r.ports != []
    ensures Reads(RenderRule(r), RuleWords(r))
  {
    match r
    case AcceptFrom(v4, proto, ports) => ReadsAccept(v4, proto, ports);
    case DropTo(proto, ports) => ReadsDrop(proto, ports);
  }

  lemma SplitsAccept(v4: bool, proto: Proto, ports: seq<int>)
    ensures RenderRule(AcceptFrom(v4, proto, ports)) ==
            "\t\t" + ((if v4 then "ip saddr @allow4 " else "ip6 saddr @allow6 ") + RuleTail(proto, ports, "accept"))
  {
    assert " } accept\n" == " " + ("} " + "accept" + "\n");
    Regroup("\t\t", if v4 then "ip saddr @allow4 " else "ip6 saddr @allow6 ", ProtoText(proto), " dport { ",
            PortsText(ports), " ", "} " + "accept" + "\n");
  }

  lemma SplitsDrop(proto: Proto, ports: seq<int>)
    ensures RenderRule(DropTo(proto, ports)) == "\t\t" + RuleTail(proto, ports, "drop")
  {
    assert " } drop\n" == " " + ("} " + "drop" + "\n");
    Regroup("\t\t", "", ProtoText(proto), " dport { ", PortsText(ports), " ", "} " + "drop" + "\n");
    assert "\t\t" + "" == "\t\t" && "" + RuleTail(proto, ports, "drop") == RuleTail(proto, ports, "drop");
  }

  lemma Regroup(a: string, b: string, c: string, d: string, e: string, f: string, g: string)
    ensures a + b + c + d + e + (f + g) == a + (b + (c + d + (e + f + g)))
  {
  }

  function RulesWords(rs: seq<Rule>): seq<string> {
    if rs == [] then [] else RuleWords(rs[0]) + RulesWords(rs[1..])
  }

  predicate HavePorts(rs: seq<Rule>) {
    forall i :: 0 <= i < |rs| ==> rs[i].ports != []
  }

  lemma {:induction false} ReadsRules(rs: seq<Rule>)
    requires HavePorts(rs)
    ensures Reads(Concat(Mapped(RenderRule, rs)), RulesWords(rs))
  {
    if rs == [] {
      ReadsGap("");
    } else {
      ReadsRule(rs[0]);
      ReadsRules(rs[1..]);
      assert Mapped(RenderRule, rs)[1..] == Mapped(RenderRule, rs[1..]);
      ReadsBoth(RenderRule(rs[0]), RuleWords(rs[0]), Concat(Mapped(RenderRule, rs[1..])), RulesWords(rs[1..]));
    }
  }

  const CHAIN_OPEN: seq<string> := ["chain", "guard", "{"]
  const CHAIN_HOOK: seq<string> := ["type", "filter", "hook"] + (["input", "priority", "-10;"] + ["policy", "accept;"])

  function ChainWords(rs: seq<Rule>): seq<string> {
    CHAIN_OPEN + (CHAIN_HOOK + (RulesWords(rs) + ["}"]))
  }

  lemma ReadsChainOpen()
    ensures Reads("\tchain guard {\n", CHAIN_OPEN)
  {
    ReadsTabbed("chain guard {\n", CHAIN_OPEN) by {
      ReadsThree("chain", " ", "guard", " ", "{", "\n");
      assert "chain guard {\n" == "chain" + " " + ("guard" + " " + ("{" + "\n"));
    }
    assert "\tchain guard {\n" == "\t" + "chain guard {\n";
  }

  lemma ReadsTabbed(s: string, ws: seq<string>)
    requires Reads(s, ws)
    ensures Reads("\t" + s, ws)
  {
    ReadsGap("\t");
    ReadsBoth("\t", [], s, ws);
    assert [] + ws == ws;
  }

  lemma ReadsHookType()
    ensures Reads("type filter hook ", ["type", "filter", "hook"])
  {
    ReadsThree("type", " ", "filter", " ", "hook", " ");
    assert "type filter hook " == "type" + " " + ("filter" + " " + ("hook" + " "));
  }

  lemma ReadsHookPriority()
    ensures Reads("input priority -10; ", ["input", "priority", "-10;"])
  {
    ReadsThree("input", " ", "priority", " ", "-10;", " ");
    assert "input priority -10; " == "input" + " " + ("priority" + " " + ("-10;" + " "));
  }

  lemma ReadsHookPolicy()
    ensures Reads("policy accept;\n", ["policy", "accept;"])
  {
    ReadsTwo("policy", " ", "accept;", "\n");
    assert "policy accept;\n" == "policy" + " " + ("accept;" + "\n");
  }

  lemma ReadsThreeParts(a: string, u: seq<string>, b: string, v: seq<string>, c: string, w: seq<string>)
    ensures Reads(a, u) && Reads(b, v) && Reads(c, w) ==> Reads(a + b + c, u + (v + w))
  {
    ReadsBoth(b, v, c, w);
    ReadsBoth(a, u, b + c, v + w);
    assert a + (b + c) == a + b + c;
  }

  lemma ReadsChainHook()
    ensures Reads("\t\ttype filter hook " + "input priority -10; " + "policy accept;\n", CHAIN_HOOK)
  {
    hide Reads;
    ReadsHookType();
    ReadsHookPriority();
    ReadsHookPolicy();
    ReadsIndented("type filter hook ", ["type", "filter", "hook"]);
    assert "\t\ttype filter hook " == "\t\t" + "type filter hook ";
    ReadsThreeParts("\t\ttype filter hook ", ["type", "filter", "hook"],
                    "input priority -10; ", ["input", "priority", "-10;"], "policy accept;\n", ["policy", "accept;"]);
  }

  lemma ReadsNoRules()
    ensures Reads(NoRules(), [])
  {
    var text := [" no protected ports", " configured: guard is", " a no-op"];
    ReadsCommentLine(text);
    ReadsIndented(Comment(text), []);
  }

  lemma ReadsChain(rs: seq<Rule>)
    requires HavePorts(rs)
    ensures Reads(RenderChain(rs), ChainWords(rs))
  {
    var body := if rs == [] then NoRules() else Concat(Mapped(RenderRule, rs));
    var head, hook := "\tchain guard {\n", "\t\ttype filter hook " + "input priority -10; " + "policy accept;\n";
    ReadsNoRules();
    ReadsRules(rs);
    ReadsClose();
    ReadsBoth(body, RulesWords(rs), "\t}\n", ["}"]);
    ReadsChainHook();
    ReadsChainOpen();
    ReadsThreeParts(head, CHAIN_OPEN, hook, CHAIN_HOOK, body + "\t}\n", RulesWords(rs) + ["}"]);
    assert RenderChain(rs) == head + hook + (body + "\t}\n");
  }

  lemma ReadsClose()
    ensures Reads("\t}\n", ["}"]) && Reads("\t}\n\n", ["}"]) && Reads("}\n", ["}"])
  {
    ReadsGap("\t");
    ReadsCloseThen("\n");
    ReadsCloseThen("\n\n");
    assert "\t}\n" == "\t" + ("}" + "\n") && "\t}\n\n" == "\t" + ("}" + "\n\n") && "}\n" == "}" + "\n";
  }

  lemma ReadsCloseThen(g: string)
    requires Gap(g)
    ensures Reads("}" + g, ["}"]) && Reads("\t" + ("}" + g), ["}"])
  {
    ReadsGap("\t");
    ReadsWord("}", g);
    ReadsBoth("\t", [], "}" + g, ["}"]);
    assert [] + ["}"] == ["}"];
  }

  // ---------------------------------------------------------------- sets and commands

  const FLAGS: seq<string> := ["flags", "interval", "auto-merge"]

  function ElementWords(elements: seq<string>): seq<string> {
    if elements == [] then [] else ["elements", "=", "{"] + (ListWords(elements) + ["}"])
  }

  function SetHead(name: string, kind: string): seq<string> {
    ["set"] + ([name] + (["{", "type"] + ([kind] + FLAGS)))
  }

  function SetWords(name: string, kind: string, elements: seq<string>): seq<string> {
    SetHead(name, kind) + (ElementWords(elements) + ["}"])
  }

  lemma ReadsElementsOpen()
    ensures Reads("\t\telements = { ", ["elements", "=", "{"])
  {
    ReadsThree("elements", " ", "=", " ", "{", " ");
    assert "elements = { " == "elements" + " " + ("=" + " " + ("{" + " "));
    ReadsIndented("elements = { ", ["elements", "=", "{"]);
    assert "\t\telements = { " == "\t\t" + "elements = { ";
  }

  lemma ReadsElementsLine(list: string, words: seq<string>)
    ensures Reads(list + " ", words) ==>
              Reads("\t\telements = { " + list + " }\n", ["elements", "=", "{"] + (words + ["}"]))
  {
    ReadsElementsOpen();
    ReadsWord("}", "\n");
    ReadsThreeParts("\t\telements = { ", ["elements", "=", "{"], list + " ", words, "}" + "\n", ["}"]);
    assert " }\n" == " " + ("}" + "\n");
    assert "\t\telements = { " + list + " }\n" == "\t\telements = { " + (list + " ") + ("}" + "\n");
  }

  lemma ReadsElements(elements: seq<string>)
    requires Elements(elements)
    ensures Reads(if JoinComma(elements) == "" then "" else "\t\telements = { " + JoinComma(elements) + " }\n", ElementWords(elements))
  {
    if elements == [] {
      ReadsGap("");
    } else {
      JoinedNotEmpty(elements);
      ReadsList(elements);
      ReadsElementsLine(JoinComma(elements), ListWords(elements));
    }
  }

  lemma ReadsSetWord()
    ensures Reads("\tset ", ["set"])
  {
    ReadsGap("\t");
    ReadsWord("set", " ");
    ReadsBoth("\t", [], "set" + " ", ["set"]);
    assert "\tset " == "\t" + ("set" + " ") && [] + ["set"] == ["set"];
  }

  lemma ReadsType()
    ensures Reads("{\n\t\ttype ", ["{", "type"])
  {
    ReadsTwo("{", "\n\t\t", "type", " ");
    assert "{\n\t\ttype " == "{" + "\n\t\t" + ("type" + " ");
  }

  lemma FlagsText()
    ensures "flags interval\n\t\tauto-merge\n" == "flags interval\n\t\t" + "auto-merge\n"
  {
  }

  lemma ReadsInterval()
    ensures Reads("flags interval\n\t\t", ["flags", "interval"])
  {
    ReadsTwo("flags", " ", "interval", "\n\t\t");
    assert "flags interval\n\t\t" == "flags" + " " + ("interval" + "\n\t\t");
  }

  lemma ReadsMerge()
    ensures Reads("auto-merge\n", ["auto-merge"])
  {
    ReadsWord("auto-merge", "\n");
    assert "auto-merge\n" == "auto-merge" + "\n";
  }

  lemma ReadsFlags()
    ensures Reads("flags interval\n\t\tauto-merge\n", FLAGS)
  {
    ReadsInterval();
    ReadsMerge();
    ReadsBoth("flags interval\n\t\t", ["flags", "interval"], "auto-merge\n", ["auto-merge"]);
    FlagsText();
    assert ["flags", "interval"] + ["auto-merge"] == FLAGS;
  }

  function SetOpen(name: string, kind: string): string {
    "\tset " + (name + " " + ("{\n\t\ttype " + (kind + "\n\t\t" + "flags interval\n\t\tauto-merge\n")))
  }

  lemma ReadsSetOpen(name: string, kind: string)
    requires Plain(name) && Plain(kind)
    ensures Reads(SetOpen(name, kind), SetHead(name, kind))
  {
    var flags := "flags interval\n\t\tauto-merge\n";
    ReadsSetWord();
    ReadsType();
    ReadsFlags();
    ReadsWord(kind, "\n\t\t");
    ReadsBoth(kind + "\n\t\t", [kind], flags, FLAGS);
    ReadsBoth("{\n\t\ttype ", ["{", "type"], kind + "\n\t\t" + flags, [kind] + FLAGS);
    ReadsWord(name, " ");
    ReadsBoth(name + " ", [name], "{\n\t\ttype " + (kind + "\n\t\t" + flags), ["{", "type"] + ([kind] + FLAGS));
    ReadsBoth("\tset ", ["set"], name + " " + ("{\n\t\ttype " + (kind + "\n\t\t" + flags)),
              [name] + (["{", "type"] + ([kind] + FLAGS)));
  }

  lemma SetOpenText(name: string, kind: string)
    ensures "\tset " + name + " {\n\t\ttype " + kind + "\n\t\tflags interval\n\t\tauto-merge\n" == SetOpen(name, kind)
  {
    assert " {\n\t\ttype " == " " + "{\n\t\ttype ";
    assert "\n\t\tflags interval\n\t\tauto-merge\n" == "\n\t\t" + "flags interval\n\t\tauto-merge\n";
    RegroupSet("\tset ", name, " ", "{\n\t\ttype ", kind, "\n\t\t", "flags interval\n\t\tauto-merge\n");
  }

  lemma RegroupSet(a: string, b: string, c: string, d: string, e: string, f: string, g: string)
    ensures a + b + (c + d) + e + (f + g) == a + (b + c + (d + (e + f + g)))
  {
  }

  lemma ReadsSet(name: string, kind: string, elements: seq<string>)
    requires Plain(name) && Plain(kind) && Elements(elements)
    ensures Reads(RenderSet(name, kind, elements), SetWords(name, kind, elements))
  {
    var body := if JoinComma(elements) == "" then "" else "\t\telements = { " + JoinComma(elements) + " }\n";
    ReadsSetOpen(name, kind);
    SetOpenText(name, kind);
    ReadsElements(elements);
    ReadsClose();
    ReadsThreeParts(SetOpen(name, kind), SetHead(name, kind), body, ElementWords(elements), "\t}\n\n", ["}"]);
  }

  function TableWords(content: Table): seq<string> {
    SetWords("allow4", "ipv4_addr", content.allow4) +
    (SetWords("allow6", "ipv6_addr", content.allow6) + (ChainWords(content.chain) + ["}"]))
  }

  function CommandWords(cmd: Command): seq<string> {
    match cmd
    case Ensure(t) => ["table", "inet"] + [t]
    case Delete(t) => ["delete", "table", "inet"] + [t]
    case Define(t, content) => ["table", "inet"] + ([t] + (["{"] + TableWords(content)))
  }

  predicate Readable(t: Table) {
    Elements(t.allow4) && Elements(t.allow6) && HavePorts(t.chain)
  }

  lemma ReadsTableWords()
    ensures Reads("table inet ", ["table", "inet"])
    ensures Reads("delete table inet ", ["delete", "table", "inet"])
  {
    ReadsTwo("table", " ", "inet", " ");
    assert "table inet " == "table" + " " + ("inet" + " ");
    ReadsThree("delete", " ", "table", " ", "inet", " ");
    assert "delete table inet " == "delete" + " " + ("table" + " " + ("inet" + " "));
  }

  lemma ReadsSets(content: Table)
    requires Readable(content)
    ensures Reads(RenderSet("allow4", "ipv4_addr", content.allow4), SetWords("allow4", "ipv4_addr", content.allow4))
    ensures Reads(RenderSet("allow6", "ipv6_addr", content.allow6), SetWords("allow6", "ipv6_addr", content.allow6))
  {
    ReadsSet("allow4", "ipv4_addr", content.allow4);
    ReadsSet("allow6", "ipv6_addr", content.allow6);
  }

  lemma ReadsChainClosed(rs: seq<Rule>)
    requires HavePorts(rs)
    ensures Reads(RenderChain(rs) + "}\n", ChainWords(rs) + ["}"])
  {
    ReadsChain(rs);
    ReadsClose();
    ReadsBoth(RenderChain(rs), ChainWords(rs), "}\n", ["}"]);
  }

  lemma ReadsBody(content: Table)
    requires Readable(content)
    ensures Reads(RenderSet("allow4", "ipv4_addr", content.allow4) + RenderSet("allow6", "ipv6_addr", content.allow6)
                  + (RenderChain(content.chain) + "}\n"), TableWords(content))
  {
    ReadsSets(content);
    ReadsChainClosed(content.chain);
    ReadsThreeParts(RenderSet("allow4", "ipv4_addr", content.allow4), SetWords("allow4", "ipv4_addr", content.allow4),
                    RenderSet("allow6", "ipv6_addr", content.allow6), SetWords("allow6", "ipv6_addr", content.allow6),
                    RenderChain(content.chain) + "}\n", ChainWords(content.chain) + ["}"]);
  }

  lemma ReadsDefine(t: string, content: Table)
    requires Plain(t) && Readable(content)
    ensures Reads(RenderCommand(Define(t, content)), CommandWords(Define(t, content)))
  {
    var set4, set6 := RenderSet("allow4", "ipv4_addr", content.allow4), RenderSet("allow6", "ipv6_addr", content.allow6);
    var chain := RenderChain(content.chain);
    ReadsBody(content);
    ReadsTableWords();
    ReadsWord("{", "\n");
    ReadsWord(t, " ");
    ReadsBoth("{" + "\n", ["{"], set4 + set6 + (chain + "}\n"), TableWords(content));
    ReadsThreeParts("table inet ", ["table", "inet"], t + " ", [t],
                    "{" + "\n" + (set4 + set6 + (chain + "}\n")), ["{"] + TableWords(content));
    DefineText(t, set4, set6, chain);
  }

  lemma DefineText(t: string, set4: string, set6: string, chain: string)
    ensures RenderDefine(t, set4, set6, chain) == "table inet " + (t + " ") + ("{" + "\n" + (set4 + set6 + (chain + "}\n")))
  {
    assert " {\n" == " " + ("{" + "\n");
    RegroupDefine("table inet ", t, " ", "{" + "\n", set4, set6, chain, "}\n");
  }

  lemma RegroupDefine(a: string, b: string, c: string, d: string, e: string, f: string, g: string, h: string)
    ensures a + b + (c + d) + e + f + g + h == a + (b + c) + (d + (e + f + (g + h)))
  {
  }

  lemma ReadsCommand(cmd: Command)
    requires Plain(cmd.table) && (cmd.Define? ==> Readable(cmd.content))
    ensures Reads(RenderCommand(cmd), CommandWords(cmd))
  {
    match cmd
    case Ensure(t) =>
      ReadsTableWords();
      ReadsWord(t, "\n");
      ReadsBoth("table inet ", ["table", "inet"], t + "\n", [t]);
      assert "table inet " + t + "\n" == "table inet " + (t + "\n");
    case Delete(t) =>
      ReadsTableWords();
      ReadsWord(t, "\n\n");
      ReadsBoth("delete table inet ", ["delete", "table", "inet"], t + "\n\n", [t]);
      assert "delete table inet " + t + "\n\n" == "delete table inet " + (t + "\n\n");
    case Define(t, content) =>
      ReadsDefine(t, content);
  }

  // ---------------------------------------------------------------- reading

  /** `ex` and then the rest. */
  function Expect(ws: seq<string>, ex: seq<string>): (r: Option<seq<string>>)
    ensures r.Some? ==> |r.value| == |ws| - |ex|
  {
    if ex <= ws then Some(ws[|ex|..]) else None
  }

  datatype Parsed<T> = Parsed(value: T, rest: seq<string>)

  /** Elements up to the first word without a comma. */
  function ReadList(ws: seq<string>): (r: Option<Parsed<seq<string>>>)
    ensures r.Some? ==> |r.value.rest| < |ws|
  {
    if ws == [] || ws[0] == "" then None
    else
      var w := ws[0];
      if w[|w| - 1] != ',' then Some(Parsed([w], ws[1..]))
      else
        var r := ReadList(ws[1..]);
        if r == None then None else Some(Parsed([w[..|w| - 1]] + r.value.value, r.value.rest))
  }

  function ReadInt(w: string): Option<int> {
    if w != "" && w[0] == '-' then
      var n := NumValue(w[1..], 10);
      if n == None then None else Some(0 - n.value as int)
    else
      var n := NumValue(w, 10);
      if n == None then None else Some(n.value)
  }

  function ReadInts(ws: seq<string>): Option<seq<int>> {
    if ws == [] then Some([])
    else
      var n, rest := ReadInt(ws[0]), ReadInts(ws[1..]);
      if n == None || rest == None then None else Some([n.value] + rest.value)
  }

  function ReadPortList(ws: seq<string>): (r: Option<Parsed<seq<int>>>)
    ensures r.Some? ==> |r.value.rest| < |ws|
  {
    var list := ReadList(ws);
    if list == None then None
    else
      var ports := ReadInts(list.value.value);
      if ports == None then None else Some(Parsed(ports.value, list.value.rest))
  }

  function ReadProto(w: string): Option<Proto> {
    if w == "tcp" then Some(Tcp) else if w == "udp" then Some(Udp) else None
  }

  datatype Ported = Ported(proto: Proto, ports: seq<int>, verdict: string)

  /** A protocol, its ports, and what to do. */
  function ReadPorted(ws: seq<string>): (r: Option<Parsed<Ported>>)
    ensures r.Some? ==> |r.value.rest| < |ws|
  {
    if |ws| < 3 || ReadProto(ws[0]) == None || ws[1..3] != ["dport", "{"] then None
    else
      var ports := ReadPortList(ws[3..]);
      if ports == None || |ports.value.rest| < 2 || ports.value.rest[0] != "}" then None
      else
        var rest := ports.value.rest;
        Some(Parsed(Ported(ReadProto(ws[0]).value, ports.value.value, rest[1]), rest[2..]))
  }

  /** A source match accepts; no match drops; this guard has no other rules. */
  function ReadRule(ws: seq<string>): (r: Option<Parsed<Rule>>)
    ensures r.Some? ==> |r.value.rest| < |ws|
  {
    var from4, from6 := Expect(ws, SourceWords(true)), Expect(ws, SourceWords(false));
    var p := ReadPorted(if from4.Some? then from4.value else if from6.Some? then from6.value else ws);
    if p == None then None
    else
      var x := p.value.value;
      var matched := from4.Some? || from6.Some?;
      if matched && x.verdict == "accept" then Some(Parsed(AcceptFrom(from4.Some?, x.proto, x.ports), p.value.rest))
      else if !matched && x.verdict == "drop" then Some(Parsed(DropTo(x.proto, x.ports), p.value.rest))
      else None
  }

  function ReadRules(ws: seq<string>): (r: Option<Parsed<seq<Rule>>>)
    ensures r.Some? ==> |r.value.rest| <= |ws|
    decreases |ws|
  {
    if ws != [] && ws[0] == "}" then Some(Parsed([], ws))
    else
      var rule := ReadRule(ws);
      if rule == None then None
      else
        var rules := ReadRules(rule.value.rest);
        if rules == None then None else Some(Parsed([rule.value.value] + rules.value.value, rules.value.rest))
  }

  /** Rules and the closing brace. */
  function ReadChainBody(ws: seq<string>): (r: Option<Parsed<seq<Rule>>>)
    ensures r.Some? ==> |r.value.rest| <= |ws|
  {
    var rules := ReadRules(ws);
    if rules == None then None
    else
      var close := Expect(rules.value.rest, ["}"]);
      if close == None then None else Some(Parsed(rules.value.value, close.value))
  }

  function ReadChain(ws: seq<string>): (r: Option<Parsed<seq<Rule>>>)
    ensures r.Some? ==> |r.value.rest| <= |ws|
  {
    var open := Expect(ws, CHAIN_OPEN);
    var hook := if open == None then None else Expect(open.value, CHAIN_HOOK);
    if hook == None then None else ReadChainBody(hook.value)
  }

  // ------------------------------------------------------- words read back

  lemma ExpectThen(ex: seq<string>, rest: seq<string>)
    ensures Expect(ex + rest, ex) == Some(rest)
  {
    assert (ex + rest)[..|ex|] == ex && (ex + rest)[|ex|..] == rest;
  }

  lemma {:induction false} ListReadsBack(parts: seq<string>, rest: seq<string>)
    requires parts != [] && Elements(parts)
    ensures ReadList(ListWords(parts) + rest) == Some(Parsed(parts, rest))
  {
    if |parts| == 1 {
      assert parts == [parts[0]];
      LastReadsBack(parts[0], rest);
    } else {
      ListReadsBack(parts[1..], rest);
      NextReadsBack(parts[0], ListWords(parts[1..]) + rest, parts[1..], rest);
      Associate([parts[0] + [',']], ListWords(parts[1..]), rest);
      assert [parts[0]] + parts[1..] == parts;
    }
  }

  lemma LastReadsBack(w: string, rest: seq<string>)
    requires Element(w)
    ensures ReadList([w] + rest) == Some(Parsed([w], rest))
  {
    assert w[|w| - 1] in w;
    HeadThen(w, rest);
  }

  lemma NextReadsBack(w: string, ws: seq<string>, list: seq<string>, rest: seq<string>)
    requires ReadList(ws) == Some(Parsed(list, rest))
    ensures ReadList([w + [',']] + ws) == Some(Parsed([w] + list, rest))
  {
    HeadThen(w + [','], ws);
    assert (w + [','])[..|w|] == w;
  }

  lemma IntReadsBack(n: int)
    ensures ReadInt(IntText(n)) == Some(n)
  {
    var m: nat := if n < 0 then -n else n;
    NumRoundTrip(m, 10);
    NumChars(m, 10);
    if n < 0 {
      assert ("-" + NumText(m, 10))[1..] == NumText(m, 10);
    } else {
      assert NumText(n, 10)[0] in NumText(n, 10);
    }
  }

  lemma FirstPort(ps: seq<int>)
    requires ps != []
    ensures PortTexts(ps) == [IntText(ps[0])] + PortTexts(ps[1..]) && [ps[0]] + ps[1..] == ps
  {
  }

  lemma {:induction false} IntsReadBack(ps: seq<int>)
    ensures ReadInts(PortTexts(ps)) == Some(ps)
  {
    if ps != [] {
      hide ReadInts, ReadInt, PortTexts, IntText;
      IntReadsBack(ps[0]);
      IntsReadBack(ps[1..]);
      IntsCons(IntText(ps[0]), PortTexts(ps[1..]), ps[0], ps[1..]);
      FirstPort(ps);
    }
  }

  lemma IntsCons(w: string, ws: seq<string>, n: int, ns: seq<int>)
    requires ReadInt(w) == Some(n) && ReadInts(ws) == Some(ns)
    ensures ReadInts([w] + ws) == Some([n] + ns)
  {
    assert ([w] + ws)[1..] == ws;
  }

  lemma PortListReadsBack(ports: seq<int>, rest: seq<string>)
    requires ports != []
    ensures ReadPortList(ListWords(PortTexts(ports)) + rest) == Some(Parsed(ports, rest))
  {
    PortElements(ports);
    ListReadsBack(PortTexts(ports), rest);
    IntsReadBack(ports);
  }

  lemma PortedFrom(proto: Proto, ports: seq<int>, verdict: string, list: seq<string>, rest: seq<string>)
    requires ReadPortList(list) == Some(Parsed(ports, ["}", verdict] + rest))
    ensures ReadPorted([ProtoText(proto), "dport", "{"] + list) == Some(Parsed(Ported(proto, ports, verdict), rest))
  {
    var ws, tail := [ProtoText(proto), "dport", "{"] + list, ["}", verdict] + rest;
    assert ws[1..3] == ["dport", "{"] && ws[3..] == list;
    assert tail[2..] == rest;
    assert "tcp"[0] == 't' && "udp"[0] == 'u';
  }

  lemma PortedReadsBack(proto: Proto, ports: seq<int>, verdict: string, rest: seq<string>)
    requires ports != []
    ensures ReadPorted(PortWords(proto, ports, verdict) + rest) == Some(Parsed(Ported(proto, ports, verdict), rest))
  {
    var open, list, close := [ProtoText(proto), "dport", "{"], ListWords(PortTexts(ports)), ["}", verdict];
    PortListReadsBack(ports, close + rest);
    PortedFrom(proto, ports, verdict, list + (close + rest), rest);
    FourInRow(open, list, close, rest);
  }

  lemma FourInRow(a: seq<string>, b: seq<string>, c: seq<string>, d: seq<string>)
    ensures (a + b + c) + d == a + (b + (c + d))
  {
  }

  lemma AcceptReadsBack(v4: bool, proto: Proto, ports: seq<int>, rest: seq<string>)
    requires ports != []
    ensures ReadRule(SourceWords(v4) + (PortWords(proto, ports, "accept") + rest))
         == Some(Parsed(AcceptFrom(v4, proto, ports), rest))
  {
    PortedReadsBack(proto, ports, "accept", rest);
    SourceReadsBack(v4, PortWords(proto, ports, "accept") + rest);
  }

  lemma DropReadsBack(proto: Proto, ports: seq<int>, rest: seq<string>)
    requires ports != []
    ensures ReadRule(PortWords(proto, ports, "drop") + rest) == Some(Parsed(DropTo(proto, ports), rest))
  {
    var ws := PortWords(proto, ports, "drop") + rest;
    PortedReadsBack(proto, ports, "drop", rest);
    assert ws[0] == ProtoText(proto);
    NoSource(ws);
    assert |"drop"| != |"accept"|;
  }

  lemma RuleReadsBack(r: Rule, rest: seq<string>)
    requires r.ports != []
    ensures ReadRule(RuleWords(r) + rest) == Some(Parsed(r, rest))
  {
    match r
    case AcceptFrom(v4, proto, ports) =>
      AcceptReadsBack(v4, proto, ports, rest);
      Associate(SourceWords(v4), PortWords(proto, ports, "accept"), rest);
    case DropTo(proto, ports) =>
      DropReadsBack(proto, ports, rest);
  }

  lemma Associate(a: seq<string>, b: seq<string>, c: seq<string>)
    ensures (a + b) + c == a + (b + c)
  {
  }

  lemma SourceReadsBack(v4: bool, rest: seq<string>)
    ensures Expect(SourceWords(v4) + rest, SourceWords(v4)) == Some(rest)
    ensures Expect(SourceWords(v4) + rest, SourceWords(!v4)) == None
  {
    ExpectThen(SourceWords(v4), rest);
    assert (SourceWords(v4) + rest)[0] == SourceWords(v4)[0];
    assert |"ip"| != |"ip6"|;
  }

  lemma NoSource(ws: seq<string>)
    requires ws != [] && (ws[0] == "tcp" || ws[0] == "udp")
    ensures Expect(ws, SourceWords(true)) == None && Expect(ws, SourceWords(false)) == None
  {
    assert ws[0][0] != 'i' && "ip"[0] == 'i' && "ip6"[0] == 'i';
  }

  lemma RuleWordsStart(r: Rule)
    ensures RuleWords(r) != [] && RuleWords(r)[0] != "}"
  {
    assert |"}"| == 1 && |"ip"| == 2 && |"ip6"| == 3 && |"tcp"| == 3 && |"udp"| == 3;
  }

  lemma RulesEnd(close: seq<string>)
    requires close != [] && close[0] == "}"
    ensures ReadRules(close) == Some(Parsed([], close))
  {
  }

  lemma {:induction false} RulesReadBack(rs: seq<Rule>, close: seq<string>)
    requires HavePorts(rs) && close != [] && close[0] == "}"
    ensures ReadRules(RulesWords(rs) + close) == Some(Parsed(rs, close))
  {
    hide ReadRules, RuleWords;
    if rs == [] {
      assert RulesWords(rs) + close == close;
      RulesEnd(close);
    } else {
      RulesReadBack(rs[1..], close);
      RuleThen(rs[0], RulesWords(rs[1..]) + close, rs[1..], close);
      Associate(RuleWords(rs[0]), RulesWords(rs[1..]), close);
      assert [rs[0]] + rs[1..] == rs;
    }
  }

  lemma RuleThen(r: Rule, tail: seq<string>, rs: seq<Rule>, rest: seq<string>)
    requires r.ports != [] && ReadRules(tail) == Some(Parsed(rs, rest))
    ensures ReadRules(RuleWords(r) + tail) == Some(Parsed([r] + rs, rest))
  {
    RuleReadsBack(r, tail);
    RuleWordsStart(r);
    RulesCons(RuleWords(r) + tail, r, tail, rs, rest);
  }

  lemma RulesCons(ws: seq<string>, r: Rule, tail: seq<string>, rs: seq<Rule>, rest: seq<string>)
    requires ws != [] && ws[0] != "}" && ReadRule(ws) == Some(Parsed(r, tail)) && ReadRules(tail) == Some(Parsed(rs, rest))
    ensures ReadRules(ws) == Some(Parsed([r] + rs, rest))
  {
  }

  lemma ChainBodyReadsBack(rs: seq<Rule>, rest: seq<string>)
    requires HavePorts(rs)
    ensures ReadChainBody(RulesWords(rs) + (["}"] + rest)) == Some(Parsed(rs, rest))
  {
    RulesReadBack(rs, ["}"] + rest);
    ExpectThen(["}"], rest);
  }

  lemma ChainHeadExpected(body: seq<string>)
    ensures ReadChain(CHAIN_OPEN + (CHAIN_HOOK + body)) == ReadChainBody(body)
  {
    ExpectThen(CHAIN_OPEN, CHAIN_HOOK + body);
    ExpectThen(CHAIN_HOOK, body);
  }

  lemma ChainReadsBack(rs: seq<Rule>, rest: seq<string>)
    requires HavePorts(rs)
    ensures ReadChain(ChainWords(rs) + rest) == Some(Parsed(rs, rest))
  {
    ChainBodyReadsBack(rs, rest);
    ChainHeadExpected(RulesWords(rs) + (["}"] + rest));
    FourParts(CHAIN_OPEN, CHAIN_HOOK, RulesWords(rs), ["}"], rest);
  }

  lemma FourParts(a: seq<string>, b: seq<string>, c: seq<string>, d: seq<string>, e: seq<string>)
    ensures (a + (b + (c + d))) + e == a + (b + (c + (d + e)))
  {
  }

  const ELEMENTS: seq<string> := ["elements", "=", "{"]

  function ReadElements(ws: seq<string>): (r: Option<Parsed<seq<string>>>)
    ensures r.Some? ==> |r.value.rest| <= |ws|
  {
    var open := Expect(ws, ELEMENTS);
    if open == None then Some(Parsed([], ws))
    else
      var list := ReadList(open.value);
      var close := if list == None then None else Expect(list.value.rest, ["}"]);
      if close == None then None else Some(Parsed(list.value.value, close.value))
  }

  function ReadSet(name: string, kind: string, ws: seq<string>): (r: Option<Parsed<seq<string>>>)
    ensures r.Some? ==> |r.value.rest| <= |ws|
  {
    var head := Expect(ws, SetHead(name, kind));
    var elements := if head == None then None else ReadElements(head.value);
    var close := if elements == None then None else Expect(elements.value.rest, ["}"]);
    if close == None then None else Some(Parsed(elements.value.value, close.value))
  }

  lemma ElementsReadBack(elements: seq<string>, rest: seq<string>)
    requires Elements(elements)
    ensures ReadElements(ElementWords(elements) + (["}"] + rest)) == Some(Parsed(elements, ["}"] + rest))
  {
    var close := ["}"] + rest;
    if elements == [] {
      assert ElementWords(elements) + close == close;
      assert |"elements"| == 8 && close[0] == "}" && |"}"| == 1;
    } else {
      var tail := ["}"] + close;
      assert ElementWords(elements) + close == ELEMENTS + (ListWords(elements) + tail);
      ExpectThen(ELEMENTS, ListWords(elements) + tail);
      ListReadsBack(elements, tail);
      ExpectThen(["}"], close);
    }
  }

  lemma SetReadsBack(name: string, kind: string, elements: seq<string>, rest: seq<string>)
    requires Elements(elements)
    ensures ReadSet(name, kind, SetWords(name, kind, elements) + rest) == Some(Parsed(elements, rest))
  {
    var body := ElementWords(elements) + (["}"] + rest);
    assert SetWords(name, kind, elements) + rest == SetHead(name, kind) + body;
    ExpectThen(SetHead(name, kind), body);
    ElementsReadBack(elements, rest);
    ExpectThen(["}"], rest);
  }

  /** The body of a table, after its opening brace. */
  function ReadTable(ws: seq<string>): (r: Option<Parsed<Table>>)
    ensures r.Some? ==> |r.value.rest| <= |ws|
  {
    var set4 := ReadSet("allow4", "ipv4_addr", ws);
    var set6 := if set4 == None then None else ReadSet("allow6", "ipv6_addr", set4.value.rest);
    var chain := if set6 == None then None else ReadChain(set6.value.rest);
    var close := if chain == None then None else Expect(chain.value.rest, ["}"]);
    if close == None then None
    else Some(Parsed(Table(set4.value.value, set6.value.value, chain.value.value), close.value))
  }

  lemma TableReadsBack(content: Table, rest: seq<string>)
    requires Readable(content)
    ensures ReadTable(TableWords(content) + rest) == Some(Parsed(content, rest))
  {
    var w4, w6 := SetWords("allow4", "ipv4_addr", content.allow4), SetWords("allow6", "ipv6_addr", content.allow6);
    var r3 := ["}"] + rest;
    var r2 := ChainWords(content.chain) + r3;
    var r1 := w6 + r2;
    assert TableWords(content) + rest == w4 + r1;
    SetReadsBack("allow4", "ipv4_addr", content.allow4, r1);
    SetReadsBack("allow6", "ipv6_addr", content.allow6, r2);
    ChainReadsBack(content.chain, r3);
    ExpectThen(["}"], rest);
  }

  function ReadCommand(ws: seq<string>): (r: Option<Parsed<Command>>)
    ensures r.Some? ==> |r.value.rest| < |ws|
  {
    var delete := Expect(ws, ["delete", "table", "inet"]);
    if delete.Some? then
      if delete.value == [] then None else Some(Parsed(Delete(delete.value[0]), delete.value[1..]))
    else
      var table := Expect(ws, ["table", "inet"]);
      if table == None || table.value == [] then None
      else
        var name, body := table.value[0], table.value[1..];
        if body == [] || body[0] != "{" then Some(Parsed(Ensure(name), body))
        else
          var content := ReadTable(body[1..]);
          if content == None then None else Some(Parsed(Define(name, content.value.value), content.value.rest))
  }

  function ReadCommands(ws: seq<string>): Option<seq<Command>>
    decreases |ws|
  {
    if ws == [] then Some([])
    else
      var cmd := ReadCommand(ws);
      if cmd == None then None
      else
        var others := ReadCommands(cmd.value.rest);
        if others == None then None else Some([cmd.value.value] + others.value)
  }

  /** What nft makes of the text of a script. */
  function ReadScript(text: string): Option<seq<Command>> {
    ReadCommands(Words(text))
  }

  lemma EnsureReadsBack(t: string, rest: seq<string>)
    requires rest == [] || rest[0] != "{"
    ensures ReadCommand(CommandWords(Ensure(t)) + rest) == Some(Parsed(Ensure(t), rest))
  {
    TableNotDelete([t] + rest);
    ExpectThen(["table", "inet"], [t] + rest);
    Associate(["table", "inet"], [t], rest);
    HeadThen(t, rest);
  }

  lemma TableNotDelete(rest: seq<string>)
    ensures Expect(["table", "inet"] + rest, ["delete", "table", "inet"]) == None
  {
    assert (["table", "inet"] + rest)[0] == "table" && |"table"| != |"delete"|;
  }

  lemma HeadThen(w: string, rest: seq<string>)
    ensures ([w] + rest)[0] == w && ([w] + rest)[1..] == rest
  {
  }

  lemma DeleteReadsBack(t: string, rest: seq<string>)
    ensures ReadCommand(CommandWords(Delete(t)) + rest) == Some(Parsed(Delete(t), rest))
  {
    ExpectThen(["delete", "table", "inet"], [t] + rest);
    Associate(["delete", "table", "inet"], [t], rest);
    HeadThen(t, rest);
  }

  lemma BracedReadsBack(t: string, body: seq<string>, content: Table, rest: seq<string>)
    requires ReadTable(body) == Some(Parsed(content, rest))
    ensures ReadCommand(["table", "inet"] + ([t] + (["{"] + body))) == Some(Parsed(Define(t, content), rest))
  {
    var braced := ["{"] + body;
    TableNotDelete([t] + braced);
    ExpectThen(["table", "inet"], [t] + braced);
    HeadThen(t, braced);
    HeadThen("{", body);
  }

  lemma DefineReadsBack(t: string, content: Table, rest: seq<string>)
    requires Readable(content)
    ensures ReadCommand(CommandWords(Define(t, content)) + rest) == Some(Parsed(Define(t, content), rest))
  {
    var words := TableWords(content);
    TableReadsBack(content, rest);
    BracedReadsBack(t, words + rest, content, rest);
    Associate(["{"], words, rest);
    Associate([t], ["{"] + words, rest);
    Associate(["table", "inet"], [t] + (["{"] + words), rest);
  }

  lemma CommandsCons(ws: seq<string>, cmd: Command, rest: seq<string>, cmds: seq<Command>)
    requires ws != [] && ReadCommand(ws) == Some(Parsed(cmd, rest)) && ReadCommands(rest) == Some(cmds)
    ensures ReadCommands(ws) == Some([cmd] + cmds)
  {
  }

  lemma LastReadBack(last: seq<string>, c: Command)
    requires last != [] && ReadCommand(last) == Some(Parsed(c, []))
    ensures ReadCommands(last) == Some([c])
  {
    CommandsCons(last, c, [], []);
    assert [c] + [] == [c];
  }

  lemma ThreeReadBack(ws: seq<string>, a: Command, after: seq<string>, b: Command, last: seq<string>, c: Command)
    requires ws != [] && ReadCommand(ws) == Some(Parsed(a, after))
    requires after != [] && ReadCommand(after) == Some(Parsed(b, last))
    requires ReadCommands(last) == Some([c])
    ensures ReadCommands(ws) == Some([a, b, c])
  {
    hide ReadCommands, ReadCommand;
    CommandsCons(after, b, last, [c]);
    assert [b] + [c] == [b, c];
    CommandsCons(ws, a, after, [b, c]);
    assert [a] + [b, c] == [a, b, c];
  }

  lemma CompiledReadsBack(t: string, content: Table)
    requires Readable(content)
    ensures var words := CommandWords(Ensure(t)) + (CommandWords(Delete(t)) + CommandWords(Define(t, content)));
            ReadCommands(words) == Some([Ensure(t), Delete(t), Define(t, content)])
  {
    var u, v, w := CommandWords(Ensure(t)), CommandWords(Delete(t)), CommandWords(Define(t, content));
    DefineReadsBack(t, content, []);
    assert w + [] == w;
    DeleteReadsBack(t, w);
    DeleteStarts(v, t, w);
    EnsureReadsBack(t, v + w);
    LastReadBack(w, Define(t, content));
    ThreeReadBack(u + (v + w), Ensure(t), v + w, Delete(t), w, Define(t, content));
  }

  lemma DeleteStarts(v: seq<string>, t: string, w: seq<string>)
    requires v == CommandWords(Delete(t))
    ensures v != [] && (v + w)[0] != "{"
  {
    assert (v + w)[0] == "delete" && |"delete"| != |"{"|;
  }

  // ---------------------------------------------------------------- the header

  lemma ReadsCommentThen(text: seq<string>, s: string)
    requires forall i :: 0 <= i < |text| ==> '\n' !in text[i]
    ensures Reads(s, []) ==> Reads(Comment(text) + s, [])
  {
    ReadsCommentLine(text);
    ReadsBoth(Comment(text), [], s, []);
  }

  lemma ReadsPromise(s: string)
    ensures Reads(s, []) ==> Reads(Comment([" It never flushes the ruleset", " and never touches any", " other table"]) + s, [])
    ensures Reads(s, []) ==> Reads(Comment([" This script ONLY manages", " table inet ", TABLE, "."]) + s, [])
  {
    ReadsCommentThen([" It never flushes the ruleset", " and never touches any", " other table"], s);
    ReadsCommentThen([" This script ONLY manages", " table inet ", TABLE, "."], s);
  }

  lemma ReadsTitle(s: string)
    ensures Reads(s, []) ==> Reads(Comment(["!/usr/sbin/nft -f"]) + s, [])
    ensures Reads(s, []) ==> Reads(Comment([" nft-auth-whitelist standalone", " guard (additive, default-off)."]) + s, [])
  {
    ReadsCommentThen(["!/usr/sbin/nft -f"], s);
    ReadsCommentThen([" nft-auth-whitelist standalone", " guard (additive, default-off)."], s);
  }

  lemma ReadsHeader()
    ensures Reads(Header(), [])
  {
    hide Reads, Comment;
    ReadsGap("\n");
    ReadsCommentThen([" (it leaves the main project's", " tables and your other", " tables untouched)."], "\n");
    var s1 := Comment([" (it leaves the main project's", " tables and your other", " tables untouched)."]) + "\n";
    ReadsPromise(s1);
    var s2 := Comment([" It never flushes the ruleset", " and never touches any", " other table"]) + s1;
    ReadsPromise(s2);
    var s3 := Comment([" This script ONLY manages", " table inet ", TABLE, "."]) + s2;
    ReadsTitle(s3);
    ReadsTitle(Comment([" nft-auth-whitelist standalone", " guard (additive, default-off)."]) + s3);
  }

  // ---------------------------------------------------------------- main results

  lemma {:induction false} SortedElements(cidrs: seq<string>)
    requires Elements(cidrs)
    ensures Elements(Sort(cidrs, Less))
  {
    SortMembers(cidrs, Less);
    var sorted := Sort(cidrs, Less);
    forall i | 0 <= i < |sorted| ensures Element(sorted[i]) {
      assert sorted[i] in sorted;
      var j :| 0 <= j < |cidrs| && cidrs[j] == sorted[i];
    }
  }

  lemma CompiledReadable(c: Policy)
    requires Elements(c.allow4) && Elements(c.allow6)
    ensures Readable(TableOf(c))
  {
    SortedElements(c.allow4);
    SortedElements(c.allow6);
    RulesHavePorts(Tcp, c.tcp);
    RulesHavePorts(Udp, c.udp);
  }

  lemma RulesHavePorts(proto: Proto, ps: seq<int>)
    ensures HavePorts(RulesFor(proto, ps))
  {
    if ps != [] {
      SortMembers(ps, IntLess);
      assert ps[0] in Ports(ps);
    }
  }

  lemma ReadsScript(head: string, a: Command, b: Command, c: Command)
    requires Reads(head, [])
    requires Reads(RenderCommand(a), CommandWords(a)) && Reads(RenderCommand(b), CommandWords(b))
    requires Reads(RenderCommand(c), CommandWords(c))
    ensures Words(head + RenderScript([a, b, c])) == CommandWords(a) + (CommandWords(b) + CommandWords(c))
  {
    var body := RenderCommand(a) + RenderCommand(b) + RenderCommand(c);
    var words := CommandWords(a) + (CommandWords(b) + CommandWords(c));
    MappedThree(RenderCommand, a, b, c);
    ReadsThreeParts(RenderCommand(a), CommandWords(a), RenderCommand(b), CommandWords(b), RenderCommand(c), CommandWords(c));
    ReadsBoth(head, [], body, words);
    WordsWhole(head + body, [] + words);
    assert [] + words == words;
  }

  lemma WordsWhole(s: string, ws: seq<string>)
    ensures Reads(s, ws) ==> Words(s) == ws
  {
    assert s + "" == s && ws + Words("") == ws;
  }

  lemma ReadsCompiled(head: string, t: string, own: Table)
    requires Reads(head, []) && Plain(t) && Readable(own)
    ensures Words(head + RenderScript([Ensure(t), Delete(t), Define(t, own)]))
         == CommandWords(Ensure(t)) + (CommandWords(Delete(t)) + CommandWords(Define(t, own)))
  {
    ReadsCommand(Ensure(t));
    ReadsCommand(Delete(t));
    ReadsCommand(Define(t, own));
    ReadsScript(head, Ensure(t), Delete(t), Define(t, own));
  }

  lemma ScriptText(head: string, t: string, own: Table)
    ensures Reads(head, []) && Plain(t) && Readable(own) ==>
              ReadScript(head + RenderScript([Ensure(t), Delete(t), Define(t, own)]))
              == Some([Ensure(t), Delete(t), Define(t, own)])
  {
    if Reads(head, []) && Plain(t) && Readable(own) {
      ReadsCompiled(head, t, own);
      CompiledReadsBack(t, own);
    }
  }

  lemma TableNamePlain()
    ensures Plain(TABLE)
  {
  }

  /** What nft reads in the generated text is what was compiled: every set element, every
      port and every verdict, for any ports and any plain CIDR texts. */
  lemma ScriptReadsBack(c: Policy)
    requires Elements(c.allow4) && Elements(c.allow6)
    ensures ReadScript(Header() + RenderScript(Compile(c))) == Some(Compile(c))
  {
    CompiledReadable(c);
    ReadsHeader();
    TableNamePlain();
    ScriptText(Header(), TABLE, TableOf(c));
  }

  lemma NetTextElement(n: Net)
    requires n.Valid()
    ensures Element(NetText(n))
  {
    var t := NetText(n);
    forall x | x in t ensures !Blank(x) && x != ',' && x != '#' {
      if Blank(x) || x == ',' || x == '#' { NetTextChars(n, x); }
    }
    assert t[|IpString(IpOf(n))|] == '/' && t[0] in t;
  }

  lemma PublishedElement(es: seq<Entry>, params: Params, now: int, cidrs: seq<string>, c: string)
    requires Publishes(cidrs, es, CanonFor(params), now) && c in cidrs
    ensures Element(c)
  {
    assert PublishedBy(c, es, CanonFor(params), now);
    var e :| e in es && Keeps(e, CanonFor(params), now) && CanonFor(params)(e.cidr).value == c;
    CanonicalElement(e.cidr, params);
  }

  lemma CanonicalElement(s: string, params: Params)
    requires CanonFor(params)(s).Some?
    ensures Element(CanonFor(params)(s).value)
  {
    NetTextElement(ParseCIDR(TrimSpace(s)).value);
  }

  lemma PublishedElements(es: seq<Entry>, params: Params, now: int, cidrs: seq<string>, f: Family)
    requires Publishes(cidrs, es, CanonFor(params), now)
    ensures Elements(OfFamily(cidrs, f))
  {
    var list := OfFamily(cidrs, f);
    forall i | 0 <= i < |list| ensures Element(list[i]) {
      FamilyMembers(cidrs, f, list[i]);
      PublishedElement(es, params, now, cidrs, list[i]);
    }
  }

  lemma PublishedScriptReads(es: seq<Entry>, params: Params, now: int, cidrs: seq<string>, tcp: seq<int>, udp: seq<int>)
    requires Publishes(cidrs, es, CanonFor(params), now)
    ensures var c := PolicyFor(cidrs, tcp, udp);
            ReadScript(Header() + RenderScript(Compile(c))) == Some(Compile(c))
  {
    PublishedElements(es, params, now, cidrs, IPv4);
    PublishedElements(es, params, now, cidrs, IPv6);
    ScriptReadsBack(PolicyFor(cidrs, tcp, udp));
  }

  lemma OnlyOwnTable(rs: Ruleset, c: Policy, after: Ruleset)
    requires Apply(rs, Compile(c)) == Some(after)
    ensures after - {TABLE} == rs - {TABLE} && TABLE in after && after[TABLE] == TableOf(c)
  {
    ApplyReplaces(rs, c);
  }

  /** Running a script: read, then applied. */
  function RunScript(rs: Ruleset, text: string): Option<Ruleset> {
    var cmds := ReadScript(text);
    if cmds == None then None else Apply(rs, cmds.value)
  }

  /** From the envelope to the packet, through the text: the script generated for a
      published list applies to any machine, replaces only the guard's own table, and
      from then on drops exactly the traffic to protected ports from sources that no
      live, allowed entry's network contains. */
  lemma PublishedScriptGuards(
      es: seq<Entry>, params: Params, now: int, cidrs: seq<string>, tcp: seq<int>, udp: seq<int>,
      rs: Ruleset, script: string, p: Packet)
    requires Publishes(cidrs, es, CanonFor(params), now)
    requires script == Header() + RenderScript(Compile(PolicyFor(cidrs, tcp, udp)))
    ensures RunScript(rs, script).Some?
    ensures var after := RunScript(rs, script).value;
            && after - {"nft_auth_whitelist"} == rs - {"nft_auth_whitelist"} && TABLE in after
            && (Decide(after[TABLE], after[TABLE].chain, p) == Dropped <==>
                p.port in (if p.proto.Tcp? then tcp else udp) && !AllowedSource(es, params, now, p.src))
  {
    hide ReadScript, RenderScript, Header, Apply, Compile, Publishes, AllowedSource, Decide;
    var c := PolicyFor(cidrs, tcp, udp);
    PublishedScriptReads(es, params, now, cidrs, tcp, udp);
    ApplyReplaces(rs, c);
    OnlyOwnTable(rs, c, RunScript(rs, script).value);
    GuardForEnvelope(es, params, now, cidrs, tcp, udp, p);
  }
}
