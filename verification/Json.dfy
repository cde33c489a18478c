/** The JSON (RFC 8259 sections 2 and 7) in which envelopes and the store file are
    written: values, the compact and the indented layout, and a reader. */
module Json {
  import opened Text

  datatype Value =
    | Null
    | Num(n: int)
    | Str(s: string)
    | Arr(items: seq<Value>)
    | Obj(fields: seq<Field>)

  datatype Field = Field(name: string, value: Value)

  datatype Token = LBrace | RBrace | LBracket | RBracket | Comma | Colon | TNull | TNum(n: int) | TStr(s: string)

  // ---------------------------------------------------------------- strings

  function Hex4(n: nat): string
    requires n < 0x1_0000
  {
    [DigitChar(n / 4096), DigitChar(n / 256 % 16), DigitChar(n / 16 % 16), DigitChar(n % 16)]
  }

  predicate Unicode4(c: char) {
    (c < ' ' && c !in {'\n', '\r', '\t', 8 as char, 12 as char}) || c in {'<', '>', '&', 0x2028 as char, 0x2029 as char}
  }

  /** encoding/json's escaping, HTML-safe form included. */
  function EscapeChar(c: char): string {
    if c == '"' then ['\\', '"']
    else if c == '\\' then ['\\', '\\']
    else if c == '\n' then ['\\', 'n']
    else if c == '\r' then ['\\', 'r']
    else if c == '\t' then ['\\', 't']
    else if c == 8 as char then ['\\', 'b']
    else if c == 12 as char then ['\\', 'f']
    else if Unicode4(c) then ['\\', 'u'] + Hex4(c as nat)
    else [c]
  }

  function Escape(s: string): string {
    if s == [] then [] else EscapeChar(s[0]) + Escape(s[1..])
  }

  /** One character or escape; None also for surrogate escapes. */
  function ReadChar(s: string): (r: Option<(char, string)>)
    ensures r.Some? ==> |r.value.1| < |s|
  {
    if s == [] || s[0] < ' ' then None
    else if s[0] != '\\' then Some((s[0], s[1..]))
    else if |s| < 2 then None
    else
      match s[1]
      case '"' => Some(('"', s[2..]))
      case '\\' => Some(('\\', s[2..]))
      case '/' => Some(('/', s[2..]))
      case 'n' => Some(('\n', s[2..]))
      case 'r' => Some(('\r', s[2..]))
      case 't' => Some(('\t', s[2..]))
      case 'b' => Some((8 as char, s[2..]))
      case 'f' => Some((12 as char, s[2..]))
      case 'u' =>
        if |s| < 6 then None
        else
          var n := NumValue(s[2..6], 16);
          if n == None || 0xd800 <= n.value < 0xe000 || n.value >= 0x1_0000 then None
          else Some((n.value as char, s[6..]))
      case _ => None
  }

  /** The rest of a string after its opening quote. */
  function ReadString(s: string): (r: Option<(string, string)>)
    ensures r.Some? ==> |r.value.1| < |s|
    decreases |s|
  {
    if s == [] then None
    else if s[0] == '"' then Some(([], s[1..]))
    else
      var c := ReadChar(s);
      if c == None then None
      else
        var rest := ReadString(c.value.1);
        if rest == None then None else Some(([c.value.0] + rest.value.0, rest.value.1))
  }

  lemma OneDigit(a: nat)
    requires a < 16
    ensures NumValue([DigitChar(a)], 16) == Some(a)
  {
    assert [DigitChar(a)][..0] == [];
  }

  lemma FourDigits(a: nat, b: nat, c: nat, d: nat)
    requires a < 16 && b < 16 && c < 16 && d < 16
    ensures NumValue([DigitChar(a), DigitChar(b), DigitChar(c), DigitChar(d)], 16) ==
            Some(((a * 16 + b) * 16 + c) * 16 + d)
  {
    var one := [DigitChar(a)];
    var two := one + [DigitChar(b)];
    var three := two + [DigitChar(c)];
    OneDigit(a);
    hide NumValue, DigitChar;
    NumValueAppend(one, b, 16);
    NumValueAppend(two, c, 16);
    NumValueAppend(three, d, 16);
    assert three + [DigitChar(d)] == [DigitChar(a), DigitChar(b), DigitChar(c), DigitChar(d)];
  }

  lemma Hex4Value(n: nat)
    requires n < 0x1_0000
    ensures NumValue(Hex4(n), 16) == Some(n)
  {
    hide NumValue, DigitChar;
    FourDigits(n / 4096, n / 256 % 16, n / 16 % 16, n % 16);
    InSixteens(n);
  }

  lemma InSixteens(n: nat)
    ensures ((n / 4096 * 16 + n / 256 % 16) * 16 + n / 16 % 16) * 16 + n % 16 == n
  {
    var b, c := n / 256, n / 16;
    assert b / 16 == n / 4096 && c / 16 == b;
  }

  lemma ReadEscaped(c: char, rest: string)
    ensures EscapeChar(c) != [] && EscapeChar(c)[0] != '"'
    ensures ReadChar(EscapeChar(c) + rest) == Some((c, rest))
  {
    var s := EscapeChar(c) + rest;
    if Unicode4(c) {
      ReadUnicode4(c as nat, rest);
    } else if |EscapeChar(c)| == 2 {
      assert s[2..] == rest;
    } else {
      assert s[1..] == rest;
    }
  }

  lemma ReadUnicode4(n: nat, rest: string)
    requires n < 0xd800
    ensures ReadChar(['\\', 'u'] + Hex4(n) + rest) == Some((n as char, rest))
  {
    var s := ['\\', 'u'] + Hex4(n) + rest;
    Hex4Value(n);
    assert s[2..6] == Hex4(n) && s[6..] == rest;
  }

  /** Whatever characters a string holds, it reads back. */
  lemma {:induction false} ReadEscapedString(x: string, rest: string)
    ensures ReadString(Escape(x) + ['"'] + rest) == Some((x, rest))
  {
    if x != [] {
      var tail := Escape(x[1..]) + ['"'] + rest;
      ReadEscapedString(x[1..], rest);
      ReadOneMore(x[0], tail, x[1..], rest);
      hide ReadString, EscapeChar;
      Regrouped(EscapeChar(x[0]), Escape(x[1..]), ['"'], rest);
      assert x == [x[0]] + x[1..];
    }
  }

  lemma Regrouped(a: string, b: string, c: string, d: string)
    ensures a + b + c + d == a + (b + c + d)
  {
  }

  lemma ReadOneMore(c: char, tail: string, x: string, rest: string)
    requires ReadString(tail) == Some((x, rest))
    ensures ReadString(EscapeChar(c) + tail) == Some(([c] + x, rest))
  {
    hide EscapeChar, ReadChar;
    ReadEscaped(c, tail);
  }

  // ---------------------------------------------------------------- tokens

  function TokenText(t: Token): (r: string)
    ensures r != []
  {
    match t
    case LBrace => "{"
    case RBrace => "}"
    case LBracket => "["
    case RBracket => "]"
    case Comma => ","
    case Colon => ":"
    case TNull => "null"
    case TNum(n) => IntText(n)
    case TStr(s) => ['"'] + Escape(s) + ['"']
  }

  predicate Digit(c: char) {
    '0' <= c <= '9'
  }

  function DigitsEnd(s: string): (n: nat)
    ensures n <= |s|
  {
    if s != [] && Digit(s[0]) then 1 + DigitsEnd(s[1..]) else 0
  }

  predicate Space(c: char) {
    c in {' ', '\t', '\n', '\r'}
  }

  function Punctuation(c: char): Option<Token> {
    match c
    case '{' => Some(LBrace)
    case '}' => Some(RBrace)
    case '[' => Some(LBracket)
    case ']' => Some(RBracket)
    case ',' => Some(Comma)
    case ':' => Some(Colon)
    case _ => None
  }

  /** Digits; a zero in front stands alone. */
  function ReadNat(s: string): (r: Option<(nat, string)>)
    ensures r.Some? ==> |r.value.1| < |s|
  {
    var e := DigitsEnd(s);
    var n := NumValue(s[..e], 10);
    if n == None || e == 0 || (s[0] == '0' && e > 1) then None else Some((n.value, s[e..]))
  }

  function ReadInt(s: string): (r: Option<(int, string)>)
    ensures r.Some? ==> |r.value.1| < |s|
  {
    if s != [] && s[0] == '-' then
      var r := ReadNat(s[1..]);
      if r == None then None else Some((0 - r.value.0, r.value.1))
    else
      var r := ReadNat(s);
      if r == None then None else Some((r.value.0, r.value.1))
  }

  /** The first token of a text that starts with one, and what follows it. */
  function ReadToken(s: string): (r: Option<(Token, string)>)
    requires s != []
    ensures r.Some? ==> |r.value.1| < |s|
  {
    if Punctuation(s[0]).Some? then Some((Punctuation(s[0]).value, s[1..]))
    else if s[0] == '"' then
      var r := ReadString(s[1..]);
      if r == None then None else Some((TStr(r.value.0), r.value.1))
    else if s[0] == 'n' then
      if "null" <= s then Some((TNull, s[4..])) else None
    else
      var r := ReadInt(s);
      if r == None then None else Some((TNum(r.value.0), r.value.1))
  }

  function Lex(s: string): Option<seq<Token>>
    decreases |s|
  {
    if s == [] then Some([])
    else if Space(s[0]) then Lex(s[1..])
    else
      var t := ReadToken(s);
      if t == None then None
      else
        var rest := Lex(t.value.1);
        if rest == None then None else Some([t.value.0] + rest.value)
  }

  /** A token and the blanks before it. */
  datatype Spaced = Spaced(blanks: string, token: Token)

  function Render(ts: seq<Spaced>): string {
    if ts == [] then [] else ts[0].blanks + TokenText(ts[0].token) + Render(ts[1..])
  }

  ghost predicate AllBlank(s: string) {
    forall i :: 0 <= i < |s| ==> Space(s[i])
  }

  predicate Closes(t: Token) {
    t in {RBrace, RBracket, Comma, Colon}
  }

  /** Blanks are blank, and a number is followed by punctuation. */
  ghost predicate Separated(ts: seq<Spaced>) {
    && (forall i :: 0 <= i < |ts| ==> AllBlank(ts[i].blanks))
    && (forall i :: 0 <= i < |ts| - 1 && ts[i].token.TNum? ==> Closes(ts[i + 1].token))
  }

  function TokensOf(ts: seq<Spaced>): seq<Token> {
    seq(|ts|, i requires 0 <= i < |ts| => ts[i].token)
  }

  lemma {:induction false} LexBlanks(b: string, s: string)
    requires AllBlank(b)
    ensures Lex(b + s) == Lex(s)
  {
    if b == [] {
      assert b + s == s;
    } else {
      assert (b + s)[1..] == b[1..] + s;
      LexBlanks(b[1..], s);
    }
  }

  lemma {:induction false} DigitsEndAt(d: string, s: string)
    requires forall c :: c in d ==> Digit(c)
    requires s == [] || !Digit(s[0])
    ensures DigitsEnd(d + s) == |d|
  {
    if d == [] {
      assert d + s == s;
    } else {
      assert d[0] in d;
      assert (d + s)[1..] == d[1..] + s;
      DigitsEndAt(d[1..], s);
    }
  }

  lemma ReadNatText(n: nat, s: string)
    requires s == [] || !Digit(s[0])
    ensures ReadNat(NumText(n, 10) + s) == Some((n, s))
    ensures Digit(NumText(n, 10)[0])
  {
    var d := NumText(n, 10);
    NumChars(n, 10);
    NumRoundTrip(n, 10);
    NoLeadingZero(n, 10);
    forall c | c in d ensures Digit(c) {
      assert DigitValue(c).value < 10;
    }
    assert d[0] in d;
    DigitsEndAt(d, s);
    assert (d + s)[..|d|] == d && (d + s)[|d|..] == s;
  }

  lemma ReadPositive(d: string, n: nat, s: string)
    requires d != "" && Digit(d[0]) && ReadNat(d + s) == Some((n, s))
    ensures ReadInt(d + s) == Some((n, s))
  {
    assert (d + s)[0] == d[0];
  }

  lemma ReadNegative(d: string, n: nat, s: string)
    requires ReadNat(d + s) == Some((n, s))
    ensures ReadInt(['-'] + d + s) == Some((0 - n, s))
  {
    assert ['-'] + d + s == ['-'] + (d + s);
    assert (['-'] + d + s)[1..] == d + s;
  }

  lemma ReadIntText(n: int, s: string)
    requires s == [] || !Digit(s[0])
    ensures ReadInt(IntText(n) + s) == Some((n, s))
    ensures Digit(IntText(n)[0]) || IntText(n)[0] == '-'
  {
    if n < 0 {
      ReadNatText(-n, s);
      ReadNegative(NumText(-n, 10), -n, s);
    } else {
      ReadNatText(n, s);
      ReadPositive(NumText(n, 10), n, s);
    }
  }

  lemma ReadTokenText(t: Token, s: string)
    requires t.TNum? ==> s == [] || !Digit(s[0])
    ensures ReadToken(TokenText(t) + s) == Some((t, s))
    ensures !Space(TokenText(t)[0])
  {
    match t {
      case TNum(n) => ReadNumberToken(n, s);
      case TStr(x) => ReadStringToken(x, s);
      case TNull =>
        assert ("null" + s)[4..] == s;
      case _ =>
        assert (TokenText(t) + s)[1..] == s;
    }
  }

  lemma ReadNumberToken(n: int, s: string)
    requires s == [] || !Digit(s[0])
    ensures ReadToken(IntText(n) + s) == Some((TNum(n), s))
    ensures !Space(IntText(n)[0])
  {
    ReadIntText(n, s);
    assert (IntText(n) + s)[0] == IntText(n)[0];
  }

  lemma ReadStringToken(x: string, s: string)
    ensures ReadToken(['"'] + Escape(x) + ['"'] + s) == Some((TStr(x), s))
  {
    hide Escape, ReadString;
    ReadEscapedString(x, s);
    var u := ['"'] + Escape(x) + ['"'] + s;
    assert u[1..] == Escape(x) + ['"'] + s;
  }

  lemma LexOne(x: Spaced, rest: string)
    requires AllBlank(x.blanks)
    requires x.token.TNum? ==> rest == [] || !Digit(rest[0])
    ensures Lex(x.blanks + TokenText(x.token) + rest) ==
            if Lex(rest) == None then None else Some([x.token] + Lex(rest).value)
  {
    hide TokenText, ReadToken;
    var text := TokenText(x.token) + rest;
    ReadTokenText(x.token, rest);
    LexBlanks(x.blanks, text);
    assert x.blanks + TokenText(x.token) + rest == x.blanks + text;
    assert text[0] == TokenText(x.token)[0];
  }

  /** Reading is blind to the layout. */
  lemma {:induction false} LexRender(ts: seq<Spaced>)
    requires Separated(ts)
    ensures Lex(Render(ts)) == Some(TokensOf(ts))
  {
    if ts != [] {
      LexRender(ts[1..]);
      RenderStarts(ts);
      LexOne(ts[0], Render(ts[1..]));
      assert TokensOf(ts) == [ts[0].token] + TokensOf(ts[1..]);
    }
  }

  lemma RenderStarts(ts: seq<Spaced>)
    requires Separated(ts) && ts != []
    ensures ts[0].token.TNum? ==> Render(ts[1..]) == [] || !Digit(Render(ts[1..])[0])
  {
    if ts[0].token.TNum? && |ts| > 1 {
      var next := ts[1];
      assert ts[1..][0] == next;
      var text := next.blanks + TokenText(next.token) + Render(ts[2..]);
      assert Render(ts[1..]) == text by { assert ts[1..][1..] == ts[2..]; }
      assert text[0] == if next.blanks != [] then next.blanks[0] else TokenText(next.token)[0];
      assert next.blanks != [] ==> Space(next.blanks[0]);
    }
  }

  // ---------------------------------------------------------------- values

  /** The tokens of a value, followed by `rest`. */
  function Tokens(v: Value, rest: seq<Token>): (ts: seq<Token>)
    ensures ts != []
    decreases v, 0
  {
    match v
    case Null => [TNull] + rest
    case Num(n) => [TNum(n)] + rest
    case Str(s) => [TStr(s)] + rest
    case Arr(items) => [LBracket] + (if items == [] then [RBracket] + rest else ItemTokens(items, rest))
    case Obj(fields) => [LBrace] + (if fields == [] then [RBrace] + rest else FieldTokens(fields, rest))
  }

  function ItemTokens(items: seq<Value>, rest: seq<Token>): seq<Token>
    requires items != []
    decreases items, 1
  {
    Tokens(items[0], if |items| == 1 then [RBracket] + rest else [Comma] + ItemTokens(items[1..], rest))
  }

  function FieldTokens(fields: seq<Field>, rest: seq<Token>): seq<Token>
    requires fields != []
    decreases fields, 1
  {
    [TStr(fields[0].name), Colon] +
    Tokens(fields[0].value, if |fields| == 1 then [RBrace] + rest else [Comma] + FieldTokens(fields[1..], rest))
  }

  function ParseValue(ts: seq<Token>): (r: Option<(Value, seq<Token>)>)
    ensures r.Some? ==> |r.value.1| < |ts|
    decreases |ts|, 0
  {
    if ts == [] then None
    else
      match ts[0]
      case TNull => Some((Null, ts[1..]))
      case TNum(n) => Some((Num(n), ts[1..]))
      case TStr(s) => Some((Str(s), ts[1..]))
      case LBracket =>
        if |ts| > 1 && ts[1] == RBracket then Some((Arr([]), ts[2..]))
        else
          var r := ParseItems(ts[1..]);
          if r == None then None else Some((Arr(r.value.0), r.value.1))
      case LBrace =>
        if |ts| > 1 && ts[1] == RBrace then Some((Obj([]), ts[2..]))
        else
          var r := ParseFields(ts[1..]);
          if r == None then None else Some((Obj(r.value.0), r.value.1))
      case _ => None
  }

  function ParseItems(ts: seq<Token>): (r: Option<(seq<Value>, seq<Token>)>)
    ensures r.Some? ==> |r.value.1| < |ts|
    decreases |ts|, 2
  {
    var v := ParseValue(ts);
    if v == None then None else MoreItems(v.value.0, v.value.1)
  }

  /** After an item: the end of the array, or a comma and more. */
  function MoreItems(v: Value, ts: seq<Token>): (r: Option<(seq<Value>, seq<Token>)>)
    ensures r.Some? ==> |r.value.1| < |ts|
    decreases |ts|, 3
  {
    if ts == [] then None
    else if ts[0] == RBracket then Some(([v], ts[1..]))
    else if ts[0] == Comma then
      var more := ParseItems(ts[1..]);
      if more == None then None else Some(([v] + more.value.0, more.value.1))
    else None
  }

  function ParseFields(ts: seq<Token>): (r: Option<(seq<Field>, seq<Token>)>)
    ensures r.Some? ==> |r.value.1| < |ts|
    decreases |ts|, 2
  {
    if |ts| < 2 || !ts[0].TStr? || ts[1] != Colon then None
    else
      var v := ParseValue(ts[2..]);
      if v == None then None else MoreFields(Field(ts[0].s, v.value.0), v.value.1)
  }

  function MoreFields(f: Field, ts: seq<Token>): (r: Option<(seq<Field>, seq<Token>)>)
    ensures r.Some? ==> |r.value.1| < |ts|
    decreases |ts|, 3
  {
    if ts == [] then None
    else if ts[0] == RBrace then Some(([f], ts[1..]))
    else if ts[0] == Comma then
      var more := ParseFields(ts[1..]);
      if more == None then None else Some(([f] + more.value.0, more.value.1))
    else None
  }

  lemma Tail(t: Token, ts: seq<Token>)
    ensures ([t] + ts)[1..] == ts
  {
  }

  lemma {:induction false} ParseTokens(v: Value, rest: seq<Token>)
    ensures ParseValue(Tokens(v, rest)) == Some((v, rest))
    decreases v, 0
  {
    match v {
      case Null => Tail(TNull, rest);
      case Num(n) => Tail(TNum(n), rest);
      case Str(s) => Tail(TStr(s), rest);
      case Arr(items) =>
        if items != [] {
          ParseItemTokens(items, rest);
          assert Tokens(items[0], if |items| == 1 then [RBracket] + rest else [Comma] + ItemTokens(items[1..], rest))[0] != RBracket;
          Tail(LBracket, ItemTokens(items, rest));
        } else {
          assert Tokens(v, rest)[2..] == rest;
        }
      case Obj(fields) =>
        if fields != [] {
          ParseFieldTokens(fields, rest);
          Tail(LBrace, FieldTokens(fields, rest));
        } else {
          assert Tokens(v, rest)[2..] == rest;
        }
    }
  }

  lemma {:induction false} ParseItemTokens(items: seq<Value>, rest: seq<Token>)
    requires items != []
    ensures ParseItems(ItemTokens(items, rest)) == Some((items, rest))
    decreases items, 1
  {
    if |items| == 1 {
      ParseTokens(items[0], [RBracket] + rest);
      Tail(RBracket, rest);
      assert items == [items[0]];
    } else {
      var more := ItemTokens(items[1..], rest);
      ParseTokens(items[0], [Comma] + more);
      ParseItemTokens(items[1..], rest);
      Tail(Comma, more);
      assert items == [items[0]] + items[1..];
    }
  }

  lemma {:induction false} ParseFieldTokens(fields: seq<Field>, rest: seq<Token>)
    requires fields != []
    ensures ParseFields(FieldTokens(fields, rest)) == Some((fields, rest))
    decreases fields, 1
  {
    var f := fields[0];
    if |fields| == 1 {
      ParseTokens(f.value, [RBrace] + rest);
      FieldHead(f, [RBrace] + rest);
      Tail(RBrace, rest);
      assert fields == [f];
    } else {
      var more := FieldTokens(fields[1..], rest);
      ParseTokens(f.value, [Comma] + more);
      ParseFieldTokens(fields[1..], rest);
      FieldHead(f, [Comma] + more);
      Tail(Comma, more);
      assert fields == [f] + fields[1..];
    }
  }

  lemma FieldHead(f: Field, tail: seq<Token>)
    requires ParseValue(Tokens(f.value, tail)) == Some((f.value, tail))
    ensures ParseFields([TStr(f.name), Colon] + Tokens(f.value, tail)) == MoreFields(f, tail)
  {
    assert ([TStr(f.name), Colon] + Tokens(f.value, tail))[2..] == Tokens(f.value, tail);
  }

  /** json.Unmarshal up to the value tree: one value and nothing after it. */
  function Read(s: string): Option<Value> {
    var ts := Lex(s);
    if ts == None then None
    else
      var v := ParseValue(ts.value);
      if v == None || v.value.1 != [] then None else Some(v.value.0)
  }

  // ---------------------------------------------------------------- layouts

  function Tight(ts: seq<Token>): seq<Spaced> {
    seq(|ts|, i requires 0 <= i < |ts| => Spaced("", ts[i]))
  }

  /** json.Marshal. */
  function Compact(v: Value): string {
    Render(Tight(Tokens(v, [])))
  }

  function NewLine(depth: nat): (s: string)
    ensures AllBlank(s)
  {
    "\n" + seq(2 * depth, _ => ' ')
  }

  /** The tokens of a value as json.MarshalIndent(v, "", "  ") spaces them, after
      `blanks` and followed by `rest`. */
  function Laid(v: Value, blanks: string, depth: nat, rest: seq<Spaced>): seq<Spaced>
    decreases v, 0
  {
    match v
    case Null => [Spaced(blanks, TNull)] + rest
    case Num(n) => [Spaced(blanks, TNum(n))] + rest
    case Str(s) => [Spaced(blanks, TStr(s))] + rest
    case Arr(items) =>
      [Spaced(blanks, LBracket)] +
      (if items == [] then [Spaced("", RBracket)] + rest else LaidItems(items, depth + 1, rest))
    case Obj(fields) =>
      [Spaced(blanks, LBrace)] +
      (if fields == [] then [Spaced("", RBrace)] + rest else LaidFields(fields, depth + 1, rest))
  }

  function LaidItems(items: seq<Value>, depth: nat, rest: seq<Spaced>): seq<Spaced>
    requires items != [] && depth > 0
    decreases items, 1
  {
    Laid(items[0], NewLine(depth), depth,
         if |items| == 1 then [Spaced(NewLine(depth - 1), RBracket)] + rest
         else [Spaced("", Comma)] + LaidItems(items[1..], depth, rest))
  }

  function LaidFields(fields: seq<Field>, depth: nat, rest: seq<Spaced>): seq<Spaced>
    requires fields != [] && depth > 0
    decreases fields, 1
  {
    [Spaced(NewLine(depth), TStr(fields[0].name)), Spaced("", Colon)] +
    Laid(fields[0].value, " ", depth,
         if |fields| == 1 then [Spaced(NewLine(depth - 1), RBrace)] + rest
         else [Spaced("", Comma)] + LaidFields(fields[1..], depth, rest))
  }

  function Indented(v: Value): string {
    Render(Laid(v, "", 0, []))
  }

  // ------------------------------------------------------------- round trip

  ghost predicate Delimited(ts: seq<Token>) {
    forall i :: 0 <= i < |ts| - 1 && ts[i].TNum? ==> Closes(ts[i + 1])
  }

  /** What may follow a value. */
  ghost predicate Follows(rest: seq<Token>) {
    Delimited(rest) && (rest == [] || Closes(rest[0]))
  }

  lemma DelimitedCons(t: Token, rest: seq<Token>)
    requires Delimited(rest) && (t.TNum? ==> Follows(rest))
    ensures Delimited([t] + rest)
  {
  }

  lemma {:induction false} TokensDelimited(v: Value, rest: seq<Token>)
    requires Follows(rest)
    ensures Delimited(Tokens(v, rest))
    decreases v, 0
  {
    match v {
      case Null => DelimitedCons(TNull, rest);
      case Num(n) => DelimitedCons(TNum(n), rest);
      case Str(s) => DelimitedCons(TStr(s), rest);
      case Arr(items) =>
        DelimitedCons(RBracket, rest);
        if items != [] {
          ItemTokensDelimited(items, rest);
          DelimitedCons(LBracket, ItemTokens(items, rest));
        } else {
          DelimitedCons(LBracket, [RBracket] + rest);
        }
      case Obj(fields) =>
        DelimitedCons(RBrace, rest);
        if fields != [] {
          FieldTokensDelimited(fields, rest);
          DelimitedCons(LBrace, FieldTokens(fields, rest));
        } else {
          DelimitedCons(LBrace, [RBrace] + rest);
        }
    }
  }

  lemma {:induction false} ItemTokensDelimited(items: seq<Value>, rest: seq<Token>)
    requires items != [] && Follows(rest)
    ensures Delimited(ItemTokens(items, rest))
    decreases items, 1
  {
    if |items| == 1 {
      DelimitedCons(RBracket, rest);
      TokensDelimited(items[0], [RBracket] + rest);
    } else {
      ItemTokensDelimited(items[1..], rest);
      DelimitedCons(Comma, ItemTokens(items[1..], rest));
      TokensDelimited(items[0], [Comma] + ItemTokens(items[1..], rest));
    }
  }

  lemma {:induction false} FieldTokensDelimited(fields: seq<Field>, rest: seq<Token>)
    requires fields != [] && Follows(rest)
    ensures Delimited(FieldTokens(fields, rest))
    decreases fields, 1
  {
    var tail := if |fields| == 1 then [RBrace] + rest else [Comma] + FieldTokens(fields[1..], rest);
    if |fields| == 1 {
      DelimitedCons(RBrace, rest);
    } else {
      FieldTokensDelimited(fields[1..], rest);
      DelimitedCons(Comma, FieldTokens(fields[1..], rest));
    }
    TokensDelimited(fields[0].value, tail);
    var value := Tokens(fields[0].value, tail);
    DelimitedCons(Colon, value);
    DelimitedCons(TStr(fields[0].name), [Colon] + value);
    assert [TStr(fields[0].name), Colon] + value == [TStr(fields[0].name)] + ([Colon] + value);
  }

  /** A layout of the tokens: the same tokens with only blanks added. */
  ghost predicate LayoutOf(ts: seq<Spaced>, tokens: seq<Token>) {
    && |ts| == |tokens|
    && forall i :: 0 <= i < |ts| ==> ts[i].token == tokens[i] && AllBlank(ts[i].blanks)
  }

  lemma LayoutCons(blanks: string, t: Token, ts: seq<Spaced>, tokens: seq<Token>)
    requires AllBlank(blanks) && LayoutOf(ts, tokens)
    ensures LayoutOf([Spaced(blanks, t)] + ts, [t] + tokens)
  {
  }

  lemma {:induction false} LaidLayout(v: Value, blanks: string, depth: nat, rest: seq<Spaced>, tokens: seq<Token>)
    requires AllBlank(blanks) && LayoutOf(rest, tokens)
    ensures LayoutOf(Laid(v, blanks, depth, rest), Tokens(v, tokens))
    decreases v, 0
  {
    match v {
      case Null => LayoutCons(blanks, TNull, rest, tokens);
      case Num(n) => LayoutCons(blanks, TNum(n), rest, tokens);
      case Str(s) => LayoutCons(blanks, TStr(s), rest, tokens);
      case Arr(items) =>
        if items != [] {
          LaidItemsLayout(items, depth + 1, rest, tokens);
          LayoutCons(blanks, LBracket, LaidItems(items, depth + 1, rest), ItemTokens(items, tokens));
        } else {
          LayoutCons("", RBracket, rest, tokens);
          LayoutCons(blanks, LBracket, [Spaced("", RBracket)] + rest, [RBracket] + tokens);
        }
      case Obj(fields) =>
        if fields != [] {
          LaidFieldsLayout(fields, depth + 1, rest, tokens);
          LayoutCons(blanks, LBrace, LaidFields(fields, depth + 1, rest), FieldTokens(fields, tokens));
        } else {
          LayoutCons("", RBrace, rest, tokens);
          LayoutCons(blanks, LBrace, [Spaced("", RBrace)] + rest, [RBrace] + tokens);
        }
    }
  }

  lemma {:induction false} LaidItemsLayout(items: seq<Value>, depth: nat, rest: seq<Spaced>, tokens: seq<Token>)
    requires items != [] && depth > 0 && LayoutOf(rest, tokens)
    ensures LayoutOf(LaidItems(items, depth, rest), ItemTokens(items, tokens))
    decreases items, 1
  {
    if |items| == 1 {
      LayoutCons(NewLine(depth - 1), RBracket, rest, tokens);
      LaidLayout(items[0], NewLine(depth), depth, [Spaced(NewLine(depth - 1), RBracket)] + rest, [RBracket] + tokens);
    } else {
      var more, moreTokens := LaidItems(items[1..], depth, rest), ItemTokens(items[1..], tokens);
      LaidItemsLayout(items[1..], depth, rest, tokens);
      LayoutCons("", Comma, more, moreTokens);
      LaidLayout(items[0], NewLine(depth), depth, [Spaced("", Comma)] + more, [Comma] + moreTokens);
    }
  }

  lemma {:induction false} LaidFieldsLayout(fields: seq<Field>, depth: nat, rest: seq<Spaced>, tokens: seq<Token>)
    requires fields != [] && depth > 0 && LayoutOf(rest, tokens)
    ensures LayoutOf(LaidFields(fields, depth, rest), FieldTokens(fields, tokens))
    decreases fields, 1
  {
    var f := fields[0];
    if |fields| == 1 {
      LayoutCons(NewLine(depth - 1), RBrace, rest, tokens);
      LaidLayout(f.value, " ", depth, [Spaced(NewLine(depth - 1), RBrace)] + rest, [RBrace] + tokens);
    } else {
      var more, moreTokens := LaidFields(fields[1..], depth, rest), FieldTokens(fields[1..], tokens);
      LaidFieldsLayout(fields[1..], depth, rest, tokens);
      LayoutCons("", Comma, more, moreTokens);
      LaidLayout(f.value, " ", depth, [Spaced("", Comma)] + more, [Comma] + moreTokens);
    }
  }

  /** Any layout of a value's tokens reads back as the value. */
  /** What is parsed is what was there: no token is skipped, added or taken for another. */
  lemma {:induction false} ParsedTokens(ts: seq<Token>)
    ensures var r := ParseValue(ts); r.Some? ==> ts == Tokens(r.value.0, r.value.1)
    decreases |ts|, 0
  {
    if ParseValue(ts).Some? {
      assert ts == [ts[0]] + ts[1..];
      if ts[0] == LBracket {
        if ts[1] == RBracket {
          assert ts[1..] == [RBracket] + ts[2..];
        } else {
          ParsedItems(ts[1..]);
        }
      } else if ts[0] == LBrace {
        if ts[1] == RBrace {
          assert ts[1..] == [RBrace] + ts[2..];
        } else {
          ParsedFields(ts[1..]);
        }
      }
    }
  }

  lemma {:induction false} ParsedItems(ts: seq<Token>)
    ensures var r := ParseItems(ts); r.Some? ==> r.value.0 != [] && ts == ItemTokens(r.value.0, r.value.1)
    decreases |ts|, 2
  {
    if ParseItems(ts).Some? {
      ParsedTokens(ts);
      var v, more := ParseValue(ts).value.0, ParseValue(ts).value.1;
      assert more == [more[0]] + more[1..];
      if more[0] == Comma {
        ParsedItems(more[1..]);
      }
    }
  }

  lemma {:induction false} ParsedFields(ts: seq<Token>)
    ensures var r := ParseFields(ts); r.Some? ==> r.value.0 != [] && ts == FieldTokens(r.value.0, r.value.1)
    decreases |ts|, 2
  {
    if ParseFields(ts).Some? {
      ParsedTokens(ts[2..]);
      var v, more := ParseValue(ts[2..]).value.0, ParseValue(ts[2..]).value.1;
      assert more == [more[0]] + more[1..];
      assert ts == [ts[0], Colon] + ts[2..];
      if more[0] == Comma {
        ParsedFields(more[1..]);
      }
    }
  }

  /** A text is read as a value exactly when its tokens are those of the value. */
  lemma ReadExactly(s: string, v: Value)
    ensures Read(s) == Some(v) <==> Lex(s) == Some(Tokens(v, []))
  {
    ParseTokens(v, []);
    if Lex(s).Some? {
      ParsedTokens(Lex(s).value);
    }
  }

  lemma ReadLayout(ts: seq<Spaced>, v: Value)
    requires LayoutOf(ts, Tokens(v, []))
    ensures Read(Render(ts)) == Some(v)
  {
    TokensDelimited(v, []);
    assert TokensOf(ts) == Tokens(v, []);
    assert Separated(ts);
    LexRender(ts);
    ParseTokens(v, []);
  }

  /** Both layouts read back as the value written. */
  lemma RoundTrip(v: Value)
    ensures Read(Compact(v)) == Some(v)
    ensures Read(Indented(v)) == Some(v)
  {
    ReadLayout(Tight(Tokens(v, [])), v);
    LaidLayout(v, "", 0, [], []);
    ReadLayout(Laid(v, "", 0, []), v);
  }

  // ---------------------------------------------------------------- the compact text

  function Quoted(s: string): string {
    "\"" + Escape(s) + "\""
  }

  /** A value written out directly, without tokens. */
  function PlainText(v: Value): string
    decreases v, 0
  {
    match v
    case Null => "null"
    case Num(n) => IntText(n)
    case Str(s) => Quoted(s)
    case Arr(items) => "[" + PlainItems(items) + "]"
    case Obj(fields) => "{" + PlainFields(fields) + "}"
  }

  function PlainItems(items: seq<Value>): string
    decreases items, 1
  {
    if items == [] then ""
    else if |items| == 1 then PlainText(items[0])
    else PlainText(items[0]) + "," + PlainItems(items[1..])
  }

  function PlainFields(fields: seq<Field>): string
    decreases fields, 1
  {
    if fields == [] then ""
    else if |fields| == 1 then Member(fields[0].name, PlainText(fields[0].value))
    else Member(fields[0].name, PlainText(fields[0].value)) + "," + PlainFields(fields[1..])
  }

  function Member(name: string, value: string): string {
    Quoted(name) + ":" + value
  }

  lemma RenderTight(t: Token, rest: seq<Token>)
    ensures Render(Tight([t] + rest)) == TokenText(t) + Render(Tight(rest))
  {
    assert Tight([t] + rest) == [Spaced("", t)] + Tight(rest);
    assert ([Spaced("", t)] + Tight(rest))[1..] == Tight(rest);
    assert "" + TokenText(t) == TokenText(t);
  }

  lemma Joined3(a: string, b: string, c: string)
    ensures a + (b + c) == a + b + c
  {
  }

  lemma {:induction false} RenderValue(v: Value, rest: seq<Token>)
    ensures Render(Tight(Tokens(v, rest))) == PlainText(v) + Render(Tight(rest))
    decreases v, 0
  {
    hide Render, Tight, Escape, IntText;
    var tail := Render(Tight(rest));
    match v {
      case Null => RenderTight(TNull, rest);
      case Num(n) => RenderTight(TNum(n), rest);
      case Str(s) => RenderTight(TStr(s), rest);
      case Arr(items) =>
        RenderTight(LBracket, if items == [] then [RBracket] + rest else ItemTokens(items, rest));
        if items == [] {
          RenderTight(RBracket, rest);
        } else {
          RenderItems(items, rest);
        }
        Wrapped("[", PlainItems(items), "]", tail);
      case Obj(fields) =>
        RenderTight(LBrace, if fields == [] then [RBrace] + rest else FieldTokens(fields, rest));
        if fields == [] {
          RenderTight(RBrace, rest);
        } else {
          RenderFields(fields, rest);
        }
        Wrapped("{", PlainFields(fields), "}", tail);
    }
  }

  lemma Wrapped(a: string, b: string, c: string, d: string)
    ensures a + (b + (c + d)) == a + b + c + d
    ensures b == "" ==> a + (c + d) == a + b + c + d
  {
  }

  lemma {:induction false} RenderItems(items: seq<Value>, rest: seq<Token>)
    requires items != []
    ensures Render(Tight(ItemTokens(items, rest))) == PlainItems(items) + ("]" + Render(Tight(rest)))
    decreases items, 1
  {
    hide Render, Tight, PlainText, Tokens;
    RenderTight(RBracket, rest);
    if |items| == 1 {
      RenderValue(items[0], [RBracket] + rest);
    } else {
      var more := ItemTokens(items[1..], rest);
      RenderItems(items[1..], rest);
      RenderTight(Comma, more);
      RenderValue(items[0], [Comma] + more);
      Wrapped(PlainText(items[0]), ",", PlainItems(items[1..]), "]" + Render(Tight(rest)));
    }
  }

  lemma RenderMember(f: Field, rest: seq<Token>)
    requires Render(Tight(Tokens(f.value, rest))) == PlainText(f.value) + Render(Tight(rest))
    ensures Render(Tight([TStr(f.name), Colon] + Tokens(f.value, rest))) ==
            Member(f.name, PlainText(f.value)) + Render(Tight(rest))
  {
    hide Render, Tight, PlainText, Tokens, Escape;
    var ts := Tokens(f.value, rest);
    RenderTight(Colon, ts);
    RenderTight(TStr(f.name), [Colon] + ts);
    assert [TStr(f.name), Colon] + ts == [TStr(f.name)] + ([Colon] + ts);
    Wrapped(Quoted(f.name), ":", PlainText(f.value), Render(Tight(rest)));
  }

  lemma {:induction false} RenderFields(fields: seq<Field>, rest: seq<Token>)
    requires fields != []
    ensures Render(Tight(FieldTokens(fields, rest))) == PlainFields(fields) + ("}" + Render(Tight(rest)))
    decreases fields, 1
  {
    hide Render, Tight, PlainText, Tokens, Member;
    RenderTight(RBrace, rest);
    if |fields| == 1 {
      RenderValue(fields[0].value, [RBrace] + rest);
      RenderMember(fields[0], [RBrace] + rest);
    } else {
      var more := FieldTokens(fields[1..], rest);
      RenderFields(fields[1..], rest);
      RenderTight(Comma, more);
      RenderValue(fields[0].value, [Comma] + more);
      RenderMember(fields[0], [Comma] + more);
      Wrapped(Member(fields[0].name, PlainText(fields[0].value)), ",", PlainFields(fields[1..]), "}" + Render(Tight(rest)));
    }
  }

  /** The compact text is the value written out. */
  lemma CompactIsPlain(v: Value)
    ensures Compact(v) == PlainText(v)
  {
    RenderValue(v, []);
    assert Tight([]) == [];
  }

  lemma PlainFieldsCons(f: Field, rest: seq<Field>)
    requires rest != []
    ensures PlainFields([f] + rest) == Member(f.name, PlainText(f.value)) + "," + PlainFields(rest)
  {
    assert ([f] + rest)[1..] == rest;
  }

  lemma {:induction false} PlainFieldsLast(fields: seq<Field>, f: Field)
    requires fields != []
    ensures PlainFields(fields + [f]) == PlainFields(fields) + "," + Member(f.name, PlainText(f.value))
  {
    hide PlainText, Member;
    var all := fields + [f];
    if |fields| == 1 {
      assert all[1..] == [f];
    } else {
      assert all[1..] == fields[1..] + [f];
      PlainFieldsLast(fields[1..], f);
      var m, p, l := Member(fields[0].name, PlainText(fields[0].value)), PlainFields(fields[1..]),
                     Member(f.name, PlainText(f.value));
      assert m + "," + (p + "," + l) == (m + "," + p) + "," + l;
    }
  }

  // ---------------------------------------------------------------- the indented text

  /** A new line and two blanks for each level. */
  function Indent(depth: nat): string {
    if depth == 0 then "\n" else Indent(depth - 1) + "  "
  }

  /** A value written out directly on its own lines. */
  function PrettyText(v: Value, depth: nat): string
    decreases v, 0
  {
    match v
    case Null => "null"
    case Num(n) => IntText(n)
    case Str(s) => Quoted(s)
    case Arr(items) => if items == [] then "[]" else "[" + PrettyItems(items, depth + 1) + (Indent(depth) + "]")
    case Obj(fields) => if fields == [] then "{}" else "{" + PrettyFields(fields, depth + 1) + (Indent(depth) + "}")
  }

  function PrettyItems(items: seq<Value>, depth: nat): string
    requires items != []
    decreases items, 1
  {
    Indent(depth) + PrettyText(items[0], depth) + if |items| == 1 then "" else "," + PrettyItems(items[1..], depth)
  }

  function PrettyFields(fields: seq<Field>, depth: nat): string
    requires fields != []
    decreases fields, 1
  {
    Indent(depth) + (Quoted(fields[0].name) + ": " + PrettyText(fields[0].value, depth)) +
    if |fields| == 1 then "" else "," + PrettyFields(fields[1..], depth)
  }

  lemma {:induction false} IndentIsNewLine(depth: nat)
    ensures NewLine(depth) == Indent(depth)
  {
    if depth > 0 {
      IndentIsNewLine(depth - 1);
      assert NewLine(depth) == NewLine(depth - 1) + "  ";
    }
  }

  lemma RenderSpaced(blanks: string, t: Token, rest: seq<Spaced>)
    ensures Render([Spaced(blanks, t)] + rest) == blanks + TokenText(t) + Render(rest)
  {
    assert ([Spaced(blanks, t)] + rest)[1..] == rest;
  }

  lemma {:induction false} RenderLaid(v: Value, blanks: string, depth: nat, rest: seq<Spaced>)
    ensures Render(Laid(v, blanks, depth, rest)) == blanks + PrettyText(v, depth) + Render(rest)
    decreases v, 0
  {
    hide Render, Escape, IntText, Indent, NewLine;
    var tail := Render(rest);
    match v {
      case Null => RenderSpaced(blanks, TNull, rest);
      case Num(n) => RenderSpaced(blanks, TNum(n), rest);
      case Str(s) => RenderSpaced(blanks, TStr(s), rest);
      case Arr(items) =>
        if items == [] {
          RenderSpaced("", RBracket, rest);
          RenderSpaced(blanks, LBracket, [Spaced("", RBracket)] + rest);
          Pair(blanks, "[", "]", tail);
        } else {
          RenderSpaced(blanks, LBracket, LaidItems(items, depth + 1, rest));
          RenderLaidItems(items, depth + 1, rest);
          Framed(blanks, "[", PrettyItems(items, depth + 1), Indent(depth) + "]", tail);
        }
      case Obj(fields) =>
        if fields == [] {
          RenderSpaced("", RBrace, rest);
          RenderSpaced(blanks, LBrace, [Spaced("", RBrace)] + rest);
          Pair(blanks, "{", "}", tail);
        } else {
          RenderSpaced(blanks, LBrace, LaidFields(fields, depth + 1, rest));
          RenderLaidFields(fields, depth + 1, rest);
          Framed(blanks, "{", PrettyFields(fields, depth + 1), Indent(depth) + "}", tail);
        }
    }
  }

  lemma Pair(a: string, open: string, close: string, d: string)
    ensures a + open + ("" + close + d) == a + (open + close) + d
  {
  }

  lemma Framed(a: string, b: string, c: string, d: string, e: string)
    ensures a + b + (c + d + e) == a + (b + c + d) + e
  {
  }

  lemma {:induction false} RenderLaidItems(items: seq<Value>, depth: nat, rest: seq<Spaced>)
    requires items != [] && depth > 0
    ensures Render(LaidItems(items, depth, rest)) == PrettyItems(items, depth) + (Indent(depth - 1) + "]") + Render(rest)
    decreases items, 1
  {
    hide Render, PrettyText, Laid, Indent, NewLine;
    IndentIsNewLine(depth);
    IndentIsNewLine(depth - 1);
    RenderSpaced(NewLine(depth - 1), RBracket, rest);
    var head, close := Indent(depth) + PrettyText(items[0], depth), Indent(depth - 1) + "]";
    if |items| == 1 {
      RenderLaid(items[0], NewLine(depth), depth, [Spaced(NewLine(depth - 1), RBracket)] + rest);
      Framed(head, "", close, Render(rest), "");
      assert head + (close + Render(rest)) == head + "" + close + Render(rest);
    } else {
      var more := LaidItems(items[1..], depth, rest);
      RenderLaidItems(items[1..], depth, rest);
      RenderSpaced("", Comma, more);
      RenderLaid(items[0], NewLine(depth), depth, [Spaced("", Comma)] + more);
      Chained(head, PrettyItems(items[1..], depth), close, Render(rest));
    }
  }

  lemma Chained(head: string, more: string, close: string, tail: string)
    ensures head + ("" + "," + (more + close + tail)) == head + ("," + more) + close + tail
  {
  }

  lemma {:induction false} RenderLaidFields(fields: seq<Field>, depth: nat, rest: seq<Spaced>)
    requires fields != [] && depth > 0
    ensures Render(LaidFields(fields, depth, rest)) == PrettyFields(fields, depth) + (Indent(depth - 1) + "}") + Render(rest)
    decreases fields, 1
  {
    hide Render, PrettyText, Laid, Indent, NewLine, Quoted;
    IndentIsNewLine(depth);
    IndentIsNewLine(depth - 1);
    RenderSpaced(NewLine(depth - 1), RBrace, rest);
    var f := fields[0];
    var head := Indent(depth) + (Quoted(f.name) + ": " + PrettyText(f.value, depth));
    var close := Indent(depth - 1) + "}";
    if |fields| == 1 {
      var after := [Spaced(NewLine(depth - 1), RBrace)] + rest;
      RenderLaid(f.value, " ", depth, after);
      RenderNamed(f, depth, Laid(f.value, " ", depth, after), Render(after));
      assert head + (close + Render(rest)) == head + "" + close + Render(rest);
    } else {
      var more := LaidFields(fields[1..], depth, rest);
      var after := [Spaced("", Comma)] + more;
      RenderLaidFields(fields[1..], depth, rest);
      RenderSpaced("", Comma, more);
      RenderLaid(f.value, " ", depth, after);
      RenderNamed(f, depth, Laid(f.value, " ", depth, after), Render(after));
      Chained(head, PrettyFields(fields[1..], depth), close, Render(rest));
    }
  }

  lemma RenderNamed(f: Field, depth: nat, value: seq<Spaced>, tail: string)
    requires Render(value) == " " + PrettyText(f.value, depth) + tail
    ensures Render([Spaced(NewLine(depth), TStr(f.name)), Spaced("", Colon)] + value) ==
            Indent(depth) + (Quoted(f.name) + ": " + PrettyText(f.value, depth)) + tail
  {
    hide Render, PrettyText, Indent, NewLine, Escape;
    IndentIsNewLine(depth);
    var colon := [Spaced("", Colon)] + value;
    RenderSpaced("", Colon, value);
    RenderSpaced(NewLine(depth), TStr(f.name), colon);
    assert [Spaced(NewLine(depth), TStr(f.name)), Spaced("", Colon)] + value == [Spaced(NewLine(depth), TStr(f.name))] + colon;
    Named(Indent(depth), Quoted(f.name), PrettyText(f.value, depth), tail);
  }

  lemma Named(a: string, name: string, value: string, tail: string)
    ensures a + name + ("" + ":" + (" " + value + tail)) == a + (name + ": " + value) + tail
  {
  }

  /** The indented text is the value written out on lines of its own. */
  lemma IndentedIsPretty(v: Value)
    ensures Indented(v) == PrettyText(v, 0)
  {
    RenderLaid(v, "", 0, []);
  }

  /** Neither a quote, a backslash, a control character nor a sign that HTML needs. */
  predicate Plain(c: char) {
    c >= ' ' && c !in {'"', '\\', '<', '>', '&', 0x2028 as char, 0x2029 as char}
  }

  lemma PlainChar(c: char)
    requires Plain(c)
    ensures EscapeChar(c) == [c]
  {
  }

  /** Such text is written as it is. */
  lemma {:induction false} PlainEscape(s: string)
    requires forall i :: 0 <= i < |s| ==> Plain(s[i])
    ensures Escape(s) == s
  {
    if s != [] {
      hide EscapeChar, Plain;
      PlainChar(s[0]);
      PlainEscape(s[1..]);
      assert s == [s[0]] + s[1..];
    }
  }
}
