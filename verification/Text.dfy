/** Text as the Go code sees it: strings ordered element by element, split and
    joined on one separator, trimmed of surrounding blanks, and numbers written
    in base 10 or 16. */
module Text {
  import opened Sorting

  datatype Option<+T> = None | Some(value: T)

  // ---------------------------------------------------------------- ordering

  /** Go's `<` on strings. */
  predicate Less(a: string, b: string) {
    && b != []
    && (a == [] || a[0] < b[0] || (a[0] == b[0] && Less(a[1..], b[1..])))
  }

  /** The order of dictionaries: a proper prefix comes first, and otherwise the first element
      that differs decides. */
  ghost predicate Before(a: string, b: string) {
    || (|a| < |b| && a == b[..|a|])
    || exists k :: 0 <= k < |a| && k < |b| && a[..k] == b[..k] && a[k] < b[k]
  }

  lemma {:induction false} LessMeans(a: string, b: string)
    ensures Less(a, b) <==> Before(a, b)
  {
    if a == [] || b == [] {
      assert b != [] ==> a == b[..|a|];
    } else if a[0] != b[0] {
      assert a[..0] == b[..0];
    } else {
      LessMeans(a[1..], b[1..]);
      BeforeLater(a, b);
    }
  }

  lemma BeforeLater(a: string, b: string)
    requires a != [] && b != [] && a[0] == b[0]
    ensures Before(a, b) <==> Before(a[1..], b[1..])
  {
    var c, d := a[1..], b[1..];
    assert a == [a[0]] + c && b == [b[0]] + d;
    if k :| 0 <= k < |c| && k < |d| && c[..k] == d[..k] && c[k] < d[k] {
      assert a[..k + 1] == [a[0]] + c[..k] && b[..k + 1] == [b[0]] + d[..k] && a[k + 1] < b[k + 1];
    }
    if k :| 0 <= k < |a| && k < |b| && a[..k] == b[..k] && a[k] < b[k] {
      assert c[..k - 1] == a[..k][1..] && d[..k - 1] == b[..k][1..] && c[k - 1] < d[k - 1];
    }
    if |a| < |b| && a == b[..|a|] {
      assert d[..|c|] == b[..|a|][1..];
    }
    if |c| < |d| && c == d[..|c|] {
      assert b[..|a|] == [b[0]] + d[..|c|];
    }
  }

  lemma {:induction false} LessIrreflexive(a: string)
    ensures !Less(a, a)
  {
    if a != [] {
      LessIrreflexive(a[1..]);
    }
  }

  lemma {:induction false} LessTransitive(a: string, b: string, c: string)
    requires Less(a, b) && Less(b, c)
    ensures Less(a, c)
  {
    if a != [] && a[0] == b[0] == c[0] {
      LessTransitive(a[1..], b[1..], c[1..]);
    }
  }

  lemma {:induction false} LessTotal(a: string, b: string)
    ensures a == b || Less(a, b) || Less(b, a)
  {
    if a != [] && b != [] && a[0] == b[0] {
      LessTotal(a[1..], b[1..]);
      assert a == [a[0]] + a[1..] && b == [b[0]] + b[1..];
    }
  }

  /** Every string comes strictly after the ones before it. */
  ghost predicate Increasing(s: seq<string>) {
    forall i, j :: 0 <= i < j < |s| ==> Less(s[i], s[j])
  }

  /** The same without `Less`: a dictionary without repetitions. */
  ghost predicate InOrder(s: seq<string>) {
    forall i, j :: 0 <= i < j < |s| ==> Before(s[i], s[j])
  }

  lemma IncreasingInOrder(s: seq<string>)
    ensures Increasing(s) <==> InOrder(s)
  {
    hide Less, Before;
    forall i, j | 0 <= i < j < |s| ensures Less(s[i], s[j]) <==> Before(s[i], s[j]) {
      LessMeans(s[i], s[j]);
    }
  }

  /** A strictly increasing list is determined by the strings in it. */
  lemma {:induction false} IncreasingUnique(a: seq<string>, b: seq<string>)
    requires Increasing(a) && Increasing(b)
    requires forall x :: x in a <==> x in b
    ensures a == b
  {
    if a == [] {
      NoMembers(b);
    } else {
      assert a[0] in b;
      HeadIsLeast(a, b);
      HeadIsLeast(b, a);
      LessOrAntisymmetric(a[0], b[0]);
      forall x ensures x in a[1..] <==> x in b[1..] {
        TailMembers(a, x);
        TailMembers(b, x);
      }
      IncreasingUnique(a[1..], b[1..]);
      assert a == [a[0]] + a[1..] && b == [b[0]] + b[1..];
    }
  }

  lemma NoMembers(s: seq<string>)
    ensures s == [] <==> forall x :: x !in s
  {
    assert s == [] || s[0] in s;
  }

  lemma LessOrAntisymmetric(x: string, y: string)
    requires !Less(x, y) && !Less(y, x)
    ensures x == y
  {
    LessTotal(x, y);
  }

  lemma HeadIsLeast(a: seq<string>, b: seq<string>)
    requires a != [] && Increasing(a)
    requires b != [] && b[0] in a
    ensures !Less(b[0], a[0])
  {
    var i :| 0 <= i < |a| && a[i] == b[0];
    LessIrreflexive(a[0]);
    if i > 0 && Less(b[0], a[0]) {
      LessTransitive(a[0], b[0], a[0]);
    }
  }

  lemma TailMembers(a: seq<string>, x: string)
    requires a != [] && Increasing(a)
    ensures x in a[1..] <==> x in a && x != a[0]
  {
    LessIrreflexive(a[0]);
    assert a == [a[0]] + a[1..];
  }

  lemma LessOrders()
    ensures Orders(Less)
  {
    forall a, b | Less(a, b) ensures !Less(b, a) {
      if Less(b, a) {
        LessTransitive(a, b, a);
        LessIrreflexive(a);
      }
    }
    forall a, b, c | !Less(b, a) && !Less(c, b) ensures !Less(c, a) {
      LessTotal(b, c);
      if Less(c, a) && Less(b, c) {
        LessTransitive(b, c, a);
      }
    }
  }

  // ---------------------------------------------------------------- splitting

  /** strings.Split on a one-character separator: never empty. */
  function Split(s: string, sep: char): (r: seq<string>)
    ensures r != []
  {
    if s == [] then [[]]
    else if s[0] == sep then [[]] + Split(s[1..], sep)
    else
      var rest := Split(s[1..], sep);
      [[s[0]] + rest[0]] + rest[1..]
  }

  /** strings.Join with a one-character separator. */
  function Join(parts: seq<string>, sep: char): string {
    if parts == [] then []
    else if |parts| == 1 then parts[0]
    else parts[0] + [sep] + Join(parts[1..], sep)
  }

  /** Splitting after a separator-free prefix and a separator. */
  lemma {:induction false} SplitCons(p: string, sep: char, s: string)
    requires sep !in p
    ensures Split(p + [sep] + s, sep) == [p] + Split(s, sep)
  {
    if p == [] {
      assert (p + [sep] + s)[1..] == s;
    } else {
      assert (p + [sep] + s)[1..] == p[1..] + [sep] + s;
      SplitCons(p[1..], sep, s);
      assert [p[0]] + p[1..] == p;
    }
  }

  lemma {:induction false} SplitOne(p: string, sep: char)
    requires sep !in p
    ensures Split(p, sep) == [p]
  {
    if p != [] {
      SplitOne(p[1..], sep);
      assert [p[0]] + p[1..] == p;
    }
  }

  /** Joining separator-free parts loses nothing. */
  lemma {:induction false} SplitJoin(parts: seq<string>, sep: char)
    requires parts != []
    requires forall p :: p in parts ==> sep !in p
    ensures Split(Join(parts, sep), sep) == parts
  {
    if |parts| == 1 {
      SplitOne(parts[0], sep);
    } else {
      SplitJoin(parts[1..], sep);
      SplitCons(parts[0], sep, Join(parts[1..], sep));
      assert parts == [parts[0]] + parts[1..];
    }
  }

  /** Splitting text with a separator in the middle splits the two halves. */
  lemma {:induction false} SplitAppend(a: string, sep: char, b: string)
    ensures Split(a + [sep] + b, sep) == Split(a, sep) + Split(b, sep)
  {
    if a == [] {
      assert (a + [sep] + b)[1..] == b;
    } else {
      assert (a + [sep] + b)[1..] == a[1..] + [sep] + b;
      SplitAppend(a[1..], sep, b);
    }
  }

  // ---------------------------------------------------------------- trimming

  /** The ASCII blanks of strings.TrimSpace. */
  predicate Blank(c: char) {
    c in {' ', '\t', '\n', '\r', 11 as char, 12 as char}
  }

  function TrimLeft(s: string): (r: string)
    ensures |r| <= |s| && (r != [] ==> !Blank(r[0]))
  {
    if s != [] && Blank(s[0]) then TrimLeft(s[1..]) else s
  }

  function TrimRight(s: string): (r: string)
    ensures |r| <= |s| && r <= s && (r != [] ==> !Blank(r[|r| - 1]))
  {
    if s != [] && Blank(s[|s| - 1]) then TrimRight(s[..|s| - 1]) else s
  }

  function TrimSpace(s: string): string {
    TrimRight(TrimLeft(s))
  }

  /** The blanks by number: tab to carriage return, and space. */
  ghost predicate Blanks(s: string) {
    forall i :: 0 <= i < |s| ==> 9 <= s[i] as int <= 13 || s[i] as int == 32
  }

  /** What is left when all blanks go from both ends. */
  ghost predicate Stripped(s: string, t: string) {
    && (exists a, b :: s == a + t + b && Blanks(a) && Blanks(b))
    && (t != "" ==> !Blanks(t[..1]) && !Blanks(t[|t| - 1..]))
  }

  lemma {:induction false} LeftStripped(s: string)
    ensures exists a :: s == a + TrimLeft(s) && Blanks(a)
  {
    if s != [] && Blank(s[0]) {
      LeftStripped(s[1..]);
      var a :| s[1..] == a + TrimLeft(s[1..]) && Blanks(a);
      assert s == ([s[0]] + a) + TrimLeft(s);
    } else {
      assert s == "" + TrimLeft(s);
    }
  }

  lemma {:induction false} RightStripped(s: string)
    ensures exists b :: s == TrimRight(s) + b && Blanks(b)
  {
    if s != [] && Blank(s[|s| - 1]) {
      var init, last := s[..|s| - 1], s[|s| - 1];
      RightStripped(init);
      var b :| init == TrimRight(init) + b && Blanks(b);
      assert s == TrimRight(s) + (b + [last]);
    } else {
      assert s == TrimRight(s) + "";
    }
  }

  lemma StrippedBy(s: string, a: string, t: string, b: string)
    requires s == a + t + b && Blanks(a) && Blanks(b)
    requires t != "" ==> !Blank(t[0]) && !Blank(t[|t| - 1])
    ensures Stripped(s, t)
  {
    if t != "" {
      assert t[..1][0] == t[0] && t[|t| - 1..][0] == t[|t| - 1];
    }
  }

  lemma TrimSpaceStrips(s: string)
    ensures Stripped(s, TrimSpace(s))
  {
    var u, t := TrimLeft(s), TrimSpace(s);
    hide TrimRight, TrimLeft, Stripped;
    LeftStripped(s);
    RightStripped(u);
    var a :| s == a + u && Blanks(a);
    var b :| u == t + b && Blanks(b);
    assert s == a + t + b;
    StrippedBy(s, a, t, b);
  }

  lemma TrimNothing(s: string)
    requires s != [] && !Blank(s[0]) && !Blank(s[|s| - 1])
    ensures TrimSpace(s) == s
  {
  }

  /** strings.ToLower on ASCII text. */
  function Lower(s: string): string {
    seq(|s|, i requires 0 <= i < |s| => if 'A' <= s[i] <= 'Z' then s[i] - 'A' + 'a' else s[i])
  }

  /** Letter by letter. */
  lemma LowerMeans(s: string, i: nat)
    requires i < |s|
    ensures |Lower(s)| == |s|
    ensures 'A' <= s[i] <= 'Z' ==> Lower(s)[i] == "abcdefghijklmnopqrstuvwxyz"[s[i] as int - 65]
    ensures !('A' <= s[i] <= 'Z') ==> Lower(s)[i] == s[i]
  {
    if 'A' <= s[i] <= 'Z' {
      LetterTable(s[i] as int - 65);
    }
  }

  lemma LetterTable(k: nat)
    requires k < 26
    ensures "abcdefghijklmnopqrstuvwxyz"[k] as int == 97 + k
  {
  }

  // ---------------------------------------------------------------- numbers

  /** Base-16 letters are written in lower case and read in either. */
  function DigitChar(d: nat): char
    requires d < 16
  {
    if d < 10 then '0' + (d as char) else 'a' + ((d - 10) as char)
  }

  function DigitValue(c: char): Option<nat> {
    if '0' <= c <= '9' then Some((c - '0') as nat)
    else if 'a' <= c <= 'f' then Some((c - 'a') as nat + 10)
    else if 'A' <= c <= 'F' then Some((c - 'A') as nat + 10)
    else None
  }

  function NumText(n: nat, base: nat): (r: string)
    requires base == 10 || base == 16
    ensures r != []
  {
    if n < base then [DigitChar(n)]
    else if base == 10 then NumText(n / 10, 10) + [DigitChar(n % 10)]
    else NumText(n / 16, 16) + [DigitChar(n % 16)]
  }

  /** strconv.Itoa. */
  function IntText(n: int): (r: string)
    ensures r != []
  {
    if n < 0 then ['-'] + NumText(-n, 10) else NumText(n, 10)
  }

  /** The digits in order of their values. */
  lemma DigitTable(d: nat)
    requires d < 16
    ensures DigitChar(d) == "0123456789abcdef"[d] && DigitValue(DigitChar(d)) == Some(d)
    ensures d >= 10 ==> DigitValue("ABCDEF"[d - 10]) == Some(d)
  {
  }

  function NumValue(s: string, base: nat): Option<nat>
    requires base == 10 || base == 16
  {
    if s == [] then None
    else
      var d := DigitValue(s[|s| - 1]);
      if d == None || d.value >= base then None
      else if |s| == 1 then d
      else
        var hi := NumValue(s[..|s| - 1], base);
        if hi == None then None else Some(hi.value * base + d.value)
  }

  lemma NumValueAppend(s: string, d: nat, base: nat)
    requires (base == 10 || base == 16) && d < base && NumValue(s, base).Some?
    ensures NumValue(s + [DigitChar(d)], base) == Some(NumValue(s, base).value * base + d)
  {
    var t := s + [DigitChar(d)];
    assert t[..|t| - 1] == s;
  }

  /** The text of a number reads back as that number. */
  lemma {:induction false} NumRoundTrip(n: nat, base: nat)
    requires base == 10 || base == 16
    ensures NumValue(NumText(n, base), base) == Some(n)
  {
    if n >= base {
      var hi, lo := if base == 10 then n / 10 else n / 16, if base == 10 then n % 10 else n % 16;
      NumRoundTrip(hi, base);
      NumValueAppend(NumText(hi, base), lo, base);
    }
  }

  /** Written numbers consist of digits. */
  lemma {:induction false} NumChars(n: nat, base: nat)
    requires base == 10 || base == 16
    ensures forall c :: c in NumText(n, base) ==>
              DigitValue(c).Some? && DigitValue(c).value < base && !('A' <= c <= 'F')
  {
    if n >= base {
      NumChars(if base == 10 then n / 10 else n / 16, base);
    }
  }

  /** No number is written with a zero in front. */
  lemma {:induction false} NoLeadingZero(n: nat, base: nat)
    requires base == 10 || base == 16
    ensures NumText(n, base)[0] == '0' <==> n == 0
    ensures n == 0 ==> NumText(n, base) == "0"
  {
    if n >= base {
      NoLeadingZero(if base == 10 then n / 10 else n / 16, base);
    }
  }

  /** A negative number is its absolute value behind a minus sign; no other number has one. */
  lemma {:induction false} IntTextMeans(n: int)
    ensures var t := IntText(n);
            && ('-' in t <==> n < 0)
            && (n < 0 ==> t[0] == '-' && t[1..] != [] && t[1] != '0' && NumValue(t[1..], 10) == Some(-n))
            && (n >= 0 ==> NumValue(t, 10) == Some(n) && (t[0] == '0' <==> t == "0"))
  {
    var m := if n < 0 then -n else n;
    NumRoundTrip(m, 10);
    NumChars(m, 10);
    NoLeadingZero(m, 10);
    assert n < 0 ==> IntText(n)[1..] == NumText(m, 10);
  }
}
