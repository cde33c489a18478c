/** How an instant is written in the envelope and the store file: RFC 3339
    section 5.6, UTC, with the fraction of a second only where there is one. */
module Rfc3339 {
  import opened Text
  import opened Clock

  // ---------------------------------------------------------------- dates

  datatype Date = Date(year: int, month: int, day: int)

  function Least(a: int, b: int): int {
    if a <= b then a else b
  }

  /** The year from 1 March, and the day of it, of the day `z` days after 1 March
      of year 0: whole cycles of 400, 100, 4 and 1 years. */
  function YearAndDay(z: int): (int, int) {
    var era, d400 := z / 146097, z % 146097;
    var n100 := Least(d400 / 36524, 3);
    var d100 := d400 - 36524 * n100;
    var n4, d4 := d100 / 1461, d100 % 1461;
    var n1 := Least(d4 / 365, 3);
    (400 * era + 100 * n100 + 4 * n4 + n1, d4 - 365 * n1)
  }

  /** The day on which the year starting 1 March of year `y` starts. */
  function YearStart(y: int): int {
    var yoe := y % 400;
    y / 400 * 146097 + yoe / 100 * 36524 + yoe % 100 / 4 * 1461 + yoe % 4 * 365
  }

  /** Months counted from March. */
  function MonthAndDay(y: int, doy: int): Date {
    var mp := (5 * doy + 2) / 153;
    var month := if mp < 10 then mp + 3 else mp - 9;
    Date(if month <= 2 then y + 1 else y, month, doy - (153 * mp + 2) / 5 + 1)
  }

  /** The proleptic Gregorian date. */
  function DateOf(z: int): Date {
    var (y, doy) := YearAndDay(z);
    MonthAndDay(y, doy)
  }

  function DayOf(d: Date): int {
    var y := if d.month <= 2 then d.year - 1 else d.year;
    var mp := if d.month > 2 then d.month - 3 else d.month + 9;
    YearStart(y) + (153 * mp + 2) / 5 + d.day - 1
  }

  lemma MonthRange(y: int, doy: int)
    requires 0 <= doy <= 365
    ensures var d := MonthAndDay(y, doy);
            1 <= d.month <= 12 && 1 <= d.day <= 31 && DayOf(d) == YearStart(y) + doy
  {
    var mp := (5 * doy + 2) / 153;
    assert 0 <= mp <= 11;
    var d := MonthAndDay(y, doy);
    assert y == if d.month <= 2 then d.year - 1 else d.year;
  }

  lemma YearParts(era: int, n100: int, n4: int, n1: int)
    requires 0 <= n100 <= 3 && 0 <= n4 <= 24 && 0 <= n1 <= 3
    ensures var y := 400 * era + 100 * n100 + 4 * n4 + n1;
            y / 400 == era && y % 400 / 100 == n100 && y % 400 % 100 / 4 == n4 && y % 400 % 4 == n1
  {
    var yoe := 100 * n100 + 4 * n4 + n1;
    assert (400 * era + yoe) / 400 == era && (400 * era + yoe) % 400 == yoe;
    assert yoe / 100 == n100 && yoe % 100 == 4 * n4 + n1;
  }

  lemma YearRange(z: int)
    ensures 0 <= YearAndDay(z).1 <= 365
    ensures YearStart(YearAndDay(z).0) + YearAndDay(z).1 == z
  {
    var era, d400 := z / 146097, z % 146097;
    var n100 := Least(d400 / 36524, 3);
    var d100 := d400 - 36524 * n100;
    var n4, d4 := d100 / 1461, d100 % 1461;
    assert 0 <= d100 <= 36524 && n4 <= 24;
    YearParts(era, n100, n4, Least(d4 / 365, 3));
  }

  /** Different days get different dates, and the parts have their usual ranges. */
  lemma DateRoundTrip(z: int)
    ensures DayOf(DateOf(z)) == z
    ensures 1 <= DateOf(z).month <= 12 && 1 <= DateOf(z).day <= 31
  {
    YearRange(z);
    MonthRange(YearAndDay(z).0, YearAndDay(z).1);
  }

  // ---------------------------------------------------------------- the calendar

  ghost predicate Leap(year: int) {
    year % 4 == 0 && (year % 100 != 0 || year % 400 == 0)
  }

  ghost function DaysIn(year: int, month: int): int {
    if month == 2 then (if Leap(year) then 29 else 28)
    else if month in {4, 6, 9, 11} then 30
    else 31
  }

  /** The date of the next day. */
  ghost function Tomorrow(d: Date): Date {
    if d.day < DaysIn(d.year, d.month) then d.(day := d.day + 1)
    else if d.month < 12 then Date(d.year, d.month + 1, 1)
    else Date(d.year + 1, 1, 1)
  }

  /** The days from 1 March of year `y` to the next. */
  ghost function YearLength(y: int): int {
    if Leap(y + 1) then 366 else 365
  }

  lemma DayInYear(z: int)
    ensures 0 <= YearAndDay(z).1 < YearLength(YearAndDay(z).0)
  {
    var era, d400 := z / 146097, z % 146097;
    var n100 := Least(d400 / 36524, 3);
    var d100 := d400 - 36524 * n100;
    var n4, d4 := d100 / 1461, d100 % 1461;
    var n1 := Least(d4 / 365, 3);
    assert 0 <= d100 <= 36524 && 0 <= n4 <= 24 && 0 <= n1 <= 3;
    if d4 - 365 * n1 == 365 {
      assert n1 == 3 && d4 == 1460;
      assert n4 == 24 ==> n100 == 3;
      LastYearLeap(era, n100, n4);
    }
  }

  lemma LastYearLeap(era: int, n100: int, n4: int)
    requires 0 <= n100 <= 3 && 0 <= n4 <= 24 && (n4 == 24 ==> n100 == 3)
    ensures Leap(400 * era + 100 * n100 + 4 * n4 + 4)
  {
    var y := 400 * era + 100 * n100 + 4 * n4 + 4;
    assert y == 4 * (100 * era + 25 * n100 + n4 + 1);
    if n4 == 24 {
      assert y == 400 * (era + 1);
    } else {
      assert y == 100 * (4 * era + n100) + (4 * n4 + 4);
    }
  }

  lemma YearStartParts(era: int, n100: int, n4: int, n1: int)
    requires 0 <= n100 <= 3 && 0 <= n4 <= 24 && 0 <= n1 <= 3
    ensures YearStart(400 * era + 100 * n100 + 4 * n4 + n1) == era * 146097 + n100 * 36524 + n4 * 1461 + n1 * 365
  {
    YearParts(era, n100, n4, n1);
  }

  /** A year of the calendar has the length the leap year rule gives it. */
  lemma NextYearStart(y: int)
    ensures YearStart(y + 1) == YearStart(y) + YearLength(y)
  {
    var era, yoe := y / 400, y % 400;
    var n100, n4, n1 := yoe / 100, yoe % 100 / 4, yoe % 4;
    assert y == 400 * era + 100 * n100 + 4 * n4 + n1;
    YearStartParts(era, n100, n4, n1);
    if n1 < 3 {
      YearStartParts(era, n100, n4, n1 + 1);
      NotDivisible(y + 1, 100 * era + 25 * n100 + n4, n1 + 1);
    } else if n4 < 24 {
      YearStartParts(era, n100, n4 + 1, 0);
      LastYearLeap(era, n100, n4);
    } else if n100 < 3 {
      YearStartParts(era, n100 + 1, 0, 0);
      Century(y + 1, era, n100 + 1);
    } else {
      YearStartParts(era + 1, 0, 0, 0);
      LastYearLeap(era, n100, n4);
    }
  }

  lemma NotDivisible(y: int, q: int, r: int)
    requires y == 4 * q + r && 0 < r < 4
    ensures !Leap(y)
  {
  }

  lemma Century(y: int, era: int, c: int)
    requires y == 400 * era + 100 * c && 0 < c < 4
    ensures !Leap(y)
  {
    assert y % 400 == 100 * c && y == 100 * (4 * era + c);
  }

  /** Years follow one another. */
  lemma {:induction false} YearsRise(a: int, b: int)
    requires a <= b
    ensures YearStart(a) + 365 * (b - a) <= YearStart(b)
    decreases b - a
  {
    if a < b {
      YearsRise(a, b - 1);
      NextYearStart(b - 1);
    }
  }

  /** Year and day of the year are the only ones that fit. */
  lemma YearUnique(z: int, y: int, doy: int)
    requires 0 <= doy < YearLength(y) && YearStart(y) + doy == z
    ensures YearAndDay(z) == (y, doy)
  {
    hide YearAndDay, YearStart;
    var (y', doy') := YearAndDay(z);
    YearRange(z);
    DayInYear(z);
    if y' < y {
      NextYearStart(y');
      YearsRise(y' + 1, y);
    } else if y < y' {
      NextYearStart(y);
      YearsRise(y + 1, y');
    }
  }

  /** Where a month counted from March starts. */
  ghost function MonthStart(mp: int): int {
    (153 * mp + 2) / 5
  }

  lemma MonthOf(y: int, doy: int, mp: int)
    requires 0 <= mp <= 11 && MonthStart(mp) <= doy < MonthStart(mp + 1)
    ensures var month := if mp < 10 then mp + 3 else mp - 9;
            MonthAndDay(y, doy) == Date(if month <= 2 then y + 1 else y, month, doy - MonthStart(mp) + 1)
  {
    assert (5 * doy + 2) / 153 == mp;
  }

  /** Months have their lengths; February takes what is left of the year. */
  lemma MonthLengths(mp: int, y: int)
    requires 0 <= mp <= 10
    ensures MonthStart(mp + 1) - MonthStart(mp) == DaysIn(y, if mp < 10 then mp + 3 else mp - 9)
    ensures MonthStart(11) == 337
  {
  }

  lemma MonthFound(doy: int) returns (mp: int)
    requires 0 <= doy <= 365
    ensures 0 <= mp <= 11 && MonthStart(mp) <= doy < MonthStart(mp + 1)
  {
    mp := (5 * doy + 2) / 153;
  }

  lemma TomorrowInYear(y: int, doy: int)
    requires 0 <= doy && doy + 1 < YearLength(y)
    ensures MonthAndDay(y, doy + 1) == Tomorrow(MonthAndDay(y, doy))
  {
    var mp := MonthFound(doy);
    MonthOf(y, doy, mp);
    if mp < 11 {
      MonthLengths(mp, if mp == 10 then y + 1 else y);
    } else {
      MonthLengths(10, y);
    }
    if doy + 1 < MonthStart(mp + 1) {
      MonthOf(y, doy + 1, mp);
    } else {
      MonthOf(y, doy + 1, mp + 1);
    }
  }

  lemma LastDayOfYear(y: int)
    ensures Tomorrow(MonthAndDay(y, YearLength(y) - 1)) == MonthAndDay(y + 1, 0) == Date(y + 1, 3, 1)
  {
    MonthOf(y, YearLength(y) - 1, 11);
    MonthOf(y + 1, 0, 0);
  }

  /** The calendar goes from day to day by the lengths of the months and the leap year
      rule. With the date of one day, `ZeroDate`, this determines it. */
  lemma NextDay(z: int)
    ensures DateOf(z + 1) == Tomorrow(DateOf(z))
  {
    hide YearAndDay, YearStart, MonthAndDay, Tomorrow;
    var (y, doy) := YearAndDay(z);
    YearRange(z);
    DayInYear(z);
    if doy + 1 < YearLength(y) {
      YearUnique(z + 1, y, doy + 1);
      TomorrowInYear(y, doy);
    } else {
      NextYearStart(y);
      YearUnique(z + 1, y + 1, 0);
      LastDayOfYear(y);
    }
  }

  lemma ZeroDate()
    ensures DateOf(ZERO_DAY) == Date(1, 1, 1)
  {
    YearUnique(ZERO_DAY, 0, ZERO_DAY);
    MonthOf(0, ZERO_DAY, 10);
  }

  // ---------------------------------------------------------------- instants

  const DAY: int := 86_400_000_000_000
  /** Days from 1 March of year 0 to Go's zero time, 1 January of year 1. */
  const ZERO_DAY: int := 306

  /** time.Time.MarshalJSON fails outside years 0 to 9999. */
  predicate Writable(t: int) {
    0 <= DateOf(t / DAY + ZERO_DAY).year <= 9999
  }

  function Ten(w: nat): nat {
    if w == 0 then 1 else 10 * Ten(w - 1)
  }

  /** `n` in `w` decimal digits. */
  function Padded(n: nat, w: nat): (s: string)
    ensures |s| == w
    ensures forall i :: 0 <= i < w ==> '0' <= s[i] <= '9'
  {
    if w == 0 then [] else Padded(n / 10, w - 1) + [DigitChar(n % 10)]
  }

  function TrimZeros(s: string): (r: string)
    ensures r <= s
    ensures forall i :: |r| <= i < |s| ==> s[i] == '0'
  {
    if s != [] && s[|s| - 1] == '0' then TrimZeros(s[..|s| - 1]) else s
  }

  function FormatDate(z: int): string
    requires 0 <= DateOf(z).year
  {
    DateRoundTrip(z);
    var d := DateOf(z);
    Padded(d.year, 4) + "-" + Padded(d.month, 2) + "-" + Padded(d.day, 2)
  }

  function FormatClock(s: nat): string {
    Padded(s / 3600, 2) + ":" + Padded(s / 60 % 60, 2) + ":" + Padded(s % 60, 2)
  }

  function FormatFraction(nanos: nat): string {
    if nanos == 0 then "" else "." + TrimZeros(Padded(nanos, 9))
  }

  /** A day, a second of it, and a fraction of that second. */
  function FormatParts(z: int, secs: nat, nanos: nat): string
    requires 0 <= DateOf(z).year
  {
    FormatDate(z) + "T" + FormatClock(secs) + FormatFraction(nanos) + "Z"
  }

  function Instant(z: int, secs: int, nanos: int): int {
    (z - ZERO_DAY) * DAY + secs * SECOND + nanos
  }

  function Format(t: int): string
    requires Writable(t)
  {
    FormatParts(t / DAY + ZERO_DAY, t % DAY / SECOND, t % SECOND)
  }

  function ParseDate(s: string): Option<int> {
    if |s| != 10 || s[4] != '-' || s[7] != '-' then None
    else
      var y, m, d := NumValue(s[..4], 10), NumValue(s[5..7], 10), NumValue(s[8..], 10);
      if y == None || m == None || d == None then None
      else
        var date := Date(y.value, m.value, d.value);
        if DateOf(DayOf(date)) == date then Some(DayOf(date)) else None
  }

  function ParseClock(s: string): (r: Option<nat>)
    ensures r.Some? ==> r.value < 86400
  {
    if |s| != 8 || s[2] != ':' || s[5] != ':' then None
    else
      var h, m, sec := NumValue(s[..2], 10), NumValue(s[3..5], 10), NumValue(s[6..], 10);
      if h == None || m == None || sec == None || h.value > 23 || m.value > 59 || sec.value > 59 then None
      else Some(h.value * 3600 + m.value * 60 + sec.value)
  }

  function ParseFraction(s: string): Option<nat> {
    if s == [] then Some(0)
    else if s[0] != '.' || |s| == 1 || |s| > 10 then None
    else NumValue(s[1..] + seq(10 - |s|, _ => '0'), 10)
  }

  function Parse(s: string): Option<int> {
    if |s| < 20 || s[10] != 'T' || s[|s| - 1] != 'Z' then None
    else
      var z, c, f := ParseDate(s[..10]), ParseClock(s[11..19]), ParseFraction(s[19..|s| - 1]);
      if z == None || c == None || f == None then None
      else Some(Instant(z.value, c.value, f.value))
  }

  lemma {:induction false} PaddedValue(n: nat, w: nat)
    requires w > 0 && n < Ten(w)
    ensures NumValue(Padded(n, w), 10) == Some(n)
  {
    if w > 1 {
      PaddedValue(n / 10, w - 1);
      NumValueAppend(Padded(n / 10, w - 1), n % 10, 10);
    } else {
      assert Padded(n / 10, 0) == [];
    }
  }

  lemma Tens()
    ensures Ten(2) == 100 && Ten(4) == 10000 && Ten(9) == SECOND
  {
    assert Ten(6) == 1000000;
  }

  lemma ParseFormatDate(z: int)
    requires 0 <= DateOf(z).year <= 9999
    ensures |FormatDate(z)| == 10 && ParseDate(FormatDate(z)) == Some(z)
  {
    DateRoundTrip(z);
    Tens();
    var d, s := DateOf(z), FormatDate(z);
    PaddedValue(d.year, 4);
    PaddedValue(d.month, 2);
    PaddedValue(d.day, 2);
    assert s[..4] == Padded(d.year, 4) && s[5..7] == Padded(d.month, 2) && s[8..] == Padded(d.day, 2);
  }

  lemma ParseFormatClock(c: nat)
    requires c < 86400
    ensures |FormatClock(c)| == 8 && ParseClock(FormatClock(c)) == Some(c)
  {
    Tens();
    var s := FormatClock(c);
    PaddedValue(c / 3600, 2);
    PaddedValue(c / 60 % 60, 2);
    PaddedValue(c % 60, 2);
    assert s[..2] == Padded(c / 3600, 2) && s[3..5] == Padded(c / 60 % 60, 2) && s[6..] == Padded(c % 60, 2);
    assert c / 60 / 60 == c / 3600;
  }

  lemma {:induction false} AllZeros(s: string)
    requires s != [] && forall i :: 0 <= i < |s| ==> s[i] == '0'
    ensures NumValue(s, 10) == Some(0)
  {
    if |s| > 1 {
      AllZeros(s[..|s| - 1]);
    }
  }

  lemma ParseFormatFraction(nanos: nat)
    requires nanos < SECOND
    ensures ParseFraction(FormatFraction(nanos)) == Some(nanos)
  {
    if nanos > 0 {
      Tens();
      var digits := Padded(nanos, 9);
      var kept := TrimZeros(digits);
      PaddedValue(nanos, 9);
      if kept == [] { AllZeros(digits); }
      var s := FormatFraction(nanos);
      assert s[1..] == kept;
      assert kept + seq(10 - |s|, _ => '0') == digits;
    }
  }

  lemma Assembled(d: string, c: string, f: string)
    requires |d| == 10 && |c| == 8
    ensures var s := d + "T" + c + f + "Z";
            && |s| >= 20 && s[10] == 'T' && s[|s| - 1] == 'Z'
            && s[..10] == d && s[11..19] == c && s[19..|s| - 1] == f
  {
  }

  lemma ParseAssembled(d: string, c: string, f: string, z: int, secs: nat, nanos: nat)
    requires |d| == 10 && ParseDate(d) == Some(z)
    requires |c| == 8 && ParseClock(c) == Some(secs)
    requires ParseFraction(f) == Some(nanos)
    ensures Parse(d + "T" + c + f + "Z") == Some(Instant(z, secs, nanos))
  {
    Assembled(d, c, f);
  }

  lemma InstantParts(t: int)
    ensures 0 <= t % DAY / SECOND < 86400
    ensures Instant(t / DAY + ZERO_DAY, t % DAY / SECOND, t % SECOND) == t
  {
    var r := t % DAY;
    assert t == (t / DAY) * DAY + r;
    assert r % SECOND == t % SECOND;
  }

  /** An instant is recovered from its text, to the nanosecond. */
  lemma FormatRoundTrip(t: int)
    requires Writable(t)
    ensures Parse(Format(t)) == Some(t)
  {
    var z, c, f := t / DAY + ZERO_DAY, t % DAY / SECOND, t % SECOND;
    InstantParts(t);
    ParseParts(z, c, f);
  }

  lemma ParseParts(z: int, c: nat, f: nat)
    requires 0 <= DateOf(z).year <= 9999 && c < 86400 && f < SECOND
    ensures Parse(FormatParts(z, c, f)) == Some(Instant(z, c, f))
  {
    ParseFormatDate(z);
    ParseFormatClock(c);
    ParseFormatFraction(f);
    ParseAssembled(FormatDate(z), FormatClock(c), FormatFraction(f), z, c, f);
  }

  // ---------------------------------------------------------------- the years that can be written

  /** A calendar year begins 306 days into the year that starts in March. */
  lemma YearOfDay(z: int, y: int)
    ensures DateOf(z).year >= y <==> z >= YearStart(y - 1) + 306
  {
    hide YearAndDay, YearStart, MonthAndDay;
    var (y', doy) := YearAndDay(z);
    YearRange(z);
    DayInYear(z);
    var mp := MonthFound(doy);
    MonthOf(y', doy, mp);
    NextYearStart(y');
    if y' + 1 < y {
      YearsRise(y' + 1, y - 1);
    } else if y' >= y {
      NextYearStart(y - 1);
      YearsRise(y, y');
    }
  }

  /** From the first instant of year 0, a leap year before Go's zero time, to the last of
      year 9999. */
  lemma WritableMeans(t: int)
    ensures Writable(t) <==> -366 * 86_400_000_000_000 <= t < 3_652_059 * 86_400_000_000_000
  {
    hide DateOf, YearStart;
    var z := t / DAY + ZERO_DAY;
    YearOfDay(z, 0);
    YearOfDay(z, 10_000);
    YearBounds();
    DaysBefore(t, -366);
    DaysBefore(t, 3_652_059);
  }

  lemma YearBounds()
    ensures YearStart(-1) + 306 == -60 && YearStart(9_999) + 306 == 3_652_365
  {
    hide YearStart;
    YearStartParts(-1, 3, 24, 3);
    YearStartParts(24, 3, 24, 3);
  }

  lemma DaysBefore(t: int, days: int)
    ensures t / DAY >= days <==> t >= days * DAY
  {
  }

  // ---------------------------------------------------------------- two instants

  lemma TwoDigits(n: nat)
    requires n < 100
    ensures Padded(n, 2) == [DigitChar(n / 10), DigitChar(n % 10)]
  {
    assert Padded(n / 10 / 10, 0) == [] && Padded(n / 10, 1) == [] + [DigitChar(n / 10 % 10)];
  }

  lemma FourDigits(n: nat)
    requires n < 10000
    ensures Padded(n, 4) == Padded(n / 100, 2) + Padded(n % 100, 2)
  {
    TwoDigits(n / 100);
    TwoDigits(n % 100);
    assert n / 10 / 10 == n / 100 && n / 10 % 10 == n % 100 / 10;
    assert Padded(n, 4) == Padded(n / 10 / 10, 2) + [DigitChar(n / 10 % 10)] + [DigitChar(n % 10)];
  }

  /** A zero more at the end is written and taken away again. */
  lemma ZeroMore(n: nat, w: nat)
    ensures TrimZeros(Padded(10 * n, w + 1)) == TrimZeros(Padded(n, w))
  {
    assert Padded(10 * n, w + 1) == Padded(n, w) + ['0'];
    var s := Padded(n, w);
    assert (s + ['0'])[..|s|] == s;
  }

  lemma FractionExample()
    ensures FormatFraction(780_000_000) == ".78"
  {
    ZeroMore(78_000_000, 8);
    ZeroMore(7_800_000, 7);
    ZeroMore(780_000, 6);
    ZeroMore(78_000, 5);
    ZeroMore(7_800, 4);
    ZeroMore(780, 3);
    ZeroMore(78, 2);
    TwoDigits(78);
    assert TrimZeros("78") == "78";
  }

  lemma LeapDay()
    ensures DateOf(738_944 + ZERO_DAY) == Date(2024, 2, 29)
  {
    YearUnique(739_250, 2023, 365);
    MonthOf(2023, 365, 11);
  }

  lemma DateExamples()
    ensures FormatDate(ZERO_DAY) == "0001-01-01" && FormatDate(738_944 + ZERO_DAY) == "2024-02-29"
  {
    hide DateOf, Padded;
    ZeroDate();
    LeapDay();
    Digits();
    FourDigits(1);
    FourDigits(2024);
    Dashed("00" + "01", "01", "01");
    Dashed("20" + "24", "02", "29");
  }

  lemma Dashed(y: string, m: string, d: string)
    requires |y| == 4 && |m| == 2 && |d| == 2
    ensures y + "-" + m + "-" + d == [y[0], y[1], y[2], y[3], '-', m[0], m[1], '-', d[0], d[1]]
  {
  }

  lemma ClockExamples()
    ensures FormatClock(0) == "00:00:00" && FormatClock(12 * 3600 + 34 * 60 + 56) == "12:34:56"
  {
    hide Padded;
    Digits();
    assert "12" + ":" + "34" + ":" + "56" == "12:34:56";
  }

  lemma PartsJoined()
    ensures "0001-01-01" + "T" + "00:00:00" + "" + "Z" == "0001-01-01T00:00:00Z"
    ensures "2024-02-29" + "T" + "12:34:56" + ".78" + "Z" == "2024-02-29T12:34:56.78Z"
  {
  }

  /** How instants look: Go's zero time, and one with a part in every place. */
  lemma FormatExamples()
    ensures Writable(0) && Format(0) == "0001-01-01T00:00:00Z"
    ensures var t := 63_844_806_896_780_000_000; Writable(t) && Format(t) == "2024-02-29T12:34:56.78Z"
  {
    hide DateOf, FormatDate, FormatClock, FormatFraction;
    ZeroDate();
    LeapDay();
    DateExamples();
    ClockExamples();
    FractionExample();
    NoFraction();
    PartsJoined();
  }

  lemma NoFraction()
    ensures FormatFraction(0) == ""
  {
  }

  lemma Digits()
    ensures Padded(0, 2) == "00" && Padded(1, 2) == "01" && Padded(2, 2) == "02" && Padded(29, 2) == "29"
    ensures Padded(12, 2) == "12" && Padded(34, 2) == "34" && Padded(56, 2) == "56"
    ensures Padded(20, 2) == "20" && Padded(24, 2) == "24"
  {
    TwoDigits(0);
    TwoDigits(1);
    TwoDigits(2);
    TwoDigits(29);
    TwoDigits(12);
    TwoDigits(34);
    TwoDigits(56);
    TwoDigits(20);
    TwoDigits(24);
  }

  /** The text of an instant needs no escaping. */
  lemma FormatChars(t: int)
    requires Writable(t)
    ensures forall c :: c in Format(t) ==> '0' <= c <= '9' || c in {'-', ':', '.', 'T', 'Z'}
  {
    var z, secs, nanos := t / DAY + ZERO_DAY, t % DAY / SECOND, t % SECOND;
    DateChars(z);
    ClockChars(secs);
    FractionChars(nanos);
    hide FormatDate, FormatClock, FormatFraction;
    assert forall c :: c in "T" ==> c == 'T';
    assert forall c :: c in "Z" ==> c == 'Z';
  }

  lemma DateChars(z: int)
    requires 0 <= DateOf(z).year
    ensures forall c :: c in FormatDate(z) ==> '0' <= c <= '9' || c == '-'
  {
    hide DateOf;
    DateRoundTrip(z);
  }

  lemma ClockChars(secs: nat)
    ensures forall c :: c in FormatClock(secs) ==> '0' <= c <= '9' || c == ':'
  {
  }

  lemma FractionChars(nanos: nat)
    ensures forall c :: c in FormatFraction(nanos) ==> '0' <= c <= '9' || c == '.'
  {
  }
}
