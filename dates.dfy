/** Calendar dates as the alias store sees them: the text `datetime.strptime(s, '%Y-%m-%d')`
    accepts, the ISO text `strftime('%Y-%m-%d')` and SQLite's `date()` produce, the
    proleptic Gregorian day number (`date.toordinal()`), and how SQLite's text order on
    ISO dates relates to calendar order. */
module Dates {
  import opened Wrappers
  import opened Strings

  datatype Date = Date(year: int, month: int, day: int)

  predicate IsLeap(y: int) {
    y % 4 == 0 && (y % 100 != 0 || y % 400 == 0)
  }

  function DaysInMonth(y: int, m: int): (n: int)
    requires 1 <= m <= 12
    ensures 28 <= n <= 31
    ensures m == 2 ==> (n == 29 <==> IsLeap(y))
  {
    if m == 2 then (if IsLeap(y) then 29 else 28)
    else if m == 4 || m == 6 || m == 9 || m == 11 then 30
    else 31
  }

  /** A date `datetime.date` can represent. */
  predicate ValidDate(d: Date) {
    && 1 <= d.year <= 9999
    && 1 <= d.month <= 12
    && 1 <= d.day <= DaysInMonth(d.year, d.month)
  }

  /** Calendar order. */
  predicate DateLe(a: Date, b: Date) {
    a.year < b.year || (a.year == b.year && (a.month < b.month || (a.month == b.month && a.day <= b.day)))
  }

  // ---------------------------------------------------------------------------
  // strptime with the format '%Y-%m-%d'

  /** The `%m` alternatives `1[0-2]` and `0[1-9]`. */
  predicate TwoDigitMonth(a: char, b: char) {
    (a == '1' && '0' <= b <= '2') || (a == '0' && '1' <= b <= '9')
  }

  /** `%m` followed by the literal '-': the month and the text after the dash. The
      two-character alternatives are tried first; only one reading can reach the dash. */
  function ParseMonth(s: string): (r: Option<(int, string)>)
    ensures r.Some? ==> 1 <= r.value.0 <= 12 && |r.value.1| <= |s| - 2
  {
    if |s| >= 3 && TwoDigitMonth(s[0], s[1]) && s[2] == '-' then
      Some((DigitValue(s[0]) * 10 + DigitValue(s[1]), s[3..]))
    else if |s| >= 2 && '1' <= s[0] <= '9' && s[1] == '-' then
      Some((DigitValue(s[0]), s[2..]))
    else None
  }

  /** `%d` as the last directive: the first alternative of `3[01]|[12]\d|0[1-9]|[1-9]| [1-9]`
      that matches must use up the rest of the text, or "unconverted data remains". */
  function ParseDay(s: string): (r: Option<int>)
    ensures r.Some? ==> 1 <= r.value <= 31
  {
    if |s| == 2 && s[0] == '3' && (s[1] == '0' || s[1] == '1') then Some(30 + DigitValue(s[1]))
    else if |s| == 2 && '1' <= s[0] <= '2' && IsDigit(s[1]) then Some(DigitValue(s[0]) * 10 + DigitValue(s[1]))
    else if |s| == 2 && s[0] == '0' && '1' <= s[1] <= '9' then Some(DigitValue(s[1]))
    else if |s| == 2 && s[0] == ' ' && '1' <= s[1] <= '9' then Some(DigitValue(s[1]))
    else if |s| == 1 && '1' <= s[0] <= '9' then Some(DigitValue(s[0]))
    else None
  }

  /** `datetime.strptime(s, '%Y-%m-%d')`: four digits of year, a dash, the month, a dash, the
      day; then the date itself must exist (year 0 and the 30th of February are refused). */
  function ParseDate(s: string): (r: Option<Date>)
    ensures r.Some? ==> ValidDate(r.value)
    ensures r.Some? ==> 8 <= |s| <= 10
  {
    if |s| < 5 || !AllDigits(s[..4]) || s[4] != '-' then None
    else
      match ParseMonth(s[5..])
      case None => None
      case Some((m, rest)) =>
        match ParseDay(rest)
        case None => None
        case Some(d) =>
          var y := DecimalValue(s[..4]);
          FourDigits(s[..4]);
          if 1 <= y && d <= DaysInMonth(y, m) then Some(Date(y, m, d)) else None
  }

  /** The value of a four-digit numeral, digit by digit. */
  lemma FourDigits(p: string)
    requires |p| == 4 && AllDigits(p)
    ensures DecimalValue(p) == DigitValue(p[0]) * 1000 + DigitValue(p[1]) * 100 + DigitValue(p[2]) * 10 + DigitValue(p[3])
    ensures 0 <= DecimalValue(p) < 10000
  {
    var p1, p2, p3 := p[..1], p[..2], p[..3];
    assert p1[..0] == [] && p2[..1] == p1 && p3[..2] == p2 && p[..3] == p3;
    assert DecimalValue(p1) == DigitValue(p[0]);
    assert DecimalValue(p2) == DigitValue(p[0]) * 10 + DigitValue(p[1]);
    assert DecimalValue(p3) == DecimalValue(p2) * 10 + DigitValue(p[2]);
  }

  // ---------------------------------------------------------------------------
  // ISO text

  /** Two decimal digits with a leading zero. */
  function Pad2(n: int): (p: string)
    requires 0 <= n < 100
    ensures |p| == 2 && AllDigits(p)
  {
    [DigitChar(n / 10), DigitChar(n % 10)]
  }

  /** Four decimal digits with leading zeros. */
  function Pad4(n: int): (p: string)
    requires 0 <= n < 10000
    ensures |p| == 4 && AllDigits(p)
  {
    Pad2(n / 100) + Pad2(n % 100)
  }

  /** `d.strftime('%Y-%m-%d')`, which is also the text SQLite's `date()` returns. */
  function Iso(d: Date): (s: string)
    requires ValidDate(d)
    ensures |s| == 10
  {
    Pad4(d.year) + "-" + Pad2(d.month) + "-" + Pad2(d.day)
  }

  /** Text in the form `strftime` writes: it parses, and it is the ISO text of what it parses to. */
  predicate Canonical(s: string) {
    ParseDate(s).Some? && Iso(ParseDate(s).value) == s
  }

  /** The digits of a numeral read back as its value. */
  lemma DecimalValueSnoc(p: string, c: char)
    requires AllDigits(p) && IsDigit(c)
    ensures AllDigits(p + [c]) && DecimalValue(p + [c]) == DecimalValue(p) * 10 + DigitValue(c)
  {
    assert (p + [c])[..|p|] == p;
  }

  lemma Pad4Value(n: int)
    requires 0 <= n < 10000
    ensures DecimalValue(Pad4(n)) == n
  {
    FourDigits(Pad4(n));
  }

  /** `strptime` reads back every date `strftime` writes. */
  lemma {:induction false} ParseIso(d: Date)
    requires ValidDate(d)
    ensures ParseDate(Iso(d)) == Some(d)
  {
    var s := Iso(d);
    assert s[..4] == Pad4(d.year);
    Pad4Value(d.year);
    var m := Pad2(d.month);
    assert s[5..] == m + "-" + Pad2(d.day);
    assert ParseMonth(s[5..]) == Some((d.month, Pad2(d.day)));
    assert ParseDay(Pad2(d.day)) == Some(d.day);
  }

  /** The ISO text of a valid date is canonical. */
  lemma IsoCanonical(d: Date)
    requires ValidDate(d)
    ensures Canonical(Iso(d))
  {
    ParseIso(d);
  }

  /** Dates parse back only from their own ISO text when written with ten characters and no blank;
      shorter forms such as "2022-1-5" and the blank-padded day are the only other accepted texts. */
  lemma {:induction false} ParseTenIsIso(s: string)
    requires ParseDate(s).Some? && |s| == 10 && ' ' !in s
    ensures Canonical(s)
  {
    var d := ParseDate(s).value;
    var t := Iso(d);
    Pad4Value(d.year);
    assert AllDigits(s[..4]);
    assert s[..4] == Pad4(d.year) by {
      PadDigitsEqual4(s[..4], d.year);
    }
    assert ParseMonth(s[5..]).Some?;
    assert s[5..7] == Pad2(d.month);
    assert s[8..] == Pad2(d.day);
    assert s == s[..4] + "-" + s[5..7] + "-" + s[8..];
  }

  /** A four-digit numeral is the padded text of its value. */
  lemma PadDigitsEqual4(p: string, n: int)
    requires |p| == 4 && AllDigits(p) && DecimalValue(p) == n
    ensures 0 <= n < 10000 && p == Pad4(n)
  {
    FourDigits(p);
    var d0, d1, d2, d3 := DigitValue(p[0]), DigitValue(p[1]), DigitValue(p[2]), DigitValue(p[3]);
    assert n / 100 == d0 * 10 + d1 && n % 100 == d2 * 10 + d3;
    assert Pad2(n / 100) == [p[0], p[1]];
    assert Pad2(n % 100) == [p[2], p[3]];
  }

  // ---------------------------------------------------------------------------
  // Text order of ISO dates

  lemma Pad2Order(a: int, b: int)
    requires 0 <= a < 100 && 0 <= b < 100
    ensures Pad2(a) == Pad2(b) <==> a == b
    ensures LexLe(Pad2(a), Pad2(b)) <==> a <= b
  {
    var p, q := Pad2(a), Pad2(b);
    assert a <= b <==> a / 10 < b / 10 || (a / 10 == b / 10 && a % 10 <= b % 10);
    assert a == b <==> a / 10 == b / 10 && a % 10 == b % 10;
    if p[0] == q[0] {
      assert p[1..] == [p[1]] && q[1..] == [q[1]];
      if p[1] == q[1] {
        assert p[1..][1..] == [] && q[1..][1..] == [];
        assert LexLe(p[1..][1..], q[1..][1..]);
        assert LexLe(p[1..], q[1..]);
      }
    }
  }

  lemma {:induction false} Pad4Order(a: int, b: int)
    requires 0 <= a < 10000 && 0 <= b < 10000
    ensures Pad4(a) == Pad4(b) <==> a == b
    ensures LexLe(Pad4(a), Pad4(b)) <==> a <= b
  {
    Pad2Order(a / 100, b / 100);
    Pad2Order(a % 100, b % 100);
    LexLeConcat(Pad2(a / 100), Pad2(a % 100), Pad2(b / 100), Pad2(b % 100));
    if Pad4(a) == Pad4(b) {
      assert Pad4(a)[..2] == Pad2(a / 100) && Pad4(b)[..2] == Pad2(b / 100);
      assert Pad4(a)[2..] == Pad2(a % 100) && Pad4(b)[2..] == Pad2(b % 100);
    }
  }

  /** A dash followed by two digits compares as the two digits. */
  lemma DashPad2Order(a: int, b: int, ra: string, rb: string)
    requires 0 <= a < 100 && 0 <= b < 100
    ensures LexLe("-" + Pad2(a) + ra, "-" + Pad2(b) + rb) ==
      if a == b then LexLe(ra, rb) else a < b
  {
    Pad2Order(a, b);
    LexLeConcat("-", Pad2(a) + ra, "-", Pad2(b) + rb);
    LexLeConcat(Pad2(a), ra, Pad2(b), rb);
    assert "-" + Pad2(a) + ra == "-" + (Pad2(a) + ra);
    assert "-" + Pad2(b) + rb == "-" + (Pad2(b) + rb);
  }

  /** SQLite compares ISO date text in calendar order. */
  lemma {:induction false} IsoOrder(a: Date, b: Date)
    requires ValidDate(a) && ValidDate(b)
    ensures LexLe(Iso(a), Iso(b)) <==> DateLe(a, b)
  {
    var ta := "-" + Pad2(a.month) + ("-" + Pad2(a.day));
    var tb := "-" + Pad2(b.month) + ("-" + Pad2(b.day));
    assert Iso(a) == Pad4(a.year) + ta;
    assert Iso(b) == Pad4(b.year) + tb;
    Pad4Order(a.year, b.year);
    LexLeConcat(Pad4(a.year), ta, Pad4(b.year), tb);
    DashPad2Order(a.month, b.month, "-" + Pad2(a.day), "-" + Pad2(b.day));
    DashPad2Order(a.day, b.day, "", "");
    assert "-" + Pad2(a.day) + "" == "-" + Pad2(a.day);
    assert "-" + Pad2(b.day) + "" == "-" + Pad2(b.day);
  }

  // ---------------------------------------------------------------------------
  // Day numbers

  /** Days in the years before `y`: `date(y, 1, 1).toordinal() - 1`. */
  function DaysBeforeYear(y: int): int {
    var k := y - 1;
    365 * k + k / 4 - k / 100 + k / 400
  }

  function DaysInYear(y: int): int {
    if IsLeap(y) then 366 else 365
  }

  /** Days in the months of year `y` before month `m`. */
  function DaysBeforeMonth(y: int, m: int): (n: int)
    requires 1 <= m <= 12
    ensures 0 <= n <= 335
  {
    var base :=
      if m == 1 then 0 else if m == 2 then 31 else if m == 3 then 59 else if m == 4 then 90
      else if m == 5 then 120 else if m == 6 then 151 else if m == 7 then 181 else if m == 8 then 212
      else if m == 9 then 243 else if m == 10 then 273 else if m == 11 then 304 else 334;
    if m > 2 && IsLeap(y) then base + 1 else base
  }

  /** `date.toordinal()`: 1 for the first of January of year 1. */
  function DayNumber(d: Date): int
    requires 1 <= d.month <= 12
  {
    DaysBeforeYear(d.year) + DaysBeforeMonth(d.year, d.month) + d.day
  }

  lemma MonthStep(y: int, m: int)
    requires 1 <= m < 12
    ensures DaysBeforeMonth(y, m + 1) == DaysBeforeMonth(y, m) + DaysInMonth(y, m)
  {
  }

  lemma YearEnd(y: int, m: int)
    requires 1 <= m <= 12
    ensures DaysBeforeMonth(y, m) + DaysInMonth(y, m) <= DaysInYear(y)
  {
  }

  /** The quotients by 4, 100 and 400 grow by one exactly at the multiples. */
  lemma QuotientSteps(n: int)
    ensures n / 4 == (n - 1) / 4 + (if n % 4 == 0 then 1 else 0)
    ensures n / 100 == (n - 1) / 100 + (if n % 100 == 0 then 1 else 0)
    ensures n / 400 == (n - 1) / 400 + (if n % 400 == 0 then 1 else 0)
  {
  }

  /** A multiple of 400 is a multiple of 100, which is a multiple of 4. */
  lemma MultiplesNest(n: int)
    ensures n % 400 == 0 ==> n % 100 == 0
    ensures n % 100 == 0 ==> n % 4 == 0
  {
  }

  /** Each year adds its own length to the day count. */
  lemma YearStep(y: int)
    requires y >= 1
    ensures DaysBeforeYear(y + 1) == DaysBeforeYear(y) + DaysInYear(y)
  {
    QuotientSteps(y);
    MultiplesNest(y);
  }

  lemma {:induction false} YearsMonotone(a: int, b: int)
    requires 1 <= a < b
    ensures DaysBeforeYear(a) + DaysInYear(a) <= DaysBeforeYear(b)
    decreases b - a
  {
    YearStep(a);
    if a + 1 < b {
      YearsMonotone(a + 1, b);
      YearStep(a + 1);
    }
  }

  lemma {:induction false} MonthsMonotone(y: int, a: int, b: int)
    requires 1 <= a < b <= 12
    ensures DaysBeforeMonth(y, a) + DaysInMonth(y, a) <= DaysBeforeMonth(y, b)
    decreases b - a
  {
    MonthStep(y, a);
    if a + 1 < b {
      MonthsMonotone(y, a + 1, b);
    }
  }

  /** Day numbers follow calendar order. */
  lemma {:induction false} DayNumberOrder(a: Date, b: Date)
    requires ValidDate(a) && ValidDate(b)
    ensures DateLe(a, b) <==> DayNumber(a) <= DayNumber(b)
  {
    if a.year < b.year {
      YearEnd(a.year, a.month);
      YearsMonotone(a.year, b.year);
    } else if b.year < a.year {
      YearEnd(b.year, b.month);
      YearsMonotone(b.year, a.year);
    } else if a.month < b.month {
      MonthsMonotone(a.year, a.month, b.month);
    } else if b.month < a.month {
      MonthsMonotone(a.year, b.month, a.month);
    }
  }

  // ---------------------------------------------------------------------------
  // Examples

  /** Month 13, day 44, slashes and the thirtieth of February are refused. */
  lemma ParseRefused()
    ensures ParseDate("2022-13-44").None?
    ensures ParseDate("2022/02/02").None?
    ensures ParseDate("2022-02-30").None?
  {
    assert "2022-02-30"[..4] == "2022";
    assert "2022-02-30"[5..] == "02-30";
    assert DecimalValue("2022") == 2022 by {
      Pad4Value(2022);
      assert Pad4(2022) == "2022";
    }
  }

  /** A one-digit month and day are accepted. */
  lemma ParseShortDate()
    ensures ParseDate("2022-1-5") == Some(Date(2022, 1, 5))
  {
    assert "2022-1-5"[..4] == "2022";
    assert "2022-1-5"[5..] == "1-5";
    assert DecimalValue("2022") == 2022 by {
      Pad4Value(2022);
      assert Pad4(2022) == "2022";
    }
  }
}
