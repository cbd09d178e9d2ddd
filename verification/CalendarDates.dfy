/** Gregorian dates, their day numbers, and the extended format YYYY-MM-DD of
    section 5.2.2.1 of ISO 8601-1:2019 as an order on text. */
module CalendarDates {
  import opened Basics
  import opened JsonText

  datatype Date = Date(year: int, month: int, day: int)

  predicate IsLeap(y: int) {
    y % 4 == 0 && (y % 100 != 0 || y % 400 == 0)
  }

  function DaysInMonth(y: int, m: int): int {
    if m == 2 then (if IsLeap(y) then 29 else 28) else if m in {4, 6, 9, 11} then 30 else 31
  }

  predicate Valid(d: Date) {
    1 <= d.year <= 9999 && 1 <= d.month <= 12 && 1 <= d.day <= DaysInMonth(d.year, d.month)
  }

  /** Days before 1 January of year `y`. */
  function DaysBeforeYear(y: int): int {
    (y - 1) * 365 + (y - 1) / 4 - (y - 1) / 100 + (y - 1) / 400
  }

  /** Days of year `y` before the first of month `m`. */
  function DaysBeforeMonth(y: int, m: int): int
    decreases m
  {
    if m <= 1 then 0 else DaysBeforeMonth(y, m - 1) + DaysInMonth(y, m - 1)
  }

  /** Proleptic Gregorian day number; 1 January of year 1 is day 1. */
  function Ordinal(d: Date): int {
    DaysBeforeYear(d.year) + DaysBeforeMonth(d.year, d.month) + d.day
  }

  predicate Earlier(c: Date, d: Date) {
    c.year < d.year || (c.year == d.year && (c.month < d.month || (c.month == d.month && c.day < d.day)))
  }

  /** The twelve months of a year, February by the Gregorian rule. */
  function MonthTable(y: int): (lengths: seq<int>)
    ensures |lengths| == 12
  {
    [31, if y % 400 == 0 || (y % 4 == 0 && y % 100 != 0) then 29 else 28, 31, 30, 31, 30, 31, 31, 30, 31, 30, 31]
  }

  /** The dates there are. */
  lemma {:induction false} ValidExactly(d: Date)
    ensures Valid(d)
      <==> 1 <= d.year <= 9999 && 1 <= d.month <= 12 && 1 <= d.day && d.day <= MonthTable(d.year)[d.month - 1]
  {
    assert d.year % 400 == 0 ==> d.year % 4 == 0 && d.year % 100 == 0;
  }

  /** Day 1 is 1 January of year 1; with `NextDay` that fixes every day number. */
  lemma {:induction false} FirstOfAll()
    ensures Valid(Date(1, 1, 1)) && Ordinal(Date(1, 1, 1)) == 1
  {
    assert DaysBeforeMonth(1, 1) == 0;
  }

  // ---- Day numbers follow the fields ----

  lemma {:induction false} MonthsGrow(y: int, m: int, n: int)
    requires 1 <= m < n
    ensures DaysBeforeMonth(y, m) + DaysInMonth(y, m) <= DaysBeforeMonth(y, n)
    decreases n
  {
    if m < n - 1 { MonthsGrow(y, m, n - 1); }
  }

  lemma {:induction false} YearLength(y: int)
    requires y >= 1
    ensures DaysBeforeYear(y + 1) == DaysBeforeYear(y) + (if IsLeap(y) then 366 else 365)
  {
    QuotientStep(y, 4);
    QuotientStep(y, 100);
    QuotientStep(y, 400);
    assert y % 100 == 0 ==> y % 4 == 0 by { Divides(y, 4, 25); }
    assert y % 400 == 0 ==> y % 100 == 0 by { Divides(y, 100, 4); }
    assert y + 1 - 1 == y;
  }

  lemma {:induction false} Divides(y: int, k: int, j: int)
    requires (k == 4 && j == 25) || (k == 100 && j == 4)
    ensures y % (k * j) == 0 ==> y % k == 0
  {
  }

  lemma {:induction false} QuotientStep(y: int, k: int)
    requires y >= 1 && k in {4, 100, 400}
    ensures y / k == (y - 1) / k + (if y % k == 0 then 1 else 0)
  {
  }

  lemma {:induction false} MonthsOfYear(y: int)
    ensures DaysBeforeMonth(y, 12) + 31 == if IsLeap(y) then 366 else 365
  {
    assert DaysBeforeMonth(y, 4) == DaysInMonth(y, 2) + 62;
    assert DaysBeforeMonth(y, 8) == DaysBeforeMonth(y, 4) + 122;
  }

  lemma {:induction false} YearsGrow(y: int, z: int)
    requires 1 <= y < z
    ensures DaysBeforeYear(y + 1) <= DaysBeforeYear(z)
    decreases z
  {
    if y < z - 1 {
      YearsGrow(y, z - 1);
      YearLength(z - 1);
    }
  }

  lemma {:induction false} DayOfYear(d: Date)
    requires Valid(d)
    ensures 1 <= DaysBeforeMonth(d.year, d.month) + d.day <= if IsLeap(d.year) then 366 else 365
  {
    MonthsOfYear(d.year);
    if d.month < 12 { MonthsGrow(d.year, d.month, 12); }
    if 1 < d.month { MonthsGrow(d.year, 1, d.month); }
  }

  lemma {:induction false} EarlierHasSmallerOrdinal(c: Date, d: Date)
    requires Valid(c) && Valid(d) && Earlier(c, d)
    ensures Ordinal(c) < Ordinal(d)
  {
    DayOfYear(c);
    DayOfYear(d);
    if c.year < d.year {
      YearLength(c.year);
      YearsGrow(c.year, d.year);
    } else if c.month < d.month {
      MonthsGrow(c.year, c.month, d.month);
    }
  }

  /** Day numbers order and identify dates exactly as their fields do. */
  lemma {:induction false} OrdinalOrder(c: Date, d: Date)
    requires Valid(c) && Valid(d)
    ensures Ordinal(c) < Ordinal(d) <==> Earlier(c, d)
    ensures Ordinal(c) == Ordinal(d) <==> c == d
  {
    if Earlier(c, d) {
      EarlierHasSmallerOrdinal(c, d);
    } else if Earlier(d, c) {
      EarlierHasSmallerOrdinal(d, c);
    }
  }

  function NextDay(d: Date): (next: Date)
    requires Valid(d) && d != Date(9999, 12, 31)
    ensures Valid(next) && Ordinal(next) == Ordinal(d) + 1
  {
    if d.day < DaysInMonth(d.year, d.month) then d.(day := d.day + 1)
    else if d.month < 12 then Date(d.year, d.month + 1, 1)
    else
      YearLength(d.year);
      MonthsOfYear(d.year);
      Date(d.year + 1, 1, 1)
  }

  // ---- Text ----

  /** The last `width` decimal digits of `n`, zero padded. */
  function Pad(n: nat, width: nat): (s: string)
    ensures |s| == width && AllDigits(s)
  {
    if width == 0 then "" else Pad(n / 10, width - 1) + [DigitChar(n % 10)]
  }

  function PadLimit(width: nat): nat {
    if width == 0 then 1 else 10 * PadLimit(width - 1)
  }

  /** `date.isoformat()` */
  function IsoText(d: Date): (s: string)
    requires Valid(d)
    ensures |s| == 10
  {
    Pad(d.year, 4) + "-" + Pad(d.month, 2) + "-" + Pad(d.day, 2)
  }

  /** The labels accepted by parsing a date and demanding that it formats back. */
  function ParseIso(s: string): Option<Date> {
    if |s| == 10 && AllDigits(s[..4]) && s[4] == '-' && AllDigits(s[5..7]) && s[7] == '-' && AllDigits(s[8..]) then
      var d := Date(NatValue(s[..4]), NatValue(s[5..7]), NatValue(s[8..]));
      if Valid(d) then Some(d) else None
    else None
  }

  lemma {:induction false} PadValue(n: nat, width: nat)
    requires n < PadLimit(width)
    ensures NatValue(Pad(n, width)) == n
  {
    if width > 0 {
      PadValue(n / 10, width - 1);
      assert Pad(n, width)[..width - 1] == Pad(n / 10, width - 1);
    }
  }

  lemma {:induction false} PadOfValue(s: string)
    requires AllDigits(s)
    ensures NatValue(s) < PadLimit(|s|) && Pad(NatValue(s), |s|) == s
  {
    if s != "" {
      var n, front := |s| - 1, s[..|s| - 1];
      PadOfValue(front);
      LastDigit(NatValue(front), DigitValue(s[n]));
      assert NatValue(s) == 10 * NatValue(front) + DigitValue(s[n]);
      assert s == front + [DigitChar(DigitValue(s[n]))];
    }
  }

  lemma {:induction false} LastDigit(front: nat, digit: nat)
    requires digit < 10
    ensures (10 * front + digit) / 10 == front && (10 * front + digit) % 10 == digit
  {
  }

  lemma {:induction false} PadLimits()
    ensures PadLimit(2) == 100 && PadLimit(4) == 10000
  {
  }

  function Digit(n: int): char
    requires 0 <= n < 10
  {
    "0123456789"[n]
  }

  /** The ten characters of a label, place by place. */
  lemma {:induction false} IsoTextExactly(d: Date)
    requires Valid(d)
    ensures IsoText(d) == [
      Digit(d.year / 1000), Digit(d.year / 100 % 10), Digit(d.year / 10 % 10), Digit(d.year % 10), '-',
      Digit(d.month / 10), Digit(d.month % 10), '-', Digit(d.day / 10), Digit(d.day % 10)]
  {
    PadFour(d.year);
    PadTwo(d.month);
    PadTwo(d.day);
  }

  lemma {:induction false} PadFour(n: nat)
    requires n < 10000
    ensures Pad(n, 4) == [Digit(n / 1000), Digit(n / 100 % 10), Digit(n / 10 % 10), Digit(n % 10)]
  {
    Quotients(n);
    PadTwo(n / 100);
    DigitIsDigit(n / 10 % 10);
    DigitIsDigit(n % 10);
    assert Pad(n, 4) == Pad(n / 10, 3) + [DigitChar(n % 10)];
    assert Pad(n / 10, 3) == Pad(n / 10 / 10, 2) + [DigitChar(n / 10 % 10)];
  }

  lemma {:induction false} Quotients(n: nat)
    ensures n / 10 / 10 == n / 100 && n / 100 / 10 == n / 1000
  {
  }

  lemma {:induction false} DigitIsDigit(n: nat)
    requires n < 10
    ensures DigitChar(n) == Digit(n)
  {
  }

  lemma {:induction false} PadTwo(n: nat)
    requires n < 100
    ensures Pad(n, 2) == [Digit(n / 10), Digit(n % 10)]
  {
    DigitIsDigit(n / 10);
    DigitIsDigit(n % 10);
    assert Pad(n, 2) == Pad(n / 10, 1) + [DigitChar(n % 10)];
    assert Pad(n / 10, 1) == [DigitChar(n / 10)];
  }

  /** Formatting then parsing gives the date back. */
  lemma {:induction false} ParseFormats(d: Date)
    requires Valid(d)
    ensures ParseIso(IsoText(d)) == Some(d)
  {
    PadLimits();
    FieldValue(d.year, 4);
    FieldValue(d.month, 2);
    FieldValue(d.day, 2);
    ParseParts(d, Pad(d.year, 4), Pad(d.month, 2), Pad(d.day, 2));
  }

  lemma {:induction false} FieldValue(n: nat, width: nat)
    requires n < PadLimit(width)
    ensures NatValue(Pad(n, width)) == n && |Pad(n, width)| == width && AllDigits(Pad(n, width))
  {
    PadValue(n, width);
  }

  lemma {:induction false} ParseParts(d: Date, a: string, b: string, c: string)
    requires Valid(d) && |a| == 4 && |b| == 2 && |c| == 2 && AllDigits(a) && AllDigits(b) && AllDigits(c)
    requires NatValue(a) == d.year && NatValue(b) == d.month && NatValue(c) == d.day
    ensures ParseIso(a + "-" + b + "-" + c) == Some(d)
  {
    SplitText(a, b, c);
  }

  lemma {:induction false} SplitText(a: string, b: string, c: string)
    requires |a| == 4 && |b| == 2 && |c| == 2
    ensures var s := a + "-" + b + "-" + c;
      s[..4] == a && s[4] == '-' && s[5..7] == b && s[7] == '-' && s[8..] == c
  {
  }

  /** Every accepted label is the one text of its date. */
  lemma {:induction false} FormatParses(s: string)
    requires ParseIso(s).Some?
    ensures Valid(ParseIso(s).value) && IsoText(ParseIso(s).value) == s
  {
    FieldText(s[..4], 4);
    FieldText(s[5..7], 2);
    FieldText(s[8..], 2);
    JoinParts(s, s[..4], s[5..7], s[8..]);
  }

  lemma {:induction false} FieldText(s: string, width: nat)
    requires AllDigits(s) && |s| == width
    ensures Pad(NatValue(s), width) == s
  {
    PadOfValue(s);
  }

  lemma {:induction false} JoinParts(s: string, a: string, b: string, c: string)
    requires |s| == 10 && s[4] == '-' && s[7] == '-' && a == s[..4] && b == s[5..7] && c == s[8..]
    ensures a + "-" + b + "-" + c == s
  {
  }

  // ---- Text order ----

  predicate StrLess(a: string, b: string) {
    StrLeq(a, b) && a != b
  }

  lemma {:induction false} EqualWidthConcat(a: string, b: string, c: string, d: string)
    requires |a| == |b|
    ensures StrLeq(a + c, b + d) <==> StrLess(a, b) || (a == b && StrLeq(c, d))
  {
    if a == "" {
      assert a + c == c && b + d == d;
    } else {
      EqualWidthConcat(a[1..], b[1..], c, d);
      assert (a + c)[1..] == a[1..] + c && (b + d)[1..] == b[1..] + d;
      assert a == [a[0]] + a[1..] && b == [b[0]] + b[1..];
    }
  }

  lemma {:induction false} PadOrder(m: nat, n: nat, width: nat)
    requires m < PadLimit(width) && n < PadLimit(width)
    ensures StrLeq(Pad(m, width), Pad(n, width)) <==> m <= n
    ensures Pad(m, width) == Pad(n, width) <==> m == n
  {
    PadValue(m, width);
    PadValue(n, width);
    if width > 0 {
      PadOrder(m / 10, n / 10, width - 1);
      EqualWidthConcat(Pad(m / 10, width - 1), Pad(n / 10, width - 1), [DigitChar(m % 10)], [DigitChar(n % 10)]);
    }
  }

  /** Comparing YYYY-MM-DD text is comparing days. */
  lemma {:induction false} TextOrderIsDayOrder(c: Date, d: Date)
    requires Valid(c) && Valid(d)
    ensures StrLeq(IsoText(c), IsoText(d)) <==> Ordinal(c) <= Ordinal(d)
    ensures StrLess(IsoText(c), IsoText(d)) <==> Ordinal(c) < Ordinal(d)
  {
    PadLimits();
    PadOrder(c.year, d.year, 4);
    PadOrder(c.month, d.month, 2);
    PadOrder(c.day, d.day, 2);
    FieldwiseOrder(Pad(c.year, 4), Pad(d.year, 4), Pad(c.month, 2), Pad(d.month, 2), Pad(c.day, 2), Pad(d.day, 2));
    OrdinalOrder(c, d);
    ParseFormats(c);
    ParseFormats(d);
  }

  lemma {:induction false} FieldwiseOrder(a: string, b: string, m: string, n: string, x: string, y: string)
    requires |a| == |b| && |m| == |n|
    ensures StrLeq(a + "-" + m + "-" + x, b + "-" + n + "-" + y)
      <==> StrLess(a, b) || (a == b && (StrLess(m, n) || (m == n && StrLeq(x, y))))
  {
    assert a + "-" + m + "-" + x == a + ("-" + (m + ("-" + x)));
    assert b + "-" + n + "-" + y == b + ("-" + (n + ("-" + y)));
    EqualWidthConcat(a, b, "-" + (m + ("-" + x)), "-" + (n + ("-" + y)));
    EqualWidthConcat("-", "-", m + ("-" + x), n + ("-" + y));
    EqualWidthConcat(m, n, "-" + x, "-" + y);
    EqualWidthConcat("-", "-", x, y);
  }
}
