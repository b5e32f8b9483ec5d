/**
 * Timestamps as pandas holds them after `pd.to_datetime` (datetime64[ns]:
 * nanoseconds since 1970-01-01T00:00 in a signed 64-bit integer whose
 * smallest value is reserved for NaT), rounding a time difference down to
 * whole days, the proleptic Gregorian calendar, and the `YYYY-MM` key that
 * `to_period("M").astype(str)` gives a timestamp.
 */
module Calendar {
  import opened Ordering

  const NanosPerSecond: int := 1_000_000_000
  const NanosPerDay: int := 86_400 * NanosPerSecond

  /** Largest datetime64[ns] value; its negation is the smallest one that is not NaT. */
  const MaxNanos: int := 0x7FFF_FFFF_FFFF_FFFF

  type Timestamp = t: int | -MaxNanos <= t <= MaxNanos

  /**
   * Whether `later - earlier` fits the signed 64-bit nanosecond count of a
   * timedelta64[ns] (NaT's value excluded); pandas raises `OverflowError` on a
   * datetime subtraction that does not.
   */
  predicate DifferenceFits(later: Timestamp, earlier: Timestamp)
  {
    -MaxNanos <= later - earlier <= MaxNanos
  }

  /** `Timedelta.days`: the whole number of days in `delta`, rounded toward minus infinity. */
  function WholeDays(delta: int): (r: int)
    ensures r * NanosPerDay <= delta < (r + 1) * NanosPerDay
  {
    delta / NanosPerDay
  }

  /** The calendar day of `t`, counted from 1970-01-01. */
  function DayNumber(t: Timestamp): (n: int)
    ensures n * NanosPerDay <= t < (n + 1) * NanosPerDay
    ensures -106752 <= n <= 106751
  {
    WholeDays(t)
  }

  predicate IsLeapYear(y: int)
  {
    y % 4 == 0 && (y % 100 != 0 || y % 400 == 0)
  }

  function DaysInYear(y: int): int
  {
    if IsLeapYear(y) then 366 else 365
  }

  function DaysInMonth(y: int, m: int): int
    requires 1 <= m <= 12
  {
    if m == 2 then (if IsLeapYear(y) then 29 else 28)
    else if m == 4 || m == 6 || m == 9 || m == 11 then 30
    else 31
  }

  /** Days from January 1st of `y` to the first day of month `m` (13 stands for the next January 1st). */
  function DaysBeforeMonth(y: int, m: int): int
    requires 1 <= m <= 13
  {
    var base :=
      if m == 1 then 0 else if m == 2 then 31 else if m == 3 then 59
      else if m == 4 then 90 else if m == 5 then 120 else if m == 6 then 151
      else if m == 7 then 181 else if m == 8 then 212 else if m == 9 then 243
      else if m == 10 then 273 else if m == 11 then 304 else if m == 12 then 334
      else 365;
    if m > 2 && IsLeapYear(y) then base + 1 else base
  }

  lemma MonthsTile(y: int, m: int)
    requires 1 <= m <= 12
    ensures DaysBeforeMonth(y, m) + DaysInMonth(y, m) == DaysBeforeMonth(y, m + 1)
    ensures DaysBeforeMonth(y, 13) == DaysInYear(y)
  {
  }

  /** Days from 1970-01-01 to January 1st of `y` (negative before 1970). */
  function DaysBeforeYear(y: int): int
    decreases if y >= 1970 then y - 1970 else 1970 - y
  {
    if y == 1970 then 0
    else if y > 1970 then DaysBeforeYear(y - 1) + DaysInYear(y - 1)
    else DaysBeforeYear(y + 1) - DaysInYear(y)
  }

  lemma YearsTile(y: int)
    ensures DaysBeforeYear(y + 1) == DaysBeforeYear(y) + DaysInYear(y)
  {
  }

  /** A calendar date; `Valid` when the month and day exist. */
  datatype Civil = Civil(year: int, month: int, day: int)
  {
    predicate Valid()
    {
      1 <= month <= 12 && 1 <= day <= DaysInMonth(year, month)
    }
  }

  /** Day number of a valid date: the inverse of `CivilFromDays`. */
  function DaysFromCivil(c: Civil): int
    requires c.Valid()
  {
    DaysBeforeYear(c.year) + DaysBeforeMonth(c.year, c.month) + c.day - 1
  }

  /**
   * The year holding the day that lies `n` days after January 1st of `y`,
   * and that day's offset within its year.
   */
  function YearOf(n: int, y: int): (r: (int, int))
    ensures 0 <= r.1 < DaysInYear(r.0)
    ensures DaysBeforeYear(r.0) + r.1 == DaysBeforeYear(y) + n
    decreases if n < 0 then 1 else 0, if n < 0 then -n else n
  {
    if n < 0 then
      YearsTile(y - 1);
      YearOf(n + DaysInYear(y - 1), y - 1)
    else if n < DaysInYear(y) then (y, n)
    else
      YearsTile(y);
      YearOf(n - DaysInYear(y), y + 1)
  }

  /** The month of year `y` holding day offset `d`, searching from month `m` on. */
  function MonthFrom(y: int, d: int, m: int): (r: int)
    requires 1 <= m <= 12 && DaysBeforeMonth(y, m) <= d < DaysInYear(y)
    ensures m <= r <= 12
    ensures DaysBeforeMonth(y, r) <= d < DaysBeforeMonth(y, r) + DaysInMonth(y, r)
    decreases 12 - m
  {
    MonthsTile(y, m);
    if d < DaysBeforeMonth(y, m) + DaysInMonth(y, m) then m
    else MonthFrom(y, d, m + 1)
  }

  /** The calendar date of day number `n`. */
  function CivilFromDays(n: int): (c: Civil)
    ensures c.Valid()
    ensures DaysFromCivil(c) == n
  {
    var (y, d) := YearOf(n, 1970);
    var m := MonthFrom(y, d, 1);
    Civil(y, m, d - DaysBeforeMonth(y, m) + 1)
  }

  /** Years are laid end to end: every day of an earlier year comes before every day of a later one. */
  lemma {:induction false} YearsOrdered(y1: int, y2: int)
    requires y1 < y2
    ensures DaysBeforeYear(y1) + DaysInYear(y1) <= DaysBeforeYear(y2)
    decreases y2 - y1
  {
    YearsTile(y1);
    if y1 + 1 < y2 {
      YearsOrdered(y1 + 1, y2);
    }
  }

  lemma MonthsOrdered(y: int, m1: int, m2: int)
    requires 1 <= m1 < m2 <= 13
    ensures DaysBeforeMonth(y, m1) + DaysInMonth(y, m1) <= DaysBeforeMonth(y, m2)
  {
  }

  /** Calendar months in chronological order. */
  predicate MonthBefore(y1: int, m1: int, y2: int, m2: int)
  {
    y1 < y2 || (y1 == y2 && m1 < m2)
  }

  /** A day in an earlier month has a smaller day number than a day in a later month. */
  lemma DaysOfEarlierMonth(c1: Civil, c2: Civil)
    requires c1.Valid() && c2.Valid()
    requires MonthBefore(c1.year, c1.month, c2.year, c2.month)
    ensures DaysFromCivil(c1) < DaysFromCivil(c2)
  {
    if c1.year < c2.year {
      MonthsOrdered(c1.year, c1.month, 13);
      YearsOrdered(c1.year, c2.year);
    } else {
      MonthsOrdered(c1.year, c1.month, c2.month);
    }
  }

  /** `DaysFromCivil` is one-to-one on valid dates, so `CivilFromDays` is its two-sided inverse. */
  lemma CivilRoundTrip(c: Civil)
    requires c.Valid()
    ensures CivilFromDays(DaysFromCivil(c)) == c
  {
    var c' := CivilFromDays(DaysFromCivil(c));
    if MonthBefore(c.year, c.month, c'.year, c'.month) {
      DaysOfEarlierMonth(c, c');
    } else if MonthBefore(c'.year, c'.month, c.year, c.month) {
      DaysOfEarlierMonth(c', c);
    }
  }

  lemma {:induction false} YearOfUpper(n: int, y: int)
    requires n >= 0
    ensures y <= YearOf(n, y).0 <= y + n / 365
    decreases n
  {
    if n >= DaysInYear(y) {
      YearOfUpper(n - DaysInYear(y), y + 1);
    }
  }

  lemma {:induction false} YearOfLower(n: int, y: int)
    requires n < 0
    ensures y - (-n + 364) / 365 <= YearOf(n, y).0 < y
    decreases -n
  {
    var n' := n + DaysInYear(y - 1);
    if n' < 0 {
      YearOfLower(n', y - 1);
    }
  }

  /** Every timestamp pandas can hold falls between 1677 and 2262, so its year has four digits. */
  lemma YearRange(t: Timestamp)
    ensures 1677 <= CivilFromDays(DayNumber(t)).year <= 2262
  {
    var n := DayNumber(t);
    if n >= 0 {
      YearOfUpper(n, 1970);
    } else {
      YearOfLower(n, 1970);
    }
  }

  function DigitChar(d: int): char
    requires 0 <= d <= 9
  {
    ('0' as int + d) as char
  }

  /** The last `width` decimal digits of `v`, zero-padded. */
  function Digits(v: nat, width: nat): (s: string)
    ensures |s| == width
    ensures forall i :: 0 <= i < |s| ==> '0' <= s[i] <= '9'
  {
    if width == 0 then [] else Digits(v / 10, width - 1) + [DigitChar(v % 10)]
  }

  function Pow10(k: nat): nat
  {
    if k == 0 then 1 else 10 * Pow10(k - 1)
  }

  /** On numbers below 10^width, comparing the padded digit strings compares the numbers. */
  lemma {:induction false} DigitsOrder(a: nat, b: nat, width: nat)
    requires a < Pow10(width) && b < Pow10(width)
    ensures Less(Digits(a, width), Digits(b, width)) <==> a < b
    ensures Digits(a, width) == Digits(b, width) <==> a == b
  {
    if width == 0 {
      assert a == 0 && b == 0;
    } else {
      var a', b' := a / 10, b / 10;
      DigitsOrder(a', b', width - 1);
      var p, q := Digits(a', width - 1), Digits(b', width - 1);
      var s, t := [DigitChar(a % 10)], [DigitChar(b % 10)];
      LessConcat(p, s, q, t);
      assert Less(s, t) <==> a % 10 < b % 10;
      if Digits(a, width) == Digits(b, width) {
        assert p == Digits(a, width)[..width - 1] && q == Digits(b, width)[..width - 1];
        assert s[0] == Digits(a, width)[width - 1] && t[0] == Digits(b, width)[width - 1];
      }
    }
  }

  /** `YYYY-MM`, the string form of a monthly period. */
  function MonthKeyOf(year: nat, month: nat): string
  {
    Digits(year, 4) + "-" + Digits(month, 2)
  }

  /** For four-digit years, key order is chronological order and equal keys mean the same month. */
  lemma MonthKeyOrder(y1: nat, m1: nat, y2: nat, m2: nat)
    requires y1 < 10000 && y2 < 10000 && m1 < 100 && m2 < 100
    ensures Less(MonthKeyOf(y1, m1), MonthKeyOf(y2, m2)) <==> MonthBefore(y1, m1, y2, m2)
    ensures MonthKeyOf(y1, m1) == MonthKeyOf(y2, m2) <==> y1 == y2 && m1 == m2
  {
    assert Pow10(4) == 10000 && Pow10(2) == 100;
    DigitsOrder(y1, y2, 4);
    DigitsOrder(m1, m2, 2);
    var p, q := Digits(y1, 4), Digits(y2, 4);
    var s, t := "-" + Digits(m1, 2), "-" + Digits(m2, 2);
    assert MonthKeyOf(y1, m1) == p + s && MonthKeyOf(y2, m2) == q + t;
    LessConcat(p, s, q, t);
    LessConcat("-", Digits(m1, 2), "-", Digits(m2, 2));
    LessIrreflexive("-");
    if MonthKeyOf(y1, m1) == MonthKeyOf(y2, m2) {
      assert p == (p + s)[..4] && q == (q + t)[..4];
      assert Digits(m1, 2) == (p + s)[5..] && Digits(m2, 2) == (q + t)[5..];
    }
  }

  /** The purchase month of `t` as `to_period("M").astype(str)` writes it. */
  function MonthKey(t: Timestamp): (k: string)
    ensures |k| == 7 && k[4] == '-'
  {
    var c := CivilFromDays(DayNumber(t));
    YearRange(t);
    MonthKeyOf(c.year, c.month)
  }

  /** Month keys ascend exactly when months do, so ascending key order is chronological. */
  lemma MonthKeyChronological(t1: Timestamp, t2: Timestamp)
    ensures var c1, c2 := CivilFromDays(DayNumber(t1)), CivilFromDays(DayNumber(t2));
      (Less(MonthKey(t1), MonthKey(t2)) <==> MonthBefore(c1.year, c1.month, c2.year, c2.month))
      && (MonthKey(t1) == MonthKey(t2) <==> c1.year == c2.year && c1.month == c2.month)
  {
    YearRange(t1);
    YearRange(t2);
    var c1, c2 := CivilFromDays(DayNumber(t1)), CivilFromDays(DayNumber(t2));
    MonthKeyOrder(c1.year, c1.month, c2.year, c2.month);
  }

  /** A timestamp whose month key is smaller was taken strictly earlier. */
  lemma EarlierKeyEarlierTime(t1: Timestamp, t2: Timestamp)
    requires Less(MonthKey(t1), MonthKey(t2))
    ensures t1 < t2
  {
    MonthKeyChronological(t1, t2);
    var c1, c2 := CivilFromDays(DayNumber(t1)), CivilFromDays(DayNumber(t2));
    DaysOfEarlierMonth(c1, c2);
  }
}
