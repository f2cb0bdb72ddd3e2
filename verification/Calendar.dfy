/**
 The calendar arithmetic of MyTime.cpp: the closed formulas for days and dates, and a plain
 Gregorian calendar that counts year by year, month by month and day by day.
 */
module Calendar {
  import opened Bits

  // ---------- The Gregorian calendar, counted ----------

  datatype Date = Date(year: int, month: int, day: int)

  predicate IsLeap(y: int) {
    y % 4 == 0 && (y % 100 != 0 || y % 400 == 0)
  }

  function YearLength(y: int): int {
    if IsLeap(y) then 366 else 365
  }

  function MonthLength(y: int, m: int): (n: int)
    ensures 28 <= n <= 31
  {
    if m == 2 then (if IsLeap(y) then 29 else 28)
    else if m in {4, 6, 9, 11} then 30
    else 31
  }

  predicate ValidDate(a: Date) {
    1 <= a.month <= 12 && 1 <= a.day <= MonthLength(a.year, a.month)
  }

  const EPOCH_YEAR := 1970

  /** Days from 1 January 1970 to 1 January of the year. */
  function DaysToYear(y: int): int
    decreases if y >= EPOCH_YEAR then y - EPOCH_YEAR else EPOCH_YEAR - y
  {
    if y == EPOCH_YEAR then 0
    else if y > EPOCH_YEAR then DaysToYear(y - 1) + YearLength(y - 1)
    else DaysToYear(y + 1) - YearLength(y)
  }

  /** Days from 1 January to the first of the month. */
  function DaysToMonth(y: int, m: int): int
    requires 1 <= m <= 12
    decreases m
  {
    if m == 1 then 0 else DaysToMonth(y, m - 1) + MonthLength(y, m - 1)
  }

  /** The day before the first of January 1970 is -1. */
  function DayNumber(a: Date): int
    requires 1 <= a.month <= 12
  {
    DaysToYear(a.year) + DaysToMonth(a.year, a.month) + a.day - 1
  }

  function NextDay(a: Date): Date {
    if a.day < MonthLength(a.year, a.month) then Date(a.year, a.month, a.day + 1)
    else if a.month < 12 then Date(a.year, a.month + 1, 1)
    else Date(a.year + 1, 1, 1)
  }

  /** DayNumber counts the days one by one. */
  lemma DayByDay(a: Date)
    requires ValidDate(a)
    ensures ValidDate(NextDay(a)) && DayNumber(NextDay(a)) == DayNumber(a) + 1
    ensures DayNumber(Date(EPOCH_YEAR, 1, 1)) == 0
  {
    if a.month == 12 && a.day == 31 {
      YearStep(a.year);
      MonthTable(a.year, 12);
    }
  }

  lemma YearStep(y: int)
    ensures DaysToYear(y + 1) == DaysToYear(y) + YearLength(y)
  {
  }

  // ---------- Closed forms ----------

  /** Days from 1 March of year 0 to 1 March of year y. */
  function MarchDays(y: int): int {
    365 * y + y / 4 - y / 100 + y / 400
  }

  const EPOCH_ADJUSTMENT_DAYS := 719468
  const DAYS_PER_ERA := 146097

  lemma DivideStep(y: int, n: int)
    requires n > 1
    ensures (y + 1) / n == y / n + (if (y + 1) % n == 0 then 1 else 0)
  {
    var q, r := y / n, y % n;
    assert y == n * q + r;
    if r + 1 < n {
      DivideUnique(y + 1, n, q, r + 1);
    } else {
      assert y + 1 == n * (q + 1) by { MultiplyStep(n, q); }
      DivideUnique(y + 1, n, q + 1, 0);
    }
  }

  lemma MarchStep(y: int)
    ensures MarchDays(y + 1) == MarchDays(y) + YearLength(y + 1)
  {
    DivideStep(y, 4);
    DivideStep(y, 100);
    DivideStep(y, 400);
    Divides(y + 1);
  }

  lemma Divides(y: int)
    ensures y % 400 == 0 ==> y % 100 == 0
    ensures y % 100 == 0 ==> y % 4 == 0
  {
    if y % 400 == 0 {
      DivideUnique(y, 100, 4 * (y / 400), 0);
    }
    if y % 100 == 0 {
      DivideUnique(y, 4, 25 * (y / 100), 0);
    }
  }

  /** Counting years agrees with dividing: 1 January of y comes 306 days after the
      1 March before it. */
  lemma {:induction false} YearClosed(y: int)
    ensures DaysToYear(y) == MarchDays(y - 1) + 306 - EPOCH_ADJUSTMENT_DAYS
    decreases if y >= EPOCH_YEAR then y - EPOCH_YEAR else EPOCH_YEAR - y
  {
    hide MarchDays;
    if y == EPOCH_YEAR {
      EpochYear();
    } else if y > EPOCH_YEAR {
      YearClosed(y - 1);
      MarchStep(y - 2);
    } else {
      YearClosed(y + 1);
      MarchStep(y - 1);
    }
  }

  lemma EpochYear()
    ensures MarchDays(1969) + 306 == EPOCH_ADJUSTMENT_DAYS
  {
  }

  /** The 153-day rule: days from 1 March to the first of a month, March being month 0. */
  function MarchMonth(mp: int): int {
    (153 * mp + 2) / 5
  }

  lemma MonthTable(y: int, m: int)
    requires 1 <= m <= 12
    ensures m > 2 ==> DaysToMonth(y, m) == MarchMonth(m - 3) + DaysToMonth(y, 3)
    ensures m <= 2 ==> DaysToMonth(y, m) == MarchMonth(m + 9) - 306
    ensures DaysToMonth(y, 3) == 31 + MonthLength(y, 2)
    ensures DaysToMonth(y, 12) + 31 == YearLength(y)
  {
    MonthValues(y);
  }

  lemma MonthValues(y: int)
    ensures DaysToMonth(y, 1) == 0 && DaysToMonth(y, 2) == 31 && DaysToMonth(y, 3) == 31 + MonthLength(y, 2)
    ensures var march := DaysToMonth(y, 3);
            && DaysToMonth(y, 4) == march + 31 && DaysToMonth(y, 5) == march + 61 && DaysToMonth(y, 6) == march + 92
            && DaysToMonth(y, 7) == march + 122 && DaysToMonth(y, 8) == march + 153 && DaysToMonth(y, 9) == march + 184
            && DaysToMonth(y, 10) == march + 214 && DaysToMonth(y, 11) == march + 245
            && DaysToMonth(y, 12) == march + 275
  {
    assert DaysToMonth(y, 2) == 31;
    assert DaysToMonth(y, 4) == DaysToMonth(y, 3) + 31;
    assert DaysToMonth(y, 6) == DaysToMonth(y, 4) + 61;
    assert DaysToMonth(y, 8) == DaysToMonth(y, 6) + 61;
    assert DaysToMonth(y, 10) == DaysToMonth(y, 8) + 61;
    assert DaysToMonth(y, 12) == DaysToMonth(y, 10) + 61;
  }

  /** The year that begins in March, and its month. */
  function MarchYear(a: Date): int {
    if a.month <= 2 then a.year - 1 else a.year
  }

  function MonthFromMarch(m: int): int {
    if m > 2 then m - 3 else m + 9
  }

  lemma DayClosed(a: Date)
    requires 1 <= a.month <= 12
    ensures DayNumber(a) == MarchDays(MarchYear(a)) + MarchMonth(MonthFromMarch(a.month)) + a.day - 1
                            - EPOCH_ADJUSTMENT_DAYS
  {
    hide MarchDays, DaysToYear, DaysToMonth, MarchMonth;
    YearClosed(a.year);
    MarchStep(a.year - 1);
    MonthTable(a.year, a.month);
  }

  // ---------- days_from_civil ----------

  /** C's division, which truncates towards zero. */
  function Truncated(a: int, b: int): int
    requires b > 0
  {
    if a >= 0 then a / b else -((-a) / b)
  }

  /** C's remainder has the sign of the dividend. */
  function Remainder(a: int, b: int): int
    requires b > 0
  {
    a - b * Truncated(a, b)
  }

  function Shifted(y: int, m: int): int {
    if m <= 2 then y - 1 else y
  }

  function Era(y: int): int {
    Truncated(if y >= 0 then y else y - 399, 400)
  }

  /** Days in the first yoe years of an era, in uint32_t arithmetic like all that follows. */
  function YearDays(yoe: nat): nat {
    yoe * 365 + yoe / 4 - yoe / 100
  }

  function YearOfEra(y: int): nat {
    (y - Era(y) * 400) % U32
  }

  function MonthDays(m: nat): nat {
    var mp := (m + (if m > 2 then U32 - 3 else 9)) % U32;
    (153 * mp + 2) % U32 / 5
  }

  /** doe of the code */
  function DayOfEra(y: int, m: nat, d: nat): nat {
    var doy := (MonthDays(m) + d - 1) % U32;
    (YearDays(YearOfEra(Shifted(y, m))) + doy) % U32
  }

  /** The signed sum that days_from_civil and mktime form. */
  function SignedDays(y: int, m: nat, d: nat): int {
    Era(Shifted(y, m)) * DAYS_PER_ERA + ToSigned(DayOfEra(y, m, d), U32) - EPOCH_ADJUSTMENT_DAYS
  }

  /** None of the signed operations overflows. */
  predicate DaysDefined(y: int, m: nat, d: nat) {
    && Int32(y - 400)
    && Int32(y)
    && Int32(Era(Shifted(y, m)) * DAYS_PER_ERA)
    && Int32(Era(Shifted(y, m)) * DAYS_PER_ERA + ToSigned(DayOfEra(y, m, d), U32))
    && Int32(SignedDays(y, m, d))
  }

  /** days_from_civil */
  function DaysFromCivil(y: int, m: nat, d: nat): nat
    requires DaysDefined(y, m, d)
  {
    SignedDays(y, m, d) % U32
  }

  /** The era branch for negative years makes the truncating division a floor. */
  lemma EraFloor(y: int)
    ensures Era(y) == y / 400
    ensures y - Era(y) * 400 == y % 400
  {
    if y < 0 {
      var a := 399 - y;
      var q, r := a / 400, a % 400;
      assert a == 400 * q + r;
      assert y == 400 * (-q) + (399 - r);
      DivideUnique(y, 400, -q, 399 - r);
    }
  }

  /** A march year within its era. */
  lemma EraSplit(y: int)
    ensures var era, yoe := y / 400, y % 400;
            MarchDays(y) == era * DAYS_PER_ERA + yoe * 365 + yoe / 4 - yoe / 100
  {
    var era, yoe := y / 400, y % 400;
    assert y == 400 * era + yoe;
    DivideUnique(y, 4, 100 * era + yoe / 4, yoe % 4);
    DivideUnique(y, 100, 4 * era + yoe / 100, yoe % 100);
  }

  lemma SignedIs(x: int)
    requires Int32(x)
    ensures ToSigned(x % U32, U32) == x
  {
    if x < 0 {
      DivideUnique(x, U32, -1, x + U32);
    } else {
      DivideUnique(x, U32, 0, x);
    }
  }

  /** The day of the era is right modulo the word; while it fits a signed word it is right. */
  lemma DayOfEraIs(y: int, m: nat, d: nat)
    requires 1 <= m <= 12
    ensures var doe := YearDays(Shifted(y, m) % 400) + MarchMonth(MonthFromMarch(m)) + d - 1;
            DayOfEra(y, m, d) == doe % U32 && (Int32(doe) ==> ToSigned(DayOfEra(y, m, d), U32) == doe)
  {
    YearOfEraIs(Shifted(y, m));
    MonthDaysIs(m);
    hide ToSigned, YearDays, YearOfEra, MonthDays, MarchMonth, MonthFromMarch, Shifted;
    var base := YearDays(Shifted(y, m) % 400);
    var doy := MonthDays(m) + d - 1;
    WrapSum(doy, base);
    if Int32(base + doy) {
      SignedIs(base + doy);
    }
  }

  lemma YearOfEraIs(y: int)
    ensures YearOfEra(y) == y % 400 && YearDays(y % 400) <= 146096
  {
    EraFloor(y);
    hide Era;
  }

  /** The unsigned month arithmetic does not wrap in the end. */
  lemma MonthDaysIs(m: nat)
    requires 1 <= m <= 12
    ensures MonthDays(m) == MarchMonth(MonthFromMarch(m)) <= 337
  {
    var mp := MonthFromMarch(m);
    if m > 2 {
      DivideUnique(m + U32 - 3, U32, 1, mp);
    } else {
      DivideUnique(m + 9, U32, 0, mp);
    }
    DivideUnique(153 * mp + 2, U32, 0, 153 * mp + 2);
  }

  /** The signed sum is the plain day count, before as well as after year 0 and 1970, modulo
      the word; it is exactly that unless the day of the month is beyond a signed word. */
  lemma SignedDaysCorrect(y: int, m: nat, d: nat)
    requires 1 <= m <= 12
    ensures SignedDays(y, m, d) % U32 == DayNumber(Date(y, m, d)) % U32
    ensures d < 0x7000_0000 ==> SignedDays(y, m, d) == DayNumber(Date(y, m, d))
  {
    DayClosed(Date(y, m, d));
    MonthDaysIs(m);
    YearOfEraIs(Shifted(y, m));
    hide DayNumber, MarchMonth, MarchDays, DayOfEra, Era, ToSigned, YearOfEra, MonthDays;
    DayOfEraIs(y, m, d);
    EraFloor(Shifted(y, m));
    EraSplit(Shifted(y, m));
    var doe := YearDays(Shifted(y, m) % 400) + MarchMonth(MonthFromMarch(m)) + d - 1;
    SignedSum(Era(Shifted(y, m)) * DAYS_PER_ERA - EPOCH_ADJUSTMENT_DAYS, doe);
  }

  /** days_from_civil is the plain day count, as a uint32_t. */
  lemma DaysFromCivilCorrect(y: int, m: nat, d: nat)
    requires 1 <= m <= 12 && DaysDefined(y, m, d)
    ensures DaysFromCivil(y, m, d) == DayNumber(Date(y, m, d)) % U32
    ensures Int32(DayNumber(Date(y, m, d))) ==> ToSigned(DaysFromCivil(y, m, d), U32) == DayNumber(Date(y, m, d))
  {
    hide SignedDays, DayNumber;
    SignedDaysCorrect(y, m, d);
    if Int32(DayNumber(Date(y, m, d))) {
      SignedIs(DayNumber(Date(y, m, d)));
    }
  }

  // ---------- Weekdays ----------

  /** 1 January 1970 was a Thursday; Sunday is 0. */
  function Weekday(n: int): (w: int)
    ensures 0 <= w <= 6
  {
    (n + 4) % 7
  }

  /** weekday_from_days */
  function WeekdayFromDays(z: int): nat {
    (if z >= -4 then Remainder(z + 4, 7) else Remainder(z + 5, 7) + 6) % U8
  }

  /** The weekdays follow each other, day by day in both directions, from Thursday, 1 January
      1970. */
  lemma WeekdayCorrect(z: int)
    ensures WeekdayFromDays(z) == Weekday(z)
    ensures WeekdayFromDays(0) == 4 && WeekdayFromDays(z) <= 6
    ensures WeekdayFromDays(z + 1) == if WeekdayFromDays(z) == 6 then 0 else WeekdayFromDays(z) + 1
  {
    WeekdayIs(0);
    WeekdayIs(z);
    WeekdayIs(z + 1);
    hide WeekdayFromDays;
    var q, r := (z + 4) / 7, (z + 4) % 7;
    if r == 6 {
      DivideUnique(z + 5, 7, q + 1, 0);
    } else {
      DivideUnique(z + 5, 7, q, r + 1);
    }
  }

  lemma WeekdayIs(z: int)
    ensures WeekdayFromDays(z) == Weekday(z)
  {
    if z >= -4 {
      assert Remainder(z + 4, 7) == (z + 4) % 7;
    } else {
      var a := -(z + 5);
      var q, r := a / 7, a % 7;
      assert a == 7 * q + r;
      assert Remainder(z + 5, 7) == -r;
      assert z + 4 == 7 * (-q - 1) + (6 - r);
      DivideUnique(z + 4, 7, -q - 1, 6 - r);
    }
  }

  /** weekdaydifference, on unsigned ints */
  function WeekdayDifference(x: nat, y: nat): nat {
    var w := (x - y) % U32;
    (if w <= 6 then w else (w + 7) % U32) % U8
  }

  lemma WeekdayDifferenceCorrect(x: nat, y: nat)
    requires x <= 6 && y <= 6
    ensures WeekdayDifference(x, y) <= 6 && (y + WeekdayDifference(x, y)) % 7 == x
  {
    if x < y {
      DivideUnique(x - y, U32, -1, x - y + U32);
      DivideUnique(x - y + U32 + 7, U32, 1, x - y + 7);
    }
  }

  function LastDayOfMonth(y: int, m: nat): nat
    requires 1 <= m <= 12
  {
    var a := [31, 28, 31, 30, 31, 30, 31, 31, 30, 31, 30, 31];
    if m != 2 || !IsLeap(y) then a[m - 1] else 29
  }

  lemma LastDayCorrect(y: int, m: nat)
    requires 1 <= m <= 12
    ensures LastDayOfMonth(y, m) == MonthLength(y, m)
  {
  }

  /** get_nth_dow_month_year */
  function NthWeekday(n: nat, wd: nat, month: nat, year: int): nat
    requires 1 <= month <= 12 && DaysDefined(year, month, 1)
  {
    var first := WeekdayFromDays(ToSigned(DaysFromCivil(year, month, 1), U32));
    var day := (WeekdayDifference(wd, first) + 1 + (n - 1) * 7) % U8;
    if day > LastDayOfMonth(year, month) then (day - 7) % U8 else day
  }

  /** How many of the first d days of the month fall on the weekday. */
  function Occurrences(y: int, m: int, wd: int, d: nat): nat
    requires 1 <= m <= 12
    decreases d
  {
    if d == 0 then 0
    else Occurrences(y, m, wd, d - 1) + (if Weekday(DayNumber(Date(y, m, d))) == wd then 1 else 0)
  }

  lemma WeekdayShift(n: int, d: int)
    ensures Weekday(n + d) == (Weekday(n) + d) % 7
  {
    var a := n + 4;
    var w := a % 7 + d;
    assert a == 7 * (a / 7) + a % 7 && w == 7 * (w / 7) + w % 7;
    DivideUnique(a + d, 7, a / 7 + w / 7, w % 7);
  }

  /** Day d of a month falls on a weekday when its distance from the first such day is a
      number of whole weeks. */
  lemma {:induction false} OccurrencesCount(y: int, m: int, wd: int, k: nat, d: nat)
    requires 1 <= m <= 12 && 0 <= wd <= 6 && k <= 6
    requires Weekday(DayNumber(Date(y, m, 1)) + k) == wd
    ensures Occurrences(y, m, wd, d) == if d <= k then 0 else (d - k - 1) / 7 + 1
    decreases d
  {
    hide DayNumber, Weekday;
    if d > 0 {
      OccurrencesCount(y, m, wd, k, d - 1);
      OnWeekday(y, m, wd, k, d);
      if d > k + 1 {
        DivideStep(d - k - 2, 7);
      }
    }
  }

  lemma OnWeekday(y: int, m: int, wd: int, k: nat, d: nat)
    requires 1 <= m <= 12 && 0 <= wd <= 6 && Weekday(DayNumber(Date(y, m, 1)) + k) == wd
    ensures Weekday(DayNumber(Date(y, m, d))) == wd <==> (d - 1 - k) % 7 == 0
  {
    assert DayNumber(Date(y, m, d)) == DayNumber(Date(y, m, 1)) + k + (d - 1 - k);
    hide DayNumber, Weekday;
    WeekdayShift(DayNumber(Date(y, m, 1)) + k, d - 1 - k);
    SameWeekday(wd, d - 1 - k);
  }

  lemma SameWeekday(wd: int, e: int)
    requires 0 <= wd <= 6
    ensures (wd + e) % 7 == wd <==> e % 7 == 0
  {
    var q, r := e / 7, e % 7;
    assert e == 7 * q + r;
    if wd + r < 7 {
      DivideUnique(wd + e, 7, q, wd + r);
    } else {
      DivideUnique(wd + e, 7, q + 1, wd + r - 7);
    }
  }

  /** The result is a day of the month that falls on the weekday; it is the nth one, or the
      last one when n is 5. */
  lemma NthWeekdayCorrect(n: nat, wd: nat, month: nat, year: int)
    requires 1 <= n <= 5 && wd <= 6 && 1 <= month <= 12 && DaysDefined(year, month, 1)
    ensures var day := NthWeekday(n, wd, month, year);
            && ValidDate(Date(year, month, day))
            && Weekday(DayNumber(Date(year, month, day))) == wd
            && (n <= 4 ==> Occurrences(year, month, wd, day) == n)
            && (n == 5 ==> forall later :: day < later <= MonthLength(year, month)
                                           ==> Weekday(DayNumber(Date(year, month, later))) != wd)
  {
    hide DaysFromCivil, DaysDefined, Weekday, DayNumber, Occurrences;
    var day := NthWeekday(n, wd, month, year);
    var k := FirstWeekday(n, wd, month, year);
    NthDay(n, k, MonthLength(year, month), day);
    OccurrencesCount(year, month, wd, k, day);
    OnWeekday(year, month, wd, k, day);
    forall later | day < later <= MonthLength(year, month) && n == 5
      ensures Weekday(DayNumber(Date(year, month, later))) != wd
    {
      OnWeekday(year, month, wd, k, later);
      NotWholeWeeks(day - 1 - k, later - day);
    }
  }

  /** How far into the month its first day of that weekday is. */
  lemma FirstWeekday(n: nat, wd: nat, month: nat, year: int) returns (k: nat)
    requires 1 <= n <= 5 && wd <= 6 && 1 <= month <= 12 && DaysDefined(year, month, 1)
    ensures k <= 6 && Weekday(DayNumber(Date(year, month, 1)) + k) == wd
    ensures NthWeekday(n, wd, month, year)
         == var w := (k + 1 + (n - 1) * 7) % U8; if w > MonthLength(year, month) then (w - 7) % U8 else w
  {
    hide DaysFromCivil, DaysDefined, DayNumber, Weekday, WeekdayDifference, NthWeekday;
    var z := DayNumber(Date(year, month, 1));
    k := WeekdayDifference(wd, Weekday(z));
    WeekdayDifferenceCorrect(wd, Weekday(z));
    WeekdayShift(z, k);
    NthWeekdayIs(n, wd, month, year);
  }

  /** The formula, with the weekday of the first and the month's length in plain terms. */
  lemma NthWeekdayIs(n: nat, wd: nat, month: nat, year: int)
    requires 1 <= n && 1 <= month <= 12 && DaysDefined(year, month, 1)
    ensures var k := WeekdayDifference(wd, Weekday(DayNumber(Date(year, month, 1))));
            NthWeekday(n, wd, month, year)
            == var w := (k + 1 + (n - 1) * 7) % U8; if w > MonthLength(year, month) then (w - 7) % U8 else w
  {
    FirstOfMonth(month, year);
    LastDayCorrect(year, month);
    hide ToSigned, DaysFromCivil, DaysDefined, WeekdayFromDays, DayNumber, LastDayOfMonth, MonthLength, Weekday,
         WeekdayDifference;
  }

  lemma FirstOfMonth(month: nat, year: int)
    requires 1 <= month <= 12 && DaysDefined(year, month, 1)
    ensures WeekdayFromDays(ToSigned(DaysFromCivil(year, month, 1), U32)) == Weekday(DayNumber(Date(year, month, 1)))
  {
    SignedDaysCorrect(year, month, 1);
    assert Int32(SignedDays(year, month, 1));
    DaysFromCivilCorrect(year, month, 1);
    hide DayNumber, SignedDays, DaysDefined, DaysFromCivil, ToSigned, Weekday, WeekdayFromDays;
    WeekdayCorrect(DayNumber(Date(year, month, 1)));
  }

  lemma NotWholeWeeks(e: int, g: int)
    requires e % 7 == 0 && 0 < g < 7
    ensures (e + g) % 7 == g
  {
    assert e == 7 * (e / 7);
    DivideUnique(e + g, 7, e / 7, g);
  }

  lemma NthDay(n: nat, k: nat, length: int, day: nat)
    requires 1 <= n <= 5 && k <= 6 && 28 <= length <= 31
    requires day == (var w := (k + 1 + (n - 1) * 7) % U8; if w > length then (w - 7) % U8 else w)
    ensures 1 <= day <= length && (day - 1 - k) % 7 == 0 && day > k
    ensures n <= 4 ==> (day - k - 1) / 7 + 1 == n
    ensures n == 5 ==> day + 7 > length
  {
    assert (k + 1 + (n - 1) * 7) % U8 == k + 1 + (n - 1) * 7;
  }
}
