/**
 mktime, localtime and daylight saving time of MyTime.cpp.
 */
module Clock {
  import opened Bits
  import opened Calendar

  const SECSPERDAY := 86400

  // ---------- The order of dates ----------

  lemma {:induction false} LaterYear(a: int, b: int)
    requires a < b
    ensures DaysToYear(b) >= DaysToYear(a) + YearLength(a)
    decreases b - a
  {
    YearStep(b - 1);
    if a < b - 1 {
      LaterYear(a, b - 1);
    }
  }

  lemma {:induction false} LaterMonth(y: int, a: int, b: int)
    requires 1 <= a < b <= 12
    ensures DaysToMonth(y, b) >= DaysToMonth(y, a) + MonthLength(y, a)
    decreases b - a
  {
    if a < b - 1 {
      LaterMonth(y, a, b - 1);
    }
  }

  /** A date lies within its year. */
  lemma WithinYear(a: Date)
    requires ValidDate(a)
    ensures 0 <= DayNumber(a) - DaysToYear(a.year) < YearLength(a.year)
  {
    MonthTable(a.year, 12);
    hide YearLength;
    if a.month > 1 {
      LaterMonth(a.year, 1, a.month);
    }
    if a.month < 12 {
      LaterMonth(a.year, a.month, 12);
    }
  }

  /** Different dates have different day numbers. */
  lemma DayNumberInjective(a: Date, b: Date)
    requires ValidDate(a) && ValidDate(b) && DayNumber(a) == DayNumber(b)
    ensures a == b
  {
    WithinYear(a);
    WithinYear(b);
    hide YearLength, MonthLength, DaysToYear, DaysToMonth;
    if a.year != b.year {
      LaterYear(if a.year < b.year then a.year else b.year, if a.year < b.year then b.year else a.year);
    } else if a.month < b.month {
      LaterMonth(a.year, a.month, b.month);
    } else if b.month < a.month {
      LaterMonth(a.year, b.month, a.month);
    }
  }

  // ---------- mktime ----------

  function SignedTime(y: int, m: nat, d: nat, hour: nat, minute: nat, second: nat): int {
    SignedDays(y, m, d) * SECSPERDAY + hour * 3600 + minute * 60 + second
  }

  /** No signed operation of mktime overflows: long has 32 bits. */
  predicate TimeDefined(y: int, m: nat, d: nat, hour: nat, minute: nat, second: nat) {
    && DaysDefined(y, m, d)
    && Int32(SignedDays(y, m, d) * SECSPERDAY)
    && Int32(SignedTime(y, m, d, hour, minute, second))
  }

  /** mktime */
  function MkTime(y: int, m: nat, d: nat, hour: nat, minute: nat, second: nat): nat
    requires TimeDefined(y, m, d, hour, minute, second)
  {
    SignedTime(y, m, d, hour, minute, second) % U32
  }

  /** Seconds from the epoch, by the plain day count. */
  function Seconds(y: int, m: int, d: int, hour: int, minute: int, second: int): int
    requires 1 <= m <= 12
  {
    DayNumber(Date(y, m, d)) * SECSPERDAY + hour * 3600 + minute * 60 + second
  }

  /** They are counted one by one, from 00:00:00 on 1 January 1970. */
  lemma SecondBySecond(a: Date, hour: nat, minute: nat, second: nat)
    requires ValidDate(a) && hour < 24 && minute < 60 && second < 60
    ensures Seconds(1970, 1, 1, 0, 0, 0) == 0
    ensures Seconds(a.year, a.month, a.day, hour, minute, second) + 1
         == if second < 59 then Seconds(a.year, a.month, a.day, hour, minute, second + 1)
            else if minute < 59 then Seconds(a.year, a.month, a.day, hour, minute + 1, 0)
            else if hour < 23 then Seconds(a.year, a.month, a.day, hour + 1, 0, 0)
            else Seconds(NextDay(a).year, NextDay(a).month, NextDay(a).day, 0, 0, 0)
  {
    EpochDays();
    DayByDay(a);
    hide DayNumber;
    assert DayNumber(Date(1970, 1, 1)) == 0 by {
      DayByDay(Date(1970, 1, 1));
    }
  }

  lemma YearsOfTime(y: int)
    ensures y < 1970 ==> DaysToYear(y) + YearLength(y) <= 0
    ensures y > 2038 ==> DaysToYear(y) > 25000
    ensures y >= 1970 ==> DaysToYear(y) >= 0
    ensures y <= 2037 ==> DaysToYear(y) + YearLength(y) <= 24837
  {
    YearClosed(2039);
    YearClosed(2038);
    hide DaysToYear, YearLength;
    EpochDays();
    if y < 1970 {
      LaterYear(y, 1970);
    }
    if y > 1970 {
      LaterYear(1970, y);
      LengthBounds(1970);
    }
    if y > 2039 {
      LaterYear(2039, y);
      LengthBounds(2039);
    }
    if y < 2038 {
      LaterYear(y, 2038);
    }
  }

  lemma EpochDays()
    ensures DaysToYear(1970) == 0
  {
  }

  lemma LengthBounds(y: int)
    ensures 365 <= YearLength(y) <= 366
  {
  }

  /** Whenever no signed operation overflows, mktime is the plain count of seconds, as a
      uint32_t; the day may also be 0, which stands for the last day of the month before. */
  lemma MkTimeCorrect(y: int, m: nat, d: nat, hour: nat, minute: nat, second: nat)
    requires 1 <= m <= 12 && TimeDefined(y, m, d, hour, minute, second)
    ensures MkTime(y, m, d, hour, minute, second) == Seconds(y, m, d, hour, minute, second) % U32
  {
    SignedDaysCorrect(y, m, d);
    hide SignedDays, DayNumber, DaysDefined;
    SameWord(SignedDays(y, m, d), DayNumber(Date(y, m, d)), hour * 3600 + minute * 60 + second);
  }

  lemma SameWord(a: int, b: int, c: int)
    requires a % U32 == b % U32
    ensures (a * SECSPERDAY + c) % U32 == (b * SECSPERDAY + c) % U32
  {
    var k := a / U32 - b / U32;
    var x := b * SECSPERDAY + c;
    assert a == b + U32 * k;
    assert x == U32 * (x / U32) + x % U32;
    DivideUnique(a * SECSPERDAY + c, U32, x / U32 + k * SECSPERDAY, x % U32);
  }

  /** None overflows while the seconds fit 32 bits, that is from December 1901 to January 2038. */
  lemma MkTimeDefined(y: int, m: nat, d: nat, hour: nat, minute: nat, second: nat)
    requires 1 <= m <= 12 && d <= 31
    requires Int32(DayNumber(Date(y, m, d)) * SECSPERDAY) && Int32(Seconds(y, m, d, hour, minute, second))
    ensures TimeDefined(y, m, d, hour, minute, second)
  {
    YearWithin(y, m, d);
    SignedDaysCorrect(y, m, d);
    hide DayNumber, SignedDays;
    SmallYear(y, m, d);
  }

  lemma YearWithin(y: int, m: nat, d: nat)
    requires 1 <= m <= 12 && d <= 31 && -24855 <= DayNumber(Date(y, m, d)) <= 24855
    ensures 1901 <= y <= 2038
  {
    MonthTable(y, 12);
    YearsOfTime(y);
    YearClosed(1900);
    hide DaysToYear, YearLength;
    if m > 1 {
      LaterMonth(y, 1, m);
    }
    if m < 12 {
      LaterMonth(y, m, 12);
    }
    hide DaysToMonth, MonthLength;
    LengthBounds(y);
    if y < 1900 {
      LaterYear(y, 1900);
    }
  }

  lemma SmallYear(y: int, m: nat, d: nat)
    requires 1 <= m <= 12 && d <= 31 && 1901 <= y <= 2038 && Int32(SignedDays(y, m, d))
    ensures DaysDefined(y, m, d)
  {
    EraFloor(Shifted(y, m));
    YearOfEraIs(Shifted(y, m));
    MonthDaysIs(m);
    hide Era, MonthDays, YearOfEra, MarchMonth;
    DayOfEraIs(y, m, d);
    hide DayOfEra;
  }

  /** From 1970 on the result is the count itself. */
  lemma MkTimeExact(y: int, m: nat, d: nat, hour: nat, minute: nat, second: nat)
    requires 1 <= m <= 12 && d <= 31
    requires DayNumber(Date(y, m, d)) >= 0 && Seconds(y, m, d, hour, minute, second) < 0x8000_0000
    ensures TimeDefined(y, m, d, hour, minute, second)
    ensures MkTime(y, m, d, hour, minute, second) == Seconds(y, m, d, hour, minute, second)
  {
    hide DayNumber, TimeDefined, MkTime;
    MkTimeDefined(y, m, d, hour, minute, second);
    MkTimeCorrect(y, m, d, hour, minute, second);
    var t := Seconds(y, m, d, hour, minute, second);
    DivideUnique(t, U32, 0, t);
  }

  // ---------- localtime ----------

  /** struct tmx */
  datatype Tm = Tm(sec: int, min: int, hour: int, mday: int, mon: int, year: int, wday: int, yday: int, isdst: bool)

  function DateOf(t: Tm): Date {
    Date(t.year + 1900, t.mon + 1, t.mday)
  }

  /** The fields are the date and time of day that a clock at `reading` shows. */
  predicate Shows(t: Tm, reading: int) {
    && ValidDate(DateOf(t)) && 0 <= t.hour < 24 && 0 <= t.min < 60 && 0 <= t.sec < 60
    && DayNumber(DateOf(t)) * SECSPERDAY + t.hour * 3600 + t.min * 60 + t.sec == reading
    && t.wday == Weekday(DayNumber(DateOf(t)))
    && t.yday == DayNumber(DateOf(t)) - DayNumber(Date(t.year + 1900, 1, 1))
  }

  /** A clock shows one thing only. */
  lemma ShowsOne(a: Tm, b: Tm, reading: int)
    requires Shows(a, reading) && Shows(b, reading) && a.isdst == b.isdst
    ensures a == b
  {
    hide DayNumber, Weekday;
    var da, db := DayNumber(DateOf(a)), DayNumber(DateOf(b));
    DivideUnique(reading, SECSPERDAY, da, a.hour * 3600 + a.min * 60 + a.sec);
    DivideUnique(reading, SECSPERDAY, db, b.hour * 3600 + b.min * 60 + b.sec);
    DayNumberInjective(DateOf(a), DateOf(b));
    SameTime(a.hour, a.min, a.sec, b.hour, b.min, b.sec);
  }

  lemma SameTime(h: int, m: int, s: int, h': int, m': int, s': int)
    requires 0 <= m < 60 && 0 <= s < 60 && 0 <= m' < 60 && 0 <= s' < 60
    requires h * 3600 + m * 60 + s == h' * 3600 + m' * 60 + s'
    ensures h == h' && m == m' && s == s'
  {
  }

  /** The year within an era, from the day within it. */
  function EraYear(eraday: int): int
    requires 0 <= eraday < DAYS_PER_ERA
  {
    (eraday - eraday / 1460 + eraday / 36524 - eraday / 146096) / 365
  }

  /** Day e of an era is day yd of year 100 c + 4 q + r. */
  predicate EraParts(e: int, c: int, q: int, r: int, yd: int) {
    && 0 <= c <= 3 && 0 <= q <= 24 && 0 <= r <= 3 && 0 <= yd <= 365
    && e == 36524 * c + 1461 * q + 365 * r + yd
    && (yd == 365 ==> r == 3 && (q == 24 ==> c == 3))
  }

  /** Every day of an era is. */
  lemma EraDayParts(e: int) returns (c: int, q: int, r: int, yd: int)
    requires 0 <= e < DAYS_PER_ERA
    ensures EraParts(e, c, q, r, yd)
  {
    c := if e / 36524 == 4 then 3 else e / 36524;
    var inCentury := e - 36524 * c;
    q := inCentury / 1461;
    var inFour := inCentury - 1461 * q;
    r := if inFour / 365 == 4 then 3 else inFour / 365;
    yd := inFour - 365 * r;
  }

  lemma Centuries(e: int, c: int, q: int, r: int, yd: int)
    requires EraParts(e, c, q, r, yd)
    ensures 0 <= e < DAYS_PER_ERA && e / 36524 - e / 146096 == c
  {
    var rest := 1461 * q + 365 * r + yd;
    if rest < 36524 {
      DivideUnique(e, 36524, c, rest);
      DivideUnique(e, 146096, 0, e);
    } else {
      DivideUnique(e, 36524, 4, 0);
      DivideUnique(e, 146096, 1, 0);
    }
  }

  lemma FourYears(e: int, c: int, q: int, r: int, yd: int)
    requires EraParts(e, c, q, r, yd)
    ensures e / 1460 == 25 * c + q + if yd == 365 || 24 * c + q + 365 * r + yd >= 1460 then 1 else 0
  {
    var s := 24 * c + q + 365 * r + yd;
    var extra := if s >= 1460 then 1 else 0;
    DivideUnique(e, 1460, 25 * c + q + extra, s - 1460 * extra);
  }

  /** The three corrections of the division by 365 give exactly that year. */
  lemma EraYearIs(e: int, c: int, q: int, r: int, yd: int)
    requires EraParts(e, c, q, r, yd)
    ensures 0 <= e < DAYS_PER_ERA && EraYear(e) == 100 * c + 4 * q + r
    ensures YearDays(EraYear(e)) == e - yd
  {
    Centuries(e, c, q, r, yd);
    FourYears(e, c, q, r, yd);
    var y := 100 * c + 4 * q + r;
    var n := e - e / 1460 + e / 36524 - e / 146096;
    var extra := e / 1460 - 25 * c - q;
    assert n == 365 * y + (yd - extra);
    DivideUnique(n, 365, y, yd - extra);
    YearDaysOf(c, q, r);
  }

  lemma YearDaysOf(c: int, q: int, r: int)
    requires 0 <= c <= 3 && 0 <= q <= 24 && 0 <= r <= 3
    ensures YearDays(100 * c + 4 * q + r) == 36524 * c + 1461 * q + 365 * r
  {
    DivideUnique(100 * c + 4 * q + r, 4, 25 * c + q, r);
    DivideUnique(100 * c + 4 * q + r, 100, c, 4 * q + r);
  }

  lemma EraYearRange(eraday: int)
    requires 0 <= eraday < DAYS_PER_ERA
    ensures 0 <= EraYear(eraday) <= 399 && 0 <= eraday - YearDays(EraYear(eraday)) <= 365
    ensures eraday - YearDays(EraYear(eraday)) == 365 ==> IsLeap(EraYear(eraday) + 1)
  {
    hide EraYear, YearDays, IsLeap;
    var c, q, r, yd := EraDayParts(eraday);
    EraYearIs(eraday, c, q, r, yd);
    if yd == 365 {
      LeapAtEnd(c, q);
    }
  }

  /** Day `eraday` of an era is day `yearday` of its march year. */
  lemma EraYearCorrect(era: int, eraday: int)
    requires 0 <= eraday < DAYS_PER_ERA
    ensures 0 <= EraYear(eraday) <= 399 && 0 <= eraday - YearDays(EraYear(eraday)) <= 365
    ensures var y := era * 400 + EraYear(eraday);
            && MarchDays(y) + (eraday - YearDays(EraYear(eraday))) == era * DAYS_PER_ERA + eraday
            && (eraday - YearDays(EraYear(eraday)) == 365 ==> IsLeap(y + 1))
            && (IsLeap(EraYear(eraday)) <==> IsLeap(y))
  {
    hide EraYear, YearDays, MarchDays, IsLeap;
    EraYearRange(eraday);
    var year := EraYear(eraday);
    LeapPeriod(era, year);
    LeapPeriod(era, year + 1);
    EraYearDays(era, year);
  }

  lemma EraYearDays(era: int, year: int)
    requires 0 <= year <= 399
    ensures MarchDays(era * 400 + year) == era * DAYS_PER_ERA + YearDays(year)
  {
    DivideUnique(era * 400 + year, 400, era, year);
    EraSplit(era * 400 + year);
    hide MarchDays;
  }

  lemma LeapAtEnd(c: int, q: int)
    requires 0 <= c <= 3 && 0 <= q <= 24 && (q == 24 ==> c == 3)
    ensures IsLeap(100 * c + 4 * q + 3 + 1)
  {
    var y := 100 * c + 4 * q + 4;
    DivideUnique(y, 4, 25 * c + q + 1, 0);
    if q < 24 {
      DivideUnique(y, 100, c, 4 * q + 4);
    }
  }

  lemma LeapPeriod(era: int, y: int)
    ensures IsLeap(era * 400 + y) <==> IsLeap(y)
  {
    SamePeriod(era, 4, 100, y);
    SamePeriod(era, 100, 4, y);
    SamePeriod(era, 400, 1, y);
  }

  lemma SamePeriod(era: int, n: int, k: int, y: int)
    requires n > 0 && n * k == 400
    ensures (era * 400 + y) % n == y % n
  {
    var q, r := y / n, y % n;
    assert y == n * q + r;
    assert n * (k * era + q) == (n * k) * era + n * q;
    DivideUnique(era * 400 + y, n, k * era + q, r);
  }

  /** Month (March being 0) and day of the month, from the day of the march year. */
  lemma MonthOfYear(yd: int)
    requires 0 <= yd <= 365
    ensures var mp := (5 * yd + 2) / 153;
            var day := yd - (153 * mp + 2) / 5 + 1;
            && 0 <= mp <= 11 && 1 <= day
            && day <= (if mp == 11 then (if yd == 365 then 29 else 28) else if mp in {1, 3, 6, 8} then 30 else 31)
            && MarchMonth(mp) == yd + 1 - day
            && (mp >= 10 <==> yd >= 306)
  {
  }

  /** The calendar part of localtime: from days since the epoch to the date. */
  method CivilFromDays(count: nat) returns (year: int, month: int, day: int, yday: int)
    ensures ValidDate(Date(year, month + 1, day)) && DayNumber(Date(year, month + 1, day)) == count
    ensures yday == count - DayNumber(Date(year, 1, 1))
  {
    hide EraYear, DayNumber, MarchDays, YearDays, MonthLength, IsLeap;
    var days := count + EPOCH_ADJUSTMENT_DAYS;
    var era := days / DAYS_PER_ERA;
    var eraday := days - era * DAYS_PER_ERA;
    var erayear := EraYear(eraday);
    EraYearCorrect(era, eraday);
    YearDaysIs(erayear);
    var yearday := eraday - (365 * erayear + erayear / 4 - erayear / 100);
    month := (5 * yearday + 2) / 153;
    day := yearday - (153 * month + 2) / 5 + 1;
    MonthOfYear(yearday);
    ghost var mp, y := month, era * 400 + erayear;
    month := month + (if month < 10 then 2 else -10);
    year := erayear + era * 400 + (if month <= 1 then 1 else 0);
    yday := if yearday >= 306 then yearday - 306
            else yearday + 31 + 28 + (if IsLeap(erayear) then 1 else 0);
    MarchLengths(year, month + 1);
    DayClosed(Date(year, month + 1, day));
    FirstOfYear(y, yearday);
  }

  lemma YearDaysIs(y: nat)
    ensures YearDays(y) == 365 * y + y / 4 - y / 100
  {
  }

  lemma MarchLengths(y: int, m: int)
    requires 1 <= m <= 12
    ensures var mp := MonthFromMarch(m);
            MonthLength(y, m) == if mp == 11 then (if IsLeap(y) then 29 else 28)
                                 else if mp in {1, 3, 6, 8} then 30 else 31
  {
  }

  /** 1 January, seen from a day of a march year. */
  lemma FirstOfYear(y: int, yearday: int)
    ensures DayNumber(Date(y, 1, 1)) == MarchDays(y) - (59 + if IsLeap(y) then 1 else 0) - EPOCH_ADJUSTMENT_DAYS
    ensures DayNumber(Date(y + 1, 1, 1)) == MarchDays(y) + 306 - EPOCH_ADJUSTMENT_DAYS
  {
    DayClosed(Date(y, 1, 1));
    DayClosed(Date(y + 1, 1, 1));
    MarchStep(y - 1);
  }
}
