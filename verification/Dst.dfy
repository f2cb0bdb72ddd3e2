/**
 Local time and daylight saving time of MyTime.cpp: the class Time, and which local clock
 readings exist while its rules are in force.
 */
module Dst {
  import opened Bits
  import opened Calendar
  import opened Clock

  /** A rule: at a full hour of the nth (5 means last) weekday of a month. */
  datatype Rule = Rule(week: nat, weekday: nat, month: nat, hour: nat)

  predicate ValidRule(r: Rule) {
    1 <= r.week <= 5 && r.weekday <= 6 && 1 <= r.month <= 12 && r.hour <= 23
  }

  /** The settings of a Time object with daylight saving; the offset is in hours. */
  datatype Zone = Zone(offset: int, begin: Rule, end: Rule)

  predicate ValidZone(z: Zone) {
    -24 < z.offset < 24 && ValidRule(z.begin) && ValidRule(z.end)
  }

  /** Years whose every second, in any zone, lies within 31 bits. */
  predicate ValidYear(y: int) {
    1971 <= y <= 2037
  }

  lemma YearDefined(y: int, m: nat, d: nat)
    requires ValidYear(y) && 1 <= m <= 12 && d <= 31
    ensures DaysDefined(y, m, d)
  {
    EraFloor(Shifted(y, m));
    hide Era;
    DayOfEraIs(y, m, d);
    hide DayOfEra;
  }

  function RuleDay(r: Rule, y: int): nat
    requires ValidRule(r) && ValidYear(y)
  {
    YearDefined(y, r.month, 1);
    NthWeekday(r.week, r.weekday, r.month, y)
  }

  /** What the clock in force shows when the rule takes effect. */
  function RuleReading(r: Rule, y: int): int
    requires ValidRule(r) && ValidYear(y)
  {
    Seconds(y, r.month, RuleDay(r, y), r.hour, 0, 0)
  }

  /** utc_hour, an int8_t, and whether it borrows a day. */
  function UtcHour(r: Rule, offset: int, dstOffset: nat): int {
    ToSigned((r.hour - offset - dstOffset) % U8, U8)
  }

  lemma UtcHourIs(r: Rule, offset: int, dstOffset: nat)
    requires ValidRule(r) && -24 < offset < 24 && dstOffset <= 1
    ensures UtcHour(r, offset, dstOffset) == r.hour - offset - dstOffset
  {
    var h := r.hour - offset - dstOffset;
    DivideUnique(h, U8, if h < 0 then -1 else 0, if h < 0 then h + U8 else h);
  }

  /** The date and time that get_dst_time passes to mktime are defined, and mean the rule's
      reading less the offset: borrowing 24 hours costs a day, down to day 0. */
  lemma RuleInstant(r: Rule, offset: int, dstOffset: nat, y: int)
    requires ValidRule(r) && -24 < offset < 24 && dstOffset <= 1 && ValidYear(y)
    ensures var h := UtcHour(r, offset, dstOffset);
            var hour := if h < 0 then 24 + h else h;
            var day := if h < 0 then RuleDay(r, y) - 1 else RuleDay(r, y);
            && 0 <= hour < 256 && day >= 0
            && TimeDefined(y, r.month, day, hour, 0, 0)
            && MkTime(y, r.month, day, hour, 0, 0) == RuleReading(r, y) - (offset + dstOffset) * 3600
    ensures RuleReading(r, y) - (offset + dstOffset) * 3600 >= 86400
  {
    UtcHourIs(r, offset, dstOffset);
    YearDefined(y, r.month, 1);
    NthWeekdayCorrect(r.week, r.weekday, r.month, y);
    hide DaysDefined, UtcHour, NthWeekday, MkTime, TimeDefined, Weekday, Occurrences;
    var h := UtcHour(r, offset, dstOffset);
    var hour := if h < 0 then 24 + h else h;
    var day := if h < 0 then RuleDay(r, y) - 1 else RuleDay(r, y);
    RuleDayBounds(r, y);
    assert DayNumber(Date(y, r.month, day)) == DayNumber(Date(y, r.month, RuleDay(r, y))) - (if h < 0 then 1 else 0);
    hide DayNumber, RuleDay, MonthLength;
    MkTimeExact(y, r.month, day, hour, 0, 0);
  }

  /** The rule names day d of its month: the week-th one on its weekday, or for week 5 the
      last one. */
  predicate Names(r: Rule, y: int, d: nat)
    requires ValidRule(r)
  {
    && 1 <= d <= MonthLength(y, r.month)
    && Weekday(DayNumber(Date(y, r.month, d))) == r.weekday
    && (r.week <= 4 ==> Occurrences(y, r.month, r.weekday, d) == r.week)
    && (r.week == 5 ==>
          forall later: nat :: d < later <= MonthLength(y, r.month)
                               ==> Weekday(DayNumber(Date(y, r.month, later))) != r.weekday)
  }

  /** At instant t a clock that is `ahead` hours ahead shows the rule's full hour on the day
      that the rule names. */
  ghost predicate TakesEffect(r: Rule, y: int, ahead: int, t: nat)
    requires ValidRule(r)
  {
    exists d: nat :: Names(r, y, d) && t == Seconds(y, r.month, d, r.hour, 0, 0) - ahead * 3600
  }

  lemma RuleDayNamed(r: Rule, y: int)
    requires ValidRule(r) && ValidYear(y)
    ensures Names(r, y, RuleDay(r, y))
  {
    YearDefined(y, r.month, 1);
    NthWeekdayCorrect(r.week, r.weekday, r.month, y);
    hide NthWeekday, Weekday, DayNumber, Occurrences, DaysDefined;
  }

  lemma {:induction false} OccurrencesGrow(y: int, m: int, wd: int, d: nat, e: nat)
    requires 1 <= m <= 12 && d < e && Weekday(DayNumber(Date(y, m, e))) == wd
    ensures Occurrences(y, m, wd, d) < Occurrences(y, m, wd, e)
    decreases e
  {
    hide Weekday, DayNumber;
    if d < e - 1 {
      OccurrencesMore(y, m, wd, d, e - 1);
    }
  }

  lemma {:induction false} OccurrencesMore(y: int, m: int, wd: int, d: nat, e: nat)
    requires 1 <= m <= 12 && d <= e
    ensures Occurrences(y, m, wd, d) <= Occurrences(y, m, wd, e)
    decreases e
  {
    hide Weekday, DayNumber;
    if d < e {
      OccurrencesMore(y, m, wd, d, e - 1);
    }
  }

  /** A rule names one day, so it takes effect at one instant of the year. */
  lemma TakesEffectOnce(r: Rule, y: int, ahead: int, t: nat, u: nat)
    requires ValidRule(r) && TakesEffect(r, y, ahead, t) && TakesEffect(r, y, ahead, u)
    ensures t == u
  {
    hide Weekday, DayNumber, Occurrences;
    var d: nat :| Names(r, y, d) && t == Seconds(y, r.month, d, r.hour, 0, 0) - ahead * 3600;
    var e: nat :| Names(r, y, e) && u == Seconds(y, r.month, e, r.hour, 0, 0) - ahead * 3600;
    if d < e {
      OccurrencesGrow(y, r.month, r.weekday, d, e);
    } else if e < d {
      OccurrencesGrow(y, r.month, r.weekday, e, d);
    }
  }

  lemma RuleDayBounds(r: Rule, y: int)
    requires ValidRule(r) && ValidYear(y) && ValidDate(Date(y, r.month, RuleDay(r, y)))
    ensures 365 <= DayNumber(Date(y, r.month, RuleDay(r, y))) < 24837
  {
    var a := Date(y, r.month, RuleDay(r, y));
    hide RuleDay, DaysToYear, DaysToMonth, MonthLength, YearLength;
    WithinYear(a);
    YearsOfTime(y);
    LaterYear(1970, y);
    LengthBounds(1970);
    EpochDays();
  }

  /** get_dst_time: on the rule's weekday, the rule's week counting from the first such day of
      the month, or the last such day for week 5. */
  function GetDstTime(r: Rule, offset: int, dstOffset: nat, y: int): (t: nat)
    requires ValidRule(r) && -24 < offset < 24 && dstOffset <= 1 && ValidYear(y)
    ensures t == RuleReading(r, y) - (offset + dstOffset) * 3600
    ensures TakesEffect(r, y, offset + dstOffset, t)
  {
    RuleInstant(r, offset, dstOffset, y);
    RuleDayNamed(r, y);
    var monthDay := RuleDay(r, y);
    var utcHour := UtcHour(r, offset, dstOffset);
    if utcHour < 0 then
      MkTime(y, r.month, monthDay - 1, 24 + utcHour, 0, 0)
    else
      MkTime(y, r.month, monthDay, utcHour, 0, 0)
  }

  function WindowStart(z: Zone, y: int): nat
    requires ValidZone(z) && ValidYear(y)
  {
    GetDstTime(z.begin, z.offset, 0, y)
  }

  function WindowEnd(z: Zone, y: int): nat
    requires ValidZone(z) && ValidYear(y)
  {
    GetDstTime(z.end, z.offset, 1, y)
  }

  predicate IsDst(z: Zone, y: int, utc: nat)
    requires ValidZone(z) && ValidYear(y)
  {
    WindowStart(z, y) <= utc < WindowEnd(z, y)
  }

  /** What a local clock shows at an instant, in seconds, as a uint32_t. */
  function Reading(offset: int, isdst: bool, utc: nat): nat {
    (utc + offset * 3600 + (if isdst then 3600 else 0)) % U32
  }

  // ---------- Which readings exist ----------

  predicate ShowsAt(z: Zone, y: int, utc: nat, reading: int)
    requires ValidZone(z) && ValidYear(y)
  {
    Reading(z.offset, IsDst(z, y, utc), utc) == reading
  }

  /** The instants at which standard time and summer time would show a reading. */
  function StandardAt(z: Zone, reading: nat): (utc: nat)
    ensures utc < U32
  {
    (reading - z.offset * 3600) % U32
  }

  function SummerAt(z: Zone, reading: nat): (utc: nat)
    ensures utc < U32
  {
    (reading - z.offset * 3600 - 3600) % U32
  }

  /** Adding an offset to a word is undone by subtracting it. */
  lemma OffsetUndone(utc: nat, d: int, reading: nat)
    requires utc < U32 && reading < U32
    ensures (utc + d) % U32 == reading <==> utc == (reading - d) % U32
  {
    WrapSum(utc + d, -d);
    WrapSum(reading - d, d);
    DivideUnique(utc, U32, 0, utc);
    DivideUnique(reading, U32, 0, reading);
  }

  lemma ShowsAtIs(z: Zone, y: int, utc: nat, reading: nat)
    requires ValidZone(z) && ValidYear(y) && utc < U32 && reading < U32
    ensures ShowsAt(z, y, utc, reading)
       <==> utc == if IsDst(z, y, utc) then SummerAt(z, reading) else StandardAt(z, reading)
  {
    hide IsDst;
    OffsetUndone(utc, z.offset * 3600, reading);
    OffsetUndone(utc, z.offset * 3600 + 3600, reading);
  }

  lemma RuleBounds(r: Rule, y: int)
    requires ValidRule(r) && ValidYear(y)
    ensures 365 * 86400 <= RuleReading(r, y) < 24838 * 86400
  {
    YearDefined(y, r.month, 1);
    NthWeekdayCorrect(r.week, r.weekday, r.month, y);
    RuleDayBounds(r, y);
    hide DayNumber, RuleDay;
  }

  /** A word less an offset falls into a window that is far from both ends of the words if
      and only if the word itself, moved by the offset, falls into the moved window. */
  lemma InWindow(reading: nat, d: int, from: int, to: int)
    requires reading < U32 && -90000 < d < 90000 && 180000 <= from && to < U32 - 180000
    ensures from <= (reading - d) % U32 < to <==> from + d <= reading < to + d
  {
    var u := reading - d;
    if u < 0 {
      DivideUnique(u, U32, -1, u + U32);
    } else if u >= U32 {
      DivideUnique(u, U32, 1, u - U32);
    } else {
      DivideUnique(u, U32, 0, u);
    }
  }

  lemma WindowOfReadings(z: Zone, y: int, reading: nat)
    requires ValidZone(z) && ValidYear(y) && reading < U32
    ensures var start, end := RuleReading(z.begin, y), RuleReading(z.end, y);
            && (IsDst(z, y, StandardAt(z, reading)) <==> start <= reading < end - 3600)
            && (IsDst(z, y, SummerAt(z, reading)) <==> start + 3600 <= reading < end)
  {
    WindowIs(z, y);
    hide RuleReading, WindowStart, WindowEnd, StandardAt, SummerAt;
    StandardInWindow(z, reading, WindowStart(z, y), WindowEnd(z, y));
  }

  lemma StandardInWindow(z: Zone, reading: nat, from: nat, to: nat)
    requires -24 < z.offset < 24 && reading < U32
    requires 180000 <= from < U32 - 180000 && 180000 <= to < U32 - 180000
    ensures var d := z.offset * 3600;
            && (from <= StandardAt(z, reading) < to <==> from + d <= reading < to + d)
            && (from <= SummerAt(z, reading) < to <==> from + d + 3600 <= reading < to + d + 3600)
  {
    var d := z.offset * 3600;
    InWindow(reading, d, from, to);
    InWindow(reading, d + 3600, from, to);
    assert reading - (d + 3600) == reading - z.offset * 3600 - 3600;
  }

  lemma WindowIs(z: Zone, y: int)
    requires ValidZone(z) && ValidYear(y)
    ensures WindowStart(z, y) == RuleReading(z.begin, y) - z.offset * 3600
    ensures WindowEnd(z, y) == RuleReading(z.end, y) - z.offset * 3600 - 3600
    ensures 180000 <= WindowStart(z, y) < U32 - 180000 && 180000 <= WindowEnd(z, y) < U32 - 180000
  {
    RuleBounds(z.begin, y);
    RuleBounds(z.end, y);
    hide RuleReading;
  }

  /** Gap and overlap, for rules whose end comes at least two hours after their start: no
      instant shows a reading in the hour after the start rule's time, exactly two show each
      reading in the hour before the end rule's time, and exactly one shows any other. */
  lemma GapAndOverlap(z: Zone, y: int, reading: nat)
    requires ValidZone(z) && ValidYear(y) && reading < U32
    requires RuleReading(z.end, y) >= RuleReading(z.begin, y) + 7200
    ensures StandardAt(z, reading) != SummerAt(z, reading)
    ensures var start, end := RuleReading(z.begin, y), RuleReading(z.end, y);
            forall utc: nat :: utc < U32 ==>
              (ShowsAt(z, y, utc, reading) <==>
                if start <= reading < start + 3600 then false
                else if end - 3600 <= reading < end then utc == StandardAt(z, reading) || utc == SummerAt(z, reading)
                else if start + 3600 <= reading < end - 3600 then utc == SummerAt(z, reading)
                else utc == StandardAt(z, reading))
  {
    WindowOfReadings(z, y, reading);
    AnHourApart(z, reading);
    forall utc: nat | utc < U32
      ensures ShowsAt(z, y, utc, reading)
         <==> utc == if IsDst(z, y, utc) then SummerAt(z, reading) else StandardAt(z, reading)
    {
      ShowsAtIs(z, y, utc, reading);
    }
    hide ShowsAt, IsDst, RuleReading, StandardAt, SummerAt;
  }

  lemma AnHourApart(z: Zone, reading: nat)
    ensures StandardAt(z, reading) != SummerAt(z, reading)
  {
    WrapSum(reading - z.offset * 3600, -3600);
    var u := StandardAt(z, reading) - 3600;
    DivideUnique(u, U32, if u < 0 then -1 else 0, if u < 0 then u + U32 else u);
  }

  /** The same for the fields that localtime fills in: they name a date and time of day if
      and only if the instant shows that reading. */
  lemma FieldsTell(z: Zone, y: int, utc: nat, t: Tm, a: Date, hour: nat, minute: nat, second: nat)
    requires ValidZone(z) && ValidYear(y) && ValidDate(a) && hour < 24 && minute < 60 && second < 60
    requires Shows(t, Reading(z.offset, IsDst(z, y, utc), utc))
    ensures (DateOf(t) == a && t.hour == hour && t.min == minute && t.sec == second)
       <==> ShowsAt(z, y, utc, Seconds(a.year, a.month, a.day, hour, minute, second))
  {
    hide DayNumber, MonthLength, Weekday, IsDst, Reading;
    var l := Seconds(a.year, a.month, a.day, hour, minute, second);
    var shown := Tm(second, minute, hour, a.day, a.month - 1, a.year - 1900,
                    Weekday(DayNumber(a)), DayNumber(a) - DayNumber(Date(a.year, 1, 1)), t.isdst);
    assert DateOf(shown) == a && Shows(shown, l);
    if Reading(z.offset, IsDst(z, y, utc), utc) == l {
      ShowsOne(t, shown, l);
    }
  }

  /** Rules take effect at full hours. */
  lemma FullHours(r: Rule, y: int)
    requires ValidRule(r) && ValidYear(y)
    ensures RuleReading(r, y) % 3600 == 0
  {
    var h := DayNumber(Date(y, r.month, RuleDay(r, y))) * 24 + r.hour;
    hide DayNumber, RuleDay;
    DivideUnique(RuleReading(r, y), 3600, h, 0);
  }

  /** The two hours are needed: there is daylight saving time in the year, and with it a gap,
      exactly when the end comes that much later; otherwise each instant shows standard time. */
  lemma GapOnlyWhen(z: Zone, y: int)
    requires ValidZone(z) && ValidYear(y)
    ensures (exists utc: nat :: IsDst(z, y, utc)) <==> RuleReading(z.end, y) >= RuleReading(z.begin, y) + 7200
    ensures RuleReading(z.end, y) < RuleReading(z.begin, y) + 7200 ==>
              forall utc: nat, reading: nat :: utc < U32 && reading < U32 ==>
                (ShowsAt(z, y, utc, reading) <==> utc == StandardAt(z, reading))
  {
    var start, end := RuleReading(z.begin, y), RuleReading(z.end, y);
    FullHours(z.begin, y);
    FullHours(z.end, y);
    assert end < start + 7200 ==> end <= start + 3600 by {
      var a, b := start / 3600, end / 3600;
      assert start == 3600 * a && end == 3600 * b;
    }
    forall utc: nat, reading: nat | utc < U32 && reading < U32
      ensures ShowsAt(z, y, utc, reading)
         <==> utc == if IsDst(z, y, utc) then SummerAt(z, reading) else StandardAt(z, reading)
    {
      ShowsAtIs(z, y, utc, reading);
    }
    hide ShowsAt, RuleReading, StandardAt, SummerAt;
    assert end >= start + 7200 ==> IsDst(z, y, WindowStart(z, y));
  }

  /** Rules whose end comes in an earlier month than their start, as south of the equator,
      give no daylight saving time in any year. */
  lemma SouthernRules(z: Zone, y: int, utc: nat)
    requires ValidZone(z) && ValidYear(y) && z.end.month < z.begin.month
    ensures !IsDst(z, y, utc)
  {
    RuleDate(z.begin, y);
    RuleDate(z.end, y);
    LaterMonth(y, z.end.month, z.begin.month);
    hide RuleDay, DaysToYear, DaysToMonth, MonthLength;
  }

  /** Rules with a month between them, as in the zones north of the equator, are far enough
      apart in every year. */
  lemma SummerRules(z: Zone, y: int)
    requires ValidZone(z) && ValidYear(y) && z.begin.month + 1 < z.end.month
    ensures RuleReading(z.end, y) >= RuleReading(z.begin, y) + 7200
  {
    RuleDate(z.begin, y);
    RuleDate(z.end, y);
    LaterMonth(y, z.begin.month, z.begin.month + 1);
    LaterMonth(y, z.begin.month + 1, z.end.month);
    hide RuleDay, DaysToYear, DaysToMonth, MonthLength;
  }

  lemma RuleDate(r: Rule, y: int)
    requires ValidRule(r) && ValidYear(y)
    ensures 1 <= RuleDay(r, y) <= MonthLength(y, r.month)
  {
    YearDefined(y, r.month, 1);
    NthWeekdayCorrect(r.week, r.weekday, r.month, y);
  }

  // ---------- The class ----------

  class Time {
    var dst: bool
    var xdst0: nat           // begin and end of DST, as UTC instants
    var xdst1: nat
    var offset: int          // hours
    var year: int            // the year of xdst
    var rules: (Rule, Rule)

    ghost predicate Valid()
      reads this
    {
      && -24 < offset < 24
      && (dst ==> ValidZone(Settings()))
      && (dst && year != 0 ==>
            (ValidYear(year) && xdst0 == WindowStart(Settings(), year) && xdst1 == WindowEnd(Settings(), year)))
    }

    function Settings(): Zone
      reads this
    {
      Zone(offset, rules.0, rules.1)
    }

    constructor NoDst()
      ensures Valid() && !dst && offset == 0
    {
      dst, year, offset := false, 0, 0;
      xdst0, xdst1, rules := 0, 0, (Rule(1, 0, 1, 0), Rule(1, 0, 1, 0));
    }

    /** The UTC offset is given in minutes. */
    constructor (utcoffset: int, begin: Rule, end: Rule)
      requires ValidRule(begin) && ValidRule(end) && -24 * 60 < utcoffset < 24 * 60
      ensures Valid() && dst && year == 0 && rules == (begin, end)
      ensures 0 <= utcoffset ==> offset * 60 <= utcoffset < offset * 60 + 60
      ensures utcoffset <= 0 ==> offset * 60 - 60 < utcoffset <= offset * 60
    {
      dst, offset, year := true, Truncated(utcoffset, 60), 0;
      xdst0, xdst1, rules := 0, 0, (begin, end);
    }

    /** dstwindow; the window of a year is computed once. */
    method DstWindow(cyear: int)
      requires Valid() && ValidYear(cyear)
      modifies this`year, this`xdst0, this`xdst1
      ensures Valid()
      ensures dst ==> year == cyear
                      && xdst0 == RuleReading(rules.0, cyear) - offset * 3600
                      && xdst1 == RuleReading(rules.1, cyear) - offset * 3600 - 3600
      ensures dst ==> TakesEffect(rules.0, cyear, offset, xdst0) && TakesEffect(rules.1, cyear, offset + 1, xdst1)
      ensures !dst ==> year == old(year) && xdst0 == old(xdst0) && xdst1 == old(xdst1)
    {
      if cyear != year && dst {
        year := cyear;
        xdst0 := GetDstTime(rules.0, offset, 0, year);
        xdst1 := GetDstTime(rules.1, offset, 1, year);
      }
    }

    /** localtime */
    method LocalTime(utctime: nat) returns (t: Tm)
      requires Valid() && utctime < U32
      ensures Shows(t, Reading(offset, t.isdst, utctime))
      ensures Shows(t, (utctime + offset * 3600 + (if t.isdst then 3600 else 0)) % 0x1_0000_0000)
      ensures t.isdst <==> dst && xdst0 <= utctime < xdst1
      ensures dst && year != 0 ==> (t.isdst <==> IsDst(Settings(), year, utctime))
    {
      hide GetDstTime, RuleReading, TakesEffect, WindowStart, WindowEnd, Seconds;
      var lcltime := (utctime + offset * 3600) % U32;
      var isdst := false;
      if dst && utctime >= xdst0 && utctime < xdst1 {
        isdst := true;
        lcltime := (lcltime + 3600) % U32;
        WrapSum(utctime + offset * 3600, 3600);
      }
      var year, month, day, yday := CivilFromDays(lcltime / SECSPERDAY);
      var rem := lcltime % SECSPERDAY;
      var days := lcltime / SECSPERDAY + EPOCH_ADJUSTMENT_DAYS;
      var weekday := (3 + days) % 7;
      AdjustedWeekday(lcltime / SECSPERDAY);
      var hour := rem / 3600;
      rem := rem % 3600;
      t := Tm(rem % 60, rem / 60, hour, day, month, year - 1900, weekday, yday, isdst);
      TimeOfDay(lcltime, hour, rem);
      hide DayNumber, ValidDate, Weekday;
    }
  }

  /** 1 March of year 0 was a Wednesday. */
  lemma AdjustedWeekday(n: int)
    ensures (3 + (n + EPOCH_ADJUSTMENT_DAYS)) % 7 == Weekday(n)
  {
    var q, r := (n + 4) / 7, (n + 4) % 7;
    assert n + 4 == 7 * q + r;
    DivideUnique(3 + (n + EPOCH_ADJUSTMENT_DAYS), 7, q + 102781, r);
  }

  lemma TimeOfDay(l: nat, hour: int, rem: int)
    requires hour == (l % SECSPERDAY) / 3600 && rem == (l % SECSPERDAY) % 3600
    ensures 0 <= hour < 24 && 0 <= rem / 60 < 60 && 0 <= rem % 60 < 60
    ensures l == (l / SECSPERDAY) * SECSPERDAY + hour * 3600 + (rem / 60) * 60 + rem % 60
  {
  }

  // ---------- localtime and mktime undo each other ----------

  /** Without offset and daylight saving, mktime takes the fields that a clock shows at any
      instant in 31 bits back to that instant. */
  lemma MkTimeOfLocal(t: Tm, utc: nat)
    requires utc < 0x8000_0000 && Shows(t, utc)
    ensures TimeDefined(t.year + 1900, t.mon + 1, t.mday, t.hour, t.min, t.sec)
    ensures MkTime(t.year + 1900, t.mon + 1, t.mday, t.hour, t.min, t.sec) == utc
  {
    hide DayNumber, MonthLength, Weekday, TimeDefined, MkTime;
    var a := DateOf(t);
    WithinYear(a);
    YearsOfTime(a.year);
    MkTimeExact(a.year, a.month, a.day, t.hour, t.min, t.sec);
  }

  /** And whatever localtime shows at the instant that mktime computed from a valid date and
      time of day is that date and time of day. */
  lemma LocalOfMkTime(t: Tm, a: Date, hour: nat, minute: nat, second: nat)
    requires ValidDate(a) && hour < 24 && minute < 60 && second < 60
    requires 0 <= Seconds(a.year, a.month, a.day, hour, minute, second) < 0x8000_0000
    ensures TimeDefined(a.year, a.month, a.day, hour, minute, second)
    ensures Shows(t, MkTime(a.year, a.month, a.day, hour, minute, second)) ==>
              DateOf(t) == a && t.hour == hour && t.min == minute && t.sec == second
  {
    hide DayNumber, MonthLength, Weekday, TimeDefined, MkTime;
    var l := Seconds(a.year, a.month, a.day, hour, minute, second);
    WithinYear(a);
    YearsOfTime(a.year);
    MkTimeExact(a.year, a.month, a.day, hour, minute, second);
    var shown := Tm(second, minute, hour, a.day, a.month - 1, a.year - 1900,
                    Weekday(DayNumber(a)), DayNumber(a) - DayNumber(Date(a.year, 1, 1)), t.isdst);
    assert DateOf(shown) == a;
    if Shows(t, l) {
      ShowsOne(t, shown, l);
    }
  }
}
