/**
 The two calendar conversions of the startup library: _gmtime in
 qnx_guests/src/hardware/startup/lib/gmtime.c and calc_time_t in
 qnx_guests/src/hardware/startup/lib/calc_time_t.c.
 */
module Calendar {
  import opened Common

  const DAY: nat := 86400

  datatype Tm = Tm(sec: int, min: int, hour: int, mday: int, mon: int, year: int, wday: int, yday: int)

  /** _gmtime calls every fourth year a leap year; `year` counts from 1970. */
  predicate FourthYear(year: nat) {
    (year + 2) % 4 == 0
  }

  function YearDays(year: nat): nat {
    365 + (if FourthYear(year) then 1 else 0)
  }

  const MONTH_DAYS: seq<nat> := [31, 28, 31, 30, 31, 30, 31, 31, 30, 31, 30, 31]
  const LEAP_MONTH_DAYS: seq<nat> := [31, 29, 31, 30, 31, 30, 31, 31, 30, 31, 30, 31]

  function MonthDays(leap: bool, mon: nat): nat
    requires mon < 12
  {
    if leap then LEAP_MONTH_DAYS[mon] else MONTH_DAYS[mon]
  }

  /** Days of the year before month `mon`. */
  function DaysBeforeMonth(leap: bool, mon: nat): nat
    requires mon <= 12
  {
    if mon == 0 then 0 else DaysBeforeMonth(leap, mon - 1) + MonthDays(leap, mon - 1)
  }

  /** Days from 1970 to the start of `year`, with every fourth year long. */
  function DaysBeforeYear(year: nat): nat {
    365 * year + (year + 1) / 4
  }

  lemma NextYear(year: nat)
    ensures DaysBeforeYear(year + 1) == DaysBeforeYear(year) + YearDays(year)
  {
  }

  /** The broken-down time that _gmtime's loops are after: the fields split `timer` uniquely. */
  ghost predicate Splits(tm: Tm, timer: nat) {
    && 0 <= tm.sec < 60 && 0 <= tm.min < 60 && 0 <= tm.hour < 24
    && tm.year >= 70 && 0 <= tm.mon < 12
    && var year := tm.year - 70;
       var leap := FourthYear(year);
       && 1 <= tm.mday <= MonthDays(leap, tm.mon)
       && tm.yday == DaysBeforeMonth(leap, tm.mon) + tm.mday - 1
       && tm.yday < YearDays(year)
       && timer == (DaysBeforeYear(year) + tm.yday) * DAY + tm.hour * 3600 + tm.min * 60 + tm.sec
       && tm.wday == (DaysBeforeYear(year) + tm.yday + 4) % 7
  }

  /** A struct tm buffer filled in place. */
  class TmBuffer {
    var sec: int
    var min: int
    var hour: int
    var mday: int
    var mon: int
    var year: int
    var wday: int
    var yday: int

    function Value(): Tm
      reads this
    {
      Tm(sec, min, hour, mday, mon, year, wday, yday)
    }

    method Gmtime(timer: nat)
      modifies this
      ensures Splits(Value(), timer)
    {
      var days: nat := timer / DAY;
      var secs := timer % DAY;
      ghost var allDays := days;
      wday := (days + 4) % 7;
      var y := 0;
      while YearDays(y) <= days
        invariant allDays == DaysBeforeYear(y) + days
        invariant wday == (allDays + 4) % 7
        decreases days
      {
        NextYear(y);
        days := days - YearDays(y);
        y := y + 1;
      }
      yday := days;
      var m := 0;
      ghost var leap := FourthYear(y);
      YearHasTwelveMonths(leap);
      while m < 12 && MonthDays(FourthYear(y), m) <= days
        invariant 0 <= m <= 12
        invariant yday == DaysBeforeMonth(leap, m) + days
        invariant yday < YearDays(y) && allDays == DaysBeforeYear(y) + yday && wday == (allDays + 4) % 7
      {
        days := days - MonthDays(FourthYear(y), m);
        m := m + 1;
      }
      sec := secs % 60;
      min := (secs / 60) % 60;
      hour := secs / 60 / 60;
      mday := days + 1;
      mon := m;
      year := y + 70;
      assert secs == hour * 3600 + min * 60 + sec;
    }
  }

  /** Thirty days have April, June, September and November. */
  lemma DaysOfMonths(leap: bool, mon: nat)
    requires mon < 12
    ensures MonthDays(leap, mon)
            == if mon == 1 then (if leap then 29 else 28) else if mon == 3 || mon == 5 || mon == 8 || mon == 10 then 30 else 31
  {
  }

  lemma YearHasTwelveMonths(leap: bool)
    ensures DaysBeforeMonth(leap, 12) == 365 + (if leap then 1 else 0)
  {
    TableOfStarts(leap);
  }

  /** The first days of the months, as calc_time_t has them in its table. */
  const MONTH_SECONDS: seq<nat> :=
    [0, 2678400, 5097600, 7776000, 10368000, 13046400,
     15638400, 18316800, 20995200, 23587200, 26265600, 28857600]

  lemma TableOfStarts(leap: bool)
    ensures DaysBeforeMonth(leap, 12) == 365 + (if leap then 1 else 0)
    ensures forall mon :: 0 <= mon < 12 ==>
              DaysBeforeMonth(leap, mon) * DAY
              == MONTH_SECONDS[mon] + (if leap && mon >= 2 then DAY else 0)
  {
    var extra := if leap then 1 else 0;
    assert DaysBeforeMonth(leap, 1) == 31;
    assert DaysBeforeMonth(leap, 2) == 59 + extra;
    assert DaysBeforeMonth(leap, 3) == 90 + extra;
    assert DaysBeforeMonth(leap, 4) == 120 + extra;
    assert DaysBeforeMonth(leap, 5) == 151 + extra;
    assert DaysBeforeMonth(leap, 6) == 181 + extra;
    assert DaysBeforeMonth(leap, 7) == 212 + extra;
    assert DaysBeforeMonth(leap, 8) == 243 + extra;
    assert DaysBeforeMonth(leap, 9) == 273 + extra;
    assert DaysBeforeMonth(leap, 10) == 304 + extra;
    assert DaysBeforeMonth(leap, 11) == 334 + extra;
    assert DaysBeforeMonth(leap, 12) == 365 + extra;
  }

  predicate LeapYear(fullYear: int) {
    fullYear % 4 == 0 && (fullYear % 100 != 0 || fullYear % 400 == 0)
  }

  /** calc_time_t; None where it crashes. */
  function CalcTimeT(tm: Tm): Option<int> {
    if 0 <= tm.mon < 12 then
      var year := tm.year - 70;
      Some((year * 365 + (year + 1) / 4) * DAY
           + MONTH_SECONDS[tm.mon]
           + (if tm.mon >= 2 && LeapYear(tm.year + 1900) then DAY else 0)
           + (tm.mday - 1) * DAY + tm.hour * 3600 + tm.min * 60 + tm.sec)
    else None
  }

  // ---- the two against each other ------------------------------------------------------

  /** March to December of a century year that is not a multiple of 400. */
  predicate CenturySlip(tm: Tm) {
    tm.mon >= 2 && (tm.year + 1900) % 100 == 0 && (tm.year + 1900) % 400 != 0
  }

  lemma FourthOrSlip(year: nat)
    ensures FourthYear(year)
            <==> LeapYear(year + 1970) || ((year + 1970) % 100 == 0 && (year + 1970) % 400 != 0)
  {
    assert (year + 1970) % 100 == 0 ==> (year + 1970) % 4 == 0;
  }

  /** Whatever broken-down time splits `timer` the way _gmtime does, calc_time_t gives the
      same instant back, except that it is a day short exactly on the slip dates. */
  lemma CalendarRoundTrip(tm: Tm, timer: nat)
    requires Splits(tm, timer)
    ensures CalcTimeT(tm) == Some(if CenturySlip(tm) then timer - DAY else timer)
  {
    var year := tm.year - 70;
    FourthOrSlip(year);
    TableOfStarts(FourthYear(year));
  }

  /** The split is unique, so _gmtime's loops leave no choice. */
  lemma SplitIsUnique(a: Tm, b: Tm, timer: nat)
    requires Splits(a, timer) && Splits(b, timer)
    ensures a == b
  {
    hide DaysBeforeMonth;
    hide MonthDays;
    hide DaysBeforeYear;
    var ya, yb := a.year - 70, b.year - 70;
    var da, db := DaysBeforeYear(ya) + a.yday, DaysBeforeYear(yb) + b.yday;
    SameDay(da, a.hour * 3600 + a.min * 60 + a.sec, db, b.hour * 3600 + b.min * 60 + b.sec);
    SameYear(ya, a.yday, yb, b.yday);
    SameMonth(FourthYear(ya), a.mon, a.mday, b.mon, b.mday);
    SameTime(a.hour, a.min, a.sec, b.hour, b.min, b.sec);
  }

  lemma SameYear(ya: nat, da: nat, yb: nat, db: nat)
    requires da < YearDays(ya) && db < YearDays(yb) && DaysBeforeYear(ya) + da == DaysBeforeYear(yb) + db
    ensures ya == yb && da == db
  {
    if ya < yb {
      LaterYear(ya, yb);
    } else if yb < ya {
      LaterYear(yb, ya);
    }
  }

  lemma SameMonth(leap: bool, ma: nat, da: nat, mb: nat, db: nat)
    requires ma < 12 && mb < 12 && 1 <= da <= MonthDays(leap, ma) && 1 <= db <= MonthDays(leap, mb)
    requires DaysBeforeMonth(leap, ma) + da == DaysBeforeMonth(leap, mb) + db
    ensures ma == mb && da == db
  {
    if ma < mb {
      LaterMonth(leap, ma, mb);
    } else if mb < ma {
      LaterMonth(leap, mb, ma);
    }
  }

  lemma SameTime(ha: int, ma: int, sa: int, hb: int, mb: int, sb: int)
    requires 0 <= ma < 60 && 0 <= mb < 60 && 0 <= sa < 60 && 0 <= sb < 60
    requires ha * 3600 + ma * 60 + sa == hb * 3600 + mb * 60 + sb
    ensures ha == hb && ma == mb && sa == sb
  {
  }

  lemma SameDay(da: nat, sa: nat, db: nat, sb: nat)
    requires sa < DAY && sb < DAY && da * DAY + sa == db * DAY + sb
    ensures da == db && sa == sb
  {
  }

  lemma {:induction false} LaterYear(a: nat, b: nat)
    requires a < b
    ensures DaysBeforeYear(a) + YearDays(a) <= DaysBeforeYear(b)
    decreases b
  {
    NextYear(b - 1);
    if a < b - 1 {
      LaterYear(a, b - 1);
    }
  }

  lemma {:induction false} LaterMonth(leap: bool, a: nat, b: nat)
    requires a < b <= 12
    ensures DaysBeforeMonth(leap, a) + MonthDays(leap, a) <= DaysBeforeMonth(leap, b)
    decreases b
  {
    if a < b - 1 {
      LaterMonth(leap, a, b - 1);
    }
  }

  function Weekday(day: nat): nat {
    (day + 4) % 7
  }

  lemma WeekdayOf(tm: Tm, timer: nat)
    requires Splits(tm, timer)
    ensures tm.wday == Weekday(timer / 86400)
  {
    hide DaysBeforeYear;
    hide DaysBeforeMonth;
    hide MonthDays;
    DayOf(DaysBeforeYear(tm.year - 70) + tm.yday, tm.hour * 3600 + tm.min * 60 + tm.sec, timer);
  }

  lemma NextWeekday(day: nat)
    ensures Weekday(day + 1) == (if Weekday(day) == 6 then 0 else Weekday(day) + 1)
    ensures Weekday(0) == 4
  {
  }

  /** Day 0 was a Thursday, and each day after one day of the week later. */
  lemma WeekdaysFollow(a: Tm, b: Tm, timer: nat, later: nat)
    requires Splits(a, timer) && Splits(b, later) && later / 86400 == timer / 86400 + 1
    ensures b.wday == (if a.wday == 6 then 0 else a.wday + 1)
    ensures timer / 86400 == 0 ==> a.wday == 4
  {
    hide Splits;
    hide Weekday;
    WeekdayOf(a, timer);
    WeekdayOf(b, later);
    NextWeekday(timer / 86400);
  }

  lemma DayOf(days: nat, seconds: nat, timer: nat)
    requires seconds < 86400 && timer == days * 86400 + seconds
    ensures timer / 86400 == days
  {
  }

  // ---- against the Gregorian calendar --------------------------------------------------

  /** Days from 1970 to the start of a Gregorian year. */
  function GregorianDays(year: nat): int {
    var before := year + 1969;
    365 * year + (before / 4 - before / 100 + before / 400) - 477
  }

  /** The Gregorian instant of the date and time that `tm` names. */
  function GregorianInstant(tm: Tm): int
    requires tm.year >= 70 && 0 <= tm.mon < 12
  {
    (GregorianDays(tm.year - 70) + (DaysBeforeMonth(false, tm.mon)
       + (if tm.mon >= 2 && LeapYear(tm.year + 1900) then 1 else 0)) + tm.mday - 1) * DAY
    + tm.hour * 3600 + tm.min * 60 + tm.sec
  }

  /** The Gregorian calendar has the day that `tm` names. */
  predicate GregorianDate(tm: Tm) {
    0 <= tm.mon < 12 && 1 <= tm.mday <= MonthDays(LeapYear(tm.year + 1900), tm.mon)
  }

  /** `tm` names the Gregorian date and time of the instant. */
  predicate GregorianOf(tm: Tm, timer: nat) {
    tm.year >= 70 && GregorianDate(tm) && GregorianInstant(tm) == timer
  }

  const FIRST_WRONG: nat := 4107542400    // 1 March 2100, 00:00:00

  lemma GregorianFallsBehind(year: nat)
    ensures GregorianDays(year) == DaysBeforeYear(year) - ((year + 1969) / 100 - (year + 1969) / 400 - 15)
  {
    assert (year + 1969) / 4 == (year + 1) / 4 + 492;
  }

  /** How far the Gregorian instant of the date lags: a day for every century year skipped
      since 1970, one of them perhaps this year's. */
  function Skipped(tm: Tm): int
    requires tm.year >= 70
  {
    (tm.year + 1899) / 100 - (tm.year + 1899) / 400 - 15 + (if CenturySlip(tm) then 1 else 0)
  }

  lemma InstantLags(tm: Tm, timer: nat)
    requires Splits(tm, timer)
    ensures GregorianInstant(tm) == timer - Skipped(tm) * DAY
  {
    var year := tm.year - 70;
    FourthOrSlip(year);
    TableOfStarts(FourthYear(year));
    TableOfStarts(false);
    GregorianFallsBehind(year);
  }

  lemma BeforeMarch(tm: Tm, timer: nat)
    requires Splits(tm, timer) && FourthYear(tm.year - 70)
    ensures tm.mon >= 2 <==> tm.yday >= 60
  {
    if tm.mon >= 2 {
      LaterOrSame(tm.mon);
    }
    assert DaysBeforeMonth(true, 1) == 31;
  }

  /** When the named date, existing or not, counts as the instant: one day longer than it exists. */
  lemma LagBegins(tm: Tm, timer: nat)
    requires Splits(tm, timer)
    ensures GregorianInstant(tm) == timer <==> timer < FIRST_WRONG + DAY
  {
    hide GregorianInstant;
    InstantLags(tm, timer);
    var year := tm.year - 70;
    CenturiesSkipped(year);
    if year > 130 {
      LaterYear(130, year);
    } else if year < 130 {
      LaterYear(year, 130);
    } else {
      BeforeMarch(tm, timer);
    }
  }

  /** The days from 1970 that lie in 2100 as _gmtime counts, up to its 29 February. */
  lemma YearByDay(tm: Tm, timer: nat)
    requires Splits(tm, timer)
    ensures timer < FIRST_WRONG + DAY ==> tm.year <= 200
    ensures timer >= FIRST_WRONG ==> tm.year >= 200
    ensures tm.year == 200 ==> tm.yday == timer / DAY - DaysBeforeYear(130)
  {
    var year := tm.year - 70;
    if year > 130 {
      LaterYear(130, year);
    } else if year < 130 {
      LaterYear(year, 130);
    }
  }

  /** When the named date exists, up to that day. */
  lemma DateExists(tm: Tm, timer: nat)
    requires Splits(tm, timer) && timer < FIRST_WRONG + DAY
    ensures GregorianDate(tm) <==> timer < FIRST_WRONG
  {
    YearByDay(tm, timer);
    FourthOrSlip(tm.year - 70);
    if tm.year == 200 {
      BeforeMarch(tm, timer);
      assert DaysBeforeMonth(true, 1) == 31;
    }
  }

  /** _gmtime names the right date exactly until the day it should skip in the year 2100. */
  lemma GmtimeIsGregorianUntil2100(tm: Tm, timer: nat)
    requires Splits(tm, timer)
    ensures GregorianOf(tm, timer) <==> timer < FIRST_WRONG
  {
    hide GregorianInstant;
    hide GregorianDate;
    LagBegins(tm, timer);
    if timer < FIRST_WRONG + DAY {
      DateExists(tm, timer);
    }
  }

  /** Then it names 29 February 2100, a day the Gregorian calendar does not have. */
  lemma TwentyNinthOfFebruary2100(tm: Tm, timer: nat)
    requires FIRST_WRONG <= timer < FIRST_WRONG + DAY && Splits(tm, timer)
    ensures tm.year == 200 && tm.mon == 1 && tm.mday == 29 && !GregorianDate(tm)
  {
    YearByDay(tm, timer);
    BeforeMarch(tm, timer);
    assert DaysBeforeMonth(true, 1) == 31;
  }

  lemma LaterOrSame(mon: nat)
    requires 2 <= mon < 12
    ensures DaysBeforeMonth(true, mon) >= 60
  {
    if mon > 2 {
      LaterMonth(true, 2, mon);
    }
    assert DaysBeforeMonth(true, 2) == 60;
  }

  /** Leap days that the Gregorian calendar has left out since 1970, before `year`. */
  lemma CenturiesSkipped(year: nat)
    ensures var n := (year + 1969) / 100 - (year + 1969) / 400 - 15;
            n >= 0 && (n == 0 <==> year <= 130)
  {
    var c := (year + 1969) / 100;
    assert (year + 1969) / 400 == c / 4;
  }
}
