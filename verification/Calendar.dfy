/** Seconds since 1970 to calendar fields (lib/gmtime.c:25-53) and back (lib/calc_time_t.c:33-61).
The two disagree on which years are leap years. */
module Calendar {
  import opened Align

  /** struct tm; year counts from 1900, mon and yday from 0. */
  datatype Tm = Tm(sec: int, min: int, hour: int, mday: int, mon: int, year: int, yday: int, wday: int)

  /** The leap rule of _gmtime, for years counted from 1970: every fourth year. */
  predicate Fourth(year: nat) {
    (year + 2) % 4 == 0
  }

  function YearLength(year: nat): nat {
    if Fourth(year) then 366 else 365
  }

  /** Days from the start of 1970 to the start of a year. */
  function DaysBefore(year: nat): nat {
    if year == 0 then 0 else DaysBefore(year - 1) + YearLength(year - 1)
  }

  function MonthLength(leap: bool, mon: nat): nat
    requires mon < 12
  {
    if mon == 1 then (if leap then 29 else 28)
    else if mon == 3 || mon == 5 || mon == 8 || mon == 10 then 30
    else 31
  }

  /** Days from the start of the year to the start of a month. */
  function MonthStart(leap: bool, mon: nat): nat
    requires mon <= 12
  {
    if mon == 0 then 0 else MonthStart(leap, mon - 1) + MonthLength(leap, mon - 1)
  }

  lemma {:induction false} DaysBeforeFormula(year: nat)
    ensures DaysBefore(year) == 365 * year + (year + 1) / 4
  {
    if year > 0 {
      DaysBeforeFormula(year - 1);
    }
  }

  /** Later years start later. */
  lemma {:induction false} DaysBeforeGrows(a: nat, b: nat)
    requires a < b
    ensures DaysBefore(a) + YearLength(a) <= DaysBefore(b)
    decreases b
  {
    if a < b - 1 {
      DaysBeforeGrows(a, b - 1);
    }
  }

  lemma {:induction false} MonthStartGrows(leap: bool, a: nat, b: nat)
    requires a < b <= 12
    ensures MonthStart(leap, a) + MonthLength(leap, a) <= MonthStart(leap, b)
    decreases b
  {
    if a < b - 1 {
      MonthStartGrows(leap, a, b - 1);
    }
  }

  lemma YearIsTwelveMonths(leap: bool)
    ensures MonthStart(leap, 12) == if leap then 366 else 365
  {
    assert MonthStart(leap, 1) == 31;
    assert MonthStart(leap, 3) == if leap then 91 else 90;
    assert MonthStart(leap, 5) == MonthStart(leap, 3) + 61;
    assert MonthStart(leap, 7) == MonthStart(leap, 5) + 61;
    assert MonthStart(leap, 9) == MonthStart(leap, 7) + 61;
    assert MonthStart(leap, 11) == MonthStart(leap, 9) + 61;
  }

  /** Months end with the year: adding a February day moves what follows it by one. */
  lemma {:induction false} LeapShift(mon: nat)
    requires mon <= 12
    ensures MonthStart(true, mon) == MonthStart(false, mon) + if mon >= 2 then 1 else 0
  {
    if mon > 0 {
      LeapShift(mon - 1);
    }
  }

  /** Every field is in its range, for a year of its length. */
  ghost predicate InRange(tm: Tm) {
    && tm.year >= 70 && 0 <= tm.mon < 12
    && 1 <= tm.mday <= MonthLength(Fourth(tm.year - 70), tm.mon)
    && 0 <= tm.hour < 24 && 0 <= tm.min < 60 && 0 <= tm.sec < 60
  }

  /** The day a date names, counted from 1970. */
  function DayNumber(tm: Tm): int
    requires tm.year >= 70 && 0 <= tm.mon < 12
  {
    DaysBefore(tm.year - 70) + MonthStart(Fourth(tm.year - 70), tm.mon) + tm.mday - 1
  }

  function Seconds(tm: Tm): int
    requires tm.year >= 70 && 0 <= tm.mon < 12
  {
    DayNumber(tm) * 86400 + tm.hour * 3600 + tm.min * 60 + tm.sec
  }

  /** tm is the time t broken down. */
  ghost predicate BrokenDown(t: nat, tm: Tm) {
    && InRange(tm) && Seconds(tm) == t
    && tm.yday == DayNumber(tm) - DaysBefore(tm.year - 70)
    && tm.wday == (DayNumber(tm) + 4) % 7
  }

  /** The loop over the years. */
  method FindYear(days0: nat) returns (year: nat, days: nat)
    ensures DaysBefore(year) + days == days0 && days < YearLength(year)
  {
    year, days := 0, days0;
    while true
      invariant DaysBefore(year) + days == days0
      decreases days
    {
      var t := 365 + if (year + 2) % 4 == 0 then 1 else 0;
      if t > days {
        break;
      }
      days := days - t;
      year := year + 1;
    }
  }

  /** The loop over the months. */
  method FindMonth(year: nat, yday: nat) returns (mon: nat, days: nat)
    requires yday < YearLength(year)
    ensures mon < 12 && MonthStart(Fourth(year), mon) + days == yday && days < MonthLength(Fourth(year), mon)
  {
    mon, days := 0, yday;
    var mdays := if (year + 2) % 4 == 0
      then [31, 29, 31, 30, 31, 30, 31, 31, 30, 31, 30, 31]
      else [31, 28, 31, 30, 31, 30, 31, 31, 30, 31, 30, 31];
    while mon < 12
      invariant mon <= 12 && MonthStart(Fourth(year), mon) + days == yday
    {
      var t := mdays[mon];
      if t > days {
        break;
      }
      days := days - t;
      mon := mon + 1;
    }
    YearIsTwelveMonths(Fourth(year));
  }

  /** _gmtime, for times from 1970 on. */
  method GmTime(t: nat) returns (tm: Tm)
    ensures BrokenDown(t, tm)
  {
    var days, secs := t / 86400, t % 86400;
    var wday := (days + 4) % 7;
    var year, yday := FindYear(days);
    var mon, mday := FindMonth(year, yday);
    tm := Tm(secs % 60, secs / 60 % 60, secs / 60 / 60, mday + 1, mon, year + 70, yday, wday);
  }

  /** The leap rule of calc_time_t, for the full year number. */
  predicate Gregorian(y: int) {
    y % 4 == 0 && (y % 100 != 0 || y % 400 == 0)
  }

  /** The dates that calc_time_t gets a day too early: from March on in a century year that is not a
  multiple of 400. */
  predicate LosesDay(tm: Tm) {
    var y := tm.year + 1900;
    tm.mon >= 2 && y % 100 == 0 && y % 400 != 0
  }

  /** The table of calc_time_t holds where the months of a common year start. */
  lemma MonthTable()
    ensures MonthStart(false, 1) == 31 && MonthStart(false, 2) == 59 && MonthStart(false, 3) == 90
    ensures MonthStart(false, 4) == 120 && MonthStart(false, 5) == 151 && MonthStart(false, 6) == 181
    ensures MonthStart(false, 7) == 212 && MonthStart(false, 8) == 243 && MonthStart(false, 9) == 273
    ensures MonthStart(false, 10) == 304 && MonthStart(false, 11) == 334
  {
  }

  lemma CenturiesAreFourths(y: nat)
    ensures y % 4 == y % 100 % 4
  {
    var q, r := y / 100, y % 100;
    assert y == q * 100 + r && r == r / 4 * 4 + r % 4;
    DivModUnique(y, 4, q * 25 + r / 4, r % 4);
  }

  lemma SameFourth(year: nat)
    requires year >= 70
    ensures (year - 70 + 2) % 4 == (year + 1900) % 4
  {
    var n := year - 70 + 2;
    DivModUnique(year + 1900, 4, n / 4 + 492, n % 4);
  }

  /** The year numbers that the two rules look at differ by 1970, a multiple of four less two. */
  lemma LeapRules(tm: Tm)
    requires tm.year >= 70 && tm.mon >= 2
    ensures Fourth(tm.year - 70) <==> Gregorian(tm.year + 1900) || LosesDay(tm)
    ensures !(Gregorian(tm.year + 1900) && LosesDay(tm))
  {
    CenturiesAreFourths(tm.year + 1900);
    SameFourth(tm.year);
  }

  /** calc_time_t; ok is false when it crashes. */
  method CalcTimeT(tm: Tm) returns (ok: bool, sec: int)
    requires tm.year >= 70
    ensures ok <==> 0 <= tm.mon < 12
    ensures ok ==> sec == Seconds(tm) - if LosesDay(tm) then 86400 else 0
  {
    var monthSec := [0, 2678400, 5097600, 7776000, 10368000, 13046400,
      15638400, 18316800, 20995200, 23587200, 26265600, 28857600];
    var year := tm.year - 70;
    sec := (year * 365 + (year + 1) / 4) * 86400;
    DaysBeforeFormula(year);
    if 0 <= tm.mon < 12 {
      sec := sec + monthSec[tm.mon];
      MonthTable();
      LeapShift(tm.mon);
    } else {
      return false, 0;
    }
    year := tm.year + 1900;
    if tm.mon >= 2 {
      LeapRules(tm);
    }
    if tm.mon >= 2 && year % 4 == 0 && (year % 100 != 0 || year % 400 == 0) {
      sec := sec + 86400;
    }
    sec := sec + (tm.mday - 1) * 86400;
    sec := sec + tm.hour * 3600;
    sec := sec + tm.min * 60;
    return true, sec + tm.sec;
  }

  lemma ClockUnique(d: int, a: Tm, e: int, b: Tm)
    requires InRange(a) && InRange(b)
    requires d * 86400 + a.hour * 3600 + a.min * 60 + a.sec == e * 86400 + b.hour * 3600 + b.min * 60 + b.sec
    ensures d == e && a.hour == b.hour && a.min == b.min && a.sec == b.sec
  {
  }

  lemma DayInYear(tm: Tm)
    requires InRange(tm)
    ensures 0 <= DayNumber(tm) - DaysBefore(tm.year - 70) < YearLength(tm.year - 70)
  {
    MonthStartGrows(Fourth(tm.year - 70), tm.mon, 12);
    YearIsTwelveMonths(Fourth(tm.year - 70));
  }

  lemma SameYear(a: Tm, b: Tm)
    requires InRange(a) && InRange(b) && DayNumber(a) == DayNumber(b)
    ensures a.year <= b.year
  {
    DayInYear(a);
    DayInYear(b);
    if b.year < a.year {
      DaysBeforeGrows(b.year - 70, a.year - 70);
    }
  }

  lemma SameMonth(a: Tm, b: Tm)
    requires InRange(a) && InRange(b) && a.year == b.year && DayNumber(a) == DayNumber(b)
    ensures a.mon <= b.mon
  {
    if b.mon < a.mon {
      MonthStartGrows(Fourth(a.year - 70), b.mon, a.mon);
    }
  }

  /** A time breaks down in one way only. */
  lemma BrokenDownUnique(t: nat, a: Tm, b: Tm)
    requires BrokenDown(t, a) && BrokenDown(t, b)
    ensures a == b
  {
    ClockUnique(DayNumber(a), a, DayNumber(b), b);
    SameYear(a, b);
    SameYear(b, a);
    SameMonth(a, b);
    SameMonth(b, a);
  }

  /** The 29th of February in the 30th year counted from 1970. */
  lemma LeapDay(tm: Tm)
    requires tm.year == 100 && tm.mon == 1 && tm.mday == 29
    ensures Fourth(tm.year - 70) && DaysBefore(tm.year - 70) == 10957 && DayNumber(tm) == 11016
  {
    DaysBeforeFormula(tm.year - 70);
    assert MonthStart(true, tm.mon) == MonthStart(true, tm.mon - 1) + 31;
  }

  /** A known time: 12:34:56 on Tuesday, the 29th of February 2000, the 60th day of its year. */
  lemma KnownTime(t: nat, known: Tm, tm: Tm)
    requires t == 951827696 && known.year == 100 && known.mon == 1 && known.mday == 29
    requires known.hour == 12 && known.min == 34 && known.sec == 56 && known.yday == 59 && known.wday == 2
    ensures BrokenDown(t, tm) <==> tm == known
  {
    LeapDay(known);
    assert BrokenDown(t, known);
    if BrokenDown(t, tm) {
      BrokenDownUnique(t, tm, known);
    }
  }

  /** calc_time_t(_gmtime(t)) is t, except exactly when the day is lost. */
  method RoundTrip(t: nat) returns (back: int)
    ensures exists tm :: BrokenDown(t, tm)
    ensures forall tm :: BrokenDown(t, tm) ==> back == if LosesDay(tm) then t - 86400 else t
  {
    var tm := GmTime(t);
    var ok;
    ok, back := CalcTimeT(tm);
    forall other | BrokenDown(t, other)
      ensures other == tm
    {
      BrokenDownUnique(t, other, tm);
    }
  }
}
