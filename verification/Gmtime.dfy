/** nginx's conversion of seconds since 1970-01-01 into a Gregorian date and time, against a
    calendar that counts the days of every month and year.
 */
module Gmtime {

  datatype Tm = Tm(year: nat, mon: nat, mday: nat, wday: nat, hour: nat, min: nat, sec: nat)

  // ---------- the calendar

  predicate Leap(y: nat) {
    y % 4 == 0 && (y % 100 != 0 || y % 400 == 0)
  }

  function LeapDay(y: nat): nat { if Leap(y) then 1 else 0 }

  function MonthDays(y: nat, m: nat): nat {
    if m == 2 then 28 + LeapDay(y)
    else if m == 4 || m == 6 || m == 9 || m == 11 then 30
    else 31
  }

  ghost predicate ValidDate(y: nat, m: nat, d: nat) {
    1 <= m <= 12 && 1 <= d <= MonthDays(y, m)
  }

  /** Days of the year before month `m`. */
  function BeforeMonth(y: nat, m: nat): nat {
    if m <= 1 then 0 else BeforeMonth(y, m - 1) + MonthDays(y, m - 1)
  }

  /** Days from 1970 up to year `y`. */
  function BeforeYear(y: nat): nat {
    if y <= 1970 then 0 else BeforeYear(y - 1) + BeforeMonth(y - 1, 13)
  }

  /** Days from 1970-01-01 to a date. */
  function DayNumber(y: nat, m: nat, d: nat): nat
    requires d >= 1
  {
    BeforeYear(y) + BeforeMonth(y, m) + d - 1
  }

  /** The day of the week, from 0 for Sunday: 1970-01-01 was a Thursday. */
  function Weekday(day: nat): nat {
    if day == 0 then 4 else (Weekday(day - 1) + 1) % 7
  }

  lemma {:induction false} WeekdayMod(day: nat)
    ensures Weekday(day) == (4 + day) % 7
  {
    if day > 0 { WeekdayMod(day - 1); }
  }

  // ---------- years from March to February

  /** Days from March 1 of the year 0 to March 1 of year `y`. */
  function MarchDays(y: nat): int {
    365 * y + y / 4 - y / 100 + y / 400
  }

  lemma DivStep(y: nat, k: nat)
    requires k == 4 || k == 100 || k == 400
    ensures (y + 1) / k == y / k + (if (y + 1) % k == 0 then 1 else 0)
  {}

  lemma MarchStep(y: nat)
    ensures MarchDays(y + 1) == MarchDays(y) + 365 + LeapDay(y + 1)
  {
    DivStep(y, 4);
    DivStep(y, 100);
    DivStep(y, 400);
  }

  /** Days from March 1 to the first of the month that is `k` months later. */
  function MonthStart(k: nat): nat {
    if k == 0 then 0 else if k == 1 then 31 else if k == 2 then 61 else if k == 3 then 92
    else if k == 4 then 122 else if k == 5 then 153 else if k == 6 then 184 else if k == 7 then 214
    else if k == 8 then 245 else if k == 9 then 275 else if k == 10 then 306 else if k == 11 then 337 else 366
  }

  lemma YearDays(y: nat)
    ensures BeforeMonth(y, 3) == 59 + LeapDay(y) && BeforeMonth(y, 13) == 365 + LeapDay(y)
    ensures forall k: nat :: k <= 10 ==> BeforeMonth(y, k + 3) == 59 + LeapDay(y) + MonthStart(k)
  {
    var l := 59 + LeapDay(y);
    assert BeforeMonth(y, 2) == 31;
    assert BeforeMonth(y, 3) == l;
    assert BeforeMonth(y, 4) == l + 31;
    assert BeforeMonth(y, 5) == l + 61;
    assert BeforeMonth(y, 6) == l + 92;
    assert BeforeMonth(y, 7) == l + 122;
    assert BeforeMonth(y, 8) == l + 153;
    assert BeforeMonth(y, 9) == l + 184;
    assert BeforeMonth(y, 10) == l + 214;
    assert BeforeMonth(y, 11) == l + 245;
    assert BeforeMonth(y, 12) == l + 275;
    assert BeforeMonth(y, 13) == l + 306;
  }

  /** March 1 of a year, counted both ways. */
  lemma {:induction false} MarchNumber(y: nat)
    requires y >= 1970
    ensures BeforeYear(y) + 59 + LeapDay(y) == MarchDays(y) - 719527 + 59
  {
    if y > 1970 {
      MarchNumber(y - 1);
      MarchStep(y - 1);
      YearDays(y - 1);
    }
  }

  /** The year is estimated right or one too high: a day in the year from March 1 of `y` on gives
      `y` or `y + 1`. */
  lemma Estimate(days: nat, y: nat)
    requires MarchDays(y) <= days < MarchDays(y + 1)
    ensures y <= (days + 2) * 400 / 146097 <= y + 1
  {}

  lemma {:induction false} MarchYear(days: nat, y: nat) returns (year: nat)
    requires MarchDays(y) <= days
    ensures year >= y && MarchDays(year) <= days < MarchDays(year + 1)
    decreases days - MarchDays(y)
  {
    MarchStep(y);
    if days < MarchDays(y + 1) { year := y; } else { year := MarchYear(days, y + 1); }
  }

  // ---------- months

  /** The formula for the month and the one for the days before it. */
  lemma MonthFormula(yday: nat)
    requires yday < 366
    ensures var mon := (yday + 31) * 10 / 306;
            1 <= mon <= 12 && MonthStart(mon - 1) <= yday < MonthStart(mon)
            && 367 * mon / 12 - 30 == MonthStart(mon - 1)
  {}

  /** The first of a month from March to December. */
  lemma LaterMonths(y: nat, k: nat)
    requires k <= 9
    ensures BeforeMonth(y, k + 3) == 59 + LeapDay(y) + MonthStart(k)
    ensures MonthDays(y, k + 3) == MonthStart(k + 1) - MonthStart(k)
  {
    YearDays(y);
  }

  /** The date of the day `yday` of the year from March 1 of `y` on. */
  lemma DateOf(y: nat, yday: nat)
    requires y >= 1969 && yday < 365 + LeapDay(y + 1) && (y == 1969 ==> yday >= 306)
    ensures var k := (yday + 31) * 10 / 306 - 1;
            var mday := yday - MonthStart(k) + 1;
            && 0 <= k <= 11 && MonthStart(k) <= yday && (k > 9 <==> yday >= 306)
            && (k <= 9 ==> ValidDate(y, k + 3, mday) && DayNumber(y, k + 3, mday) == MarchDays(y) - 719527 + 59 + yday)
            && (k > 9 ==>
                  ValidDate(y + 1, k - 9, mday) && DayNumber(y + 1, k - 9, mday) == MarchDays(y) - 719527 + 59 + yday)
  {
    MonthFormula(yday);
    var k := (yday + 31) * 10 / 306 - 1;
    if k <= 9 {
      MarchNumber(y);
      LaterMonths(y, k);
    } else {
      MarchNumber(y + 1);
      MarchStep(y);
      assert BeforeMonth(y + 1, 1) == 0 && BeforeMonth(y + 1, 2) == 31;
    }
  }

  // ---------- ngx_gmtime

  /** The year from March to February that a day is in, and its day in it. */
  method YearOf(days: nat) returns (year: nat, yday: int)
    requires days >= 719527 - 59
    ensures MarchDays(year) <= days < MarchDays(year + 1) && yday == days - MarchDays(year) && year >= 1969
  {
    ghost var y := MarchYear(days, 1969);
    year := (days + 2) * 400 / (365 * 400 + 100 - 4 + 1);
    Estimate(days, y);
    MarchStep(y);
    yday := days - (365 * year + year / 4 - year / 100 + year / 400);
    assert yday == days - MarchDays(year);
    hide MarchDays;
    if yday < 0 {
      var leap := if year % 4 == 0 && (year % 100 != 0 || year % 400 == 0) then 1 else 0;
      yday := 365 + leap + yday;
      year := year - 1;
    }
  }

  /** The date of a day counted from March 1 of the year 0. */
  method FromMarch(days: nat) returns (year: nat, mon: nat, mday: nat)
    requires days >= 719527 - 59
    ensures ValidDate(year, mon, mday) && year >= 1970
    ensures DayNumber(year, mon, mday) == days - 719527 + 59
  {
    var yday;
    year, yday := YearOf(days);
    MarchStep(year);
    assert MarchDays(1969) == 719162;
    hide MarchDays, ValidDate, DayNumber, LeapDay;
    DateOf(year, yday);
    MonthFormula(yday);
    mon := (yday + 31) * 10 / 306;
    mday := yday - (367 * mon / 12 - 30) + 1;
    if yday >= 306 {
      year := year + 1;
      mon := mon - 10;
    } else {
      mon := mon + 2;
    }
  }

  /** The date and time of second `t`. */
  method Convert(t: nat) returns (tm: Tm)
    ensures ValidDate(tm.year, tm.mon, tm.mday) && tm.year >= 1970 && tm.hour < 24 && tm.min < 60 && tm.sec < 60
    ensures DayNumber(tm.year, tm.mon, tm.mday) * 86400 + tm.hour * 3600 + tm.min * 60 + tm.sec == t
    ensures tm.wday == Weekday(DayNumber(tm.year, tm.mon, tm.mday))
  {
    var n := t;
    var days: int := n / 86400;
    WeekdayMod(days);
    var wday := (4 + days) % 7;
    n := n % 86400;
    var hour := n / 3600;
    n := n % 3600;
    var min := n / 60;
    var sec := n % 60;
    ghost var number := days;
    days := days - (31 + 28) + 719527;
    var year, mon, mday := FromMarch(days);
    tm := Tm(year, mon, mday, wday, hour, min, sec);
    assert DayNumber(year, mon, mday) == number;
  }
}
