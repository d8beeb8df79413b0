/** The proleptic Gregorian calendar the PHP date objects rely on: validity of a
    (year, month, day) triple, a day number, PHP's rollover arithmetic for
    `modify('+n day|month|year')`, ISO weekdays and ISO week numbers. */
module Gregorian {

  /** A (year, month, day) triple, not necessarily a real date. */
  datatype Ymd = Ymd(year: int, month: int, day: int)

  /** An ISO 8601 week: week-numbering year and week 1..53. */
  datatype IsoWeek = IsoWeek(weekYear: int, week: int)

  predicate IsLeapYear(y: int) {
    y % 4 == 0 && (y % 100 != 0 || y % 400 == 0)
  }

  function DaysInMonth(y: int, m: int): (n: int)
    requires 1 <= m <= 12
    ensures 28 <= n <= 31
    ensures n == 29 <==> m == 2 && IsLeapYear(y)
    ensures n == 28 <==> m == 2 && !IsLeapYear(y)
  {
    if m == 2 then (if IsLeapYear(y) then 29 else 28)
    else if m == 4 || m == 6 || m == 9 || m == 11 then 30
    else 31
  }

  predicate Valid(x: Ymd) {
    1 <= x.month <= 12 && 1 <= x.day <= DaysInMonth(x.year, x.month)
  }

  /** A calendar day (no time of day). */
  type Date = x: Ymd | Valid(x) witness Ymd(1970, 1, 1)

  function YearLength(y: int): int {
    if IsLeapYear(y) then 366 else 365
  }

  /** Days from 0000-01-01 to y-01-01 (negative before year 0). */
  function DaysBeforeYear(y: int): int {
    365 * y + (y + 3) / 4 - (y + 99) / 100 + (y + 399) / 400
  }

  /** Days from y-01-01 to y-m-01. */
  function DaysBeforeMonth(y: int, m: int): int
    requires 1 <= m <= 12
  {
    var common :=
      if m == 1 then 0 else if m == 2 then 31 else if m == 3 then 59
      else if m == 4 then 90 else if m == 5 then 120 else if m == 6 then 151
      else if m == 7 then 181 else if m == 8 then 212 else if m == 9 then 243
      else if m == 10 then 273 else if m == 11 then 304 else 334;
    common + (if m > 2 && IsLeapYear(y) then 1 else 0)
  }

  /** Day number of the first day of month m of year y. */
  function MonthStart(y: int, m: int): int
    requires 1 <= m <= 12
  {
    DaysBeforeYear(y) + DaysBeforeMonth(y, m)
  }

  /** Days since 0000-01-01. */
  function DayNumber(x: Date): int {
    MonthStart(x.year, x.month) + x.day - 1
  }

  /** Months counted from January of year 0; the month arithmetic of `addMonths`. */
  function MonthIndex(y: int, m: int): int {
    12 * y + m - 1
  }

  lemma YearStep(y: int)
    ensures DaysBeforeYear(y + 1) == DaysBeforeYear(y) + YearLength(y)
  {
    FourStep(y);
    HundredStep(y);
    FourHundredStep(y);
    LeapDivisors(y);
  }

  /** (y + k) / k - (y + k - 1) / k counts whether k divides y, for k = 4, 100, 400. */
  lemma FourStep(y: int)
    ensures (y + 4) / 4 - (y + 3) / 4 == (if y % 4 == 0 then 1 else 0)
  {
    var q := (y + 3) / 4;
    assert y + 3 == 4 * q + (y + 3) % 4;
  }

  lemma HundredStep(y: int)
    ensures (y + 100) / 100 - (y + 99) / 100 == (if y % 100 == 0 then 1 else 0)
  {
    var q := (y + 99) / 100;
    assert y + 99 == 100 * q + (y + 99) % 100;
  }

  lemma FourHundredStep(y: int)
    ensures (y + 400) / 400 - (y + 399) / 400 == (if y % 400 == 0 then 1 else 0)
  {
    var q := (y + 399) / 400;
    assert y + 399 == 400 * q + (y + 399) % 400;
  }

  lemma LeapDivisors(y: int)
    ensures y % 400 == 0 ==> y % 100 == 0
    ensures y % 100 == 0 ==> y % 4 == 0
  {
  }

  /** The month after (y, m) starts DaysInMonth(y, m) days later. */
  lemma MonthStep(y: int, m: int)
    requires 1 <= m <= 12
    ensures m < 12 ==> MonthStart(y, m + 1) == MonthStart(y, m) + DaysInMonth(y, m)
    ensures m == 12 ==> MonthStart(y + 1, 1) == MonthStart(y, m) + DaysInMonth(y, m)
  {
    if m == 12 {
      YearStep(y);
    }
  }

  lemma {:induction false} DaysBeforeYearGrows(a: int, b: int)
    requires a <= b
    ensures DaysBeforeYear(a) + 365 * (b - a) <= DaysBeforeYear(b)
    decreases b - a
  {
    if a < b {
      DaysBeforeYearGrows(a, b - 1);
      YearStep(b - 1);
    }
  }

  /** A date's day number lies inside its year. */
  lemma YearBounds(x: Date)
    ensures DaysBeforeYear(x.year) <= DayNumber(x) < DaysBeforeYear(x.year + 1)
  {
    YearStep(x.year);
  }

  /** Distinct dates have distinct day numbers. */
  lemma DayNumberInjective(x: Date, z: Date)
    requires DayNumber(x) == DayNumber(z)
    ensures x == z
  {
    YearBounds(x);
    YearBounds(z);
    if x.year < z.year {
      DaysBeforeYearGrows(x.year + 1, z.year);
      assert false;
    } else if z.year < x.year {
      DaysBeforeYearGrows(z.year + 1, x.year);
      assert false;
    }
  }

  /** Rolls an out-of-range day of month (y, m) into the neighbouring months,
      as PHP's date normalisation does: 2016-02-31 is 2016-03-02. */
  function RollDays(y: int, m: int, d: int): (x: Date)
    requires 1 <= m <= 12
    ensures DayNumber(x) == MonthStart(y, m) + d - 1
    decreases if d < 1 then 1 - d else 0, if d < 1 then 0 else d
  {
    if d < 1 then
      var py := if m == 1 then y - 1 else y;
      var pm := if m == 1 then 12 else m - 1;
      MonthStep(py, pm);
      RollDays(py, pm, d + DaysInMonth(py, pm))
    else if d > DaysInMonth(y, m) then
      var ny := if m == 12 then y + 1 else y;
      var nm := if m == 12 then 1 else m + 1;
      MonthStep(y, m);
      RollDays(ny, nm, d - DaysInMonth(y, m))
    else
      Ymd(y, m, d)
  }

  /** The date PHP makes of the fields y-m-d when any of them is out of range:
      months carry into years, then days carry into months. */
  function FromFields(y: int, m: int, d: int): (x: Date)
    ensures DayNumber(x) == MonthStart(MonthIndex(y, m) / 12, MonthIndex(y, m) % 12 + 1) + d - 1
    ensures 1 <= m <= 12 ==> DayNumber(x) == MonthStart(y, m) + d - 1
  {
    if 1 <= m <= 12 then
      MonthParts(y, m);
      RollDays(y, m, d)
    else
      MonthCarry(y, m);
      RollDays(y + (m - 1) / 12, (m - 1) % 12 + 1, d)
  }

  /** `addDays(n)`: `modify('+n day')`. */
  function AddDays(x: Date, n: int): (r: Date)
    ensures DayNumber(r) == DayNumber(x) + n
  {
    FromFields(x.year, x.month, x.day + n)
  }

  /** `addMonths(n)`: `modify('+n month')`; the day of month is kept and overflows
      into the following month instead of being clamped. */
  function AddMonths(x: Date, n: int): (r: Date)
    ensures DayNumber(r) == MonthStart(MonthIndex(x.year, x.month + n) / 12,
                                       MonthIndex(x.year, x.month + n) % 12 + 1) + x.day - 1
  {
    FromFields(x.year, x.month + n, x.day)
  }

  /** `addYears(n)`: `modify('+n year')`, with the same overflow rule. */
  function AddYears(x: Date, n: int): (r: Date)
    ensures DayNumber(r) == MonthStart(x.year + n, x.month) + x.day - 1
  {
    FromFields(x.year + n, x.month, x.day)
  }

  /** ISO 8601 weekday: 1 = Monday .. 7 = Sunday. 0000-01-01 was a Saturday. */
  function IsoWeekday(x: Date): (r: int)
    ensures 1 <= r <= 7
  {
    (DayNumber(x) + 5) % 7 + 1
  }

  /** The ISO week of x (section 3.2.2 of ISO 8601:2004): every day of a
      Monday-to-Sunday week has the week of that week's Thursday. */
  function IsoWeekOf(x: Date): (w: IsoWeek)
    ensures 1 <= w.week <= 53
    decreases if IsoWeekday(x) < 4 then 4 - IsoWeekday(x) else IsoWeekday(x) - 4
  {
    var wd := IsoWeekday(x);
    if wd < 4 then
      NeighbourWeekdays(x);
      IsoWeekOf(Successor(x))
    else if wd > 4 then
      NeighbourWeekdays(x);
      IsoWeekOf(Predecessor(x))
    else
      ThursdayWeek(x)
  }

  /** The ISO week of a Thursday: its own year, and one plus the number of whole
      weeks of that year before it. */
  function ThursdayWeek(th: Date): (w: IsoWeek)
    ensures 1 <= w.week <= 53
  {
    ThursdayNearby(th, th);
    IsoWeek(th.year, (DayNumber(th) - DaysBeforeYear(th.year)) / 7 + 1)
  }

  /** Inside a Monday-to-Sunday week the weekday steps by one per day. */
  lemma NeighbourWeekdays(x: Date)
    ensures IsoWeekday(x) < 7 ==> IsoWeekday(Successor(x)) == IsoWeekday(x) + 1
    ensures IsoWeekday(x) > 1 ==> IsoWeekday(Predecessor(x)) == IsoWeekday(x) - 1
  {
    NeighbourSteps(x);
    WeekdayStep(DayNumber(x));
  }

  lemma WeekdayStep(n: int)
    ensures (n + 5) % 7 < 6 ==> (n + 6) % 7 == (n + 5) % 7 + 1
    ensures (n + 5) % 7 > 0 ==> (n + 4) % 7 == (n + 5) % 7 - 1
  {
    var q := (n + 5) / 7;
    assert n + 5 == 7 * q + (n + 5) % 7;
  }

  /** A date at most three days away from x lies in x's year or a neighbouring one,
      and inside its own year. */
  lemma ThursdayNearby(x: Date, th: Date)
    requires -3 <= DayNumber(th) - DayNumber(x) <= 3
    ensures x.year - 1 <= th.year <= x.year + 1
    ensures 0 <= DayNumber(th) - DaysBeforeYear(th.year) < 366
  {
    YearBounds(th);
    YearBounds(x);
    if th.year < x.year - 1 {
      DaysBeforeYearGrows(th.year + 1, x.year);
    } else if th.year > x.year + 1 {
      DaysBeforeYearGrows(x.year + 1, th.year);
    }
    YearStep(th.year);
  }

  // ---------------------------------------------------------------------------
  // Properties of the arithmetic

  /** The day after x, spelled out by fields. */
  function Successor(x: Date): Date {
    if x.day < DaysInMonth(x.year, x.month) then Ymd(x.year, x.month, x.day + 1)
    else if x.month < 12 then Ymd(x.year, x.month + 1, 1)
    else Ymd(x.year + 1, 1, 1)
  }

  /** The day before x, spelled out by fields. */
  function Predecessor(x: Date): Date {
    if x.day > 1 then Ymd(x.year, x.month, x.day - 1)
    else if x.month > 1 then Ymd(x.year, x.month - 1, DaysInMonth(x.year, x.month - 1))
    else Ymd(x.year - 1, 12, 31)
  }

  /** Successor and Predecessor step the day number by one and undo each other. */
  lemma NeighbourSteps(x: Date)
    ensures DayNumber(Successor(x)) == DayNumber(x) + 1
    ensures DayNumber(Predecessor(x)) == DayNumber(x) - 1
    ensures Predecessor(Successor(x)) == x && Successor(Predecessor(x)) == x
  {
    SuccessorStep(x);
    PredecessorStep(x);
  }

  lemma SuccessorStep(x: Date)
    ensures DayNumber(Successor(x)) == DayNumber(x) + 1 && Predecessor(Successor(x)) == x
  {
    MonthStep(x.year, x.month);
  }

  lemma PredecessorStep(x: Date)
    ensures DayNumber(Predecessor(x)) == DayNumber(x) - 1 && Successor(Predecessor(x)) == x
  {
    if x.month > 1 {
      MonthStep(x.year, x.month - 1);
    } else {
      MonthStep(x.year - 1, 12);
    }
  }

  /** `addDays(1)` steps to the next day of the month, or to the 1st of the next month. */
  lemma AddOneDay(x: Date)
    ensures AddDays(x, 1) == Successor(x)
  {
    MonthStep(x.year, x.month);
    DayNumberInjective(AddDays(x, 1), Successor(x));
  }

  /** `addDays(0)` is the identity. */
  lemma AddZeroDays(x: Date)
    ensures AddDays(x, 0) == x
  {
    DayNumberInjective(AddDays(x, 0), x);
  }

  /** Day shifts compose: addDays(a) then addDays(b) is addDays(a + b). */
  lemma AddDaysCompose(x: Date, a: int, b: int)
    ensures AddDays(AddDays(x, a), b) == AddDays(x, a + b)
  {
    DayNumberInjective(AddDays(AddDays(x, a), b), AddDays(x, a + b));
  }

  /** The weekday advances by one per day, cyclically. */
  lemma WeekdayAfter(x: Date, n: int)
    ensures IsoWeekday(AddDays(x, n)) == (IsoWeekday(x) - 1 + n) % 7 + 1
  {
    WeekdayShift(DayNumber(x), n);
  }

  lemma WeekdayShift(a: int, n: int)
    ensures (a + n + 5) % 7 + 1 == ((a + 5) % 7 + 1 - 1 + n) % 7 + 1
  {
    ModSeven(a + 5, n);
  }

  lemma SmallMod(a: int)
    requires 0 <= a < 7
    ensures a % 7 == a
  {
  }

  lemma ModSeven(a: int, n: int)
    ensures (a + n) % 7 == (a % 7 + n) % 7
  {
    var q := a / 7;
    assert a == 7 * q + a % 7;
    assert a + n == 7 * q + (a % 7 + n);
  }

  /** addMonths keeps the day of month when it fits in the target month, and
      otherwise rolls the overflow into the month after (no clamping). */
  lemma AddMonthsRollover(x: Date, n: int)
    ensures var k := MonthIndex(x.year, x.month + n);
            var ty := k / 12;
            var tm := k % 12 + 1;
            var r := AddMonths(x, n);
            && (x.day <= DaysInMonth(ty, tm) ==> r == Ymd(ty, tm, x.day))
            && (x.day > DaysInMonth(ty, tm) ==>
                  MonthIndex(r.year, r.month) == k + 1 && r.day == x.day - DaysInMonth(ty, tm))
  {
    Rollover(AddMonths(x, n), MonthIndex(x.year, x.month + n) / 12,
             MonthIndex(x.year, x.month + n) % 12 + 1, x.day);
    MonthOfIndex(MonthIndex(x.year, x.month + n));
  }

  /** Carrying months into years keeps the month index. */
  lemma MonthCarry(y: int, m: int)
    ensures y + (m - 1) / 12 == MonthIndex(y, m) / 12
    ensures (m - 1) % 12 + 1 == MonthIndex(y, m) % 12 + 1
  {
    var q := (m - 1) / 12;
    assert m - 1 == 12 * q + (m - 1) % 12;
    assert MonthIndex(y, m) == 12 * (y + q) + (m - 1) % 12;
  }

  /** The date at the day number of day d of month (y, m), 1 <= d <= 31: that day
      when the month has it, else day d - DaysInMonth(y, m) of the next month. */
  lemma Rollover(r: Date, y: int, m: int, d: int)
    requires 1 <= m <= 12 && 1 <= d <= 31
    requires DayNumber(r) == MonthStart(y, m) + d - 1
    ensures if d <= DaysInMonth(y, m) then r == Ymd(y, m, d)
            else MonthIndex(r.year, r.month) == MonthIndex(y, m) + 1 && r.day == d - DaysInMonth(y, m)
  {
    if d <= DaysInMonth(y, m) {
      DayNumberInjective(r, Ymd(y, m, d));
    } else {
      MonthStep(y, m);
      var ny := if m == 12 then y + 1 else y;
      var nm := if m == 12 then 1 else m + 1;
      DayNumberInjective(r, Ymd(ny, nm, d - DaysInMonth(y, m)));
    }
  }

  /** addYears moves to the same month and day of year y + n, with 29 February
      rolling over to 1 March in a common year. */
  lemma AddYearsRollover(x: Date, n: int)
    ensures var r := AddYears(x, n);
            if x.day <= DaysInMonth(x.year + n, x.month) then r == Ymd(x.year + n, x.month, x.day)
            else r == Ymd(x.year + n, 3, 1)
  {
    var y := x.year + n;
    var r := AddYears(x, n);
    Rollover(r, y, x.month, x.day);
    OnlyFebruaryVaries(x.year, y, x.month);
    if x.day > DaysInMonth(y, x.month) {
      MonthIndexSplits(r.year, r.month, y, 3);
    }
  }

  /** Only February's length depends on the year. */
  lemma OnlyFebruaryVaries(y: int, z: int, m: int)
    requires 1 <= m <= 12
    ensures m != 2 ==> DaysInMonth(y, m) == DaysInMonth(z, m)
  {
  }

  /** The month index k names year k / 12 and month k % 12 + 1. */
  lemma MonthOfIndex(k: int)
    ensures MonthIndex(k / 12, k % 12 + 1) == k
  {
  }

  /** The month index of a real month gives back its year and month. */
  lemma MonthParts(y: int, m: int)
    requires 1 <= m <= 12
    ensures MonthIndex(y, m) / 12 == y && MonthIndex(y, m) % 12 + 1 == m
  {
  }

  /** Month indexes of real months name one year and month. */
  lemma MonthIndexSplits(y: int, m: int, z: int, k: int)
    requires 1 <= m <= 12 && 1 <= k <= 12 && MonthIndex(y, m) == MonthIndex(z, k)
    ensures y == z && m == k
  {
  }

  /** The day before the 1st of a month is the last day of the month before. */
  lemma DayBeforeFirst(x: Date)
    requires x.day == 1
    ensures var p := AddDays(x, -1);
            p.day == DaysInMonth(p.year, p.month) && MonthIndex(p.year, p.month) == MonthIndex(x.year, x.month) - 1
  {
    var py := if x.month == 1 then x.year - 1 else x.year;
    var pm := if x.month == 1 then 12 else x.month - 1;
    MonthStep(py, pm);
    var e: Date := Ymd(py, pm, DaysInMonth(py, pm));
    DayNumberInjective(AddDays(x, -1), e);
  }

  /** The ISO week of x is the week of the Thursday 4 - weekday days away. */
  lemma {:induction false} IsoWeekOfThursday(x: Date, th: Date)
    requires DayNumber(th) == DayNumber(x) + 4 - IsoWeekday(x)
    ensures IsoWeekOf(x) == ThursdayWeek(th)
    decreases if IsoWeekday(x) < 4 then 4 - IsoWeekday(x) else IsoWeekday(x) - 4
  {
    var wd := IsoWeekday(x);
    if wd < 4 {
      NeighbourWeekdays(x);
      NeighbourSteps(x);
      IsoWeekOfThursday(Successor(x), th);
    } else if wd > 4 {
      NeighbourWeekdays(x);
      NeighbourSteps(x);
      IsoWeekOfThursday(Predecessor(x), th);
    } else {
      DayNumberInjective(th, x);
    }
  }

  /** The week-numbering year of x is x's year or a neighbouring one. */
  lemma IsoWeekYearNear(x: Date)
    ensures x.year - 1 <= IsoWeekOf(x).weekYear <= x.year + 1
  {
    var th := AddDays(x, 4 - IsoWeekday(x));
    IsoWeekOfThursday(x, th);
    ThursdayNearby(x, th);
  }

  /** Every day of x's Monday-to-Sunday week has x's ISO week. */
  lemma IsoWeekOfSameWeek(x: Date, k: int)
    requires 1 <= IsoWeekday(x) + k <= 7
    ensures IsoWeekOf(AddDays(x, k)) == IsoWeekOf(x)
  {
    var z := AddDays(x, k);
    var th := AddDays(x, 4 - IsoWeekday(x));
    WeekdayAfter(x, k);
    SmallMod(IsoWeekday(x) - 1 + k);
    IsoWeekOfThursday(x, th);
    IsoWeekOfThursday(z, th);
  }

}
