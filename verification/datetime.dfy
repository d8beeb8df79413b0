/** The date class of src/DateTime.php: rollover arithmetic (in Gregorian),
    `forceWorkday` and the argument-swapping factory `create`. Objects are values
    here, so `copy` is the identity and every "mutator" returns a new date. */
module DateTime {
  import opened Options
  import opened Gregorian
  import Text

  /** `forceWorkday(next)`: Sunday becomes the following Monday; Saturday becomes
      the following Monday when `next` holds and the preceding Friday otherwise. */
  function ForceWorkday(x: Date, next: bool): (r: Date)
    ensures 1 <= IsoWeekday(r) <= 5
    ensures IsoWeekday(x) <= 5 ==> r == x
    ensures IsoWeekday(x) == 7 ==> IsoWeekday(r) == 1 && DayNumber(r) == DayNumber(x) + 1
    ensures IsoWeekday(x) == 6 && next ==> IsoWeekday(r) == 1 && DayNumber(r) == DayNumber(x) + 2
    ensures IsoWeekday(x) == 6 && !next ==> IsoWeekday(r) == 5 && DayNumber(r) == DayNumber(x) - 1
  {
    var wd := IsoWeekday(x);
    if wd == 7 then
      StepToWeekday(x, 1, 1);
      AddDays(x, 1)
    else if wd == 6 then
      if next then
        StepToWeekday(x, 2, 1);
        AddDays(x, 2)
      else
        StepToWeekday(x, -1, 5);
        AddDays(x, -1)
    else
      x
  }

  /** Moving n days from x reaches weekday w when the weekdays agree modulo 7. */
  lemma StepToWeekday(x: Date, n: int, w: int)
    requires 1 <= w <= 7 && (IsoWeekday(x) - 1 + n - (w - 1)) % 7 == 0
    requires -7 < IsoWeekday(x) - 1 + n < 14
    ensures IsoWeekday(AddDays(x, n)) == w
  {
    WeekdayAfter(x, n);
    SameResidue(IsoWeekday(x) - 1 + n, w - 1);
  }

  lemma SameResidue(a: int, b: int)
    requires 0 <= b < 7 && -7 < a < 14 && (a - b) % 7 == 0
    ensures a % 7 == b
  {
    if a < 0 {
      assert a - b == -7;
    } else if a >= 7 {
      assert a - b == 7;
    }
  }

  /** Forcing a workday twice is forcing it once, and it moves at most two days. */
  lemma ForceWorkdayIdempotent(x: Date, next: bool)
    ensures ForceWorkday(ForceWorkday(x, next), next) == ForceWorkday(x, next)
    ensures -1 <= DayNumber(ForceWorkday(x, next)) - DayNumber(x) <= 2
  {
  }

  /** The first argument of `create`: absent (today's day), a day number
      (or a year, see Create), a date text, or a date object. */
  datatype DayArg = Absent | Number(n: int) | DateText(text: string) | DateValue(date: Date)

  /** The year, month and day `create` asks the parser for, after the swap of a
      "day" above 31 with the year and after defaulting absent fields to today. */
  function CreateFields(day: DayArg, month: Option<int>, year: Option<int>, today: Date): (f: Ymd)
    requires day.Absent? || day.Number?
    ensures day.Number? && day.n > 31 ==> f.year == day.n && f.day == year.GetOr(today.day)
    ensures !(day.Number? && day.n > 31) ==> f.year == year.GetOr(today.year)
    ensures !(day.Number? && day.n > 31) && day.Number? ==> f.day == day.n
    ensures day.Absent? ==> f.day == today.day
    ensures f.month == month.GetOr(today.month)
  {
    var d: Option<int> := if day.Number? then Some(day.n) else None;
    var swap := d.Some? && d.value > 31;
    var d' := if swap then year else d;
    var y' := if swap then d else year;
    Ymd(y'.GetOr(today.year), month.GetOr(today.month), d'.GetOr(today.day))
  }

  /** The date PHP's parser makes of the text "y-m-d": years 0..9999, months
      0..12 and days 0..31 are read. Month 0 is December of the year before,
      day 0 the last day of the month before, and a day past the month's end
      rolls over into the next month. */
  function ParseFields(f: Ymd): (r: Result<Date>)
    ensures r.Success? <==> 0 <= f.year <= 9999 && 0 <= f.month <= 12 && 0 <= f.day <= 31
    ensures r.Success? && Valid(f) ==> r.value == f
    ensures r.Success? ==> var k := MonthIndex(f.year, f.month);
                           DayNumber(r.value) == MonthStart(k / 12, k % 12 + 1) + f.day - 1
    ensures r.Success? && 1 <= f.month ==> DayNumber(r.value) == MonthStart(f.year, f.month) + f.day - 1
  {
    if 0 <= f.year <= 9999 && 0 <= f.month <= 12 && 0 <= f.day <= 31 then
      var x := FromFields(f.year, f.month, f.day);
      if Valid(f) then
        DayNumberInjective(x, f);
        Success(x)
      else
        Success(x)
    else
      Failure(InvalidDate)
  }

  /** Month 0 is December of the year before: 2008-00-22 is 2007-12-22. */
  lemma ParseMonthZero()
    ensures ParseFields(Ymd(2008, 0, 22)) == Success(Ymd(2007, 12, 22))
  {
    MonthStep(2007, 12);
    DayNumberInjective(ParseFields(Ymd(2008, 0, 22)).value, Ymd(2007, 12, 22));
  }

  /** Day 0 is the last day of the month before: 2016-03-00 is 2016-02-29. */
  lemma ParseDayZero()
    ensures ParseFields(Ymd(2016, 3, 0)) == Success(Ymd(2016, 2, 29))
  {
    MonthStep(2016, 2);
    DayNumberInjective(ParseFields(Ymd(2016, 3, 0)).value, Ymd(2016, 2, 29));
  }

  /** The 1st of month m (0..12) parses to the 1st of the month m counts to,
      December of the year before for m = 0. */
  lemma ParseFirstOfMonth(y: int, m: int)
    requires 0 <= y <= 9999 && 0 <= m <= 12
    ensures var a := ParseFields(Ymd(y, m, 1)).value;
            a.day == 1 && MonthIndex(a.year, a.month) == MonthIndex(y, m)
  {
    var k := MonthIndex(y, m);
    MonthOfIndex(k);
    DayNumberInjective(ParseFields(Ymd(y, m, 1)).value, Ymd(k / 12, k % 12 + 1, 1));
  }

  /** `DateTime::create(day, month, year)`. */
  function Create(day: DayArg, month: Option<int>, year: Option<int>, today: Date): (r: Result<Date>)
    ensures day.DateValue? ==> r == Success(day.date)
    ensures day.DateText? && r.Success? ==> Text.IsoDate(r.value) == day.text
    ensures (day.Absent? || day.Number?) ==> r == ParseFields(CreateFields(day, month, year, today))
  {
    match day
    case DateValue(x) => Success(x)
    case DateText(s) =>
      var f := Text.ParseIsoDate(s);
      if f.Some? && Valid(f.value) && 0 <= f.value.year <= 9999 && Text.IsoDate(f.value) == s then
        Success(f.value)
      else
        Failure(InvalidDate)
    case _ => ParseFields(CreateFields(day, month, year, today))
  }

  /** A "day" above 31 is taken as the year: create(2016, 3, 2) is create(2, 3, 2016). */
  lemma CreateSwapsDayAndYear(d: int, month: Option<int>, y: int, today: Date)
    requires d > 31 && y <= 31
    ensures Create(Number(d), month, Some(y), today) == Create(Number(y), month, Some(d), today)
  {
  }

  /** A date text written as `Y-m-d` creates exactly that date. */
  lemma CreateFromIsoText(x: Date, month: Option<int>, year: Option<int>, today: Date)
    requires 0 <= x.year <= 9999
    ensures Create(DateText(Text.IsoDate(x)), month, year, today) == Success(x)
  {
    Text.IsoDateRoundTrip(x);
  }

  // ---------------------------------------------------------------------------
  // The cases of tests/DateTimeTest.php, as lemmas about the model

  lemma AddDaysExample()
    ensures AddDays(AddDays(AddDays(Ymd(2016, 1, 1), -1), 2), 0) == Ymd(2016, 1, 2)
  {
    AddZeroDays(AddDays(AddDays(Ymd(2016, 1, 1), -1), 2));
    AddDaysCompose(Ymd(2016, 1, 1), -1, 2);
    AddOneDay(Ymd(2016, 1, 1));
  }

  /** 31 January 2016 plus one month is 2 March, not 29 February. */
  lemma AddMonthsExample()
    ensures AddMonths(Ymd(2016, 1, 31), 1) == Ymd(2016, 3, 2)
    ensures AddMonths(AddMonths(AddMonths(Ymd(2016, 1, 31), 1), -2), 0) == Ymd(2016, 1, 2)
  {
    AddMonthsRollover(Ymd(2016, 1, 31), 1);
    AddMonthsRollover(Ymd(2016, 3, 2), -2);
    AddMonthsRollover(Ymd(2016, 1, 2), 0);
  }

  /** 29 February 2016 plus one year is 1 March 2017. */
  lemma AddYearsExample()
    ensures AddYears(Ymd(2016, 2, 29), 1) == Ymd(2017, 3, 1)
    ensures AddYears(AddYears(AddYears(Ymd(2016, 2, 29), 1), -2), 0) == Ymd(2015, 3, 1)
  {
    AddYearsRollover(Ymd(2016, 2, 29), 1);
    AddYearsRollover(Ymd(2017, 3, 1), -2);
    AddYearsRollover(Ymd(2015, 3, 1), 0);
  }

  /** Friday 4 March 2016 stays; the weekend goes back to Friday or on to Monday. */
  lemma ForceWorkdayBackExamples()
    ensures ForceWorkday(Ymd(2016, 3, 4), false) == Ymd(2016, 3, 4)
    ensures ForceWorkday(Ymd(2016, 3, 5), false) == Ymd(2016, 3, 4)
    ensures ForceWorkday(Ymd(2016, 3, 6), false) == Ymd(2016, 3, 7)
    ensures ForceWorkday(Ymd(2016, 3, 7), false) == Ymd(2016, 3, 7)
  {
    assert IsoWeekday(Ymd(2016, 3, 4)) == 5;
    assert IsoWeekday(Ymd(2016, 3, 5)) == 6;
    assert IsoWeekday(Ymd(2016, 3, 6)) == 7;
    assert IsoWeekday(Ymd(2016, 3, 7)) == 1;
    DayNumberInjective(ForceWorkday(Ymd(2016, 3, 5), false), Ymd(2016, 3, 4));
    DayNumberInjective(ForceWorkday(Ymd(2016, 3, 6), false), Ymd(2016, 3, 7));
  }

  /** With `next`, the whole weekend goes on to Monday 7 March 2016. */
  lemma ForceWorkdayNextExamples()
    ensures ForceWorkday(Ymd(2016, 3, 5), true) == Ymd(2016, 3, 7)
    ensures ForceWorkday(Ymd(2016, 3, 6), true) == Ymd(2016, 3, 7)
  {
    assert IsoWeekday(Ymd(2016, 3, 5)) == 6;
    assert IsoWeekday(Ymd(2016, 3, 6)) == 7;
    DayNumberInjective(ForceWorkday(Ymd(2016, 3, 5), true), Ymd(2016, 3, 7));
    DayNumberInjective(ForceWorkday(Ymd(2016, 3, 6), true), Ymd(2016, 3, 7));
  }

  lemma CreateFromNumbersExample(today: Date)
    ensures Create(Number(2), Some(3), Some(2016), today) == Success(Ymd(2016, 3, 2))
  {
  }

  /** A "day" of 2016 is taken as the year. */
  lemma CreateSwapExample(today: Date)
    ensures Create(Number(2016), Some(3), Some(2), today) == Success(Ymd(2016, 3, 2))
  {
  }

  /** Absent arguments are today's: the cases of the test table that depend on
      the clock, with today's date as a parameter. */
  lemma CreateDefaultsExample(today: Date)
    requires 0 <= today.year <= 9999
    ensures Create(Absent, None, None, today) == Success(today)
    ensures Create(Number(1), None, None, today) == Success(Ymd(today.year, today.month, 1))
    ensures Create(Number(1), Some(2), None, today) == Success(Ymd(today.year, 2, 1))
  {
  }

  /** Today's day and month are kept where they fit: any day fits March, and
      any day of any month fits the leap year 2016. */
  lemma CreateTodayFieldsExample(today: Date)
    requires 0 <= today.year <= 9999
    ensures Create(Number(2016), None, None, today) == Success(Ymd(2016, today.month, today.day))
    ensures Create(Absent, Some(3), None, today) == Success(Ymd(today.year, 3, today.day))
  {
    assert IsLeapYear(2016);
  }

  /** Today's day in February 2016: kept up to the 29th, rolled into March after it. */
  lemma CreateLeapFebruaryExample(today: Date)
    ensures today.day <= 29 ==> Create(Number(2016), Some(2), None, today) == Success(Ymd(2016, 2, today.day))
    ensures today.day > 29 ==> Create(Number(2016), Some(2), None, today) == Success(Ymd(2016, 3, today.day - 29))
  {
    var f := Ymd(2016, 2, today.day);
    assert CreateFields(Number(2016), Some(2), None, today) == f;
    var r := ParseFields(f).value;
    assert DaysInMonth(2016, 2) == 29 by { assert IsLeapYear(2016); }
    Rollover(r, 2016, 2, today.day);
    if today.day > 29 {
      MonthIndexSplits(r.year, r.month, 2016, 3);
    }
  }

  lemma CreateFromTextExample(today: Date)
    ensures Create(DateText("2016-01-02"), None, None, today) == Success(Ymd(2016, 1, 2))
  {
    IsoDateExample();
    CreateFromIsoText(Ymd(2016, 1, 2), None, None, today);
  }

  lemma IsoDateExample()
    ensures Text.IsoDate(Ymd(2016, 1, 2)) == "2016-01-02"
  {
  }
}
