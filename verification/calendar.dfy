/** The state of a `Calendar` of src/Calendar.php and everything that sets it up:
    the range constructors `year` and `months`, the format setters, the entry list
    of `addEntries`, and the weekday header that `buildWeekdays` caches until a
    setter marks it stale. Calendars are values: a setter returns the new one. */
module Calendars {
  import opened Options
  import opened Gregorian
  import Text
  import DayRecord
  import DateTime
  import FirstWeekday

  /** Locale formatting (`formatLoc`, i.e. `strftime`) of a date with a pattern. */
  type Renderer = (Date, string) -> string

  /** An item of a day's `entries`: the fields `addEntries` keeps after dropping
      the empty ones. */
  datatype Entry = Entry(className: Option<string>, title: Option<string>, link: Option<string>)

  /** `setWeekdayFormat` takes a strftime pattern or a list of labels from Monday on. */
  datatype WeekdayFormat = Pattern(pattern: string) | Labels(labels: seq<string>)

  /** `setFirstWeekday` takes a column offset or a country code. */
  datatype FirstWeekdayArg = Offset(n: int) | Country(code: string)

  /** One item of the `weekdays` header: key "mon".."sun" and its caption
      (`null` when a caption list has no item at the index asked for). */
  datatype HeaderCell = HeaderCell(key: string, caption: Option<string>)

  datatype Calendar = Calendar(
    from: Date, till: Date,
    firstWeekday: int,
    dayFormat: string, monthFormat: string, yearFormat: string,
    weekdayFormat: WeekdayFormat,
    entries: map<Date, seq<Entry>>,
    weekdays: seq<HeaderCell>,
    stale: bool)

  const DefaultDayFormat: string := "%#d"
  const DefaultMonthFormat: string := "%B"
  const DefaultYearFormat: string := "%Y"
  const DefaultWeekdayFormat: WeekdayFormat := Pattern("%a")
  /** The class `addEntries` gives entries when none is passed. */
  const DefaultClass: string := "holiday"

  /** `new Calendar(from, till)`: both ends are shown; default formats, first
      weekday Monday, no entries, header still to be built. */
  function NewCalendar(from: Date, till: Date): (c: Calendar)
    ensures c.from == from && c.till == till && c.firstWeekday == 0
    ensures c.dayFormat == DefaultDayFormat && c.monthFormat == DefaultMonthFormat
    ensures c.yearFormat == DefaultYearFormat && c.weekdayFormat == DefaultWeekdayFormat
    ensures c.entries == map[] && c.stale
  {
    Calendar(from, till, 0, DefaultDayFormat, DefaultMonthFormat, DefaultYearFormat,
             DefaultWeekdayFormat, map[], [], true)
  }

  // ---------------------------------------------------------------------------
  // Setters

  function SetDayFormat(c: Calendar, format: string): (r: Calendar)
    ensures r.dayFormat == format && r.(dayFormat := c.dayFormat) == c
  {
    c.(dayFormat := format)
  }

  function SetMonthFormat(c: Calendar, format: string): (r: Calendar)
    ensures r.monthFormat == format && r.(monthFormat := c.monthFormat) == c
  {
    c.(monthFormat := format)
  }

  function SetYearFormat(c: Calendar, format: string): (r: Calendar)
    ensures r.yearFormat == format && r.(yearFormat := c.yearFormat) == c
  {
    c.(yearFormat := format)
  }

  /** Changing the weekday labels marks the cached header stale. */
  function SetWeekdayFormat(c: Calendar, format: WeekdayFormat): (r: Calendar)
    ensures r.weekdayFormat == format && r.stale
    ensures r.(weekdayFormat := c.weekdayFormat, stale := c.stale) == c
  {
    c.(weekdayFormat := format, stale := true)
  }

  /** A country code is looked up; an offset is taken as it is. Either way the
      cached header is stale. */
  function SetFirstWeekday(c: Calendar, arg: FirstWeekdayArg): (r: Calendar)
    ensures arg.Offset? ==> r.firstWeekday == arg.n
    ensures arg.Country? ==> 0 <= r.firstWeekday <= 6
    ensures arg.Country? ==> r.firstWeekday == FirstWeekday.Lookup(arg.code)
    ensures r.stale && r.(firstWeekday := c.firstWeekday, stale := c.stale) == c
  {
    var fw := match arg
      case Offset(n) => n
      case Country(code) => FirstWeekday.Lookup(code);
    c.(firstWeekday := fw, stale := true)
  }

  // ---------------------------------------------------------------------------
  // The weekday header

  /** `strtolower(format('D'))` of an ISO weekday. */
  function WeekdayKey(wd: int): (k: string)
    requires 1 <= wd <= 7
    ensures |k| == 3
  {
    ["mon", "tue", "wed", "thu", "fri", "sat", "sun"][wd - 1]
  }

  /** Different weekdays have different keys, so the header's seven keys are
      seven different array keys. */
  lemma WeekdayKeyInjective(a: int, b: int)
    requires 1 <= a <= 7 && 1 <= b <= 7
    ensures WeekdayKey(a) == WeekdayKey(b) <==> a == b
  {
    if a != b {
      var ka, kb := WeekdayKey(a), WeekdayKey(b);
      assert ka[0] != kb[0] || ka[1] != kb[1];
    }
  }

  /** PHP's `% 7`: the remainder takes the sign of the dividend. */
  function PhpMod7(a: int): (r: int)
    ensures a >= 0 ==> r == a % 7
    ensures -7 < r < 7 && (r < 0 <==> a < 0 && a % 7 != 0)
    ensures (a - r) % 7 == 0
  {
    if a >= 0 then a % 7 else -((-a) % 7)
  }

  /** Monday 6 January 2014, the day `buildWeekdays` counts from. */
  const HeaderAnchor: Date := Ymd(2014, 1, 6)

  /** Item i of the header: the date fw + i days after the anchor Monday, labelled
      from the list at index (i + fw) % 7 or by rendering that date. */
  function HeaderCellAt(fw: int, format: WeekdayFormat, render: Renderer, i: int): (h: HeaderCell)
    ensures h.key == WeekdayKey((fw + i) % 7 + 1)
    ensures format.Pattern? ==> h.caption.Some?
    ensures format.Pattern? ==>
              exists x: Date :: IsoWeekday(x) == (fw + i) % 7 + 1 && h.caption == Some(render(x, format.pattern))
  {
    var x := AddDays(HeaderAnchor, fw + i);
    AnchorWeekday(fw + i);
    var caption := match format
      case Labels(ls) =>
        var k := PhpMod7(i + fw);
        if 0 <= k < |ls| then Some(ls[k]) else None
      case Pattern(p) => Some(render(x, p));
    HeaderCell(WeekdayKey(IsoWeekday(x)), caption)
  }

  /** The seven header items `buildWeekdays` writes, in its order. */
  function WeekdayHeader(fw: int, format: WeekdayFormat, render: Renderer): (h: seq<HeaderCell>)
    ensures |h| == 7
    ensures forall i :: 0 <= i < 7 ==> h[i] == HeaderCellAt(fw, format, render, i)
  {
    seq(7, i requires 0 <= i < 7 => HeaderCellAt(fw, format, render, i))
  }

  /** The anchor is a Monday, so day k after it has ISO weekday k mod 7 + 1. */
  lemma AnchorWeekday(k: int)
    ensures IsoWeekday(AddDays(HeaderAnchor, k)) == k % 7 + 1
  {
    WeekdayAfter(HeaderAnchor, k);
    assert IsoWeekday(HeaderAnchor) == 1;
  }

  /** The header starts with the weekday of column 0 and names the seven weekdays
      once each: item i is weekday (fw + i) mod 7, counted from Monday. */
  lemma HeaderKeys(fw: int, format: WeekdayFormat, render: Renderer, i: int)
    requires 0 <= i < 7
    ensures WeekdayHeader(fw, format, render)[i].key == WeekdayKey((fw + i) % 7 + 1)
  {
    AnchorWeekday(fw + i);
  }

  /** With a full label list and an offset in 0..6, item i carries the caption of
      its own weekday: list index (fw + i) mod 7, Monday first. */
  lemma HeaderLabels(fw: int, labels: seq<string>, render: Renderer, i: int)
    requires 0 <= fw <= 6 && 0 <= i < 7 && |labels| == 7
    ensures WeekdayHeader(fw, Labels(labels), render)[i].caption == Some(labels[(fw + i) % 7])
  {
  }

  /** A label list shorter than seven leaves some labels `null`. */
  lemma HeaderMissingLabel(fw: int, labels: seq<string>, render: Renderer)
    requires 0 <= fw <= 6 && |labels| < 7
    ensures exists i :: 0 <= i < 7 && WeekdayHeader(fw, Labels(labels), render)[i].caption == None
  {
    var i := (13 - fw) % 7;
    assert (i + fw) % 7 == 6;
    assert WeekdayHeader(fw, Labels(labels), render)[i].caption == None;
  }

  /** The cached header is either stale or agrees with the current settings. */
  ghost predicate HeaderCurrent(c: Calendar, render: Renderer) {
    !c.stale ==> c.weekdays == WeekdayHeader(c.firstWeekday, c.weekdayFormat, render)
  }

  /** `buildWeekdays`: rebuilds the header only when it is stale. */
  function BuildWeekdays(c: Calendar, render: Renderer): (r: Calendar)
    requires HeaderCurrent(c, render)
    ensures !r.stale && r.weekdays == WeekdayHeader(c.firstWeekday, c.weekdayFormat, render)
    ensures r.(weekdays := c.weekdays, stale := c.stale) == c
  {
    if c.stale then
      c.(weekdays := WeekdayHeader(c.firstWeekday, c.weekdayFormat, render), stale := false)
    else c
  }

  /** Building the header twice is building it once. */
  lemma BuildWeekdaysIdempotent(c: Calendar, render: Renderer)
    requires HeaderCurrent(c, render)
    ensures HeaderCurrent(BuildWeekdays(c, render), render)
    ensures BuildWeekdays(BuildWeekdays(c, render), render) == BuildWeekdays(c, render)
  {
  }

  /** Every setter, and adding entries, keeps the cache honest. */
  lemma SettersKeepHeaderCurrent(c: Calendar, render: Renderer, s: string,
                                 f: WeekdayFormat, a: FirstWeekdayArg,
                                 days: seq<DayRecord.Day>, className: string)
    requires HeaderCurrent(c, render)
    ensures HeaderCurrent(SetDayFormat(c, s), render)
    ensures HeaderCurrent(SetMonthFormat(c, s), render)
    ensures HeaderCurrent(SetYearFormat(c, s), render)
    ensures HeaderCurrent(SetWeekdayFormat(c, f), render)
    ensures HeaderCurrent(SetFirstWeekday(c, a), render)
    ensures HeaderCurrent(AddEntries(c, days, className), render)
    ensures HeaderCurrent(NewCalendar(c.from, c.till), render)
  {
  }

  // ---------------------------------------------------------------------------
  // Entries

  /** The entries stored for a date; a date without a key holds none. */
  function EntriesAt(m: map<Date, seq<Entry>>, x: Date): seq<Entry> {
    if x in m then m[x] else []
  }

  /** The item `addEntries` stores for one annotated day. */
  function EntryOf(d: DayRecord.Day, className: string): (e: Entry)
    ensures e.className == Text.Sparse(className)
    ensures e.title == Text.SparseOpt(d.title) && e.link == Text.SparseOpt(d.link)
  {
    Entry(Text.Sparse(className), Text.SparseOpt(d.title), Text.SparseOpt(d.link))
  }

  /** The items for date x among `days`, in their order: the reference the entry
      lists are compared with. */
  function EntriesOn(days: seq<DayRecord.Day>, x: Date, className: string): (r: seq<Entry>)
    ensures |r| <= |days|
  {
    if days == [] then []
    else (if days[0].date == x then [EntryOf(days[0], className)] else []) + EntriesOn(days[1..], x, className)
  }

  /** `addEntries(days, className)`: appends, day by day, an item to the list of
      the day's date. Every date's list grows by exactly its own items, in order,
      so a date no day names keeps its list. */
  function AddEntries(c: Calendar, days: seq<DayRecord.Day>, className: string): (r: Calendar)
    ensures forall x :: EntriesAt(r.entries, x) == EntriesAt(c.entries, x) + EntriesOn(days, x, className)
    ensures r.(entries := c.entries) == c
    decreases |days|
  {
    if days == [] then c
    else
      var d := days[0];
      var c' := c.(entries := Stored(c.entries, d, className));
      var r := AddEntries(c', days[1..], className);
      StoreHead(c.entries, days, className, r.entries);
      r
  }

  /** Storing the first day's item, then the items of the rest, stores the
      items of all the days. */
  lemma StoreHead(m: map<Date, seq<Entry>>, days: seq<DayRecord.Day>, className: string,
                  r: map<Date, seq<Entry>>)
    requires days != []
    requires forall x :: EntriesAt(r, x) == EntriesAt(Stored(m, days[0], className), x)
                                            + EntriesOn(days[1..], x, className)
    ensures forall x :: EntriesAt(r, x) == EntriesAt(m, x) + EntriesOn(days, x, className)
  {
    forall x
      ensures EntriesAt(r, x) == EntriesAt(m, x) + EntriesOn(days, x, className)
    {
      StoreHeadAt(m, days, className, x);
    }
  }

  /** The lists after storing the item of d. */
  function Stored(m: map<Date, seq<Entry>>, d: DayRecord.Day, className: string): map<Date, seq<Entry>> {
    m[d.date := EntriesAt(m, d.date) + [EntryOf(d, className)]]
  }

  lemma StoreHeadAt(m: map<Date, seq<Entry>>, days: seq<DayRecord.Day>, className: string, x: Date)
    requires days != []
    ensures EntriesAt(Stored(m, days[0], className), x) + EntriesOn(days[1..], x, className)
            == EntriesAt(m, x) + EntriesOn(days, x, className)
  {
    var h := if days[0].date == x then [EntryOf(days[0], className)] else [];
    var a, t := EntriesAt(m, x), EntriesOn(days[1..], x, className);
    assert EntriesOn(days, x, className) == h + t;
    assert EntriesAt(Stored(m, days[0], className), x) == a + h;
    assert (a + h) + t == a + (h + t);
  }

  /** Every item made from `days` carries the class given, dropped when empty. */
  lemma {:induction false} EntriesOnClass(days: seq<DayRecord.Day>, x: Date, className: string)
    ensures forall e :: e in EntriesOn(days, x, className) ==> e.className == Text.Sparse(className)
    decreases |days|
  {
    if days != [] {
      EntriesOnClass(days[1..], x, className);
    }
  }

  /** Without a class argument every added item is of class "holiday". */
  lemma DefaultClassEntries(days: seq<DayRecord.Day>, x: Date)
    ensures forall e :: e in EntriesOn(days, x, DefaultClass) ==> e.className == Some("holiday")
  {
    EntriesOnClass(days, x, DefaultClass);
  }

  /** The source keys the lists by the date's `Y-m-d` text. That text names one
      date only, so keying by the date itself holds the same lists. */
  lemma EntryKeysAreDates(x: Date, z: Date)
    ensures Text.IsoDate(x) == Text.IsoDate(z) <==> x == z
  {
    if Text.IsoDate(x) == Text.IsoDate(z) {
      Text.IsoDateInjective(x, z);
    }
  }

  /** A day never given an item has no entries on a fresh calendar. */
  lemma NoEntriesWithoutDays(from: Date, till: Date, days: seq<DayRecord.Day>, className: string, x: Date)
    requires forall k :: 0 <= k < |days| ==> days[k].date != x
    ensures EntriesAt(AddEntries(NewCalendar(from, till), days, className).entries, x) == []
  {
    EntriesOnNone(days, x, className);
  }

  lemma {:induction false} EntriesOnNone(days: seq<DayRecord.Day>, x: Date, className: string)
    requires forall k :: 0 <= k < |days| ==> days[k].date != x
    ensures EntriesOn(days, x, className) == []
    decreases |days|
  {
    if days != [] {
      EntriesOnNone(days[1..], x, className);
    }
  }

  /** Adding days one call at a time is adding them in one call. */
  lemma {:induction false} AddEntriesAppend(c: Calendar, a: seq<DayRecord.Day>, b: seq<DayRecord.Day>, className: string)
    ensures forall x :: EntriesAt(AddEntries(AddEntries(c, a, className), b, className).entries, x)
                     == EntriesAt(AddEntries(c, a + b, className).entries, x)
  {
    forall x {
      AddEntriesAppendAt(c, a, b, className, x);
    }
  }

  lemma AddEntriesAppendAt(c: Calendar, a: seq<DayRecord.Day>, b: seq<DayRecord.Day>, className: string, x: Date)
    ensures EntriesAt(AddEntries(AddEntries(c, a, className), b, className).entries, x)
            == EntriesAt(AddEntries(c, a + b, className).entries, x)
  {
    var o, ea, eb := EntriesAt(c.entries, x), EntriesOn(a, x, className), EntriesOn(b, x, className);
    var ab := a + b;
    EntriesOnAppend(a, b, x, className);
    AddEntriesAt(c, ab, className, x);
    assert (o + ea) + eb == o + (ea + eb);
  }

  /** AddEntries's contract at one date, as a fact with no quantifier. */
  lemma AddEntriesAt(c: Calendar, days: seq<DayRecord.Day>, className: string, x: Date)
    ensures EntriesAt(AddEntries(c, days, className).entries, x) == EntriesAt(c.entries, x) + EntriesOn(days, x, className)
  {
  }

  lemma {:induction false} EntriesOnAppend(a: seq<DayRecord.Day>, b: seq<DayRecord.Day>, x: Date, className: string)
    ensures EntriesOn(a + b, x, className) == EntriesOn(a, x, className) + EntriesOn(b, x, className)
    decreases |a|
  {
    if a != [] {
      assert (a + b)[0] == a[0] && (a + b)[1..] == a[1..] + b;
      EntriesOnAppend(a[1..], b, x, className);
      var h := if a[0].date == x then [EntryOf(a[0], className)] else [];
      assert h + (EntriesOn(a[1..], x, className) + EntriesOn(b, x, className))
          == (h + EntriesOn(a[1..], x, className)) + EntriesOn(b, x, className);
    } else {
      assert a + b == b;
    }
  }

  // ---------------------------------------------------------------------------
  // Range constructors

  /** `Calendar::year(year)`, with today's date for an absent year: from
      1 January to the day before the next 1 January, once the text "y-01-01"
      has been parsed. */
  function YearCalendar(year: Option<int>, today: Date): (r: Result<Calendar>)
    ensures var y := year.GetOr(today.year);
            && (r.Success? <==> 0 <= y <= 9999)
            && (r.Success? ==> r.value == NewCalendar(Ymd(y, 1, 1), Ymd(y, 12, 31)))
  {
    var y := year.GetOr(today.year);
    var f := DateTime.ParseFields(Ymd(y, 1, 1));
    if f.Failure? then Failure(f.error)
    else
      var from := f.value;
      var till := AddDays(AddYears(from, 1), -1);
      AddYearsRollover(from, 1);
      DayBeforeFirst(AddYears(from, 1));
      assert till.day == DaysInMonth(till.year, till.month);
      MonthStep(y, 12);
      DayNumberInjective(till, Ymd(y, 12, 31));
      Success(NewCalendar(from, till))
  }

  /** A year calendar spans the whole year, one day per day of the year; with
      no year given it is the calendar of today's year. */
  lemma YearCalendarLength(year: Option<int>, today: Date)
    requires 0 <= year.GetOr(today.year) <= 9999
    ensures var c := YearCalendar(year, today).value;
            DayNumber(c.till) - DayNumber(c.from) + 1 == YearLength(year.GetOr(today.year))
    ensures YearCalendar(None, today) == YearCalendar(Some(today.year), today)
  {
    var y := year.GetOr(today.year);
    YearStep(y);
    MonthStep(y, 12);
  }

  /** The month shift `months(count)` applies: |count| - 1 months in the
      direction of count's sign, 0 for count 0. */
  function MonthsDelta(count: int): (delta: int)
    ensures count > 0 ==> delta == count - 1
    ensures count < 0 ==> delta == count + 1
    ensures count == 0 ==> delta == 0
  {
    var sign := (if count > 0 then 1 else 0) - (if count < 0 then 1 else 0);
    ((if count < 0 then -count else count) - 1) * sign
  }

  /** `Calendar::months(count, month, year)`, with today's date for absent
      arguments: whole months, max(1, |count|) of them, starting at the given
      month when count > 0 and ending there when count < 0. */
  function MonthsCalendar(count: int, month: Option<int>, year: Option<int>, today: Date): (r: Result<Calendar>)
    ensures var y := year.GetOr(today.year);
            var m := month.GetOr(today.month);
            r.Success? <==> 0 <= y <= 9999 && 0 <= m <= 12
  {
    var y := year.GetOr(today.year);
    var m := month.GetOr(today.month);
    var f := DateTime.ParseFields(Ymd(y, m, 1));
    if f.Failure? then Failure(f.error)
    else
      var delta := MonthsDelta(count);
      var from := f.value;
      var till := AddMonths(from, 1);
      var till := if delta > 0 then AddMonths(till, delta) else till;
      var from := if delta < 0 then AddMonths(from, delta) else from;
      Success(NewCalendar(from, AddDays(till, -1)))
  }

  /** The span of `months`: from the 1st of the first month to the last day of
      the last month, max(1, |count|) months, anchored at the given month. */
  lemma MonthsCalendarSpan(count: int, month: Option<int>, year: Option<int>, today: Date)
    requires MonthsCalendar(count, month, year, today).Success?
    ensures var c := MonthsCalendar(count, month, year, today).value;
            var anchor := MonthIndex(year.GetOr(today.year), month.GetOr(today.month));
            var first := MonthIndex(c.from.year, c.from.month);
            var last := MonthIndex(c.till.year, c.till.month);
            && c.from.day == 1
            && c.till.day == DaysInMonth(c.till.year, c.till.month)
            && last - first + 1 == (if count == 0 then 1 else if count < 0 then -count else count)
            && (count >= 0 ==> first == anchor)
            && (count < 0 ==> last == anchor)
  {
    var y := year.GetOr(today.year);
    var m := month.GetOr(today.month);
    var a := DateTime.ParseFields(Ymd(y, m, 1)).value;
    DateTime.ParseFirstOfMonth(y, m);
    var delta := MonthsDelta(count);
    var t1 := AddMonths(a, 1);
    AddMonthsRollover(a, 1);
    var t2 := if delta > 0 then AddMonths(t1, delta) else t1;
    AddMonthsRollover(t1, delta);
    var f := if delta < 0 then AddMonths(a, delta) else a;
    AddMonthsRollover(a, delta);
    assert t2.day == 1 && MonthIndex(t2.year, t2.month) == MonthIndex(y, m) + 1 + (if delta > 0 then delta else 0);
    DayBeforeFirst(t2);
  }

  /** `months(1, 0, 2016)` is December 2015, month 0 being the month before January. */
  lemma MonthsMonthZero(today: Date)
    ensures var r := MonthsCalendar(1, Some(0), Some(2016), today);
            r.Success? && r.value.from == Ymd(2015, 12, 1) && r.value.till == Ymd(2015, 12, 31)
  {
    var c := MonthsCalendar(1, Some(0), Some(2016), today).value;
    MonthsCalendarSpan(1, Some(0), Some(2016), today);
    MonthIndexSplits(c.from.year, c.from.month, 2015, 12);
    MonthIndexSplits(c.till.year, c.till.month, 2015, 12);
  }
}
