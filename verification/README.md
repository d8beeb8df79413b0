# calendar-php in Dafny

A Dafny model of the core of calendar-php, a small PHP library that lays out calendar pages. The model covers three parts:

- **`Calendar::buildArray`.** It walks every day from `from` to `till` and nests the days into week rows, the rows into months and the months into years. Each node gets its label and the entries added for its day. The result is the array a template renders.
- **The calendar's set-up.** This covers the `year` and `months` range constructors, the format setters, `setFirstWeekday` with its country-code lookup, `addEntries`, and the weekday header `buildWeekdays` caches.
- **The date classes.** `DateTime` and `Day` supply PHP's rollover arithmetic (`addDays`, `addMonths`, `addYears`), `forceWorkday`, the argument-swapping factory `create`, and the `Day` annotations: title, link, states and regional states.

Modules, one concept each:

| file | module | what it holds |
|---|---|---|
| options.dfy | `Options` | `Option` for PHP's `null`, `Result` for the date constructors' exceptions |
| text.dfy | `Text` | `Y-m-d` text and its parser, two-digit numbers, `array_filter` sparsity, `strtoupper` |
| gregorian.dfy | `Gregorian` | valid dates, day numbers, PHP rollover arithmetic, ISO weekday and ISO week |
| datetime.dfy | `DateTime` | `forceWorkday`, `create`, and the test cases of the date class as lemmas |
| day.dfy | `DayRecord` | the annotated `Day` and its static constructors |
| first_weekday.dfy | `FirstWeekday` | the territory table behind `setFirstWeekday('US')` |
| calendar.dfy | `Calendars` | the `Calendar` state, setters, header, entries, range constructors |
| grid.dfy | `CalendarGrid` | the `buildArray` loop, its invariant and why it holds |
| grid_shape.dfy | `GridShape` | what a caller can rely on in the finished array |

How the model is written:

- **Dates** are `Ymd(year, month, day)` triples restricted to real Gregorian dates, numbered by `DayNumber`, the count of days since 0000-01-01.
- **Rollover.** PHP's `modify('+n day|month|year')` is the single normaliser `FromFields`: months carry into years, then an overflowing day carries into the next months. So 2016-01-31 plus one month is 2016-03-02, and 2016-02-29 plus one year is 2017-03-01.
- **ISO weeks.** `IsoWeekOf` walks to the Thursday of the date's Monday-to-Sunday week and numbers that Thursday's week within its year (section 3.2.2 of ISO 8601:2004). `IsoWeekOfThursday` proves this equals the closed form.
- **Values, not objects.** Every "mutator" returns a new value, so `copy` is the identity.
- **The clock and the locale are parameters.** Today's date is passed in where the source calls `date(...)`. Locale formatting (`formatLoc`, PHP's `strftime`) is a `Renderer` function `(Date, pattern) -> string`.
- **Dropped keys are `Option`s.** Node keys that the source removes with `array_filter` when they are empty are `Option` fields here. A label is dropped when it renders as `""` or `"0"`; `leading` is dropped when it is 0.
- **`time` keys keep their structure.** A day's `Y-m-d` text (`Text.IsoDate`) is kept as the `Date` itself, a month's `Y-m` as a `YearMonth`, and a week's `o-\WW` as an `IsoWeek`. The `label` key is the field `caption`.
- **Entries are keyed by the date itself**, not by its `Y-m-d` text. `EntryKeysAreDates` shows the text names exactly one date, so the two keyings hold the same lists.
- **`till` is the last day shown.** The loop stops after the day equal to `till`. The doc comment of `span` (src/Calendar.php:46) calls `till` the day after the last one. The model follows the code.

## Model

| member | source | states |
|---|---|---|
| Gregorian.DaysInMonth | src/Calendar.php:241 | a month has 28 to 31 days; 29 exactly for February of a leap year, 28 exactly for February of a common year |
| Gregorian.FromFields | src/DateTime.php:109 | the date PHP makes of out-of-range fields y-m-d is the first day of the month y-m, after carrying months into years, plus d - 1 days |
| Gregorian.AddDays | src/DateTime.php:37-40 | `addDays(n)` lands exactly n days later (earlier for n < 0) |
| Gregorian.AddMonths | src/DateTime.php:25-28 | `addMonths(n)` keeps the day of month and counts it from the start of the month n months on, so an overflow runs into the following month |
| Gregorian.AddYears | src/DateTime.php:13-16 | `addYears(n)` counts the day of month from the start of the same month n years on |
| Gregorian.AddMonthsRollover | src/DateTime.php:25-28 | the day is kept in the target month when it fits; otherwise the result is in the month after, on the overflowing day |
| Gregorian.AddYearsRollover | src/DateTime.php:13-16 | the same month and day n years on when it exists; otherwise (29 February into a common year) 1 March |
| Gregorian.AddDaysCompose | src/DateTime.php:37-40 | adding a days and then b days is adding a + b days |
| Gregorian.AddZeroDays | src/DateTime.php:37-40 | adding zero days changes nothing |
| Gregorian.NeighbourSteps | src/Calendar.php:296 | the next day is one day number on, and the next and previous days undo each other |
| Gregorian.DayNumberInjective | src/Calendar.php:244 | two dates with the same day number are the same date, so the loop meets `till` exactly once |
| Gregorian.IsoWeekday | src/Calendar.php:238 | `format('N')`: a number 1-7; `WeekdayAfter` and `Calendars.AnchorWeekday` tie it to the calendar (Monday 6 January 2014 is 1, and it advances by one a day) |
| Gregorian.WeekdayAfter | src/DateTime.php:52 | n days on, the ISO weekday has advanced by n modulo 7 |
| Gregorian.IsoWeekOf | src/Calendar.php:243 | the ISO week number is 1 to 53 |
| Gregorian.IsoWeekOfThursday | src/Calendar.php:243 | a date's ISO week is the week-year and week count of the Thursday of its Monday-to-Sunday week |
| Gregorian.IsoWeekOfSameWeek | src/Calendar.php:243 | all days of one Monday-to-Sunday week have the same ISO week |
| Gregorian.IsoWeekYearNear | src/Calendar.php:243 | the ISO week-numbering year is the calendar year or one of its neighbours |
| DateTime.ForceWorkday | src/DateTime.php:50-56 | a weekday is kept; Sunday goes to the next Monday; Saturday goes to the next Monday with `next`, else to the Friday before |
| DateTime.ForceWorkdayIdempotent | src/DateTime.php:50-56 | forcing a workday twice is forcing it once, and the date moves by -1 to 2 days |
| DateTime.CreateFields | src/DateTime.php:103-108 | a number above 31 in the day slot swaps places with the year; absent fields take today's |
| DateTime.ParseFields | src/DateTime.php:109 | the text y-m-d parses exactly when the year is 0-9999, the month 0-12 and the day 0-31; a valid date parses to itself; month 0 and day 0 step back into the month before, an overflowing day rolls on |
| DateTime.ParseMonthZero | src/DateTime.php:109 | 2008-00-22 is read as 22 December 2007 |
| DateTime.ParseDayZero | src/DateTime.php:109 | 2016-03-00 is read as 29 February 2016, the day before 1 March |
| DateTime.ParseFirstOfMonth | src/Calendar.php:102 | the 1st of month m, 0 <= m <= 12, is the 1st of the month m counts to, December of the year before for m = 0 |
| DateTime.Create | src/DateTime.php:95-110 | a date object is copied; a text creates the date it writes, or fails; numbers go through the swap, today's defaults and the parser |
| DateTime.CreateSwapsDayAndYear | src/DateTime.php:103-105 | `create(2016, 3, 2)` and `create(2, 3, 2016)` are the same call |
| DateTime.CreateFromIsoText | src/DateTime.php:97-98 | a date's own `Y-m-d` text creates exactly that date |
| DateTime.AddDaysExample | tests/DateTimeTest.php:10-15 | 2016-01-01, -1 day, +2 days, +0 days is 2016-01-02 |
| DateTime.AddMonthsExample | tests/DateTimeTest.php:17-22 | 2016-01-31 plus one month is 2016-03-02; then -2 and +0 months give 2016-01-02 |
| DateTime.AddYearsExample | tests/DateTimeTest.php:24-29 | 2016-02-29 plus one year is 2017-03-01; then -2 and +0 years give 2015-03-01 |
| DateTime.ForceWorkdayBackExamples | tests/DateTimeTest.php:43-46 | Friday 4 and Monday 7 March 2016 stay; Saturday goes back to the 4th, Sunday on to the 7th |
| DateTime.ForceWorkdayNextExamples | tests/DateTimeTest.php:48-49 | with `next`, Saturday 5 and Sunday 6 March 2016 both go to Monday the 7th |
| DateTime.CreateFromNumbersExample | tests/DateTimeTest.php:95 | `create(2, 3, 2016)` is 2016-03-02 |
| DateTime.CreateSwapExample | tests/DateTimeTest.php:98 | `create(2016, 3, 2)` is 2016-03-02 |
| DateTime.CreateDefaultsExample | tests/DateTimeTest.php:92-94 | `create()` is today; `create(1)` is the 1st of this month; `create(1, 2)` is 1 February of this year |
| DateTime.CreateTodayFieldsExample | tests/DateTimeTest.php:96-99 | `create(2016)` is today's month and day in 2016; `create(null, 3)` is today's day in March of this year |
| DateTime.CreateLeapFebruaryExample | tests/DateTimeTest.php:97 | `create(2016, 2)` is today's day in February 2016, rolled into March after the 29th |
| DateTime.CreateFromTextExample | tests/DateTimeTest.php:100 | the text `2016-01-02` creates 2016-01-02 |
| DayRecord.NewDay | src/Day.php:6-9 | a new day has its date, no title, no link and empty state lists |
| DayRecord.SetTitle | src/Day.php:17-21 | the title is set and nothing else changes |
| DayRecord.SetLink | src/Day.php:28-31 | the link is set and nothing else changes |
| DayRecord.SetStates | src/Day.php:39-44 | both state lists are replaced; date, title and link are kept |
| DayRecord.InState | src/Day.php:51-54 | a day without states, and the falsy strings "" and "0", always match; any listed state matches; otherwise a day with states matches only its listed states |
| DayRecord.IsRegional | src/Day.php:61-64 | a state is regional exactly when some entry of the regional list equals it; a day without regional states has none |
| DayRecord.StatesDecideMembership | src/Day.php:39-64 | `setStates` replaces both lists, so afterwards `inState` and `isRegional` read the new lists: a state matches when it is "" or "0", the new list is empty, or it is listed; it is regional when listed in the new regional list |
| DayRecord.InStateUnrestricted | src/Day.php:51-54 | an empty state, or a day without states, always matches |
| DayRecord.ListedStatesOnly | src/Day.php:51-54 | a day with states lies exactly in its listed states and in "" and "0" |
| DayRecord.NewDayEverywhere | src/Day.php:51-64 | a fresh day is in every state and regional in none |
| DayRecord.ShiftYears | src/Day.php:71-74 | the date moves as `addYears` does; the annotations are kept |
| DayRecord.ShiftMonths | src/Day.php:81-84 | the date moves as `addMonths` does; the annotations are kept |
| DayRecord.ShiftDays | src/Day.php:91-94 | the date moves by exactly n days; the annotations are kept |
| DayRecord.FirstOfThisYear | src/Day.php:131-134 | 1 January of today's year plus delta, never rolled over, with no annotations |
| DayRecord.FirstOfThisMonth | src/Day.php:136-139 | the 1st of the month delta months from today's, across year ends, with no annotations |
| FirstWeekday.FirstGroup | src/Calendar.php:328-331 | the first group at or after i that lists the code, every group before it not listing it |
| FirstWeekday.Lookup | src/Calendar.php:302-332 | the result is 0-6: the index of the first group listing the upper-cased code, or 0 when none does |
| FirstWeekday.Placement | src/Calendar.php:305-327 | the lookup is decided by which of the Monday, Friday, Saturday and Sunday groups lists the code |
| FirstWeekday.LookupUnitedStates | src/Calendar.php:320-326 | `us` and `US` give 6, Sunday |
| FirstWeekday.LookupBangladesh | src/Calendar.php:315 | `BD` gives 4, Friday |
| FirstWeekday.LookupEgypt | src/Calendar.php:316-319 | `EG`, a Saturday-group code, gives 5, Saturday |
| FirstWeekday.LookupGermany | src/Calendar.php:306-312 | `de` and `DE`, listed in the first group, give 0, Monday |
| FirstWeekday.LookupUnlisted | src/Calendar.php:328-331 | any code whose upper-case form no group lists gives 0, Monday |
| FirstWeekday.LookupUnknown | src/Calendar.php:331 | the unlisted code XX gives 0, Monday |
| Calendars.NewCalendar | src/Calendar.php:31-38 | the given ends, default formats, Monday first, no entries, header to be built |
| Calendars.SetDayFormat | src/Calendar.php:121-125 | the day format is set and nothing else changes |
| Calendars.SetMonthFormat | src/Calendar.php:134-138 | the month format is set and nothing else changes |
| Calendars.SetYearFormat | src/Calendar.php:146-150 | the year format is set and nothing else changes |
| Calendars.SetWeekdayFormat | src/Calendar.php:160-165 | the weekday format is set and the header marked stale; nothing else changes |
| Calendars.SetFirstWeekday | src/Calendar.php:177-184 | an offset is taken as given, a country code is looked up (0-6); the header is marked stale; nothing else changes |
| Calendars.WeekdayKey | src/Calendar.php:340 | a three-letter key per weekday |
| Calendars.WeekdayKeyInjective | src/Calendar.php:340 | different weekdays have different keys, so the header has seven distinct keys |
| Calendars.HeaderCellAt | src/Calendar.php:338-348 | header item i is keyed by weekday (fw + i) mod 7, Monday first; with a format pattern it always has a label, rendered on a date whose weekday is the item's own, so the label under key `mon` is the pattern on a Monday |
| Calendars.PhpMod7 | src/Calendar.php:342 | PHP's `% 7` agrees with the mathematical remainder on non-negative numbers and keeps the dividend's sign on negative ones |
| Calendars.AnchorWeekday | src/Calendar.php:338 | k days after Monday 6 January 2014 comes weekday k mod 7 + 1 |
| Calendars.HeaderKeys | src/Calendar.php:338-340 | header item i is keyed by weekday (fw + i) mod 7, Monday first |
| Calendars.HeaderLabels | src/Calendar.php:341-343 | with seven labels, item i is labelled with list item (fw + i) mod 7 |
| Calendars.HeaderMissingLabel | src/Calendar.php:341-343 | a label list shorter than seven leaves some header label `null` |
| Calendars.WeekdayHeader | src/Calendar.php:337-350 | exactly seven items, item i being `HeaderCellAt(i)` |
| Calendars.BuildWeekdays | src/Calendar.php:334-353 | afterwards the header is current and agrees with the first weekday and the weekday format; nothing else changes |
| Calendars.BuildWeekdaysIdempotent | src/Calendar.php:336 | building the header again changes nothing |
| Calendars.SettersKeepHeaderCurrent | src/Calendar.php:121-206 | every setter and `addEntries` leave the cached header either stale or correct |
| Calendars.EntryOf | src/Calendar.php:199-203 | an entry keeps class, title and link, each dropped when empty |
| Calendars.EntriesOnClass | src/Calendar.php:199-200 | every item added in one call carries the class passed, dropped when it is empty |
| Calendars.DefaultClassEntries | src/Calendar.php:193 | without a class argument every item added is of class `holiday` |
| Calendars.AddEntries | src/Calendar.php:193-206 | each date's list grows by the items of the days with that date, in order; other dates and all settings are untouched |
| Calendars.EntryKeysAreDates | src/Calendar.php:199 | two dates have the same `Y-m-d` key exactly when they are the same date |
| Calendars.NoEntriesWithoutDays | src/Calendar.php:193-206 | on a new calendar a date no added day names has no entries |
| Calendars.AddEntriesAppend | src/Calendar.php:193-206 | adding two lists in two calls is adding their concatenation in one |
| Calendars.YearCalendar | src/Calendar.php:60-68 | `year(y)` spans 1 January to 31 December of y, today's year when y is absent, and fails exactly for years the parser rejects |
| Calendars.YearCalendarLength | src/Calendar.php:60-68 | a year calendar shows as many days as the year has; `year()` is the calendar of today's year |
| Calendars.MonthsDelta | src/Calendar.php:95 | the shift is count - 1 for positive counts, count + 1 for negative ones, 0 for 0 |
| Calendars.MonthsCalendar | src/Calendar.php:93-112 | `months` succeeds exactly when the year (0-9999) and month (0-12) it parses are in range, absent ones taken from today |
| Calendars.MonthsCalendarSpan | src/Calendar.php:93-112 | whole months, from the 1st to the last day; max(1, abs(count)) of them; starting at the given month for count >= 0 and ending there for count < 0 |
| Calendars.MonthsMonthZero | src/Calendar.php:96-112 | `months(1, 0, 2016)` is December 2015 |
| CalendarGrid.Column | src/Calendar.php:238 | the column of a date is 0-6; `ColumnOfWeekday` shows it is the source's formula |
| CalendarGrid.ColumnOfWeekday | src/Calendar.php:238 | the model's column is the source's `(N - fw + 6) % 7`, whose dividend is never negative |
| CalendarGrid.MakeDay | src/Calendar.php:275-280 | a day item holds its date and weekday key; its label is the day format rendered on the date, dropped when that gives "" or "0"; it has entries exactly when its date has a non-empty list, and they are that list |
| CalendarGrid.BuildArray | src/Calendar.php:226-300 | the header is built as `buildWeekdays` does; the array shows each day from `from` to `till` once, in order, as its day item; every year, month and week row is well formed; every year and month is labelled with its format rendered on the day it opens |
| CalendarGrid.StepLabels | src/Calendar.php:246-262 | a turn of the walk keeps every node labelled: a year or month opened on the first day shown, on 1 January or on the 1st carries the label of that day, and closing moves labelled nodes into their parents |
| CalendarGrid.OpeningsAfterFrom | src/Calendar.php:246-262 | after the first day shown, a 1 January opens its year and a 1st opens its month |
| CalendarGrid.WeekInOneMonth | src/Calendar.php:264 | a week row never crosses a month boundary |
| CalendarGrid.CloseWeek | src/Calendar.php:282-287 | a row closed on `till`, in column 6 or on a month's last day, with `following` set, is a finished row of that month |
| GridShape.RowDay | src/Calendar.php:264-280 | day j of a row is j days after its first day, in the same month, in column `leading` + j |
| GridShape.RowWidth | src/Calendar.php:270-285 | a row holds 1-7 days; `leading`, the days and `following` fill exactly seven columns; neither count is ever 0 |
| GridShape.RowLabels | src/Calendar.php:266-269 | a row carries its `time` and its week label exactly when weeks start on Monday |
| GridShape.RowUnbroken | src/Calendar.php:264-287 | no day inside a row is in column 0 or the 1st, and no day before its last is in column 6 or a month's last day |
| GridShape.RowIsoWeek | src/Calendar.php:266-269 | with Monday first, the row's ISO week and label are those of every day in it |
| GridShape.HeaderAbove | src/Calendar.php:334-353 | the header item in a date's column is keyed by that date's weekday |
| GridShape.RowUnderHeader | src/Calendar.php:275-280 | every day item's weekday key equals the key of the header item above it |
| GridShape.WeeksAllGood | src/Calendar.php:286 | every row of a month is finished and starts in that month |
| GridShape.MonthsAllGood | src/Calendar.php:290 | every month of a year is well formed and belongs to that year |
| GridShape.MonthsAscend | src/Calendar.php:289-291 | the months of a year ascend |
| GridShape.YearsAllGood | src/Calendar.php:294 | every year has at least one well-formed month |
| GridShape.YearsAscend | src/Calendar.php:293-295 | the years of the array ascend |
| GridShape.GridRow | src/Calendar.php:226-300 | any row of any month of any year: the month is of that year, the row finished, in that month, seven columns wide |
| GridShape.GridDay | src/Calendar.php:247-295 | every day of the grid lies in the year and the month it is filed under, and the month's `month` text is that month's two-digit number |
| GridShape.DayEntries | src/Calendar.php:279 | after `addEntries`, a day item lists the date's earlier items, then one per added day of that date; it has no entries key exactly when there are none |
| Text.TwoDigits | src/Calendar.php:240 | a two-digit numeral whose value is the number |
| Text.IsoDateRoundTrip | src/Calendar.php:237 | the `Y-m-d` text of a date parses back to that date |
| Text.IsoDateInjective | src/Calendar.php:237 | distinct dates have distinct `Y-m-d` texts |
| Text.Sparse | src/Calendar.php:275-280 | a label is kept exactly when PHP counts it as non-empty (neither "" nor "0") |
| Text.SparseOpt | src/Calendar.php:199-203 | a title or link is kept exactly when present and non-empty |
| Text.NonZero | src/Calendar.php:286 | a column count is kept exactly when it is not 0 |
| Text.Upper | src/Calendar.php:304 | `strtoupper`: same length, ASCII letters upper-cased, everything else unchanged |

## Left out

- `formatLoc` and `formatLocalized` (PHP's `strftime` and `utf8_encode`) depend on the locale. They are the `Renderer` parameter, and the labels are whatever it returns.
- `easter` (Day and DateTime) calls PHP's `easter_days` extension, which is not part of this model.
- The wall clock (`date('Y')`, `date('m')`, `date('Y-m-d')`) is the `today` parameter. Time of day and time zone are not modelled: every date is a whole day.
- Date texts other than the canonical `Y-m-d` are not modelled, such as `next sunday` or `2016-3-2`. `Create` accepts a text exactly when it is the text `Text.IsoDate` writes for a date of a year 0-9999.
- DateTime.ParseFields: takes every year 0-9999 as written. The source writes the year without padding, and PHP reads a year below 100 through its two-digit-year rule (00-69 as 2000-2069, 70-99 as 1970-1999); the model does not follow that rule. Negative years and years above 9999 fail here, whatever PHP makes of their texts.
- DateTime.Create: a date object is copied as it is. The source round-trips it through its `Y-m-d` text, which loses nothing for the years 0-9999 the parser reads.
- `Day::createDayList` is not part of this model: it appears only in a disabled test.
- `copy` is the identity, because dates are values here.
- `span` is the constructor under another name and is not modelled separately. `month(m, y)` is `MonthsCalendar(1, m, y, today)`.
- `addEntries` with a single `Day` instead of an array is the one-item list `[d]`.
- `in_array` compares loosely in PHP. `InState` and `IsRegional` compare strings exactly, so numeric strings such as "1" and "01" are told apart here but not in the source.
- `Lookup` upper-cases only ASCII letters, as `strtoupper` does in the C locale.
- CalendarGrid.BuildArray: requires 0 <= firstWeekday <= 6, the range `setFirstWeekday` documents (src/Calendar.php:172). A negative offset or 7 still gives columns 0-6 in the source, but shifted (-1 lays weeks out like 6), and 8 or more gives negative columns; the model follows neither.
- CalendarGrid.BuildArray: requires `from` on or before `till`. With `from` after `till` the source's loop never meets `till` and does not terminate.
- Gregorian.IsoWeekOf: its own contract states only the 1-53 range. The definition is tied to the ISO rule by `IsoWeekOfThursday` and `IsoWeekOfSameWeek`.
- Node `time` keys are kept structured rather than as the texts the source formats. `Text.IsoDate` gives the day's text, and `Text.TwoDigits` the month and week numbers.
