/** What a caller of `buildArray` can read off the finished array: every week
    row spans seven columns once its empty columns are counted, its days sit
    under the header item of their weekday, a Monday-first row carries the ISO
    week of each of its days, and months and years come in ascending order.
    Everything here follows from the well-formedness `BuildArray` proves. */
module GridShape {
  import opened Options
  import opened Gregorian
  import Text
  import DayRecord
  import opened Calendars
  import opened CalendarGrid

  /** The number of empty columns a `leading` or `following` item stands for;
      the source drops the item when it is 0. */
  function Blank(o: Option<int>): int {
    o.GetOr(0)
  }

  // ---------------------------------------------------------------------------
  // One week row

  /** Day j of a row is j days after its first day, in the same month, and sits
      in column `leading` + j. */
  lemma RowDay(c: Calendar, w: WeekNode, j: int)
    requires 0 <= c.firstWeekday <= 6
    requires WeekSoFar(c, w)
    requires 0 <= j < |w.days|
    ensures w.days[j].time == AddDays(w.days[0].time, j)
    ensures InMonth(w.days[j].time, YearMonth(w.days[0].time.year, w.days[0].time.month))
    ensures Column(c.firstWeekday, w.days[j].time) == Blank(w.leading) + j
  {
    var fw := c.firstWeekday;
    var a := w.days[0].time;
    var x := w.days[j].time;
    assert x == Ymd(a.year, a.month, a.day + j);
    DayNumberInjective(x, AddDays(a, j));
    ModSeven(DayNumber(a) + 5 - fw, j);
    assert Column(fw, a) + j <= Column(fw, w.days[|w.days| - 1].time);
    SmallMod(Column(fw, a) + j);
  }

  /** A closed row holds one to seven days, and its leading empty columns, its
      days and its following empty columns fill exactly the seven columns. */
  lemma RowWidth(c: Calendar, w: WeekNode)
    requires 0 <= c.firstWeekday <= 6
    requires GoodWeek(c, w)
    ensures 1 <= |w.days| <= 7
    ensures Blank(w.leading) + |w.days| + Blank(w.following) == 7
    ensures w.leading != Some(0) && w.following != Some(0)
  {
    RowDay(c, w, |w.days| - 1);
  }

  /** No day after the first in a row would have opened a row of its own (it is
      neither in column 0 nor the 1st of a month), and no day before the last
      would have closed one (neither in column 6 nor the month's last day). */
  lemma RowUnbroken(c: Calendar, w: WeekNode, j: int)
    requires 0 <= c.firstWeekday <= 6
    requires WeekSoFar(c, w)
    requires 0 < j < |w.days|
    ensures Column(c.firstWeekday, w.days[j].time) != 0 && w.days[j].time.day != 1
    ensures Column(c.firstWeekday, w.days[j - 1].time) != 6
    ensures w.days[j - 1].time.day != DaysInMonth(w.days[j - 1].time.year, w.days[j - 1].time.month)
  {
    RowDay(c, w, j);
    RowDay(c, w, j - 1);
    assert w.days[j].time.day == w.days[j - 1].time.day + 1;
  }

  /** With weeks starting on Monday the row's ISO week and week label are those
      of every day in it, not only of the day that opened it. */
  lemma RowIsoWeek(c: Calendar, w: WeekNode, j: int)
    requires c.firstWeekday == 0
    requires WeekSoFar(c, w)
    requires 0 <= j < |w.days|
    ensures w.time == Some(IsoWeekOf(w.days[j].time))
    ensures w.caption == Some(Text.TwoDigits(IsoWeekOf(w.days[j].time).week))
  {
    var a := w.days[0].time;
    RowDay(c, w, j);
    RowDay(c, w, |w.days| - 1);
    ColumnOfWeekday(0, a);
    SmallMod(IsoWeekday(a) - 1);
    IsoWeekOfSameWeek(a, j);
  }

  /** A row carries an ISO week and a week label exactly when weeks start on
      Monday. */
  lemma RowLabels(c: Calendar, w: WeekNode)
    requires 0 <= c.firstWeekday <= 6
    requires WeekSoFar(c, w)
    ensures w.time.Some? <==> c.firstWeekday == 0
    ensures w.caption.Some? <==> c.firstWeekday == 0
  {
  }

  /** The header item in a date's column is the one for the date's weekday: the
      key of column Column(fw, x) is the weekday key of x. */
  lemma HeaderAbove(fw: int, format: WeekdayFormat, render: Renderer, x: Date)
    requires 0 <= fw <= 6
    ensures WeekdayHeader(fw, format, render)[Column(fw, x)].key == WeekdayKey(IsoWeekday(x))
  {
    HeaderKeys(fw, format, render, Column(fw, x));
    ColumnKey(fw, x);
  }

  /** Counting Column(fw, x) weekdays on from weekday fw reaches x's weekday. */
  lemma ColumnKey(fw: int, x: Date)
    requires 0 <= fw <= 6
    ensures (fw + Column(fw, x)) % 7 + 1 == IsoWeekday(x)
  {
    ColumnOfWeekday(fw, x);
    ColumnBack(IsoWeekday(x), fw);
  }

  /** Column (n - fw + 6) mod 7 of a row starting on weekday fw is weekday n again. */
  lemma ColumnBack(n: int, fw: int)
    requires 1 <= n <= 7 && 0 <= fw <= 6
    ensures (fw + (n - fw + 6) % 7) % 7 + 1 == n
  {
    if n - fw + 6 < 7 {
      assert (n - fw + 6) % 7 == n - fw + 6;
      assert (n + 6) % 7 == n - 1;
    } else {
      assert (n - fw + 6) % 7 == n - fw - 1;
    }
  }

  /** Each day item of a row carries the weekday key of the header item above
      it: the header cached by `buildWeekdays` and the rows agree column by column. */
  lemma RowUnderHeader(c: Calendar, render: Renderer, w: WeekNode, j: int)
    requires 0 <= c.firstWeekday <= 6
    requires WeekSoFar(c, w)
    requires 0 <= j < |w.days|
    requires w.days[j] == MakeDay(c, render, w.days[j].time)
    ensures WeekdayHeader(c.firstWeekday, c.weekdayFormat, render)[Blank(w.leading) + j].key
            == w.days[j].weekday
  {
    RowDay(c, w, j);
    HeaderAbove(c.firstWeekday, c.weekdayFormat, render, w.days[j].time);
  }

  // ---------------------------------------------------------------------------
  // The nesting, item by item

  /** Every row of a month's list is closed and starts in that month. */
  lemma {:induction false} WeeksAllGood(c: Calendar, ws: seq<WeekNode>, ym: YearMonth)
    requires 0 <= c.firstWeekday <= 6
    requires WeeksIn(c, ws, ym)
    ensures forall k :: 0 <= k < |ws| ==> GoodWeek(c, ws[k]) && InMonth(ws[k].days[0].time, ym)
    decreases |ws|
  {
    if ws != [] {
      WeeksAllGood(c, ws[..|ws| - 1], ym);
    }
  }

  /** Every month of a year's list is well formed and of that year. */
  lemma {:induction false} MonthsAllGood(c: Calendar, ms: seq<MonthNode>, y: int)
    requires 0 <= c.firstWeekday <= 6
    requires MonthsIn(c, ms, y)
    ensures forall k :: 0 <= k < |ms| ==> GoodMonth(c, ms[k]) && ms[k].time.year == y
    decreases |ms|
  {
    if ms != [] {
      var p := ms[..|ms| - 1];
      MonthsAllGood(c, p, y);
      forall k | 0 <= k < |ms| - 1
        ensures GoodMonth(c, ms[k]) && ms[k].time.year == y
      {
        assert ms[k] == p[k];
      }
    }
  }

  /** The months of a year's list ascend. */
  lemma {:induction false} MonthsAscend(c: Calendar, ms: seq<MonthNode>, y: int)
    requires 0 <= c.firstWeekday <= 6
    requires MonthsIn(c, ms, y)
    ensures forall i, j :: 0 <= i < j < |ms| ==> ms[i].time.month < ms[j].time.month
    decreases |ms|
  {
    if ms != [] {
      var p := ms[..|ms| - 1];
      MonthsAscend(c, p, y);
      forall i, j | 0 <= i < j < |ms|
        ensures ms[i].time.month < ms[j].time.month
      {
        assert ms[i] == p[i];
        if j < |ms| - 1 {
          assert ms[j] == p[j];
        } else if i < |ms| - 2 {
          assert ms[|ms| - 2] == p[|ms| - 2];
        }
      }
    }
  }

  /** Every year of the list is well formed. */
  lemma {:induction false} YearsAllGood(c: Calendar, ys: seq<YearNode>)
    requires 0 <= c.firstWeekday <= 6
    requires GoodYears(c, ys)
    ensures forall k :: 0 <= k < |ys| ==> GoodYear(c, ys[k])
    decreases |ys|
  {
    if ys != [] {
      var p := ys[..|ys| - 1];
      YearsAllGood(c, p);
      forall k | 0 <= k < |ys| - 1
        ensures GoodYear(c, ys[k])
      {
        assert ys[k] == p[k];
      }
    }
  }

  /** The years of the list ascend. */
  lemma {:induction false} YearsAscend(c: Calendar, ys: seq<YearNode>)
    requires 0 <= c.firstWeekday <= 6
    requires GoodYears(c, ys)
    ensures forall i, j :: 0 <= i < j < |ys| ==> ys[i].time < ys[j].time
    decreases |ys|
  {
    if ys != [] {
      var p := ys[..|ys| - 1];
      YearsAscend(c, p);
      forall i, j | 0 <= i < j < |ys|
        ensures ys[i].time < ys[j].time
      {
        assert ys[i] == p[i];
        if j < |ys| - 1 {
          assert ys[j] == p[j];
        } else if i < |ys| - 2 {
          assert ys[|ys| - 2] == p[|ys| - 2];
        }
      }
    }
  }

  /** Row k of month j of year i in a well-formed array: the month is well
      formed and belongs to the year, the row is closed, starts in the month and is seven columns wide. */
  lemma GridRow(c: Calendar, ys: seq<YearNode>, i: int, j: int, k: int)
    requires 0 <= c.firstWeekday <= 6
    requires GoodYears(c, ys)
    requires 0 <= i < |ys| && 0 <= j < |ys[i].months| && 0 <= k < |ys[i].months[j].weeks|
    ensures GoodMonth(c, ys[i].months[j]) && ys[i].months[j].time.year == ys[i].time
    ensures GoodWeek(c, ys[i].months[j].weeks[k])
    ensures InMonth(ys[i].months[j].weeks[k].days[0].time, ys[i].months[j].time)
    ensures var w := ys[i].months[j].weeks[k];
            Blank(w.leading) + |w.days| + Blank(w.following) == 7
  {
    YearsAllGood(c, ys);
    MonthsAllGood(c, ys[i].months, ys[i].time);
    WeeksAllGood(c, ys[i].months[j].weeks, ys[i].months[j].time);
    RowWidth(c, ys[i].months[j].weeks[k]);
  }

  /** Day l of row k of month j of year i lies in that month of that year, and
      the month's two-digit `month` names it. */
  lemma GridDay(c: Calendar, ys: seq<YearNode>, i: int, j: int, k: int, l: int)
    requires 0 <= c.firstWeekday <= 6
    requires GoodYears(c, ys)
    requires 0 <= i < |ys| && 0 <= j < |ys[i].months| && 0 <= k < |ys[i].months[j].weeks|
    requires 0 <= l < |ys[i].months[j].weeks[k].days|
    ensures var m := ys[i].months[j];
            var x := m.weeks[k].days[l].time;
            x.year == ys[i].time && InMonth(x, m.time) && m.month == Text.TwoDigits(x.month)
  {
    var m := ys[i].months[j];
    var w := m.weeks[k];
    GridRow(c, ys, i, j, k);
    assert WeekSoFar(c, w);
    RowDay(c, w, l);
  }

  // ---------------------------------------------------------------------------
  // Entries in the array

  /** After `addEntries`, a day item lists the date's earlier items followed by
      one item per added day with that date, in order; it has no `entries` key
      exactly when that list is empty. */
  lemma DayEntries(c: Calendar, render: Renderer, days: seq<DayRecord.Day>, className: string, x: Date)
    ensures var d := MakeDay(AddEntries(c, days, className), render, x);
            var es := EntriesAt(c.entries, x) + EntriesOn(days, x, className);
            (d.entries.Some? <==> es != []) && (d.entries.Some? ==> d.entries.value == es)
  {
  }
}
