/** `Calendar::buildArray` of src/Calendar.php: the walk from `from` to `till`
    (both shown) that nests the days into weeks, the weeks into months and the
    months into years. Node fields the source drops with `array_filter` when they
    are empty are `Option`s here; each node's `time` keeps its date structured. */
module CalendarGrid {
  import opened Options
  import opened Gregorian
  import Text
  import opened Calendars

  /** A day: its date (`time`, the `Y-m-d` text), its label, the lower-case
      weekday key and the entries added for it. */
  datatype DayNode = DayNode(time: Date, caption: Option<string>, weekday: string,
                             entries: Option<seq<Entry>>)

  /** A week row: ISO week and week-number label (only when weeks start on
      Monday), the empty columns before and after its days, and the days. */
  datatype WeekNode = WeekNode(time: Option<IsoWeek>, caption: Option<string>,
                               leading: Option<int>, following: Option<int>,
                               days: seq<DayNode>)

  /** The `Y-m` of a month. */
  datatype YearMonth = YearMonth(year: int, month: int)

  /** A month: `time` is its `Y-m`, `month` the two-digit month. */
  datatype MonthNode = MonthNode(time: YearMonth, caption: Option<string>, month: string,
                                 weeks: seq<WeekNode>)

  datatype YearNode = YearNode(time: int, caption: Option<string>, months: seq<MonthNode>)

  /** The array `buildArray` returns. */
  datatype Grid = Grid(weekdays: seq<HeaderCell>, years: seq<YearNode>)

  /** The walk's variables between two days: the years closed so far and the
      year, month and week being filled. */
  datatype Walk = Walk(years: seq<YearNode>, year: YearNode, month: MonthNode, week: WeekNode)

  /** The column of x in a week row that starts on weekday `fw` (0 = Monday).
      The source computes `(N - fw + 6) % 7` from the ISO weekday N; ColumnOfWeekday
      shows this is the same number. */
  function Column(fw: int, x: Date): (wd: int)
    requires 0 <= fw <= 6
    ensures 0 <= wd <= 6
  {
    (DayNumber(x) + 5 - fw) % 7
  }

  /** The column is the source's `(N - fw + 6) % 7`, whose dividend is never
      negative for fw in 0..6, so PHP's truncating `%` agrees with Dafny's. */
  lemma ColumnOfWeekday(fw: int, x: Date)
    requires 0 <= fw <= 6
    ensures Column(fw, x) == (IsoWeekday(x) - fw + 6) % 7
    ensures IsoWeekday(x) - fw + 6 >= 0
  {
    WeekdayColumn(DayNumber(x), fw);
  }

  lemma WeekdayColumn(n: int, fw: int)
    ensures ((n + 5) % 7 + 1 - fw + 6) % 7 == (n + 5 - fw) % 7
  {
    ModSeven(n + 5, 7 - fw);
    assert (n + 5 + 7 - fw) % 7 == (n + 5 - fw) % 7;
  }

  /** The day item of x. */
  function MakeDay(c: Calendar, render: Renderer, x: Date): (d: DayNode)
    ensures d.time == x && d.weekday == WeekdayKey(IsoWeekday(x))
    ensures d.caption == Text.Sparse(render(x, c.dayFormat))
    ensures d.entries.Some? <==> EntriesAt(c.entries, x) != []
    ensures d.entries.Some? ==> d.entries.value == EntriesAt(c.entries, x)
  {
    var es := EntriesAt(c.entries, x);
    DayNode(x, Text.Sparse(render(x, c.dayFormat)), WeekdayKey(IsoWeekday(x)),
            if es != [] then Some(es) else None)
  }

  function NewYearNode(c: Calendar, render: Renderer, x: Date): YearNode {
    YearNode(x.year, Text.Sparse(render(x, c.yearFormat)), [])
  }

  function NewMonthNode(c: Calendar, render: Renderer, x: Date): MonthNode {
    MonthNode(YearMonth(x.year, x.month), Text.Sparse(render(x, c.monthFormat)),
              Text.TwoDigits(x.month), [])
  }

  /** A week opened on x; `leading` 0 is dropped. */
  function NewWeekNode(fw: int, x: Date): WeekNode
    requires 0 <= fw <= 6
  {
    WeekNode(if fw == 0 then Some(IsoWeekOf(x)) else None,
             if fw == 0 then Some(Text.TwoDigits(IsoWeekOf(x).week)) else None,
             Text.NonZero(Column(fw, x)), None, [])
  }

  /** The openings at the top of the loop body for day x. */
  function Opened(c: Calendar, render: Renderer, st: Walk, x: Date, first: bool): Walk
    requires 0 <= c.firstWeekday <= 6
  {
    var fw := c.firstWeekday;
    var wd := Column(fw, x);
    Walk(st.years,
         if first || (x.day == 1 && x.month == 1) then NewYearNode(c, render, x) else st.year,
         if first || x.day == 1 then NewMonthNode(c, render, x) else st.month,
         if first || wd == 0 || x.day == 1 then NewWeekNode(fw, x) else st.week)
  }

  /** The day item appended to the open week. */
  function Appended(c: Calendar, render: Renderer, st: Walk, x: Date): Walk {
    st.(week := st.week.(days := st.week.days + [MakeDay(c, render, x)]))
  }

  /** The closings at the bottom of the loop body for day x. */
  function Closed(c: Calendar, st: Walk, x: Date, last: bool): Walk
    requires 0 <= c.firstWeekday <= 6
  {
    var wd := Column(c.firstWeekday, x);
    var t := DaysInMonth(x.year, x.month);
    var closeWeek := last || wd == 6 || x.day == t;
    var week := if closeWeek && wd < 6 then st.week.(following := Some(6 - wd)) else st.week;
    var month := if closeWeek then st.month.(weeks := st.month.weeks + [week]) else st.month;
    var year := if last || x.day == t then st.year.(months := st.year.months + [month]) else st.year;
    var years := if last || (x.month == 12 && x.day == t) then st.years + [year] else st.years;
    Walk(years, year, month, week)
  }

  /** One turn of the loop. */
  function Step(c: Calendar, render: Renderer, st: Walk, x: Date, first: bool, last: bool): Walk
    requires 0 <= c.firstWeekday <= 6
  {
    Closed(c, Appended(c, render, Opened(c, render, st, x, first), x), x, last)
  }

  // ---------------------------------------------------------------------------
  // Flattening

  ghost function WeeksDays(ws: seq<WeekNode>): seq<DayNode> {
    if ws == [] then [] else WeeksDays(ws[..|ws| - 1]) + ws[|ws| - 1].days
  }

  ghost function MonthsDays(ms: seq<MonthNode>): seq<DayNode> {
    if ms == [] then [] else MonthsDays(ms[..|ms| - 1]) + WeeksDays(ms[|ms| - 1].weeks)
  }

  ghost function YearsDays(ys: seq<YearNode>): seq<DayNode> {
    if ys == [] then [] else YearsDays(ys[..|ys| - 1]) + MonthsDays(ys[|ys| - 1].months)
  }

  /** The day items of a grid, years, months, weeks and days in order. */
  ghost function GridDays(g: Grid): seq<DayNode> {
    YearsDays(g.years)
  }

  lemma WeeksDaysSnoc(ws: seq<WeekNode>, w: WeekNode)
    ensures WeeksDays(ws + [w]) == WeeksDays(ws) + w.days
  {
    assert (ws + [w])[..|ws|] == ws;
  }

  lemma MonthsDaysSnoc(ms: seq<MonthNode>, m: MonthNode)
    ensures MonthsDays(ms + [m]) == MonthsDays(ms) + WeeksDays(m.weeks)
  {
    assert (ms + [m])[..|ms|] == ms;
  }

  lemma YearsDaysSnoc(ys: seq<YearNode>, y: YearNode)
    ensures YearsDays(ys + [y]) == YearsDays(ys) + MonthsDays(y.months)
  {
    assert (ys + [y])[..|ys|] == ys;
  }

  /** How deep the walk is nested after day p: 0 when p ends a year (nothing
      open), 1 when it ends a month (the year open), 2 when it ends a week row
      (year and month open), 3 otherwise. */
  function Level(fw: int, p: Date): (l: int)
    requires 0 <= fw <= 6
  {
    if p.month == 12 && p.day == 31 then 0
    else if p.day == DaysInMonth(p.year, p.month) then 1
    else if Column(fw, p) == 6 then 2
    else 3
  }

  /** The day items shown so far: the closed years, then whatever the open year,
      month and week hold at nesting level l. */
  ghost function Flatten(st: Walk, l: int): seq<DayNode> {
    YearsDays(st.years)
      + (if l >= 1 then MonthsDays(st.year.months) else [])
      + (if l >= 2 then WeeksDays(st.month.weeks) else [])
      + (if l >= 3 then st.week.days else [])
  }

  /** The day items of from, from + 1, ..., the day before x. */
  ghost function Shown(c: Calendar, render: Renderer, x: Date): seq<DayNode>
    decreases DayNumber(x) - DayNumber(c.from)
  {
    if DayNumber(x) <= DayNumber(c.from) then []
    else
      NeighbourSteps(x);
      Shown(c, render, Predecessor(x)) + [MakeDay(c, render, Predecessor(x))]
  }

  lemma ShownStep(c: Calendar, render: Renderer, x: Date)
    requires DayNumber(c.from) <= DayNumber(x)
    ensures Shown(c, render, Successor(x)) == Shown(c, render, x) + [MakeDay(c, render, x)]
  {
    NeighbourSteps(x);
  }

  /** Before x come DayNumber(x) - DayNumber(from) items, the k-th that of from + k. */
  lemma ShownContents(c: Calendar, render: Renderer, x: Date)
    requires DayNumber(c.from) <= DayNumber(x)
    ensures |Shown(c, render, x)| == DayNumber(x) - DayNumber(c.from)
    ensures forall k :: 0 <= k < |Shown(c, render, x)| ==> Shown(c, render, x)[k] == MakeDay(c, render, AddDays(c.from, k))
  {
    ShownLength(c, render, x);
    forall k | 0 <= k < |Shown(c, render, x)|
      ensures Shown(c, render, x)[k] == MakeDay(c, render, AddDays(c.from, k))
    {
      ShownAt(c, render, x, k);
    }
  }

  lemma {:induction false} ShownLength(c: Calendar, render: Renderer, x: Date)
    requires DayNumber(c.from) <= DayNumber(x)
    ensures |Shown(c, render, x)| == DayNumber(x) - DayNumber(c.from)
    decreases DayNumber(x) - DayNumber(c.from)
  {
    if DayNumber(x) > DayNumber(c.from) {
      NeighbourSteps(x);
      ShownLength(c, render, Predecessor(x));
    }
  }

  lemma {:induction false} ShownAt(c: Calendar, render: Renderer, x: Date, k: int)
    requires 0 <= k < DayNumber(x) - DayNumber(c.from)
    ensures k < |Shown(c, render, x)| && Shown(c, render, x)[k] == MakeDay(c, render, AddDays(c.from, k))
    decreases DayNumber(x) - DayNumber(c.from)
  {
    NeighbourSteps(x);
    var p := Predecessor(x);
    ShownLength(c, render, p);
    if k == DayNumber(p) - DayNumber(c.from) {
      DayNumberInjective(p, AddDays(c.from, k));
    } else {
      ShownAt(c, render, p, k);
    }
  }

  // ---------------------------------------------------------------------------
  // The shape of the nodes

  predicate InMonth(x: Date, ym: YearMonth) {
    x.year == ym.year && x.month == ym.month
  }

  /** A week row as far as it is filled: consecutive days of one month whose
      columns rise from the opening column, opened on the first day shown, on
      column 0 or on the 1st; `leading` is the opening column; the ISO week and
      its number are those of the opening day, present only when fw is 0. */
  ghost predicate WeekSoFar(c: Calendar, w: WeekNode)
    requires 0 <= c.firstWeekday <= 6
  {
    var fw := c.firstWeekday;
    var n := |w.days|;
    n >= 1 &&
    var a := w.days[0].time;
    (forall j :: 0 <= j < n ==> w.days[j].time == Ymd(a.year, a.month, a.day + j)) &&
    Column(fw, a) + n - 1 == Column(fw, w.days[n - 1].time) &&
    (a == c.from || Column(fw, a) == 0 || a.day == 1) &&
    w.leading == Text.NonZero(Column(fw, a)) &&
    w.time == (if fw == 0 then Some(IsoWeekOf(a)) else None) &&
    w.caption == (if fw == 0 then Some(Text.TwoDigits(IsoWeekOf(a).week)) else None)
  }

  /** A closed week row: it ends on the last day shown, on column 6 or on the
      month's last day, and `following` counts the columns after it. */
  ghost predicate GoodWeek(c: Calendar, w: WeekNode)
    requires 0 <= c.firstWeekday <= 6
  {
    WeekSoFar(c, w) &&
    var b := w.days[|w.days| - 1].time;
    (b == c.till || Column(c.firstWeekday, b) == 6 || b.day == DaysInMonth(b.year, b.month)) &&
    w.following == Text.NonZero(6 - Column(c.firstWeekday, b))
  }

  /** Closed week rows that all start in month ym. */
  ghost predicate WeeksIn(c: Calendar, ws: seq<WeekNode>, ym: YearMonth)
    requires 0 <= c.firstWeekday <= 6
    decreases |ws|
  {
    ws == [] ||
    (WeeksIn(c, ws[..|ws| - 1], ym) && GoodWeek(c, ws[|ws| - 1]) && InMonth(ws[|ws| - 1].days[0].time, ym))
  }

  /** A closed month: at least one week, all weeks inside that month. */
  ghost predicate GoodMonth(c: Calendar, m: MonthNode)
    requires 0 <= c.firstWeekday <= 6
  {
    |m.weeks| >= 1 && 1 <= m.time.month <= 12 && m.month == Text.TwoDigits(m.time.month)
    && WeeksIn(c, m.weeks, m.time)
  }

  /** Months of year y, in ascending order. */
  ghost predicate MonthsIn(c: Calendar, ms: seq<MonthNode>, y: int)
    requires 0 <= c.firstWeekday <= 6
    decreases |ms|
  {
    ms == [] ||
    (MonthsIn(c, ms[..|ms| - 1], y) && GoodMonth(c, ms[|ms| - 1]) && ms[|ms| - 1].time.year == y &&
     (|ms| >= 2 ==> ms[|ms| - 2].time.month < ms[|ms| - 1].time.month))
  }

  ghost predicate GoodYear(c: Calendar, y: YearNode)
    requires 0 <= c.firstWeekday <= 6
  {
    |y.months| >= 1 && MonthsIn(c, y.months, y.time)
  }

  /** Closed years, each well formed, in strictly ascending order. */
  ghost predicate GoodYears(c: Calendar, ys: seq<YearNode>)
    requires 0 <= c.firstWeekday <= 6
    decreases |ys|
  {
    ys == [] ||
    (GoodYears(c, ys[..|ys| - 1]) && GoodYear(c, ys[|ys| - 1]) &&
     (|ys| >= 2 ==> ys[|ys| - 2].time < ys[|ys| - 1].time))
  }

  /** The day the node of year y opens on: the first day shown when it lies in
      that year, else 1 January. */
  function YearOpening(c: Calendar, y: int): Date {
    if c.from.year == y then c.from else Ymd(y, 1, 1)
  }

  /** The day the node of month ym opens on: the first day shown when it lies in
      that month, else the 1st. */
  function MonthOpening(c: Calendar, ym: YearMonth): Date
    requires 1 <= ym.month <= 12
  {
    if InMonth(c.from, ym) then c.from else Ymd(ym.year, ym.month, 1)
  }

  /** A month's label is the month format rendered on the day the month opens. */
  predicate MonthLabelled(c: Calendar, render: Renderer, m: MonthNode) {
    1 <= m.time.month <= 12 &&
    m.caption == Text.Sparse(render(MonthOpening(c, m.time), c.monthFormat))
  }

  /** A year's label is the year format rendered on the day the year opens, and
      its months are labelled. */
  predicate YearLabelled(c: Calendar, render: Renderer, y: YearNode) {
    y.caption == Text.Sparse(render(YearOpening(c, y.time), c.yearFormat)) &&
    forall j :: 0 <= j < |y.months| ==> MonthLabelled(c, render, y.months[j])
  }

  /** Every year and month of ys carries the label of its opening day. */
  predicate Labelled(c: Calendar, render: Renderer, ys: seq<YearNode>) {
    forall i :: 0 <= i < |ys| ==> YearLabelled(c, render, ys[i])
  }

  /** The closed years and the open year and month are labelled. */
  predicate WalkLabelled(c: Calendar, render: Renderer, st: Walk) {
    Labelled(c, render, st.years) && YearLabelled(c, render, st.year) && MonthLabelled(c, render, st.month)
  }

  /** The closed years all lie before p's year (or in it, once p closed it). */
  ghost predicate YearsBefore(ys: seq<YearNode>, p: Date, strict: bool) {
    ys != [] ==> ys[|ys| - 1].time <= p.year && (strict ==> ys[|ys| - 1].time < p.year)
  }

  /** The open year is p's; its closed months lie before p's month (or are it,
      once p closed it). */
  ghost predicate OpenYear(c: Calendar, y: YearNode, p: Date, strict: bool)
    requires 0 <= c.firstWeekday <= 6
  {
    y.time == p.year && MonthsIn(c, y.months, p.year) &&
    var ms := y.months;
    (ms != [] ==> ms[|ms| - 1].time.month <= p.month && (strict ==> ms[|ms| - 1].time.month < p.month))
  }

  /** The open month is p's and its closed weeks lie in it. */
  ghost predicate OpenMonth(c: Calendar, m: MonthNode, p: Date)
    requires 0 <= c.firstWeekday <= 6
  {
    m.time == YearMonth(p.year, p.month) && m.month == Text.TwoDigits(p.month) &&
    WeeksIn(c, m.weeks, m.time)
  }

  /** The open week ends with p and has no `following` yet. */
  ghost predicate OpenWeek(c: Calendar, w: WeekNode, p: Date)
    requires 0 <= c.firstWeekday <= 6
  {
    WeekSoFar(c, w) && w.days[|w.days| - 1].time == p && w.following.None?
  }

  /** What the open year, month and week hold after day p at level l. */
  ghost predicate OpenParts(c: Calendar, st: Walk, l: int, p: Date)
    requires 0 <= c.firstWeekday <= 6
  {
    YearsBefore(st.years, p, l >= 1) &&
    (l >= 1 ==> OpenYear(c, st.year, p, l >= 2)) &&
    (l >= 2 ==> OpenMonth(c, st.month, p)) &&
    (l >= 3 ==> OpenWeek(c, st.week, p))
  }

  /** The loop invariant: `day` is next, `prev` was last; the items shown so far
      are those of from .. prev, nested as described above. */
  ghost predicate WalkInv(c: Calendar, render: Renderer, st: Walk, day: Date, prev: Date, first: bool, last: bool) {
    0 <= c.firstWeekday <= 6 &&
    DayNumber(c.from) <= DayNumber(day) &&
    (first <==> DayNumber(day) == DayNumber(c.from)) &&
    (first ==> !last && st.years == []) &&
    (!first ==> Successor(prev) == day) &&
    (!last ==> DayNumber(day) <= DayNumber(c.till)) &&
    (last ==> prev == c.till) &&
    var l := if first || last then 0 else Level(c.firstWeekday, prev);
    Flatten(st, l) == Shown(c, render, day) &&
    GoodYears(c, st.years) &&
    OpenParts(c, st, l, prev)
  }

  // ---------------------------------------------------------------------------
  // The loop

  /** `buildArray()`: rebuilds the header if stale, then walks the days. The
      days shown are from .. till, once each and in order, each with its label,
      weekday and entries; every year, month and week is well formed. */
  method BuildArray(c: Calendar, render: Renderer) returns (c': Calendar, g: Grid)
    requires HeaderCurrent(c, render)
    requires 0 <= c.firstWeekday <= 6
    requires DayNumber(c.from) <= DayNumber(c.till)
    ensures c' == BuildWeekdays(c, render) && g.weekdays == c'.weekdays
    ensures |GridDays(g)| == DayNumber(c.till) - DayNumber(c.from) + 1
    ensures forall k :: 0 <= k < |GridDays(g)| ==> GridDays(g)[k] == MakeDay(c, render, AddDays(c.from, k))
    ensures GoodYears(c, g.years)
    ensures Labelled(c, render, g.years)
  {
    c' := BuildWeekdays(c, render);
    var fw := c.firstWeekday;
    var blankYear := YearNode(0, None, []);
    var blankMonth := MonthNode(YearMonth(0, 1), None, "", []);
    var blankWeek := WeekNode(None, None, None, None, []);
    var st := Walk([], blankYear, blankMonth, blankWeek);
    var day := c.from;
    var first := true;
    var last := false;
    ghost var prev := c.from;
    WalkStarts(c, render, st);
    while !last
      invariant WalkInv(c, render, st, day, prev, first, last)
      invariant !first ==> WalkLabelled(c, render, st)
      decreases if last then 0 else DayNumber(c.till) - DayNumber(day) + 1
    {
      last := day == c.till;
      StepKeeps(c, render, st, day, prev, first, last);
      StepLabels(c, render, st, day, first, last);
      st := Step(c, render, st, day, first, last);
      prev := day;
      AddOneDay(day);
      day := AddDays(day, 1);
      first := false;
    }
    g := Grid(c'.weekdays, st.years);
    WalkEnds(c, render, st, day, prev);
  }

  /** Before the first day nothing is shown and nothing is open. */
  lemma WalkStarts(c: Calendar, render: Renderer, st: Walk)
    requires 0 <= c.firstWeekday <= 6
    requires DayNumber(c.from) <= DayNumber(c.till)
    requires st.years == []
    ensures WalkInv(c, render, st, c.from, c.from, true, false)
  {
  }

  /** After the last day, the closed years show from .. till. */
  lemma WalkEnds(c: Calendar, render: Renderer, st: Walk, day: Date, prev: Date)
    requires WalkInv(c, render, st, day, prev, false, true)
    ensures |YearsDays(st.years)| == DayNumber(c.till) - DayNumber(c.from) + 1
    ensures forall k :: 0 <= k < |YearsDays(st.years)| ==> YearsDays(st.years)[k] == MakeDay(c, render, AddDays(c.from, k))
    ensures GoodYears(c, st.years)
  {
    NeighbourSteps(prev);
    ShownContents(c, render, day);
  }

  // ---------------------------------------------------------------------------
  // Why the invariant holds

  /** Facts about the successor of p that decide what opens on it. */
  lemma ColumnNext(fw: int, p: Date)
    requires 0 <= fw <= 6
    ensures Column(fw, Successor(p)) == (Column(fw, p) + 1) % 7
  {
    NeighbourSteps(p);
    ModSeven(DayNumber(p) + 5 - fw, 1);
  }

  /** A turn keeps the invariant. */
  lemma StepKeeps(c: Calendar, render: Renderer, st: Walk, day: Date, prev: Date, first: bool, last: bool)
    requires WalkInv(c, render, st, day, prev, first, false)
    requires last == (day == c.till)
    ensures WalkInv(c, render, Step(c, render, st, day, first, last), Successor(day), day, false, last)
  {
    var fw := c.firstWeekday;
    var l := if first then 0 else Level(fw, prev);
    if first {
      DayNumberInjective(day, c.from);
    }
    var st2 := Appended(c, render, Opened(c, render, st, day, first), day);
    OpenKeeps(c, render, st, day, prev, first, l);
    OpenFlatten(st, st2, l, MakeDay(c, render, day));
    ShownStep(c, render, day);
    NeighbourSteps(day);
    if !last {
      if DayNumber(day) == DayNumber(c.till) {
        DayNumberInjective(day, c.till);
      }
    }
    var l' := if last then 0 else Level(fw, day);
    CloseKeeps(c, st2, day, last, l');
  }

  /** A turn keeps every node labelled: a node opened on the first day shown,
      on 1 January or on the 1st is labelled on its opening day. */
  lemma StepLabels(c: Calendar, render: Renderer, st: Walk, day: Date, first: bool, last: bool)
    requires 0 <= c.firstWeekday <= 6
    requires DayNumber(c.from) <= DayNumber(day)
    requires first <==> DayNumber(day) == DayNumber(c.from)
    requires first ==> st.years == []
    requires !first ==> WalkLabelled(c, render, st)
    ensures WalkLabelled(c, render, Step(c, render, st, day, first, last))
  {
    if first {
      DayNumberInjective(day, c.from);
    } else {
      OpeningsAfterFrom(c, day);
    }
    var st2 := Appended(c, render, Opened(c, render, st, day, first), day);
    assert WalkLabelled(c, render, st2);
    CloseLabels(c, render, st2, day, last);
  }

  /** A 1 January or a 1st after the first day shown is its node's opening day. */
  lemma OpeningsAfterFrom(c: Calendar, x: Date)
    requires DayNumber(c.from) < DayNumber(x)
    ensures x.day == 1 && x.month == 1 ==> YearOpening(c, x.year) == x
    ensures x.day == 1 ==> MonthOpening(c, YearMonth(x.year, x.month)) == x
  {
    YearBounds(c.from);
  }

  /** Closing moves labelled nodes into labelled parents. */
  lemma CloseLabels(c: Calendar, render: Renderer, st: Walk, day: Date, last: bool)
    requires 0 <= c.firstWeekday <= 6
    requires WalkLabelled(c, render, st)
    ensures WalkLabelled(c, render, Closed(c, st, day, last))
  {
    var st3 := Closed(c, st, day, last);
    assert MonthLabelled(c, render, st3.month);
    assert YearLabelled(c, render, st3.year);
  }

  /** Opening and appending: afterwards the walk is at level 3 after `day`. */
  lemma OpenKeeps(c: Calendar, render: Renderer, st: Walk, day: Date, prev: Date, first: bool, l: int)
    requires 0 <= c.firstWeekday <= 6
    requires first ==> day == c.from && st.years == [] && l == 0
    requires !first ==> day == Successor(prev) && l == Level(c.firstWeekday, prev)
    requires OpenParts(c, st, l, prev)
    ensures var st2 := Appended(c, render, Opened(c, render, st, day, first), day);
            Reopened(st, st2, l, MakeDay(c, render, day)) && OpenParts(c, st2, 3, day)
  {
    if first {
      OpenFirst(c, render, st, day);
    } else if l <= 1 {
      OpenAfterMonthEnd(c, render, st, day, prev, l);
    } else {
      OpenInsideMonth(c, render, st, day, prev, l);
    }
  }

  /** The day after a month's last day opens a month, and a year after 31 December. */
  lemma OpenAfterMonthEnd(c: Calendar, render: Renderer, st: Walk, day: Date, prev: Date, l: int)
    requires 0 <= c.firstWeekday <= 6
    requires day == Successor(prev) && l == Level(c.firstWeekday, prev) && l <= 1
    requires OpenParts(c, st, l, prev)
    ensures var st2 := Appended(c, render, Opened(c, render, st, day, false), day);
            Reopened(st, st2, l, MakeDay(c, render, day)) && OpenParts(c, st2, 3, day)
  {
    if l == 0 {
      OpenYearOn(c, render, st, day, prev);
    } else {
      OpenMonthOn(c, render, st, day, prev);
    }
  }

  /** The day after any other day stays in its month and opens at most a week. */
  lemma OpenInsideMonth(c: Calendar, render: Renderer, st: Walk, day: Date, prev: Date, l: int)
    requires 0 <= c.firstWeekday <= 6
    requires day == Successor(prev) && l == Level(c.firstWeekday, prev) && l >= 2
    requires OpenParts(c, st, l, prev)
    ensures var st2 := Appended(c, render, Opened(c, render, st, day, false), day);
            Reopened(st, st2, l, MakeDay(c, render, day)) && OpenParts(c, st2, 3, day)
  {
    var fw := c.firstWeekday;
    assert prev.day < DaysInMonth(prev.year, prev.month);
    NextInMonth(prev);
    if l == 2 {
      ColumnWraps(fw, prev);
      OpenRowOn(c, render, st, day, prev);
    } else {
      ColumnRises(fw, prev);
      ContinueRow(c, render, st, day, prev);
    }
  }

  /** After the last column comes column 0 ... */
  lemma ColumnWraps(fw: int, p: Date)
    requires 0 <= fw <= 6 && Column(fw, p) == 6
    ensures Column(fw, Successor(p)) == 0
  {
    ColumnNext(fw, p);
  }

  /** ... and after any other column the next one. */
  lemma ColumnRises(fw: int, p: Date)
    requires 0 <= fw <= 6 && Column(fw, p) < 6
    ensures Column(fw, Successor(p)) == Column(fw, p) + 1
  {
    ColumnNext(fw, p);
    SmallMod(Column(fw, p) + 1);
  }

  /** What the open nodes hold after opening at level l and appending d. */
  ghost predicate Reopened(st: Walk, st2: Walk, l: int, d: DayNode) {
    st2.years == st.years &&
    st2.year.months == (if l >= 1 then st.year.months else []) &&
    st2.month.weeks == (if l >= 2 then st.month.weeks else []) &&
    st2.week.days == (if l >= 3 then st.week.days else []) + [d]
  }

  /** Opening at level l and appending d adds d to the items shown. */
  lemma OpenFlatten(st: Walk, st2: Walk, l: int, d: DayNode)
    requires Reopened(st, st2, l, d)
    ensures Flatten(st2, 3) == Flatten(st, l) + [d]
  {
  }

  /** The first day opens a year, a month and a week. */
  lemma OpenFirst(c: Calendar, render: Renderer, st: Walk, day: Date)
    requires 0 <= c.firstWeekday <= 6
    requires day == c.from && st.years == []
    ensures var st2 := Appended(c, render, Opened(c, render, st, day, true), day);
            Reopened(st, st2, 0, MakeDay(c, render, day)) && OpenParts(c, st2, 3, day)
  {
    var st2 := Appended(c, render, Opened(c, render, st, day, true), day);
    assert st2.week.days == [MakeDay(c, render, day)];
  }

  /** 1 January after a shown 31 December opens a year, a month and a week. */
  lemma OpenYearOn(c: Calendar, render: Renderer, st: Walk, day: Date, prev: Date)
    requires 0 <= c.firstWeekday <= 6
    requires prev.month == 12 && prev.day == 31 && day == Successor(prev)
    requires OpenParts(c, st, 0, prev)
    ensures var st2 := Appended(c, render, Opened(c, render, st, day, false), day);
            Reopened(st, st2, 0, MakeDay(c, render, day)) && OpenParts(c, st2, 3, day)
  {
    assert day == Ymd(prev.year + 1, 1, 1);
    var st2 := Appended(c, render, Opened(c, render, st, day, false), day);
    assert st2.week.days == [MakeDay(c, render, day)];
  }

  /** The 1st of a month after a shown month end opens a month and a week. */
  lemma OpenMonthOn(c: Calendar, render: Renderer, st: Walk, day: Date, prev: Date)
    requires 0 <= c.firstWeekday <= 6
    requires prev.month < 12 && prev.day == DaysInMonth(prev.year, prev.month) && day == Successor(prev)
    requires OpenParts(c, st, 1, prev)
    ensures var st2 := Appended(c, render, Opened(c, render, st, day, false), day);
            Reopened(st, st2, 1, MakeDay(c, render, day)) && OpenParts(c, st2, 3, day)
  {
    assert day == Ymd(prev.year, prev.month + 1, 1);
    var st2 := Appended(c, render, Opened(c, render, st, day, false), day);
    assert st2.week.days == [MakeDay(c, render, day)];
    NextMonthParts(c, st, prev, day);
  }

  /** After p closed its month, the open year serves the following month x. */
  lemma NextMonthParts(c: Calendar, st: Walk, p: Date, x: Date)
    requires 0 <= c.firstWeekday <= 6
    requires OpenParts(c, st, 1, p) && x.year == p.year && x.month == p.month + 1
    ensures YearsBefore(st.years, x, true) && OpenYear(c, st.year, x, true)
  {
  }

  /** The day after a shown column 6, inside a month, opens a week. */
  lemma OpenRowOn(c: Calendar, render: Renderer, st: Walk, day: Date, prev: Date)
    requires 0 <= c.firstWeekday <= 6
    requires day == Ymd(prev.year, prev.month, prev.day + 1)
    requires Column(c.firstWeekday, day) == 0
    requires OpenParts(c, st, 2, prev)
    ensures var st2 := Appended(c, render, Opened(c, render, st, day, false), day);
            Reopened(st, st2, 2, MakeDay(c, render, day)) && OpenParts(c, st2, 3, day)
  {
    var w := NewWeekNode(c.firstWeekday, day).(days := [MakeDay(c, render, day)]);
    RowOpens(c, render, st, day);
    FreshWeek(c, render, day);
    SameMonthParts(c, st, prev, day);
    WithWeek(c, st, w, day);
  }

  /** Column 0 inside a month opens only a week. */
  lemma RowOpens(c: Calendar, render: Renderer, st: Walk, x: Date)
    requires 0 <= c.firstWeekday <= 6
    requires Column(c.firstWeekday, x) == 0 && x.day != 1
    ensures Appended(c, render, Opened(c, render, st, x, false), x)
            == st.(week := NewWeekNode(c.firstWeekday, x).(days := [MakeDay(c, render, x)]))
  {
  }

  /** A week opened on x where a week may open, holding x, is an open week. */
  lemma FreshWeek(c: Calendar, render: Renderer, x: Date)
    requires 0 <= c.firstWeekday <= 6
    requires x == c.from || Column(c.firstWeekday, x) == 0 || x.day == 1
    ensures OpenWeek(c, NewWeekNode(c.firstWeekday, x).(days := [MakeDay(c, render, x)]), x)
  {
  }

  /** Any open week ending with x completes the open parts of x. */
  lemma WithWeek(c: Calendar, st: Walk, w: WeekNode, x: Date)
    requires 0 <= c.firstWeekday <= 6
    requires OpenParts(c, st, 2, x) && OpenWeek(c, w, x)
    ensures OpenParts(c, st.(week := w), 3, x)
  {
  }

  /** Any other day joins the open week. */
  lemma ContinueRow(c: Calendar, render: Renderer, st: Walk, day: Date, prev: Date)
    requires 0 <= c.firstWeekday <= 6
    requires day == Ymd(prev.year, prev.month, prev.day + 1)
    requires Column(c.firstWeekday, day) == Column(c.firstWeekday, prev) + 1
    requires OpenParts(c, st, 3, prev)
    ensures var st2 := Appended(c, render, Opened(c, render, st, day, false), day);
            Reopened(st, st2, 3, MakeDay(c, render, day)) && OpenParts(c, st2, 3, day)
  {
    NothingOpens(c, render, st, day);
    var d := MakeDay(c, render, day);
    SameMonthParts(c, st, prev, day);
    GrowWeek(c, st.week, d, prev);
    JoinWeek(c, st, d, day);
  }

  /** Inside a month, the next day is the next day of the month. */
  lemma NextInMonth(p: Date)
    requires p.day < DaysInMonth(p.year, p.month)
    ensures Successor(p) == Ymd(p.year, p.month, p.day + 1)
  {
  }

  /** A day inside a week row and a month opens nothing. */
  lemma NothingOpens(c: Calendar, render: Renderer, st: Walk, x: Date)
    requires 0 <= c.firstWeekday <= 6
    requires Column(c.firstWeekday, x) != 0 && x.day != 1
    ensures Opened(c, render, st, x, false) == st
  {
  }

  /** The walk with d appended to its open week. */
  lemma JoinWeek(c: Calendar, st: Walk, d: DayNode, x: Date)
    requires 0 <= c.firstWeekday <= 6
    requires OpenParts(c, st, 2, x) && OpenWeek(c, st.week.(days := st.week.days + [d]), x)
    ensures var st2 := st.(week := st.week.(days := st.week.days + [d]));
            Reopened(st, st2, 3, d) && OpenParts(c, st2, 3, x)
  {
  }

  /** The closed years, the open year and the open month of p serve any day of p's month. */
  lemma SameMonthParts(c: Calendar, st: Walk, p: Date, x: Date)
    requires 0 <= c.firstWeekday <= 6
    requires OpenParts(c, st, 2, p) && x.year == p.year && x.month == p.month
    ensures OpenParts(c, st, 2, x)
  {
  }

  /** A day appended to an open week after its last day p keeps it a week so far. */
  lemma GrowWeek(c: Calendar, w: WeekNode, d: DayNode, p: Date)
    requires 0 <= c.firstWeekday <= 6
    requires OpenWeek(c, w, p)
    requires d.time == Ymd(p.year, p.month, p.day + 1)
    requires Column(c.firstWeekday, d.time) == Column(c.firstWeekday, p) + 1
    ensures OpenWeek(c, w.(days := w.days + [d]), d.time)
  {
    var w' := w.(days := w.days + [d]);
    assert w'.days[0] == w.days[0];
  }

  /** Closing: the nodes that end on `day` move into their parents. */
  lemma CloseKeeps(c: Calendar, st: Walk, day: Date, last: bool, l': int)
    requires 0 <= c.firstWeekday <= 6
    requires GoodYears(c, st.years) && OpenParts(c, st, 3, day)
    requires last == (day == c.till)
    requires l' == if last then 0 else Level(c.firstWeekday, day)
    ensures var st3 := Closed(c, st, day, last);
            && Flatten(st3, l') == Flatten(st, 3)
            && GoodYears(c, st3.years)
            && OpenParts(c, st3, l', day)
  {
    var wd := Column(c.firstWeekday, day);
    var t := DaysInMonth(day.year, day.month);
    if last || (day.month == 12 && day.day == t) {
      CloseAll(c, st, day, last, l');
    } else if day.day == t {
      CloseMonth(c, st, day, last, l');
    } else if wd == 6 {
      CloseRow(c, st, day, last, l');
    } else {
      assert Closed(c, st, day, last) == st;
    }
  }

  /** Day ends a week row only. */
  lemma CloseRow(c: Calendar, st: Walk, day: Date, last: bool, l': int)
    requires 0 <= c.firstWeekday <= 6
    requires GoodYears(c, st.years) && OpenParts(c, st, 3, day)
    requires last == (day == c.till) && !last
    requires Column(c.firstWeekday, day) == 6 && day.day != DaysInMonth(day.year, day.month)
    requires l' == 2
    ensures var st3 := Closed(c, st, day, last);
            && Flatten(st3, l') == Flatten(st, 3)
            && GoodYears(c, st3.years)
            && OpenParts(c, st3, l', day)
  {
    var st3 := Closed(c, st, day, last);
    FlattenRow(st, st3);
    CloseRowParts(c, st, day, last);
  }

  lemma CloseRowParts(c: Calendar, st: Walk, day: Date, last: bool)
    requires 0 <= c.firstWeekday <= 6
    requires OpenParts(c, st, 3, day)
    requires last == (day == c.till) && !last
    requires Column(c.firstWeekday, day) == 6 && day.day != DaysInMonth(day.year, day.month)
    ensures OpenParts(c, Closed(c, st, day, last), 2, day)
  {
    CloseThroughWeek(c, st, day, last);
  }

  /** The open week, closed on `day`, joins the open month. */
  lemma CloseThroughWeek(c: Calendar, st: Walk, day: Date, last: bool)
    requires 0 <= c.firstWeekday <= 6
    requires OpenMonth(c, st.month, day) && OpenWeek(c, st.week, day)
    requires last == (day == c.till)
    requires last || Column(c.firstWeekday, day) == 6 || day.day == DaysInMonth(day.year, day.month)
    ensures OpenMonth(c, Closed(c, st, day, last).month, day)
    ensures |Closed(c, st, day, last).month.weeks| >= 1
  {
    var st3 := Closed(c, st, day, last);
    CloseWeek(c, st.week, st3.week, day, last);
    CloseWeekInto(c, st.month, st3.week, day);
  }

  /** The open week and month, closed on `day`, join the open year. */
  lemma CloseThroughMonth(c: Calendar, st: Walk, day: Date, last: bool)
    requires 0 <= c.firstWeekday <= 6
    requires OpenParts(c, st, 3, day)
    requires last == (day == c.till)
    requires last || day.day == DaysInMonth(day.year, day.month)
    ensures OpenYear(c, Closed(c, st, day, last).year, day, false)
    ensures |Closed(c, st, day, last).year.months| >= 1
  {
    var st3 := Closed(c, st, day, last);
    CloseThroughWeek(c, st, day, last);
    CloseMonthInto(c, st.year, st3.month, day);
  }

  /** Day ends a month but not the year nor the walk. */
  lemma CloseMonth(c: Calendar, st: Walk, day: Date, last: bool, l': int)
    requires 0 <= c.firstWeekday <= 6
    requires GoodYears(c, st.years) && OpenParts(c, st, 3, day)
    requires last == (day == c.till) && !last
    requires day.day == DaysInMonth(day.year, day.month) && day.month != 12
    requires l' == 1
    ensures var st3 := Closed(c, st, day, last);
            && Flatten(st3, l') == Flatten(st, 3)
            && GoodYears(c, st3.years)
            && OpenParts(c, st3, l', day)
  {
    var st3 := Closed(c, st, day, last);
    FlattenMonth(st, st3);
    CloseMonthParts(c, st, day, last);
  }

  lemma CloseMonthParts(c: Calendar, st: Walk, day: Date, last: bool)
    requires 0 <= c.firstWeekday <= 6
    requires OpenParts(c, st, 3, day)
    requires last == (day == c.till) && !last
    requires day.day == DaysInMonth(day.year, day.month) && day.month != 12
    ensures OpenParts(c, Closed(c, st, day, last), 1, day)
  {
    CloseThroughMonth(c, st, day, last);
  }

  /** Day ends the year or the walk: everything closes. */
  lemma CloseAll(c: Calendar, st: Walk, day: Date, last: bool, l': int)
    requires 0 <= c.firstWeekday <= 6
    requires GoodYears(c, st.years) && OpenParts(c, st, 3, day)
    requires last == (day == c.till)
    requires last || (day.month == 12 && day.day == DaysInMonth(day.year, day.month))
    requires l' == 0
    ensures var st3 := Closed(c, st, day, last);
            && Flatten(st3, l') == Flatten(st, 3)
            && GoodYears(c, st3.years)
            && OpenParts(c, st3, l', day)
  {
    var st3 := Closed(c, st, day, last);
    FlattenAll(st, st3);
    CloseAllParts(c, st, day, last);
  }

  lemma CloseAllParts(c: Calendar, st: Walk, day: Date, last: bool)
    requires 0 <= c.firstWeekday <= 6
    requires GoodYears(c, st.years) && OpenParts(c, st, 3, day)
    requires last == (day == c.till)
    requires last || (day.month == 12 && day.day == DaysInMonth(day.year, day.month))
    ensures GoodYears(c, Closed(c, st, day, last).years)
    ensures OpenParts(c, Closed(c, st, day, last), 0, day)
  {
    CloseThroughMonth(c, st, day, last);
    CloseYearInto(c, st.years, Closed(c, st, day, last).year, day);
  }

  lemma CloseWeekInto(c: Calendar, m: MonthNode, w: WeekNode, day: Date)
    requires 0 <= c.firstWeekday <= 6
    requires OpenMonth(c, m, day) && GoodWeek(c, w) && InMonth(w.days[0].time, YearMonth(day.year, day.month))
    ensures OpenMonth(c, m.(weeks := m.weeks + [w]), day)
  {
    WeeksInSnoc(c, m.weeks, w, m.time);
  }

  lemma CloseMonthInto(c: Calendar, y: YearNode, m: MonthNode, day: Date)
    requires 0 <= c.firstWeekday <= 6
    requires OpenYear(c, y, day, true) && OpenMonth(c, m, day) && |m.weeks| >= 1
    ensures OpenYear(c, y.(months := y.months + [m]), day, false)
  {
    MonthsInSnoc(c, y.months, m, day.year);
  }

  lemma CloseYearInto(c: Calendar, ys: seq<YearNode>, y: YearNode, day: Date)
    requires 0 <= c.firstWeekday <= 6
    requires GoodYears(c, ys) && YearsBefore(ys, day, true) && OpenYear(c, y, day, false) && |y.months| >= 1
    ensures GoodYears(c, ys + [y]) && YearsBefore(ys + [y], day, false)
  {
    YearsSnoc(c, ys, y);
  }

  /** Closing a week row moves its items into the month. */
  lemma FlattenRow(st: Walk, st3: Walk)
    requires st3.years == st.years && st3.year == st.year
    requires st3.month.weeks == st.month.weeks + [st3.week] && st3.week.days == st.week.days
    ensures Flatten(st3, 2) == Flatten(st, 3)
  {
    WeeksDaysSnoc(st.month.weeks, st3.week);
  }

  /** Closing a week row and its month moves their items into the year. */
  lemma FlattenMonth(st: Walk, st3: Walk)
    requires st3.years == st.years && st3.year.months == st.year.months + [st3.month]
    requires st3.month.weeks == st.month.weeks + [st3.week] && st3.week.days == st.week.days
    ensures Flatten(st3, 1) == Flatten(st, 3)
  {
    WeeksDaysSnoc(st.month.weeks, st3.week);
    MonthsDaysSnoc(st.year.months, st3.month);
  }

  /** Closing everything moves the items into the closed years. */
  lemma FlattenAll(st: Walk, st3: Walk)
    requires st3.years == st.years + [st3.year] && st3.year.months == st.year.months + [st3.month]
    requires st3.month.weeks == st.month.weeks + [st3.week] && st3.week.days == st.week.days
    ensures Flatten(st3, 0) == Flatten(st, 3)
  {
    WeeksDaysSnoc(st.month.weeks, st3.week);
    MonthsDaysSnoc(st.year.months, st3.month);
    YearsDaysSnoc(st.years, st3.year);
  }

  /** The open week, closed on `day`, is a good week. */
  lemma CloseWeek(c: Calendar, w: WeekNode, w': WeekNode, day: Date, last: bool)
    requires 0 <= c.firstWeekday <= 6
    requires WeekSoFar(c, w) && w.days[|w.days| - 1].time == day && w.following.None?
    requires last == (day == c.till)
    requires var wd := Column(c.firstWeekday, day);
             last || wd == 6 || day.day == DaysInMonth(day.year, day.month)
    requires var wd := Column(c.firstWeekday, day);
             w' == if wd < 6 then w.(following := Some(6 - wd)) else w
    ensures GoodWeek(c, w') && InMonth(w'.days[0].time, YearMonth(day.year, day.month))
  {
    WeekInOneMonth(c, w);
    SoFarIgnoresFollowing(c, w, w');
  }

  /** A week row lies in the month of its last day. */
  lemma WeekInOneMonth(c: Calendar, w: WeekNode)
    requires 0 <= c.firstWeekday <= 6
    requires WeekSoFar(c, w)
    ensures var b := w.days[|w.days| - 1].time;
            InMonth(w.days[0].time, YearMonth(b.year, b.month))
  {
    assert w.days[|w.days| - 1].time == Ymd(w.days[0].time.year, w.days[0].time.month, w.days[0].time.day + |w.days| - 1);
  }

  /** Whether a week is filled so far does not depend on `following`. */
  lemma SoFarIgnoresFollowing(c: Calendar, w: WeekNode, w': WeekNode)
    requires 0 <= c.firstWeekday <= 6
    requires WeekSoFar(c, w) && w' == w.(following := w'.following)
    ensures WeekSoFar(c, w')
  {
  }

  lemma WeeksInSnoc(c: Calendar, ws: seq<WeekNode>, w: WeekNode, ym: YearMonth)
    requires 0 <= c.firstWeekday <= 6
    requires WeeksIn(c, ws, ym) && GoodWeek(c, w) && InMonth(w.days[0].time, ym)
    ensures WeeksIn(c, ws + [w], ym)
  {
    assert (ws + [w])[..|ws|] == ws;
  }

  lemma MonthsInSnoc(c: Calendar, ms: seq<MonthNode>, m: MonthNode, y: int)
    requires 0 <= c.firstWeekday <= 6
    requires MonthsIn(c, ms, y) && GoodMonth(c, m) && m.time.year == y
    requires ms != [] ==> ms[|ms| - 1].time.month < m.time.month
    ensures MonthsIn(c, ms + [m], y)
  {
    assert (ms + [m])[..|ms|] == ms;
  }

  lemma YearsSnoc(c: Calendar, ys: seq<YearNode>, y: YearNode)
    requires 0 <= c.firstWeekday <= 6
    requires GoodYears(c, ys) && GoodYear(c, y)
    requires ys != [] ==> ys[|ys| - 1].time < y.time
    ensures GoodYears(c, ys + [y])
  {
    assert (ys + [y])[..|ys|] == ys;
  }
}
