/** The annotated day of src/Day.php: a date with an optional title and link,
    the states it applies to and the states where it is only regional. The
    setters and the date arithmetic return new values. */
module DayRecord {
  import opened Options
  import opened Gregorian
  import Text

  datatype Day = Day(date: Date, title: Option<string>, link: Option<string>,
                     states: seq<string>, regional: seq<string>)

  /** `new Day(...)` for a date: no title, no link, no states. */
  function NewDay(x: Date): (r: Day)
    ensures r.date == x && r.title.None? && r.link.None?
    ensures r.states == [] && r.regional == []
  {
    Day(x, None, None, [], [])
  }

  function SetTitle(d: Day, title: string): (r: Day)
    ensures r.title == Some(title)
    ensures r.(title := d.title) == d
  {
    d.(title := Some(title))
  }

  function SetLink(d: Day, url: string): (r: Day)
    ensures r.link == Some(url)
    ensures r.(link := d.link) == d
  {
    d.(link := Some(url))
  }

  /** `setStates(states, regional)` replaces both lists. */
  function SetStates(d: Day, states: seq<string>, regional: seq<string>): (r: Day)
    ensures r.states == states && r.regional == regional
    ensures r.date == d.date && r.title == d.title && r.link == d.link
  {
    d.(states := states, regional := regional)
  }

  /** `inState(state)`: PHP's `empty` holds of "" and "0". A day without
      states lies in every state, and every day lies in the empty state. */
  predicate InState(d: Day, state: string): (r: bool)
    ensures d.states == [] ==> r
    ensures state == "" || state == "0" ==> r
    ensures state in d.states ==> r
    ensures r && d.states != [] && state != "" && state != "0" ==> state in d.states
  {
    !Text.Truthy(state) || |d.states| == 0 || state in d.states
  }

  /** `isRegional(state)`: the state is one of the listed regional ones. */
  predicate IsRegional(d: Day, state: string): (r: bool)
    ensures r <==> exists i :: 0 <= i < |d.regional| && d.regional[i] == state
    ensures d.regional == [] ==> !r
  {
    state in d.regional
  }

  /** A fresh day is in every state and regional in none. */
  lemma NewDayEverywhere(x: Date, s: string)
    ensures InState(NewDay(x), s) && !IsRegional(NewDay(x), s)
  {
  }

  /** A day with states lies exactly in the listed ones and in the two falsy
      strings "" and "0". */
  lemma ListedStatesOnly(d: Day, s: string)
    requires d.states != []
    ensures InState(d, s) <==> s in d.states || s == "" || s == "0"
  {
  }

  /** After `setStates(S, R)` a state is in the day's states exactly when it is
      empty, S is empty or it is listed in S; it is regional exactly when listed in R. */
  lemma StatesDecideMembership(d: Day, states: seq<string>, regional: seq<string>, s: string)
    ensures InState(SetStates(d, states, regional), s) <==> (!Text.Truthy(s) || states == [] || s in states)
    ensures IsRegional(SetStates(d, states, regional), s) <==> s in regional
  {
  }

  /** An empty state or an unrestricted day always matches. */
  lemma InStateUnrestricted(d: Day, s: string)
    requires s == "" || s == "0" || d.states == []
    ensures InState(d, s)
  {
  }

  /** `addYears`, `addMonths`, `addDays` move the date with PHP's rollover and
      keep the annotations. */
  function ShiftYears(d: Day, n: int): (r: Day)
    ensures r.(date := d.date) == d
    ensures r.date == AddYears(d.date, n)
  {
    d.(date := AddYears(d.date, n))
  }

  function ShiftMonths(d: Day, n: int): (r: Day)
    ensures r.(date := d.date) == d
    ensures r.date == AddMonths(d.date, n)
  {
    d.(date := AddMonths(d.date, n))
  }

  function ShiftDays(d: Day, n: int): (r: Day)
    ensures r.(date := d.date) == d
    ensures DayNumber(r.date) == DayNumber(d.date) + n
  {
    d.(date := AddDays(d.date, n))
  }

  /** `FirstOfThisYear(delta)` with today's date as a parameter: 1 January of
      today's year plus delta. */
  function FirstOfThisYear(today: Date, delta: int): (r: Day)
    ensures r.date == Ymd(today.year + delta, 1, 1)
    ensures r.title.None? && r.link.None? && r.states == [] && r.regional == []
  {
    AddYearsRollover(Ymd(today.year, 1, 1), delta);
    ShiftYears(NewDay(Ymd(today.year, 1, 1)), delta)
  }

  /** `FirstOfThisMonth(delta)` with today's date as a parameter: the 1st of the
      month delta months from today's; day 1 never overflows. */
  function FirstOfThisMonth(today: Date, delta: int): (r: Day)
    ensures r.date.day == 1
    ensures MonthIndex(r.date.year, r.date.month) == MonthIndex(today.year, today.month) + delta
    ensures r.title.None? && r.link.None? && r.states == [] && r.regional == []
  {
    AddMonthsRollover(Ymd(today.year, today.month, 1), delta);
    ShiftMonths(NewDay(Ymd(today.year, today.month, 1)), delta)
  }
}
