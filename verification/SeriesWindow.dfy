/** The period a new series instance is opened for, on the proleptic Gregorian calendar. */
module SeriesWindow {
  import opened Domain
  import opened Schedule

  datatype WindowType = WeeklyWindow | MonthlyWindow | CustomWindow

  datatype Date = Date(year: int, month: int, day: int)

  /** A local wall-clock instant: a date and the microseconds since its midnight. */
  datatype Local = Local(date: Date, micros: int)

  const DAY_MICROS: int := 86_400 * MICROS

  predicate Leap(year: int) {
    year % 4 == 0 && (year % 100 != 0 || year % 400 == 0)
  }

  function DaysIn(year: int, month: int): int {
    if month == 2 then (if Leap(year) then 29 else 28)
    else if month in {4, 6, 9, 11} then 30
    else 31
  }

  predicate ValidDate(d: Date) {
    1 <= d.year && 1 <= d.month <= 12 && 1 <= d.day <= DaysIn(d.year, d.month)
  }

  predicate Valid(t: Local) {
    ValidDate(t.date) && 0 <= t.micros < DAY_MICROS
  }

  /** The day number of the first day of a month; 1 January of year 1, a Monday, is day 0. */
  function MonthStart(year: int, month: int): int
    requires 1 <= year && 1 <= month <= 12
    decreases year, month
  {
    if month > 1 then MonthStart(year, month - 1) + DaysIn(year, month - 1)
    else if year > 1 then MonthStart(year - 1, 12) + DaysIn(year - 1, 12)
    else 0
  }

  function DayNumber(d: Date): int
    requires ValidDate(d)
  {
    MonthStart(d.year, d.month) + d.day - 1
  }

  function Instant(t: Local): int
    requires Valid(t)
  {
    DayNumber(t.date) * DAY_MICROS + t.micros
  }

  /** The first of the next month: the year turns in December. */
  function NextMonth(d: Date): Date {
    if d.month == 12 then Date(d.year + 1, 1, 1) else Date(d.year, d.month + 1, 1)
  }

  datatype Window = Window(start: int, end: int)

  function ComputeWindow(kind: WindowType, now: Local): Window
    requires Valid(now)
  {
    match kind
    case WeeklyWindow =>
      var monday := DayNumber(now.date) - Weekday(DayNumber(now.date));
      Window(monday * DAY_MICROS, monday * DAY_MICROS + 7 * DAY_MICROS)
    case MonthlyWindow =>
      Window(DayNumber(now.date.(day := 1)) * DAY_MICROS, DayNumber(NextMonth(now.date)) * DAY_MICROS)
    case CustomWindow =>
      Window(DayNumber(now.date) * DAY_MICROS, DayNumber(now.date) * DAY_MICROS + 7 * DAY_MICROS)
  }

  // ---------------------------------------------------------------- calendar

  predicate EarlierMonth(a: Date, b: Date) {
    a.year < b.year || (a.year == b.year && a.month < b.month)
  }

  /** Later months start no earlier than the end of any month before them. */
  lemma {:induction false} MonthsAscend(a: Date, year: int, month: int)
    requires ValidDate(a) && 1 <= year && 1 <= month <= 12 && EarlierMonth(a, Date(year, month, 1))
    ensures MonthStart(a.year, a.month) + DaysIn(a.year, a.month) <= MonthStart(year, month)
    decreases year, month
  {
    if month > 1 {
      if EarlierMonth(a, Date(year, month - 1, 1)) {
        MonthsAscend(a, year, month - 1);
      }
    } else if EarlierMonth(a, Date(year - 1, 12, 1)) {
      MonthsAscend(a, year - 1, 12);
    }
  }

  /** A month's dates are exactly the days from its start to the start of the next month. */
  lemma DateIsInItsMonth(d: Date)
    requires ValidDate(d)
    ensures ValidDate(NextMonth(d)) && ValidDate(d.(day := 1))
    ensures DayNumber(d.(day := 1)) <= DayNumber(d) < DayNumber(NextMonth(d))
    ensures DayNumber(NextMonth(d)) == DayNumber(d.(day := 1)) + DaysIn(d.year, d.month)
  {
  }

  /** Two dates in different months are on opposite sides of a month boundary. */
  lemma MonthsAreApart(a: Date, b: Date)
    requires ValidDate(a) && ValidDate(b) && EarlierMonth(a, b)
    ensures ValidDate(NextMonth(a)) && ValidDate(b.(day := 1))
    ensures DayNumber(NextMonth(a)) <= DayNumber(b.(day := 1))
  {
    DateIsInItsMonth(a);
    MonthsAscend(a, b.year, b.month);
  }

  // ---------------------------------------------------------------- theorems

  lemma WithinDays(first: int, day: int, end: int, micros: int)
    requires first <= day < end && 0 <= micros < DAY_MICROS
    ensures first * DAY_MICROS <= day * DAY_MICROS + micros < end * DAY_MICROS
  {
    assert day + 1 <= end;
  }

  /** The window computed at an instant contains it. */
  lemma WindowContainsNow(kind: WindowType, now: Local)
    requires Valid(now)
    ensures var w := ComputeWindow(kind, now); w.start <= Instant(now) < w.end
  {
    var day := DayNumber(now.date);
    match kind
    case WeeklyWindow => WithinDays(day - Weekday(day), day, day - Weekday(day) + 7, now.micros);
    case MonthlyWindow =>
      DateIsInItsMonth(now.date);
      WithinDays(DayNumber(now.date.(day := 1)), day, DayNumber(NextMonth(now.date)), now.micros);
    case CustomWindow => WithinDays(day, day, day + 7, now.micros);
  }

  predicate Disjoint(a: Window, b: Window) {
    a.end <= b.start || b.end <= a.start
  }

  lemma EarlierMonthEndsFirst(a: Local, b: Local)
    requires Valid(a) && Valid(b) && EarlierMonth(a.date, b.date)
    ensures ComputeWindow(MonthlyWindow, a).end <= ComputeWindow(MonthlyWindow, b).start
  {
    MonthsAreApart(a.date, b.date);
  }

  lemma WeeklyWindowsPartition(a: Local, b: Local)
    requires Valid(a) && Valid(b)
    ensures var v, w := ComputeWindow(WeeklyWindow, a), ComputeWindow(WeeklyWindow, b);
            v == w || Disjoint(v, w)
  {
    WeeksPartition(DayNumber(a.date), DayNumber(b.date));
  }

  /** Weekly and monthly windows partition local time: any two are the same or do not overlap. */
  lemma WindowsPartition(kind: WindowType, a: Local, b: Local)
    requires Valid(a) && Valid(b) && kind != CustomWindow
    ensures var v, w := ComputeWindow(kind, a), ComputeWindow(kind, b);
            v == w || Disjoint(v, w)
  {
    if kind == WeeklyWindow {
      WeeklyWindowsPartition(a, b);
    } else if EarlierMonth(a.date, b.date) {
      EarlierMonthEndsFirst(a, b);
    } else if EarlierMonth(b.date, a.date) {
      EarlierMonthEndsFirst(b, a);
    } else {
      assert a.date.(day := 1) == b.date.(day := 1) && NextMonth(a.date) == NextMonth(b.date);
    }
  }

  lemma WeeksPartition(a: int, b: int)
    ensures var x, y := a - Weekday(a), b - Weekday(b);
            (x == y || x + 7 <= y || y + 7 <= x) && Weekday(x) == 0 && x <= a < x + 7
  {
  }

  /** A day number names one date. */
  lemma DayNumberNamesOneDate(a: Date, b: Date)
    requires ValidDate(a) && ValidDate(b) && DayNumber(a) == DayNumber(b)
    ensures a == b
  {
    if EarlierMonth(a, b) {
      EarlierMonthComesFirst(a, b);
    } else if EarlierMonth(b, a) {
      EarlierMonthComesFirst(b, a);
    }
  }

  lemma EarlierMonthComesFirst(a: Date, b: Date)
    requires ValidDate(a) && ValidDate(b) && EarlierMonth(a, b)
    ensures DayNumber(a) < DayNumber(b)
  {
    MonthsAreApart(a, b);
    DateIsInItsMonth(a);
    DateIsInItsMonth(b);
  }

  lemma NextMonthlyWindow(now: Local, later: Local)
    requires Valid(now) && Valid(later) && Instant(later) == ComputeWindow(MonthlyWindow, now).end
    ensures ComputeWindow(MonthlyWindow, later).start == ComputeWindow(MonthlyWindow, now).end
  {
    WholeDays(DayNumber(later.date), later.micros, DayNumber(NextMonth(now.date)));
    DayNumberNamesOneDate(later.date, NextMonth(now.date));
  }

  lemma NextWeeklyWindow(now: Local, later: Local)
    requires Valid(now) && Valid(later) && Instant(later) == ComputeWindow(WeeklyWindow, now).end
    ensures ComputeWindow(WeeklyWindow, later).start == ComputeWindow(WeeklyWindow, now).end
  {
    WholeDays(DayNumber(later.date), later.micros, DayNumber(now.date) - Weekday(DayNumber(now.date)) + 7);
  }

  /** Windows follow each other without a gap, over year ends and every month length. */
  lemma NextWindowStartsAtTheEnd(kind: WindowType, now: Local, later: Local)
    requires Valid(now) && Valid(later) && Instant(later) == ComputeWindow(kind, now).end
    ensures ComputeWindow(kind, later).start == ComputeWindow(kind, now).end
  {
    match kind
    case WeeklyWindow => NextWeeklyWindow(now, later);
    case MonthlyWindow => NextMonthlyWindow(now, later);
    case CustomWindow => WholeDays(DayNumber(later.date), later.micros, DayNumber(now.date) + 7);
  }

  /** Every day from the first on is the number of some date. */
  lemma {:induction false} DateOf(day: nat) returns (d: Date)
    ensures ValidDate(d) && DayNumber(d) == day
  {
    if day == 0 {
      d := Date(1, 1, 1);
    } else {
      var before := DateOf(day - 1);
      DateIsInItsMonth(before);
      d := if before.day < DaysIn(before.year, before.month) then before.(day := before.day + 1) else NextMonth(before);
    }
  }

  /** A window's end is a local instant, and the window computed then starts at it: time is covered without a gap. */
  lemma WindowsLeaveNoGap(kind: WindowType, now: Local) returns (later: Local)
    requires Valid(now)
    ensures Valid(later) && Instant(later) == ComputeWindow(kind, now).end == ComputeWindow(kind, later).start
  {
    var day := if kind == MonthlyWindow then DayNumber(NextMonth(now.date))
               else if kind == WeeklyWindow then DayNumber(now.date) - Weekday(DayNumber(now.date)) + 7
               else DayNumber(now.date) + 7;
    DayIsNatural(now.date.year, now.date.month);
    DateIsInItsMonth(now.date);
    var d := DateOf(day);
    later := Local(d, 0);
    NextWindowStartsAtTheEnd(kind, now, later);
  }

  lemma {:induction false} DayIsNatural(year: int, month: int)
    requires 1 <= year && 1 <= month <= 12
    ensures MonthStart(year, month) >= 0
    decreases year, month
  {
    if month > 1 {
      DayIsNatural(year, month - 1);
    } else if year > 1 {
      DayIsNatural(year - 1, 12);
    }
  }

  lemma WholeDays(day: int, micros: int, other: int)
    requires 0 <= micros < DAY_MICROS && day * DAY_MICROS + micros == other * DAY_MICROS
    ensures day == other && micros == 0
  {
  }

  /** The custom fallback does not partition time: two windows overlap exactly when under a week apart. */
  lemma CustomWindowsOverlapIff(a: Local, b: Local)
    requires Valid(a) && Valid(b)
    ensures !Disjoint(ComputeWindow(CustomWindow, a), ComputeWindow(CustomWindow, b))
            <==> -7 < DayNumber(a.date) - DayNumber(b.date) < 7
  {
    DayOrder(DayNumber(a.date) + 7, DayNumber(b.date));
    DayOrder(DayNumber(b.date) + 7, DayNumber(a.date));
  }

  lemma DayOrder(a: int, b: int)
    ensures a * DAY_MICROS <= b * DAY_MICROS <==> a <= b
  {
  }

  // ---------------------------------------------------------------- the windows on the calendar

  lemma Midnight(day: int)
    ensures day * 86_400_000_000 / 86_400_000_000 == day && day * 86_400_000_000 % 86_400_000_000 == 0
  {
  }

  /** A weekly window is seven days long and starts at a Monday's midnight. */
  lemma WeeklyWindowIsAMondayWeek(now: Local)
    requires Valid(now)
    ensures var w := ComputeWindow(WeeklyWindow, now);
            && w.end - w.start == 7 * 86_400_000_000
            && w.start % 86_400_000_000 == 0 && (w.start / 86_400_000_000) % 7 == 0
  {
    var monday := DayNumber(now.date) - Weekday(DayNumber(now.date));
    assert monday % 7 == 0;
    Midnight(monday);
    assert ComputeWindow(WeeklyWindow, now).start == monday * 86_400_000_000;
  }

  /** A custom window is seven days long and starts at the midnight before now. */
  lemma CustomWindowStartsToday(now: Local)
    requires Valid(now)
    ensures var w := ComputeWindow(CustomWindow, now);
            && w.end - w.start == 7 * 86_400_000_000
            && w.start % 86_400_000_000 == 0 && w.start <= Instant(now) < w.start + 86_400_000_000
  {
    Midnight(DayNumber(now.date));
  }

  /** A monthly window starts at the midnight of day 1 and holds exactly the instants of its month. */
  lemma MonthlyWindowIsTheMonth(now: Local, t: Local)
    requires Valid(now) && Valid(t)
    ensures var w := ComputeWindow(MonthlyWindow, now);
            && (w.start <= Instant(t) < w.end <==> t.date.year == now.date.year && t.date.month == now.date.month)
            && (t.date == now.date.(day := 1) && t.micros == 0 ==> Instant(t) == w.start)
  {
    var own, other := ComputeWindow(MonthlyWindow, now), ComputeWindow(MonthlyWindow, t);
    WindowContainsNow(MonthlyWindow, t);
    if EarlierMonth(t.date, now.date) {
      EarlierMonthEndsFirst(t, now);
    } else if EarlierMonth(now.date, t.date) {
      EarlierMonthEndsFirst(now, t);
    } else {
      assert t.date.(day := 1) == now.date.(day := 1) && NextMonth(t.date) == NextMonth(now.date);
    }
  }

  /** The days of the years before, with a leap day every fourth year, but for centuries not divisible by 400. */
  lemma {:induction false} YearStart(year: int)
    requires 1 <= year
    ensures MonthStart(year, 1) == 365 * (year - 1) + (year - 1) / 4 - (year - 1) / 100 + (year - 1) / 400
    decreases year
  {
    if year > 1 {
      YearStart(year - 1);
      MonthOffsets(year - 1);
      LeapDays(year - 1);
    }
  }

  lemma LeapDays(year: int)
    requires 1 <= year
    ensures year / 4 - year / 100 + year / 400
            == (year - 1) / 4 - (year - 1) / 100 + (year - 1) / 400 + (if Leap(year) then 1 else 0)
  {
    Rolls4(year);
    Rolls100(year);
    Rolls400(year);
  }

  lemma Rolls4(year: int)
    ensures year / 4 == (year - 1) / 4 + (if year % 4 == 0 then 1 else 0)
  {
  }

  lemma Rolls100(year: int)
    ensures year / 100 == (year - 1) / 100 + (if year % 100 == 0 then 1 else 0)
  {
  }

  lemma Rolls400(year: int)
    ensures year / 400 == (year - 1) / 400 + (if year % 400 == 0 then 1 else 0)
    ensures year % 400 == 0 ==> year % 100 == 0
    ensures year % 100 == 0 ==> year % 4 == 0
  {
  }

  /** How far each month's first is from the year's: the calendar's month lengths, with February's leap day. */
  lemma MonthOffsets(year: int)
    requires 1 <= year
    ensures var first, leap := MonthStart(year, 1), if Leap(year) then 1 else 0;
            && MonthStart(year, 2) == first + 31 && MonthStart(year, 3) == first + 59 + leap
            && MonthStart(year, 4) == first + 90 + leap && MonthStart(year, 5) == first + 120 + leap
            && MonthStart(year, 6) == first + 151 + leap && MonthStart(year, 7) == first + 181 + leap
            && MonthStart(year, 8) == first + 212 + leap && MonthStart(year, 9) == first + 243 + leap
            && MonthStart(year, 10) == first + 273 + leap && MonthStart(year, 11) == first + 304 + leap
            && MonthStart(year, 12) == first + 334 + leap && MonthStart(year, 12) + 31 == first + 365 + leap
  {
    assert MonthStart(year, 2) == MonthStart(year, 1) + 31;
    assert MonthStart(year, 3) == MonthStart(year, 2) + DaysIn(year, 2);
    assert MonthStart(year, 4) == MonthStart(year, 3) + 31;
    assert MonthStart(year, 5) == MonthStart(year, 4) + 30;
    assert MonthStart(year, 6) == MonthStart(year, 5) + 31;
    assert MonthStart(year, 7) == MonthStart(year, 6) + 30;
    assert MonthStart(year, 8) == MonthStart(year, 7) + 31;
    assert MonthStart(year, 9) == MonthStart(year, 8) + 31;
    assert MonthStart(year, 10) == MonthStart(year, 9) + 30;
    assert MonthStart(year, 11) == MonthStart(year, 10) + 31;
    assert MonthStart(year, 12) == MonthStart(year, 11) + 30;
  }

  /** The anchors: Thursday, 1 January 1970, and Thursday, 29 February 2024, with the Friday after it. */
  lemma KnownDates()
    ensures DayNumber(Date(1970, 1, 1)) == 719_162 && Weekday(719_162) == 3
    ensures ValidDate(Date(2024, 2, 29)) && DayNumber(Date(2024, 2, 29)) == 719_162 + 19_782
    ensures DayNumber(Date(2024, 3, 1)) == 719_162 + 19_783
    ensures !ValidDate(Date(1900, 2, 29)) && ValidDate(Date(2000, 2, 29))
  {
    YearStart(1970);
    YearStart(2024);
    MonthOffsets(2024);
  }
}
