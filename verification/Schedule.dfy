/**
 * Which local dates a definition generates on, and when the instance of a date is due.
 * Dates are day numbers, with day 0 a Monday.
 */
module Schedule {
  import opened Domain

  datatype ScheduleType = OneTime | Daily | Weekdays | Weekly

  datatype Definition = Definition(
    id: nat,
    assignee: nat,
    pointValue: int,
    schedule: ScheduleType,
    weekdayMask: Option<int>,
    startDate: int,
    endDate: Option<int>,
    dueMinute: int)

  const HORIZON_DAYS: nat := 14

  function Weekday(date: int): int {
    date % 7
  }

  /** Bit `k` of a mask, for Python's unbounded two's-complement integers. */
  predicate Bit(mask: int, k: int) {
    0 <= k < 7 && (mask / [1, 2, 4, 8, 16, 32, 64][k]) % 2 == 1
  }

  predicate InRange(d: Definition, date: int) {
    d.startDate <= date && (d.endDate.Some? ==> date <= d.endDate.value)
  }

  predicate Scheduled(d: Definition, date: int) {
    && InRange(d, date)
    && match d.schedule
       case OneTime => date == d.startDate
       case Daily => true
       case Weekdays => d.weekdayMask.Some? && Bit(d.weekdayMask.value, Weekday(date))
       case Weekly => Weekday(date) == Weekday(d.startDate)
  }

  function Count(b: bool): nat {
    if b then 1 else 0
  }

  /** How many of the `days` dates from `from` the definition generates on. */
  function Tally(d: Definition, from: int, days: nat): nat
    decreases days
  {
    if days == 0 then 0 else Count(Scheduled(d, from)) + Tally(d, from + 1, days - 1)
  }

  function LowBits(mask: int): nat {
    Count(Bit(mask, 0)) + Count(Bit(mask, 1)) + Count(Bit(mask, 2)) + Count(Bit(mask, 3))
    + Count(Bit(mask, 4)) + Count(Bit(mask, 5)) + Count(Bit(mask, 6))
  }

  function PerWeek(d: Definition): nat {
    match d.schedule
    case OneTime => 0
    case Daily => 7
    case Weekdays => if d.weekdayMask.Some? then LowBits(d.weekdayMask.value) else 0
    case Weekly => 1
  }

  lemma {:induction false} TallySplits(d: Definition, from: int, m: nat, n: nat)
    ensures Tally(d, from, m + n) == Tally(d, from, m) + Tally(d, from + m, n)
    decreases m
  {
    if m > 0 {
      TallySplits(d, from + 1, m - 1, n);
    }
  }

  /** The weekdays a recurring definition generates on. */
  predicate OnWeekday(d: Definition, weekday: int) {
    match d.schedule
    case OneTime => false
    case Daily => true
    case Weekdays => d.weekdayMask.Some? && Bit(d.weekdayMask.value, weekday)
    case Weekly => weekday == Weekday(d.startDate)
  }

  function Wrap(k: int): int {
    if k < 7 then k else k - 7
  }

  /** Sums `h` over the seven weekdays from `first` on, in turn. */
  function Around(h: int -> nat, first: int): nat {
    h(Wrap(first)) + h(Wrap(first + 1)) + h(Wrap(first + 2)) + h(Wrap(first + 3))
    + h(Wrap(first + 4)) + h(Wrap(first + 5)) + h(Wrap(first + 6))
  }

  lemma {:induction false} AroundRotates(h: int -> nat, first: nat)
    requires first < 7
    ensures Around(h, first) == Around(h, 0)
  {
    if first > 0 {
      AroundRotates(h, first - 1);
    }
  }

  function Hits(d: Definition): int -> nat {
    (k: int) => Count(OnWeekday(d, k))
  }

  lemma CycleIsPerWeek(d: Definition)
    ensures Around(Hits(d), 0) == PerWeek(d)
  {
    assert Weekday(d.startDate) in {0, 1, 2, 3, 4, 5, 6};
  }

  lemma WeekdayAfter(from: int, k: int)
    requires 0 <= k < 7
    ensures Weekday(from + k) == Wrap(Weekday(from) + k)
  {
  }

  lemma ScheduledOnWeekday(d: Definition, from: int, k: int)
    requires !d.schedule.OneTime? && InRange(d, from + k) && 0 <= k < 7
    ensures Count(Scheduled(d, from + k)) == Hits(d)(Wrap(Weekday(from) + k))
  {
    WeekdayAfter(from, k);
    OnWeekdayIsScheduled(d, from + k);
  }

  lemma OnWeekdayIsScheduled(d: Definition, date: int)
    requires !d.schedule.OneTime? && InRange(d, date)
    ensures Scheduled(d, date) == OnWeekday(d, Weekday(date))
  {
  }

  /** Seven consecutive dates inside the range: 7 for daily, 1 for weekly, the mask's bit count for weekdays. */
  lemma WeekGeneratesPerWeek(d: Definition, from: int, days: nat)
    requires days == 7
    requires !d.schedule.OneTime? && InRange(d, from) && InRange(d, from + days - 1)
    ensures Tally(d, from, days) == PerWeek(d)
  {
    forall k | 0 <= k < days
      ensures Agrees(d, from, Hits(d), Weekday(from), k)
    {
      ScheduledOnWeekday(d, from, k);
    }
    TallyIsPartial(d, from, Hits(d), Weekday(from), days);
    PartialIsAround(Hits(d), Weekday(from));
    AroundRotates(Hits(d), Weekday(from));
    CycleIsPerWeek(d);
  }

  function Partial(h: int -> nat, first: int, n: nat): nat {
    if n == 0 then 0 else Partial(h, first, n - 1) + h(Wrap(first + n - 1))
  }

  ghost predicate Agrees(d: Definition, from: int, h: int -> nat, first: int, k: int) {
    Count(Scheduled(d, from + k)) == h(Wrap(first + k))
  }

  lemma {:induction false} TallyIsPartial(d: Definition, from: int, h: int -> nat, first: int, n: nat)
    requires forall k :: 0 <= k < n ==> Agrees(d, from, h, first, k)
    ensures Tally(d, from, n) == Partial(h, first, n)
    decreases n
  {
    if n > 0 {
      TallyIsPartial(d, from, h, first, n - 1);
      TallySplits(d, from, n - 1, 1);
      OneDay(d, from + (n - 1));
      assert Agrees(d, from, h, first, n - 1);
    }
  }

  lemma OneDay(d: Definition, date: int)
    ensures Tally(d, date, 1) == Count(Scheduled(d, date))
  {
    assert Tally(d, date + 1, 0) == 0;
  }

  lemma PartialIsAround(h: int -> nat, first: int)
    ensures Partial(h, first, 7) == Around(h, first)
  {
    assert Partial(h, first, 1) == h(Wrap(first));
    assert Partial(h, first, 2) == Partial(h, first, 1) + h(Wrap(first + 1));
    assert Partial(h, first, 3) == Partial(h, first, 2) + h(Wrap(first + 2));
    assert Partial(h, first, 4) == Partial(h, first, 3) + h(Wrap(first + 3));
    assert Partial(h, first, 5) == Partial(h, first, 4) + h(Wrap(first + 4));
    assert Partial(h, first, 6) == Partial(h, first, 5) + h(Wrap(first + 5));
  }

  /** Any whole number of weeks inside the range; the nightly horizon is two. */
  lemma {:induction false} WeeksGenerateEvenly(d: Definition, from: int, weeks: nat)
    requires !d.schedule.OneTime? && weeks > 0 && InRange(d, from) && InRange(d, from + 7 * weeks - 1)
    ensures Tally(d, from, 7 * weeks) == weeks * PerWeek(d)
    decreases weeks
  {
    WeekGeneratesPerWeek(d, from, 7);
    if weeks > 1 {
      TallySplits(d, from, 7, 7 * (weeks - 1));
      WeeksGenerateEvenly(d, from + 7, weeks - 1);
    }
  }

  lemma HorizonGeneratesTwoWeeks(d: Definition, today: int, days: nat)
    requires days == HORIZON_DAYS
    requires !d.schedule.OneTime? && InRange(d, today) && InRange(d, today + days - 1)
    ensures Tally(d, today, days) == 2 * PerWeek(d)
  {
    WeeksGenerateEvenly(d, today, 2);
  }

  /** A one-time task has a date exactly when it does not end before it starts, and then only that one. */
  lemma OneTimeGeneratesOnceIff(d: Definition)
    requires d.schedule.OneTime?
    ensures (exists date :: Scheduled(d, date)) <==> (d.endDate.Some? ==> d.startDate <= d.endDate.value)
    ensures forall a, b :: Scheduled(d, a) && Scheduled(d, b) ==> a == b
  {
    if d.endDate.Some? ==> d.startDate <= d.endDate.value {
      assert Scheduled(d, d.startDate);
    }
  }

  // ---------------------------------------------------------------- dates in words

  /** Both ends of the range generate; a daily task on every date between them and on no other. */
  lemma DailyIsEveryDayOfTheRange(d: Definition, date: int)
    requires d.schedule.Daily?
    ensures Scheduled(d, date) <==> d.startDate <= date && (d.endDate == None || date <= d.endDate.value)
  {
  }

  /** A weekly task comes every seventh day from its start. */
  lemma WeeklyIsEverySeventhDay(d: Definition, date: int)
    requires d.schedule.Weekly? && d.endDate == None
    ensures Scheduled(d, date) <==> exists weeks: nat :: date == d.startDate + 7 * weeks
  {
    if Scheduled(d, date) {
      assert date == d.startDate + 7 * ((date - d.startDate) / 7);
    }
  }

  function Digit(b: bool): int {
    if b then 1 else 0
  }

  /** The mask whose lowest bits are the flags, in turn; `rest` is whatever stands above them. */
  function MaskOf(days: seq<bool>, rest: int): int {
    if days == [] then rest else Digit(days[0]) + 2 * MaskOf(days[1..], rest)
  }

  /** A mask selects exactly the weekdays whose bits it is made of, Monday lowest; higher bits select nothing. */
  lemma MaskReadsItsDays(d: Definition, week: int, days: seq<bool>, rest: int, k: nat)
    requires |days| == 7 && k < 7 && d.schedule.Weekdays?
    requires d.weekdayMask == Some(MaskOf(days, rest)) && InRange(d, 7 * week + k)
    ensures Scheduled(d, 7 * week + k) <==> days[k]
  {
    assert Weekday(7 * week + k) == k;
    HalvedDrops(days, rest, k);
    BitIsHalvedDown(MaskOf(days, rest), k);
  }

  function Halved(mask: int, k: nat): int {
    if k == 0 then mask else Halved(mask, k - 1) / 2
  }

  lemma {:induction false} HalvedDrops(days: seq<bool>, rest: int, k: nat)
    requires k < |days|
    ensures Halved(MaskOf(days, rest), k) == MaskOf(days[k..], rest)
    ensures Halved(MaskOf(days, rest), k) % 2 == Digit(days[k])
  {
    if k > 0 {
      HalvedDrops(days, rest, k - 1);
      assert days[k - 1..][1..] == days[k..];
    } else {
      assert days[0..] == days;
    }
  }

  lemma HalvesOfHalves(mask: int)
    ensures mask / 2 / 2 == mask / 4 && mask / 4 / 2 == mask / 8 && mask / 8 / 2 == mask / 16
    ensures mask / 16 / 2 == mask / 32 && mask / 32 / 2 == mask / 64
  {
  }

  lemma HalvedIsQuotient(mask: int, k: nat)
    requires k < 7
    ensures Halved(mask, k) == [mask, mask / 2, mask / 4, mask / 8, mask / 16, mask / 32, mask / 64][k]
  {
    HalvesOfHalves(mask);
    if k > 0 {
      HalvedIsQuotient(mask, k - 1);
    }
  }

  lemma BitIsHalvedDown(mask: int, k: nat)
    requires k < 7
    ensures Bit(mask, k) <==> Halved(mask, k) % 2 == 1
  {
    HalvedIsQuotient(mask, k);
  }

  /** A mask of 1 is a Monday task; day 0 is a Monday and day 6 a Sunday. */
  lemma MaskOfOneIsMonday(d: Definition, date: int)
    requires d.schedule.Weekdays? && d.weekdayMask == Some(1) && InRange(d, date)
    ensures Scheduled(d, date) <==> date % 7 == 0
  {
  }

  // ---------------------------------------------------------------- due times

  const DAY: int := 86_400

  function Wall(d: Definition, date: int): int {
    date * DAY + d.dueMinute * 60
  }

  /** tz.localize(...).astimezone(utc); `zone` gives the UTC offset, in seconds, of a wall time. */
  function DueAt(d: Definition, zone: int -> int, date: int): int {
    (Wall(d, date) - zone(Wall(d, date))) * MICROS
  }

  ghost predicate ShiftsUnderADay(d: Definition, zone: int -> int) {
    forall date :: zone(Wall(d, date + 1)) - zone(Wall(d, date)) < DAY
  }

  /** Consecutive dates are due in order exactly when the offset shift between them is under a day. */
  lemma NextDueLaterIff(d: Definition, zone: int -> int, date: int)
    ensures DueAt(d, zone, date) < DueAt(d, zone, date + 1)
            <==> zone(Wall(d, date + 1)) - zone(Wall(d, date)) < DAY
    ensures DueAt(d, zone, date) == DueAt(d, zone, date + 1)
            <==> zone(Wall(d, date + 1)) - zone(Wall(d, date)) == DAY
  {
  }

  lemma {:induction false} DueStrictlyIncreases(d: Definition, zone: int -> int, a: int, b: int)
    requires ShiftsUnderADay(d, zone) && a < b
    ensures DueAt(d, zone, a) < DueAt(d, zone, b)
    decreases b - a
  {
    NextDueLaterIff(d, zone, b - 1);
    assert zone(Wall(d, (b - 1) + 1)) - zone(Wall(d, b - 1)) < DAY;
    if a < b - 1 {
      DueStrictlyIncreases(d, zone, a, b - 1);
    }
  }

  /**
   * The due time of a date reads back, on the household's clock, as that date at the
   * definition's time of day.
   */
  lemma DueReadsBack(d: Definition, zone: int -> int, date: int)
    requires 0 <= d.dueMinute < 1440
    ensures var offset := zone(date * 86_400 + d.dueMinute * 60);
            var local := DueAt(d, zone, date) / 1_000_000 + offset;
            && DueAt(d, zone, date) % 1_000_000 == 0
            && local / 86_400 == date && local % 86_400 == d.dueMinute * 60
  {
    var wall := date * 86_400 + d.dueMinute * 60;
    var seconds := wall - zone(wall);
    assert DueAt(d, zone, date) == seconds * 1_000_000;
    assert seconds * 1_000_000 / 1_000_000 == seconds && seconds * 1_000_000 % 1_000_000 == 0;
    assert wall / 86_400 == date && wall % 86_400 == d.dueMinute * 60;
  }
}
