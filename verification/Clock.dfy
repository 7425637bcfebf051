/** The tick-driven wall clock against a linear count of seconds. */
module Clock {
  import opened Division

  const PIT_HZ: nat := 1000
  const TICK_LIMIT: nat := 0x1_0000_0000
  const YEAR_LIMIT: nat := 0x1_0000

  /** `rtc_time_t` */
  datatype Time = Time(seconds: nat, minutes: nat, hours: nat, day: nat, month: nat, year: nat)

  predicate LeapYear(year: nat) {
    (year % 4 == 0 && year % 100 != 0) || year % 400 == 0
  }

  const DAYS_IN_MONTH: seq<nat> := [0, 31, 28, 31, 30, 31, 30, 31, 31, 30, 31, 30, 31]

  function DaysInMonth(month: nat, year: nat): nat
    requires month <= 12
  {
    if month == 2 && LeapYear(year) then 29 else DAYS_IN_MONTH[month]
  }

  predicate Valid(t: Time) {
    && t.seconds < 60 && t.minutes < 60 && t.hours < 24
    && 1 <= t.month <= 12 && 1 <= t.day <= DaysInMonth(t.month, t.year) && t.year < 0x1_0000
  }

  // ---------- Linear time ----------

  /** Days from the start of year 0 of the Gregorian calendar, counting leap days in closed form. */
  function DaysBeforeYear(year: nat): nat {
    365 * year + (year + 3) / 4 - (year + 99) / 100 + (year + 399) / 400
  }

  const DAYS_BEFORE_MONTH: seq<nat> := [0, 0, 31, 59, 90, 120, 151, 181, 212, 243, 273, 304, 334]

  /** The number of a day from the start of year 0; the day may run past its month. */
  function DayOf(year: nat, month: nat, day: nat): nat
    requires 1 <= month <= 12 && day >= 1
  {
    DaysBeforeYear(year) + DAYS_BEFORE_MONTH[month] + (if month > 2 && LeapYear(year) then 1 else 0) + day - 1
  }

  function Day(t: Time): nat
    requires Valid(t)
  {
    DayOf(t.year, t.month, t.day)
  }

  /** Seconds since midnight. */
  function OfDay(t: Time): nat {
    (t.hours * 60 + t.minutes) * 60 + t.seconds
  }

  /** Seconds from the start of year 0. */
  function Seconds(t: Time): nat
    requires Valid(t)
  {
    Day(t) * 86400 + OfDay(t)
  }

  /** The first second that a 16-bit year cannot express. */
  function Horizon(): nat {
    DaysBeforeYear(0x1_0000) * 86400
  }

  lemma YearLength(year: nat)
    ensures DaysBeforeYear(year + 1) == DaysBeforeYear(year) + if LeapYear(year) then 366 else 365
  {
    Fours(year);
    Hundreds(year);
    FourHundreds(year);
  }

  lemma Fours(y: nat)
    ensures (y + 4) / 4 == (y + 3) / 4 + if y % 4 == 0 then 1 else 0
  {
  }

  lemma Hundreds(y: nat)
    ensures (y + 100) / 100 == (y + 99) / 100 + if y % 100 == 0 then 1 else 0
    ensures y % 100 == 0 ==> y % 4 == 0
  {
    var q, r := y / 100, y % 100;
    Quotient(y + 100, 100, q + 1, r);
    if r == 0 {
      Quotient(y + 99, 100, q, 99);
      Quotient(y, 4, 25 * q, 0);
    } else {
      Quotient(y + 99, 100, q + 1, r - 1);
    }
  }

  lemma FourHundreds(y: nat)
    ensures (y + 400) / 400 == (y + 399) / 400 + if y % 400 == 0 then 1 else 0
    ensures y % 400 == 0 ==> y % 100 == 0
  {
    var q, r := y / 400, y % 400;
    Quotient(y + 400, 400, q + 1, r);
    if r == 0 {
      Quotient(y + 399, 400, q, 399);
      Quotient(y, 100, 4 * q, 0);
    } else {
      Quotient(y + 399, 400, q + 1, r - 1);
    }
  }

  lemma {:induction false} YearsGrow(a: nat, b: nat)
    requires a < b
    ensures DaysBeforeYear(a) + (if LeapYear(a) then 366 else 365) <= DaysBeforeYear(b)
    decreases b
  {
    YearLength(a);
    if a + 1 < b {
      YearsGrow(a, b - 1);
      YearLength(b - 1);
    }
  }

  lemma DayWithinYear(t: Time)
    requires Valid(t)
    ensures DaysBeforeYear(t.year) <= Day(t) < DaysBeforeYear(t.year) + if LeapYear(t.year) then 366 else 365
  {
  }

  lemma WithinHorizon(t: Time)
    requires Valid(t)
    ensures Seconds(t) < Horizon()
  {
    DayWithinYear(t);
    YearsGrow(t.year, YEAR_LIMIT);
  }

  lemma SameDay(t: Time, u: Time)
    requires Valid(t) && Valid(u) && Seconds(t) == Seconds(u)
    ensures Day(t) == Day(u) && t.hours == u.hours && t.minutes == u.minutes && t.seconds == u.seconds
  {
    hide Day;
  }

  /** The second count determines the time. */
  lemma SecondsDetermineTime(t: Time, u: Time)
    requires Valid(t) && Valid(u) && Seconds(t) == Seconds(u)
    ensures t == u
  {
    hide DaysBeforeYear;
    SameDay(t, u);
    DayWithinYear(t);
    DayWithinYear(u);
    if t.year < u.year {
      YearsGrow(t.year, u.year);
    } else if u.year < t.year {
      YearsGrow(u.year, t.year);
    }
  }

  // ---------- The tick ----------

  datatype State = State(ticks: nat, now: Time)

  /** Seconds carry into minutes, minutes into hours, hours into days. */
  function CarryClock(t: Time): Time {
    var m := if t.seconds >= 60 then t.(minutes := t.minutes + 1, seconds := 0) else t;
    var h := if m.minutes >= 60 then m.(hours := m.hours + 1, minutes := 0) else m;
    if h.hours >= 24 then h.(day := h.day + 1, hours := 0) else h
  }

  /** Days carry into months, months into years. */
  function CarryDate(d: Time): Time
    requires d.month <= 12
  {
    if d.day <= DaysInMonth(d.month, d.year) then d
    else if d.month < 12 then d.(month := d.month + 1, day := 1)
    else d.(year := (d.year + 1) % YEAR_LIMIT, month := 1, day := 1)
  }

  function Carry(t: Time): Time
    requires t.month <= 12
  {
    CarryDate(CarryClock(t))
  }

  function Tick(s: State): State
    requires s.now.month <= 12
  {
    var ticks := (s.ticks + 1) % TICK_LIMIT;
    State(ticks, Carry(if ticks % PIT_HZ == 0 then s.now.(seconds := s.now.seconds + 1) else s.now))
  }

  /** How often the tick counter has shown a multiple of 1000 once `n` ticks have passed since it was zero: the
      counter wraps at 2^32, and a wrap shows one too. */
  function Multiples(n: nat): nat {
    n / TICK_LIMIT * (TICK_LIMIT / 1000 + 1) + n % TICK_LIMIT / 1000
  }

  predicate ValidClock(t: Time) {
    t.seconds < 60 && t.minutes < 60 && t.hours < 24
  }

  /** The clock's carries move a second into the day count at midnight, and nowhere else. */
  lemma ClockCarryCounts(t: Time, second: nat)
    requires ValidClock(t) && second <= 1
    ensures var u := CarryClock(t.(seconds := t.seconds + second));
            && ValidClock(u) && u.month == t.month && u.year == t.year && t.day <= u.day <= t.day + 1
            && u.day * 86400 + OfDay(u) == t.day * 86400 + OfDay(t) + second
  {
  }

  /** The date's carries keep the day's number, unless the year runs out. */
  lemma DateCarryCounts(t: Time)
    requires 1 <= t.month <= 12 && 1 <= t.day <= DaysInMonth(t.month, t.year) + 1 && t.year < YEAR_LIMIT
    ensures var u := CarryDate(t);
            && 1 <= u.month <= 12 && 1 <= u.day <= DaysInMonth(u.month, u.year) && u.year < YEAR_LIMIT
            && ValidClock(u) == ValidClock(t) && OfDay(u) == OfDay(t)
            && (if u.year < t.year then DayOf(t.year, t.month, t.day) == DaysBeforeYear(YEAR_LIMIT)
                else DayOf(u.year, u.month, u.day) == DayOf(t.year, t.month, t.day))
  {
    hide DaysBeforeYear;
    YearLength(t.year);
  }

  /** A carry of at most one second keeps the time valid and counts that second, unless the year runs out. */
  lemma CarryCounts(t: Time, second: nat)
    requires Valid(t) && second <= 1
    ensures var u := Carry(t.(seconds := t.seconds + second));
            && Valid(u)
            && (Seconds(u) == Seconds(t) + second || u.year < t.year)
            && (u.year < t.year ==> Seconds(t) + second >= Horizon())
  {
    hide DaysBeforeYear, CarryClock, CarryDate, OfDay, DaysInMonth;
    ClockCarryCounts(t, second);
    DateCarryCounts(CarryClock(t.(seconds := t.seconds + second)));
  }

  lemma TickCounts(s: State)
    requires Valid(s.now)
    ensures var u := Tick(s);
            var second := if u.ticks % 1000 == 0 then 1 else 0;
            && Valid(u.now) && (Seconds(u.now) == Seconds(s.now) + second <==> Seconds(s.now) + second < Horizon())
  {
    hide Seconds, Carry, Horizon;
    var second := if (s.ticks + 1) % TICK_LIMIT % PIT_HZ == 0 then 1 else 0;
    CarryCounts(s.now, second);
    assert s.now.(seconds := s.now.seconds + 0) == s.now;
    WithinHorizon(Tick(s).now);
    WithinHorizon(s.now);
  }

  lemma MultiplesStep(n: nat)
    ensures Multiples(n + 1) == Multiples(n) + if (n + 1) % TICK_LIMIT % 1000 == 0 then 1 else 0
  {
    Successor(n, TICK_LIMIT);
    Successor(n % TICK_LIMIT, PIT_HZ);
  }

  /** The state after `k` ticks. */
  function After(s: State, k: nat): (u: State)
    requires Valid(s.now)
    ensures Valid(u.now)
  {
    if k == 0 then s else
      TickCounts(After(s, k - 1));
      Tick(After(s, k - 1))
  }

  lemma {:induction false} TicksAfter(s: State, k: nat)
    requires Valid(s.now) && s.ticks < TICK_LIMIT
    ensures After(s, k).ticks == (s.ticks + k) % TICK_LIMIT
  {
    hide Carry, Valid;
    if k > 0 {
      TicksAfter(s, k - 1);
      Successor(s.ticks + k - 1, TICK_LIMIT);
    }
  }

  /** Over any number of ticks the date stays valid, and the clock has advanced by exactly the multiples of 1000 the
      counter went through, as long as the result has a 16-bit year; otherwise it has not. */
  lemma {:induction false} ClockCountsTicks(s: State, k: nat)
    requires Valid(s.now) && s.ticks < TICK_LIMIT
    ensures var due := Seconds(s.now) + Multiples(s.ticks + k) - Multiples(s.ticks);
            && due >= Seconds(s.now)
            && (Seconds(After(s, k).now) == due <==> due < Horizon())
  {
    hide Seconds, Horizon, Multiples, Tick;
    if k == 0 {
      WithinHorizon(s.now);
    } else {
      ClockCountsTicks(s, k - 1);
      TicksAfter(s, k);
      MultiplesStep(s.ticks + k - 1);
      TickCounts(After(s, k - 1));
      WithinHorizon(After(s, k).now);
    }
  }

  const LAST_SECOND: Time := Time(59, 59, 23, 31, 12, YEAR_LIMIT - 1)

  /** The second after the last one of year 65535 is the first of year 0. */
  lemma YearRunsOut()
    ensures Valid(LAST_SECOND) && After(State(PIT_HZ - 1, LAST_SECOND), 1).now == Time(0, 0, 0, 1, 1, 0)
    ensures Seconds(After(State(PIT_HZ - 1, LAST_SECOND), 1).now) < Seconds(LAST_SECOND)
  {
    LastSecondCarries();
    FirstTick(State(PIT_HZ - 1, LAST_SECOND));
    hide Valid, Carry, After, Day, Seconds;
    LaterYear(Time(0, 0, 0, 1, 1, 0), LAST_SECOND);
  }

  lemma FirstTick(s: State)
    requires Valid(s.now)
    ensures After(s, 1) == Tick(s)
  {
    assert After(s, 0) == s;
    hide Tick;
  }

  lemma LaterYear(t: Time, u: Time)
    requires Valid(t) && Valid(u) && t.year < u.year
    ensures Seconds(t) < Seconds(u)
  {
    DayWithinYear(t);
    DayWithinYear(u);
    YearsGrow(t.year, u.year);
    hide Day, DaysBeforeYear;
  }

  lemma LastSecondCarries()
    ensures Valid(LAST_SECOND) && Valid(Time(0, 0, 0, 1, 1, 0))
    ensures Carry(LAST_SECOND.(seconds := 60)) == Time(0, 0, 0, 1, 1, 0)
  {
    assert LAST_SECOND.(seconds := 60) == Time(60, 59, 23, 31, 12, YEAR_LIMIT - 1);
  }

  /** Without a tick wrap those are the whole seconds. */
  lemma MultiplesWithoutWrap(n: nat, k: nat)
    requires n + k < TICK_LIMIT
    ensures Multiples(n + k) - Multiples(n) == (n + k) / 1000 - n / 1000
  {
  }

  /** As long as the counter does not wrap, the clock advances by the whole seconds that pass on it. */
  lemma ClockCountsSeconds(s: State, k: nat)
    requires Valid(s.now) && s.ticks + k < TICK_LIMIT
    ensures var due := Seconds(s.now) + (s.ticks + k) / 1000 - s.ticks / 1000;
            Seconds(After(s, k).now) == due <==> due < Horizon()
  {
    hide Seconds, Horizon, Multiples;
    ClockCountsTicks(s, k);
    MultiplesWithoutWrap(s.ticks, k);
  }

  /** `pit_callback`. The cursor blinks, the screen is copied and a thread switch is asked for every so many ticks. */
  class Timer {
    var ticks: nat
    var now: Time
    var cursorToggles: nat
    var screenCopies: nat
    var schedulePending: bool

    constructor (now: Time)
      ensures this.now == now && ticks == 0
    {
      this.now, ticks := now, 0;
      cursorToggles, screenCopies, schedulePending := 0, 0, false;
    }

    method Callback(hasThread: bool)
      requires Valid(now) && ticks < TICK_LIMIT
      modifies this
      ensures ticks == (old(ticks) + 1) % TICK_LIMIT && State(ticks, now) == Tick(old(State(ticks, now)))
      ensures Valid(now)
      ensures cursorToggles == old(cursorToggles) + if ticks % 500 == 0 then 1 else 0
      ensures screenCopies == old(screenCopies) + if ticks % 16 == 0 then 1 else 0
      ensures schedulePending == (old(schedulePending) || (hasThread && ticks % 10 == 0))
    {
      hide Seconds, Horizon, CarryDate;
      TickCounts(State(ticks, now));
      ticks := (ticks + 1) % TICK_LIMIT;
      AdvanceClock(ticks % PIT_HZ == 0);
      AdvanceDate();
      RunPeriodic(hasThread);
    }

    /** What runs every so many ticks. */
    method RunPeriodic(hasThread: bool)
      modifies `cursorToggles, `screenCopies, `schedulePending
      ensures cursorToggles == old(cursorToggles) + if ticks % 500 == 0 then 1 else 0
      ensures screenCopies == old(screenCopies) + if ticks % 16 == 0 then 1 else 0
      ensures schedulePending == (old(schedulePending) || (hasThread && ticks % 10 == 0))
    {
      if ticks % 500 == 0 {
        cursorToggles := cursorToggles + 1;
      }
      if ticks % 16 == 0 {
        screenCopies := screenCopies + 1;
      }
      if hasThread && ticks % 10 == 0 {
        schedulePending := true;
      }
    }

    /** The time of day, one carry after another. */
    method AdvanceClock(secondPassed: bool)
      modifies `now
      ensures now == CarryClock(if secondPassed then old(now).(seconds := old(now).seconds + 1) else old(now))
    {
      if secondPassed {
        now := now.(seconds := now.seconds + 1);
      }
      if now.seconds >= 60 {
        now := now.(minutes := now.minutes + 1, seconds := 0);
      }
      if now.minutes >= 60 {
        now := now.(hours := now.hours + 1, minutes := 0);
      }
      if now.hours >= 24 {
        now := now.(day := now.day + 1, hours := 0);
      }
    }

    /** The date. */
    method AdvanceDate()
      requires now.month <= 12
      modifies `now
      ensures now == CarryDate(old(now))
    {
      hide LeapYear;
      if now.day > DaysInMonth(now.month, now.year) {
        now := now.(month := now.month + 1, day := 1);
        if now.month > 12 {
          now := now.(year := (now.year + 1) % YEAR_LIMIT, month := 1);
        }
      }
    }
  }
}
