/** How long the watcher sleeps before its next cycle (`getSleepSeconds`):
    the wait, from a Chilean wall clock, until the market is next open,
    Monday to Friday from 09:30 to 16:00. The current instant is a
    parameter (milliseconds since the epoch); every calendar step the source
    takes through `Date` is written out on whole days of 86 400 000 ms,
    which is exact because UTC has no daylight saving. */
module SleepTime {
  import opened Wrappers

  /** A clock time after `split(':')` and `Number(...)`. */
  datatype Clock = Clock(hour: int, minute: int)

  /** A trading window of the weekly schedule. */
  datatype TimeRange = TimeRange(start: Clock, end: Clock)

  datatype TimeZoneError = UnsupportedTimezone

  /** The weekly schedule: an entry per weekday, 1 = Monday ... 5 = Friday. */
  function Scheduler(day: int): (r: Option<TimeRange>)
    ensures r.Some? <==> 1 <= day <= 5
  {
    if 1 <= day <= 5 then Some(TimeRange(Clock(9, 30), Clock(16, 0))) else None
  }

  /** The schedule entry of `day`, or the fallback window when it has none. */
  function RangeFor(day: int): TimeRange {
    match Scheduler(day)
    case Some(range) => range
    case None => TimeRange(Clock(9, 30), Clock(16, 0))
  }

  /** `Number(x) || d`: a zero field falls back to `d`. */
  function OrElse(n: int, d: int): (r: int)
    ensures n != 0 ==> r == n
    ensures n == 0 ==> r == d
  {
    if n == 0 then d else n
  }

  /** The whole hours east of UTC of the supported Chilean zones. */
  function Offset(timeZone: string): (r: Result<int, TimeZoneError>)
    ensures r.Success? <==> timeZone == "GMT-3" || timeZone == "GMT-4"
    ensures r.Success? ==> r.value == (if timeZone == "GMT-3" then -3 else -4)
  {
    if timeZone == "GMT-3" then Success(-3)
    else if timeZone == "GMT-4" then Success(-4)
    else Failure(UnsupportedTimezone)
  }

  /** The day number (days since the epoch) and time of day of an instant. */
  function Day(ms: int): int { ms / 86400000 }
  function TimeOfDay(ms: int): (t: int)
    ensures 0 <= t < 86400000
    ensures ms == Day(ms) * 86400000 + t
  {
    ms % 86400000
  }

  /** `getUTCDay` with Sunday renumbered 7: 1 = Monday ... 7 = Sunday. Day
      number 0, 1 January 1970, was a Thursday. */
  function Weekday(dayNumber: int): (w: int)
    ensures 1 <= w <= 7
  {
    var j := (dayNumber + 4) % 7;
    if j == 0 then 7 else j
  }

  lemma WeekdayNext(d: int)
    ensures Weekday(d + 1) == Weekday(d) % 7 + 1
  {
    var j := (d + 4) % 7;
    assert d + 4 == (d + 4) / 7 * 7 + j;
    if j < 6 {
      assert d + 5 == (d + 4) / 7 * 7 + (j + 1);
    } else {
      assert d + 5 == ((d + 4) / 7 + 1) * 7;
    }
  }

  /** `setUTCDate(getUTCDate() + n)`: the same time of day `n` days later. */
  function AddDays(ms: int, n: int): (r: int)
    ensures Day(r) == Day(ms) + n && TimeOfDay(r) == TimeOfDay(ms)
  {
    var r := ms + n * 86400000;
    assert r == (Day(ms) + n) * 86400000 + TimeOfDay(ms);
    r
  }

  /** `setUTCHours(h, m, 0, 0)`: the same day, at `h:m`. */
  function SetHours(ms: int, h: int, m: int): (r: int)
    requires 0 <= h * 3600000 + m * 60000 < 86400000
    ensures Day(r) == Day(ms) && TimeOfDay(r) == h * 3600000 + m * 60000
  {
    Day(ms) * 86400000 + h * 3600000 + m * 60000
  }

  /** 09:30 and 16:00, in milliseconds since midnight. */
  const OpenMs := 34200000
  const CloseMs := 57600000

  /** The longest wait: from just after Friday's close to Monday's opening,
      65 hours and 30 minutes. */
  const MaxWaitMs := 235800000

  /** Whether the market is open at local instant `ms`, both ends included. */
  ghost predicate InWindow(ms: int) {
    1 <= Weekday(Day(ms)) <= 5 && OpenMs <= TimeOfDay(ms) <= CloseMs
  }

  /** Every weekday's window, read from the schedule through the fallbacks,
      opens at 09:30 and closes at 16:00. */
  lemma ScheduleIsUniform(day: int)
    ensures var range := RangeFor(day);
      && OrElse(range.start.hour, 9) * 3600000 + OrElse(range.start.minute, 30) * 60000 == OpenMs
      && OrElse(range.end.hour, 16) * 3600000 + OrElse(range.end.minute, 0) * 60000 == CloseMs
  {
  }

  /** The loop that skips forward from `nextDay` to the next weekday, counting
      the days it adds. */
  function NextTradingDay(nextDay: int, daysToAdd: int): (r: (int, int))
    requires 1 <= nextDay <= 7
    ensures 1 <= r.0 <= 5
    ensures r.1 == daysToAdd + (if nextDay == 6 then 2 else if nextDay == 7 then 1 else 0)
    ensures r.0 == (if nextDay <= 5 then nextDay else 1)
    decreases if nextDay == 6 then 2 else if nextDay == 7 then 1 else 0
  {
    if nextDay < 1 || nextDay > 5 then NextTradingDay(nextDay % 7 + 1, daysToAdd + 1)
    else (nextDay, daysToAdd)
  }

  /** Nothing is open strictly before `target`, the opening `n` days after
      the day of `local`, when the rest of `local`'s day is closed and the
      days in between are weekend days. */
  lemma QuietUntil(local: int, n: int, target: int)
    requires n >= 0 && target == (Day(local) + n) * 86400000 + OpenMs
    requires n == 0 ==> TimeOfDay(local) < OpenMs
    requires n > 0 ==> Weekday(Day(local)) >= 6 || TimeOfDay(local) > CloseMs
    requires forall d :: Day(local) < d < Day(local) + n ==> Weekday(d) >= 6
    ensures forall x :: local <= x < target ==> !InWindow(x)
  {
    forall x | local <= x < target
      ensures !InWindow(x)
    {
      var dl, dx := Day(local), Day(x);
      var tl, tx := TimeOfDay(local), TimeOfDay(x);
      assert dl <= dx <= dl + n;
      if dx == dl + n {
        assert tx < OpenMs;
      } else if dx == dl {
        assert tx >= tl;
      }
    }
  }

  /** The opening `n` days after the day of `local` is the next opening:
      it lies in a window, nothing before it does, and it is less than the
      longest wait away. */
  lemma NextOpening(local: int, n: int, target: int)
    requires target == (Day(local) + n) * 86400000 + OpenMs
    requires 0 <= n <= 3 && 1 <= Weekday(Day(local) + n) <= 5
    requires n == 0 ==> TimeOfDay(local) < OpenMs
    requires n > 0 ==> Weekday(Day(local)) >= 6 || TimeOfDay(local) > CloseMs
    requires n == 3 ==> TimeOfDay(local) > CloseMs
    requires forall d :: Day(local) < d < Day(local) + n ==> Weekday(d) >= 6
    ensures 0 < target - local < MaxWaitMs
    ensures InWindow(target)
    ensures forall x :: local <= x < target ==> !InWindow(x)
  {
    QuietUntil(local, n, target);
    assert Day(target) == Day(local) + n && TimeOfDay(target) == OpenMs;
  }

  /** The wait from local instant `local`, in milliseconds. */
  function WaitFrom(local: int): (r: int)
    ensures 0 <= r < MaxWaitMs
    ensures InWindow(local + r)
    ensures forall x :: local <= x < local + r ==> !InWindow(x)
  {
    var day := Weekday(Day(local));
    if day < 1 || day > 5 then WeekendWait(local)
    else WeekdayWait(local, day)
  }

  /** On Saturday and Sunday: the wait until Monday's opening. */
  function WeekendWait(local: int): (r: int)
    requires Weekday(Day(local)) >= 6
    ensures 0 < r < MaxWaitMs
    ensures InWindow(local + r)
    ensures forall x :: local <= x < local + r ==> !InWindow(x)
  {
    var daysUntilMonday := (8 - Weekday(Day(local))) % 7;
    var target := SetHours(AddDays(local, daysUntilMonday), 9, 30);
    WeekendFacts(local);
    NextOpening(local, daysUntilMonday, target);
    target - local
  }

  /** On a weekday: no wait inside the window, the wait until today's opening
      before it, and the wait until the next weekday's opening after it. */
  function WeekdayWait(local: int, day: int): (r: int)
    requires day == Weekday(Day(local)) && 1 <= day <= 5
    ensures 0 <= r < MaxWaitMs
    ensures InWindow(local + r)
    ensures forall x :: local <= x < local + r ==> !InWindow(x)
  {
    var range := RangeFor(day);
    ScheduleIsUniform(day);
    var start := SetHours(local, OrElse(range.start.hour, 9), OrElse(range.start.minute, 30));
    var end := SetHours(local, OrElse(range.end.hour, 16), OrElse(range.end.minute, 0));
    if start <= local <= end then
      0
    else if local < start then
      NextOpening(local, 0, start);
      start - local
    else
      AfterCloseWait(local, day)
  }

  /** After a weekday's close: the wait until the next weekday's opening. */
  function AfterCloseWait(local: int, day: int): (r: int)
    requires day == Weekday(Day(local)) && 1 <= day <= 5
    requires TimeOfDay(local) > CloseMs
    ensures 0 < r < MaxWaitMs
    ensures InWindow(local + r)
    ensures forall x :: local <= x < local + r ==> !InWindow(x)
  {
    var (nextDay, daysToAdd) := NextTradingDay(day + 1, 1);
    var next := RangeFor(nextDay);
    ScheduleIsUniform(nextDay);
    var target := SetHours(AddDays(local, daysToAdd), OrElse(next.start.hour, 9), OrElse(next.start.minute, 30));
    AfterCloseFacts(local, daysToAdd);
    NextOpening(local, daysToAdd, target);
    target - local
  }

  /** On a weekend the wait runs to Monday: the days skipped are weekend
      days and the day reached is a Monday. */
  lemma WeekendFacts(local: int)
    requires Weekday(Day(local)) >= 6
    ensures var n := (8 - Weekday(Day(local))) % 7;
      && 1 <= n <= 2
      && Weekday(Day(local) + n) == 1
      && forall d :: Day(local) < d < Day(local) + n ==> Weekday(d) >= 6
  {
    var dl := Day(local);
    WeekdayNext(dl);
    WeekdayNext(dl + 1);
  }

  /** After a weekday's close the wait runs to the next weekday: one day
      ahead, or three from a Friday over the weekend. */
  lemma AfterCloseFacts(local: int, n: int)
    requires 1 <= Weekday(Day(local)) <= 5
    requires n == if Weekday(Day(local)) == 5 then 3 else 1
    ensures 1 <= Weekday(Day(local) + n) <= 5
    ensures forall d :: Day(local) < d < Day(local) + n ==> Weekday(d) >= 6
  {
    var dl := Day(local);
    WeekdayNext(dl);
    WeekdayNext(dl + 1);
    WeekdayNext(dl + 2);
  }

  /** The wait in milliseconds from UTC instant `now`, or the error for a
      zone the watcher does not know. */
  function SleepMillis(now: int, timeZone: string): (r: Result<int, TimeZoneError>)
    ensures r.Failure? <==> timeZone != "GMT-3" && timeZone != "GMT-4"
    ensures r.Success? ==>
      var local := now + Offset(timeZone).value * 3600000;
      && 0 <= r.value < MaxWaitMs
      && InWindow(local + r.value)
      && (forall x :: local <= x < local + r.value ==> !InWindow(x))
      && (r.value == 0 <==> InWindow(local))
  {
    match Offset(timeZone)
    case Failure(e) => Failure(e)
    case Success(offset) => Success(WaitFrom(now + offset * 3600000))
  }

  /** `getSleepSeconds`: the same wait, in seconds. */
  function GetSleepSeconds(now: int, timeZone: string): (r: Result<real, TimeZoneError>)
    ensures r.Failure? <==> timeZone != "GMT-3" && timeZone != "GMT-4"
    ensures r.Success? ==> 0.0 <= r.value < 235800.0
    ensures r.Success? ==> r.value * 1000.0 == SleepMillis(now, timeZone).value as real
  {
    match SleepMillis(now, timeZone)
    case Failure(e) => Failure(e)
    case Success(ms) => Success(ms as real / 1000.0)
  }
}
