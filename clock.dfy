/**
 * The wall clock as the bot sees it. `datetime.now()` returns a naive local
 * datetime, and arithmetic on naive datetimes is plain wall-clock arithmetic in
 * which every day has 86400 seconds. A timestamp here is the number of seconds
 * since 1970-01-01 00:00 on that clock (a Thursday); hour of day and weekday are
 * derived from it, so the functions that read `datetime.now()` take `now`.
 */
module Clock {

  const SecondsPerMinute: int := 60
  const SecondsPerHour: int := 3600
  const SecondsPerDay: int := 86400

  /** `datetime.hour`: the hour of day, 0..23. */
  function HourOf(t: int): (h: int)
    ensures 0 <= h < 24
  {
    (t % SecondsPerDay) / SecondsPerHour
  }

  /** The first second of the day that contains `t` (`replace(hour=0, minute=0, ...)`). */
  function DayStart(t: int): (d: int)
    ensures d <= t < d + SecondsPerDay && d % SecondsPerDay == 0
  {
    t - t % SecondsPerDay
  }

  /** `datetime.weekday()`: Monday is 0 and Sunday is 6; day 0 of the clock is a Thursday. */
  function Weekday(t: int): (w: int)
    ensures 0 <= w < 7
  {
    (t / SecondsPerDay + 3) % 7
  }

  /**
   * utils.is_weekend: Saturday or Sunday. Counting whole days from 1970-01-01,
   * those are the days two and three past a multiple of seven.
   */
  predicate IsWeekend(t: int)
    ensures IsWeekend(t) <==> (t / SecondsPerDay) % 7 == 2 || (t / SecondsPerDay) % 7 == 3
  {
    Weekday(t) >= 5
  }

  /** The top of the next hour: `replace(minute=0, second=0) + 1 hour`. */
  function NextHour(t: int): int {
    t - t % SecondsPerHour + SecondsPerHour
  }

  /** utils.get_time_until_next_hour. */
  function SecondsUntilNextHour(t: int): (s: int)
    ensures 1 <= s <= SecondsPerHour
    ensures (t + s) % SecondsPerHour == 0
  {
    NextHour(t) - t
  }

  /** utils.get_time_until_next_day: seconds until the next midnight. */
  function SecondsUntilNextDay(t: int): (s: int)
    ensures 1 <= s <= SecondsPerDay
    ensures (t + s) % SecondsPerDay == 0 && HourOf(t + s) == 0
  {
    DayStart(t) + SecondsPerDay - t
  }

  /** Today's 06:00, or tomorrow's when today's is not strictly later than `t`. */
  function NextSixAm(t: int): int {
    var six := DayStart(t) + 6 * SecondsPerHour;
    if six <= t then six + SecondsPerDay else six
  }

  /** NextHour is the first whole hour strictly after `t`. */
  lemma NextHourIsNextBoundary(t: int)
    ensures t < NextHour(t) <= t + SecondsPerHour
    ensures NextHour(t) % SecondsPerHour == 0
    ensures forall u :: t < u < NextHour(t) ==> u % SecondsPerHour != 0
  {
    forall u | t < u < NextHour(t) ensures u % SecondsPerHour != 0 {
      var b := t - t % SecondsPerHour;
      assert b < u < b + SecondsPerHour;
      assert u % SecondsPerHour == u - b;
    }
  }

  /** NextSixAm is the first 06:00 strictly after `t`. */
  lemma NextSixAmIsNextSixOClock(t: int)
    ensures t < NextSixAm(t) <= t + SecondsPerDay
    ensures NextSixAm(t) % SecondsPerDay == 6 * SecondsPerHour && HourOf(NextSixAm(t)) == 6
    ensures forall u :: t < u < NextSixAm(t) ==> u % SecondsPerDay != 6 * SecondsPerHour
  {
    var d := DayStart(t);
    var r := NextSixAm(t);
    if d + 6 * SecondsPerHour <= t {
      assert r == d + SecondsPerDay + 6 * SecondsPerHour;
      assert r % SecondsPerDay == 6 * SecondsPerHour;
      forall u | t < u < r ensures u % SecondsPerDay != 6 * SecondsPerHour {
        if u < d + SecondsPerDay {
          assert u % SecondsPerDay == u - d;
        } else {
          assert u % SecondsPerDay == u - d - SecondsPerDay;
        }
      }
    } else {
      assert r % SecondsPerDay == 6 * SecondsPerHour;
      forall u | t < u < r ensures u % SecondsPerDay != 6 * SecondsPerHour {
        assert u % SecondsPerDay == u - d;
      }
    }
  }

  /** The weekday repeats every seven days, and 1970-01-03 (a Saturday) is a weekend day. */
  lemma WeekendIsWeekly(t: int)
    ensures IsWeekend(t + 7 * SecondsPerDay) == IsWeekend(t)
    ensures IsWeekend(2 * SecondsPerDay) && IsWeekend(3 * SecondsPerDay) && !IsWeekend(4 * SecondsPerDay)
  {
    assert (t + 7 * SecondsPerDay) / SecondsPerDay == t / SecondsPerDay + 7;
  }
}
