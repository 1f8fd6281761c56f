/**
 * The local logical clock (src/transaction/local-time-provider.cpp): it
 * reads the wall clock once every TIME_PROVIDER_INTERVAL calls to GetTime
 * and hands out base + count in between. The wall clock is a parameter.
 */
module TimeProviders {
  import opened Configuration

  /** time_value_ and count_. */
  datatype Clock = Clock(timeValue: int, count: int)

  function Max(a: int, b: int): int {
    if a >= b then a else b
  }

  /** What GetTime returns and the clock it leaves, given the wall-clock reading now. */
  function GetTimeStep(c: Clock, now: int): (r: (int, Clock))
  {
    var base := if c.count == TIME_PROVIDER_INTERVAL then Clock(Max(c.timeValue, now), 0) else c;
    (base.timeValue + base.count, base.(count := base.count + 1))
  }

  /** The clock SetTime(time) leaves. */
  function SetTimeStep(c: Clock, time: int): Clock {
    Clock(Max(c.timeValue + c.count, time), 0)
  }

  predicate InRange(c: Clock) {
    0 <= c.count <= TIME_PROVIDER_INTERVAL
  }

  /** Between wall-clock reads GetTime hands out consecutive values, and count never leaves its range. */
  lemma GetTimeBetweenRefreshes(c: Clock, now: int, later: int)
    requires InRange(c)
    ensures InRange(GetTimeStep(c, now).1)
    ensures c.count < TIME_PROVIDER_INTERVAL ==> GetTimeStep(c, now).0 == c.timeValue + c.count
    ensures c.count + 1 < TIME_PROVIDER_INTERVAL ==>
      GetTimeStep(GetTimeStep(c, now).1, later).0 == GetTimeStep(c, now).0 + 1
  {
  }

  /** A wall-clock read never moves the base backwards and restarts the count. */
  lemma RefreshReadsWallClock(c: Clock, now: int)
    requires c.count == TIME_PROVIDER_INTERVAL
    ensures GetTimeStep(c, now).0 == Max(c.timeValue, now)
    ensures GetTimeStep(c, now).0 >= c.timeValue && GetTimeStep(c, now).0 >= now
    ensures GetTimeStep(c, now).1 == Clock(Max(c.timeValue, now), 1)
  {
  }

  /**
   * After SetTime(time), the next GetTime returns at least time and more
   * than every value handed out since the last wall-clock read.
   */
  lemma {:induction false} SetTimeDominates(c: Clock, time: int, now: int, k: int)
    requires InRange(c)
    requires 0 <= k < c.count
    ensures GetTimeStep(SetTimeStep(c, time), now).0 >= time
    ensures GetTimeStep(SetTimeStep(c, time), now).0 > c.timeValue + k
  {
    assert SetTimeStep(c, time).count == 0;
  }

  /**
   * Across a wall-clock read GetTime can go backwards: after the last of a
   * window's values, a wall clock that has not advanced restarts at the base.
   */
  lemma GetTimeNotMonotonicAcrossRefresh()
    ensures var c := Clock(0, TIME_PROVIDER_INTERVAL - 1);
      var (first, c1) := GetTimeStep(c, 0);
      var (second, _) := GetTimeStep(c1, 0);
      second < first
  {
  }

  class LocalTimeProvider {
    var timeValue: int
    var count: int

    function State(): Clock
      reads this
    {
      Clock(timeValue, count)
    }

    ghost predicate Valid()
      reads this
    {
      InRange(State())
    }

    /** The constructor reads the wall clock and starts a fresh window. */
    constructor(now: int)
      ensures State() == Clock(now, 0) && Valid()
    {
      timeValue := now;
      count := 0;
    }

    /** GetTime(): reads the wall clock (now) once a window is used up, then hands out base + count. */
    method GetTime(now: int) returns (t: int)
      requires Valid()
      modifies this
      ensures Valid()
      ensures (t, State()) == GetTimeStep(old(State()), now)
    {
      if count == TIME_PROVIDER_INTERVAL {
        var newTime := now;
        count := 0;
        timeValue := Max(timeValue, newTime);
      }
      t := timeValue + count;
      count := count + 1;
    }

    /** SetTime(time): the base moves to at least time, past every value handed out, and the count restarts. */
    method SetTime(time: int)
      modifies this
      ensures Valid()
      ensures State() == SetTimeStep(old(State()), time)
    {
      timeValue := Max(timeValue + count, time);
      count := 0;
    }
  }
}
