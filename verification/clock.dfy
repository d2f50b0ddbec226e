/**
 Exact UTC time for the window resolver.

 Python's `datetime.timestamp()` yields float seconds; this model uses integer
 microseconds since the Unix epoch instead, so that the end-of-day instant
 23:59:59.999999 is represented exactly. A calendar date is its day number:
 the number of whole days between 1970-01-01 and that date (negative before).
 */
module Clock {

  const MicrosPerSecond: int := 1_000_000
  /** 86 400 seconds. */
  const MicrosPerDay: int := 86_400_000_000

  /** A wall-clock time of day with microsecond resolution, like Python's `datetime.time`. */
  datatype TimeOfDay = TimeOfDay(hour: int, minute: int, second: int, micro: int) {

    predicate Valid() {
      && 0 <= hour < 24
      && 0 <= minute < 60
      && 0 <= second < 60
      && 0 <= micro < MicrosPerSecond
    }

    /** Microseconds elapsed since midnight; every valid time lies within one day. */
    function SinceMidnight(): (m: int)
      requires Valid()
      ensures 0 <= m < MicrosPerDay
    {
      ((hour * 60 + minute) * 60 + second) * MicrosPerSecond + micro
    }
  }

  /** `datetime.min.time()`: 00:00:00.000000. */
  const Midnight: TimeOfDay := TimeOfDay(0, 0, 0, 0)

  /** `datetime.max.time()`: 23:59:59.999999. */
  const LastMicrosecond: TimeOfDay := TimeOfDay(23, 59, 59, 999_999)

  /** The calendar day (day number) an instant falls on, in UTC. */
  function DayOf(ts: int): int {
    ts / MicrosPerDay
  }

  /** The UTC time of day of an instant. */
  function TimeOf(ts: int): (t: TimeOfDay)
    ensures t.Valid()
    ensures t.SinceMidnight() == ts % MicrosPerDay
  {
    var m := ts % MicrosPerDay;
    var r := TimeOfDay(m / 3_600_000_000, (m / 60_000_000) % 60, (m / MicrosPerSecond) % 60, m % MicrosPerSecond);
    SplitMicrosOfDay(m);
    r
  }

  /** Splitting a microsecond-of-day count into fields and recombining them is lossless. */
  lemma SplitMicrosOfDay(m: int)
    requires 0 <= m < MicrosPerDay
    ensures var t := TimeOfDay(m / 3_600_000_000, (m / 60_000_000) % 60, (m / MicrosPerSecond) % 60, m % MicrosPerSecond);
      t.Valid() && t.SinceMidnight() == m
  {
  }

  /**
   `datetime.combine(date, time, tzinfo=timezone.utc).timestamp()` in exact
   microseconds: the instant on `day` at time of day `t`, UTC.
   */
  function Combine(day: int, t: TimeOfDay): (ts: int)
    requires t.Valid()
    ensures DayOf(ts) == day
    ensures TimeOf(ts) == t
  {
    var ts := day * MicrosPerDay + t.SinceMidnight();
    DivModUnique(ts, day, t.SinceMidnight());
    TimeOfSinceMidnight(t);
    ts
  }

  /** The quotient and remainder by a day are determined by any decomposition with a remainder inside one day. */
  lemma DivModUnique(ts: int, q: int, m: int)
    requires 0 <= m < MicrosPerDay
    requires ts == q * MicrosPerDay + m
    ensures ts / MicrosPerDay == q
    ensures ts % MicrosPerDay == m
  {
  }

  /** A valid time of day is recovered from its microsecond count. */
  lemma TimeOfSinceMidnight(t: TimeOfDay)
    requires t.Valid()
    ensures TimeOf(t.SinceMidnight()) == t
  {
    var m := t.SinceMidnight();
    assert m % MicrosPerDay == m;
    var s := (t.hour * 60 + t.minute) * 60 + t.second;
    assert m == s * MicrosPerSecond + t.micro;
    assert m / MicrosPerSecond == s;
    assert m % MicrosPerSecond == t.micro;
    assert s / 60 == t.hour * 60 + t.minute;
    assert s % 60 == t.second;
    assert m / 60_000_000 == t.hour * 60 + t.minute;
    assert (t.hour * 60 + t.minute) % 60 == t.minute;
    assert m / 3_600_000_000 == t.hour;
  }

  /** Splitting an instant into its day and time of day and recombining them gives the instant back. */
  lemma CombineDayAndTime(ts: int)
    ensures Combine(DayOf(ts), TimeOf(ts)) == ts
  {
  }

  /**
   The end-of-day instant is the microsecond just before the next day's
   midnight, and the instants of one day are exactly those from its midnight
   to its end-of-day instant.
   */
  lemma DayBounds(day: int, ts: int)
    ensures Combine(day, LastMicrosecond) == Combine(day + 1, Midnight) - 1
    ensures Combine(day, Midnight) <= ts <= Combine(day, LastMicrosecond) <==> DayOf(ts) == day
  {
  }
}
