/**
 The window resolver of `get_subreddit_posts` (main.py:42-53): a filter kind,
 the current instant and two optional calendar dates become an inclusive
 `[start, end]` range of instants.
 */
module Windows {
  import opened Clock

  datatype Option<T> = None | Some(value: T)

  /** An inclusive range of instants, in microseconds since the epoch. */
  datatype Window = Window(start: int, end: int) {

    predicate Contains(ts: int) {
      start <= ts <= end
    }

    /** A window whose start lies after its end; the source only warns about it. */
    predicate Inverted() {
      start > end
    }
  }

  /** The filter kinds the selector offers (main.py:147-150). */
  const All: string := "All"
  const LastWeek: string := "Last Week"
  const LastMonth: string := "Last Month"
  const LastYear: string := "Last Year"
  const DateRange: string := "Date Range"

  /** The length, in days, of the rolling window a filter kind names, if it names one. */
  function LookbackDays(filter: string): Option<nat> {
    if filter == LastWeek then Some(7)
    else if filter == LastMonth then Some(30)
    else if filter == LastYear then Some(365)
    else None
  }

  /** `now - timedelta(days=days)`. */
  function DaysBefore(now: int, days: int): int {
    now - days * MicrosPerDay
  }

  /** The explicit range applies only when the kind is "Date Range" and both dates are given. */
  predicate UsesDates(filter: string, startDate: Option<int>, endDate: Option<int>) {
    filter == DateRange && startDate.Some? && endDate.Some?
  }

  /**
   The window for a request. The default, kept by "All", by any unrecognised
   kind and by "Date Range" with a missing date, is everything from the epoch
   up to now.
   */
  function Resolve(filter: string, now: int, startDate: Option<int>, endDate: Option<int>): (w: Window)
    ensures !UsesDates(filter, startDate, endDate) ==> w.end == now
    ensures LookbackDays(filter).None? && !UsesDates(filter, startDate, endDate) ==> w.start == 0
    ensures LookbackDays(filter).Some? ==> now - w.start == LookbackDays(filter).value * MicrosPerDay
    ensures UsesDates(filter, startDate, endDate) ==>
      && DayOf(w.start) == startDate.value && TimeOf(w.start) == Midnight
      && DayOf(w.end) == endDate.value && TimeOf(w.end) == LastMicrosecond
  {
    if filter == LastWeek then Window(DaysBefore(now, 7), now)
    else if filter == LastMonth then Window(DaysBefore(now, 30), now)
    else if filter == LastYear then Window(DaysBefore(now, 365), now)
    else if UsesDates(filter, startDate, endDate) then
      Window(Combine(startDate.value, Midnight), Combine(endDate.value, LastMicrosecond))
    else Window(0, now)
  }

  /**
   Reference reading of the filter kinds, stated without the window: which
   instants a request asks for.
   */
  predicate Admits(filter: string, now: int, startDate: Option<int>, endDate: Option<int>, ts: int) {
    if LookbackDays(filter).Some? then
      0 <= now - ts <= LookbackDays(filter).value * MicrosPerDay
    else if UsesDates(filter, startDate, endDate) then
      startDate.value <= DayOf(ts) <= endDate.value
    else
      0 <= ts <= now
  }

  /**
   The resolved window contains exactly the instants the request asks for:
   up to now and no further back than the rolling length; on a UTC calendar
   day from the start date to the end date, both inclusive; or anything from
   the epoch up to now.
   */
  lemma ResolveAdmits(filter: string, now: int, startDate: Option<int>, endDate: Option<int>, ts: int)
    ensures Resolve(filter, now, startDate, endDate).Contains(ts) <==> Admits(filter, now, startDate, endDate, ts)
  {
  }

  /** A "Date Range" whose start date is after its end date resolves to an inverted window. */
  lemma LaterStartDateInverts(now: int, startDate: int, endDate: int)
    requires startDate > endDate
    ensures Resolve(DateRange, now, Some(startDate), Some(endDate)).Inverted()
  {
  }

  /** A one-day "Date Range" window spans the whole day: one microsecond short of a full day. */
  lemma SingleDayRangeLength(now: int, day: int)
    ensures var w := Resolve(DateRange, now, Some(day), Some(day));
      w.end - w.start == MicrosPerDay - 1
  {
  }

  /**
   "Date Range" from 2024-01-01 (day 19723) to 2024-01-07 (day 19729):
   from 2024-01-01T00:00:00Z to 2024-01-07T23:59:59.999999Z, whatever the
   current instant.
   */
  lemma FirstWeekOf2024(now: int)
    ensures Resolve(DateRange, now, Some(19723), Some(19729))
         == Window(1_704_067_200_000_000, 1_704_671_999_999_999)
  {
  }
}
