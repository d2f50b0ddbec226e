# Reddit subreddit scraper: time window and bounded listing scan

This project is a Dafny model of `get_subreddit_posts`, the one piece of the
Reddit scraper with real logic. It has three parts:

- **Window resolution.** A filter kind ("All", "Last Week", "Last Month",
  "Last Year" or "Date Range"), the current instant and two optional calendar
  dates become an inclusive window `[start, end]`.
- **Bounded scan.** The scan walks the subreddit's newest-first listing. A post
  newer than the window is skipped. The first post older than the window ends
  the walk. Every other post becomes a row, in listing order.
- **Error handling.** Any exception raised while fetching throws away the rows
  collected so far. The function returns an empty DataFrame, which the caller
  cannot tell apart from a successful fetch with no rows. The error text goes
  to the page through `st.error` (main.py:83-85). The model's result keeps that
  text in its `error` field.

Modules, one per concern:

- `Clock` (clock.dfy): exact UTC time in integer microseconds since the epoch.
  A calendar date is an integer day number. It also models
  `datetime.combine(date, time, tzinfo=timezone.utc)`.
- `Windows` (window.dfy): the filter kinds, `Resolve`, and a reference reading
  `Admits` of which instants each request asks for.
- `Listing` (scan.dfy): posts, listing entries (a post, or an exception raised
  at that point of the iteration), the scan, and reference definitions.
  `StopIndex` is the first entry that ends the scan. `InWindowPosts` is the
  plain in-window filter.
- `Fetch` (fetch.dfy): the whole request, with the catch-all error path.

The current time (`datetime.now`) and the listing (`subreddit(name).new(limit=None)`)
are parameters. The model takes no readings of its own.

Details of main.py's behaviour the model keeps:

- The window includes both ends: a post is dropped only when `created > end` or `created < start` (main.py:57-59).
- The "newer than `end`" test runs before the "older than `start`" test. So in an
  inverted window, a post with `end < created < start` is skipped, and the scan
  carries on (`Listing.EndsScan`).
- The early stop relies on the listing being newest first (main.py:56). The
  completeness lemma asks that nothing raise and that no post be newer than
  an earlier one. Equal timestamps are allowed.

## Model

| member | source | states |
|---|---|---|
| Clock.Combine | main.py:52-53 | The instant built from a date and a time of day falls on that UTC date, and decomposing it gives back exactly that time of day |
| Clock.CombineDayAndTime | main.py:52-53 | Every instant is recovered from its UTC day and time of day, so the date/time-to-timestamp conversion is a bijection |
| Clock.DayBounds | main.py:52-53 | The 23:59:59.999999 end-of-day instant is one microsecond before the next day's midnight, and a day's instants are exactly those from its midnight to its end-of-day instant |
| Windows.Resolve | main.py:42-53 | "All", an unknown kind, or "Date Range" with a missing date gives start 0 and end now. Week/month/year give end now and start exactly 7/30/365 days earlier. "Date Range" with both dates gives the start date's midnight and the end date's 23:59:59.999999 |
| Windows.ResolveAdmits | main.py:43-53 | An instant is inside the resolved window exactly when the request asks for it: between the look-back and now; on a UTC day from the start date to the end date; or between the epoch and now |
| Windows.LaterStartDateInverts | main.py:51-53 | A "Date Range" whose start date is after its end date resolves to an inverted window; nothing blocks it |
| Windows.SingleDayRangeLength | main.py:51-53 | A one-day "Date Range" covers the whole day: its end is one microsecond short of a full day after its start |
| Windows.FirstWeekOf2024 | main.py:51-53 | 2024-01-01..2024-01-07 resolves to 2024-01-01T00:00:00Z .. 2024-01-07T23:59:59.999999Z, whatever the current time |
| Listing.Scan | main.py:56-62 | Every emitted post lies inside the window. No more entries are examined than exist. Running out means every entry was examined. A stop is caused by a too-old post and an error by an exception, each the last entry examined |
| Listing.InWindowPostsIsSubsequence | main.py:56-62 | Filtering to the window keeps listing order: the in-window posts are a subsequence of the listing's posts |
| Listing.StopIndex | main.py:57-60 | The index of the first entry that ends the scan (an exception, or a post not newer than the end and older than the start); no earlier entry ends it |
| Listing.ScanMatchesReference | main.py:56-62 | The scan emits exactly the in-window posts before the first stopping entry, in order. It examines exactly up to and including that entry. It raises exactly when that entry is an exception |
| Listing.ScanIgnoresAfterStop | main.py:59-60 | Nothing after the first too-old post (or exception) is looked at: appending anything to the listing past it leaves the result unchanged |
| Listing.NewestFirstScanIsComplete | main.py:56-62 | On a newest-first listing that never raises, the early stop loses nothing: the scan emits exactly the listing's in-window posts, in order |
| Listing.InvertedWindowEmitsNothing | main.py:57-60 | With an inverted window the scan emits nothing |
| Listing.OutOfOrderPostIsMissed | main.py:56-60 | If the listing breaks newest-first order, an in-window post listed after a too-old one is never reached |
| Fetch.GetSubredditPosts | main.py:40-85 | An error result has no rows. Every row is inside the resolved window. The rows are a subsequence of the listing's posts |
| Fetch.FetchMatchesReference | main.py:55-85 | The request fails, with no rows, exactly when the listing raises before the scan's stopping entry, and its message is that exception's text behind the "Error fetching subreddit posts: " prefix. Otherwise the rows are the in-window posts before that entry, in order |
| Fetch.NewestFirstFetchIsComplete | main.py:42-62 | On a newest-first listing that never raises, the rows are exactly the listing's posts inside the resolved window, in order |
| Fetch.FaultAfterStopIsUnseen | main.py:55-85 | An exception the listing would only raise after the stopping entry cannot change the result |
| Fetch.LaterStartDateFetchesNothing | main.py:153-168 | A "Date Range" with the start date after the end date only warns. The fetch still runs and returns no rows |
| Fetch.LastWeekScenario | main.py:45-60 | "Last Week" over posts made now, 3 days ago and 10 days ago returns the first two, having examined all three |

## Left out

- `init_reddit` (main.py:14-21): reads credentials from the environment and from Streamlit secrets, which is I/O.
- `get_post_by_url` (main.py:88-129): a single submission and its expanded comment tree come from the PRAW library, whose behaviour is not part of this model.
- Row construction and the DataFrame (main.py:62-81): each row copies post attributes. A post keeps only its id and creation instant, the two fields the scan reads.
- `main()` (main.py:133-211): the Streamlit widgets, warnings, CSV downloads and rendering. The only interface behaviour modelled is that a start date after the end date does not stop the fetch.
- The `st.cache_data` one-hour caching (main.py:25, main.py:88): the cache key is the subreddit name, the filter kind and the two dates (`_reddit` is excluded), not the clock. Within the hour, a repeated request returns the rows computed for the earlier `now`, and a failed fetch's empty result is cached as well. The model describes one uncached call.
- The ~1000-post cap of Reddit's listing (main.py:37-38): a property of the external API, so the listing is any finite sequence.
- Float timestamps: `timestamp()` and `created_utc` are float seconds in the source. The model uses exact integer microseconds, so float rounding is not modelled.
- Calendar range: Python dates run from year 1 to 9999, but day numbers here are unbounded integers. Overflow errors that `now - timedelta(...)` could raise near those limits are not modelled.
- Exceptions: where the exception is raised is reduced to one thing, a `Fault` entry in the listing at the point the iteration fails. This covers the subreddit lookup, paging and attribute access. On failure the source returns only an empty DataFrame. `FetchResult.error` is not part of that return value: it stands for the text passed to `st.error`, which is the exception text behind the source's prefix. How the page renders that text is left out.
- validate_deployment.py, deploy_to_streamlit.py and security_check.py: deployment and security scripts made of file reads, git subprocess calls, a browser launch and regex searches.
