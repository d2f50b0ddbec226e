/**
 `get_subreddit_posts` (main.py:26-85) end to end: resolve the window, scan
 the listing, and turn any exception into an empty result with an error
 message instead of a partial one.

 The clock reading and the listing are parameters: `now` stands for
 `datetime.now(timezone.utc)` and `listing` for the iteration of
 `subreddit(name).new(limit=None)`. Only the posts' ids and creation
 instants are kept; the row's other columns are copied attributes.
 */
module Fetch {
  import opened Clock
  import opened Windows
  import opened Listing

  /**
   The rows returned, and the text shown with `st.error` when the fetch
   failed. The source returns only an empty DataFrame on failure; `error`
   records the displayed text, which is not part of its return value.
   */
  datatype FetchResult = FetchResult(rows: seq<Post>, error: Option<string>)

  /** Prefix the source puts in front of the exception text it reports. */
  const ErrorPrefix: string := "Error fetching subreddit posts: "

  /** True when the listing raises before the scan would have stopped on its own. */
  predicate FaultsBeforeStop(w: Window, listing: seq<Entry>) {
    var k := StopIndex(w, listing);
    k < |listing| && listing[k].Fault?
  }

  function GetSubredditPosts(filter: string, now: int, startDate: Option<int>, endDate: Option<int>, listing: seq<Entry>): (r: FetchResult)
    ensures r.error.Some? ==> r.rows == []
    ensures forall p <- r.rows :: Resolve(filter, now, startDate, endDate).Contains(p.created)
    ensures IsSubsequence(r.rows, PostsOf(listing))
  {
    var w := Resolve(filter, now, startDate, endDate);
    var scan := Scan(w, listing);
    var k := StopIndex(w, listing);
    ScanMatchesReference(w, listing);
    InWindowPostsIsSubsequence(w, listing[..k]);
    PrefixSubsequence(scan.emitted, listing, k);
    match scan.outcome
    case Raised(m) => FetchResult([], Some(ErrorPrefix + m))
    case _ => FetchResult(scan.emitted, None)
  }

  /**
   The whole request, stated without the loop: an error, with no rows and
   the exception's text behind the source's prefix, when the listing raises
   before the scan's stopping entry; otherwise the in-window posts that
   precede that entry, in listing order.
   */
  lemma {:induction false} FetchMatchesReference(filter: string, now: int, startDate: Option<int>, endDate: Option<int>, listing: seq<Entry>)
    ensures var w := Resolve(filter, now, startDate, endDate);
      var r := GetSubredditPosts(filter, now, startDate, endDate, listing);
      && (r.error.Some? <==> FaultsBeforeStop(w, listing))
      && (FaultsBeforeStop(w, listing) ==> r.error == Some(ErrorPrefix + listing[StopIndex(w, listing)].message))
      && (!FaultsBeforeStop(w, listing) ==> r.rows == InWindowPosts(w, listing[..StopIndex(w, listing)]))
  {
    ScanMatchesReference(Resolve(filter, now, startDate, endDate), listing);
  }

  /**
   On a newest-first listing that never raises, the rows are exactly the
   listing's posts inside the resolved window, in order.
   */
  lemma {:induction false} NewestFirstFetchIsComplete(filter: string, now: int, startDate: Option<int>, endDate: Option<int>, listing: seq<Entry>)
    requires NewestFirst(listing)
    ensures var r := GetSubredditPosts(filter, now, startDate, endDate, listing);
      r.error == None && r.rows == InWindowPosts(Resolve(filter, now, startDate, endDate), listing)
  {
    NewestFirstScanIsComplete(Resolve(filter, now, startDate, endDate), listing);
  }

  /**
   A failure the listing would only raise after the stopping entry is never
   reached, so it cannot change the result.
   */
  lemma {:induction false} FaultAfterStopIsUnseen(filter: string, now: int, startDate: Option<int>, endDate: Option<int>, listing: seq<Entry>, rest: seq<Entry>)
    requires StopIndex(Resolve(filter, now, startDate, endDate), listing) < |listing|
    ensures GetSubredditPosts(filter, now, startDate, endDate, listing + rest)
         == GetSubredditPosts(filter, now, startDate, endDate, listing)
  {
    ScanIgnoresAfterStop(Resolve(filter, now, startDate, endDate), listing, rest);
  }

  /**
   A "Date Range" with the start date after the end date only draws a
   warning in the interface; the scan still runs and returns no rows.
   */
  lemma {:induction false} LaterStartDateFetchesNothing(now: int, startDate: int, endDate: int, listing: seq<Entry>)
    requires startDate > endDate
    ensures GetSubredditPosts(DateRange, now, Some(startDate), Some(endDate), listing).rows == []
  {
    LaterStartDateInverts(now, startDate, endDate);
    InvertedWindowEmitsNothing(Resolve(DateRange, now, Some(startDate), Some(endDate)), listing);
  }

  /**
   "Last Week" over a listing of posts made now, three days ago and ten days
   ago: the first two are returned and the scan stops at the third.
   */
  lemma LastWeekScenario(now: int)
    ensures var a, b, c := Post("a", now), Post("b", now - 3 * MicrosPerDay), Post("c", now - 10 * MicrosPerDay);
      var listing := [Item(a), Item(b), Item(c)];
      && GetSubredditPosts(LastWeek, now, None, None, listing) == FetchResult([a, b], None)
      && Scan(Resolve(LastWeek, now, None, None), listing).examined == 3
  {
    var a, b, c := Post("a", now), Post("b", now - 3 * MicrosPerDay), Post("c", now - 10 * MicrosPerDay);
    var listing := [Item(a), Item(b), Item(c)];
    var w := Resolve(LastWeek, now, None, None);
    assert w == Window(now - 7 * MicrosPerDay, now);
    assert listing[1..] == [Item(b), Item(c)];
    assert listing[1..][1..] == [Item(c)];
    assert Scan(w, [Item(c)]) == ScanResult([], 1, Stopped);
    assert Scan(w, [Item(b), Item(c)]) == ScanResult([b], 2, Stopped);
    assert Scan(w, listing) == ScanResult([a, b], 3, Stopped);
  }
}
