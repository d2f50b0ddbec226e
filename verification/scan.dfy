/**
 The bounded listing scan of `get_subreddit_posts` (main.py:55-62): a walk
 over the subreddit's newest-to-oldest listing that skips posts newer than
 the window, stops at the first post older than it, and emits the rest.

 The listing is a sequence of entries; a `Fault` entry is the listing raising
 an exception at that point of the iteration.
 */
module Listing {
  import opened Windows

  /** The part of a Reddit post the scan looks at: its id and its creation instant. */
  datatype Post = Post(id: string, created: int)

  /** One step of the listing's iterator: the next post, or an exception. */
  datatype Entry = Item(post: Post) | Fault(message: string)

  /** Why a scan ended. */
  datatype Outcome =
    | Exhausted               // the listing ran out
    | Stopped                 // a post older than the window was reached
    | Raised(message: string) // the listing raised

  /** What a scan produced, and how many entries it pulled from the listing. */
  datatype ScanResult = ScanResult(emitted: seq<Post>, examined: nat, outcome: Outcome)

  /** The posts of a run of entries, in order, leaving out the faults. */
  function PostsOf(s: seq<Entry>): seq<Post>
    decreases |s|
  {
    if |s| == 0 then []
    else (if s[0].Item? then [s[0].post] else []) + PostsOf(s[1..])
  }

  /** `a` is `b` with some elements left out, the rest kept in order. */
  predicate IsSubsequence<T(==)>(a: seq<T>, b: seq<T>)
    decreases |b|
  {
    || |a| == 0
    || (&& |b| > 0
        && ((a[0] == b[0] && IsSubsequence(a[1..], b[1..])) || IsSubsequence(a, b[1..])))
  }

  /** The posts of a prefix are a subsequence of the posts of the whole listing. */
  lemma {:induction false} PrefixSubsequence(a: seq<Post>, s: seq<Entry>, n: nat)
    requires n <= |s|
    requires IsSubsequence(a, PostsOf(s[..n]))
    ensures IsSubsequence(a, PostsOf(s))
  {
    assert s == s[..n] + s[n..];
    PostsOfAppend(s[..n], s[n..]);
    SubsequenceOfPrefix(a, PostsOf(s[..n]), PostsOf(s[n..]));
  }

  /** The posts of a concatenation are those of each part, in order. */
  lemma {:induction false} PostsOfAppend(a: seq<Entry>, b: seq<Entry>)
    ensures PostsOf(a + b) == PostsOf(a) + PostsOf(b)
    decreases |a|
  {
    if |a| > 0 {
      assert (a + b)[0] == a[0];
      assert (a + b)[1..] == a[1..] + b;
      PostsOfAppend(a[1..], b);
    } else {
      assert a + b == b;
    }
  }

  /** A subsequence of a sequence stays one when more elements follow. */
  lemma {:induction false} SubsequenceOfPrefix<T>(a: seq<T>, b: seq<T>, c: seq<T>)
    requires IsSubsequence(a, b)
    ensures IsSubsequence(a, b + c)
    decreases |b|
  {
    if |a| > 0 {
      assert (b + c)[0] == b[0];
      assert (b + c)[1..] == b[1..] + c;
      if a[0] == b[0] && IsSubsequence(a[1..], b[1..]) {
        SubsequenceOfPrefix(a[1..], b[1..], c);
      } else {
        SubsequenceOfPrefix(a, b[1..], c);
      }
    }
  }

  /**
   True of the entry that ends the scan: an exception, or a post that is not
   newer than the window's end (those are skipped first) and older than its start.
   */
  predicate EndsScan(w: Window, e: Entry) {
    match e
    case Fault(_) => true
    case Item(p) => p.created <= w.end && p.created < w.start
  }

  /**
   The scan itself: `continue` past posts newer than the window, `break` at
   the first post older than it, emit every other post.
   */
  function Scan(w: Window, s: seq<Entry>): (r: ScanResult)
    ensures r.examined <= |s|
    ensures forall p <- r.emitted :: w.Contains(p.created)
    ensures r.outcome.Exhausted? ==> r.examined == |s|
    ensures r.outcome.Stopped? ==> 0 < r.examined <= |s| && s[r.examined - 1].Item? && EndsScan(w, s[r.examined - 1])
    ensures r.outcome.Raised? ==> 0 < r.examined <= |s| && s[r.examined - 1] == Fault(r.outcome.message)
    decreases |s|
  {
    if |s| == 0 then ScanResult([], 0, Exhausted)
    else
      match s[0]
      case Fault(m) => ScanResult([], 1, Raised(m))
      case Item(p) =>
        if p.created > w.end then
          var rest := Scan(w, s[1..]);
          ScanResult(rest.emitted, rest.examined + 1, rest.outcome)
        else if p.created < w.start then
          ScanResult([], 1, Stopped)
        else
          var rest := Scan(w, s[1..]);
          ScanResult([p] + rest.emitted, rest.examined + 1, rest.outcome)
  }

  /**
   Index of the entry that ends the scan: the first exception or too-old
   post, or the listing's length when there is none.
   */
  function StopIndex(w: Window, s: seq<Entry>): (k: nat)
    ensures k <= |s|
    ensures forall i :: 0 <= i < k ==> !EndsScan(w, s[i])
    ensures k < |s| ==> EndsScan(w, s[k])
    decreases |s|
  {
    if |s| == 0 || EndsScan(w, s[0]) then 0 else 1 + StopIndex(w, s[1..])
  }

  /** Reference filter: the posts of a run of entries that lie in the window, in order. */
  function InWindowPosts(w: Window, s: seq<Entry>): seq<Post>
    decreases |s|
  {
    if |s| == 0 then []
    else (if s[0].Item? && w.Contains(s[0].post.created) then [s[0].post] else []) + InWindowPosts(w, s[1..])
  }

  /** The in-window posts keep the listing's order: they are a subsequence of its posts. */
  lemma {:induction false} InWindowPostsIsSubsequence(w: Window, s: seq<Entry>)
    ensures IsSubsequence(InWindowPosts(w, s), PostsOf(s))
    decreases |s|
  {
    if |s| > 0 {
      InWindowPostsIsSubsequence(w, s[1..]);
      var tail := PostsOf(s[1..]);
      if s[0].Item? {
        assert PostsOf(s) == [s[0].post] + tail;
        assert PostsOf(s)[1..] == tail;
        if w.Contains(s[0].post.created) {
          assert InWindowPosts(w, s)[1..] == InWindowPosts(w, s[1..]);
        } else {
          assert InWindowPosts(w, s) == InWindowPosts(w, s[1..]);
        }
      } else {
        assert PostsOf(s) == tail;
        assert InWindowPosts(w, s) == InWindowPosts(w, s[1..]);
      }
    }
  }

  /**
   What the scan computes, stated without the loop: the in-window posts
   before the stopping entry, with the stopping entry the last one pulled;
   the scan raises exactly when that entry is an exception.
   */
  lemma {:induction false} ScanMatchesReference(w: Window, s: seq<Entry>)
    ensures var k := StopIndex(w, s);
      && Scan(w, s).emitted == InWindowPosts(w, s[..k])
      && Scan(w, s).examined == (if k < |s| then k + 1 else |s|)
      && (Scan(w, s).outcome.Raised? <==> k < |s| && s[k].Fault?)
      && (Scan(w, s).outcome.Stopped? <==> k < |s| && s[k].Item?)
    decreases |s|
  {
    if |s| > 0 && !EndsScan(w, s[0]) {
      var k := StopIndex(w, s);
      ScanMatchesReference(w, s[1..]);
      assert s[..k][1..] == s[1..][..k - 1];
    }
  }

  /** Nothing after the stopping entry is looked at: appending to the listing past it changes nothing. */
  lemma {:induction false} ScanIgnoresAfterStop(w: Window, s: seq<Entry>, t: seq<Entry>)
    requires StopIndex(w, s) < |s|
    ensures Scan(w, s + t) == Scan(w, s)
    decreases |s|
  {
    assert (s + t)[0] == s[0];
    if !EndsScan(w, s[0]) {
      assert (s + t)[1..] == s[1..] + t;
      ScanIgnoresAfterStop(w, s[1..], t);
    }
  }

  /** The listing is newest to oldest: every post is at least as old as every earlier one, and nothing raises. */
  predicate NewestFirst(s: seq<Entry>) {
    && (forall i :: 0 <= i < |s| ==> s[i].Item?)
    && (forall i, j :: 0 <= i < j < |s| ==> s[j].post.created <= s[i].post.created)
  }

  /** The in-window posts of a concatenation are those of each part, in order. */
  lemma {:induction false} InWindowPostsAppend(w: Window, a: seq<Entry>, b: seq<Entry>)
    ensures InWindowPosts(w, a + b) == InWindowPosts(w, a) + InWindowPosts(w, b)
    decreases |a|
  {
    if |a| > 0 {
      assert (a + b)[0] == a[0];
      assert (a + b)[1..] == a[1..] + b;
      InWindowPostsAppend(w, a[1..], b);
    } else {
      assert a + b == b;
    }
  }

  /** A run of posts all older than the window's start has no in-window post. */
  lemma {:induction false} NoneInWindowBeforeStart(w: Window, s: seq<Entry>)
    requires forall i :: 0 <= i < |s| ==> s[i].Item? && s[i].post.created < w.start
    ensures InWindowPosts(w, s) == []
    decreases |s|
  {
    if |s| > 0 {
      NoneInWindowBeforeStart(w, s[1..]);
    }
  }

  /**
   On a newest-first listing the early stop loses nothing: the scan emits
   exactly the in-window posts of the whole listing, in order, and never raises.
   */
  lemma {:induction false} NewestFirstScanIsComplete(w: Window, s: seq<Entry>)
    requires NewestFirst(s)
    ensures Scan(w, s).emitted == InWindowPosts(w, s)
    ensures !Scan(w, s).outcome.Raised?
  {
    var k := StopIndex(w, s);
    ScanMatchesReference(w, s);
    if k < |s| {
      OlderThanStopAreOutside(w, s, k);
      NoneInWindowBeforeStart(w, s[k..]);
      SplitAt(w, s, k);
    } else {
      assert s[..k] == s;
    }
  }

  /** Splitting a listing splits its in-window posts. */
  lemma {:induction false} SplitAt(w: Window, s: seq<Entry>, k: nat)
    requires k <= |s|
    ensures InWindowPosts(w, s) == InWindowPosts(w, s[..k]) + InWindowPosts(w, s[k..])
  {
    assert s == s[..k] + s[k..];
    InWindowPostsAppend(w, s[..k], s[k..]);
  }

  /** On a newest-first listing every post from a too-old one onwards is too old as well. */
  lemma {:induction false} OlderThanStopAreOutside(w: Window, s: seq<Entry>, k: nat)
    requires NewestFirst(s)
    requires k < |s| && EndsScan(w, s[k])
    ensures forall i :: 0 <= i < |s[k..]| ==> s[k..][i].Item? && s[k..][i].post.created < w.start
  {
  }

  /** An inverted window admits no post of any listing. */
  lemma {:induction false} InvertedWindowAdmitsNothing(w: Window, s: seq<Entry>)
    requires w.Inverted()
    ensures InWindowPosts(w, s) == []
    decreases |s|
  {
    if |s| > 0 {
      InvertedWindowAdmitsNothing(w, s[1..]);
    }
  }

  /** An inverted window admits no instant, so the scan emits nothing (though it may still examine entries). */
  lemma {:induction false} InvertedWindowEmitsNothing(w: Window, s: seq<Entry>)
    requires w.Inverted()
    ensures Scan(w, s).emitted == []
  {
    ScanMatchesReference(w, s);
    InvertedWindowAdmitsNothing(w, s[..StopIndex(w, s)]);
  }

  /**
   Without the newest-first order the scan can under-collect: an in-window
   post listed after a too-old one is never reached.
   */
  lemma OutOfOrderPostIsMissed()
    ensures var w := Window(10, 20);
      var late := Post("b", 15);
      var s := [Item(Post("a", 5)), Item(late)];
      && late in InWindowPosts(w, s)
      && Scan(w, s).emitted == []
      && Scan(w, s).examined == 1
  {
  }
}
