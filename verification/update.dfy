/**
 * `update_stories(days, start_day)`: which pages are fetched for which day offsets, how the
 * homepage is split into today's and yesterday's stories, and what ends up in the cache.
 * The network is a fetcher that returns a page's rows or fails; today and today's midnight
 * are parameters.
 */
module Update {
  import opened Wrappers
  import opened Stories
  import opened Seqs
  import opened StoryCache
  import opened Scraper

  /** The homepage (today and yesterday) or the archive page of one day. */
  datatype Page = Homepage | DatedPage(day: Day)

  /** Fetching a page: its rows, or `None` when the request raises. */
  type Fetcher = Page -> Option<seq<Row>>

  /** The result: the cache afterwards and the list of dates written, in order. */
  datatype Outcome = Outcome(cache: Cache, updated: seq<Day>)

  /** Fetch and parse a page; `None` when either raises. */
  function Load(fetch: Fetcher, page: Page, midnight: int): (r: Option<seq<Record>>)
    ensures r.Some? <==> fetch(page).Some? && ParseStories(fetch(page).value, midnight).Ok?
  {
    match fetch(page)
    case None => None
    case Some(rows) =>
      match ParseStories(rows, midnight)
      case Err => None
      case Ok(recs) => Some(recs)
  }

  predicate TodayRecord(r: Record)
  {
    r.fromToday
  }

  predicate EarlierRecord(r: Record)
  {
    !r.fromToday
  }

  /**
   * The two buckets of the homepage: the records flagged today's and the others, each in
   * page order; together they are exactly the parsed records.
   */
  function Buckets(recs: seq<Record>): (b: (seq<Record>, seq<Record>))
    ensures forall i :: 0 <= i < |b.0| ==> b.0[i].fromToday
    ensures forall i :: 0 <= i < |b.1| ==> !b.1[i].fromToday
    ensures multiset(b.0) + multiset(b.1) == multiset(recs)
    ensures |b.0| + |b.1| == |recs|
    ensures IsSubseq(b.0, recs) && IsSubseq(b.1, recs)
  {
    Partition(recs, TodayRecord, EarlierRecord);
    FilterIsSubseq(recs, TodayRecord);
    FilterIsSubseq(recs, EarlierRecord);
    (Filter(recs, TodayRecord), Filter(recs, EarlierRecord))
  }

  /** The page fetched for day offset `i`: offset 0 is the homepage. */
  function PageFor(today: Day, i: int): Page
  {
    if i == 0 then Homepage else DatedPage(today - i)
  }

  /**
   * What offset `i` would store, if its page loads: the stories with their flag dropped, and
   * for the homepage only today's.
   */
  function DayStories(fetch: Fetcher, today: Day, i: int, midnight: int): (r: Option<seq<Story>>)
    ensures r.Some? <==> Load(fetch, PageFor(today, i), midnight).Some?
    ensures r.Some? && i != 0 ==> |r.value| == |Load(fetch, PageFor(today, i), midnight).value|
    ensures r.Some? && i == 0 ==> |r.value| == |Buckets(Load(fetch, Homepage, midnight).value).0|
  {
    match Load(fetch, PageFor(today, i), midnight)
    case None => None
    case Some(recs) => Some(StoriesOf(if i == 0 then Buckets(recs).0 else recs))
  }

  /**
   * The per-day loop over offsets `i` up to `end` (exclusive): each day that loads is cached,
   * even when empty; a day that fails is skipped.
   */
  function FetchDays(c: Cache, today: Day, i: int, end: int, fetch: Fetcher, midnight: int): (o: Outcome)
    ensures forall d :: d in o.updated ==> i <= today - d < end && d in o.cache.entries
    ensures forall d :: d in c.entries ==> d in o.cache.entries
    ensures |o.updated| <= if i < end then end - i else 0
    decreases end - i
  {
    if i >= end then Outcome(c, [])
    else
      match DayStories(fetch, today, i, midnight)
      case None => FetchDays(c, today, i + 1, end, fetch, midnight)
      case Some(stories) =>
        var rest := FetchDays(Put(c, today - i, stories), today, i + 1, end, fetch, midnight);
        Outcome(rest.cache, [today - i] + rest.updated)
  }

  /**
   * Storing the homepage's buckets: today's stories under today and the others under
   * yesterday, each only when non-empty, today's date listed first.
   */
  function CacheBuckets(c: Cache, today: Day, ts: seq<Story>, ys: seq<Story>): (o: Outcome)
    ensures Get(o.cache, today) == if |ts| > 0 then Some(ts) else Get(c, today)
    ensures Get(o.cache, today - 1) == if |ys| > 0 then Some(ys) else Get(c, today - 1)
    ensures forall d :: d != today && d != today - 1 ==> Get(o.cache, d) == Get(c, d)
    ensures today in o.updated <==> |ts| > 0
    ensures today - 1 in o.updated <==> |ys| > 0
    ensures forall d :: d in o.updated ==> d == today || d == today - 1
    ensures |ts| > 0 && |ys| > 0 ==> o.updated == [today, today - 1]
  {
    var c1 := if |ts| > 0 then Put(c, today, ts) else c;
    var c2 := if |ys| > 0 then Put(c1, today - 1, ys) else c1;
    Outcome(c2, (if |ts| > 0 then [today] else []) + (if |ys| > 0 then [today - 1] else []))
  }

  /**
   * `update_stories(days, start_day)`. With `start_day == 0` and at least two days the
   * homepage is fetched once and split; if that fails, nothing at all is updated, older
   * days included. Otherwise every offset is fetched on its own.
   */
  function UpdateStories(c: Cache, days: int, start: int, today: Day, midnight: int, fetch: Fetcher): (o: Outcome)
    ensures forall d :: d in o.updated ==> start <= today - d < start + days && d in o.cache.entries
    ensures forall d :: d in c.entries ==> d in o.cache.entries
    ensures |o.updated| <= if days > 0 then days else 0
  {
    if start == 0 && days >= 2 then
      match Load(fetch, Homepage, midnight)
      case None => Outcome(c, [])
      case Some(recs) =>
        var split := CacheBuckets(c, today, StoriesOf(Buckets(recs).0), StoriesOf(Buckets(recs).1));
        var older := FetchDays(split.cache, today, 2, start + days, fetch, midnight);
        Outcome(older.cache, split.updated + older.updated)
    else
      FetchDays(c, today, start, start + days, fetch, midnight)
  }

  /**
   * The per-day loop, day by day: a day in range holds what its own page gave, or keeps its
   * old entry when that page failed; days out of range keep their entries; the dates listed
   * are exactly the days whose page loaded.
   */
  lemma {:induction false} FetchDaysEffect(c: Cache, today: Day, i: int, end: int, fetch: Fetcher, midnight: int, d: Day)
    ensures var o := FetchDays(c, today, i, end, fetch, midnight);
            var k := today - d;
            Get(o.cache, d) == if i <= k < end && DayStories(fetch, today, k, midnight).Some?
                               then DayStories(fetch, today, k, midnight) else Get(c, d)
    ensures var o := FetchDays(c, today, i, end, fetch, midnight);
            d in o.updated <==> i <= today - d < end && DayStories(fetch, today, today - d, midnight).Some?
    decreases end - i
  {
    if i < end {
      match DayStories(fetch, today, i, midnight)
      case None =>
        FetchDaysEffect(c, today, i + 1, end, fetch, midnight, d);
      case Some(stories) =>
        FetchDaysEffect(Put(c, today - i, stories), today, i + 1, end, fetch, midnight, d);
        PutThenGet(c, today - i, stories, d);
    }
  }

  /** Dates listed strictly from the newest to the oldest (so each at most once). */
  predicate NewestFirst(u: seq<Day>)
  {
    forall a, b :: 0 <= a < b < |u| ==> u[a] > u[b]
  }

  /** The dates the per-day loop lists run from the newest offset to the oldest, each once. */
  lemma {:induction false} FetchDaysOrder(c: Cache, today: Day, i: int, end: int, fetch: Fetcher, midnight: int)
    ensures NewestFirst(FetchDays(c, today, i, end, fetch, midnight).updated)
    ensures forall a :: 0 <= a < |FetchDays(c, today, i, end, fetch, midnight).updated| ==>
              today - end < FetchDays(c, today, i, end, fetch, midnight).updated[a] <= today - i
    decreases end - i
  {
    if i < end {
      match DayStories(fetch, today, i, midnight)
      case None =>
        FetchDaysOrder(c, today, i + 1, end, fetch, midnight);
        assert FetchDays(c, today, i, end, fetch, midnight) == FetchDays(c, today, i + 1, end, fetch, midnight);
      case Some(stories) =>
        var rest := FetchDays(Put(c, today - i, stories), today, i + 1, end, fetch, midnight);
        FetchDaysOrder(Put(c, today - i, stories), today, i + 1, end, fetch, midnight);
        var u := [today - i] + rest.updated;
        assert FetchDays(c, today, i, end, fetch, midnight).updated == u;
        forall a, b | 0 <= a < b < |u|
          ensures u[a] > u[b]
        {
          assert u[b] == rest.updated[b - 1];
          assert 0 <= b - 1 < |rest.updated|;
          assert rest.updated[b - 1] <= today - (i + 1);
          if a > 0 {
            assert u[a] == rest.updated[a - 1];
            assert NewestFirst(rest.updated);
          } else {
            assert u[a] == today - i;
          }
        }
    }
  }

  /** A failing day is skipped: the loop goes on exactly as if that day were not in range. */
  lemma FailedDaySkipped(c: Cache, today: Day, i: int, end: int, fetch: Fetcher, midnight: int)
    requires i < end
    requires fetch(PageFor(today, i)).None?
    ensures FetchDays(c, today, i, end, fetch, midnight) == FetchDays(c, today, i + 1, end, fetch, midnight)
  {
  }

  /** The per-day loop reads only the pages of the offsets in range. */
  lemma {:induction false} FetchDaysReadsOnlyItsPages(c: Cache, today: Day, i: int, end: int, fetch: Fetcher, fetch': Fetcher, midnight: int)
    requires forall k :: i <= k < end ==> fetch(PageFor(today, k)) == fetch'(PageFor(today, k))
    ensures FetchDays(c, today, i, end, fetch, midnight) == FetchDays(c, today, i, end, fetch', midnight)
    decreases end - i
  {
    if i < end {
      assert DayStories(fetch, today, i, midnight) == DayStories(fetch', today, i, midnight);
      match DayStories(fetch, today, i, midnight)
      case None =>
        FetchDaysReadsOnlyItsPages(c, today, i + 1, end, fetch, fetch', midnight);
      case Some(stories) =>
        FetchDaysReadsOnlyItsPages(Put(c, today - i, stories), today, i + 1, end, fetch, fetch', midnight);
    }
  }

  /** The pages an update fetches. */
  predicate Planned(p: Page, days: int, start: int, today: Day)
  {
    if start == 0 && days >= 2 then p == Homepage || exists k :: 2 <= k < days && p == PageFor(today, k)
    else exists k :: start <= k < start + days && p == PageFor(today, k)
  }

  /** Only the planned pages matter: fetchers that agree on them give the same update. */
  lemma OnlyPlannedPagesMatter(c: Cache, days: int, start: int, today: Day, midnight: int, fetch: Fetcher, fetch': Fetcher)
    requires forall p :: Planned(p, days, start, today) ==> fetch(p) == fetch'(p)
    ensures UpdateStories(c, days, start, today, midnight, fetch) == UpdateStories(c, days, start, today, midnight, fetch')
  {
    if start == 0 && days >= 2 {
      assert Planned(Homepage, days, start, today);
      forall k | 2 <= k < start + days
        ensures fetch(PageFor(today, k)) == fetch'(PageFor(today, k))
      {
        assert Planned(PageFor(today, k), days, start, today);
      }
      match Load(fetch, Homepage, midnight)
      case None =>
      case Some(recs) =>
        var ts := StoriesOf(Buckets(recs).0);
        var ys := StoriesOf(Buckets(recs).1);
        var c1 := if |ts| > 0 then Put(c, today, ts) else c;
        var c2 := if |ys| > 0 then Put(c1, today - 1, ys) else c1;
        FetchDaysReadsOnlyItsPages(c2, today, 2, start + days, fetch, fetch', midnight);
    } else {
      forall k | start <= k < start + days
        ensures fetch(PageFor(today, k)) == fetch'(PageFor(today, k))
      {
        assert Planned(PageFor(today, k), days, start, today);
      }
      FetchDaysReadsOnlyItsPages(c, today, start, start + days, fetch, fetch', midnight);
    }
  }

  /** In the combined update a failed homepage means no update at all, older days included. */
  lemma HomepageFailureSkipsOlderDays(c: Cache, days: int, today: Day, midnight: int, fetch: Fetcher)
    requires days >= 2
    requires Load(fetch, Homepage, midnight).None?
    ensures UpdateStories(c, days, 0, today, midnight, fetch) == Outcome(c, [])
  {
  }

  /**
   * The combined update: the homepage's buckets are stored as `CacheBuckets` says, and the
   * older days follow the per-day loop from offset 2.
   */
  lemma CombinedUpdate(c: Cache, days: int, today: Day, midnight: int, fetch: Fetcher, d: Day)
    requires days >= 2
    requires Load(fetch, Homepage, midnight).Some?
    ensures var recs := Load(fetch, Homepage, midnight).value;
            var split := CacheBuckets(c, today, StoriesOf(Buckets(recs).0), StoriesOf(Buckets(recs).1));
            var o := UpdateStories(c, days, 0, today, midnight, fetch);
            o.updated[..|split.updated|] == split.updated &&
            (today - d < 2 ==> Get(o.cache, d) == Get(split.cache, d)) &&
            (today - d >= 2 ==>
              (Get(o.cache, d) == if today - d < days && DayStories(fetch, today, today - d, midnight).Some?
                                  then DayStories(fetch, today, today - d, midnight) else Get(c, d)) &&
              (d in o.updated <==> today - d < days && DayStories(fetch, today, today - d, midnight).Some?))
  {
    var recs := Load(fetch, Homepage, midnight).value;
    var split := CacheBuckets(c, today, StoriesOf(Buckets(recs).0), StoriesOf(Buckets(recs).1));
    FetchDaysEffect(split.cache, today, 2, days, fetch, midnight, d);
    var o := UpdateStories(c, days, 0, today, midnight, fetch);
    assert o.updated == split.updated + FetchDays(split.cache, today, 2, days, fetch, midnight).updated;
  }

  /**
   * The per-day update (any other `start_day`/`days`): each offset in range is fetched on its
   * own; a loaded day is cached even when empty and listed, a failed one keeps its entry.
   */
  lemma PerDayUpdate(c: Cache, days: int, start: int, today: Day, midnight: int, fetch: Fetcher, d: Day)
    requires !(start == 0 && days >= 2)
    ensures var o := UpdateStories(c, days, start, today, midnight, fetch);
            var k := today - d;
            (Get(o.cache, d) == if start <= k < start + days && DayStories(fetch, today, k, midnight).Some?
                                then DayStories(fetch, today, k, midnight) else Get(c, d)) &&
            (d in o.updated <==> start <= k < start + days && DayStories(fetch, today, k, midnight).Some?)
  {
    FetchDaysEffect(c, today, start, start + days, fetch, midnight, d);
  }

  /** Refreshing only today (`days=1, start_day=0`) caches the homepage's today's stories. */
  lemma RefreshTodayUsesHomepage(c: Cache, today: Day, midnight: int, fetch: Fetcher)
    requires Load(fetch, Homepage, midnight).Some?
    ensures var recs := Load(fetch, Homepage, midnight).value;
            Get(UpdateStories(c, 1, 0, today, midnight, fetch).cache, today) == Some(StoriesOf(Buckets(recs).0))
  {
    PerDayUpdate(c, 1, 0, today, midnight, fetch, today);
  }
}
