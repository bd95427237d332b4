/**
 * The class-level story cache of `HckrnewsAPI` and its read-through `get_stories`. The cache
 * is keyed by the `YYYY-MM-DD` string of a date; that formatting is injective on dates, so
 * keying by day number names the same entries.
 */
module StoryCache {
  import opened Wrappers
  import opened Stories

  /** A date as a day number. */
  type Day = int

  datatype Cache = Cache(entries: map<Day, seq<Story>>)

  /** Every entry except the one for `d` is the same in both caches. */
  ghost predicate SameExcept(c: Cache, c': Cache, d: Day)
  {
    forall e :: e != d ==> (e in c.entries <==> e in c'.entries) && (e in c.entries ==> c.entries[e] == c'.entries[e])
  }

  /** `cache_stories(date, stories)`. */
  function Put(c: Cache, d: Day, stories: seq<Story>): (c': Cache)
    ensures d in c'.entries && c'.entries[d] == stories
    ensures SameExcept(c, c', d)
  {
    Cache(c.entries[d := stories])
  }

  /** `get_cached_stories(date)`: the stored list, or `None` when the date has no entry. */
  function Get(c: Cache, d: Day): (r: Option<seq<Story>>)
    ensures r.Some? <==> d in c.entries
    ensures r.Some? ==> r.value == c.entries[d]
  {
    if d in c.entries then Some(c.entries[d]) else None
  }

  /** `clear_cache_for_date(date)`: drops the entry and reports whether there was one. */
  function ClearForDate(c: Cache, d: Day): (r: (Cache, bool))
    ensures r.1 <==> d in c.entries
    ensures d !in r.0.entries
    ensures SameExcept(c, r.0, d)
  {
    (Cache(c.entries - {d}), d in c.entries)
  }

  /** `clear_all_cache()`. */
  function ClearAll(c: Cache): (c': Cache)
    ensures forall d :: Get(c', d) == None
  {
    Cache(map[])
  }

  /** A stored list is read back, and no other date's answer changes. */
  lemma PutThenGet(c: Cache, d: Day, stories: seq<Story>, e: Day)
    ensures Get(Put(c, d, stories), e) == if e == d then Some(stories) else Get(c, e)
  {
  }

  /** A stored empty list is an answer of its own, not the `None` of a missing date. */
  lemma StoredEmptyIsNotMissing(c: Cache, d: Day)
    ensures Get(Put(c, d, []), d) == Some([])
    ensures Get(ClearForDate(c, d).0, d) == None
  {
  }

  /** Clearing right after storing forgets the stored list and reports that there was one. */
  lemma ClearUndoesPut(c: Cache, d: Day, stories: seq<Story>)
    ensures ClearForDate(Put(c, d, stories), d).1
    ensures ClearForDate(Put(c, d, stories), d).0 == ClearForDate(c, d).0
  {
  }

  /** Clearing a date twice: the second clear finds nothing and changes nothing. */
  lemma ClearTwice(c: Cache, d: Day)
    ensures !ClearForDate(ClearForDate(c, d).0, d).1
    ensures ClearForDate(ClearForDate(c, d).0, d).0 == ClearForDate(c, d).0
  {
  }

  /** What a request for the stories of a day got back from the network. */
  datatype Payload = ListPayload(stories: seq<Story>) | OtherPayload
  datatype FetchResult = Fetched(payload: Payload) | FetchFailed

  /** The date `get_stories` works on: the given one, or today. */
  function DateOrToday(date: Option<Day>, today: Day): Day
  {
    if date.Some? then date.value else today
  }

  /**
   * `get_stories(date)`: the cached list when the date has an entry; otherwise the fetched
   * list, which is cached; otherwise, for a payload that is not a list or a failed request,
   * `[]` with the cache untouched. `fetch` stands for the request for a day.
   */
  function GetStories(c: Cache, date: Option<Day>, today: Day, fetch: Day -> FetchResult): (r: (seq<Story>, Cache))
    ensures var d := DateOrToday(date, today);
            d in c.entries ==> r == (c.entries[d], c)
    ensures var d := DateOrToday(date, today);
            d !in c.entries && fetch(d).Fetched? && fetch(d).payload.ListPayload? ==>
              r == (fetch(d).payload.stories, Put(c, d, fetch(d).payload.stories))
    ensures var d := DateOrToday(date, today);
            d !in c.entries && !(fetch(d).Fetched? && fetch(d).payload.ListPayload?) ==> r == ([], c)
  {
    var d := DateOrToday(date, today);
    if d in c.entries then (c.entries[d], c)
    else match fetch(d)
      case Fetched(ListPayload(stories)) => (stories, Put(c, d, stories))
      case _ => ([], c)
  }

  /** On a cache hit the network is never consulted: any fetch gives the same answer. */
  lemma HitIgnoresFetch(c: Cache, date: Option<Day>, today: Day, fetch: Day -> FetchResult, fetch': Day -> FetchResult)
    requires DateOrToday(date, today) in c.entries
    ensures GetStories(c, date, today, fetch) == GetStories(c, date, today, fetch')
  {
  }

  /** `get_stories` only adds entries: every date already cached keeps its list. */
  lemma GetStoriesOnlyAdds(c: Cache, date: Option<Day>, today: Day, fetch: Day -> FetchResult)
    ensures var c' := GetStories(c, date, today, fetch).1;
            forall e :: e in c.entries ==> e in c'.entries && c'.entries[e] == c.entries[e]
  {
  }

  /**
   * Once a day has been served from a list, asking again is a cache hit: the same stories
   * come back whatever the network does next.
   */
  lemma SecondRequestIsServedFromCache(c: Cache, date: Option<Day>, today: Day, fetch: Day -> FetchResult, fetch': Day -> FetchResult)
    requires var d := DateOrToday(date, today);
             d in c.entries || (fetch(d).Fetched? && fetch(d).payload.ListPayload?)
    ensures var first := GetStories(c, date, today, fetch);
            GetStories(first.1, date, today, fetch') == first
  {
  }

  /** A failed request is retried next time: the cache stays without the date. */
  lemma FailureIsNotCached(c: Cache, date: Option<Day>, today: Day, fetch: Day -> FetchResult)
    requires DateOrToday(date, today) !in c.entries
    requires fetch(DateOrToday(date, today)) == FetchFailed
    ensures GetStories(c, date, today, fetch) == ([], c)
    ensures DateOrToday(date, today) !in GetStories(c, date, today, fetch).1.entries
  {
  }

  const CommentUrlPrefix := "https://news.ycombinator.com/item?id="

  /** `get_comment_url(story_id)`. */
  function CommentUrl(id: string): (r: string)
    ensures |r| == |CommentUrlPrefix| + |id|
    ensures r[..|CommentUrlPrefix|] == CommentUrlPrefix && r[|CommentUrlPrefix|..] == id
  {
    CommentUrlPrefix + id
  }

  /** Different stories get different comment pages. */
  lemma CommentUrlInjective(a: string, b: string)
    ensures CommentUrl(a) == CommentUrl(b) ==> a == b
  {
    if CommentUrl(a) == CommentUrl(b) {
      assert a == CommentUrl(a)[|CommentUrlPrefix|..];
    }
  }
}
