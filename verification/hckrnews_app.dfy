/**
 * The decisions of the hckrnews app: day navigation, when the cache is reused and when it is
 * refreshed, what the table shows, and which story a row opens. The list on screen is the
 * very list object held in the cache whenever it came from there, so sorting it in place
 * rewrites the cache entry.
 */
module HckrnewsApp {
  import opened Wrappers
  import opened Values
  import opened Text
  import opened Stories
  import opened Seqs
  import opened StoryCache
  import opened Scraper
  import opened Update
  import opened Filtering
  import opened Sorting
  import opened Ranking
  import opened StableSort

  /** The next-day and previous-day keys (`k` and `j` in this app; the hn app swaps them). */
  datatype Nav = Next | Prev

  /** `action_next_day`: one day forward, but only while the date is before today. */
  function NextDay(current: Day, today: Day): (d: Day)
    ensures current < today ==> d == current + 1
    ensures current >= today ==> d == current
  {
    if current < today then current + 1 else current
  }

  /** `action_prev_day`: always one day back. */
  function PrevDay(current: Day): (d: Day)
    ensures d == current - 1
  {
    current - 1
  }

  /** The date after a sequence of key presses. */
  function Navigate(current: Day, today: Day, actions: seq<Nav>): (d: Day)
    ensures current - |actions| <= d <= current + |actions|
    decreases |actions|
  {
    if |actions| == 0 then current
    else
      var next := if actions[0] == Next then NextDay(current, today) else PrevDay(current);
      Navigate(next, today, actions[1..])
  }

  /** The same key pressed `n` times. */
  function Repeat(a: Nav, n: nat): (r: seq<Nav>)
    ensures |r| == n
    ensures forall i :: 0 <= i < n ==> r[i] == a
  {
    if n == 0 then [] else [a] + Repeat(a, n - 1)
  }

  /** Starting from today (the initial date), no sequence of key presses moves past today. */
  lemma {:induction false} NavigationStaysUpToToday(current: Day, today: Day, actions: seq<Nav>)
    requires current <= today
    ensures Navigate(current, today, actions) <= today
    decreases |actions|
  {
    if |actions| > 0 {
      var next := if actions[0] == Next then NextDay(current, today) else PrevDay(current);
      NavigationStaysUpToToday(next, today, actions[1..]);
    }
  }

  /** Pressing keys in two runs is pressing them all in one. */
  lemma {:induction false} NavigateAppend(current: Day, today: Day, a: seq<Nav>, b: seq<Nav>)
    ensures Navigate(current, today, a + b) == Navigate(Navigate(current, today, a), today, b)
    decreases |a|
  {
    if |a| == 0 {
      assert a + b == b;
    } else {
      var next := if a[0] == Next then NextDay(current, today) else PrevDay(current);
      assert (a + b)[0] == a[0];
      assert (a + b)[1..] == a[1..] + b;
      NavigateAppend(next, today, a[1..], b);
    }
  }

  /** The previous-day key pressed `n` times goes back `n` days. */
  lemma {:induction false} PrevsGoBack(current: Day, today: Day, n: nat)
    ensures Navigate(current, today, Repeat(Prev, n)) == current - n
    decreases n
  {
    if n > 0 {
      assert Repeat(Prev, n)[1..] == Repeat(Prev, n - 1);
      PrevsGoBack(current - 1, today, n - 1);
    }
  }

  /** The next-day key pressed `n` times goes `n` days forward as long as that does not pass today. */
  lemma {:induction false} NextsGoForward(current: Day, today: Day, n: nat)
    requires current + n <= today
    ensures Navigate(current, today, Repeat(Next, n)) == current + n
    decreases n
  {
    if n > 0 {
      assert Repeat(Next, n)[1..] == Repeat(Next, n - 1);
      NextsGoForward(current + 1, today, n - 1);
    }
  }

  /** Pressing the next-day key as often as the previous-day key returns to the day one started from. */
  lemma NextUndoesPrev(current: Day, today: Day, n: nat)
    requires current <= today
    ensures Navigate(current, today, Repeat(Prev, n) + Repeat(Next, n)) == current
  {
    NavigateAppend(current, today, Repeat(Prev, n), Repeat(Next, n));
    PrevsGoBack(current, today, n);
    NextsGoForward(current - n, today, n);
  }

  /** Pressing the next-day key on today changes nothing. */
  lemma NextOnTodayStays(today: Day, n: nat)
    ensures Navigate(today, today, Repeat(Next, n)) == today
  {
    NextOnTodayStaysFrom(today, n);
  }

  lemma {:induction false} NextOnTodayStaysFrom(today: Day, n: nat)
    ensures Navigate(today, today, Repeat(Next, n)) == today
    decreases n
  {
    if n > 0 {
      assert Repeat(Next, n)[1..] == Repeat(Next, n - 1);
      NextOnTodayStaysFrom(today, n - 1);
    }
  }

  /** What the app holds: the shared story cache and the list on screen. */
  datatype Session = Session(cache: Cache, stories: seq<Story>)

  /**
   * `self.stories = get_stories(current_date)` followed by `sort_stories()`. When the date is
   * cached afterwards, the list on screen is the cached list object, and the in-place sort
   * rewrites the entry; `api` stands for the request for a day.
   */
  function LoadStories(c: Cache, current: Day, today: Day, api: Day -> FetchResult, sort: Option<SortMode>): (s: Session)
    ensures multiset(s.stories) == multiset(GetStories(c, Some(current), today, api).0)
    ensures sort.Some? ==> SortedDesc(s.stories, KeyOf(sort.value))
    ensures current in s.cache.entries <==> current in c.entries || (api(current).Fetched? && api(current).payload.ListPayload?)
    ensures current in s.cache.entries ==> s.cache.entries[current] == s.stories
    ensures current !in s.cache.entries ==> s.stories == []
    ensures forall e :: e != current ==> Get(s.cache, e) == Get(c, e)
  {
    var got := GetStories(c, Some(current), today, api);
    var sorted := SortStories(got.0, sort);
    if current in got.1.entries then Session(Put(got.1, current, sorted), sorted) else Session(got.1, sorted)
  }

  /**
   * `refresh_stories()`: a non-empty cached list is sorted and shown at once; an empty or
   * missing entry goes through `perform_load_new_stories`.
   */
  function RefreshStories(c: Cache, current: Day, today: Day, api: Day -> FetchResult, sort: Option<SortMode>): (s: Session)
    ensures current in c.entries && |c.entries[current]| > 0 ==>
              multiset(s.stories) == multiset(c.entries[current]) && s.cache == Put(c, current, s.stories)
  {
    var cached := Get(c, current);
    if cached.Some? && |cached.value| > 0 then
      var sorted := SortStories(cached.value, sort);
      Session(Put(c, current, sorted), sorted)
    else
      LoadStories(c, current, today, api, sort)
  }

  /** The shortcut through the cache shows exactly what a full load would. */
  lemma RefreshStoriesIsLoad(c: Cache, current: Day, today: Day, api: Day -> FetchResult, sort: Option<SortMode>)
    ensures RefreshStories(c, current, today, api, sort) == LoadStories(c, current, today, api, sort)
  {
  }

  /**
   * Coming back to a day that was shown from the cache shows the same list again, whatever
   * the network does by then.
   */
  lemma ReturningShowsSameStories(c: Cache, current: Day, today: Day, api: Day -> FetchResult, api': Day -> FetchResult, sort: Option<SortMode>)
    requires current in LoadStories(c, current, today, api, sort).cache.entries
    ensures var first := LoadStories(c, current, today, api, sort);
            LoadStories(first.cache, current, today, api', sort) == first
  {
    var first := LoadStories(c, current, today, api, sort);
    SortStoriesIdempotent(GetStories(c, Some(current), today, api).0, sort);
  }

  /**
   * `action_sort_by_*`: the list on screen is re-sorted in place, so a cached list is
   * rewritten too.
   */
  function ChangeSort(s: Session, current: Day, sort: SortMode): (s': Session)
    ensures multiset(s'.stories) == multiset(s.stories)
    ensures SortedDesc(s'.stories, KeyOf(sort))
    ensures current in s.cache.entries && s.cache.entries[current] == s.stories ==>
              s'.cache == Put(s.cache, current, s'.stories)
    ensures current !in s.cache.entries ==> s'.cache == s.cache
  {
    var sorted := SortStories(s.stories, Some(sort));
    if current in s.cache.entries then Session(Put(s.cache, current, sorted), sorted) else Session(s.cache, sorted)
  }

  /**
   * The offset `perform_refresh` re-scrapes from: 0 for today, 1 for yesterday, and no
   * re-scrape for any other day.
   */
  function RefreshStartDay(current: Day, today: Day): (r: Option<int>)
    ensures r.Some? <==> current == today || current == today - 1
    ensures r.Some? ==> 0 <= r.value <= 1 && current == today - r.value
  {
    if current == today || current == today - 1 then Some(today - current) else None
  }

  /**
   * `action_refresh` then `perform_refresh`: the date's entry is dropped; today and yesterday
   * are scraped again (`update_stories(days=1, start_day=...)`); then the stories are loaded
   * as usual. `pages` is the scraper's fetcher and `api` the JSON request.
   */
  function Refresh(c: Cache, current: Day, today: Day, midnight: int, pages: Fetcher, api: Day -> FetchResult,
                   sort: Option<SortMode>): (s: Session)
    ensures sort.Some? ==> SortedDesc(s.stories, KeyOf(sort.value))
    ensures current in s.cache.entries ==> s.cache.entries[current] == s.stories
    ensures current !in s.cache.entries ==> s.stories == []
  {
    var cleared := ClearForDate(c, current).0;
    var updated := match RefreshStartDay(current, today)
      case Some(start) => UpdateStories(cleared, 1, start, today, midnight, pages).cache
      case None => cleared;
    LoadStories(updated, current, today, api, sort)
  }

  /** What a refresh finds for the date: the re-scraped page, else the JSON request, else nothing. */
  function RefreshSource(current: Day, today: Day, midnight: int, pages: Fetcher, api: Day -> FetchResult): seq<Story>
  {
    if RefreshStartDay(current, today).Some? && DayStories(pages, today, today - current, midnight).Some? then
      DayStories(pages, today, today - current, midnight).value
    else if api(current).Fetched? && api(current).payload.ListPayload? then
      api(current).payload.stories
    else []
  }

  /**
   * A refresh shows the stories of its source, never the stale entry, and touches no other
   * date's entry.
   */
  lemma RefreshShowsSource(c: Cache, current: Day, today: Day, midnight: int, pages: Fetcher, api: Day -> FetchResult,
                           sort: Option<SortMode>, e: Day)
    ensures var s := Refresh(c, current, today, midnight, pages, api, sort);
            multiset(s.stories) == multiset(RefreshSource(current, today, midnight, pages, api)) &&
            (e != current ==> Get(s.cache, e) == Get(c, e))
  {
    var cleared := ClearForDate(c, current).0;
    match RefreshStartDay(current, today)
    case Some(start) =>
      PerDayUpdate(cleared, 1, start, today, midnight, pages, current);
      PerDayUpdate(cleared, 1, start, today, midnight, pages, e);
    case None =>
  }

  /** Whatever was cached for the date before, the refresh comes out the same. */
  lemma RefreshIgnoresStaleEntry(c: Cache, current: Day, today: Day, midnight: int, pages: Fetcher, api: Day -> FetchResult,
                                 sort: Option<SortMode>, stale: seq<Story>)
    ensures Refresh(Put(c, current, stale), current, today, midnight, pages, api, sort)
         == Refresh(c, current, today, midnight, pages, api, sort)
  {
    ClearUndoesPut(c, current, stale);
  }

  /**
   * `perform_initial_load`: `update_stories(days=2)` (the homepage, split into today and
   * yesterday), then the stories of the date on screen.
   */
  function InitialLoad(c: Cache, current: Day, today: Day, midnight: int, pages: Fetcher, api: Day -> FetchResult,
                       sort: Option<SortMode>): (s: Session)
    ensures forall d :: d in c.entries ==> d in s.cache.entries
    ensures sort.Some? ==> SortedDesc(s.stories, KeyOf(sort.value))
    ensures current in s.cache.entries ==> s.cache.entries[current] == s.stories
  {
    LoadStories(UpdateStories(c, 2, 0, today, midnight, pages).cache, current, today, api, sort)
  }

  /** On start-up (the date is today) the app shows today's stories from the homepage when there are any. */
  lemma InitialLoadShowsTodaysHomepage(c: Cache, today: Day, midnight: int, pages: Fetcher, api: Day -> FetchResult,
                                       sort: Option<SortMode>)
    requires Load(pages, Homepage, midnight).Some?
    requires |StoriesOf(Buckets(Load(pages, Homepage, midnight).value).0)| > 0
    ensures multiset(InitialLoad(c, today, today, midnight, pages, api, sort).stories)
         == multiset(StoriesOf(Buckets(Load(pages, Homepage, midnight).value).0))
  {
    CombinedUpdate(c, 2, today, midnight, pages, today);
  }

  /** When the homepage fails on start-up nothing is updated, and the stories come from the old cache or the JSON request. */
  lemma InitialLoadWithoutHomepage(c: Cache, current: Day, today: Day, midnight: int, pages: Fetcher, api: Day -> FetchResult,
                                   sort: Option<SortMode>)
    requires Load(pages, Homepage, midnight).None?
    ensures InitialLoad(c, current, today, midnight, pages, api, sort) == LoadStories(c, current, today, api, sort)
  {
    HomepageFailureSkipsOlderDays(c, 2, today, midnight, pages);
  }

  /** One table row: the title, the two counts, and the colour of the story's rank. */
  datatype Line = Line(title: Value, points: int, comments: int, colour: Colour)

  /** The table: the "No stories found" message, or the rows of the titled filtered stories. */
  datatype Table = NoStoriesFound | Lines(lines: seq<Line>)

  /** The stories that get a row: the filtered ones with a title, in list order. */
  function DisplayRows(stories: seq<Story>, mode: FilterMode): (r: seq<Story>)
    ensures forall i :: 0 <= i < |r| ==> HasTitle(r[i])
    ensures IsSubseq(r, stories)
  {
    FilterIsSubseq(FilterStories(stories, mode), HasTitle);
    SubseqTrans(Filter(FilterStories(stories, mode), HasTitle), FilterStories(stories, mode), stories);
    Filter(FilterStories(stories, mode), HasTitle)
  }

  /** The row of a story; its colour is its rank among all the stories of the day, not the filtered ones. */
  function LineOf(story: Story, all: seq<Story>): (l: Line)
    ensures l.title == story.title
    ensures l.points == GetIntValue(story.points, 0) && l.comments == GetIntValue(story.comments, 0)
    ensures l.colour == StoryStyle(story, all)
    ensures story.points.IntVal? ==> l.points == story.points.i
    ensures story.comments.IntVal? ==> l.comments == story.comments.i
    ensures story.points.StrVal? && IsDigits(story.points.s) ==> l.points == DigitsValue(story.points.s)
    ensures story.comments.StrVal? && IsDigits(story.comments.s) ==> l.comments == DigitsValue(story.comments.s)
    ensures !story.points.IntVal? ==> l.points >= 0
    ensures !story.comments.IntVal? ==> l.comments >= 0
  {
    Line(story.title, GetIntValue(story.points, 0), GetIntValue(story.comments, 0), StoryStyle(story, all))
  }

  /** `populate_table(refresh_data=True)`. */
  function PopulateTable(stories: seq<Story>, mode: FilterMode): (t: Table)
    ensures t == NoStoriesFound <==> |FilterStories(stories, mode)| == 0
    ensures t.Lines? ==> |t.lines| == |DisplayRows(stories, mode)|
    ensures t.Lines? ==> forall i :: 0 <= i < |t.lines| ==> t.lines[i] == LineOf(DisplayRows(stories, mode)[i], stories)
  {
    if |stories| == 0 || |FilterStories(stories, mode)| == 0 then NoStoriesFound
    else
      var rows := DisplayRows(stories, mode);
      Lines(seq(|rows|, i requires 0 <= i < |rows| => LineOf(rows[i], stories)))
  }

  /**
   * `populate_table(refresh_data)` drawn over the table on screen: the filter and sort keys
   * pass `refresh_data=False`, and then an empty list leaves the table as it was.
   */
  function Redraw(shown: Table, stories: seq<Story>, mode: FilterMode, refreshData: bool): (t: Table)
    ensures |stories| > 0 || refreshData ==> t == PopulateTable(stories, mode)
    ensures |stories| == 0 && !refreshData ==> t == shown
  {
    if |stories| == 0 && !refreshData then shown else PopulateTable(stories, mode)
  }

  /**
   * A key that redraws without refreshing, right after a full draw of the same list, shows
   * what a full draw in the new mode shows: on an empty list both read "No stories found".
   */
  lemma RedrawAfterLoad(stories: seq<Story>, oldMode: FilterMode, mode: FilterMode)
    ensures Redraw(PopulateTable(stories, oldMode), stories, mode, false) == PopulateTable(stories, mode)
  {
  }

  /**
   * With unique ids every story a top mode keeps has a title, so each gets a row: as many
   * rows as the quota allows, and the message only when the quota admits none.
   */
  lemma TopModeTable(stories: seq<Story>, mode: FilterMode)
    requires UniqueIds(stories) && mode != ShowAll
    ensures DisplayRows(stories, mode) == FilterStories(stories, mode)
    ensures PopulateTable(stories, mode) == NoStoriesFound <==> Min(Quota(mode, |Titled(stories)|), |Titled(stories)|) == 0
    ensures PopulateTable(stories, mode).Lines? ==>
              |PopulateTable(stories, mode).lines| == Min(Quota(mode, |Titled(stories)|), |Titled(stories)|)
  {
    AllKeptAreTitled(stories, mode);
    if |stories| > 0 {
      TopModeCount(stories, mode);
    } else {
      assert Titled(stories) == [];
    }
  }

  /** With unique ids every story the filter keeps has a title, in every mode. */
  lemma AllKeptAreTitled(stories: seq<Story>, mode: FilterMode)
    requires UniqueIds(stories)
    ensures Filter(FilterStories(stories, mode), HasTitle) == FilterStories(stories, mode)
  {
    var f := FilterStories(stories, mode);
    forall i | 0 <= i < |f|
      ensures HasTitle(f[i])
    {
      if mode == ShowAll {
        assert f[i] in f;
      } else {
        TopModeTitled(stories, mode, f[i]);
      }
    }
    FilterKeepsAll(f, HasTitle);
  }

  /** Deleting in two rounds is deleting. */
  lemma {:induction false} SubseqTrans(a: seq<Story>, b: seq<Story>, c: seq<Story>)
    requires IsSubseq(a, b) && IsSubseq(b, c)
    ensures IsSubseq(a, c)
    decreases |c|
  {
    if |a| > 0 {
      assert |c| > 0;
      if |b| > 0 && b[0] == c[0] && IsSubseq(b[1..], c[1..]) {
        if a[0] == b[0] && IsSubseq(a[1..], b[1..]) {
          SubseqTrans(a[1..], b[1..], c[1..]);
        } else {
          SubseqTrans(a, b[1..], c[1..]);
        }
      } else {
        SubseqTrans(a, b, c[1..]);
      }
    }
  }

  /**
   * The story the cursor row opens, as written: row `row` of the filtered list, which still
   * holds the untitled stories the table skipped.
   */
  function SelectedStory(stories: seq<Story>, mode: FilterMode, row: nat): (r: Option<Story>)
    ensures r.Some? <==> row < |FilterStories(stories, mode)|
    ensures r.Some? ==> r.value == FilterStories(stories, mode)[row]
  {
    if |stories| == 0 then None
    else
      var filtered := FilterStories(stories, mode);
      if row >= |filtered| then None else Some(filtered[row])
  }

  /** The story the cursor row shows: the one whose row it is. */
  function SelectedDisplayedStory(stories: seq<Story>, mode: FilterMode, row: nat): (r: Option<Story>)
    ensures r.Some? <==> row < |DisplayRows(stories, mode)|
    ensures r.Some? ==> r.value == DisplayRows(stories, mode)[row]
  {
    var rows := DisplayRows(stories, mode);
    if row >= |rows| then None else Some(rows[row])
  }

  /** Every row of the table opens the story it shows. */
  lemma DisplayedSelectionMatchesTable(stories: seq<Story>, mode: FilterMode, row: nat)
    requires PopulateTable(stories, mode).Lines? && row < |PopulateTable(stories, mode).lines|
    ensures SelectedDisplayedStory(stories, mode, row).Some?
    ensures PopulateTable(stories, mode).lines[row] == LineOf(SelectedDisplayedStory(stories, mode, row).value, stories)
  {
  }

  /** With unique ids the two readings agree: the row opens the story it shows. */
  lemma SelectionAgreesWithUniqueIds(stories: seq<Story>, mode: FilterMode, row: nat)
    requires UniqueIds(stories)
    ensures SelectedStory(stories, mode, row) == SelectedDisplayedStory(stories, mode, row)
  {
    AllKeptAreTitled(stories, mode);
  }

  /**
   * An untitled story sharing its id with a titled top story is kept by the top-10 filter
   * but gets no row; the first row then shows the titled story and opens the untitled one.
   */
  lemma SelectionOpensHiddenStory(id: Value)
    ensures var untitled := Story(id, IntVal(1), NoneVal, StrVal("a"), NoneVal, NoneVal, NoneVal);
            var titled := Story(id, IntVal(5), NoneVal, StrVal("b"), StrVal("t"), NoneVal, NoneVal);
            DisplayRows([untitled, titled], Top10) == [titled] &&
            SelectedStory([untitled, titled], Top10, 0) == Some(untitled) &&
            SelectedDisplayedStory([untitled, titled], Top10, 0) == Some(titled)
  {
    var untitled := Story(id, IntVal(1), NoneVal, StrVal("a"), NoneVal, NoneVal, NoneVal);
    var titled := Story(id, IntVal(5), NoneVal, StrVal("b"), StrVal("t"), NoneVal, NoneVal);
    var xs := [untitled, titled];
    assert xs[1..] == [titled] && xs[1..][1..] == [];
    assert Filter(xs[1..][1..], HasTitle) == [];
    assert Filter(xs[1..], HasTitle) == [titled];
    assert Titled(xs) == [titled];
    assert Ranked(xs) == [titled];
    assert TopIds(xs, Top10) == {id} by {
      assert Ranked(xs)[..Admitted(xs, Top10)] == [titled];
    }
    assert FilterStories(xs, Top10) == xs;
  }
}
