/**
 * The hn variant of the app: data is published two days late, the app keeps its own cache of
 * non-empty lists, the filter takes a prefix of the current order, and the table reads the
 * counts with `int()`.
 */
module HnApp {
  import opened Wrappers
  import opened Values
  import opened Stories
  import opened StoryCache
  import opened StableSort
  import opened Filtering
  import opened Sorting
  import opened Ranking
  import opened HckrnewsApp

  /** The latest date with data, and the date the app starts on. */
  function LatestAvailable(today: Day): Day
  {
    today - 2
  }

  /** hn `action_next_day`: one day forward while the date is before the latest available. */
  function HnNextDay(current: Day, today: Day): (d: Day)
    ensures current < today - 2 ==> d == current + 1
    ensures current >= today - 2 ==> d == current
  {
    if current < LatestAvailable(today) then current + 1 else current
  }

  /** The date after a sequence of key presses in the hn app. */
  function HnNavigate(current: Day, today: Day, actions: seq<Nav>): (d: Day)
    ensures current - |actions| <= d <= current + |actions|
    decreases |actions|
  {
    if |actions| == 0 then current
    else
      var next := if actions[0] == Next then HnNextDay(current, today) else PrevDay(current);
      HnNavigate(next, today, actions[1..])
  }

  /** The hn navigation is the hckrnews navigation with the latest day two days back. */
  lemma {:induction false} HnNavigationIsShifted(current: Day, today: Day, actions: seq<Nav>)
    ensures HnNavigate(current, today, actions) == Navigate(current, LatestAvailable(today), actions)
    decreases |actions|
  {
    if |actions| > 0 {
      var next := if actions[0] == Next then HnNextDay(current, today) else PrevDay(current);
      HnNavigationIsShifted(next, today, actions[1..]);
    }
  }

  /** From the initial date no sequence of key presses reaches a date with no data yet. */
  lemma HnNavigationStaysUpToLatest(today: Day, actions: seq<Nav>)
    ensures HnNavigate(LatestAvailable(today), today, actions) <= today - 2
  {
    HnNavigationIsShifted(LatestAvailable(today), today, actions);
    NavigationStaysUpToToday(LatestAvailable(today), LatestAvailable(today), actions);
  }

  /** The app's own cache, keyed by date. */
  type HnCache = map<Day, seq<Story>>

  datatype HnSession = HnSession(cache: HnCache, stories: seq<Story>)

  /** The state after a step, and whether the sort in it raised (the key errors are not caught). */
  datatype Step = Step(session: HnSession, raised: bool)

  /** Every cached list is non-empty: only non-empty results are ever stored. */
  predicate NonEmptyEntries(cache: HnCache)
  {
    forall d :: d in cache ==> |cache[d]| > 0
  }

  /**
   * The in-place `sort_stories()` of a list held under `current`: the sorted list replaces the
   * entry, or, when a key raises, the list stays as it was.
   */
  function SortHeld(cache: HnCache, current: Day, stories: seq<Story>, sort: Option<SortMode>): (r: Step)
    ensures multiset(r.session.stories) == multiset(stories)
    ensures r.session.cache == cache[current := r.session.stories]
    ensures r.raised <==> HnSortStories(stories, sort).Err?
    ensures !r.raised && sort.Some? ==> SortedDesc(r.session.stories, HnKeyOf(sort.value))
    ensures !r.raised && sort.Some? ==> StablySorted(r.session.stories, stories, HnKeyOf(sort.value))
    ensures r.raised ==> r.session.stories == stories
  {
    match HnSortStories(stories, sort)
    case Ok(sorted) => Step(HnSession(cache[current := sorted], sorted), false)
    case Err => Step(HnSession(cache[current := stories], stories), true)
  }

  /**
   * `load_new_stories` then `finish_loading`: the fetched list is cached only when non-empty,
   * then sorted in place (so a cached list is sorted too). `api` stands for the request.
   */
  function HnLoad(cache: HnCache, current: Day, api: Day -> seq<Story>, sort: Option<SortMode>): (r: Step)
    ensures multiset(r.session.stories) == multiset(api(current))
    ensures |api(current)| > 0 ==> r.session.cache == cache[current := r.session.stories]
    ensures |api(current)| == 0 ==> r == Step(HnSession(cache, []), false)
    ensures r.raised <==> sort.Some? && |api(current)| > 0 && !Sortable(api(current), sort.value)
    ensures !r.raised && sort.Some? ==> StablySorted(r.session.stories, api(current), HnKeyOf(sort.value))
  {
    var fetched := api(current);
    if |fetched| > 0 then SortHeld(cache, current, fetched, sort)
    else Step(HnSession(cache, fetched), false)
  }

  /** hn `refresh_stories`: a cached date is shown from the cache, any other date is loaded. */
  function HnRefreshStories(cache: HnCache, current: Day, api: Day -> seq<Story>, sort: Option<SortMode>): (r: Step)
    ensures current in cache ==> multiset(r.session.stories) == multiset(cache[current])
    ensures current in cache ==> r.session.cache == cache[current := r.session.stories]
    ensures current !in cache ==> r == HnLoad(cache, current, api, sort)
    ensures current in cache && !r.raised && sort.Some? ==>
              StablySorted(r.session.stories, cache[current], HnKeyOf(sort.value))
  {
    if current in cache then SortHeld(cache, current, cache[current], sort)
    else HnLoad(cache, current, api, sort)
  }

  /** hn `action_refresh`: the date's key is deleted if present, then the stories are refreshed. */
  function HnRefresh(cache: HnCache, current: Day, api: Day -> seq<Story>, sort: Option<SortMode>): (r: Step)
    ensures r.raised <==> sort.Some? && |api(current)| > 0 && !Sortable(api(current), sort.value)
    ensures forall d :: d != current ==> (d in r.session.cache <==> d in cache)
    ensures !r.raised && sort.Some? ==> StablySorted(r.session.stories, api(current), HnKeyOf(sort.value))
  {
    HnRefreshStories(cache - {current}, current, api, sort)
  }

  /** A cached date never reaches the network. */
  lemma HnHitIgnoresApi(cache: HnCache, current: Day, api: Day -> seq<Story>, api': Day -> seq<Story>, sort: Option<SortMode>)
    requires current in cache
    ensures HnRefreshStories(cache, current, api, sort) == HnRefreshStories(cache, current, api', sort)
  {
  }

  /** A refresh always fetches, shows what the request returned, and keeps the other dates. */
  lemma HnRefreshRefetches(cache: HnCache, current: Day, api: Day -> seq<Story>, sort: Option<SortMode>)
    ensures var r := HnRefresh(cache, current, api, sort);
            multiset(r.session.stories) == multiset(api(current)) &&
            (|api(current)| == 0 ==> current !in r.session.cache) &&
            forall d :: d != current ==> (d in r.session.cache <==> d in cache) && (d in cache ==> r.session.cache[d] == cache[d])
  {
  }

  /** An empty answer is never cached, so the next visit asks the network again. */
  lemma EmptyAnswerIsRetried(cache: HnCache, current: Day, api: Day -> seq<Story>, api': Day -> seq<Story>, sort: Option<SortMode>)
    requires current !in cache && |api(current)| == 0
    ensures var first := HnRefreshStories(cache, current, api, sort);
            HnRefreshStories(first.session.cache, current, api', sort) == HnLoad(cache, current, api', sort)
  {
  }

  /** The cache holds only non-empty lists, whatever is loaded or sorted. */
  lemma CacheStaysNonEmpty(cache: HnCache, current: Day, api: Day -> seq<Story>, sort: Option<SortMode>)
    requires NonEmptyEntries(cache)
    ensures NonEmptyEntries(HnRefreshStories(cache, current, api, sort).session.cache)
  {
    var r := HnRefreshStories(cache, current, api, sort);
    if current in cache {
      assert |r.session.stories| == |multiset(cache[current])|;
    } else if |api(current)| > 0 {
      assert |r.session.stories| == |multiset(api(current))|;
    }
  }

  /** A refresh keeps the cache free of empty lists too. */
  lemma RefreshKeepsCacheNonEmpty(cache: HnCache, current: Day, api: Day -> seq<Story>, sort: Option<SortMode>)
    requires NonEmptyEntries(cache)
    ensures NonEmptyEntries(HnRefresh(cache, current, api, sort).session.cache)
  {
    var cleared := cache - {current};
    assert NonEmptyEntries(cleared);
    CacheStaysNonEmpty(cleared, current, api, sort);
  }

  /**
   * The table's reading of a count: `int(v) if v is not None else 0`. Unlike the sort key it
   * raises on an empty string.
   */
  function IntUnlessNone(v: Value): (r: Result<int>)
    ensures v.NoneVal? ==> r == Ok(0)
    ensures v.IntVal? ==> r == Ok(v.i)
    ensures v.BoolVal? ==> r == Ok(if v.b then 1 else 0)
    ensures v.StrVal? ==> r == ParseIntLiteral(v.s)
    ensures Truthy(v) ==> r == IntOrZero(v)
    ensures v == StrVal("") ==> r.Err?
  {
    if v.NoneVal? then Ok(0)
    else if Truthy(v) then IntOrZero(v)
    else match v
      case IntVal(_) => Ok(0)
      case BoolVal(_) => Ok(0)
      case StrVal(s) => ParseIntLiteral(s)
      case _ => Err
  }

  /** A story whose points are an empty string sorts as 0 but makes the table raise. */
  lemma EmptyPointsSortButDoNotShow()
    ensures IntOrZero(StrVal("")) == Ok(0)
    ensures IntUnlessNone(StrVal("")).Err?
  {
  }

  /** The row of one story, coloured by its rank among `all`; raises when a count cannot be read. */
  function HnLine(s: Story, all: seq<Story>): (r: Result<Line>)
    ensures r.Ok? <==> IntUnlessNone(s.points).Ok? && IntUnlessNone(s.comments).Ok?
    ensures r.Ok? ==> r.value.title == s.title && r.value.colour == StoryStyle(s, all)
    ensures r.Ok? ==> r.value.points == IntUnlessNone(s.points).value && r.value.comments == IntUnlessNone(s.comments).value
  {
    match (IntUnlessNone(s.points), IntUnlessNone(s.comments))
    case (Ok(p), Ok(c)) => Ok(Line(s.title, p, c, StoryStyle(s, all)))
    case _ => Err
  }

  /** The rows of the given stories, in order; raises on the first unreadable count. */
  function HnLinesOf(rows: seq<Story>, all: seq<Story>): (r: Result<seq<Line>>)
    ensures r.Ok? <==> forall i :: 0 <= i < |rows| ==> HnLine(rows[i], all).Ok?
    ensures r.Ok? ==> |r.value| == |rows|
    ensures r.Ok? ==> forall i :: 0 <= i < |rows| ==> r.value[i] == HnLine(rows[i], all).value
    decreases |rows|
  {
    if |rows| == 0 then Ok([])
    else
      match HnLine(rows[0], all)
      case Err => Err
      case Ok(line) =>
        (match HnLinesOf(rows[1..], all)
         case Ok(rest) =>
           HnLinesCons(rows, all, line, rest);
           Ok([line] + rest)
         case Err =>
           HnLinesTailFails(rows, all);
           Err)
  }

  /** The lines of a list are the first story's line followed by the lines of the rest. */
  lemma HnLinesCons(rows: seq<Story>, all: seq<Story>, line: Line, rest: seq<Line>)
    requires |rows| > 0 && HnLine(rows[0], all) == Ok(line)
    requires |rest| == |rows| - 1
    requires forall i :: 0 <= i < |rows[1..]| ==> HnLine(rows[1..][i], all).Ok? && rest[i] == HnLine(rows[1..][i], all).value
    ensures forall i :: 0 <= i < |rows| ==> HnLine(rows[i], all).Ok? && ([line] + rest)[i] == HnLine(rows[i], all).value
  {
    forall i | 1 <= i < |rows|
      ensures HnLine(rows[i], all).Ok? && ([line] + rest)[i] == HnLine(rows[i], all).value
    {
      assert rows[i] == rows[1..][i - 1];
    }
  }

  /** A story of the rest whose line cannot be built is one of the whole list. */
  lemma HnLinesTailFails(rows: seq<Story>, all: seq<Story>)
    requires |rows| > 0
    requires !(forall i :: 0 <= i < |rows[1..]| ==> HnLine(rows[1..][i], all).Ok?)
    ensures !(forall i :: 0 <= i < |rows| ==> HnLine(rows[i], all).Ok?)
  {
    var i :| 0 <= i < |rows[1..]| && HnLine(rows[1..][i], all).Err?;
    assert rows[i + 1] == rows[1..][i];
  }

  /**
   * hn `populate_table(refresh_data=True)`: a row for every story of the prefix, coloured by
   * its rank among all the day's stories; raises if a count cannot be read.
   */
  function HnPopulateTable(stories: seq<Story>, mode: FilterMode): (r: Result<Table>)
    ensures |stories| == 0 ==> r == Ok(NoStoriesFound)
    ensures r == Ok(NoStoriesFound) <==> Min(Quota(mode, |stories|), |stories|) == 0
    ensures r.Ok? && r.value.Lines? ==> |r.value.lines| == Min(Quota(mode, |stories|), |stories|)
    ensures r.Ok? && r.value.Lines? ==> forall i :: 0 <= i < |r.value.lines| ==>
              r.value.lines[i].title == stories[i].title && r.value.lines[i].colour == StoryStyle(stories[i], stories)
    ensures r.Err? <==> |PrefixFilter(stories, mode)| > 0 && HnLinesOf(PrefixFilter(stories, mode), stories).Err?
    ensures r.Ok? && r.value.Lines? ==> r.value.lines == HnLinesOf(PrefixFilter(stories, mode), stories).value
  {
    var filtered := PrefixFilter(stories, mode);
    if |stories| == 0 || |filtered| == 0 then Ok(NoStoriesFound)
    else
      match HnLinesOf(filtered, stories)
      case Ok(lines) => Ok(Lines(lines))
      case Err => Err
  }

  /** hn `open_selected_item`: row `row` of the prefix, or nothing past its end. */
  function HnSelectedStory(stories: seq<Story>, mode: FilterMode, row: nat): (r: Option<Story>)
    ensures r.Some? <==> row < Min(Quota(mode, |stories|), |stories|)
    ensures r.Some? ==> r.value == stories[row]
  {
    var filtered := PrefixFilter(stories, mode);
    if |stories| == 0 || row >= |filtered| then None else Some(filtered[row])
  }

  /** In the hn app every row opens the story it shows. */
  lemma HnRowOpensItsStory(stories: seq<Story>, mode: FilterMode, row: nat)
    requires HnPopulateTable(stories, mode).Ok? && HnPopulateTable(stories, mode).value.Lines?
    requires row < |HnPopulateTable(stories, mode).value.lines|
    ensures HnSelectedStory(stories, mode, row).Some?
    ensures HnPopulateTable(stories, mode).value.lines[row].title == HnSelectedStory(stories, mode, row).value.title
  {
  }
}
