# hckrnews in Dafny

hckrnews is a terminal reader for the daily Hacker News digests of hckrnews.com. It comes as two
apps that share most of their logic:

- the `hckrnews` app, which scrapes the site's homepage and archive pages and caches a list of
  stories per day;
- the older `hn` app, which reads the JSON feed two days late and keeps its own cache.

This project models the part of both apps that decides what is shown. Network, HTML and the
terminal UI are left aside. The model covers:

- how story fields are read as numbers;
- how dates become URL and cache keys;
- the "time ago" labels;
- the colour a story gets from its points rank;
- the top-10 / top-20 / top-half / all filters;
- the stable sorts by points, comments or date;
- the date-keyed story cache and its read-through `get_stories`;
- the page parser that splits today's stories from yesterday's;
- the update planner that decides which pages are fetched and what gets cached;
- day navigation, refresh and row selection in both apps;
- the version arithmetic and the string rewrites of the release script `bump_version.py`.

A story is a record of Python field values (`Values.Value`): an int, a bool, a str, `None`, or
a value of another type that is only known to be truthy or falsy. Exceptions become the `Err`
case of `Wrappers.Result`. The clock is a parameter: "today" is a day number and "today's
midnight" a timestamp. The network is a function from a day or page to a result that may be a
failure. HTML pages are sequences of pre-classified rows.

Modules, one per concern:

| module | models |
|---|---|
| `Values`, `Text`, `Seqs`, `Wrappers` | Python values, truthiness, `int()`, `str()`, `strip`, `find`, `replace`, `split`/`join`, list comprehensions |
| `DateFormat` | `format_date_for_url`, `format_date_for_cache_key` |
| `TimeAgo` | both `format_time_ago` variants |
| `StableSort` | a stable descending sort and its characterisation, the behaviour of `sorted(..., reverse=True)` |
| `Stories`, `Ranking` | story records, `get_story_style` |
| `Filtering`, `Sorting` | both `filter_stories` and both `sort_stories` |
| `StoryCache` | the `HckrnewsAPI` cache and `get_stories` |
| `Scraper`, `Update` | `parse_stories` and `update_stories` |
| `HckrnewsApp`, `HnApp` | navigation, loading, refresh, table and selection of each app |
| `Selection` | the URL `open_selected_item` opens |
| `BumpVersion` | `parse_version`, `increment_version`, `update_user_agent`, `update_pyproject_toml` |

Where the docstrings and the code disagree, the model follows the code:

- An unranked story (rank -1) is coloured bright yellow.
- The exception fallback of the style is white.
- A failed homepage fetch in the combined update skips every older day too.
- Ties at a tier boundary are decided by the order the caller passes in.

## Model

| member | source | states |
|---|---|---|
| Values.GetIntValue | hckrnews/utils.py:24-33 | an int is returned as it is, negative ones included; a bool gives 0 or 1; a str that is an ASCII digit string gives its value and any other str the default; `None` and values of other types give the default (hn/utils.py is an identical copy) |
| Values.GetIntValueReadsDecimal | hckrnews/utils.py:30-31 | the decimal spelling of a natural number is read back as that number |
| Values.GetIntValueIdempotent | hckrnews/utils.py:24-33 | storing the result back under the key and reading it again gives the same int |
| Values.ParseIntLiteral | hn/app.py:298 | `int(s)` succeeds exactly when the stripped string is ASCII digits with at most one leading sign; it is then the value of the digits, negated after a minus sign, so `int("abc")` and `int("")` raise |
| Values.ParseIntLiteralReadsStr | hn/app.py:298 | `int()` reads back `str(n)` as `n` for every int, with any whitespace padding on either side |
| Values.IntOrZero | hn/app.py:176 | `int(v or 0)`: every falsy value gives 0, an int itself, a bool 0 or 1, a non-empty str whatever `int()` gives, and a truthy value of an unsupported type raises |
| Values.CoercionsAgree | hn/app.py:176-180 | on ints, bools, `None` and digit strings `int(v or 0)` and `get_int_value` give the same number |
| Values.CoercionsDisagreeOnSign | hckrnews/utils.py:30-33 | a signed string is read by `int()` but falls back to the default in `get_int_value` |
| Text.NatToString | bump_version.py:52-56 | `str(n)` is a digit string that `int()` reads back as `n`, with no leading zero |
| Text.NatToStringInjective | bump_version.py:52-56 | different numbers have different spellings |
| Text.Strip | hckrnews/scraper.py:51 | `strip()` returns the infix left after removing leading and trailing whitespace; it neither starts nor ends with whitespace |
| Text.StripIdempotent | hckrnews/scraper.py:59-64 | stripping twice strips nothing more |
| Text.StripPadded | hn/app.py:298 | stripping whitespace padding from around a word with no edge whitespace gives back the word |
| Text.Find | bump_version.py:90-91 | `find` returns the first occurrence at or after the start, or -1 when there is none |
| Text.ReplaceAbsent | hckrnews/scraper.py:64 | `replace` changes nothing when the pattern does not occur |
| Text.ReplaceSelf | bump_version.py:94-97 | replacing a pattern by itself changes nothing |
| Text.RemoveAll | hckrnews/scraper.py:64 | `replace(src, '')` never lengthens the text, and leaves it alone when `src` does not occur |
| Text.ReplaceAll | hckrnews/scraper.py:64 | `replace` never lengthens the text when the replacement is no longer than the pattern, and keeps its length when both are equally long |
| Text.ReplaceFromFirst | bump_version.py:94-97 | `replace` keeps the text before the first occurrence, writes the replacement there and carries on after it |
| Text.FindFirst | bump_version.py:90-91 | `find` from a start position returns the first position at or after it where the text occurs |
| Text.RemoveOnlyOccurrence | hckrnews/scraper.py:64 | removing a pattern that occurs only at the end leaves the text before it |
| Text.StripBeforeSuffix | hckrnews/scraper.py:59 | stripping a text that ends in a word without edge whitespace removes only leading whitespace |
| Text.StripDrop | hckrnews/scraper.py:64 | stripping after dropping some leading whitespace is stripping at once |
| Text.Split | bump_version.py:85 | `split` gives at least one piece and no piece contains the separator |
| Text.JoinSplit | bump_version.py:85 | joining the pieces of a split gives back the string |
| Text.SplitJoin | bump_version.py:85 | splitting a join of separator-free pieces gives back the pieces |
| Seqs.Filter | hckrnews/ui_utils.py:57 | a comprehension keeps only elements satisfying the test, never more than it had |
| Seqs.FilterMultiset | hckrnews/ui_utils.py:57 | each element satisfying the test is kept exactly as often as it occurs, the others dropped |
| Seqs.FilterIsSubseq | hckrnews/ui_utils.py:57 | a comprehension preserves order |
| Seqs.Partition | hckrnews/scraper.py:105-106 | two complementary comprehensions split the list: together they hold every element exactly as often |
| DateFormat.Pad | hckrnews/utils.py:16-22 | zero padding gives exactly `width` digits whose value is the number |
| DateFormat.FormatForUrl | hckrnews/utils.py:16-18 | the URL form is 8 ASCII digits |
| DateFormat.FormatForCacheKey | hckrnews/utils.py:20-22 | the cache key is 10 characters, digits with dashes at positions 4 and 7 |
| DateFormat.UrlIsKeyWithoutDashes | hckrnews/utils.py:16-22 | deleting the dashes from the cache key gives the URL form (the same in the identical hn/utils.py) |
| DateFormat.CacheKeyRoundTrip | hckrnews/utils.py:20-22 | the cache key reads back as the date, for every year 1 to 9999 that `datetime.date` allows |
| DateFormat.CacheKeyInjective | hckrnews/utils.py:20-22 | two dates have the same cache key exactly when they are equal |
| DateFormat.UrlInjective | hckrnews/utils.py:16-18 | two dates have the same URL form exactly when they are equal |
| TimeAgo.FormatTimeAgo | hckrnews/utils.py:35-58 | an int `t` gives the label of `now - t`, a bool that of `now - 0` or `now - 1`, a digit string that of `now` minus its value; a non-digit string, `None` or any other type gives "", and only those give "" (hn/utils.py is an identical copy) |
| TimeAgo.FormatTimeAgoInt | hn/app.py:333-351 | an int or a bool gives the label of `now` minus its value; anything else raises and gives "" |
| TimeAgo.Label | hckrnews/utils.py:46-56 | the label is never empty, and it is "just now" exactly when fewer than 60 seconds passed |
| TimeAgo.JustNowBelowAMinute | hckrnews/utils.py:46-47 | "just now" is the label exactly when fewer than 60 seconds passed, negative differences included |
| TimeAgo.MinutesLabel | hckrnews/utils.py:48-50 | "{n}m ago" means the difference is in [60, 3600) and floors to n minutes, so 1 <= n <= 59 |
| TimeAgo.HoursLabel | hckrnews/utils.py:51-53 | "{n}h ago" means the difference is in [3600, 86400) and floors to n hours, so 1 <= n <= 23 |
| TimeAgo.DaysLabel | hckrnews/utils.py:54-56 | "{n}d ago" means at least a day and n whole days |
| TimeAgo.VariantsDifferOnDigitStrings | hn/app.py:336-337 | on every digit string the shared function reads a timestamp while the hn method gives "" |
| TimeAgo.VariantsAgreeOnInts | hckrnews/utils.py:38-44 | wherever the shared function gives a label it is that of `now` minus `get_int_value` of the timestamp, and the hn method gives the same label wherever it gives one |
| StableSort.Insert | hckrnews/app.py:224 | inserting keeps the elements, adds one, and keeps a descending list descending |
| StableSort.SortDesc | hckrnews/app.py:224 | the sort is a permutation of its input, descending by the key |
| StableSort.SortDescStable | hckrnews/app.py:224 | within each key, the output lists the elements in their input order |
| StableSort.SortDescStablySorted | hckrnews/app.py:224 | the output is descending and keeps the input order of every key's elements at once |
| StableSort.SortDescCharacterized | hckrnews/ui_utils.py:24-28 | a sequence is the sort's result exactly when it is a descending permutation that keeps each key's elements in input order |
| StableSort.AllTiedUnchanged | hckrnews/app.py:224 | when all keys are equal the list is not reordered |
| StableSort.DistinctKeysOrderIrrelevant | hckrnews/ui_utils.py:24-28 | with pairwise distinct keys, any two arrangements of the same elements sort alike |
| StableSort.SortDescKeyExt | hckrnews/ui_utils.py:24-28 | the result depends only on the keys of the elements sorted |
| StableSort.SortDescIdempotent | hckrnews/app.py:224 | sorting a sorted list again changes nothing |
| Stories.UniqueIdsByCount | hckrnews/ui_utils.py:66-67 | ids are unique exactly when there are as many ids as stories |
| Stories.UniqueIdsPermutation | hckrnews/ui_utils.py:66-67 | reordering keeps ids unique |
| Stories.RepeatedIdShrinksIds | hckrnews/ui_utils.py:66-67 | a repeated id leaves fewer ids than stories |
| Stories.SameIdSameStory | hckrnews/ui_utils.py:31-34 | with unique ids a story is determined by its id |
| Ranking.RankOf | hckrnews/ui_utils.py:30-34 | the rank is the index of the first story with an equal id, or -1 exactly when no story has it |
| Ranking.TierOf | hckrnews/ui_utils.py:38-47 | rank 0..9 is green; below 20 but not 0..9 (so also -1) is yellow; 20 up to half the total is blue; beyond that white for homepage stories, else grey |
| Ranking.StoryStyle | hckrnews/ui_utils.py:20-49 | white when some story's points make `int()` raise; otherwise the tier of the story's rank in the points ranking of all stories; the hn method at hn/app.py:353-396 has the same table over all the day's stories |
| Ranking.RankingIsStableSort | hckrnews/ui_utils.py:24-28 | the ranking is a permutation of all stories, and the only stable points-descending one |
| Ranking.UnrankedIsYellow | hckrnews/ui_utils.py:30-41 | a story whose id is missing from the list is bright yellow |
| Ranking.SmallCollectionsAreGreenOrYellow | hckrnews/ui_utils.py:38-41 | with at most 20 stories every story is green or yellow |
| Ranking.RankablePermutation | hckrnews/ui_utils.py:24-28 | whether the ranking raises does not depend on the order of the stories |
| Ranking.StyleIgnoresOrderWhenPointsDistinct | hckrnews/ui_utils.py:24-34 | with unique ids and distinct points the colour does not depend on the order of the stories |
| Ranking.TiesDependOnInputOrder | hckrnews/ui_utils.py:24-34 | with tied points the same eleven stories make a story green or yellow depending on where it stands |
| Filtering.FilterModeNamed | hckrnews/ui_utils.py:65-76 | "top_10", "top_20" and "top_half" select their modes; every other string selects "all" |
| Filtering.Ranked | hckrnews/ui_utils.py:57-63 | the candidates are the titled stories, descending by `get_int_value` of points |
| Filtering.Admitted | hckrnews/ui_utils.py:65-73 | a top mode admits no more stories than are ranked |
| Filtering.AdmittedSlice | hckrnews/ui_utils.py:65-73 | the slice `points_sorted[:10]`, `[:20]` or `[:len(valid_stories) // 2]` keeps min(10, n), min(20, n) or n // 2 of the n titled stories, and "all" keeps n |
| Filtering.FilterStories | hckrnews/ui_utils.py:51-76 | empty input gives `[]`; the result is a subsequence of the input; "all" keeps exactly the titled stories; a top mode keeps exactly the stories whose id is a top id |
| Filtering.SelectIds | hckrnews/ui_utils.py:67 | selecting by ids keeps exactly the stories whose id is in the set |
| Filtering.SelectIdsCount | hckrnews/ui_utils.py:66-67 | with unique ids the selection has one story per selected id present |
| Filtering.RankedMember | hckrnews/ui_utils.py:57-63 | a story is ranked exactly when it is in the input and titled |
| Filtering.TopModeCount | hckrnews/ui_utils.py:65-74 | with unique ids a top mode shows min(k, titled) stories, k being 10, 20 or half the titled ones |
| Filtering.TopModeTitled | hckrnews/ui_utils.py:65-74 | with unique ids a top mode shows only titled stories |
| Filtering.TopModeKeepsBest | hckrnews/ui_utils.py:59-74 | with unique ids every shown story has at least the points of every titled story left out |
| Filtering.TopModeWithinQuotaIsAll | hckrnews/ui_utils.py:65-76 | when the quota admits every titled story a top mode equals "all" |
| Filtering.ShowAllKeepsTitled | hckrnews/ui_utils.py:57-76 | "all" keeps every titled story as often as it occurs and nothing untitled |
| Filtering.SharedIdShowsUntitled | hckrnews/ui_utils.py:66-67 | an untitled story sharing an id with a top story is returned too |
| Filtering.PrefixFilter | hn/app.py:318-331 | the hn filter is the prefix of length min(k, n): 10, 20, half the list, or all |
| Filtering.PrefixFiltersNested | hn/app.py:318-331 | top 10 is a prefix of top 20, top half a prefix of the list, "all" the list itself |
| Sorting.SortModeNamed | hckrnews/app.py:223-228 | "points", "comments" and "date" select their sorts; any other string sorts nothing |
| Sorting.SortStories | hckrnews/app.py:218-228 | the list after the sort is a permutation of it, unchanged when empty or the mode is unknown, and descending by the mode's key |
| Sorting.SortStoriesStable | hckrnews/app.py:223-228 | stories with equal keys keep their order |
| Sorting.SortStoriesCharacterized | hckrnews/app.py:223-228 | the result is the only descending, stable reordering |
| Sorting.SortStoriesIdempotent | hckrnews/app.py:218-228 | sorting again by the same mode changes nothing |
| Sorting.HnSortStories | hn/app.py:170-180 | empty list or unknown mode: unchanged; otherwise it raises exactly when some key raises, and else it is a permutation descending by `int(v or 0)` in which stories with equal keys keep their input order |
| Sorting.HnSortStoriesCharacterized | hn/app.py:170-180 | where no key raises, the sorted list is the one ordering that is descending by `int(v or 0)` and keeps each key's stories in input order |
| Sorting.SortsAgreeOnPlainFields | hn/app.py:176-180 | on int, bool, `None` and digit-string fields the two apps sort identically |
| Sorting.HnSortRaisesOnForeignField | hn/app.py:176-180 | a field `int()` rejects makes the hn sort raise |
| StoryCache.Put | hckrnews/api.py:48-51 | storing sets the date's entry and keeps every other entry |
| StoryCache.Get | hckrnews/api.py:54-57 | the entry of the date, `None` exactly when absent |
| StoryCache.ClearForDate | hckrnews/api.py:60-66 | reports whether the date was present, removes it and keeps every other entry |
| StoryCache.ClearAll | hckrnews/api.py:69-71 | afterwards no date has an entry |
| StoryCache.PutThenGet | hckrnews/api.py:48-57 | a stored list is read back and no other date's answer changes |
| StoryCache.StoredEmptyIsNotMissing | hckrnews/api.py:54-57 | a stored `[]` is an answer, distinct from the `None` of a cleared date |
| StoryCache.ClearUndoesPut | hckrnews/api.py:48-66 | clearing right after storing reports true and leaves the cache as clearing alone would |
| StoryCache.ClearTwice | hckrnews/api.py:60-66 | a second clear reports false and changes nothing |
| StoryCache.GetStories | hckrnews/api.py:13-45 | a hit returns the entry with the cache unchanged; on a miss a list payload is returned and stored under the date; any other payload or a failure returns `[]` with the cache untouched |
| StoryCache.HitIgnoresFetch | hckrnews/api.py:18-22 | a hit never depends on the network |
| StoryCache.GetStoriesOnlyAdds | hckrnews/api.py:21-37 | every entry already present keeps its list |
| StoryCache.SecondRequestIsServedFromCache | hckrnews/api.py:21-37 | once a date was served from a list, asking again returns the same, whatever the network does |
| StoryCache.FailureIsNotCached | hckrnews/api.py:39-45 | a failed request returns `[]` and leaves the date uncached |
| StoryCache.CommentUrl | hckrnews/api.py:74-76 | the comments URL is the item prefix followed by the id |
| StoryCache.CommentUrlInjective | hckrnews/api.py:74-76 | different ids give different comments URLs |
| Scraper.CountText | hckrnews/scraper.py:48-55 | a count is always a digit string: the stripped span text when that is one, else "0" |
| Scraper.Title | hckrnews/scraper.py:57-64 | the title neither starts nor ends with whitespace, is no longer than the link text, and is the stripped link text when there is no source span |
| Scraper.TitleWithoutSourceText | hckrnews/scraper.py:59-64 | when the source text does not occur the title is the stripped link text |
| Scraper.TitleDropsSourceText | hckrnews/scraper.py:59-64 | a link text made of a title followed by its source text, which occurs nowhere earlier, gives the stripped title: the source text is removed |
| Scraper.Timestamp | hckrnews/scraper.py:68 | a digit string gives its value, anything else 0 |
| Scraper.TimeText | hckrnews/scraper.py:66-67 | the `data-date` text is missing exactly when an `a.hn` element exists without the attribute; without the element it is "0" |
| Scraper.NonDigitDateNeverToday | hckrnews/scraper.py:66-70 | a `data-date` that is not a digit string is never today's |
| Scraper.StoryOf | hckrnews/scraper.py:46-84 | a row yields a story exactly when it has a link and a readable `data-date`; counts are digit strings, `time` the raw `data-date`, `homepage` true exactly for a `homepage` points span |
| Scraper.RecordOf | hckrnews/scraper.py:70-71 | a record is today's exactly when no separator came before and its timestamp is today's |
| Scraper.FlagAfter | hckrnews/scraper.py:30-38 | the today flag survives a stretch of rows exactly when no separator occurs in it |
| Scraper.ParseStoriesLoop | hckrnews/scraper.py:24-88 | the loop over the rows computes the recursive parse; hn/scraper.py:33-123 is the same loop |
| Scraper.ParseFrom | hckrnews/scraper.py:35-86 | a successful parse yields at most one record per row |
| Scraper.ParseStories | hckrnews/scraper.py:24-88 | `parse_stories` succeeds exactly when every story row has a link and a readable `data-date`, and then yields at most one record per row |
| Scraper.ParseAppend | hckrnews/scraper.py:35-86 | two stretches parse into the concatenation of their records, the second from the flag the first leaves |
| Scraper.NothingTodayAfterFlag | hckrnews/scraper.py:36-38 | once the flag is down no record is today's |
| Scraper.TodayByTimestampBeforeSeparator | hckrnews/scraper.py:66-71 | before any separator a record is today's exactly when its timestamp is non-zero and not before midnight |
| Scraper.SeparatorSplitsParse | hckrnews/scraper.py:36-38 | the rows after a separator are parsed with the flag down |
| Scraper.TodayIffBeforeFirstSeparator | hckrnews/scraper.py:30-71 | before the first separator a record is today's exactly when its timestamp is; after it none is |
| Scraper.ParseLength | hckrnews/scraper.py:40-44 | a successful parse yields one record per story row |
| Scraper.StoriesOf | hckrnews/scraper.py:108-110 | one story per record |
| Scraper.StoriesOfAt | hckrnews/scraper.py:108-110 | each record gives its own story, in its place |
| Scraper.ParseSucceedsIff | hckrnews/scraper.py:57-68 | a parse succeeds exactly when every story row has a link and a readable `data-date` |
| Scraper.ParseKeepsOrder | hckrnews/scraper.py:40-86 | the stories come out in page order, separators, other rows and jobs skipped |
| Scraper.MissingLinkFailsPage | hckrnews/scraper.py:57-61 | one story row without a link makes the whole page fail |
| Update.Load | hckrnews/scraper.py:101-103 | a page yields records exactly when both the fetch and the parse succeed |
| Update.Buckets | hckrnews/scraper.py:105-106 | the two buckets partition the records, each in page order, one all today's, the other none |
| Update.CacheBuckets | hckrnews/scraper.py:112-118 | each bucket is stored under its day only when non-empty, other days untouched; today is listed before yesterday |
| Update.DayStories | hckrnews/scraper.py:142-157 | an offset has stories exactly when its page loads: all of them for a dated page, only today's for the homepage |
| Update.FetchDays | hckrnews/scraper.py:142-162 | every listed date lies in the range of offsets and is cached afterwards, no cached date is forgotten, and at most one date per offset is listed |
| Update.FetchDaysEffect | hckrnews/scraper.py:142-162 | every offset in range holds what its page gave, or keeps its entry when the page failed; dates out of range keep their entries |
| Update.FetchDaysOrder | hckrnews/scraper.py:142-162 | the written dates run from newest to oldest, each once |
| Update.FailedDaySkipped | hckrnews/scraper.py:135-136 | a failing day is skipped as if it were not in range |
| Update.FetchDaysReadsOnlyItsPages | hckrnews/scraper.py:142-150 | the loop reads only the pages of its offsets |
| Update.OnlyPlannedPagesMatter | hckrnews/scraper.py:94-150 | the pages fetched are: the homepage then offsets 2..days-1 in the combined branch, offsets start..start+days-1 otherwise |
| Update.HomepageFailureSkipsOlderDays | hckrnews/scraper.py:101-139 | a failed homepage in the combined branch updates nothing, older days included |
| Update.CombinedUpdate | hckrnews/scraper.py:94-139 | the combined branch stores the buckets as above, then loops from offset 2 |
| Update.PerDayUpdate | hckrnews/scraper.py:141-162 | the per-day branch caches each loaded day, even when empty, and lists it |
| Update.UpdateStories | hckrnews/scraper.py:90-164 | `update_stories` lists only dates between `start_day` and `start_day + days - 1` days back, each cached afterwards, at most `days` of them, and never forgets a cached date |
| Update.RefreshTodayUsesHomepage | hckrnews/scraper.py:149-159 | offset 0 alone caches the homepage's today's stories |
| Selection.StrOf | hckrnews/app.py:350 | `str(v)` of a str is itself, of a natural int its decimal spelling; unknown only for other types |
| Selection.OpenTarget | hckrnews/app.py:343-352 | a link opens exactly when it is a str with non-space text, and then it is that str; comments open nothing for a falsy id, and for a truthy id the comments page of `str(id)` (nothing when that text is not modelled) |
| Selection.CommentsOfNumericId | hckrnews/app.py:348-351 | a positive numeric id opens the comments page of its decimal spelling |
| Selection.CommentsPagesDistinct | hckrnews/app.py:348-351 | different positive ids open different comments pages |
| HckrnewsApp.NextDay | hckrnews/app.py:147-154 | moves one day forward only while before today |
| HckrnewsApp.PrevDay | hckrnews/app.py:156-160 | always one day back |
| HckrnewsApp.Navigate | hckrnews/app.py:147-160 | each key press moves the date by at most one day |
| HckrnewsApp.NavigationStaysUpToToday | hckrnews/app.py:147-160 | from any day up to today no key sequence passes today |
| HckrnewsApp.NavigateAppend | hckrnews/app.py:147-160 | two runs of key presses equal one run |
| HckrnewsApp.PrevsGoBack | hckrnews/app.py:156-160 | n presses of "previous" go n days back |
| HckrnewsApp.NextsGoForward | hckrnews/app.py:147-154 | n presses of "next" go n days forward while that does not pass today |
| HckrnewsApp.NextUndoesPrev | hckrnews/app.py:147-160 | going back n days then forward n days returns to the start |
| HckrnewsApp.NextOnTodayStays | hckrnews/app.py:151 | "next" on today changes nothing |
| HckrnewsApp.LoadStories | hckrnews/app.py:244-250 | shows a permutation of what `get_stories` returned, sorted; the cached entry is the very list shown; other days keep their entries |
| HckrnewsApp.RefreshStories | hckrnews/app.py:230-242 | a non-empty entry is re-sorted in place and shown; `None` and `[]` both load |
| HckrnewsApp.RefreshStoriesIsLoad | hckrnews/app.py:230-250 | the shortcut through the cache shows what a full load would |
| HckrnewsApp.ReturningShowsSameStories | hckrnews/app.py:230-242 | returning to a cached day shows the same list, whatever the network does |
| HckrnewsApp.ChangeSort | hckrnews/app.py:194-228 | the shown list is re-sorted as a permutation, and the cached list that is that object is rewritten with it |
| HckrnewsApp.RefreshStartDay | hckrnews/app.py:128-134 | a re-scrape happens exactly for today and yesterday, from offset 0 or 1 |
| HckrnewsApp.Refresh | hckrnews/app.py:117-141 | after a refresh the shown list is sorted by the sort mode, is the very list cached for the day when there is one, and is empty when there is none |
| HckrnewsApp.RefreshShowsSource | hckrnews/app.py:117-145 | a refresh shows its fresh source (re-scraped page, else the request), never the stale entry, and touches no other day |
| HckrnewsApp.RefreshIgnoresStaleEntry | hckrnews/app.py:119 | whatever was cached for the day before, the refresh comes out the same |
| HckrnewsApp.InitialLoad | hckrnews/app.py:106-111 | start-up forgets no cached date, shows a list sorted by the sort mode, and that list is the one cached for the day |
| HckrnewsApp.InitialLoadShowsTodaysHomepage | hckrnews/app.py:106-111 | on start-up the app shows today's homepage stories when there are any |
| HckrnewsApp.InitialLoadWithoutHomepage | hckrnews/app.py:106-111 | a failed homepage leaves start-up to the old cache or the request |
| HckrnewsApp.DisplayRows | hckrnews/app.py:290-299 | rows are the filtered stories that have a title, in order |
| HckrnewsApp.LineOf | hckrnews/app.py:296-310 | a row shows the story's title, `get_int_value` of points and of comments (an int as it is, a digit string as its value, anything else 0), and the colour `get_story_style` gives the story among all the day's stories |
| HckrnewsApp.PopulateTable | hckrnews/app.py:278-310 | "No stories found" exactly when the filter returns nothing; otherwise one line per titled filtered story, coloured by rank among all the day's stories |
| HckrnewsApp.Redraw | hckrnews/app.py:276-283 | with `refresh_data=False` an empty list leaves the table as it was; otherwise the table is drawn as `PopulateTable` draws it |
| HckrnewsApp.RedrawAfterLoad | hckrnews/app.py:170-215 | the filter and sort keys, which redraw with `refresh_data=False`, show after a load exactly what a full draw in the new mode shows |
| HckrnewsApp.TopModeTable | hckrnews/app.py:278-310 | with unique ids the rows are the filtered stories, min(quota, titled) of them |
| HckrnewsApp.AllKeptAreTitled | hckrnews/app.py:295-299 | with unique ids the title test skips nothing |
| HckrnewsApp.SelectedStory | hckrnews/app.py:336-341 | the cursor row opens row `row` of the filtered list, nothing past its end |
| HckrnewsApp.SelectedDisplayedStory | hckrnews/app.py:290-299 | the story a row shows, nothing past the last row |
| HckrnewsApp.DisplayedSelectionMatchesTable | hckrnews/app.py:295-310 | every row opens the story whose line it is |
| HckrnewsApp.SelectionAgreesWithUniqueIds | hckrnews/app.py:336-341 | with unique ids the row opens the story it shows |
| HckrnewsApp.SelectionOpensHiddenStory | hckrnews/app.py:336-341 | an untitled story sharing an id with a top story shifts the rows: the first row shows one story and opens another |
| HnApp.HnNextDay | hn/app.py:112-121 | moves forward only while before today - 2 |
| HnApp.HnNavigate | hn/app.py:112-127 | each key press moves the date by at most one day |
| HnApp.HnNavigationIsShifted | hn/app.py:112-127 | hn navigation is the hckrnews navigation with the last day two days back |
| HnApp.HnNavigationStaysUpToLatest | hn/app.py:71 | from the initial date today - 2 no key sequence reaches a later date |
| HnApp.SortHeld | hn/app.py:170-180 | the held list is replaced in the cache by itself stably sorted, descending by the mode's key with ties in their old order, or kept as it was when a key raises |
| HnApp.HnLoad | hn/app.py:210-230 | the shown list is the answer stably sorted by the mode unless a key raises; only a non-empty answer is cached; it raises exactly when a key of a non-empty answer raises |
| HnApp.HnRefreshStories | hn/app.py:182-196 | a cached date is shown from the cache, stably sorted by the mode unless a key raises, and any other date is loaded |
| HnApp.HnHitIgnoresApi | hn/app.py:186-188 | a cached date never reaches the network |
| HnApp.HnRefresh | hn/app.py:104-110 | a refresh shows the answer stably sorted by the mode; it raises exactly when the answer is non-empty and some sort key cannot be read, and keeps the set of other cached dates |
| HnApp.HnRefreshRefetches | hn/app.py:104-110 | a refresh always shows what the request returns and keeps every other date |
| HnApp.EmptyAnswerIsRetried | hn/app.py:218-219 | an empty answer is not cached, so the next visit asks again |
| HnApp.CacheStaysNonEmpty | hn/app.py:218-219 | a cache of non-empty lists stays so through a visit to a date |
| HnApp.RefreshKeepsCacheNonEmpty | hn/app.py:104-110 | a refresh keeps the cache free of empty lists |
| HnApp.IntUnlessNone | hn/app.py:297-301 | `None` gives 0, an int itself (0 included), a bool 0 or 1, a str whatever `int()` gives (an empty string raises), and a truthy value reads as the sort key does |
| HnApp.EmptyPointsSortButDoNotShow | hn/app.py:297-301 | an empty points string sorts as 0 but makes the table raise |
| HnApp.HnLine | hn/app.py:294-310 | a story's line exists exactly when both counts read; it carries the title, both counts as read, and the colour of the story's rank among all the day's stories |
| HnApp.HnLinesOf | hn/app.py:293-316 | the lines exist exactly when every story's line can be built, one per story, each the line of its story, in order |
| HnApp.HnPopulateTable | hn/app.py:267-316 | "No stories found" exactly when the prefix is empty; the table raises exactly when the prefix is non-empty and one of its lines cannot be built; otherwise its lines are those of the prefix, in order, coloured by rank among all the day's stories |
| HnApp.HnSelectedStory | hn/app.py:406-423 | row `row` opens the story at that index, nothing past the prefix |
| HnApp.HnRowOpensItsStory | hn/app.py:406-423 | every row opens the story it shows |
| BumpVersion.DigitRun | bump_version.py:38 | a greedy `\d+` takes the maximal run of digits |
| BumpVersion.ReadNumber | bump_version.py:38 | a `\d+` group matches exactly when the text starts with a digit, and the text it leaves does not start with a digit |
| BumpVersion.ReadNumberGreedy | bump_version.py:38 | the group reads the digits in front of what it leaves, as their value |
| BumpVersion.ReadNumberOf | bump_version.py:38 | digits followed by a non-digit are read as their value |
| BumpVersion.ReadVersion | bump_version.py:38 | a match needs a digit first and takes at least five characters |
| BumpVersion.FormatVersion | bump_version.py:52-56 | `f"{major}.{minor}.{patch}"` is at least five characters, all digits or dots |
| BumpVersion.ParseVersion | bump_version.py:36-44 | an error unless the string starts with a digit; a success consumed at least `N.N.N` |
| BumpVersion.ReadFormatted | bump_version.py:38-43 | a formatted version followed by a non-digit reads back with the rest left over |
| BumpVersion.ParseFormatted | bump_version.py:38-44 | a formatted version reads back whatever non-digit text follows |
| BumpVersion.ParseFormatVersion | bump_version.py:36-44 | a formatted version reads back |
| BumpVersion.ParseVersionOf | bump_version.py:36-44 | any three digit strings joined by dots and followed by a non-digit are read as their values, leading zeros included |
| BumpVersion.ParseVersionIffSpelled | bump_version.py:36-44 | parsing succeeds exactly when the string starts with digits, a dot, digits, a dot and digits, and then returns the values of those three digit strings |
| BumpVersion.IncrementVersion | bump_version.py:47-59 | succeeds exactly when the version parses and the kind is major, minor or patch |
| BumpVersion.IncrementRoundTrip | bump_version.py:47-56 | the result reads back as (X+1).0.0, X.(Y+1).0 or X.Y.(Z+1), and that version comes later |
| BumpVersion.VersionPrefix | bump_version.py:85 | `".".join(v.split(".")[:2])` is a prefix of the version |
| BumpVersion.PrefixOfFormatted | bump_version.py:85 | the prefix of a formatted version is its major and minor |
| BumpVersion.OldAgent | bump_version.py:88-93 | the old version is the non-empty text after the first marker up to a quote; absent without the marker |
| BumpVersion.UpdateUserAgent | bump_version.py:79-104 | no old version: unchanged and false; the flag is true exactly when the old version differs from the prefix; an equal version leaves the content as it was |
| BumpVersion.UpdateUserAgentIdempotent | bump_version.py:79-104 | running it again with the same version changes nothing and reports false |
| BumpVersion.NoFieldUnchanged | bump_version.py:67-71 | without a `version = "N.N.N"` field the substitution changes nothing |
| BumpVersion.FieldAt | bump_version.py:68 | a match of `version = "(\d+\.\d+\.\d+)"` never runs past the text and starts with the opening `version = "` |
| BumpVersion.FieldAtShape | bump_version.py:68 | a match holds a readable version after the opening and ends at its closing quote, at least six characters later |
| BumpVersion.SubFields | bump_version.py:67-71 | `re.sub` puts the replacement text into the result whenever some `version = "N.N.N"` field occurs; SubFieldsEveryField states that every field is replaced |
| BumpVersion.UpdatePyproject | bump_version.py:62-76 | the flag is true exactly when the content changed; no field means unchanged and false |
| BumpVersion.RewritesTheField | bump_version.py:67-76 | a file holding one field gets the new version, and reports a change exactly when the version text differs |
| BumpVersion.FieldAtFieldOf | bump_version.py:68 | the pattern matches a written `version = "N.N.N"` field exactly, whatever follows it |
| BumpVersion.SubFieldsCopies | bump_version.py:67-71 | text in which no field starts is copied as it is, and the rest is substituted |
| BumpVersion.SubFieldsFrom | bump_version.py:67-71 | characters before which no field starts are copied one by one, and the substitution carries on after them |
| BumpVersion.SubFieldsRewrites | bump_version.py:67-71 | a field at the start is replaced as a whole and the search resumes right after it |
| BumpVersion.SubFieldsAt | bump_version.py:67-71 | the text before the first field is kept, the field is replaced, and the rest is substituted |
| BumpVersion.GapStartsNoField | bump_version.py:68 | text without the opening `version = "` starts no field, not even one running on into a following field |
| BumpVersion.SubFieldsEveryField | bump_version.py:67-71 | in a file of field-free gaps and fields of any versions, every field is replaced and every gap kept |
| BumpVersion.UpdatePyprojectEveryField | bump_version.py:62-76 | `update_pyproject_toml` writes the new version into every field of such a file and keeps the text around them |

## Left out

- The terminal UI: widgets, key bindings, focus, timers, the loading animation, the title line and `article_viewer.py`, which wraps the foreign `newspaper` library.
- The network: every request is a function parameter that returns a payload, a page's rows, or a failure.
- HTML parsing: a page is a sequence of rows whose classes and elements are already extracted.
- Clocks and time zones: "today", "today's midnight" and "now" are parameters. Dates are day numbers; only the formatting module uses calendar dates.
- `str.isdigit`, `int()` and `strip()` on non-ASCII text: only ASCII digits and whitespace are modelled. Underscores in `int()` literals and floats are not modelled.
- Values.Value: Python's `1 == True` cross-type equality of ids is not modelled; ids compare structurally.
- DateFormat.FormatForCacheKey: years below 1000 are printed zero-padded to four digits, which is platform-dependent in `strftime`.
- Selection.StrOf: the `str()` of a value of another type is not modelled.
- `hn/api.py`: a network wrapper without a cache; its comment URL is the one `StoryCache.CommentUrl` models.
- `update_stories` in `hn/scraper.py`: it calls a cache method that `hn/api.py` does not define, so every cache step raises and is swallowed, and nothing calls it.
- HnApp.HnPopulateTable: the "No title" default for a story without a `link_text` key is not modelled; the title is the stored value.
- HckrnewsApp.PopulateTable: models `populate_table(refresh_data=True)`. The filter and sort keys (hckrnews/app.py:170-215 and the same keys in hn/app.py) pass `refresh_data=False`; `HckrnewsApp.Redraw` models that for the hckrnews app, and the hn copy of that branch is not modelled separately.
- Printing, `webbrowser.open`, file reads and writes, git calls, `argparse`, `get_current_version` and the `--set` option of `bump_version.py`.
- BumpVersion.UpdatePyproject: the replacement text is treated literally; `re.sub` template escapes in the new version are not modelled, and running it twice is not proved to be idempotent. The every-field statement (BumpVersion.UpdatePyprojectEveryField) covers files whose text between fields never contains `version = "`; text where that opening is not followed by a version is covered only by the general step lemma BumpVersion.SubFieldsAt.
- BumpVersion.ParseVersion: `sys.exit` is the `Err` result.

## Findings

| source | as written | input that shows it | evidently intended | confidence | as-written member | corrected member |
|---|---|---|---|---|---|---|
| hckrnews/app.py:336-341 | the cursor row indexes `filter_stories(...)`, which still holds the untitled stories that `populate_table` skipped (hckrnews/app.py:295-299) | a top-10 list of an untitled story and a titled one that share an id: the table shows one row, the titled story, and row 0 opens the untitled one | the row opens the story it shows | low, not executed | HckrnewsApp.SelectedStory, HckrnewsApp.SelectionOpensHiddenStory | HckrnewsApp.SelectedDisplayedStory, HckrnewsApp.DisplayedSelectionMatchesTable |
