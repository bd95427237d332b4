/**
 * `sort_stories` of both apps: an in-place stable sort of the day's list, best first, by
 * points, comments or time. The hckrnews app reads keys with `get_int_value`, which cannot
 * fail; the hn app uses `int(x.get(k) or 0)`, which raises on values `int()` rejects.
 */
module Sorting {
  import opened Wrappers
  import opened Values
  import opened Stories
  import opened StableSort

  datatype SortMode = ByPoints | ByComments | ByDate

  /** The mode strings of the key bindings; any other string selects no sort at all. */
  function SortModeNamed(name: string): (m: Option<SortMode>)
    ensures m == Some(ByPoints) <==> name == "points"
    ensures m == Some(ByComments) <==> name == "comments"
    ensures m == Some(ByDate) <==> name == "date"
    ensures m == None <==> name != "points" && name != "comments" && name != "date"
  {
    if name == "points" then Some(ByPoints)
    else if name == "comments" then Some(ByComments)
    else if name == "date" then Some(ByDate)
    else None
  }

  /** The story field a mode sorts on: `points`, `comments` or `time`. */
  function Field(mode: SortMode, s: Story): Value
  {
    match mode
    case ByPoints => s.points
    case ByComments => s.comments
    case ByDate => s.time
  }

  /** The hckrnews sort key `get_int_value(x, field)`. */
  function KeyOf(mode: SortMode): Story -> int
  {
    (s: Story) => GetIntValue(Field(mode, s), 0)
  }

  /** hckrnews `sort_stories`: the list after the in-place sort. */
  function SortStories(stories: seq<Story>, mode: Option<SortMode>): (r: seq<Story>)
    ensures multiset(r) == multiset(stories)
    ensures |stories| == 0 || mode.None? ==> r == stories
    ensures mode.Some? ==> SortedDesc(r, KeyOf(mode.value))
  {
    if |stories| == 0 then stories
    else match mode
      case None => stories
      case Some(m) => SortDesc(stories, KeyOf(m))
  }

  /** Stories with equal keys keep the order they had before the sort. */
  lemma SortStoriesStable(stories: seq<Story>, mode: SortMode, k: int)
    ensures WithKey(SortStories(stories, Some(mode)), KeyOf(mode), k) == WithKey(stories, KeyOf(mode), k)
  {
    if |stories| > 0 {
      SortDescStable(stories, KeyOf(mode), k);
    }
  }

  /**
   * The sorted list is the only ordering that is descending by the key and keeps each key's
   * stories in input order.
   */
  lemma SortStoriesCharacterized(stories: seq<Story>, mode: SortMode, r: seq<Story>)
    ensures r == SortStories(stories, Some(mode)) <==>
            SortedDesc(r, KeyOf(mode)) && forall k :: WithKey(r, KeyOf(mode), k) == WithKey(stories, KeyOf(mode), k)
  {
    SortDescCharacterized(stories, r, KeyOf(mode));
    if |stories| == 0 {
      forall k
        ensures WithKey(stories, KeyOf(mode), k) == []
      {
        NoKeyEmptyBlock(stories, KeyOf(mode), k);
      }
    }
  }

  /**
   * Re-sorting by the same mode, as every refresh of a cached list does, changes nothing.
   */
  lemma SortStoriesIdempotent(stories: seq<Story>, mode: Option<SortMode>)
    ensures SortStories(SortStories(stories, mode), mode) == SortStories(stories, mode)
  {
    if |stories| > 0 && mode.Some? {
      SortDescIdempotent(stories, KeyOf(mode.value));
    }
  }

  /** The hn sort key `int(x.get(field) or 0)`, where it does not raise. */
  function HnKeyOf(mode: SortMode): Story -> int
  {
    (s: Story) => match IntOrZero(Field(mode, s)) case Ok(v) => v case Err => 0
  }

  /** `list.sort` computes every key before moving anything, so it raises if any key raises. */
  predicate Sortable(stories: seq<Story>, mode: SortMode)
  {
    forall i :: 0 <= i < |stories| ==> IntOrZero(Field(mode, stories[i])).Ok?
  }

  /** hn `sort_stories`: the sorted list, or the exception a rejected key raises. */
  function HnSortStories(stories: seq<Story>, mode: Option<SortMode>): (r: Result<seq<Story>>)
    ensures |stories| == 0 || mode.None? ==> r == Ok(stories)
    ensures mode.Some? && |stories| > 0 ==> (r.Err? <==> !Sortable(stories, mode.value))
    ensures r.Ok? ==> multiset(r.value) == multiset(stories)
    ensures r.Ok? && mode.Some? ==> SortedDesc(r.value, HnKeyOf(mode.value))
    ensures r.Ok? && mode.Some? ==> StablySorted(r.value, stories, HnKeyOf(mode.value))
  {
    if |stories| == 0 then Ok(stories)
    else match mode
      case None => Ok(stories)
      case Some(m) =>
        if Sortable(stories, m) then
          SortDescStablySorted(stories, HnKeyOf(m));
          Ok(SortDesc(stories, HnKeyOf(m)))
        else Err
  }

  /**
   * Where the hn sort does not raise, its result is the only ordering that is descending by
   * `int(v or 0)` and keeps each key's stories in input order.
   */
  lemma HnSortStoriesCharacterized(stories: seq<Story>, mode: SortMode, r: seq<Story>)
    requires Sortable(stories, mode)
    ensures HnSortStories(stories, Some(mode)).Ok?
    ensures r == HnSortStories(stories, Some(mode)).value <==> StablySorted(r, stories, HnKeyOf(mode))
  {
    SortDescCharacterized(stories, r, HnKeyOf(mode));
    if |stories| == 0 {
      forall k
        ensures WithKey(stories, HnKeyOf(mode), k) == []
      {
        NoKeyEmptyBlock(stories, HnKeyOf(mode), k);
      }
    }
  }

  /** A field both readers accept: an int, a bool, nothing, or an empty or digit string. */
  predicate PlainField(v: Value)
  {
    !v.OtherVal? && (v.StrVal? ==> v.s == "" || Text.IsDigits(v.s))
  }

  /**
   * Where every sorted field is plain, the two apps order a list identically: `int(x or 0)`
   * and `get_int_value` agree on such fields.
   */
  lemma SortsAgreeOnPlainFields(stories: seq<Story>, mode: SortMode)
    requires forall i :: 0 <= i < |stories| ==> PlainField(Field(mode, stories[i]))
    ensures HnSortStories(stories, Some(mode)) == Ok(SortStories(stories, Some(mode)))
  {
    forall i | 0 <= i < |stories|
      ensures IntOrZero(Field(mode, stories[i])) == Ok(GetIntValue(Field(mode, stories[i]), 0))
    {
      CoercionsAgree(Field(mode, stories[i]));
    }
    if |stories| > 0 {
      SortDescKeyExt(stories, HnKeyOf(mode), KeyOf(mode));
    }
  }

  /** A field of a type `int()` does not accept makes the hn sort raise. */
  lemma HnSortRaisesOnForeignField(stories: seq<Story>, mode: SortMode, i: nat)
    requires i < |stories|
    requires Field(mode, stories[i]) == OtherVal(true)
    ensures HnSortStories(stories, Some(mode)) == Err
  {
  }
}
