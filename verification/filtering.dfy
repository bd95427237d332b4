/**
 * The view filters of both apps. The hckrnews app keeps, in original order, every story whose
 * id belongs to one of the best-scoring titled stories; the hn app simply cuts a prefix of
 * its (already sorted) list.
 */
module Filtering {
  import opened Wrappers
  import opened Values
  import opened Stories
  import opened Seqs
  import opened StableSort

  datatype FilterMode = Top10 | Top20 | TopHalf | ShowAll

  /** The mode strings the key bindings set; every other string takes the "all" branch. */
  function FilterModeNamed(name: string): (m: FilterMode)
    ensures m == Top10 <==> name == "top_10"
    ensures m == Top20 <==> name == "top_20"
    ensures m == TopHalf <==> name == "top_half"
    ensures m == ShowAll <==> name != "top_10" && name != "top_20" && name != "top_half"
  {
    if name == "top_10" then Top10
    else if name == "top_20" then Top20
    else if name == "top_half" then TopHalf
    else ShowAll
  }

  /** How many of `n` candidates a mode keeps at most: 10, 20, half rounded down, or all. */
  function Quota(mode: FilterMode, n: nat): nat
  {
    match mode
    case Top10 => 10
    case Top20 => 20
    case TopHalf => n / 2
    case ShowAll => n
  }

  /** `get_int_value(story, "points")`, the ranking key of the hckrnews filter. */
  function PointsValue(s: Story): int
  {
    GetIntValue(s.points, 0)
  }

  /** `[story for story in xs if story.get("id") in ids]`. */
  function SelectIds(xs: seq<Story>, ids: set<Value>): (r: seq<Story>)
    ensures forall s :: s in r <==> s in xs && s.id in ids
    ensures |r| <= |xs|
    decreases |xs|
  {
    if |xs| == 0 then []
    else
      assert xs == [xs[0]] + xs[1..];
      (if xs[0].id in ids then [xs[0]] else []) + SelectIds(xs[1..], ids)
  }

  /** The titled stories, the candidates of every mode. */
  function Titled(stories: seq<Story>): seq<Story>
  {
    Filter(stories, HasTitle)
  }

  /** The titled stories by points, best first, ties in input order. */
  function Ranked(stories: seq<Story>): (r: seq<Story>)
    ensures multiset(r) == multiset(Titled(stories))
    ensures SortedDesc(r, PointsValue)
  {
    SortDesc(Titled(stories), PointsValue)
  }

  /** The number of ranked stories a top mode admits. */
  function Admitted(stories: seq<Story>, mode: FilterMode): (m: nat)
    ensures m <= |Ranked(stories)|
  {
    Min(Quota(mode, |Titled(stories)|), |Ranked(stories)|)
  }

  /** The slice bounds of the source: ten, twenty, half the titled stories, or all of them. */
  lemma AdmittedSlice(stories: seq<Story>, mode: FilterMode)
    ensures var n, m := |Titled(stories)|, Admitted(stories, mode);
            (mode.Top10? ==> m == if n < 10 then n else 10) &&
            (mode.Top20? ==> m == if n < 20 then n else 20) &&
            (mode.TopHalf? ==> m == n / 2) &&
            (mode.ShowAll? ==> m == n)
  {
    assert |Ranked(stories)| == |multiset(Titled(stories))|;
  }

  /** The ids of the admitted best stories. */
  function TopIds(stories: seq<Story>, mode: FilterMode): set<Value>
  {
    Ids(Ranked(stories)[..Admitted(stories, mode)])
  }

  /**
   * `filter_stories(stories, mode, get_int_value)` of the hckrnews app. Its result never
   * reorders the input; in "all" mode it is exactly the titled stories.
   */
  function FilterStories(stories: seq<Story>, mode: FilterMode): (r: seq<Story>)
    ensures |stories| == 0 ==> r == []
    ensures IsSubseq(r, stories)
    ensures mode == ShowAll ==> forall s :: s in r <==> s in stories && HasTitle(s)
    ensures mode != ShowAll ==> forall s :: s in r <==> s in stories && s.id in TopIds(stories, mode)
  {
    if |stories| == 0 then []
    else if mode == ShowAll then
      FilterIsSubseq(stories, HasTitle);
      forall s
        ensures s in Titled(stories) <==> s in stories && HasTitle(s)
      {
        FilterMember(stories, HasTitle, s);
      }
      Titled(stories)
    else
      SelectIdsIsSubseq(stories, TopIds(stories, mode));
      SelectIds(stories, TopIds(stories, mode))
  }

  lemma {:induction false} SelectIdsIsSubseq(xs: seq<Story>, ids: set<Value>)
    ensures IsSubseq(SelectIds(xs, ids), xs)
    decreases |xs|
  {
    if |xs| > 0 {
      SelectIdsIsSubseq(xs[1..], ids);
      var r := SelectIds(xs, ids);
      if xs[0].id in ids {
        assert r[0] == xs[0] && r[1..] == SelectIds(xs[1..], ids);
      } else {
        assert r == SelectIds(xs[1..], ids);
      }
    }
  }

  /** With unique ids, selecting by a set of ids keeps one story per selected id present. */
  lemma {:induction false} SelectIdsCount(xs: seq<Story>, ids: set<Value>)
    requires UniqueIds(xs)
    ensures |SelectIds(xs, ids)| == |ids * Ids(xs)|
    decreases |xs|
  {
    if |xs| > 0 {
      var x, rest := xs[0], xs[1..];
      assert xs == [x] + rest;
      UniqueIdsCons(x, rest);
      IdsCons(x, rest);
      SelectIdsCount(rest, ids);
      if x.id in ids {
        assert SelectIds(xs, ids) == [x] + SelectIds(rest, ids);
        assert ids * Ids(xs) == {x.id} + ids * Ids(rest);
        assert x.id !in ids * Ids(rest);
        assert |{x.id} + ids * Ids(rest)| == 1 + |ids * Ids(rest)|;
      } else {
        assert SelectIds(xs, ids) == SelectIds(rest, ids);
        assert ids * Ids(xs) == ids * Ids(rest);
      }
    }
  }

  /** Selecting with a set that matches exactly the stories satisfying `p` is filtering by `p`. */
  lemma {:induction false} SelectIdsIsFilter(xs: seq<Story>, ids: set<Value>, p: Story -> bool)
    requires forall i :: 0 <= i < |xs| ==> (xs[i].id in ids <==> p(xs[i]))
    ensures SelectIds(xs, ids) == Filter(xs, p)
    decreases |xs|
  {
    if |xs| > 0 {
      SelectIdsIsFilter(xs[1..], ids, p);
    }
  }

  lemma {:induction false} UniqueIdsFilter(xs: seq<Story>, p: Story -> bool)
    requires UniqueIds(xs)
    ensures UniqueIds(Filter(xs, p))
    decreases |xs|
  {
    if |xs| > 0 {
      var x, rest := xs[0], xs[1..];
      assert xs == [x] + rest;
      UniqueIdsCons(x, rest);
      UniqueIdsFilter(rest, p);
      if p(x) {
        assert Filter(xs, p) == [x] + Filter(rest, p);
        forall v | v in Ids(Filter(rest, p))
          ensures v in Ids(rest)
        {
          IdsMember(Filter(rest, p), v);
          var s :| s in Filter(rest, p) && s.id == v;
          FilterMember(rest, p, s);
          IdsMember(rest, v);
        }
        UniqueIdsCons(x, Filter(rest, p));
      } else {
        assert Filter(xs, p) == Filter(rest, p);
      }
    }
  }

  /** Every ranked story is one of the input stories and carries a title. */
  lemma RankedMember(stories: seq<Story>, s: Story)
    ensures s in Ranked(stories) <==> s in stories && HasTitle(s)
  {
    assert s in Ranked(stories) <==> s in multiset(Titled(stories));
    FilterMember(stories, HasTitle, s);
  }

  lemma RankedUniqueIds(stories: seq<Story>)
    requires UniqueIds(stories)
    ensures UniqueIds(Ranked(stories))
  {
    UniqueIdsFilter(stories, HasTitle);
    UniqueIdsPermutation(Titled(stories), Ranked(stories));
  }

  /** Each top id belongs to an admitted ranked story, which is a titled input story. */
  lemma TopIdsWitness(stories: seq<Story>, mode: FilterMode, v: Value) returns (a: nat)
    requires v in TopIds(stories, mode)
    ensures a < Admitted(stories, mode)
    ensures Ranked(stories)[a].id == v
    ensures Ranked(stories)[a] in stories && HasTitle(Ranked(stories)[a])
  {
    var P := Ranked(stories)[..Admitted(stories, mode)];
    var i :| 0 <= i < |P| && P[i].id == v;
    a := i;
    assert P[a] == Ranked(stories)[a];
    RankedMember(stories, Ranked(stories)[a]);
  }

  /**
   * A top mode over stories with unique ids shows exactly as many stories as it admits: the
   * quota, or every titled story when there are fewer.
   */
  lemma TopModeCount(stories: seq<Story>, mode: FilterMode)
    requires UniqueIds(stories)
    requires mode != ShowAll && |stories| > 0
    ensures |FilterStories(stories, mode)| == Min(Quota(mode, |Titled(stories)|), |Titled(stories)|)
  {
    var m := Admitted(stories, mode);
    var P := Ranked(stories)[..m];
    var T := TopIds(stories, mode);
    RankedUniqueIds(stories);
    assert UniqueIds(P);
    UniqueIdsCount(P);
    forall v | v in T
      ensures v in Ids(stories)
    {
      var a := TopIdsWitness(stories, mode, v);
      IdsMember(stories, v);
    }
    assert T * Ids(stories) == T;
    SelectIdsCount(stories, T);
  }

  /** Everything a top mode shows over stories with unique ids has a title. */
  lemma TopModeTitled(stories: seq<Story>, mode: FilterMode, s: Story)
    requires UniqueIds(stories)
    requires mode != ShowAll
    requires s in FilterStories(stories, mode)
    ensures HasTitle(s)
  {
    var a := TopIdsWitness(stories, mode, s.id);
    SameIdSameStory(stories, s, Ranked(stories)[a]);
  }

  /**
   * A top mode over stories with unique ids keeps the best: every shown story has at least
   * as many points as every titled story it leaves out.
   */
  lemma TopModeKeepsBest(stories: seq<Story>, mode: FilterMode, s: Story, t: Story)
    requires UniqueIds(stories)
    requires mode != ShowAll
    requires s in FilterStories(stories, mode)
    requires t in stories && HasTitle(t) && t !in FilterStories(stories, mode)
    ensures PointsValue(s) >= PointsValue(t)
  {
    var R := Ranked(stories);
    var a := TopIdsWitness(stories, mode, s.id);
    SameIdSameStory(stories, s, R[a]);
    RankedMember(stories, t);
    var b :| 0 <= b < |R| && R[b] == t;
    assert t.id !in TopIds(stories, mode);
    AdmittedInTopIds(stories, mode, b);
    assert a < b;
  }

  lemma AdmittedInTopIds(stories: seq<Story>, mode: FilterMode, b: nat)
    requires b < |Ranked(stories)|
    ensures b < Admitted(stories, mode) ==> Ranked(stories)[b].id in TopIds(stories, mode)
  {
    if b < Admitted(stories, mode) {
      assert Ranked(stories)[..Admitted(stories, mode)][b] == Ranked(stories)[b];
    }
  }

  /**
   * When a top mode admits every titled story and ids are unique, it shows the same stories
   * as the "all" mode.
   */
  lemma TopModeWithinQuotaIsAll(stories: seq<Story>, mode: FilterMode)
    requires UniqueIds(stories)
    requires |Titled(stories)| <= Quota(mode, |Titled(stories)|)
    ensures FilterStories(stories, mode) == FilterStories(stories, ShowAll)
  {
    if |stories| > 0 && mode != ShowAll {
      var R := Ranked(stories);
      var T := TopIds(stories, mode);
      assert R[..Admitted(stories, mode)] == R;
      forall i | 0 <= i < |stories|
        ensures stories[i].id in T <==> HasTitle(stories[i])
      {
        var s := stories[i];
        RankedMember(stories, s);
        if HasTitle(s) {
          var b :| 0 <= b < |R| && R[b] == s;
          assert R[..Admitted(stories, mode)][b] == s;
        }
        if s.id in T {
          var a := TopIdsWitness(stories, mode, s.id);
          SameIdSameStory(stories, s, R[a]);
        }
      }
      SelectIdsIsFilter(stories, T, HasTitle);
    }
  }

  /** "all" mode shows each titled story as often as it occurs, and nothing untitled. */
  lemma ShowAllKeepsTitled(stories: seq<Story>, s: Story)
    ensures multiset(FilterStories(stories, ShowAll))[s] == if HasTitle(s) then multiset(stories)[s] else 0
  {
    FilterMultiset(stories, HasTitle, s);
  }

  /**
   * Without unique ids a top mode can show an untitled story: it is selected by sharing its
   * id with a titled top story.
   */
  lemma SharedIdShowsUntitled(id: Value)
    ensures var titled := Story(id, IntVal(5), NoneVal, NoneVal, StrVal("t"), NoneVal, NoneVal);
            var untitled := Story(id, IntVal(1), NoneVal, NoneVal, NoneVal, NoneVal, NoneVal);
            FilterStories([titled, untitled], Top10) == [titled, untitled]
  {
    var titled := Story(id, IntVal(5), NoneVal, NoneVal, StrVal("t"), NoneVal, NoneVal);
    var untitled := Story(id, IntVal(1), NoneVal, NoneVal, NoneVal, NoneVal, NoneVal);
    var xs := [titled, untitled];
    assert xs[1..] == [untitled] && xs[1..][1..] == [];
    assert Filter(xs[1..], HasTitle) == [];
    assert Titled(xs) == [titled];
    assert Ranked(xs) == [titled];
    assert TopIds(xs, Top10) == {id} by {
      assert Ranked(xs)[..Admitted(xs, Top10)] == [titled];
    }
  }

  /**
   * `filter_stories` of the hn app: a prefix of the list, its length 10, 20, half the list
   * rounded down, or all of it.
   */
  function PrefixFilter(stories: seq<Story>, mode: FilterMode): (r: seq<Story>)
    ensures |r| == Min(Quota(mode, |stories|), |stories|)
    ensures r == stories[..|r|]
  {
    if |stories| == 0 then []
    else stories[..Min(Quota(mode, |stories|), |stories|)]
  }

  /** The prefix filters are nested: top 10 within top 20 within all. */
  lemma PrefixFiltersNested(stories: seq<Story>)
    ensures PrefixFilter(stories, Top10) == PrefixFilter(stories, Top20)[..|PrefixFilter(stories, Top10)|]
    ensures PrefixFilter(stories, ShowAll) == stories
    ensures PrefixFilter(stories, TopHalf) <= stories
  {
  }
}
