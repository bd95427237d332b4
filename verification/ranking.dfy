/**
 * `get_story_style`: the colour of a story from its rank in the points order of the whole
 * day's collection.
 */
module Ranking {
  import opened Wrappers
  import opened Values
  import opened Stories
  import opened StableSort

  datatype Colour = BrightGreen | BrightYellow | BrightBlue | White | BrightBlack

  /** The sort key `int(x.get("points") or 0)`, where it does not raise. */
  function PointsKey(s: Story): int
  {
    match IntOrZero(s.points)
    case Ok(v) => v
    case Err => 0
  }

  /** `sorted` computes every key first, so it raises when any story's points make `int()` raise. */
  predicate Rankable(all: seq<Story>)
  {
    forall i :: 0 <= i < |all| ==> IntOrZero(all[i].points).Ok?
  }

  /** The points ranking: `sorted(all, key=..., reverse=True)`. */
  function PointsRanking(all: seq<Story>): seq<Story>
  {
    SortDesc(all, PointsKey)
  }

  /** The index of the first story in `ranked` whose id equals `id`, or -1 when there is none. */
  function RankOf(id: Value, ranked: seq<Story>): (r: int)
    ensures -1 <= r < |ranked|
    ensures r == -1 <==> forall i :: 0 <= i < |ranked| ==> ranked[i].id != id
    ensures r >= 0 ==> ranked[r].id == id && forall i :: 0 <= i < r ==> ranked[i].id != id
    decreases |ranked|
  {
    if |ranked| == 0 then -1
    else if ranked[0].id == id then 0
    else
      var r := RankOf(id, ranked[1..]);
      if r == -1 then -1 else r + 1
  }

  /**
   * The colour table. An unranked story (rank -1) fails the first test but passes `rank < 20`,
   * so it is yellow; Python's `total // 2` is Dafny's `/` for a non-negative total.
   */
  function TierOf(rank: int, total: nat, homepage: bool): (c: Colour)
    ensures c == BrightGreen <==> 0 <= rank < 10
    ensures c == BrightYellow <==> rank < 20 && !(0 <= rank < 10)
    ensures c == BrightBlue <==> 20 <= rank < total / 2
    ensures c == White <==> 20 <= rank && total / 2 <= rank && homepage
    ensures c == BrightBlack <==> 20 <= rank && total / 2 <= rank && !homepage
  {
    if rank < 10 && rank >= 0 then BrightGreen
    else if rank < 20 then BrightYellow
    else if rank < total / 2 then BrightBlue
    else if homepage then White
    else BrightBlack
  }

  /**
   * `get_story_style(story, all_stories)`. Any exception, which here can only come from a
   * points value `int()` rejects, gives white.
   */
  function StoryStyle(story: Story, all: seq<Story>): (c: Colour)
    ensures !Rankable(all) ==> c == White
    ensures Rankable(all) ==> c == TierOf(RankOf(story.id, PointsRanking(all)), |all|, Truthy(story.homepage))
  {
    if !Rankable(all) then White
    else TierOf(RankOf(story.id, PointsRanking(all)), |all|, Truthy(story.homepage))
  }

  /**
   * The ranking is a stable points-descending permutation of the collection, and the only one:
   * any sequence with those properties is the ranking.
   */
  lemma RankingIsStableSort(all: seq<Story>, r: seq<Story>)
    ensures multiset(PointsRanking(all)) == multiset(all)
    ensures r == PointsRanking(all) <==>
            SortedDesc(r, PointsKey) && forall k :: WithKey(r, PointsKey, k) == WithKey(all, PointsKey, k)
  {
    SortDescCharacterized(all, r, PointsKey);
  }

  /** A story whose id is not in the collection is unranked and comes out bright yellow. */
  lemma UnrankedIsYellow(story: Story, all: seq<Story>)
    requires Rankable(all)
    requires story.id !in Ids(all)
    ensures StoryStyle(story, all) == BrightYellow
  {
    var ranked := PointsRanking(all);
    forall i | 0 <= i < |ranked|
      ensures ranked[i].id != story.id
    {
      assert ranked[i] in multiset(all);
      var j :| 0 <= j < |all| && all[j] == ranked[i];
    }
  }

  /** A story is never below bright yellow while the collection has fewer than 21 stories. */
  lemma SmallCollectionsAreGreenOrYellow(story: Story, all: seq<Story>)
    requires Rankable(all) && |all| <= 20
    ensures StoryStyle(story, all) in {BrightGreen, BrightYellow}
  {
  }

  lemma RankablePermutation(xs: seq<Story>, ys: seq<Story>)
    requires multiset(xs) == multiset(ys)
    ensures Rankable(xs) <==> Rankable(ys)
  {
    if Rankable(xs) {
      forall i | 0 <= i < |ys|
        ensures IntOrZero(ys[i].points).Ok?
      {
        assert ys[i] in multiset(xs);
        var j :| 0 <= j < |xs| && xs[j] == ys[i];
      }
    }
    if Rankable(ys) {
      forall i | 0 <= i < |xs|
        ensures IntOrZero(xs[i].points).Ok?
      {
        assert xs[i] in multiset(ys);
        var j :| 0 <= j < |ys| && ys[j] == xs[i];
      }
    }
  }

  /**
   * With pairwise distinct points, the colour does not depend on the order of the collection.
   */
  lemma StyleIgnoresOrderWhenPointsDistinct(story: Story, xs: seq<Story>, ys: seq<Story>)
    requires multiset(xs) == multiset(ys)
    requires Rankable(xs)
    requires DistinctKeys(xs, PointsKey)
    ensures StoryStyle(story, xs) == StoryStyle(story, ys)
  {
    RankablePermutation(xs, ys);
    DistinctKeysOrderIrrelevant(xs, ys, PointsKey);
    assert |xs| == |multiset(xs)| == |ys|;
  }

  /**
   * With tied points, order decides: the same eleven stories make the tied story green when it
   * comes first and yellow (rank 10) when it comes last.
   */
  lemma TiesDependOnInputOrder(a: Story, others: seq<Story>)
    requires |others| == 10
    requires Rankable([a] + others)
    requires forall i :: 0 <= i < |others| ==> PointsKey(others[i]) == PointsKey(a) && others[i].id != a.id
    ensures StoryStyle(a, [a] + others) == BrightGreen
    ensures StoryStyle(a, others + [a]) == BrightYellow
  {
    var xs, ys := [a] + others, others + [a];
    TiedEnds(a, others);
    AllTiedUnchanged(xs, PointsKey, PointsKey(a));
    AllTiedUnchanged(ys, PointsKey, PointsKey(a));
    RankOfLast(a, others);
    assert RankOf(a.id, xs) == 0;
  }

  /** Prepending or appending `a` to stories that all share its points and rankability. */
  lemma TiedEnds(a: Story, others: seq<Story>)
    requires Rankable([a] + others)
    requires forall i :: 0 <= i < |others| ==> PointsKey(others[i]) == PointsKey(a)
    ensures Rankable(others + [a])
    ensures forall i :: 0 <= i < |others| + 1 ==> PointsKey(([a] + others)[i]) == PointsKey(a)
    ensures forall i :: 0 <= i < |others| + 1 ==> PointsKey((others + [a])[i]) == PointsKey(a)
  {
    var xs, ys := [a] + others, others + [a];
    forall i | 0 <= i < |ys|
      ensures IntOrZero(ys[i].points).Ok? && PointsKey(ys[i]) == PointsKey(a) && PointsKey(xs[i]) == PointsKey(a)
    {
      if i < |others| {
        assert ys[i] == xs[i + 1] == others[i];
      } else {
        assert ys[i] == xs[0];
      }
      if i > 0 {
        assert xs[i] == others[i - 1];
      }
    }
  }

  /** A story appended after stories with other ids is ranked last. */
  lemma RankOfLast(a: Story, others: seq<Story>)
    requires forall i :: 0 <= i < |others| ==> others[i].id != a.id
    ensures RankOf(a.id, others + [a]) == |others|
  {
    var ys := others + [a];
    assert forall i :: 0 <= i < |others| ==> ys[i] == others[i];
    assert ys[|others|] == a;
  }

}
