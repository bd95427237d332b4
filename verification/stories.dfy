/** The story record shared by the scraper, the cache and both apps. */
module Stories {
  import opened Values

  /**
   * A story dictionary; every key may be missing. `title` is the `link_text` key and `time`
   * the raw `data-date` attribute.
   */
  datatype Story = Story(id: Value, points: Value, comments: Value, link: Value, title: Value, time: Value, homepage: Value)

  /** `story.get("link_text")` is truthy: the story can be shown. */
  predicate HasTitle(s: Story)
  {
    Truthy(s.title)
  }

  function Ids(xs: seq<Story>): set<Value>
  {
    set i | 0 <= i < |xs| :: xs[i].id
  }

  /** Ids are unique within one day's collection. */
  ghost predicate UniqueIds(xs: seq<Story>)
  {
    forall i, j :: 0 <= i < j < |xs| ==> xs[i].id != xs[j].id
  }

  /** With unique ids there are as many ids as stories. */
  lemma {:induction false} UniqueIdsCount(xs: seq<Story>)
    requires UniqueIds(xs)
    ensures |Ids(xs)| == |xs|
    decreases |xs|
  {
    if |xs| > 0 {
      UniqueIdsCount(xs[1..]);
      assert Ids(xs) == {xs[0].id} + Ids(xs[1..]) by {
        forall v | v in Ids(xs)
          ensures v in {xs[0].id} + Ids(xs[1..])
        {
          var i :| 0 <= i < |xs| && xs[i].id == v;
          if i > 0 {
            assert xs[1..][i - 1].id == v;
          }
        }
        forall v | v in Ids(xs[1..])
          ensures v in Ids(xs)
        {
          var i :| 0 <= i < |xs[1..]| && xs[1..][i].id == v;
          assert xs[i + 1].id == v;
        }
      }
      forall i | 0 <= i < |xs[1..]|
        ensures xs[1..][i].id != xs[0].id
      {
        assert xs[1..][i] == xs[i + 1];
      }
    }
  }

  lemma IdsMember(xs: seq<Story>, v: Value)
    ensures v in Ids(xs) <==> exists s :: s in xs && s.id == v
  {
    if v in Ids(xs) {
      var i :| 0 <= i < |xs| && xs[i].id == v;
      assert xs[i] in xs;
    }
  }

  /** Ids depend only on which stories occur, not on their order. */
  lemma IdsOfPermutation(xs: seq<Story>, ys: seq<Story>)
    requires multiset(xs) == multiset(ys)
    ensures Ids(xs) == Ids(ys)
  {
    forall v | v in Ids(xs)
      ensures v in Ids(ys)
    {
      var i :| 0 <= i < |xs| && xs[i].id == v;
      assert xs[i] in multiset(ys);
      var j :| 0 <= j < |ys| && ys[j] == xs[i];
    }
    forall v | v in Ids(ys)
      ensures v in Ids(xs)
    {
      var i :| 0 <= i < |ys| && ys[i].id == v;
      assert ys[i] in multiset(xs);
      var j :| 0 <= j < |xs| && xs[j] == ys[i];
    }
  }

  lemma IdsCons(x: Story, xs: seq<Story>)
    ensures Ids([x] + xs) == {x.id} + Ids(xs)
  {
    var ys := [x] + xs;
    forall v | v in Ids(ys)
      ensures v in {x.id} + Ids(xs)
    {
      var i :| 0 <= i < |ys| && ys[i].id == v;
      if i > 0 {
        assert xs[i - 1].id == v;
      }
    }
    forall v | v in Ids(xs)
      ensures v in Ids(ys)
    {
      var i :| 0 <= i < |xs| && xs[i].id == v;
      assert ys[i + 1].id == v;
    }
    assert ys[0].id == x.id;
  }

  lemma {:induction false} IdsAtMostCount(xs: seq<Story>)
    ensures |Ids(xs)| <= |xs|
    decreases |xs|
  {
    if |xs| > 0 {
      IdsAtMostCount(xs[1..]);
      IdsCons(xs[0], xs[1..]);
      assert xs == [xs[0]] + xs[1..];
    }
  }

  /** A repeated id leaves fewer ids than stories. */
  lemma RepeatedIdShrinksIds(xs: seq<Story>, i: nat, j: nat)
    requires i < j < |xs|
    ensures xs[i].id == xs[j].id ==> |Ids(xs)| < |xs|
  {
    if xs[i].id == xs[j].id {
      var rest := xs[..j] + xs[j + 1..];
      assert xs == xs[..j] + [xs[j]] + xs[j + 1..];
      forall v | v in Ids(xs)
        ensures v in Ids(rest)
      {
        var k :| 0 <= k < |xs| && xs[k].id == v;
        if k < j {
          assert rest[k] == xs[k];
        } else if k == j {
          assert rest[i] == xs[i];
        } else {
          assert rest[k - 1] == xs[k];
        }
      }
      assert Ids(xs) <= Ids(rest);
      SubsetCard(Ids(xs), Ids(rest));
      IdsAtMostCount(rest);
    }
  }

  /** Unique ids is the same as having as many ids as stories. */
  lemma UniqueIdsByCount(xs: seq<Story>)
    ensures UniqueIds(xs) <==> |Ids(xs)| == |xs|
  {
    if UniqueIds(xs) {
      UniqueIdsCount(xs);
    }
    if |Ids(xs)| == |xs| {
      forall i, j | 0 <= i < j < |xs|
        ensures xs[i].id != xs[j].id
      {
        RepeatedIdShrinksIds(xs, i, j);
      }
    }
  }

  /** Reordering a collection keeps its ids unique. */
  lemma UniqueIdsPermutation(xs: seq<Story>, ys: seq<Story>)
    requires multiset(xs) == multiset(ys)
    requires UniqueIds(xs)
    ensures UniqueIds(ys)
  {
    UniqueIdsByCount(xs);
    IdsOfPermutation(xs, ys);
    assert |xs| == |multiset(xs)| == |ys|;
    UniqueIdsByCount(ys);
  }

  lemma UniqueIdsCons(x: Story, xs: seq<Story>)
    ensures UniqueIds([x] + xs) <==> x.id !in Ids(xs) && UniqueIds(xs)
  {
    var ys := [x] + xs;
    if UniqueIds(ys) {
      forall i, j | 0 <= i < j < |xs|
        ensures xs[i].id != xs[j].id
      {
        assert ys[i + 1] == xs[i] && ys[j + 1] == xs[j];
      }
      forall i | 0 <= i < |xs|
        ensures xs[i].id != x.id
      {
        assert ys[0] == x && ys[i + 1] == xs[i];
      }
    }
    if x.id !in Ids(xs) && UniqueIds(xs) {
      forall i, j | 0 <= i < j < |ys|
        ensures ys[i].id != ys[j].id
      {
        assert ys[j] == xs[j - 1];
        if i > 0 {
          assert ys[i] == xs[i - 1];
        }
      }
    }
  }

  /** In a collection with unique ids, a story is determined by its id. */
  lemma SameIdSameStory(xs: seq<Story>, s: Story, t: Story)
    requires UniqueIds(xs)
    requires s in xs && t in xs
    ensures s.id == t.id ==> s == t
  {
    var i :| 0 <= i < |xs| && xs[i] == s;
    var j :| 0 <= j < |xs| && xs[j] == t;
  }

  lemma SubsetCard<T>(a: set<T>, b: set<T>)
    requires a <= b
    ensures |a| <= |b|
  {
    assert b == a + (b - a);
  }
}
