/**
 * Python's `sorted(xs, key=key, reverse=True)` and `list.sort(key=key, reverse=True)` on int
 * keys: a stable sort into descending key order. Elements with equal keys keep their input
 * order (Python's `reverse=True` does not reverse ties).
 */
module StableSort {
  import opened Seqs

  ghost predicate SortedDesc<T>(xs: seq<T>, key: T -> int)
  {
    forall i, j :: 0 <= i < j < |xs| ==> key(xs[i]) >= key(xs[j])
  }

  /** The elements of `xs` whose key is `k`, in order: the "block" stability speaks about. */
  function WithKey<T>(xs: seq<T>, key: T -> int, k: int): seq<T>
  {
    Filter(xs, x => key(x) == k)
  }

  /** No two positions of `xs` carry the same key. */
  ghost predicate DistinctKeys<T>(xs: seq<T>, key: T -> int)
  {
    forall i, j :: 0 <= i < j < |xs| ==> key(xs[i]) != key(xs[j])
  }

  /** Places `x` before the first element whose key is not larger than its own. */
  function Insert<T>(x: T, ys: seq<T>, key: T -> int): (r: seq<T>)
    ensures multiset(r) == multiset{x} + multiset(ys)
    ensures |r| == |ys| + 1
    ensures r[0] == x || (|ys| > 0 && r[0] == ys[0])
    ensures SortedDesc(ys, key) ==> SortedDesc(r, key)
    decreases |ys|
  {
    if |ys| == 0 || key(x) >= key(ys[0]) then [x] + ys
    else
      assert ys == [ys[0]] + ys[1..];
      var rest := Insert(x, ys[1..], key);
      InsertStep(x, ys, rest, key);
      [ys[0]] + rest
  }

  /**
   * One step of `Insert` past the head: what follows the head is `x` and the tail, all with
   * keys no larger than the head's, so the head keeps a sorted tail sorted.
   */
  lemma InsertStep<T>(x: T, ys: seq<T>, rest: seq<T>, key: T -> int)
    requires |ys| > 0 && key(x) < key(ys[0])
    requires multiset(rest) == multiset{x} + multiset(ys[1..])
    requires SortedDesc(ys[1..], key) ==> SortedDesc(rest, key)
    ensures SortedDesc(ys, key) ==> SortedDesc([ys[0]] + rest, key)
  {
    if SortedDesc(ys, key) {
      forall j | 0 <= j < |rest|
        ensures key(ys[0]) >= key(rest[j])
      {
        assert rest[j] in multiset(rest);
        if rest[j] != x {
          assert rest[j] in multiset(ys[1..]);
          var k :| 0 <= k < |ys[1..]| && ys[1..][k] == rest[j];
          assert ys[k + 1] == rest[j];
        }
      }
      var r := [ys[0]] + rest;
      forall i, j | 0 <= i < j < |r|
        ensures key(r[i]) >= key(r[j])
      {
        if i > 0 {
          assert r[i] == rest[i - 1] && r[j] == rest[j - 1];
        } else {
          assert r[j] == rest[j - 1];
        }
      }
    }
  }

  /** Insertion sort: a stable descending sort. */
  function SortDesc<T>(xs: seq<T>, key: T -> int): (r: seq<T>)
    ensures multiset(r) == multiset(xs)
    ensures |r| == |xs|
    ensures SortedDesc(r, key)
    decreases |xs|
  {
    if |xs| == 0 then []
    else
      assert xs == [xs[0]] + xs[1..];
      Insert(xs[0], SortDesc(xs[1..], key), key)
  }

  lemma WithKeyCons<T>(x: T, xs: seq<T>, key: T -> int, k: int)
    ensures WithKey([x] + xs, key, k) == (if key(x) == k then [x] else []) + WithKey(xs, key, k)
  {
    assert ([x] + xs)[1..] == xs;
  }

  /** Inserting `x` adds it to its own key's block, at the front, and leaves every other block alone. */
  lemma {:induction false} InsertWithKey<T>(x: T, ys: seq<T>, key: T -> int, k: int)
    ensures WithKey(Insert(x, ys, key), key, k) == (if key(x) == k then [x] else []) + WithKey(ys, key, k)
    decreases |ys|
  {
    if |ys| == 0 || key(x) >= key(ys[0]) {
      WithKeyCons(x, ys, key, k);
    } else {
      InsertWithKey(x, ys[1..], key, k);
      WithKeyCons(ys[0], Insert(x, ys[1..], key), key, k);
      WithKeyCons(ys[0], ys[1..], key, k);
      assert ys == [ys[0]] + ys[1..];
    }
  }

  /** Stability: within each key, the sorted output lists the elements in their input order. */
  lemma {:induction false} SortDescStable<T>(xs: seq<T>, key: T -> int, k: int)
    ensures WithKey(SortDesc(xs, key), key, k) == WithKey(xs, key, k)
    decreases |xs|
  {
    if |xs| > 0 {
      SortDescStable(xs[1..], key, k);
      InsertWithKey(xs[0], SortDesc(xs[1..], key), key, k);
      WithKeyCons(xs[0], xs[1..], key, k);
      assert xs == [xs[0]] + xs[1..];
    }
  }

  /**
   * `r` is `xs` stably sorted: in descending key order, and listing each key's elements in
   * their order in `xs`.
   */
  ghost predicate StablySorted<T>(r: seq<T>, xs: seq<T>, key: T -> int)
  {
    SortedDesc(r, key) && forall k :: WithKey(r, key, k) == WithKey(xs, key, k)
  }

  /** The result of the sort is its input stably sorted, for every key at once. */
  lemma SortDescStablySorted<T>(xs: seq<T>, key: T -> int)
    ensures StablySorted(SortDesc(xs, key), xs, key)
  {
    forall k
      ensures WithKey(SortDesc(xs, key), key, k) == WithKey(xs, key, k)
    {
      SortDescStable(xs, key, k);
    }
  }

  lemma {:induction false} WithKeyCount<T>(xs: seq<T>, key: T -> int, k: int, x: T)
    ensures multiset(WithKey(xs, key, k))[x] == if key(x) == k then multiset(xs)[x] else 0
    decreases |xs|
  {
    if |xs| > 0 {
      WithKeyCount(xs[1..], key, k, x);
      WithKeyCons(xs[0], xs[1..], key, k);
      assert xs == [xs[0]] + xs[1..];
    }
  }

  lemma WithKeyMember<T>(xs: seq<T>, key: T -> int, k: int, x: T)
    ensures x in WithKey(xs, key, k) <==> x in xs && key(x) == k
  {
    WithKeyCount(xs, key, k, x);
  }

  /**
   * A sorted sequence is determined by its blocks: two descending sequences that list the same
   * elements under every key, in the same order, are equal.
   */
  lemma HeadBlockNonEmpty<T>(s: seq<T>, key: T -> int)
    ensures |s| > 0 ==> WithKey(s, key, key(s[0])) != []
  {
    if |s| > 0 {
      assert s == [s[0]] + s[1..];
      WithKeyCons(s[0], s[1..], key, key(s[0]));
    }
  }

  lemma {:induction false} SortedBlocksDetermine<T>(r: seq<T>, s: seq<T>, key: T -> int)
    requires SortedDesc(r, key) && SortedDesc(s, key)
    requires forall k :: WithKey(r, key, k) == WithKey(s, key, k)
    ensures r == s
    decreases |r|
  {
    if |r| == 0 {
      HeadBlockNonEmpty(s, key);
    } else {
      var a := key(r[0]);
      assert r == [r[0]] + r[1..];
      WithKeyCons(r[0], r[1..], key, a);
      assert WithKey(s, key, a) != [];
      assert |s| > 0;
      assert s == [s[0]] + s[1..];
      var b := key(s[0]);
      WithKeyCons(s[0], s[1..], key, b);
      WithKeyMember(s, key, a, r[0]);
      WithKeyMember(r, key, b, s[0]);
      assert a == b;
      assert WithKey(r, key, a)[0] == r[0];
      WithKeyCons(s[0], s[1..], key, a);
      assert r[0] == s[0];
      forall k
        ensures WithKey(r[1..], key, k) == WithKey(s[1..], key, k)
      {
        WithKeyCons(r[0], r[1..], key, k);
        WithKeyCons(s[0], s[1..], key, k);
        var head := if key(r[0]) == k then [r[0]] else [];
        assert WithKey(r, key, k) == WithKey(s, key, k);
        assert WithKey(r[1..], key, k) == WithKey(r, key, k)[|head|..];
        assert WithKey(s[1..], key, k) == WithKey(s, key, k)[|head|..];
      }
      SortedBlocksDetermine(r[1..], s[1..], key);
    }
  }

  /**
   * `SortDesc` is THE stable descending sort: a sequence is its result exactly when it is in
   * descending key order and keeps every key's elements in input order.
   */
  lemma SortDescCharacterized<T>(xs: seq<T>, r: seq<T>, key: T -> int)
    ensures r == SortDesc(xs, key) <==>
            SortedDesc(r, key) && forall k :: WithKey(r, key, k) == WithKey(xs, key, k)
  {
    forall k
      ensures WithKey(SortDesc(xs, key), key, k) == WithKey(xs, key, k)
    {
      SortDescStable(xs, key, k);
    }
    if SortedDesc(r, key) && forall k :: WithKey(r, key, k) == WithKey(xs, key, k) {
      SortedBlocksDetermine(r, SortDesc(xs, key), key);
    }
  }

  /** When every key is the same, the stable sort changes nothing. */
  lemma {:induction false} AllTiedUnchanged<T>(xs: seq<T>, key: T -> int, c: int)
    requires forall i :: 0 <= i < |xs| ==> key(xs[i]) == c
    ensures SortDesc(xs, key) == xs
    decreases |xs|
  {
    if |xs| > 0 {
      AllTiedUnchanged(xs[1..], key, c);
      assert xs == [xs[0]] + xs[1..];
    }
  }

  lemma {:induction false} NoKeyEmptyBlock<T>(xs: seq<T>, key: T -> int, k: int)
    requires forall i :: 0 <= i < |xs| ==> key(xs[i]) != k
    ensures WithKey(xs, key, k) == []
    decreases |xs|
  {
    if |xs| > 0 {
      NoKeyEmptyBlock(xs[1..], key, k);
      WithKeyCons(xs[0], xs[1..], key, k);
      assert xs == [xs[0]] + xs[1..];
    }
  }

  lemma {:induction false} DistinctKeysSmallBlocks<T>(xs: seq<T>, key: T -> int, k: int)
    requires DistinctKeys(xs, key)
    ensures |WithKey(xs, key, k)| <= 1
    decreases |xs|
  {
    if |xs| > 0 {
      assert xs == [xs[0]] + xs[1..];
      WithKeyCons(xs[0], xs[1..], key, k);
      if key(xs[0]) == k {
        NoKeyEmptyBlock(xs[1..], key, k);
      } else {
        DistinctKeysSmallBlocks(xs[1..], key, k);
      }
    }
  }

  lemma {:induction false} WithKeyMultiset<T>(xs: seq<T>, ys: seq<T>, key: T -> int, k: int)
    requires multiset(xs) == multiset(ys)
    ensures multiset(WithKey(xs, key, k)) == multiset(WithKey(ys, key, k))
  {
    var a, b := multiset(WithKey(xs, key, k)), multiset(WithKey(ys, key, k));
    forall x
      ensures a[x] == b[x]
    {
      WithKeyCount(xs, key, k, x);
      WithKeyCount(ys, key, k, x);
    }
    MultisetExt(a, b);
  }

  /**
   * With pairwise distinct keys the input order cannot matter: any two arrangements of the same
   * elements sort to the same sequence.
   */
  lemma DistinctKeysOrderIrrelevant<T>(xs: seq<T>, ys: seq<T>, key: T -> int)
    requires DistinctKeys(xs, key)
    requires multiset(xs) == multiset(ys)
    ensures SortDesc(xs, key) == SortDesc(ys, key)
  {
    forall k
      ensures WithKey(SortDesc(ys, key), key, k) == WithKey(xs, key, k)
    {
      SortDescStable(ys, key, k);
      DistinctKeysSmallBlocks(xs, key, k);
      WithKeyMultiset(xs, ys, key, k);
      var a, b := WithKey(xs, key, k), WithKey(ys, key, k);
      assert |a| == |multiset(a)| == |multiset(b)| == |b|;
      if |a| == 1 {
        assert a[0] in multiset(b);
        assert a == [a[0]] && b == [b[0]];
      }
    }
    SortDescCharacterized(xs, SortDesc(ys, key), key);
  }

  lemma {:induction false} InsertKeyExt<T>(x: T, ys: seq<T>, key: T -> int, key': T -> int)
    requires key(x) == key'(x)
    requires forall i :: 0 <= i < |ys| ==> key(ys[i]) == key'(ys[i])
    ensures Insert(x, ys, key) == Insert(x, ys, key')
    decreases |ys|
  {
    if |ys| > 0 && key(x) < key(ys[0]) {
      InsertKeyExt(x, ys[1..], key, key');
    }
  }

  /** The sort depends only on the keys of the elements actually sorted. */
  lemma {:induction false} SortDescKeyExt<T>(xs: seq<T>, key: T -> int, key': T -> int)
    requires forall i :: 0 <= i < |xs| ==> key(xs[i]) == key'(xs[i])
    ensures SortDesc(xs, key) == SortDesc(xs, key')
    decreases |xs|
  {
    if |xs| > 0 {
      var rest := xs[1..];
      SortDescKeyExt(rest, key, key');
      var s := SortDesc(rest, key);
      forall i | 0 <= i < |s|
        ensures key(s[i]) == key'(s[i])
      {
        assert s[i] in multiset(rest);
        var j :| 0 <= j < |rest| && rest[j] == s[i];
        assert xs[j + 1] == s[i];
      }
      InsertKeyExt(xs[0], s, key, key');
    }
  }

  /** Sorting a sorted sequence again changes nothing. */
  lemma SortDescIdempotent<T>(xs: seq<T>, key: T -> int)
    ensures SortDesc(SortDesc(xs, key), key) == SortDesc(xs, key)
  {
    var r := SortDesc(xs, key);
    forall k
      ensures WithKey(r, key, k) == WithKey(SortDesc(r, key), key, k)
    {
      SortDescStable(r, key, k);
    }
    SortedBlocksDetermine(r, SortDesc(r, key), key);
  }
}
