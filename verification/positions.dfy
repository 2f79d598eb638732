/**
 * Ranking by position in a stable ascending sort. Both rank tables of the
 * pipeline are built the same way: sort, then walk the sorted sequence setting
 * `map.set(key, i + 1)` for each element, so that a key that occurs more than
 * once ends up with the position of its last occurrence.
 */
module Positions {
  import opened StableSort

  /** The test "has key `k`". */
  function Is<T, K(==)>(keyOf: T -> K, k: K): T -> bool {
    x => keyOf(x) == k
  }

  lemma IsMeans<T, K>(keyOf: T -> K, k: K, x: T)
    ensures Is(keyOf, k)(x) <==> keyOf(x) == k
  {
  }

  /** Key `k` occurs at most once in `xs`. */
  predicate AtMostOnce<T, K(==)>(xs: seq<T>, keyOf: T -> K, k: K) {
    CountWhere(xs, Is(keyOf, k)) <= 1
  }

  /** No two elements of `xs` share a key. */
  predicate DistinctKeys<T, K(==)>(xs: seq<T>, keyOf: T -> K) {
    forall i, j :: 0 <= i < j < |xs| ==> keyOf(xs[i]) != keyOf(xs[j])
  }

  /** The map `forEach((x, i) => map.set(keyOf(x), i + 1))` builds. */
  function LastPositions<T, K(==,!new)>(s: seq<T>, keyOf: T -> K): map<K, nat> {
    if s == [] then map[]
    else LastPositions(s[..|s| - 1], keyOf)[keyOf(s[|s| - 1]) := |s|]
  }

  /** Exactly the keys of `s` get a position. */
  lemma {:induction false} LastPositionsDomain<T, K(!new)>(s: seq<T>, keyOf: T -> K, k: K)
    ensures k in LastPositions(s, keyOf) <==> exists i :: 0 <= i < |s| && keyOf(s[i]) == k
  {
    if s != [] {
      var init := s[..|s| - 1];
      LastPositionsDomain(init, keyOf, k);
      if exists i :: 0 <= i < |s| && keyOf(s[i]) == k {
        var i :| 0 <= i < |s| && keyOf(s[i]) == k;
        if i < |init| {
          assert init[i] == s[i];
        }
      }
      if exists i :: 0 <= i < |init| && keyOf(init[i]) == k {
        var i :| 0 <= i < |init| && keyOf(init[i]) == k;
        assert init[i] == s[i];
      }
    }
  }

  /** The position stored for a key is one more than the index of its last occurrence. */
  lemma {:induction false} LastPositionsAt<T, K(!new)>(s: seq<T>, keyOf: T -> K, k: K)
    requires k in LastPositions(s, keyOf)
    ensures var n := LastPositions(s, keyOf)[k];
            && 1 <= n <= |s| && keyOf(s[n - 1]) == k
            && forall j :: n <= j < |s| ==> keyOf(s[j]) != k
  {
    var init := s[..|s| - 1];
    if keyOf(s[|s| - 1]) != k {
      LastPositionsAt(init, keyOf, k);
      var n := LastPositions(s, keyOf)[k];
      assert s[n - 1] == init[n - 1];
      forall j | n <= j < |s|
        ensures keyOf(s[j]) != k
      {
        if j < |init| {
          assert s[j] == init[j];
        }
      }
    }
  }

  /** Ranks by ascending `time`: each key's position, counted from 1, in the stably
      sorted sequence, taking its last occurrence. */
  function Ranks<T, K(==,!new)>(xs: seq<T>, time: T -> real, keyOf: T -> K): map<K, nat> {
    LastPositions(SortBy(xs, time), keyOf)
  }

  /** Every element of the sorted sequence comes from the input. */
  lemma SortedFromInput<T>(xs: seq<T>, time: T -> real, p: nat) returns (i: nat)
    requires p < |SortBy(xs, time)|
    ensures i < |xs| && xs[i] == SortBy(xs, time)[p]
  {
    var s := SortBy(xs, time);
    assert s[p] in multiset(s);
    assert s[p] in multiset(xs);
    i :| 0 <= i < |xs| && xs[i] == s[p];
  }

  /** Every element of the input is in the sorted sequence. */
  lemma InputInSorted<T>(xs: seq<T>, time: T -> real, i: nat)
    requires i < |xs|
    ensures exists p :: 0 <= p < |SortBy(xs, time)| && SortBy(xs, time)[p] == xs[i]
  {
    var s := SortBy(xs, time);
    assert xs[i] in multiset(xs);
    assert xs[i] in multiset(s);
  }

  /** Exactly the keys of the input are ranked. */
  lemma RanksDomain<T, K(!new)>(xs: seq<T>, time: T -> real, keyOf: T -> K, k: K)
    ensures k in Ranks(xs, time, keyOf) <==> exists i :: 0 <= i < |xs| && keyOf(xs[i]) == k
  {
    var s := SortBy(xs, time);
    LastPositionsDomain(s, keyOf, k);
    if k in Ranks(xs, time, keyOf) {
      var p :| 0 <= p < |s| && keyOf(s[p]) == k;
      var i := SortedFromInput(xs, time, p);
    }
    if exists i :: 0 <= i < |xs| && keyOf(xs[i]) == k {
      var i :| 0 <= i < |xs| && keyOf(xs[i]) == k;
      InputInSorted(xs, time, i);
    }
  }

  /** Every rank lies between 1 and the number of elements. */
  lemma RanksBounded<T, K(!new)>(xs: seq<T>, time: T -> real, keyOf: T -> K, k: K)
    requires k in Ranks(xs, time, keyOf)
    ensures 1 <= Ranks(xs, time, keyOf)[k] <= |xs|
  {
    LastPositionsAt(SortBy(xs, time), keyOf, k);
  }

  /** Different keys get different ranks. */
  lemma RanksInjective<T, K(!new)>(xs: seq<T>, time: T -> real, keyOf: T -> K, k1: K, k2: K)
    requires k1 in Ranks(xs, time, keyOf) && k2 in Ranks(xs, time, keyOf) && k1 != k2
    ensures Ranks(xs, time, keyOf)[k1] != Ranks(xs, time, keyOf)[k2]
  {
    LastPositionsAt(SortBy(xs, time), keyOf, k1);
    LastPositionsAt(SortBy(xs, time), keyOf, k2);
  }

  /** A key that occurs at most once is stored with its one position. */
  lemma LastPositionOfOnce<T, K(!new)>(s: seq<T>, keyOf: T -> K, p: nat)
    requires p < |s| && AtMostOnce(s, keyOf, keyOf(s[p]))
    ensures var k := keyOf(s[p]);
            k in LastPositions(s, keyOf) && LastPositions(s, keyOf)[k] == p + 1
  {
    var k := keyOf(s[p]);
    var q := LastIndexOf(s, keyOf, p);
    IsMeans(keyOf, k, s[p]);
    IsMeans(keyOf, k, s[q]);
    CountAtMostOne(s, Is(keyOf, k), p, q);
  }

  /** The key of any element is in the table, at the position of an element with that key. */
  lemma LastIndexOf<T, K(!new)>(s: seq<T>, keyOf: T -> K, p: nat) returns (q: nat)
    requires p < |s|
    ensures q < |s| && keyOf(s[q]) == keyOf(s[p])
    ensures keyOf(s[p]) in LastPositions(s, keyOf) && LastPositions(s, keyOf)[keyOf(s[p])] == q + 1
  {
    var k := keyOf(s[p]);
    LastPositionsDomain(s, keyOf, k);
    LastPositionsAt(s, keyOf, k);
    q := LastPositions(s, keyOf)[k] - 1;
  }

  /** A key that occurs at most once in the input has, as its rank, the position of
      any sorted element that carries it. */
  lemma RankIsPosition<T, K(!new)>(xs: seq<T>, time: T -> real, keyOf: T -> K, p: nat)
    requires p < |xs| && AtMostOnce(xs, keyOf, keyOf(SortBy(xs, time)[p]))
    ensures var k := keyOf(SortBy(xs, time)[p]);
            k in Ranks(xs, time, keyOf) && Ranks(xs, time, keyOf)[k] == p + 1
  {
    var s := SortBy(xs, time);
    SortByCount(xs, time, Is(keyOf, keyOf(s[p])));
    LastPositionOfOnce(s, keyOf, p);
  }

  /** The element ranked for a key that occurs once is that key's element. */
  lemma RankedElement<T, K(!new)>(xs: seq<T>, time: T -> real, keyOf: T -> K, a: nat)
    requires a < |xs| && AtMostOnce(xs, keyOf, keyOf(xs[a]))
    ensures var k := keyOf(xs[a]);
            && k in Ranks(xs, time, keyOf) && 1 <= Ranks(xs, time, keyOf)[k] <= |xs|
            && SortBy(xs, time)[Ranks(xs, time, keyOf)[k] - 1] == xs[a]
  {
    var s := SortBy(xs, time);
    var k := keyOf(xs[a]);
    RanksDomain(xs, time, keyOf, k);
    LastPositionsAt(s, keyOf, k);
    OnceElement(xs, s, keyOf, a, Ranks(xs, time, keyOf)[k] - 1);
  }

  /** `RankedElement`, naming the sorted position. */
  lemma RankedAt<T, K(!new)>(xs: seq<T>, time: T -> real, keyOf: T -> K, a: nat) returns (p: nat)
    requires a < |xs| && AtMostOnce(xs, keyOf, keyOf(xs[a]))
    ensures p < |xs| && SortBy(xs, time)[p] == xs[a]
    ensures keyOf(xs[a]) in Ranks(xs, time, keyOf) && Ranks(xs, time, keyOf)[keyOf(xs[a])] == p + 1
  {
    RankedElement(xs, time, keyOf, a);
    p := Ranks(xs, time, keyOf)[keyOf(xs[a])] - 1;
  }

  /** In the sorted output, a strictly smaller key comes first. */
  lemma SortedOutputBefore<T>(xs: seq<T>, time: T -> real, p: nat, q: nat)
    requires p < |xs| && q < |xs| && time(SortBy(xs, time)[p]) < time(SortBy(xs, time)[q])
    ensures p < q
  {
    SortBySorted(xs, time);
    SortedBefore(SortBy(xs, time), time, p, q);
  }

  /** In a permutation of `xs`, an element with a key that occurs once in `xs` is that
      key's element. */
  lemma OnceElement<T, K>(xs: seq<T>, s: seq<T>, keyOf: T -> K, a: nat, p: nat)
    requires a < |xs| && p < |s| && multiset(s) == multiset(xs)
    requires AtMostOnce(xs, keyOf, keyOf(xs[a])) && keyOf(s[p]) == keyOf(xs[a])
    ensures s[p] == xs[a]
  {
    var k := keyOf(xs[a]);
    assert s[p] in multiset(xs);
    var i :| 0 <= i < |xs| && xs[i] == s[p];
    IsMeans(keyOf, k, xs[i]);
    IsMeans(keyOf, k, xs[a]);
    CountAtMostOne(xs, Is(keyOf, k), i, a);
  }

  /** Among keys that occur once, a strictly smaller time gives a strictly smaller rank. */
  lemma RanksFaster<T, K(!new)>(xs: seq<T>, time: T -> real, keyOf: T -> K, a: nat, b: nat)
    requires a < |xs| && b < |xs|
    requires AtMostOnce(xs, keyOf, keyOf(xs[a])) && AtMostOnce(xs, keyOf, keyOf(xs[b]))
    requires time(xs[a]) < time(xs[b])
    ensures var m := Ranks(xs, time, keyOf);
            keyOf(xs[a]) in m && keyOf(xs[b]) in m && m[keyOf(xs[a])] < m[keyOf(xs[b])]
  {
    var p := RankedAt(xs, time, keyOf, a);
    var q := RankedAt(xs, time, keyOf, b);
    SortedOutputBefore(xs, time, p, q);
  }

  /** Among keys that occur once, equal times keep the input order. */
  lemma RanksTies<T, K(!new)>(xs: seq<T>, time: T -> real, keyOf: T -> K, a: nat, b: nat)
    requires a < b < |xs|
    requires AtMostOnce(xs, keyOf, keyOf(xs[a])) && AtMostOnce(xs, keyOf, keyOf(xs[b]))
    requires time(xs[a]) == time(xs[b])
    ensures var m := Ranks(xs, time, keyOf);
            keyOf(xs[a]) in m && keyOf(xs[b]) in m && m[keyOf(xs[a])] < m[keyOf(xs[b])]
  {
    var s := SortBy(xs, time);
    assert Before(xs, xs[a], xs[b]);
    SortByKeepsTies(xs, time, xs[a], xs[b]);
    var p, q :| 0 <= p < q < |s| && s[p] == xs[a] && s[q] == xs[b];
    RankIsPosition(xs, time, keyOf, p);
    RankIsPosition(xs, time, keyOf, q);
  }

  /** With distinct keys every key occurs at most once. */
  lemma {:induction false} DistinctAtMostOnce<T, K>(xs: seq<T>, keyOf: T -> K, k: K)
    requires DistinctKeys(xs, keyOf)
    ensures AtMostOnce(xs, keyOf, k)
  {
    if xs != [] {
      var tail := xs[1..];
      assert DistinctKeys(tail, keyOf) by {
        forall i, j | 0 <= i < j < |tail|
          ensures keyOf(tail[i]) != keyOf(tail[j])
        {
          assert tail[i] == xs[i + 1] && tail[j] == xs[j + 1];
        }
      }
      DistinctAtMostOnce(tail, keyOf, k);
      if keyOf(xs[0]) == k && CountWhere(tail, Is(keyOf, k)) >= 1 {
        var i := CountPositiveIndex(tail, Is(keyOf, k));
      }
    }
  }

  /** A positive count has a witness. */
  lemma {:induction false} CountPositiveIndex<T>(s: seq<T>, p: T -> bool) returns (i: nat)
    requires CountWhere(s, p) >= 1
    ensures i < |s| && p(s[i])
  {
    if p(s[0]) {
      i := 0;
    } else {
      var j := CountPositiveIndex(s[1..], p);
      i := j + 1;
    }
  }

  /** With distinct keys the ranks are exactly 1 to the number of elements. */
  lemma RanksDense<T, K(!new)>(xs: seq<T>, time: T -> real, keyOf: T -> K, r: nat)
    requires DistinctKeys(xs, keyOf) && 1 <= r <= |xs|
    ensures exists k :: k in Ranks(xs, time, keyOf) && Ranks(xs, time, keyOf)[k] == r
  {
    var s := SortBy(xs, time);
    DistinctAtMostOnce(xs, keyOf, keyOf(s[r - 1]));
    RankIsPosition(xs, time, keyOf, r - 1);
  }

  /** Keys that each occur at most once are distinct. */
  lemma OnceDistinct<T, K>(s: seq<T>, keyOf: T -> K)
    requires forall k :: AtMostOnce(s, keyOf, k)
    ensures DistinctKeys(s, keyOf)
  {
    forall p, q | 0 <= p < q < |s|
      ensures keyOf(s[p]) != keyOf(s[q])
    {
      var k := keyOf(s[p]);
      IsMeans(keyOf, k, s[p]);
      IsMeans(keyOf, k, s[q]);
      if keyOf(s[q]) == k {
        assert AtMostOnce(s, keyOf, k);
        CountAtMostOne(s, Is(keyOf, k), p, q);
      }
    }
  }

  /** Sorting keeps keys distinct. */
  lemma SortByDistinct<T, K>(xs: seq<T>, time: T -> real, keyOf: T -> K)
    requires DistinctKeys(xs, keyOf)
    ensures DistinctKeys(SortBy(xs, time), keyOf)
  {
    forall k
      ensures AtMostOnce(SortBy(xs, time), keyOf, k)
    {
      DistinctAtMostOnce(xs, keyOf, k);
      SortByCount(xs, time, Is(keyOf, k));
    }
    OnceDistinct(SortBy(xs, time), keyOf);
  }
}
