/**
 * Stable ascending sort by a numeric key, as `Array.prototype.sort` with a
 * comparator `(a, b) => key(a) - key(b)` behaves (the sort is stable since
 * ECMAScript 2019). Modelled as a functional insertion sort and specified
 * independently: the result is in key order, is a permutation of the input,
 * and keeps the input order of elements with equal keys.
 */
module StableSort {

  /** `s` is in non-decreasing order of `key`. */
  predicate Sorted<T>(s: seq<T>, key: T -> real) {
    forall i, j :: 0 <= i < j < |s| ==> key(s[i]) <= key(s[j])
  }

  /** The elements of `s` whose key is `v`, in the order of `s`. */
  function WithKey<T>(s: seq<T>, key: T -> real, v: real): (r: seq<T>)
    ensures |r| <= |s|
    ensures forall i :: 0 <= i < |r| ==> key(r[i]) == v
  {
    if s == [] then []
    else if key(s[0]) == v then [s[0]] + WithKey(s[1..], key, v)
    else WithKey(s[1..], key, v)
  }

  /** `a` and `b` hold, for every key, the same elements of that key in the same order. */
  ghost predicate SameTies<T>(a: seq<T>, b: seq<T>, key: T -> real) {
    forall v :: WithKey(a, key, v) == WithKey(b, key, v)
  }

  /** `x` occurs somewhere before an occurrence of `y` in `s`. */
  ghost predicate Before<T>(s: seq<T>, x: T, y: T) {
    exists i, j :: 0 <= i < j < |s| && s[i] == x && s[j] == y
  }

  /** `x` placed in front of the first element of `ys` whose key is not below its own. */
  function Insert<T>(x: T, ys: seq<T>, key: T -> real): (r: seq<T>)
    ensures multiset(r) == multiset(ys) + multiset{x}
  {
    if ys == [] || key(x) <= key(ys[0]) then [x] + ys
    else
      var r := [ys[0]] + Insert(x, ys[1..], key);
      assert ys == [ys[0]] + ys[1..];
      r
  }

  /** The elements of `xs` in stable ascending order of `key`. */
  function SortBy<T>(xs: seq<T>, key: T -> real): (r: seq<T>)
    ensures multiset(r) == multiset(xs)
    ensures |r| == |xs|
  {
    if xs == [] then []
    else
      var r := Insert(xs[0], SortBy(xs[1..], key), key);
      assert xs == [xs[0]] + xs[1..];
      assert |r| == |multiset(r)|;
      r
  }

  // ---------------------------------------------------------------- order

  /** Inserting into a sorted sequence keeps it sorted. */
  lemma {:induction false} InsertSorted<T>(x: T, ys: seq<T>, key: T -> real)
    requires Sorted(ys, key)
    ensures Sorted(Insert(x, ys, key), key)
  {
    if ys != [] && key(x) > key(ys[0]) {
      var rest := Insert(x, ys[1..], key);
      InsertSorted(x, ys[1..], key);
      forall k | 0 <= k < |rest|
        ensures key(ys[0]) <= key(rest[k])
      {
        InsertMember(x, ys[1..], key, rest[k]);
        if rest[k] != x {
          SortedHead(ys, key, rest[k]);
        }
      }
    }
  }

  /** Every element of an insertion is the inserted one or an old one. */
  lemma InsertMember<T>(x: T, ys: seq<T>, key: T -> real, e: T)
    requires e in Insert(x, ys, key)
    ensures e == x || e in ys
  {
    assert e in multiset(Insert(x, ys, key));
  }

  /** The head of a sorted sequence has the smallest key. */
  lemma SortedHead<T>(s: seq<T>, key: T -> real, e: T)
    requires Sorted(s, key) && s != [] && e in s[1..]
    ensures key(s[0]) <= key(e)
  {
    var k :| 0 <= k < |s[1..]| && s[1..][k] == e;
    assert s[k + 1] == e;
  }

  /** The result is in non-decreasing key order. */
  lemma {:induction false} SortBySorted<T>(xs: seq<T>, key: T -> real)
    ensures Sorted(SortBy(xs, key), key)
  {
    if xs != [] {
      SortBySorted(xs[1..], key);
      InsertSorted(xs[0], SortBy(xs[1..], key), key);
    }
  }

  // ---------------------------------------------------------------- stability

  /** Filtering a sequence with one more element in front. */
  lemma WithKeyCons<T>(x: T, s: seq<T>, key: T -> real, v: real)
    ensures WithKey([x] + s, key, v) == (if key(x) == v then [x] else []) + WithKey(s, key, v)
  {
    assert ([x] + s)[1..] == s;
  }

  /** Among the elements of one key, inserting `x` puts it first. */
  lemma {:induction false} InsertWithKey<T>(x: T, ys: seq<T>, key: T -> real, v: real)
    ensures WithKey(Insert(x, ys, key), key, v) == WithKey([x] + ys, key, v)
  {
    if ys != [] && key(x) > key(ys[0]) {
      var y, rest := ys[0], ys[1..];
      InsertWithKey(x, rest, key, v);
      WithKeyCons(y, Insert(x, rest, key), key, v);
      WithKeyCons(x, rest, key, v);
      WithKeyCons(x, ys, key, v);
      WithKeyCons(y, rest, key, v);
      assert ys == [y] + rest;
    }
  }

  /** Stability: for every key, the elements with that key keep their input order. */
  lemma {:induction false} SortByStable<T>(xs: seq<T>, key: T -> real, v: real)
    ensures WithKey(SortBy(xs, key), key, v) == WithKey(xs, key, v)
  {
    if xs != [] {
      SortByStable(xs[1..], key, v);
      InsertWithKey(xs[0], SortBy(xs[1..], key), key, v);
      WithKeyCons(xs[0], SortBy(xs[1..], key), key, v);
      WithKeyCons(xs[0], xs[1..], key, v);
      assert xs == [xs[0]] + xs[1..];
    }
  }

  /** Two sorted sequences that agree on the elements of every key are equal: order
      and stability leave exactly one possible result. */
  lemma {:induction false} SortedUnique<T>(a: seq<T>, b: seq<T>, key: T -> real)
    requires Sorted(a, key) && Sorted(b, key)
    requires SameTies(a, b, key)
    ensures a == b
    decreases |a|
  {
    if a == [] {
      if b != [] {
        WithKeyHead(b, key);
        assert false;
      }
    } else if b == [] {
      WithKeyHead(a, key);
      assert false;
    } else {
      var va, vb := key(a[0]), key(b[0]);
      KeyOccursAtLeast(b, key, va, WithKey(a, key, va));
      KeyOccursAtLeast(a, key, vb, WithKey(b, key, vb));
      assert va == vb;
      WithKeyCons(a[0], a[1..], key, va);
      WithKeyCons(b[0], b[1..], key, va);
      assert a == [a[0]] + a[1..] && b == [b[0]] + b[1..];
      assert a[0] == b[0];
      forall v
        ensures WithKey(a[1..], key, v) == WithKey(b[1..], key, v)
      {
        WithKeyCons(a[0], a[1..], key, v);
        WithKeyCons(b[0], b[1..], key, v);
        var h := if key(a[0]) == v then [a[0]] else [];
        var wa, wb := WithKey(a[1..], key, v), WithKey(b[1..], key, v);
        assert h + wa == h + wb;
        assert wa == (h + wa)[|h|..] && wb == (h + wb)[|h|..];
      }
      SortedTail(a, key);
      SortedTail(b, key);
      SortedUnique(a[1..], b[1..], key);
    }
  }

  /** A non-empty sequence has an element of its first element's key. */
  lemma WithKeyHead<T>(s: seq<T>, key: T -> real)
    requires s != []
    ensures WithKey(s, key, key(s[0])) != []
  {
  }

  /** A sorted sequence holding an element of key `v` starts with a key no greater than `v`. */
  lemma KeyOccursAtLeast<T>(s: seq<T>, key: T -> real, v: real, w: seq<T>)
    requires Sorted(s, key) && s != []
    requires w == WithKey(s, key, v) && w != []
    ensures key(s[0]) <= v
  {
    WithKeyMember(s, key, v, w[0]);
  }

  /** Every element of a filter comes from the filtered sequence. */
  lemma {:induction false} WithKeyMember<T>(s: seq<T>, key: T -> real, v: real, e: T)
    requires e in WithKey(s, key, v)
    ensures e in s && key(e) == v
  {
    if s != [] && !(key(s[0]) == v && e == s[0]) {
      WithKeyMember(s[1..], key, v, e);
    }
  }

  lemma SortedTail<T>(s: seq<T>, key: T -> real)
    requires Sorted(s, key) && s != []
    ensures Sorted(s[1..], key)
  {
    forall i, j | 0 <= i < j < |s[1..]|
      ensures key(s[1..][i]) <= key(s[1..][j])
    {
      assert s[1..][i] == s[i + 1] && s[1..][j] == s[j + 1];
    }
  }

  /** `SortBy` meets its specification: the result is in key order and holds, for
      every key, the input's elements of that key in input order. */
  lemma SortByMeetsSpec<T>(xs: seq<T>, key: T -> real)
    ensures Sorted(SortBy(xs, key), key)
    ensures SameTies(SortBy(xs, key), xs, key)
  {
    SortBySorted(xs, key);
    forall v
      ensures WithKey(SortBy(xs, key), key, v) == WithKey(xs, key, v)
    {
      SortByStable(xs, key, v);
    }
  }

  /** The specification leaves one possible result: any sequence meeting it is the
      result of `SortBy`. */
  lemma SpecDeterminesSortBy<T>(xs: seq<T>, r: seq<T>, key: T -> real)
    requires Sorted(r, key)
    requires SameTies(r, xs, key)
    ensures r == SortBy(xs, key)
  {
    SortByMeetsSpec(xs, key);
    SortedUnique(r, SortBy(xs, key), key);
  }

  /** `SortBy` is characterised by its specification. */
  lemma SortByCharacterised<T>(xs: seq<T>, r: seq<T>, key: T -> real)
    ensures r == SortBy(xs, key)
            <==> Sorted(r, key) && SameTies(r, xs, key)
  {
    SortByMeetsSpec(xs, key);
    if Sorted(r, key) && SameTies(r, xs, key) {
      SpecDeterminesSortBy(xs, r, key);
    }
  }

  /** Sorting a sorted sequence changes nothing. */
  lemma SortBySortedInput<T>(xs: seq<T>, key: T -> real)
    requires Sorted(xs, key)
    ensures SortBy(xs, key) == xs
  {
    SortByCharacterised(xs, xs, key);
  }

  // ---------------------------------------------------------------- counting

  /** How many elements of `s` satisfy `p`. */
  function CountWhere<T>(s: seq<T>, p: T -> bool): (n: nat)
    ensures n <= |s|
  {
    if s == [] then 0 else (if p(s[0]) then 1 else 0) + CountWhere(s[1..], p)
  }

  lemma CountWhereCons<T>(x: T, s: seq<T>, p: T -> bool)
    ensures CountWhere([x] + s, p) == (if p(x) then 1 else 0) + CountWhere(s, p)
  {
    assert ([x] + s)[1..] == s;
  }

  /** Inserting adds one element to the count of what it satisfies. */
  lemma {:induction false} InsertCount<T>(x: T, ys: seq<T>, key: T -> real, p: T -> bool)
    ensures CountWhere(Insert(x, ys, key), p) == CountWhere([x] + ys, p)
  {
    if ys != [] && key(x) > key(ys[0]) {
      InsertCount(x, ys[1..], key, p);
      CountWhereCons(ys[0], Insert(x, ys[1..], key), p);
      CountWhereCons(x, ys[1..], p);
      CountWhereCons(x, ys, p);
    }
  }

  /** Sorting keeps the number of elements satisfying any property. */
  lemma {:induction false} SortByCount<T>(xs: seq<T>, key: T -> real, p: T -> bool)
    ensures CountWhere(SortBy(xs, key), p) == CountWhere(xs, p)
  {
    if xs != [] {
      SortByCount(xs[1..], key, p);
      InsertCount(xs[0], SortBy(xs[1..], key), key, p);
      CountWhereCons(xs[0], SortBy(xs[1..], key), p);
    }
  }

  /** When at most one element satisfies `p`, it sits at one index only. */
  lemma {:induction false} CountAtMostOne<T>(s: seq<T>, p: T -> bool, i: nat, j: nat)
    requires i < |s| && j < |s| && p(s[i]) && p(s[j]) && CountWhere(s, p) <= 1
    ensures i == j
  {
    if i != j {
      if i == 0 || j == 0 {
        var k := if i == 0 then j else i;
        CountAtLeastOne(s[1..], p, k - 1);
      } else {
        CountAtMostOne(s[1..], p, i - 1, j - 1);
      }
    }
  }

  /** An element satisfying `p` makes the count positive. */
  lemma {:induction false} CountAtLeastOne<T>(s: seq<T>, p: T -> bool, i: nat)
    requires i < |s| && p(s[i])
    ensures CountWhere(s, p) >= 1
  {
    if i > 0 {
      CountAtLeastOne(s[1..], p, i - 1);
    }
  }

  // ---------------------------------------------------------------- positions

  /** Inserting keeps every earlier-later pair in its order. */
  lemma {:induction false} InsertKeepsBefore<T>(z: T, ys: seq<T>, key: T -> real, x: T, y: T)
    requires Before(ys, x, y)
    ensures Before(Insert(z, ys, key), x, y)
  {
    var i, j :| 0 <= i < j < |ys| && ys[i] == x && ys[j] == y;
    var r := Insert(z, ys, key);
    if ys == [] || key(z) <= key(ys[0]) {
      assert r[i + 1] == x && r[j + 1] == y;
    } else if i == 0 {
      var rest := Insert(z, ys[1..], key);
      assert y in multiset(ys[1..]) by { assert ys[1..][j - 1] == y; }
      assert y in multiset(rest);
      var k :| 0 <= k < |rest| && rest[k] == y;
      assert r[0] == x && r[k + 1] == y;
    } else {
      assert ys[1..][i - 1] == x && ys[1..][j - 1] == y;
      InsertKeepsBefore(z, ys[1..], key, x, y);
      var rest := Insert(z, ys[1..], key);
      var p, q :| 0 <= p < q < |rest| && rest[p] == x && rest[q] == y;
      assert r[p + 1] == x && r[q + 1] == y;
    }
  }

  /** An inserted element goes in front of every element with the same key. */
  lemma {:induction false} InsertBeforeTies<T>(z: T, ys: seq<T>, key: T -> real, y: T)
    requires y in ys && key(y) == key(z)
    ensures Before(Insert(z, ys, key), z, y)
  {
    var j :| 0 <= j < |ys| && ys[j] == y;
    var r := Insert(z, ys, key);
    if key(z) <= key(ys[0]) {
      assert r[0] == z && r[j + 1] == y;
    } else {
      assert ys[1..][j - 1] == y;
      InsertBeforeTies(z, ys[1..], key, y);
      var rest := Insert(z, ys[1..], key);
      var p, q :| 0 <= p < q < |rest| && rest[p] == z && rest[q] == y;
      assert r[p + 1] == z && r[q + 1] == y;
    }
  }

  /** Stability, by position: when an element occurs before another of the same key
      in the input, it also does in the result. */
  lemma {:induction false} SortByKeepsTies<T>(xs: seq<T>, key: T -> real, x: T, y: T)
    requires Before(xs, x, y) && key(x) == key(y)
    ensures Before(SortBy(xs, key), x, y)
  {
    var i, j :| 0 <= i < j < |xs| && xs[i] == x && xs[j] == y;
    var rest := SortBy(xs[1..], key);
    if i == 0 {
      assert y in multiset(xs[1..]) by { assert xs[1..][j - 1] == y; }
      assert y in multiset(rest);
      InsertBeforeTies(x, rest, key, y);
    } else {
      assert xs[1..][i - 1] == x && xs[1..][j - 1] == y;
      SortByKeepsTies(xs[1..], key, x, y);
      InsertKeepsBefore(xs[0], rest, key, x, y);
    }
  }

  /** In a sorted sequence a strictly smaller key comes first. */
  lemma SortedBefore<T>(s: seq<T>, key: T -> real, p: nat, q: nat)
    requires Sorted(s, key) && p < |s| && q < |s| && key(s[p]) < key(s[q])
    ensures p < q
  {
  }

  /** Elements of equal key at indices `a < b` keep their order. */
  lemma KeepsTies<T>(xs: seq<T>, key: T -> real, a: nat, b: nat)
    requires a < b < |xs| && key(xs[a]) == key(xs[b])
    ensures exists p, q :: 0 <= p < q < |SortBy(xs, key)| && SortBy(xs, key)[p] == xs[a] && SortBy(xs, key)[q] == xs[b]
  {
    assert Before(xs, xs[a], xs[b]);
    SortByKeepsTies(xs, key, xs[a], xs[b]);
  }
}
