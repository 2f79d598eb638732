/**
 * Order-keeping sequence operations the pipeline uses: filtering with a
 * transformation (`filter` followed by `map`, or a loop that pushes some
 * elements), and the iteration order of a JavaScript `Set` built by adding
 * values one at a time (first insertion wins, later duplicates are ignored).
 */
module Sequences {
  import opened Wrappers

  // ---------------------------------------------------------------- filter-map

  /** The values `f` gives for the elements of `xs` it accepts, in the order of `xs`. */
  function FilterMap<A, B>(xs: seq<A>, f: A -> Option<B>): (r: seq<B>)
    ensures |r| <= |xs|
  {
    if xs == [] then []
    else (if f(xs[0]).Some? then [f(xs[0]).value] else []) + FilterMap(xs[1..], f)
  }

  lemma {:induction false} FilterMapAppend<A, B>(xs: seq<A>, ys: seq<A>, f: A -> Option<B>)
    ensures FilterMap(xs + ys, f) == FilterMap(xs, f) + FilterMap(ys, f)
  {
    if xs == [] {
      assert xs + ys == ys;
    } else {
      var h := if f(xs[0]).Some? then [f(xs[0]).value] else [];
      assert (xs + ys)[0] == xs[0];
      assert (xs + ys)[1..] == xs[1..] + ys;
      FilterMapAppend(xs[1..], ys, f);
      AppendAssoc(h, FilterMap(xs[1..], f), FilterMap(ys, f));
    }
  }

  lemma AppendAssoc<T>(a: seq<T>, b: seq<T>, c: seq<T>)
    ensures a + (b + c) == (a + b) + c
  {
  }

  /** Every value of the result is what `f` gives for some element of the input. */
  lemma {:induction false} FilterMapSource<A, B>(xs: seq<A>, f: A -> Option<B>, j: nat) returns (i: nat)
    requires j < |FilterMap(xs, f)|
    ensures i < |xs| && f(xs[i]) == Some(FilterMap(xs, f)[j])
    ensures j == |FilterMap(xs[..i], f)|
  {
    if f(xs[0]).Some? && j == 0 {
      i := 0;
    } else {
      var k := if f(xs[0]).Some? then j - 1 else j;
      var i' := FilterMapSource(xs[1..], f, k);
      i := i' + 1;
      assert xs[..i][1..] == xs[1..][..i'];
    }
  }

  /** An accepted element's value sits in the result just after the values of the
      elements before it. */
  lemma FilterMapIndex<A, B>(xs: seq<A>, f: A -> Option<B>, i: nat) returns (j: nat)
    requires i < |xs| && f(xs[i]).Some?
    ensures j == |FilterMap(xs[..i], f)|
    ensures j < |FilterMap(xs, f)| && FilterMap(xs, f)[j] == f(xs[i]).value
  {
    j := |FilterMap(xs[..i], f)|;
    assert xs == xs[..i] + ([xs[i]] + xs[i + 1..]);
    FilterMapAppend(xs[..i], [xs[i]] + xs[i + 1..], f);
    assert ([xs[i]] + xs[i + 1..])[1..] == xs[i + 1..];
  }

  /** Accepted elements keep their relative order. */
  lemma FilterMapOrder<A, B>(xs: seq<A>, f: A -> Option<B>, a: nat, b: nat)
    requires a < b <= |xs| && f(xs[a]).Some?
    ensures |FilterMap(xs[..a], f)| < |FilterMap(xs[..b], f)|
  {
    assert xs[..b] == xs[..a] + ([xs[a]] + xs[a + 1..b]);
    FilterMapAppend(xs[..a], [xs[a]] + xs[a + 1..b], f);
    assert ([xs[a]] + xs[a + 1..b])[1..] == xs[a + 1..b];
  }

  /** A value is in the result exactly when `f` gives it for some element. */
  lemma FilterMapMember<A, B>(xs: seq<A>, f: A -> Option<B>, y: B)
    ensures y in FilterMap(xs, f) <==> exists i :: 0 <= i < |xs| && f(xs[i]) == Some(y)
  {
    if y in FilterMap(xs, f) {
      var j :| 0 <= j < |FilterMap(xs, f)| && FilterMap(xs, f)[j] == y;
      var i := FilterMapSource(xs, f, j);
    }
    if exists i :: 0 <= i < |xs| && f(xs[i]) == Some(y) {
      var i :| 0 <= i < |xs| && f(xs[i]) == Some(y);
      var j := FilterMapIndex(xs, f, i);
    }
  }

  // ---------------------------------------------------------------- distinct values

  /** No value occurs twice in `xs`. */
  predicate Distinct<T(==)>(xs: seq<T>) {
    forall i, j :: 0 <= i < j < |xs| ==> xs[i] != xs[j]
  }

  /** The values of `xs` in the order a `Set` filled from `xs` iterates them: each
      value at its first occurrence. */
  function Dedup<T(==)>(xs: seq<T>): (r: seq<T>)
    ensures |r| <= |xs|
  {
    if xs == [] then []
    else
      var d := Dedup(xs[..|xs| - 1]);
      if xs[|xs| - 1] in d then d else d + [xs[|xs| - 1]]
  }

  /** The set holds exactly the values added to it. */
  lemma {:induction false} DedupMember<T>(xs: seq<T>, x: T)
    ensures x in Dedup(xs) <==> x in xs
  {
    if xs != [] {
      var init := xs[..|xs| - 1];
      DedupMember(init, x);
      assert xs == init + [xs[|xs| - 1]];
    }
  }

  /** A set iterates each value once. */
  lemma {:induction false} DedupDistinct<T>(xs: seq<T>)
    ensures Distinct(Dedup(xs))
  {
    if xs != [] {
      DedupDistinct(xs[..|xs| - 1]);
    }
  }

  /** Adding values never reorders the ones already in the set. */
  lemma {:induction false} DedupPrefix<T>(xs: seq<T>, n: nat)
    requires n <= |xs|
    ensures Dedup(xs[..n]) <= Dedup(xs)
  {
    if n < |xs| {
      var init := xs[..|xs| - 1];
      assert init[..n] == xs[..n];
      DedupPrefix(init, n);
    } else {
      assert xs[..n] == xs;
    }
  }

  /** A value that occurs first before another is iterated before it. */
  lemma DedupOrder<T>(xs: seq<T>, i: nat, j: nat)
    requires i < j < |xs| && xs[j] !in xs[..j]
    ensures exists p, q :: 0 <= p < q < |Dedup(xs)| && Dedup(xs)[p] == xs[i] && Dedup(xs)[q] == xs[j]
  {
    var d := Dedup(xs[..j]);
    var e := Dedup(xs[..j + 1]);
    assert xs[..j + 1][..j] == xs[..j];
    DedupMember(xs[..j], xs[j]);
    DedupMember(xs[..j], xs[i]);
    assert e == d + [xs[j]];
    DedupPrefix(xs, j + 1);
    var p :| 0 <= p < |d| && d[p] == xs[i];
    assert Dedup(xs)[p] == xs[i] && Dedup(xs)[|d|] == xs[j];
  }
}
