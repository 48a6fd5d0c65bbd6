/** The two list scans the manager is built from: "first element that
    matches" (the `for ... if ...: return` lookups) and "every element that
    matches, in order" (the `result.append` filters).
 */
module Seqs {
  import opened Wrappers

  /** Position of the first element satisfying `p`, or None. */
  function FirstIndex<T>(xs: seq<T>, p: T -> bool): (r: Option<nat>)
    ensures r.None? <==> forall j :: 0 <= j < |xs| ==> !p(xs[j])
    ensures r.Some? ==> r.value < |xs| && p(xs[r.value])
    ensures r.Some? ==> forall j :: 0 <= j < r.value ==> !p(xs[j])
  {
    if |xs| == 0 then None
    else if p(xs[0]) then Some(0)
    else
      match FirstIndex(xs[1..], p)
      case None => None
      case Some(k) => Some(k + 1)
  }

  /** The elements of `xs` satisfying `p`, in their original order. */
  function Filter<T(!new)>(xs: seq<T>, p: T -> bool): (r: seq<T>)
    ensures |r| <= |xs|
    ensures |r| == 0 <==> forall j :: 0 <= j < |xs| ==> !p(xs[j])
    ensures forall i :: 0 <= i < |r| ==> p(r[i])
    ensures forall x :: x in r <==> x in xs && p(x)
    ensures (forall j :: 0 <= j < |xs| ==> p(xs[j])) ==> r == xs
  {
    if |xs| == 0 then []
    else
      var rest := Filter(xs[1..], p);
      assert forall j :: 1 <= j < |xs| ==> xs[j] == xs[1..][j - 1];
      if p(xs[0]) then [xs[0]] + rest else rest
  }

  /** Filtering distributes over concatenation, so the filter keeps the
      relative order of the elements it keeps. */
  lemma {:induction false} FilterAppend<T(!new)>(a: seq<T>, b: seq<T>, p: T -> bool)
    ensures Filter(a + b, p) == Filter(a, p) + Filter(b, p)
  {
    if |a| > 0 {
      assert (a + b)[1..] == a[1..] + b;
      FilterAppend(a[1..], b, p);
    } else {
      assert a + b == b;
    }
  }

  /** Two kept elements mean two distinct matching positions. */
  lemma {:induction false} FilterTwo<T(!new)>(xs: seq<T>, p: T -> bool)
    requires |Filter(xs, p)| >= 2
    ensures exists i, j :: 0 <= i < j < |xs| && p(xs[i]) && p(xs[j])
  {
    var tail := xs[1..];
    if p(xs[0]) {
      assert |Filter(tail, p)| >= 1;
      var k :| 0 <= k < |tail| && p(tail[k]);
      assert tail[k] == xs[k + 1];
    } else {
      FilterTwo(tail, p);
      var i, j :| 0 <= i < j < |tail| && p(tail[i]) && p(tail[j]);
      assert tail[i] == xs[i + 1] && tail[j] == xs[j + 1];
    }
  }

  /** Two distinct matching positions mean at least two kept elements. */
  lemma {:induction false} FilterAtLeastTwo<T(!new)>(xs: seq<T>, p: T -> bool, i: nat, j: nat)
    requires i < j < |xs| && p(xs[i]) && p(xs[j])
    ensures |Filter(xs, p)| >= 2
  {
    assert xs[j] == xs[1..][j - 1];
    if i == 0 {
      assert xs[1..][j - 1] in Filter(xs[1..], p);
    } else {
      assert xs[i] == xs[1..][i - 1];
      FilterAtLeastTwo(xs[1..], p, i - 1, j - 1);
    }
  }

  /** At least two kept elements exactly when two distinct positions match. */
  lemma FilterTwoIff<T(!new)>(xs: seq<T>, p: T -> bool)
    ensures |Filter(xs, p)| >= 2 <==> exists i, j :: 0 <= i < j < |xs| && p(xs[i]) && p(xs[j])
  {
    if |Filter(xs, p)| >= 2 {
      FilterTwo(xs, p);
    }
    if exists i, j :: 0 <= i < j < |xs| && p(xs[i]) && p(xs[j]) {
      var i, j :| 0 <= i < j < |xs| && p(xs[i]) && p(xs[j]);
      FilterAtLeastTwo(xs, p, i, j);
    }
  }

  /** A key no element of `xs` has is a key no kept element has. */
  lemma FilterKeyAbsent<T(!new), K>(xs: seq<T>, p: T -> bool, key: T -> K, k: K)
    requires forall i :: 0 <= i < |xs| ==> key(xs[i]) != k
    ensures forall i :: 0 <= i < |Filter(xs, p)| ==> key(Filter(xs, p)[i]) != k
  {
    var r := Filter(xs, p);
    forall i | 0 <= i < |r| ensures key(r[i]) != k {
      assert r[i] in xs;
    }
  }

  /** Filtering a list whose keys are pairwise distinct keeps them distinct. */
  lemma {:induction false} FilterDistinct<T(!new), K>(xs: seq<T>, p: T -> bool, key: T -> K)
    requires forall i, j :: 0 <= i < j < |xs| ==> key(xs[i]) != key(xs[j])
    ensures forall i, j :: 0 <= i < j < |Filter(xs, p)| ==> key(Filter(xs, p)[i]) != key(Filter(xs, p)[j])
  {
    if |xs| > 0 {
      var tail := xs[1..];
      assert forall i :: 0 <= i < |tail| ==> tail[i] == xs[i + 1];
      FilterDistinct(tail, p, key);
      if p(xs[0]) {
        FilterKeyAbsent(tail, p, key, key(xs[0]));
        DistinctCons(xs[0], Filter(tail, p), key);
      }
    }
  }

  /** Putting in front an element whose key no other element has keeps the
      keys pairwise distinct. */
  lemma DistinctCons<T, K>(x: T, rest: seq<T>, key: T -> K)
    requires forall i, j :: 0 <= i < j < |rest| ==> key(rest[i]) != key(rest[j])
    requires forall i :: 0 <= i < |rest| ==> key(rest[i]) != key(x)
    ensures forall i, j :: 0 <= i < j < |[x] + rest| ==> key(([x] + rest)[i]) != key(([x] + rest)[j])
  {
    var r := [x] + rest;
    forall i, j | 0 <= i < j < |r| ensures key(r[i]) != key(r[j]) {
      assert r[j] == rest[j - 1];
      if i > 0 {
        assert r[i] == rest[i - 1];
      }
    }
  }
}
