/**
 * A list comprehension with a condition, `[x for x in xs if keep(x)]`, and the
 * facts the lookups built on it rely on.
 */
module Filtering {

  /** The elements of `xs` that satisfy `keep`, in their order (`[x for x in xs if keep(x)]`). */
  function Filter<T>(keep: T -> bool, xs: seq<T>): (r: seq<T>)
    ensures |r| <= |xs|
    ensures forall x :: x in r ==> x in xs && keep(x)
  {
    if xs == [] then [] else (if keep(xs[0]) then [xs[0]] else []) + Filter(keep, xs[1..])
  }

  /** `xs` is `ys` with some elements left out: `idx` says where each element of `xs` sits in `ys`. */
  ghost predicate SubsequenceAt<T>(xs: seq<T>, ys: seq<T>, idx: seq<nat>) {
    && |idx| == |xs|
    && (forall k :: 0 <= k < |idx| ==> idx[k] < |ys| && xs[k] == ys[idx[k]])
    && (forall k, l :: 0 <= k < l < |idx| ==> idx[k] < idx[l])
  }

  ghost predicate Distinct<T>(xs: seq<T>) {
    forall i, j :: 0 <= i < j < |xs| ==> xs[i] != xs[j]
  }

  /**
   * The comprehension keeps exactly the elements satisfying `keep`, in their
   * order: `idx` lists the indices of those elements, increasing.
   */
  lemma {:induction false} FilterIndices<T>(keep: T -> bool, xs: seq<T>) returns (idx: seq<nat>)
    ensures SubsequenceAt(Filter(keep, xs), xs, idx)
    ensures forall k :: 0 <= k < |idx| ==> keep(xs[idx[k]])
    ensures forall i :: 0 <= i < |xs| && keep(xs[i]) ==> i in idx
    decreases |xs|
  {
    if xs == [] {
      return [];
    }
    var rest := FilterIndices(keep, xs[1..]);
    idx := StepIndices(keep, xs, rest);
    StepComplete(keep, xs, rest);
  }

  function HeadIndex<T>(keep: T -> bool, xs: seq<T>): seq<nat>
    requires xs != []
  {
    if keep(xs[0]) then [0] else []
  }

  function Shifted(rest: seq<nat>): seq<nat> {
    seq(|rest|, k requires 0 <= k < |rest| => rest[k] + 1)
  }

  /** The indices kept from the tail, moved up by one, after the head's index if it is kept. */
  lemma StepIndices<T>(keep: T -> bool, xs: seq<T>, rest: seq<nat>) returns (idx: seq<nat>)
    requires xs != [] && SubsequenceAt(Filter(keep, xs[1..]), xs[1..], rest)
    requires forall k :: 0 <= k < |rest| ==> keep(xs[1..][rest[k]])
    ensures idx == HeadIndex(keep, xs) + Shifted(rest)
    ensures SubsequenceAt(Filter(keep, xs), xs, idx)
    ensures forall k :: 0 <= k < |idx| ==> keep(xs[idx[k]])
  {
    var head := HeadIndex(keep, xs);
    idx := head + Shifted(rest);
    var tail := xs[1..];
    var r := Filter(keep, xs);
    var fr := Filter(keep, tail);
    assert r == (if keep(xs[0]) then [xs[0]] else []) + fr;
    forall k | 0 <= k < |idx| ensures idx[k] < |xs| && r[k] == xs[idx[k]] && keep(xs[idx[k]]) {
      if k >= |head| {
        var j := k - |head|;
        assert r[k] == fr[j] == tail[rest[j]];
        assert idx[k] == rest[j] + 1;
      }
    }
  }

  lemma StepComplete<T>(keep: T -> bool, xs: seq<T>, rest: seq<nat>)
    requires xs != []
    requires forall i :: 0 <= i < |xs| - 1 && keep(xs[1..][i]) ==> i in rest
    ensures forall i :: 0 <= i < |xs| && keep(xs[i]) ==> i in HeadIndex(keep, xs) + Shifted(rest)
  {
    var head := HeadIndex(keep, xs);
    var idx := head + Shifted(rest);
    forall i | 0 <= i < |xs| && keep(xs[i]) ensures i in idx {
      if i > 0 {
        assert xs[1..][i - 1] == xs[i];
        var j :| 0 <= j < |rest| && rest[j] == i - 1;
        assert idx[|head| + j] == i;
      }
    }
  }

  /** When only the element at `i` satisfies `keep`, the comprehension is that one element. */
  lemma FilterSingle<T>(keep: T -> bool, xs: seq<T>, i: nat)
    requires i < |xs| && keep(xs[i])
    requires forall j :: 0 <= j < |xs| && keep(xs[j]) ==> j == i
    ensures Filter(keep, xs) == [xs[i]]
  {
    var idx := FilterIndices(keep, xs);
    assert i in idx;
    assert forall k :: 0 <= k < |idx| ==> keep(xs[idx[k]]) && idx[k] == i;
    IncreasingSpread(idx);
  }

  /** A strictly increasing sequence of `n` numbers spans at least `n - 1`. */
  lemma {:induction false} IncreasingSpread(idx: seq<nat>)
    requires |idx| >= 1
    requires forall k, l :: 0 <= k < l < |idx| ==> idx[k] < idx[l]
    ensures idx[|idx| - 1] >= idx[0] + |idx| - 1
    decreases |idx|
  {
    if |idx| >= 2 {
      var front := idx[..|idx| - 1];
      IncreasingSpread(front);
      assert front[|front| - 1] == idx[|idx| - 2] && front[0] == idx[0];
      assert idx[|idx| - 2] < idx[|idx| - 1];
    }
  }

  /** A comprehension of one element was given exactly one element satisfying `keep`. */
  lemma SingleFilter<T>(keep: T -> bool, xs: seq<T>) returns (i: nat)
    requires |Filter(keep, xs)| == 1
    ensures i < |xs| && keep(xs[i]) && Filter(keep, xs) == [xs[i]]
    ensures forall j :: 0 <= j < |xs| && keep(xs[j]) ==> j == i
  {
    var idx := FilterIndices(keep, xs);
    i := idx[0];
    assert forall j :: 0 <= j < |xs| && keep(xs[j]) ==> j in idx;
  }

  /** An element is kept exactly when it is in the list and satisfies `keep`. */
  lemma {:induction false} FilterMembers<T>(keep: T -> bool, xs: seq<T>)
    ensures forall x :: x in Filter(keep, xs) <==> x in xs && keep(x)
    decreases |xs|
  {
    if xs != [] {
      FilterMembers(keep, xs[1..]);
      assert xs == [xs[0]] + xs[1..];
    }
  }

  /** Two conditions that agree on every element keep the same elements. */
  lemma {:induction false} FilterAgreeing<T>(keep: T -> bool, other: T -> bool, xs: seq<T>)
    requires forall i :: 0 <= i < |xs| ==> keep(xs[i]) == other(xs[i])
    ensures Filter(keep, xs) == Filter(other, xs)
    decreases |xs|
  {
    if xs != [] {
      assert forall i :: 0 <= i < |xs| - 1 ==> xs[1..][i] == xs[i + 1];
      FilterAgreeing(keep, other, xs[1..]);
    }
  }

  /** Filtering a list without repetitions gives a list without repetitions. */
  lemma FilterKeepsDistinct<T>(keep: T -> bool, xs: seq<T>)
    requires Distinct(xs)
    ensures Distinct(Filter(keep, xs))
  {
    var idx := FilterIndices(keep, xs);
  }
}
