/**
 * Python's `sorted(xs, key=k)`, seen through the indices of `xs`: a stable sort
 * lists the indices by ascending key and keeps equal keys in input order. The
 * result is computed by insertion and characterised, once and for all, as the
 * only duplicate-free arrangement of all indices ordered by (key, index).
 */
module StableSort {
  import opened Filtering

  /** `less` is irreflexive, transitive and total on the keys that occur in `keys`. */
  predicate StrictTotalOn<K(==)>(less: (K, K) -> bool, keys: seq<K>) {
    && (forall i :: 0 <= i < |keys| ==> !less(keys[i], keys[i]))
    && (forall i, j, l ::
          (0 <= i < |keys| && 0 <= j < |keys| && 0 <= l < |keys|
           && less(keys[i], keys[j]) && less(keys[j], keys[l])) ==> less(keys[i], keys[l]))
    && (forall i, j :: 0 <= i < |keys| && 0 <= j < |keys| && keys[i] != keys[j]
          ==> less(keys[i], keys[j]) || less(keys[j], keys[i]))
  }

  /** Index `i` precedes index `j` in a stable sort: a smaller key, or an equal key and an earlier index. */
  predicate Before<K(==)>(less: (K, K) -> bool, keys: seq<K>, i: nat, j: nat)
    requires i < |keys| && j < |keys|
  {
    less(keys[i], keys[j]) || (keys[i] == keys[j] && i < j)
  }

  predicate InBounds(xs: seq<nat>, n: nat) {
    forall a :: 0 <= a < |xs| ==> xs[a] < n
  }

  /** Every earlier entry of `xs` precedes every later one. */
  predicate SortedBy<K(==)>(less: (K, K) -> bool, keys: seq<K>, xs: seq<nat>)
    requires InBounds(xs, |keys|)
  {
    forall a, b :: 0 <= a < b < |xs| ==> Before(less, keys, xs[a], xs[b])
  }

  /** Insert index `i` in front of the first entry it precedes. */
  function Insert<K(==)>(less: (K, K) -> bool, keys: seq<K>, i: nat, xs: seq<nat>): (r: seq<nat>)
    requires i < |keys| && InBounds(xs, |keys|)
    ensures |r| == |xs| + 1 && InBounds(r, |keys|)
    ensures forall x :: x in r <==> x == i || x in xs
    ensures Distinct(xs) && i !in xs ==> Distinct(r)
    decreases |xs|
  {
    if xs == [] then [i]
    else if Before(less, keys, i, xs[0]) then [i] + xs
    else
      var rest := Insert(less, keys, i, xs[1..]);
      assert Distinct(xs) ==> xs[0] !in xs[1..];
      [xs[0]] + rest
  }

  /** The first `k` indices, stably sorted. */
  function SortPrefix<K(==)>(less: (K, K) -> bool, keys: seq<K>, k: nat): (r: seq<nat>)
    requires k <= |keys|
    ensures |r| == k && InBounds(r, |keys|) && Distinct(r)
    ensures forall x :: x in r <==> 0 <= x < k
  {
    if k == 0 then [] else Insert(less, keys, k - 1, SortPrefix(less, keys, k - 1))
  }

  /** The indices of `keys` in the order `sorted(..., key=...)` visits them: each exactly once. */
  function Order<K(==)>(less: (K, K) -> bool, keys: seq<K>): (r: seq<nat>)
    ensures |r| == |keys| && InBounds(r, |keys|) && Distinct(r)
    ensures forall x :: x in r <==> 0 <= x < |keys|
  {
    SortPrefix(less, keys, |keys|)
  }

  /** On the indices, `Before` is a strict total order. */
  lemma BeforeIsStrictTotal<K>(less: (K, K) -> bool, keys: seq<K>, i: nat, j: nat, l: nat)
    requires StrictTotalOn(less, keys)
    requires i < |keys| && j < |keys| && l < |keys|
    ensures !Before(less, keys, i, i)
    ensures Before(less, keys, i, j) && Before(less, keys, j, l) ==> Before(less, keys, i, l)
    ensures i != j ==> Before(less, keys, i, j) || Before(less, keys, j, i)
    ensures Before(less, keys, i, j) ==> !Before(less, keys, j, i)
  {
    var ki, kj := keys[i], keys[j];
    assert less(ki, kj) && less(kj, ki) ==> less(ki, ki);
  }

  lemma {:induction false} InsertSorted<K>(less: (K, K) -> bool, keys: seq<K>, i: nat, xs: seq<nat>)
    requires StrictTotalOn(less, keys)
    requires i < |keys| && InBounds(xs, |keys|) && i !in xs && SortedBy(less, keys, xs)
    ensures SortedBy(less, keys, Insert(less, keys, i, xs))
    decreases |xs|
  {
    if xs != [] {
      if Before(less, keys, i, xs[0]) {
        InsertFrontSorted(less, keys, i, xs);
      } else {
        assert SortedBy(less, keys, xs[1..]);
        InsertSorted(less, keys, i, xs[1..]);
        InsertLaterSorted(less, keys, i, xs);
      }
    }
  }

  /** An entry that precedes every entry of a sorted arrangement can be put in front of it. */
  lemma ConsSorted<K>(less: (K, K) -> bool, keys: seq<K>, x0: nat, rest: seq<nat>)
    requires x0 < |keys| && InBounds(rest, |keys|) && SortedBy(less, keys, rest)
    requires forall b :: 0 <= b < |rest| ==> Before(less, keys, x0, rest[b])
    ensures InBounds([x0] + rest, |keys|) && SortedBy(less, keys, [x0] + rest)
  {
    var r := [x0] + rest;
    forall a, b | 0 <= a < b < |r| ensures Before(less, keys, r[a], r[b]) {
      assert r[b] == rest[b - 1];
      if a > 0 {
        assert r[a] == rest[a - 1];
      }
    }
  }

  /** The first entry of a sorted arrangement precedes every other entry. */
  lemma HeadPrecedes<K>(less: (K, K) -> bool, keys: seq<K>, xs: seq<nat>, x: nat)
    requires InBounds(xs, |keys|) && SortedBy(less, keys, xs)
    requires xs != [] && x in xs[1..]
    ensures x < |keys| && Before(less, keys, xs[0], x)
  {
    var c :| 0 <= c < |xs[1..]| && xs[1..][c] == x;
    assert xs[c + 1] == x;
  }

  /** An index that precedes the first entry goes in front, and precedes them all. */
  lemma InsertFrontSorted<K>(less: (K, K) -> bool, keys: seq<K>, i: nat, xs: seq<nat>)
    requires StrictTotalOn(less, keys)
    requires i < |keys| && InBounds(xs, |keys|) && SortedBy(less, keys, xs)
    requires xs != [] && Before(less, keys, i, xs[0])
    ensures SortedBy(less, keys, [i] + xs)
  {
    forall b | 0 <= b < |xs| ensures Before(less, keys, i, xs[b]) {
      BeforeIsStrictTotal(less, keys, i, xs[0], xs[b]);
    }
    ConsSorted(less, keys, i, xs);
  }

  /** An index that does not precede the first entry goes after it, into the sorted rest. */
  lemma InsertLaterSorted<K>(less: (K, K) -> bool, keys: seq<K>, i: nat, xs: seq<nat>)
    requires StrictTotalOn(less, keys)
    requires i < |keys| && InBounds(xs, |keys|) && i !in xs && SortedBy(less, keys, xs)
    requires xs != [] && !Before(less, keys, i, xs[0])
    requires SortedBy(less, keys, Insert(less, keys, i, xs[1..]))
    ensures SortedBy(less, keys, Insert(less, keys, i, xs))
  {
    var x0, rest := xs[0], Insert(less, keys, i, xs[1..]);
    assert Insert(less, keys, i, xs) == [x0] + rest;
    BeforeIsStrictTotal(less, keys, x0, i, i);
    forall b | 0 <= b < |rest| ensures Before(less, keys, x0, rest[b]) {
      if rest[b] != i {
        HeadPrecedes(less, keys, xs, rest[b]);
      }
    }
    ConsSorted(less, keys, x0, rest);
  }

  lemma {:induction false} SortPrefixSorted<K>(less: (K, K) -> bool, keys: seq<K>, k: nat)
    requires StrictTotalOn(less, keys) && k <= |keys|
    ensures SortedBy(less, keys, SortPrefix(less, keys, k))
  {
    if k == 0 {
      assert SortPrefix(less, keys, k) == [];
    } else {
      var prev := SortPrefix(less, keys, k - 1);
      SortPrefixSorted(less, keys, k - 1);
      InsertFresh(less, keys, k, prev);
    }
  }

  /** Inserting the next index into a sorted prefix gives the next sorted prefix. */
  lemma InsertFresh<K>(less: (K, K) -> bool, keys: seq<K>, k: nat, prev: seq<nat>)
    requires StrictTotalOn(less, keys) && 0 < k <= |keys|
    requires prev == SortPrefix(less, keys, k - 1) && SortedBy(less, keys, prev)
    ensures SortedBy(less, keys, SortPrefix(less, keys, k))
  {
    assert k - 1 !in prev;
    InsertSorted(less, keys, k - 1, prev);
  }

  /** The first entry of a sorted arrangement precedes all the others. */
  lemma HeadIsLeast<K>(less: (K, K) -> bool, keys: seq<K>, xs: seq<nat>)
    requires InBounds(xs, |keys|) && SortedBy(less, keys, xs) && xs != []
    ensures forall x :: x in xs ==> x == xs[0] || Before(less, keys, xs[0], x)
  {
    forall x | x in xs ensures x == xs[0] || Before(less, keys, xs[0], x) {
      var c :| 0 <= c < |xs| && xs[c] == x;
    }
  }

  /** Past the first entry of a sorted arrangement come the other entries, still sorted. */
  lemma SortedTail<K>(less: (K, K) -> bool, keys: seq<K>, xs: seq<nat>)
    requires StrictTotalOn(less, keys)
    requires InBounds(xs, |keys|) && SortedBy(less, keys, xs) && xs != []
    ensures InBounds(xs[1..], |keys|) && SortedBy(less, keys, xs[1..])
    ensures forall x :: x in xs[1..] <==> x in xs && x != xs[0]
  {
    var x0 := xs[0];
    BeforeIsStrictTotal(less, keys, x0, x0, x0);
    forall x ensures x in xs[1..] <==> x in xs && x != x0 {
      if x in xs[1..] {
        var c :| 0 <= c < |xs[1..]| && xs[1..][c] == x;
        assert Before(less, keys, xs[0], xs[c + 1]);
      }
      assert xs == [x0] + xs[1..];
    }
  }

  /** Two arrangements sorted by `Before` that hold the same indices are the same arrangement. */
  lemma {:induction false} SortedUnique<K>(less: (K, K) -> bool, keys: seq<K>, xs: seq<nat>, ys: seq<nat>)
    requires StrictTotalOn(less, keys)
    requires InBounds(xs, |keys|) && InBounds(ys, |keys|)
    requires SortedBy(less, keys, xs) && SortedBy(less, keys, ys)
    requires forall x :: x in xs <==> x in ys
    ensures xs == ys
    decreases |xs|
  {
    assert xs != [] ==> xs[0] in ys;
    assert ys != [] ==> ys[0] in xs;
    if xs != [] {
      var x0, y0 := xs[0], ys[0];
      HeadIsLeast(less, keys, xs);
      HeadIsLeast(less, keys, ys);
      BeforeIsStrictTotal(less, keys, x0, y0, x0);
      assert x0 == y0;
      SortedTail(less, keys, xs);
      SortedTail(less, keys, ys);
      SortedUnique(less, keys, xs[1..], ys[1..]);
      assert xs == [x0] + xs[1..] && ys == [y0] + ys[1..];
    }
  }

  /**
   * `Order` is a stable sort: it lists every index once, by ascending key, equal
   * keys in input order; and it is the only arrangement that does so.
   */
  lemma OrderIsStableSort<K>(less: (K, K) -> bool, keys: seq<K>, xs: seq<nat>)
    requires StrictTotalOn(less, keys)
    ensures SortedBy(less, keys, Order(less, keys))
    ensures InBounds(xs, |keys|) && SortedBy(less, keys, xs) && (forall x :: x in xs <==> 0 <= x < |keys|)
            ==> xs == Order(less, keys)
  {
    SortPrefixSorted(less, keys, |keys|);
    if InBounds(xs, |keys|) && SortedBy(less, keys, xs) && (forall x :: x in xs <==> 0 <= x < |keys|) {
      SortedUnique(less, keys, xs, Order(less, keys));
    }
  }

  /** The sorted positions of two indices follow `Before`. */
  lemma OrderPositions<K>(less: (K, K) -> bool, keys: seq<K>, a: nat, b: nat)
    requires StrictTotalOn(less, keys)
    requires a < |keys| && b < |keys|
    ensures var r := Order(less, keys); Before(less, keys, r[a], r[b]) <==> a < b
  {
    var r := Order(less, keys);
    OrderIsStableSort(less, keys, []);
    BeforeIsStrictTotal(less, keys, r[a], r[b], r[a]);
  }
}
