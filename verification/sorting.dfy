/** The generic sorting and searching routines: merge sort with its merge
    loop, three-way quicksort and the leftmost binary search. Each is
    parameterised, as in the source, by a key function; the keys are compared
    with a strict total order `less` (Python's `<` on the key values). */
module Sorting {
  import opened Orders
  import opened Seqs

  /** No pair of elements is out of order by key. */
  ghost predicate SortedBy<T, K>(s: seq<T>, key: T -> K, less: (K, K) -> bool) {
    forall i, j :: 0 <= i < j < |s| ==> Leq(less, key(s[i]), key(s[j]))
  }

  /** The element tests of `quicksort`'s three list comprehensions. */
  function KeyIs<T, K(==)>(key: T -> K, k: K): T -> bool {
    (x: T) => key(x) == k
  }

  function KeyBelow<T, K>(key: T -> K, less: (K, K) -> bool, pv: K): T -> bool {
    (x: T) => less(key(x), pv)
  }

  function KeyAbove<T, K>(key: T -> K, less: (K, K) -> bool, pv: K): T -> bool {
    (x: T) => less(pv, key(x))
  }

  /** The elements of `s` whose key is `k`, in their order in `s`. */
  function WithKey<T, K(==)>(s: seq<T>, key: T -> K, k: K): seq<T> {
    Filter(s, KeyIs(key, k))
  }

  /** `r` keeps, for every key, the relative order the elements with that key had in `s`. */
  ghost predicate Stable<T, K(!new)>(r: seq<T>, s: seq<T>, key: T -> K) {
    forall k :: WithKey(r, key, k) == WithKey(s, key, k)
  }

  /** `_merge`: repeatedly takes the smaller head, the left one on ties, then
      appends whatever is left of either list. */
  function Merge<T, K(==)>(a: seq<T>, b: seq<T>, key: T -> K, less: (K, K) -> bool): seq<T>
    decreases |a| + |b|
  {
    if a == [] then b
    else if b == [] then a
    else if Leq(less, key(a[0]), key(b[0])) then [a[0]] + Merge(a[1..], b, key, less)
    else [b[0]] + Merge(a, b[1..], key, less)
  }

  /** `mergesort`: sorts both halves and merges them. */
  function MergeSort<T, K(==)>(s: seq<T>, key: T -> K, less: (K, K) -> bool): seq<T>
    decreases |s|
  {
    if |s| <= 1 then s
    else
      var mid := |s| / 2;
      Merge(MergeSort(s[..mid], key, less), MergeSort(s[mid..], key, less), key, less)
  }

  /** Merging loses and invents nothing. */
  lemma {:induction false} MergePermutes<T, K>(a: seq<T>, b: seq<T>, key: T -> K, less: (K, K) -> bool)
    ensures multiset(Merge(a, b, key, less)) == multiset(a) + multiset(b)
    decreases |a| + |b|
  {
    if a != [] && b != [] {
      var m := Merge(a, b, key, less);
      if Leq(less, key(a[0]), key(b[0])) {
        var rest := Merge(a[1..], b, key, less);
        MergePermutes(a[1..], b, key, less);
        assert m == [a[0]] + rest;
        MultisetSplit(a, 1);
        MultisetSplit(m, 1);
        assert m[..1] == a[..1] && m[1..] == rest;
      } else {
        var rest := Merge(a, b[1..], key, less);
        MergePermutes(a, b[1..], key, less);
        assert m == [b[0]] + rest;
        MultisetSplit(b, 1);
        MultisetSplit(m, 1);
        assert m[..1] == b[..1] && m[1..] == rest;
      }
    }
  }

  /** Merge sort returns a permutation of its input. */
  lemma {:induction false} MergeSortPermutes<T, K>(s: seq<T>, key: T -> K, less: (K, K) -> bool)
    ensures multiset(MergeSort(s, key, less)) == multiset(s)
    decreases |s|
  {
    if |s| > 1 {
      var mid := |s| / 2;
      var l, r := MergeSort(s[..mid], key, less), MergeSort(s[mid..], key, less);
      MergeSortPermutes(s[..mid], key, less);
      MergeSortPermutes(s[mid..], key, less);
      MergePermutes(l, r, key, less);
      MultisetSplit(s, mid);
    }
  }

  /** Splitting a sequence splits its multiset. */
  lemma MultisetSplit<T>(s: seq<T>, mid: nat)
    requires mid <= |s|
    ensures multiset(s) == multiset(s[..mid]) + multiset(s[mid..])
  {
    assert s == s[..mid] + s[mid..];
  }

  /** The `while` loop of `_merge`, which builds the same list as `Merge`. */
  method MergeLists<T, K(==)>(a: seq<T>, b: seq<T>, key: T -> K, less: (K, K) -> bool) returns (out: seq<T>)
    ensures out == Merge(a, b, key, less)
  {
    var i, j := 0, 0;
    out := [];
    while i < |a| && j < |b|
      invariant 0 <= i <= |a| && 0 <= j <= |b|
      invariant out + Merge(a[i..], b[j..], key, less) == Merge(a, b, key, less)
      decreases |a| - i + |b| - j
    {
      MergeUnfold(a, b, key, less, i, j);
      if Leq(less, key(a[i]), key(b[j])) {
        AppendAssoc(out, [a[i]], Merge(a[i + 1..], b[j..], key, less));
        out := out + [a[i]];
        i := i + 1;
      } else {
        AppendAssoc(out, [b[j]], Merge(a[i..], b[j + 1..], key, less));
        out := out + [b[j]];
        j := j + 1;
      }
    }
    AppendEmpty(a[i..]);
    AppendEmpty(b[j..]);
    assert Merge(a[i..], b[j..], key, less) == a[i..] + b[j..];
    AppendAssoc(out, a[i..], b[j..]);
    out := out + a[i..];
    out := out + b[j..];
  }

  /** One step of `Merge` on the remaining suffixes. */
  lemma MergeUnfold<T, K>(a: seq<T>, b: seq<T>, key: T -> K, less: (K, K) -> bool, i: nat, j: nat)
    requires i < |a| && j < |b|
    ensures Merge(a[i..], b[j..], key, less) ==
      if Leq(less, key(a[i]), key(b[j])) then [a[i]] + Merge(a[i + 1..], b[j..], key, less)
      else [b[j]] + Merge(a[i..], b[j + 1..], key, less)
  {
    assert a[i..][0] == a[i] && a[i..][1..] == a[i + 1..];
    assert b[j..][0] == b[j] && b[j..][1..] == b[j + 1..];
  }

  /** A sequence with an element in front stays sorted when that element's key
      is at most every other key. */
  lemma SortedCons<T, K>(x: T, m: seq<T>, key: T -> K, less: (K, K) -> bool)
    requires SortedBy(m, key, less)
    requires forall y :: y in m ==> Leq(less, key(x), key(y))
    ensures SortedBy([x] + m, key, less)
  {
    var r := [x] + m;
    forall i, j | 0 <= i < j < |r| ensures Leq(less, key(r[i]), key(r[j])) {
      assert r[j] == m[j - 1];
      if i > 0 {
        assert r[i] == m[i - 1];
      }
    }
  }

  /** Two sorted sequences whose keys do not interleave concatenate to a sorted one. */
  lemma SortedAppend<T, K>(a: seq<T>, b: seq<T>, key: T -> K, less: (K, K) -> bool)
    requires SortedBy(a, key, less) && SortedBy(b, key, less)
    requires forall x, y :: x in a && y in b ==> Leq(less, key(x), key(y))
    ensures SortedBy(a + b, key, less)
  {
    var r := a + b;
    forall i, j | 0 <= i < j < |r| ensures Leq(less, key(r[i]), key(r[j])) {
      if j < |a| {
        assert r[i] == a[i] && r[j] == a[j];
      } else if i >= |a| {
        assert r[i] == b[i - |a|] && r[j] == b[j - |a|];
      } else {
        assert r[i] in a && r[j] in b;
      }
    }
  }

  /** Every element of a sorted sequence has a key at least its first one's. */
  lemma SortedHead<T, K>(s: seq<T>, key: T -> K, less: (K, K) -> bool, y: T)
    requires SortedBy(s, key, less) && y in s
    ensures Leq(less, key(s[0]), key(y))
  {
    var i :| 0 <= i < |s| && s[i] == y;
    if i > 0 {
      assert Leq(less, key(s[0]), key(s[i]));
    }
  }

  lemma SortedTail<T, K>(s: seq<T>, key: T -> K, less: (K, K) -> bool)
    requires SortedBy(s, key, less) && s != []
    ensures SortedBy(s[1..], key, less)
  {
    forall i, j | 0 <= i < j < |s| - 1 ensures Leq(less, key(s[1..][i]), key(s[1..][j])) {
      assert s[1..][i] == s[i + 1] && s[1..][j] == s[j + 1];
    }
  }

  /** Merging two sorted sequences gives a sorted sequence. */
  lemma {:induction false} MergeSorted<T, K(!new)>(a: seq<T>, b: seq<T>, key: T -> K, less: (K, K) -> bool)
    requires StrictTotalOrder(less)
    requires SortedBy(a, key, less) && SortedBy(b, key, less)
    ensures SortedBy(Merge(a, b, key, less), key, less)
    decreases |a| + |b|
  {
    if a != [] && b != [] {
      if Leq(less, key(a[0]), key(b[0])) {
        SortedTail(a, key, less);
        MergeSorted(a[1..], b, key, less);
        var m := Merge(a[1..], b, key, less);
        MergePermutes(a[1..], b, key, less);
        forall y | y in m ensures Leq(less, key(a[0]), key(y)) {
          assert y in multiset(m);
          if y in a[1..] {
            SortedHead(a, key, less, y);
          } else {
            assert y in b;
            SortedHead(b, key, less, y);
            LeqTrans(less, key(a[0]), key(b[0]), key(y));
          }
        }
        SortedCons(a[0], m, key, less);
      } else {
        SortedTail(b, key, less);
        MergeSorted(a, b[1..], key, less);
        var m := Merge(a, b[1..], key, less);
        MergePermutes(a, b[1..], key, less);
        forall y | y in m ensures Leq(less, key(b[0]), key(y)) {
          assert y in multiset(m);
          if y in b[1..] {
            SortedHead(b, key, less, y);
          } else {
            assert y in a;
            SortedHead(a, key, less, y);
            LeqTrans(less, key(b[0]), key(a[0]), key(y));
          }
        }
        SortedCons(b[0], m, key, less);
      }
    }
  }

  /** Merging is stable: the elements with a given key come out as those of the
      left list followed by those of the right list, because ties take from the left. */
  lemma {:induction false} MergeStable<T, K(!new)>(a: seq<T>, b: seq<T>, key: T -> K, less: (K, K) -> bool, k: K)
    requires StrictTotalOrder(less)
    requires SortedBy(a, key, less) && SortedBy(b, key, less)
    ensures WithKey(Merge(a, b, key, less), key, k) == WithKey(a, key, k) + WithKey(b, key, k)
    decreases |a| + |b|
  {
    if a == [] {
      assert WithKey(a, key, k) == [];
    } else if b == [] {
      assert WithKey(b, key, k) == [];
    } else {
      var p := KeyIs(key, k);
      if Leq(less, key(a[0]), key(b[0])) {
        SortedTail(a, key, less);
        MergeStable(a[1..], b, key, less, k);
        var m := Merge(a[1..], b, key, less);
        assert ([a[0]] + m)[1..] == m;
      } else {
        SortedTail(b, key, less);
        MergeStable(a, b[1..], key, less, k);
        var m := Merge(a, b[1..], key, less);
        assert ([b[0]] + m)[1..] == m;
        if key(b[0]) == k {
          // every key in `a` is above `key(b[0])`, so none of them is `k`
          forall i | 0 <= i < |a| ensures !p(a[i]) {
            SortedHead(a, key, less, a[i]);
            LeqTrans(less, key(b[0]), key(a[0]), key(a[i]));
          }
          FilterNone(a, p);
        }
      }
    }
  }

  /** Merge sort returns its input sorted by key, as a permutation. */
  lemma {:induction false} MergeSortSorted<T, K(!new)>(s: seq<T>, key: T -> K, less: (K, K) -> bool)
    requires StrictTotalOrder(less)
    ensures SortedBy(MergeSort(s, key, less), key, less)
    decreases |s|
  {
    if |s| > 1 {
      var mid := |s| / 2;
      MergeSortSorted(s[..mid], key, less);
      MergeSortSorted(s[mid..], key, less);
      MergeSorted(MergeSort(s[..mid], key, less), MergeSort(s[mid..], key, less), key, less);
    }
  }

  /** Merge sort is stable: for every key, the elements with that key keep their
      input order. */
  lemma {:induction false} MergeSortStable<T, K(!new)>(s: seq<T>, key: T -> K, less: (K, K) -> bool, k: K)
    requires StrictTotalOrder(less)
    ensures WithKey(MergeSort(s, key, less), key, k) == WithKey(s, key, k)
    decreases |s|
  {
    if |s| > 1 {
      var mid := |s| / 2;
      var l, r := MergeSort(s[..mid], key, less), MergeSort(s[mid..], key, less);
      MergeSortStable(s[..mid], key, less, k);
      MergeSortStable(s[mid..], key, less, k);
      MergeSortSorted(s[..mid], key, less);
      MergeSortSorted(s[mid..], key, less);
      MergeStable(l, r, key, less, k);
      FilterHalves(s, mid, KeyIs(key, k));
    }
  }

  /** Filtering a sequence is filtering its two halves and joining the results. */
  lemma FilterHalves<T>(s: seq<T>, mid: nat, p: T -> bool)
    requires mid <= |s|
    ensures Filter(s, p) == Filter(s[..mid], p) + Filter(s[mid..], p)
  {
    assert s == s[..mid] + s[mid..];
    FilterAppend(s[..mid], s[mid..], p);
  }

  /** Everything the source promises of `mergesort`, in one place. */
  lemma MergeSortCorrect<T, K(!new)>(s: seq<T>, key: T -> K, less: (K, K) -> bool)
    requires StrictTotalOrder(less)
    ensures var r := MergeSort(s, key, less);
      SortedBy(r, key, less) && multiset(r) == multiset(s) && Stable(r, s, key)
  {
    MergeSortSorted(s, key, less);
    MergeSortPermutes(s, key, less);
    forall k ensures WithKey(MergeSort(s, key, less), key, k) == WithKey(s, key, k) {
      MergeSortStable(s, key, less, k);
    }
  }

  /** The three partitions of `quicksort` together hold exactly the input. */
  lemma {:induction false} PartitionMultiset<T, K(!new)>(s: seq<T>, key: T -> K, less: (K, K) -> bool, pv: K)
    requires StrictTotalOrder(less)
    ensures multiset(s) ==
      multiset(Filter(s, KeyBelow(key, less, pv))) +
      multiset(Filter(s, KeyIs(key, pv))) +
      multiset(Filter(s, KeyAbove(key, less, pv)))
  {
    if s != [] {
      var lo, eq, hi := KeyBelow(key, less, pv), KeyIs(key, pv), KeyAbove(key, less, pv);
      var x, rest := s[0], s[1..];
      PartitionMultiset(rest, key, less, pv);
      assert s == [x] + rest;
      FilterCons(x, rest, lo);
      FilterCons(x, rest, eq);
      FilterCons(x, rest, hi);
      Trichotomy(less, key(x), pv);
    }
  }

  /** `quicksort`: partitions around the key of the middle element into
      strictly-less, equal and strictly-greater, recursing on the outer two.
      It terminates because the pivot lands in the middle part, which needs
      `less` to be irreflexive. */
  function QuickSort<T, K(==, !new)>(s: seq<T>, key: T -> K, less: (K, K) -> bool): seq<T>
    requires StrictTotalOrder(less)
    decreases |s|
  {
    if |s| <= 1 then s
    else
      var pv := key(s[|s| / 2]);
      FilterDrops(s, KeyBelow(key, less, pv), |s| / 2);
      FilterDrops(s, KeyAbove(key, less, pv), |s| / 2);
      QuickSort(Filter(s, KeyBelow(key, less, pv)), key, less)
        + Filter(s, KeyIs(key, pv))
        + QuickSort(Filter(s, KeyAbove(key, less, pv)), key, less)
  }

  /** Quicksort returns its input sorted by key, as a permutation. */
  lemma {:induction false} QuickSortCorrect<T, K(!new)>(s: seq<T>, key: T -> K, less: (K, K) -> bool)
    requires StrictTotalOrder(less)
    ensures multiset(QuickSort(s, key, less)) == multiset(s)
    ensures SortedBy(QuickSort(s, key, less), key, less)
    decreases |s|
  {
    if |s| > 1 {
      var pv := key(s[|s| / 2]);
      var lo := Filter(s, KeyBelow(key, less, pv));
      var eq := Filter(s, KeyIs(key, pv));
      var hi := Filter(s, KeyAbove(key, less, pv));
      FilterDrops(s, KeyBelow(key, less, pv), |s| / 2);
      FilterDrops(s, KeyAbove(key, less, pv), |s| / 2);
      var a, c := QuickSort(lo, key, less), QuickSort(hi, key, less);
      assert QuickSort(s, key, less) == a + eq + c;
      QuickSortCorrect(lo, key, less);
      QuickSortCorrect(hi, key, less);
      PartitionMultiset(s, key, less, pv);
      forall x | x in a ensures less(key(x), pv) {
        assert x in multiset(a);
        assert x in lo;
        assert KeyBelow(key, less, pv)(x);
      }
      forall x | x in c ensures less(pv, key(x)) {
        assert x in multiset(c);
        assert x in hi;
        assert KeyAbove(key, less, pv)(x);
      }
      QuickSortJoin(a, eq, c, key, less, pv);
    }
  }

  lemma QuickSortJoin<T, K(!new)>(a: seq<T>, eq: seq<T>, c: seq<T>, key: T -> K, less: (K, K) -> bool, pv: K)
    requires StrictTotalOrder(less)
    requires SortedBy(a, key, less) && SortedBy(c, key, less)
    requires forall x :: x in a ==> less(key(x), pv)
    requires forall x :: x in eq ==> key(x) == pv
    requires forall x :: x in c ==> less(pv, key(x))
    ensures SortedBy(a + eq + c, key, less)
  {
    SortedAppend(a, eq, key, less);
    forall x, y | x in a + eq && y in c ensures Leq(less, key(x), key(y)) {
      if x in a {
        Trans(less, key(x), pv, key(y));
      }
    }
    SortedAppend(a + eq, c, key, less);
  }

  /** `binary_search` on a list sorted by key: the index of the FIRST element
      whose key is `target`, or -1 when no element has that key. */
  method BinarySearch<T, K(==, !new)>(s: seq<T>, target: K, key: T -> K, less: (K, K) -> bool) returns (idx: int)
    requires StrictTotalOrder(less)
    requires SortedBy(s, key, less)
    ensures -1 <= idx < |s|
    ensures idx >= 0 ==> key(s[idx]) == target && forall i :: 0 <= i < idx ==> key(s[i]) != target
    ensures idx == -1 ==> forall i :: 0 <= i < |s| ==> key(s[i]) != target
  {
    var lo, hi := 0, |s| - 1;
    while lo <= hi
      invariant 0 <= lo <= hi + 1 <= |s|
      invariant forall i :: 0 <= i < lo ==> less(key(s[i]), target)
      invariant forall i :: hi < i < |s| ==> less(target, key(s[i]))
    {
      var mid := (lo + hi) / 2;
      var km := key(s[mid]);
      if km == target {
        while mid > 0 && key(s[mid - 1]) == target
          invariant 0 <= mid < |s| && key(s[mid]) == target
          invariant forall i :: 0 <= i < lo ==> less(key(s[i]), target)
        {
          mid := mid - 1;
        }
        forall i | 0 <= i < mid ensures key(s[i]) != target {
          assert Leq(less, key(s[mid - 1]), key(s[mid]));
          if i < mid - 1 {
            LeqTrans(less, key(s[i]), key(s[mid - 1]), key(s[mid]));
          }
        }
        return mid;
      } else if less(km, target) {
        forall i | 0 <= i <= mid ensures less(key(s[i]), target) {
          if i < mid {
            LeqTrans(less, key(s[i]), km, target);
          }
        }
        lo := mid + 1;
      } else {
        forall i | mid <= i < |s| ensures less(target, key(s[i])) {
          if i > mid {
            LeqTrans(less, target, km, key(s[i]));
          }
        }
        hi := mid - 1;
      }
    }
    return -1;
  }

  /** In a sorted sequence nothing after a key above `k` has key `k`. */
  lemma AboveRunNone<T, K(!new)>(s: seq<T>, key: T -> K, less: (K, K) -> bool, k: K, hi: nat)
    requires StrictTotalOrder(less) && SortedBy(s, key, less)
    requires hi < |s| && less(k, key(s[hi]))
    ensures WithKey(s[hi..], key, k) == []
  {
    var c := s[hi..];
    forall i | 0 <= i < |c| ensures !KeyIs(key, k)(c[i]) {
      assert c[i] == s[hi + i];
      LeqTrans(less, k, key(s[hi]), key(s[hi + i]));
    }
    FilterNone(c, KeyIs(key, k));
  }

  lemma FilterAppend3<T>(a: seq<T>, b: seq<T>, c: seq<T>, p: T -> bool)
    ensures Filter(a + b + c, p) == Filter(a, p) + Filter(b, p) + Filter(c, p)
  {
    FilterAppend(a + b, c, p);
    FilterAppend(a, b, p);
  }

  /** A slice where no key is `k` holds nothing with key `k`. */
  lemma SliceWithoutKey<T, K>(s: seq<T>, key: T -> K, k: K, lo: nat, hi: nat)
    requires lo <= hi <= |s|
    requires forall i :: lo <= i < hi ==> key(s[i]) != k
    ensures WithKey(s[lo..hi], key, k) == []
  {
    var c := s[lo..hi];
    forall i | 0 <= i < |c| ensures !KeyIs(key, k)(c[i]) {
      assert c[i] == s[lo + i];
    }
    FilterNone(c, KeyIs(key, k));
  }

  /** A slice where every key is `k` is all kept. */
  lemma SliceAllKey<T, K>(s: seq<T>, key: T -> K, k: K, lo: nat, hi: nat)
    requires lo <= hi <= |s|
    requires forall i :: lo <= i < hi ==> key(s[i]) == k
    ensures WithKey(s[lo..hi], key, k) == s[lo..hi]
  {
    var c := s[lo..hi];
    forall i | 0 <= i < |c| ensures KeyIs(key, k)(c[i]) {
      assert c[i] == s[lo + i];
    }
    FilterAll(c, KeyIs(key, k));
  }

  /** In a sorted sequence the elements with key `k` form one contiguous run:
      if a non-empty run starts at `lo` and ends before `hi`, it is everything
      with that key. */
  lemma RunIsWithKey<T, K(!new)>(s: seq<T>, key: T -> K, less: (K, K) -> bool, k: K, lo: nat, hi: nat)
    requires StrictTotalOrder(less) && SortedBy(s, key, less)
    requires lo < hi <= |s|
    requires forall i :: 0 <= i < lo ==> key(s[i]) != k
    requires forall i :: lo <= i < hi ==> key(s[i]) == k
    requires hi < |s| ==> key(s[hi]) != k
    ensures WithKey(s, key, k) == s[lo..hi]
  {
    if hi < |s| {
      // the key right after the run is above `k`, and so is everything later
      assert Leq(less, key(s[lo]), key(s[hi]));
      forall i | hi <= i < |s| ensures key(s[i]) != k {
        LeqTrans(less, k, key(s[hi]), key(s[i]));
      }
    }
    OnlyRunHasKey(s, key, k, lo, hi);
  }

  /** If the key `k` occurs exactly at the indices `lo` to `hi`, the elements with
      that key are that slice. */
  lemma OnlyRunHasKey<T, K>(s: seq<T>, key: T -> K, k: K, lo: nat, hi: nat)
    requires lo <= hi <= |s|
    requires forall i :: 0 <= i < lo ==> key(s[i]) != k
    requires forall i :: lo <= i < hi ==> key(s[i]) == k
    requires forall i :: hi <= i < |s| ==> key(s[i]) != k
    ensures WithKey(s, key, k) == s[lo..hi]
  {
    SliceWithoutKey(s, key, k, 0, lo);
    SliceAllKey(s, key, k, lo, hi);
    SliceWithoutKey(s, key, k, hi, |s|);
    Split3(s, lo, hi);
    FilterAppend3(s[0..lo], s[lo..hi], s[hi..|s|], KeyIs(key, k));
  }

  /** Cutting a sequence at `lo` and `hi` and joining the three parts gives it back. */
  lemma Split3<T>(s: seq<T>, lo: nat, hi: nat)
    requires lo <= hi <= |s|
    ensures s == s[0..lo] + s[lo..hi] + s[hi..|s|]
  {
    assert s[0..lo] + s[lo..hi] == s[..hi];
  }
}
