/** The timetable optimiser: weighted interval scheduling over the catalogued
    slots of a student's subjects. The slots are sorted by end time, each slot
    `j` gets `p[j]`, one more than the index of the last slot that ends no later
    than `j` starts (0 when there is none), and `dp[j]` is the best total weight
    of the first `j` slots; the chosen codes are read back from `keep`. */
module Timetable {
  import opened Orders
  import opened Seqs
  import opened Sorting

  /** One catalogued subject slot: minutes from midnight and a weight. */
  datatype Item = Item(start: int, end: int, weight: real, code: string)

  /** The sort key `lambda x: x[1]`. */
  function EndKey(): Item -> int {
    (it: Item) => it.end
  }

  /** `items.sort(key=lambda x: x[1])`: a stable sort by end time. */
  function SortByEnd(items: seq<Item>): seq<Item> {
    MergeSort(items, EndKey(), IntLess())
  }

  /** Every slot ends after it starts, as `set_subject_slot` guarantees. */
  ghost predicate WellFormed(items: seq<Item>) {
    forall it :: it in items ==> it.start < it.end
  }

  /** The end time of slot `i`; the sortedness below is stated on it so that
      the solver applies it only where a proof names it. */
  function EndAt(items: seq<Item>, i: nat): int
    requires i < |items|
  {
    items[i].end
  }

  ghost predicate SortedByEnd(items: seq<Item>) {
    forall i, j :: 0 <= i < j < |items| ==> EndAt(items, i) <= EndAt(items, j)
  }

  /** Two slots share some minute. */
  predicate Overlap(a: Item, b: Item) {
    a.start < b.end && b.start < a.end
  }

  ghost predicate InRange(items: seq<Item>, idx: seq<nat>) {
    forall t :: 0 <= t < |idx| ==> idx[t] < |items|
  }

  /** `idx` picks slots in increasing index order, no two of which overlap. */
  ghost predicate Disjoint(items: seq<Item>, idx: seq<nat>) {
    && InRange(items, idx)
    && forall s, t :: 0 <= s < t < |idx| ==> idx[s] < idx[t] && !Overlap(items[idx[s]], items[idx[t]])
  }

  /** `idx` picks slots in increasing index order, each ending no later than
      the next one starts. */
  ghost predicate Chain(items: seq<Item>, idx: seq<nat>) {
    && InRange(items, idx)
    && forall t :: 0 <= t < |idx| - 1 ==> idx[t] < idx[t + 1] && items[idx[t]].end <= items[idx[t + 1]].start
  }

  /** The total weight of the picked slots. */
  function SumW(items: seq<Item>, idx: seq<nat>): real
    requires InRange(items, idx)
  {
    if idx == [] then 0.0 else SumW(items, idx[..|idx| - 1]) + items[idx[|idx| - 1]].weight
  }

  /** The codes of the picked slots, in the order picked. */
  function Codes(items: seq<Item>, idx: seq<nat>): (r: seq<string>)
    requires InRange(items, idx)
    ensures |r| == |idx|
    ensures forall t :: 0 <= t < |idx| ==> r[t] == items[idx[t]].code
  {
    if idx == [] then [] else Codes(items, idx[..|idx| - 1]) + [items[idx[|idx| - 1]].code]
  }

  /** The backward scan for `p[j]`, started at `i`: one more than the largest
      index below `i` whose slot ends by the time slot `j` starts, or 0. */
  function Pred(items: seq<Item>, j: nat, i: nat): (p: nat)
    requires i <= j < |items|
    ensures p <= i
  {
    if i == 0 then 0
    else if items[i - 1].end <= items[j].start then i
    else Pred(items, j, i - 1)
  }

  /** The scan finds the last compatible slot: the slot before `Pred` ends in
      time for slot `j`, and none of the slots it passed over does. */
  lemma {:induction false} PredSpec(items: seq<Item>, j: nat, i: nat)
    requires i <= j < |items|
    ensures var p := Pred(items, j, i);
      && (p > 0 ==> items[p - 1].end <= items[j].start)
      && (forall t :: p <= t < i ==> EndAt(items, t) > items[j].start)
  {
    if i > 0 && items[i - 1].end > items[j].start {
      PredSpec(items, j, i - 1);
    }
  }

  /** `p[j]`. */
  function P(items: seq<Item>, j: nat): nat
    requires j < |items|
  {
    Pred(items, j, j)
  }

  /** `dp[k]`: the larger of leaving slot `k-1` out and taking it on top of
      `dp[p[k-1]]`; taking it needs a strictly larger total. */
  function Best(items: seq<Item>, k: nat): real
    requires k <= |items|
  {
    if k == 0 then 0.0
    else
      var incl := items[k - 1].weight + Best(items, P(items, k - 1));
      var excl := Best(items, k - 1);
      if incl > excl then incl else excl
  }

  /** `keep[k]`: whether slot `k-1` is taken. */
  predicate Keep(items: seq<Item>, k: nat)
    requires 1 <= k <= |items|
  {
    items[k - 1].weight + Best(items, P(items, k - 1)) > Best(items, k - 1)
  }

  /** The slots the reconstruction loop picks from `dp[k]`, in increasing order. */
  function Reconstruct(items: seq<Item>, k: nat): (r: seq<nat>)
    requires k <= |items|
    ensures forall t :: 0 <= t < |r| ==> r[t] < k
  {
    if k == 0 then []
    else if Keep(items, k) then Reconstruct(items, P(items, k - 1)) + [k - 1]
    else Reconstruct(items, k - 1)
  }

  /** `dp` only grows, starting from 0. */
  lemma {:induction false} BestNonNegative(items: seq<Item>, k: nat)
    requires k <= |items|
    ensures Best(items, k) >= 0.0
  {
    if k > 0 {
      BestNonNegative(items, k - 1);
    }
  }

  /** The reconstruction picks slots whose total weight is `dp[k]`. */
  lemma {:induction false} ReconstructWeight(items: seq<Item>, k: nat)
    requires k <= |items|
    ensures InRange(items, Reconstruct(items, k))
    ensures SumW(items, Reconstruct(items, k)) == Best(items, k)
  {
    if k > 0 {
      if Keep(items, k) {
        var q := P(items, k - 1);
        ReconstructWeight(items, q);
        var a := Reconstruct(items, q);
        SumWSnoc(items, a, k - 1);
        assert Reconstruct(items, k) == a + [k - 1];
        assert Best(items, k) == items[k - 1].weight + Best(items, q);
      } else {
        ReconstructWeight(items, k - 1);
        assert Reconstruct(items, k) == Reconstruct(items, k - 1);
        assert Best(items, k) == Best(items, k - 1);
      }
    }
  }

  /** On slots sorted by end time, the reconstruction picks a chain. */
  lemma {:induction false} ReconstructChain(items: seq<Item>, k: nat)
    requires k <= |items| && SortedByEnd(items)
    ensures Chain(items, Reconstruct(items, k))
  {
    if k > 0 {
      if Keep(items, k) {
        var q := P(items, k - 1);
        PredSpec(items, k - 1, k - 1);
        ReconstructChain(items, q);
        var a := Reconstruct(items, q);
        if a != [] {
          var i := a[|a| - 1];
          assert i < q && EndAt(items, i) <= EndAt(items, q - 1);
        }
        ChainSnoc(items, a, k - 1);
        assert Reconstruct(items, k) == a + [k - 1];
        assert Chain(items, Reconstruct(items, k));
      } else {
        ReconstructChain(items, k - 1);
        assert Reconstruct(items, k) == Reconstruct(items, k - 1);
        assert Chain(items, Reconstruct(items, k));
      }
    } else {
      assert Chain(items, Reconstruct(items, k));
    }
  }

  /** Picking one more slot adds its weight. */
  lemma SumWSnoc(items: seq<Item>, a: seq<nat>, x: nat)
    requires InRange(items, a) && x < |items|
    ensures InRange(items, a + [x])
    ensures SumW(items, a + [x]) == SumW(items, a) + items[x].weight
  {
    var r := a + [x];
    assert r[..|a|] == a;
  }

  /** A chain extended by a slot that starts no earlier than its last slot
      ends is a chain. */
  lemma ChainSnoc(items: seq<Item>, a: seq<nat>, x: nat)
    requires Chain(items, a) && x < |items|
    requires a != [] ==> a[|a| - 1] < x && items[a[|a| - 1]].end <= items[x].start
    ensures Chain(items, a + [x])
  {
    var r := a + [x];
    assert forall t :: 0 <= t < |a| ==> r[t] == a[t];
  }

  /** The chain that drops its last slot is still a chain. */
  lemma ChainInit(items: seq<Item>, idx: seq<nat>)
    requires Chain(items, idx) && idx != []
    ensures Chain(items, idx[..|idx| - 1])
  {
    var init := idx[..|idx| - 1];
    assert forall t :: 0 <= t < |init| ==> init[t] == idx[t];
  }

  /** `dp[k]` is at least the weight of every chain of slots below `k`. */
  lemma {:induction false} ChainOptimal(items: seq<Item>, k: nat, idx: seq<nat>)
    requires k <= |items| && Chain(items, idx)
    requires forall t :: 0 <= t < |idx| ==> idx[t] < k
    ensures SumW(items, idx) <= Best(items, k)
    decreases k
  {
    if idx == [] {
      BestNonNegative(items, k);
    } else {
      var last := idx[|idx| - 1];
      var init := idx[..|idx| - 1];
      ChainInit(items, idx);
      if last < k - 1 {
        forall t | 0 <= t < |idx| ensures idx[t] < k - 1 {
          ChainBelowLast(items, idx, t);
        }
        ChainOptimal(items, k - 1, idx);
      } else {
        var q := P(items, k - 1);
        PredSpec(items, k - 1, k - 1);
        if init != [] {
          var i := init[|init| - 1];
          assert i < last && EndAt(items, i) <= items[last].start;
          assert i < q;
          forall t | 0 <= t < |init| ensures init[t] < q {
            ChainBelowLast(items, init, t);
          }
        }
        ChainOptimal(items, q, init);
      }
    }
  }

  /** Every slot of a chain comes before its last one. */
  lemma ChainBelowLast(items: seq<Item>, idx: seq<nat>, t: nat)
    requires Chain(items, idx) && t < |idx|
    ensures idx[t] <= idx[|idx| - 1]
    decreases |idx| - t
  {
    if t < |idx| - 1 {
      ChainBelowLast(items, idx, t + 1);
    }
  }

  /** Along a chain of well-formed slots, each slot ends no later than any
      later one starts. */
  lemma {:induction false} ChainSpan(items: seq<Item>, idx: seq<nat>, s: nat, t: nat)
    requires WellFormed(items) && Chain(items, idx) && s < t < |idx|
    ensures idx[s] < idx[t] && items[idx[s]].end <= items[idx[t]].start
    decreases t - s
  {
    if s + 1 < t {
      ChainSpan(items, idx, s + 1, t);
      assert items[idx[s + 1]] in items;
    }
  }

  /** A chain of well-formed slots has no two overlapping slots. */
  lemma ChainIsDisjoint(items: seq<Item>, idx: seq<nat>)
    requires WellFormed(items) && Chain(items, idx)
    ensures Disjoint(items, idx)
  {
    forall s, t | 0 <= s < t < |idx|
      ensures idx[s] < idx[t] && !Overlap(items[idx[s]], items[idx[t]])
    {
      ChainSpan(items, idx, s, t);
    }
  }

  /** On well-formed slots sorted by end time, slots that do not overlap, taken
      in index order, form a chain. */
  lemma DisjointIsChain(items: seq<Item>, idx: seq<nat>)
    requires WellFormed(items) && SortedByEnd(items) && Disjoint(items, idx)
    ensures Chain(items, idx)
  {
    forall t | 0 <= t < |idx| - 1
      ensures idx[t] < idx[t + 1] && items[idx[t]].end <= items[idx[t + 1]].start
    {
      var a, b := items[idx[t]], items[idx[t + 1]];
      assert a in items && b in items;
      assert EndAt(items, idx[t]) <= EndAt(items, idx[t + 1]);
      assert !Overlap(a, b);
    }
  }

  /** The sorted slots are the input slots in an order sorted by end time. */
  lemma SortByEndCorrect(items: seq<Item>)
    ensures multiset(SortByEnd(items)) == multiset(items)
    ensures SortedByEnd(SortByEnd(items))
    ensures WellFormed(items) ==> WellFormed(SortByEnd(items))
  {
    NumberOrders();
    MergeSortPermutes(items, EndKey(), IntLess());
    MergeSortSorted(items, EndKey(), IntLess());
    var s := SortByEnd(items);
    forall i, j | 0 <= i < j < |s| ensures EndAt(s, i) <= EndAt(s, j) {
      assert Leq(IntLess(), EndKey()(s[i]), EndKey()(s[j]));
    }
    forall it | it in s ensures it in items {
      assert it in multiset(s);
    }
  }

  /** The result of `optimize_timetable_for` over these slots: the chosen slots
      do not overlap, come in end-time order, and their total weight is the
      largest any set of non-overlapping slots reaches. */
  lemma TimetableOptimal(items: seq<Item>)
    requires WellFormed(items)
    ensures var s := SortByEnd(items); var r := Reconstruct(s, |s|);
      && Disjoint(s, r)
      && (forall t :: 0 <= t < |r| - 1 ==> s[r[t]].end <= s[r[t + 1]].start)
      && SumW(s, r) == Best(s, |s|)
      && forall idx :: Disjoint(s, idx) ==> SumW(s, idx) <= Best(s, |s|)
  {
    var s := SortByEnd(items);
    SortByEndCorrect(items);
    ReconstructChain(s, |s|);
    ReconstructWeight(s, |s|);
    ChainIsDisjoint(s, Reconstruct(s, |s|));
    forall idx | Disjoint(s, idx) ensures SumW(s, idx) <= Best(s, |s|) {
      DisjointIsChain(s, idx);
      ChainOptimal(s, |s|, idx);
    }
  }

  /** One step of the `dp` recurrence and of `keep`. */
  lemma BestStep(s: seq<Item>, k: nat)
    requires 1 <= k <= |s|
    ensures P(s, k - 1) < k
    ensures var incl, excl := s[k - 1].weight + Best(s, P(s, k - 1)), Best(s, k - 1);
      && Best(s, k) == (if incl > excl then incl else excl)
      && (Keep(s, k) <==> incl > excl)
  {
  }

  /** One step of the reconstruction walk. */
  lemma ReconstructStep(s: seq<Item>, k: nat)
    requires 1 <= k <= |s|
    ensures Reconstruct(s, k) == if Keep(s, k) then Reconstruct(s, P(s, k - 1)) + [k - 1] else Reconstruct(s, k - 1)
  {
  }

  /** A step of the walk that takes slot `k-1` keeps what is still to be
      collected, followed by what has been collected, the same. */
  lemma WalkTake(s: seq<Item>, k: nat, chosen: seq<string>)
    requires 1 <= k <= |s| && Keep(s, k)
    ensures Codes(s, Reconstruct(s, P(s, k - 1))) + Reverse(chosen + [s[k - 1].code])
         == Codes(s, Reconstruct(s, k)) + Reverse(chosen)
  {
    var x := s[k - 1].code;
    CodesTake(s, k);
    ReverseSnoc(chosen, x);
    Regroup(Codes(s, Reconstruct(s, P(s, k - 1))), x, Reverse(chosen), Reverse(chosen + [x]), Codes(s, Reconstruct(s, k)));
  }

  /** Taking slot `k-1` adds its code after those taken before it. */
  lemma CodesTake(s: seq<Item>, k: nat)
    requires 1 <= k <= |s| && Keep(s, k)
    ensures P(s, k - 1) < k
    ensures Codes(s, Reconstruct(s, k)) == Codes(s, Reconstruct(s, P(s, k - 1))) + [s[k - 1].code]
  {
    ReconstructStep(s, k);
    CodesSnoc(s, Reconstruct(s, P(s, k - 1)), k - 1);
  }

  lemma Regroup<T>(a: seq<T>, x: T, r: seq<T>, b: seq<T>, c: seq<T>)
    requires b == [x] + r && c == a + [x]
    ensures a + b == c + r
  {
    AppendAssoc(a, [x], r);
  }

  /** A step of the walk that skips slot `k-1`. */
  lemma WalkSkip(s: seq<Item>, k: nat)
    requires 1 <= k <= |s| && !Keep(s, k)
    ensures Codes(s, Reconstruct(s, k - 1)) == Codes(s, Reconstruct(s, k))
  {
    ReconstructStep(s, k);
  }

  lemma CodesSnoc(s: seq<Item>, a: seq<nat>, x: nat)
    requires InRange(s, a) && x < |s|
    ensures InRange(s, a + [x])
    ensures Codes(s, a + [x]) == Codes(s, a) + [s[x].code]
  {
    assert (a + [x])[..|a|] == a;
  }

  lemma ReverseSnoc<T>(c: seq<T>, x: T)
    ensures Reverse(c + [x]) == [x] + Reverse(c)
  {
    assert (c + [x])[..|c|] == c;
  }

  /** The backward scans: `p[j]` for every slot `j`. */
  method ComputePreds(s: seq<Item>) returns (p: array<nat>)
    ensures fresh(p) && p.Length == |s|
    ensures forall t :: 0 <= t < |s| ==> p[t] == P(s, t)
  {
    var n := |s|;
    p := new nat[n](_ => 0);
    for j := 0 to n
      invariant forall t :: 0 <= t < j ==> p[t] == P(s, t)
    {
      p[j] := 0;
      var start := s[j].start;
      var i := j;
      while i > 0
        invariant 0 <= i <= j && p[j] == 0
        invariant Pred(s, j, i) == P(s, j)
        invariant forall t :: 0 <= t < j ==> p[t] == P(s, t)
      {
        if s[i - 1].end <= start {
          p[j] := i;
          break;
        }
        i := i - 1;
      }
    }
  }

  /** The `dp`/`keep` table, filled left to right. */
  method ComputeTable(s: seq<Item>, p: array<nat>) returns (dp: array<real>, keep: array<bool>)
    requires p.Length == |s| && forall t :: 0 <= t < |s| ==> p[t] == P(s, t)
    ensures fresh(dp) && fresh(keep) && dp.Length == keep.Length == |s| + 1
    ensures forall t :: 0 <= t <= |s| ==> dp[t] == Best(s, t)
    ensures forall t :: 1 <= t <= |s| ==> keep[t] == Keep(s, t)
  {
    var n := |s|;
    dp := new real[n + 1](_ => 0.0);
    keep := new bool[n + 1](_ => false);
    for j := 1 to n + 1
      invariant forall t :: 0 <= t < j ==> dp[t] == Best(s, t)
      invariant forall t :: 1 <= t < j ==> keep[t] == Keep(s, t)
    {
      FillStep(s, p, dp, keep, j);
    }
  }

  /** One iteration of the table loop: `dp[j]` and `keep[j]` from the entries
      before them. */
  method FillStep(s: seq<Item>, p: array<nat>, dp: array<real>, keep: array<bool>, j: nat)
    requires p.Length == |s| && forall t :: 0 <= t < |s| ==> p[t] == P(s, t)
    requires dp.Length == keep.Length == |s| + 1 && 1 <= j <= |s|
    requires forall t :: 0 <= t < j ==> dp[t] == Best(s, t)
    modifies dp, keep
    ensures dp[j] == Best(s, j) && keep[j] == Keep(s, j)
    ensures forall t :: 0 <= t < dp.Length && t != j ==> dp[t] == old(dp[t]) && keep[t] == old(keep[t])
  {
    var q := p[j - 1];
    var incl := s[j - 1].weight + dp[q];
    var excl := dp[j - 1];
    BestStep(s, j);
    if incl > excl {
      dp[j] := incl;
      keep[j] := true;
    } else {
      dp[j] := excl;
      keep[j] := false;
    }
  }

  /** The walk back from `dp[n]` collecting codes, last chosen first, and the
      final `reverse()`. */
  method Collect(s: seq<Item>, p: array<nat>, keep: array<bool>) returns (codes: seq<string>)
    requires p.Length == |s| && forall t :: 0 <= t < |s| ==> p[t] == P(s, t)
    requires keep.Length == |s| + 1 && forall t :: 1 <= t <= |s| ==> keep[t] == Keep(s, t)
    ensures codes == Codes(s, Reconstruct(s, |s|))
  {
    var n := |s|;
    var chosen: seq<string> := [];
    var j := n;
    while j > 0
      invariant 0 <= j <= n
      invariant Codes(s, Reconstruct(s, j)) + Reverse(chosen) == Codes(s, Reconstruct(s, n))
    {
      if keep[j] {
        var code := s[j - 1].code;
        WalkTake(s, j, chosen);
        chosen := chosen + [code];
        j := p[j - 1];
      } else {
        WalkSkip(s, j);
        j := j - 1;
      }
    }
    assert Codes(s, Reconstruct(s, 0)) == [];
    AppendEmpty(Reverse(chosen));
    codes := Reverse(chosen);
  }

  /** The body of `optimize_timetable_for` from the collected slots on: no
      slots give no codes; otherwise sort by end time, compute `p`, fill the
      table and read the choice back. */
  method Optimize(items: seq<Item>) returns (codes: seq<string>)
    ensures var s := SortByEnd(items); codes == Codes(s, Reconstruct(s, |s|))
  {
    if |items| == 0 {
      return [];
    }
    var s := SortByEnd(items);
    var p := ComputePreds(s);
    var dp, keep := ComputeTable(s, p);
    codes := Collect(s, p, keep);
  }
}
