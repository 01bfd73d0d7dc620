/** Which mixdepth a maker spends from (scripts/yg-privacyenhanced.py, `select_input_mixdepth`). */
module MixdepthSelection {
  // It is the one after the largest cyclic gap between funded mixdepths.

  import opened Sequences
  import opened Sorting

  // ---------- sorting ----------

  ghost predicate Ascending(s: seq<nat>) {
    forall i, j :: 0 <= i < j < |s| ==> s[i] < s[j]
  }

  predicate AtMost(a: nat, b: nat) {
    a <= b
  }

  /** `sorted(available.keys())`. */
  function SortedUp(keys: seq<nat>): (r: seq<nat>)
    ensures |r| == |keys|
  {
    Sorted(keys, AtMost)
  }

  lemma SortedAscends(keys: seq<nat>)
    requires Distinct(keys)
    ensures Ascending(SortedUp(keys)) && forall y :: y in SortedUp(keys) <==> y in keys
  {
    SortedOrders(keys, AtMost);
    var r := SortedUp(keys);
    forall y ensures y in r <==> y in keys {
      assert y in r <==> y in multiset(r);
      assert y in keys <==> y in multiset(keys);
    }
    DistinctIff(keys);
    DistinctIff(r);
  }

  // ---------- gaps and distances ----------

  /** The distance from the available mixdepth before the `i`-th one, around the cycle. */
  function Gap(a: seq<nat>, i: nat, n: nat): int
    requires i < |a|
  {
    if i == 0 then n + a[0] - a[|a| - 1] else a[i] as int - a[i - 1] as int
  }

  /** How far forward, around the cycle, from `s` to `t`. */
  function Distance(s: nat, t: nat, n: nat): (d: nat)
    requires s < n && t < n
    ensures d < n
  {
    if t >= s then t - s else t + n - s
  }

  ghost predicate InWallet(a: seq<nat>, n: nat) {
    a != [] && forall i :: 0 <= i < |a| ==> a[i] < n
  }

  /** The farthest that any of the mixdepths is from `s`. */
  function Farthest(s: nat, a: seq<nat>, n: nat): (f: nat)
    requires s < n && InWallet(a, n)
    ensures forall t :: t in a ==> Distance(s, t, n) <= f
    ensures exists t :: t in a && Distance(s, t, n) == f
  {
    var k := |a| - 1;
    assert a == a[..k] + [a[k]];
    if k == 0 then Distance(s, a[0], n)
    else
      var f := Farthest(s, a[..k], n);
      var d := Distance(s, a[k], n);
      assert forall t :: t in a <==> t in a[..k] || t == a[k];
      if d > f then d else f
  }

  /** No mixdepth whatever is a better place to start from. */
  ghost predicate IsBest(r: nat, a: seq<nat>, n: nat)
    requires r < n && InWallet(a, n)
  {
    forall s: nat :: s < n ==> Farthest(r, a, n) <= Farthest(s, a, n)
  }

  /** Among equal gaps the first one counts. */
  ghost predicate AfterFirstLargestGap(r: nat, a: seq<nat>, n: nat) {
    exists k :: 0 <= k < |a| && a[k] == r
                && (forall i :: 0 <= i < |a| ==> Gap(a, i, n) <= Gap(a, k, n))
                && (forall i :: 0 <= i < k ==> Gap(a, i, n) < Gap(a, k, n))
  }

  function SumGaps(a: seq<nat>, k: nat, n: nat): int
    requires k <= |a|
  {
    if k == 0 then 0 else SumGaps(a, k - 1, n) + Gap(a, k - 1, n)
  }

  /** The gaps go once around the cycle. */
  lemma GapsGoAround(a: seq<nat>, n: nat)
    requires a != []
    ensures SumGaps(a, |a|, n) == n
  {
    GapsTo(a, |a|, n);
  }

  lemma {:induction false} GapsTo(a: seq<nat>, k: nat, n: nat)
    requires 1 <= k <= |a|
    ensures SumGaps(a, k, n) == n + a[k - 1] - a[|a| - 1]
  {
    if k == 1 {
      assert SumGaps(a, 0, n) == 0;
    } else {
      GapsTo(a, k - 1, n);
    }
  }

  /** Starting at an available mixdepth, all others lie within the cycle less the gap before it. */
  lemma WithinGap(a: seq<nat>, k: nat, t: nat, n: nat)
    requires Ascending(a) && InWallet(a, n) && k < |a| && t in a
    ensures Distance(a[k], t, n) <= n - Gap(a, k, n)
  {
    var j :| 0 <= j < |a| && a[j] == t;
  }

  /** Starting anywhere, some mixdepth is at least as far as the cycle less some gap. */
  lemma BeyondGap(a: seq<nat>, s: nat, n: nat) returns (i: nat, u: nat)
    requires Ascending(a) && InWallet(a, n) && s < n
    ensures i < |a| && u in a && Distance(s, u, n) >= n - Gap(a, i, n)
  {
    var last := |a| - 1;
    if s <= a[0] || s > a[last] {
      i, u := 0, a[last];
    } else {
      i := 1;
      while a[i] < s
        invariant 1 <= i <= last && a[i - 1] < s
        decreases last - i
      {
        i := i + 1;
      }
      u := a[i - 1];
    }
  }

  /** The mixdepth after the largest gap minimises the farthest distance over all starts. */
  lemma LargestGapIsBest(a: seq<nat>, k: nat, s: nat, n: nat)
    requires Ascending(a) && InWallet(a, n) && k < |a| && s < n
    requires forall i :: 0 <= i < |a| ==> Gap(a, i, n) <= Gap(a, k, n)
    ensures Farthest(a[k], a, n) <= Farthest(s, a, n)
  {
    var f := Farthest(a[k], a, n);
    var t :| t in a && Distance(a[k], t, n) == f;
    WithinGap(a, k, t, n);
    var i, u := BeyondGap(a, s, n);
  }

  method Intervals(a: seq<nat>, n: nat) returns (intervals: seq<int>)
    requires a != []
    ensures |intervals| == |a| && forall j :: 0 <= j < |a| ==> intervals[j] == Gap(a, j, n)
  {
    intervals := [n + a[0] - a[|a| - 1]];
    for i := 0 to |a| - 1
      invariant |intervals| == i + 1 && forall j :: 0 <= j <= i ==> intervals[j] == Gap(a, j, n)
    {
      var step: int := a[i + 1] as int - a[i] as int;
      intervals := intervals + [step];
    }
  }

  /** The first index with the largest value, as Python's `max` with a key picks it. */
  method IndexOfLargest(intervals: seq<int>) returns (best: nat)
    requires intervals != []
    ensures best < |intervals|
    ensures forall j :: 0 <= j < |intervals| ==> intervals[j] <= intervals[best]
    ensures forall j :: 0 <= j < best ==> intervals[j] < intervals[best]
  {
    best := 0;
    for i := 1 to |intervals|
      invariant best < i && forall j :: 0 <= j < i ==> intervals[j] <= intervals[best]
      invariant forall j :: 0 <= j < best ==> intervals[j] < intervals[best]
    {
      if intervals[i] > intervals[best] {
        best := i;
      }
    }
  }

  /** Select one of the available mixdepths; `mixdepth` is the wallet's highest one. */
  method SelectInputMixdepth(available: seq<nat>, mixdepth: nat) returns (r: nat)
    requires available != [] && Distinct(available) && forall d :: d in available ==> d <= mixdepth
    ensures r in available
    ensures r <= mixdepth && InWallet(available, mixdepth + 1) && IsBest(r, available, mixdepth + 1)
    ensures AfterFirstLargestGap(r, SortedUp(available), mixdepth + 1)
  {
    var n := mixdepth + 1;
    var a := SortedUp(available);
    SortedAscends(available);
    hide SortedUp, Ascending, Gap, IsBest;
    var intervals := Intervals(a, n);
    var best := IndexOfLargest(intervals);
    r := a[best];
    assert r in a;
    assert forall i :: 0 <= i < |a| ==> a[i] in a;
    BestOfSorted(available, a, best, n);
  }

  lemma BestOfSorted(available: seq<nat>, a: seq<nat>, best: nat, n: nat)
    requires Ascending(a) && InWallet(a, n) && best < |a| && forall y :: y in a <==> y in available
    requires forall i :: 0 <= i < |a| ==> Gap(a, i, n) <= Gap(a, best, n)
    ensures InWallet(available, n) && IsBest(a[best], available, n)
  {
    hide Farthest, Ascending, Gap;
    assert a[best] in a;
    forall i | 0 <= i < |available| ensures available[i] < n {
      assert available[i] in available;
    }
    forall s: nat | s < n ensures Farthest(a[best], available, n) <= Farthest(s, available, n) {
      LargestGapIsBest(a, best, s, n);
    }
  }
}
