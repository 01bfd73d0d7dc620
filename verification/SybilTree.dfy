/** Sybil attacks (scripts/obwatch/sybil_attack_calculations.py). */
module SybilTree {
  // A taker draws `k` makers one after another, without replacement, each with probability
  // proportional to its fidelity bond weight. Index 0 holds the weight of all honest makers
  // together; the attack succeeds if only sybil makers (indices 1 and up) are drawn.

  import opened Sequences

  function Sum(w: seq<real>): real {
    if w == [] then 0.0 else Sum(w[..|w| - 1]) + w[|w| - 1]
  }

  ghost predicate Weights(w: seq<real>) {
    |w| > 0 && forall i :: 0 <= i < |w| ==> w[i] >= 0.0
  }

  lemma {:induction false} SumUpdate(w: seq<real>, i: nat, v: real)
    requires i < |w|
    ensures Sum(w[i := v]) == Sum(w) - w[i] + v
  {
    var n := |w| - 1;
    if i < n {
      assert w[i := v][..n] == w[..n][i := v];
      SumUpdate(w[..n], i, v);
    } else {
      assert w[i := v][..n] == w[..n];
    }
  }

  lemma {:induction false} SumNonNegative(w: seq<real>)
    requires forall i :: 0 <= i < |w| ==> w[i] >= 0.0
    ensures Sum(w) >= 0.0
    ensures forall i :: 0 <= i < |w| ==> w[i] <= Sum(w)
  {
    if w != [] {
      SumNonNegative(w[..|w| - 1]);
      assert forall i :: 0 <= i < |w| - 1 ==> w[i] == w[..|w| - 1][i];
    }
  }

  // ---------- the probability tree ----------

  /** The share of maker `j`, zero for a maker without weight. */
  function Share(w: seq<real>, j: nat): (p: real)
    requires Weights(w) && j < |w|
    ensures 0.0 <= p <= 1.0
  {
    SumNonNegative(w);
    if w[j] == 0.0 then 0.0 else
      ShareBounds(w[j], Sum(w));
      w[j] / Sum(w)
  }

  lemma ShareBounds(x: real, total: real)
    requires 0.0 < x <= total
    ensures 0.0 <= x / total <= 1.0
  {}

  /** The probability that `k` draws from the weights `w` all hit sybil makers. */
  function Tree(w: seq<real>, k: nat): real
    requires Weights(w)
    decreases k, 0
  {
    if k == 0 then 1.0 else BranchSum(w, k, |w|)
  }

  /** The contribution of first drawing one of the sybil makers below index `n`. */
  function BranchSum(w: seq<real>, k: nat, n: nat): real
    requires Weights(w) && k > 0 && n <= |w|
    decreases k - 1, 1, n
  {
    if n <= 1 then 0.0
    else BranchSum(w, k, n - 1) + Share(w, n - 1) * Tree(w[n - 1 := 0.0], k - 1)
  }

  lemma Distribute(a: real, b: real, c: real, t: real)
    ensures a * b + (a * c) * t == a * (b + c * t)
  {}

  lemma ScaledShare(branch: real, x: real, total: real)
    requires total > 0.0
    ensures branch * x / total == branch * (x / total)
  {}

  lemma Combine(branch: real, b: real, x: real, total: real, t: real)
    requires total > 0.0
    ensures branch * b + (branch * x / total) * t == branch * (b + (x / total) * t)
  {
    ScaledShare(branch, x, total);
    Distribute(branch, b, x / total, t);
  }

  lemma BranchEnds(w: seq<real>, k: nat, branch: real)
    requires Weights(w) && k > 0
    ensures branch * BranchSum(w, k, 0) == 0.0 == branch * BranchSum(w, k, 1)
    ensures BranchSum(w, k, |w|) == Tree(w, k)
  {}

  /** One more branch of the sum, in terms of the weights themselves. */
  lemma BranchUnfold(w: seq<real>, k: nat, i: nat)
    requires Weights(w) && k > 0 && 0 < i < |w|
    ensures w[i] == 0.0 ==> BranchSum(w, k, i + 1) == BranchSum(w, k, i)
    ensures w[i] != 0.0 ==>
      (Sum(w) > 0.0 &&
       BranchSum(w, k, i + 1) == BranchSum(w, k, i) + (w[i] / Sum(w)) * Tree(w[i := 0.0], k - 1))
  {
    hide Tree;
    SumNonNegative(w);
  }

  /** The recursive search, which zeroes the drawn maker's weight while it descends and puts
      it back afterwards. */
  method DescendProbabilityTree(weights: array<real>, remainingDescents: nat, branchProbability: real)
    returns (result: real)
    requires Weights(weights[..])
    modifies weights
    ensures weights[..] == old(weights[..])
    ensures result == branchProbability * Tree(old(weights[..]), remainingDescents)
    decreases remainingDescents
  {
    hide Sum, BranchSum, Share;
    if remainingDescents == 0 {
      return branchProbability;
    }
    hide Tree;
    ghost var w := weights[..];
    var totalWeight := Total(weights);
    BranchEnds(w, remainingDescents, branchProbability);
    result := 0.0;
    for i := 0 to weights.Length
      invariant weights[..] == w
      invariant result == branchProbability * BranchSum(w, remainingDescents, i)
    {
      if i == 0 {
        continue;
      }
      var x := weights[i];
      if x == 0.0 {
        BranchUnfold(w, remainingDescents, i);
        continue;
      }
      BranchUnfold(w, remainingDescents, i);
      Combine(branchProbability, BranchSum(w, remainingDescents, i), x, totalWeight,
              Tree(w[i := 0.0], remainingDescents - 1));
      var weightCache := weights[i];
      weights[i] := 0.0;
      assert weights[..] == w[i := 0.0];
      var sub := DescendProbabilityTree(weights, remainingDescents - 1, branchProbability * x / totalWeight);
      result := result + sub;
      weights[i] := weightCache;
      assert weights[..] == w;
    }
  }

  method Total(weights: array<real>) returns (total: real)
    ensures total == Sum(weights[..])
  {
    total := 0.0;
    for i := 0 to weights.Length
      invariant total == Sum(weights[..i])
    {
      assert weights[..i + 1][..i] == weights[..i];
      total := total + weights[i];
    }
    assert weights[..weights.Length] == weights[..];
  }

  // ---------- bounds ----------

  /** The sybil weight below index `n`. */
  function SybilSum(w: seq<real>, n: nat): real
    requires n <= |w|
  {
    if n <= 1 then 0.0 else SybilSum(w, n - 1) + w[n - 1]
  }

  lemma {:induction false} SybilSumTotal(w: seq<real>, n: nat)
    requires 0 < n <= |w|
    ensures Sum(w[..n]) == w[0] + SybilSum(w, n)
  {
    assert w[..n][..n - 1] == w[..n - 1];
    if n > 1 {
      SybilSumTotal(w, n - 1);
    }
  }

  lemma AddShare(b: real, s: real, x: real, t: real, total: real)
    requires total > 0.0 && 0.0 <= b && b * total <= s && x >= 0.0 && 0.0 <= t <= 1.0
    ensures 0.0 <= b + (x / total) * t && (b + (x / total) * t) * total <= s + x
  {
    var p := x / total;
    assert p * total == x && p >= 0.0;
    assert 0.0 <= p * t <= p;
    assert (b + p * t) * total == b * total + (p * t) * total;
    assert (p * t) * total <= p * total;
  }

  lemma AtMostOne(b: real, s: real, total: real)
    requires total > 0.0 && b * total <= s <= total
    ensures b <= 1.0
  {}

  lemma {:induction false} BranchBounds(w: seq<real>, k: nat, n: nat)
    requires Weights(w) && k > 0 && n <= |w|
    ensures 0.0 <= BranchSum(w, k, n)
    ensures BranchSum(w, k, n) * Sum(w) <= SybilSum(w, n)
    decreases k, n
  {
    hide Share, Tree;
    if n > 1 {
      BranchBounds(w, k, n - 1);
      BranchUnfold(w, k, n - 1);
      if w[n - 1] != 0.0 {
        TreeBounds(w[n - 1 := 0.0], k - 1);
        AddShare(BranchSum(w, k, n - 1), SybilSum(w, n - 1), w[n - 1], Tree(w[n - 1 := 0.0], k - 1), Sum(w));
      }
    }
  }

  lemma {:induction false} NoWeightNoBranch(w: seq<real>, k: nat, n: nat)
    requires Weights(w) && k > 0 && n <= |w| && forall i :: 0 < i < n ==> w[i] == 0.0
    ensures BranchSum(w, k, n) == 0.0
    decreases n
  {
    hide Tree, Share;
    if n > 1 {
      BranchUnfold(w, k, n - 1);
      NoWeightNoBranch(w, k, n - 1);
    }
  }

  /** The tree computes a probability. */
  lemma TreeBounds(w: seq<real>, k: nat)
    requires Weights(w)
    ensures 0.0 <= Tree(w, k) <= 1.0
    decreases k, |w| + 1
  {
    if k > 0 {
      hide Share;
      SumNonNegative(w);
      if Sum(w) == 0.0 {
        NoWeightNoBranch(w, k, |w|);
      } else {
        BranchBounds(w, k, |w|);
        SybilSumTotal(w, |w|);
        assert w[..|w|] == w;
        AtMostOne(BranchSum(w, k, |w|), SybilSum(w, |w|), Sum(w));
      }
    }
  }

  // ---------- more honest weight never helps the attacker ----------

  lemma ShareAntitone(b: real, b': real, x: real, t: real, t': real, total: real, total': real)
    requires 0.0 < total <= total' && x >= 0.0 && 0.0 <= t' <= t && 0.0 <= b' <= b
    ensures b' + (x / total') * t' <= b + (x / total) * t
  {
    var p, p' := x / total, x / total';
    assert p * total == x == p' * total';
    assert p' * total <= p' * total';
    assert (p - p') * total >= 0.0;
    assert p' * t' <= p' * t <= p * t;
  }

  lemma {:induction false} BranchAntitone(w: seq<real>, honest: real, k: nat, n: nat)
    requires Weights(w) && honest >= w[0] && k > 0 && n <= |w|
    ensures 0.0 <= BranchSum(w[0 := honest], k, n) <= BranchSum(w, k, n)
    decreases k, n
  {
    hide Share, Tree;
    var v := w[0 := honest];
    if n > 1 {
      BranchAntitone(w, honest, k, n - 1);
      BranchUnfold(w, k, n - 1);
      BranchUnfold(v, k, n - 1);
      if w[n - 1] != 0.0 {
        var u := w[n - 1 := 0.0];
        assert v[n - 1 := 0.0] == u[0 := honest];
        TreeAntitone(u, honest, k - 1);
        TreeBounds(v[n - 1 := 0.0], k - 1);
        BranchBounds(v, k, n);
        SumUpdate(w, 0, honest);
        ShareAntitone(BranchSum(w, k, n - 1), BranchSum(v, k, n - 1), w[n - 1],
                      Tree(u, k - 1), Tree(v[n - 1 := 0.0], k - 1), Sum(w), Sum(v));
      }
    }
  }

  /** Raising the honest weight never raises the success probability. */
  lemma TreeAntitone(w: seq<real>, honest: real, k: nat)
    requires Weights(w) && honest >= w[0]
    ensures Tree(w[0 := honest], k) <= Tree(w, k)
    decreases k, |w| + 1
  {
    if k > 0 {
      BranchAntitone(w, honest, k, |w|);
    }
  }

  // ---------- when the attack cannot fail, and when it cannot succeed ----------

  /** The number of sybil makers below index `n` that have any weight. */
  function Sybils(w: seq<real>, n: nat): nat
    requires n <= |w|
  {
    if n <= 1 then 0 else Sybils(w, n - 1) + (if w[n - 1] != 0.0 then 1 else 0)
  }

  lemma {:induction false} SybilsWithout(w: seq<real>, j: nat, n: nat)
    requires 0 < j < |w| && w[j] != 0.0 && n <= |w|
    ensures Sybils(w[j := 0.0], n) == if j < n then Sybils(w, n) - 1 else Sybils(w, n)
  {
    if n > 1 {
      SybilsWithout(w, j, n - 1);
    }
  }

  lemma PositiveShare(b: real, x: real, t: real, total: real)
    requires total > 0.0 && x > 0.0 && b >= 0.0 && t >= 0.0
    ensures b + (x / total) * t > 0.0 <==> b > 0.0 || t > 0.0
  {
    var p := x / total;
    assert p * total == x;
    assert p > 0.0;
    assert t > 0.0 ==> p * t > 0.0;
  }

  lemma {:induction false} BranchPositive(w: seq<real>, k: nat, n: nat)
    requires Weights(w) && k > 0 && n <= |w|
    ensures BranchSum(w, k, n) > 0.0 <==> Sybils(w, n) > 0 && Sybils(w, |w|) >= k
    decreases k, n
  {
    hide Share, Tree;
    if n > 1 {
      BranchPositive(w, k, n - 1);
      BranchUnfold(w, k, n - 1);
      if w[n - 1] != 0.0 {
        var u := w[n - 1 := 0.0];
        SybilsWithout(w, n - 1, |w|);
        BranchBounds(w, k, n - 1);
        TreeBounds(u, k - 1);
        TreePositive(u, k - 1);
        PositiveShare(BranchSum(w, k, n - 1), w[n - 1], Tree(u, k - 1), Sum(w));
      }
    }
  }

  /** The attack can succeed exactly when there are enough sybil makers to fill the draw. */
  lemma TreePositive(w: seq<real>, k: nat)
    requires Weights(w)
    ensures Tree(w, k) > 0.0 <==> Sybils(w, |w|) >= k
    decreases k, |w| + 1
  {
    if k > 0 {
      BranchPositive(w, k, |w|);
    }
  }

  lemma FullShare(b: real, s: real, x: real, total: real)
    requires total > 0.0 && b * total == s
    ensures (b + (x / total) * 1.0) * total == s + x
  {}

  lemma {:induction false} BranchFull(w: seq<real>, k: nat, n: nat)
    requires Weights(w) && k > 0 && n <= |w| && w[0] == 0.0 && Sybils(w, |w|) >= k
    ensures BranchSum(w, k, n) * Sum(w) == SybilSum(w, n)
    decreases k, n
  {
    hide Share, Tree;
    if n > 1 {
      BranchFull(w, k, n - 1);
      BranchUnfold(w, k, n - 1);
      if w[n - 1] != 0.0 {
        var u := w[n - 1 := 0.0];
        SybilsWithout(w, n - 1, |w|);
        TreeCertain(u, k - 1);
        FullShare(BranchSum(w, k, n - 1), SybilSum(w, n - 1), w[n - 1], Sum(w));
      }
    }
  }

  lemma QuotientOne(b: real, total: real, part: real, gap: real)
    requires total > 0.0 && total == gap + part && b * total <= part && gap >= 0.0
    ensures gap > 0.0 ==> b < 1.0
    ensures gap == 0.0 && b * total == part ==> b == 1.0
  {
    var d := b - 1.0;
    assert d * total == b * total - total;
    assert d > 0.0 ==> d * total > 0.0;
    assert d < 0.0 ==> d * total < 0.0;
  }

  lemma TreeIsBranches(w: seq<real>, k: nat)
    requires Weights(w) && k > 0
    ensures Tree(w, k) == BranchSum(w, k, |w|)
  {}

  lemma CertainQuotient(w: seq<real>, b: real)
    requires Weights(w) && Sum(w) > 0.0 && b * Sum(w) <= SybilSum(w, |w|)
    ensures w[0] > 0.0 ==> b < 1.0
    ensures w[0] == 0.0 && b * Sum(w) == SybilSum(w, |w|) ==> b == 1.0
  {
    hide Sum, SybilSum;
    assert w[..|w|] == w;
    SybilSumTotal(w, |w|);
    QuotientOne(b, Sum(w), SybilSum(w, |w|), w[0]);
  }

  /** The attack is certain to succeed exactly when, besides that, there is no honest weight. */
  lemma TreeCertain(w: seq<real>, k: nat)
    requires Weights(w)
    ensures Tree(w, k) == 1.0 <==> k == 0 || (w[0] == 0.0 && Sybils(w, |w|) >= k)
    decreases k, |w| + 1
  {
    if k > 0 {
      TreeIsBranches(w, k);
      hide Share, Tree;
      TreePositive(w, k);
      SumNonNegative(w);
      if Sum(w) == 0.0 {
        NoWeightNoBranch(w, k, |w|);
      } else if Sybils(w, |w|) >= k {
        if w[0] == 0.0 {
          BranchFull(w, k, |w|);
        } else {
          BranchBounds(w, k, |w|);
        }
        CertainQuotient(w, BranchSum(w, k, |w|));
      }
    }
  }

  // ---------- the top makers as one attacker ----------

  /** If the makers with the first `takerPeerCount` bonds collude, a taker choosing that many
      makers is fully surrounded with this probability. */
  method CalculateTopMakersSybilAttackSuccessProbability(weights: seq<real>, takerPeerCount: nat)
    returns (p: real)
    requires forall i :: 0 <= i < |weights| ==> weights[i] >= 0.0
    ensures var n := if takerPeerCount <= |weights| then takerPeerCount else |weights|;
            var w := [Sum(weights[n..])] + weights[..n];
            && Weights(w) && p == Tree(w, takerPeerCount) && 0.0 <= p <= 1.0
            && (p > 0.0 <==> Sybils(w, |w|) >= takerPeerCount)
            && (p == 1.0 <==> takerPeerCount == 0 || (w[0] == 0.0 && Sybils(w, |w|) >= takerPeerCount))
  {
    hide Tree;
    var n := if takerPeerCount <= |weights| then takerPeerCount else |weights|;
    var honest, top := weights[n..], weights[..n];
    SumNonNegative(honest);
    var honestWeight := 0.0;
    for i := 0 to |honest|
      invariant honestWeight == Sum(honest[..i])
    {
      assert honest[..i + 1][..i] == honest[..i];
      honestWeight := honestWeight + honest[i];
    }
    assert honest[..|honest|] == honest;
    var w := [honestWeight] + top;
    var arr := new real[|w|](i requires 0 <= i < |w| => w[i]);
    assert arr[..] == w;
    p := DescendProbabilityTree(arr, takerPeerCount, 1.0);
    TreeBounds(w, takerPeerCount);
    TreePositive(w, takerPeerCount);
    TreeCertain(w, takerPeerCount);
  }

  // ---------- the tree is the sum over all ordered draws without replacement ----------

  ghost predicate DrawInRange(draw: seq<nat>, n: nat) {
    forall i :: 0 <= i < |draw| ==> draw[i] < n
  }

  ghost predicate InRange(draws: seq<seq<nat>>, n: nat) {
    forall i :: 0 <= i < |draws| ==> DrawInRange(draws[i], n)
  }

  /** The probability of one particular ordered draw, when `total` weight is still in the pot. */
  ghost function DrawProb(w: seq<real>, total: real, draw: seq<nat>): real
    requires DrawInRange(draw, |w|)
    decreases |draw|
  {
    if draw == [] then 1.0
    else
      var x := w[draw[0]];
      if x == 0.0 || total == 0.0 then 0.0 else (x / total) * DrawProb(w, total - x, draw[1..])
  }

  ghost predicate IsDraw(draw: seq<nat>, n: nat, k: nat, used: set<nat>) {
    && |draw| == k
    && (forall i :: 0 <= i < k ==> 0 < draw[i] < n && draw[i] !in used)
    && (forall i, j :: 0 <= i < j < k ==> draw[i] != draw[j])
  }

  function Prepend(j: nat, draws: seq<seq<nat>>): (r: seq<seq<nat>>)
    ensures |r| == |draws| && forall i :: 0 <= i < |r| ==> r[i] == [j] + draws[i]
  {
    seq(|draws|, i requires 0 <= i < |draws| => [j] + draws[i])
  }

  /** All ordered draws of `k` sybil makers that were not used before. */
  function Draws(n: nat, k: nat, used: set<nat>): seq<seq<nat>>
    decreases k, n + 1
  {
    if k == 0 then [[]] else DrawsBelow(n, k, used, n)
  }

  /** Those whose first maker is below index `m`. */
  function DrawsBelow(n: nat, k: nat, used: set<nat>, m: nat): seq<seq<nat>>
    requires k > 0 && m <= n
    decreases k, m
  {
    if m <= 1 then []
    else
      DrawsBelow(n, k, used, m - 1)
      + (if m - 1 in used then [] else Prepend(m - 1, Draws(n, k - 1, used + {m - 1})))
  }

  lemma IsDrawSplit(draw: seq<nat>, n: nat, k: nat, used: set<nat>)
    requires k > 0
    ensures IsDraw(draw, n, k, used) <==>
      draw != [] && 0 < draw[0] < n && draw[0] !in used && IsDraw(draw[1..], n, k - 1, used + {draw[0]})
  {
    if draw != [] && IsDraw(draw[1..], n, k - 1, used + {draw[0]}) && 0 < draw[0] < n && draw[0] !in used {
      forall i, j | 0 <= i < j < k ensures draw[i] != draw[j] {
        assert draw[j] == draw[1..][j - 1];
        if i > 0 {
          assert draw[i] == draw[1..][i - 1];
        }
      }
      forall i | 0 <= i < k ensures 0 < draw[i] < n && draw[i] !in used {
        if i > 0 {
          assert draw[i] == draw[1..][i - 1];
        }
      }
    }
  }

  /** The enumeration is complete and sound ... */
  lemma DrawsComplete(n: nat, k: nat, used: set<nat>, draw: seq<nat>)
    ensures draw in Draws(n, k, used) <==> IsDraw(draw, n, k, used)
    decreases k, n + 1
  {
    if k > 0 {
      IsDrawSplit(draw, n, k, used);
      DrawsBelowComplete(n, k, used, n, draw);
    }
  }

  lemma InPrepend(j: nat, draws: seq<seq<nat>>, draw: seq<nat>)
    ensures draw in Prepend(j, draws) <==> draw != [] && draw[0] == j && draw[1..] in draws
  {
    var r := Prepend(j, draws);
    if draw != [] && draw[0] == j && draw[1..] in draws {
      var i :| 0 <= i < |draws| && draws[i] == draw[1..];
      assert r[i] == draw;
    }
  }

  lemma {:induction false} DrawsBelowComplete(n: nat, k: nat, used: set<nat>, m: nat, draw: seq<nat>)
    requires k > 0 && m <= n
    ensures draw in DrawsBelow(n, k, used, m) <==>
      draw != [] && 0 < draw[0] < m && draw[0] !in used && IsDraw(draw[1..], n, k - 1, used + {draw[0]})
    decreases k, m
  {
    hide IsDraw, Draws;
    if m > 1 {
      DrawsBelowComplete(n, k, used, m - 1, draw);
      if m - 1 !in used {
        var rest := Draws(n, k - 1, used + {m - 1});
        InPrepend(m - 1, rest, draw);
        assert DrawsBelow(n, k, used, m) == DrawsBelow(n, k, used, m - 1) + Prepend(m - 1, rest);
        if draw != [] {
          DrawsComplete(n, k - 1, used + {m - 1}, draw[1..]);
        }
      } else {
        assert DrawsBelow(n, k, used, m) == DrawsBelow(n, k, used, m - 1);
      }
    }
  }

  lemma DistinctConcat(a: seq<seq<nat>>, b: seq<seq<nat>>)
    requires Distinct(a) && Distinct(b) && forall x :: x in a ==> x !in b
    ensures Distinct(a + b)
  {
    var c := a + b;
    forall i, j | 0 <= i < j < |c| ensures c[i] != c[j] {
      if i < |a| <= j {
        assert a[i] in a && b[j - |a|] in b;
      }
    }
  }

  lemma DistinctPrepend(j: nat, draws: seq<seq<nat>>)
    requires Distinct(draws)
    ensures Distinct(Prepend(j, draws))
  {
    var r := Prepend(j, draws);
    forall a, b | 0 <= a < b < |r| ensures r[a] != r[b] {
      assert r[a][1..] == draws[a] && r[b][1..] == draws[b];
    }
  }

  /** ... and lists every draw once. */
  lemma DrawsOnce(n: nat, k: nat, used: set<nat>)
    ensures Distinct(Draws(n, k, used))
    decreases k, n + 1
  {
    if k > 0 {
      DrawsBelowOnce(n, k, used, n);
    }
  }

  lemma {:induction false} DrawsBelowOnce(n: nat, k: nat, used: set<nat>, m: nat)
    requires k > 0 && m <= n
    ensures Distinct(DrawsBelow(n, k, used, m))
    decreases k, m
  {
    hide Draws, Distinct;
    if m <= 1 {
      assert Distinct<seq<nat>>([]) by { DistinctEmpty(); }
    } else {
      DrawsBelowOnce(n, k, used, m - 1);
      var before := DrawsBelow(n, k, used, m - 1);
      if m - 1 in used {
        assert DrawsBelow(n, k, used, m) == before;
      } else {
        var rest := Draws(n, k - 1, used + {m - 1});
        DrawsOnce(n, k - 1, used + {m - 1});
        DistinctPrepend(m - 1, rest);
        var next := Prepend(m - 1, rest);
        forall x | x in before ensures x !in next {
          DrawsBelowComplete(n, k, used, m - 1, x);
          InPrepend(m - 1, rest, x);
        }
        DistinctConcat(before, next);
      }
    }
  }

  lemma DistinctEmpty()
    ensures Distinct<seq<nat>>([])
  {}

  ghost function SumProb(w: seq<real>, total: real, draws: seq<seq<nat>>): real
    requires InRange(draws, |w|)
  {
    if draws == [] then 0.0
    else SumProb(w, total, draws[..|draws| - 1]) + DrawProb(w, total, draws[|draws| - 1])
  }

  lemma {:induction false} SumProbConcat(w: seq<real>, total: real, a: seq<seq<nat>>, b: seq<seq<nat>>)
    requires InRange(a, |w|) && InRange(b, |w|)
    ensures InRange(a + b, |w|)
    ensures SumProb(w, total, a + b) == SumProb(w, total, a) + SumProb(w, total, b)
    decreases |b|
  {
    if b == [] {
      assert a + b == a;
    } else {
      var n := |b| - 1;
      SumProbConcat(w, total, a, b[..n]);
      assert (a + b)[..|a + b| - 1] == a + b[..n];
    }
  }

  lemma InRangePrepend(j: nat, draws: seq<seq<nat>>, n: nat)
    requires InRange(draws, n) && j < n
    ensures InRange(Prepend(j, draws), n)
  {
    forall i | 0 <= i < |draws| ensures DrawInRange([j] + draws[i], n) {
      assert DrawInRange(draws[i], n);
    }
  }

  lemma InRangeParts(draws: seq<seq<nat>>, n: nat)
    requires InRange(draws, n) && draws != []
    ensures InRange(draws[..|draws| - 1], n) && DrawInRange(draws[|draws| - 1], n)
  {}

  lemma DrawProbPrepend(w: seq<real>, total: real, j: nat, draw: seq<nat>)
    requires DrawInRange(draw, |w|) && j < |w| && (w[j] == 0.0 || total != 0.0)
    ensures DrawInRange([j] + draw, |w|)
    ensures DrawProb(w, total, [j] + draw) ==
            if w[j] == 0.0 then 0.0 else (w[j] / total) * DrawProb(w, total - w[j], draw)
  {
    assert ([j] + draw)[1..] == draw;
  }

  lemma {:induction false} SumProbPrepend(w: seq<real>, total: real, j: nat, draws: seq<seq<nat>>)
    requires InRange(draws, |w|) && j < |w| && (w[j] == 0.0 || total != 0.0)
    ensures InRange(Prepend(j, draws), |w|)
    ensures SumProb(w, total, Prepend(j, draws)) ==
            if w[j] == 0.0 then 0.0 else (w[j] / total) * SumProb(w, total - w[j], draws)
    decreases |draws|
  {
    hide DrawProb, InRange;
    InRangePrepend(j, draws, |w|);
    var all := Prepend(j, draws);
    if draws == [] {
      assert all == [];
    } else {
      var n := |draws| - 1;
      InRangeParts(draws, |w|);
      InRangeParts(all, |w|);
      SumProbPrepend(w, total, j, draws[..n]);
      assert all[..n] == Prepend(j, draws[..n]);
      DrawProbPrepend(w, total, j, draws[n]);
      if w[j] != 0.0 {
        DistributePlain(w[j] / total, SumProb(w, total - w[j], draws[..n]), DrawProb(w, total - w[j], draws[n]));
      }
    }
  }

  lemma DistributePlain(a: real, b: real, c: real)
    ensures a * b + a * c == a * (b + c)
  {}

  /** `v` is `w` with the weights of the used makers zeroed. */
  ghost predicate Zeroed(w: seq<real>, v: seq<real>, used: set<nat>) {
    |v| == |w| && forall i :: 0 <= i < |w| ==> v[i] == if i in used then 0.0 else w[i]
  }

  lemma DrawsInRange(n: nat, k: nat, used: set<nat>, m: nat)
    requires m <= n
    ensures InRange(Draws(n, k, used), n)
    ensures k > 0 ==> InRange(DrawsBelow(n, k, used, m), n)
  {
    forall i | 0 <= i < |Draws(n, k, used)| ensures IsDraw(Draws(n, k, used)[i], n, k, used) {
      DrawsComplete(n, k, used, Draws(n, k, used)[i]);
    }
    if k > 0 {
      forall i | 0 <= i < |DrawsBelow(n, k, used, m)| ensures IsDraw(DrawsBelow(n, k, used, m)[i], n, k, used) {
        DrawsBelowComplete(n, k, used, m, DrawsBelow(n, k, used, m)[i]);
        IsDrawSplit(DrawsBelow(n, k, used, m)[i], n, k, used);
      }
    }
  }

  lemma SumProbEmpty(w: seq<real>, total: real)
    ensures InRange([], |w|) && SumProb(w, total, []) == 0.0
  {}

  lemma {:induction false} BranchIsSumOverDraws(w: seq<real>, v: seq<real>, k: nat, used: set<nat>, m: nat)
    requires Weights(w) && Weights(v) && Zeroed(w, v, used) && k > 0 && m <= |w|
    ensures InRange(DrawsBelow(|w|, k, used, m), |w|)
    ensures BranchSum(v, k, m) == SumProb(w, Sum(v), DrawsBelow(|w|, k, used, m))
    decreases k, m
  {
    hide Share, Tree, Draws, InRange, SumProb, Sum;
    DrawsInRange(|w|, k, used, m);
    if m <= 1 {
      SumProbEmpty(w, Sum(v));
    } else {
      var j := m - 1;
      BranchIsSumOverDraws(w, v, k, used, j);
      BranchUnfold(v, k, j);
      if j !in used {
        var u, rest := v[j := 0.0], Draws(|w|, k - 1, used + {j});
        SumUpdate(v, j, 0.0);
        DrawsInRange(|w|, k - 1, used + {j}, 0);
        SumProbPrepend(w, Sum(v), j, rest);
        SumProbConcat(w, Sum(v), DrawsBelow(|w|, k, used, j), Prepend(j, rest));
        TreeIsSumOverDraws(w, u, k - 1, used + {j});
      } else {
        assert DrawsBelow(|w|, k, used, m) == DrawsBelow(|w|, k, used, j);
      }
    }
  }

  /** Main result: searching the tree from weights in which the `used` makers are zeroed adds
      up the probabilities of all ordered draws of `k` distinct other sybil makers. */
  lemma TreeIsSumOverDraws(w: seq<real>, v: seq<real>, k: nat, used: set<nat>)
    requires Weights(w) && Weights(v) && Zeroed(w, v, used)
    ensures InRange(Draws(|w|, k, used), |w|)
    ensures Tree(v, k) == SumProb(w, Sum(v), Draws(|w|, k, used))
    decreases k, |w| + 1
  {
    DrawsInRange(|w|, k, used, 0);
    if k == 0 {
      var one: seq<seq<nat>> := [[]];
      assert one[..0] == [];
      assert SumProb(w, Sum(v), one) == 1.0;
    } else {
      BranchIsSumOverDraws(w, v, k, used, |w|);
    }
  }
}
