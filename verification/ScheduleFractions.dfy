/** Random division of a balance (src/jmclient/schedule.py). */
module ScheduleFractions {
  // This is `get_amount_fractions`.  Python floats are reals here.

  import opened Sorting
  import opened Wrappers

  /** The sum of the first `n` numbers. */
  function SumTo(y: seq<real>, n: nat): real
    requires n <= |y|
  {
    if n == 0 then 0.0 else SumTo(y, n - 1) + y[n - 1]
  }

  function Sum(y: seq<real>): real {
    SumTo(y, |y|)
  }

  lemma {:induction false} SumToPrefix(y: seq<real>, y': seq<real>, n: nat)
    requires n <= |y| && n <= |y'| && forall i :: 0 <= i < n ==> y[i] == y'[i]
    ensures SumTo(y, n) == SumTo(y', n)
  {
    if n > 0 {
      SumToPrefix(y, y', n - 1);
    }
  }

  /** Draws of `random.random()`. */
  ghost predicate Draws(knives: seq<real>) {
    forall i :: 0 <= i < |knives| ==> 0.0 <= knives[i] < 1.0
  }

  ghost predicate Descending(s: seq<real>) {
    forall i, j :: 0 <= i < j < |s| ==> s[i] >= s[j]
  }

  predicate AtLeast(a: real, b: real) {
    a >= b
  }

  /** `sorted(knives)[::-1]`. */
  function SortedDown(knives: seq<real>): (r: seq<real>)
    ensures |r| == |knives|
  {
    Sorted(knives, AtLeast)
  }

  lemma SortedDownSorts(knives: seq<real>)
    ensures Descending(SortedDown(knives))
    ensures multiset(SortedDown(knives)) == multiset(knives)
  {
    SortedOrders(knives, AtLeast);
  }

  const LEAST_LAST: real := 0.05

  /** Is the smallest knife, which becomes the last fraction, large enough? */
  predicate Acceptable(knives: seq<real>) {
    forall i :: 0 <= i < |knives| ==> knives[i] > LEAST_LAST
  }

  /** Is there a knife that would leave no more than 5%? */
  predicate LeavesTooLittle(knives: seq<real>) {
    exists i :: 0 <= i < |knives| && knives[i] <= 0.05
  }

  /** Where the knives cut the unit interval, seen from the top: 1 minus the running sums. */
  ghost predicate CutAt(y: seq<real>, cuts: seq<real>) {
    && |y| == |cuts| + 1
    && Sum(y) == 1.0
    && forall i :: 0 <= i < |cuts| ==> SumTo(y, i + 1) == 1.0 - cuts[i]
  }

  /** What the tumbler relies on: non-negative fractions of one whole, the last appreciable. */
  ghost predicate Fractions(y: seq<real>) {
    && y != []
    && (forall i :: 0 <= i < |y| ==> 0.0 <= y[i] <= 1.0)
    && Sum(y) == 1.0
    && y[|y| - 1] > LEAST_LAST
  }

  /** The state of the cutting loop after `i` knives. */
  ghost predicate CutSoFar(y: seq<real>, sorted: seq<real>, i: nat, l: real) {
    && |y| == i <= |sorted|
    && SumTo(y, i) == 1.0 - l && 0.0 <= l <= 1.0
    && l == (if i == 0 then 1.0 else sorted[i - 1])
    && (forall j :: 0 <= j < i ==> 0.0 <= y[j] <= 1.0)
    && (forall j :: 0 <= j < i ==> SumTo(y, j + 1) == 1.0 - sorted[j])
  }

  lemma CutMore(y: seq<real>, sorted: seq<real>, i: nat, l: real)
    requires CutSoFar(y, sorted, i, l) && i < |sorted| && Descending(sorted) && Draws(sorted)
    ensures CutSoFar(y + [l - sorted[i]], sorted, i + 1, sorted[i])
  {
    var z := y + [l - sorted[i]];
    forall n | 0 <= n <= i ensures SumTo(z, n) == SumTo(y, n) {
      SumToPrefix(z, y, n);
    }
  }

  lemma CutEnd(y: seq<real>, sorted: seq<real>, l: real)
    requires CutSoFar(y, sorted, |sorted|, l)
    ensures CutAt(y + [l], sorted)
    ensures forall i :: 0 <= i <= |sorted| ==> 0.0 <= (y + [l])[i] <= 1.0
  {
    var z := y + [l];
    forall n | 0 <= n <= |y| ensures SumTo(z, n) == SumTo(y, n) {
      SumToPrefix(z, y, n);
    }
  }

  /** One attempt: cut the unit interval at the sorted knives. */
  method Cut(knives: seq<real>) returns (y: seq<real>)
    requires Draws(knives)
    ensures CutAt(y, SortedDown(knives))
    ensures forall i :: 0 <= i < |y| ==> 0.0 <= y[i] <= 1.0
    ensures y[|y| - 1] == if knives == [] then 1.0 else SortedDown(knives)[|knives| - 1]
  {
    var sorted := SortedDown(knives);
    SortedDownSorts(knives);
    SortedDraws(knives);
    hide SortedDown, SumTo;
    y := [];
    assert SumTo(y, 0) == 0.0 by { SumEmpty(); }
    var l, k := 1.0, 1.0;
    for i := 0 to |sorted|
      invariant CutSoFar(y, sorted, i, l) && k == l
    {
      CutMore(y, sorted, i, l);
      k := sorted[i];
      y := y + [l - k];
      l := k;
    }
    CutEnd(y, sorted, k);
    y := y + [k];
  }

  lemma SumEmpty()
    ensures SumTo([], 0) == 0.0
  {}

  lemma SortedDraws(knives: seq<real>)
    requires Draws(knives)
    ensures Draws(SortedDown(knives))
  {
    SortedDownSorts(knives);
    var s := SortedDown(knives);
    forall i | 0 <= i < |s| ensures 0.0 <= s[i] < 1.0 {
      assert s[i] in multiset(knives);
      assert s[i] in knives;
    }
  }

  /** The last cut is the smallest knife. */
  lemma LastIsLeast(knives: seq<real>)
    requires knives != []
    ensures SortedDown(knives)[|knives| - 1] > LEAST_LAST <==> Acceptable(knives)
  {
    SortedDownSorts(knives);
    var s := SortedDown(knives);
    var least := s[|s| - 1];
    assert least in multiset(knives);
    assert least in knives;
    forall i | 0 <= i < |knives| ensures knives[i] >= least {
      assert knives[i] in multiset(s);
      var j :| 0 <= j < |s| && s[j] == knives[i];
    }
  }

  /** The fractions come from the first acceptable attempt. */
  ghost predicate Drawn(y: seq<real>, attempts: seq<seq<real>>) {
    exists a :: 0 <= a < |attempts| && Acceptable(attempts[a])
                && (forall b :: 0 <= b < a ==> !Acceptable(attempts[b]))
                && CutAt(y, SortedDown(attempts[a]))
  }

  /** Draw until the last fraction exceeds 5%.  `attempts` are the successive draws of
      `count - 1` knives; the result is None only if none of them is acceptable. */
  method GetAmountFractions(count: nat, attempts: seq<seq<real>>) returns (r: Option<seq<real>>)
    requires forall a :: 0 <= a < |attempts| ==>
      Draws(attempts[a]) && |attempts[a]| == if count == 0 then 0 else count - 1
    ensures r.None? <==> forall a :: 0 <= a < |attempts| ==> !Acceptable(attempts[a])
    ensures r.Some? ==> Fractions(r.value) && |r.value| == if count == 0 then 1 else count
    ensures r.Some? ==> Drawn(r.value, attempts)
    ensures r.None? <==> forall a :: 0 <= a < |attempts| ==> LeavesTooLittle(attempts[a])
  {
    hide SortedDown, SumTo;
    for a := 0 to |attempts|
      invariant forall b :: 0 <= b < a ==> !Acceptable(attempts[b])
    {
      var y := Cut(attempts[a]);
      if attempts[a] != [] {
        LastIsLeast(attempts[a]);
      }
      if y[|y| - 1] > LEAST_LAST {
        return Some(y);
      }
    }
    return None;
  }

  /** Only one list of fractions belongs to given cuts. */
  lemma CutsDetermined(y: seq<real>, y': seq<real>, cuts: seq<real>)
    requires CutAt(y, cuts) && CutAt(y', cuts)
    ensures y == y'
  {
    forall i | 0 <= i < |y| ensures y[i] == y'[i] {
      assert i > 0 ==> SumTo(y, i) == 1.0 - cuts[i - 1] == SumTo(y', i);
      assert i < |cuts| ==> SumTo(y, i + 1) == 1.0 - cuts[i] == SumTo(y', i + 1);
    }
  }

  /** Paying all fractions but the last out of any balance leaves more than 5% for the sweep. */
  lemma SweepKeepsItsShare(y: seq<real>, balance: real)
    requires Fractions(y) && balance > 0.0
    ensures SumTo(y, |y| - 1) * balance < 0.95 * balance
  {
    Scale(SumTo(y, |y| - 1), 1.0 - LEAST_LAST, balance);
  }

  lemma Scale(a: real, b: real, c: real)
    requires a < b && c > 0.0
    ensures a * c < b * c
  {}

  // ---------- what can be drawn ----------

  /** The fractions that some acceptable draw gives. */
  ghost predicate Drawable(y: seq<real>) {
    exists knives: seq<real> :: Draws(knives) && Acceptable(knives) && CutAt(y, SortedDown(knives))
  }

  lemma FractionAt(y: seq<real>, cuts: seq<real>, i: nat)
    requires CutAt(y, cuts) && i < |y|
    ensures y[i] == (if i == 0 then 1.0 else cuts[i - 1]) - (if i < |cuts| then cuts[i] else 0.0)
  {
    assert SumTo(y, i + 1) == SumTo(y, i) + y[i];
    assert i > 0 ==> SumTo(y, i) == 1.0 - cuts[i - 1];
  }

  lemma {:induction false} SumToGrows(y: seq<real>, i: nat, j: nat)
    requires i <= j <= |y| && forall k :: 0 <= k < |y| ==> y[k] >= 0.0
    ensures SumTo(y, i) <= SumTo(y, j)
  {
    if i < j {
      SumToGrows(y, i, j - 1);
    }
  }

  lemma DrawnFractions(y: seq<real>, knives: seq<real>)
    requires Draws(knives) && Acceptable(knives) && CutAt(y, SortedDown(knives))
    ensures Fractions(y) && (|y| >= 2 ==> y[0] > 0.0)
  {
    var cuts := SortedDown(knives);
    SortedDownSorts(knives);
    SortedDraws(knives);
    if knives != [] {
      LastIsLeast(knives);
    }
    hide SortedDown, SumTo, Acceptable;
    forall i | 0 <= i < |y| ensures 0.0 <= y[i] <= 1.0 {
      FractionAt(y, cuts, i);
    }
    FractionAt(y, cuts, 0);
    FractionAt(y, cuts, |y| - 1);
  }

  /** The knives that cut some fractions. */
  function KnivesOf(y: seq<real>): (knives: seq<real>)
    requires y != []
    ensures |knives| == |y| - 1 && forall i :: 0 <= i < |knives| ==> knives[i] == 1.0 - SumTo(y, i + 1)
  {
    seq(|y| - 1, i requires 0 <= i < |y| - 1 => 1.0 - SumTo(y, i + 1))
  }

  lemma FractionsDrawn(y: seq<real>)
    requires Fractions(y) && (|y| >= 2 ==> y[0] > 0.0)
    ensures var knives := KnivesOf(y); Draws(knives) && Acceptable(knives) && CutAt(y, SortedDown(knives))
  {
    var knives, n := KnivesOf(y), |y| - 1;
    forall i | 0 <= i < n ensures LEAST_LAST < knives[i] < 1.0 {
      SumToGrows(y, 1, i + 1);
      SumToGrows(y, i + 1, n);
      assert SumTo(y, 1) == SumTo(y, 0) + y[0];
    }
    forall i, j | 0 <= i < j < n ensures AtLeast(knives[i], knives[j]) {
      SumToGrows(y, i + 1, j + 1);
    }
    SortedAlready(knives, AtLeast);
  }

  lemma WholeDrawable()
    ensures Drawable([1.0])
  {
    assert SumTo([1.0], 1) == SumTo([1.0], 0) + 1.0;
    DrawableIff([1.0]);
  }

  lemma DrawnDrawable(y: seq<real>, attempts: seq<seq<real>>)
    requires Drawn(y, attempts) && forall a :: 0 <= a < |attempts| ==> Draws(attempts[a])
    ensures Drawable(y)
  {
    hide Draws, Acceptable, CutAt, SortedDown;
  }

  /** Exactly the fractions of a whole can be drawn, except that with two or more the first one
      is never zero: no knife is 1. */
  lemma DrawableIff(y: seq<real>)
    ensures Drawable(y) <==> Fractions(y) && (|y| >= 2 ==> y[0] > 0.0)
  {
    hide Draws, Acceptable, CutAt, SortedDown, Fractions;
    if Drawable(y) {
      var knives :| Draws(knives) && Acceptable(knives) && CutAt(y, SortedDown(knives));
      DrawnFractions(y, knives);
    }
    if Fractions(y) && (|y| >= 2 ==> y[0] > 0.0) {
      FractionsDrawn(y);
    }
  }
}
