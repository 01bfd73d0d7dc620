/** Re-planning after a failure (src/jmclient/schedule.py, `tweak_tumble_schedule`). */
module ScheduleTweak {
  // An entry that failed is retried: a sweep with fewer counterparties, any other entry by
  // dividing what is left of its mixdepth anew.

  import opened Wrappers
  import F = ScheduleFractions
  import opened TumblePlan

  /** The entries leaving a mixdepth. */
  function Of(s: seq<Entry>, d: nat): (r: seq<Entry>) {
    if s == [] then []
    else
      var e := s[|s| - 1];
      Of(s[..|s| - 1], d) + if e.src == d then [e] else []
  }

  lemma {:induction false} OfConcat(a: seq<Entry>, b: seq<Entry>, d: nat)
    ensures Of(a + b, d) == Of(a, d) + Of(b, d)
    decreases |b|
  {
    if b == [] {
      assert a + b == a;
    } else {
      assert (a + b)[..|a + b| - 1] == a + b[..|b| - 1];
      OfConcat(a, b[..|b| - 1], d);
    }
  }

  lemma {:induction false} OfAll(s: seq<Entry>, d: nat)
    requires AllFrom(s, d)
    ensures Of(s, d) == s
  {
    if s != [] {
      OfAll(s[..|s| - 1], d);
    }
  }

  lemma {:induction false} OfNone(s: seq<Entry>, d: nat)
    requires NoneFrom(s, d)
    ensures Of(s, d) == []
  {
    if s != [] {
      OfNone(s[..|s| - 1], d);
    }
  }

  lemma {:induction false} OfSize(s: seq<Entry>, d: nat)
    ensures |Of(s, d)| <= |s|
  {
    if s != [] {
      OfSize(s[..|s| - 1], d);
    }
  }

  function Spent(s: seq<Entry>): real {
    if s == [] then 0.0 else Spent(s[..|s| - 1]) + s[|s| - 1].amount
  }

  lemma {:induction false} SpentConcat(a: seq<Entry>, b: seq<Entry>)
    ensures Spent(a + b) == Spent(a) + Spent(b)
    decreases |b|
  {
    if b == [] {
      assert a + b == a;
    } else {
      assert (a + b)[..|a + b| - 1] == a + b[..|b| - 1];
      SpentConcat(a, b[..|b| - 1]);
    }
  }

  // ---------- the operation ----------

  datatype Result = Tweaked(schedule: seq<Entry>) | IndexError | OutOfDraws

  /** An address that is not one of the final destinations is replaced by a fresh one. */
  function Redirected(e: Entry, destaddrs: seq<string>): Entry {
    if e.dest.Addr? && e.dest.address in destaddrs then e else e.(dest := Internal)
  }

  function FewerMakers(e: Entry, minimumMakers: int): Entry {
    e.(makers := if e.makers - 1 < minimumMakers then minimumMakers else e.makers - 1)
  }

  /** The entries from `i` on get the fractions `y` of `left`, the last of them sweeps. */
  function Replan(s: seq<Entry>, i: nat, y: seq<real>, left: real): (r: seq<Entry>)
    requires y != [] && i + |y| <= |s|
    ensures |r| == |s|
  {
    seq(|s|, j requires 0 <= j < |s| =>
      if i <= j < i + |y| then s[j].(amount := if j == i + |y| - 1 then 0.0 else y[j - i] * left) else s[j])
  }

  function Left(s: seq<Entry>, i: nat): real
    requires i < |s|
  {
    1.0 - Spent(Of(s[..i], s[i].src))
  }

  /** The number of entries still to be done in the mixdepth of entry `i`. */
  function ToBeDone(s: seq<Entry>, i: nat): (n: nat)
    requires i < |s|
    ensures 0 < n <= |s| - i
  {
    ToBeDoneSize(s, i);
    |Of(s[i..], s[i].src)|
  }

  lemma ToBeDoneSize(s: seq<Entry>, i: nat)
    requires i < |s|
    ensures 0 < |Of(s[i..], s[i].src)| <= |s| - i
    ensures Of(s[i..], s[i].src)[0] == s[i]
  {
    assert s[i..] == [s[i]] + s[i + 1..];
    OfConcat([s[i]], s[i + 1..], s[i].src);
    OfAll([s[i]], s[i].src);
    OfSize(s[i + 1..], s[i].src);
  }

  ghost predicate DrawsFit(attempts: nat -> seq<seq<real>>) {
    forall n: nat, a :: 0 <= a < |attempts(n)| ==>
      F.Draws(attempts(n)[a]) && |attempts(n)[a]| == if n == 0 then 0 else n - 1
  }

  /** No earlier entry of the same mixdepth equals the one that is retried. */
  ghost predicate Precise(s: seq<Entry>, i: nat, destaddrs: seq<string>)
    requires i < |s|
  {
    Redirected(s[i], destaddrs) !in Of(s[..i], s[i].src)
  }

  /** The outcome of a re-plan with the fractions `y`. */
  ghost predicate IsReplan(s: seq<Entry>, i: nat, y: seq<real>, s': seq<Entry>) {
    i < |s| && F.Fractions(y) && |y| == ToBeDone(s, i) && s' == Replan(s, i, y, Left(s, i))
  }

  /** The outcome of a tweak of entry `i`. */
  ghost predicate IsTweak(s: seq<Entry>, i: nat, destaddrs: seq<string>, minimumMakers: int, y: seq<real>,
                          s': seq<Entry>) {
    i < |s| &&
    var t := s[i := Redirected(s[i], destaddrs)];
    if t[i].amount == 0.0 then s' == t[i := FewerMakers(t[i], minimumMakers)] else IsReplan(t, i, y, s')
  }

  /** The position that Python's `list.index` finds. */
  function PositionOf(s: seq<Entry>, e: Entry): (k: nat)
    requires e in s
    ensures k < |s| && s[k] == e && e !in s[..k]
  {
    if s[0] == e then 0
    else
      assert s == [s[0]] + s[1..];
      var k := PositionOf(s[1..], e);
      assert s[..k + 1] == [s[0]] + s[1..][..k];
      k + 1
  }

  /** Where the search for entry `i` among those of its mixdepth ends: at the first equal one. */
  function FoundPosition(s: seq<Entry>, i: nat): (k: nat)
    requires i < |s|
    ensures k < |Of(s, s[i].src)|
  {
    OfMembers(s, s[i].src, s[i]);
    PositionOf(Of(s, s[i].src), s[i])
  }

  /** The number of entries that are re-planned, and what they share. */
  function FoundCount(s: seq<Entry>, i: nat): (n: nat)
    requires i < |s|
    ensures n > 0
  {
    |Of(s, s[i].src)| - FoundPosition(s, i)
  }

  function FoundLeft(s: seq<Entry>, i: nat): real
    requires i < |s|
  {
    1.0 - Spent(Of(s, s[i].src)[..FoundPosition(s, i)])
  }

  /** The outcome of a re-plan, whichever entry the search finds. */
  ghost predicate Replans(s: seq<Entry>, i: nat, y: seq<real>, s': seq<Entry>) {
    && i < |s| && F.Fractions(y) && |y| == FoundCount(s, i) && i + |y| <= |s|
    && s' == Replan(s, i, y, FoundLeft(s, i))
  }

  /** What a tweak of entry `i` returns, whichever entry its search finds. */
  ghost predicate Outcome(s: seq<Entry>, i: nat, destaddrs: seq<string>, minimumMakers: int, s': seq<Entry>) {
    i < |s| &&
    var t := s[i := Redirected(s[i], destaddrs)];
    if t[i].amount == 0.0 then s' == t[i := FewerMakers(t[i], minimumMakers)]
    else exists y :: Replans(t, i, y, s')
  }

  ghost predicate NoneAcceptable(attempts: seq<seq<real>>) {
    forall a :: 0 <= a < |attempts| ==> !F.Acceptable(attempts[a])
  }

  /** Amounts and mixdepths as they were; destinations, makers, flags may have changed. */
  ghost predicate Annotated(s: seq<Entry>, s': seq<Entry>) {
    |s| == |s'| && forall i :: 0 <= i < |s| ==> s[i].src == s'[i].src && s[i].amount == s'[i].amount
  }

  lemma {:induction false} AnnotatedOf(s: seq<Entry>, s': seq<Entry>, d: nat)
    requires Annotated(s, s')
    ensures |Of(s, d)| == |Of(s', d)| && Spent(Of(s, d)) == Spent(Of(s', d))
  {
    if s != [] {
      var n := |s| - 1;
      AnnotatedOf(s[..n], s'[..n], d);
      if s[n].src == d {
        SpentConcat(Of(s[..n], d), [s[n]]);
        SpentConcat(Of(s'[..n], d), [s'[n]]);
        SpentOne(s[n]);
        SpentOne(s'[n]);
      } else {
        assert Of(s, d) == Of(s[..n], d) && Of(s', d) == Of(s'[..n], d);
      }
    }
  }

  lemma SpentOne(e: Entry)
    ensures Spent([e]) == e.amount
  {
    assert [e][..0] == [];
  }

  method EntriesOf(s: seq<Entry>, d: nat) returns (r: seq<Entry>)
    ensures r == Of(s, d)
  {
    r := [];
    for k := 0 to |s|
      invariant r == Of(s[..k], d)
    {
      assert s[..k + 1][..k] == s[..k];
      if s[k].src == d {
        r := r + [s[k]];
      }
    }
    assert s[..|s|] == s;
  }

  /** Python's `list.index`. */
  method IndexOf(s: seq<Entry>, e: Entry) returns (k: nat)
    requires e in s
    ensures k == PositionOf(s, e)
  {
    k := 0;
    while s[k] != e
      invariant k < |s| && e !in s[..k]
      decreases |s| - k
    {
      k := k + 1;
    }
  }

  method SumAmounts(s: seq<Entry>) returns (total: real)
    ensures total == Spent(s)
  {
    total := 0.0;
    for k := 0 to |s|
      invariant total == Spent(s[..k])
    {
      assert s[..k + 1][..k] == s[..k];
      total := total + s[k].amount;
    }
    assert s[..|s|] == s;
  }

  /** The entries of a mixdepth, split at entry `i`. */
  lemma SplitEntries(s: seq<Entry>, i: nat)
    requires i < |s|
    ensures Of(s, s[i].src) == Of(s[..i], s[i].src) + Of(s[i..], s[i].src)
  {
    assert s == s[..i] + s[i..];
    OfConcat(s[..i], s[i..], s[i].src);
  }

  method SetAmounts(s: seq<Entry>, i: nat, fracs: seq<real>, ghost y: seq<real>, ghost left: real)
    returns (r: seq<Entry>)
    requires fracs != [] && i + |fracs| <= |s|
    requires |y| == |fracs| && forall k :: 0 <= k < |y| ==> fracs[k] == y[k] * left
    ensures r == Replan(s, i, y, left)
  {
    r := s;
    for k := 0 to |fracs|
      invariant |r| == |s|
      invariant forall j :: 0 <= j < |s| ==>
        r[j] == if i <= j < i + k then s[j].(amount := y[j - i] * left) else s[j]
    {
      r := r[i + k := r[i + k].(amount := fracs[k])];
    }
    var last := i + |fracs| - 1;
    r := r[last := r[last].(amount := 0.0)];
  }

  method Scaled(y: seq<real>, left: real) returns (r: seq<real>)
    ensures |r| == |y| && forall k :: 0 <= k < |y| ==> r[k] == y[k] * left
  {
    r := [];
    for k := 0 to |y|
      invariant |r| == k && forall j :: 0 <= j < k ==> r[j] == y[j] * left
    {
      r := r + [y[k] * left];
    }
  }

  method TweakTumbleSchedule(schedule: seq<Entry>, lastCompleted: int, destaddrs: seq<string>,
                             minimumMakers: int, attempts: nat -> seq<seq<real>>)
    returns (r: Result)
    requires 0 <= lastCompleted + 1 < |schedule| && DrawsFit(attempts)
    ensures var i := lastCompleted + 1;
      var s := schedule[i := Redirected(schedule[i], destaddrs)];
      if s[i].amount == 0.0 then r == Tweaked(s[i := FewerMakers(s[i], minimumMakers)])
      else
        var draws := attempts(FoundCount(s, i));
        && (r.OutOfDraws? <==> NoneAcceptable(draws))
        && (r.IndexError? <==> !NoneAcceptable(draws) && i + FoundCount(s, i) > |s|)
        && (r.Tweaked? ==> exists y :: Replans(s, i, y, r.schedule) && F.Drawn(y, draws))
    ensures r.Tweaked? ==> Outcome(schedule, lastCompleted + 1, destaddrs, minimumMakers, r.schedule)
    ensures Precise(schedule, lastCompleted + 1, destaddrs) ==>
      && !r.IndexError?
      && (r.Tweaked? ==> exists y ::
            F.Drawable(y) && IsTweak(schedule, lastCompleted + 1, destaddrs, minimumMakers, y, r.schedule))
      && (r.Tweaked? && TumbleOk(schedule) ==> TumbleOk(r.schedule))
  {
    hide F.Fractions, F.Drawn, F.Drawable, Of, Spent, TumbleOk;
    var i := lastCompleted + 1;
    var s := schedule;
    s := s[i := Redirected(s[i], destaddrs)];
    if s[i].amount == 0.0 {
      r := Tweaked(s[i := FewerMakers(s[i], minimumMakers)]);
      F.WholeDrawable();
      TweakIsStep(schedule, i, destaddrs, minimumMakers, [1.0], r.schedule);
      return;
    }
    var altered := s[i];
    var entries := EntriesOf(s, altered.src);
    OfMembers(s, altered.src, altered);
    var at := IndexOf(entries, altered);
    var alreadyDone, toBeDone := entries[..at], entries[at..];
    var alreadySpent := SumAmounts(alreadyDone);
    var toBeSpent := 1.0 - alreadySpent;
    var fractions := F.GetAmountFractions(|toBeDone|, attempts(|toBeDone|));
    if fractions.None? {
      return OutOfDraws;
    }
    var newFracs := Scaled(fractions.value, toBeSpent);
    if i + |newFracs| > |s| {
      if Precise(schedule, i, destaddrs) {
        PreciseFinds(schedule, i, destaddrs);
        assert false;
      }
      return IndexError;
    }
    var t := SetAmounts(s, i, newFracs, fractions.value, toBeSpent);
    assert Replans(s, i, fractions.value, t);
    r := Tweaked(t);
    F.DrawnDrawable(fractions.value, attempts(|toBeDone|));
    TweakIsStep(schedule, i, destaddrs, minimumMakers, fractions.value, t);
  }

  /** What a precise tweak returns is a step that keeps the schedule in order. */
  lemma TweakIsStep(schedule: seq<Entry>, i: nat, destaddrs: seq<string>, minimumMakers: int, y: seq<real>,
                    s': seq<Entry>)
    requires i < |schedule|
    requires var s := schedule[i := Redirected(schedule[i], destaddrs)];
      if s[i].amount == 0.0 then s' == s[i := FewerMakers(s[i], minimumMakers)] else Replans(s, i, y, s')
    ensures Precise(schedule, i, destaddrs) ==>
      && IsTweak(schedule, i, destaddrs, minimumMakers, y, s')
      && (TumbleOk(schedule) ==> TumbleOk(s'))
  {
    hide Replans, IsReplan, TumbleOk, Precise;
    if Precise(schedule, i, destaddrs) {
      PreciseFinds(schedule, i, destaddrs);
      if TumbleOk(schedule) {
        TweakKeepsTumbleOk(schedule, i, destaddrs, minimumMakers, y, s');
      }
    }
  }

  /** If no earlier entry equals it, the search finds the entry that failed: a re-plan is then
      about what is left of its mixdepth, and never runs over the end. */
  lemma PreciseFinds(schedule: seq<Entry>, i: nat, destaddrs: seq<string>)
    requires i < |schedule| && Precise(schedule, i, destaddrs)
    ensures var s := schedule[i := Redirected(schedule[i], destaddrs)];
      && FoundCount(s, i) == ToBeDone(s, i) && FoundLeft(s, i) == Left(s, i)
      && i + FoundCount(s, i) <= |s|
      && forall y, s' :: Replans(s, i, y, s') <==> IsReplan(s, i, y, s')
  {
    var s := schedule[i := Redirected(schedule[i], destaddrs)];
    var d, e := s[i].src, s[i];
    SplitEntries(s, i);
    ToBeDoneSize(s, i);
    OfMembers(s, d, e);
    assert s[..i] == schedule[..i];
    IndexAfter(Of(s[..i], d), Of(s[i..], d), e, FoundPosition(s, i));
    hide Of, Spent, F.Fractions;
  }

  lemma IndexAfter(a: seq<Entry>, b: seq<Entry>, e: Entry, at: nat)
    requires e !in a && b != [] && b[0] == e
    requires at < |a + b| && (a + b)[at] == e && e !in (a + b)[..at]
    ensures at == |a| && (a + b)[..at] == a && (a + b)[at..] == b
  {
    if at >= |a| {
      assert (a + b)[..at] == a + b[..at - |a|];
    }
  }

  /** Entries that are done carry a completion flag, so they are not mistaken for one that is
      not done yet. */
  lemma CompletionMakesPrecise(s: seq<Entry>, i: nat, destaddrs: seq<string>)
    requires i < |s| && s[i].completed == 0 && forall k :: 0 <= k < i ==> s[k].completed != 0
    ensures Precise(s, i, destaddrs)
  {
    var t := s[..i];
    forall e | e in Of(t, s[i].src) ensures e.completed != 0 {
      OfMembers(t, s[i].src, e);
    }
  }

  lemma {:induction false} OfMembers(s: seq<Entry>, d: nat, e: Entry)
    ensures e in Of(s, d) <==> e in s && e.src == d
  {
    if s != [] {
      assert s == s[..|s| - 1] + [s[|s| - 1]];
      OfMembers(s[..|s| - 1], d, e);
    }
  }

  // ---------- what every tweak keeps ----------

  /** Once an entry of its mixdepth is reached, the rest of that mixdepth follows directly. */
  ghost predicate Contiguous(s: seq<Entry>, i: nat)
    requires i < |s|
  {
    forall j, k :: i <= j < k < |s| && s[k].src == s[i].src ==> s[j].src == s[i].src
  }

  ghost predicate IsLastOf(s: seq<Entry>, i: nat)
    requires i < |s|
  {
    forall j :: i < j < |s| ==> s[j].src != s[i].src
  }

  /** Every mixdepth is emptied by a final sweep, and the fractions spent before it, done or
      still planned, stay below the whole. */
  ghost predicate TumbleOk(s: seq<Entry>) {
    && (forall i :: 0 <= i < |s| ==> s[i].amount >= 0.0)
    && (forall d :: Spent(Of(s, d)) < 1.0)
    && (forall i :: 0 <= i < |s| && s[i].amount != 0.0 ==> Contiguous(s, i))
    && (forall i :: 0 <= i < |s| && IsLastOf(s, i) ==> s[i].amount == 0.0)
  }

  /** The entries that a re-plan rewrites all belong to the mixdepth it is about exactly if the
      rest of that mixdepth is contiguous. */
  lemma RewritesOwnMixdepthIff(s: seq<Entry>, i: nat)
    requires i < |s|
    ensures Contiguous(s, i) <==> forall j :: i <= j < i + ToBeDone(s, i) ==> s[j].src == s[i].src
  {
    var d, n := s[i].src, ToBeDone(s, i);
    if forall j :: i <= j < i + n ==> s[j].src == d {
      assert s[i..] == s[i..i + n] + s[i + n..];
      OfConcat(s[i..i + n], s[i + n..], d);
      OfAll(s[i..i + n], d);
      forall k | i + n <= k < |s| ensures s[k].src != d {
        OfMembers(s[i + n..], d, s[k]);
        assert s[i + n..][k - i - n] == s[k];
      }
    }
    if Contiguous(s, i) {
      RunLength(s, i, i);
    }
  }

  lemma {:induction false} RunLength(s: seq<Entry>, i: nat, e: nat)
    requires i <= e < |s| && Contiguous(s, i) && forall j :: i <= j <= e ==> s[j].src == s[i].src
    ensures forall j :: i <= j < i + ToBeDone(s, i) ==> s[j].src == s[i].src
    decreases |s| - e
  {
    var d := s[i].src;
    if e + 1 < |s| && s[e + 1].src == d {
      RunLength(s, i, e + 1);
    } else {
      assert s[i..] == s[i..e + 1] + s[e + 1..];
      OfConcat(s[i..e + 1], s[e + 1..], d);
      OfAll(s[i..e + 1], d);
      OfNone(s[e + 1..], d);
    }
  }

  lemma {:induction false} SpentNonNegative(s: seq<Entry>, d: nat)
    requires forall i :: 0 <= i < |s| ==> s[i].amount >= 0.0
    ensures Spent(Of(s, d)) >= 0.0
  {
    if s != [] {
      var before, e := s[..|s| - 1], s[|s| - 1];
      SpentNonNegative(before, d);
      SpentOne(e);
      SpentConcat(Of(before, d), [e]);
      assert Of(s, d) == if e.src == d then Of(before, d) + [e] else Of(before, d);
      hide Of, Spent;
    }
  }

  /** The parts of a schedule around what a re-plan of entry `i` rewrites. */
  lemma ReplanParts(s: seq<Entry>, i: nat, y: seq<real>, left: real)
    requires i < |s| && y != [] && |y| == ToBeDone(s, i) && Contiguous(s, i)
    ensures var n, d, s' := |y|, s[i].src, Replan(s, i, y, left);
      && s' == s[..i] + s'[i..i + n] + s[i + n..] && s == s[..i] + s[i..i + n] + s[i + n..]
      && AllFrom(s'[i..i + n], d) && AllFrom(s[i..i + n], d) && NoneFrom(s[i + n..], d)
  {
    RewritesOwnMixdepthIff(s, i);
    RestHasNone(s, i);
    hide ToBeDone, Contiguous;
  }

  lemma {:induction false} ScaledSpent(mid: seq<Entry>, y: seq<real>, left: real, k: nat)
    requires k <= |mid| && k <= |y| && forall j :: 0 <= j < k ==> mid[j].amount == y[j] * left
    ensures Spent(mid[..k]) == F.SumTo(y, k) * left
  {
    if k > 0 {
      assert mid[..k][..k - 1] == mid[..k - 1];
      ScaledSpent(mid, y, left, k - 1);
    }
  }

  /** Where a mixdepth's entries are in three parts of which the last holds none. */
  lemma ThreeParts(a: seq<Entry>, b: seq<Entry>, c: seq<Entry>, d: nat)
    ensures Of(a + b + c, d) == Of(a, d) + Of(b, d) + Of(c, d)
  {
    OfConcat(a + b, c, d);
    OfConcat(a, b, d);
  }

  /** What one mixdepth has spent, in all, after a re-plan. */
  lemma {:induction false} ReplanSpends(s: seq<Entry>, i: nat, y: seq<real>)
    requires i < |s| && y != [] && |y| == ToBeDone(s, i) && Contiguous(s, i)
    ensures var d := s[i].src;
      Spent(Of(Replan(s, i, y, Left(s, i)), d)) == Spent(Of(s[..i], d)) + F.SumTo(y, |y| - 1) * Left(s, i)
  {
    hide *;
    var d, n, left := s[i].src, |y|, Left(s, i);
    var s' := Replan(s, i, y, left);
    var mid := s'[i..i + n];
    ReplanParts(s, i, y, left);
    MidAmounts(s, i, y, left);
    SpentInParts(s[..i], mid, s[i + n..], d);
    MidSpends(mid, y, left);
  }

  lemma MidAmounts(s: seq<Entry>, i: nat, y: seq<real>, left: real)
    requires y != [] && i + |y| <= |s|
    ensures var n, mid := |y|, Replan(s, i, y, left)[i..i + |y|];
      mid[n - 1].amount == 0.0 && forall j :: 0 <= j < n - 1 ==> mid[j].amount == y[j] * left
  {}

  lemma SpentInParts(a: seq<Entry>, mid: seq<Entry>, c: seq<Entry>, d: nat)
    requires AllFrom(mid, d) && NoneFrom(c, d)
    ensures Spent(Of(a + mid + c, d)) == Spent(Of(a, d)) + Spent(mid)
  {
    hide Of, Spent;
    ThreeParts(a, mid, c, d);
    OfAll(mid, d);
    OfNone(c, d);
    SpentConcat(Of(a, d), mid);
    assert Of(a, d) + mid + [] == Of(a, d) + mid;
  }

  lemma {:induction false} MidSpends(mid: seq<Entry>, y: seq<real>, left: real)
    requires |mid| == |y| > 0 && mid[|mid| - 1].amount == 0.0
    requires forall j :: 0 <= j < |mid| - 1 ==> mid[j].amount == y[j] * left
    ensures Spent(mid) == F.SumTo(y, |y| - 1) * left
  {
    ScaledSpent(mid, y, left, |y| - 1);
  }

  lemma RestHasNone(s: seq<Entry>, i: nat)
    requires i < |s| && Contiguous(s, i)
    ensures forall j :: i + ToBeDone(s, i) <= j < |s| ==> s[j].src != s[i].src
  {
    var d, n := s[i].src, ToBeDone(s, i);
    RewritesOwnMixdepthIff(s, i);
    assert s[i..] == s[i..i + n] + s[i + n..];
    OfConcat(s[i..i + n], s[i + n..], d);
    OfAll(s[i..i + n], d);
    forall j | i + n <= j < |s| ensures s[j].src != d {
      OfMembers(s[i + n..], d, s[j]);
      assert s[i + n..][j - i - n] == s[j];
    }
  }

  /** A re-plan leaves the entries of every other mixdepth as they were. */
  lemma ReplanSparesOthers(s: seq<Entry>, i: nat, y: seq<real>, left: real, d: nat)
    requires i < |s| && y != [] && |y| == ToBeDone(s, i) && Contiguous(s, i) && d != s[i].src
    ensures Of(Replan(s, i, y, left), d) == Of(s, d)
  {
    var n, s' := |y|, Replan(s, i, y, left);
    ReplanParts(s, i, y, left);
    hide ToBeDone, Contiguous, Of, Replan;
    ThreeParts(s[..i], s'[i..i + n], s[i + n..], d);
    ThreeParts(s[..i], s[i..i + n], s[i + n..], d);
    OfNone(s'[i..i + n], d);
    OfNone(s[i..i + n], d);
  }

  /** What is left to spend, and what the fractions before the sweep take of it. */
  lemma LeftBounds(s: seq<Entry>, i: nat)
    requires i < |s| && TumbleOk(s)
    ensures 0.0 < Left(s, i) <= 1.0
  {
    var d := s[i].src;
    SplitEntries(s, i);
    SpentConcat(Of(s[..i], d), Of(s[i..], d));
    SpentNonNegative(s[..i], d);
    SpentNonNegative(s[i..], d);
  }

  lemma LastFractionTakesRest(y: seq<real>)
    requires F.Fractions(y)
    ensures 0.0 <= F.SumTo(y, |y| - 1) < 1.0 - F.LEAST_LAST
  {
    PartialSums(y, |y| - 1);
  }

  lemma {:induction false} PartialSums(y: seq<real>, k: nat)
    requires k <= |y| && forall i :: 0 <= i < |y| ==> y[i] >= 0.0
    ensures F.SumTo(y, k) >= 0.0
  {
    if k > 0 {
      PartialSums(y, k - 1);
    }
  }

  /** A re-plan keeps the fractions of every mixdepth below the whole, done and planned. */
  lemma ReplanKeepsBelowWhole(s: seq<Entry>, i: nat, y: seq<real>, s': seq<Entry>, d: nat)
    requires TumbleOk(s) && IsReplan(s, i, y, s') && s[i].amount != 0.0
    ensures Spent(Of(s', d)) < 1.0
  {
    hide F.Fractions, F.SumTo, Of, Spent;
    if d == s[i].src {
      ReplanSpends(s, i, y);
      LeftBounds(s, i);
      LastFractionTakesRest(y);
      var part, left, done := F.SumTo(y, |y| - 1), Left(s, i), Spent(Of(s[..i], d));
      BelowWhole(done, part, left);
    } else {
      ReplanSparesOthers(s, i, y, Left(s, i), d);
    }
  }

  lemma BelowWhole(done: real, part: real, left: real)
    requires 0.0 <= part < 1.0 && 0.0 < left == 1.0 - done
    ensures done + part * left < 1.0
  {
    assert (1.0 - part) * left > 0.0;
  }

  /** The main invariant: a re-plan of a planned fraction keeps it. */
  lemma ReplanKeepsTumbleOk(s: seq<Entry>, i: nat, y: seq<real>, s': seq<Entry>)
    requires TumbleOk(s) && IsReplan(s, i, y, s') && s[i].amount != 0.0
    ensures TumbleOk(s')
  {
    forall d ensures Spent(Of(s', d)) < 1.0 {
      ReplanKeepsBelowWhole(s, i, y, s', d);
    }
    LeftBounds(s, i);
    ReplanNonNegative(s, i, y, Left(s, i));
    ReplanKeepsShape(s, i, y, Left(s, i));
    hide Of, Spent, Left, ToBeDone, Contiguous, IsLastOf, Replan, F.Fractions;
  }

  lemma ReplanNonNegative(s: seq<Entry>, i: nat, y: seq<real>, left: real)
    requires y != [] && i + |y| <= |s| && left >= 0.0
    requires forall k :: 0 <= k < |y| ==> y[k] >= 0.0
    requires forall k :: 0 <= k < |s| ==> s[k].amount >= 0.0
    ensures forall k :: 0 <= k < |s| ==> Replan(s, i, y, left)[k].amount >= 0.0
  {
    forall k | 0 <= k < |s| ensures Replan(s, i, y, left)[k].amount >= 0.0 {
      if i <= k < i + |y| - 1 {
        Product(y[k - i], left);
      }
    }
  }

  lemma ReplanKeepsShape(s: seq<Entry>, i: nat, y: seq<real>, left: real)
    requires i < |s| && y != [] && |y| == ToBeDone(s, i)
    requires TumbleOk(s) && s[i].amount != 0.0
    ensures var s' := Replan(s, i, y, left);
      && (forall k :: 0 <= k < |s'| && s'[k].amount != 0.0 ==> Contiguous(s', k))
      && forall k :: 0 <= k < |s'| && IsLastOf(s', k) ==> s'[k].amount == 0.0
  {
    var s' := Replan(s, i, y, left);
    RewritesOwnMixdepthIff(s, i);
    hide Of, Spent, ToBeDone;
    assert forall j :: 0 <= j < |s| ==> s'[j].src == s[j].src;
    forall k | 0 <= k < |s'| && s'[k].amount != 0.0 ensures Contiguous(s', k) {
      assert s[k].amount != 0.0 ==> Contiguous(s, k);
    }
    forall k | i <= k < i + |y| - 1 ensures !IsLastOf(s', k) {
      assert s[k + 1].src == s[k].src;
    }
    forall k | 0 <= k < |s'| && IsLastOf(s', k) ensures s'[k].amount == 0.0 {
      assert IsLastOf(s, k);
    }
  }

  lemma Product(a: real, b: real)
    requires a >= 0.0 && b >= 0.0
    ensures a * b >= 0.0
  {}

  lemma AnnotatedTumbleOk(s: seq<Entry>, s': seq<Entry>)
    requires Annotated(s, s') && TumbleOk(s)
    ensures TumbleOk(s')
  {
    hide Of, Spent;
    forall d ensures Spent(Of(s', d)) < 1.0 {
      AnnotatedOf(s, s', d);
    }
    forall i | 0 <= i < |s'| ensures IsLastOf(s', i) ==> IsLastOf(s, i) {}
    forall i | 0 <= i < |s'| ensures Contiguous(s, i) ==> Contiguous(s', i) {}
  }

  /** What a tweak of entry `i` may change: its destination and maker count, and the amounts
      of the rest of its mixdepth. */
  ghost predicate TouchesOnly(s: seq<Entry>, i: nat, s': seq<Entry>)
    requires i < |s| == |s'|
  {
    forall j :: 0 <= j < |s| ==>
      && (j != i ==> s'[j].dest == s[j].dest && s'[j].makers == s[j].makers)
      && (j < i || s[j].src != s[i].src ==> s'[j].amount == s[j].amount)
      && s'[j].src == s[j].src && s'[j].wait == s[j].wait
      && s'[j].rounding == s[j].rounding && s'[j].completed == s[j].completed
  }

  /** A tweak keeps every mixdepth's plan in order, and leaves alone what is done, and every
      other mixdepth. */
  lemma TweakKeepsTumbleOk(s: seq<Entry>, i: nat, destaddrs: seq<string>, minimumMakers: int, y: seq<real>,
                           s': seq<Entry>)
    requires TumbleOk(s) && IsTweak(s, i, destaddrs, minimumMakers, y, s')
    ensures TumbleOk(s') && |s'| == |s| && TouchesOnly(s, i, s')
  {
    var t := s[i := Redirected(s[i], destaddrs)];
    AnnotatedTumbleOk(s, t);
    TweakTouches(s, i, destaddrs, minimumMakers, y, s');
    hide Of, Spent, Contiguous, IsLastOf, TouchesOnly;
    if t[i].amount == 0.0 {
      AnnotatedTumbleOk(t, s');
    } else {
      ReplanKeepsTumbleOk(t, i, y, s');
    }
  }

  lemma TweakTouches(s: seq<Entry>, i: nat, destaddrs: seq<string>, minimumMakers: int, y: seq<real>, s': seq<Entry>)
    requires IsTweak(s, i, destaddrs, minimumMakers, y, s') && (s[i].amount != 0.0 ==> Contiguous(s, i))
    ensures |s'| == |s| && TouchesOnly(s, i, s')
  {
    hide IsReplan;
    var t := s[i := Redirected(s[i], destaddrs)];
    if t[i].amount != 0.0 {
      ReplanTouches(t, i, y, s');
      hide *;
      TouchedTwice(s, i, t, s');
    }
  }

  lemma TouchedTwice(s: seq<Entry>, i: nat, t: seq<Entry>, s': seq<Entry>)
    requires i < |s| && |s'| == |t| == |s| && t == s[i := t[i]] && t[i] == s[i].(dest := t[i].dest)
    requires forall j :: 0 <= j < |t| ==>
      t[j] == s'[j] || (j >= i && t[j].src == t[i].src && s'[j] == t[j].(amount := s'[j].amount))
    ensures TouchesOnly(s, i, s')
  {}

  lemma ReplanTouches(s: seq<Entry>, i: nat, y: seq<real>, s': seq<Entry>)
    requires IsReplan(s, i, y, s') && Contiguous(s, i)
    ensures |s'| == |s| && forall j :: 0 <= j < |s| ==>
      s'[j] == s[j] || (j >= i && s[j].src == s[i].src && s'[j] == s[j].(amount := s'[j].amount))
  {
    RewritesOwnMixdepthIff(s, i);
    hide F.Fractions, ToBeDone, Contiguous, Left;
  }

  ghost predicate Step(s: seq<Entry>, s': seq<Entry>) {
    || Annotated(s, s')
    || exists i, destaddrs, minimumMakers, y :: IsTweak(s, i, destaddrs, minimumMakers, y, s')
  }

  /** Over any number of tweaks, with destinations filled in and completed entries flagged in
      between, every mixdepth still ends in a sweep, with its fractions, done and planned,
      below the whole. */
  lemma {:induction false} RunKeepsTumbleOk(run: seq<seq<Entry>>)
    requires run != [] && TumbleOk(run[0])
    requires forall k :: 0 <= k < |run| - 1 ==> Step(run[k], run[k + 1])
    ensures TumbleOk(run[|run| - 1])
  {
    var n := |run| - 1;
    if n > 0 {
      var before := run[..n];
      forall k | 0 <= k < |before| - 1 ensures Step(before[k], before[k + 1]) {
        assert Step(run[k], run[k + 1]);
      }
      hide TumbleOk, IsTweak;
      RunKeepsTumbleOk(before);
      assert Step(run[n - 1], run[n - 1 + 1]);
      if Annotated(run[n - 1], run[n]) {
        AnnotatedTumbleOk(run[n - 1], run[n]);
      } else {
        var i: nat, destaddrs, minimumMakers, y :| IsTweak(run[n - 1], i, destaddrs, minimumMakers, y, run[n]);
        TweakKeepsTumbleOk(run[n - 1], i, destaddrs, minimumMakers, y, run[n]);
      }
    }
  }

  // ---------- when a re-plan does what it should ----------

  /** The amounts planned for other mixdepths are as they were. */
  ghost predicate OthersUntouched(s: seq<Entry>, d: nat, s': seq<Entry>) {
    |s'| == |s| && forall j :: 0 <= j < |s| && s[j].src != d ==> s'[j].amount == s[j].amount
  }

  /** The entries of other mixdepths that a re-plan of entry `i` rewrites are sweeps, and only
      the last one is rewritten unless nothing is left to distribute. */
  ghost predicate HarmlessReach(s: seq<Entry>, i: nat)
    requires i < |s|
  {
    forall j :: i <= j < i + ToBeDone(s, i) && s[j].src != s[i].src ==>
      s[j].amount == 0.0 && (j == i + ToBeDone(s, i) - 1 || Left(s, i) == 0.0)
  }

  /** A re-plan leaves other mixdepths' amounts alone, for every draw there can be, if and only
      if the entries it rewrites are of its own mixdepth or harmless. */
  lemma OthersUntouchedIff(s: seq<Entry>, i: nat)
    requires i < |s|
    ensures (forall y: seq<real>, s': seq<Entry> ::
              F.Drawable(y) && IsReplan(s, i, y, s') ==> OthersUntouched(s, s[i].src, s'))
      <==> HarmlessReach(s, i)
  {
    var n, left := ToBeDone(s, i), Left(s, i);
    hide ToBeDone, Left, F.Drawable;
    if HarmlessReach(s, i) {
      forall y: seq<real>, s': seq<Entry> | IsReplan(s, i, y, s') ensures OthersUntouched(s, s[i].src, s') {
        hide F.Fractions;
      }
    } else {
      var j :| i <= j < i + n && s[j].src != s[i].src && !(s[j].amount == 0.0 && (j == i + n - 1 || left == 0.0));
      var y := Shares(n, if s[j].amount == 0.0 then j - i else 0);
      hide F.Fractions;
      var s' := Replan(s, i, y, left);
      assert IsReplan(s, i, y, s');
      assert s'[j].amount != s[j].amount;
    }
  }

  /** For a mixdepth with at least two entries to be done, the re-planned amounts are never
      negative, for every draw there can be, exactly if what it has spent, over all its visits,
      is at most the whole. */
  lemma NeverNegativeIff(s: seq<Entry>, i: nat)
    requires i < |s| && ToBeDone(s, i) >= 2
    ensures (forall y: seq<real>, s': seq<Entry> ::
              F.Drawable(y) && IsReplan(s, i, y, s') ==> NoneNegative(s', i, |y|))
      <==> Spent(Of(s[..i], s[i].src)) <= 1.0
  {
    var n, left := ToBeDone(s, i), Left(s, i);
    hide F.Drawable;
    if left >= 0.0 {
      forall y: seq<real>, s': seq<Entry>, j: nat | IsReplan(s, i, y, s') && i <= j < i + |y|
        ensures s'[j].amount >= 0.0
      {
        if j < i + |y| - 1 {
          Product(y[j - i], left);
        }
      }
    } else {
      var y := Shares(n, 0);
      var s' := Replan(s, i, y, left);
      assert IsReplan(s, i, y, s') && s'[i].amount == 0.75 * left < 0.0;
    }
  }

  ghost predicate NoneNegative(s: seq<Entry>, i: nat, n: nat) {
    i + n <= |s| && forall j :: i <= j < i + n ==> s[j].amount >= 0.0
  }

  /** Half for the first entry, and a quarter each for another and for the sweep. */
  function Shares(n: nat, at: nat): (y: seq<real>)
    requires at < n - 1
    ensures |y| == n && F.Fractions(y) && F.Drawable(y)
    ensures forall k :: 0 <= k < n - 1 ==>
      y[k] == (if k == 0 then 0.5 else 0.0) + (if k == at then 0.25 else 0.0)
  {
    var y := seq(n, k => (if k == 0 then 0.5 else 0.0) + (if k == at || k == n - 1 then 0.25 else 0.0));
    SharesSum(y, at, n - 1);
    F.DrawableIff(y);
    y
  }

  lemma {:induction false} SharesSum(y: seq<real>, at: nat, k: nat)
    requires k < |y| && at < |y| - 1
    requires forall j :: 0 <= j < |y| - 1 ==>
      y[j] == (if j == 0 then 0.5 else 0.0) + (if j == at then 0.25 else 0.0)
    ensures F.SumTo(y, k) == (if 0 < k then 0.5 else 0.0) + (if at < k then 0.25 else 0.0)
  {
    if k > 0 {
      SharesSum(y, at, k - 1);
    }
  }
}
