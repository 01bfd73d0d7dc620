/** A generated schedule is one that tweaks keep in order (src/jmclient/schedule.py). */
module TumbleTweaks {
  import F = ScheduleFractions
  import opened TumblePlan
  import opened TumbleSchedule
  import R = TumbleRun
  import opened ScheduleTweak

  /** A finished block: one mixdepth, non-negative fractions below the whole, a sweep last. */
  ghost predicate WellSpent(b: Block, d: nat) {
    && AllFrom(b, d) && Last(b).amount == 0.0 && Spent(b) < 1.0
    && forall i :: 0 <= i < |b| ==> b[i].amount >= 0.0
  }

  ghost predicate AllWellSpent(fs: seq<Block>, low: nat, depths: nat)
    requires depths > 0
  {
    forall m :: 0 <= m < |fs| ==> WellSpent(fs[m], Depth(low, m, depths))
  }

  lemma DraftedWellSpent(b: Block, d: nat, dest: Dest)
    requires Drafted(b, d) && FromFractions(b)
    ensures WellSpent(b, d) && WellSpent(WithLastDest(b, dest), d) && WellSpent([Last(b).(dest := dest)], d)
  {
    var y :| SpentAs(b, y);
    LastFractionTakesRest(y);
    DraftedSpends(b, y);
    DraftedSpends(WithLastDest(b, dest), y);
    SpentOne(Last(b).(dest := dest));
    hide Spent, F.Fractions, F.SumTo;
  }

  lemma {:induction false} DraftedSpends(b: Block, y: seq<real>)
    requires |y| == |b| && Last(b).amount == 0.0 && forall i :: 0 <= i < |b| - 1 ==> b[i].amount == y[i]
    ensures Spent(b) == F.SumTo(y, |b| - 1)
  {
    ScaledSpent(b, y, 1.0, |b| - 1);
  }

  lemma FinalBlocksWellSpent(p: Plan, balances: seq<nat>, o: Options, rnd: Random, externals: seq<Dest>, k: nat)
    requires |balances| >= 2 && PlanFits(p, balances, o, rnd)
    requires k <= |p.blocks| && k <= |externals|
    ensures AllWellSpent(FinalBlocks(p.blocks, externals, k), p.low, |balances|)
  {
    var fs := FinalBlocks(p.blocks, externals, k);
    hide Depth, Drafted, WellSpent, WithExtras, F.Drawn, SpentAs, WithLastDest, R.Sweeps, R.Funded, IsLowest, TxCount;
    forall m | 0 <= m < |fs| ensures WellSpent(fs[m], Depth(p.low, m, |balances|)) {
      var c := |p.blocks|;
      assert FromFractions(p.blocks[m]);
      DraftedWellSpent(p.blocks[m], Depth(p.low, m, |balances|),
                      if m < c - k then Internal else externals[c - 1 - m]);
    }
  }

  // ---------- a list of finished blocks ----------

  lemma OtherBlocks(fs: seq<Block>, low: nat, depths: nat, a: nat, b: nat, d: nat)
    requires depths > 0 && AllWellSpent(fs, low, depths) && a <= b <= |fs|
    requires forall m :: a <= m < b ==> Depth(low, m, depths) != d
    ensures NoneFrom(Flatten(fs[a..b]), d)
  {
    hide Depth, Flatten;
    var t := Flatten(fs[a..b]);
    forall i | 0 <= i < |t| ensures t[i].src != d {
      FlattenMembers(fs[a..b], t[i]);
      var m :| 0 <= m < |fs[a..b]| && t[i] in fs[a..b][m];
      assert WellSpent(fs[a + m], Depth(low, a + m, depths));
    }
  }

  /** What surrounds the `m`-th block leaves other mixdepths. */
  lemma {:induction false} AroundWellSpent(fs: seq<Block>, low: nat, depths: nat, m: nat)
    requires depths > 0 && AllWellSpent(fs, low, depths) && m < |fs| <= depths
    ensures Flatten(fs) == Flatten(fs[..m]) + fs[m] + Flatten(fs[m + 1..])
    ensures var d := Depth(low, m, depths);
      WellSpent(fs[m], d) && NoneFrom(Flatten(fs[..m]), d) && NoneFrom(Flatten(fs[m + 1..]), d)
  {
    FlattenAt(fs, m);
    forall j | 0 <= j < m ensures Depth(low, j, depths) != Depth(low, m, depths) {
      DepthsDiffer(low, j, m, depths);
    }
    forall j | m + 1 <= j < |fs| ensures Depth(low, j, depths) != Depth(low, m, depths) {
      DepthsDiffer(low, m, j, depths);
    }
    OtherBlocks(fs, low, depths, 0, m, Depth(low, m, depths));
    OtherBlocks(fs, low, depths, m + 1, |fs|, Depth(low, m, depths));
    assert fs[0..m] == fs[..m] && fs[m + 1..|fs|] == fs[m + 1..];
  }

  /** Each mixdepth spends what its one block spends. */
  lemma SpentInBlocks(fs: seq<Block>, low: nat, depths: nat, d: nat)
    requires depths > 0 && AllWellSpent(fs, low, depths) && |fs| <= depths
    ensures Spent(Of(Flatten(fs), d)) < 1.0
  {
    hide Depth, Flatten, Of, Spent;
    if m :| 0 <= m < |fs| && Depth(low, m, depths) == d {
      AroundWellSpent(fs, low, depths, m);
      SpentInParts(Flatten(fs[..m]), fs[m], Flatten(fs[m + 1..]), d);
      OfNone(Flatten(fs[..m]), d);
      SpentNothing();
    } else {
      OtherBlocks(fs, low, depths, 0, |fs|, d);
      assert fs[0..|fs|] == fs;
      OfNone(Flatten(fs), d);
      SpentNothing();
    }
  }

  lemma SpentNothing()
    ensures Spent([]) == 0.0
  {}

  /** Which block an entry is in. */
  lemma {:induction false} Locate(fs: seq<Block>, i: nat) returns (m: nat)
    requires i < |Flatten(fs)|
    ensures m < |fs| && |Flatten(fs[..m])| <= i < |Flatten(fs[..m])| + |fs[m]|
  {
    m := |fs| - 1;
    if i < |Flatten(fs[..m])| {
      var n := m;
      m := Locate(fs[..n], i);
      assert fs[..n][..m] == fs[..m];
    }
  }

  /** In parts of which the middle one is a finished block and the others leave other
      mixdepths, the entries of that block are followed by their own kind, up to the sweep. */
  lemma BlockEntry(a: seq<Entry>, b: Block, c: seq<Entry>, d: nat, i: nat)
    requires WellSpent(b, d) && NoneFrom(c, d) && |a| <= i < |a| + |b|
    ensures var s := a + b + c;
      Contiguous(s, i) && s[i].amount >= 0.0 && (IsLastOf(s, i) ==> s[i].amount == 0.0)
  {
    var s := a + b + c;
    assert forall j :: |a| <= j < |a| + |b| ==> s[j] == b[j - |a|] && s[j].src == d;
    assert forall j :: |a| + |b| <= j < |s| ==> s[j] == c[j - |a| - |b|] && s[j].src != d;
    hide Spent;
    if i < |a| + |b| - 1 {
      assert s[i + 1].src == s[i].src;
    }
  }

  ghost predicate ZeroAmounts(s: seq<Entry>) {
    forall i :: 0 <= i < |s| ==> s[i].amount == 0.0
  }

  lemma {:induction false} ZeroSpent(s: seq<Entry>, d: nat)
    requires ZeroAmounts(s)
    ensures Spent(Of(s, d)) == 0.0
  {
    if s != [] {
      var n := |s| - 1;
      ZeroSpent(s[..n], d);
      SpentConcat(Of(s[..n], d), [s[n]]);
      SpentOne(s[n]);
      assert Of(s, d) == Of(s[..n], d) || Of(s, d) == Of(s[..n], d) + [s[n]];
    }
  }

  /** A generated schedule that visits no mixdepth twice can be tweaked: whatever mix of
      tweaks follows, each mixdepth's fractions stay below the whole and it ends in a sweep. */
  lemma GeneratedTumbleOk(p: Plan, o: Options, destaddrs: seq<string>, balances: seq<nat>, rnd: Random)
    requires |balances| >= 2 && ValidOptions(o, |balances|) && o.mixdepthcount <= |balances|
    requires PlanFits(p, balances, o, rnd)
    ensures TumbleOk(FinalSchedule(p, o, destaddrs))
  {
    var externals := Externals(o.addrcount, destaddrs);
    var fs := FinalBlocks(p.blocks, externals, o.addrcount);
    FinalBlocksWellSpent(p, balances, o, rnd, externals, o.addrcount);
    hide *;
    SweepsThenBlocks(p.stage1, fs, p.low, |balances|);
  }

  lemma {:induction false} SweepsThenBlocks(stage1: seq<Entry>, fs: seq<Block>, low: nat, depths: nat)
    requires ZeroAmounts(stage1) && depths > 0 && AllWellSpent(fs, low, depths) && |fs| <= depths
    ensures TumbleOk(stage1 + Flatten(fs))
  {
    var s := stage1 + Flatten(fs);
    forall d ensures Spent(Of(s, d)) < 1.0 {
      hide *;
      SpentInBlocks(fs, low, depths, d);
      ZeroSpent(stage1, d);
      OfConcat(stage1, Flatten(fs), d);
      SpentConcat(Of(stage1, d), Of(Flatten(fs), d));
    }
    forall i | 0 <= i < |s|
      ensures s[i].amount >= 0.0 && (s[i].amount != 0.0 ==> Contiguous(s, i)) && (IsLastOf(s, i) ==> s[i].amount == 0.0)
    {
      hide Flatten, Of, Spent, Depth, AllWellSpent, Contiguous, IsLastOf;
      if i >= |stage1| {
        EntryInBlocks(stage1, fs, low, depths, i);
      }
    }
    hide Of, Spent, Flatten, Contiguous, IsLastOf, AllWellSpent;
  }

  lemma EntryInBlocks(stage1: seq<Entry>, fs: seq<Block>, low: nat, depths: nat, i: nat)
    requires depths > 0 && AllWellSpent(fs, low, depths) && |fs| <= depths
    requires |stage1| <= i < |stage1 + Flatten(fs)|
    ensures var s := stage1 + Flatten(fs);
      Contiguous(s, i) && s[i].amount >= 0.0 && (IsLastOf(s, i) ==> s[i].amount == 0.0)
  {
    hide Flatten, Depth, AllWellSpent, WellSpent, NoneFrom, Contiguous, IsLastOf;
    var m := Locate(fs, i - |stage1|);
    AroundWellSpent(fs, low, depths, m);
    Around(stage1, Flatten(fs[..m]), fs[m], Flatten(fs[m + 1..]));
    BlockEntry(stage1 + Flatten(fs[..m]), fs[m], Flatten(fs[m + 1..]), Depth(low, m, depths), i);
  }
}
