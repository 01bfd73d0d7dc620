/** Generating a tumbler schedule (src/jmclient/schedule.py, `get_tumble_schedule`). */
module TumbleSchedule {
  // Random numbers are arguments. `balances[d]` is the balance of mixdepth `d`; its length is
  // the number of mixdepths in the wallet.

  import opened Sequences
  import opened Wrappers
  import F = ScheduleFractions
  import opened TumblePlan
  import opened TumbleRun

  datatype Options = Options(mixdepthcount: nat, addrcount: nat, mintxcount: nat, minmakercount: int)

  /** Each destination needs a mixdepth of its own, and each mixdepth at least one entry. */
  predicate ValidOptions(o: Options, depths: nat) {
    1 <= o.addrcount <= o.mixdepthcount && o.addrcount <= depths && depths >= 2 && o.mintxcount >= 1
  }

  /** The random attributes of one entry. */
  datatype Extra = Extra(wait: real, makers: int, doRound: bool, sigfig: nat)

  /** All random draws: transaction counts and knives per block, attributes per entry. */
  datatype Random = Random(
    txcounts: nat -> int,
    knives: nat -> seq<seq<real>>,
    sweeps: nat -> Extra,
    extras: (nat, nat) -> Extra)

  datatype Result = Planned(schedule: seq<Entry>) | NoFunds | OutOfDraws

  /** The least number that reaches both. */
  function LowerBounded(v: int, bound: int): (r: int)
    ensures r >= v && r >= bound && (r == v || r == bound)
  {
    if v >= bound then v else bound
  }

  /** The number of entries of block `m`: a block that ends in an external payment, other
      than the very last one, has at least two. */
  function TxCount(o: Options, rnd: Random, m: nat): (n: nat)
    ensures n >= o.mintxcount && n >= rnd.txcounts(m) && (n == o.mintxcount || n == rnd.txcounts(m) || n == 2)
    ensures o.mixdepthcount - o.addrcount <= m < o.mixdepthcount - 1 && o.mintxcount >= 1 ==> n >= 2
  {
    var n := LowerBounded(rnd.txcounts(m), o.mintxcount);
    if o.mixdepthcount - o.addrcount <= m < o.mixdepthcount - 1 && n == 1 then 2 else n
  }

  ghost predicate RandomFits(o: Options, rnd: Random) {
    forall m: nat, a :: 0 <= a < |rnd.knives(m)| ==>
      F.Draws(rnd.knives(m)[a]) && |rnd.knives(m)[a]| == TxCount(o, rnd, m) - 1
  }

  // ---------- stage 1 ----------

  ghost predicate HighestFirst(ds: seq<nat>) {
    forall i, j :: 0 <= i < j < |ds| ==> ds[i] > ds[j]
  }

  /** The sweeps of stage 1 wait as drawn, for at least the minimum number of makers. */
  ghost predicate StageOneDrawn(txs: seq<Entry>, o: Options, rnd: Random) {
    forall i: nat :: i < |txs| ==>
      && txs[i].wait == rnd.sweeps(i).wait && txs[i].makers == LowerBounded(rnd.sweeps(i).makers, o.minmakercount)
      && txs[i].rounding == 16 && txs[i].completed == 0
  }

  /** The funded mixdepths from `d` up have been planned. */
  ghost predicate PlannedDownTo(ds: seq<nat>, balances: seq<nat>, d: nat) {
    && HighestFirst(ds) && (forall i :: 0 <= i < |ds| ==> d <= ds[i] < |balances|)
    && forall x :: d <= x < |balances| ==> (balances[x] > 0 <==> x in ds)
  }

  lemma SweepAdded(txs: seq<Entry>, ds: seq<nat>, tx: Entry, d: nat, o: Options, rnd: Random)
    requires Sweeps(txs, ds) && StageOneDrawn(txs, o, rnd) && IsSweep(tx, d)
    requires tx.wait == rnd.sweeps(|txs|).wait && tx.makers == LowerBounded(rnd.sweeps(|txs|).makers, o.minmakercount)
    requires tx.rounding == NO_ROUNDING && tx.completed == 0
    ensures Sweeps(txs + [tx], ds + [d]) && StageOneDrawn(txs + [tx], o, rnd)
  {}

  lemma PlannedNext(ds: seq<nat>, balances: seq<nat>, d: nat)
    requires PlannedDownTo(ds, balances, d + 1) && d < |balances|
    ensures PlannedDownTo(if balances[d] > 0 then ds + [d] else ds, balances, d)
  {}

  lemma PlannedAll(ds: seq<nat>, balances: seq<nat>)
    requires PlannedDownTo(ds, balances, 0)
    ensures Funded(ds, balances) && HighestFirst(ds)
  {}

  lemma FlagsSnoc(ds: seq<nat>, d: nat, depths: nat)
    requires depths > 0
    ensures Flags(ds + [d], depths) == Flags(ds, depths)[d := false][NextDepth(d, depths) := true]
  {
    assert (ds + [d])[..|ds|] == ds;
  }

  /** Plan one sweep per funded mixdepth, highest first, and keep the non-empty flags. */
  method PlanSweeps(balances: seq<nat>, o: Options, rnd: Random)
    returns (txs: seq<Entry>, flags: map<nat, bool>, ghost ds: seq<nat>)
    requires |balances| >= 2
    ensures Sweeps(txs, ds) && Funded(ds, balances) && flags == Flags(ds, |balances|)
    ensures StageOneDrawn(txs, o, rnd) && HighestFirst(ds)
  {
    txs, flags, ds := [], map[], [];
    assert StageOneDrawn(txs, o, rnd);
    hide PlannedDownTo, Flags, LowerBounded, Funded, HighestFirst, NextDepth, Sweeps, StageOneDrawn;
    for d := |balances| downto 0
      invariant Sweeps(txs, ds) && flags == Flags(ds, |balances|)
      invariant StageOneDrawn(txs, o, rnd) && PlannedDownTo(ds, balances, d)
    {
      PlannedNext(ds, balances, d);
      if balances[d] > 0 {
        var x := rnd.sweeps(|txs|);
        var tx := Entry(d, 0.0, LowerBounded(x.makers, o.minmakercount), Internal, x.wait, NO_ROUNDING, 0);
        FlagsSnoc(ds, d, |balances|);
        SweepAdded(txs, ds, tx, d, o, rnd);
        flags := flags[d := false][NextDepth(d, |balances|) := true];
        txs := txs + [tx];
        ds := ds + [d];
      }
    }
    PlannedAll(ds, balances);
  }

  ghost predicate IsLowest(flags: map<nat, bool>, low: nat) {
    Flagged(flags, low) && forall d :: Flagged(flags, d) ==> low <= d
  }

  method LowestFlagged(flags: map<nat, bool>, depths: nat) returns (low: Option<nat>)
    requires forall d :: d in flags ==> d < depths
    ensures low.None? <==> forall d :: !Flagged(flags, d)
    ensures low.Some? ==> low.value < depths && IsLowest(flags, low.value)
  {
    for d := 0 to depths
      invariant forall x: nat :: x < d ==> !Flagged(flags, x)
    {
      if d in flags && flags[d] {
        assert Flagged(flags, d);
        return Some(d);
      }
    }
    return None;
  }

  lemma {:induction false} FlagsInRange(ds: seq<nat>, depths: nat)
    requires depths > 0 && forall i :: 0 <= i < |ds| ==> ds[i] < depths
    ensures forall d :: d in Flags(ds, depths) ==> d < depths
  {
    if ds != [] {
      FlagsInRange(ds[..|ds| - 1], depths);
    }
  }

  /** The last mixdepth swept is empty afterwards, so it is not where stage 2 begins. */
  lemma LastSweptNotLowest(ds: seq<nat>, depths: nat, low: nat)
    requires ds != [] && depths >= 2 && ds[|ds| - 1] < depths && Flagged(Flags(ds, depths), low)
    ensures low != ds[|ds| - 1]
  {
    NextDiffers(ds[|ds| - 1], depths);
  }

  lemma SweptMeansFlagged(ds: seq<nat>, depths: nat)
    requires ds != [] && depths > 0
    ensures Flagged(Flags(ds, depths), NextDepth(ds[|ds| - 1], depths))
  {}

  // ---------- stage 2 ----------

  /** The amounts of a block, before its sweep, are fractions whose rest is appreciable. */
  ghost predicate FromFractions(b: Block) {
    exists y: seq<real> :: SpentAs(b, y)
  }

  /** They are those cut by the first acceptable knives. */
  ghost predicate FromDraws(b: Block, attempts: seq<seq<real>>) {
    exists y: seq<real> :: SpentAs(b, y) && F.Drawn(y, attempts)
  }

  function Rounding(x: Extra): int {
    if x.doRound then x.sigfig + 1 else NO_ROUNDING
  }

  /** Waiting times, maker counts and rounding are the drawn ones, rounding only before the sweep. */
  ghost predicate WithExtras(b: Block, m: nat, o: Options, rnd: Random) {
    && (forall i: nat :: i < |b| ==>
          b[i].wait == rnd.extras(m, i).wait && b[i].makers == LowerBounded(rnd.extras(m, i).makers, o.minmakercount))
    && (forall i: nat :: i < |b| - 1 ==> b[i].rounding == Rounding(rnd.extras(m, i)))
  }

  ghost predicate SpentAs(b: Block, y: seq<real>) {
    F.Fractions(y) && |y| == |b| && forall i :: 0 <= i < |b| - 1 ==> b[i].amount == y[i]
  }

  /** An internal entry with drawn attributes. */
  ghost predicate DraftedAs(e: Entry, src: nat, amount: real, x: Extra, o: Options) {
    e == Entry(src, amount, LowerBounded(x.makers, o.minmakercount), Internal, x.wait, Rounding(x), 0)
  }

  /** The last of them becomes the sweep. */
  lemma SweepLast(txs: seq<Entry>, y: seq<real>, m: nat, src: nat, o: Options, rnd: Random)
    requires txs != [] && |y| == |txs| && F.Fractions(y) && F.Drawn(y, rnd.knives(m))
    requires forall k: nat :: k < |txs| ==> DraftedAs(txs[k], src, y[k], rnd.extras(m, k), o)
    ensures var n := |txs| - 1;
      var b := txs[n := txs[n].(amount := 0.0, rounding := NO_ROUNDING)];
      Drafted(b, src) && FromDraws(b, rnd.knives(m)) && WithExtras(b, m, o, rnd)
  {
    hide F.Fractions, F.Drawn, LowerBounded, Rounding;
    var n := |txs| - 1;
    assert SpentAs(txs[n := txs[n].(amount := 0.0, rounding := NO_ROUNDING)], y);
  }

  /** Draft the entries of one block. */
  method DraftBlock(m: nat, src: nat, o: Options, rnd: Random) returns (r: Option<Block>)
    requires o.mintxcount >= 1 && RandomFits(o, rnd)
    ensures r.None? <==> forall a :: 0 <= a < |rnd.knives(m)| ==> !F.Acceptable(rnd.knives(m)[a])
    ensures r.Some? ==>
      && Drafted(r.value, src) && FromDraws(r.value, rnd.knives(m)) && |r.value| == TxCount(o, rnd, m)
      && WithExtras(r.value, m, o, rnd)
  {
    var txcount := TxCount(o, rnd, m);
    var fractions := F.GetAmountFractions(txcount, rnd.knives(m));
    if fractions.None? {
      return None;
    }
    var y := fractions.value;
    hide F.Fractions, F.Drawn, LowerBounded, TxCount, Drafted, FromDraws, WithExtras;
    var txs: seq<Entry> := [];
    for i := 0 to txcount
      invariant |txs| == i
      invariant forall k: nat :: k < i ==> DraftedAs(txs[k], src, y[k], rnd.extras(m, k), o)
    {
      var x := rnd.extras(m, i);
      var rounding := NO_ROUNDING;
      if x.doRound {
        rounding := x.sigfig + 1;
      }
      txs := txs + [Entry(src, y[i], LowerBounded(x.makers, o.minmakercount), Internal, x.wait, rounding, 0)];
    }
    SweepLast(txs, y, m, src, o, rnd);
    var last := txs[txcount - 1];
    txs := txs[txcount - 1 := last.(amount := 0.0, rounding := NO_ROUNDING)];
    r := Some(txs);
  }

  // ---------- destinations ----------

  /** The last entry leaving a given mixdepth. */
  ghost predicate IsLastFrom(txs: seq<Entry>, src: nat, r: Option<nat>) {
    match r
    case None => forall k :: 0 <= k < |txs| ==> txs[k].src != src
    case Some(i) => i < |txs| && txs[i].src == src && forall k :: i < k < |txs| ==> txs[k].src != src
  }

  function LastFrom(txs: seq<Entry>, src: nat): (r: Option<nat>)
    ensures IsLastFrom(txs, src, r)
  {
    if txs == [] then None
    else if txs[|txs| - 1].src == src then Some(|txs| - 1)
    else LastFrom(txs[..|txs| - 1], src)
  }

  lemma {:induction false} LastFromUnique(txs: seq<Entry>, src: nat, r: Option<nat>)
    requires IsLastFrom(txs, src, r)
    ensures r == LastFrom(txs, src)
  {}

  method FindLast(txs: seq<Entry>, src: nat) returns (r: Option<nat>)
    ensures IsLastFrom(txs, src, r) && r == LastFrom(txs, src)
  {
    hide LastFrom;
    for i := |txs| downto 0
      invariant forall k :: i <= k < |txs| ==> txs[k].src != src
    {
      if txs[i].src == src {
        LastFromUnique(txs, src, Some(i));
        return Some(i);
      }
    }
    LastFromUnique(txs, src, None);
    return None;
  }

  /** In a list where a block of mixdepth `src` is followed by other mixdepths only, the last
      entry leaving `src` is the end of that block. */
  lemma LastOfBlock(a: seq<Entry>, b: Block, c: seq<Entry>, src: nat, i: nat)
    requires AllFrom(b, src) && NoneFrom(c, src)
    requires i < |a + b + c| && (a + b + c)[i].src == src
    requires forall k :: i < k < |a + b + c| ==> (a + b + c)[k].src != src
    ensures i == |a| + |b| - 1
  {
    var t := a + b + c;
    assert t[|a| + |b| - 1] == b[|b| - 1];
    forall k | |a| + |b| <= k < |t| ensures t[k].src != src {
      assert t[k] == c[k - |a| - |b|];
    }
  }

  lemma SetInBlock(a: seq<Entry>, b: Block, c: seq<Entry>, d: Dest)
    ensures (a + b + c)[|a| + |b| - 1 := Last(b).(dest := d)] == a + WithLastDest(b, d) + c
    ensures (a + b + c)[|a| + |b| - 1] == Last(b)
  {}

  /** The final block, seen from behind: its internal entries, and the list with the amount
      of its external entry reset. */
  method CollectInternals(txs: seq<Entry>, ghost before: seq<Entry>, ghost b: Block)
    returns (toRemove: seq<Entry>, r: seq<Entry>)
    requires txs == before + b && FinalShape(before, b)
    ensures r == txs && toRemove == Reverse(b[..|b| - 1])
  {
    toRemove, r := [], txs;
    var ending := txs[|txs| - 1].src;
    var i := |txs|;
    while i > 0
      invariant |before| <= i <= |txs| && r == txs
      invariant Backwards(toRemove, b[..|b| - 1], if i == |txs| then 0 else |txs| - 1 - i)
    {
      if txs[i - 1].src != ending {
        break;
      }
      i := i - 1;
      assert txs[i] == b[i - |before|];
      if txs[i].dest == Internal {
        toRemove := toRemove + [txs[i]];
      } else {
        r := r[i := r[i].(amount := 0.0)];
      }
    }
  }

  /** `xs` holds the last `n` elements of `s`, last first. */
  ghost predicate Backwards(xs: seq<Entry>, s: seq<Entry>, n: int) {
    |xs| == n <= |s| && forall q :: 0 <= q < n ==> xs[q] == s[|s| - 1 - q]
  }

  lemma {:induction false} ReverseSame(s: seq<Entry>)
    ensures multiset(Reverse(s)) == multiset(s)
  {
    if s != [] {
      var n := |s| - 1;
      ReverseSame(s[..n]);
      assert s == s[..n] + [s[n]] && Reverse(s) == [s[n]] + Reverse(s[..n]);
    }
  }

  ghost predicate FinalShape(before: seq<Entry>, b: Block) {
    && (forall k :: 0 <= k < |b| ==> b[k].src == Last(b).src)
    && (forall k :: 0 <= k < |b| - 1 ==> b[k].dest == Internal)
    && Last(b).dest != Internal && Last(b).amount == 0.0
    && (before != [] ==> before[|before| - 1].src != Last(b).src)
  }

  method RemoveEach(s: seq<Entry>, xs: seq<Entry>) returns (r: seq<Entry>)
    ensures r == RemoveAll(s, xs)
  {
    r := s;
    for j := 0 to |xs|
      invariant RemoveAll(s, xs) == RemoveAll(r, xs[j..])
    {
      assert xs[j..][1..] == xs[j + 1..];
      r := RemoveFirst(r, xs[j]);
    }
  }

  /** Only the sweep of the final block is meant to be kept: its internal entries are removed,
      the last one first, each time where an equal entry comes first. */
  method DropInternals(txs: seq<Entry>, ghost before: seq<Entry>, ghost b: Block) returns (r: seq<Entry>)
    requires txs == before + b && FinalShape(before, b)
    ensures r == RemoveAll(before + b, Reverse(b[..|b| - 1]))
  {
    var toRemove, start := CollectInternals(txs, before, b);
    r := RemoveEach(start, toRemove);
  }

  /** That keeps exactly the sweep unless one of them equals an entry before the block. */
  lemma {:induction false} OnlySweepKept(before: seq<Entry>, b: Block)
    requires forall e :: e in b[..|b| - 1] ==> e !in before
    ensures RemoveAll(before + b, Reverse(b[..|b| - 1])) == before + [Last(b)]
  {
    var mid := b[..|b| - 1];
    assert b == mid + [Last(b)];
    assert before + b == before + mid + [Last(b)];
    ReverseSame(mid);
    RemoveMiddle(before, mid, [Last(b)], Reverse(mid));
  }

  // ---------- the whole schedule ----------

  /** What was drafted on the way to a schedule. */
  datatype Plan = Plan(stage1: seq<Entry>, ds: seq<nat>, low: nat, blocks: seq<Block>)

  ghost predicate PlanFits(p: Plan, balances: seq<nat>, o: Options, rnd: Random)
    requires |balances| >= 2
  {
    && Sweeps(p.stage1, p.ds) && Funded(p.ds, balances) && HighestFirst(p.ds)
    && p.low < |balances| && IsLowest(Flags(p.ds, |balances|), p.low)
    && AllDrafted(p.blocks, p.low, |balances|) && |p.blocks| == o.mixdepthcount
    && StageOneDrawn(p.stage1, o, rnd)
    && forall m :: 0 <= m < |p.blocks| ==>
         && FromDraws(p.blocks[m], rnd.knives(m)) && |p.blocks[m]| == TxCount(o, rnd, m)
         && WithExtras(p.blocks[m], m, o, rnd)
  }

  /** No entry that is to be removed equals an earlier entry of the drafted schedule. */
  ghost predicate Distinguishable(p: Plan) {
    p.blocks != [] ==>
      var n := |p.blocks| - 1;
      forall e :: e in p.blocks[n][..|p.blocks[n]| - 1] ==> e !in p.stage1 + Flatten(p.blocks[..n])
  }

  function FinalSchedule(p: Plan, o: Options, destaddrs: seq<string>): seq<Entry>
    requires o.addrcount <= |p.blocks|
  {
    p.stage1 + Flatten(FinalBlocks(p.blocks, Externals(o.addrcount, destaddrs), o.addrcount))
  }

  /** The last entry leaving a mixdepth goes to a destination. */
  function GiveLast(txs: seq<Entry>, src: nat, d: Dest): seq<Entry> {
    var at := LastFrom(txs, src);
    if at.None? then txs else txs[at.value := txs[at.value].(dest := d)]
  }

  /** The schedule after `k` destinations: the drafted entries; then the final block with its
      destination and without its internal entries; then one more destination each. */
  function Destined(p: Plan, externals: seq<Dest>, depths: nat, k: nat): seq<Entry>
    requires k <= |p.blocks| && k <= |externals| && depths > 0
  {
    var n := |p.blocks| - 1;
    if k == 0 then p.stage1 + Flatten(p.blocks)
    else if k == 1 then
      var b := WithLastDest(p.blocks[n], externals[0]);
      RemoveAll(p.stage1 + Flatten(p.blocks[..n]) + b, Reverse(b[..|b| - 1]))
    else GiveLast(Destined(p, externals, depths, k - 1), Depth(p.low, |p.blocks| - k, depths), externals[k - 1])
  }

  predicate AllEmpty(balances: seq<nat>) {
    forall d :: 0 <= d < |balances| ==> balances[d] == 0
  }

  /** No attempt at block `m` leaves an appreciable last fraction. */
  ghost predicate NoneAcceptable(rnd: Random, m: nat) {
    forall a :: 0 <= a < |rnd.knives(m)| ==> !F.Acceptable(rnd.knives(m)[a])
  }

  ghost predicate BlocksFit(blocks: seq<Block>, low: nat, depths: nat, o: Options, rnd: Random)
    requires depths > 0
  {
    forall m :: 0 <= m < |blocks| ==>
      && Drafted(blocks[m], Depth(low, m, depths)) && FromDraws(blocks[m], rnd.knives(m))
      && |blocks[m]| == TxCount(o, rnd, m) && WithExtras(blocks[m], m, o, rnd)
  }

  lemma {:induction false} FlattenSnoc(bs: seq<Block>, b: Block)
    ensures Flatten(bs + [b]) == Flatten(bs) + b
  {
    assert (bs + [b])[..|bs|] == bs;
  }

  /** Stage 2: append the entries of every block. */
  method DraftBlocks(stage1: seq<Entry>, low: nat, depths: nat, o: Options, rnd: Random)
    returns (r: Option<seq<Entry>>, ghost blocks: seq<Block>)
    requires depths > 0 && o.mintxcount >= 1 && RandomFits(o, rnd)
    ensures r.None? ==> exists m: nat :: m < o.mixdepthcount && NoneAcceptable(rnd, m)
    ensures r.Some? ==> r.value == stage1 + Flatten(blocks) && |blocks| == o.mixdepthcount
    ensures BlocksFit(blocks, low, depths, o, rnd)
  {
    hide Flatten, Drafted, FromDraws, WithExtras, TxCount, Depth, RandomFits;
    blocks := [];
    var txs := stage1;
    assert Flatten(blocks) == [] by { FlattenNone(); }
    for m := 0 to o.mixdepthcount
      invariant |blocks| == m && BlocksFit(blocks, low, depths, o, rnd)
      invariant txs == stage1 + Flatten(blocks)
    {
      var block := DraftBlock(m, Depth(low, m, depths), o, rnd);
      if block.None? {
        assert NoneAcceptable(rnd, m);
        return None, blocks;
      }
      FlattenSnoc(blocks, block.value);
      txs := txs + block.value;
      blocks := blocks + [block.value];
    }
    r := Some(txs);
  }

  lemma FlattenNone()
    ensures Flatten([]) == []
  {}

  lemma NoneExternal(blocks: seq<Block>, externals: seq<Dest>)
    ensures FinalBlocks(blocks, externals, 0) == blocks
  {}

  /** Before the first destination is given: the last block, and everything before it. */
  lemma LastBlockShape(stage1: seq<Entry>, ds: seq<nat>, blocks: seq<Block>, low: nat, depths: nat,
                                          d: Dest)
    requires depths >= 2 && Sweeps(stage1, ds) && AllDrafted(blocks, low, depths) && blocks != []
    requires ds != [] ==> ds[|ds| - 1] < depths && Flagged(Flags(ds, depths), low)
    requires low < depths && d != Internal
    ensures FinalShape(stage1 + Flatten(blocks[..|blocks| - 1]), WithLastDest(blocks[|blocks| - 1], d))
  {
    var n := |blocks| - 1;
    LastBeforeDiffers(stage1, ds, blocks, low, depths);
    hide Flatten, Flags, Flagged, Sweeps, Depth;
    assert Drafted(blocks[n], Depth(low, n, depths));
  }

  lemma LastBeforeDiffers(stage1: seq<Entry>, ds: seq<nat>, blocks: seq<Block>, low: nat,
                                             depths: nat)
    requires depths >= 2 && Sweeps(stage1, ds) && AllDrafted(blocks, low, depths) && blocks != []
    requires ds != [] ==> ds[|ds| - 1] < depths && Flagged(Flags(ds, depths), low)
    requires low < depths
    ensures var before := stage1 + Flatten(blocks[..|blocks| - 1]);
      before != [] ==> before[|before| - 1].src != Depth(low, |blocks| - 1, depths)
  {
    if |blocks| > 1 {
      BlockBeforeDiffers(stage1, blocks, low, depths);
    } else if stage1 != [] {
      SweepBeforeDiffers(stage1, ds, blocks, low, depths);
    }
  }

  lemma BlockBeforeDiffers(stage1: seq<Entry>, blocks: seq<Block>, low: nat, depths: nat)
    requires depths >= 2 && AllDrafted(blocks, low, depths) && |blocks| > 1
    ensures var before := stage1 + Flatten(blocks[..|blocks| - 1]);
      before != [] && before[|before| - 1].src != Depth(low, |blocks| - 1, depths)
  {
    var n := |blocks| - 1;
    var prev := blocks[n - 1];
    assert blocks[..n] == blocks[..n - 1] + [prev];
    FlattenSnoc(blocks[..n - 1], prev);
    DepthsDiffer(low, n - 1, n, depths);
    hide Flatten, Depth;
    assert Drafted(prev, Depth(low, n - 1, depths));
    hide AllDrafted, Drafted;
    assert stage1 + (Flatten(blocks[..n - 1]) + prev) == stage1 + Flatten(blocks[..n - 1]) + prev;
  }

  lemma SweepBeforeDiffers(stage1: seq<Entry>, ds: seq<nat>, blocks: seq<Block>, low: nat,
                                              depths: nat)
    requires depths >= 2 && Sweeps(stage1, ds) && |blocks| == 1 && stage1 != []
    requires ds[|ds| - 1] < depths && Flagged(Flags(ds, depths), low) && low < depths
    ensures var before := stage1 + Flatten(blocks[..0]);
      before != [] && before[|before| - 1].src != Depth(low, 0, depths)
  {
    FlattenNone();
    LastSweptNotLowest(ds, depths, low);
    DepthOfFirst(low, depths);
    assert IsSweep(stage1[|ds| - 1], ds[|ds| - 1]);
    hide Flags, Flagged, Sweeps, Flatten, Depth;
    assert blocks[..0] == [];
    assert stage1 + [] == stage1;
  }

  lemma DepthOfFirst(low: nat, depths: nat)
    requires low < depths
    ensures Depth(low, 0, depths) == low
  {}

  lemma InLaterBlock(fs: seq<Block>, j: nat, e: Entry) returns (m: nat)
    requires j < |fs| && e in Flatten(fs[j + 1..])
    ensures j < m < |fs| && e in fs[m]
  {
    FlattenMembers(fs[j + 1..], e);
    hide Flatten;
    var i :| 0 <= i < |fs[j + 1..]| && e in fs[j + 1..][i];
    m := j + 1 + i;
  }

  lemma FinalBlockFrom(blocks: seq<Block>, m: nat, externals: seq<Dest>, k: nat, src: nat, e: Entry)
    requires m < |blocks| && k <= |blocks| && k <= |externals|
    requires Drafted(blocks[m], src) && e in FinalBlock(blocks, m, externals, k)
    ensures e.src == src
  {}

  lemma LaterBlocksDiffer(blocks: seq<Block>, low: nat, depths: nat, externals: seq<Dest>, k: nat, e: Entry)
    requires depths > 0 && AllDrafted(blocks, low, depths)
    requires k < |blocks| && k < |externals| && k < depths
    requires var j := |blocks| - 1 - k; e in Flatten(FinalBlocks(blocks, externals, k)[j + 1..])
    ensures e.src != Depth(low, |blocks| - 1 - k, depths)
  {
    var j, fs := |blocks| - 1 - k, FinalBlocks(blocks, externals, k);
    hide Flatten, Depth, FinalBlock, Drafted, FinalBlocks;
    var m := InLaterBlock(fs, j, e);
    FinalBlockFrom(blocks, m, externals, k, Depth(low, m, depths), e);
    DepthsDiffer(low, j, m, depths);
  }

  lemma LaterNoneFrom(blocks: seq<Block>, low: nat, depths: nat, externals: seq<Dest>, k: nat)
    requires depths > 0 && AllDrafted(blocks, low, depths)
    requires k < |blocks| && k < |externals| && k < depths
    ensures var j := |blocks| - 1 - k;
      NoneFrom(Flatten(FinalBlocks(blocks, externals, k)[j + 1..]), Depth(low, j, depths))
  {
    hide Flatten, Depth, FinalBlocks, AllDrafted;
    var j := |blocks| - 1 - k;
    var rest := Flatten(FinalBlocks(blocks, externals, k)[j + 1..]);
    forall i | 0 <= i < |rest| ensures rest[i].src != Depth(low, j, depths) {
      LaterBlocksDiffer(blocks, low, depths, externals, k, rest[i]);
    }
  }

  /** After `k` destinations, the schedule around the block that gets the next one. */
  lemma AroundBlock(stage1: seq<Entry>, blocks: seq<Block>, low: nat, depths: nat, externals: seq<Dest>, k: nat)
    requires depths > 0 && AllDrafted(blocks, low, depths)
    requires k < |blocks| && k < |externals| && k < depths
    ensures var j, fs := |blocks| - 1 - k, FinalBlocks(blocks, externals, k);
      && stage1 + Flatten(fs) == stage1 + Flatten(fs[..j]) + blocks[j] + Flatten(fs[j + 1..])
      && AllFrom(blocks[j], Depth(low, j, depths))
      && NoneFrom(Flatten(fs[j + 1..]), Depth(low, j, depths))
  {
    var j, fs := |blocks| - 1 - k, FinalBlocks(blocks, externals, k);
    LaterNoneFrom(blocks, low, depths, externals, k);
    FlattenAt(fs, j);
    hide Flatten, Depth, NoneFrom, FinalBlocks;
    assert Drafted(blocks[j], Depth(low, j, depths));
    assert fs[j] == blocks[j];
    Around(stage1, Flatten(fs[..j]), blocks[j], Flatten(fs[j + 1..]));
  }

  lemma Around(p: seq<Entry>, a: seq<Entry>, b: seq<Entry>, c: seq<Entry>)
    ensures p + (a + b + c) == p + a + b + c
  {}

  /** The last entry of block `j` is the one that `FindLast` finds. */
  lemma FoundAt(stage1: seq<Entry>, blocks: seq<Block>, low: nat, depths: nat, externals: seq<Dest>, k: nat,
                found: Option<nat>)
    requires depths > 0 && AllDrafted(blocks, low, depths)
    requires k < |blocks| && k < |externals| && k < depths
    requires IsLastFrom(stage1 + Flatten(FinalBlocks(blocks, externals, k)), Depth(low, |blocks| - 1 - k, depths),
                        found)
    ensures var j, fs := |blocks| - 1 - k, FinalBlocks(blocks, externals, k);
      found == Some(|stage1 + Flatten(fs[..j])| + |blocks[j]| - 1)
  {
    var j, fs := |blocks| - 1 - k, FinalBlocks(blocks, externals, k);
    hide *;
    AroundBlock(stage1, blocks, low, depths, externals, k);
    var txs, a, c := stage1 + Flatten(fs), stage1 + Flatten(fs[..j]), Flatten(fs[j + 1..]);
    FoundInParts(txs, a, blocks[j], c, Depth(low, j, depths), found);
  }

  lemma FoundInParts(txs: seq<Entry>, a: seq<Entry>, b: Block, c: seq<Entry>, src: nat, found: Option<nat>)
    requires txs == a + b + c && AllFrom(b, src) && NoneFrom(c, src) && IsLastFrom(txs, src, found)
    ensures found == Some(|a| + |b| - 1)
  {
    hide *;
    FoundAfter(a, b, c, src, found);
  }

  lemma FoundAfter(a: seq<Entry>, b: Block, c: seq<Entry>, src: nat, found: Option<nat>)
    requires AllFrom(b, src) && NoneFrom(c, src) && IsLastFrom(a + b + c, src, found)
    ensures found == Some(|a| + |b| - 1)
  {
    assert (a + b + c)[|a| + |b| - 1] == Last(b);
    if found.Some? {
      LastOfBlock(a, b, c, src, found.value);
    }
  }

  lemma GivesFirst(stage1: seq<Entry>, blocks: seq<Block>, externals: seq<Dest>)
    requires blocks != [] && externals != []
    ensures var n := |blocks| - 1;
      stage1 + Flatten(FinalBlocks(blocks, externals, 1))
      == stage1 + Flatten(blocks[..n]) + [Last(WithLastDest(blocks[n], externals[0]))]
  {
    var n := |blocks| - 1;
    assert FinalBlocks(blocks, externals, 1)[..n] == blocks[..n];
  }

  lemma GivesNext(stage1: seq<Entry>, blocks: seq<Block>, low: nat, depths: nat,
                                     externals: seq<Dest>, k: nat)
    requires depths > 0 && AllDrafted(blocks, low, depths)
    requires 0 < k < |blocks| && k < |externals| && k < depths
    ensures var j, fs := |blocks| - 1 - k, FinalBlocks(blocks, externals, k);
      var txs, i := stage1 + Flatten(fs), |stage1 + Flatten(fs[..j])| + |blocks[j]| - 1;
      && i < |txs|
      && txs[i := txs[i].(dest := externals[k])] == stage1 + Flatten(FinalBlocks(blocks, externals, k + 1))
  {
    hide *;
    AroundBlock(stage1, blocks, low, depths, externals, k);
    OneBlockChanges(blocks, externals, k);
    var j, fs := |blocks| - 1 - k, FinalBlocks(blocks, externals, k);
    var txs, txs' := stage1 + Flatten(fs), stage1 + Flatten(FinalBlocks(blocks, externals, k + 1));
    SetAround(stage1, Flatten(fs[..j]), blocks[j], Flatten(fs[j + 1..]), externals[k], txs, txs');
  }

  lemma OneBlockChanges(blocks: seq<Block>, externals: seq<Dest>, k: nat)
    requires 0 < k < |blocks| && k < |externals|
    ensures var j, fs := |blocks| - 1 - k, FinalBlocks(blocks, externals, k);
      Flatten(FinalBlocks(blocks, externals, k + 1))
      == Flatten(fs[..j]) + WithLastDest(blocks[j], externals[k]) + Flatten(fs[j + 1..])
  {
    hide *;
    OnlyOneChanges(blocks, externals, k);
    FlattenAt(FinalBlocks(blocks, externals, k + 1), |blocks| - 1 - k);
  }

  lemma SetAround(p: seq<Entry>, a: seq<Entry>, b: Block, c: seq<Entry>, d: Dest, txs: seq<Entry>, txs': seq<Entry>)
    requires txs == p + a + b + c && txs' == p + (a + WithLastDest(b, d) + c)
    ensures var i := |p + a| + |b| - 1; i < |txs| && txs[i := txs[i].(dest := d)] == txs'
  {
    hide *;
    SetInBlock(p + a, b, c, d);
    Around(p, a, WithLastDest(b, d), c);
  }

  lemma OnlyOneChanges(blocks: seq<Block>, externals: seq<Dest>, k: nat)
    requires 0 < k < |blocks| && k < |externals|
    ensures var j := |blocks| - 1 - k;
      var fs, fs' := FinalBlocks(blocks, externals, k), FinalBlocks(blocks, externals, k + 1);
      fs'[..j] == fs[..j] && fs'[j + 1..] == fs[j + 1..] && fs'[j] == WithLastDest(blocks[j], externals[k])
  {}

  /** Give the last `addrcount` blocks their destinations, from the last one backwards. */
  method GiveDestinations(txs: seq<Entry>, low: nat, depths: nat, o: Options, destaddrs: seq<string>, ghost p: Plan)
    returns (r: seq<Entry>)
    requires ValidOptions(o, depths) && |p.blocks| == o.mixdepthcount && low == p.low < depths
    requires txs == p.stage1 + Flatten(p.blocks)
    requires Sweeps(p.stage1, p.ds) && AllDrafted(p.blocks, low, depths)
    requires p.ds != [] ==> p.ds[|p.ds| - 1] < depths && Flagged(Flags(p.ds, depths), low)
    ensures r == Destined(p, Externals(o.addrcount, destaddrs), depths, o.addrcount)
  {
    var externals := Externals(o.addrcount, destaddrs);
    r := txs;
    NoneExternal(p.blocks, externals);
    hide Flatten, Flags, Flagged, Sweeps, Depth, AllDrafted, Externals, WithLastDest, FinalBlocks, FinalShape;
    hide RemoveAll, LastFrom;
    for offset := 0 to o.addrcount
      invariant r == Destined(p, externals, depths, offset)
    {
      var srcmix := Depth(low, o.mixdepthcount - 1 - offset, depths);
      var found := FindLast(r, srcmix);
      if offset == 0 {
        FoundAt(p.stage1, p.blocks, low, depths, externals, offset, found);
      }
      if found.Some? {
        assert found.value < |r|;
        r := r[found.value := r[found.value].(dest := externals[offset])];
      }
      if offset == 0 {
        ghost var n := |p.blocks| - 1;
        ghost var before, last := p.stage1 + Flatten(p.blocks[..n]), WithLastDest(p.blocks[n], externals[0]);
        LastGiven(p.stage1, p.blocks, externals[0]);
        LastBlockShape(p.stage1, p.ds, p.blocks, low, depths, externals[0]);
        r := DropInternals(r, before, last);
      }
    }
  }

  /** The drafted schedule before its last block, and that block with its destination. */
  function BeforeLast(p: Plan): seq<Entry>
    requires p.blocks != []
  {
    p.stage1 + Flatten(p.blocks[..|p.blocks| - 1])
  }

  function LastWith(p: Plan, d: Dest): Block
    requires p.blocks != []
  {
    WithLastDest(p.blocks[|p.blocks| - 1], d)
  }

  lemma DestinedFirst(p: Plan, externals: seq<Dest>, depths: nat)
    requires p.blocks != [] && externals != [] && depths > 0
    ensures var b := LastWith(p, externals[0]);
      Destined(p, externals, depths, 1) == RemoveAll(BeforeLast(p) + b, Reverse(b[..|b| - 1]))
  {
    hide RemoveAll, Flatten, WithLastDest;
  }

  lemma DestinedNext(p: Plan, externals: seq<Dest>, depths: nat, k: nat)
    requires 1 < k <= |p.blocks| && k <= |externals| && depths > 0
    ensures Destined(p, externals, depths, k)
      == GiveLast(Destined(p, externals, depths, k - 1), Depth(p.low, |p.blocks| - k, depths), externals[k - 1])
  {
    hide GiveLast, Depth;
  }

  /** The last entry is the one that the last block is to keep. */
  lemma FinalFirst(p: Plan, externals: seq<Dest>)
    requires p.blocks != [] && externals != []
    ensures p.stage1 + Flatten(FinalBlocks(p.blocks, externals, 1)) == BeforeLast(p) + [Last(LastWith(p, externals[0]))]
  {
    GivesFirst(p.stage1, p.blocks, externals);
    hide Flatten, FinalBlocks;
  }

  lemma Removable(p: Plan, d: Dest, e: Entry)
    requires p.blocks != []
    ensures var b, last := LastWith(p, d), p.blocks[|p.blocks| - 1];
      e in b[..|b| - 1] <==> e in last[..|last| - 1]
  {
    SameInternals(p.blocks[|p.blocks| - 1], d);
  }

  lemma FirstDestined(p: Plan, externals: seq<Dest>, depths: nat)
    requires p.blocks != [] && externals != [] && depths > 0 && Distinguishable(p)
    ensures Destined(p, externals, depths, 1) == p.stage1 + Flatten(FinalBlocks(p.blocks, externals, 1))
  {
    var b := LastWith(p, externals[0]);
    forall e | e in b[..|b| - 1] ensures e !in BeforeLast(p) {
      Removable(p, externals[0], e);
    }
    hide *;
    OnlySweepKept(BeforeLast(p), b);
    DestinedFirst(p, externals, depths);
    FinalFirst(p, externals);
  }

  lemma GivesLast(txs: seq<Entry>, src: nat, d: Dest, i: nat)
    requires LastFrom(txs, src) == Some(i) && i < |txs|
    ensures GiveLast(txs, src, d) == txs[i := txs[i].(dest := d)]
  {
    hide LastFrom;
  }

  /** Without mix-ups, the destinations lead to the finished blocks. */
  lemma {:induction false} DestinedIsFinal(p: Plan, externals: seq<Dest>, depths: nat, k: nat)
    requires 0 < k <= |p.blocks| && k <= |externals| && k <= depths
    requires AllDrafted(p.blocks, p.low, depths) && Distinguishable(p)
    ensures Destined(p, externals, depths, k) == p.stage1 + Flatten(FinalBlocks(p.blocks, externals, k))
  {
    hide *;
    if k == 1 {
      FirstDestined(p, externals, depths);
    } else {
      DestinedIsFinal(p, externals, depths, k - 1);
      DestinedNext(p, externals, depths, k);
      var txs, d := p.stage1 + Flatten(FinalBlocks(p.blocks, externals, k - 1)), Depth(p.low, |p.blocks| - k, depths);
      FoundAt(p.stage1, p.blocks, p.low, depths, externals, k - 1, LastFrom(txs, d));
      GivesNext(p.stage1, p.blocks, p.low, depths, externals, k - 1);
      GivesLast(txs, d, externals[k - 1], LastFrom(txs, d).value);
    }
  }

  // ---------- mix-ups ----------

  ghost predicate SameSources(s: seq<Entry>, t: seq<Entry>) {
    |s| == |t| && forall i :: 0 <= i < |s| ==> s[i].src == t[i].src
  }

  /** Removing entries other than `z` from around it: if one of them occurs before it, `z` moves
      forward. */
  lemma {:induction false} RemoveAround(a: seq<Entry>, z: Entry, c: seq<Entry>, xs: seq<Entry>)
    returns (a': seq<Entry>, c': seq<Entry>)
    requires z !in xs
    ensures RemoveAll(a + [z] + c, xs) == a' + [z] + c' && |a'| <= |a|
    ensures (exists x :: x in xs && x in a) ==> |a'| < |a|
    ensures forall y :: y in c' ==> y in c
    decreases |xs|
  {
    hide RemoveFirst;
    if xs == [] {
      return a, c;
    }
    var x := xs[0];
    assert a + [z] + c == a + ([z] + c) && a + [z] + c == (a + [z]) + c;
    if x in a {
      RemoveFirstBefore(a, [z] + c, x);
      var fewer := RemoveFirst(a, x);
      assert |multiset(fewer)| == |multiset(a)| - 1;
      assert RemoveFirst(a + [z] + c, x) == fewer + [z] + c;
      a', c' := RemoveAround(fewer, z, c, xs[1..]);
    } else {
      RemoveFirstAfter(a + [z], c, x);
      FewerMembers(c, x);
      a', c' := RemoveAround(a, z, RemoveFirst(c, x), xs[1..]);
      assert xs == [x] + xs[1..];
    }
  }

  lemma {:induction false} FewerMembers(s: seq<Entry>, x: Entry)
    ensures forall y :: y in RemoveFirst(s, x) ==> y in s
  {
    if s != [] && s[0] != x {
      FewerMembers(s[1..], x);
    }
  }

  /** If an entry of the final block equals an earlier one, the entry before that block is no
      longer where it should be. */
  lemma MixedUp(before: seq<Entry>, b: Block, e: Entry)
    requires FinalShape(before, b) && e in b[..|b| - 1] && e in before
    ensures !SameSources(RemoveAll(before + b, Reverse(b[..|b| - 1])), before + [Last(b)])
  {
    var n, mid := |before| - 1, b[..|b| - 1];
    var a, z, xs := before[..n], before[n], Reverse(mid);
    assert before == a + [z];
    assert z !in xs;
    ReverseSame(mid);
    assert e in multiset(xs);
    assert e in a;
    var a', c' := RemoveAround(a, z, b, xs);
    hide RemoveAll, Reverse;
    var r, t := RemoveAll(before + b, xs), before + [Last(b)];
    if |r| == |t| {
      assert r == a' + [z] + c';
      assert r[n] == c'[n - |a'| - 1] && r[n] in c';
      assert t[n] == z && r[n].src != t[n].src;
    }
  }

  /** Destinations given later do not move anything. */
  lemma {:induction false} SourcesStay(p: Plan, externals: seq<Dest>, depths: nat, k: nat)
    requires 0 < k <= |p.blocks| && k <= |externals| && k <= depths && AllDrafted(p.blocks, p.low, depths)
    ensures SameSources(Destined(p, externals, depths, k), Destined(p, externals, depths, 1))
    ensures SameSources(p.stage1 + Flatten(FinalBlocks(p.blocks, externals, k)),
                        p.stage1 + Flatten(FinalBlocks(p.blocks, externals, 1)))
  {
    hide Flatten, Depth, AllDrafted, FinalBlocks, RemoveAll, LastFrom;
    if k > 1 {
      SourcesStay(p, externals, depths, k - 1);
      GivesNext(p.stage1, p.blocks, p.low, depths, externals, k - 1);
    }
  }

  /** The schedule that a plan leads to is the one described by its finished blocks if and only
      if no entry to be removed equals an earlier one. */
  lemma ScheduleOfPlanIff(p: Plan, balances: seq<nat>, o: Options, destaddrs: seq<string>,
                                             rnd: Random)
    requires |balances| >= 2 && ValidOptions(o, |balances|) && PlanFits(p, balances, o, rnd)
    ensures Destined(p, Externals(o.addrcount, destaddrs), |balances|, o.addrcount) == FinalSchedule(p, o, destaddrs)
      <==> Distinguishable(p)
  {
    var externals := Externals(o.addrcount, destaddrs);
    assert externals[0] != Internal;
    hide Flatten, Depth, AllDrafted, FinalBlocks, Destined, Externals, Flags, Flagged, Sweeps, SameSources, Funded;
    if Distinguishable(p) {
      DestinedIsFinal(p, externals, |balances|, o.addrcount);
    } else {
      SomeMixedUp(p, balances, externals);
      SourcesStay(p, externals, |balances|, o.addrcount);
      SameSourcesChain(Destined(p, externals, |balances|, o.addrcount), Destined(p, externals, |balances|, 1),
                       FinalSchedule(p, o, destaddrs), p.stage1 + Flatten(FinalBlocks(p.blocks, externals, 1)));
    }
  }

  lemma SameSourcesChain(s: seq<Entry>, s1: seq<Entry>, t: seq<Entry>, t1: seq<Entry>)
    requires SameSources(s, s1) && SameSources(t, t1) && !SameSources(s1, t1)
    ensures s != t
  {}

  lemma PlanShape(p: Plan, balances: seq<nat>, d: Dest)
    requires |balances| >= 2 && p.blocks != [] && d != Internal
    requires Sweeps(p.stage1, p.ds) && Funded(p.ds, balances) && HighestFirst(p.ds)
    requires p.low < |balances| && IsLowest(Flags(p.ds, |balances|), p.low)
    requires AllDrafted(p.blocks, p.low, |balances|)
    ensures FinalShape(BeforeLast(p), LastWith(p, d))
  {
    hide Flatten, AllDrafted, Flags, Flagged, Sweeps, FinalShape, WithLastDest;
    LastBlockShape(p.stage1, p.ds, p.blocks, p.low, |balances|, d);
  }

  lemma Undistinguished(p: Plan) returns (e: Entry)
    requires !Distinguishable(p)
    ensures p.blocks != [] && e in BeforeLast(p)
    ensures var last := p.blocks[|p.blocks| - 1]; e in last[..|last| - 1]
  {
    hide Flatten;
    var n := |p.blocks| - 1;
    e :| e in p.blocks[n][..|p.blocks[n]| - 1] && e in p.stage1 + Flatten(p.blocks[..n]);
  }

  lemma {:induction false} SomeMixedUp(p: Plan, balances: seq<nat>, externals: seq<Dest>)
    requires |balances| >= 2 && p.blocks != [] && externals != [] && externals[0] != Internal
    requires Sweeps(p.stage1, p.ds) && Funded(p.ds, balances) && HighestFirst(p.ds)
    requires p.low < |balances| && IsLowest(Flags(p.ds, |balances|), p.low)
    requires AllDrafted(p.blocks, p.low, |balances|) && !Distinguishable(p)
    ensures !SameSources(Destined(p, externals, |balances|, 1), p.stage1 + Flatten(FinalBlocks(p.blocks, externals, 1)))
  {
    hide *;
    var e := Undistinguished(p);
    PlanShape(p, balances, externals[0]);
    DestinedFirst(p, externals, |balances|);
    FinalFirst(p, externals);
    Removable(p, externals[0], e);
    MixedUp(BeforeLast(p), LastWith(p, externals[0]), e);
  }

  lemma {:induction false} LastGiven(stage1: seq<Entry>, blocks: seq<Block>, d: Dest)
    requires blocks != []
    ensures var n := |blocks| - 1;
      var txs, i := stage1 + Flatten(blocks), |stage1 + Flatten(blocks[..n])| + |blocks[n]| - 1;
      i < |txs| && txs[i := txs[i].(dest := d)] == stage1 + Flatten(blocks[..n]) + WithLastDest(blocks[n], d)
  {
    var n := |blocks| - 1;
    FlattenSnoc(blocks[..n], blocks[n]);
    assert blocks == blocks[..n] + [blocks[n]];
    hide Flatten;
    SetInBlock(stage1 + Flatten(blocks[..n]), blocks[n], [], d);
    assert stage1 + Flatten(blocks) == stage1 + Flatten(blocks[..n]) + blocks[n] + [];
  }

  lemma SameInternals(b: Block, d: Dest)
    ensures WithLastDest(b, d)[..|b| - 1] == b[..|b| - 1] && |WithLastDest(b, d)| == |b|
  {}

  /** Plan a schedule: sweep every funded mixdepth, then spend `mixdepthcount` mixdepths in
      random fractions, the last `addrcount` of them ending in an external payment. */
  method GetTumbleSchedule(o: Options, destaddrs: seq<string>, balances: seq<nat>, rnd: Random)
    returns (r: Result, ghost p: Plan)
    requires ValidOptions(o, |balances|) && RandomFits(o, rnd)
    ensures r.NoFunds? <==> AllEmpty(balances)
    ensures r.OutOfDraws? ==> exists m: nat :: m < o.mixdepthcount && NoneAcceptable(rnd, m)
    ensures r.Planned? ==> PlanFits(p, balances, o, rnd)
    ensures r.Planned? ==> r.schedule == Destined(p, Externals(o.addrcount, destaddrs), |balances|, o.addrcount)
    ensures r.Planned? ==> (r.schedule == FinalSchedule(p, o, destaddrs) <==> Distinguishable(p))
  {
    var stage1, flags, ds := PlanSweeps(balances, o, rnd);
    FlagsInRange(ds, |balances|);
    var lowest := LowestFlagged(flags, |balances|);
    p := Plan([], [], 0, []);
    NothingFlagged(balances, ds);
    hide Flags, Flagged, Sweeps, RandomFits, HighestFirst, StageOneDrawn, Funded;
    hide Drafted, FromDraws, WithExtras, TxCount, Depth, Destined, Distinguishable, FinalSchedule, Externals, Flatten;
    if lowest.None? {
      return NoFunds, p;
    }
    var low := lowest.value;
    var txs, blocks := DraftBlocks(stage1, low, |balances|, o, rnd);
    if txs.None? {
      return OutOfDraws, p;
    }
    p := Plan(stage1, ds, low, blocks);
    var schedule := GiveDestinations(txs.value, low, |balances|, o, destaddrs, p);
    ScheduleOfPlanIff(p, balances, o, destaddrs, rnd);
    r := Planned(schedule);
  }

  lemma NothingFlagged(balances: seq<nat>, ds: seq<nat>)
    requires |balances| >= 2 && Funded(ds, balances)
    ensures AllEmpty(balances) <==> ds == []
    ensures if AllEmpty(balances) then forall d :: !Flagged(Flags(ds, |balances|), d)
            else exists d :: Flagged(Flags(ds, |balances|), d)
  {
    if ds == [] {
      forall d | 0 <= d < |balances| ensures balances[d] == 0 {
        assert d !in ds;
      }
      assert Flags(ds, |balances|) == map[];
    } else {
      SweptMeansFlagged(ds, |balances|);
      assert ds[0] in ds && balances[ds[0]] > 0;
    }
  }

  // ---------- what a generated schedule does ----------

  /** The destinations come in the order given, then those still to be asked for; addresses
      beyond `addrcount` are dropped from the front. */
  function Requested(addrcount: nat, destaddrs: seq<string>): seq<Dest> {
    var spare := if |destaddrs| > addrcount then |destaddrs| - addrcount else 0;
    Addresses(destaddrs[spare..]) + Asks(addrcount - |destaddrs|)
  }

  lemma ExternalsInOrder(addrcount: nat, destaddrs: seq<string>)
    ensures Reverse(Externals(addrcount, destaddrs)[..addrcount]) == Requested(addrcount, destaddrs)
  {
    var e := Externals(addrcount, destaddrs);
    var r, q := Reverse(e[..addrcount]), Requested(addrcount, destaddrs);
    forall i | 0 <= i < addrcount ensures r[i] == q[i] {
      assert r[i] == e[addrcount - 1 - i];
      ExternalAt(addrcount, destaddrs, i);
    }
  }

  lemma ExternalAt(addrcount: nat, destaddrs: seq<string>, i: nat)
    requires i < addrcount
    ensures |Requested(addrcount, destaddrs)| == addrcount
    ensures Externals(addrcount, destaddrs)[addrcount - 1 - i] == Requested(addrcount, destaddrs)[i]
  {
    var asks, at := |Asks(addrcount - |destaddrs|)|, addrcount - 1 - i;
    assert at >= asks ==>
      Externals(addrcount, destaddrs)[at] == Reverse(Addresses(destaddrs))[at - asks];
    hide Reverse, Addresses, Asks;
  }

  /** Executing a generated schedule, for any balances and whatever amounts the non-sweep
      entries really send: no coins are lost; every mixdepth covered by stage 2 ends empty and
      the others are as stage 1 left them; the requested destinations are paid, each once and in
      order; and they receive everything exactly if stage 2 covers all mixdepths that hold
      coins after stage 1. */
  lemma ScheduleOutcome(p: Plan, o: Options, destaddrs: seq<string>, w: Wallet, rnd: Random,
                                           wanted: seq<nat>)
    requires |w.balances| >= 2 && w.paid == [] && ValidOptions(o, |w.balances|)
    requires PlanFits(p, w.balances, o, rnd)
    requires |wanted| == |FinalSchedule(p, o, destaddrs)|
    ensures var n := |w.balances|;
      var w1, w2 := Run(w, p.stage1, wanted[..|p.stage1|]), Run(w, FinalSchedule(p, o, destaddrs), wanted);
      && Total(w2) == Total(w)
      && Dests(w2.paid) == Requested(o.addrcount, destaddrs)
      && (forall d :: 0 <= d < n ==>
            w2.balances[d] == if Covered(p.low, o.mixdepthcount, d, n) then 0 else w1.balances[d])
      && (SumPaid(w2.paid) == SumNat(w.balances)
          <==> forall d :: 0 <= d < n && w1.balances[d] > 0 ==> Covered(p.low, o.mixdepthcount, d, n))
  {
    var externals := Externals(o.addrcount, destaddrs);
    ExternalsInOrder(o.addrcount, destaddrs);
    hide Run, Flatten, FinalBlocks, AllDrafted, Sweeps, Funded, Flags, Total, SumPaid, SumNat;
    hide Covered, Externals, Requested;
    TumbleEmptiesWallet(w, p.stage1, p.ds, p.blocks, p.low, externals, o.addrcount, wanted);
    PaysEverythingIff(w, p.stage1, p.ds, p.blocks, p.low, externals, o.addrcount, wanted);
    FlagsTrue(w, p.stage1, p.ds, wanted[..|p.stage1|]);
  }

  /** With at least as many mixdepths to visit as the wallet has, every coin reaches a
      destination. */
  lemma EverythingPaid(p: Plan, o: Options, destaddrs: seq<string>, w: Wallet, rnd: Random,
                                          wanted: seq<nat>)
    requires |w.balances| >= 2 && w.paid == [] && ValidOptions(o, |w.balances|)
    requires PlanFits(p, w.balances, o, rnd) && o.mixdepthcount >= |w.balances|
    requires |wanted| == |FinalSchedule(p, o, destaddrs)|
    ensures SumPaid(Run(w, FinalSchedule(p, o, destaddrs), wanted).paid) == SumNat(w.balances)
  {
    ScheduleOutcome(p, o, destaddrs, w, rnd, wanted);
    forall d | 0 <= d < |w.balances| ensures Covered(p.low, o.mixdepthcount, d, |w.balances|) {
      EverythingCovered(p.low, o.mixdepthcount, d, |w.balances|);
    }
  }

  ghost predicate NoZeroFraction(b: Block) {
    forall i :: 0 <= i < |b| - 1 ==> b[i].amount != 0.0
  }

  /** Two different entries are never mixed up when no mixdepth is visited twice and no
      fraction of the last block is zero. */
  lemma DistinctDepthsDistinguish(p: Plan, balances: seq<nat>, o: Options, rnd: Random)
    requires |balances| >= 2 && PlanFits(p, balances, o, rnd) && o.mixdepthcount <= |balances|
    requires p.blocks != [] ==> NoZeroFraction(p.blocks[|p.blocks| - 1])
    ensures Distinguishable(p)
  {
    if p.blocks != [] {
      var n := |p.blocks| - 1;
      var b := p.blocks[n];
      hide Depth, Flatten, FromDraws, WithExtras, Funded, IsLowest, TxCount;
      forall e | e in b[..|b| - 1] ensures e !in p.stage1 + Flatten(p.blocks[..n]) {
        NotEarlier(p, balances, e);
      }
    }
  }

  lemma NotEarlier(p: Plan, balances: seq<nat>, e: Entry)
    requires |balances| >= 2 && Sweeps(p.stage1, p.ds) && AllDrafted(p.blocks, p.low, |balances|)
    requires 0 < |p.blocks| <= |balances| && e in p.blocks[|p.blocks| - 1] && e.amount != 0.0
    ensures e !in p.stage1 + Flatten(p.blocks[..|p.blocks| - 1])
  {
    hide Depth, Flatten;
    var n := |p.blocks| - 1;
    assert Drafted(p.blocks[n], Depth(p.low, n, |balances|));
    FlattenMembers(p.blocks[..n], e);
    if m :| 0 <= m < n && e in p.blocks[..n][m] {
      assert Drafted(p.blocks[m], Depth(p.low, m, |balances|));
      DepthsDiffer(p.low, m, n, |balances|);
      assert false;
    }
    forall i | 0 <= i < |p.stage1| ensures p.stage1[i] != e {
      assert IsSweep(p.stage1[i], p.ds[i]);
    }
  }
}
