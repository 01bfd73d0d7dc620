/** What executing a tumbler schedule does to the wallet. */
module TumbleRun {
  // The amount field follows the schedule convention (scripts/README.md): zero sweeps the whole
  // mixdepth, INTERNAL pays the next mixdepth, wrapping around. Fees are ignored. What a
  // non-sweep entry really sends depends on rounding and minimum amounts, so it is left open:
  // `wanted` is an arbitrary amount per entry, limited only by the balance.

  import opened Sequences
  import opened Residues
  import opened TumblePlan

  datatype Payment = Payment(dest: Dest, amount: nat)

  datatype Wallet = Wallet(balances: seq<nat>, paid: seq<Payment>)

  function NextDepth(d: nat, depths: nat): (n: nat)
    requires depths > 0
    ensures n < depths
  {
    Mod(d + 1, depths)
  }

  function Sent(w: Wallet, e: Entry, wanted: nat): (a: nat)
    requires e.src < |w.balances|
    ensures a <= w.balances[e.src]
  {
    if e.amount == 0.0 || wanted > w.balances[e.src] then w.balances[e.src] else wanted
  }

  function Exec(w: Wallet, e: Entry, wanted: nat): (w': Wallet)
    ensures |w'.balances| == |w.balances|
  {
    if e.src >= |w.balances| then w
    else
      var a := Sent(w, e, wanted);
      var rest := w.balances[e.src := w.balances[e.src] - a];
      if e.dest == Internal then
        var n := NextDepth(e.src, |w.balances|);
        w.(balances := rest[n := rest[n] + a])
      else Wallet(rest, w.paid + [Payment(e.dest, a)])
  }

  function Run(w: Wallet, s: seq<Entry>, wanted: seq<nat>): (w': Wallet)
    requires |wanted| == |s|
    ensures |w'.balances| == |w.balances|
  {
    if s == [] then w
    else
      var n := |s| - 1;
      Exec(Run(w, s[..n], wanted[..n]), s[n], wanted[n])
  }

  lemma {:induction false} RunConcat(w: Wallet, a: seq<Entry>, b: seq<Entry>, wanted: seq<nat>)
    requires |wanted| == |a| + |b|
    ensures Run(w, a + b, wanted) == Run(Run(w, a, wanted[..|a|]), b, wanted[|a|..])
    decreases |b|
  {
    hide Exec;
    if b == [] {
      assert a + b == a && wanted[..|a|] == wanted;
    } else {
      var n := |b| - 1;
      var all := a + b;
      assert all[..|all| - 1] == a + b[..n];
      assert wanted[..|all| - 1][..|a|] == wanted[..|a|];
      assert wanted[..|all| - 1][|a|..] == wanted[|a|..][..n];
      RunConcat(w, a, b[..n], wanted[..|all| - 1]);
    }
  }

  // ---------- conservation ----------

  function SumPaid(paid: seq<Payment>): nat {
    if paid == [] then 0 else SumPaid(paid[..|paid| - 1]) + paid[|paid| - 1].amount
  }

  function Total(w: Wallet): nat {
    SumNat(w.balances) + SumPaid(w.paid)
  }

  lemma ExecConserves(w: Wallet, e: Entry, wanted: nat)
    ensures Total(Exec(w, e, wanted)) == Total(w)
  {
    if e.src < |w.balances| {
      var a := Sent(w, e, wanted);
      var rest := w.balances[e.src := w.balances[e.src] - a];
      SumNatUpdate(w.balances, e.src, w.balances[e.src] - a);
      if e.dest == Internal {
        var n := NextDepth(e.src, |w.balances|);
        SumNatUpdate(rest, n, rest[n] + a);
      } else {
        var paid := w.paid + [Payment(e.dest, a)];
        assert paid[..|paid| - 1] == w.paid;
      }
    }
  }

  /** Executing any schedule neither creates nor destroys coins. */
  lemma {:induction false} RunConserves(w: Wallet, s: seq<Entry>, wanted: seq<nat>)
    requires |wanted| == |s|
    ensures Total(Run(w, s, wanted)) == Total(w)
  {
    hide Exec, Total;
    if s != [] {
      var n := |s| - 1;
      RunConserves(w, s[..n], wanted[..n]);
      ExecConserves(Run(w, s[..n], wanted[..n]), s[n], wanted[n]);
    }
  }

  // ---------- stage 1 ----------

  ghost predicate IsSweep(e: Entry, d: nat) {
    e.src == d && e.amount == 0.0 && e.dest == Internal
  }

  ghost predicate Sweeps(stage1: seq<Entry>, ds: seq<nat>) {
    |stage1| == |ds| && forall i :: 0 <= i < |ds| ==> IsSweep(stage1[i], ds[i])
  }

  /** The bookkeeping of `nonempty_mixdepths`. */
  function Flags(ds: seq<nat>, depths: nat): map<nat, bool>
    requires depths > 0
  {
    if ds == [] then map[]
    else
      var d := ds[|ds| - 1];
      Flags(ds[..|ds| - 1], depths)[d := false][NextDepth(d, depths) := true]
  }

  /** The mixdepths to sweep: exactly the funded ones, each once. */
  ghost predicate Funded(ds: seq<nat>, balances: seq<nat>) {
    && (forall i :: 0 <= i < |ds| ==> ds[i] < |balances|)
    && (forall i, j :: 0 <= i < j < |ds| ==> ds[i] != ds[j])
    && (forall d :: 0 <= d < |balances| ==> (balances[d] > 0 <==> d in ds))
  }

  predicate Flagged(flags: map<nat, bool>, d: nat) {
    d in flags && flags[d]
  }

  lemma NextDiffers(d: nat, depths: nat)
    requires d < depths && depths >= 2
    ensures NextDepth(d, depths) != d
  {
    ModStep(d, 1, depths);
  }

  lemma SweepEffect(w: Wallet, e: Entry, d: nat, wanted: nat)
    requires IsSweep(e, d) && d < |w.balances| && |w.balances| >= 2
    ensures var w', n := Exec(w, e, wanted), NextDepth(d, |w.balances|);
      && w'.paid == w.paid && n != d
      && w'.balances == w.balances[d := 0][n := w.balances[n] + w.balances[d]]
  {
    NextDiffers(d, |w.balances|);
  }

  /** A mixdepth holds coins exactly if it is flagged, or was not touched yet and held coins
      from the start; and what is still to be swept holds coins. */
  ghost predicate FlagState(start: seq<nat>, now: seq<nat>, flags: map<nat, bool>, ds: seq<nat>, k: nat)
    requires k <= |ds|
  {
    && |now| == |start|
    && (forall d :: d in flags ==> d < |start|)
    && (forall d :: 0 <= d < |start| ==> (now[d] > 0 <==> if d in flags then flags[d] else start[d] > 0))
    && (forall i :: k <= i < |ds| ==> ds[i] < |start| && now[ds[i]] > 0)
  }

  lemma FlagStep(start: seq<nat>, now: seq<nat>, flags: map<nat, bool>, ds: seq<nat>, k: nat)
    requires k < |ds| && Funded(ds, start) && |start| >= 2 && FlagState(start, now, flags, ds, k)
    ensures var d, n := ds[k], NextDepth(ds[k], |start|);
      FlagState(start, now[d := 0][n := now[n] + now[d]], flags[d := false][n := true], ds, k + 1)
  {
    NextDiffers(ds[k], |start|);
    hide NextDepth;
  }

  lemma {:induction false} FlagsDuring(w: Wallet, stage1: seq<Entry>, ds: seq<nat>, wanted: seq<nat>, k: nat)
    requires Sweeps(stage1, ds) && Funded(ds, w.balances) && |w.balances| >= 2 && |wanted| == |ds| && k <= |ds|
    ensures var w' := Run(w, stage1[..k], wanted[..k]);
      w'.paid == w.paid && FlagState(w.balances, w'.balances, Flags(ds[..k], |w.balances|), ds, k)
  {
    hide Exec, NextDepth;
    if k > 0 {
      hide Run, Flags, FlagState;
      FlagsDuring(w, stage1, ds, wanted, k - 1);
      var u := Run(w, stage1[..k - 1], wanted[..k - 1]);
      RunLast(w, stage1, wanted, k);
      FlagsLast(ds, |w.balances|, k);
      FlagStep(w.balances, u.balances, Flags(ds[..k - 1], |w.balances|), ds, k - 1);
      SweepEffect(u, stage1[k - 1], ds[k - 1], wanted[k - 1]);
    }
  }

  lemma RunLast(w: Wallet, s: seq<Entry>, wanted: seq<nat>, k: nat)
    requires 0 < k <= |s| == |wanted|
    ensures Run(w, s[..k], wanted[..k]) == Exec(Run(w, s[..k - 1], wanted[..k - 1]), s[k - 1], wanted[k - 1])
  {
    assert s[..k][..k - 1] == s[..k - 1] && wanted[..k][..k - 1] == wanted[..k - 1];
  }

  lemma FlagsLast(ds: seq<nat>, depths: nat, k: nat)
    requires 0 < k <= |ds| && depths > 0
    ensures var d := ds[k - 1];
      Flags(ds[..k], depths) == Flags(ds[..k - 1], depths)[d := false][NextDepth(d, depths) := true]
  {
    assert ds[..k][..k - 1] == ds[..k - 1];
  }

  /** The flags after planning stage 1 name exactly the mixdepths that will hold coins after
      executing it, for any initial balances; nothing has left the wallet. */
  lemma {:induction false} FlagsTrue(w: Wallet, stage1: seq<Entry>, ds: seq<nat>, wanted: seq<nat>)
    requires Sweeps(stage1, ds) && Funded(ds, w.balances) && |w.balances| >= 2 && |wanted| == |stage1|
    ensures var w' := Run(w, stage1, wanted);
      && w'.paid == w.paid
      && forall d :: 0 <= d < |w.balances| ==> (w'.balances[d] > 0 <==> Flagged(Flags(ds, |w.balances|), d))
  {
    FlagsDuring(w, stage1, ds, wanted, |ds|);
    assert stage1[..|ds|] == stage1 && wanted[..|ds|] == wanted && ds[..|ds|] == ds;
    forall d | d in ds ensures d in Flags(ds, |w.balances|) {
      FlagsCover(ds, |w.balances|, d);
    }
  }

  lemma {:induction false} FlagsCover(ds: seq<nat>, depths: nat, d: nat)
    requires depths > 0 && d in ds
    ensures d in Flags(ds, depths)
  {
    var n := |ds| - 1;
    assert ds == ds[..n] + [ds[n]];
    if d != ds[n] {
      FlagsCover(ds[..n], depths, d);
    }
  }

  // ---------- stage 2 ----------

  /** Everything but the target and the source of a block is as before. */
  ghost predicate OnlyDepths(before: seq<nat>, after: seq<nat>, src: nat, next: nat) {
    |after| == |before| && forall x :: 0 <= x < |before| && x != src && x != next ==> after[x] == before[x]
  }

  lemma {:induction false} InternalEffect(w: Wallet, s: seq<Entry>, src: nat, wanted: seq<nat>)
    requires |wanted| == |s| && src < |w.balances| && |w.balances| >= 2
    requires forall i :: 0 <= i < |s| ==> s[i].src == src && s[i].dest == Internal
    ensures var w' := Run(w, s, wanted);
      w'.paid == w.paid && OnlyDepths(w.balances, w'.balances, src, NextDepth(src, |w.balances|))
  {
    if s != [] {
      InternalEffect(w, s[..|s| - 1], src, wanted[..|s| - 1]);
    }
  }

  /** A finished block: internal payments, then a sweep to `dest`. */
  ghost predicate Closes(b: Block, src: nat, dest: Dest) {
    && (forall i :: 0 <= i < |b| ==> b[i].src == src)
    && (forall i :: 0 <= i < |b| - 1 ==> b[i].dest == Internal)
    && Last(b).amount == 0.0 && Last(b).dest == dest
  }

  lemma {:induction false} BlockEffect(w: Wallet, b: Block, src: nat, dest: Dest, wanted: seq<nat>)
    requires Closes(b, src, dest) && |wanted| == |b| && src < |w.balances| && |w.balances| >= 2
    ensures var w', next := Run(w, b, wanted), NextDepth(src, |w.balances|);
      && w'.balances[src] == 0 && OnlyDepths(w.balances, w'.balances, src, next)
      && (|b| == 1 && dest != Internal ==> w'.balances == w.balances[src := 0])
      && (if dest == Internal then w'.paid == w.paid
          else |w'.paid| == |w.paid| + 1 && w'.paid[..|w.paid|] == w.paid && w'.paid[|w.paid|].dest == dest)
  {
    var n := |b| - 1;
    InternalEffect(w, b[..n], src, wanted[..n]);
    NextDiffers(src, |w.balances|);
    if n == 0 {
      assert b[..0] == [];
    }
  }

  function Dests(paid: seq<Payment>): (r: seq<Dest>)
    ensures |r| == |paid| && forall i :: 0 <= i < |r| ==> r[i] == paid[i].dest
  {
    seq(|paid|, i requires 0 <= i < |paid| => paid[i].dest)
  }

  /** The destination of the `m`-th finished block. */
  function DestOf(m: nat, c: nat, externals: seq<Dest>, k: nat): Dest
    requires m < c && k <= c && k <= |externals|
  {
    if m < c - k then Internal else externals[c - 1 - m]
  }

  lemma FinalBlockCloses(blocks: seq<Block>, low: nat, depths: nat, externals: seq<Dest>, k: nat, m: nat)
    requires depths > 0 && AllDrafted(blocks, low, depths) && m < |blocks|
    requires 0 < k <= |blocks| && k <= |externals|
    ensures Closes(FinalBlock(blocks, m, externals, k), Depth(low, m, depths), DestOf(m, |blocks|, externals, k))
    ensures m == |blocks| - 1 ==> |FinalBlock(blocks, m, externals, k)| == 1
  {
    assert Drafted(blocks[m], Depth(low, m, depths));
  }

  /** The external destinations reached after `n` of the `c` blocks, in order of payment. */
  function Reached(n: nat, c: nat, externals: seq<Dest>, k: nat): seq<Dest>
    requires n <= c && k <= c && k <= |externals|
  {
    if n <= c - k then [] else seq(n - (c - k), i requires 0 <= i < n - (c - k) => externals[k - 1 - i])
  }

  /** The wallet after `n` finished blocks. */
  ghost predicate AfterBlocks(w: Wallet, u: Wallet, low: nat, n: nat, c: nat, externals: seq<Dest>, k: nat)
    requires |w.balances| > 0 && n <= c && k <= c && k <= |externals|
  {
    && |u.balances| == |w.balances|
    && (forall j :: 0 <= j < n && (n == c || Depth(low, j, |w.balances|) != Depth(low, n, |w.balances|)) ==>
          u.balances[Depth(low, j, |w.balances|)] == 0)
    && (forall d :: 0 <= d < |w.balances| && (forall m :: 0 <= m < c ==> Depth(low, m, |w.balances|) != d) ==>
          u.balances[d] == w.balances[d])
    && Dests(u.paid) == Dests(w.paid) + Reached(n, c, externals, k)
  }

  lemma DepthNext(low: nat, m: nat, depths: nat)
    requires depths >= 2
    ensures NextDepth(Depth(low, m, depths), depths) == Depth(low, m + 1, depths)
  {
    ModStep(low + m, 1, depths);
    ModStep(Depth(low, m, depths), 1, depths);
  }

  lemma DestsAppend(u: Wallet, v: Wallet, dest: Dest)
    requires |v.paid| == |u.paid| + 1 && v.paid[..|u.paid|] == u.paid && v.paid[|u.paid|].dest == dest
    ensures Dests(v.paid) == Dests(u.paid) + [dest]
  {
    forall i | 0 <= i < |u.paid| ensures v.paid[i] == u.paid[i] {
      assert v.paid[..|u.paid|][i] == u.paid[i];
    }
  }

  lemma ReachedGrow(n: nat, c: nat, externals: seq<Dest>, k: nat)
    requires n < c && 0 < k <= c && k <= |externals|
    ensures Reached(n + 1, c, externals, k) ==
            Reached(n, c, externals, k) + if n < c - k then [] else [externals[c - 1 - n]]
  {}

  lemma DestsGrow(u: Wallet, v: Wallet, before: seq<Dest>, n: nat, c: nat, externals: seq<Dest>, k: nat)
    requires n < c && 0 < k <= c && k <= |externals|
    requires Dests(u.paid) == before + Reached(n, c, externals, k)
    requires var dest := DestOf(n, c, externals, k);
      if dest == Internal then v.paid == u.paid
      else |v.paid| == |u.paid| + 1 && v.paid[..|u.paid|] == u.paid && v.paid[|u.paid|].dest == dest
    requires n >= c - k ==> DestOf(n, c, externals, k) != Internal
    ensures Dests(v.paid) == before + Reached(n + 1, c, externals, k)
  {
    hide Dests, Reached;
    ReachedGrow(n, c, externals, k);
    if n >= c - k {
      DestsAppend(u, v, externals[c - 1 - n]);
    }
  }

  lemma BlockStep(w: Wallet, u: Wallet, v: Wallet, low: nat, n: nat, c: nat, externals: seq<Dest>, k: nat)
    requires |w.balances| >= 2 && n < c && 0 < k <= c && k <= |externals|
    requires forall i :: 0 <= i < |externals| ==> externals[i] != Internal
    requires AfterBlocks(w, u, low, n, c, externals, k)
    requires var src := Depth(low, n, |w.balances|);
      && |v.balances| == |w.balances| && v.balances[src] == 0
      && OnlyDepths(u.balances, v.balances, src, NextDepth(src, |w.balances|))
      && (n == c - 1 ==> v.balances == u.balances[src := 0])
    requires var dest := DestOf(n, c, externals, k);
      if dest == Internal then v.paid == u.paid
      else |v.paid| == |u.paid| + 1 && v.paid[..|u.paid|] == u.paid && v.paid[|u.paid|].dest == dest
    ensures AfterBlocks(w, v, low, n + 1, c, externals, k)
  {
    hide Dests, Reached, Depth;
    DepthNext(low, n, |w.balances|);
    DestsGrow(u, v, Dests(w.paid), n, c, externals, k);
  }

  /** Executing the first `n` finished blocks, whatever their non-sweep entries really send. */
  lemma {:induction false} RunBlocks(w: Wallet, blocks: seq<Block>, low: nat, externals: seq<Dest>, k: nat, n: nat,
                                     wanted: seq<nat>)
    requires |w.balances| >= 2 && AllDrafted(blocks, low, |w.balances|)
    requires 0 < k <= |blocks| && k <= |externals| && n <= |blocks|
    requires forall i :: 0 <= i < |externals| ==> externals[i] != Internal
    requires |wanted| == |Flatten(FinalBlocks(blocks, externals, k)[..n])|
    ensures AfterBlocks(w, Run(w, Flatten(FinalBlocks(blocks, externals, k)[..n]), wanted), low, n, |blocks|,
                        externals, k)
  {
    var fs := FinalBlocks(blocks, externals, k);
    if n == 0 {
      NothingRun(w, low, |blocks|, externals, k, fs, wanted);
    } else {
      var before, b := Flatten(fs[..n - 1]), fs[n - 1];
      assert fs[..n][..n - 1] == fs[..n - 1];
      assert Flatten(fs[..n]) == before + b;
      hide Flatten, FinalBlock, AfterBlocks, Run, AllDrafted;
      RunBlocks(w, blocks, low, externals, k, n - 1, wanted[..|before|]);
      RunConcat(w, before, b, wanted);
      FinalBlockCloses(blocks, low, |w.balances|, externals, k, n - 1);
      var u := Run(w, before, wanted[..|before|]);
      BlockEffect(u, b, Depth(low, n - 1, |w.balances|), DestOf(n - 1, |blocks|, externals, k), wanted[|before|..]);
      BlockStep(w, u, Run(u, b, wanted[|before|..]), low, n - 1, |blocks|, externals, k);
    }
  }

  lemma NothingRun(w: Wallet, low: nat, c: nat, externals: seq<Dest>, k: nat, fs: seq<Block>,
                                      wanted: seq<nat>)
    requires |w.balances| > 0 && 0 < k <= c && k <= |externals| && |wanted| == |Flatten(fs[..0])|
    ensures AfterBlocks(w, Run(w, Flatten(fs[..0]), wanted), low, 0, c, externals, k)
  {
    assert Flatten(fs[..0]) == [];
    assert Dests(w.paid) + [] == Dests(w.paid);
  }

  /** Is a mixdepth visited by one of the `c` blocks of stage 2? */
  ghost predicate Covered(low: nat, c: nat, d: nat, depths: nat)
    requires depths > 0
  {
    exists m :: 0 <= m < c && Depth(low, m, depths) == d
  }

  /** What executing a finished schedule does, for any initial balances and whatever amounts
      the non-sweep entries really send: no coins are lost, every mixdepth covered by stage 2
      ends up empty, the others are left as stage 1 left them, and exactly the requested
      external destinations are paid, each by one payment, in the order given. */
  lemma {:induction false} TumbleEmptiesWallet(w: Wallet, stage1: seq<Entry>, ds: seq<nat>, blocks: seq<Block>,
                                               low: nat,
                            externals: seq<Dest>, k: nat, wanted: seq<nat>)
    requires |w.balances| >= 2 && w.paid == []
    requires Sweeps(stage1, ds) && Funded(ds, w.balances)
    requires AllDrafted(blocks, low, |w.balances|) && 0 < k <= |blocks| && k <= |externals|
    requires forall i :: 0 <= i < |externals| ==> externals[i] != Internal
    requires |wanted| == |stage1| + |Flatten(FinalBlocks(blocks, externals, k))|
    ensures var w1 := Run(w, stage1, wanted[..|stage1|]);
      var w2 := Run(w, stage1 + Flatten(FinalBlocks(blocks, externals, k)), wanted);
      && Total(w2) == Total(w)
      && Dests(w2.paid) == Reverse(externals[..k])
      && forall d :: 0 <= d < |w.balances| ==>
           w2.balances[d] == if Covered(low, |blocks|, d, |w.balances|) then 0 else w1.balances[d]
  {
    var fs := FinalBlocks(blocks, externals, k);
    var stage2 := Flatten(fs);
    hide Run, Flatten, Total, FinalBlocks, AllDrafted, Sweeps, Funded, Flags;
    RunConserves(w, stage1 + stage2, wanted);
    RunConcat(w, stage1, stage2, wanted);
    FlagsTrue(w, stage1, ds, wanted[..|stage1|]);
    var w1 := Run(w, stage1, wanted[..|stage1|]);
    assert fs[..|blocks|] == fs;
    RunBlocks(w1, blocks, low, externals, k, |blocks|, wanted[|stage1|..]);
  }

  /** Everything in the wallet reaches the external destinations exactly when every mixdepth
      flagged after stage 1 is covered by stage 2. */
  lemma PaysEverythingIff(w: Wallet, stage1: seq<Entry>, ds: seq<nat>, blocks: seq<Block>, low: nat,
                          externals: seq<Dest>, k: nat, wanted: seq<nat>)
    requires |w.balances| >= 2 && w.paid == []
    requires Sweeps(stage1, ds) && Funded(ds, w.balances)
    requires AllDrafted(blocks, low, |w.balances|) && 0 < k <= |blocks| && k <= |externals|
    requires forall i :: 0 <= i < |externals| ==> externals[i] != Internal
    requires |wanted| == |stage1| + |Flatten(FinalBlocks(blocks, externals, k))|
    ensures SumPaid(Run(w, stage1 + Flatten(FinalBlocks(blocks, externals, k)), wanted).paid) == SumNat(w.balances)
      <==> forall d :: 0 <= d < |w.balances| && Flagged(Flags(ds, |w.balances|), d) ==>
        Covered(low, |blocks|, d, |w.balances|)
  {
    TumbleEmptiesWallet(w, stage1, ds, blocks, low, externals, k, wanted);
    FlagsTrue(w, stage1, ds, wanted[..|stage1|]);
    var w2 := Run(w, stage1 + Flatten(FinalBlocks(blocks, externals, k)), wanted);
    hide Run, Flatten, FinalBlocks, AllDrafted, Sweeps, Funded, Flags, Flagged, Covered;
    SumZeroIff(w2.balances);
  }

  /** In particular a tumble through at least as many blocks as there are mixdepths. */
  lemma EverythingCovered(low: nat, c: nat, d: nat, depths: nat)
    requires depths > 0 && c >= depths && d < depths
    ensures Covered(low, c, d, depths)
  {
    var r := Mod(low, depths);
    var m := if d >= r then d - r else d - r + depths;
    ModStep(low, m, depths);
    assert Depth(low, m, depths) == d;
  }

  lemma {:induction false} SumZeroIff(s: seq<nat>)
    ensures SumNat(s) == 0 <==> forall i :: 0 <= i < |s| ==> s[i] == 0
  {
    if s != [] {
      var n := |s| - 1;
      SumZeroIff(s[..n]);
      assert forall i :: 0 <= i < n ==> s[..n][i] == s[i];
    }
  }
}
