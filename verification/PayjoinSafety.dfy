/** What accepting a proposal can cost the sender (src/jmclient/payjoin.py). */
module PayjoinSafety {
  import opened Sequences
  import opened Wrappers
  import opened PayjoinPsbt
  import opened PayjoinManager

  /** What an outpoint is worth to the owner of the inputs `wallet`. */
  function ValueOf(p: Outpoint, wallet: seq<Input>): nat {
    if wallet == [] then 0
    else
      var x := wallet[|wallet| - 1];
      if x.prevout == p then (if x.value.Some? then x.value.value else 0) else ValueOf(p, wallet[..|wallet| - 1])
  }

  /** What a transaction spends of the owner's coins. */
  function SpentOf(vin: seq<Input>, wallet: seq<Input>): nat {
    if vin == [] then 0 else SpentOf(vin[..|vin| - 1], wallet) + ValueOf(vin[|vin| - 1].prevout, wallet)
  }

  /** What the owner gives away: coins spent, less what comes back to the change script. */
  function Outflow(p: Psbt, wallet: seq<Input>, change: Option<Output>): int {
    SpentOf(p.vin, wallet) - if change.Some? then SumTo(p.vout, change.value.script) else 0
  }

  lemma {:induction false} ForeignIsWorthless(p: Outpoint, wallet: seq<Input>)
    requires p !in Outpoints(wallet)
    ensures ValueOf(p, wallet) == 0
  {
    if wallet != [] {
      var n := |wallet| - 1;
      assert Outpoints(wallet)[n] == wallet[n].prevout;
      forall i | 0 <= i < n ensures Outpoints(wallet[..n])[i] != p {
        assert Outpoints(wallet[..n])[i] == Outpoints(wallet)[i];
      }
      ForeignIsWorthless(p, wallet[..n]);
    }
  }

  /** One more coin counts as often as it is spent. */
  lemma {:induction false} SpentOfOneMore(vin: seq<Input>, wallet: seq<Input>)
    requires wallet != [] && wallet[|wallet| - 1].value.Some?
    requires wallet[|wallet| - 1].prevout !in Outpoints(wallet[..|wallet| - 1])
    ensures var x := wallet[|wallet| - 1];
      SpentOf(vin, wallet) == SpentOf(vin, wallet[..|wallet| - 1]) + CountOutpoint(vin, x.prevout) * x.value.value
  {
    if vin != [] {
      var x := wallet[|wallet| - 1];
      SpentOfOneMore(vin[..|vin| - 1], wallet);
      ForeignIsWorthless(x.prevout, wallet[..|wallet| - 1]);
      if vin[|vin| - 1].prevout == x.prevout {
        Distribute(CountOutpoint(vin[..|vin| - 1], x.prevout), x.value.value);
      }
    }
  }

  lemma Distribute(n: nat, v: nat)
    ensures (n + 1) * v == n * v + v
  {}

  lemma {:induction false} SpentOfNothing(vin: seq<Input>)
    ensures SpentOf(vin, []) == 0
  {
    if vin != [] {
      SpentOfNothing(vin[..|vin| - 1]);
    }
  }

  /** A transaction that contains each of our inputs once spends exactly our coins. */
  lemma {:induction false} SpendsAllOnce(vin: seq<Input>, wallet: seq<Input>)
    requires KeepsInputs(Outpoints(wallet), vin) && ValuesKnown(wallet)
    ensures SpentOf(vin, wallet) == SumIn(wallet)
  {
    if wallet == [] {
      SpentOfNothing(vin);
    } else {
      var n := |wallet| - 1;
      var ours, fewer := Outpoints(wallet), Outpoints(wallet[..n]);
      assert ours[n] == wallet[n].prevout && fewer == ours[..n];
      SpentOfOneMore(vin, wallet);
      SpendsAllOnce(vin, wallet[..n]);
    }
  }

  lemma SpendsOwn(wallet: seq<Input>)
    requires Distinct(Outpoints(wallet)) && ValuesKnown(wallet)
    ensures SpentOf(wallet, wallet) == SumIn(wallet)
  {
    forall j | 0 <= j < |wallet| ensures CountOutpoint(wallet, Outpoints(wallet)[j]) == 1 {
      CountOnce(wallet, j);
    }
    SpendsAllOnce(wallet, wallet);
  }

  lemma {:induction false} CountOnce(vin: seq<Input>, j: nat)
    requires Distinct(Outpoints(vin)) && j < |vin|
    ensures CountOutpoint(vin, vin[j].prevout) == 1
  {
    var n := |vin| - 1;
    assert Outpoints(vin[..n]) == Outpoints(vin)[..n];
    if j < n {
      CountOnce(vin[..n], j);
      assert Outpoints(vin)[j] != Outpoints(vin)[n];
    } else {
      assert forall i :: 0 <= i < n ==> Outpoints(vin)[i] != Outpoints(vin)[n];
      CountNever(vin[..n], vin[n].prevout);
    }
  }

  lemma {:induction false} CountNever(vin: seq<Input>, p: Outpoint)
    requires forall i :: 0 <= i < |vin| ==> vin[i].prevout != p
    ensures CountOutpoint(vin, p) == 0
  {
    if vin != [] {
      CountNever(vin[..|vin| - 1], p);
    }
  }

  /** The change output recorded by the sender: the only output of its payment to that script. */
  ghost predicate IsChangeOf(change: Output, p: Psbt) {
    CountScript(p.vout, change.script) == 1 && exists i :: 0 <= i < |p.vout| && p.vout[i] == change
  }

  /** Whatever proposal the sender accepts, it gives away at most the increase of the fee more
      than in its own payment, and at most the contribution it offered; without a change
      output it gives away the same. */
  lemma SenderLossBounded(k: Knowledge, proposal: Psbt, signed: Psbt)
    requires Acceptable(k, proposal, signed)
    requires k.change.Some? ==> IsChangeOf(k.change.value, k.initial)
    ensures var rise := Outflow(proposal, k.initial.vin, k.change) - Outflow(k.initial, k.initial.vin, k.change);
      if k.change.None? then rise == 0
      else
        var mafc := MaxContribution(k.config.maxAdditionalFeeContribution, k.initial, k.walletType);
        && Fee(proposal).Some? && Fee(k.initial).Some? && mafc.Some?
        && rise <= Fee(proposal).value - Fee(k.initial).value && rise <= mafc.value
        && k.initial.vsize > 0
        && rise as real <= 1.2 * (Fee(k.initial).value as real / k.initial.vsize as real)
                         * if k.walletType == SwLegacy then 91.0 else 68.0
  {
    ContributionLimit(k);
    SpendsAllOnce(proposal.vin, k.initial.vin);
    SpendsOwn(k.initial.vin);
    hide SpentOf, SumIn, SumOut, MaxContribution, KeepsInputs, OthersFinished;
    if k.change.Some? {
      var s := k.change.value.script;
      var i :| 0 <= i < |k.initial.vout| && k.initial.vout[i] == k.change.value;
      OneOutput(k.initial.vout, s, i);
      var j := FindOutput(proposal.vout, s);
      OneOutput(proposal.vout, s, j);
    }
  }

  lemma ContributionLimit(k: Knowledge)
    ensures var mafc := MaxContribution(k.config.maxAdditionalFeeContribution, k.initial, k.walletType);
      mafc.Some? ==>
        && Fee(k.initial).Some? && k.initial.vsize > 0
        && var size := if k.walletType == SwLegacy then 91.0 else 68.0;
           var fair := Fee(k.initial).value as real / k.initial.vsize as real * size;
           mafc.value as real <= 1.2 * fair < mafc.value as real + 1.0
  {
    hide Fee;
  }

  /** The type of the coin that an input spends, as its owner knows it. */
  function KindOf(inp: Input, wallet: seq<Input>): Kind {
    var j := FirstMatch(Outpoints(wallet), inp.prevout);
    if j < |wallet| then wallet[j].kind else inp.kind
  }

  /** All inputs of an accepted proposal spend coins of one type, that of the sender's wallet,
      and all but the sender's own are finished. */
  lemma InputsAlike(k: Knowledge, proposal: Psbt, signed: Psbt)
    requires Acceptable(k, proposal, signed) && SanePayment(k.initial, k.walletType, k.amount, k.destination)
    ensures forall i :: 0 <= i < |proposal.vin| ==>
      && KindOf(proposal.vin[i], k.initial.vin) == k.walletType
      && (proposal.vin[i].prevout in Outpoints(k.initial.vin) || proposal.vin[i].finalized)
  {
    hide FirstMatch, KeepsInputs, FeesRise, ChangeKept, PaysOnce, SequencesKept;
  }

  /** A sender with change that sets the contribution to a number, as the configuration file
      suggests, accepts no proposal: the setting stays a text, and comparing with it fails. */
  lemma NumericSettingRefusesAll(k: Knowledge, proposal: Psbt, signed: Psbt)
    requires k.config.maxAdditionalFeeContribution.Text? && k.change.Some?
    ensures !Acceptable(k, proposal, signed)
  {}

  /** The payment itself with one sequence number, sent back as a proposal. */
  function Returned(p: Psbt): Psbt
    requires p.vin != []
  {
    p.(vin := seq(|p.vin|, i requires 0 <= i < |p.vin| => p.vin[i].(sequence := p.vin[0].sequence)))
  }

  lemma ReturnedKeeps(p: Psbt)
    requires p.vin != [] && Distinct(Outpoints(p.vin))
    ensures var q := Returned(p);
      && SameFunds(p, q) && KeepsInputs(Outpoints(p.vin), q.vin) && SequencesKept(p, q)
      && forall i :: 0 <= i < |q.vin| ==> q.vin[i].prevout in Outpoints(p.vin)
  {
    var q := Returned(p);
    assert Outpoints(q.vin) == Outpoints(p.vin);
    forall j | 0 <= j < |q.vin| ensures CountOutpoint(q.vin, Outpoints(p.vin)[j]) == 1 {
      CountOnce(q.vin, j);
    }
    forall i | 0 <= i < |q.vin| ensures q.vin[i].prevout in Outpoints(p.vin) {
      assert Outpoints(p.vin)[i] == q.vin[i].prevout;
    }
  }

  /** For a payment that reaches its own minimum fee rate, the setting alone decides whether
      there is any proposal that the sender accepts. */
  lemma SomeProposalAcceptableIff(k: Knowledge)
    requires SanePayment(k.initial, k.walletType, k.amount, k.destination) && Distinct(Outpoints(k.initial.vin))
    requires FeesRise(k.initial, k.initial, k.config.minFeeRate)
    requires k.disableOutputSubstitution ==> PaysOnce(k.initial.vout, k.amount, k.destination)
    requires k.change.Some? ==> IsChangeOf(k.change.value, k.initial)
    ensures (exists proposal, signed :: Acceptable(k, proposal, signed))
      <==> (k.change.Some? ==> k.config.maxAdditionalFeeContribution == Default)
  {
    var p, setting := k.initial, k.config.maxAdditionalFeeContribution;
    if k.change.Some? && setting.Text? {
      forall proposal, signed ensures !Acceptable(k, proposal, signed) {
        NumericSettingRefusesAll(k, proposal, signed);
      }
    } else {
      var q := Returned(p);
      ReturnedKeeps(p);
      SameFundsSameFee(p, q);
      if k.change.Some? {
        OwnChangeKept(k.change.value, p, q, k.walletType);
      }
      assert FeesRise(p, q, k.config.minFeeRate);
      hide Fee, Rate, KeepsInputs, SequencesKept, ChangeKept, PaysOnce, Returned, FeesRise, MaxContribution;
      assert Acceptable(k, q, q);
    }
  }

  /** What is sent back keeps the change as it is. */
  lemma OwnChangeKept(change: Output, p: Psbt, q: Psbt, walletType: Kind)
    requires IsChangeOf(change, p) && p.vout == q.vout && Fee(p).Some? && Fee(p) == Fee(q)
    requires p.complete && p.vsize > 0
    ensures ChangeKept(change, p, q, MaxContribution(Default, p, walletType))
  {
    var s, rate, v := change.script, Rate(Fee(p).value, p.vsize), InputVsize(walletType) as real;
    assert rate >= 0.0 && v >= 0.0;
    assert rate * 1.2 * v >= 0.0;
    hide SumIn, SumOut, Rate;
    var k :| 0 <= k < |p.vout| && p.vout[k] == change;
    OneOutput(p.vout, s, k);
    forall i | 0 <= i < |p.vout| && p.vout[i].script == s ensures p.vout[i].value == change.value {
      OneOutput(p.vout, s, i);
    }
  }

  /** With output substitution disabled, the payee gets at least the amount in one output. */
  lemma PayeeReceives(k: Knowledge, proposal: Psbt, signed: Psbt)
    requires Acceptable(k, proposal, signed) && k.disableOutputSubstitution
    ensures exists i :: 0 <= i < |proposal.vout| && Pays(proposal.vout[i], k.amount, k.destination)
    ensures (forall i :: 0 <= i < |proposal.vout| ==> proposal.vout[i].value >= 0)
      ==> SumTo(proposal.vout, k.destination) >= k.amount
  {
    var i := FindPaying(proposal.vout, k.amount, k.destination);
    if forall i :: 0 <= i < |proposal.vout| ==> proposal.vout[i].value >= 0 {
      TotalAtLeast(proposal.vout, k.destination, i);
    }
  }

  lemma {:induction false} FindPaying(vout: seq<Output>, amount: nat, destination: Script) returns (i: nat)
    requires CountPaying(vout, amount, destination) > 0
    ensures i < |vout| && Pays(vout[i], amount, destination)
  {
    i := |vout| - 1;
    if !Pays(vout[i], amount, destination) {
      i := FindPaying(vout[..i], amount, destination);
    }
  }

  lemma {:induction false} TotalAtLeast(vout: seq<Output>, s: Script, i: nat)
    requires i < |vout| && vout[i].script == s && forall j :: 0 <= j < |vout| ==> vout[j].value >= 0
    ensures SumTo(vout, s) >= vout[i].value
  {
    var n := |vout| - 1;
    if i < n {
      TotalAtLeast(vout[..n], s, i);
    } else {
      TotalNonNegative(vout[..n], s);
    }
  }

  lemma {:induction false} TotalNonNegative(vout: seq<Output>, s: Script)
    requires forall j :: 0 <= j < |vout| ==> vout[j].value >= 0
    ensures SumTo(vout, s) >= 0
  {
    if vout != [] {
      TotalNonNegative(vout[..|vout| - 1], s);
    }
  }

  /** The same, once the sender adds back what it knows of its own inputs and signs: neither
      changes the funds that move. */
  ghost predicate SameFunds(p: Psbt, q: Psbt) {
    && |p.vin| == |q.vin| && p.vout == q.vout
    && forall i :: 0 <= i < |p.vin| ==> p.vin[i].prevout == q.vin[i].prevout && p.vin[i].value == q.vin[i].value
  }

  lemma SameFundsSameFee(p: Psbt, q: Psbt)
    requires SameFunds(p, q)
    ensures Fee(p) == Fee(q)
  {
    SameSumIn(p.vin, q.vin);
  }

  lemma {:induction false} SameSumIn(a: seq<Input>, b: seq<Input>)
    requires |a| == |b| && forall i :: 0 <= i < |a| ==> a[i].value == b[i].value
    ensures SumIn(a) == SumIn(b)
  {
    if a != [] {
      SameSumIn(a[..|a| - 1], b[..|b| - 1]);
    }
  }
}
