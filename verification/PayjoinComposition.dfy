/** Both sides of a PayJoin together (src/jmclient/payjoin.py). */
module PayjoinComposition {
  // When does the sender accept what the receiver makes of the sender's own request?

  import opened Sequences
  import opened Wrappers
  import opened PayjoinPsbt
  import opened PayjoinManager
  import opened PayjoinSafety
  import opened PayjoinConverter

  /** The sender puts back what it knows of its own inputs. */
  function AddUtxos(q: Psbt, p: Psbt): Psbt {
    q.(vin := seq(|q.vin|, i requires 0 <= i < |q.vin| =>
      var j := FirstMatch(Outpoints(p.vin), q.vin[i].prevout);
      if j < |p.vin| then q.vin[i].(value := p.vin[j].value, segwit := true) else q.vin[i]))
  }

  // ---------- inputs ----------

  lemma {:induction false} CountIsMultiplicity(vin: seq<Input>, os: seq<Outpoint>, o: Outpoint)
    requires |vin| == |os| && forall i :: 0 <= i < |vin| ==> vin[i].prevout == os[i]
    ensures CountOutpoint(vin, o) == multiset(os)[o]
  {
    if vin != [] {
      var n := |vin| - 1;
      assert os == os[..n] + [os[n]];
      CountIsMultiplicity(vin[..n], os[..n], o);
    }
  }

  ghost predicate Disjoint(p: Psbt, coins: seq<Coin>) {
    forall c :: 0 <= c < |coins| ==> coins[c].outpoint !in Outpoints(p.vin)
  }

  lemma KeepsAll(p: Psbt, coins: seq<Coin>, draw: nat -> nat, vin: seq<Input>)
    requires Distinct(Outpoints(p.vin)) && Disjoint(p, coins)
    requires var os := Inserted(Outpoints(p.vin), CoinOutpoints(coins), draw, 0);
      |vin| == |os| && forall i :: 0 <= i < |vin| ==> vin[i].prevout == os[i]
    ensures KeepsInputs(Outpoints(p.vin), vin)
  {
    var ours, news := Outpoints(p.vin), CoinOutpoints(coins);
    InsertionKeepsOrder(ours, news, draw);
    forall j | 0 <= j < |ours| ensures CountOutpoint(vin, ours[j]) == 1 {
      CountIsMultiplicity(vin, Inserted(ours, news, draw, 0), ours[j]);
      DistinctOnce(ours, ours[j]);
      assert ours[j] in multiset(ours);
      assert ours[j] !in news;
      assert multiset(news)[ours[j]] == 0;
    }
  }

  // ---------- amounts ----------

  /** What a list of outpoints is worth. */
  function Worth(os: seq<Outpoint>, p: Psbt, coins: seq<Coin>): nat {
    if os == [] then 0
    else
      var v := SpentOut(os[|os| - 1], p, coins);
      Worth(os[..|os| - 1], p, coins) + if v.Some? then v.value else 0
  }

  lemma {:induction false} WorthConcat(a: seq<Outpoint>, b: seq<Outpoint>, p: Psbt, coins: seq<Coin>)
    ensures Worth(a + b, p, coins) == Worth(a, p, coins) + Worth(b, p, coins)
    decreases |b|
  {
    hide SpentOut;
    if b == [] {
      assert a + b == a;
    } else {
      assert (a + b)[..|a + b| - 1] == a + b[..|b| - 1];
      WorthConcat(a, b[..|b| - 1], p, coins);
    }
  }

  lemma {:induction false} WorthInserted(s: seq<Outpoint>, news: seq<Outpoint>, draw: nat -> nat, k: nat, p: Psbt,
                                         coins: seq<Coin>)
    requires k <= |news|
    ensures Worth(Inserted(s, news, draw, k), p, coins) == Worth(s, p, coins) + Worth(news[k..], p, coins)
    decreases |news| - k
  {
    hide Worth, SpentOut;
    if k == |news| {
      assert news[k..] == [];
      WorthNothing(p, coins);
    } else {
      var at := PlaceIn(draw(k), |s|);
      WorthInserted(s[..at] + [news[k]] + s[at..], news, draw, k + 1, p, coins);
      WorthConcat(s[..at] + [news[k]], s[at..], p, coins);
      WorthConcat(s[..at], [news[k]], p, coins);
      WorthConcat(s[..at], s[at..], p, coins);
      assert s == s[..at] + s[at..];
      WorthConcat([news[k]], news[k + 1..], p, coins);
      assert news[k..] == [news[k]] + news[k + 1..];
    }
  }

  lemma WorthNothing(p: Psbt, coins: seq<Coin>)
    ensures Worth([], p, coins) == 0
  {}

  lemma FirstMatchAt(os: seq<Outpoint>, j: nat)
    requires Distinct(os) && j < |os|
    ensures FirstMatch(os, os[j]) == j
  {
    hide FirstMatch;
    var m := FirstMatch(os, os[j]);
    assert m <= j;
  }

  lemma {:induction false} WorthOfOurs(p: Psbt, coins: seq<Coin>, k: nat)
    requires Distinct(Outpoints(p.vin)) && k <= |p.vin|
    ensures Worth(Outpoints(p.vin)[..k], p, coins) == SumIn(p.vin[..k])
  {
    hide FirstMatch, FindCoin;
    if k > 0 {
      WorthOfOurs(p, coins, k - 1);
      var os := Outpoints(p.vin);
      FirstMatchAt(os, k - 1);
      assert os[..k][..k - 1] == os[..k - 1] && p.vin[..k][..k - 1] == p.vin[..k - 1];
    }
  }

  lemma {:induction false} WorthOfCoins(p: Psbt, coins: seq<Coin>, k: nat)
    requires Disjoint(p, coins) && Distinct(CoinOutpoints(coins)) && k <= |coins|
    ensures Worth(CoinOutpoints(coins)[..k], p, coins) == SumCoins(coins[..k])
  {
    hide FirstMatch, FindCoin;
    if k > 0 {
      WorthOfCoins(p, coins, k - 1);
      var os := CoinOutpoints(coins);
      FoundCoin(coins, k - 1);
      NotOurs(p, os[k - 1]);
      assert os[..k][..k - 1] == os[..k - 1] && coins[..k][..k - 1] == coins[..k - 1];
    }
  }

  lemma NotOurs(p: Psbt, o: Outpoint)
    requires o !in Outpoints(p.vin)
    ensures FirstMatch(Outpoints(p.vin), o) == |p.vin|
  {
    hide FirstMatch;
  }

  lemma {:induction false} FoundCoin(coins: seq<Coin>, c: nat)
    requires Distinct(CoinOutpoints(coins)) && c < |coins|
    ensures FindCoin(coins, coins[c].outpoint) == c
  {
    hide FindCoin;
    var os := CoinOutpoints(coins);
    assert os[c] in os;
    var j := FindCoin(coins, os[c]);
    assert os[j] == os[c];
  }

  /** The proposal's inputs are worth the sender's and the receiver's together. */
  lemma ProposalWorth(p: Psbt, coins: seq<Coin>, draw: nat -> nat)
    requires Distinct(Outpoints(p.vin)) && Disjoint(p, coins) && Distinct(CoinOutpoints(coins))
    ensures Worth(Inserted(Outpoints(p.vin), CoinOutpoints(coins), draw, 0), p, coins) == SumIn(p.vin) + SumCoins(coins)
  {
    hide Worth, Inserted, SumIn, SumCoins;
    var ours, news := Outpoints(p.vin), CoinOutpoints(coins);
    WorthInserted(ours, news, draw, 0, p, coins);
    WorthOfOurs(p, coins, |p.vin|);
    WorthOfCoins(p, coins, |coins|);
    assert ours[..|p.vin|] == ours && p.vin[..|p.vin|] == p.vin;
    assert news[0..] == news && news[..|coins|] == news && coins[..|coins|] == coins;
  }

  /** Every input of the completed proposal names its value. */
  lemma ValuesFilledIn(q: Psbt, p: Psbt, os: seq<Outpoint>, coins: seq<Coin>, walletType: Kind, fixed: Option<nat>)
    requires ProposedInputs(q.vin, os, p, coins, walletType, fixed)
    ensures var r := AddUtxos(q, p);
      |r.vin| == |os| && forall i :: 0 <= i < |os| ==>
        && r.vin[i].prevout == os[i] && r.vin[i].value == SpentOut(os[i], p, coins)
        && r.vin[i].sequence == SequenceFor(os[i], p, fixed)
        && (os[i] !in Outpoints(p.vin) ==> Finished(r.vin[i], walletType))
  {
    hide FindCoin, SequenceFor, FirstMatch;
    forall i | 0 <= i < |os| && os[i] !in Outpoints(p.vin) ensures FirstMatch(Outpoints(p.vin), os[i]) == |p.vin| {
      NotOurs(p, os[i]);
    }
    forall i | 0 <= i < |os| ensures FirstMatch(Outpoints(p.vin), os[i]) < |p.vin| ==> os[i] in Outpoints(p.vin) {
      var j := FirstMatch(Outpoints(p.vin), os[i]);
      assert j < |p.vin| ==> Outpoints(p.vin)[j] == os[i];
    }
  }

  lemma {:induction false} SumIsWorth(vin: seq<Input>, os: seq<Outpoint>, p: Psbt, coins: seq<Coin>)
    requires |vin| == |os| && forall i :: 0 <= i < |os| ==> vin[i].value == SpentOut(os[i], p, coins)
    ensures SumIn(vin) == Worth(os, p, coins)
  {
    hide SpentOut;
    if vin != [] {
      SumIsWorth(vin[..|vin| - 1], os[..|os| - 1], p, coins);
    }
  }

  lemma {:induction false} TwoOutputs(vout: seq<Output>)
    requires |vout| == 2
    ensures SumOut(vout) == vout[0].value + vout[1].value
    ensures forall s :: (
      CountScript(vout, s) == (if vout[0].script == s then 1 else 0) + if vout[1].script == s then 1 else 0)
    ensures forall a, s :: (
      CountPaying(vout, a, s) == (if Pays(vout[0], a, s) then 1 else 0) + if Pays(vout[1], a, s) then 1 else 0)
  {
    var one := vout[..1];
    assert vout[..|vout| - 1] == one && one[..|one| - 1] == [];
    assert SumOut(one) == SumOut([]) + vout[0].value;
    forall s ensures CountScript(one, s) == if vout[0].script == s then 1 else 0 {
      assert CountScript(one[..|one| - 1], s) == 0;
    }
    forall a, s ensures CountPaying(one, a, s) == if Pays(vout[0], a, s) then 1 else 0 {
      assert CountPaying(one[..|one| - 1], a, s) == 0;
    }
  }

  // ---------- the negotiation ----------

  /** A payment ready for a PayJoin with a receiver that has not seen it: distinct inputs, a
      change output to another script than the payment's, and a fee. */
  ghost predicate Ready(k: Knowledge, p: Psbt, payIndex: nat, coins: seq<Coin>) {
    && k.initial == p && SanePayment(p, k.walletType, k.amount, k.destination)
    && |p.vout| == 2 && PaymentAt(p.vout, payIndex, k.amount, k.destination)
    && k.change == Some(p.vout[1 - payIndex])
    && p.vout[0].script != p.vout[1].script && p.vout[0].script.Standard? && p.vout[1].script.Standard?
    && Distinct(Outpoints(p.vin)) && Disjoint(p, coins) && Distinct(CoinOutpoints(coins)) && coins != []
    && Fee(p).Some? && p.vsize > 0 && k.config.maxAdditionalFeeContribution == Default
  }

  /** The sender's own request. */
  ghost predicate OwnRequest(params: Params, k: Knowledge, payIndex: nat) {
    && payIndex < 2
    && params.additionalFeeOutputIndex == Some(Number(1 - payIndex))
    && MaxContribution(Default, k.initial, k.walletType).Some?
    && params.maxAdditionalFeeContribution == Some(Number(MaxContribution(Default, k.initial, k.walletType).value))
    && params.minFeeRate == Some(Number(k.config.minFeeRate))
  }

  function FullBump(p: Psbt, walletType: Kind): int
    requires p.vsize > 0 && Fee(p).Some?
  {
    (Rate(Fee(p).value, p.vsize) * InputVsize(walletType) as real).Floor
  }

  lemma Monotone(a: real, b: real)
    requires a <= b
    ensures a.Floor <= b.Floor
  {}

  lemma RateNonNegative(fee: nat, vsize: nat)
    requires vsize > 0
    ensures Rate(fee, vsize) >= 0.0
  {}

  lemma Scaled(rate: real, v: real)
    requires rate >= 0.0 && v >= 0.0
    ensures 0.0 <= rate * v <= rate * 1.2 * v
  {
    assert rate * 1.2 >= rate;
    assert rate * 1.2 * v - rate * v == (rate * 0.2) * v >= 0.0;
  }

  /** The bump that keeps the fee rate is never above what the sender offers by default. */
  lemma BumpNotCapped(k: Knowledge, p: Psbt, payIndex: nat, coins: seq<Coin>, params: Params)
    requires Ready(k, p, payIndex, coins) && OwnRequest(params, k, payIndex)
    ensures FeeBump(p, k.walletType, params) == FullBump(p, k.walletType) >= 0
    ensures FullBump(p, k.walletType) <= MaxContribution(Default, p, k.walletType).value
  {
    hide Fee, Rate, SanePayment, Disjoint;
    var rate, v := Rate(Fee(p).value, p.vsize), InputVsize(k.walletType) as real;
    RateNonNegative(Fee(p).value, p.vsize);
    Scaled(rate, v);
    Monotone(rate * v, rate * 1.2 * v);
    Monotone(0.0, rate * v);
  }

  lemma ProposalSumIn(p: Psbt, coins: seq<Coin>, q: Psbt, draw: nat -> nat, walletType: Kind,
                                         fixed: Option<nat>)
    requires Distinct(Outpoints(p.vin)) && Disjoint(p, coins) && Distinct(CoinOutpoints(coins)) && Fee(p).Some?
    requires ProposedInputs(q.vin, Inserted(Outpoints(p.vin), CoinOutpoints(coins), draw, 0), p, coins, walletType,
                            fixed)
    ensures SumIn(AddUtxos(q, p).vin) == SumIn(p.vin) + SumCoins(coins) && ValuesKnown(AddUtxos(q, p).vin)
  {
    var os := Inserted(Outpoints(p.vin), CoinOutpoints(coins), draw, 0);
    ValuesFilledIn(q, p, os, coins, walletType, fixed);
    AllKnown(p, coins, draw);
    ProposalWorth(p, coins, draw);
    SumIsWorth(AddUtxos(q, p).vin, os, p, coins);
    hide Inserted, ProposedInputs, SequenceFor, SpentOut, AddUtxos;
  }

  lemma {:induction false} ProposalSumOut(p: Psbt, vout: seq<Output>, payIndex: nat, received: nat, bump: int)
    requires |p.vout| == 2 && payIndex < 2
    requires ProposedOutputs(vout, p.vout[payIndex], p.vout[1 - payIndex], payIndex, received, bump)
    ensures SumOut(vout) == SumOut(p.vout) + received - bump
  {
    TwoOutputs(p.vout);
    TwoOutputs(vout);
  }

  lemma FeeIs(p: Psbt, f: nat)
    requires ValuesKnown(p.vin) && SumIn(p.vin) - SumOut(p.vout) == f
    ensures Fee(p) == Some(f)
  {}

  /** The fee grows by exactly the bump. */
  lemma ProposalFee(k: Knowledge, p: Psbt, payIndex: nat, coins: seq<Coin>, params: Params, q: Psbt, draw: nat -> nat,
                    fixed: Option<nat>)
    requires Ready(k, p, payIndex, coins) && OwnRequest(params, k, payIndex)
    requires ProposalFor(q, p, params, coins, draw, k.walletType, payIndex, p.vout[1 - payIndex], fixed)
    ensures FullBump(p, k.walletType) >= 0
    ensures Fee(AddUtxos(q, p)) == Some(Fee(p).value + FullBump(p, k.walletType))
  {
    BumpNotCapped(k, p, payIndex, coins, params);
    ProposalSumIn(p, coins, q, draw, k.walletType, fixed);
    ProposalSumOut(p, q.vout, payIndex, SumCoins(coins), FullBump(p, k.walletType));
    AddUtxosKeeps(q, p);
    hide *;
    var fee := Fee(p);
    FeeIs(AddUtxos(q, p), fee.value + FullBump(p, k.walletType));
  }

  lemma AddUtxosKeeps(q: Psbt, p: Psbt)
    ensures var r := AddUtxos(q, p);
      r.vout == q.vout && r.version == q.version && r.locktime == q.locktime && r.xpubs == q.xpubs
  {}

  /** All outpoints of the proposal have a known value. */
  lemma AllKnown(p: Psbt, coins: seq<Coin>, draw: nat -> nat)
    requires Fee(p).Some?
    ensures forall o :: o in Inserted(Outpoints(p.vin), CoinOutpoints(coins), draw, 0) ==> SpentOut(o, p, coins).Some?
  {
    InsertedFrom(Outpoints(p.vin), CoinOutpoints(coins), draw, 0);
    hide Inserted, FirstMatch, FindCoin;
  }

  /** The payment is still there, once, and the change as well. */
  lemma PaymentPasses(p: Psbt, payIndex: nat, received: nat, bump: nat, vout: seq<Output>,
                                         amount: nat, destination: Script)
    requires |p.vout| == 2 && PaymentAt(p.vout, payIndex, amount, destination)
    requires ProposedOutputs(vout, p.vout[payIndex], p.vout[1 - payIndex], payIndex, received, bump)
    requires p.vout[0].script != p.vout[1].script && p.vout[0].script.Standard? && p.vout[1].script.Standard?
    ensures PaysOnce(vout, amount, destination)
    ensures CountScript(vout, p.vout[1 - payIndex].script) == 1
  {
    TwoOutputs(vout);
    hide CountScript, CountPaying;
  }

  /** The change lost the bump, no more. */
  lemma ChangePasses(k: Knowledge, p: Psbt, payIndex: nat, coins: seq<Coin>, params: Params, q: Psbt, draw: nat -> nat,
                     fixed: Option<nat>)
    requires Ready(k, p, payIndex, coins) && OwnRequest(params, k, payIndex)
    requires ProposalFor(q, p, params, coins, draw, k.walletType, payIndex, p.vout[1 - payIndex], fixed)
    ensures PaysOnce(q.vout, k.amount, k.destination)
    ensures ChangeKept(p.vout[1 - payIndex], p, AddUtxos(q, p), MaxContribution(Default, p, k.walletType))
  {
    ProposalFee(k, p, payIndex, coins, params, q, draw, fixed);
    BumpNotCapped(k, p, payIndex, coins, params);
    AddUtxosKeeps(q, p);
    PaymentPasses(p, payIndex, SumCoins(coins), FullBump(p, k.walletType), q.vout, k.amount, k.destination);
    hide ProposedInputs, SanePayment, Disjoint, Fee, FullBump, FeeBump, MaxContribution, AddUtxos;
    hide Inserted, CountScript;
    hide PaysOnce, PaymentAt;
    forall i | 0 <= i < |q.vout| && q.vout[i].script == p.vout[1 - payIndex].script
      ensures p.vout[1 - payIndex].value - q.vout[i].value == FullBump(p, k.walletType)
    {
      assert i == payIndex || i == 1 - payIndex;
    }
  }

  /** The proposal passes the checks on inputs. */
  lemma InputsPass(k: Knowledge, p: Psbt, coins: seq<Coin>, q: Psbt, draw: nat -> nat, fixed: Option<nat>)
    requires Distinct(Outpoints(p.vin)) && Disjoint(p, coins)
    requires ProposedInputs(q.vin, Inserted(Outpoints(p.vin), CoinOutpoints(coins), draw, 0), p, coins, k.walletType,
                            fixed)
    ensures KeepsInputs(Outpoints(p.vin), AddUtxos(q, p).vin)
    ensures OthersFinished(Outpoints(p.vin), AddUtxos(q, p).vin, k.walletType)
  {
    var os := Inserted(Outpoints(p.vin), CoinOutpoints(coins), draw, 0);
    ValuesFilledIn(q, p, os, coins, k.walletType, fixed);
    KeepsAll(p, coins, draw, AddUtxos(q, p).vin);
    hide Inserted, AddUtxos, KeepsInputs, SequenceFor, SpentOut, ProposedInputs, Finished;
  }

  /** Where an outpoint went. */
  lemma WhereInserted<T>(s: seq<T>, news: seq<T>, draw: nat -> nat, x: T) returns (i: nat)
    requires (x in s || x in news) && forall j :: 0 <= j < |news| ==> news[j] !in s
    ensures i < |Inserted(s, news, draw, 0)| && Inserted(s, news, draw, 0)[i] == x
  {
    InsertionKeepsOrder(s, news, draw);
    var r := Inserted(s, news, draw, 0);
    assert x in multiset(s) + multiset(news);
    assert x in multiset(r);
    assert x in r;
    i :| 0 <= i < |r| && r[i] == x;
  }

  lemma ReceiverSequence(p: Psbt, o: Outpoint)
    requires o !in Outpoints(p.vin)
    ensures OwnSequence(o, p) == DefaultSequence(p.locktime) > 0
  {
    NotOurs(p, o);
  }

  lemma SenderSequence(p: Psbt, j: nat)
    requires Distinct(Outpoints(p.vin)) && j < |p.vin|
    ensures OwnSequence(Outpoints(p.vin)[j], p) == p.vin[j].sequence
  {
    FirstMatchAt(Outpoints(p.vin), j);
  }

  /** The sequence number that the receiver fixes: the sender's common one, or else one that it
      remembers from an earlier payment. */
  ghost function FixedFor(p: Psbt, stale: Option<nat>): Option<nat>
    requires p.vin != []
  {
    if Uniform(p.vin) then Some(p.vin[0].sequence) else stale
  }

  /** That number is the one of the sender's first input, and not zero. */
  ghost predicate FirstNumberFixed(p: Psbt, stale: Option<nat>)
    requires p.vin != []
  {
    p.vin[0].sequence != 0 && (Uniform(p.vin) || stale == Some(p.vin[0].sequence))
  }

  /** The sequence numbers all equal the sender's first if and only if the sender uses one
      number for all its inputs, or the receiver remembers the first one from an earlier payment,
      and that number is not zero. */
  lemma SequencesPassIff(p: Psbt, coins: seq<Coin>, q: Psbt, draw: nat -> nat, walletType: Kind, stale: Option<nat>)
    requires p.vin != [] && coins != [] && Distinct(Outpoints(p.vin)) && Disjoint(p, coins)
    requires ProposedInputs(q.vin, Inserted(Outpoints(p.vin), CoinOutpoints(coins), draw, 0), p, coins, walletType,
                            FixedFor(p, stale))
    ensures SequencesKept(p, AddUtxos(q, p)) <==> FirstNumberFixed(p, stale)
  {
    var ours, news := Outpoints(p.vin), CoinOutpoints(coins);
    var os, fixed := Inserted(ours, news, draw, 0), FixedFor(p, stale);
    ValuesFilledIn(q, p, os, coins, walletType, fixed);
    var r := AddUtxos(q, p);
    hide AddUtxos, Inserted, ProposedInputs, SpentOut, Finished, OwnSequence;
    if fixed.Some? && fixed.value != 0 {
      var i := WhereInserted(ours, news, draw, ours[0]);
      assert r.vin[i].sequence == fixed.value;
    } else if Uniform(p.vin) {
      var i := WhereInserted(ours, news, draw, news[0]);
      ReceiverSequence(p, news[0]);
      assert r.vin[i].sequence == OwnSequence(news[0], p);
    } else {
      var j :| 0 <= j < |p.vin| && p.vin[j].sequence != p.vin[0].sequence;
      var i := WhereInserted(ours, news, draw, ours[j]);
      SenderSequence(p, j);
      assert r.vin[i].sequence == OwnSequence(ours[j], p);
    }
  }

  /** Composition: the sender accepts what the receiver makes of its own request, once signed,
      if and only if the number of its first input is fixed and not zero and the fee rate,
      with the full bump paid by the change, reaches the minimum it asked for. */
  lemma ProposalAcceptedIff(k: Knowledge, p: Psbt, payIndex: nat, coins: seq<Coin>, params: Params, q: Psbt,
                            draw: nat -> nat, signed: Psbt, stale: Option<nat>)
    requires Ready(k, p, payIndex, coins) && OwnRequest(params, k, payIndex)
    requires ProposalFor(q, p, params, coins, draw, k.walletType, payIndex, p.vout[1 - payIndex], FixedFor(p, stale))
    requires SameFunds(AddUtxos(q, p), signed) && signed.complete && signed.vsize > 0
    ensures 0 <= FullBump(p, k.walletType) <= p.vout[1 - payIndex].value
    ensures Acceptable(k, AddUtxos(q, p), signed) <==>
      && FirstNumberFixed(p, stale)
      && Rate(Fee(p).value + FullBump(p, k.walletType), signed.vsize) >= k.config.minFeeRate
  {
    var fixed, r := FixedFor(p, stale), AddUtxos(q, p);
    BumpNotCapped(k, p, payIndex, coins, params);
    ProposalFee(k, p, payIndex, coins, params, q, draw, fixed);
    SameFundsSameFee(r, signed);
    ChangePasses(k, p, payIndex, coins, params, q, draw, fixed);
    InputsPass(k, p, coins, q, draw, fixed);
    SequencesPassIff(p, coins, q, draw, k.walletType, stale);
    AddUtxosKeeps(q, p);
    hide AddUtxos, Uniform, SanePayment, KeepsInputs, OthersFinished, PaysOnce, ChangeKept;
    hide SequencesKept, ProposedInputs;
    hide Fee, Rate, FullBump, SameFunds, MaxContribution, FirstNumberFixed, FixedFor;
  }

  /** A receiver that remembers the change of an earlier payment answers one without change, too;
      but it pays that old change from the fee, so no sender accepts. */
  lemma StaleChangeRefused(k: Knowledge, coins: seq<Coin>, params: Params, q: Psbt, draw: nat -> nat, change: Output,
                           fixed: Option<nat>, signed: Psbt)
    requires |k.initial.vout| == 1 && FeeBump(k.initial, k.walletType, params) < change.value
    requires Distinct(Outpoints(k.initial.vin)) && Disjoint(k.initial, coins) && Distinct(CoinOutpoints(coins))
    requires ProposalFor(q, k.initial, params, coins, draw, k.walletType, 0, change, fixed)
    requires SameFunds(AddUtxos(q, k.initial), signed)
    ensures !Acceptable(k, AddUtxos(q, k.initial), signed)
  {
    var p := k.initial;
    AddUtxosKeeps(q, p);
    SameFundsSameFee(AddUtxos(q, p), signed);
    if Fee(p).Some? {
      ProposalSumIn(p, coins, q, draw, k.walletType, fixed);
      TwoOutputs(q.vout);
      assert p.vout[..0] == [];
      assert SumOut(p.vout) == SumOut([]) + p.vout[0].value;
      hide AddUtxos, ProposedInputs, SumIn, SumOut, Inserted, SameFunds, KeepsInputs, PaysOnce, ChangeKept;
    }
  }

  // ---------- fee rates ----------

  /** One satoshi over a whole transaction, as a fee rate. */
  function OneSatoshi(vsize: nat): real
    requires vsize > 0
  {
    1.0 / vsize as real
  }

  /** With the transaction grown by no more than one input, the fee rate falls by less than one
      satoshi over the new size. */
  lemma RateBarelyFalls(fee: nat, vsize: nat, inputVsize: nat, newVsize: nat, bump: nat)
    requires vsize > 0 && 0 < newVsize <= vsize + inputVsize
    requires bump == (Rate(fee, vsize) * inputVsize as real).Floor
    ensures Rate(fee + bump, newVsize) > Rate(fee, vsize) - OneSatoshi(newVsize)
  {
    var rate := Rate(fee, vsize);
    RateNonNegative(fee, vsize);
    RateTimesSize(fee, vsize);
    RateTimesSize(fee + bump, newVsize);
    hide Rate;
    BumpCovers(rate, fee as real, vsize as real, inputVsize as real, newVsize as real, bump as real);
    QuotientAbove(Rate(fee + bump, newVsize), rate, newVsize as real);
  }

  lemma RateTimesSize(fee: nat, vsize: nat)
    requires vsize > 0
    ensures Rate(fee, vsize) * vsize as real == fee as real
  {}

  lemma BumpCovers(rate: real, fee: real, vsize: real, inputVsize: real, newVsize: real, bump: real)
    requires rate >= 0.0 && rate * vsize == fee && newVsize <= vsize + inputVsize && bump > rate * inputVsize - 1.0
    ensures fee + bump > rate * newVsize - 1.0
  {
    assert rate * (vsize + inputVsize - newVsize) >= 0.0;
    assert rate * (vsize + inputVsize - newVsize) == rate * vsize + rate * inputVsize - rate * newVsize;
  }

  lemma QuotientAbove(quotient: real, rate: real, n: real)
    requires n > 0.0 && quotient * n > rate * n - 1.0
    ensures quotient > rate - 1.0 / n
  {
    var d := 1.0 / n;
    assert d * n == 1.0;
    assert (quotient - rate + d) * n == quotient * n - rate * n + d * n;
    PositiveFactor(quotient - rate + d, n);
  }

  lemma PositiveFactor(a: real, n: real)
    requires n > 0.0 && a * n > 0.0
    ensures a > 0.0
  {}

  /** A payment whose fee rate is one satoshi per new size above the minimum is always carried
      through, when the number of its first input is fixed and the size grows as planned. */
  lemma ComfortableRateAccepted(k: Knowledge, p: Psbt, payIndex: nat, coins: seq<Coin>, params: Params, q: Psbt,
                                draw: nat -> nat, signed: Psbt, stale: Option<nat>)
    requires Ready(k, p, payIndex, coins) && OwnRequest(params, k, payIndex)
    requires ProposalFor(q, p, params, coins, draw, k.walletType, payIndex, p.vout[1 - payIndex], FixedFor(p, stale))
    requires SameFunds(AddUtxos(q, p), signed) && signed.complete
    requires 0 < signed.vsize <= p.vsize + InputVsize(k.walletType)
    requires FirstNumberFixed(p, stale)
    requires Rate(Fee(p).value, p.vsize) >= k.config.minFeeRate + OneSatoshi(signed.vsize)
    ensures Acceptable(k, AddUtxos(q, p), signed)
  {
    hide *;
    ReadyHasRate(k, p, payIndex, coins);
    FullBumpIs(p, k.walletType);
    ProposalAcceptedIff(k, p, payIndex, coins, params, q, draw, signed, stale);
    RateBarelyFalls(Fee(p).value, p.vsize, InputVsize(k.walletType), signed.vsize, FullBump(p, k.walletType));
  }

  lemma ReadyHasRate(k: Knowledge, p: Psbt, payIndex: nat, coins: seq<Coin>)
    requires Ready(k, p, payIndex, coins)
    ensures p.vsize > 0 && Fee(p).Some?
  {}

  lemma FullBumpIs(p: Psbt, walletType: Kind)
    requires p.vsize > 0 && Fee(p).Some?
    ensures FullBump(p, walletType) == (Rate(Fee(p).value, p.vsize) * InputVsize(walletType) as real).Floor
  {}

  // ---------- a whole negotiation ----------

  /** A payment with a change output, to be joined with `coins`. */
  ghost predicate Suitable(p: Psbt, walletType: Kind, amount: nat, destination: Script, coins: seq<Coin>) {
    && SanePayment(p, walletType, amount, destination) && |p.vout| == 2
    && p.vout[0].script != p.vout[1].script && p.vout[0].script.Standard? && p.vout[1].script.Standard?
    && Distinct(Outpoints(p.vin)) && Disjoint(p, coins) && Distinct(CoinOutpoints(coins)) && coins != []
    && Fee(p).Some? && p.vsize > 0
  }

  /** The receiver only refuses a minimum fee rate above that of the payment. */
  predicate MinimumMet(p: Psbt, minFeeRate: real)
    requires p.vsize > 0 && Fee(p).Some?
  {
    minFeeRate == 0.0 || minFeeRate <= Rate(Fee(p).value, p.vsize)
  }

  lemma OwnRequestAnswered(p: Psbt, walletType: Kind, params: Params, k: Knowledge, payIndex: nat)
    requires OwnRequest(params, k, payIndex) && p.vsize > 0 && Fee(p).Some?
    ensures WellFormed(params) && (RateReachable(p, walletType, params) <==> MinimumMet(p, k.config.minFeeRate))
  {
    hide Rate, Fee;
  }

  lemma OtherPaymentAt(vout: seq<Output>, i: nat, j: nat, amount: nat, destination: Script)
    requires PaymentAt(vout, i, amount, destination) && PaymentAt(vout, j, amount, destination)
    ensures i == j
  {}

  /** The change of a payment with two outputs. */
  ghost predicate ChangeCovers(p: Psbt, amount: nat, destination: Script, bump: int) {
    forall i :: 0 <= i < |p.vout| && !IsPayment(p.vout[i], amount, destination) ==> bump <= p.vout[i].value
  }

  lemma ChangeCoversAt(p: Psbt, amount: nat, destination: Script, bump: int, payIndex: nat)
    requires |p.vout| == 2 && PaymentAt(p.vout, payIndex, amount, destination)
    ensures ChangeCovers(p, amount, destination, bump) <==> bump <= p.vout[1 - payIndex].value
  {}

  /** The sender makes its payment and its own request for it. */
  method SendPayjoin(sender: JMPayjoinManager, p: Psbt, version: int, disableSetting: bool, ghost coins: seq<Coin>)
    returns (params: Params, ghost payIndex: nat)
    requires sender.config.maxAdditionalFeeContribution == Default
    requires Suitable(p, sender.walletType, sender.amount, sender.destination, coins)
    modifies sender
    ensures sender.initialPsbt == Some(p) && PaymentAt(p.vout, payIndex, sender.amount, sender.destination)
    ensures Ready(sender.Known(), p, payIndex, coins) && OwnRequest(params, sender.Known(), payIndex)
    ensures params.v == version
  {
    SuitableIsSane(p, sender.walletType, sender.amount, sender.destination, coins);
    hide Suitable, SanePayment, Uniform, Fee, Rate, MaxContribution, PaymentAt, Disjoint, Ready, Distinct;
    var ok := sender.SetPaymentTxAndPsbt(p);
    payIndex := sender.payOutIndex.value;
    SuitableIsReady(sender.Known(), p, payIndex, coins);
    RequestExists(sender.Known(), p);
    var r := MakePayjoinRequestParams(sender, version, disableSetting);
    params := r.value;
  }

  /** The sender makes its payment and its request, the receiver answers, the sender completes,
      signs and checks the proposal; `newVsize` is the size of the signed transaction.  Either
      manager may have seen other payments.  It ends with a PayJoin if and only if the number of
      the sender's first input gets fixed and is not zero, its change covers the bump, and its
      minimum fee rate is met by the payment and by the joint transaction. */
  method Negotiate(sender: JMPayjoinManager, receiver: PayjoinConverter, p: Psbt, disableSetting: bool,
                   coins: seq<Coin>, draw: nat -> nat, newVsize: nat)
    returns (v: Verdict)
    requires sender != receiver.manager && newVsize > 0
    requires receiver.manager.walletType == sender.walletType && receiver.manager.amount == sender.amount
    requires receiver.manager.destination == sender.destination
    requires sender.config.maxAdditionalFeeContribution == Default
    requires Suitable(p, sender.walletType, sender.amount, sender.destination, coins)
    modifies sender, receiver.manager
    ensures FullBump(p, sender.walletType) >= 0
    ensures v == Accepted <==>
      && MinimumMet(p, sender.config.minFeeRate)
      && FirstNumberFixed(p, old(receiver.manager.fixedSequence))
      && ChangeCovers(p, sender.amount, sender.destination, FullBump(p, sender.walletType))
      && Rate(Fee(p).value + FullBump(p, sender.walletType), newVsize) >= sender.config.minFeeRate
    ensures v == Accepted ==> sender.state == PartialReceived && sender.payjoinPsbt.Some?
  {
    SuitableIsSane(p, sender.walletType, sender.amount, sender.destination, coins);
    hide Suitable, SanePayment, Uniform, Fee, Rate, MaxContribution, FullBump, MinimumMet, RateReachable, WellFormed;
    hide ProposalFor, Acceptable, PaymentAt, Disjoint, Ready, FeeBump, Distinct, ChangeCovers, FirstNumberFixed;
    ghost var stale := receiver.manager.fixedSequence;
    var params, payIndex := SendPayjoin(sender, p, receiver.pjVersion, disableSetting, coins);
    ghost var k := sender.Known();
    BumpNotCapped(k, p, payIndex, coins, params);
    OwnRequestAnswered(p, sender.walletType, params, k, payIndex);
    ChangeCoversAt(p, sender.amount, sender.destination, FullBump(p, sender.walletType), payIndex);
    var reply := receiver.RequestToPsbt(Some(p), params, true, coins, draw, true);
    OtherPaymentAt(p.vout, payIndex, receiver.manager.payOutIndex.value, sender.amount, sender.destination);
    assert receiver.manager.fixedSequence == FixedFor(p, stale);
    hide FixedFor;
    if !reply.Proposal? {
      return Rejected;
    }
    var proposal := AddUtxos(reply.psbt, p);
    var signed := proposal.(complete := true, vsize := newVsize);
    ProposalAcceptedIff(k, p, payIndex, coins, params, reply.psbt, draw, signed, stale);
    v := sender.SetPayjoinPsbt(proposal, signed);
  }

  lemma SuitableIsSane(p: Psbt, walletType: Kind, amount: nat, destination: Script, coins: seq<Coin>)
    requires Suitable(p, walletType, amount, destination, coins)
    ensures SanePayment(p, walletType, amount, destination) && |p.vout| == 2 && p.complete
    ensures p.vout[0].script.Standard? && p.vout[1].script.Standard? && coins != [] && p.vsize > 0 && Fee(p).Some?
  {}

  lemma SuitableIsReady(k: Knowledge, p: Psbt, payIndex: nat, coins: seq<Coin>)
    requires Suitable(p, k.walletType, k.amount, k.destination, coins) && k.initial == p
    requires PaymentAt(p.vout, payIndex, k.amount, k.destination) && k.change == Some(p.vout[1 - payIndex])
    requires k.config.maxAdditionalFeeContribution == Default
    ensures Ready(k, p, payIndex, coins)
  {}

  lemma RequestExists(k: Knowledge, p: Psbt)
    requires k.initial == p && p.complete && p.vsize > 0 && Fee(p).Some?
    ensures MaxContribution(Default, p, k.walletType).Some?
  {}
}
