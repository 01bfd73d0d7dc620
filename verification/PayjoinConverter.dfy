/** The receiver's side of a PayJoin (src/jmclient/payjoin.py, `PayjoinConverter`). */
module PayjoinConverter {
  // The parameters that the sender sends along are made here as well.  Coin selection, mempool
  // acceptance and signing are given by their outcome.

  import opened Wrappers
  import opened PayjoinPsbt
  import opened PayjoinManager

  // ---------- random insertion (src/jmbase/support.py) ----------

  /** A drawn place in a list of `n` elements; draws beyond its end stand for the end. */
  function PlaceIn(draw: nat, n: nat): (at: nat)
    ensures at <= n && (draw <= n ==> at == draw)
  {
    if draw <= n then draw else n
  }

  /** `draw(k)` picks the place of the `k`-th new element, over all places there are. */
  function Inserted<T>(old_: seq<T>, news: seq<T>, draw: nat -> nat, k: nat): seq<T>
    requires k <= |news|
    decreases |news| - k
  {
    if k == |news| then old_
    else
      var at := PlaceIn(draw(k), |old_|);
      Inserted(old_[..at] + [news[k]] + old_[at..], news, draw, k + 1)
  }

  method RandomInsert<T>(old_: seq<T>, news: seq<T>, draw: nat -> nat) returns (r: seq<T>)
    ensures r == Inserted(old_, news, draw, 0)
  {
    r := old_;
    for k := 0 to |news|
      invariant Inserted(old_, news, draw, 0) == Inserted(r, news, draw, k)
    {
      var at := PlaceIn(draw(k), |r|);
      r := r[..at] + [news[k]] + r[at..];
    }
  }

  /** The elements of `s` that occur in `keep`. */
  function Only<T(==)>(s: seq<T>, keep: seq<T>): seq<T> {
    if s == [] then []
    else Only(s[..|s| - 1], keep) + if s[|s| - 1] in keep then [s[|s| - 1]] else []
  }

  lemma {:induction false} OnlyConcat<T>(a: seq<T>, b: seq<T>, keep: seq<T>)
    ensures Only(a + b, keep) == Only(a, keep) + Only(b, keep)
    decreases |b|
  {
    if b == [] {
      assert a + b == a;
    } else {
      assert (a + b)[..|a + b| - 1] == a + b[..|b| - 1];
      OnlyConcat(a, b[..|b| - 1], keep);
    }
  }

  lemma {:induction false} OnlyAll<T>(s: seq<T>, keep: seq<T>)
    requires forall x :: x in s ==> x in keep
    ensures Only(s, keep) == s
  {
    if s != [] {
      var n := |s| - 1;
      assert s[n] in s;
      forall x | x in s[..n] ensures x in keep {
        assert x in s;
      }
      OnlyAll(s[..n], keep);
    }
  }

  /** Putting in an element from elsewhere does not disturb those kept. */
  lemma {:induction false} InsertOne<T>(s: seq<T>, at: nat, x: T, keep: seq<T>)
    requires at <= |s| && x !in keep
    ensures Only(s[..at] + [x] + s[at..], keep) == Only(s, keep)
    ensures multiset(s[..at] + [x] + s[at..]) == multiset(s) + multiset{x}
  {
    OnlyConcat(s[..at] + [x], s[at..], keep);
    OnlyConcat(s[..at], [x], keep);
    OnlyConcat(s[..at], s[at..], keep);
    assert s == s[..at] + s[at..];
    assert Only(s[..at], keep) + [] + Only(s[at..], keep) == Only(s[..at], keep) + Only(s[at..], keep);
  }

  lemma {:induction false} InsertedKeeps<T>(s: seq<T>, news: seq<T>, draw: nat -> nat, k: nat, keep: seq<T>)
    requires k <= |news| && forall j :: 0 <= j < |news| ==> news[j] !in keep
    ensures Only(Inserted(s, news, draw, k), keep) == Only(s, keep)
    ensures multiset(Inserted(s, news, draw, k)) == multiset(s) + multiset(news[k..])
    decreases |news| - k
  {
    if k < |news| {
      var at := PlaceIn(draw(k), |s|);
      InsertOne(s, at, news[k], keep);
      InsertedKeeps(s[..at] + [news[k]] + s[at..], news, draw, k + 1, keep);
      assert news[k..] == [news[k]] + news[k + 1..];
    } else {
      assert news[k..] == [];
    }
  }

  /** Random insertion keeps the old elements in their order and adds exactly the new ones. */
  lemma InsertionKeepsOrder<T>(s: seq<T>, news: seq<T>, draw: nat -> nat)
    requires forall j :: 0 <= j < |news| ==> news[j] !in s
    ensures var r := Inserted(s, news, draw, 0);
      Only(r, s) == s && multiset(r) == multiset(s) + multiset(news) && |r| == |s| + |news|
  {
    InsertedKeeps(s, news, draw, 0, s);
    OnlyAll(s, s);
    assert news[0..] == news;
    assert |multiset(Inserted(s, news, draw, 0))| == |s| + |news|;
  }

  // ---------- the request ----------

  /** A number as it arrives in a request. */
  datatype Wire<T> = Number(number: T) | Malformed

  datatype Params = Params(v: int, disableOutputSubstitution: bool, additionalFeeOutputIndex: Option<Wire<int>>,
                           maxAdditionalFeeContribution: Option<Wire<int>>, minFeeRate: Option<Wire<real>>)

  /** None stands for an exception. */
  method MakePayjoinRequestParams(m: JMPayjoinManager, version: int, disableSetting: bool) returns (r: Option<Params>)
    requires m.initialPsbt.Some? && (m.changeOut.Some? ==> m.changeOutIndex.Some?)
    ensures m.changeOut.None? ==>
      r == Some(Params(version, m.disableOutputSubstitution || disableSetting, None, None,
                       Some(Number(m.config.minFeeRate))))
    ensures m.changeOut.Some? && m.config.maxAdditionalFeeContribution.Text? ==>
      var number := m.config.maxAdditionalFeeContribution.number;
      r == Some(Params(version, m.disableOutputSubstitution || disableSetting, Some(Number(m.changeOutIndex.value)),
                       Some(if number.Some? then Number(number.value) else Malformed),
                       Some(Number(m.config.minFeeRate))))
    ensures m.changeOut.Some? && m.config.maxAdditionalFeeContribution == Default ==>
      var mafc := MaxContribution(Default, m.initialPsbt.value, m.walletType);
      r == if mafc.None? then None
           else Some(Params(version, m.disableOutputSubstitution || disableSetting,
                            Some(Number(m.changeOutIndex.value)),
                            Some(Number(mafc.value)), Some(Number(m.config.minFeeRate))))
  {
    var disable := false;
    if m.disableOutputSubstitution {
      disable := true;
    } else if disableSetting {
      disable := true;
    }
    var params := Params(version, disable, None, None, None);
    if m.changeOut.Some? {
      params := params.(additionalFeeOutputIndex := Some(Number(m.changeOutIndex.value)));
      match m.config.maxAdditionalFeeContribution {
        case Default =>
          var mafc := MaxContribution(Default, m.initialPsbt.value, m.walletType);
          if mafc.None? {
            return None;
          }
          params := params.(maxAdditionalFeeContribution := Some(Number(mafc.value)));
        case Text(number) =>
          var mafc := if number.Some? then Number(number.value) else Malformed;
          params := params.(maxAdditionalFeeContribution := Some(mafc));
      }
    }
    r := Some(params.(minFeeRate := Some(Number(m.config.minFeeRate))));
  }

  // ---------- the proposal ----------

  datatype Error = VersionUnsupported | OriginalPsbtRejected | Unavailable

  datatype Reply = Proposal(psbt: Psbt) | Refused(error: Error) | Failed

  function CoinOutpoints(coins: seq<Coin>): (r: seq<Outpoint>)
    ensures |r| == |coins| && forall i :: 0 <= i < |r| ==> r[i] == coins[i].outpoint
  {
    seq(|coins|, i requires 0 <= i < |coins| => coins[i].outpoint)
  }

  /** The first coin with a given outpoint, or their number. */
  function FindCoin(coins: seq<Coin>, o: Outpoint): (j: nat)
    ensures j <= |coins| && (j < |coins| ==> coins[j].outpoint == o)
    ensures j < |coins| <==> o in CoinOutpoints(coins)
  {
    if coins == [] then 0
    else
      assert CoinOutpoints(coins)[0] == coins[0].outpoint;
      assert CoinOutpoints(coins) == [coins[0].outpoint] + CoinOutpoints(coins[1..]);
      if coins[0].outpoint == o then 0 else 1 + FindCoin(coins[1..], o)
  }

  /** The sequence number that `mktx` chooses. */
  function DefaultSequence(locktime: int): nat {
    if locktime != 0 then 0xFFFF_FFFE else 0xFFFF_FFFF
  }

  /** A sender's uniform sequence number is used for all inputs, unless it is zero; otherwise
      its inputs keep theirs. */
  function SequenceFor(o: Outpoint, p: Psbt, fixed: Option<nat>): nat {
    if fixed.Some? && fixed.value != 0 then fixed.value else OwnSequence(o, p)
  }

  function OwnSequence(o: Outpoint, p: Psbt): nat {
    var j := FirstMatch(Outpoints(p.vin), o);
    if j < |p.vin| then p.vin[j].sequence else DefaultSequence(p.locktime)
  }

  /** What each input of the proposal spends. */
  function SpentOut(o: Outpoint, p: Psbt, coins: seq<Coin>): Option<nat> {
    var j := FirstMatch(Outpoints(p.vin), o);
    if j < |p.vin| then p.vin[j].value
    else
      var c := FindCoin(coins, o);
      if c < |coins| then Some(coins[c].value) else None
  }

  /** An input of the proposal as it is sent: the receiver's are signed, the sender's bare. */
  function ProposedInput(o: Outpoint, sequence: nat, value: Option<nat>, own: bool, walletType: Kind): Input {
    if own then Input(o, sequence, None, false, false, Other, false)
    else Input(o, sequence, value, true, true, walletType, false)
  }

  ghost predicate ProposedInputs(vin: seq<Input>, outpoints: seq<Outpoint>, p: Psbt, coins: seq<Coin>, walletType: Kind,
                                 fixed: Option<nat>)
  {
    |vin| == |outpoints| && forall i :: 0 <= i < |vin| ==>
      vin[i] == ProposedInput(outpoints[i], SequenceFor(outpoints[i], p, fixed), SpentOut(outpoints[i], p, coins),
                              outpoints[i] in Outpoints(p.vin), walletType)
  }

  function FeeBump(p: Psbt, walletType: Kind, params: Params): int {
    if params.additionalFeeOutputIndex.None? || p.vsize == 0 || Fee(p).None? then 0
    else
      var bump := (Rate(Fee(p).value, p.vsize) * InputVsize(walletType) as real).Floor;
      match params.maxAdditionalFeeContribution
      case Some(Number(mafc)) => if bump > mafc then mafc else bump
      case _ => bump
  }

  /** The payment grows by the receiver's coins and the change shrinks by the bump, which it
      covers, in place. */
  ghost predicate ProposedOutputs(vout: seq<Output>, pay: Output, change: Output, payIndex: nat, received: nat,
                                  bump: int)
  {
    && |vout| == 2 && payIndex < 2 && bump <= change.value
    && vout[payIndex] == Output(pay.value + received, pay.script, false)
    && vout[1 - payIndex] == Output(change.value - bump, change.script, false)
  }

  /** The proposal made of a payment, its change output and a sequence number. */
  ghost predicate ProposalFor(q: Psbt, p: Psbt, params: Params, coins: seq<Coin>, draw: nat -> nat, walletType: Kind,
                              payIndex: nat, change: Output, fixed: Option<nat>)
  {
    && payIndex < |p.vout|
    && q.version == p.version && q.locktime == p.locktime && !q.xpubs
    && ProposedInputs(q.vin, Inserted(Outpoints(p.vin), CoinOutpoints(coins), draw, 0), p, coins, walletType, fixed)
    && ProposedOutputs(q.vout, p.vout[payIndex], change, payIndex, SumCoins(coins), FeeBump(p, walletType, params))
  }

  predicate WellFormed(params: Params) {
    && params.additionalFeeOutputIndex != Some(Malformed) && params.maxAdditionalFeeContribution != Some(Malformed)
    && params.minFeeRate != Some(Malformed)
    && (params.additionalFeeOutputIndex.Some? <==> params.maxAdditionalFeeContribution.Some?)
  }

  /** The minimum fee rate that counts: none, or one that is not zero. */
  function MinRate(params: Params): Option<real> {
    match params.minFeeRate
    case Some(Number(r)) => if r == 0.0 then None else Some(r)
    case _ => None
  }

  /** The sender's minimum fee rate can be met: it is not above that of its own payment, and
      without a fee contribution it survives the larger transaction (whose size is taken with
      the new input counted twice). */
  predicate RateReachable(p: Psbt, walletType: Kind, params: Params) {
    && (params.additionalFeeOutputIndex.Some? || MinRate(params).Some? ==> p.vsize > 0 && Fee(p).Some?)
    && (MinRate(params).Some? ==>
          && MinRate(params).value <= Rate(Fee(p).value, p.vsize)
          && (params.additionalFeeOutputIndex.None? ==>
                Rate(Fee(p).value, p.vsize + InputVsize(walletType) + InputVsize(walletType)) >= MinRate(params).value))
  }

  /** What the sender pays for the receiver's input is what it offered to pay: nothing without an
      offer, never more than the limit it gave, and less than what keeps the fee rate, rounded
      down, only if that is the limit. */
  ghost predicate WithinOffer(paid: int, p: Psbt, walletType: Kind, params: Params) {
    && (params.additionalFeeOutputIndex.None? ==> paid == 0)
    && (params.additionalFeeOutputIndex.Some? ==>
          && p.vsize > 0 && Fee(p).Some? && params.maxAdditionalFeeContribution.Some?
          && params.maxAdditionalFeeContribution.value.Number?
          && var size := if walletType == SwLegacy then 91.0 else 68.0;
             var fair := Fee(p).value as real / p.vsize as real * size;
             var limit := params.maxAdditionalFeeContribution.value.number;
             paid <= limit && paid as real <= fair && (paid == limit || fair < paid as real + 1.0))
  }

  /** Every proposal charges the sender within its offer, whoever the sender is. */
  lemma ChargedWithinOffer(q: Psbt, p: Psbt, params: Params, coins: seq<Coin>, draw: nat -> nat, walletType: Kind,
                           payIndex: nat, change: Output, fixed: Option<nat>)
    requires ProposalFor(q, p, params, coins, draw, walletType, payIndex, change, fixed)
    requires WellFormed(params) && RateReachable(p, walletType, params)
    ensures |q.vout| == 2 && payIndex < 2 && q.vout[1 - payIndex].script == change.script
    ensures WithinOffer(change.value - q.vout[1 - payIndex].value, p, walletType, params)
  {
    hide ProposedInputs, Fee, SumCoins;
  }

  /** Build the list of inputs, what each of them spends, and which are the sender's. */
  method FillInputs(outpoints: seq<Outpoint>, p: Psbt, coins: seq<Coin>)
    returns (ok: bool, sequences: seq<nat>, spentOuts: seq<Option<nat>>, senders: seq<bool>)
    ensures ok <==> forall i :: 0 <= i < |outpoints| ==>
      outpoints[i] in Outpoints(p.vin) || outpoints[i] in CoinOutpoints(coins)
    ensures ok ==> |sequences| == |spentOuts| == |senders| == |outpoints| && forall i :: 0 <= i < |outpoints| ==>
      && sequences[i] == OwnSequence(outpoints[i], p)
      && spentOuts[i] == SpentOut(outpoints[i], p, coins)
      && senders[i] == (outpoints[i] in Outpoints(p.vin))
  {
    hide FirstMatch, FindCoin;
    sequences, spentOuts, senders := [], [], [];
    for i := 0 to |outpoints|
      invariant |sequences| == |spentOuts| == |senders| == i
      invariant forall k :: 0 <= k < i ==>
        && sequences[k] == OwnSequence(outpoints[k], p)
        && spentOuts[k] == SpentOut(outpoints[k], p, coins)
        && senders[k] == (outpoints[k] in Outpoints(p.vin))
        && (outpoints[k] in Outpoints(p.vin) || outpoints[k] in CoinOutpoints(coins))
    {
      var o := outpoints[i];
      var j := IndexOfInput(Outpoints(p.vin), o);
      if j < |p.vin| {
        sequences, spentOuts := sequences + [p.vin[j].sequence], spentOuts + [p.vin[j].value];
        senders := senders + [true];
      } else {
        var c := FindCoin(coins, o);
        if c == |coins| {
          return false, sequences, spentOuts, senders;
        }
        sequences, spentOuts := sequences + [DefaultSequence(p.locktime)], spentOuts + [Some(coins[c].value)];
        senders := senders + [false];
      }
    }
    ok := true;
  }

  /** The outputs in their original order, before the bump: None for a failed assertion. */
  method PlaceOutputs(pay: Output, payIndex: nat, change: Output, changeIndex: nat) returns (r: Option<seq<Output>>)
    ensures payIndex == 0 && changeIndex == 1 ==> r == Some([pay, change])
    ensures payIndex == 1 && changeIndex == 0 ==> r == Some([change, pay])
    ensures payIndex + changeIndex != 1 ==> r.None?
  {
    if changeIndex == 0 && payIndex == 1 {
      return Some([change, pay]);
    } else if changeIndex == 1 && payIndex == 0 {
      return Some([pay, change]);
    }
    return None;
  }

  /** Sign: the receiver's inputs are finished; then the sender's are stripped. */
  method FinishInputs(outpoints: seq<Outpoint>, sequences: seq<nat>, spentOuts: seq<Option<nat>>, senders: seq<bool>,
                      fixed: Option<nat>, walletType: Kind, ghost p: Psbt, ghost coins: seq<Coin>)
    returns (vin: seq<Input>)
    requires |sequences| == |spentOuts| == |senders| == |outpoints|
    requires forall i :: 0 <= i < |outpoints| ==>
      && sequences[i] == OwnSequence(outpoints[i], p)
      && spentOuts[i] == SpentOut(outpoints[i], p, coins)
      && senders[i] == (outpoints[i] in Outpoints(p.vin))
    ensures ProposedInputs(vin, outpoints, p, coins, walletType, fixed)
  {
    hide OwnSequence, SpentOut;
    vin := [];
    for i := 0 to |outpoints|
      invariant |vin| == i && forall k :: 0 <= k < i ==>
        vin[k] == ProposedInput(outpoints[k], SequenceFor(outpoints[k], p, fixed), SpentOut(outpoints[k], p, coins),
                                outpoints[k] in Outpoints(p.vin), walletType)
    {
      var sequence := sequences[i];
      if fixed.Some? && fixed.value != 0 {
        sequence := fixed.value;
      }
      vin := vin + [ProposedInput(outpoints[i], sequence, spentOuts[i], senders[i], walletType)];
    }
  }

  lemma {:induction false} InsertedFrom<T>(s: seq<T>, news: seq<T>, draw: nat -> nat, k: nat)
    requires k <= |news|
    ensures forall x :: x in Inserted(s, news, draw, k) ==> x in s || x in news
    decreases |news| - k
  {
    if k < |news| {
      var at := PlaceIn(draw(k), |s|);
      var t := s[..at] + [news[k]] + s[at..];
      InsertedFrom(t, news, draw, k + 1);
      forall x | x in t ensures x in s || x in news {}
    }
  }

  /** A minimum fee rate of zero asks for nothing. */
  lemma ZeroMinRate(p: Psbt, walletType: Kind, params: Params)
    requires params.minFeeRate == Some(Number(0.0))
    ensures RateReachable(p, walletType, params) <==> RateReachable(p, walletType, params.(minFeeRate := None))
  {
    hide Fee;
  }

  /** What a proposal says about an input that is the sender's, or ours. */
  ghost predicate AsSent(inp: Input, p: Psbt, coins: seq<Coin>, walletType: Kind) {
    if inp.prevout in Outpoints(p.vin) then
      inp.value.None? && !inp.segwit && !inp.finalized && !inp.derivation
    else
      && inp.segwit && inp.finalized && inp.kind == walletType && !inp.derivation
      && exists c :: 0 <= c < |coins| && coins[c].outpoint == inp.prevout && inp.value == Some(coins[c].value)
  }

  /** The sequence number of an input: the sender's common one, if there is one that is not zero,
      and otherwise the sender's own for its inputs and the final one for ours. */
  ghost predicate SequenceAsSent(inp: Input, p: Psbt, fixed: Option<nat>) {
    if fixed.Some? && fixed.value != 0 then inp.sequence == fixed.value
    else if inp.prevout in Outpoints(p.vin) then
      exists j :: 0 <= j < |p.vin| && p.vin[j].prevout == inp.prevout && inp.sequence == p.vin[j].sequence
    else inp.sequence == if p.locktime == 0 then 0xffff_ffff else 0xffff_fffe
  }

  /** A proposal reveals nothing about the sender's inputs and everything about ours, which are
      signed. */
  lemma ProposalInputs(q: Psbt, p: Psbt, params: Params, coins: seq<Coin>, draw: nat -> nat, walletType: Kind,
                       payIndex: nat, change: Output, fixed: Option<nat>)
    requires ProposalFor(q, p, params, coins, draw, walletType, payIndex, change, fixed)
    ensures forall i :: 0 <= i < |q.vin| ==> AsSent(q.vin[i], p, coins, walletType) && SequenceAsSent(q.vin[i], p, fixed)
  {
    hide ProposedOutputs, FeeBump, Inserted;
    var outpoints := Inserted(Outpoints(p.vin), CoinOutpoints(coins), draw, 0);
    InsertedFrom(Outpoints(p.vin), CoinOutpoints(coins), draw, 0);
    forall i | 0 <= i < |q.vin| ensures AsSent(q.vin[i], p, coins, walletType) && SequenceAsSent(q.vin[i], p, fixed) {
      assert outpoints[i] in outpoints;
      InputAsSent(outpoints[i], p, coins, walletType, fixed);
    }
  }

  lemma InputAsSent(o: Outpoint, p: Psbt, coins: seq<Coin>, walletType: Kind, fixed: Option<nat>)
    requires o in Outpoints(p.vin) || o in CoinOutpoints(coins)
    ensures var inp := ProposedInput(o, SequenceFor(o, p, fixed), SpentOut(o, p, coins), o in Outpoints(p.vin), walletType);
      inp.prevout == o && AsSent(inp, p, coins, walletType) && SequenceAsSent(inp, p, fixed)
  {
    hide FirstMatch, FindCoin;
    FirstMatchFinds(Outpoints(p.vin), o);
    var j := FirstMatch(Outpoints(p.vin), o);
    if j == |p.vin| {
      var c := FindCoin(coins, o);
      assert coins[c].outpoint == o;
    } else {
      assert p.vin[j].prevout == o;
    }
  }

  lemma {:induction false} FirstMatchFinds(ours: seq<Outpoint>, o: Outpoint)
    ensures FirstMatch(ours, o) < |ours| <==> o in ours
  {
    if ours != [] {
      FirstMatchFinds(ours[1..], o);
    }
  }

  class PayjoinConverter {
    const manager: JMPayjoinManager
    const pjVersion: int

    constructor (manager: JMPayjoinManager, pjVersion: int)
      ensures this.manager == manager && this.pjVersion == pjVersion
    {
      this.manager, this.pjVersion := manager, pjVersion;
    }

    /** Was the payment looked at, and found sane? */
    ghost predicate Examined(payment: Option<Psbt>, params: Params) {
      && params.v == pjVersion && payment.Some?
      && SanePayment(payment.value, manager.walletType, manager.amount, manager.destination)
    }

    /** Is the request taken on?  The output that the sender lets pay must be the change. */
    ghost predicate Taken(payment: Option<Psbt>, params: Params, mempoolAccepts: bool)
      reads manager
    {
      && Examined(payment, params) && WellFormed(params) && mempoolAccepts
      && (params.additionalFeeOutputIndex.Some? ==>
            && manager.changeOutIndex.Some?
            && manager.changeOutIndex.value == params.additionalFeeOutputIndex.value.number)
    }

    /** Payment and change are the two outputs, and the change covers its share of the fee. */
    ghost predicate CanPay(p: Psbt, params: Params)
      reads manager
    {
      && manager.changeOut.Some? && manager.changeOut.value.script.Standard? && manager.changeOutIndex.Some?
      && manager.payOutIndex.Some? && manager.payOutIndex.value + manager.changeOutIndex.value == 1
      && FeeBump(p, manager.walletType, params) <= manager.changeOut.value.value
    }

    /** The requests that are answered with a proposal. */
    ghost predicate Willing(payment: Option<Psbt>, params: Params, mempoolAccepts: bool, coins: seq<Coin>, signs: bool)
      reads manager
    {
      && Taken(payment, params, mempoolAccepts) && coins != [] && signs
      && CanPay(payment.value, params) && RateReachable(payment.value, manager.walletType, params)
    }

    ghost predicate IsProposal(q: Psbt, p: Psbt, params: Params, coins: seq<Coin>, draw: nat -> nat)
      reads manager
    {
      && manager.payOutIndex.Some? && manager.changeOut.Some?
      && ProposalFor(q, p, params, coins, draw, manager.walletType, manager.payOutIndex.value, manager.changeOut.value,
                     manager.fixedSequence)
    }

    /** The change covers what the sender offered towards the fee, and no more. */
    ghost predicate Charged(q: Psbt, p: Psbt, params: Params)
      reads manager
    {
      && manager.payOutIndex.Some? && manager.payOutIndex.value < 2 == |q.vout| && manager.changeOut.Some?
      && WithinOffer(manager.changeOut.value.value - q.vout[1 - manager.payOutIndex.value].value, p,
                     manager.walletType, params)
    }

    /** What is recorded about a payment, and what is still known from earlier ones: the change
        if this one has none, the common sequence number if this one has none. */
    twostate predicate Remembers(p: Psbt)
      reads manager
    {
      && manager.Recorded(p)
      && (|p.vout| == 1 ==>
            manager.changeOut == old(manager.changeOut) && manager.changeOutIndex == old(manager.changeOutIndex))
      && (!Uniform(p.vin) ==> manager.fixedSequence == old(manager.fixedSequence))
    }

    /** Take the payment on and check what the sender asks for. */
    method AcceptRequest(payment: Option<Psbt>, params: Params, mempoolAccepts: bool) returns (r: Option<Error>)
      modifies manager
      ensures r.None? <==> Taken(payment, params, mempoolAccepts)
      ensures r.Some? ==> r.value == if params.v != pjVersion then VersionUnsupported else OriginalPsbtRejected
      ensures Examined(payment, params) ==> Remembers(payment.value) && manager.initialPsbt == payment
    {
      hide SanePayment, Uniform;
      if params.v != pjVersion {
        return Some(VersionUnsupported);
      }
      if payment.None? {
        return Some(OriginalPsbtRejected);
      }
      var v := manager.SetPaymentTxAndPsbt(payment.value);
      if v != Accepted {
        return Some(OriginalPsbtRejected);
      }
      if !WellFormed(params) {
        return Some(OriginalPsbtRejected);
      }
      if params.additionalFeeOutputIndex.Some?
         && !(manager.changeOutIndex.Some?
              && manager.changeOutIndex.value == params.additionalFeeOutputIndex.value.number) {
        return Some(OriginalPsbtRejected);
      }
      if !mempoolAccepts {
        return Some(OriginalPsbtRejected);
      }
      return None;
    }

    /** Turn a payment into a PayJoin proposal.  With no change known the method fails: the
        variable that holds it is never assigned. */
    method RequestToPsbt(payment: Option<Psbt>, params: Params, mempoolAccepts: bool, coins: seq<Coin>,
                         draw: nat -> nat, signs: bool)
      returns (r: Reply)
      modifies manager
      ensures r.Proposal? <==> Willing(payment, params, mempoolAccepts, coins, signs)
      ensures r.Proposal? ==> IsProposal(r.psbt, payment.value, params, coins, draw)
      ensures r.Proposal? ==> Charged(r.psbt, payment.value, params)
      ensures params.additionalFeeOutputIndex.None? != params.maxAdditionalFeeContribution.None? ==> r.Refused?
      ensures params.additionalFeeOutputIndex == Some(Malformed) || params.maxAdditionalFeeContribution == Some(Malformed)
        ==> r.Refused?
      ensures params.minFeeRate == Some(Malformed) ==> r.Refused?
      ensures !Taken(payment, params, mempoolAccepts) ==>
        r == Refused(if params.v != pjVersion then VersionUnsupported else OriginalPsbtRejected)
      ensures Taken(payment, params, mempoolAccepts) && coins == [] ==> r == Refused(Unavailable)
      ensures Taken(payment, params, mempoolAccepts) && coins != [] && manager.changeOut.None? ==> r.Failed?
      ensures Examined(payment, params) ==> Remembers(payment.value)
    {
      hide SanePayment, Uniform, FeeBump, RateReachable, Fee, ProposalFor, WithinOffer;
      var refused := AcceptRequest(payment, params, mempoolAccepts);
      if refused.Some? {
        return Refused(refused.value);
      }
      r := MakeProposal(payment.value, params, coins, draw, signs);
    }

    /** Join the payment, which has been accepted, with our coins. */
    method MakeProposal(p: Psbt, params: Params, coins: seq<Coin>, draw: nat -> nat, signs: bool) returns (r: Reply)
      requires manager.Recorded(p) && WellFormed(params)
      ensures r.Proposal? <==>
        coins != [] && CanPay(p, params) && RateReachable(p, manager.walletType, params) && signs
      ensures r.Proposal? ==> IsProposal(r.psbt, p, params, coins, draw) && Charged(r.psbt, p, params)
      ensures coins == [] <==> r == Refused(Unavailable)
      ensures r.Refused? && coins != [] ==> r == Refused(OriginalPsbtRejected)
      ensures coins != [] && manager.changeOut.None? ==> r.Failed?
    {
      hide Uniform, SumCoins, FirstMatch, FindCoin, Outpoints, CoinOutpoints, Inserted, ProposedInputs;
      hide FeeBump, RateReachable, Fee, OwnSequence, SpentOut, SequenceFor, ProposedInput, IsPayment, WithinOffer;
      hide WellFormed;
      if coins == [] {
        return Refused(Unavailable);
      }
      var outpoints := RandomInsert(Outpoints(p.vin), CoinOutpoints(coins), draw);
      if manager.changeOut.None? {
        return Failed;
      }
      var received := TotalCoins(coins);
      var outs := MakeOutputs(received);
      if outs.None? {
        return Failed;
      }
      var verdict := CheckRate(p, params);
      if verdict != Accepted {
        return if verdict == Rejected then Refused(OriginalPsbtRejected) else Failed;
      }
      var bump := FeeBump(p, manager.walletType, params);
      var c := manager.changeOutIndex.value;
      var vout := outs.value[c := outs.value[c].(value := outs.value[c].value - bump)];
      if vout[c].value < 0 {
        return Failed;  // no transaction has such an output
      }
      var ok, sequences, spentOuts, senders := FillInputs(outpoints, p, coins);
      InsertedFrom(Outpoints(p.vin), CoinOutpoints(coins), draw, 0);
      if !ok || !signs {
        return Failed;
      }
      var vin := FinishInputs(outpoints, sequences, spentOuts, senders, manager.fixedSequence, manager.walletType, p,
                              coins);
      var q := Psbt(p.version, p.locktime, vin, vout, false, false, 0);
      ChargedWithinOffer(q, p, params, coins, draw, manager.walletType, manager.payOutIndex.value,
                         manager.changeOut.value, manager.fixedSequence);
      return Proposal(q);
    }

    /** Both outputs by address, in their original order, the payment with our coins added. */
    method MakeOutputs(received: nat) returns (r: Option<seq<Output>>)
      requires manager.payOut.Some? && manager.payOutIndex.Some? && manager.changeOut.Some?
      ensures r.Some? <==>
        && manager.changeOut.value.script.Standard? && manager.changeOutIndex.Some?
        && (manager.payOutIndex.value == 0 || manager.payOutIndex.value == 1)
        && manager.changeOutIndex.value == 1 - manager.payOutIndex.value
      ensures r.Some? ==>
        && |r.value| == 2 && manager.changeOutIndex.Some?
        && manager.payOutIndex.value < 2 && manager.changeOutIndex.value < 2
        && r.value[manager.payOutIndex.value]
           == Output(manager.payOut.value.value + received, manager.payOut.value.script, false)
        && r.value[manager.changeOutIndex.value]
           == Output(manager.changeOut.value.value, manager.changeOut.value.script, false)
    {
      if manager.changeOut.value.script.Nonstandard? || manager.changeOutIndex.None? {
        return None;
      }
      var pay := manager.payOut.value;
      pay := Output(pay.value + received, pay.script, false);
      var change := manager.changeOut.value;
      change := Output(change.value, change.script, false);
      r := PlaceOutputs(pay, manager.payOutIndex.value, change, manager.changeOutIndex.value);
    }

    method CheckRate(p: Psbt, params: Params) returns (v: Verdict)
      ensures v == Accepted <==> RateReachable(p, manager.walletType, params)
    {
      hide Fee;
      var minRate := MinRate(params);
      if minRate.Some? {
        if p.vsize == 0 || Fee(p).None? {
          return Crashed;
        }
        if minRate.value > Rate(Fee(p).value, p.vsize) {
          return Rejected;
        }
      }
      if params.additionalFeeOutputIndex.Some? {
        if p.vsize == 0 || Fee(p).None? {
          return Crashed;
        }
      } else if minRate.Some? {
        var expectedSize := p.vsize + InputVsize(manager.walletType);
        if Rate(Fee(p).value, expectedSize + InputVsize(manager.walletType)) < minRate.value {
          return Rejected;
        }
      }
      v := Accepted;
    }
  }
}
