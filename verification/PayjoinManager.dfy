/** The sender's side of a PayJoin (src/jmclient/payjoin.py, `JMPayjoinManager`). */
module PayjoinManager {
  // A Python exception is the verdict `Crashed`.

  import opened Sequences
  import opened Wrappers
  import opened PayjoinPsbt

  datatype Verdict = Accepted | Rejected | Crashed

  datatype State = Init | PaymentCreated | PartialReceived

  const INPUT_VSIZE_SEGWIT_LEGACY: nat := 91
  const INPUT_VSIZE_SEGWIT_NATIVE: nat := 68

  /** The setting `max_additional_fee_contribution`, which is read as text, with the number it
      spells, if it does. */
  datatype FeeSetting = Default | Text(number: Option<int>)

  datatype Config = Config(maxAdditionalFeeContribution: FeeSetting, minFeeRate: real)

  function InputVsize(walletType: Kind): nat {
    if walletType == SwLegacy then INPUT_VSIZE_SEGWIT_LEGACY else INPUT_VSIZE_SEGWIT_NATIVE
  }

  // ---------- the sender's own payment ----------

  predicate IsPayment(out: Output, amount: nat, destination: Script) {
    out.value == amount && out.script == destination
  }

  ghost predicate CleanInput(inp: Input, walletType: Kind) {
    inp.segwit && inp.kind == walletType && !inp.derivation
  }

  ghost predicate Uniform(vin: seq<Input>) {
    forall i :: 0 <= i < |vin| ==> vin[i].sequence == vin[0].sequence
  }

  /** A payment fit for a PayJoin: finished, of the wallet's type, without wallet information,
      and with exactly one output for the payment beside at most one for change. */
  ghost predicate SanePayment(p: Psbt, walletType: Kind, amount: nat, destination: Script) {
    && p.complete && p.vin != [] && !p.xpubs
    && (forall i :: 0 <= i < |p.vin| ==> CleanInput(p.vin[i], walletType))
    && (forall i :: 0 <= i < |p.vout| ==> !p.vout[i].derivation)
    && (|p.vout| == 1 || |p.vout| == 2)
    && (forall i :: 0 <= i < |p.vout| && p.vout[i].value == amount ==> p.vout[i].script.Standard?)
    && (exists k :: PaymentAt(p.vout, k, amount, destination))
  }

  ghost predicate PaymentAt(vout: seq<Output>, k: nat, amount: nat, destination: Script) {
    k < |vout| && IsPayment(vout[k], amount, destination)
    && forall i :: 0 <= i < |vout| && i != k ==> !IsPayment(vout[i], amount, destination)
  }

  // ---------- what the sender insists on ----------

  /** Each of our inputs is there, once. */
  ghost predicate KeepsInputs(ours: seq<Outpoint>, vin: seq<Input>) {
    Distinct(ours) && forall j :: 0 <= j < |ours| ==> CountOutpoint(vin, ours[j]) == 1
  }

  predicate Pays(out: Output, amount: nat, destination: Script) {
    out.script == destination && out.value >= amount
  }

  function CountPaying(vout: seq<Output>, amount: nat, destination: Script): nat {
    if vout == [] then 0
    else
      CountPaying(vout[..|vout| - 1], amount, destination)
      + (if Pays(vout[|vout| - 1], amount, destination) then 1 else 0)
  }

  ghost predicate PaysOnce(vout: seq<Output>, amount: nat, destination: Script) {
    (forall i :: 0 <= i < |vout| ==> vout[i].script.Standard?) && CountPaying(vout, amount, destination) == 1
  }

  predicate Finished(inp: Input, walletType: Kind) {
    inp.finalized && inp.kind == walletType
  }

  ghost predicate OthersFinished(ours: seq<Outpoint>, vin: seq<Input>, walletType: Kind) {
    forall i :: 0 <= i < |vin| && vin[i].prevout !in ours ==> Finished(vin[i], walletType)
  }

  predicate FeesRise(initial: Psbt, signed: Psbt, minFeeRate: real) {
    && Fee(signed).Some? && Fee(initial).Some? && Fee(signed).value >= Fee(initial).value
    && signed.complete && signed.vsize > 0 && Rate(Fee(signed).value, signed.vsize) >= minFeeRate
  }

  /** `get_max_additional_fee_contribution`; None stands for a text, which Python
      refuses to compare with a number even if it spells one, and for an exception. */
  function MaxContribution(setting: FeeSetting, initial: Psbt, walletType: Kind): Option<int> {
    if setting.Text? || Fee(initial).None? || !initial.complete || initial.vsize == 0 then None
    else Some((Rate(Fee(initial).value, initial.vsize) * 1.2 * InputVsize(walletType) as real).Floor)
  }

  ghost predicate ChangeKept(change: Output, initial: Psbt, proposal: Psbt, mafc: Option<int>) {
    && CountScript(proposal.vout, change.script) == 1
    && Fee(proposal).Some? && Fee(initial).Some? && mafc.Some?
    && forall i :: 0 <= i < |proposal.vout| && proposal.vout[i].script == change.script ==>
         && change.value - proposal.vout[i].value <= Fee(proposal).value - Fee(initial).value
         && change.value - proposal.vout[i].value <= mafc.value
  }

  ghost predicate SequencesKept(initial: Psbt, proposal: Psbt) {
    initial.vin != [] && forall i :: 0 <= i < |proposal.vin| ==> proposal.vin[i].sequence == initial.vin[0].sequence
  }

  /** What the sender knows when a proposal arrives. */
  datatype Knowledge = Knowledge(initial: Psbt, change: Option<Output>, walletType: Kind, destination: Script,
                                 amount: nat, disableOutputSubstitution: bool, config: Config)

  /** The proposals that the sender will sign. */
  ghost predicate Acceptable(k: Knowledge, proposal: Psbt, signed: Psbt) {
    && KeepsInputs(Outpoints(k.initial.vin), proposal.vin)
    && (k.disableOutputSubstitution ==> PaysOnce(proposal.vout, k.amount, k.destination))
    && OthersFinished(Outpoints(k.initial.vin), proposal.vin, k.walletType)
    && FeesRise(k.initial, signed, k.config.minFeeRate)
    && (k.change.Some? ==> ChangeKept(k.change.value, k.initial, proposal,
          MaxContribution(k.config.maxAdditionalFeeContribution, k.initial, k.walletType)))
    && !proposal.xpubs
    && SequencesKept(k.initial, proposal)
    && proposal.locktime == k.initial.locktime && proposal.version == k.initial.version
  }

  // ---------- matching inputs ----------

  /** The first of `ours` equal to `p`, or their number. */
  function FirstMatch(ours: seq<Outpoint>, p: Outpoint): (j: nat)
    ensures j <= |ours| && (j < |ours| ==> ours[j] == p) && forall i :: 0 <= i < j ==> ours[i] != p
  {
    if ours == [] then 0 else if ours[0] == p then 0 else 1 + FirstMatch(ours[1..], p)
  }

  function CountFirst(vin: seq<Input>, ours: seq<Outpoint>, j: nat): nat {
    if vin == [] then 0
    else CountFirst(vin[..|vin| - 1], ours, j) + if FirstMatch(ours, vin[|vin| - 1].prevout) == j then 1 else 0
  }

  lemma {:induction false} CountFirstIsCount(vin: seq<Input>, ours: seq<Outpoint>, j: nat)
    requires j < |ours| && forall i :: 0 <= i < j ==> ours[i] != ours[j]
    ensures CountFirst(vin, ours, j) == CountOutpoint(vin, ours[j])
  {
    if vin != [] {
      CountFirstIsCount(vin[..|vin| - 1], ours, j);
    }
  }

  /** A second copy of an outpoint is never the first match. */
  lemma {:induction false} CountFirstOfCopy(vin: seq<Input>, ours: seq<Outpoint>, i: nat, j: nat)
    requires i < j < |ours| && ours[i] == ours[j]
    ensures CountFirst(vin, ours, j) == 0
  {
    if vin != [] {
      CountFirstOfCopy(vin[..|vin| - 1], ours, i, j);
    }
  }

  lemma AllFoundIff(vin: seq<Input>, ours: seq<Outpoint>, found: seq<nat>)
    requires |found| == |ours| && forall j :: 0 <= j < |ours| ==> found[j] == CountFirst(vin, ours, j)
    ensures (forall j :: 0 <= j < |found| ==> found[j] == 1) <==> KeepsInputs(ours, vin)
  {
    if Distinct(ours) {
      forall j | 0 <= j < |ours| ensures found[j] == CountOutpoint(vin, ours[j]) {
        CountFirstIsCount(vin, ours, j);
      }
    } else {
      var i, j :| 0 <= i < j < |ours| && ours[i] == ours[j];
      CountFirstOfCopy(vin, ours, i, j);
    }
  }

  method IndexOfInput(ours: seq<Outpoint>, p: Outpoint) returns (j: nat)
    ensures j == FirstMatch(ours, p)
    ensures j < |ours| <==> p in ours
  {
    j := 0;
    while j < |ours| && ours[j] != p
      invariant j <= |ours| && forall k :: 0 <= k < j ==> ours[k] != p
    {
      j := j + 1;
    }
  }

  /** After `i` inputs of the proposal: how often each of ours was found, and the others. */
  ghost predicate MatchedSoFar(found: seq<nat>, others: seq<nat>, ours: seq<Outpoint>, vin: seq<Input>, i: nat) {
    && i <= |vin| && |found| == |ours| && SumNat(found) + |others| == i
    && (forall j :: 0 <= j < |ours| ==> found[j] == CountFirst(vin[..i], ours, j))
    && forall k: nat :: k in others <==> k < i && vin[k].prevout !in ours
  }

  lemma MatchNone(ours: seq<Outpoint>, vin: seq<Input>)
    ensures MatchedSoFar(seq(|ours|, _ => 0), [], ours, vin, 0)
  {
    SumNatConst(seq(|ours|, _ => 0), 0);
  }

  lemma {:induction false} MatchOurs(found: seq<nat>, others: seq<nat>, ours: seq<Outpoint>, vin: seq<Input>, i: nat)
    requires MatchedSoFar(found, others, ours, vin, i) && i < |vin| && vin[i].prevout in ours
    ensures var j := FirstMatch(ours, vin[i].prevout);
      j < |ours| && MatchedSoFar(found[j := found[j] + 1], others, ours, vin, i + 1)
  {
    var j := FirstMatch(ours, vin[i].prevout);
    SumNatUpdate(found, j, found[j] + 1);
    assert vin[..i + 1][..i] == vin[..i];
    hide SumNat, FirstMatch;
  }

  lemma MatchOther(found: seq<nat>, others: seq<nat>, ours: seq<Outpoint>, vin: seq<Input>, i: nat)
    requires MatchedSoFar(found, others, ours, vin, i) && i < |vin| && vin[i].prevout !in ours
    ensures MatchedSoFar(found, others + [i], ours, vin, i + 1)
  {
    hide SumNat;
    assert vin[..i + 1][..i] == vin[..i];
  }

  lemma MatchDone(found: seq<nat>, others: seq<nat>, ours: seq<Outpoint>, vin: seq<Input>)
    requires MatchedSoFar(found, others, ours, vin, |vin|)
    ensures |found| == |ours| && ((forall j :: 0 <= j < |found| ==> found[j] == 1) <==> KeepsInputs(ours, vin))
    ensures KeepsInputs(ours, vin) ==> |others| + |ours| == |vin|
  {
    assert vin[..|vin|] == vin;
    AllFoundIff(vin, ours, found);
    if forall j :: 0 <= j < |found| ==> found[j] == 1 {
      SumNatConst(found, 1);
    }
  }

  /** Does the proposal contain our inputs, each once?  Also the indices of the others. */
  method CheckInputs(ours: seq<Outpoint>, vin: seq<Input>) returns (v: Verdict, others: seq<nat>)
    ensures v == Accepted <==> KeepsInputs(ours, vin)
    ensures v == Crashed <==> |others| + |ours| != |vin|
    ensures forall i: nat :: i in others <==> i < |vin| && vin[i].prevout !in ours
  {
    var found: seq<nat> := seq(|ours|, _ => 0);
    others := [];
    MatchNone(ours, vin);
    for i := 0 to |vin|
      invariant MatchedSoFar(found, others, ours, vin, i)
    {
      hide SumNat, CountFirst, FirstMatch;
      var j := IndexOfInput(ours, vin[i].prevout);
      if j < |ours| {
        MatchOurs(found, others, ours, vin, i);
        found := found[j := found[j] + 1];
      } else {
        MatchOther(found, others, ours, vin, i);
        others := others + [i];
      }
    }
    MatchDone(found, others, ours, vin);
    hide KeepsInputs, SumNat, CountFirst;
    if |others| + |ours| != |vin| {
      return Crashed, others;
    }
    v := if exists j :: 0 <= j < |found| && found[j] != 1 then Rejected else Accepted;
  }

  // ---------- the other checks ----------

  method CheckPaid(vout: seq<Output>, amount: nat, destination: Script) returns (v: Verdict)
    ensures v == Accepted <==> PaysOnce(vout, amount, destination)
    ensures v == Crashed <==> exists i :: 0 <= i < |vout| && vout[i].script.Nonstandard?
  {
    var found := 0;
    for i := 0 to |vout|
      invariant found == CountPaying(vout[..i], amount, destination)
      invariant forall k :: 0 <= k < i ==> vout[k].script.Standard?
    {
      if vout[i].script.Nonstandard? {
        return Crashed;
      }
      assert vout[..i + 1][..i] == vout[..i];
      if vout[i].script == destination && vout[i].value >= amount {
        found := found + 1;
      }
    }
    assert vout[..|vout|] == vout;
    v := if found != 1 then Rejected else Accepted;
  }

  method CheckOthers(ours: seq<Outpoint>, others: seq<nat>, proposal: Psbt, walletType: Kind) returns (v: Verdict)
    requires forall i: nat :: i in others <==> i < |proposal.vin| && proposal.vin[i].prevout !in ours
    ensures v == (if OthersFinished(ours, proposal.vin, walletType) then Accepted else Rejected)
  {
    assert forall k :: 0 <= k < |others| ==> others[k] in others;
    for k := 0 to |others|
      invariant forall m :: 0 <= m < k ==> Finished(proposal.vin[others[m]], walletType)
    {
      if !proposal.vin[others[k]].finalized {
        return Rejected;
      }
      if proposal.vin[others[k]].kind != walletType {
        return Rejected;
      }
    }
    v := Accepted;
  }

  method CheckFees(initial: Psbt, signed: Psbt, minFeeRate: real) returns (v: Verdict)
    ensures v == Accepted <==> FeesRise(initial, signed, minFeeRate)
  {
    var proposedFee := Fee(signed);
    if proposedFee.None? {
      return Rejected;
    }
    var paidFee := Fee(initial);
    if paidFee.None? {
      return Crashed;
    }
    if proposedFee.value < paidFee.value {
      return Rejected;
    }
    if !signed.complete || signed.vsize == 0 {
      return Crashed;
    }
    v := if Rate(proposedFee.value, signed.vsize) < minFeeRate then Rejected else Accepted;
  }

  /** The change output is there, once, and what it lost stays within both limits. */
  method CheckChange(change: Output, initial: Psbt, proposal: Psbt, mafc: Option<int>) returns (v: Verdict)
    ensures v == Accepted <==> ChangeKept(change, initial, proposal, mafc)
  {
    var found := 0;
    for i := 0 to |proposal.vout|
      invariant found == CountScript(proposal.vout[..i], change.script)
      invariant found > 0 ==> Fee(proposal).Some? && Fee(initial).Some? && mafc.Some?
      invariant forall k :: 0 <= k < i && proposal.vout[k].script == change.script ==>
        && found > 0
        && change.value - proposal.vout[k].value <= Fee(proposal).value - Fee(initial).value
        && change.value - proposal.vout[k].value <= mafc.value
    {
      assert proposal.vout[..i + 1][..i] == proposal.vout[..i];
      if proposal.vout[i].script == change.script {
        found := found + 1;
        var contribution := change.value - proposal.vout[i].value;
        if Fee(proposal).None? || Fee(initial).None? {
          return Crashed;
        }
        if contribution > Fee(proposal).value - Fee(initial).value {
          return Rejected;
        }
        if mafc.None? {
          return Crashed;
        }
        if contribution > mafc.value {
          return Rejected;
        }
      }
    }
    assert proposal.vout[..|proposal.vout|] == proposal.vout;
    v := if found != 1 then Rejected else Accepted;
  }

  method CheckSequences(initial: Psbt, proposal: Psbt) returns (v: Verdict)
    ensures v == Accepted <==> SequencesKept(initial, proposal)
  {
    if initial.vin == [] {
      return Crashed;
    }
    var sequence := initial.vin[0].sequence;
    for i := 0 to |proposal.vin|
      invariant forall k :: 0 <= k < i ==> proposal.vin[k].sequence == sequence
    {
      if proposal.vin[i].sequence != sequence {
        return Rejected;
      }
    }
    v := Accepted;
  }

  // ---------- the manager ----------

  class JMPayjoinManager {
    const walletType: Kind
    const destination: Script
    const amount: nat
    const disableOutputSubstitution: bool
    const config: Config
    var state: State
    var initialPsbt: Option<Psbt>
    var payjoinPsbt: Option<Psbt>
    var payOut: Option<Output>
    var payOutIndex: Option<nat>
    var changeOut: Option<Output>
    var changeOutIndex: Option<nat>
    var fixedSequence: Option<nat>

    constructor (walletType: Kind, destination: Script, amount: nat, disableOutputSubstitution: bool, config: Config)
      requires walletType != Other && destination.Standard? && amount > 0
      ensures this.walletType == walletType && this.destination == destination && this.amount == amount
      ensures this.disableOutputSubstitution == disableOutputSubstitution && this.config == config
      ensures state == Init && initialPsbt.None? && payjoinPsbt.None? && payOut.None? && payOutIndex.None?
      ensures changeOut.None? && changeOutIndex.None? && fixedSequence.None?
    {
      this.walletType, this.destination, this.amount := walletType, destination, amount;
      this.disableOutputSubstitution, this.config := disableOutputSubstitution, config;
      state, initialPsbt, payjoinPsbt := Init, None, None;
      payOut, payOutIndex, changeOut, changeOutIndex, fixedSequence := None, None, None, None, None;
    }

    /** What the manager recorded about a sane payment: which output is which, and the common
        sequence number if there is one. */
    ghost predicate Recorded(p: Psbt)
      reads this
    {
      && p.vin != [] && (|p.vout| == 1 || |p.vout| == 2)
      && payOutIndex.Some? && PaymentAt(p.vout, payOutIndex.value, amount, destination)
      && payOut == Some(p.vout[payOutIndex.value])
      && (|p.vout| == 2 ==>
            changeOutIndex == Some(1 - payOutIndex.value) && changeOut == Some(p.vout[1 - payOutIndex.value]))
      && (Uniform(p.vin) ==> fixedSequence == Some(p.vin[0].sequence))
    }

    method CheckTypes(p: Psbt) returns (v: Verdict)
      ensures v == Accepted <==>
        && (forall i :: 0 <= i < |p.vin| ==> CleanInput(p.vin[i], walletType)) && !p.xpubs
        && (forall i :: 0 <= i < |p.vout| ==> !p.vout[i].derivation)
    {
      for i := 0 to |p.vin|
        invariant forall k :: 0 <= k < i ==> p.vin[k].segwit && p.vin[k].kind == walletType
      {
        if !p.vin[i].segwit {
          return Rejected;
        }
        if p.vin[i].kind != walletType {
          return Rejected;
        }
      }
      if p.xpubs {
        return Rejected;
      }
      for i := 0 to |p.vin|
        invariant forall k :: 0 <= k < i ==> !p.vin[k].derivation
      {
        if p.vin[i].derivation {
          return Rejected;
        }
      }
      for i := 0 to |p.vout|
        invariant forall k :: 0 <= k < i ==> !p.vout[k].derivation
      {
        if p.vout[i].derivation {
          return Rejected;
        }
      }
      v := Accepted;
    }

    /** Find the payment and the change among the outputs. */
    method FindOutputs(vout: seq<Output>) returns (v: Verdict)
      requires |vout| == 1 || |vout| == 2
      modifies `payOut, `payOutIndex, `changeOut, `changeOutIndex
      ensures v == Accepted <==>
        && (forall i :: 0 <= i < |vout| && vout[i].value == amount ==> vout[i].script.Standard?)
        && exists k :: PaymentAt(vout, k, amount, destination)
      ensures v == Accepted ==>
        && payOutIndex.Some? && PaymentAt(vout, payOutIndex.value, amount, destination)
        && payOut == Some(vout[payOutIndex.value])
      ensures v == Accepted && |vout| == 2 ==>
        changeOutIndex == Some(1 - payOutIndex.value) && changeOut == Some(vout[1 - payOutIndex.value])
      ensures v == Accepted && |vout| == 1 ==> changeOut == old(changeOut) && changeOutIndex == old(changeOutIndex)
    {
      var found := 0;
      ghost var at: nat := 0;
      for i := 0 to |vout|
        invariant forall k :: 0 <= k < i && vout[k].value == amount ==> vout[k].script.Standard?
        invariant found == (if i > 0 && IsPayment(vout[0], amount, destination) then 1 else 0)
                           + if i > 1 && IsPayment(vout[1], amount, destination) then 1 else 0
        invariant found == 1 ==>
          && payOutIndex.Some? && payOutIndex.value < i && IsPayment(vout[payOutIndex.value], amount, destination)
          && payOut == Some(vout[payOutIndex.value])
        invariant found < i ==>
          && changeOutIndex.Some? && changeOutIndex.value < i
          && !IsPayment(vout[changeOutIndex.value], amount, destination)
          && changeOut == Some(vout[changeOutIndex.value])
        invariant found == i ==> changeOut == old(changeOut) && changeOutIndex == old(changeOutIndex)
      {
        if vout[i].value == amount && vout[i].script.Nonstandard? {
          return Crashed;
        }
        if vout[i].value == amount && vout[i].script == destination {
          found := found + 1;
          payOut, payOutIndex := Some(vout[i]), Some(i);
        } else {
          changeOut, changeOutIndex := Some(vout[i]), Some(i);
        }
      }
      if found == 1 {
        assert PaymentAt(vout, payOutIndex.value, amount, destination);
      } else if k :| PaymentAt(vout, k, amount, destination) {
        assert false;
      }
      v := if found != 1 then Rejected else Accepted;
    }

    /** Is the common sequence number recorded? */
    method RecordSequence(vin: seq<Input>)
      requires vin != []
      modifies `fixedSequence
      ensures fixedSequence == if Uniform(vin) then Some(vin[0].sequence) else old(fixedSequence)
    {
      var same := 0;
      for i := 0 to |vin|
        invariant same <= i && (same == i <==> forall k :: 0 <= k < i ==> vin[k].sequence == vin[0].sequence)
      {
        if vin[i].sequence == vin[0].sequence {
          same := same + 1;
        }
      }
      if same == |vin| {
        fixedSequence := Some(vin[0].sequence);
      }
    }

    /** The checks that BIP 78 asks of the receiver; the sender makes them as well. */
    method SanityCheckInitialPayment() returns (v: Verdict)
      requires initialPsbt.Some?
      modifies `payOut, `payOutIndex, `changeOut, `changeOutIndex, `fixedSequence
      ensures v == Accepted <==> SanePayment(initialPsbt.value, walletType, amount, destination)
      ensures v == Accepted ==> Recorded(initialPsbt.value)
      ensures v == Accepted && |initialPsbt.value.vout| == 1 ==>
        changeOut == old(changeOut) && changeOutIndex == old(changeOutIndex)
      ensures v == Accepted && !Uniform(initialPsbt.value.vin) ==> fixedSequence == old(fixedSequence)
    {
      var p := initialPsbt.value;
      if !p.complete {
        return Crashed;
      }
      v := CheckTypes(p);
      if v != Accepted {
        return;
      }
      if |p.vout| != 1 && |p.vout| != 2 {
        return Crashed;
      }
      v := FindOutputs(p.vout);
      if v != Accepted {
        return;
      }
      if p.vin == [] {
        return Crashed;
      }
      RecordSequence(p.vin);
    }

    method SetPaymentTxAndPsbt(p: Psbt) returns (v: Verdict)
      modifies this
      ensures v == Accepted <==> SanePayment(p, walletType, amount, destination)
      ensures initialPsbt == Some(p) && payjoinPsbt == old(payjoinPsbt)
      ensures v == Accepted ==> Recorded(p) && state == PaymentCreated
      ensures v == Accepted && |p.vout| == 1 ==> changeOut == old(changeOut) && changeOutIndex == old(changeOutIndex)
      ensures v == Accepted && !Uniform(p.vin) ==> fixedSequence == old(fixedSequence)
      ensures v != Accepted ==> v == Crashed && state == old(state)
    {
      initialPsbt := Some(p);
      v := SanityCheckInitialPayment();
      if v != Accepted {
        return Crashed;
      }
      state := PaymentCreated;
    }

    ghost function Known(): Knowledge
      requires initialPsbt.Some?
      reads this
    {
      Knowledge(initialPsbt.value, changeOut, walletType, destination, amount, disableOutputSubstitution, config)
    }

    /** The sender's checklist: the proposal is accepted if and only if it is acceptable. */
    method CheckReceiverProposal(proposal: Psbt, signed: Psbt) returns (v: Verdict)
      requires initialPsbt.Some?
      ensures v == Accepted <==> Acceptable(Known(), proposal, signed)
    {
      hide KeepsInputs, PaysOnce, OthersFinished, FeesRise, ChangeKept, SequencesKept, MaxContribution;
      var initial := initialPsbt.value;
      var ours := Outpoints(initial.vin);
      var others;
      v, others := CheckInputs(ours, proposal.vin);
      if v != Accepted {
        return;
      }
      if disableOutputSubstitution {
        v := CheckPaid(proposal.vout, amount, destination);
        if v != Accepted {
          return;
        }
      }
      v := CheckOthers(ours, others, proposal, walletType);
      if v != Accepted {
        return;
      }
      v := CheckFees(initial, signed, config.minFeeRate);
      if v != Accepted {
        return;
      }
      if changeOut.Some? {
        var mafc := MaxContribution(config.maxAdditionalFeeContribution, initial, walletType);
        v := CheckChange(changeOut.value, initial, proposal, mafc);
        if v != Accepted {
          return;
        }
      }
      if proposal.xpubs {
        return Rejected;
      }
      v := CheckSequences(initial, proposal);
      if v != Accepted {
        return;
      }
      if proposal.locktime != initial.locktime {
        return Rejected;
      }
      if proposal.version != initial.version {
        return Rejected;
      }
    }

    method SetPayjoinPsbt(proposal: Psbt, signed: Psbt) returns (v: Verdict)
      requires initialPsbt.Some?
      modifies `payjoinPsbt, `state
      ensures v == Accepted <==> Acceptable(Known(), proposal, signed)
      ensures v == Accepted ==> payjoinPsbt == Some(proposal) && state == PartialReceived
      ensures v != Accepted ==> payjoinPsbt == old(payjoinPsbt) && state == old(state)
    {
      hide Acceptable;
      v := CheckReceiverProposal(proposal, signed);
      if v != Accepted {
        return;
      }
      payjoinPsbt, state := Some(proposal), PartialReceived;
    }
  }
}
