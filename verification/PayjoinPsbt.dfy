/** Partially signed transactions, as far as the PayJoin negotiation looks at them
    (src/jmclient/payjoin.py).

  An input carries its outpoint and sequence number and what the PSBT says about it; amounts
  are integers, fees the difference between inputs and outputs, and fee rates are real
  numbers of satoshis per virtual byte. */
module PayjoinPsbt {
  import opened Wrappers

  datatype Outpoint = Outpoint(hash: int, n: nat)

  /** An output script; only a standard one has an address, and then script and address
      determine each other. */
  datatype Script = Standard(id: int) | Nonstandard(id: int)

  datatype Kind = Sw | SwLegacy | Other

  /** An input: the transaction's outpoint and sequence number with the PSBT's fields for it.
      `value` is that of the spent output, when the PSBT names it; `segwit` says that it is
      named as a witness output; `kind` is the type of a finalized input. */
  datatype Input = Input(prevout: Outpoint, sequence: nat, value: Option<nat>, segwit: bool, finalized: bool,
                         kind: Kind, derivation: bool)

  datatype Output = Output(value: int, script: Script, derivation: bool)

  /** `vsize` is the virtual size of the finished transaction; `complete` tells whether it can
      be extracted. */
  datatype Psbt = Psbt(version: int, locktime: int, vin: seq<Input>, vout: seq<Output>, xpubs: bool,
                       complete: bool, vsize: nat)

  // ---------- counting ----------

  function CountOutpoint(vin: seq<Input>, p: Outpoint): nat {
    if vin == [] then 0
    else CountOutpoint(vin[..|vin| - 1], p) + if vin[|vin| - 1].prevout == p then 1 else 0
  }

  function CountScript(vout: seq<Output>, s: Script): nat {
    if vout == [] then 0
    else CountScript(vout[..|vout| - 1], s) + if vout[|vout| - 1].script == s then 1 else 0
  }

  function Outpoints(vin: seq<Input>): (r: seq<Outpoint>)
    ensures |r| == |vin| && forall i :: 0 <= i < |r| ==> r[i] == vin[i].prevout
  {
    seq(|vin|, i requires 0 <= i < |vin| => vin[i].prevout)
  }

  // ---------- coins ----------

  datatype Coin = Coin(outpoint: Outpoint, value: nat)

  function SumCoins(coins: seq<Coin>): nat {
    if coins == [] then 0 else SumCoins(coins[..|coins| - 1]) + coins[|coins| - 1].value
  }

  method TotalCoins(coins: seq<Coin>) returns (total: nat)
    ensures total == SumCoins(coins)
  {
    total := 0;
    for i := 0 to |coins|
      invariant total == SumCoins(coins[..i])
    {
      assert coins[..i + 1][..i] == coins[..i];
      total := total + coins[i].value;
    }
    assert coins[..|coins|] == coins;
  }

  // ---------- amounts ----------

  ghost predicate ValuesKnown(vin: seq<Input>) {
    forall i :: 0 <= i < |vin| ==> vin[i].value.Some?
  }

  function SumIn(vin: seq<Input>): nat {
    if vin == [] then 0
    else SumIn(vin[..|vin| - 1]) + if vin[|vin| - 1].value.Some? then vin[|vin| - 1].value.value else 0
  }

  function SumOut(vout: seq<Output>): int {
    if vout == [] then 0 else SumOut(vout[..|vout| - 1]) + vout[|vout| - 1].value
  }

  /** The total paid to one script. */
  function SumTo(vout: seq<Output>, s: Script): int {
    if vout == [] then 0
    else SumTo(vout[..|vout| - 1], s) + if vout[|vout| - 1].script == s then vout[|vout| - 1].value else 0
  }

  /** `get_fee`: undefined if an input's amount is unknown or the fee would be negative. */
  function Fee(p: Psbt): (f: Option<nat>)
    ensures f.Some? ==> SumIn(p.vin) == SumOut(p.vout) + f.value
  {
    var f := SumIn(p.vin) - SumOut(p.vout);
    if (forall i :: 0 <= i < |p.vin| ==> p.vin[i].value.Some?) && f >= 0 then Some(f) else None
  }

  function Rate(fee: nat, vsize: nat): real
    requires vsize > 0
  {
    fee as real / vsize as real
  }

  /** With only one output to a script, the total is its value. */
  lemma {:induction false} OneOutput(vout: seq<Output>, s: Script, k: nat)
    requires CountScript(vout, s) == 1 && k < |vout| && vout[k].script == s
    ensures SumTo(vout, s) == vout[k].value
  {
    var n := |vout| - 1;
    if k < n {
      CountPositive(vout[..n], s, k);
      OneOutput(vout[..n], s, k);
    } else {
      NoOutput(vout[..n], s);
    }
  }

  lemma {:induction false} CountPositive(vout: seq<Output>, s: Script, k: nat)
    requires k < |vout| && vout[k].script == s
    ensures CountScript(vout, s) > 0
  {
    if k < |vout| - 1 {
      CountPositive(vout[..|vout| - 1], s, k);
    }
  }

  lemma {:induction false} NoOutput(vout: seq<Output>, s: Script)
    requires CountScript(vout, s) == 0
    ensures SumTo(vout, s) == 0
    ensures forall k :: 0 <= k < |vout| ==> vout[k].script != s
  {
    if vout != [] {
      NoOutput(vout[..|vout| - 1], s);
    }
  }

  lemma {:induction false} FindOutput(vout: seq<Output>, s: Script) returns (k: nat)
    requires CountScript(vout, s) > 0
    ensures k < |vout| && vout[k].script == s
  {
    k := |vout| - 1;
    if vout[k].script != s {
      k := FindOutput(vout[..k], s);
    }
  }
}
