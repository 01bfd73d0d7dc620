/** What a maker checks before it signs the coinjoin transaction that a taker proposes
    (src/jmclient/maker.py, `verify_unsigned_tx`). */
module MakerCheck {
  // The coinjoin fee is an arbitrary function of the amount, which the taker chooses.

  import opened PayjoinPsbt

  datatype Offer = Offer(utxos: seq<Coin>, cjScript: Script, changeScript: Script, amount: int, txfee: int)

  datatype Tx = Tx(vin: seq<Outpoint>, vout: seq<Output>)

  function Earned(o: Offer, calcCjFee: int -> int): int {
    calcCjFee(o.amount) - o.txfee
  }

  function ExpectedChange(o: Offer, calcCjFee: int -> int): int {
    SumCoins(o.utxos) - o.amount + Earned(o, calcCjFee)
  }

  /** Exactly one output to a script, worth at least so much. */
  ghost predicate PaidOnce(vout: seq<Output>, s: Script, least: int) {
    CountScript(vout, s) == 1 && forall i :: 0 <= i < |vout| && vout[i].script == s ==> vout[i].value >= least
  }

  /** The transactions a maker signs. */
  ghost predicate Signable(tx: Tx, o: Offer, calcCjFee: int -> int) {
    && (forall i :: 0 <= i < |o.utxos| ==> o.utxos[i].outpoint in tx.vin)
    && Earned(o, calcCjFee) >= 0
    && PaidOnce(tx.vout, o.cjScript, o.amount)
    && PaidOnce(tx.vout, o.changeScript, ExpectedChange(o, calcCjFee))
  }

  method VerifyUnsignedTx(tx: Tx, o: Offer, calcCjFee: int -> int) returns (ok: bool)
    ensures ok <==> Signable(tx, o, calcCjFee)
  {
    hide SumCoins;
    if exists i :: 0 <= i < |o.utxos| && o.utxos[i].outpoint !in tx.vin {
      return false;
    }
    var total := TotalCoins(o.utxos);
    var fee := calcCjFee(o.amount);
    var expectedChange := total - o.amount - o.txfee + fee;
    var earned := fee - o.txfee;
    if earned < 0 {
      return false;
    }
    var seenCj, seenChange := 0, 0;
    for i := 0 to |tx.vout|
      invariant seenCj == CountScript(tx.vout[..i], o.cjScript)
      invariant seenChange == CountScript(tx.vout[..i], o.changeScript)
      invariant forall k :: 0 <= k < i && tx.vout[k].script == o.cjScript ==> tx.vout[k].value >= o.amount
      invariant forall k :: 0 <= k < i && tx.vout[k].script == o.changeScript ==> tx.vout[k].value >= expectedChange
    {
      assert tx.vout[..i + 1][..i] == tx.vout[..i];
      if tx.vout[i].script == o.cjScript {
        seenCj := seenCj + 1;
        if tx.vout[i].value < o.amount {
          return false;
        }
      }
      if tx.vout[i].script == o.changeScript {
        seenChange := seenChange + 1;
        if tx.vout[i].value < expectedChange {
          return false;
        }
      }
    }
    assert tx.vout[..|tx.vout|] == tx.vout;
    if seenCj != 1 || seenChange != 1 {
      return false;
    }
    ok := true;
  }

  /** What a transaction pays to the maker's scripts, counting a common script once. */
  function PaidToMaker(tx: Tx, o: Offer): int {
    SumTo(tx.vout, o.cjScript) + if o.cjScript == o.changeScript then 0 else SumTo(tx.vout, o.changeScript)
  }

  lemma PaidAtLeast(vout: seq<Output>, s: Script, least: int)
    requires PaidOnce(vout, s, least)
    ensures SumTo(vout, s) >= least
  {
    var k := FindOutput(vout, s);
    OneOutput(vout, s, k);
  }

  /** A maker with two scripts gets back what it puts in and what it is to earn, whatever else
      the transaction does and whatever amount the taker chose. */
  lemma MakerPaid(tx: Tx, o: Offer, calcCjFee: int -> int)
    requires Signable(tx, o, calcCjFee) && o.cjScript != o.changeScript
    ensures PaidToMaker(tx, o) >= SumCoins(o.utxos) + Earned(o, calcCjFee) >= SumCoins(o.utxos)
  {
    PaidAtLeast(tx.vout, o.cjScript, o.amount);
    PaidAtLeast(tx.vout, o.changeScript, ExpectedChange(o, calcCjFee));
  }

  function Larger(a: int, b: int): int {
    if a >= b then a else b
  }

  /** With one script for both, a single output passes both checks. */
  function SharedOutput(vin: seq<Outpoint>, o: Offer, calcCjFee: int -> int): Tx {
    Tx(vin, [Output(Larger(o.amount, ExpectedChange(o, calcCjFee)), o.cjScript, false)])
  }

  lemma SharedOutputSigned(vin: seq<Outpoint>, o: Offer, calcCjFee: int -> int)
    requires o.cjScript == o.changeScript && Earned(o, calcCjFee) >= 0
    requires forall i :: 0 <= i < |o.utxos| ==> o.utxos[i].outpoint in vin
    ensures var tx := SharedOutput(vin, o, calcCjFee);
      Signable(tx, o, calcCjFee) && PaidToMaker(tx, o) == Larger(o.amount, ExpectedChange(o, calcCjFee))
  {
    var vout := SharedOutput(vin, o, calcCjFee).vout;
    assert vout[..|vout| - 1] == [];
    assert CountScript(vout[..|vout| - 1], o.cjScript) == 0 && SumTo(vout[..|vout| - 1], o.cjScript) == 0;
  }

  /** For transactions over given inputs that contain the maker's: the guarantee holds for all
      that the maker would sign if and only if its two scripts differ, or the amount or the
      expected change is not positive, or the offer earns less than nothing. */
  lemma GuaranteeIff(vin: seq<Outpoint>, o: Offer, calcCjFee: int -> int)
    requires forall i :: 0 <= i < |o.utxos| ==> o.utxos[i].outpoint in vin
    ensures
      (forall vout :: Signable(Tx(vin, vout), o, calcCjFee) ==>
         PaidToMaker(Tx(vin, vout), o) >= SumCoins(o.utxos) + Earned(o, calcCjFee))
      <==> o.cjScript != o.changeScript || o.amount <= 0 || ExpectedChange(o, calcCjFee) <= 0
           || Earned(o, calcCjFee) < 0
  {
    var change := ExpectedChange(o, calcCjFee);
    if o.cjScript != o.changeScript || o.amount <= 0 || change <= 0 || Earned(o, calcCjFee) < 0 {
      forall vout | Signable(Tx(vin, vout), o, calcCjFee)
        ensures PaidToMaker(Tx(vin, vout), o) >= SumCoins(o.utxos) + Earned(o, calcCjFee)
      {
        PaidAtLeast(vout, o.cjScript, o.amount);
        PaidAtLeast(vout, o.changeScript, change);
      }
    } else {
      SharedOutputSigned(vin, o, calcCjFee);
      var tx := SharedOutput(vin, o, calcCjFee);
      assert Signable(Tx(vin, tx.vout), o, calcCjFee);
    }
  }
}
