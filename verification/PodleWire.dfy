/** The over-the-wire form of an opened commitment (src/jmclient/podle.py, src/jmbase/support.py). */
module PodleWire {
  import opened Hexadecimal
  import opened Wrappers
  import opened PrimeField
  import opened Podle

  // ---------- hexadecimal ----------

  function BinToHex(bs: Bytes): (h: string)
    ensures |h| == 2 * |bs|
  {
    if bs == [] then "" else [HexChar(bs[0] / 16), HexChar(bs[0] % 16)] + BinToHex(bs[1..])
  }

  function HexToBin(h: string): Result<Bytes> {
    if h == "" then Ok([])
    else if |h| == 1 || !IsHex(h[0]) || !IsHex(h[1]) then Error
    else
      match HexToBin(h[2..])
      case Ok(rest) => Ok([DigitOf(h[0]) * 16 + DigitOf(h[1])] + rest)
      case Error => Error
  }

  lemma HexCharPlain(v: nat)
    requires v < 16
    ensures HexChar(v) !in "|:-+"
  {}

  lemma HexPair(b: byte, rest: string)
    ensures HexToBin([HexChar(b / 16), HexChar(b % 16)] + rest) ==
            match HexToBin(rest) case Ok(bs) => Ok([b] + bs) case Error => Error
  {
    hide HexChar, DigitOf;
    var h := [HexChar(b / 16), HexChar(b % 16)] + rest;
    assert h[2..] == rest;
    assert (b / 16) * 16 + b % 16 == b;
  }

  lemma {:induction false} HexRoundTrip(bs: Bytes)
    ensures HexToBin(BinToHex(bs)) == Ok(bs)
  {
    hide HexToBin, HexChar;
    if bs == [] {
      HexEmpty();
    } else {
      HexRoundTrip(bs[1..]);
      HexPair(bs[0], BinToHex(bs[1..]));
      assert bs == [bs[0]] + bs[1..];
    }
  }

  lemma HexEmpty()
    ensures HexToBin("") == Ok([])
  {}

  ghost predicate Without(s: string, seps: string) {
    forall i :: 0 <= i < |s| ==> s[i] !in seps
  }

  lemma {:induction false} HexWithout(bs: Bytes)
    ensures Without(BinToHex(bs), "|:")
  {
    if bs != [] {
      HexCharPlain(bs[0] / 16);
      HexCharPlain(bs[0] % 16);
      HexWithout(bs[1..]);
      forall i | 0 <= i < |BinToHex(bs)| ensures BinToHex(bs)[i] !in "|:" {
        if i >= 2 {
          assert BinToHex(bs)[i] == BinToHex(bs[1..])[i - 2];
        }
      }
    }
  }

  // ---------- decimal ----------

  function DecimalChar(v: nat): char
    requires v < 10
  {
    (v + '0' as int) as char
  }

  /** Python's `str` of a non-negative integer. */
  function Decimal(n: nat): (s: string)
    ensures s != ""
  {
    if n < 10 then [DecimalChar(n)] else Decimal(n / 10) + [DecimalChar(n % 10)]
  }

  function ParseDigits(s: string): Option<nat> {
    if s == "" then Some(0)
    else
      var last := s[|s| - 1];
      match ParseDigits(s[..|s| - 1])
      case Some(n) => if '0' <= last <= '9' then Some(n * 10 + (last as int - '0' as int)) else None
      case None => None
  }

  /** Python's `int` of a string: decimal digits with an optional sign. */
  function ParseInt(s: string): Option<int> {
    if s == "" then None
    else if s[0] == '-' || s[0] == '+' then
      if |s| == 1 then None
      else
        match ParseDigits(s[1..])
        case Some(n) =>
          var v: int := n;
          Some(if s[0] == '-' then -v else v)
        case None => None
    else
      match ParseDigits(s)
      case Some(n) => Some(n)
      case None => None
  }

  lemma {:induction false} DecimalDigits(n: nat)
    ensures ParseDigits(Decimal(n)) == Some(n)
    ensures Without(Decimal(n), "|:-+")
  {
    var s := Decimal(n);
    if n < 10 {
      assert s[..0] == "";
    } else {
      DecimalDigits(n / 10);
      assert s[..|s| - 1] == Decimal(n / 10);
    }
  }

  lemma DecimalRoundTrip(n: nat)
    ensures ParseInt(Decimal(n)) == Some(n)
  {
    DecimalDigits(n);
    assert Decimal(n)[0] !in "|:-+";
  }

  // ---------- splitting and joining ----------

  /** Python's `str.split` on one separator character: never empty. */
  function Split(s: string, sep: char): (parts: seq<string>)
    ensures parts != []
  {
    if s == "" then [""]
    else
      var rest := Split(s[1..], sep);
      if s[0] == sep then [""] + rest else [[s[0]] + rest[0]] + rest[1..]
  }

  function Join(parts: seq<string>, sep: char): string {
    if parts == [] then "" else if |parts| == 1 then parts[0] else parts[0] + [sep] + Join(parts[1..], sep)
  }

  lemma {:induction false} SplitHead(a: string, sep: char, tail: string)
    requires sep !in a
    ensures Split(a + [sep] + tail, sep) == [a] + Split(tail, sep)
    ensures Split(a, sep) == [a]
  {
    if a == "" {
      assert (a + [sep] + tail)[1..] == tail;
    } else {
      assert (a + [sep] + tail)[1..] == a[1..] + [sep] + tail;
      SplitHead(a[1..], sep, tail);
      assert a == [a[0]] + a[1..];
    }
  }

  /** Splitting undoes joining when no part contains the separator. */
  lemma {:induction false} SplitJoin(parts: seq<string>, sep: char)
    requires parts != [] && forall i :: 0 <= i < |parts| ==> sep !in parts[i]
    ensures Split(Join(parts, sep), sep) == parts
    decreases |parts|
  {
    if |parts| == 1 {
      SplitHead(parts[0], sep, "");
    } else {
      SplitJoin(parts[1..], sep);
      SplitHead(parts[0], sep, Join(parts[1..], sep));
      assert parts == [parts[0]] + parts[1..];
    }
  }

  // ---------- utxos ----------

  const TXID_BYTES := 32

  datatype Utxo = Utxo(txid: Bytes, n: int)

  function UtxoToString(u: Utxo): Result<string> {
    if u.n < 0 then Error
    else if |u.txid| != TXID_BYTES then Error
    else Ok(BinToHex(u.txid) + ":" + Decimal(u.n))
  }

  function UtxoFromString(x: string): Result<Utxo> {
    var y := Split(x, ':');
    if |y| != 2 then Error
    else
      match ParseInt(y[1])
      case None => Error
      case Some(n) =>
        if n < 0 then Error
        else if |y[0]| != 64 then Error
        else
          match HexToBin(y[0])
          case Error => Error
          case Ok(txid) => Ok(Utxo(txid, n))
  }

  /** A utxo with a 32 byte txid and a non-negative index, and only such a utxo, survives the
      trip through its string form. */
  lemma UtxoRoundTrip(u: Utxo)
    ensures UtxoToString(u).Ok? <==> u.n >= 0 && |u.txid| == TXID_BYTES
    ensures UtxoToString(u).Ok? ==>
      UtxoFromString(UtxoToString(u).value) == Ok(u) && Without(UtxoToString(u).value, "|")
  {
    hide BinToHex, HexToBin, Decimal, ParseInt, Split, ParseDigits;
    if u.n >= 0 && |u.txid| == TXID_BYTES {
      var h, d := BinToHex(u.txid), Decimal(u.n);
      HexRoundTrip(u.txid);
      HexWithout(u.txid);
      DecimalRoundTrip(u.n);
      DecimalDigits(u.n);
      SplitHead(h, ':', d);
      SplitHead(d, ':', "");
      assert h + ":" + d == h + [':'] + d;
    }
  }

  // ---------- revelations ----------

  datatype Revelation = Revelation(utxo: Utxo, p: Bytes, p2: Bytes, sig: Bytes, e: Bytes)

  /** Missing data or an invalid utxo is refused. */
  function SerializeRevelation(r: Revelation): Result<string> {
    if r.p == [] || r.p2 == [] || r.sig == [] || r.e == [] then Error
    else
      match UtxoToString(r.utxo)
      case Error => Error
      case Ok(u) => Ok(Join([u, BinToHex(r.p), BinToHex(r.p2), BinToHex(r.sig), BinToHex(r.e)], '|'))
  }

  function DeserializeRevelation(wire: string): Result<Revelation> {
    var parts := Split(wire, '|');
    if |parts| != 5 then Error
    else
      match (UtxoFromString(parts[0]), HexToBin(parts[1]), HexToBin(parts[2]), HexToBin(parts[3]), HexToBin(parts[4]))
      case (Ok(u), Ok(p), Ok(p2), Ok(sig), Ok(e)) => Ok(Revelation(u, p, p2, sig, e))
      case _ => Error
  }

  /** What is sent has five fields: the utxo, both points, the response and the challenge. */
  lemma WireFields(r: Revelation)
    requires SerializeRevelation(r).Ok?
    ensures var fields := Split(SerializeRevelation(r).value, '|');
      && |fields| == 5 && UtxoFromString(fields[0]) == Ok(r.utxo)
      && HexToBin(fields[1]) == Ok(r.p) && HexToBin(fields[2]) == Ok(r.p2)
      && HexToBin(fields[3]) == Ok(r.sig) && HexToBin(fields[4]) == Ok(r.e)
  {
    hide BinToHex, HexToBin, UtxoToString, UtxoFromString, Split, Join;
    UtxoRoundTrip(r.utxo);
    HexRoundTrip(r.p);
    HexRoundTrip(r.p2);
    HexRoundTrip(r.sig);
    HexRoundTrip(r.e);
    HexWithout(r.p);
    HexWithout(r.p2);
    HexWithout(r.sig);
    HexWithout(r.e);
    var parts := [UtxoToString(r.utxo).value, BinToHex(r.p), BinToHex(r.p2), BinToHex(r.sig), BinToHex(r.e)];
    assert forall i :: 0 <= i < |parts| ==> '|' !in parts[i];
    SplitJoin(parts, '|');
  }

  /** Whatever can be sent is received unchanged. */
  lemma RevelationRoundTrip(r: Revelation)
    requires SerializeRevelation(r).Ok?
    ensures DeserializeRevelation(SerializeRevelation(r).value) == Ok(r)
  {
    WireFields(r);
    hide SerializeRevelation, HexToBin, UtxoFromString, Split;
  }

  // ---------- the whole trip ----------

  /** `verify_podle` on received bytes: decode both points, then verify. */
  function VerifyReceived(c: Curve, r: Revelation, commitment: Bytes, indices: seq<nat>): Verdict
    requires c.order > 0
  {
    match (c.decode(r.p), c.decode(r.p2))
    case (Some(p), Some(p2)) => Verify(c, p, p2, r.sig, r.e, commitment, indices)
    case _ => Raised
  }

  /** Completeness over the wire: what a prover makes for base point `index`, sent and received,
      is accepted with every range of base points containing `index` if its response and
      challenge are usable, and otherwise raises, as long as the point at infinity does not
      come up before. */
  lemma AcceptedOverTheWire(c: Curve, utxo: Utxo, x: nat, index: nat, k: nat, indices: seq<nat>)
    requires Legit(c) && IsScalar(c, x) && IsScalar(c, k)
    requires utxo.n >= 0 && |utxo.txid| == TXID_BYTES
    requires index in indices && forall i :: i in indices ==> i < NUMS_POINTS
    requires FiniteBefore(c, Prove(c, x, index, k), index, indices)
    ensures var proof := Prove(c, x, index, k);
      var sent := SerializeRevelation(Revelation(utxo, c.encode(proof.p), c.encode(proof.p2), proof.s, proof.e));
      && sent.Ok?
      && DeserializeRevelation(sent.value).Ok?
      && VerifyReceived(c, DeserializeRevelation(sent.value).value, proof.commitment, indices)
         == if Usable(c, proof.s, proof.e) then Accepted else Raised
  {
    Completeness(c, x, index, k, indices);
    ChallengeNotEmpty(c, x, index, k);
    var proof := Prove(c, x, index, k);
    PointsEncodable(c, x, index, k);
    var r := Revelation(utxo, c.encode(proof.p), c.encode(proof.p2), proof.s, proof.e);
    hide Prove, Verify, Nonce, Challenge, DeserializeRevelation, IsPrime, Usable, FiniteBefore;
    UtxoRoundTrip(utxo);
    RevelationRoundTrip(r);
  }

  lemma PointsEncodable(c: Curve, x: nat, index: nat, k: nat)
    requires Legit(c) && IsScalar(c, x)
    ensures var proof := Prove(c, x, index, k);
      && c.decode(c.encode(proof.p)) == Some(proof.p) && c.encode(proof.p) != []
      && c.decode(c.encode(proof.p2)) == Some(proof.p2) && c.encode(proof.p2) != []
  {
    hide IsPrime;
    NonZeroMultiple(c, x, c.nums(index));
  }
}
