/** Proofs of discrete logarithm equality (src/jmclient/podle.py, class `PoDLE`). */
module Podle {
  // The curve is a cyclic group of prime order; a point is represented by its discrete
  // logarithm with respect to the base point G, so zero is the point at infinity and scalar
  // multiplication is multiplication modulo the order. `nums` gives the alternative base points
  // J(i). The hash and the point encoding are arbitrary functions.

  import opened Wrappers
  import opened PrimeField
  import opened Residues

  type byte = x: int | 0 <= x < 256
  type Bytes = seq<byte>

  datatype Curve = Curve(
    order: nat,
    nums: nat -> nat,
    encode: nat -> Bytes,
    decode: Bytes -> Option<nat>,
    sha256: Bytes -> Bytes)

  const NUMS_POINTS := 256
  const SCALAR_BYTES := 32

  ghost predicate Legit(c: Curve) {
    && IsPrime(c.order) && c.order <= Pow256(SCALAR_BYTES)
    && (forall i: nat :: 0 < c.nums(i) < c.order)
    && (forall p: nat :: 0 < p < c.order ==> c.decode(c.encode(p)) == Some(p) && c.encode(p) != [])
    && (forall bs: Bytes :: |c.sha256(bs)| == SCALAR_BYTES)
  }

  // ---------- big-endian integers ----------

  function Pow256(n: nat): (p: nat)
    ensures p > 0
  {
    if n == 0 then 1 else 256 * Pow256(n - 1)
  }

  function FromBytes(bs: Bytes): nat {
    if bs == [] then 0 else FromBytes(bs[..|bs| - 1]) * 256 + bs[|bs| - 1]
  }

  function ToBytes(v: nat, len: nat): (bs: Bytes)
    ensures |bs| == len
  {
    if len == 0 then [] else ToBytes(v / 256, len - 1) + [v % 256]
  }

  lemma {:induction false} BytesRoundTrip(v: nat, len: nat)
    requires v < Pow256(len)
    ensures FromBytes(ToBytes(v, len)) == v
  {
    if len > 0 {
      BytesRoundTrip(v / 256, len - 1);
      var bs := ToBytes(v, len);
      assert bs[..|bs| - 1] == ToBytes(v / 256, len - 1);
    }
  }

  // ---------- points ----------

  predicate IsScalar(c: Curve, s: nat) {
    0 < s < c.order
  }

  function Multiply(c: Curve, s: int, p: int): (q: nat)
    requires c.order > 0
    ensures q < c.order
  {
    Mod(s * p, c.order)
  }

  function Add(c: Curve, p: int, q: int): (r: nat)
    requires c.order > 0
    ensures r < c.order
  {
    Mod(p + q, c.order)
  }

  function Negate(c: Curve, e: int): (r: nat)
    requires c.order > 0
    ensures r < c.order
  {
    Mod(-e, c.order)
  }

  /** The nonce point a verifier reconstructs for one base point: s * B - e * X. */
  function Nonce(c: Curve, s: nat, e: nat, base: nat, x: nat): nat
    requires c.order > 0
  {
    Add(c, Multiply(c, s, base), Multiply(c, Negate(c, e), x))
  }

  /** What is hashed into a challenge. */
  function Message(c: Curve, kg: nat, kj: nat, p: nat, p2: nat): Bytes {
    c.encode(kg) + c.encode(kj) + c.encode(p) + c.encode(p2)
  }

  function Challenge(c: Curve, kg: nat, kj: nat, p: nat, p2: nat): Bytes {
    c.sha256(Message(c, kg, kj, p, p2))
  }

  /** What is revealed to open a commitment. */
  datatype Proof = Proof(p: nat, p2: nat, s: Bytes, e: Bytes, commitment: Bytes)

  /** The proof that `generate_podle` constructs. */
  function Prove(c: Curve, x: nat, index: nat, k: nat): Proof
    requires c.order > 0
  {
    var j := c.nums(index);
    var p2 := Multiply(c, x, j);
    var e := Challenge(c, k, Multiply(c, k, j), x, p2);
    var s := Mod(k + x * FromBytes(e), c.order);
    Proof(x, p2, ToBytes(s, SCALAR_BYTES), e, c.sha256(c.encode(p2)))
  }

  datatype Verdict = Accepted | Rejected | Raised

  /** One pass of the verification loop, for the base point J(index). */
  function CheckAt(c: Curve, p: nat, p2: nat, s: Bytes, e: Bytes, index: nat): Verdict
    requires c.order > 0
  {
    var sInt, eInt := FromBytes(s), FromBytes(e);
    var j := c.nums(index);
    if |s| != SCALAR_BYTES || !IsScalar(c, sInt) || Negate(c, eInt) == 0 then Raised
    else
      var kg, kj := Nonce(c, sInt, eInt, 1, p), Nonce(c, sInt, eInt, j, p2);
      if kg == 0 || kj == 0 then Raised
      else if Challenge(c, kg, kj, p, p2) == e then Accepted
      else Rejected
  }

  function CheckAll(c: Curve, p: nat, p2: nat, s: Bytes, e: Bytes, indices: seq<nat>): Verdict
    requires c.order > 0
  {
    if indices == [] then Rejected
    else
      match CheckAt(c, p, p2, s, e, indices[0])
      case Rejected => CheckAll(c, p, p2, s, e, indices[1..])
      case v => v
  }

  /** The verdict on an opened commitment. */
  function Verify(c: Curve, p: nat, p2: nat, s: Bytes, e: Bytes, commitment: Bytes, indices: seq<nat>): Verdict
    requires c.order > 0
  {
    if s == [] || e == [] then Raised
    else if c.sha256(c.encode(p2)) != commitment then Rejected
    else if exists i :: 0 <= i < |indices| && indices[i] >= NUMS_POINTS then Raised
    else CheckAll(c, p, p2, s, e, indices)
  }

  // ---------- the class ----------

  /** A proof object: built from a private key to generate proofs, or from received parts to
      verify one.  Points are kept as group elements. */
  class PoDLE {
    const curve: Curve
    var priv: Option<nat>
    var p: Option<nat>
    var p2: Option<nat>
    var s: Bytes
    var e: Bytes
    var commitment: Option<Bytes>

    constructor FromPrivateKey(curve: Curve, x: nat)
      requires curve.order > 0 && IsScalar(curve, x)
      ensures this.curve == curve && priv == Some(x) && p == Some(x)
    {
      this.curve := curve;
      priv, p, p2 := Some(x), Some(x), None;
      s, e := [], [];
      commitment := None;
    }

    constructor FromParts(curve: Curve, p: nat, p2: nat, s: Bytes, e: Bytes)
      ensures this.curve == curve && priv == None
      ensures this.p == Some(p) && this.p2 == Some(p2) && this.s == s && this.e == e
    {
      this.curve := curve;
      priv, this.p, this.p2 := None, Some(p), Some(p2);
      this.s, this.e := s, e;
      commitment := None;
    }

    method GetCommitment() returns (c: Bytes)
      requires p2.Some?
      modifies this`commitment
      ensures c == curve.sha256(curve.encode(p2.value)) && commitment == Some(c)
    {
      c := curve.sha256(curve.encode(p2.value));
      commitment := Some(c);
    }

    /** Construct commitment and proof for the `index`-th base point with nonce `k`; raises
        for an unknown base point or an unusable nonce, and then reveals nothing. */
    method GeneratePodle(index: nat, k: nat) returns (r: Option<Proof>)
      requires curve.order > 0 && priv.Some? && p == priv
      modifies this
      ensures priv == old(priv) && p == old(p)
      ensures r.None? <==> index >= 256 || !IsScalar(curve, k)
      ensures r.Some? ==>
        && r.value == Prove(curve, priv.value, index, k)
        && p2 == Some(r.value.p2) && s == r.value.s && e == r.value.e && commitment == Some(r.value.commitment)
    {
      if index >= NUMS_POINTS || !IsScalar(curve, k) {
        return None;
      }
      var j := curve.nums(index);
      var kg := k;
      var kj := Multiply(curve, k, j);
      p2 := Some(Multiply(curve, priv.value, j));
      var c := GetCommitment();
      e := Challenge(curve, kg, kj, p.value, p2.value);
      var eInt := FromBytes(e);
      var sigInt := Mod(k + priv.value * eInt, curve.order);
      s := ToBytes(sigInt, SCALAR_BYTES);
      r := Some(Proof(p.value, p2.value, s, e, c));
    }

    /** Check an opened commitment against every base point of a range, in order. */
    method VerifyProof(commitment: Bytes, indices: seq<nat>) returns (v: Verdict)
      requires curve.order > 0 && p.Some? && p2.Some?
      modifies this`commitment
      ensures v == Verify(curve, p.value, p2.value, s, e, commitment, indices)
    {
      if s == [] || e == [] {
        return Raised;
      }
      var c := GetCommitment();
      if c != commitment {
        return Rejected;
      }
      for i := 0 to |indices|
        invariant forall k :: 0 <= k < i ==> indices[k] < NUMS_POINTS
      {
        if indices[i] >= NUMS_POINTS {
          return Raised;
        }
      }
      hide CheckAt;
      for i := 0 to |indices|
        invariant CheckAll(curve, p.value, p2.value, s, e, indices)
               == CheckAll(curve, p.value, p2.value, s, e, indices[i..])
      {
        assert indices[i..][1..] == indices[i + 1..];
        v := CheckAt(curve, p.value, p2.value, s, e, indices[i]);
        if v != Rejected {
          return v;
        }
      }
      v := Rejected;
    }
  }

  // ---------- completeness ----------

  lemma NonceRecovered(c: Curve, x: nat, k: nat, e: nat, base: nat)
    requires c.order > 0
    ensures Nonce(c, Mod(k + x * e, c.order), e, base, Multiply(c, x, base)) == Multiply(c, k, base)
  {
    var n := c.order;
    var minus: int := -(e as int);
    var s: int, m: int := Mod(k + x * e, n), Negate(c, e);
    ModIsCongruent(k + x * e, n);
    CongruentSym(k + x * e, s, n);
    CongruentRefl(base, n);
    CongruentMul(s, k + x * e, base, base, n);
    ModIsCongruent(minus, n);
    CongruentSym(minus, m, n);
    ModIsCongruent(x * base, n);
    CongruentSym(x * base, Mod(x * base, n), n);
    CongruentMul(m, minus, Mod(x * base, n), x * base, n);
    ModIsCongruent(s * base, n);
    CongruentSym(s * base, Mod(s * base, n), n);
    ModIsCongruent(m * Mod(x * base, n), n);
    CongruentSym(m * Mod(x * base, n), Mod(m * Mod(x * base, n), n), n);
    CongruentTrans(Mod(s * base, n), s * base, (k + x * e) * base, n);
    CongruentTrans(Mod(m * Mod(x * base, n), n), m * Mod(x * base, n), minus * (x * base), n);
    CongruentAdd(Mod(s * base, n), (k + x * e) * base, Mod(m * Mod(x * base, n), n), minus * (x * base), n);
    Cancel(k, x, e, base);
    CongruentIffMod(Mod(s * base, n) + Mod(m * Mod(x * base, n), n), k * base, n);
  }

  lemma Cancel(k: int, x: int, e: int, base: int)
    ensures (k + x * e) * base + (-e) * (x * base) == k * base
  {
    assert (k + x * e) * base == k * base + (x * e) * base;
    assert (-e) * (x * base) == -(e * (x * base));
    assert (x * e) * base == e * (x * base);
  }

  /** In a prime order group a non-zero factor can be cancelled. */
  lemma CancelFactor(d: int, a: int, b: int, n: nat)
    requires IsPrime(n) && Mod(d, n) != 0 && Congruent(d * a, d * b, n)
    ensures Congruent(a, b, n)
  {
    hide IsPrime, Congruent;
    var r: nat := Mod(d, n);
    var i := HasInverse(r, n);
    ModIsCongruent(d, n);
    CongruentScale(d, r, i, n);
    assert i * r == r * i;
    CongruentTrans(i * d, i * r, 1, n);
    CongruentScale(d * a, d * b, i, n);
    ScaledByUnit(i, d, a, n);
    ScaledByUnit(i, d, b, n);
    CongruentTrans(a, i * (d * a), i * (d * b), n);
    CongruentSym(b, i * (d * b), n);
    CongruentTrans(a, i * (d * b), b, n);
  }

  lemma ScaledByUnit(i: int, d: int, a: int, n: nat)
    requires Congruent(i * d, 1, n)
    ensures Congruent(a, i * (d * a), n)
  {
    hide Congruent;
    CongruentRefl(a, n);
    CongruentMul(i * d, 1, a, a, n);
    assert (i * d) * a == i * (d * a);
    CongruentSym((i * d) * a, 1 * a, n);
  }

  lemma ZeroProduct(a: nat, b: nat, n: nat)
    requires IsPrime(n) && 0 < a < n && Mod(a * b, n) == 0
    ensures Mod(b, n) == 0
  {
    hide IsPrime, Congruent;
    ModIsCongruent(a * b, n);
    assert Mod(a, n) == a;
    assert a * 0 == 0;
    CancelFactor(a, b, 0, n);
    CongruentIffMod(b, 0, n);
  }

  /** A prime order group has no zero divisors. */
  lemma NonZeroProduct(a: nat, b: nat, n: nat)
    requires IsPrime(n) && 0 < a < n && 0 < b < n
    ensures Mod(a * b, n) != 0
  {
    hide IsPrime;
    assert Mod(b, n) == b;
    if Mod(a * b, n) == 0 {
      ZeroProduct(a, b, n);
    }
  }

  lemma MultiplyOne(c: Curve, x: nat)
    requires c.order > x
    ensures Multiply(c, x, 1) == x
  {}

  /** Can the proof be checked at all?  Its response and its challenge must be usable as
      scalars; for an honest proof this fails only for an exceptional nonce or hash. */
  predicate Usable(c: Curve, s: Bytes, e: Bytes)
    requires c.order > 0
  {
    FromBytes(s) != 0 && Negate(c, FromBytes(e)) != 0
  }

  /** Both nonce points of an honest proof come back as k * G and k * J. */
  lemma HonestNonces(c: Curve, x: nat, index: nat, k: nat)
    requires Legit(c) && IsScalar(c, x) && IsScalar(c, k)
    ensures var r := Prove(c, x, index, k);
            && FromBytes(r.s) < c.order
            && Nonce(c, FromBytes(r.s), FromBytes(r.e), 1, r.p) == k
            && Nonce(c, FromBytes(r.s), FromBytes(r.e), c.nums(index), r.p2) == Multiply(c, k, c.nums(index)) != 0
  {
    hide IsPrime, Nonce, Multiply, Challenge, ToBytes;
    var n, j := c.order, c.nums(index);
    var r := Prove(c, x, index, k);
    var e := FromBytes(r.e);
    BytesRoundTrip(Mod(k + x * e, n), SCALAR_BYTES);
    NonceRecovered(c, x, k, e, 1);
    NonceRecovered(c, x, k, e, j);
    MultiplyOne(c, x);
    MultiplyOne(c, k);
    NonZeroMultiple(c, k, j);
  }

  /** At the base point it was made for, an honest proof is accepted exactly when usable. */
  lemma HonestAccepted(c: Curve, x: nat, index: nat, k: nat)
    requires Legit(c) && IsScalar(c, x) && IsScalar(c, k)
    ensures var r := Prove(c, x, index, k);
            CheckAt(c, r.p, r.p2, r.s, r.e, index) == if Usable(c, r.s, r.e) then Accepted else Raised
  {
    HonestNonces(c, x, index, k);
    hide Legit, IsPrime, Nonce, Multiply, Challenge, FromBytes, Negate, Pow256;
  }

  lemma NonZeroMultiple(c: Curve, k: nat, j: nat)
    requires IsPrime(c.order) && 0 < k < c.order && 0 < j < c.order
    ensures Multiply(c, k, j) != 0
  {
    NonZeroProduct(k, j, c.order);
  }

  lemma {:induction false} AcceptedIfReached(c: Curve, p: nat, p2: nat, s: Bytes, e: Bytes, indices: seq<nat>, t: nat)
    requires c.order > 0 && t < |indices| && CheckAt(c, p, p2, s, e, indices[t]) == Accepted
    requires forall u :: 0 <= u < t ==> CheckAt(c, p, p2, s, e, indices[u]) != Raised
    ensures CheckAll(c, p, p2, s, e, indices) == Accepted
    decreases t
  {
    hide CheckAt;
    if t > 0 && CheckAt(c, p, p2, s, e, indices[0]) == Rejected {
      AcceptedIfReached(c, p, p2, s, e, indices[1..], t - 1);
    }
  }

  /** The point at infinity does not come up at a base point tried before the proof's own. */
  ghost predicate FiniteBefore(c: Curve, r: Proof, index: nat, indices: seq<nat>)
    requires c.order > 0
  {
    forall u :: 0 <= u < |indices| && index !in indices[..u + 1] ==>
      Nonce(c, FromBytes(r.s), FromBytes(r.e), c.nums(indices[u]), r.p2) != 0
  }

  lemma FirstIndex(indices: seq<nat>, index: nat) returns (t: nat)
    requires index in indices
    ensures t < |indices| && indices[t] == index && index !in indices[..t]
  {
    t := 0;
    while indices[t] != index
      invariant t < |indices| && index in indices[t..] && index !in indices[..t]
      decreases |indices| - t
    {
      t := t + 1;
    }
  }

  /** Completeness: with every range of known base points that contains its own, an honest
      proof is accepted if it is usable and otherwise raises, unless the point at infinity
      comes up at a base point tried before. */
  lemma Completeness(c: Curve, x: nat, index: nat, k: nat, indices: seq<nat>)
    requires Legit(c) && IsScalar(c, x) && IsScalar(c, k)
    requires index in indices && forall i :: i in indices ==> i < NUMS_POINTS
    requires FiniteBefore(c, Prove(c, x, index, k), index, indices)
    ensures var r := Prove(c, x, index, k);
      Verify(c, r.p, r.p2, r.s, r.e, r.commitment, indices) == if Usable(c, r.s, r.e) then Accepted else Raised
  {
    hide *;
    LegitOrder(c);
    var r := Prove(c, x, index, k);
    HonestForm(c, x, index, k);
    if !Usable(c, r.s, r.e) {
      UnusableRaises(c, r, indices);
    } else {
      var t := FirstIndex(indices, index);
      forall u | 0 <= u < t ensures CheckAt(c, r.p, r.p2, r.s, r.e, indices[u]) != Raised {
        FiniteAt(c, r, index, indices, t, u);
        HonestNeverRaised(c, x, index, k, indices[u]);
      }
      UsableAccepted(c, x, index, k);
      AcceptedIfReached(c, r.p, r.p2, r.s, r.e, indices, t);
    }
    VerifyIsCheckAll(c, r, indices);
  }

  lemma FiniteAt(c: Curve, r: Proof, index: nat, indices: seq<nat>, t: nat, u: nat)
    requires c.order > 0 && FiniteBefore(c, r, index, indices) && u < t <= |indices| && index !in indices[..t]
    ensures Nonce(c, FromBytes(r.s), FromBytes(r.e), c.nums(indices[u]), r.p2) != 0
  {
    hide Nonce, FromBytes;
    assert indices[..u + 1] == indices[..t][..u + 1];
  }

  lemma UnusableRaises(c: Curve, r: Proof, indices: seq<nat>)
    requires c.order > 0 && !Usable(c, r.s, r.e) && indices != []
    ensures CheckAll(c, r.p, r.p2, r.s, r.e, indices) == Raised
  {
    hide FromBytes, Nonce, Challenge;
  }

  lemma LegitOrder(c: Curve)
    requires Legit(c)
    ensures c.order > 0
  {}

  lemma VerifyIsCheckAll(c: Curve, r: Proof, indices: seq<nat>)
    requires c.order > 0 && |r.e| == SCALAR_BYTES == |r.s| && r.commitment == c.sha256(c.encode(r.p2))
    requires forall i :: i in indices ==> i < NUMS_POINTS
    ensures Verify(c, r.p, r.p2, r.s, r.e, r.commitment, indices) == CheckAll(c, r.p, r.p2, r.s, r.e, indices)
  {
    hide CheckAll;
    forall i | 0 <= i < |indices| ensures indices[i] < NUMS_POINTS {
      assert indices[i] in indices;
    }
  }

  lemma UsableAccepted(c: Curve, x: nat, index: nat, k: nat)
    requires Legit(c) && IsScalar(c, x) && IsScalar(c, k)
    requires var r := Prove(c, x, index, k); Usable(c, r.s, r.e)
    ensures var r := Prove(c, x, index, k); CheckAt(c, r.p, r.p2, r.s, r.e, index) == Accepted
  {
    HonestAccepted(c, x, index, k);
    hide *;
  }

  /** At other base points an honest, usable proof can only be rejected, unless the point at
      infinity comes up. */
  lemma HonestNeverRaised(c: Curve, x: nat, index: nat, k: nat, i: nat)
    requires Legit(c) && IsScalar(c, x) && IsScalar(c, k)
    requires var r := Prove(c, x, index, k);
      Usable(c, r.s, r.e) && Nonce(c, FromBytes(r.s), FromBytes(r.e), c.nums(i), r.p2) != 0
    ensures var r := Prove(c, x, index, k); CheckAt(c, r.p, r.p2, r.s, r.e, i) != Raised
  {
    HonestNonces(c, x, index, k);
    HonestForm(c, x, index, k);
    hide Legit, Prove, Nonce, Challenge, FromBytes, Negate;
  }

  lemma HonestForm(c: Curve, x: nat, index: nat, k: nat)
    requires Legit(c)
    ensures var r := Prove(c, x, index, k);
      |r.e| == SCALAR_BYTES == |r.s| && r.commitment == c.sha256(c.encode(r.p2))
  {
    ChallengeNotEmpty(c, x, index, k);
  }

  lemma ChallengeNotEmpty(c: Curve, x: nat, index: nat, k: nat)
    requires Legit(c)
    ensures var r := Prove(c, x, index, k); |r.e| == SCALAR_BYTES == |r.s|
  {}

  // ---------- special soundness ----------

  lemma InverseSolves(d: int, r: int, i: int, t: int, n: nat)
    requires n > 0 && Congruent(d, r, n) && Congruent(r * i, 1, n)
    ensures Congruent(d * (Mod(i * t, n)), t, n)
  {
    hide Congruent;
    var x := Mod(i * t, n);
    ModIsCongruent(i * t, n);
    CongruentSym(i * t, x, n);
    CongruentMul(d, r, x, i * t, n);
    ScaledByUnit(r, i, t, n);
    CongruentSym(t, r * (i * t), n);
    CongruentTrans(d * x, r * (i * t), t, n);
  }

  /** The secret behind two answers to different challenges. */
  lemma Extract(c: Curve, s1: nat, e1: nat, s2: nat, e2: nat) returns (x: nat)
    requires IsPrime(c.order) && Mod(e1, c.order) != Mod(e2, c.order)
    ensures x < c.order && Congruent((e1 - e2) * x, s1 - s2, c.order)
  {
    hide IsPrime, Congruent;
    var n := c.order;
    DifferenceNonZero(e1, e2, n);
    var d: nat := Mod(e1 - e2, n);
    var i := HasInverse(d, n);
    ModIsCongruent(e1 - e2, n);
    x := Mod(i * (s1 - s2), n);
    InverseSolves(e1 - e2, d, i, s1 - s2, n);
  }

  lemma DifferenceNonZero(a: int, b: int, n: nat)
    requires n > 0 && Mod(a, n) != Mod(b, n)
    ensures 0 < Mod(a - b, n) < n
  {
    if Mod(a - b, n) == 0 {
      ModIsCongruent(a - b, n);
      var q :| Apart(a - b, 0, n, q);
      assert Apart(a, b, n, q);
      CongruentIffMod(a, b, n);
    }
  }

  /** The nonce equation, up to congruence. */
  lemma NonceEquation(c: Curve, s: nat, e: nat, base: nat, x: nat)
    requires c.order > 0
    ensures Congruent(Nonce(c, s, e, base, x), s * base - e * x, c.order)
  {
    var n := c.order;
    var minus: int := -(e as int);
    var m: int := Negate(c, e);
    ModIsCongruent(minus, n);
    CongruentSym(minus, m, n);
    CongruentRefl(x, n);
    CongruentMul(m, minus, x, x, n);
    ModIsCongruent(m * x, n);
    CongruentSym(m * x, Mod(m * x, n), n);
    CongruentTrans(Mod(m * x, n), m * x, minus * x, n);
    ModIsCongruent(s * base, n);
    CongruentSym(s * base, Mod(s * base, n), n);
    CongruentAdd(Mod(s * base, n), s * base, Mod(m * x, n), minus * x, n);
    ModIsCongruent(Mod(s * base, n) + Mod(m * x, n), n);
    CongruentSym(Mod(s * base, n) + Mod(m * x, n), Nonce(c, s, e, base, x), n);
    assert minus * x == -(e * x);
    CongruentTrans(Nonce(c, s, e, base, x), Mod(s * base, n) + Mod(m * x, n), s * base + minus * x, n);
  }

  lemma NonceDifference(c: Curve, s1: nat, e1: nat, s2: nat, e2: nat, base: nat, x: nat)
    requires c.order > 0 && Nonce(c, s1, e1, base, x) == Nonce(c, s2, e2, base, x)
    ensures Congruent((s1 - s2) * base, (e1 - e2) * x, c.order)
  {
    hide Nonce;
    var n := c.order;
    NonceEquation(c, s1, e1, base, x);
    NonceEquation(c, s2, e2, base, x);
    var k := Nonce(c, s1, e1, base, x);
    CongruentSym(k, s1 * base - e1 * x, n);
    CongruentTrans(s1 * base - e1 * x, k, s2 * base - e2 * x, n);
    var q :| Apart(s1 * base - e1 * x, s2 * base - e2 * x, n, q);
    Rearrange(s1, e1, s2, e2, base, x);
    assert Apart((s1 - s2) * base, (e1 - e2) * x, n, q);
  }

  lemma MultiplyAssociative(a: int, b: int, c: int)
    ensures (a * b) * c == a * (b * c)
  {}

  lemma ResidueIs(a: int, x: nat, n: nat)
    requires x < n && Congruent(a, x, n)
    ensures x == Mod(a, n)
  {
    hide Congruent;
    CongruentIffMod(a, x, n);
    assert Mod(x, n) == x;
  }

  lemma SolvedBy(d: int, y: int, x: nat, t: int, n: nat)
    requires IsPrime(n) && x < n && Mod(d, n) != 0 && Congruent(t, d * x, n) && Congruent(d * y, t, n)
    ensures x == Mod(y, n)
  {
    hide IsPrime, Congruent;
    CongruentTrans(d * y, t, d * x, n);
    CancelFactor(d, y, x, n);
    ResidueIs(y, x, n);
  }

  lemma SolvedByMultiple(d: int, t: int, base: nat, x: nat, secret: nat, n: nat)
    requires IsPrime(n) && x < n && Mod(d, n) != 0 && Congruent(t * base, d * x, n) && Congruent(d * secret, t, n)
    ensures x == Mod(secret * base, n)
  {
    hide IsPrime, Congruent;
    CongruentRefl(base, n);
    CongruentMul(d * secret, t, base, base, n);
    MultiplyAssociative(d, secret, base);
    SolvedBy(d, secret * base, x, t * base, n);
  }

  /** Two transcripts with one nonce point determine the discrete logarithm of `x` to `base`. */
  lemma {:induction false} SameNonce(c: Curve, s1: nat, e1: nat, s2: nat, e2: nat, base: nat, x: nat, secret: nat)
    requires IsPrime(c.order) && Mod(e1, c.order) != Mod(e2, c.order) && x < c.order
    requires Nonce(c, s1, e1, base, x) == Nonce(c, s2, e2, base, x)
    requires Congruent((e1 - e2) * secret, s1 - s2, c.order)
    ensures x == Multiply(c, secret, base)
  {
    hide IsPrime, Congruent, Nonce;
    NonceDifference(c, s1, e1, s2, e2, base, x);
    DifferenceNonZero(e1, e2, c.order);
    SolvedByMultiple(e1 - e2, s1 - s2, base, x, secret, c.order);
  }

  lemma Rearrange(s1: int, e1: int, s2: int, e2: int, base: int, x: int)
    ensures (s1 - s2) * base - (e1 - e2) * x == (s1 * base - e1 * x) - (s2 * base - e2 * x)
  {
    assert (s1 - s2) * base == s1 * base - s2 * base;
    assert (e1 - e2) * x == e1 * x - e2 * x;
  }

  /** Special soundness: whoever answers two different challenges for the same pair of nonce
      points reveals one secret that lies behind both points. */
  lemma SpecialSoundness(c: Curve, j: nat, p: nat, p2: nat, s1: nat, e1: nat, s2: nat, e2: nat) returns (x: nat)
    requires IsPrime(c.order) && p < c.order && p2 < c.order && Mod(e1, c.order) != Mod(e2, c.order)
    requires Nonce(c, s1, e1, 1, p) == Nonce(c, s2, e2, 1, p)
    requires Nonce(c, s1, e1, j, p2) == Nonce(c, s2, e2, j, p2)
    ensures x < c.order && p == Multiply(c, x, 1) && p2 == Multiply(c, x, j)
  {
    x := Extract(c, s1, e1, s2, e2);
    SameNonce(c, s1, e1, s2, e2, 1, p, x);
    SameNonce(c, s1, e1, s2, e2, j, p2, x);
  }

  /** Hence the claim is true: the point behind the commitment is the public key's secret
      times the base point.  For a false claim no pair of nonce points can be answered for
      two different challenges. */
  lemma TwoAnswersProveTheClaim(c: Curve, j: nat, p: nat, p2: nat, s1: nat, e1: nat, s2: nat,
                                                   e2: nat)
    requires IsPrime(c.order) && p < c.order && p2 < c.order && Mod(e1, c.order) != Mod(e2, c.order)
    requires Nonce(c, s1, e1, 1, p) == Nonce(c, s2, e2, 1, p)
    requires Nonce(c, s1, e1, j, p2) == Nonce(c, s2, e2, j, p2)
    ensures p2 == Multiply(c, p, j)
  {
    hide IsPrime, Nonce, Multiply;
    var x := SpecialSoundness(c, j, p, p2, s1, e1, s2, e2);
    MultiplyOne(c, x);
  }
}
