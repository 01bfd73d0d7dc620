/** What an accepted proof of discrete logarithm equality proves (src/jmclient/podle.py). */
module PodleSoundness {
  // Nothing is assumed about the hash: where a theorem needs it to be free of collisions, it
  // names the two messages that would collide.

  import opened PrimeField
  import opened Residues
  import opened Podle

  /** Points are encoded with one length, as compressed points are. */
  ghost predicate OneLength(c: Curve) {
    forall p: nat, q: nat :: 0 < p < c.order && 0 < q < c.order ==> |c.encode(p)| == |c.encode(q)|
  }

  predicate IsPoint(c: Curve, p: nat) {
    0 < p < c.order
  }

  lemma PointRecovered(c: Curve, p: nat, q: nat)
    requires Legit(c) && IsPoint(c, p) && IsPoint(c, q) && c.encode(p) == c.encode(q)
    ensures p == q
  {
    hide IsPrime;
    assert c.decode(c.encode(p)).value == p;
  }

  lemma FourParts(a: Bytes, b: Bytes, c: Bytes, d: Bytes, a': Bytes, b': Bytes, c': Bytes, d': Bytes)
    requires |a| == |a'| && |b| == |b'| && |c| == |c'|
    requires a + b + c + d == a' + b' + c' + d'
    ensures a == a' && b == b' && c == c' && d == d'
  {
    var s, t := a + b + c + d, a' + b' + c' + d';
    assert a == s[..|a|] && a' == t[..|a|];
    assert b == s[|a|..|a| + |b|] && b' == t[|a|..|a| + |b|];
    assert c == s[|a| + |b|..|a| + |b| + |c|] && c' == t[|a| + |b|..|a| + |b| + |c|];
    assert d == s[|a| + |b| + |c|..] && d' == t[|a| + |b| + |c|..];
  }

  /** A hashed message determines all four points. */
  lemma MessageDetermines(c: Curve, kg: nat, kj: nat, p: nat, p2: nat, kg': nat, kj': nat, q: nat, q2: nat)
    requires Legit(c) && OneLength(c)
    requires IsPoint(c, kg) && IsPoint(c, kj) && IsPoint(c, p) && IsPoint(c, p2)
    requires IsPoint(c, kg') && IsPoint(c, kj') && IsPoint(c, q) && IsPoint(c, q2)
    requires Message(c, kg, kj, p, p2) == Message(c, kg', kj', q, q2)
    ensures kg == kg' && kj == kj' && p == q && p2 == q2
  {
    FourParts(c.encode(kg), c.encode(kj), c.encode(p), c.encode(p2),
              c.encode(kg'), c.encode(kj'), c.encode(q), c.encode(q2));
    hide Legit, OneLength, Message;
    PointRecovered(c, kg, kg');
    PointRecovered(c, kj, kj');
    PointRecovered(c, p, q);
    PointRecovered(c, p2, q2);
  }

  // ---------- accepted verdicts ----------

  /** The message a verifier hashes at the base point J(index). */
  function Asked(c: Curve, p: nat, p2: nat, s: Bytes, e: Bytes, index: nat): Bytes
    requires c.order > 0
  {
    Message(c, Nonce(c, FromBytes(s), FromBytes(e), 1, p), Nonce(c, FromBytes(s), FromBytes(e), c.nums(index), p2),
            p, p2)
  }

  lemma AcceptedCheck(c: Curve, p: nat, p2: nat, s: Bytes, e: Bytes, index: nat)
    requires c.order > 0 && CheckAt(c, p, p2, s, e, index) == Accepted
    ensures |s| == 32 && IsScalar(c, FromBytes(s)) && c.sha256(Asked(c, p, p2, s, e, index)) == e
    ensures IsPoint(c, Nonce(c, FromBytes(s), FromBytes(e), 1, p))
    ensures IsPoint(c, Nonce(c, FromBytes(s), FromBytes(e), c.nums(index), p2))
  {
    hide FromBytes, Negate, Message, Multiply, Mod;
  }

  lemma {:induction false} AcceptedSomewhere(c: Curve, p: nat, p2: nat, s: Bytes, e: Bytes, indices: seq<nat>)
    returns (i: nat)
    requires c.order > 0 && CheckAll(c, p, p2, s, e, indices) == Accepted
    ensures i in indices && CheckAt(c, p, p2, s, e, i) == Accepted
  {
    hide CheckAt;
    i := indices[0];
    if CheckAt(c, p, p2, s, e, i) == Rejected {
      i := AcceptedSomewhere(c, p, p2, s, e, indices[1..]);
    }
  }

  /** Acceptance is by one of the base points asked for, of the commitment that was opened. */
  lemma AcceptedAt(c: Curve, p: nat, p2: nat, s: Bytes, e: Bytes, commitment: Bytes, indices: seq<nat>)
    returns (i: nat)
    requires c.order > 0 && Verify(c, p, p2, s, e, commitment, indices) == Accepted
    ensures commitment == c.sha256(c.encode(p2))
    ensures i in indices && i < 256 && CheckAt(c, p, p2, s, e, i) == Accepted
  {
    hide CheckAll, CheckAt;
    i := AcceptedSomewhere(c, p, p2, s, e, indices);
  }

  // ---------- an accepted proof is bound to one base point ----------

  lemma {:induction false} FromBytesInjective(a: Bytes, b: Bytes)
    requires |a| == |b| && FromBytes(a) == FromBytes(b)
    ensures a == b
  {
    if a != [] {
      var n := |a| - 1;
      QuotientUnique(FromBytes(a[..n]), a[n], FromBytes(b[..n]), b[n], 256);
      FromBytesInjective(a[..n], b[..n]);
      assert a == a[..n] + [a[n]] && b == b[..n] + [b[n]];
    }
  }

  lemma SameResidue(a: nat, b: nat, n: nat)
    requires a < n && b < n && Congruent(a, b, n)
    ensures a == b
  {
    hide Congruent;
    CongruentIffMod(a, b, n);
    assert Mod(a, n) == a && Mod(b, n) == b;
  }

  /** Two answers to one challenge with the same nonce point differ by a multiple of the order. */
  lemma SameChallenge(c: Curve, s: nat, t: nat, e: nat, base: nat, other: nat, x: nat)
    requires c.order > 0 && Nonce(c, s, e, base, x) == Nonce(c, t, e, other, x)
    ensures Congruent(s * base, t * other, c.order)
  {
    hide Nonce;
    var n, k := c.order, Nonce(c, s, e, base, x);
    NonceEquation(c, s, e, base, x);
    NonceEquation(c, t, e, other, x);
    CongruentSym(k, s * base - e * x, n);
    CongruentTrans(s * base - e * x, k, t * other - e * x, n);
    CongruentRefl(e * x, n);
    CongruentAdd(s * base - e * x, t * other - e * x, e * x, e * x, n);
  }

  lemma SameResponse(c: Curve, s: nat, t: nat, e: nat, p: nat)
    requires c.order > 0 && IsScalar(c, s) && IsScalar(c, t) && Nonce(c, s, e, 1, p) == Nonce(c, t, e, 1, p)
    ensures s == t
  {
    hide Nonce, Congruent;
    SameChallenge(c, s, t, e, 1, 1, p);
    SameResidue(s, t, c.order);
  }

  lemma SameBase(c: Curve, s: nat, e: nat, base: nat, other: nat, x: nat)
    requires IsPrime(c.order) && IsScalar(c, s) && IsPoint(c, base) && IsPoint(c, other)
    requires Nonce(c, s, e, base, x) == Nonce(c, s, e, other, x)
    ensures base == other
  {
    hide Nonce, Congruent, IsPrime;
    SameChallenge(c, s, s, e, base, other, x);
    assert Mod(s, c.order) == s;
    CancelFactor(s, base, other, c.order);
    SameResidue(base, other, c.order);
  }

  /** A challenge binds everything: two proofs accepted with the same challenge, over whatever
      ranges of base points, have the same points, the same response, the same commitment and
      the same base point, unless the two messages hashed are a collision of the hash. */
  lemma ChallengeBinds(c: Curve, p: nat, p2: nat, s: Bytes, commitment: Bytes, indices: seq<nat>,
                       q: nat, q2: nat, t: Bytes, other: Bytes, others: seq<nat>, e: Bytes)
    returns (i: nat, j: nat)
    requires Legit(c) && OneLength(c) && IsPoint(c, p) && IsPoint(c, p2) && IsPoint(c, q) && IsPoint(c, q2)
    requires Verify(c, p, p2, s, e, commitment, indices) == Accepted
    requires Verify(c, q, q2, t, e, other, others) == Accepted
    ensures i in indices && j in others
    ensures
      || (Asked(c, p, p2, s, e, i) != Asked(c, q, q2, t, e, j)
          && c.sha256(Asked(c, p, p2, s, e, i)) == c.sha256(Asked(c, q, q2, t, e, j)))
      || (p == q && p2 == q2 && s == t && commitment == other && c.nums(i) == c.nums(j))
  {
    hide *;
    LegitParts(c);
    i := AcceptedAt(c, p, p2, s, e, commitment, indices);
    j := AcceptedAt(c, q, q2, t, e, other, others);
    AcceptedCheck(c, p, p2, s, e, i);
    AcceptedCheck(c, q, q2, t, e, j);
    if Asked(c, p, p2, s, e, i) == Asked(c, q, q2, t, e, j) {
      QuestionBinds(c, p, p2, s, e, i, q, q2, t, j);
    }
  }

  lemma LegitParts(c: Curve)
    requires Legit(c)
    ensures c.order > 0 && IsPrime(c.order) && forall i: nat :: 0 < c.nums(i) < c.order
  {}

  lemma QuestionBinds(c: Curve, p: nat, p2: nat, s: Bytes, e: Bytes, i: nat, q: nat, q2: nat, t: Bytes, j: nat)
    requires Legit(c) && OneLength(c) && IsPoint(c, p) && IsPoint(c, p2) && IsPoint(c, q) && IsPoint(c, q2)
    requires CheckAt(c, p, p2, s, e, i) == Accepted && CheckAt(c, q, q2, t, e, j) == Accepted
    requires Asked(c, p, p2, s, e, i) == Asked(c, q, q2, t, e, j)
    ensures p == q && p2 == q2 && s == t && c.nums(i) == c.nums(j)
  {
    hide Legit, OneLength, CheckAt, Nonce, FromBytes, Message, IsPrime;
    LegitParts(c);
    AcceptedCheck(c, p, p2, s, e, i);
    AcceptedCheck(c, q, q2, t, e, j);
    var x, y, f := FromBytes(s), FromBytes(t), FromBytes(e);
    MessageDetermines(c, Nonce(c, x, f, 1, p), Nonce(c, x, f, c.nums(i), p2), p, p2,
                      Nonce(c, y, f, 1, q), Nonce(c, y, f, c.nums(j), q2), q, q2);
    SameResponse(c, x, y, f, p);
    FromBytesInjective(s, t);
    SameBase(c, x, f, c.nums(i), c.nums(j), p2);
  }

  // ---------- special soundness of the verdict ----------

  /** Special soundness of the verdict: let one question to the hash be answered in two ways,
      as when a prover is run again with another random oracle.  If the verifier accepts for
      both answers, then the claim is true, or both answers are the same challenge. */
  lemma TwoVerdicts(c: Curve, oracle: Bytes -> Bytes, p: nat, p2: nat, s1: Bytes, e1: Bytes, h1: Bytes,
                    s2: Bytes, e2: Bytes, h2: Bytes, i: nat)
    requires Legit(c) && OneLength(c) && IsPoint(c, p) && IsPoint(c, p2)
    requires Verify(c, p, p2, s1, e1, h1, [i]) == Accepted
    requires Verify(c.(sha256 := oracle), p, p2, s2, e2, h2, [i]) == Accepted
    requires Asked(c, p, p2, s1, e1, i) == Asked(c, p, p2, s2, e2, i)
    ensures p2 == Multiply(c, p, c.nums(i)) || Mod(FromBytes(e1), c.order) == Mod(FromBytes(e2), c.order)
  {
    var d := c.(sha256 := oracle);
    hide Legit, OneLength, Verify, CheckAt, Asked, Nonce, FromBytes, Multiply, Mod;
    LegitParts(c);
    assert d.order > 0;
    var i1 := AcceptedAt(c, p, p2, s1, e1, h1, [i]);
    var i2 := AcceptedAt(d, p, p2, s2, e2, h2, [i]);
    SameQuestion(c, d, p, p2, s1, e1, s2, e2, i);
    if Mod(FromBytes(e1), c.order) != Mod(FromBytes(e2), c.order) {
      TwoAnswersProveTheClaim(c, c.nums(i), p, p2, FromBytes(s1), FromBytes(e1), FromBytes(s2), FromBytes(e2));
    }
  }

  lemma SameQuestion(c: Curve, d: Curve, p: nat, p2: nat, s1: Bytes, e1: Bytes, s2: Bytes, e2: Bytes, i: nat)
    requires Legit(c) && OneLength(c) && IsPoint(c, p) && IsPoint(c, p2) && d == c.(sha256 := d.sha256)
    requires CheckAt(c, p, p2, s1, e1, i) == Accepted && CheckAt(d, p, p2, s2, e2, i) == Accepted
    requires Asked(c, p, p2, s1, e1, i) == Asked(c, p, p2, s2, e2, i)
    ensures Nonce(c, FromBytes(s1), FromBytes(e1), 1, p) == Nonce(c, FromBytes(s2), FromBytes(e2), 1, p)
    ensures Nonce(c, FromBytes(s1), FromBytes(e1), c.nums(i), p2) == Nonce(c, FromBytes(s2), FromBytes(e2), c.nums(i), p2)
  {
    AcceptedCheck(c, p, p2, s1, e1, i);
    AcceptedCheck(d, p, p2, s2, e2, i);
    OtherHash(c, d, FromBytes(s2), FromBytes(e2), 1, p);
    OtherHash(c, d, FromBytes(s2), FromBytes(e2), c.nums(i), p2);
    hide Legit, OneLength, CheckAt, Nonce, FromBytes, Message;
    MessageDetermines(c, Nonce(c, FromBytes(s1), FromBytes(e1), 1, p),
                      Nonce(c, FromBytes(s1), FromBytes(e1), c.nums(i), p2), p, p2,
                      Nonce(c, FromBytes(s2), FromBytes(e2), 1, p),
                      Nonce(c, FromBytes(s2), FromBytes(e2), c.nums(i), p2), p, p2);
  }

  lemma OtherHash(c: Curve, d: Curve, s: nat, e: nat, base: nat, x: nat)
    requires c.order > 0 && d.order == c.order
    ensures Nonce(d, s, e, base, x) == Nonce(c, s, e, base, x)
  {
    hide Mod;
  }
}
