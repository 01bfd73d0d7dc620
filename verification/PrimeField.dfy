/** Arithmetic modulo a prime: what the curve order contributes to PoDLE.

  Congruence is stated by a multiple that two numbers are apart, which sums and products keep.
  The extended Euclidean algorithm then gives every non-zero residue an inverse, which is all
  that special soundness needs of the curve. */
module PrimeField {
  import opened Residues

  ghost predicate IsPrime(n: nat) {
    n > 1 && forall a, b :: 1 < a < n && 1 < b < n ==> !IsProduct(n, a, b)
  }

  ghost predicate IsProduct(n: nat, a: nat, b: nat) {
    n == a * b
  }

  ghost predicate Congruent(a: int, b: int, n: nat) {
    exists q: int :: Apart(a, b, n, q)
  }

  ghost predicate Apart(a: int, b: int, n: nat, q: int) {
    a - b == q * n
  }

  lemma ModIsCongruent(a: int, n: nat)
    requires n > 0
    ensures Congruent(a, Mod(a, n), n)
  {
    ModIsRemainder(a, n);
    assert Apart(a, a % n, n, a / n);
  }

  /** Congruence is equality of residues. */
  lemma CongruentIffMod(a: int, b: int, n: nat)
    requires n > 0
    ensures Congruent(a, b, n) <==> Mod(a, n) == Mod(b, n)
  {
    hide Mod, Congruent;
    ModIsRemainder(a, n);
    ModIsRemainder(b, n);
    CongruentIffRemainder(a, b, n);
  }

  lemma CongruentIffRemainder(a: int, b: int, n: nat)
    requires n > 0
    ensures Congruent(a, b, n) <==> a % n == b % n
  {
    if a % n == b % n {
      var q := a / n - b / n;
      assert q * n == (a / n) * n - (b / n) * n;
      assert Apart(a, b, n, q);
    }
    if Congruent(a, b, n) {
      var q :| Apart(a, b, n, q);
      assert (q + b / n) * n == q * n + (b / n) * n;
      QuotientUnique(a / n, a % n, q + b / n, b % n, n);
    }
  }

  lemma CongruentRefl(a: int, n: nat)
    ensures Congruent(a, a, n)
  {
    assert Apart(a, a, n, 0);
  }

  lemma CongruentSym(a: int, b: int, n: nat)
    requires Congruent(a, b, n)
    ensures Congruent(b, a, n)
  {
    var q :| Apart(a, b, n, q);
    assert (-q) * n == -(q * n);
    assert Apart(b, a, n, -q);
  }

  lemma CongruentTrans(a: int, b: int, c: int, n: nat)
    requires Congruent(a, b, n) && Congruent(b, c, n)
    ensures Congruent(a, c, n)
  {
    var q :| Apart(a, b, n, q);
    var r :| Apart(b, c, n, r);
    assert (q + r) * n == q * n + r * n;
    assert Apart(a, c, n, q + r);
  }

  lemma CongruentAdd(a: int, b: int, c: int, d: int, n: nat)
    requires Congruent(a, b, n) && Congruent(c, d, n)
    ensures Congruent(a + c, b + d, n)
  {
    var q :| Apart(a, b, n, q);
    var r :| Apart(c, d, n, r);
    assert (q + r) * n == q * n + r * n;
    assert Apart(a + c, b + d, n, q + r);
  }

  lemma CongruentScale(a: int, b: int, k: int, n: nat)
    requires Congruent(a, b, n)
    ensures Congruent(k * a, k * b, n)
  {
    var q :| Apart(a, b, n, q);
    assert k * (a - b) == k * (q * n) == (k * q) * n;
    assert k * (a - b) == k * a - k * b;
    assert Apart(k * a, k * b, n, k * q);
  }

  lemma CongruentMul(a: int, b: int, c: int, d: int, n: nat)
    requires Congruent(a, b, n) && Congruent(c, d, n)
    ensures Congruent(a * c, b * d, n)
  {
    CongruentScale(c, d, a, n);
    CongruentScale(a, b, d, n);
    assert d * a == a * d && d * b == b * d;
    CongruentTrans(a * c, a * d, b * d, n);
  }

  // ---------- inverses ----------

  /** Coefficients x and y with a * x + b * y equal to a common divisor of a and b. */
  datatype Bezout = Bezout(g: nat, x: int, y: int)

  lemma {:induction false} ExtendedGcd(a: nat, b: nat) returns (r: Bezout)
    requires a > 0
    ensures r.g > 0 && a * r.x + b * r.y == r.g
    ensures (exists p: nat :: IsProduct(a, p, r.g)) && (exists p: nat :: IsProduct(b, p, r.g))
    decreases b
  {
    if b == 0 {
      r := Bezout(a, 1, 0);
      assert IsProduct(a, 1, a) && IsProduct(b, 0, a);
    } else {
      var s := ExtendedGcd(b, a % b);
      var q := a / b;
      assert a == q * b + a % b;
      assert a * s.y + b * (s.x - q * s.y) == b * s.x + (a % b) * s.y by {
        assert a * s.y == (q * b) * s.y + (a % b) * s.y;
        assert b * (s.x - q * s.y) == b * s.x - b * (q * s.y);
        assert (q * b) * s.y == b * (q * s.y);
      }
      r := Bezout(s.g, s.y, s.x - q * s.y);
      var p: nat :| IsProduct(b, p, s.g);
      var t: nat :| IsProduct(a % b, t, s.g);
      assert (q * p + t) * s.g == q * (p * s.g) + t * s.g;
      assert IsProduct(a, q * p + t, s.g);
    }
  }

  lemma PrimeGcd(n: nat, a: nat, g: nat, p: nat, t: nat)
    requires IsPrime(n) && 0 < a < n && g > 0 && IsProduct(n, p, g) && IsProduct(a, t, g)
    ensures g == 1
  {
    assert t > 0 && p > 0;
    MultipleAtLeast(t, g);
    assert p != 1;
    assert g > 1 ==> p * (g - 1) > 0;
    assert p * (g - 1) == n - p;
    assert IsProduct(n, p, g);
  }

  /** Every number that is not a multiple of a prime has an inverse. */
  lemma HasInverse(a: nat, n: nat) returns (b: nat)
    requires IsPrime(n) && 0 < a < n
    ensures b < n && Congruent(a * b, 1, n)
  {
    var r := ExtendedGcd(n, a);
    var p: nat :| IsProduct(n, p, r.g);
    var t: nat :| IsProduct(a, t, r.g);
    PrimeGcd(n, a, r.g, p, t);
    hide Mod;
    b := Mod(r.y, n);
    ModIsCongruent(r.y, n);
    CongruentScale(r.y, b, a, n);
    assert n * r.x == r.x * n;
    assert (-r.x) * n == -(r.x * n);
    assert Apart(a * r.y, 1, n, -r.x);
    CongruentSym(a * r.y, a * b, n);
    CongruentTrans(a * b, a * r.y, 1, n);
  }
}
