/** Residues, as Python's `%` gives them for a positive modulus.

  They are counted out step by step, so that proofs see only what lemmas say about them: that
  they are the remainders of division, and how they move on by less than a full cycle, as
  mixdepths do. */
module Residues {

  /** The residue of `a` modulo `n`, counted out step by step. */
  function Mod(a: int, n: nat): (r: nat)
    requires n > 0
    ensures r < n
    decreases a < 0, if a < 0 then -a else a
  {
    if a < 0 then Mod(a + n, n) else if a < n then a else Mod(a - n, n)
  }

  lemma {:induction false} ModIsRemainder(a: int, n: nat)
    requires n > 0
    ensures Mod(a, n) == a % n
    decreases a < 0, if a < 0 then -a else a
  {
    if 0 <= a < n {
      OneStep(a, 0, a, n);
    } else {
      var b := if a < 0 then a + n else a - n;
      ModIsRemainder(b, n);
      OneStep(a, b / n + if a < 0 then -1 else 1, b % n, n);
    }
  }

  lemma OneStep(a: int, q: int, r: nat, n: nat)
    requires r < n && (q - 1) * n + n + r == a
    ensures a % n == r
  {
    assert (q - 1) * n + n == q * n;
    QuotientUnique(a / n, a % n, q, r, n);
  }

  lemma MultipleAtLeast(k: int, n: nat)
    requires k > 0
    ensures k * n >= n
  {
    assert (k - 1) * n >= 0;
  }

  lemma QuotientUnique(q: int, r: int, q': int, r': int, n: nat)
    requires 0 <= r < n && 0 <= r' < n && q * n + r == q' * n + r'
    ensures q == q' && r == r'
  {
    assert (q - q') * n == q * n - q' * n;
    assert (q' - q) * n == q' * n - q * n;
    if q > q' {
      MultipleAtLeast(q - q', n);
    } else if q < q' {
      MultipleAtLeast(q' - q, n);
    }
  }

  /** Moving on by less than a full cycle. */
  lemma {:induction false} ModStep(a: nat, step: nat, n: nat)
    requires step < n
    ensures Mod(a + step, n) == if Mod(a, n) + step < n then Mod(a, n) + step else Mod(a, n) + step - n
  {
    if a >= n {
      ModStep(a - n, step, n);
    }
  }
}
