/** Remainders with a variable divisor.  Rem is the operator % of the driver on unsigned values,
    defined by subtraction so that proofs use the lemmas below and not nonlinear arithmetic. */
module Arithmetic {

  function Rem(a: nat, s: nat): (r: nat)
    requires 0 < s
    ensures r < s && r <= a
  {
    if a < s then a else Rem(a - s, s)
  }

  lemma {:induction false} RemIsMod(a: nat, s: nat)
    requires 0 < s
    ensures Rem(a, s) == a % s
  {
    if a >= s {
      RemIsMod(a - s, s);
      var q, r := (a - s) / s, (a - s) % s;
      assert a - s == s * q + r;
      assert a == s * (q + 1) + r;
      DivModUnique(a, s, q + 1, r);
    } else {
      DivModUnique(a, s, 0, a);
    }
  }

  /** Quotient and remainder are the only pair with 0 <= r < m. */
  lemma DivModUnique(a: int, m: int, q: int, r: int)
    requires 0 < m && 0 <= r < m && a == m * q + r
    ensures a / m == q && a % m == r
  {
    var p := a / m;
    assert m * (q - p) == a % m - r;
    if p < q {
      AtLeast(m, q - p);
    } else if q < p {
      AtLeast(m, p - q);
    }
  }

  lemma {:induction false} AtLeast(m: nat, n: nat)
    requires 0 < n
    ensures m <= m * n
  {
    if n > 1 {
      AtLeast(m, n - 1);
      assert m * n == m * (n - 1) + m;
    }
  }

  /** Adding a multiple does not change the remainder. */
  lemma {:induction false} RemAdd(a: nat, b: nat, s: nat)
    requires 0 < s && Rem(a, s) == 0
    ensures Rem(a + b, s) == Rem(b, s)
  {
    if a >= s {
      RemAdd(a - s, b, s);
    }
  }

  /** Cutting the remainder off leaves a multiple. */
  lemma {:induction false} RemCut(a: nat, s: nat)
    requires 0 < s
    ensures Rem(a - Rem(a, s), s) == 0
  {
    if a >= s {
      RemCut(a - s, s);
      RemAdd(s, a - s - Rem(a - s, s), s);
    }
  }

  lemma RemSub(n: nat, k: nat, s: nat)
    requires 0 < s && Rem(k, s) == 0 && k <= n
    ensures Rem(n - k, s) == Rem(n, s)
  {
    RemAdd(k, n - k, s);
  }
}
