// Products, quotients and remainders.

module Arithmetic {
  /** The product of `n` and `d` as a sum, which keeps products of variables out of
      proofs. */
  function Times(n: nat, d: nat): nat {
    if n == 0 then 0 else d + Times(n - 1, d)
  }

  lemma {:induction false} TimesIsProduct(n: nat, d: nat)
    ensures Times(n, d) == n * d
    decreases n
  {
    if n > 0 {
      TimesIsProduct(n - 1, d);
    }
  }

  lemma MulMonotonic(a: nat, b: nat, d: nat)
    requires a <= b
    ensures a * d <= b * d
  {
  }

  lemma DivisionIs(i: nat, d: nat, q: nat, r: nat)
    requires i == q * d + r && r < d
    ensures i / d == q && i % d == r
  {
    var k := i / d;
    assert i == k * d + i % d;
    if k < q {
      MulMonotonic(k + 1, q, d);
    } else if k > q {
      MulMonotonic(q + 1, k, d);
    }
  }

  lemma DivisionInRange(i: nat, n: nat, d: nat)
    requires i < Times(n, d)
    ensures d > 0 && i / d < n && i % d < d
  {
    TimesIsProduct(n, d);
    var k := i / d;
    assert i == k * d + i % d;
    if k >= n {
      MulMonotonic(n, k, d);
    }
  }

  /** Leaving out the first `d` numbers takes one from the quotient. */
  lemma DivisionAfterFirst(i: nat, d: nat)
    requires 0 < d <= i
    ensures (i - d) / d == i / d - 1 && (i - d) % d == i % d
  {
    var k := i / d;
    assert i == k * d + i % d;
    if k == 0 {
      assert false;
    }
    assert (k - 1) * d == k * d - d;
    DivisionIs(i - d, d, k - 1, i % d);
  }

  // Quotient and remainder by repeated subtraction, which keeps divisions by
  // variables out of the proofs about files.

  function Quotient(i: nat, d: nat): nat
    requires d > 0
    decreases i
  {
    if i < d then 0 else 1 + Quotient(i - d, d)
  }

  function Remainder(i: nat, d: nat): (r: nat)
    requires d > 0
    ensures r < d
    decreases i
  {
    if i < d then i else Remainder(i - d, d)
  }

  lemma {:induction false} QuotientIs(i: nat, d: nat)
    requires d > 0
    ensures Quotient(i, d) == i / d && Remainder(i, d) == i % d
    decreases i
  {
    if i < d {
      DivisionIs(i, d, 0, i);
    } else {
      DivisionAfterFirst(i, d);
      QuotientIs(i - d, d);
    }
  }

  /** Moving forward to the next multiple of `d`, or not as far. */
  lemma {:induction false} QuotientAfter(i: nat, m: nat, d: nat)
    requires d > 0 && Remainder(i, d) + m <= d
    ensures Quotient(i + m, d) == Quotient(i, d) + if Remainder(i, d) + m == d then 1 else 0
    decreases i
  {
    if i >= d {
      QuotientAfter(i - d, m, d);
    }
  }

  lemma {:induction false} QuotientBelow(i: nat, n: nat, d: nat)
    requires d > 0
    ensures Quotient(i, d) < n <==> i < Times(n, d)
    decreases i
  {
    if n > 0 && i >= d {
      QuotientBelow(i - d, n - 1, d);
    }
  }
}
