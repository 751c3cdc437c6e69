/** Products, quotients and powers. `Mul`, `Quot` and `Rem` are `*`, `/` and `%` unfolded one step at a
    time: proofs about layouts use them so that products of two variables stay out of the solver's
    nonlinear core. `MulIsTimes` brings products back; `QuotRem` and `QuotRemUnique` say that `Quot` and `Rem`
    are the quotient and the remainder. */
module Arithmetic {

  function Mul(a: nat, b: nat): nat {
    if a == 0 then 0 else Mul(a - 1, b) + b
  }

  function Quot(n: nat, d: nat): nat
    requires d > 0
  {
    if n < d then 0 else 1 + Quot(n - d, d)
  }

  function Rem(n: nat, d: nat): nat
    requires d > 0
  {
    if n < d then n else Rem(n - d, d)
  }

  lemma {:induction false} MulIsTimes(a: nat, b: nat)
    ensures Mul(a, b) == a * b
  {
    if a == 0 {
    } else {
      MulIsTimes(a - 1, b);
      assert a * b == (a - 1) * b + b;
    }
  }

  lemma {:induction false} MulAddLeft(a: nat, b: nat, c: nat)
    ensures Mul(a + b, c) == Mul(a, c) + Mul(b, c)
  {
    if b == 0 {
    } else {
      MulAddLeft(a, b - 1, c);
    }
  }

  lemma {:induction false} MulCommutes(a: nat, b: nat)
    ensures Mul(a, b) == Mul(b, a)
  {
    MulIsTimes(a, b);
    MulIsTimes(b, a);
  }

  lemma {:induction false} MulAssociates(a: nat, b: nat, c: nat)
    ensures Mul(Mul(a, b), c) == Mul(a, Mul(b, c))
  {
    if a == 0 {
    } else {
      MulAssociates(a - 1, b, c);
      MulAddLeft(Mul(a - 1, b), b, c);
    }
  }

  lemma MulMonotone(a: nat, b: nat, c: nat)
    requires a <= b
    ensures Mul(a, c) <= Mul(b, c)
  {
    MulAddLeft(a, b - a, c);
  }

  lemma MulPositive(a: nat, b: nat)
    ensures Mul(a, b) > 0 <==> a > 0 && b > 0
  {
    MulIsTimes(a, b);
    if a > 0 && b > 0 { MulMonotone(1, a, b); }
  }

  /** A digit pair in mixed radix stays below the product of the radices. */
  lemma DigitBound(k: nat, n: nat, x: nat, m: nat)
    requires k < n && x < m
    ensures Mul(k, m) + x < Mul(n, m)
  {
    MulMonotone(k + 1, n, m);
  }

  lemma {:induction false} QuotRem(n: nat, d: nat)
    requires d > 0
    ensures n == Mul(Quot(n, d), d) + Rem(n, d) && Rem(n, d) < d
  {
    if n < d {
    } else {
      QuotRem(n - d, d);
    }
  }

  /** Digits in mixed radix are unique. */
  lemma {:induction false} QuotRemUnique(q: nat, r: nat, d: nat)
    requires r < d
    ensures Quot(Mul(q, d) + r, d) == q && Rem(Mul(q, d) + r, d) == r
  {
    if q == 0 {
    } else {
      QuotRemUnique(q - 1, r, d);
    }
  }

  lemma QuotBound(n: nat, k: nat, d: nat)
    requires d > 0 && n < Mul(k, d)
    ensures Quot(n, d) < k
  {
    QuotRem(n, d);
    if Quot(n, d) >= k { MulMonotone(k, Quot(n, d), d); }
  }

  function Pow2(n: nat): (p: nat)
    ensures p >= 1
  {
    if n == 0 then 1 else 2 * Pow2(n - 1)
  }

  lemma {:induction false} Pow2Monotone(m: nat, n: nat)
    requires m <= n
    ensures Pow2(m) <= Pow2(n)
    decreases n
  {
    if m >= n {
    } else {
      Pow2Monotone(m, n - 1);
    }
  }

  /** Elements of a shape. */
  function Product(shape: seq<int>): int {
    if shape == [] then 1 else shape[0] * Product(shape[1..])
  }

  lemma {:induction false} ProductAppend(shape: seq<int>, d: int)
    ensures Product(shape + [d]) == Product(shape) * d
  {
    if shape == [] {
      assert Product([d]) == d * Product([]);
    } else {
      ProductAppend(shape[1..], d);
      assert (shape + [d])[1..] == shape[1..] + [d];
      assert shape[0] * (Product(shape[1..]) * d) == shape[0] * Product(shape[1..]) * d;
    }
  }

  lemma SelfQuotient(x: real)
    requires x > 0.0
    ensures x / x == 1.0
  {
  }

  lemma AddQuotients(a: real, b: real, c: real)
    requires c > 0.0
    ensures a / c + b / c == (a + b) / c
  {
  }
}
