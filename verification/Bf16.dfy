/** BF16 rounding of a float32 bit pattern, against the real values the patterns stand for.
    Rounding is roundTiesToEven, section 4.3.1 of IEEE 754-2019. */
module Bf16 {
  import opened Basics
  import opened Arithmetic

  const TWO16: nat := 0x1_0000
  const TWO23: nat := 0x80_0000
  const TWO31: nat := 0x8000_0000
  const TWO32: nat := 0x1_0000_0000
  const INFINITY: nat := 0x7F80_0000

  /** The bit trick of the source: add half an upper-half unit, less one unless the upper half is odd,
      within 32 bits; then clear the low half. */
  function RoundBits(bits: nat): nat {
    var sum := (bits + 0x7FFF + bits / TWO16 % 2) % TWO32;
    sum - sum % TWO16
  }

  predicate Finite(bits: nat) { bits < TWO32 && bits / TWO23 % 256 != 255 }

  function Bf16Round(bits: nat): Result<nat> {
    if !Finite(bits) then Err else Ok(RoundBits(bits))
  }

  function Magnitude(bits: nat): nat { bits % TWO31 }

  function Negative(bits: nat): bool { bits / TWO31 % 2 == 1 }

  /** What a magnitude stands for, in units of 2^-149. The pattern of infinity counts as 2^128, the value
      that follows the largest finite one, which is how roundTiesToEven decides overflow. */
  function Grid(m: nat): nat {
    if m < TWO23 then m else (TWO23 + m % TWO23) * Pow2(m / TWO23 - 1)
  }

  function Value(bits: nat): int {
    if Negative(bits) then 0 - Grid(Magnitude(bits)) else Grid(Magnitude(bits))
  }

  /** Spacing of the float32 values at a magnitude. */
  function Ulp(m: nat): (u: nat)
    ensures u >= 1
  {
    if m < TWO23 then 1 else Pow2(m / TWO23 - 1)
  }

  lemma GridStep(m: nat)
    ensures Grid(m + 1) == Grid(m) + Ulp(m)
  {
    if m >= TWO23 {
      var e, f := m / TWO23, m % TWO23;
      var p := Pow2(e - 1);
      if f + 1 < TWO23 {
        assert (m + 1) / TWO23 == e && (m + 1) % TWO23 == f + 1;
        assert (TWO23 + f + 1) * p == (TWO23 + f) * p + p;
      } else {
        assert (m + 1) / TWO23 == e + 1 && (m + 1) % TWO23 == 0;
        assert Pow2(e) == 2 * p;
        assert TWO23 * (2 * p) == (TWO23 + f) * p + p;
      }
    } else if m + 1 == TWO23 {
      assert Pow2(0) == 1;
    }
  }

  lemma {:induction false} GridMonotone(m: nat, n: nat)
    requires m < n
    ensures Grid(m) < Grid(n)
    decreases n
  {
    hide Grid, Ulp;
    GridStep(n - 1);
    if m >= n - 1 {
    } else {
      GridMonotone(m, n - 1);
    }
  }

  lemma UlpConstant(lo: nat, d: nat)
    requires lo % TWO16 == 0 && d < TWO16
    ensures Ulp(lo + d) == Ulp(lo)
  {
    hide Pow2;
    var q, r := lo / TWO23, lo % TWO23;
    assert lo == q * TWO23 + r;
    assert r % TWO16 == 0 && r + TWO16 <= TWO23;
    assert lo + d == q * TWO23 + (r + d);
  }

  /** Between neighbouring upper halves the values are evenly spaced, across binades and subnormals too. */
  lemma {:induction false} GridAffine(lo: nat, d: nat)
    requires lo % TWO16 == 0 && d <= TWO16
    ensures Grid(lo + d) == Grid(lo) + d * Ulp(lo)
  {
    hide Grid, Ulp;
    if d == 0 {
    } else {
      GridAffine(lo, d - 1);
      GridStep(lo + d - 1);
      UlpConstant(lo, d - 1);
      assert d * Ulp(lo) == (d - 1) * Ulp(lo) + Ulp(lo);
    }
  }

  /** The 32-bit mask never wraps on a finite pattern. */
  lemma MaskNeverWraps(bits: nat)
    requires Finite(bits)
    ensures bits + 0x7FFF + bits / TWO16 % 2 < TWO32
    ensures Magnitude(bits) < INFINITY
  {
  }

  /** What is refused: no 32-bit pattern, an infinity or a NaN, that is, an exponent field of ones. */
  lemma RefusedExactly(bits: nat)
    ensures Bf16Round(bits).Err? <==> bits >= 0x1_0000_0000 || bits % 0x8000_0000 >= 0x7F80_0000
  {
  }

  /** The rounding of a magnitude: down below the half way point, up above it, to even on it. */
  function RoundMagnitude(m: nat): nat {
    var lo, d := m - m % TWO16, m % TWO16;
    if d < 0x8000 || (d == 0x8000 && lo / TWO16 % 2 == 0) then lo else lo + TWO16
  }

  /** The rounding of the pattern with sign `s`, upper half `k` of the magnitude and lower half `d`. */
  lemma RoundOfParts(s: nat, k: nat, d: nat)
    requires s < 2 && k < 0x7F80 && d < TWO16
    ensures var up := if d + 0x7FFF + k % 2 >= TWO16 then 1 else 0;
            RoundBits(s * TWO31 + k * TWO16 + d) == s * TWO31 + (k + up) * TWO16
  {
    var bits := s * TWO31 + k * TWO16 + d;
    var up := if d + 0x7FFF + k % 2 >= TWO16 then 1 else 0;
    assert bits / TWO16 == s * 0x8000 + k;
    assert bits / TWO16 % 2 == k % 2;
    var sum := bits + 0x7FFF + k % 2;
    assert sum == (s * 0x8000 + k + up) * TWO16 + (d + 0x7FFF + k % 2 - up * TWO16);
    assert sum % TWO16 == d + 0x7FFF + k % 2 - up * TWO16;
  }

  lemma RoundSplitsSign(bits: nat)
    requires Finite(bits)
    ensures RoundBits(bits) == bits / TWO31 * TWO31 + RoundMagnitude(Magnitude(bits))
    ensures RoundMagnitude(Magnitude(bits)) <= INFINITY
    ensures Magnitude(RoundBits(bits)) == RoundMagnitude(Magnitude(bits))
    ensures Negative(RoundBits(bits)) == Negative(bits)
    ensures RoundBits(bits) < TWO32
  {
    hide RoundBits;
    MaskNeverWraps(bits);
    var s, m := bits / TWO31, bits % TWO31;
    var k, d := m / TWO16, m % TWO16;
    assert bits == s * TWO31 + k * TWO16 + d && m - d == k * TWO16;
    RoundOfParts(s, k, d);
    var up := if d + 0x7FFF + k % 2 >= TWO16 then 1 else 0;
    assert RoundMagnitude(m) == (k + up) * TWO16;
  }

  function Distance(a: int, b: int): nat { if a <= b then b - a else a - b }

  /** `candidate` ranges over every pattern whose low half is clear, up to infinity. */
  ghost predicate Upper(candidate: nat) { candidate % TWO16 == 0 && candidate <= INFINITY }

  /** Where a magnitude lies between its upper-half neighbours, as values. */
  lemma GridBetween(lo: nat, d: nat) returns (below: nat, above: nat)
    requires lo % TWO16 == 0 && d < TWO16
    ensures Grid(lo + d) == Grid(lo) + below && Grid(lo + TWO16) == Grid(lo) + below + above
    ensures d < 0x8000 ==> below < above
    ensures d == 0x8000 ==> below == above
    ensures d > 0x8000 ==> below > above
  {
    hide Grid, Ulp;
    var u := Ulp(lo);
    GridAffine(lo, d);
    GridAffine(lo, TWO16);
    HalfWay(d, u);
    Positive(TWO16 - d, u);
    below, above := d * u, (TWO16 - d) * u;
  }

  lemma MagnitudeIsNearest(m: nat, candidate: nat)
    requires m < INFINITY && Upper(candidate)
    ensures Upper(RoundMagnitude(m))
    ensures Distance(Grid(m), Grid(RoundMagnitude(m))) <= Distance(Grid(m), Grid(candidate))
    ensures candidate != RoundMagnitude(m)
            && Distance(Grid(m), Grid(RoundMagnitude(m))) == Distance(Grid(m), Grid(candidate)) ==>
              RoundMagnitude(m) / TWO16 % 2 == 0
  {
    hide Grid, Ulp;
    var lo, d := m - m % TWO16, m % TWO16;
    UpperNeighbours(m, candidate);
    var below, above := GridBetween(lo, d);
    if candidate < lo { GridMonotone(candidate, lo); }
    if candidate > lo + TWO16 { GridMonotone(lo + TWO16, candidate); }
    NearerOfTwo(Grid(lo), below, above, Grid(candidate));
  }

  lemma UpperNeighbours(m: nat, candidate: nat)
    requires m < INFINITY && Upper(candidate)
    ensures Upper(m - m % TWO16) && Upper(m - m % TWO16 + TWO16)
    ensures candidate <= m - m % TWO16 || candidate >= m - m % TWO16 + TWO16
    ensures (m - m % TWO16 + TWO16) / TWO16 == (m - m % TWO16) / TWO16 + 1
  {
  }

  lemma NearerOfTwo(low: nat, below: nat, above: nat, other: nat)
    requires other <= low || other >= low + below + above
    ensures below <= above ==> Distance(low + below, low) <= Distance(low + below, other)
    ensures above <= below ==> Distance(low + below, low + below + above) <= Distance(low + below, other)
    ensures below < above && other != low ==> below < Distance(low + below, other)
    ensures above < below && other != low + below + above ==> above < Distance(low + below, other)
  {
  }

  lemma HalfWay(d: nat, u: nat)
    requires d < TWO16 && u >= 1
    ensures TWO16 * u - d * u == (TWO16 - d) * u
    ensures d < 0x8000 ==> d * u < TWO16 * u - d * u
    ensures d == 0x8000 ==> d * u == TWO16 * u - d * u
    ensures d > 0x8000 ==> d * u > TWO16 * u - d * u
  {
    assert TWO16 * u == d * u + (TWO16 - d) * u;
    if d < 0x8000 {
      assert (TWO16 - d) * u == d * u + (TWO16 - 2 * d) * u;
      Positive(TWO16 - 2 * d, u);
    }
    if d > 0x8000 {
      assert d * u == (TWO16 - d) * u + (2 * d - TWO16) * u;
      Positive(2 * d - TWO16, u);
    }
  }

  lemma Positive(a: nat, b: nat)
    requires a >= 1 && b >= 1
    ensures a * b >= 1
  {
  }

  /** Every finite float32 pattern rounds to the nearest value with a clear low half, ties to even; the sign
      is kept. Subnormals, carries into the exponent and overflow to infinity are included. */
  lemma RoundsToNearestEven(bits: nat, candidate: nat)
    requires Finite(bits) && candidate < TWO32 && Upper(Magnitude(candidate))
    ensures Bf16Round(bits).Ok?
    ensures var r := Bf16Round(bits).value;
            r < TWO32 && Upper(Magnitude(r)) && Negative(r) == Negative(bits)
            && Distance(Value(bits), Value(r)) <= Distance(Value(bits), Value(candidate))
            && (Magnitude(candidate) != Magnitude(r)
                && Distance(Value(bits), Value(r)) == Distance(Value(bits), Value(candidate)) ==>
                  r / TWO16 % 2 == 0)
  {
    hide Grid, RoundBits, RoundMagnitude;
    MaskNeverWraps(bits);
    RoundSplitsSign(bits);
    var m := Magnitude(bits);
    MagnitudeIsNearest(m, Magnitude(candidate));
    MagnitudeIsNearest(m, 0);
    GridOfZero();
    GridOrder(0, Magnitude(candidate));
    GridOrder(Magnitude(candidate), 0);
    UpperParity(RoundBits(bits));
  }

  lemma GridOfZero()
    ensures Grid(0) == 0
  {
  }

  lemma UpperParity(r: nat)
    ensures r / TWO16 % 2 == Magnitude(r) / TWO16 % 2
  {
    assert r == r / TWO31 * TWO31 + Magnitude(r);
    assert r / TWO16 == r / TWO31 * 0x8000 + Magnitude(r) / TWO16;
  }

  /** The result is infinite exactly from the half way point between the largest BF16 and 2^128 on. */
  lemma OverflowThreshold(bits: nat)
    requires Finite(bits)
    ensures Magnitude(RoundBits(bits)) == INFINITY <==> Magnitude(bits) >= 0x7F7F_8000
  {
    RoundSplitsSign(bits);
    MaskNeverWraps(bits);
  }

  /** Rounding twice: the second call is refused exactly when the first overflowed, and otherwise changes
      nothing. */
  lemma RoundIdempotent(bits: nat)
    requires Finite(bits)
    ensures Bf16Round(RoundBits(bits)) == if Magnitude(bits) >= 0x7F7F_8000 then Err else Ok(RoundBits(bits))
  {
    hide RoundBits, RoundMagnitude;
    RoundSplitsSign(bits);
    OverflowThreshold(bits);
    var r := RoundBits(bits);
    FiniteBelowInfinity(r);
    if Finite(r) {
      RoundSplitsSign(r);
      RoundOfUpper(Magnitude(bits));
      SplitBits(r);
    }
  }

  /** The pattern half way to 2^128 becomes infinite, and the infinite result is refused. */
  lemma HalfWayOverflows()
    ensures Bf16Round(0x7F7F_8000) == Ok(INFINITY) && Bf16Round(INFINITY) == Err
  {
    RoundIdempotent(0x7F7F_8000);
  }

  lemma FiniteBelowInfinity(r: nat)
    requires r < TWO32 && Magnitude(r) <= INFINITY
    ensures Finite(r) <==> Magnitude(r) < INFINITY
  {
  }

  lemma RoundOfUpper(m: nat)
    ensures RoundMagnitude(RoundMagnitude(m)) == RoundMagnitude(m)
  {
  }

  lemma SplitBits(r: nat)
    ensures r == r / TWO31 * TWO31 + Magnitude(r)
  {
  }

  /** Flipping the sign bit flips the sign of the result and nothing else. */
  lemma RoundSignSymmetric(bits: nat)
    requires Finite(bits) && !Negative(bits)
    ensures Finite(bits + TWO31) && RoundBits(bits + TWO31) == RoundBits(bits) + TWO31
    ensures Value(RoundBits(bits + TWO31)) == -Value(RoundBits(bits))
  {
    FlipSign(bits);
    hide Grid, RoundMagnitude;
    RoundSplitsSign(bits);
    RoundSplitsSign(bits + TWO31);
  }

  lemma FlipSign(bits: nat)
    requires bits < TWO32 && !Negative(bits)
    ensures bits < TWO31 && Magnitude(bits + TWO31) == Magnitude(bits) == bits && Negative(bits + TWO31)
    ensures (bits + TWO31) / TWO23 % 256 == bits / TWO23 % 256
  {
    assert (bits + TWO31) / TWO23 == bits / TWO23 + 256;
  }

  /** Rounding is monotone in the values. */
  lemma RoundMonotone(x: nat, y: nat)
    requires Finite(x) && Finite(y) && Value(x) <= Value(y)
    ensures Value(RoundBits(x)) <= Value(RoundBits(y))
  {
    hide Grid, RoundBits, RoundMagnitude;
    RoundSplitsSign(x);
    RoundSplitsSign(y);
    RoundMagnitudeMonotone(Magnitude(x), Magnitude(y));
    var m, n := Magnitude(x), Magnitude(y);
    GridOfZero();
    RoundOfZero();
    GridOrder(m, 0);
    GridOrder(n, 0);
    GridOrder(m, n);
    GridOrder(n, m);
    GridOrder(RoundMagnitude(m), RoundMagnitude(n));
    GridOrder(RoundMagnitude(n), RoundMagnitude(m));
    GridOrder(0, RoundMagnitude(m));
    GridOrder(0, RoundMagnitude(n));
  }

  lemma RoundMagnitudeMonotone(m: nat, n: nat)
    ensures m <= n ==> RoundMagnitude(m) <= RoundMagnitude(n)
    ensures n <= m ==> RoundMagnitude(n) <= RoundMagnitude(m)
  {
  }

  lemma RoundOfZero()
    ensures RoundMagnitude(0) == 0
  {
  }

  lemma GridOrder(m: nat, n: nat)
    ensures m <= n <==> Grid(m) <= Grid(n)
  {
    hide Grid;
    if m < n { GridMonotone(m, n); }
    if n < m { GridMonotone(n, m); }
  }
}
