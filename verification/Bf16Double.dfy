/** BF16 rounding of a Python float: the value is first rounded to a float32, and that pattern to its upper half.
    Magnitudes are reals in units of 2^-149; every finite double is one. */
module Bf16Double {
  import opened Basics
  import opened Arithmetic
  import opened Bf16

  /** The largest pattern up to `top` whose value is at most `x`. */
  function FloorPattern(x: real, top: nat): (m: nat)
    requires x >= 0.0
    ensures m <= top && Grid(m) as real <= x
    ensures m < top ==> x < Grid(m + 1) as real
  {
    if top == 0 || Grid(top) as real <= x then top else FloorPattern(x, top - 1)
  }

  /** The float32 pattern nearest to `x`, ties to the even one. The pattern of infinity counts as 2^128. */
  function FloatPattern(x: real): nat
    requires x >= 0.0
  {
    var low := FloorPattern(x, INFINITY);
    if low == INFINITY then INFINITY else
      var below, above := x - Grid(low) as real, Grid(low + 1) as real - x;
      if below < above || (below == above && low % 2 == 0) then low else low + 1
  }

  /** The rounding of the source on a magnitude: an error where the conversion to float32 overflows. */
  function Bf16OfReal(x: real): Result<nat>
    requires x >= 0.0
  {
    var m := FloatPattern(x);
    if m >= INFINITY then Err else Ok(RoundMagnitude(m))
  }

  function Gap(x: real, m: nat): real { if x < Grid(m) as real then Grid(m) as real - x else x - Grid(m) as real }

  /** `r` is the BF16 pattern nearest to `x`, the even one in a tie. */
  ghost predicate IsNearestBf16(x: real, r: nat) {
    Upper(r) && forall c: nat | Upper(c) ::
      Gap(x, r) <= Gap(x, c) && (c != r && Gap(x, r) == Gap(x, c) ==> r / TWO16 % 2 == 0)
  }

  /** The float32 step lands on the midpoint of two BF16 values that `x` is not on, and the tie then goes away from
      `x`. */
  predicate TieGoesWrong(x: real, m: nat) {
    m % TWO16 == 0x8000
    && ((x < Grid(m) as real && RoundMagnitude(m) > m) || (x > Grid(m) as real && RoundMagnitude(m) < m))
  }

  /** The float32 step brackets `x` between the midpoints to its neighbours. */
  lemma FloatBrackets(x: real)
    requires x >= 0.0 && FloatPattern(x) < INFINITY
    ensures var m := FloatPattern(x);
            2.0 * x <= Grid(m) as real + Grid(m + 1) as real
            && (m > 0 ==> Grid(m - 1) as real + Grid(m) as real <= 2.0 * x)
  {
    hide Grid;
    var low := FloorPattern(x, INFINITY);
    GridMonotone(low, low + 1);
    GridMonotone(low + 1, low + 2);
    if low > 0 { GridMonotone(low - 1, low); }
  }

  /** The first rounding finds the float32 nearest to `x`, the even pattern in a tie, infinity standing for 2^128. */
  lemma FloatPatternIsNearest(x: real, c: nat)
    requires x >= 0.0 && c <= INFINITY
    ensures var m := FloatPattern(x);
            m <= INFINITY && Gap(x, m) <= Gap(x, c) && (c != m && Gap(x, m) == Gap(x, c) ==> m % 2 == 0)
  {
    hide Grid;
    var low := FloorPattern(x, INFINITY);
    GridMonotone(low, low + 1);
    if c < low { GridMonotone(c, low); }
    if low + 1 < c { GridMonotone(low + 1, c); }
  }

  /** A real between two neighbouring upper halves: the nearer one is the nearest BF16, strictly unless `x` is their
      midpoint. */
  lemma NearerNeighbour(x: real, lo: nat, r: nat)
    requires Upper(lo) && Upper(lo + TWO16) && (r == lo || r == lo + TWO16)
    requires Grid(lo) as real <= x <= Grid(lo + TWO16) as real
    ensures var middle := Grid(lo + 0x8000) as real;
            IsNearestBf16(x, r)
            <==> (r == lo && x < middle) || (r == lo + TWO16 && x > middle) || (x == middle && r / TWO16 % 2 == 0)
  {
    hide Grid;
    var up := lo + TWO16;
    MiddleIsHalfWay(lo);
    var below, above := x - Grid(lo) as real, Grid(up) as real - x;
    GridMonotone(lo, up);
    forall c: nat | Upper(c) && c != lo && c != up
      ensures (c < lo && Gap(x, c) > Gap(x, lo)) || (c > up && Gap(x, c) > Gap(x, up))
    {
      BetweenUppers(lo, c);
      if c < lo { GridMonotone(c, lo); } else { GridMonotone(up, c); }
    }
    OtherParity(lo);
    assert Gap(x, lo) == below && Gap(x, up) == above;
  }

  lemma BetweenUppers(lo: nat, c: nat)
    requires Upper(lo) && Upper(c) && c != lo && c != lo + TWO16
    ensures c < lo || c > lo + TWO16
  {
  }

  lemma OtherParity(lo: nat)
    requires lo % TWO16 == 0
    ensures lo / TWO16 % 2 == 0 <==> (lo + TWO16) / TWO16 % 2 == 1
  {
  }

  lemma MiddleIsHalfWay(lo: nat)
    requires lo % TWO16 == 0
    ensures 2 * Grid(lo + 0x8000) == Grid(lo) + Grid(lo + TWO16)
  {
    hide Grid, Ulp;
    GridAffine(lo, 0x8000);
    GridAffine(lo, TWO16);
  }

  /** Just below a BF16 value, as close to it as half a float32 step, that value is the nearest one. */
  lemma NearestFromBelow(x: real, r: nat)
    requires Upper(r) && r > 0 && x <= Grid(r) as real && Grid(r - 1) as real + Grid(r) as real <= 2.0 * x
    ensures IsNearestBf16(x, r)
  {
    hide Grid, IsNearestBf16;
    var lo := r - TWO16;
    assert lo % TWO16 == 0 && Upper(lo);
    GridMonotone(lo + 0x8000, r - 1);
    GridMonotone(lo, r - 1);
    GridMonotone(r - 1, r);
    NearerNeighbour(x, lo, r);
  }

  /** The exact condition: wherever the conversion does not overflow, the source returns the BF16 nearest to its
      argument, ties to even, unless the float32 step lands on a midpoint that the argument is not on and the tie
      then goes the other way. */
  lemma DoubleRoundingExactly(x: real)
    requires x >= 0.0 && Bf16OfReal(x).Ok?
    ensures IsNearestBf16(x, Bf16OfReal(x).value) <==> !TieGoesWrong(x, FloatPattern(x))
  {
    hide Grid, FloatPattern, IsNearestBf16;
    var m := FloatPattern(x);
    var lo, d := m - m % TWO16, m % TWO16;
    var middle, up := lo + 0x8000, lo + TWO16;
    FloatBrackets(x);
    UpperNeighbours(m, 0);
    if x < Grid(lo) as real {
      if m > lo { GridUpTo(lo, m - 1); GridMonotone(m - 1, m); }
      assert m == lo;
      assert lo > 0 by { if lo == 0 { GridOfZero(); } }
      NearestFromBelow(x, lo);
    } else {
      GridUpTo(m + 1, up);
      GridMonotone(m, m + 1);
      if d < 0x8000 {
        GridUpTo(m + 1, middle);
      } else if d > 0x8000 {
        GridUpTo(middle, m - 1);
        GridMonotone(m - 1, m);
      }
      NearerNeighbour(x, lo, RoundMagnitude(m));
    }
  }

  lemma GridUpTo(a: nat, b: nat)
    requires a <= b
    ensures Grid(a) <= Grid(b)
  {
    hide Grid;
    if a < b { GridMonotone(a, b); }
  }

  /** The conversion raises from 2^128 - 2^103 on. */
  lemma OverflowsExactly(x: real)
    requires x >= 0.0
    ensures Bf16OfReal(x).Err? <==> x >= (Pow2(277) - Pow2(252)) as real
  {
    hide Grid, Pow2, RoundMagnitude;
    LargestFloats();
    var low := FloorPattern(x, INFINITY);
    if low < INFINITY - 1 { GridUpTo(low + 1, INFINITY - 1); GridMonotone(INFINITY - 1, INFINITY); }
  }

  lemma {:induction false} Pow2Sum(a: nat, b: nat)
    ensures Pow2(a + b) == Pow2(a) * Pow2(b)
  {
    if a == 0 {
    } else {
      Pow2Sum(a - 1, b);
      assert 2 * (Pow2(a - 1) * Pow2(b)) == 2 * Pow2(a - 1) * Pow2(b);
    }
  }

  lemma LargestFloats()
    ensures Grid(INFINITY) == Pow2(277)
    ensures Grid(INFINITY - 1) == Pow2(277) - Pow2(253) == Pow2(277) - 2 * Pow2(252)
  {
    hide Pow2;
    Pow2Sum(23, 254);
    Pow2Sum(1, 253);
    Pow2Sum(1, 252);
    SmallPowers();
    var p := Pow2(253);
    assert INFINITY / TWO23 == 255 && INFINITY % TWO23 == 0;
    assert (INFINITY - 1) / TWO23 == 254 && (INFINITY - 1) % TWO23 == TWO23 - 1;
    assert (TWO23 + (TWO23 - 1)) * p == TWO23 * (2 * p) - p;
  }

  lemma SmallPowers()
    ensures Pow2(1) == 2 && Pow2(23) == TWO23
  {
    assert Pow2(1) == 2 * Pow2(0);
    assert Pow2(10) == 1024;
    assert Pow2(20) == 1024 * 1024 by { assert Pow2(15) == 32 * Pow2(10); }
  }

  lemma FloatPatternIs(x: real, m: nat)
    requires m < INFINITY && Grid(m) as real <= x && 2.0 * x < Grid(m) as real + Grid(m + 1) as real
    ensures FloatPattern(x) == m
  {
    hide Grid;
    var low := FloorPattern(x, INFINITY);
    GridMonotone(m, m + 1);
    if low < m { GridUpTo(low + 1, m); }
    if low > m { GridUpTo(m + 1, low); }
  }

  /** 1 + 2^-8 + 2^-30: the float32 step drops the last term, and the tie goes down to 1, although the value is
      above the midpoint. */
  lemma DoubleRoundingMisses()
    ensures var m := 0x3F80_8000;
            var x := Grid(m) as real + Ulp(m) as real / 128.0;
            Bf16OfReal(x) == Ok(0x3F80_0000) && !IsNearestBf16(x, 0x3F80_0000)
  {
    hide Grid, Ulp, IsNearestBf16;
    var m := 0x3F80_8000;
    var x := Grid(m) as real + Ulp(m) as real / 128.0;
    GridStep(m);
    FloatPatternIs(x, m);
    hide FloatPattern;
    DoubleRoundingExactly(x);
  }

  /** This is what the bit trick computes from the float32 pattern, whatever the sign. */
  lemma BitsAgree(negative: bool, x: real)
    requires x >= 0.0 && Bf16OfReal(x).Ok?
    ensures var sign := if negative then TWO31 else 0;
            Bf16Round(FloatPattern(x) + sign) == Ok(Bf16OfReal(x).value + sign)
  {
    hide FloatPattern, RoundBits, RoundMagnitude;
    var sign := if negative then TWO31 else 0;
    var bits := FloatPattern(x) + sign;
    SignedPattern(FloatPattern(x), negative);
    RoundSplitsSign(bits);
  }

  lemma SignedPattern(m: nat, negative: bool)
    requires m < INFINITY
    ensures var bits := m + if negative then TWO31 else 0;
            Finite(bits) && Magnitude(bits) == m && bits / TWO31 * TWO31 == bits - m
  {
  }
}
