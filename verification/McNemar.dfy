/** The exact two-sided McNemar test, and the paired counts it is fed. Probabilities are exact rationals,
    held as reals. */
module McNemar {
  import opened Basics
  import opened Arithmetic

  /** Binomial coefficients. */
  function Comb(n: nat, k: nat): nat {
    if k == 0 then 1 else if n == 0 then 0 else Comb(n - 1, k - 1) + Comb(n - 1, k)
  }

  function Factorial(n: nat): (f: nat)
    ensures f >= 1
  {
    if n == 0 then 1 else
      FactorialPositive(n, Factorial(n - 1));
      n * Factorial(n - 1)
  }

  lemma FactorialPositive(n: nat, f: nat)
    requires n >= 1 && f >= 1
    ensures n * f >= 1
  {
  }

  lemma {:induction false} CombAbove(n: nat, k: nat)
    requires k > n
    ensures Comb(n, k) == 0
  {
    if n == 0 {
    } else {
      CombAbove(n - 1, k - 1);
      CombAbove(n - 1, k);
    }
  }

  /** The recurrence is the usual coefficient: C(n, k) * k! * (n - k)! == n!. */
  lemma {:induction false} CombIsCoefficient(n: nat, k: nat)
    requires k <= n
    ensures Comb(n, k) * (Factorial(k) * Factorial(n - k)) == Factorial(n)
  {
    if k == 0 {
      assert Comb(n, 0) == 1 && Factorial(0) == 1;
    } else if k == n {
      CombIsCoefficient(n - 1, n - 1);
      CombAbove(n - 1, n);
      assert Factorial(0) == 1;
      SplitTop(Comb(n - 1, n - 1), Factorial(n - 1), n);
    } else {
      CombIsCoefficient(n - 1, k - 1);
      CombIsCoefficient(n - 1, k);
      SplitPascal(Comb(n - 1, k - 1), Comb(n - 1, k), Factorial(k - 1), Factorial(n - k - 1), k, n - k);
    }
  }

  lemma SplitTop(c: nat, f: nat, n: nat)
    requires c * (f * 1) == f
    ensures c * (n * f * 1) == n * f
  {
    assert c * (n * f) == n * (c * f);
  }

  lemma SplitPascal(a: nat, b: nat, p: nat, q: nat, k: nat, m: nat)
    requires a * (p * (m * q)) == b * ((k * p) * q)
    ensures (a + b) * ((k * p) * (m * q)) == (k + m) * (a * (p * (m * q)))
  {
    var x := a * (p * (m * q));
    assert a * ((k * p) * (m * q)) == k * x;
    assert b * ((k * p) * (m * q)) == m * (b * ((k * p) * q));
    assert (a + b) * ((k * p) * (m * q)) == a * ((k * p) * (m * q)) + b * ((k * p) * (m * q));
  }

  lemma {:induction false} CombSymmetric(n: nat, k: nat)
    requires k <= n
    ensures Comb(n, k) == Comb(n, n - k)
  {
    if n == 0 {
    } else {
      if k == 0 || k == n {
        CombEnds(n);
      } else {
        CombSymmetric(n - 1, k - 1);
        CombSymmetric(n - 1, k);
      }
    }
  }

  lemma {:induction false} CombEnds(n: nat)
    ensures Comb(n, n) == 1
  {
    if n == 0 {
    } else {
      CombEnds(n - 1);
      CombAbove(n - 1, n);
    }
  }

  lemma {:induction false} CombPositive(n: nat, k: nat)
    requires k <= n
    ensures Comb(n, k) >= 1
  {
    if k == 0 {
    } else {
      CombPositive(n - 1, k - 1);
    }
  }

  /** C(n, 0) + ... + C(n, count - 1). */
  function LowerSum(n: nat, count: nat): nat {
    if count == 0 then 0 else LowerSum(n, count - 1) + Comb(n, count - 1)
  }

  lemma {:induction false} LowerSumPascal(n: nat, count: nat)
    requires n > 0
    ensures LowerSum(n, count) == LowerSum(n - 1, count) + (if count == 0 then 0 else LowerSum(n - 1, count - 1))
  {
    if count == 0 {
    } else {
      LowerSumPascal(n, count - 1);
    }
  }

  lemma {:induction false} FullSum(n: nat)
    ensures LowerSum(n, n + 1) == Pow2(n)
  {
    if n > 0 {
      FullSum(n - 1);
      LowerSumPascal(n, n + 1);
      CombAbove(n - 1, n);
    } else {
      assert LowerSum(0, 1) == LowerSum(0, 0) + Comb(0, 0);
    }
  }

  // ---------------------------------------------------------------- the test

  /** The first integer that rounds past the largest double. */
  function FloatLimit(): int { Pow2(1024) - Pow2(970) }

  /** An integer as a double: the conversion raises from the limit on. Rounding below it is not modelled. */
  function ToFloat(n: nat): Result<real> {
    if n >= FloatLimit() then Err else Ok(n as real)
  }

  /** The tool's p-value: twice the lower tail over 2^n, capped at one. Both integers are converted to doubles. A
      product past the largest double would be infinite, and so be capped. */
  function McnemarP(referenceOnly: nat, candidateOnly: nat): Result<real> {
    var n := referenceOnly + candidateOnly;
    if n == 0 then Ok(1.0) else
      var probability := LowerSum(n, Min(referenceOnly, candidateOnly) + 1);
      if ToFloat(probability).Err? then Err
      else if ToFloat(2 * probability).Err? then (if ToFloat(Pow2(n)).Err? then Err else Ok(1.0))
      else if ToFloat(Pow2(n)).Err? then Err
      else Ok(Capped(2.0 * probability as real / Pow2(n) as real))
  }

  function Capped(p: real): real { if p <= 1.0 then p else 1.0 }

  /** The loop behind the generator sum of the source. */
  method ExactMcnemarP(referenceOnly: nat, candidateOnly: nat) returns (p: Result<real>)
    ensures p == McnemarP(referenceOnly, candidateOnly)
  {
    hide FloatLimit, ToFloat, Pow2, Comb;
    var discordant := referenceOnly + candidateOnly;
    if discordant == 0 { return Ok(1.0); }
    var tail := Min(referenceOnly, candidateOnly);
    var probability, value := 0, 0;
    while value < tail + 1
      invariant 0 <= value <= tail + 1
      invariant probability == LowerSum(discordant, value)
    {
      probability := probability + Comb(discordant, value);
      value := value + 1;
    }
    if ToFloat(probability).Err? { return Err; }
    var infinite := ToFloat(2 * probability).Err?;
    if ToFloat(Pow2(discordant)).Err? { return Err; }
    if infinite { return Ok(1.0); }
    return Ok(Capped(2.0 * probability as real / Pow2(discordant) as real));
  }

  /** `k` is at least as far from n / 2 as `b`. */
  predicate Extreme(n: nat, b: nat, k: nat) {
    (if 2 * k >= n then 2 * k - n else n - 2 * k) >= (if 2 * b >= n then 2 * b - n else n - 2 * b)
  }

  /** Outcomes at least as extreme as `b` among the first `count` values of k. */
  function TailSum(n: nat, b: nat, count: nat): nat {
    if count == 0 then 0
    else TailSum(n, b, count - 1) + (if Extreme(n, b, count - 1) then Comb(n, count - 1) else 0)
  }

  /** C(n, from) + ... + C(n, n). */
  function UpperSum(n: nat, from: nat): nat
    requires from <= n + 1
    decreases n + 1 - from
  {
    if from == n + 1 then 0 else Comb(n, from) + UpperSum(n, from + 1)
  }

  lemma {:induction false} UpperIsLower(n: nat, from: nat)
    requires from <= n + 1
    ensures UpperSum(n, from) == LowerSum(n, n + 1 - from)
    decreases n + 1 - from
  {
    if from > n {
    } else {
      UpperIsLower(n, from + 1);
      CombSymmetric(n, from);
    }
  }

  lemma {:induction false} TailIsUpper(n: nat, b: nat, t: nat, count: nat)
    requires 2 * t < n && (b == t || b == n - t) && n - t <= count <= n + 1
    ensures TailSum(n, b, count) + UpperSum(n, count) == LowerSum(n, t + 1) + UpperSum(n, n - t)
    decreases count
  {
    if count == n - t {
      TailIsLower(n, b, t, count);
    } else {
      TailIsUpper(n, b, t, count - 1);
    }
  }

  lemma {:induction false} TailIsLower(n: nat, b: nat, t: nat, count: nat)
    requires 2 * t < n && (b == t || b == n - t) && count <= n - t
    ensures TailSum(n, b, count) == LowerSum(n, Min(count, t + 1))
    decreases count
  {
    if count == 0 {
    } else {
      TailIsLower(n, b, t, count - 1);
    }
  }

  lemma {:induction false} TailIsEverything(n: nat, b: nat, count: nat)
    requires n == 2 * b
    ensures TailSum(n, b, count) == LowerSum(n, count)
  {
    if count == 0 {
    } else {
      TailIsEverything(n, b, count - 1);
    }
  }

  lemma LowerStep(n: nat, k: nat)
    ensures LowerSum(n, k + 1) == LowerSum(n, k) + Comb(n, k)
  {
  }

  /** Doubling the lower tail stays below 2^n unless the counts are equal, and then it passes it. */
  lemma DoubledTail(n: nat, t: nat)
    requires 2 * t <= n
    ensures 2 * t < n ==> 2 * LowerSum(n, t + 1) <= Pow2(n)
    ensures 2 * t == n ==> 2 * LowerSum(n, t + 1) == Pow2(n) + Comb(n, t) > Pow2(n)
  {
    hide LowerSum, UpperSum, Pow2, Comb;
    FullSum(n);
    LowerPlusUpper(n, t + 1);
    UpperIsLower(n, t + 1);
    if 2 * t == n {
      CombPositive(n, t);
      LowerStep(n, t);
    } else {
      LowerSumMonotone(n, t + 1, n - t);
    }
  }

  lemma {:induction false} LowerPlusUpper(n: nat, count: nat)
    requires count <= n + 1
    ensures LowerSum(n, count) + UpperSum(n, count) == LowerSum(n, n + 1)
    decreases n + 1 - count
  {
    if count > n {
    } else {
      LowerPlusUpper(n, count + 1);
    }
  }

  lemma {:induction false} LowerSumMonotone(n: nat, a: nat, b: nat)
    requires a <= b
    ensures LowerSum(n, a) <= LowerSum(n, b)
  {
    if a >= b {
    } else {
      LowerSumMonotone(n, a, b - 1);
    }
  }

  /** The two-sided tail in counts: all outcomes of an even split, and twice the lower tail of an uneven one. */
  lemma TailCount(b: nat, c: nat)
    ensures var n := b + c;
            TailSum(n, b, n + 1) == (if b == c then Pow2(n) else 2 * LowerSum(n, Min(b, c) + 1)) <= Pow2(n)
  {
    hide LowerSum, TailSum, Pow2, Comb;
    var n := b + c;
    FullSum(n);
    if b == c {
      TailIsEverything(n, b, n + 1);
    } else {
      var t := Min(b, c);
      DoubledTail(n, t);
      TailIsUpper(n, b, t, n + 1);
      UpperIsLower(n, n - t);
    }
  }

  /** 2^n is convertible exactly below n = 1024; the doubled tail always is, there. */
  lemma ConvertibleExactly(n: nat, t: nat)
    requires 2 * t <= n
    ensures ToFloat(Pow2(n)).Err? <==> n >= 1024
    ensures n < 1024 ==> ToFloat(2 * LowerSum(n, t + 1)).Ok?
  {
    hide Pow2, LowerSum, Comb;
    Pow2Monotone(970, 1022);
    TwicePow2(1022);
    TwicePow2(1023);
    if n >= 1024 {
      Pow2Monotone(1024, n);
    } else {
      Pow2Monotone(n, 1023);
      DoubledTail(n, t);
      if 2 * t == n {
        LowerSumMonotone(n, t + 1, n + 1);
        FullSum(n);
        Pow2Monotone(n, 1022);
      }
    }
  }

  lemma TwicePow2(n: nat)
    ensures Pow2(n + 1) == 2 * Pow2(n)
  {
  }

  /** The p-value is the two-sided binomial tail, the probability, under fair coin flips, of a split at least as
      uneven as the observed one. The tool reports it exactly for fewer than 1024 discordant pairs, and raises an
      overflow for any larger number of them. */
  lemma McnemarPIsTwoSidedTail(b: nat, c: nat)
    ensures McnemarP(b, c)
            == if b + c >= 1024 then Err
               else Ok(TailSum(b + c, b, b + c + 1) as real / Pow2(b + c) as real)
  {
    hide LowerSum, TailSum, Comb, Pow2, FloatLimit, ToFloat;
    var n, t := b + c, Min(b, c);
    TailCount(b, c);
    DoubledTail(n, t);
    ConvertibleExactly(n, t);
    TailConverts(LowerSum(n, t + 1));
    QuotientAboveOne(2 * LowerSum(n, t + 1), Pow2(n));
    SelfQuotient(Pow2(n) as real);
    Pow2Zero();
  }

  lemma Pow2Zero()
    ensures Pow2(0) == 1
  {
  }

  lemma TailConverts(n: nat)
    ensures ToFloat(2 * n).Ok? ==> ToFloat(n).Ok?
  {
    hide FloatLimit;
  }

  /** A candidate that breaks 1024 samples which the reference answers gets an exception, not a p-value. */
  lemma LargeSplitRaises()
    ensures McnemarP(1024, 0).Err?
  {
    hide McnemarP;
    McnemarPIsTwoSidedTail(1024, 0);
  }

  lemma ScaleOrder(p: real, q: real, d: real)
    requires d > 0.0
    ensures p <= q <==> p * d <= q * d
  {
    if p <= q { assert (q - p) * d >= 0.0; } else { assert (p - q) * d > 0.0; }
  }

  lemma QuotientAboveOne(a: nat, b: nat)
    requires b >= 1
    ensures a as real / b as real > 1.0 <==> a > b
  {
    var q := a as real / b as real;
    assert q * b as real == a as real;
    ScaleOrder(q, 1.0, b as real);
  }

  /** The two systems play the same part. */
  lemma McnemarPSymmetric(b: nat, c: nat)
    ensures McnemarP(b, c) == McnemarP(c, b)
  {
    hide FloatLimit, ToFloat, Pow2, LowerSum;
    assert b + c == c + b && Min(b, c) == Min(c, b);
  }

  /** The cap decides exactly when both counts are equal; otherwise the doubled tail is already a probability. */
  lemma CapExactlyWhenEqual(b: nat, c: nat)
    requires b + c > 0
    ensures 2.0 * LowerSum(b + c, Min(b, c) + 1) as real / Pow2(b + c) as real > 1.0 <==> b == c
    ensures McnemarP(b, c).Ok? ==> 0.0 < McnemarP(b, c).value <= 1.0
  {
    hide FloatLimit, ToFloat, Pow2;
    var n, t := b + c, Min(b, c);
    DoubledTail(n, t);
    QuotientAboveOne(2 * LowerSum(n, t + 1), Pow2(n));
    LowerSumMonotone(n, 1, t + 1);
    assert LowerSum(n, 1) == LowerSum(n, 0) + Comb(n, 0) == 1;
    QuotientPositive(2 * LowerSum(n, t + 1), Pow2(n));
  }

  lemma QuotientPositive(a: nat, b: nat)
    requires a > 0 && b > 0
    ensures a as real / b as real > 0.0
  {
    var q := a as real / b as real;
    assert q * b as real == a as real;
    ScaleOrder(q, 0.0, b as real);
  }

  /** With the number of discordant pairs fixed, a more uneven split never has a larger p-value. */
  lemma McnemarPFallsWithImbalance(b: nat, c: nat, b': nat, c': nat)
    requires b + c == b' + c' && Min(b, c) <= Min(b', c')
    ensures McnemarP(b, c).Ok? <==> McnemarP(b', c').Ok?
    ensures McnemarP(b, c).Ok? ==> McnemarP(b, c).value <= McnemarP(b', c').value
  {
    hide FloatLimit, ToFloat, Pow2, LowerSum, TailSum;
    var n := b + c;
    McnemarPIsTwoSidedTail(b, c);
    McnemarPIsTwoSidedTail(b', c');
    ConvertibleExactly(n, Min(b, c));
    ConvertibleExactly(n, Min(b', c'));
    LowerSumMonotone(n, Min(b, c) + 1, Min(b', c') + 1);
    QuotientMonotone(2 * LowerSum(n, Min(b, c) + 1), 2 * LowerSum(n, Min(b', c') + 1), Pow2(n));
  }

  lemma QuotientMonotone(a: nat, b: nat, d: nat)
    requires a <= b && d >= 1
    ensures a as real / d as real <= b as real / d as real
  {
    var p, q := a as real / d as real, b as real / d as real;
    assert p * d as real == a as real && q * d as real == b as real;
    ScaleOrder(p, q, d as real);
  }

  // ---------------------------------------------------------------- paired counts

  datatype Counts = Counts(bothCorrect: nat, referenceOnly: nat, candidateOnly: nat, bothWrong: nat)

  /** How many of the first `n` samples have this pair of outcomes. */
  function Tally(reference: seq<bool>, candidate: seq<bool>, r: bool, c: bool, n: nat): nat
    requires n <= |reference| == |candidate|
  {
    if n == 0 then 0
    else Tally(reference, candidate, r, c, n - 1) + (if reference[n - 1] == r && candidate[n - 1] == c then 1 else 0)
  }

  function Correct(scores: seq<bool>): nat {
    if scores == [] then 0 else Correct(scores[..|scores| - 1]) + (if scores[|scores| - 1] then 1 else 0)
  }

  /** The four counters, over samples paired by key. They partition the samples, and their margins are the
      two systems' own correct counts. */
  method PairedCounts(reference: seq<bool>, candidate: seq<bool>) returns (counts: Counts)
    requires |reference| == |candidate|
    ensures counts.bothCorrect == Tally(reference, candidate, true, true, |reference|)
    ensures counts.referenceOnly == Tally(reference, candidate, true, false, |reference|)
    ensures counts.candidateOnly == Tally(reference, candidate, false, true, |reference|)
    ensures counts.bothWrong == Tally(reference, candidate, false, false, |reference|)
    ensures counts.bothCorrect + counts.referenceOnly + counts.candidateOnly + counts.bothWrong == |reference|
    ensures counts.bothCorrect + counts.referenceOnly == Correct(reference)
    ensures counts.bothCorrect + counts.candidateOnly == Correct(candidate)
  {
    var a, b, c, d: nat := 0, 0, 0, 0;
    var i := 0;
    while i < |reference|
      invariant 0 <= i <= |reference|
      invariant a == Tally(reference, candidate, true, true, i) && b == Tally(reference, candidate, true, false, i)
      invariant c == Tally(reference, candidate, false, true, i) && d == Tally(reference, candidate, false, false, i)
      invariant a + b + c + d == i
      invariant a + b == Correct(reference[..i]) && a + c == Correct(candidate[..i])
    {
      assert reference[..i + 1][..i] == reference[..i] && candidate[..i + 1][..i] == candidate[..i];
      if reference[i] && candidate[i] { a := a + 1; }
      else if reference[i] { b := b + 1; }
      else if candidate[i] { c := c + 1; }
      else { d := d + 1; }
      i := i + 1;
    }
    assert reference[..i] == reference && candidate[..i] == candidate;
    return Counts(a, b, c, d);
  }
}
