/** The search for the longest prompt that fits: doubling, then bisection, over an expensive token counter. */
module RepeatSearch {
  import opened Basics
  import opened Arithmetic

  /** From `bound` on, every prompt is over the target. */
  ghost predicate Exceeds(counter: int -> int, target: int, bound: nat) {
    forall n | n >= bound :: counter(n) > target
  }

  ghost predicate Monotone(counter: int -> int) {
    forall m, n | m <= n :: counter(m) <= counter(n)
  }

  /** The binary logarithm, rounded down. */
  function Log2(n: nat): (k: nat)
    requires n > 0
    ensures Pow2(k) <= n < Pow2(k + 1)
  {
    if n == 1 then 0 else 1 + Log2(n / 2)
  }

  lemma Log2Unique(n: nat, k: nat)
    requires Pow2(k) <= n < Pow2(k + 1)
    ensures n > 0 && Log2(n) == k
  {
    assert n > 0 by { Pow2Monotone(0, k); }
    if Log2(n) < k { Pow2Monotone(Log2(n) + 1, k); }
    if k < Log2(n) { Pow2Monotone(k + 1, Log2(n)); }
  }

  /** How many times the counter is evaluated when the answer is `n`. */
  function Calls(n: nat): nat { if n == 0 then 2 else 2 * Log2(n) + 3 }

  /** Whatever the counter, the answer is a step across the target: it fits, unless it is zero, which is never
      checked, and one more does not. The counter is evaluated `Calls(low)` times. */
  method LargestRepeatCount(target: int, counter: int -> int, ghost bound: nat)
      returns (r: Result<(nat, int)>, ghost calls: nat)
    requires Exceeds(counter, target, bound)
    ensures r.Err? <==> target <= 0
    ensures r.Ok? ==> var (low, count) := r.value;
                      count == counter(low) && (low > 0 ==> count <= target) && counter(low + 1) > target
                      && calls == Calls(low)
  {
    calls := 0;
    if target <= 0 { return Err, calls; }
    var low, high: nat := 0, 1;
    ghost var k := 0;
    while counter(high) <= target
      invariant high == Pow2(k) && calls == k
      invariant low == if k == 0 then 0 else Pow2(k - 1)
      invariant low > 0 ==> counter(low) <= target
      decreases bound - high
    {
      low := high;
      high := high * 2;
      k := k + 1;
      calls := calls + 1;
    }
    calls := calls + 1;
    ghost var width: nat := if k == 0 then 0 else k - 1;
    while low + 1 < high
      invariant high - low == Pow2(width)
      invariant k > 0 ==> width < k && Pow2(k - 1) <= low < high <= Pow2(k) && calls == k + 1 + (k - 1 - width)
      invariant k == 0 ==> low == 0 && high == 1 && width == 0 && calls == 1
      invariant low > 0 ==> counter(low) <= target
      invariant counter(high) > target
      decreases high - low
    {
      var middle := low + (high - low) / 2;
      if counter(middle) <= target {
        low := middle;
      } else {
        high := middle;
      }
      assert width > 0;
      width := width - 1;
      calls := calls + 1;
    }
    assert width == 0;
    if k > 0 { Log2Unique(low, k - 1); }
    calls := calls + 1;
    return Ok((low, counter(low))), calls;
  }

  /** For a monotone counter, a step across the target is the largest fitting argument, and there is only one;
      when even the empty prompt is over the target, the search answers zero although zero does not fit. */
  lemma StepIsLargest(counter: int -> int, target: int, low: nat)
    requires Monotone(counter)
    requires (low > 0 ==> counter(low) <= target) && counter(low + 1) > target
    ensures counter(low) <= target <==> counter(0) <= target
    ensures forall n: nat :: counter(n) <= target <==> n <= low && counter(0) <= target
    ensures forall other: nat | (other > 0 ==> counter(other) <= target) && counter(other + 1) > target :: other == low
  {
    forall n: nat ensures counter(n) <= target <==> n <= low && counter(0) <= target {
      assert counter(0) <= counter(n);
      if n <= low { assert counter(n) <= counter(low); } else { assert counter(low + 1) <= counter(n); }
    }
    forall other: nat | (other > 0 ==> counter(other) <= target) && counter(other + 1) > target
      ensures other == low
    {
      assert other < low ==> counter(other + 1) <= counter(low);
      assert low < other ==> counter(low + 1) <= counter(other);
    }
  }

  /** A counter of two tokens and more, and a target of one: nothing fits, and the only step across the target, so
      the answer, is zero. */
  lemma ZeroIsUnchecked()
    ensures var counter := (n: int) => n + 2;
            Monotone(counter) && Exceeds(counter, 1, 0) && counter(0) > 1
            && forall low: nat :: (low > 0 ==> counter(low) <= 1) && counter(low + 1) > 1 <==> low == 0
  {
  }
}
