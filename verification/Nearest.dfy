/** The nearest-code search both float encoders share: closest level, ties to the even code. */
module Nearest {
  import opened Basics

  function Abs(x: real): (r: real)
    ensures r >= 0.0
  {
    if x < 0.0 then -x else x
  }

  ghost predicate StrictlyIncreasing(values: seq<real>) {
    forall i, j | 0 <= i < j < |values| :: values[i] < values[j]
  }

  /** `code` is a closest level to `value`, and an even one if another level is as close. */
  ghost predicate IsNearest(values: seq<real>, value: real, code: nat) {
    code < |values|
    && forall j | 0 <= j < |values| ::
         Abs(value - values[code]) <= Abs(value - values[j])
         && (j != code && Abs(value - values[code]) == Abs(value - values[j]) ==> code % 2 == 0)
  }

  /** Whether the candidate at `n` replaces the best code so far. */
  predicate Better(values: seq<real>, value: real, n: nat, best: nat)
    requires best < n < |values|
  {
    var error, bestError := Abs(value - values[n]), Abs(value - values[best]);
    error < bestError || (error == bestError && n % 2 == 0 && best % 2 != 0)
  }

  /** The best code among the first `n` candidates. */
  function BestOf(values: seq<real>, value: real, n: nat): (best: nat)
    requires n <= |values|
    ensures n > 0 ==> best < n
  {
    if n <= 1 then 0 else
      var best := BestOf(values, value, n - 1);
      if Better(values, value, n - 1, best) then n - 1 else best
  }

  function NearestCode(values: seq<real>, value: real): nat {
    BestOf(values, value, |values|)
  }

  /** The scan of the source; `None` stands for its initial infinite error. */
  method Search(values: seq<real>, value: real) returns (best: nat)
    ensures best == NearestCode(values, value)
  {
    best := 0;
    var bestError: Option<real> := None;
    var candidate := 0;
    while candidate < |values|
      invariant 0 <= candidate <= |values|
      invariant best == BestOf(values, value, candidate)
      invariant bestError == if candidate == 0 then None else Some(Abs(value - values[best]))
    {
      var error := Abs(value - values[candidate]);
      if bestError.None? || error < bestError.value
         || (error == bestError.value && candidate % 2 == 0 && best % 2 != 0)
      {
        best := candidate;
        bestError := Some(error);
      }
      candidate := candidate + 1;
    }
  }

  /** A level strictly between two others is closer than one of them. */
  lemma Between(values: seq<real>, value: real, low: nat, high: nat)
    requires StrictlyIncreasing(values) && low < high < |values|
    ensures high == low + 1
            || Abs(value - values[low + 1]) < Abs(value - values[low])
            || Abs(value - values[low + 1]) < Abs(value - values[high])
  {
    if low + 1 < high { assert values[low] < values[low + 1] < values[high]; }
  }

  lemma NearestExtends(values: seq<real>, value: real, n: nat, best: nat)
    requires StrictlyIncreasing(values) && best < n < |values| && IsNearest(values[..n], value, best)
    ensures IsNearest(values[..n + 1], value, if Better(values, value, n, best) then n else best)
  {
    hide Abs, StrictlyIncreasing;
    Between(values, value, best, n);
    var prefix, longer := values[..n], values[..n + 1];
    assert best + 1 < n ==> Abs(value - prefix[best]) <= Abs(value - prefix[best + 1]);
    assert prefix[best] == values[best] == longer[best] && longer[n] == values[n];
    forall j | 0 <= j < n ensures longer[j] == prefix[j] {
    }
  }

  /** The scan finds a closest level, the even one in a tie. */
  lemma {:induction false} BestIsNearest(values: seq<real>, value: real, n: nat)
    requires StrictlyIncreasing(values) && 0 < n <= |values|
    ensures IsNearest(values[..n], value, BestOf(values, value, n))
  {
    if n <= 1 {
    } else {
      BestIsNearest(values, value, n - 1);
      hide IsNearest, StrictlyIncreasing;
      NearestExtends(values, value, n - 1, BestOf(values, value, n - 1));
    }
  }

  /** At most one code is nearest. */
  lemma NearestUnique(values: seq<real>, value: real, a: nat, b: nat)
    requires StrictlyIncreasing(values) && IsNearest(values, value, a) && IsNearest(values, value, b)
    ensures a == b
  {
    assert Abs(value - values[a]) == Abs(value - values[b]);
    if a < b { Between(values, value, a, b); }
    if b < a { Between(values, value, b, a); }
  }

  /** The search returns the one nearest code. */
  lemma NearestIsTheNearest(values: seq<real>, value: real)
    requires StrictlyIncreasing(values) && values != []
    ensures forall code: nat :: IsNearest(values, value, code) <==> code == NearestCode(values, value)
  {
    BestIsNearest(values, value, |values|);
    assert values[..|values|] == values;
    forall code: nat | IsNearest(values, value, code)
      ensures code == NearestCode(values, value)
    {
      NearestUnique(values, value, code, NearestCode(values, value));
    }
  }

  /** A larger value never gets a smaller code. */
  lemma NearestMonotone(values: seq<real>, x: real, y: real)
    requires StrictlyIncreasing(values) && values != [] && x <= y
    ensures NearestCode(values, x) <= NearestCode(values, y)
  {
    NearestIsTheNearest(values, x);
    NearestIsTheNearest(values, y);
    var i, j := NearestCode(values, x), NearestCode(values, y);
    assert IsNearest(values, x, i) && IsNearest(values, y, j);
    assert Abs(x - values[i]) <= Abs(x - values[j]) && Abs(y - values[j]) <= Abs(y - values[i]);
  }

  /** A level is its own nearest code. */
  lemma NearestOfLevel(values: seq<real>, code: nat)
    requires StrictlyIncreasing(values) && code < |values|
    ensures NearestCode(values, values[code]) == code
  {
    NearestIsTheNearest(values, values[code]);
    forall j | 0 <= j < |values| && j != code
      ensures Abs(values[code] - values[j]) > 0.0
    {
    }
    assert IsNearest(values, values[code], code);
  }
}
