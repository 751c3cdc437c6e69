/** Deterministic top-k expert routing, in exact arithmetic. */
module TopK {
  import opened Basics
  import opened Arithmetic
  import Ordering

  datatype Routing = Routing(ids: seq<nat>, normalized: seq<real>, weights: seq<real>)

  function Prob(probs: seq<real>, expert: nat): real { if expert < |probs| then probs[expert] else 0.0 }

  /** Probability descending, then lower id: the sort key of the source. */
  predicate Precedes(probs: seq<real>, a: nat, b: nat) {
    Prob(probs, a) > Prob(probs, b) || (Prob(probs, a) == Prob(probs, b) && a < b)
  }

  function NotAfter(probs: seq<real>): (nat, nat) -> bool { (a: nat, b: nat) => a == b || Precedes(probs, a, b) }

  function Strictly(probs: seq<real>): (nat, nat) -> bool { (a: nat, b: nat) => Precedes(probs, a, b) }

  function Range(n: nat): (ids: seq<nat>)
    ensures |ids| == n
  {
    seq(n, i requires 0 <= i < n => i)
  }

  function Ranking(probs: seq<real>): (ids: seq<nat>)
    ensures |ids| == |probs|
  {
    Ordering.Sort(NotAfter(probs), Range(|probs|))
  }

  function SumOf(probs: seq<real>, ids: seq<nat>): real {
    if ids == [] then 0.0 else SumOf(probs, ids[..|ids| - 1]) + Prob(probs, ids[|ids| - 1])
  }

  function Total(values: seq<real>): real {
    if values == [] then 0.0 else Total(values[..|values| - 1]) + values[|values| - 1]
  }

  /** The routing of the source: an error for bad geometry, a non-positive scale or a non-positive sum. */
  function SelectTopK(probs: seq<real>, scales: seq<real>, topK: int): Result<Routing> {
    if |probs| == 0 || |probs| != |scales| || topK <= 0 || topK > |probs| then Err
    else if exists i | 0 <= i < |scales| :: scales[i] <= 0.0 then Err
    else
      var ids := Ranking(probs)[..topK];
      var sum := SumOf(probs, ids);
      if sum <= 0.0 then Err else
        var normalized := seq(topK, r requires 0 <= r < topK => Prob(probs, ids[r]) / sum);
        Ok(Routing(ids, normalized, seq(topK, r requires 0 <= r < topK => normalized[r] * Prob(scales, ids[r]))))
  }

  lemma NotAfterIsOrder(probs: seq<real>)
    ensures Ordering.WeakOrder(NotAfter(probs))
  {
  }

  ghost predicate Distinct(ids: seq<nat>) { forall i, j | 0 <= i < j < |ids| :: ids[i] != ids[j] }

  /** The ranking lists every expert once, strictly by probability and then by id. */
  lemma RankingFacts(probs: seq<real>)
    ensures multiset(Ranking(probs)) == multiset(Range(|probs|))
    ensures Ordering.Increasing(Strictly(probs), Ranking(probs))
    ensures Distinct(Ranking(probs))
    ensures forall e: nat :: e in Ranking(probs) <==> e < |probs|
  {
    var range, ranking := Range(|probs|), Ranking(probs);
    NotAfterIsOrder(probs);
    Ordering.SortSorted(NotAfter(probs), range);
    Ordering.SortContents(NotAfter(probs), range);
    Ordering.SortMembers(NotAfter(probs), range);
    var differ := (x: nat, y: nat) => x != y;
    assert Ordering.Pairwise(differ, range);
    Ordering.PairwiseOfContents(differ, range, ranking);
    forall i, j | 0 <= i < j < |ranking| ensures ranking[i] != ranking[j] && Precedes(probs, ranking[i], ranking[j]) {
      assert differ(ranking[i], ranking[j]) && NotAfter(probs)(ranking[i], ranking[j]);
    }
    forall e: nat ensures e in ranking <==> e < |probs| {
      if e < |probs| { assert range[e] == e; }
    }
  }

  /** The selected list is the only one: every strictly ordered arrangement of all experts starts with it. */
  lemma SelectionUnique(probs: seq<real>, scales: seq<real>, topK: int, order: seq<nat>)
    requires SelectTopK(probs, scales, topK).Ok?
    requires multiset(order) == multiset(Range(|probs|)) && Ordering.Increasing(Strictly(probs), order)
    ensures topK <= |order| && SelectTopK(probs, scales, topK).value.ids == order[..topK]
  {
    RankingFacts(probs);
    Ordering.IncreasingUnique(Strictly(probs), order, Ranking(probs));
  }

  /** Expert `a` comes before expert `b`: more probable, or as probable with the lower id. */
  ghost predicate ComesBefore(probs: seq<real>, a: nat, b: nat) {
    a < |probs| && b < |probs| && (probs[a] > probs[b] || (probs[a] == probs[b] && a < b))
  }

  /** What is selected: experts in order, each before every expert left out; and when anything is: for as many positive
      scales as probabilities, of which no more than there are are asked for. */
  lemma SelectedInOrder(probs: seq<real>, scales: seq<real>, topK: int)
    requires SelectTopK(probs, scales, topK).Ok?
    ensures 0 < topK <= |probs| == |scales| && forall i | 0 <= i < |scales| :: scales[i] > 0.0
    ensures var ids := SelectTopK(probs, scales, topK).value.ids;
            |ids| == topK && (forall i, j | 0 <= i < j < topK :: ComesBefore(probs, ids[i], ids[j]))
            && forall i, e: nat | 0 <= i < topK && e < |probs| && e !in ids :: ComesBefore(probs, ids[i], e)
  {
    hide Ranking;
    RankingFacts(probs);
    var ranking := Ranking(probs);
    var ids := ranking[..topK];
    forall i, j | 0 <= i < j < |ranking| ensures ComesBefore(probs, ranking[i], ranking[j]) {
      assert Strictly(probs)(ranking[i], ranking[j]);
      assert ranking[i] in ranking && ranking[j] in ranking;
    }
    forall i, e: nat | 0 <= i < topK && e < |probs| && e !in ids ensures ComesBefore(probs, ids[i], e) {
      assert e in ranking;
      var j :| 0 <= j < |ranking| && ranking[j] == e;
      assert forall k | 0 <= k < topK :: ids[k] == ranking[k];
    }
  }

  ghost function ToSet(ids: seq<nat>): set<nat> { set e | e in ids }

  lemma {:induction false} ToSetSize(ids: seq<nat>)
    ensures |ToSet(ids)| <= |ids|
    ensures Distinct(ids) ==> |ToSet(ids)| == |ids|
  {
    if ids == [] {
      assert ToSet(ids) == {};
    } else {
      var n := |ids| - 1;
      ToSetSize(ids[..n]);
      assert ids == ids[..n] + [ids[n]];
      assert ToSet(ids) == ToSet(ids[..n]) + {ids[n]};
    }
  }

  /** Among more distinct experts than a prefix of the ranking holds, one lies outside the prefix. */
  lemma Outsider(ids: seq<nat>, prefix: seq<nat>) returns (m: nat)
    requires Distinct(ids) && |ids| > |prefix|
    ensures m < |ids| && ids[m] !in prefix
  {
    ToSetSize(ids);
    ToSetSize(prefix);
    if forall m | 0 <= m < |ids| :: ids[m] in prefix {
      assert forall e | e in ids :: e in prefix;
      assert ToSet(ids) <= ToSet(prefix);
      SubsetSize(ToSet(ids), ToSet(prefix));
    }
    m :| 0 <= m < |ids| && ids[m] !in prefix;
  }

  lemma SubsetSize(a: set<nat>, b: set<nat>)
    requires a <= b
    ensures |a| <= |b|
  {
    assert b == a + (b - a);
  }

  lemma {:induction false} SumSplit(probs: seq<real>, ids: seq<nat>, m: nat)
    requires m < |ids|
    ensures SumOf(probs, ids) == Prob(probs, ids[m]) + SumOf(probs, ids[..m] + ids[m + 1..])
  {
    var n := |ids| - 1;
    var without := ids[..m] + ids[m + 1..];
    if m == n {
      assert without == ids[..n];
    } else {
      SumSplit(probs, ids[..n], m);
      assert without[..|without| - 1] == ids[..n][..m] + ids[..n][m + 1..];
    }
  }

  /** No `count` distinct experts outweigh the first `count` of the ranking. */
  lemma {:induction false} PrefixIsHeaviest(probs: seq<real>, ids: seq<nat>)
    requires Distinct(ids) && |ids| <= |probs| && forall e | e in ids :: e < |probs|
    ensures SumOf(probs, ids) <= SumOf(probs, Ranking(probs)[..|ids|])
    decreases |ids|
  {
    hide Ranking;
    var ranking, count := Ranking(probs), |ids|;
    RankingFacts(probs);
    if count == 0 {
    } else {
      var prefix := ranking[..count];
      assert prefix[..count - 1] == ranking[..count - 1];
      var m := Outsider(ids, ranking[..count - 1]);
      var rest := ids[..m] + ids[m + 1..];
      SumSplit(probs, ids, m);
      assert forall e | e in rest :: e in ids;
      PrefixIsHeaviest(probs, rest);
      assert ids[m] in ids;
      RankBehind(probs, ids[m], count - 1);
    }
  }

  lemma RankBehind(probs: seq<real>, expert: nat, position: nat)
    requires expert < |probs| && position < |probs| && expert !in Ranking(probs)[..position]
    ensures Prob(probs, expert) <= Prob(probs, Ranking(probs)[position])
  {
    var ranking := Ranking(probs);
    RankingFacts(probs);
    assert expert in ranking;
    var j :| 0 <= j < |ranking| && ranking[j] == expert;
    assert forall i | 0 <= i < position :: ranking[i] in ranking[..position];
    if j > position { assert Strictly(probs)(ranking[position], ranking[j]); }
  }

  /** The selection: k distinct experts, at least as heavy as any other k distinct experts, and normalized
      probabilities that sum to one. It fails for a valid geometry only when even the heaviest choice has no
      positive weight. */
  lemma SelectionIsBest(probs: seq<real>, scales: seq<real>, topK: int, others: seq<nat>)
    requires 0 < topK <= |probs| == |scales| && forall i | 0 <= i < |scales| :: scales[i] > 0.0
    requires |others| == topK && Distinct(others) && forall e | e in others :: e < |probs|
    ensures match SelectTopK(probs, scales, topK)
            case Ok(r) => |r.ids| == topK && Distinct(r.ids) && (forall e | e in r.ids :: e < |probs|)
                          && SumOf(probs, others) <= SumOf(probs, r.ids)
                          && Total(r.normalized) == 1.0
            case Err => SumOf(probs, others) <= 0.0
  {
    hide Ranking;
    RankingFacts(probs);
    PrefixIsHeaviest(probs, others);
    var ids := Ranking(probs)[..topK];
    var sum := SumOf(probs, ids);
    forall e | e in ids ensures e < |probs| {
      assert e in Ranking(probs);
    }
    if sum > 0.0 {
      var r := SelectTopK(probs, scales, topK).value;
      NormalizedTotal(probs, ids, sum, r.normalized);
      SelfQuotient(sum);
    }
  }

  lemma {:induction false} NormalizedTotal(probs: seq<real>, ids: seq<nat>, sum: real, normalized: seq<real>)
    requires sum > 0.0 && |normalized| == |ids|
    requires forall r | 0 <= r < |ids| :: normalized[r] == Prob(probs, ids[r]) / sum
    ensures Total(normalized) == SumOf(probs, ids) / sum
  {
    if ids == [] {
    } else {
      var n := |ids| - 1;
      NormalizedTotal(probs, ids[..n], sum, normalized[..n]);
      AddQuotients(SumOf(probs, ids[..n]), Prob(probs, ids[n]), sum);
    }
  }

  /** Each expert's weight is its share of the selected probability, times its own scale. */
  lemma WeightsAreScaledShares(probs: seq<real>, scales: seq<real>, topK: int, r: nat)
    requires SelectTopK(probs, scales, topK).Ok? && r < topK
    ensures var routing := SelectTopK(probs, scales, topK).value;
            |routing.ids| == |routing.normalized| == |routing.weights| == topK
            && routing.ids[r] < |scales|
            && routing.normalized[r] * SumOf(probs, routing.ids) == probs[routing.ids[r]]
            && routing.weights[r] * SumOf(probs, routing.ids) == probs[routing.ids[r]] * scales[routing.ids[r]]
  {
    hide Ranking, SumOf;
    RankingFacts(probs);
    var ids := Ranking(probs)[..topK];
    var sum := SumOf(probs, ids);
    assert ids[r] in Ranking(probs);
    ShareTimesSum(probs[ids[r]], scales[ids[r]], sum);
  }

  lemma ShareTimesSum(p: real, scale: real, sum: real)
    requires sum > 0.0
    ensures p / sum * sum == p && p / sum * scale * sum == p * scale
  {
    var share := p / sum;
    assert share * sum == p;
    assert share * scale * sum == share * sum * scale;
  }
}
