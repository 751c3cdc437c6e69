/** What a benchmark run can infer from a server's speculative-decoding totals. */
module SpecCounters {
  import opened Basics
  import opened Arithmetic

  /** One verification step: the drafts proposed, and how many of them the target model accepted. */
  datatype Group = Group(proposed: nat, accepted: nat)

  datatype Counters = Counters(proposed: int, accepted: int, rejected: int, groups: nat, targetForwards: int,
                               meanAccepted: real, meanAcceptance: real, allAtMaxDepth: bool)

  function Mean(total: int, count: nat): real { if count > 0 then total as real / count as real else 0.0 }

  /** The accept test and the inferred counters. */
  function Infer(outputs: nat, proposed: int, accepted: int, depth: int): Result<Counters> {
    var groups := outputs - 1 - accepted;
    if depth == 0 || groups < 0 || proposed < accepted || proposed > groups * depth then Err
    else Ok(Counters(proposed, accepted, proposed - accepted, groups, proposed + groups,
                     Mean(accepted, groups),
                     if groups > 0 then 1.0 + Mean(accepted, groups) else 0.0,
                     proposed == groups * depth))
  }

  /** A run: after the token sampled from the prefill, each group emits its accepted drafts and one more token. */
  ghost predicate ValidRun(run: seq<Group>, depth: int) {
    forall i | 0 <= i < |run| :: run[i].accepted <= run[i].proposed <= depth
  }

  function Proposed(run: seq<Group>): nat {
    if run == [] then 0 else run[0].proposed + Proposed(run[1..])
  }

  function Accepted(run: seq<Group>): nat {
    if run == [] then 0 else run[0].accepted + Accepted(run[1..])
  }

  function Emitted(run: seq<Group>): nat {
    if run == [] then 0 else run[0].accepted + 1 + Emitted(run[1..])
  }

  function TargetForwards(run: seq<Group>): nat {
    if run == [] then 0 else run[0].proposed + 1 + TargetForwards(run[1..])
  }

  ghost predicate Totals(run: seq<Group>, depth: int, outputs: int, proposed: int, accepted: int) {
    ValidRun(run, depth) && outputs == 1 + Emitted(run) && proposed == Proposed(run) && accepted == Accepted(run)
  }

  lemma {:induction false} RunTotals(run: seq<Group>, depth: int)
    requires ValidRun(run, depth)
    ensures Emitted(run) == |run| + Accepted(run)
    ensures TargetForwards(run) == |run| + Proposed(run)
    ensures Accepted(run) <= Proposed(run) <= |run| * depth
    ensures Proposed(run) == |run| * depth <==> forall i | 0 <= i < |run| :: run[i].proposed == depth
  {
    if run == [] {
    } else {
      RunTotals(run[1..], depth);
      assert |run| * depth == (|run| - 1) * depth + depth;
      if forall i | 0 <= i < |run[1..]| :: run[1..][i].proposed == depth {
        assert forall i | 1 <= i < |run| :: run[i] == run[1..][i - 1];
      }
    }
  }

  /** Every real run passes, and the inference recovers its group count, its rejections and its target forwards;
      the depth flag says exactly that each group drafted to the limit. */
  lemma InferenceIsExact(run: seq<Group>, depth: int, outputs: nat, proposed: int, accepted: int)
    requires Totals(run, depth, outputs, proposed, accepted)
    ensures depth == 0 ==> Infer(outputs, proposed, accepted, depth).Err?
    ensures depth != 0 ==>
      var r := Infer(outputs, proposed, accepted, depth);
      r.Ok? && r.value.proposed == Proposed(run) && r.value.accepted == Accepted(run)
      && r.value.groups == |run| && r.value.targetForwards == TargetForwards(run)
      && r.value.rejected == Proposed(run) - Accepted(run) == r.value.proposed - r.value.accepted
      && (r.value.allAtMaxDepth <==> forall i | 0 <= i < |run| :: run[i].proposed == depth)
  {
    hide Mean, Proposed, Accepted, Emitted, TargetForwards;
    RunTotals(run, depth);
    assert outputs - 1 - accepted == |run|;
  }

  /** The reported mean acceptance length is the number of tokens emitted after the prefill, per group. */
  lemma MeanIsTokensPerGroup(outputs: nat, proposed: int, accepted: int, depth: int)
    requires Infer(outputs, proposed, accepted, depth).Ok?
    ensures var c := Infer(outputs, proposed, accepted, depth).value;
            (c.groups > 0 ==> c.meanAcceptance == (outputs - 1) as real / c.groups as real
                              && c.meanAccepted == c.meanAcceptance - 1.0)
            && (c.groups == 0 ==> c.meanAcceptance == c.meanAccepted == 0.0)
  {
    var c := Infer(outputs, proposed, accepted, depth).value;
    if c.groups > 0 { AddOne(accepted, c.groups); }
  }

  lemma AddOne(a: int, n: nat)
    requires n > 0
    ensures 1.0 + Mean(a, n) == (n + a) as real / n as real
  {
    var total, count := a as real, n as real;
    assert (n + a) as real == count + total;
    AddQuotients(count, total, count);
    SelfQuotient(count);
  }

  /** A run with given totals: each group drafts as deep as it can, and accepts as much as it can. */
  function Witness(groups: nat, depth: int, proposed: nat, accepted: nat): seq<Group> {
    if groups == 0 || depth < 0 then [] else
    var p := Min(depth, proposed);
    var a := Min(p, accepted);
    [Group(p, a)] + Witness(groups - 1, depth, proposed - p, accepted - a)
  }

  lemma {:induction false} WitnessTotals(groups: nat, depth: int, proposed: nat, accepted: nat)
    requires accepted <= proposed <= groups * depth
    ensures ValidRun(Witness(groups, depth, proposed, accepted), depth)
    ensures Proposed(Witness(groups, depth, proposed, accepted)) == proposed
    ensures Accepted(Witness(groups, depth, proposed, accepted)) == accepted
    ensures |Witness(groups, depth, proposed, accepted)| == groups
  {
    if groups == 0 {
    } else {
      assert depth >= 0;
      var p := Min(depth, proposed);
      var a := Min(p, accepted);
      assert groups * depth == (groups - 1) * depth + depth;
      WitnessTotals(groups - 1, depth, proposed - p, accepted - a);
      var rest := Witness(groups - 1, depth, proposed - p, accepted - a);
      var run := Witness(groups, depth, proposed, accepted);
      assert run == [Group(p, a)] + rest && run[1..] == rest;
    }
  }

  /** The test passes exactly the totals some run produces, except that it never looks at the sign of `accepted`: no
      run has a negative count, and one passes whenever the proposed drafts fit the groups it invents. */
  lemma AcceptsExactlyRealizable(outputs: nat, proposed: int, accepted: int, depth: int)
    ensures Infer(outputs, proposed, accepted, depth).Ok? && accepted >= 0
            <==> depth != 0 && exists run :: Totals(run, depth, outputs, proposed, accepted)
    ensures accepted < 0 ==>
              (Infer(outputs, proposed, accepted, depth).Ok?
               <==> depth != 0 && outputs > accepted && accepted <= proposed <= (outputs - 1 - accepted) * depth)
  {
    if depth != 0 && exists run :: Totals(run, depth, outputs, proposed, accepted) {
      var run :| Totals(run, depth, outputs, proposed, accepted);
      InferenceIsExact(run, depth, outputs, proposed, accepted);
    }
    if Infer(outputs, proposed, accepted, depth).Ok? && accepted >= 0 {
      var groups := outputs - 1 - accepted;
      var run := Witness(groups, depth, proposed, accepted);
      WitnessTotals(groups, depth, proposed, accepted);
      RunTotals(run, depth);
      assert Totals(run, depth, outputs, proposed, accepted);
    }
  }

  /** One output token and a reported -1 accepted drafts pass the test, with an invented verification group. */
  lemma NegativeAcceptedPasses()
    ensures var r := Infer(1, 0, -1, 4);
            r.Ok? && r.value.groups == 1 && r.value.rejected == 1
    ensures forall run :: !Totals(run, 4, 1, 0, -1)
  {
  }
}
