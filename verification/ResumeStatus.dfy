/** When the published status of a resumable run tells the truth about its journal, step by step and over whole
    runs. */
module ResumeStatus {
  import opened Basics
  import opened Journal
  import opened ResumeRuns

  /** The status tells the truth about the journal. */
  ghost predicate StatusExact(s: System) { Published(s.disk) <==> JournalComplete(s.disk) }

  /** One accepted row is all that is missing from a healthy journal. */
  ghost predicate LastRow(s: System, e: Example) {
    && Accepts(s, e) && |s.attempt.completed| + 1 == |s.attempt.config.examples|
    && NoTorn(Lines(s.disk)) && !EndsBare(Lines(s.disk))
  }

  /** The steps that complete the journal behind the status's back: writing the last row, with or without its
      newline, and creating the state file of an empty plan. */
  ghost predicate Completes(s: System, step: Step) {
    match step
    case Append(e, o) => LastRow(s, e)
    case Crash(Unterminated(e, o)) => LastRow(s, e)
    case Contract => s.attempt.Started? && s.disk.state.None? && s.attempt.config.examples == []
    case _ => false
  }

  /** The step that makes the status exact again. */
  ghost predicate Publishes(s: System, step: Step) {
    step.Publish? && s.attempt.Closed? && Loadable(Lines(s.disk), s.attempt.config.examples)
  }

  lemma CompleteSize(examples: seq<Example>, ids: set<string>)
    requires DistinctIds(examples) && ids <= PlannedIds(examples)
    ensures ids == PlannedIds(examples) <==> |ids| == |examples|
  {
    PlanCount(examples);
    if |ids| == |examples| { SubsetOfSameSize(ids, PlannedIds(examples)); }
  }

  /** Writing a row completes the journal exactly when it is the last one. */
  lemma RowCompletes(s: System, e: Example, o: Outcome, line: Line, attempt: Attempt)
    requires Inv(s) && Accepts(s, e) && !line.Torn? && line.row == PredictionRow(e, o)
    ensures JournalComplete(Write(s, line, attempt).disk) <==> LastRow(s, e)
    ensures !JournalComplete(s.disk)
  {
    hide DistinctPlan, BareLast, DistinctIds, DistinctRows, Loadable;
    var examples := s.attempt.config.examples;
    var before := Lines(s.disk);
    PlannedExample(examples, e);
    PlannedAgree(examples);
    IdsOfWritten(before, line);
    WrittenTorn(before, line);
    WriteKeepsJournal(s.disk, line);
    CompleteSize(examples, s.attempt.completed + {e.id});
  }

  /** A torn line is never a complete journal. */
  lemma TearCompletes(s: System, attempt: Attempt)
    ensures !JournalComplete(Write(s, Torn, attempt).disk)
  {
    WrittenTorn(Lines(s.disk), Torn);
  }

  ghost predicate StepDecides(s: System, step: Step) {
    && (StatusExact(s) ==> (StatusExact(Apply(s, step)) <==> !Completes(s, step)))
    && (!StatusExact(s) ==> (StatusExact(Apply(s, step)) <==> Publishes(s, step)) && !Completes(s, step))
  }

  /** Step by step, from any reachable system: an exact status becomes inexact by the completing steps and no
      others, and an inexact one becomes exact by publishing and by nothing else. Both conditions are about the
      system before the step. */
  lemma StatusStep(s: System, step: Step)
    requires Inv(s)
    ensures StatusExact(s) ==> (StatusExact(Apply(s, step)) <==> !Completes(s, step))
    ensures !StatusExact(s) ==> (StatusExact(Apply(s, step)) <==> Publishes(s, step)) && !Completes(s, step)
  {
    hide Inv, Apply, StatusExact, Completes, Publishes;
    assert StepDecides(s, step) by {
      match step
      case Start(config) => StartStatus(s, config);
      case Contract => ContractStatus(s);
      case Open => OpenStatus(s);
      case Append(e, o) => AppendStatus(s, e, o);
      case Close => CloseStatus(s);
      case Publish => PublishStatus(s);
      case Crash(tear) => CrashStatus(s, tear);
    }
  }

  lemma StartStatus(s: System, config: Config)
    ensures StepDecides(s, Start(config))
  {
    hide JournalComplete, Loadable, DistinctIds;
  }

  lemma CloseStatus(s: System)
    ensures StepDecides(s, Close)
  {
    hide JournalComplete, Loadable;
  }

  lemma OpenStatus(s: System)
    ensures StepDecides(s, Open)
  {
    hide Loadable, NoTorn, DistinctRows;
  }

  lemma ContractStatus(s: System)
    requires Inv(s)
    ensures StepDecides(s, Contract)
  {
    if s.attempt.Started? && s.disk.state.None? {
      var examples := s.attempt.config.examples;
      PlannedAgree(examples);
      if examples != [] { assert examples[0].id in PlannedIds(examples); }
      assert Ids(Lines(s.disk)) == {};
    }
  }

  lemma AppendStatus(s: System, e: Example, o: Outcome)
    requires Inv(s)
    ensures StepDecides(s, Append(e, o))
  {
    hide JournalComplete, JournalOk, Loadable, NoTorn, DistinctIds, DistinctPlan;
    if Accepts(s, e) {
      RowCompletes(s, e, o, Whole(PredictionRow(e, o)), Apply(s, Append(e, o)).attempt);
    }
  }

  lemma CrashStatus(s: System, tear: Tear)
    requires Inv(s)
    ensures StepDecides(s, Crash(tear))
  {
    hide JournalComplete, JournalOk, Loadable, NoTorn, DistinctIds, DistinctPlan;
    match tear
    case Clean =>
    case Cut(e, o) =>
      if Accepts(s, e) {
        RowCompletes(s, e, o, Whole(PredictionRow(e, o)), Idle);
        TearCompletes(s, Idle);
      }
    case Unterminated(e, o) =>
      if Accepts(s, e) { RowCompletes(s, e, o, Bare(PredictionRow(e, o)), Idle); }
  }

  lemma PublishStatus(s: System)
    requires Inv(s)
    ensures StepDecides(s, Publish)
  {
    hide Loadable, JournalOk, AttemptOk, DistinctPlan, NoTorn, DistinctRows;
    PublishDecides(s);
  }

  /** Step `i` completed the journal, and no step behind it published. */
  ghost predicate LagsFrom(s: System, steps: seq<Step>, i: nat) {
    i < |steps| && Completes(Run(s, steps[..i]), steps[i])
    && forall j | i < j < |steps| :: !Publishes(Run(s, steps[..j]), steps[j])
  }

  /** The status over a whole run, from any reachable system where it is exact: it is exact at the end unless some
      step completed the journal and no later one published. */
  lemma {:induction false} StatusLagsExactly(s: System, steps: seq<Step>)
    requires Inv(s) && StatusExact(s)
    ensures StatusExact(Run(s, steps)) <==> forall i: nat :: !LagsFrom(s, steps, i)
    decreases |steps|
  {
    hide Inv, Apply, StatusExact, Completes, Publishes, LagsFrom;
    if steps == [] {
      NothingLags(s);
    } else {
      var n := |steps| - 1;
      var before, last := steps[..n], steps[n];
      var t := Run(s, before);
      StatusLagsExactly(s, before);
      RunIsSafe(s, before);
      StatusStep(t, last);
      assert steps == before + [last];
      RunAppend(s, before, [last]);
      RunOne(t, [last]);
      assert Run(s, steps) == Apply(t, last) by { assert Run(Apply(t, last), []) == Apply(t, last); }
      forall i: nat
        ensures LagsFrom(s, steps, i)
                <==> (i == n && Completes(t, last)) || (LagsFrom(s, before, i) && !Publishes(t, last))
      {
        LagsStep(s, steps, i);
      }
      if exists i: nat :: LagsFrom(s, before, i) {
        var i: nat :| LagsFrom(s, before, i);
        assert LagsFrom(s, steps, i) <==> !Publishes(t, last) || (i == n && Completes(t, last));
      }
      assert LagsFrom(s, steps, n) <== Completes(t, last);
    }
  }

  lemma NothingLags(s: System)
    ensures forall i: nat :: !LagsFrom(s, [], i)
  {
  }

  lemma LagsStep(s: System, steps: seq<Step>, i: nat)
    requires steps != []
    ensures var n := |steps| - 1;
            var t := Run(s, steps[..n]);
            LagsFrom(s, steps, i)
            <==> (i == n && Completes(t, steps[n]))
                 || (LagsFrom(s, steps[..n], i) && !Publishes(t, steps[n]))
  {
    hide Run, Apply, Completes, Publishes;
    var n := |steps| - 1;
    forall j | 0 <= j < n ensures steps[..n][..j] == steps[..j] && steps[..n][j] == steps[j] {
    }
  }

  /** From the empty directory on: whatever the attempts, early ends and crashes, the status is exact unless some
      step completed the journal and no later one published. */
  lemma ReachableStatus(steps: seq<Step>)
    ensures StatusExact(Run(EMPTY, steps)) <==> forall i: nat :: !LagsFrom(EMPTY, steps, i)
  {
    hide Run, Apply, LagsFrom;
    InvInitially();
    StatusLagsExactly(EMPTY, steps);
  }

  /** An empty plan is complete as soon as its state file exists, and in progress until a publish. */
  lemma EmptyPlanLags(protocol: string)
    ensures !StatusExact(Run(EMPTY, [Start(Config(protocol, [])), Contract]))
  {
    var steps := [Start(Config(protocol, [])), Contract];
    var s1 := Apply(EMPTY, steps[0]);
    assert steps[1..] == [Contract] && [Contract][1..] == [];
    RunOne(EMPTY, steps);
    RunOne(s1, [Contract]);
    assert Ids([]) == {};
  }

  /** The status can lag: a crash behind the last row leaves a complete journal whose status is not `Finished`. */
  lemma StatusLagsAfterCrash()
    ensures exists steps :: JournalComplete(Run(EMPTY, steps).disk)
                            && Run(EMPTY, steps).disk.state.value.status == InProgress
  {
    var e := Example("a", "p", "t");
    var c := Config("x", [e]);
    var o := Outcome("", 1.0, None, "stop", 0, 0, 0);
    var steps := [Start(c), Contract, Open, Append(e, o), Crash(Clean)];
    var s1 := Apply(EMPTY, Start(c));
    var s2 := Apply(s1, Contract);
    var s3 := Apply(s2, Open);
    assert e in c.examples && e.id !in Ids([]);
    assert s3.attempt == Writing(c, Ids([]));
    var s4 := Apply(s3, Append(e, o));
    var s5 := Apply(s4, Crash(Clean));
    RunFive(EMPTY, steps[0], steps[1], steps[2], steps[3], steps[4]);
    IdsOfWritten([], Whole(PredictionRow(e, o)));
    assert [] + [Whole(PredictionRow(e, o))] == [Whole(PredictionRow(e, o))];
    PlannedAgree(c.examples);
    assert PlannedIds(c.examples) == {"a"};
    assert Run(EMPTY, steps) == s5;
  }

  lemma RunFive(s: System, a: Step, b: Step, c: Step, d: Step, e: Step)
    ensures Run(s, [a, b, c, d, e]) == Apply(Apply(Apply(Apply(Apply(s, a), b), c), d), e)
  {
    hide Apply;
    var steps := [a, b, c, d, e];
    assert steps[1..] == [b, c, d, e] && steps[1..][1..] == [c, d, e] && steps[1..][1..][1..] == [d, e];
    assert steps[1..][1..][1..][1..] == [e] && steps[1..][1..][1..][1..][1..] == [];
    RunOne(s, steps);
    RunOne(Apply(s, a), steps[1..]);
    RunOne(Apply(Apply(s, a), b), steps[1..][1..]);
    RunOne(Apply(Apply(Apply(s, a), b), c), [d, e]);
    RunOne(Apply(Apply(Apply(Apply(s, a), b), c), d), [e]);
  }
}
