/** What crashes leave behind: torn lines, rows without their newline, and which runs can still finish with the
    results of an uninterrupted one. */
module ResumeRecovery {
  import opened Journal
  import opened ResumeRuns
  import ResumeStatus

  // ---------------------------------------------------------------- torn lines

  /** A torn line stops everything but the attempt that is writing: no later attempt changes the journal or the
      state file. */
  lemma {:induction false} TornIsFinal(s: System, steps: seq<Step>)
    requires Inv(s) && !NoTorn(Lines(s.disk)) && !s.attempt.Writing?
    ensures Run(s, steps).disk == s.disk
    decreases |steps|
  {
    hide Inv, Apply, NoTorn;
    if steps == [] {
    } else {
      StepIsSafe(s, steps[0]);
      TornStep(s, steps[0]);
      TornIsFinal(Apply(s, steps[0]), steps[1..]);
    }
  }

  lemma TornStep(s: System, step: Step)
    requires Inv(s) && !NoTorn(Lines(s.disk)) && !s.attempt.Writing?
    ensures Apply(s, step).disk == s.disk && !Apply(s, step).attempt.Writing?
  {
    hide JournalComplete, JournalOk, DistinctPlan;
    var i :| 0 <= i < |Lines(s.disk)| && Lines(s.disk)[i].Torn?;
    forall examples ensures !Loadable(Lines(s.disk), examples) {
      assert !LineOk(examples, Lines(s.disk)[i]);
    }
  }

  /** A journal whose state file is missing is never touched: no attempt gets past its start. */
  lemma {:induction false} OrphanIsKept(s: System, steps: seq<Step>)
    requires s.disk.journal.Some? && s.disk.state.None? && s.attempt.Idle?
    ensures Run(s, steps) == s
    decreases |steps|
  {
    hide DistinctIds, Loadable;
    if steps == [] {
    } else {
      OrphanIsKept(s, steps[1..]);
    }
  }

  /** A disk from which the run can still finish: nothing is torn, and if the last row lacks its newline then it
      is the last one planned. */
  ghost predicate Recoverable(disk: Disk) {
    NoTorn(Lines(disk)) && (EndsBare(Lines(disk)) ==> JournalComplete(disk))
  }

  /** Which crashes leave a run that can finish: any between two writes, none inside a row, and one in front of a
      newline exactly when the row is the last one planned. */
  lemma CrashDecides(s: System, tear: Tear)
    requires Inv(s) && Recoverable(s.disk)
    ensures Recoverable(Apply(s, Crash(tear)).disk) <==>
            match tear
            case Clean => true
            case Cut(e, o) => !Accepts(s, e)
            case Unterminated(e, o) =>
              Accepts(s, e) ==> |s.attempt.completed| + 1 == |s.attempt.config.examples|
  {
    hide JournalComplete, JournalOk, NoTorn, DistinctPlan;
    match tear
    case Clean =>
    case Cut(e, o) => if Accepts(s, e) { WrittenTorn(Lines(s.disk), Torn); }
    case Unterminated(e, o) =>
      if Accepts(s, e) {
        ResumeStatus.RowCompletes(s, e, o, Bare(PredictionRow(e, o)), Idle);
        WrittenTorn(Lines(s.disk), Bare(PredictionRow(e, o)));
      }
  }

  /** A run that cannot finish never does, whatever happens next. */
  lemma {:induction false} UnrecoverableStays(s: System, steps: seq<Step>)
    requires Inv(s) && !Recoverable(s.disk)
    ensures !Recoverable(Run(s, steps).disk) && !Published(Run(s, steps).disk)
    decreases |steps|
  {
    hide Inv, Apply, Recoverable;
    if steps == [] {
      PublishedRecovers(s);
    } else {
      StepIsSafe(s, steps[0]);
      UnrecoverableStep(s, steps[0]);
      UnrecoverableStays(Apply(s, steps[0]), steps[1..]);
    }
  }

  lemma PublishedRecovers(s: System)
    requires Inv(s)
    ensures Published(s.disk) ==> Recoverable(s.disk)
  {
  }

  lemma UnrecoverableStep(s: System, step: Step)
    requires Inv(s) && !Recoverable(s.disk)
    ensures !Recoverable(Apply(s, step).disk)
  {
    hide Inv, Apply, JournalComplete, Extends;
    if NoTorn(Lines(s.disk)) {
      JournalNeedsState(s);
      BareKeepsStatus(s, step);
    } else {
      StepExtends(s, step);
      TornStays(s, Apply(s, step));
    }
  }

  lemma TornStays(s: System, t: System)
    requires Extends(s, t) && !NoTorn(Lines(s.disk))
    ensures !NoTorn(Lines(t.disk))
  {
    var i :| 0 <= i < |Lines(s.disk)| && Lines(s.disk)[i].Torn?;
    assert Lines(t.disk)[i].Torn?;
  }

  /** Behind a row without its newline a step either tears the line or leaves the journal's completeness alone. */
  lemma BareKeepsStatus(s: System, step: Step)
    requires EndsBare(Lines(s.disk)) && s.disk.state.Some?
    ensures var t := Apply(s, step);
            (Lines(t.disk) == Lines(s.disk) && (JournalComplete(t.disk) <==> JournalComplete(s.disk)))
            || !NoTorn(Lines(t.disk))
  {
    hide Loadable, DistinctIds, DistinctRows, NoTorn;
    WrittenTorn(Lines(s.disk), Torn);
    if step.Append? { WrittenTorn(Lines(s.disk), Whole(PredictionRow(step.example, step.outcome))); }
    if step.Crash? && step.tear.Unterminated? {
      WrittenTorn(Lines(s.disk), Bare(PredictionRow(step.tear.example, step.tear.outcome)));
    }
  }

  // ---------------------------------------------------------------- deterministic runs

  type Sampler = Example -> Outcome

  /** Every attempt uses this configuration, and every row this sampler. Crashes may tear any write. */
  ghost predicate Deterministic(step: Step, c: Config, sample: Sampler) {
    match step
    case Start(config) => config == c
    case Append(e, o) => o == sample(e)
    case Crash(Unterminated(e, o)) => o == sample(e)
    case _ => true
  }

  ghost predicate DetInv(s: System, c: Config, sample: Sampler) {
    && (s.disk.state.Some? ==> s.disk.state.value.identity == IdentityOf(c))
    && (!s.attempt.Idle? ==> s.attempt.config == c)
    && ProducedBy(Lines(s.disk), c.examples, sample)
  }

  lemma WriteProduced(journal: seq<Line>, c: Config, sample: Sampler, line: Line)
    requires ProducedBy(journal, c.examples, sample)
    requires !line.Torn? ==> exists e :: e in c.examples && line.row == PredictionRow(e, sample(e))
    ensures ProducedBy(Written(journal, line), c.examples, sample)
  {
    var after := Written(journal, line);
    forall i | 0 <= i < |after| && !after[i].Torn?
      ensures exists e :: e in c.examples && after[i].row == PredictionRow(e, sample(e))
    {
      assert after[i] == line || (i < |journal| && after[i] == journal[i]);
    }
  }

  lemma DetStep(s: System, step: Step, c: Config, sample: Sampler)
    requires DetInv(s, c, sample) && Deterministic(step, c, sample)
    ensures DetInv(Apply(s, step), c, sample)
  {
    hide Loadable, DistinctIds, ProducedBy, Written;
    match step
    case Append(e, o) => if Accepts(s, e) { WriteProduced(Lines(s.disk), c, sample, Whole(PredictionRow(e, o))); }
    case Crash(Cut(e, o)) => WriteProduced(Lines(s.disk), c, sample, Torn);
    case Crash(Unterminated(e, o)) =>
      if Accepts(s, e) { WriteProduced(Lines(s.disk), c, sample, Bare(PredictionRow(e, o))); }
    case _ =>
  }

  lemma {:induction false} DetRun(s: System, steps: seq<Step>, c: Config, sample: Sampler)
    requires DetInv(s, c, sample)
    requires forall i | 0 <= i < |steps| :: Deterministic(steps[i], c, sample)
    ensures DetInv(Run(s, steps), c, sample)
    decreases |steps|
  {
    hide DetInv, Apply, Deterministic;
    if steps == [] {
    } else {
      DetStep(s, steps[0], c, sample);
      DetRun(Apply(s, steps[0]), steps[1..], c, sample);
    }
  }

  lemma DetLoadable(s: System, c: Config, sample: Sampler)
    requires Inv(s) && DetInv(s, c, sample) && DistinctIds(c.examples) && NoTorn(Lines(s.disk))
    ensures Loadable(Lines(s.disk), c.examples)
    ensures s.disk.state.Some? && JournalComplete(s.disk) ==> Complete(Lines(s.disk), c.examples)
  {
    hide JournalComplete;
    var lines := Lines(s.disk);
    forall i | 0 <= i < |lines| ensures LineOk(c.examples, lines[i]) {
      var e :| e in c.examples && lines[i].row == PredictionRow(e, sample(e));
      var k :| 0 <= k < |c.examples| && c.examples[k] == e;
      ExampleOfIs(c.examples, k);
    }
    PlannedAgree(c.examples);
    if s.disk.state.Some? { JournalCompleteIds(s.disk); }
  }

  lemma JournalCompleteIds(disk: Disk)
    requires disk.state.Some?
    ensures JournalComplete(disk) ==>
              NoTorn(Lines(disk))
              && Ids(Lines(disk))
                 == (set i | 0 <= i < |disk.state.value.identity.planned| :: disk.state.value.identity.planned[i])
  {
  }

  /** Any mix of attempts, early ends and crashes that ends `Finished` gives exactly the examples and the
      aggregate of one uninterrupted attempt. */
  lemma FinishedRunIsIdeal(steps: seq<Step>, c: Config, sample: Sampler)
    requires DistinctIds(c.examples) && forall i | 0 <= i < |steps| :: Deterministic(steps[i], c, sample)
    ensures var disk := Run(EMPTY, steps).disk;
            Published(disk) ==>
              && Complete(Lines(disk), c.examples)
              && Serialize(c.examples, RowsOf(Lines(disk))) == Serialize(c.examples, IdealRows(c.examples, sample))
              && ResumedAggregate(RowsOf(Lines(disk))) == ResumedAggregate(IdealRows(c.examples, sample))
  {
    hide Run, Apply, JournalComplete, Serialize, ResumedAggregate, DistinctIds, Deterministic;
    InvInitially();
    RunIsSafe(EMPTY, steps);
    DetRun(EMPTY, steps, c, sample);
    var s := Run(EMPTY, steps);
    if Published(s.disk) {
      JournalCompleteIds(s.disk);
      DetLoadable(s, c, sample);
      CompleteJournalIsIdeal(Lines(s.disk), c.examples, sample);
    }
  }

  // ---------------------------------------------------------------- an uninterrupted attempt

  function Appends(examples: seq<Example>, sample: Sampler): (steps: seq<Step>)
    ensures |steps| == |examples|
  {
    seq(|examples|, i requires 0 <= i < |examples| => Append(examples[i], sample(examples[i])))
  }

  /** One attempt that nothing interrupts. Appends for examples already done do nothing. */
  function FullAttempt(c: Config, sample: Sampler): seq<Step> {
    [Crash(Clean), Start(c), Contract, Open] + (Appends(c.examples, sample) + [Close, Publish])
  }

  /** A writer on a healthy journal. */
  ghost predicate Healthy(s: System) { NoTorn(Lines(s.disk)) && !EndsBare(Lines(s.disk)) }

  lemma {:induction false} AppendsFinish(s: System, c: Config, sample: Sampler, examples: seq<Example>)
    requires Inv(s) && DetInv(s, c, sample) && s.attempt.Writing? && Healthy(s)
    requires forall e | e in examples :: e in c.examples
    ensures var t := Run(s, Appends(examples, sample));
            Inv(t) && DetInv(t, c, sample) && t.attempt.Writing? && Healthy(t)
            && Ids(Lines(s.disk)) <= Ids(Lines(t.disk)) && (s.disk.state.Some? ==> t.disk.state.Some?)
            && forall e | e in examples :: e.id in Ids(Lines(t.disk))
    decreases |examples|
  {
    hide DetInv, Inv, Ids, Healthy, Apply;
    var steps := Appends(examples, sample);
    if examples == [] {
    } else {
      var e := examples[0];
      var s' := Apply(s, steps[0]);
      StepIsSafe(s, steps[0]);
      DetStep(s, steps[0], c, sample);
      AppendDoes(s, c, sample, e);
      assert steps[1..] == Appends(examples[1..], sample);
      AppendsFinish(s', c, sample, examples[1..]);
      assert forall x | x in examples :: x == e || x in examples[1..];
    }
  }

  lemma AppendDoes(s: System, c: Config, sample: Sampler, e: Example)
    requires Inv(s) && DetInv(s, c, sample) && s.attempt.Writing? && Healthy(s) && e in c.examples
    ensures var t := Apply(s, Append(e, sample(e)));
            t.attempt.Writing? && Healthy(t) && e.id in Ids(Lines(t.disk))
            && Ids(Lines(s.disk)) <= Ids(Lines(t.disk))
  {
    hide JournalOk, JournalComplete, DistinctIds, DistinctPlan;
    if Accepts(s, e) {
      IdsOfWritten(Lines(s.disk), Whole(PredictionRow(e, sample(e))));
      WrittenTorn(Lines(s.disk), Whole(PredictionRow(e, sample(e))));
    }
  }

  lemma {:induction false} AppendsIdle(s: System, steps: seq<Step>)
    requires !s.attempt.Writing? && forall i | 0 <= i < |steps| :: steps[i].Append?
    ensures Run(s, steps) == s
    decreases |steps|
  {
    hide Loadable, DistinctIds;
    if steps == [] {
    } else {
      AppendsIdle(s, steps[1..]);
    }
  }

  /** The opening of an attempt behind a crash: it reaches the writer, or finds nothing left to do. */
  lemma OpeningReaches(s: System, c: Config, sample: Sampler)
    requires Inv(s) && DetInv(s, c, sample) && DistinctIds(c.examples) && Recoverable(s.disk)
    ensures var t := Run(s, [Crash(Clean), Start(c), Contract, Open]);
            Inv(t) && DetInv(t, c, sample) && t.disk.state.Some? && NoTorn(Lines(t.disk))
            && ((t.attempt.Writing? && Healthy(t))
                || (t.attempt.Closed? && forall e | e in c.examples :: e.id in Ids(Lines(t.disk))))
  {
    hide Inv, DistinctIds, Loadable, JournalComplete, NoTorn;
    var steps := [Crash(Clean), Start(c), Contract, Open];
    var s1 := Apply(s, Crash(Clean));
    var s2 := Apply(s1, Start(c));
    var s3 := Apply(s2, Contract);
    var s4 := Apply(s3, Open);
    RunFour(s, steps[0], steps[1], steps[2], steps[3]);
    StepIsSafe(s, steps[0]);
    StepIsSafe(s1, steps[1]);
    StepIsSafe(s2, steps[2]);
    StepIsSafe(s3, steps[3]);
    DetStep(s, steps[0], c, sample);
    DetStep(s1, steps[1], c, sample);
    DetStep(s2, steps[2], c, sample);
    DetStep(s3, steps[3], c, sample);
    JournalNeedsState(s1);
    DetLoadable(s3, c, sample);
    BareMeansDone(s, c);
  }

  /** A recoverable journal that ends in a row without its newline has nothing left to do. */
  lemma BareMeansDone(s: System, c: Config)
    requires Recoverable(s.disk) && s.disk.state.Some? ==> s.disk.state.value.identity == IdentityOf(c)
    ensures Recoverable(s.disk) && EndsBare(Lines(s.disk)) ==> forall e | e in c.examples :: e.id in Ids(Lines(s.disk))
  {
    if Recoverable(s.disk) && EndsBare(Lines(s.disk)) {
      PlannedAgree(c.examples);
      forall e | e in c.examples ensures e.id in Ids(Lines(s.disk)) {
        PlannedExample(c.examples, e);
      }
    }
  }

  lemma JournalNeedsState(s: System)
    requires Inv(s)
    ensures s.disk.journal.Some? ==> s.disk.state.Some?
  {
  }

  lemma RunFour(s: System, a: Step, b: Step, c: Step, d: Step)
    ensures Run(s, [a, b, c, d]) == Apply(Apply(Apply(Apply(s, a), b), c), d)
  {
    hide Apply;
    var steps := [a, b, c, d];
    assert steps[1..] == [b, c, d] && steps[1..][1..] == [c, d] && [c, d][1..] == [d] && [d][1..] == [];
    RunOne(s, steps);
    RunOne(Apply(s, a), steps[1..]);
    RunOne(Apply(Apply(s, a), b), [c, d]);
    RunOne(Apply(Apply(Apply(s, a), b), c), [d]);
  }

  lemma ClosingPublishes(s: System, c: Config, sample: Sampler)
    requires Inv(s) && DetInv(s, c, sample) && DistinctIds(c.examples) && s.disk.state.Some?
    requires NoTorn(Lines(s.disk))
    requires s.attempt.Writing? || s.attempt.Closed?
    requires forall e | e in c.examples :: e.id in Ids(Lines(s.disk))
    ensures var t := Run(s, [Close, Publish]);
            t.disk.state.Some? && t.disk.state.value.status == Finished && Lines(t.disk) == Lines(s.disk)
  {
    hide Inv;
    var s1 := Apply(s, Close);
    assert [Close, Publish][1..] == [Publish] && [Publish][1..] == [];
    RunOne(s, [Close, Publish]);
    RunOne(s1, [Publish]);
    StepIsSafe(s, Close);
    DetStep(s, Close, c, sample);
    DetLoadable(s1, c, sample);
    LoadableIds(Lines(s1.disk), c.examples);
    assert PlannedIds(c.examples) <= Ids(Lines(s1.disk)) by {
      forall id | id in PlannedIds(c.examples) ensures id in Ids(Lines(s1.disk)) {
        var k :| 0 <= k < |c.examples| && c.examples[k].id == id;
        assert c.examples[k] in c.examples;
      }
    }
    LengthDecides(Lines(s1.disk), c.examples);
  }

  lemma FullAttemptFinishes(s: System, c: Config, sample: Sampler)
    requires Inv(s) && DetInv(s, c, sample) && DistinctIds(c.examples) && Recoverable(s.disk)
    ensures Published(Run(s, FullAttempt(c, sample)).disk)
  {
    hide Run, Apply, Inv, DetInv, DistinctIds, Ids, Recoverable, Healthy;
    var opening: seq<Step> := [Crash(Clean), Start(c), Contract, Open];
    var middle, closing := Appends(c.examples, sample), [Close, Publish];
    RunAppend(s, opening, middle + closing);
    var s1 := Run(s, opening);
    RunAppend(s1, middle, closing);
    OpeningReaches(s, c, sample);
    if s1.attempt.Writing? {
      AppendsFinish(s1, c, sample, c.examples);
      HealthyHasNoTorn(Run(s1, middle));
    } else {
      AppendsIdle(s1, middle);
    }
    ClosingPublishes(Run(s1, middle), c, sample);
  }

  lemma HealthyHasNoTorn(s: System)
    ensures Healthy(s) ==> NoTorn(Lines(s.disk))
  {
  }

  /** Recovery, exactly: after any attempts, early ends and crashes, one uninterrupted attempt finishes the run if
      and only if the disk is recoverable; if it is not, no steps whatever finish it. */
  lemma ResumeFinishesExactly(steps: seq<Step>, c: Config, sample: Sampler)
    requires DistinctIds(c.examples) && forall i | 0 <= i < |steps| :: Deterministic(steps[i], c, sample)
    ensures Published(Run(EMPTY, steps + FullAttempt(c, sample)).disk) <==> Recoverable(Run(EMPTY, steps).disk)
    ensures !Recoverable(Run(EMPTY, steps).disk) ==>
              forall more: seq<Step> :: !Published(Run(EMPTY, steps + more).disk)
  {
    hide Run, Apply, Inv, DetInv, DistinctIds, Deterministic, Recoverable, FullAttempt;
    InvInitially();
    DetInitially(c, sample);
    RunIsSafe(EMPTY, steps);
    DetRun(EMPTY, steps, c, sample);
    var s := Run(EMPTY, steps);
    if Recoverable(s.disk) {
      RunAppend(EMPTY, steps, FullAttempt(c, sample));
      FullAttemptFinishes(s, c, sample);
    } else {
      forall more: seq<Step> ensures !Published(Run(EMPTY, steps + more).disk) {
        RunAppend(EMPTY, steps, more);
        UnrecoverableStays(s, more);
      }
    }
  }

  lemma DetInitially(c: Config, sample: Sampler)
    ensures DetInv(EMPTY, c, sample)
  {
  }
}
