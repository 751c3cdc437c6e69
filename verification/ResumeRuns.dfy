/** Resumable quality runs as a state machine: what is on disk, what the current attempt holds in memory, and
    the steps between two durable writes. A run is any sequence of steps; a step that cannot happen does nothing. */
module ResumeRuns {
  import opened Basics
  import opened Journal

  datatype Status = InProgress | Partial | Finished

  /** The resume contract of a run: its protocol fields, and the planned example ids in order. */
  datatype Identity = Identity(protocol: string, planned: seq<string>)

  datatype StateFile = StateFile(status: Status, identity: Identity)

  datatype Disk = Disk(state: Option<StateFile>, journal: Option<seq<Line>>)

  datatype Config = Config(protocol: string, examples: seq<Example>)

  function PlanOf(examples: seq<Example>): (ids: seq<string>)
    ensures |ids| == |examples|
  {
    seq(|examples|, i requires 0 <= i < |examples| => examples[i].id)
  }

  function IdentityOf(c: Config): Identity { Identity(c.protocol, PlanOf(c.examples)) }

  /** Where the current attempt stands. `Writing` holds the ids its writer has marked completed. */
  datatype Attempt = Idle
                   | Started(config: Config)
                   | Agreed(config: Config)
                   | Writing(config: Config, completed: set<string>)
                   | Closed(config: Config)

  datatype System = System(disk: Disk, attempt: Attempt)

  /** Where a crash stops a write: before it, inside the row, or in front of its newline. */
  datatype Tear = Clean | Cut(example: Example, outcome: Outcome) | Unterminated(example: Example, outcome: Outcome)

  datatype Step = Start(config: Config)          // check the plan and the files, before touching them
                | Contract                       // create the state file, or compare its identity
                | Open                           // load the journal; open the writer if examples remain
                | Append(example: Example, outcome: Outcome)
                | Close                          // the runner returned, early or not
                | Publish                        // load again, and write the status
                | Crash(tear: Tear)              // lose the attempt; maybe in the middle of a write

  function Lines(disk: Disk): seq<Line> {
    match disk.journal case None => [] case Some(lines) => lines
  }

  /** The writer takes the example: it is planned and not yet done. */
  predicate Accepts(s: System, e: Example) {
    s.attempt.Writing? && e in s.attempt.config.examples && e.id !in s.attempt.completed
  }

  function Write(s: System, line: Line, attempt: Attempt): System {
    System(s.disk.(journal := Some(Written(Lines(s.disk), line))), attempt)
  }

  ghost function Apply(s: System, step: Step): System {
    match step
    case Start(config) =>
      if s.attempt.Idle? && DistinctIds(config.examples) && !(s.disk.journal.Some? && s.disk.state.None?)
      then s.(attempt := Started(config)) else s
    case Contract =>
      if !s.attempt.Started? then s
      else if s.disk.state.None? then
        System(s.disk.(state := Some(StateFile(InProgress, IdentityOf(s.attempt.config)))), Agreed(s.attempt.config))
      else if s.disk.state.value.identity != IdentityOf(s.attempt.config) then s.(attempt := Idle)
      else s.(attempt := Agreed(s.attempt.config))
    case Open =>
      if !s.attempt.Agreed? then s
      else if !Loadable(Lines(s.disk), s.attempt.config.examples) then s.(attempt := Idle)
      else if forall e | e in s.attempt.config.examples :: e.id in Ids(Lines(s.disk)) then
        s.(attempt := Closed(s.attempt.config))
      else System(s.disk.(journal := Some(Lines(s.disk))), Writing(s.attempt.config, Ids(Lines(s.disk))))
    case Append(e, o) =>
      if Accepts(s, e) then
        Write(s, Whole(PredictionRow(e, o)), s.attempt.(completed := s.attempt.completed + {e.id}))
      else s
    case Close =>
      if s.attempt.Writing? then s.(attempt := Closed(s.attempt.config)) else s
    case Publish =>
      if !s.attempt.Closed? then s
      else if !Loadable(Lines(s.disk), s.attempt.config.examples) || s.disk.state.None? then s.(attempt := Idle)
      else
        var status := if |Lines(s.disk)| == |s.attempt.config.examples| then Finished else Partial;
        System(s.disk.(state := Some(s.disk.state.value.(status := status))), Idle)
    case Crash(Clean) => s.(attempt := Idle)
    case Crash(Cut(e, o)) => if Accepts(s, e) then Write(s, Torn, Idle) else s.(attempt := Idle)
    case Crash(Unterminated(e, o)) =>
      if Accepts(s, e) then Write(s, Bare(PredictionRow(e, o)), Idle) else s.(attempt := Idle)
  }

  const EMPTY: System := System(Disk(None, None), Idle)

  ghost function Run(s: System, steps: seq<Step>): System
    decreases |steps|
  {
    if steps == [] then s else Run(Apply(s, steps[0]), steps[1..])
  }

  lemma {:induction false} RunAppend(s: System, a: seq<Step>, b: seq<Step>)
    ensures Run(s, a + b) == Run(Run(s, a), b)
    decreases |a|
  {
    if a == [] {
      assert a + b == b;
    } else {
      assert (a + b)[1..] == a[1..] + b;
      RunAppend(Apply(s, a[0]), a[1..], b);
    }
  }

  // ---------------------------------------------------------------- safety

  ghost predicate NoTorn(journal: seq<Line>) { forall i | 0 <= i < |journal| :: !journal[i].Torn? }

  ghost predicate DistinctRows(journal: seq<Line>) {
    forall i, j | 0 <= i < j < |journal| && !journal[i].Torn? && !journal[j].Torn? ::
      journal[i].row.id != journal[j].row.id
  }

  /** Only the last line can lack its newline. */
  ghost predicate BareLast(journal: seq<Line>) { forall i | 0 <= i < |journal| - 1 :: !journal[i].Bare? }

  ghost predicate DistinctPlan(ids: seq<string>) {
    forall i, j | 0 <= i < j < |ids| :: ids[i] != ids[j]
  }

  /** Each planned id has a row and each row a planned id, once; nothing is torn. */
  ghost predicate JournalComplete(disk: Disk) {
    && disk.state.Some? && NoTorn(Lines(disk)) && DistinctRows(Lines(disk))
    && Ids(Lines(disk))
       == (set i | 0 <= i < |disk.state.value.identity.planned| :: disk.state.value.identity.planned[i])
  }

  predicate Published(disk: Disk) { disk.state.Some? && disk.state.value.status == Finished }

  /** The rows are for planned examples, each once, and only the last may lack its newline. */
  ghost predicate JournalOk(disk: Disk) {
    && DistinctRows(Lines(disk)) && BareLast(Lines(disk))
    && forall i | 0 <= i < |Lines(disk)| && !Lines(disk)[i].Torn? ::
         disk.state.Some? && Lines(disk)[i].row.id in disk.state.value.identity.planned
  }

  /** What an attempt in memory knows of the disk. */
  ghost predicate AttemptOk(s: System) {
    && (!s.attempt.Idle? ==> DistinctIds(s.attempt.config.examples))
    && (s.attempt.Agreed? || s.attempt.Writing? || s.attempt.Closed? ==>
          s.disk.state.Some? && s.disk.state.value.identity == IdentityOf(s.attempt.config))
    && (s.attempt.Writing? ==>
          && Ids(Lines(s.disk)) <= s.attempt.completed <= PlannedIds(s.attempt.config.examples)
          && !Published(s.disk)
          && (NoTorn(Lines(s.disk)) ==> s.attempt.completed == Ids(Lines(s.disk)))
          && (EndsBare(Lines(s.disk)) ==>
                NoTorn(Lines(s.disk)) && s.attempt.completed != PlannedIds(s.attempt.config.examples)))
  }

  /** What every reachable system satisfies. */
  ghost predicate Inv(s: System) {
    && (s.disk.journal.Some? ==> s.disk.state.Some?)
    && (s.disk.state.Some? ==> DistinctPlan(s.disk.state.value.identity.planned))
    && JournalOk(s.disk) && AttemptOk(s)
    && (Published(s.disk) ==> JournalComplete(s.disk))
  }

  lemma PlannedAgree(examples: seq<Example>)
    ensures forall id :: id in PlanOf(examples) <==> id in PlannedIds(examples)
    ensures (set i | 0 <= i < |PlanOf(examples)| :: PlanOf(examples)[i]) == PlannedIds(examples)
    ensures DistinctIds(examples) ==> DistinctPlan(PlanOf(examples))
  {
    var plan := PlanOf(examples);
    forall id ensures id in plan <==> id in PlannedIds(examples) {
      if id in plan {
        var i :| 0 <= i < |plan| && plan[i] == id;
        assert examples[i].id == id;
      }
      if id in PlannedIds(examples) {
        var i :| 0 <= i < |examples| && examples[i].id == id;
        assert plan[i] == id;
      }
    }
    assert forall id :: id in (set i | 0 <= i < |plan| :: plan[i]) <==> id in plan;
  }

  /** A journal whose ids are distinct has as many rows as ids. */
  lemma {:induction false} IdCount(journal: seq<Line>)
    requires DistinctRows(journal) && NoTorn(journal)
    ensures |Ids(journal)| == |journal|
  {
    if journal == [] {
      assert Ids(journal) == {};
    } else {
      var n := |journal| - 1;
      var before := journal[..n];
      IdCount(before);
      IdsAppend(journal, n);
      assert journal[..n + 1] == journal;
      forall k | 0 <= k < n ensures before[k].row.id != journal[n].row.id {
        assert before[k] == journal[k];
      }
      assert journal[n].row.id !in Ids(before);
    }
  }

  lemma {:induction false} PlanCount(examples: seq<Example>)
    requires DistinctIds(examples)
    ensures |PlannedIds(examples)| == |examples|
  {
    if examples == [] {
      assert PlannedIds(examples) == {};
    } else {
      var n := |examples| - 1;
      var before := examples[..n];
      PlanCount(before);
      assert PlannedIds(examples) == PlannedIds(before) + {examples[n].id} by {
        assert forall i | 0 <= i < n :: before[i] == examples[i];
      }
      assert examples[n].id !in PlannedIds(before);
    }
  }

  lemma SubsetOfSameSize<T>(a: set<T>, b: set<T>)
    requires a <= b && |a| == |b|
    ensures a == b
  {
    assert b == a + (b - a);
    assert |b| == |a| + |b - a|;
  }

  lemma LoadableIds(journal: seq<Line>, examples: seq<Example>)
    requires Loadable(journal, examples)
    ensures Ids(journal) <= PlannedIds(examples)
    ensures DistinctRows(journal) && NoTorn(journal)
  {
    forall i | 0 <= i < |journal| ensures !journal[i].Torn? && journal[i].row.id in PlannedIds(examples) {
      assert LineOk(examples, journal[i]);
      ExampleOfSome(examples, journal[i].row.id);
    }
  }

  /** The status test of the source, `len(rows) == len(examples)`, decides completeness. */
  lemma LengthDecides(journal: seq<Line>, examples: seq<Example>)
    requires DistinctIds(examples) && Loadable(journal, examples)
    ensures |journal| == |examples| <==> Ids(journal) == PlannedIds(examples)
  {
    LoadableIds(journal, examples);
    IdCount(journal);
    PlanCount(examples);
    if |journal| == |examples| { SubsetOfSameSize(Ids(journal), PlannedIds(examples)); }
  }

  lemma InvInitially()
    ensures Inv(EMPTY)
  {
  }

  lemma StartKeepsInv(s: System, config: Config)
    requires Inv(s)
    ensures Inv(Apply(s, Start(config)))
  {
    hide JournalOk, JournalComplete;
  }

  lemma ContractKeepsInv(s: System)
    requires Inv(s)
    ensures Inv(Apply(s, Contract))
  {
    if s.attempt.Started? { PlannedAgree(s.attempt.config.examples); }
  }

  lemma OpenKeepsInv(s: System)
    requires Inv(s)
    ensures Inv(Apply(s, Open))
  {
    hide DistinctPlan;
    if s.attempt.Agreed? && Loadable(Lines(s.disk), s.attempt.config.examples) {
      var examples := s.attempt.config.examples;
      PlannedAgree(examples);
      LoadableIds(Lines(s.disk), examples);
      if PlannedIds(examples) <= Ids(Lines(s.disk)) {
        forall e | e in examples ensures e.id in Ids(Lines(s.disk)) {
          var k :| 0 <= k < |examples| && examples[k] == e;
          assert e.id in PlannedIds(examples);
        }
      }
    }
  }

  /** Writing a line at the end of the journal; a row must be for a planned example that has none. */
  lemma WriteKeepsJournal(disk: Disk, line: Line)
    requires JournalOk(disk)
    requires !line.Torn? ==>
               disk.state.Some? && line.row.id in disk.state.value.identity.planned && line.row.id !in Ids(Lines(disk))
    ensures JournalOk(disk.(journal := Some(Written(Lines(disk), line))))
  {
    var before, after := Lines(disk), Written(Lines(disk), line);
    assert forall i | 0 <= i < |after| - 1 :: after[i] == before[i];
    if !EndsBare(before) && !line.Torn? {
      forall i | 0 <= i < |before| && !before[i].Torn? ensures before[i].row.id != line.row.id {
        assert before[i].row.id in Ids(before);
      }
    }
  }

  lemma AppendKeepsInv(s: System, e: Example, o: Outcome)
    requires Inv(s)
    ensures Inv(Apply(s, Append(e, o)))
  {
    hide JournalOk, JournalComplete, DistinctIds, DistinctPlan;
    if Accepts(s, e) {
      var line := Whole(PredictionRow(e, o));
      PlannedExample(s.attempt.config.examples, e);
      WriteKeepsJournal(s.disk, line);
      IdsOfWritten(Lines(s.disk), line);
      WrittenTorn(Lines(s.disk), line);
    }
  }

  lemma PlannedExample(examples: seq<Example>, e: Example)
    requires e in examples
    ensures e.id in PlannedIds(examples) && e.id in PlanOf(examples)
  {
    var k :| 0 <= k < |examples| && examples[k] == e;
    assert e.id in PlannedIds(examples);
    PlannedAgree(examples);
  }

  /** Writing behind a row without its newline tears the last line. */
  lemma WrittenTorn(journal: seq<Line>, line: Line)
    ensures NoTorn(Written(journal, line)) <==> NoTorn(journal) && !EndsBare(journal) && !line.Torn?
    ensures EndsBare(Written(journal, line)) <==> !EndsBare(journal) && line.Bare?
  {
    var after := Written(journal, line);
    assert after[|after| - 1] == if EndsBare(journal) then Torn else line;
    assert forall i | 0 <= i < |after| - 1 :: after[i] == journal[i];
    assert !EndsBare(journal) ==> forall i | 0 <= i < |journal| :: after[i] == journal[i];
  }

  lemma CloseKeepsInv(s: System)
    requires Inv(s)
    ensures Inv(Apply(s, Close))
  {
    hide JournalOk, JournalComplete;
  }

  /** The published status is decided by the row count, and the row count by completeness. */
  lemma PublishDecides(s: System)
    requires Inv(s)
    ensures Inv(Apply(s, Publish))
    ensures s.attempt.Closed? && Loadable(Lines(s.disk), s.attempt.config.examples) ==>
              var t := Apply(s, Publish);
              t.attempt.Idle? && t.disk.state.Some?
              && (t.disk.state.value.status == Finished <==> JournalComplete(t.disk))
              && (t.disk.state.value.status == Partial <==> !JournalComplete(t.disk))
  {
    if s.attempt.Closed? && Loadable(Lines(s.disk), s.attempt.config.examples) {
      PlannedAgree(s.attempt.config.examples);
      LoadableIds(Lines(s.disk), s.attempt.config.examples);
      LengthDecides(Lines(s.disk), s.attempt.config.examples);
    }
  }

  /** A crash in the middle of an accepted write leaves one line, torn or without its newline. */
  lemma CrashKeepsInv(s: System, tear: Tear)
    requires Inv(s)
    ensures Inv(Apply(s, Crash(tear)))
  {
    hide JournalOk, JournalComplete, DistinctIds, DistinctPlan;
    match tear
    case Clean =>
    case Cut(e, o) => if Accepts(s, e) { WriteKeepsJournal(s.disk, Torn); }
    case Unterminated(e, o) =>
      if Accepts(s, e) {
        PlannedExample(s.attempt.config.examples, e);
        WriteKeepsJournal(s.disk, Bare(PredictionRow(e, o)));
      }
  }

  /** `b` holds the lines of `a` and more, except that a row without its newline may have become torn. */
  ghost predicate KeepsLines(a: seq<Line>, b: seq<Line>) {
    a <= b || (EndsBare(a) && |a| <= |b| && a[..|a| - 1] <= b && b[|a| - 1].Torn?)
  }

  lemma KeepsTransitive(a: seq<Line>, b: seq<Line>, c: seq<Line>)
    requires KeepsLines(a, b) && KeepsLines(b, c)
    ensures KeepsLines(a, c)
  {
    assert forall i | 0 <= i < |b| - 1 :: b[i] == c[i];
    assert b <= c ==> forall i | 0 <= i < |b| :: b[i] == c[i];
  }

  /** No step forgets the identity of the run or loses a terminated row. */
  ghost predicate Extends(s: System, t: System) {
    && (s.disk.state.Some? ==> t.disk.state.Some? && t.disk.state.value.identity == s.disk.state.value.identity)
    && KeepsLines(Lines(s.disk), Lines(t.disk))
  }

  lemma StepExtends(s: System, step: Step)
    ensures Extends(s, Apply(s, step))
  {
    hide Loadable, DistinctIds, IdentityOf;
  }

  lemma StepIsSafe(s: System, step: Step)
    requires Inv(s)
    ensures Inv(Apply(s, step)) && Extends(s, Apply(s, step))
  {
    hide Inv, Apply, Extends;
    StepExtends(s, step);
    match step
    case Start(config) => StartKeepsInv(s, config);
    case Contract => ContractKeepsInv(s);
    case Open => OpenKeepsInv(s);
    case Append(e, o) => AppendKeepsInv(s, e, o);
    case Close => CloseKeepsInv(s);
    case Publish => PublishDecides(s);
    case Crash(tear) => CrashKeepsInv(s, tear);
  }

  /** Safety over every run: through any attempts, early ends and crashes, the journal holds distinct planned ids,
      a `Finished` status means a complete journal, and from any point on the identity stays and no terminated
      row is lost. */
  lemma {:induction false} RunIsSafe(s: System, steps: seq<Step>)
    requires Inv(s)
    ensures Inv(Run(s, steps)) && Extends(s, Run(s, steps))
    decreases |steps|
  {
    hide Inv, Apply, KeepsLines;
    if steps == [] {
      KeepsItself(Lines(s.disk));
    } else {
      var next := Apply(s, steps[0]);
      StepIsSafe(s, steps[0]);
      RunIsSafe(next, steps[1..]);
      KeepsTransitive(Lines(s.disk), Lines(next.disk), Lines(Run(next, steps[1..]).disk));
    }
  }

  lemma KeepsItself(lines: seq<Line>)
    ensures KeepsLines(lines, lines)
  {
  }

  lemma ReachableIsSafe(before: seq<Step>, after: seq<Step>)
    ensures Inv(Run(EMPTY, before)) && Inv(Run(EMPTY, before + after))
    ensures Extends(Run(EMPTY, before), Run(EMPTY, before + after))
  {
    hide Inv, Apply, Run, Extends;
    InvInitially();
    RunIsSafe(EMPTY, before);
    RunIsSafe(Run(EMPTY, before), after);
    RunAppend(EMPTY, before, after);
  }

  /** All attempts that ever write to one journal have the same protocol and the same planned ids in the same order,
      however much else happens between them. */
  lemma WritersShareContract(before: seq<Step>, after: seq<Step>)
    requires Run(EMPTY, before).attempt.Writing? && Run(EMPTY, before + after).attempt.Writing?
    ensures var a, b := Run(EMPTY, before).attempt.config, Run(EMPTY, before + after).attempt.config;
            a.protocol == b.protocol && |a.examples| == |b.examples|
            && forall i | 0 <= i < |a.examples| :: a.examples[i].id == b.examples[i].id
  {
    hide Run, Apply, JournalOk, JournalComplete, Published;
    ReachableIsSafe(before, after);
    var a, b := Run(EMPTY, before).attempt.config, Run(EMPTY, before + after).attempt.config;
    assert PlanOf(a.examples) == PlanOf(b.examples);
    forall i | 0 <= i < |a.examples| ensures a.examples[i].id == b.examples[i].id {
      assert PlanOf(a.examples)[i] == PlanOf(b.examples)[i];
    }
  }

  lemma RunOne(s: System, steps: seq<Step>)
    requires steps != []
    ensures Run(s, steps) == Run(Apply(s, steps[0]), steps[1..])
  {
  }
}
