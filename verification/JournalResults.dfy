/** The published results of a resumable quality run, in numbers: what each row records, what the final example list
    and the aggregate say of the sampler's outcomes, and which journals load. */
module JournalResults {
  import opened Basics
  import opened Journal
  import ResumeRuns
  import ResumeRecovery

  // ---------------------------------------------------------------- rows

  /** A row with the id, the problem and the target of a planned example. */
  ghost predicate RecordsExample(line: Line, examples: seq<Example>) {
    !line.Torn? && exists e :: e in examples && line.row.id == e.id && line.row.problem == e.problem
                               && line.row.expectedAnswer == e.target
  }

  /** Which journals load, for a plan without repeated ids: every line is a row of a planned example, and no id
      stands twice. */
  lemma LoadableExactly(journal: seq<Line>, examples: seq<Example>)
    requires DistinctIds(examples)
    ensures Loadable(journal, examples)
            <==> (forall i | 0 <= i < |journal| :: RecordsExample(journal[i], examples))
                 && (forall i, j | 0 <= i < j < |journal| :: journal[i].row.id != journal[j].row.id)
  {
    hide RecordsExample, LineOk;
    forall i | 0 <= i < |journal| ensures LineOk(examples, journal[i]) <==> RecordsExample(journal[i], examples) {
      LineExactly(examples, journal[i]);
    }
  }

  lemma LineExactly(examples: seq<Example>, line: Line)
    requires DistinctIds(examples)
    ensures LineOk(examples, line) <==> RecordsExample(line, examples)
  {
    if !line.Torn? {
      ExampleOfSome(examples, line.row.id);
      forall e | e in examples && e.id == line.row.id ensures ExampleOf(examples, line.row.id) == Some(e) {
        var k :| 0 <= k < |examples| && examples[k] == e;
        ExampleOfIs(examples, k);
      }
    }
  }

  // ---------------------------------------------------------------- the aggregate

  function Total(amounts: seq<nat>): nat {
    if amounts == [] then 0 else Total(amounts[..|amounts| - 1]) + amounts[|amounts| - 1]
  }

  /** The rows at which a test holds. */
  ghost function Places(rows: seq<Row>, test: Row -> bool): set<nat> {
    set i: nat | i < |rows| && test(rows[i])
  }

  lemma {:induction false} CountIsSize(rows: seq<Row>, test: Row -> bool)
    ensures Count(rows, test) == |Places(rows, test)|
  {
    hide Count, Places;
    if rows == [] {
      NothingCounted(test);
    } else {
      var n := |rows| - 1;
      CountSplit(rows, n, test, PROMPT);
      assert rows[..n] + rows[n + 1..] == rows[..n];
      CountIsSize(rows[..n], test);
      OneMorePlace(rows, n, test);
    }
  }

  lemma OneMorePlace(rows: seq<Row>, n: nat, test: Row -> bool)
    requires |rows| == n + 1
    ensures |Places(rows, test)| == |Places(rows[..n], test)| + (if test(rows[n]) then 1 else 0)
  {
    assert Places(rows, test) == Places(rows[..n], test) + (if test(rows[n]) then {n} else {});
  }

  lemma NothingCounted(test: Row -> bool)
    ensures Count([], test) == |Places([], test)|
  {
    assert Places([], test) == {};
  }

  lemma {:induction false} SumIsTotal(rows: seq<Row>, amount: Row -> nat)
    ensures SumOf(rows, amount) == Total(seq(|rows|, i requires 0 <= i < |rows| => amount(rows[i])))
  {
    if rows != [] {
      var n := |rows| - 1;
      var amounts := seq(|rows|, i requires 0 <= i < |rows| => amount(rows[i]));
      CountSplit(rows, n, IS_CORRECT, amount);
      assert rows[..n] + rows[n + 1..] == rows[..n];
      SumIsTotal(rows[..n], amount);
      assert amounts[..n] == seq(n, i requires 0 <= i < n => amount(rows[..n][i]));
    }
  }

  /** Shares of `reasons` and of `n`, and sums. */
  ghost predicate Summarizes(a: Aggregate, n: nat, correct: nat, reasons: nat, stopped: nat, truncated: nat,
                             failed: nat, prompt: nat, completion: nat)
  {
    && (n == 0 ==> a.score == 0.0) && a.score * n as real == correct as real
    && (a.rates.Some? <==> reasons > 0)
    && (a.rates.Some? ==>
          && a.rates.value.stop * reasons as real == stopped as real
          && a.rates.value.truncated * reasons as real == truncated as real
          && a.rates.value.error * reasons as real == failed as real)
    && a.promptTokens == prompt && a.completionTokens == completion
  }

  lemma Share(part: nat, whole: nat)
    requires whole > 0
    ensures part as real / whole as real * whole as real == part as real
  {
  }

  lemma AggregateSummarizes(rows: seq<Row>)
    ensures Summarizes(ResumedAggregate(rows), |rows|, Count(rows, IS_CORRECT), Count(rows, HAS_REASON),
                       Count(rows, STOPPED), Count(rows, TRUNCATED), Count(rows, FAILED),
                       SumOf(rows, PROMPT), SumOf(rows, COMPLETION))
  {
    hide Count, SumOf, Summarizes;
    if rows == [] {
      NothingToSummarize();
    } else {
      var correct, reasons := Count(rows, IS_CORRECT), Count(rows, HAS_REASON);
      var stopped, truncated, failed := Count(rows, STOPPED), Count(rows, TRUNCATED), Count(rows, FAILED);
      SharesSummarize(|rows|, correct, reasons, stopped, truncated, failed,
                      SumOf(rows, PROMPT), SumOf(rows, COMPLETION));
    }
  }

  lemma NothingToSummarize()
    ensures Summarizes(ResumedAggregate([]), 0, Count([], IS_CORRECT), Count([], HAS_REASON),
                       Count([], STOPPED), Count([], TRUNCATED), Count([], FAILED),
                       SumOf([], PROMPT), SumOf([], COMPLETION))
  {
  }

  lemma SharesSummarize(n: nat, correct: nat, reasons: nat, stopped: nat, truncated: nat, failed: nat,
                        prompt: nat, completion: nat)
    requires n > 0
    ensures Summarizes(Aggregate(correct as real / n as real,
                                 if reasons == 0 then None
                                 else Some(Rates(stopped as real / reasons as real, truncated as real / reasons as real,
                                                 failed as real / reasons as real)),
                                 prompt, completion),
                       n, correct, reasons, stopped, truncated, failed, prompt, completion)
  {
    Share(correct, n);
    if reasons > 0 {
      Share(stopped, reasons);
      Share(truncated, reasons);
      Share(failed, reasons);
    }
  }

  type Sampler = Example -> Outcome

  /** The planned examples whose outcome passes a test. */
  ghost function Where(examples: seq<Example>, sample: Sampler, test: Outcome -> bool): set<nat> {
    set i: nat | i < |examples| && test(sample(examples[i]))
  }

  function Amounts(examples: seq<Example>, sample: Sampler, amount: Outcome -> nat): seq<nat> {
    seq(|examples|, i requires 0 <= i < |examples| => amount(sample(examples[i])))
  }

  lemma CountOutcomes(examples: seq<Example>, sample: Sampler, test: Row -> bool, of: Outcome -> bool,
                      amount: Row -> nat, each: Outcome -> nat)
    requires forall e, o :: test(PredictionRow(e, o)) == of(o) && amount(PredictionRow(e, o)) == each(o)
    ensures Count(IdealRows(examples, sample), test) == |Where(examples, sample, of)|
    ensures SumOf(IdealRows(examples, sample), amount) == Total(Amounts(examples, sample, each))
  {
    hide PredictionRow;
    var rows := IdealRows(examples, sample);
    CountIsSize(rows, test);
    SumIsTotal(rows, amount);
    assert Places(rows, test) == Where(examples, sample, of);
    assert seq(|rows|, i requires 0 <= i < |rows| => amount(rows[i])) == Amounts(examples, sample, each);
  }

  /** The aggregate of one uninterrupted run, in numbers: the score is the share of examples with a score other than
      zero, the rates are shares of those with a finish reason, and the tokens are sums. */
  lemma IdealInNumbers(examples: seq<Example>, sample: Sampler)
    ensures Summarizes(ResumedAggregate(IdealRows(examples, sample)), |examples|,
                       |Where(examples, sample, (o: Outcome) => o.score != 0.0)|,
                       |Where(examples, sample, (o: Outcome) => o.finishReason != "")|,
                       |Where(examples, sample, (o: Outcome) => o.finishReason == "stop")|,
                       |Where(examples, sample, (o: Outcome) => o.finishReason == "length")|,
                       |Where(examples, sample, (o: Outcome) => o.finishReason !in ["", "stop", "length"])|,
                       Total(Amounts(examples, sample, (o: Outcome) => o.promptTokens)),
                       Total(Amounts(examples, sample, (o: Outcome) => o.completionTokens)))
  {
    hide Summarizes, ResumedAggregate, Count, SumOf, Total, Where, Amounts;
    AggregateSummarizes(IdealRows(examples, sample));
    CountOutcomes(examples, sample, IS_CORRECT, (o: Outcome) => o.score != 0.0, PROMPT, (o: Outcome) => o.promptTokens);
    CountOutcomes(examples, sample, HAS_REASON, (o: Outcome) => o.finishReason != "",
                  COMPLETION, (o: Outcome) => o.completionTokens);
    CountOutcomes(examples, sample, STOPPED, (o: Outcome) => o.finishReason == "stop",
                  PROMPT, (o: Outcome) => o.promptTokens);
    CountOutcomes(examples, sample, TRUNCATED, (o: Outcome) => o.finishReason == "length",
                  PROMPT, (o: Outcome) => o.promptTokens);
    CountOutcomes(examples, sample, FAILED, (o: Outcome) => o.finishReason !in ["", "stop", "length"],
                  PROMPT, (o: Outcome) => o.promptTokens);
  }

  // ---------------------------------------------------------------- the examples

  /** The entry of a planned example, from its row. */
  ghost predicate EntryFrom(entry: Scored, e: Example, row: Row) {
    && row.id == e.id && entry.example == e && entry.text == row.generation
    && entry.score == (if row.correct then 1.0 else 0.0) && entry.extracted == row.predictedAnswer
    && entry.promptTokens == row.promptTokens && entry.completionTokens == row.completionTokens
    && entry.reasoningTokens == row.reasoningTokens && entry.finishReason == row.finishReason
  }

  lemma {:induction false} RowForExactly(rows: seq<Row>, id: string)
    ensures RowFor(rows, id).Some? ==> RowFor(rows, id).value in rows && RowFor(rows, id).value.id == id
    ensures RowFor(rows, id).None? ==> forall r | r in rows :: r.id != id
  {
    if rows != [] {
      var n := |rows| - 1;
      RowForExactly(rows[..n], id);
      assert forall r :: r in rows <==> r in rows[..n] || r == rows[n];
    }
  }

  /** The example list of any rows, a partial journal's too: the planned examples that have a row, each once and in
      the order of the plan, with what a row of theirs records. */
  lemma {:induction false} SerializedExactly(examples: seq<Example>, rows: seq<Row>) returns (kept: seq<nat>)
    ensures Kept(examples, rows, kept, |examples|)
    ensures EntriesFrom(Serialize(examples, rows), examples, rows, kept)
  {
    hide Kept, EntriesFrom, Serialize, RowFor;
    if examples == [] {
      kept := [];
      NothingSerialized(rows);
    } else {
      var n := |examples| - 1;
      var before := SerializedExactly(examples[..n], rows);
      PlaceStep(examples, rows, before);
      EntryStep(examples, rows, before);
      kept := if RowFor(rows, examples[n].id).Some? then before + [n] else before;
    }
  }

  lemma NothingSerialized(rows: seq<Row>)
    ensures Kept([], rows, [], 0) && EntriesFrom(Serialize([], rows), [], rows, [])
  {
  }

  lemma PlaceStep(examples: seq<Example>, rows: seq<Row>, before: seq<nat>)
    requires examples != [] && Kept(examples[..|examples| - 1], rows, before, |examples| - 1)
    ensures var n := |examples| - 1;
            Kept(examples, rows, if RowFor(rows, examples[n].id).Some? then before + [n] else before, n + 1)
  {
    hide RowFor;
    var n := |examples| - 1;
    RowForExactly(rows, examples[n].id);
    assert forall k: nat | k < n :: examples[k] == examples[..n][k];
    assert forall k | k in before :: k < n;
    assert forall k :: k in before + [n] <==> k in before || k == n;
  }

  lemma EntryStep(examples: seq<Example>, rows: seq<Row>, before: seq<nat>)
    requires examples != []
    requires EntriesFrom(Serialize(examples[..|examples| - 1], rows), examples[..|examples| - 1], rows, before)
    ensures var n := |examples| - 1;
            EntriesFrom(Serialize(examples, rows), examples, rows,
                        if RowFor(rows, examples[n].id).Some? then before + [n] else before)
  {
    hide EntryFrom, RowFor;
    var n := |examples| - 1;
    RowForExactly(rows, examples[n].id);
    forall j | 0 <= j < |before|
      ensures before[j] < |examples|
              && exists r :: r in rows && EntryFrom(Serialize(examples, rows)[j], examples[before[j]], r)
    {
      var r :| r in rows && EntryFrom(Serialize(examples[..n], rows)[j], examples[..n][before[j]], r);
    }
    if RowFor(rows, examples[n].id).Some? { LastEntry(examples[n], RowFor(rows, examples[n].id).value); }
  }

  lemma LastEntry(e: Example, row: Row)
    ensures row.id == e.id ==> EntryFrom(ScoredOf(e, row), e, row)
  {
  }

  /** Entry `j` is of the planned example at place `kept[j]`, from a row of its id. */
  ghost predicate EntriesFrom(entries: seq<Scored>, examples: seq<Example>, rows: seq<Row>, kept: seq<nat>) {
    |entries| == |kept|
    && forall j | 0 <= j < |kept| ::
         kept[j] < |examples| && exists r :: r in rows && EntryFrom(entries[j], examples[kept[j]], r)
  }

  /** `kept` are the places before `n` of the plan whose example has a row, in order. */
  ghost predicate Kept(examples: seq<Example>, rows: seq<Row>, kept: seq<nat>, n: nat)
    requires n <= |examples|
  {
    && (forall i, j | 0 <= i < j < |kept| :: kept[i] < kept[j])
    && (forall j | 0 <= j < |kept| :: kept[j] < n)
    && (forall k: nat | k < n :: k in kept <==> exists r :: r in rows && r.id == examples[k].id)
  }

  /** `entries` are the planned examples in order, each with the outcome's own text, a score of one or zero, its
      extraction, tokens and finish reason. */
  ghost predicate Publishes(entries: seq<Scored>, examples: seq<Example>, sample: Sampler) {
    |entries| == |examples|
    && forall i | 0 <= i < |examples| ::
         var o := sample(examples[i]);
         entries[i] == Scored(examples[i], o.text, if o.score != 0.0 then 1.0 else 0.0, o.extracted,
                              o.promptTokens, o.completionTokens, o.reasoningTokens, o.finishReason)
  }

  lemma {:induction false} IdealEntries(examples: seq<Example>, sample: Sampler, rows: seq<Row>)
    requires forall i | 0 <= i < |examples| ::
               RowFor(rows, examples[i].id) == Some(PredictionRow(examples[i], sample(examples[i])))
    ensures Publishes(Serialize(examples, rows), examples, sample)
  {
    hide PredictionRow, ScoredOf, RowFor;
    if examples != [] {
      var n := |examples| - 1;
      assert forall i | 0 <= i < n :: examples[..n][i] == examples[i];
      IdealEntries(examples[..n], sample, rows);
      IdealEntry(examples[n], sample(examples[n]));
    }
  }

  lemma IdealEntry(e: Example, o: Outcome)
    ensures ScoredOf(e, PredictionRow(e, o))
            == Scored(e, o.text, if o.score != 0.0 then 1.0 else 0.0, o.extracted,
                      o.promptTokens, o.completionTokens, o.reasoningTokens, o.finishReason)
  {
  }

  // ---------------------------------------------------------------- finished runs

  /** The published results of a finished run, whatever attempts, early ends and crashes it went through, said of the
      sampler's outcomes: one entry per planned example, in the order of the plan, and the aggregate in numbers. */
  lemma FinishedRunResults(steps: seq<ResumeRuns.Step>, c: ResumeRuns.Config, sample: Sampler)
    requires DistinctIds(c.examples)
    requires forall i | 0 <= i < |steps| :: ResumeRecovery.Deterministic(steps[i], c, sample)
    ensures var disk := ResumeRuns.Run(ResumeRuns.EMPTY, steps).disk;
            ResumeRuns.Published(disk) ==>
              Complete(ResumeRuns.Lines(disk), c.examples)
              && var rows := RowsOf(ResumeRuns.Lines(disk));
                 Publishes(Serialize(c.examples, rows), c.examples, sample)
                 && Summarizes(ResumedAggregate(rows), |c.examples|,
                       |Where(c.examples, sample, (o: Outcome) => o.score != 0.0)|,
                       |Where(c.examples, sample, (o: Outcome) => o.finishReason != "")|,
                       |Where(c.examples, sample, (o: Outcome) => o.finishReason == "stop")|,
                       |Where(c.examples, sample, (o: Outcome) => o.finishReason == "length")|,
                       |Where(c.examples, sample, (o: Outcome) => o.finishReason !in ["", "stop", "length"])|,
                       Total(Amounts(c.examples, sample, (o: Outcome) => o.promptTokens)),
                       Total(Amounts(c.examples, sample, (o: Outcome) => o.completionTokens)))
  {
    hide Publishes, Summarizes, Serialize, ResumedAggregate, ResumeRuns.Run, ResumeRecovery.Deterministic, Where,
         Amounts, ResumeRuns.Published, Complete, PredictionRow;
    ResumeRecovery.FinishedRunIsIdeal(steps, c, sample);
    IdealInNumbers(c.examples, sample);
    var ideal := IdealRows(c.examples, sample);
    forall i | 0 <= i < |c.examples|
      ensures RowFor(ideal, c.examples[i].id) == Some(PredictionRow(c.examples[i], sample(c.examples[i])))
    {
      IdealIds(c.examples, sample);
      RowForIs(ideal, i);
    }
    IdealEntries(c.examples, sample, ideal);
  }

  lemma IdealIds(examples: seq<Example>, sample: Sampler)
    ensures forall i | 0 <= i < |examples| :: IdealRows(examples, sample)[i].id == examples[i].id
  {
  }
}
