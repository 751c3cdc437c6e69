/** The prediction journal of a resumable quality run: its rows, the loader, the writer, and the results
    computed from it. A journal file is a sequence of lines; JSON text is abstract. */
module Journal {
  import opened Basics
  import Ordering

  datatype Example = Example(id: string, problem: string, target: string)

  /** What the sampler and its scoring return for one example. */
  datatype Outcome = Outcome(text: string, score: real, extracted: Option<string>, finishReason: string,
                             promptTokens: nat, completionTokens: nat, reasoningTokens: nat)

  datatype Row = Row(id: string, problem: string, expectedAnswer: string, generation: string, correct: bool,
                     predictedAnswer: Option<string>, finishReason: string,
                     promptTokens: nat, completionTokens: nat, reasoningTokens: nat, answerTokens: nat)

  /** A line is a whole row, a row whose newline a crash cut off, or no row at all: the front of one, or two run
      together. */
  datatype Line = Whole(row: Row) | Bare(row: Row) | Torn

  function PredictionRow(e: Example, o: Outcome): Row {
    Row(e.id, e.problem, e.target, o.text, o.score != 0.0, o.extracted, o.finishReason,
        o.promptTokens, o.completionTokens, o.reasoningTokens,
        if o.completionTokens >= o.reasoningTokens then o.completionTokens - o.reasoningTokens else 0)
  }

  ghost predicate DistinctIds(examples: seq<Example>) {
    forall i, j | 0 <= i < j < |examples| :: examples[i].id != examples[j].id
  }

  /** The example with an id, as the loader's dict gives it. */
  function ExampleOf(examples: seq<Example>, id: string): Option<Example> {
    if examples == [] then None
    else if examples[|examples| - 1].id == id then Some(examples[|examples| - 1])
    else ExampleOf(examples[..|examples| - 1], id)
  }

  predicate RowMatches(examples: seq<Example>, row: Row) {
    match ExampleOf(examples, row.id)
    case None => false
    case Some(e) => row.problem == e.problem && row.expectedAnswer == e.target
  }

  predicate LineOk(examples: seq<Example>, line: Line) { !line.Torn? && RowMatches(examples, line.row) }

  /** A journal the loader accepts: whole rows, each for a planned example with its problem and target, no id twice. */
  ghost predicate Loadable(journal: seq<Line>, examples: seq<Example>) {
    && (forall i | 0 <= i < |journal| :: LineOk(examples, journal[i]))
    && (forall i, j | 0 <= i < j < |journal| :: journal[i].row.id != journal[j].row.id)
  }

  function RowsOf(journal: seq<Line>): seq<Row>
    requires forall i | 0 <= i < |journal| :: !journal[i].Torn?
  {
    seq(|journal|, i requires 0 <= i < |journal| => journal[i].row)
  }

  function Ids(journal: seq<Line>): set<string> {
    set i | 0 <= i < |journal| && !journal[i].Torn? :: journal[i].row.id
  }

  /** The journal ends in a row without its newline. */
  predicate EndsBare(journal: seq<Line>) { journal != [] && journal[|journal| - 1].Bare? }

  /** The file once `line` is written at its end: behind a row without its newline both become one line, which is
      no row. */
  function Written(journal: seq<Line>, line: Line): seq<Line> {
    if EndsBare(journal) then journal[..|journal| - 1] + [Torn] else journal + [line]
  }

  lemma IdsOfWritten(journal: seq<Line>, line: Line)
    ensures !EndsBare(journal) ==>
              Ids(Written(journal, line)) == Ids(journal) + (if line.Torn? then {} else {line.row.id})
    ensures EndsBare(journal) ==> Ids(Written(journal, line)) <= Ids(journal)
  {
    var after := Written(journal, line);
    if EndsBare(journal) {
      assert forall i | 0 <= i < |after| && !after[i].Torn? :: after[i] == journal[i];
    } else {
      IdsAppend(after, |journal|);
      assert after[..|journal|] == journal && after[..|journal| + 1] == after;
    }
  }

  lemma IdsAppend(journal: seq<Line>, i: nat)
    requires i < |journal|
    ensures Ids(journal[..i + 1])
            == Ids(journal[..i]) + (if journal[i].Torn? then {} else {journal[i].row.id})
  {
    var a, b := journal[..i], journal[..i + 1];
    assert forall k | 0 <= k < i :: a[k] == b[k] == journal[k];
    assert b[i] == journal[i];
    forall id | id in Ids(b) ensures id in Ids(a) || (!journal[i].Torn? && id == journal[i].row.id) {
      var k :| 0 <= k < |b| && !b[k].Torn? && b[k].row.id == id;
      if k < i { assert !a[k].Torn?; }
    }
    forall id | id in Ids(a) ensures id in Ids(b) {
      var k :| 0 <= k < |a| && !a[k].Torn? && a[k].row.id == id;
      assert !b[k].Torn?;
    }
  }

  /** The lines of a file that are not white space; `None` stands for one that is. */
  function WithoutBlanks(file: seq<Option<Line>>): seq<Line> {
    if file == [] then [] else
      var n := |file| - 1;
      WithoutBlanks(file[..n]) + (match file[n] case None => [] case Some(line) => [line])
  }

  lemma {:induction false} KeptPrefix(file: seq<Option<Line>>, i: nat)
    requires i <= |file|
    ensures WithoutBlanks(file[..i]) <= WithoutBlanks(file)
  {
    if i == |file| {
      assert file[..i] == file;
    } else {
      var n := |file| - 1;
      KeptPrefix(file[..n], i);
      assert file[..n][..i] == file[..i];
    }
  }

  lemma KeptStep(file: seq<Option<Line>>, i: nat)
    requires i < |file|
    ensures WithoutBlanks(file[..i + 1])
            == WithoutBlanks(file[..i]) + (match file[i] case None => [] case Some(line) => [line])
    ensures WithoutBlanks(file[..i + 1]) <= WithoutBlanks(file)
  {
    assert file[..i + 1][..i] == file[..i];
    KeptPrefix(file, i + 1);
  }

  /** A prefix of the journal that ends in an offending line decides against all of it. */
  lemma Offends(prefix: seq<Line>, journal: seq<Line>, examples: seq<Example>)
    requires prefix != [] && prefix <= journal
    requires var line := prefix[|prefix| - 1];
             !LineOk(examples, line)
             || exists j | 0 <= j < |prefix| - 1 :: !prefix[j].Torn? && prefix[j].row.id == line.row.id
    ensures !Loadable(journal, examples)
  {
    assert forall j | 0 <= j < |prefix| :: prefix[j] == journal[j];
  }

  /** The loader: one pass, skipping blank lines, and refusing what is no row, unknown or changed examples, and
      repeated ids. */
  method LoadPredictionRows(file: seq<Option<Line>>, examples: seq<Example>) returns (rows: Result<seq<Row>>)
    ensures rows.Ok? <==> Loadable(WithoutBlanks(file), examples)
    ensures rows.Ok? ==> rows.value == RowsOf(WithoutBlanks(file))
  {
    hide WithoutBlanks;
    var seen: set<string>, loaded: seq<Row>, i := {}, [], 0;
    ghost var kept: seq<Line> := [];
    NothingKept(file);
    while i < |file|
      invariant 0 <= i <= |file| && kept == WithoutBlanks(file[..i]) && |loaded| == |kept|
      invariant forall j | 0 <= j < |kept| :: LineOk(examples, kept[j]) && loaded[j] == kept[j].row
      invariant forall j, k | 0 <= j < k < |kept| :: kept[j].row.id != kept[k].row.id
      invariant seen == Ids(kept)
    {
      KeptStep(file, i);
      if file[i].Some? {
        var line := file[i].value;
        ghost var longer := kept + [line];
        assert longer[..|kept|] == kept;
        if line.Torn? {
          Offends(longer, WithoutBlanks(file), examples);
          return Err;
        }
        if line.row.id in seen {
          ghost var j :| 0 <= j < |kept| && !kept[j].Torn? && kept[j].row.id == line.row.id;
          assert longer[j] == kept[j];
          Offends(longer, WithoutBlanks(file), examples);
          return Err;
        }
        if !RowMatches(examples, line.row) {
          Offends(longer, WithoutBlanks(file), examples);
          return Err;
        }
        IdsAppend(longer, |kept|);
        assert longer[..|kept| + 1] == longer;
        assert forall j | 0 <= j < |kept| :: kept[j].row.id in seen by {
          forall j | 0 <= j < |kept| ensures kept[j].row.id in seen {
            assert !kept[j].Torn?;
          }
        }
        seen := seen + {line.row.id};
        loaded := loaded + [line.row];
        kept := longer;
      }
      i := i + 1;
    }
    assert file[..i] == file;
    assert loaded == RowsOf(kept);
    return Ok(loaded);
  }

  lemma NothingKept(file: seq<Option<Line>>)
    ensures WithoutBlanks(file[..0]) == []
  {
  }

  /** The writer of one attempt: the ids it knows to be done, and the file it appends to. */
  class PredictionsWriter {
    var completed: set<string>
    var file: seq<Line>

    constructor (journal: seq<Line>)
      ensures completed == Ids(journal) && file == journal
    {
      completed := set i | 0 <= i < |journal| && !journal[i].Torn? :: journal[i].row.id;
      file := journal;
    }

    /** Write one row at the end of the file, unless the call repeats a sample or an example already done. */
    method Write(e: Example, repetition: nat, o: Outcome) returns (ok: bool)
      modifies this
      ensures ok <==> repetition == 0 && e.id !in old(completed)
      ensures file == if ok then Written(old(file), Whole(PredictionRow(e, o))) else old(file)
      ensures ok ==>
                var whole, n := old(file), |old(file)|;
                var row := Row(e.id, e.problem, e.target, o.text, o.score != 0.0, o.extracted, o.finishReason,
                               o.promptTokens, o.completionTokens, o.reasoningTokens,
                               Max(o.completionTokens - o.reasoningTokens, 0));
                file == if n > 0 && whole[n - 1].Bare? then whole[..n - 1] + [Torn] else whole + [Whole(row)]
      ensures completed == old(completed) + (if ok then {e.id} else {})
      ensures old(completed) == Ids(old(file)) && !EndsBare(old(file)) ==> completed == Ids(file) && !EndsBare(file)
    {
      if repetition != 0 { return false; }
      if e.id in completed { return false; }
      IdsOfWritten(file, Whole(PredictionRow(e, o)));
      file := Written(file, Whole(PredictionRow(e, o)));
      completed := completed + {e.id};
      return true;
    }
  }

  // ---------------------------------------------------------------- results

  /** One entry of the final example list. */
  datatype Scored = Scored(example: Example, text: string, score: real, extracted: Option<string>,
                           promptTokens: nat, completionTokens: nat, reasoningTokens: nat, finishReason: string)

  function RowFor(rows: seq<Row>, id: string): Option<Row> {
    if rows == [] then None
    else if rows[|rows| - 1].id == id then Some(rows[|rows| - 1])
    else RowFor(rows[..|rows| - 1], id)
  }

  function ScoredOf(e: Example, row: Row): Scored {
    Scored(e, row.generation, if row.correct then 1.0 else 0.0, row.predictedAnswer,
           row.promptTokens, row.completionTokens, row.reasoningTokens, row.finishReason)
  }

  /** The final examples: in the order of the plan, skipping those without a row. */
  function Serialize(examples: seq<Example>, rows: seq<Row>): seq<Scored> {
    if examples == [] then [] else
      var n := |examples| - 1;
      Serialize(examples[..n], rows) +
      (match RowFor(rows, examples[n].id)
       case None => []
       case Some(row) => [ScoredOf(examples[n], row)])
  }

  /** How many rows satisfy a test. */
  function Count(rows: seq<Row>, test: Row -> bool): nat {
    if rows == [] then 0 else (if test(rows[0]) then 1 else 0) + Count(rows[1..], test)
  }

  function SumOf(rows: seq<Row>, amount: Row -> nat): nat {
    if rows == [] then 0 else amount(rows[0]) + SumOf(rows[1..], amount)
  }

  datatype Rates = Rates(stop: real, truncated: real, error: real)

  datatype Aggregate = Aggregate(score: real, rates: Option<Rates>, promptTokens: nat, completionTokens: nat)

  const IS_CORRECT: Row -> bool := (r: Row) => r.correct
  const HAS_REASON: Row -> bool := (r: Row) => r.finishReason != ""
  const STOPPED: Row -> bool := (r: Row) => r.finishReason == "stop"
  const TRUNCATED: Row -> bool := (r: Row) => r.finishReason == "length"
  const FAILED: Row -> bool := (r: Row) => r.finishReason !in {"", "stop", "length"}
  const PROMPT: Row -> nat := (r: Row) => r.promptTokens
  const COMPLETION: Row -> nat := (r: Row) => r.completionTokens

  function ResumedAggregate(rows: seq<Row>): Aggregate {
    if rows == [] then Aggregate(0.0, None, 0, 0) else
      var reasons := Count(rows, HAS_REASON);
      Aggregate(Count(rows, IS_CORRECT) as real / |rows| as real,
                if reasons == 0 then None
                else Some(Rates(Count(rows, STOPPED) as real / reasons as real,
                                Count(rows, TRUNCATED) as real / reasons as real,
                                Count(rows, FAILED) as real / reasons as real)),
                SumOf(rows, PROMPT), SumOf(rows, COMPLETION))
  }

  lemma {:induction false} CountSplit(rows: seq<Row>, k: nat, test: Row -> bool, amount: Row -> nat)
    requires k < |rows|
    ensures Count(rows, test) == (if test(rows[k]) then 1 else 0) + Count(rows[..k] + rows[k + 1..], test)
    ensures SumOf(rows, amount) == amount(rows[k]) + SumOf(rows[..k] + rows[k + 1..], amount)
  {
    if k == 0 {
      assert rows[..0] + rows[1..] == rows[1..];
    } else {
      CountSplit(rows[1..], k - 1, test, amount);
      assert (rows[..k] + rows[k + 1..])[1..] == rows[1..][..k - 1] + rows[1..][k..];
    }
  }

  /** Counts and sums do not depend on the order of the rows. */
  lemma {:induction false} CountOfContents(a: seq<Row>, b: seq<Row>, test: Row -> bool, amount: Row -> nat)
    requires multiset(a) == multiset(b)
    ensures Count(a, test) == Count(b, test) && SumOf(a, amount) == SumOf(b, amount)
  {
    assert |a| == |multiset(a)| == |b|;
    if a == [] {
    } else {
      var k, rest := Ordering.TakeOut(a, b);
      CountSplit(b, k, test, amount);
      CountOfContents(a[1..], rest, test, amount);
    }
  }

  lemma AggregateOfContents(a: seq<Row>, b: seq<Row>)
    requires multiset(a) == multiset(b)
    ensures ResumedAggregate(a) == ResumedAggregate(b)
  {
    assert |a| == |multiset(a)| == |b|;
    CountOfContents(a, b, IS_CORRECT, PROMPT);
    CountOfContents(a, b, HAS_REASON, COMPLETION);
    CountOfContents(a, b, STOPPED, PROMPT);
    CountOfContents(a, b, TRUNCATED, PROMPT);
    CountOfContents(a, b, FAILED, PROMPT);
  }

  // ---------------------------------------------------------------- complete journals

  /** Every planned example has a row, and no id is used twice. */
  ghost predicate Complete(journal: seq<Line>, examples: seq<Example>) {
    Loadable(journal, examples) && Ids(journal) == PlannedIds(examples)
  }

  function PlannedIds(examples: seq<Example>): set<string> {
    set i | 0 <= i < |examples| :: examples[i].id
  }

  /** The rows a deterministic sampler writes in one uninterrupted attempt, in the order of the plan. */
  function IdealRows(examples: seq<Example>, sample: Example -> Outcome): (rows: seq<Row>)
    ensures |rows| == |examples|
  {
    seq(|examples|, i requires 0 <= i < |examples| => PredictionRow(examples[i], sample(examples[i])))
  }

  /** Every row was produced by this sampler for one of these examples. */
  ghost predicate ProducedBy(journal: seq<Line>, examples: seq<Example>, sample: Example -> Outcome) {
    forall i | 0 <= i < |journal| && !journal[i].Torn? ::
      exists e :: e in examples && journal[i].row == PredictionRow(e, sample(e))
  }

  lemma {:induction false} ExampleOfIs(examples: seq<Example>, i: nat)
    requires DistinctIds(examples) && i < |examples|
    ensures ExampleOf(examples, examples[i].id) == Some(examples[i])
  {
    var n := |examples| - 1;
    if i >= n {
    } else {
      ExampleOfIs(examples[..n], i);
      assert examples[i].id != examples[n].id;
    }
  }

  lemma {:induction false} ExampleOfSome(examples: seq<Example>, id: string)
    ensures ExampleOf(examples, id).Some? ==> ExampleOf(examples, id).value in examples
                                              && ExampleOf(examples, id).value.id == id
    ensures ExampleOf(examples, id).Some? <==> id in PlannedIds(examples)
  {
    if examples == [] {
    } else {
      var n := |examples| - 1;
      var before := examples[..n];
      ExampleOfSome(before, id);
      if id in PlannedIds(before) {
        var k :| 0 <= k < n && before[k].id == id;
        assert examples[k].id == id;
      }
      if id in PlannedIds(examples) && examples[n].id != id {
        var k :| 0 <= k < |examples| && examples[k].id == id;
        assert before[k].id == id;
      }
      assert examples[n].id == id ==> id in PlannedIds(examples);
    }
  }

  lemma {:induction false} RowForIs(rows: seq<Row>, i: nat)
    requires i < |rows| && forall j, k | 0 <= j < k < |rows| :: rows[j].id != rows[k].id
    ensures RowFor(rows, rows[i].id) == Some(rows[i])
  {
    var n := |rows| - 1;
    if i >= n {
    } else {
      RowForIs(rows[..n], i);
      assert rows[i].id != rows[n].id;
    }
  }

  lemma {:induction false} SerializeByRows(examples: seq<Example>, a: seq<Row>, b: seq<Row>)
    requires forall i | 0 <= i < |examples| :: RowFor(a, examples[i].id) == RowFor(b, examples[i].id)
    ensures Serialize(examples, a) == Serialize(examples, b)
  {
    if examples == [] {
    } else {
      var n := |examples| - 1;
      forall i | 0 <= i < n ensures RowFor(a, examples[..n][i].id) == RowFor(b, examples[..n][i].id) {
        assert examples[..n][i] == examples[i];
      }
      SerializeByRows(examples[..n], a, b);
    }
  }

  /** In a complete journal of a deterministic sampler, the row of each example is the ideal one. */
  lemma RowOfExample(journal: seq<Line>, examples: seq<Example>, sample: Example -> Outcome, i: nat)
    requires DistinctIds(examples) && Complete(journal, examples) && ProducedBy(journal, examples, sample)
    requires i < |examples|
    ensures RowFor(RowsOf(journal), examples[i].id) == Some(PredictionRow(examples[i], sample(examples[i])))
    ensures PredictionRow(examples[i], sample(examples[i])) in RowsOf(journal)
  {
    assert examples[i].id in Ids(journal);
    var k :| 0 <= k < |journal| && !journal[k].Torn? && journal[k].row.id == examples[i].id;
    var e :| e in examples && journal[k].row == PredictionRow(e, sample(e));
    var j :| 0 <= j < |examples| && examples[j] == e;
    assert j == i;
    assert RowsOf(journal)[k] == journal[k].row;
    RowForIs(RowsOf(journal), k);
  }

  lemma {:induction false} SameContents(a: seq<Row>, b: seq<Row>)
    requires forall i, j | 0 <= i < j < |a| :: a[i].id != a[j].id
    requires forall i, j | 0 <= i < j < |b| :: b[i].id != b[j].id
    requires forall r :: r in a <==> r in b
    ensures multiset(a) == multiset(b)
  {
    forall r ensures multiset(a)[r] == multiset(b)[r] {
      AtMostOnce(a, r);
      AtMostOnce(b, r);
      assert r in a <==> r in multiset(a);
      assert r in b <==> r in multiset(b);
    }
  }

  lemma {:induction false} AtMostOnce(a: seq<Row>, r: Row)
    requires forall i, j | 0 <= i < j < |a| :: a[i].id != a[j].id
    ensures multiset(a)[r] <= 1
  {
    if a == [] {
    } else {
      AtMostOnce(a[1..], r);
      assert a == [a[0]] + a[1..];
      if r == a[0] {
        assert r !in a[1..];
        assert r !in multiset(a[1..]);
      }
    }
  }

  /** A complete journal of a deterministic sampler holds the ideal rows, in some order. */
  lemma RowsAreIdeal(journal: seq<Line>, examples: seq<Example>, sample: Example -> Outcome)
    requires DistinctIds(examples) && Complete(journal, examples) && ProducedBy(journal, examples, sample)
    ensures multiset(RowsOf(journal)) == multiset(IdealRows(examples, sample))
  {
    hide PredictionRow, RowFor;
    var rows, ideal := RowsOf(journal), IdealRows(examples, sample);
    forall i | 0 <= i < |examples| ensures ideal[i] in rows && ideal[i].id == examples[i].id {
      RowOfExample(journal, examples, sample, i);
      RowKeepsId(examples[i], sample(examples[i]));
    }
    forall k | 0 <= k < |rows| ensures rows[k] in ideal {
      assert journal[k].row == rows[k];
      var e :| e in examples && journal[k].row == PredictionRow(e, sample(e));
      var j :| 0 <= j < |examples| && examples[j] == e;
      assert ideal[j] == rows[k];
    }
    SameContents(rows, ideal);
  }

  lemma RowKeepsId(e: Example, outcome: Outcome)
    ensures PredictionRow(e, outcome).id == e.id
  {
  }

  /** Whatever the order of its rows, a complete journal of a deterministic sampler gives the examples and the
      aggregate of one uninterrupted run. */
  lemma CompleteJournalIsIdeal(journal: seq<Line>, examples: seq<Example>, sample: Example -> Outcome)
    requires DistinctIds(examples) && Complete(journal, examples) && ProducedBy(journal, examples, sample)
    ensures Serialize(examples, RowsOf(journal)) == Serialize(examples, IdealRows(examples, sample))
    ensures ResumedAggregate(RowsOf(journal)) == ResumedAggregate(IdealRows(examples, sample))
  {
    hide Serialize, ResumedAggregate, ProducedBy, RowFor, RowsOf;
    var rows, ideal := RowsOf(journal), IdealRows(examples, sample);
    forall i | 0 <= i < |examples| ensures RowFor(rows, examples[i].id) == RowFor(ideal, examples[i].id) {
      RowOfExample(journal, examples, sample, i);
      RowForIs(ideal, i);
    }
    SerializeByRows(examples, rows, ideal);
    RowsAreIdeal(journal, examples, sample);
    AggregateOfContents(rows, ideal);
  }
}
