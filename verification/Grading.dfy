/** The grading protocol of `packages/evaluator-sdk/src/grade.ts`, with a crash allowed between any two writes. */
module Grading {
  import opened Wrappers
  import opened Reals
  import opened Keys
  import opened Grades

  // ---------------------------------------------------------------- inputs

  datatype RubricDimension = RubricDimension(id: string, caption: string, weight: real)

  /** A custom scorer is deterministic here: it always returns the same dimensions. */
  datatype Scorer = DefaultScorer | CustomScorer(dimensions: seq<Dimension>)

  /** What the citation policy, if any, says about the claims. */
  datatype Citations = NoPolicy | PolicyPassed(summary: Option<string>) | PolicyFailed

  datatype Input = Input(
    submissionId: string, stageId: string, rubricVersion: string, evaluatorVersion: string,
    executable: bool, execution: ExecutionStatus, testResults: seq<bool>,
    stageThreshold: Option<real>, rubricThreshold: real, dimensions: seq<RubricDimension>,
    hiddenCorrect: bool, evidenceRefs: seq<string>,
    scorer: Scorer, citations: Citations, checkpoints: bool)

  function InputKey(input: Input): string {
    IdempotencyKey(GradeTuple(input.submissionId, input.rubricVersion, input.evaluatorVersion))
  }

  // ---------------------------------------------------------------- scoring

  function TotalWeight(dims: seq<Dimension>): real {
    if dims == [] then 0.0 else TotalWeight(dims[..|dims| - 1]) + dims[|dims| - 1].weight
  }

  function WeightedScore(dims: seq<Dimension>): real {
    if dims == [] then 0.0
    else WeightedScore(dims[..|dims| - 1]) + dims[|dims| - 1].score * dims[|dims| - 1].weight
  }

  function AggregateScore(dims: seq<Dimension>): real {
    if TotalWeight(dims) == 0.0 then 0.0 else WeightedScore(dims) / TotalWeight(dims)
  }

  function DeriveStatus(score: real, threshold: real): Status {
    if score >= threshold then Passed else if score > 0.0 then Partial else NotPassed
  }

  function CountPassed(tests: seq<bool>): nat {
    if tests == [] then 0 else CountPassed(tests[1..]) + if tests[0] then 1 else 0
  }

  function PassRatio(tests: seq<bool>): real {
    if tests == [] then 0.0 else CountPassed(tests) as real / |tests| as real
  }

  function DefaultDimensions(input: Input): (dims: seq<Dimension>)
  {
    seq(|input.dimensions|, i requires 0 <= i < |input.dimensions| =>
      var d := input.dimensions[i];
      Dimension(d.id, d.caption, PassRatio(input.testResults), d.weight))
  }

  ghost predicate ScoresWithin(dims: seq<Dimension>, lo: real, hi: real) {
    forall i | 0 <= i < |dims| :: lo <= dims[i].score <= hi && dims[i].weight >= 0.0
  }

  lemma {:induction false} WeightedScoreWithin(dims: seq<Dimension>, lo: real, hi: real)
    requires ScoresWithin(dims, lo, hi)
    ensures TotalWeight(dims) >= 0.0
    ensures Between(lo, TotalWeight(dims), WeightedScore(dims), hi)
  {
    hide Between;
    NothingBetween(lo, hi);
    if dims != [] {
      var front, d := dims[..|dims| - 1], dims[|dims| - 1];
      WeightedScoreWithin(front, lo, hi);
      OneMoreWithin(lo, hi, TotalWeight(front), WeightedScore(front), d, TotalWeight(dims), WeightedScore(dims));
    }
  }

  /** The sum of scores is that of a mean score between `lo` and `hi`. */
  ghost predicate Between(lo: real, total: real, sum: real, hi: real) {
    lo * total <= sum <= hi * total
  }

  lemma NothingBetween(lo: real, hi: real)
    ensures Between(lo, 0.0, 0.0, hi)
  {
  }

  lemma OneMoreWithin(lo: real, hi: real, total: real, sum: real, d: Dimension, total': real, sum': real)
    requires Between(lo, total, sum, hi) && lo <= d.score <= hi && d.weight >= 0.0
    requires total' == total + d.weight && sum' == sum + d.score * d.weight
    ensures Between(lo, total', sum', hi)
  {
    ProductGrows(lo, d.score, d.weight);
    ProductGrows(d.score, hi, d.weight);
    Distribute(lo, total, d.weight);
    Distribute(hi, total, d.weight);
  }

  lemma Distribute(x: real, y: real, z: real)
    ensures x * (y + z) == x * y + x * z
  {
  }

  lemma DivideBounds(lo: real, x: real, hi: real, w: real)
    requires w > 0.0 && Between(lo, w, x, hi)
    ensures lo <= x / w <= hi
  {
    var q := x / w;
    assert q * w == x;
    ProductsCompare(q, lo, w);
    ProductsCompare(hi, q, w);
  }

  /** The aggregate lies between the lowest and the highest dimension score, or is zero when nothing weighs. */
  lemma AggregateIsAnAverage(dims: seq<Dimension>, lo: real, hi: real)
    requires ScoresWithin(dims, lo, hi)
    ensures TotalWeight(dims) == 0.0 ==> AggregateScore(dims) == 0.0
    ensures TotalWeight(dims) != 0.0 ==> lo <= AggregateScore(dims) <= hi
  {
    WeightedScoreWithin(dims, lo, hi);
    hide TotalWeight, WeightedScore, ScoresWithin, Between;
    if TotalWeight(dims) != 0.0 {
      DivideBounds(lo, WeightedScore(dims), hi, TotalWeight(dims));
    }
  }

  /** Dimensions that all score `r` sum to `r` times their weight, whatever the signs of the weights. */
  lemma {:induction false} EqualScoresFactorOut(dims: seq<Dimension>, r: real)
    requires forall d | d in dims :: d.score == r
    ensures WeightedScore(dims) == r * TotalWeight(dims)
  {
    if dims == [] {
    } else {
      var front, d := dims[..|dims| - 1], dims[|dims| - 1];
      assert d in dims;
      EqualScoresFactorOut(front, r);
      Distribute(r, TotalWeight(front), d.weight);
    }
  }

  lemma ProductOverFactor(r: real, w: real)
    requires w != 0.0
    ensures r * w / w == r
  {
  }

  /** With the default scorer the grade's score is the fraction of tests passed, whatever the weights. */
  lemma DefaultScoreIsPassRatio(input: Input)
    ensures var dims := DefaultDimensions(input);
            AggregateScore(dims) == if TotalWeight(dims) == 0.0 then 0.0 else PassRatio(input.testResults)
  {
    hide PassRatio, TotalWeight, WeightedScore;
    var dims, ratio := DefaultDimensions(input), PassRatio(input.testResults);
    EqualScoresFactorOut(dims, ratio);
    if TotalWeight(dims) != 0.0 { ProductOverFactor(ratio, TotalWeight(dims)); }
  }

  // ---------------------------------------------------------------- snapshots

  datatype Snapshot = Snapshot(key: string, execution: ExecutionStatus, preflightPassed: bool, passThreshold: real,
                               deterministicDimensions: Option<seq<Dimension>>, savedAt: string)

  class InMemoryIntermediateStore {
    var byKey: map<string, Snapshot>

    constructor ()
      ensures byKey == map[]
    {
      byKey := map[];
    }

    method Find(key: string) returns (s: Option<Snapshot>)
      ensures s == if key in byKey then Some(byKey[key]) else None
    {
      s := if key in byKey then Some(byKey[key]) else None;
    }

    method Save(s: Snapshot)
      modifies this
      ensures byKey == old(byKey)[s.key := s]
    {
      byKey := byKey[s.key := s];
    }
  }

  // ---------------------------------------------------------------- one call

  datatype Refusal = EvidenceMissing | CitationPolicyViolation

  datatype Outcome = Graded(grade: Grade) | Refused(reason: Refusal)

  datatype Write = SaveSnapshot(snapshot: Snapshot) | InsertGrade(grade: Grade)

  /** Ids and timestamps the call would draw. */
  datatype Draw = Draw(id: string, savedAt: string, createdAt: string)

  /** The writes a call makes, in order, and what it answers. */
  datatype Plan = Plan(writes: seq<Write>, outcome: Outcome)

  function Threshold(input: Input, cached: Option<Snapshot>): real {
    if cached.Some? then cached.value.passThreshold
    else if input.stageThreshold.Some? then input.stageThreshold.value
    else input.rubricThreshold
  }

  function CachedDimensions(cached: Option<Snapshot>): Option<seq<Dimension>> {
    if cached.Some? then cached.value.deterministicDimensions else None
  }

  function Dimensions(input: Input, cached: Option<Snapshot>): seq<Dimension> {
    match input.scorer
    case CustomScorer(dimensions) => dimensions
    case DefaultScorer =>
      if CachedDimensions(cached).Some? then CachedDimensions(cached).value else DefaultDimensions(input)
  }

  function ExecutionFailedGrade(input: Input, d: Draw): Grade {
    Grade(d.id, input.submissionId, input.stageId, input.rubricVersion, input.evaluatorVersion, ExecutionFailed, 0.0,
          if input.stageThreshold.Some? then input.stageThreshold.value else input.rubricThreshold,
          [], RefusalFeedback(input.execution), [], d.createdAt)
  }

  function FinalGrade(input: Input, cached: Option<Snapshot>, d: Draw): Grade {
    var dims := Dimensions(input, cached);
    var score := AggregateScore(dims);
    var status := DeriveStatus(score, Threshold(input, cached));
    Grade(d.id, input.submissionId, input.stageId, input.rubricVersion, input.evaluatorVersion, status, score,
          Threshold(input, cached), dims,
          ReportFeedback(status, dims, if input.citations.PolicyPassed? then input.citations.summary else None),
          [], d.createdAt)
  }

  function PreflightPassed(cached: Option<Snapshot>): bool {
    cached.Some? && cached.value.preflightPassed
  }

  predicate WantsSnapshot(input: Input, cached: Option<Snapshot>) {
    input.checkpoints
    && (!PreflightPassed(cached) || (input.scorer.DefaultScorer? && CachedDimensions(cached).None?))
  }

  function NewSnapshot(input: Input, cached: Option<Snapshot>, d: Draw): Snapshot {
    Snapshot(InputKey(input), input.execution, true, Threshold(input, cached),
             if input.scorer.DefaultScorer? then Some(Dimensions(input, cached)) else CachedDimensions(cached),
             d.savedAt)
  }

  function PlanCall(existing: Option<Grade>, found: Option<Snapshot>, input: Input, d: Draw): Plan {
    var cached := if input.checkpoints then found else None;
    if existing.Some? then Plan([], Graded(existing.value))
    else if !PreflightPassed(cached) && input.executable && input.execution != Succeeded then
      Plan([InsertGrade(ExecutionFailedGrade(input, d))], Graded(ExecutionFailedGrade(input, d)))
    else if !PreflightPassed(cached) && input.hiddenCorrect && input.evidenceRefs == [] then
      Plan([], Refused(EvidenceMissing))
    else if input.citations.PolicyFailed? then Plan([], Refused(CitationPolicyViolation))
    else
      var grade := FinalGrade(input, cached, d);
      Plan((if WantsSnapshot(input, cached) then [SaveSnapshot(NewSnapshot(input, cached, d))] else [])
           + [InsertGrade(grade)], Graded(grade))
  }

  // ---------------------------------------------------------------- the world the calls share

  datatype World = World(store: Store, snapshots: map<string, Snapshot>)

  const EMPTY_WORLD := World(EMPTY_STORE, map[])

  function SnapshotOf(w: World, key: string): Option<Snapshot> {
    if key in w.snapshots then Some(w.snapshots[key]) else None
  }

  function ApplyWrite(w: World, write: Write): World {
    match write
    case SaveSnapshot(s) => w.(snapshots := w.snapshots[s.key := s])
    case InsertGrade(g) => w.(store := Insert(w.store, g))
  }

  function ApplyWrites(w: World, writes: seq<Write>): World
    decreases |writes|
  {
    if writes == [] then w else ApplyWrites(ApplyWrite(w, writes[0]), writes[1..])
  }

  lemma ApplyOne(w: World, x: Write)
    ensures ApplyWrites(w, [x]) == ApplyWrite(w, x)
  {
    assert [x][1..] == [];
  }

  lemma NoWrites(w: World)
    ensures ApplyWrites(w, []) == w
  {
  }

  lemma ApplyTwo(w: World, x: Write, y: Write)
    ensures ApplyWrites(w, [x] + [y]) == ApplyWrite(ApplyWrite(w, x), y)
  {
    assert ([x] + [y])[1..] == [y];
    ApplyOne(ApplyWrite(w, x), y);
  }

  /** A plan's writes are an optional snapshot and then at most one grade. */
  lemma PlanShape(existing: Option<Grade>, found: Option<Snapshot>, input: Input, d: Draw)
    ensures var plan := PlanCall(existing, found, input, d);
            var cached := if input.checkpoints then found else None;
            || (plan.writes == [] && (plan.outcome.Graded? <==> existing.Some?))
            || (existing.None? && plan.outcome.Graded? && plan.writes == [InsertGrade(plan.outcome.grade)])
            || (existing.None? && plan.outcome.Graded? && WantsSnapshot(input, cached)
                && plan.writes == [SaveSnapshot(NewSnapshot(input, cached, d))] + [InsertGrade(plan.outcome.grade)])
    ensures PlanCall(existing, found, input, d).outcome.Graded? && existing.None? ==>
              KeyOf(PlanCall(existing, found, input, d).outcome.grade) == InputKey(input)
  {
    hide AggregateScore, DefaultDimensions;
  }

  function CallPlan(w: World, input: Input, d: Draw): Plan {
    PlanCall(FindByKey(w.store, InputKey(input)), SnapshotOf(w, InputKey(input)), input, d)
  }

  /** One call run to its end: reads, then the planned writes. */
  method GradeAttempt(input: Input, store: InMemoryGradeStore, intermediate: InMemoryIntermediateStore, d: Draw)
    returns (outcome: Outcome)
    modifies store, intermediate
    ensures var before := World(old(store.Abstract()), old(intermediate.byKey));
            var plan := CallPlan(before, input, d);
            outcome == plan.outcome && World(store.Abstract(), intermediate.byKey) == ApplyWrites(before, plan.writes)
  {
    hide AggregateScore, DefaultDimensions, ApplyWrites;
    ghost var before := World(store.Abstract(), intermediate.byKey);
    NoWrites(before);
    var idKey := InputKey(input);
    var existing := store.FindGrade(idKey);
    if existing.Some? { return Graded(existing.value); }
    var cached: Option<Snapshot> := None;
    if input.checkpoints {
      cached := intermediate.Find(idKey);
    }
    if !PreflightPassed(cached) {
      if input.executable && input.execution != Succeeded {
        ApplyOne(before, InsertGrade(ExecutionFailedGrade(input, d)));
        var failed := store.InsertGrade(ExecutionFailedGrade(input, d));
        return Graded(failed);
      }
      if input.hiddenCorrect && input.evidenceRefs == [] {
        return Refused(EvidenceMissing);
      }
    }
    if input.citations.PolicyFailed? {
      return Refused(CitationPolicyViolation);
    }
    var passThreshold := Threshold(input, cached);
    var dimensions: seq<Dimension>;
    var deterministic := true;
    if input.scorer.CustomScorer? {
      dimensions := input.scorer.dimensions;
      deterministic := false;
    } else if cached.Some? && cached.value.deterministicDimensions.Some? {
      dimensions := cached.value.deterministicDimensions.value;
    } else {
      dimensions := DefaultDimensions(input);
    }
    if input.checkpoints {
      var wantsDimSnapshot := deterministic && CachedDimensions(cached).None?;
      if !PreflightPassed(cached) || wantsDimSnapshot {
        var carried := if deterministic then Some(dimensions) else CachedDimensions(cached);
        intermediate.Save(Snapshot(idKey, input.execution, true, passThreshold, carried, d.savedAt));
      }
    }
    var rubricScore := AggregateScore(dimensions);
    var status := DeriveStatus(rubricScore, passThreshold);
    var grade := Grade(d.id, input.submissionId, input.stageId, input.rubricVersion, input.evaluatorVersion,
                       status, rubricScore, passThreshold, dimensions,
                       ReportFeedback(status, dimensions,
                                      if input.citations.PolicyPassed? then input.citations.summary else None),
                       [], d.createdAt);
    assert grade == FinalGrade(input, cached, d);
    if WantsSnapshot(input, cached) {
      ApplyTwo(before, SaveSnapshot(NewSnapshot(input, cached, d)), InsertGrade(grade));
    } else {
      ApplyOne(before, InsertGrade(grade));
      assert [] + [InsertGrade(grade)] == [InsertGrade(grade)];
    }
    var stored := store.InsertGrade(grade);
    outcome := Graded(stored);
  }

  // ---------------------------------------------------------------- crashes and retries

  /** A call that completes, or dies after its first `writes` writes. */
  datatype Attempt = Completes(input: Input, draw: Draw) | Crashes(input: Input, draw: Draw, writes: nat)

  /** The world after an attempt, and the answer if there was one. */
  function Try(w: World, a: Attempt): (World, Option<Outcome>) {
    var plan := CallPlan(w, a.input, a.draw);
    match a
    case Completes(_, _) => (ApplyWrites(w, plan.writes), Some(plan.outcome))
    case Crashes(_, _, n) =>
      (ApplyWrites(w, if n < |plan.writes| then plan.writes[..n] else plan.writes), None)
  }

  function After(attempts: seq<Attempt>): World {
    if attempts == [] then EMPTY_WORLD else Try(After(attempts[..|attempts| - 1]), attempts[|attempts| - 1]).0
  }

  /** An outcome without the grade's id and creation time. */
  function Essence(o: Outcome): Outcome {
    match o
    case Graded(g) => Graded(g.(id := "", createdAt := ""))
    case Refused(_) => o
  }

  const NO_DRAW := Draw("", "", "")

  /** What an uninterrupted call answers when nothing has been stored yet. */
  function Uninterrupted(input: Input): Outcome {
    PlanCall(None, None, input, NO_DRAW).outcome
  }

  /** Retries of a key repeat its input, and ids are never drawn twice. */
  ghost predicate Sensible(attempts: seq<Attempt>, inputs: map<string, Input>) {
    && (forall a | a in attempts :: InputKey(a.input) in inputs && inputs[InputKey(a.input)] == a.input)
    && (forall i, j | 0 <= i < j < |attempts| :: attempts[i].draw.id != attempts[j].draw.id)
  }

  /** A snapshot holds what its input determines. */
  ghost predicate SnapshotFits(s: Snapshot, input: Input) {
    && s.preflightPassed && s.passThreshold == Threshold(input, None)
    && (s.deterministicDimensions.Some? ==> s.deterministicDimensions.value == DefaultDimensions(input))
    && !(input.executable && input.execution != Succeeded) && !(input.hiddenCorrect && input.evidenceRefs == [])
    && !input.citations.PolicyFailed?
  }

  ghost predicate WorldFits(w: World, inputs: map<string, Input>) {
    && Consistent(w.store)
    && (forall key | key in w.store.byKey ::
          key in inputs && Essence(Graded(w.store.byKey[key])) == Uninterrupted(inputs[key]))
    && (forall key | key in w.snapshots :: key in inputs && SnapshotFits(w.snapshots[key], inputs[key]))
  }

  ghost predicate IdsFrom(w: World, attempts: seq<Attempt>) {
    forall id | id in w.store.byId :: exists a | a in attempts :: a.draw.id == id
  }

  /** A fitting snapshot does not change what the call answers. */
  lemma CachedCallAgrees(existing: Option<Grade>, found: Option<Snapshot>, input: Input, d: Draw)
    requires existing.Some? ==> Essence(Graded(existing.value)) == Uninterrupted(input)
    requires found.Some? ==> SnapshotFits(found.value, input)
    ensures Essence(PlanCall(existing, found, input, d).outcome) == Uninterrupted(input)
  {
    hide AggregateScore, DefaultDimensions;
  }

  ghost predicate WriteFits(write: Write, input: Input, d: Draw) {
    match write
    case SaveSnapshot(s) => s.key == InputKey(input) && SnapshotFits(s, input)
    case InsertGrade(g) => KeyOf(g) == InputKey(input) && g.id == d.id && Essence(Graded(g)) == Uninterrupted(input)
  }

  /** Every planned write fits, and at most the last is an insert, into a store without the key. */
  lemma PlannedWritesFit(existing: Option<Grade>, found: Option<Snapshot>, input: Input, d: Draw)
    requires existing.Some? ==> Essence(Graded(existing.value)) == Uninterrupted(input)
    requires found.Some? ==> SnapshotFits(found.value, input)
    ensures var writes := PlanCall(existing, found, input, d).writes;
            && (forall i | 0 <= i < |writes| :: WriteFits(writes[i], input, d))
            && (forall i | 0 <= i < |writes| - 1 :: writes[i].SaveSnapshot?)
            && (writes != [] ==> existing.None?)
  {
    hide AggregateScore, DefaultDimensions;
    CachedCallAgrees(existing, found, input, d);
  }

  lemma {:induction false} WritesKeepFit(w: World, writes: seq<Write>, input: Input, d: Draw,
                                         inputs: map<string, Input>)
    requires WorldFits(w, inputs) && InputKey(input) in inputs && inputs[InputKey(input)] == input
    requires forall i | 0 <= i < |writes| :: WriteFits(writes[i], input, d)
    requires forall i | 0 <= i < |writes| - 1 :: writes[i].SaveSnapshot?
    requires writes != [] ==> InputKey(input) !in w.store.byKey && d.id !in w.store.byId
    ensures WorldFits(ApplyWrites(w, writes), inputs)
    ensures forall id | id in ApplyWrites(w, writes).store.byId :: id in w.store.byId || id == d.id
    decreases |writes|
  {
    hide Uninterrupted, SnapshotFits, Essence, Consistent;
    if writes != [] {
      var next := ApplyWrite(w, writes[0]);
      assert WriteFits(writes[0], input, d);
      if writes[0].InsertGrade? {
        InsertKeepsConsistent(w.store, writes[0].grade);
        assert writes[1..] == [];
      }
      assert WorldFits(next, inputs);
      WritesKeepFit(next, writes[1..], input, d, inputs);
    }
  }

  /** One more attempt keeps the invariant, and adds no id but its own. */
  lemma TryFits(w: World, a: Attempt, inputs: map<string, Input>)
    requires WorldFits(w, inputs) && InputKey(a.input) in inputs && inputs[InputKey(a.input)] == a.input
    requires a.draw.id !in w.store.byId
    ensures WorldFits(Try(w, a).0, inputs)
    ensures forall id | id in Try(w, a).0.store.byId :: id in w.store.byId || id == a.draw.id
  {
    hide PlanCall, Uninterrupted, SnapshotFits, Essence, ApplyWrites, WriteFits, Consistent, InputKey;
    var writes := CallPlan(w, a.input, a.draw).writes;
    PlannedWritesFit(FindByKey(w.store, InputKey(a.input)), SnapshotOf(w, InputKey(a.input)), a.input, a.draw);
    var made := if a.Crashes? && a.writes < |writes| then writes[..a.writes] else writes;
    WritesKeepFit(w, made, a.input, a.draw, inputs);
  }

  lemma SensibleFront(attempts: seq<Attempt>, inputs: map<string, Input>)
    requires Sensible(attempts, inputs) && attempts != []
    ensures var a, front := attempts[|attempts| - 1], attempts[..|attempts| - 1];
            && Sensible(front, inputs) && InputKey(a.input) in inputs && inputs[InputKey(a.input)] == a.input
            && forall b | b in front :: b in attempts && b.draw.id != a.draw.id
  {
    hide InputKey;
    assert attempts[|attempts| - 1] in attempts;
  }

  lemma {:induction false} AfterFits(attempts: seq<Attempt>, inputs: map<string, Input>)
    requires Sensible(attempts, inputs)
    ensures WorldFits(After(attempts), inputs) && IdsFrom(After(attempts), attempts)
  {
    if attempts == [] {
    } else {
      hide WorldFits, Sensible, Try, InputKey;
      var front, a := attempts[..|attempts| - 1], attempts[|attempts| - 1];
      SensibleFront(attempts, inputs);
      AfterFits(front, inputs);
      TryFits(After(front), a, inputs);
      assert a in attempts;
      forall id | id in After(attempts).store.byId ensures exists b | b in attempts :: b.draw.id == id {
        if id != a.draw.id {
          var b :| b in front && b.draw.id == id;
        }
      }
    }
  }

  /**
   Crash and resume: after any number of attempts, each crashing between any two of its writes or completing,
   a call that completes answers what an uninterrupted call would, up to id and timestamp; every stored grade is
   such an answer, and there is at most one for each key.
   */
  lemma CrashedCallsResume(attempts: seq<Attempt>, inputs: map<string, Input>, input: Input, d: Draw)
    requires Sensible(attempts + [Completes(input, d)], inputs)
    ensures var w := After(attempts);
            var (w', outcome) := Try(w, Completes(input, d));
            && outcome.Some? && Essence(outcome.value) == Uninterrupted(input)
            && (outcome.value.Graded? ==> FindByKey(w'.store, InputKey(input)) == Some(outcome.value.grade))
            && (outcome.value.Refused? ==> FindByKey(w'.store, InputKey(input)) == None)
            && Consistent(w'.store)
  {
    hide Uninterrupted, SnapshotFits, Essence, Consistent, After;
    var all := attempts + [Completes(input, d)];
    assert forall a | a in attempts :: a in all;
    assert forall i | 0 <= i < |attempts| :: all[i] == attempts[i];
    assert Completes(input, d) in all;
    var w := After(attempts);
    AfterFits(attempts, inputs);
    AfterFits(all, inputs);
    AfterOneMore(attempts, Completes(input, d));
    CachedCallAgrees(FindByKey(w.store, InputKey(input)), SnapshotOf(w, InputKey(input)), input, d);
    CompletedCallStores(w, input, d);
  }

  lemma AfterOneMore(attempts: seq<Attempt>, a: Attempt)
    ensures After(attempts + [a]) == Try(After(attempts), a).0
  {
    assert (attempts + [a])[..|attempts|] == attempts;
  }

  lemma CompletedCallStores(w: World, input: Input, d: Draw)
    ensures var plan := CallPlan(w, input, d);
            var w' := ApplyWrites(w, plan.writes);
            FindByKey(w'.store, InputKey(input)) == if plan.outcome.Graded? then Some(plan.outcome.grade) else None
  {
    hide PlanCall, WantsSnapshot, NewSnapshot;
    var key := InputKey(input);
    var plan := CallPlan(w, input, d);
    PlanShape(FindByKey(w.store, key), SnapshotOf(w, key), input, d);
    if plan.outcome.Graded? {
      ApplyOne(w, InsertGrade(plan.outcome.grade));
      var cached := if input.checkpoints then SnapshotOf(w, key) else None;
      ApplyTwo(w, SaveSnapshot(NewSnapshot(input, cached, d)), InsertGrade(plan.outcome.grade));
      FoundIsAnswered(w, input, d);
    }
  }

  lemma FoundIsAnswered(w: World, input: Input, d: Draw)
    ensures FindByKey(w.store, InputKey(input)).Some? ==>
              CallPlan(w, input, d) == Plan([], Graded(FindByKey(w.store, InputKey(input)).value))
  {
  }

  /** Snapshots never lose dimensions: an attempt leaves those already saved as they are, for every key. */
  lemma SnapshotsKeepDimensions(w: World, a: Attempt, key: string)
    requires CachedDimensions(SnapshotOf(w, key)).Some?
    ensures CachedDimensions(SnapshotOf(Try(w, a).0, key)) == CachedDimensions(SnapshotOf(w, key))
  {
    hide AggregateScore, DefaultDimensions, PlanCall;
    var plan := CallPlan(w, a.input, a.draw);
    var own := SnapshotOf(w, InputKey(a.input));
    PlanShape(FindByKey(w.store, InputKey(a.input)), own, a.input, a.draw);
    if plan.outcome.Graded? {
      var save := SaveSnapshot(NewSnapshot(a.input, if a.input.checkpoints then own else None, a.draw));
      var insert := InsertGrade(plan.outcome.grade);
      ApplyOne(w, save);
      ApplyOne(w, insert);
      ApplyTwo(w, save, insert);
      assert ([save] + [insert])[..1] == [save] && ([save] + [insert])[..0] == [] && [insert][..0] == [];
    }
  }

  /** The snapshot a call leaves that dies right after saving it. */
  lemma CrashLeavesSnapshot(input: Input, d: Draw)
    requires input.checkpoints && Uninterrupted(input).Graded? && Uninterrupted(input).grade.status != ExecutionFailed
    ensures var s := NewSnapshot(input, None, d);
            Try(EMPTY_WORLD, Crashes(input, d, 1)).0 == EMPTY_WORLD.(snapshots := map[InputKey(input) := s])
  {
    hide AggregateScore, DefaultDimensions, ApplyWrites, InputKey;
    var save := SaveSnapshot(NewSnapshot(input, None, d));
    var insert := InsertGrade(FinalGrade(input, None, d));
    assert CallPlan(EMPTY_WORLD, input, d).writes == [save] + [insert];
    assert ([save] + [insert])[..1] == [save];
    ApplyOne(EMPTY_WORLD, save);
  }

  lemma RetryFindsSnapshot(input: Input, retry: Input, d: Draw, e: Draw)
    requires InputKey(input) == InputKey(retry)
    ensures var w := EMPTY_WORLD.(snapshots := map[InputKey(input) := NewSnapshot(input, None, d)]);
            Try(w, Completes(retry, e)).1 == Some(PlanCall(None, Some(NewSnapshot(input, None, d)), retry, e).outcome)
  {
    hide PlanCall, NewSnapshot, InputKey, ApplyWrites;
  }

  /**
   A checkpoint outlives the artifacts it was made from: once a default-scorer call has saved its snapshot and
   died, a retry of the same key grades with the dimensions and threshold of that call, even if it comes with
   other run artifacts, no evidence or another rubric.
   */
  lemma CheckpointDecidesTheRetry(input: Input, retry: Input, d: Draw, e: Draw)
    requires InputKey(input) == InputKey(retry)
    requires input.scorer.DefaultScorer? && retry.scorer.DefaultScorer? && input.checkpoints && retry.checkpoints
    requires Uninterrupted(input).Graded? && Uninterrupted(input).grade.status != ExecutionFailed
    requires !retry.citations.PolicyFailed?
    ensures var w := Try(EMPTY_WORLD, Crashes(input, d, 1)).0;
            var answer := Try(w, Completes(retry, e)).1;
            var expected := Uninterrupted(input).grade;
            && answer.Some? && answer.value.Graded?
            && var g := answer.value.grade;
               && g.dimensions == expected.dimensions && g.passThreshold == expected.passThreshold
               && g.rubricScore == expected.rubricScore && g.status == expected.status
  {
    hide AggregateScore, DefaultDimensions, InputKey, Try;
    CrashLeavesSnapshot(input, d);
    RetryFindsSnapshot(input, retry, d, e);
  }

  /** The checks that a checkpoint lets a retry skip. */
  predicate PreflightPasses(input: Input) {
    !(input.executable && input.execution != Succeeded) && !(input.hiddenCorrect && input.evidenceRefs == [])
  }

  /**
   When a retry behind a checkpoint still answers for itself: exactly when it does not look for checkpoints, or
   would pass the checks it skips and is refused for its citations or has the threshold and, where both calls score
   by default, the dimensions of the call that died.
   */
  lemma RetryAnswersForItself(input: Input, retry: Input, d: Draw, e: Draw)
    requires InputKey(input) == InputKey(retry)
    requires input.checkpoints && Uninterrupted(input).Graded? && Uninterrupted(input).grade.status != ExecutionFailed
    ensures var w := Try(EMPTY_WORLD, Crashes(input, d, 1)).0;
            var answer := Try(w, Completes(retry, e)).1;
            && answer.Some?
            && (Essence(answer.value) == Uninterrupted(retry) <==>
                || !retry.checkpoints
                || (PreflightPasses(retry)
                    && (retry.citations.PolicyFailed?
                        || (Threshold(input, None) == Threshold(retry, None)
                            && (input.scorer.DefaultScorer? && retry.scorer.DefaultScorer? ==>
                                  DefaultDimensions(input) == DefaultDimensions(retry))))))
  {
    hide AggregateScore, DefaultDimensions, InputKey, Try;
    CrashLeavesSnapshot(input, d);
    RetryFindsSnapshot(input, retry, d, e);
  }

  /** A call whose only test passes, and a retry whose only test fails. */
  function OneTest(passes: bool): Input {
    Input("s", "stage", "r", "e", true, Succeeded, [passes], None, 1.0, [RubricDimension("d", "", 1.0)],
          false, [], DefaultScorer, NoPolicy, true)
  }

  /** A retry whose test fails is told that it passed, on the test of the call that died. */
  lemma FailingRetryPasses(d: Draw, e: Draw)
    ensures var w := Try(EMPTY_WORLD, Crashes(OneTest(true), d, 1)).0;
            var answer := Try(w, Completes(OneTest(false), e)).1;
            && answer.Some? && answer.value.Graded? && answer.value.grade.status == Passed
            && Uninterrupted(OneTest(false)).Graded? && Uninterrupted(OneTest(false)).grade.status == NotPassed
  {
    hide Try, InputKey, PlanCall, DefaultDimensions, AggregateScore;
    OneTestScores(true);
    OneTestScores(false);
    assert InputKey(OneTest(true)) == InputKey(OneTest(false)) by { SameTupleSameKey(); }
    OneTestAnswers(true);
    OneTestAnswers(false);
    CheckpointDecidesTheRetry(OneTest(true), OneTest(false), d, e);
  }

  lemma SameTupleSameKey()
    ensures InputKey(OneTest(true)) == InputKey(OneTest(false))
  {
  }

  lemma OneTestScores(passes: bool)
    ensures AggregateScore(DefaultDimensions(OneTest(passes))) == if passes then 1.0 else 0.0
  {
    var dims := DefaultDimensions(OneTest(passes));
    DefaultScoreIsPassRatio(OneTest(passes));
    assert [passes][1..] == [];
    assert dims[..0] == [] && |dims| == 1 && dims[0].weight == 1.0;
    assert TotalWeight(dims) == TotalWeight(dims[..0]) + 1.0;
  }

  lemma OneTestAnswers(passes: bool)
    ensures var answer := Uninterrupted(OneTest(passes));
            answer.Graded? && answer.grade.status == if passes then Passed else NotPassed
  {
    hide DefaultDimensions, AggregateScore;
    OneTestScores(passes);
  }

  // ---------------------------------------------------------------- what a call answers, said of its input

  function SumOver(dims: seq<Dimension>, f: Dimension -> real): real {
    if dims == [] then 0.0 else f(dims[0]) + SumOver(dims[1..], f)
  }

  /** The mean of the scores, each weighted by its dimension; zero where nothing weighs. */
  ghost predicate IsWeightedMean(score: real, dims: seq<Dimension>) {
    var weight := SumOver(dims, (d: Dimension) => d.weight);
    var sum := SumOver(dims, (d: Dimension) => d.score * d.weight);
    if weight == 0.0 then score == 0.0 else score * weight == sum
  }

  lemma {:induction false} SumOverLast(dims: seq<Dimension>, d: Dimension, f: Dimension -> real)
    ensures SumOver(dims + [d], f) == SumOver(dims, f) + f(d)
  {
    if dims == [] {
      assert ([] + [d])[1..] == [];
    } else {
      assert (dims + [d])[1..] == dims[1..] + [d];
      SumOverLast(dims[1..], d, f);
    }
  }

  lemma {:induction false} SumsAreSums(dims: seq<Dimension>)
    ensures TotalWeight(dims) == SumOver(dims, (d: Dimension) => d.weight)
    ensures WeightedScore(dims) == SumOver(dims, (d: Dimension) => d.score * d.weight)
  {
    if dims != [] {
      var front, d := dims[..|dims| - 1], dims[|dims| - 1];
      SumsAreSums(front);
      SumOverLast(front, d, (d: Dimension) => d.weight);
      SumOverLast(front, d, (d: Dimension) => d.score * d.weight);
      assert front + [d] == dims;
    }
  }

  lemma AggregateIsWeightedMean(dims: seq<Dimension>)
    ensures IsWeightedMean(AggregateScore(dims), dims)
  {
    SumsAreSums(dims);
    hide TotalWeight, WeightedScore, SumOver;
  }

  /** The tests that passed. */
  ghost function Passing(tests: seq<bool>): set<nat> {
    set k: nat | k < |tests| && tests[k]
  }

  lemma {:induction false} CountLast(tests: seq<bool>, t: bool)
    ensures CountPassed(tests + [t]) == CountPassed(tests) + if t then 1 else 0
  {
    if tests == [] {
      assert ([] + [t])[1..] == [];
    } else {
      assert (tests + [t])[1..] == tests[1..] + [t];
      CountLast(tests[1..], t);
    }
  }

  lemma {:induction false} CountIsPassing(tests: seq<bool>)
    ensures CountPassed(tests) == |Passing(tests)|
  {
    if tests == [] {
      assert Passing(tests) == {};
    } else {
      var n := |tests| - 1;
      CountIsPassing(tests[..n]);
      CountLast(tests[..n], tests[n]);
      assert tests[..n] + [tests[n]] == tests;
      assert n !in Passing(tests[..n]);
      assert Passing(tests) == Passing(tests[..n]) + if tests[n] then {n} else {};
    }
  }

  /** The dimensions of the rubric, each scored with the share of the tests that passed. */
  ghost predicate AreDefaultDimensions(dims: seq<Dimension>, input: Input) {
    var tests := input.testResults;
    && |dims| == |input.dimensions|
    && forall i | 0 <= i < |dims| ::
         && dims[i].id == input.dimensions[i].id && dims[i].caption == input.dimensions[i].caption
         && dims[i].weight == input.dimensions[i].weight
         && (if tests == [] then dims[i].score == 0.0
             else dims[i].score == |Passing(tests)| as real / |tests| as real)
  }

  lemma DefaultsAreDefault(input: Input)
    ensures AreDefaultDimensions(DefaultDimensions(input), input)
  {
    CountIsPassing(input.testResults);
    hide CountPassed, Passing;
  }

  /** The threshold a call grades against: that of the checkpoint, else of the stage, else of the rubric. */
  function ThresholdFor(input: Input, cached: Option<Snapshot>): real {
    match (cached, input.stageThreshold)
    case (Some(s), _) => s.passThreshold
    case (None, Some(t)) => t
    case (None, None) => input.rubricThreshold
  }

  ghost predicate IsGradeOf(g: Grade, input: Input, d: Draw) {
    && g.id == d.id && g.createdAt == d.createdAt && g.history == []
    && g.submissionId == input.submissionId && g.stageId == input.stageId
    && g.rubricVersion == input.rubricVersion && g.evaluatorVersion == input.evaluatorVersion
  }

  /** The dimensions a call grades with: its own scorer's, else those of the checkpoint, else the default ones. */
  ghost predicate AreDimensionsFor(dims: seq<Dimension>, input: Input, cached: Option<Snapshot>) {
    match (input.scorer, cached)
    case (CustomScorer(own), _) => dims == own
    case (DefaultScorer, Some(Snapshot(_, _, _, _, Some(saved), _))) => dims == saved
    case (DefaultScorer, _) => AreDefaultDimensions(dims, input)
  }

  /** The grade of a run that could be scored. */
  ghost predicate IsScored(g: Grade, input: Input, cached: Option<Snapshot>) {
    && g.passThreshold == ThresholdFor(input, cached)
    && AreDimensionsFor(g.dimensions, input, cached)
    && IsWeightedMean(g.rubricScore, g.dimensions)
    && (g.status == Passed <==> g.rubricScore >= g.passThreshold)
    && (g.status == Partial <==> 0.0 < g.rubricScore < g.passThreshold)
    && (g.status == NotPassed <==> g.rubricScore < g.passThreshold && g.rubricScore <= 0.0)
    && g.feedback == ReportFeedback(g.status, g.dimensions,
                                    match input.citations { case PolicyPassed(summary) => summary case _ => None })
  }

  /** The grade of a run that failed. */
  ghost predicate IsFailedRun(g: Grade, input: Input) {
    && g.status == ExecutionFailed && g.rubricScore == 0.0 && g.dimensions == []
    && g.passThreshold == ThresholdFor(input, None) && g.feedback == RefusalFeedback(input.execution)
  }

  /**
   What a call without a stored grade answers. Unless a checkpoint says that they were passed, two checks come first: a
   stage that runs something fails the call if the run did not succeed, and required evidence must be there. Then the
   citations must not fail; what is left is scored.
   */
  ghost predicate IsAnswer(o: Outcome, input: Input, cached: Option<Snapshot>, d: Draw) {
    var skips := cached.Some? && cached.value.preflightPassed;
    if !skips && input.executable && input.execution != Succeeded then
      o.Graded? && IsGradeOf(o.grade, input, d) && IsFailedRun(o.grade, input)
    else if !skips && input.hiddenCorrect && input.evidenceRefs == [] then o == Refused(EvidenceMissing)
    else if input.citations == PolicyFailed then o == Refused(CitationPolicyViolation)
    else o.Graded? && IsGradeOf(o.grade, input, d) && IsScored(o.grade, input, cached)
  }

  /**
   What a call does, for every stored grade and checkpoint it may find. A stored grade is the answer and nothing is
   written; else the answer is as above, and is stored if it is a grade. A scored grade is stored behind a checkpoint
   if the call keeps them and the one it found does not already hold the passed checks and, where they are default
   ones, the dimensions.
   */
  lemma CallMeaning(existing: Option<Grade>, found: Option<Snapshot>, input: Input, d: Draw)
    ensures var plan := PlanCall(existing, found, input, d);
            var cached := if input.checkpoints then found else None;
            match existing
            case Some(g) => plan == Plan([], Graded(g))
            case None =>
              && IsAnswer(plan.outcome, input, cached, d)
              && (plan.outcome.Refused? ==> plan.writes == [])
              && (plan.outcome.Graded? ==>
                    plan.writes != [] && plan.writes[|plan.writes| - 1] == InsertGrade(plan.outcome.grade)
                    && (|plan.writes| == 2 <==>
                        input.checkpoints && plan.outcome.grade.status != ExecutionFailed && LacksState(cached, input))
                    && (|plan.writes| == 2 ==> SavesState(plan.writes[0], plan.outcome.grade, input, cached, d))
                    && |plan.writes| <= 2)
  {
    hide AggregateScore, DefaultDimensions, IsWeightedMean, AreDefaultDimensions, InputKey;
    PlanShape(existing, found, input, d);
    DefaultsAreDefault(input);
    AggregateIsWeightedMean(Dimensions(input, if input.checkpoints then found else None));
  }

  /** An uninterrupted call answers like this, with nothing found. */
  lemma VerdictMeaning(input: Input)
    ensures IsAnswer(Uninterrupted(input), input, None, NO_DRAW)
  {
    hide PlanCall, IsAnswer;
    CallMeaning(None, None, input, NO_DRAW);
  }

  /** The checkpoint does not say that the checks were passed, or lacks the dimensions of a default scorer. */
  predicate LacksState(cached: Option<Snapshot>, input: Input) {
    match cached
    case None => true
    case Some(s) => !s.preflightPassed || (input.scorer.DefaultScorer? && s.deterministicDimensions == None)
  }

  /** The checkpoint that goes before a scored grade. */
  ghost predicate SavesState(w: Write, g: Grade, input: Input, cached: Option<Snapshot>, d: Draw) {
    && w.SaveSnapshot? && w.snapshot.key == KeyOf(g) && w.snapshot.execution == input.execution
    && w.snapshot.preflightPassed && w.snapshot.passThreshold == g.passThreshold && w.snapshot.savedAt == d.savedAt
    && w.snapshot.deterministicDimensions
       == match input.scorer {
            case DefaultScorer => Some(g.dimensions)
            case CustomScorer(_) => match cached { case Some(s) => s.deterministicDimensions case None => None }
          }
  }
}
