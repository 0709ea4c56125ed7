/** Grades and the in-memory grade store of `packages/evaluator-sdk/src/idempotency.ts`. */
module Grades {
  import opened Wrappers
  import opened Keys

  datatype Status = Passed | Partial | NotPassed | Pending | ExecutionFailed

  datatype ExecutionStatus = Succeeded | Timeout | Oom | Crash | ExitNonzero

  datatype Dimension = Dimension(id: string, caption: string, score: real, weight: real)

  /** What the learner is told, before it is put into words. */
  datatype Feedback =
    | RefusalFeedback(execution: ExecutionStatus)
    | ReportFeedback(status: Status, dimensions: seq<Dimension>, citations: Option<string>)
    | ReviewerFeedback(text: string)
    | NoFeedback

  datatype Override = Override(status: Option<Status>, rubricScore: Option<real>, feedback: Option<string>)

  datatype OverrideEntry = OverrideEntry(reviewerId: string, note: string, appliedAt: string, override: Override)

  datatype Grade = Grade(
    id: string, submissionId: string, stageId: string, rubricVersion: string, evaluatorVersion: string,
    status: Status, rubricScore: real, passThreshold: real, dimensions: seq<Dimension>, feedback: Feedback,
    history: seq<OverrideEntry>, createdAt: string)

  function KeyOf(g: Grade): string {
    IdempotencyKey(GradeTuple(g.submissionId, g.rubricVersion, g.evaluatorVersion))
  }

  // ---------------------------------------------------------------- the store

  datatype Store = Store(byKey: map<string, Grade>, byId: map<string, Grade>)

  const EMPTY_STORE := Store(map[], map[])

  function FindByKey(st: Store, key: string): Option<Grade> {
    if key in st.byKey then Some(st.byKey[key]) else None
  }

  function Insert(st: Store, g: Grade): Store {
    Store(st.byKey[KeyOf(g) := g], st.byId[g.id := g])
  }

  /** The grade with the entry appended and its patch applied to the surface fields. */
  function Overridden(g: Grade, entry: OverrideEntry): Grade {
    var patch := entry.override;
    g.(history := g.history + [entry],
       status := if patch.status.Some? then patch.status.value else g.status,
       rubricScore := if patch.rubricScore.Some? then patch.rubricScore.value else g.rubricScore,
       feedback := if patch.feedback.Some? then ReviewerFeedback(patch.feedback.value) else g.feedback)
  }

  /** An override sets status, score and feedback where its patch says so, adds itself to the history, and no more. */
  lemma OverrideSetsPatchedFields(g: Grade, entry: OverrideEntry)
    ensures var h, patch := Overridden(g, entry), entry.override;
            && h.(status := g.status, rubricScore := g.rubricScore, feedback := g.feedback, history := g.history) == g
            && h.history == g.history + [entry]
            && (match patch.status { case Some(s) => h.status == s case None => h.status == g.status })
            && (match patch.rubricScore {
                  case Some(x) => h.rubricScore == x case None => h.rubricScore == g.rubricScore })
            && (match patch.feedback {
                  case Some(text) => h.feedback == ReviewerFeedback(text) case None => h.feedback == g.feedback })
  {
  }

  /** `None` is the thrown "grade not found". */
  function AppendOverride(st: Store, id: string, entry: OverrideEntry): (Option<Grade>, Store) {
    if id !in st.byId then (None, st)
    else
      var updated := Overridden(st.byId[id], entry);
      (Some(updated), Store(st.byKey[KeyOf(updated) := updated], st.byId[id := updated]))
  }

  class InMemoryGradeStore {
    var byKey: map<string, Grade>
    var byId: map<string, Grade>

    ghost function Abstract(): Store
      reads this
    {
      Store(byKey, byId)
    }

    constructor ()
      ensures Abstract() == EMPTY_STORE
    {
      byKey, byId := map[], map[];
    }

    method FindGrade(key: string) returns (g: Option<Grade>)
      ensures g == FindByKey(Abstract(), key)
    {
      g := if key in byKey then Some(byKey[key]) else None;
    }

    method InsertGrade(g: Grade) returns (stored: Grade)
      modifies this
      ensures Abstract() == Insert(old(Abstract()), g) && stored == g
    {
      byKey := byKey[KeyOf(g) := g];
      byId := byId[g.id := g];
      stored := g;
    }

    method AppendGradeOverride(id: string, entry: OverrideEntry) returns (r: Option<Grade>)
      modifies this
      ensures (r, Abstract()) == AppendOverride(old(Abstract()), id, entry)
    {
      if id !in byId { return None; }
      var updated := Overridden(byId[id], entry);
      byId := byId[id := updated];
      byKey := byKey[KeyOf(updated) := updated];
      r := Some(updated);
    }
  }

  // ---------------------------------------------------------------- one grade per key

  /** The two indexes agree: every grade by id is the one its key finds, and the other way round. */
  ghost predicate Consistent(st: Store) {
    && (forall id | id in st.byId :: st.byId[id].id == id && FindByKey(st, KeyOf(st.byId[id])) == Some(st.byId[id]))
    && (forall key | key in st.byKey ::
          KeyOf(st.byKey[key]) == key && st.byKey[key].id in st.byId && st.byId[st.byKey[key].id] == st.byKey[key])
  }

  /** In a consistent store no two grades share a key. */
  lemma OneGradePerKey(st: Store, a: string, b: string)
    requires Consistent(st) && a in st.byId && b in st.byId && KeyOf(st.byId[a]) == KeyOf(st.byId[b])
    ensures a == b
  {
    assert FindByKey(st, KeyOf(st.byId[a])) == Some(st.byId[a]);
  }

  lemma InsertKeepsConsistent(st: Store, g: Grade)
    requires Consistent(st) && FindByKey(st, KeyOf(g)).None? && g.id !in st.byId
    ensures Consistent(Insert(st, g))
  {
  }

  lemma OverrideKeepsConsistent(st: Store, id: string, entry: OverrideEntry)
    requires Consistent(st)
    ensures Consistent(AppendOverride(st, id, entry).1)
  {
  }
}
