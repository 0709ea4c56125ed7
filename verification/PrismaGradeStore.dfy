/** The database-backed grade store of `packages/db/src/grade-store.ts` refines the in-memory one. */
module PrismaGradeStore {
  import opened Wrappers
  import opened Keys
  import opened Grades

  // ---------------------------------------------------------------- rows

  /** What the JSON history column may hold. */
  datatype RawEntry = WellFormed(entry: OverrideEntry) | Malformed

  datatype RawHistory = NotAnArray | Entries(entries: seq<RawEntry>)

  datatype Row = Row(
    id: string, stageAttemptId: string, submissionId: Option<string>, rubricVersion: string,
    evaluatorVersion: string, passed: bool, score: Option<real>, dimensions: seq<Dimension>, history: RawHistory,
    createdAt: string)

  function KeepWellFormed(raw: seq<RawEntry>): seq<OverrideEntry> {
    if raw == [] then []
    else
      var front, last := KeepWellFormed(raw[..|raw| - 1]), raw[|raw| - 1];
      if last.WellFormed? then front + [last.entry] else front
  }

  function NormalizeHistory(raw: RawHistory): seq<OverrideEntry> {
    if raw.NotAnArray? then [] else KeepWellFormed(raw.entries)
  }

  function ToRaw(history: seq<OverrideEntry>): RawHistory {
    Entries(seq(|history|, i requires 0 <= i < |history| => WellFormed(history[i])))
  }

  /** The status the latest override set, if any did. */
  function LastStatus(history: seq<OverrideEntry>): Option<Status> {
    if history == [] then None
    else
      var last := history[|history| - 1];
      if last.override.status.Some? then last.override.status else LastStatus(history[..|history| - 1])
  }

  function StatusOf(row: Row): Status {
    var last := LastStatus(NormalizeHistory(row.history));
    if last.Some? then last.value else if row.passed then Passed else NotPassed
  }

  /** The replay of the history, newest entry first. */
  method StatusFromRow(row: Row, history: seq<OverrideEntry>) returns (status: Status)
    requires history == NormalizeHistory(row.history)
    ensures status == StatusOf(row)
  {
    var i := |history| - 1;
    assert history[..|history|] == history;
    while i >= 0
      invariant -1 <= i < |history|
      invariant LastStatus(history[..i + 1]) == LastStatus(history)
    {
      assert history[..i + 1][..i] == history[..i];
      if history[i].override.status.Some? {
        return history[i].override.status.value;
      }
      i := i - 1;
    }
    status := if row.passed then Passed else NotPassed;
  }

  function ToGrade(row: Row): Grade {
    Grade(row.id, if row.submissionId.Some? then row.submissionId.value else "", row.stageAttemptId,
          row.rubricVersion, row.evaluatorVersion, StatusOf(row), if row.score.Some? then row.score.value else 0.0,
          0.0, row.dimensions, NoFeedback, NormalizeHistory(row.history), row.createdAt)
  }

  /** How any row of the table reads: missing values as defaults, no threshold, no feedback. */
  lemma RowReading(row: Row)
    ensures var g := ToGrade(row);
            && g.id == row.id && g.stageId == row.stageAttemptId && g.createdAt == row.createdAt
            && g.rubricVersion == row.rubricVersion && g.evaluatorVersion == row.evaluatorVersion
            && g.submissionId == (match row.submissionId { case Some(id) => id case None => "" })
            && g.rubricScore == (match row.score { case Some(x) => x case None => 0.0 })
            && g.dimensions == row.dimensions && g.passThreshold == 0.0 && g.feedback == NoFeedback
            && (forall k | 0 <= k < |g.history| && IsLatestStatus(g.history, k) ::
                  Some(g.status) == g.history[k].override.status)
            && ((forall k | 0 <= k < |g.history| :: !IsLatestStatus(g.history, k)) ==>
                  g.status == if row.passed then Passed else NotPassed)
  {
    hide NormalizeHistory;
    LatestStatusIsLast(NormalizeHistory(row.history));
  }

  /** Entry `k` sets a status, and no later one does. */
  predicate IsLatestStatus(history: seq<OverrideEntry>, k: nat) {
    && k < |history| && history[k].override.status != None
    && forall l | k < l < |history| :: history[l].override.status == None
  }

  lemma {:induction false} LatestStatusIsLast(history: seq<OverrideEntry>)
    ensures forall k: nat | IsLatestStatus(history, k) :: LastStatus(history) == history[k].override.status
    ensures LastStatus(history) != None ==> exists k: nat :: IsLatestStatus(history, k)
  {
    if history != [] {
      var n := |history| - 1;
      LatestStatusIsLast(history[..n]);
      if history[n].override.status != None {
        assert IsLatestStatus(history, n);
      } else {
        forall k: nat ensures IsLatestStatus(history, k) <==> IsLatestStatus(history[..n], k) {
          assert k < n ==> history[..n][k] == history[k];
        }
      }
    }
  }

  function ToRow(g: Grade): Row {
    Row(g.id, g.stageId, if g.submissionId == "" then None else Some(g.submissionId), g.rubricVersion,
        g.evaluatorVersion, g.status == Passed, Some(g.rubricScore), g.dimensions, ToRaw(g.history), g.createdAt)
  }

  // ---------------------------------------------------------------- the table

  /** The grades by id, with the compound unique index; rows without a submission are not in it. */
  datatype Table = Table(rows: map<string, Row>, index: map<GradeTuple, string>)

  const EMPTY_TABLE := Table(map[], map[])

  function TupleOf(g: Grade): GradeTuple {
    GradeTuple(g.submissionId, g.rubricVersion, g.evaluatorVersion)
  }

  function Find(t: Table, key: string): Option<Grade> {
    var parsed := ParseIdempotencyKey(key);
    if parsed.None? || parsed.value !in t.index || t.index[parsed.value] !in t.rows then None
    else Some(ToGrade(t.rows[t.index[parsed.value]]))
  }

  /** `None` is the violated unique constraint. */
  function Create(t: Table, g: Grade): Option<Table> {
    if g.id in t.rows || (g.submissionId != "" && TupleOf(g) in t.index) then None
    else Some(Table(t.rows[g.id := ToRow(g)],
                    if g.submissionId == "" then t.index else t.index[TupleOf(g) := g.id]))
  }

  function OverrideRow(row: Row, entry: OverrideEntry): Row {
    var patch := entry.override;
    row.(history := ToRaw(NormalizeHistory(row.history) + [entry]),
         passed := if patch.status.Some? then patch.status.value == Passed else row.passed,
         score := if patch.rubricScore.Some? then patch.rubricScore else row.score)
  }

  /** `None` is the thrown `GradeNotFoundError`. */
  function Update(t: Table, id: string, entry: OverrideEntry): (Option<Grade>, Table) {
    if id !in t.rows then (None, t)
    else
      var row := OverrideRow(t.rows[id], entry);
      (Some(ToGrade(row)), t.(rows := t.rows[id := row]))
  }

  /** The store over the grade table; a thrown error leaves the table as it was. */
  class PrismaStore {
    var rows: map<string, Row>
    var index: map<GradeTuple, string>

    ghost function Abstract(): Table
      reads this
    {
      Table(rows, index)
    }

    constructor ()
      ensures Abstract() == EMPTY_TABLE
    {
      rows, index := map[], map[];
    }

    method FindGrade(key: string) returns (g: Option<Grade>)
      ensures g == Find(Abstract(), key)
    {
      hide ToGrade, ParseIdempotencyKey;
      var parsed := ParseIdempotencyKey(key);
      if parsed.None? || parsed.value !in index || index[parsed.value] !in rows { return None; }
      g := Some(ToGrade(rows[index[parsed.value]]));
    }

    /** `None` is the violated unique constraint. */
    method InsertGrade(g: Grade) returns (stored: Option<Grade>)
      modifies this
      ensures stored.Some? <==> Create(old(Abstract()), g).Some?
      ensures Abstract() == if stored.Some? then Create(old(Abstract()), g).value else old(Abstract())
      ensures stored.Some? ==> stored.value == ToGrade(ToRow(g))
    {
      hide ToGrade, ToRow;
      if g.id in rows || (g.submissionId != "" && TupleOf(g) in index) { return None; }
      var row := ToRow(g);
      rows := rows[g.id := row];
      if g.submissionId != "" {
        index := index[TupleOf(g) := g.id];
      }
      stored := Some(ToGrade(row));
    }

    method AppendGradeOverride(id: string, entry: OverrideEntry) returns (r: Option<Grade>)
      modifies this
      ensures (r, Abstract()) == Update(old(Abstract()), id, entry)
    {
      hide ToGrade, NormalizeHistory, ToRaw;
      if id !in rows { return None; }
      var row := rows[id];
      var history := NormalizeHistory(row.history);
      var updated := row.(history := ToRaw(history + [entry]));
      if entry.override.status.Some? {
        updated := updated.(passed := entry.override.status.value == Passed);
      }
      if entry.override.rubricScore.Some? {
        updated := updated.(score := entry.override.rubricScore);
      }
      rows := rows[id := updated];
      r := Some(ToGrade(updated));
    }
  }

  // ---------------------------------------------------------------- refinement

  /** A row stands for a grade of the in-memory store. */
  ghost predicate Fits(row: Row, g: Grade) {
    && row.id == g.id && row.stageAttemptId == g.stageId
    && row.submissionId == (if g.submissionId == "" then None else Some(g.submissionId))
    && row.rubricVersion == g.rubricVersion && row.evaluatorVersion == g.evaluatorVersion
    && row.score == Some(g.rubricScore) && row.dimensions == g.dimensions && row.createdAt == g.createdAt
    && NormalizeHistory(row.history) == g.history
    && (row.passed <==> g.status == Passed)
  }

  /** The grade as the table shows it: no threshold, no feedback, and only statuses it can express. */
  function Shown(g: Grade): Grade {
    var last := LastStatus(g.history);
    g.(status := if last.Some? then last.value else if g.status == Passed then Passed else NotPassed,
       passThreshold := 0.0, feedback := NoFeedback)
  }

  lemma {:induction false} KeepOfRaw(history: seq<OverrideEntry>)
    ensures NormalizeHistory(ToRaw(history)) == history
  {
    if history != [] {
      var front := history[..|history| - 1];
      KeepOfRaw(front);
      assert ToRaw(history).entries[..|history| - 1] == ToRaw(front).entries;
    }
  }

  lemma FittingRowShows(row: Row, g: Grade)
    requires Fits(row, g)
    ensures ToGrade(row) == Shown(g)
  {
    hide NormalizeHistory, LastStatus;
  }

  lemma CreatedRowFits(g: Grade)
    ensures Fits(ToRow(g), g)
  {
    KeepOfRaw(g.history);
    hide NormalizeHistory, ToRaw, LastStatus;
  }

  lemma OverriddenRowFits(row: Row, g: Grade, entry: OverrideEntry)
    requires Fits(row, g)
    ensures Fits(OverrideRow(row, entry), Overridden(g, entry))
  {
    KeepOfRaw(g.history + [entry]);
    hide NormalizeHistory, ToRaw, LastStatus;
  }

  // ---------------------------------------------------------------- what the two agree on

  /** Only the statuses the boolean column can tell apart. */
  predicate Storable(s: Status) {
    s == Passed || s == NotPassed
  }

  /** The status is the one the latest override set, if any did: so it is for a grade without overrides. */
  ghost predicate StatusFollowsHistory(g: Grade) {
    LastStatus(g.history).Some? ==> g.status == LastStatus(g.history).value
  }

  /** All but threshold, feedback and odd statuses. */
  ghost predicate Agree(view: Grade, g: Grade) {
    && view == g.(status := view.status, passThreshold := 0.0, feedback := NoFeedback)
    && (view.status == Passed <==> g.status == Passed)
    && (view.status == g.status <==> Storable(g.status) || LastStatus(g.history).Some?)
  }

  /** What the table shows agrees with the grade if the status follows the history. */
  lemma ShownAgrees(g: Grade)
    requires StatusFollowsHistory(g)
    ensures Agree(Shown(g), g)
  {
    hide LastStatus;
  }

  lemma LastStatusOneMore(history: seq<OverrideEntry>, entry: OverrideEntry)
    ensures LastStatus(history + [entry])
         == if entry.override.status.Some? then entry.override.status else LastStatus(history)
  {
    assert (history + [entry])[..|history|] == history;
  }

  // ---------------------------------------------------------------- the refinement

  /** The index holds the rows that have a submission, each under its tuple. */
  ghost predicate IndexFits(t: Table) {
    && (forall tuple | tuple in t.index :: t.index[tuple] in t.rows && HasTuple(t.rows[t.index[tuple]], tuple))
    && (forall id, tuple | id in t.rows && HasTuple(t.rows[id], tuple) :: tuple in t.index && t.index[tuple] == id)
  }

  ghost predicate HasTuple(row: Row, tuple: GradeTuple) {
    row.submissionId == Some(tuple.submissionId) && row.rubricVersion == tuple.rubricVersion
    && row.evaluatorVersion == tuple.evaluatorVersion
  }

  ghost predicate Refines(t: Table, st: Store) {
    && Consistent(st) && IndexFits(t)
    && t.rows.Keys == st.byId.Keys
    && forall id | id in t.rows :: Fits(t.rows[id], st.byId[id])
  }

  lemma TupleOfRow(row: Row, g: Grade, tuple: GradeTuple)
    requires Fits(row, g)
    ensures HasTuple(row, tuple) <==> tuple == TupleOf(g) && g.submissionId != ""
  {
  }

  // ---------------------------------------------------------------- runs

  datatype Op = InsertOp(grade: Grade) | OverrideOp(id: string, entry: OverrideEntry)

  /** New keys and new ids only. */
  ghost predicate Acceptable(st: Store, op: Op) {
    op.InsertOp? ==> FindByKey(st, KeyOf(op.grade)).None? && op.grade.id !in st.byId
  }

  function InMemory(st: Store, op: Op): Store {
    match op
    case InsertOp(g) => Insert(st, g)
    case OverrideOp(id, entry) => AppendOverride(st, id, entry).1
  }

  function InTable(t: Table, op: Op): Table {
    match op
    case InsertOp(g) => if Create(t, g).Some? then Create(t, g).value else t
    case OverrideOp(id, entry) => Update(t, id, entry).1
  }

  function AfterInMemory(ops: seq<Op>): Store {
    if ops == [] then EMPTY_STORE else InMemory(AfterInMemory(ops[..|ops| - 1]), ops[|ops| - 1])
  }

  function AfterInTable(ops: seq<Op>): Table {
    if ops == [] then EMPTY_TABLE else InTable(AfterInTable(ops[..|ops| - 1]), ops[|ops| - 1])
  }

  ghost predicate AllAcceptable(ops: seq<Op>) {
    forall i | 0 <= i < |ops| :: Acceptable(AfterInMemory(ops[..i]), ops[i])
  }

  lemma InsertRefines(t: Table, st: Store, g: Grade)
    requires Refines(t, st) && Acceptable(st, InsertOp(g))
    ensures Create(t, g).Some? && Refines(Create(t, g).value, Insert(st, g))
  {
    hide Fits, ToRow, TupleOf, IndexFits, Consistent;
    InsertKeepsConsistent(st, g);
    CreatedRowFits(g);
    NewTuple(t, st, g);
    IndexGrows(t, g);
  }

  lemma NewTuple(t: Table, st: Store, g: Grade)
    requires Refines(t, st) && FindByKey(st, KeyOf(g)).None?
    ensures TupleOf(g) !in t.index
  {
    hide Fits, HasTuple;
    if TupleOf(g) in t.index {
      var id := t.index[TupleOf(g)];
      TupleOfRow(t.rows[id], st.byId[id], TupleOf(g));
      assert false;
    }
  }

  lemma IndexGrows(t: Table, g: Grade)
    requires IndexFits(t) && TupleOf(g) !in t.index && g.id !in t.rows && Fits(ToRow(g), g)
    ensures Create(t, g).Some? && IndexFits(Create(t, g).value)
  {
    hide ToRow, Fits, HasTuple, TupleOf;
    forall tuple ensures HasTuple(ToRow(g), tuple) <==> tuple == TupleOf(g) && g.submissionId != "" {
      TupleOfRow(ToRow(g), g, tuple);
    }
  }

  lemma OverrideRefines(t: Table, st: Store, id: string, entry: OverrideEntry)
    requires Refines(t, st)
    ensures Refines(Update(t, id, entry).1, AppendOverride(st, id, entry).1)
  {
    hide Fits, ToGrade, OverrideRow, Overridden, Consistent, IndexFits;
    OverrideKeepsConsistent(st, id, entry);
    if id in t.rows {
      OverriddenRowFits(t.rows[id], st.byId[id], entry);
      IndexKept(t, id, entry);
    }
  }

  lemma IndexKept(t: Table, id: string, entry: OverrideEntry)
    requires IndexFits(t) && id in t.rows
    ensures IndexFits(t.(rows := t.rows[id := OverrideRow(t.rows[id], entry)]))
  {
    assert forall tuple :: HasTuple(OverrideRow(t.rows[id], entry), tuple) == HasTuple(t.rows[id], tuple);
    hide OverrideRow, HasTuple;
  }

  lemma StepRefines(t: Table, st: Store, op: Op)
    requires Refines(t, st) && Acceptable(st, op)
    ensures Refines(InTable(t, op), InMemory(st, op))
  {
    hide Refines, Acceptable, Create, Update, Insert, AppendOverride;
    match op
    case InsertOp(g) => InsertRefines(t, st, g);
    case OverrideOp(id, entry) => OverrideRefines(t, st, id, entry);
  }

  /** An override fails in both stores or in neither, and otherwise the table's answer shows the grade. */
  lemma OverridesAgree(t: Table, st: Store, id: string, entry: OverrideEntry)
    requires Refines(t, st)
    ensures var (view, _) := Update(t, id, entry);
            var (g, _) := AppendOverride(st, id, entry);
            (view.Some? <==> g.Some?) && (g.Some? ==> view.value == Shown(g.value))
  {
    hide Fits, ToGrade, OverrideRow, Overridden, Consistent, Shown;
    if id in t.rows {
      OverriddenRowFits(t.rows[id], st.byId[id], entry);
      FittingRowShows(OverrideRow(t.rows[id], entry), Overridden(st.byId[id], entry));
    }
  }

  /** After any sequence of inserts with new keys and ids and of overrides, the table stands for the memory. */
  lemma {:induction false} TableRefinesMemory(ops: seq<Op>)
    requires AllAcceptable(ops)
    ensures Refines(AfterInTable(ops), AfterInMemory(ops))
  {
    if ops == [] {
      EmptyRefines();
    } else {
      hide Refines, Acceptable, InTable, InMemory;
      var n := |ops| - 1;
      FrontAcceptable(ops);
      TableRefinesMemory(ops[..n]);
      StepRefines(AfterInTable(ops[..n]), AfterInMemory(ops[..n]), ops[n]);
    }
  }

  lemma EmptyRefines()
    ensures Refines(EMPTY_TABLE, EMPTY_STORE)
  {
  }

  lemma FrontAcceptable(ops: seq<Op>)
    requires AllAcceptable(ops) && ops != []
    ensures AllAcceptable(ops[..|ops| - 1]) && Acceptable(AfterInMemory(ops[..|ops| - 1]), ops[|ops| - 1])
  {
    hide Acceptable, AfterInMemory;
    assert forall i | 0 <= i < |ops| - 1 :: ops[..|ops| - 1][..i] == ops[..i];
  }

  /** After any such sequence both stores hold the same grades by id, and the table shows each of them. */
  lemma GradesAgree(ops: seq<Op>, id: string)
    requires AllAcceptable(ops)
    ensures var t, st := AfterInTable(ops), AfterInMemory(ops);
            && (id in t.rows <==> id in st.byId)
            && (id in st.byId ==> ToGrade(t.rows[id]) == Shown(st.byId[id]))
  {
    hide Fits, ToGrade, AfterInTable, AfterInMemory, AllAcceptable, Shown, Consistent, IndexFits;
    TableRefinesMemory(ops);
    var t, st := AfterInTable(ops), AfterInMemory(ops);
    if id in t.rows {
      FittingRowShows(t.rows[id], st.byId[id]);
    }
  }

  /**
   The two stores under one key, whatever it is: after any such sequence the table finds a grade if and only if
   memory does and the grade's tuple can be parsed back from its key, and then it shows that grade.
   */
  lemma StoresAgree(ops: seq<Op>, key: string)
    requires AllAcceptable(ops)
    ensures var view, g := Find(AfterInTable(ops), key), FindByKey(AfterInMemory(ops), key);
            && (view.Some? <==> g.Some? && Parseable(TupleOf(g.value)))
            && (view.Some? ==> view.value == Shown(g.value))
  {
    hide Parseable, Fits, ToGrade, AfterInTable, AfterInMemory, AllAcceptable, ParseIdempotencyKey, Shown, HasTuple;
    var t, st := AfterInTable(ops), AfterInMemory(ops);
    TableRefinesMemory(ops);
    ParsedHasKey(key);
    if key in st.byKey {
      var g := st.byKey[key];
      KeyRoundTrip(TupleOf(g));
      TupleOfRow(t.rows[g.id], g, TupleOf(g));
      ParseableHasSubmission(g);
      FittingRowShows(t.rows[g.id], g);
    }
    var parsed := ParseIdempotencyKey(key);
    if parsed.Some? && parsed.value in t.index {
      var id := t.index[parsed.value];
      TupleOfRow(t.rows[id], st.byId[id], parsed.value);
      assert FindByKey(st, KeyOf(st.byId[id])) == Some(st.byId[id]);
    }
  }

  lemma ParseableHasSubmission(g: Grade)
    ensures Parseable(TupleOf(g)) ==> g.submissionId != ""
  {
  }

  /**
   If every grade comes in with a status that follows its history, as one without overrides does, then the stores
   agree on every grade's history and score, on whether it is passed, and on the full status exactly when it is
   passed or failed, or some override has set it.
   */
  lemma StatusesAgree(ops: seq<Op>, id: string)
    requires AllAcceptable(ops) && forall i | 0 <= i < |ops| && ops[i].InsertOp? :: StatusFollowsHistory(ops[i].grade)
    ensures var t, st := AfterInTable(ops), AfterInMemory(ops);
            && (id in t.rows <==> id in st.byId)
            && (id in st.byId ==> Agree(ToGrade(t.rows[id]), st.byId[id]))
  {
    hide ToGrade, AfterInTable, AfterInMemory, AllAcceptable, Shown, Agree, StatusFollowsHistory;
    GradesAgree(ops, id);
    StatusesFollow(ops, id);
    var st := AfterInMemory(ops);
    if id in st.byId { ShownAgrees(st.byId[id]); }
  }

  lemma {:induction false} StatusesFollow(ops: seq<Op>, id: string)
    requires forall i | 0 <= i < |ops| && ops[i].InsertOp? :: StatusFollowsHistory(ops[i].grade)
    ensures id in AfterInMemory(ops).byId ==> StatusFollowsHistory(AfterInMemory(ops).byId[id])
  {
    hide StatusFollowsHistory, Overridden;
    if ops != [] {
      var st, op := AfterInMemory(ops[..|ops| - 1]), ops[|ops| - 1];
      StatusesFollow(ops[..|ops| - 1], id);
      if op.OverrideOp? && op.id == id && id in st.byId {
        OverrideFollows(st.byId[id], op.entry);
      }
    }
  }

  lemma OverrideFollows(g: Grade, entry: OverrideEntry)
    requires StatusFollowsHistory(g)
    ensures StatusFollowsHistory(Overridden(g, entry))
  {
    LastStatusOneMore(g.history, entry);
    hide LastStatus;
  }

  // ---------------------------------------------------------------- where they differ

  /** A grade without a submission is stored by both, and found by its key in memory only. */
  lemma EmptySubmissionIsNotFound(g: Grade)
    requires g.submissionId == ""
    ensures var ops := [InsertOp(g)];
            && AllAcceptable(ops) && g.id in AfterInTable(ops).rows
            && FindByKey(AfterInMemory(ops), KeyOf(g)) == Some(g) && Find(AfterInTable(ops), KeyOf(g)) == None
  {
    hide ToRow, Parseable, Find;
    var ops := [InsertOp(g)];
    assert ops[..0] == [];
    assert AfterInMemory(ops) == Insert(EMPTY_STORE, g);
    assert AfterInTable(ops) == Create(EMPTY_TABLE, g).value;
    StoresAgree(ops, KeyOf(g));
    ParseableHasSubmission(g);
  }

  /** A partial grade reads back as failed until an override says otherwise. */
  lemma PartialReadsBackAsFailed(g: Grade)
    requires g.status == Partial && g.history == []
    ensures ToGrade(ToRow(g)).status == NotPassed
  {
    KeepOfRaw([]);
  }

  /**
   A second insert under one key replaces the grade in memory; the table refuses it, unless the grades have no
   submission and different ids.
   */
  lemma DuplicateInsertsDiffer(t: Table, st: Store, g: Grade, h: Grade)
    requires Refines(t, st) && Acceptable(st, InsertOp(g)) && TupleOf(h) == TupleOf(g)
    ensures FindByKey(Insert(Insert(st, g), h), KeyOf(g)) == Some(h)
    ensures Create(t, g).Some?
    ensures Create(Create(t, g).value, h) == None <==> g.submissionId != "" || h.id == g.id || h.id in t.rows
  {
    hide Refines, ToRow, Acceptable;
    InsertRefines(t, st, g);
  }
}
