/**
 Account deletion and data export: `apps/web/lib/account-cascade.ts`, over the tables of
 `packages/db/prisma/schema.prisma` and its referential actions.
 */
module AccountCascade {
  import opened Wrappers
  import opened AccountSchema

  // ---------------------------------------------------------------- what a deletion touches

  /** The ids collected on the way down from a user. */
  datatype Scope = Scope(enrollments: set<string>, attempts: set<string>, submissions: set<string>,
                         threads: set<string>)

  function ScopeOf(db: Db, userId: string): Scope {
    var enrollments := ChildrenOf(db, Enrollment, User, {userId});
    var attempts := ChildrenOf(db, StageAttempt, Enrollment, enrollments);
    Scope(enrollments, attempts, ChildrenOf(db, Submission, StageAttempt, attempts),
          ChildrenOf(db, MentorThread, Enrollment, enrollments))
  }

  /** The `where` clause of the statement on a table. */
  predicate Hit(name: Name, id: string, row: Row, userId: string, email: string, s: Scope) {
    match name
    case Run => PointsInto(row, Submission, s.submissions)
    case Grade | Submission => PointsInto(row, StageAttempt, s.attempts)
    case StageAttempt | MentorThread | NodeTraversal => PointsInto(row, Enrollment, s.enrollments)
    case MentorMessage => PointsInto(row, MentorThread, s.threads)
    case VerificationToken => row.email == email
    case User => id == userId
    case _ => PointsInto(row, User, {userId})
  }

  function HitRows(name: Name, t: Table, userId: string, email: string, s: Scope): Table {
    map id | id in t && Hit(name, id, t[id], userId, email, s) :: t[id]
  }

  function AnonymizedEmail(userId: string): string {
    "anonymized-" + userId + "@deleted.invalid"
  }

  /** Events and reviews lose the user, the user row its identity; every other row goes. */
  function Keeps(name: Name): bool {
    name == Event || name == Review || name == User
  }

  function Changed(name: Name, row: Row, userId: string): Row {
    if name == User then row.(email := AnonymizedEmail(userId), profile := map[]) else row.(refs := row.refs - {User})
  }

  function NewTable(name: Name, t: Table, userId: string, email: string, s: Scope): Table {
    map id | id in t && (Keeps(name) || !Hit(name, id, t[id], userId, email, s)) ::
      if Hit(name, id, t[id], userId, email, s) then Changed(name, t[id], userId) else t[id]
  }

  /** The order in which the tables are dealt with: children before their parents, the user last. */
  const PLAN: seq<Name> := [
    Session, Account, DeviceCodeFlow, VerificationToken, Run, Grade, Submission, StageAttempt,
    MentorMessage, MentorThread, NodeTraversal, ShareCard, Enrollment, Entitlement, Membership,
    Event, Review, User]

  /** One statement of the transaction, with what the database does below the rows it deletes. */
  function Perform(name: Name, db: Db, userId: string, email: string, s: Scope): Option<Db> {
    if Keeps(name) then Some(if name in db then db[name := NewTable(name, db[name], userId, email, s)] else db)
    else Remove(db, name, HitRows(name, T(db, name), userId, email, s).Keys)
  }

  /** `None` once a statement has been refused. */
  function PerformAll(plan: seq<Name>, db: Db, userId: string, email: string, s: Scope): Option<Db> {
    if plan == [] then Some(db)
    else
      var front := PerformAll(plan[..|plan| - 1], db, userId, email, s);
      if front.None? then None else Perform(plan[|plan| - 1], front.value, userId, email, s)
  }

  function EmailOf(db: Db, userId: string): string {
    if userId in T(db, User) then T(db, User)[userId].email else ""
  }

  /** The database after the first `k` statements. */
  function AfterSteps(db: Db, userId: string, k: nat): Option<Db>
    requires k <= |PLAN|
  {
    PerformAll(PLAN[..k], db, userId, EmailOf(db, userId), ScopeOf(db, userId))
  }

  class Client {
    var db: Db

    constructor (db: Db)
      ensures this.db == db
    {
      this.db := db;
    }

    /** `deleteMany`, `updateMany` or `update` on one table: how many rows it touched, or the database's refusal. */
    method Statement(name: Name, userId: string, email: string, s: Scope) returns (count: Option<nat>)
      modifies this
      ensures Perform(name, old(db), userId, email, s).None? ==> count == None && db == old(db)
      ensures Perform(name, old(db), userId, email, s).Some? ==>
                && db == Perform(name, old(db), userId, email, s).value
                && count == Some(|HitRows(name, T(old(db), name), userId, email, s)|)
    {
      hide Remove, HitRows;
      var next := Perform(name, db, userId, email, s);
      if next.None? { return None; }
      count := Some(|HitRows(name, T(db, name), userId, email, s)|);
      db := next.value;
    }

    /** The statements of part of the plan; one whose list of ids is empty is skipped. */
    method Sweep(lo: nat, hi: nat, userId: string, email: string, s: Scope, counts: map<Name, nat>,
                 ghost before: Db) returns (out: map<Name, nat>)
      requires lo <= hi <= |PLAN| && AfterSteps(before, userId, lo) == Some(db) && email == EmailOf(before, userId)
      requires forall k | lo <= k < hi :: ListedIds(PLAN[k], s) == ListedIds(PLAN[k], ScopeOf(before, userId))
      requires CountsUpTo(counts, PLAN[..lo], before, userId)
      modifies this
      ensures AfterSteps(before, userId, hi) == Some(db)
      ensures CountsUpTo(out, PLAN[..hi], before, userId)
    {
      hide Hit, HitRows, ListedIds, Perform, AfterSteps, CountsUpTo, NewTable, ScopeOf, EmailOf;
      out := counts;
      for k := lo to hi
        invariant AfterSteps(before, userId, k) == Some(db)
        invariant CountsUpTo(out, PLAN[..k], before, userId)
      {
        var name := PLAN[k];
        ListedIdsDecide(name, db, userId, email, s, ScopeOf(before, userId));
        NextStatement(before, userId, k);
        NextCount(out, before, userId, k);
        if ListedIds(name, s) == Some({}) {
          NothingListed(name, db, userId, email, s);
          out := out[name := 0];
        } else {
          var count := Statement(name, userId, email, s);
          out := out[name := count.value];
        }
      }
    }

    /** `None` is the thrown "user not found"; no statement is ever refused. */
    method DeleteAccount(userId: string) returns (counts: Option<map<Name, nat>>)
      modifies this
      ensures userId !in T(old(db), User) ==> counts == None && db == old(db)
      ensures userId in T(old(db), User) ==>
                && AfterSteps(old(db), userId, |PLAN|) == Some(db) && counts.Some?
                && forall name :: name in counts.value &&
                     counts.value[name] == |HitRows(name, T(old(db), name), userId, EmailOf(old(db), userId),
                                                    ScopeOf(old(db), userId))|
    {
      hide Hit, ScopeOf, HitRows, AfterSteps, EmailOf, ChildrenOf;
      if userId !in T(db, User) { return None; }
      ghost var before := db;
      var email := EmailOf(db, userId);
      NothingDone(before, userId);
      var out := Sweep(0, 4, userId, email, Scope({}, {}, {}, {}), map[], before);
      FoundOnTheWay(before, userId);
      var enrollments := ChildrenOf(db, Enrollment, User, {userId});
      var attempts := if enrollments == {} then {} else ChildrenOf(db, StageAttempt, Enrollment, enrollments);
      var submissions := if attempts == {} then {} else ChildrenOf(db, Submission, StageAttempt, attempts);
      out := Sweep(4, 8, userId, email, Scope(enrollments, attempts, submissions, {}), out, before);
      var threads := if enrollments == {} then {} else ChildrenOf(db, MentorThread, Enrollment, enrollments);
      out := Sweep(8, |PLAN|, userId, email, Scope(enrollments, attempts, submissions, threads), out, before);
      assert PLAN[..|PLAN|] == PLAN;
      PlanCoversEverything();
      counts := Some(out);
    }
  }

  /** The list of ids in the `where` clause of a statement, if it has one. */
  function ListedIds(name: Name, s: Scope): Option<set<string>> {
    match name
    case Run => Some(s.submissions)
    case Grade | Submission => Some(s.attempts)
    case StageAttempt | MentorThread | NodeTraversal => Some(s.enrollments)
    case MentorMessage => Some(s.threads)
    case _ => None
  }

  lemma ListedIdsDecide(name: Name, db: Db, userId: string, email: string, s: Scope, r: Scope)
    requires ListedIds(name, s) == ListedIds(name, r)
    ensures HitRows(name, T(db, name), userId, email, s) == HitRows(name, T(db, name), userId, email, r)
    ensures Perform(name, db, userId, email, s) == Perform(name, db, userId, email, r)
  {
    hide Hit, ListedIds, Remove;
    var t := T(db, name);
    forall id | id in t ensures Hit(name, id, t[id], userId, email, s) == Hit(name, id, t[id], userId, email, r) {
      ListedIdsDecideRow(name, id, t[id], userId, email, s, r);
    }
    assert NewTable(name, t, userId, email, s) == NewTable(name, t, userId, email, r);
  }

  lemma ListedIdsDecideRow(name: Name, id: string, row: Row, userId: string, email: string, s: Scope, r: Scope)
    requires ListedIds(name, s) == ListedIds(name, r)
    ensures Hit(name, id, row, userId, email, s) == Hit(name, id, row, userId, email, r)
  {
  }

  lemma NothingListed(name: Name, db: Db, userId: string, email: string, s: Scope)
    requires ListedIds(name, s) == Some({})
    ensures Perform(name, db, userId, email, s) == Some(db)
    ensures |HitRows(name, T(db, name), userId, email, s)| == 0
  {
    var t := T(db, name);
    assert forall id | id in t :: !Hit(name, id, t[id], userId, email, s);
    hide Hit, Remove;
    assert HitRows(name, t, userId, email, s).Keys == {};
    RemoveNothing(db, name);
  }

  ghost predicate CountsUpTo(counts: map<Name, nat>, done: seq<Name>, before: Db, userId: string) {
    forall name | name in done ::
      && name in counts
      && counts[name] == |HitRows(name, T(before, name), userId, EmailOf(before, userId), ScopeOf(before, userId))|
  }

  /** A statement finds its table as it was at the start, and is not refused. */
  lemma NextStatement(before: Db, userId: string, k: nat)
    requires k < |PLAN|
    ensures var now, next := AfterSteps(before, userId, k), AfterSteps(before, userId, k + 1);
            && now.Some? && next.Some? && T(now.value, PLAN[k]) == T(before, PLAN[k])
            && Perform(PLAN[k], now.value, userId, EmailOf(before, userId), ScopeOf(before, userId)) == next
  {
    hide Perform, TableAt, EmailOf, ScopeOf;
    assert PLAN[..k + 1][..k] == PLAN[..k];
    StepsSoFar(before, userId, k);
    StepsSoFar(before, userId, k + 1);
    NotYetRewritten(before, userId, k);
  }

  lemma NextCount(counts: map<Name, nat>, before: Db, userId: string, k: nat)
    requires k < |PLAN| && CountsUpTo(counts, PLAN[..k], before, userId)
    ensures var email, s := EmailOf(before, userId), ScopeOf(before, userId);
            CountsUpTo(counts[PLAN[k] := |HitRows(PLAN[k], T(before, PLAN[k]), userId, email, s)|], PLAN[..k + 1],
                       before, userId)
  {
    hide HitRows, EmailOf, ScopeOf;
    assert PLAN[..k + 1] == PLAN[..k] + [PLAN[k]];
  }

  lemma NothingDone(before: Db, userId: string)
    ensures AfterSteps(before, userId, 0) == Some(before) && CountsUpTo(map[], PLAN[..0], before, userId)
  {
  }

  /** The ids collected between the statements are the ones there were at the start. */
  lemma FoundOnTheWay(db: Db, userId: string)
    ensures AfterSteps(db, userId, 4).Some? && AfterSteps(db, userId, 8).Some?
    ensures var whole := ScopeOf(db, userId);
            var after4, after8 := AfterSteps(db, userId, 4).value, AfterSteps(db, userId, 8).value;
            && whole.enrollments == ChildrenOf(after4, Enrollment, User, {userId})
            && whole.attempts == ChildrenOf(after4, StageAttempt, Enrollment, whole.enrollments)
            && whole.submissions == ChildrenOf(after4, Submission, StageAttempt, whole.attempts)
            && whole.threads == ChildrenOf(after8, MentorThread, Enrollment, whole.enrollments)
            && (whole.enrollments == {} ==> whole.attempts == {} && whole.threads == {})
            && (whole.attempts == {} ==> whole.submissions == {})
  {
    hide AfterSteps, NewTable;
    StepsSoFar(db, userId, 4);
    StepsSoFar(db, userId, 8);
  }

  lemma PlanIsOrdered(k: nat)
    requires k < |PLAN|
    ensures Position(PLAN[k]) == k
  {
  }

  lemma PlanCoversEverything()
    ensures forall name: Name :: name in PLAN
  {
    forall name: Name ensures name in PLAN {
      PositionIs(name);
    }
  }

  // ---------------------------------------------------------------- what every step leaves

  /** What the deletions of others have done to a table by step `k`: grades unlinked, share cards gone. */
  function AfterActions(name: Name, t: Table, s: Scope, k: nat): Table {
    if name == Grade && k > Position(Submission) then UnlinkAll(t, Submission, s.submissions)
    else if name == ShareCard && k > Position(Enrollment) then WithoutChildren(t, Enrollment, s.enrollments)
    else t
  }

  function WithoutChildren(t: Table, p: Name, ids: set<string>): Table {
    map id | id in t && !PointsInto(t[id], p, ids) :: t[id]
  }

  function TableAt(db: Db, userId: string, name: Name, k: nat): Table {
    var email, s := EmailOf(db, userId), ScopeOf(db, userId);
    var t := T(db, name);
    AfterActions(name, if Position(name) < k then NewTable(name, t, userId, email, s) else t, s, k)
  }

  ghost predicate At(now: Db, db: Db, userId: string, k: nat) {
    forall name :: T(now, name) == TableAt(db, userId, name, k)
  }

  lemma NotYetRewritten(db: Db, userId: string, k: nat)
    requires k < |PLAN|
    ensures TableAt(db, userId, PLAN[k], k) == T(db, PLAN[k])
  {
    PlanIsOrdered(k);
    hide NewTable, EmailOf, ScopeOf;
  }

  /** On every database, no statement is refused, and every table is as `TableAt` says after each. */
  lemma {:induction false} StepsSoFar(db: Db, userId: string, k: nat)
    requires k <= |PLAN|
    ensures AfterSteps(db, userId, k).Some? && At(AfterSteps(db, userId, k).value, db, userId, k)
  {
    hide Perform, At, EmailOf, ScopeOf;
    if k == 0 {
      NoStepYet(db, userId);
    } else {
      StepsSoFar(db, userId, k - 1);
      assert PLAN[..k][..k - 1] == PLAN[..k - 1];
      OneMoreStep(AfterSteps(db, userId, k - 1).value, db, userId, k - 1);
    }
  }

  lemma NoStepYet(db: Db, userId: string)
    ensures At(db, db, userId, 0)
  {
    hide NewTable, EmailOf, ScopeOf;
  }

  lemma OneMoreStep(now: Db, db: Db, userId: string, k: nat)
    requires k < |PLAN| && At(now, db, userId, k)
    ensures var next := Perform(PLAN[k], now, userId, EmailOf(db, userId), ScopeOf(db, userId));
            next.Some? && At(next.value, db, userId, k + 1)
  {
    hide Hit, EmailOf, ScopeOf, NewTable, TableAt, HitRows, Minus, Follow, Position, NextTable;
    var name, email, s := PLAN[k], EmailOf(db, userId), ScopeOf(db, userId);
    PlanIsOrdered(k);
    NotYetRewritten(db, userId, k);
    OwnTableLater(db, userId, name);
    if Keeps(name) {
      NoRowsToRewrite(name, userId, email, s);
    } else {
      var gone := HitRows(name, T(now, name), userId, email, s).Keys;
      MinusIsNewTable(name, now, userId, email, s);
      WhatFollows(Minus(now, name, gone), db, userId, k, gone);
    }
    var next := Perform(name, now, userId, email, s).value;
    forall x ensures T(next, x) == TableAt(db, userId, x, k + 1) {
      if x != name {
        OtherTableLater(db, userId, name, x);
        NothingBelowKept(x, T(now, x), name, s);
      }
    }
  }

  lemma NothingBelowKept(x: Name, t: Table, name: Name, s: Scope)
    ensures Keeps(name) ==> NextTable(x, t, name, s) == t
  {
  }

  /** How the other tables change with the statement on `name`. */
  lemma OtherTableLater(db: Db, userId: string, name: Name, x: Name)
    requires x != name
    ensures var k := Position(name);
            TableAt(db, userId, x, k + 1) == NextTable(x, TableAt(db, userId, x, k), name, ScopeOf(db, userId))
  {
    hide NewTable, EmailOf, ScopeOf, UnlinkAll, WithoutChildren, Position;
    PositionsDiffer(x, name);
    PositionsDiffer(name, Submission);
    PositionsDiffer(name, Enrollment);
  }

  lemma OwnTableLater(db: Db, userId: string, name: Name)
    ensures TableAt(db, userId, name, Position(name) + 1)
         == NewTable(name, T(db, name), userId, EmailOf(db, userId), ScopeOf(db, userId))
  {
    hide NewTable, EmailOf, ScopeOf, UnlinkAll, WithoutChildren;
  }

  lemma PositionIs(name: Name)
    ensures Position(name) < |PLAN| && PLAN[Position(name)] == name
  {
  }

  lemma PositionsDiffer(x: Name, y: Name)
    ensures x != y ==> Position(x) != Position(y)
  {
    PositionIs(x);
    PositionIs(y);
  }

  lemma NoRowsToRewrite(name: Name, userId: string, email: string, s: Scope)
    ensures NewTable(name, map[], userId, email, s) == map[]
  {
  }

  /** What a statement on `name` does to another table. */
  function NextTable(x: Name, t: Table, name: Name, s: Scope): Table {
    if x == Grade && name == Submission then UnlinkAll(t, Submission, s.submissions)
    else if x == ShareCard && name == Enrollment then WithoutChildren(t, Enrollment, s.enrollments)
    else t
  }

  lemma MinusIsNewTable(name: Name, now: Db, userId: string, email: string, s: Scope)
    requires !Keeps(name)
    ensures var own := Minus(now, name, HitRows(name, T(now, name), userId, email, s).Keys);
            && T(own, name) == NewTable(name, T(now, name), userId, email, s)
            && forall x | x != name :: T(own, x) == T(now, x)
  {
    hide Hit;
    if name in now {
      assert now[name] - HitRows(name, now[name], userId, email, s).Keys == NewTable(name, now[name], userId, email, s);
    }
  }

  /** Below the rows of one statement nothing is refused, and only grades are unlinked and share cards removed. */
  lemma WhatFollows(own: Db, db: Db, userId: string, k: nat, gone: set<string>)
    requires k < |PLAN| && !Keeps(PLAN[k])
    requires gone == HitRows(PLAN[k], T(db, PLAN[k]), userId, EmailOf(db, userId), ScopeOf(db, userId)).Keys
    requires forall x | x != PLAN[k] :: T(own, x) == TableAt(db, userId, x, k)
    ensures var next := Follow(own, Dependents(PLAN[k]), PLAN[k], gone);
            && next.Some? && T(next.value, PLAN[k]) == T(own, PLAN[k])
            && forall x | x != PLAN[k] :: T(next.value, x) == NextTable(x, T(own, x), PLAN[k], ScopeOf(db, userId))
  {
    hide Hit, EmailOf, ScopeOf, NewTable, TableAt, HitRows, Follow, Position, ChildrenOf, ActionOn, UnlinkAll,
         WithoutChildren, Act;
    var name := PLAN[k];
    var children := Dependents(name);
    forall c | c in children && NextTable(c, map[], name, ScopeOf(db, userId)) == map[]
               && !(name == Submission && c == Grade)
               && !(name == Enrollment && c == ShareCard)
      ensures ChildrenOf(own, c, name, gone) == {}
    {
      ChildrenAreGone(own, db, userId, k, gone, c);
    }
    if name == Submission || name == Enrollment {
      OnlyTheLastActs(own, children, name, gone);
      CollectedIsHit(db, userId, name);
      LastAct(own, name, gone);
    } else {
      NothingFollows(own, children, name, gone);
    }
  }

  lemma {:induction false} OnlyTheLastActs(db: Db, children: seq<Name>, parent: Name, gone: set<string>)
    requires children != [] && forall c | c in children :: Position(c) < Position(parent)
    requires forall i | 0 <= i < |children| - 1 :: ChildrenOf(db, children[i], parent, gone) == {}
    ensures Follow(db, children, parent, gone) == Act(db, children[|children| - 1], parent, gone)
    decreases |children|
  {
    hide ChildrenOf, Position, ActionOn;
    if |children| > 1 {
      assert Act(db, children[0], parent, gone) == Some(db);
      OnlyTheLastActs(db, children[1..], parent, gone);
    } else {
      assert children[1..] == [];
    }
  }

  lemma LastAct(own: Db, name: Name, gone: set<string>)
    ensures var next := Act(own, Grade, Submission, gone);
            && next.Some? && T(next.value, Grade) == UnlinkAll(T(own, Grade), Submission, gone)
            && forall x | x != Grade :: T(next.value, x) == T(own, x)
    ensures var next := Act(own, ShareCard, Enrollment, gone);
            && next.Some? && T(next.value, ShareCard) == WithoutChildren(T(own, ShareCard), Enrollment, gone)
            && forall x | x != ShareCard :: T(next.value, x) == T(own, x)
  {
    var grades, cards := ChildrenOf(own, Grade, Submission, gone), ChildrenOf(own, ShareCard, Enrollment, gone);
    if grades == {} {
      NoChildren(own, Grade, Submission, gone);
      assert UnlinkAll(T(own, Grade), Submission, gone) == T(own, Grade);
    }
    if cards == {} {
      NoChildren(own, ShareCard, Enrollment, gone);
      assert WithoutChildren(T(own, ShareCard), Enrollment, gone) == T(own, ShareCard);
    } else {
      assert Remove(own, ShareCard, cards) == Some(Minus(own, ShareCard, cards));
    }
  }

  /** The rows below those of a statement have been deleted before. */
  lemma ChildrenAreGone(own: Db, db: Db, userId: string, k: nat, gone: set<string>, c: Name)
    requires k < |PLAN| && c in Dependents(PLAN[k]) && !Keeps(PLAN[k]) && c != PLAN[k]
    requires !(PLAN[k] == Submission && c == Grade) && !(PLAN[k] == Enrollment && c == ShareCard)
    requires gone == HitRows(PLAN[k], T(db, PLAN[k]), userId, EmailOf(db, userId), ScopeOf(db, userId)).Keys
    requires T(own, c) == TableAt(db, userId, c, k)
    ensures ChildrenOf(own, c, PLAN[k], gone) == {}
  {
    hide Hit, EmailOf, ScopeOf, TableAt, HitRows;
    var name, email, s := PLAN[k], EmailOf(db, userId), ScopeOf(db, userId);
    PlanIsOrdered(k);
    ParentTables(c, name);
    CollectedIsHit(db, userId, name);
    forall id | id in T(own, c) ensures !PointsInto(T(own, c)[id], name, gone) {
      RowBefore(db, userId, c, id, k);
      ChildOfCollected(c, id, T(db, c)[id], name, userId, email, s);
    }
  }

  /** The ids a deletion collects from a table that other rows hang on. */
  function Collected(p: Name, s: Scope): set<string> {
    match p
    case Enrollment => s.enrollments
    case StageAttempt => s.attempts
    case Submission => s.submissions
    case MentorThread => s.threads
    case _ => {}
  }

  lemma CollectedIsHit(db: Db, userId: string, p: Name)
    requires p == Enrollment || p == StageAttempt || p == Submission || p == MentorThread
    ensures HitRows(p, T(db, p), userId, EmailOf(db, userId), ScopeOf(db, userId)).Keys
         == Collected(p, ScopeOf(db, userId))
  {
  }

  lemma ParentTables(name: Name, p: Name)
    requires p in Required(name) + Optional(name) && p != User
    ensures p == Enrollment || p == StageAttempt || p == Submission || p == MentorThread
    ensures Position(name) < Position(p) && !Keeps(name) && !Keeps(p)
  {
  }

  /** But for two foreign keys, a row below a collected one is itself a row of a statement. */
  lemma ChildOfCollected(name: Name, id: string, row: Row, p: Name, userId: string, email: string, s: Scope)
    requires p in Required(name) + Optional(name) && p != User
    requires !(name == Grade && p == Submission) && !(name == ShareCard && p == Enrollment)
    ensures PointsInto(row, p, Collected(p, s)) ==> Hit(name, id, row, userId, email, s)
  {
  }

  /** A row still there has been there from the start, and no statement has hit it. */
  lemma RowBefore(db: Db, userId: string, name: Name, id: string, k: nat)
    requires id in TableAt(db, userId, name, k)
    ensures id in T(db, name)
    ensures var now := TableAt(db, userId, name, k)[id].refs;
            && (forall p | p in now :: p in T(db, name)[id].refs && T(db, name)[id].refs[p] == now[p])
            && (name == Grade && k > Position(Submission) && Submission in now ==>
                  now[Submission] !in ScopeOf(db, userId).submissions)
            && (name == ShareCard && k > Position(Enrollment) && Enrollment in now ==>
                  now[Enrollment] !in ScopeOf(db, userId).enrollments)
    ensures Position(name) < k && !Keeps(name) ==>
              !Hit(name, id, T(db, name)[id], userId, EmailOf(db, userId), ScopeOf(db, userId))
  {
    hide Hit, Position, EmailOf, ScopeOf;
  }

  // ---------------------------------------------------------------- foreign keys hold after every step

  /** Whatever part of the plan has been carried out, every foreign key still finds its row. */
  lemma ForeignKeysHoldThroughout(db: Db, userId: string, k: nat)
    requires Shaped(db) && ForeignKeysHold(db) && k <= |PLAN|
    ensures AfterSteps(db, userId, k).Some? && ForeignKeysHold(AfterSteps(db, userId, k).value)
  {
    hide AfterSteps, TableAt, ScopeOf;
    StepsSoFar(db, userId, k);
    var now := AfterSteps(db, userId, k).value;
    forall name, id, p | id in T(now, name) && p in T(now, name)[id].refs
      ensures T(now, name)[id].refs[p] in T(now, p)
    {
      RowBefore(db, userId, name, id, k);
      assert p in Required(name) + Optional(name) && T(db, name)[id].refs[p] in T(db, p);
      ParentStays(db, userId, name, id, p, k);
    }
  }

  /** While a row points to another, that one is there. */
  lemma ParentStays(db: Db, userId: string, name: Name, id: string, p: Name, k: nat)
    requires p in Required(name) + Optional(name)
    requires id in TableAt(db, userId, name, k) && p in TableAt(db, userId, name, k)[id].refs
    requires TableAt(db, userId, name, k)[id].refs[p] in T(db, p)
    ensures TableAt(db, userId, name, k)[id].refs[p] in TableAt(db, userId, p, k)
  {
    hide Hit, ScopeOf, EmailOf, TableAt, Required, Optional, Keeps, HitRows;
    var parent := TableAt(db, userId, name, k)[id].refs[p];
    RowBefore(db, userId, name, id, k);
    if p != User {
      ParentTables(name, p);
      CollectedIsHit(db, userId, p);
      if !(name == Grade && p == Submission) && !(name == ShareCard && p == Enrollment) {
        ChildOfCollected(name, id, T(db, name)[id], p, userId, EmailOf(db, userId), ScopeOf(db, userId));
      }
      HitRowsAre(p, T(db, p), userId, EmailOf(db, userId), ScopeOf(db, userId), parent);
    }
    RowStays(db, userId, p, parent, k);
  }

  lemma HitRowsAre(name: Name, t: Table, userId: string, email: string, s: Scope, id: string)
    requires id in t
    ensures id in HitRows(name, t, userId, email, s) <==> Hit(name, id, t[id], userId, email, s)
  {
  }

  lemma RowStays(db: Db, userId: string, name: Name, id: string, k: nat)
    requires id in T(db, name) && name != ShareCard
    requires name == User || Position(name) >= k
             || !Hit(name, id, T(db, name)[id], userId, EmailOf(db, userId), ScopeOf(db, userId))
    ensures id in TableAt(db, userId, name, k)
  {
    hide Hit, Position, EmailOf, ScopeOf;
  }

  // ---------------------------------------------------------------- export

  /** The database a deletion leaves. */
  function AfterDeletion(db: Db, userId: string): Option<Db> {
    AfterSteps(db, userId, |PLAN|)
  }

  /** A table when everything has been done. */
  function FinalTable(db: Db, userId: string, name: Name): Table {
    var t := NewTable(name, T(db, name), userId, EmailOf(db, userId), ScopeOf(db, userId));
    if name == Grade then UnlinkAll(t, Submission, ScopeOf(db, userId).submissions)
    else if name == ShareCard then WithoutChildren(t, Enrollment, ScopeOf(db, userId).enrollments)
    else t
  }

  /** A deletion is never refused, and leaves every table as `FinalTable` says: no assumption on the rows. */
  lemma DeletionMeaning(db: Db, userId: string)
    ensures AfterDeletion(db, userId).Some?
    ensures forall name :: T(AfterDeletion(db, userId).value, name) == FinalTable(db, userId, name)
  {
    hide AfterSteps, NewTable, ScopeOf, EmailOf;
    StepsSoFar(db, userId, |PLAN|);
    forall name ensures T(AfterDeletion(db, userId).value, name) == FinalTable(db, userId, name) {
      PositionIs(name);
    }
  }

  /** The lists of an export, besides the user row. */
  const EXPORTED: set<Name> := {
    Membership, Entitlement, Enrollment, StageAttempt, NodeTraversal, Submission, Run, Grade, MentorThread,
    MentorMessage, ShareCard, Event}

  datatype Export = Export(user: Option<Row>, lists: map<Name, Table>)

  /** The rows found by following the same foreign keys as the deletion. */
  function ExportAccount(db: Db, userId: string): Export {
    Export(if userId in T(db, User) then Some(T(db, User)[userId]) else None,
           map name | name in EXPORTED :: HitRows(name, T(db, name), userId, "", ScopeOf(db, userId)))
  }

  /** The rows pointing into `gone` have left the table, and nothing else has changed. */
  ghost predicate Without(before: Table, after: Table, p: Name, gone: set<string>) {
    && (forall id :: id in after <==> id in before && !PointsInto(before[id], p, gone))
    && (forall id | id in after :: after[id] == before[id])
  }

  lemma ChildrenAfter(db: Db, after: Db, name: Name, p: Name, gone: set<string>, ids: set<string>)
    requires Without(T(db, name), T(after, name), p, gone)
    ensures ids <= gone ==> ChildrenOf(after, name, p, ids) == {}
    ensures ids !! gone ==> ChildrenOf(after, name, p, ids) == ChildrenOf(db, name, p, ids)
  {
    hide T;
  }

  lemma ChildrenDisjoint(db: Db, name: Name, p: Name, ids: set<string>, others: set<string>)
    requires ids !! others
    ensures ChildrenOf(db, name, p, ids) !! ChildrenOf(db, name, p, others)
  {
  }

  lemma DeletedFrom(db: Db, userId: string)
    ensures var s := ScopeOf(db, userId);
            && Without(T(db, Enrollment), FinalTable(db, userId, Enrollment), User, {userId})
            && Without(T(db, StageAttempt), FinalTable(db, userId, StageAttempt), Enrollment, s.enrollments)
            && Without(T(db, Submission), FinalTable(db, userId, Submission), StageAttempt, s.attempts)
            && Without(T(db, MentorThread), FinalTable(db, userId, MentorThread), Enrollment, s.enrollments)
  {
    hide EmailOf, ScopeOf, PointsInto, Without;
    var email, s := EmailOf(db, userId), ScopeOf(db, userId);
    HitsLeave(Enrollment, T(db, Enrollment), userId, email, s, User, {userId});
    HitsLeave(StageAttempt, T(db, StageAttempt), userId, email, s, Enrollment, s.enrollments);
    HitsLeave(Submission, T(db, Submission), userId, email, s, StageAttempt, s.attempts);
    HitsLeave(MentorThread, T(db, MentorThread), userId, email, s, Enrollment, s.enrollments);
  }

  lemma HitsLeave(name: Name, t: Table, userId: string, email: string, s: Scope, p: Name, gone: set<string>)
    requires !Keeps(name) && forall id | id in t :: Hit(name, id, t[id], userId, email, s) == PointsInto(t[id], p, gone)
    ensures Without(t, NewTable(name, t, userId, email, s), p, gone)
  {
    hide Hit, PointsInto;
  }

  /** The scopes of two users share nothing. */
  lemma ScopesDisjoint(db: Db, u: string, v: string)
    requires u != v
    ensures var s, r := ScopeOf(db, u), ScopeOf(db, v);
            && s.enrollments !! r.enrollments && s.attempts !! r.attempts
            && s.submissions !! r.submissions && s.threads !! r.threads
  {
    hide ChildrenOf;
    var s, r := ScopeOf(db, u), ScopeOf(db, v);
    ChildrenDisjoint(db, Enrollment, User, {u}, {v});
    ChildrenDisjoint(db, StageAttempt, Enrollment, s.enrollments, r.enrollments);
    ChildrenDisjoint(db, Submission, StageAttempt, s.attempts, r.attempts);
    ChildrenDisjoint(db, MentorThread, Enrollment, s.enrollments, r.enrollments);
  }

  /** Deletion empties the user's scope and leaves every other one alone. */
  lemma ScopeAfterDeletion(db: Db, userId: string, v: string)
    ensures AfterDeletion(db, userId).Some?
    ensures ScopeOf(AfterDeletion(db, userId).value, v)
         == if v == userId then Scope({}, {}, {}, {}) else ScopeOf(db, v)
  {
    hide AfterDeletion, ChildrenOf, Without, FinalTable;
    DeletionMeaning(db, userId);
    var after := AfterDeletion(db, userId).value;
    var s, r := ScopeOf(db, userId), ScopeOf(after, v);
    DeletedFrom(db, userId);
    if v != userId { ScopesDisjoint(db, userId, v); }
    ChildrenAfter(db, after, Enrollment, User, {userId}, {v});
    ChildrenAfter(db, after, StageAttempt, Enrollment, s.enrollments, r.enrollments);
    ChildrenAfter(db, after, Submission, StageAttempt, s.attempts, r.attempts);
    ChildrenAfter(db, after, MentorThread, Enrollment, s.enrollments, r.enrollments);
  }

  /**
   After a deletion, every list of the user's export is empty, and the user row keeps nothing that identifies
   them.
   */
  lemma DeletedUserExportsNothing(db: Db, userId: string)
    requires userId in T(db, User)
    ensures AfterDeletion(db, userId).Some?
    ensures var e := ExportAccount(AfterDeletion(db, userId).value, userId);
            && (forall name | name in EXPORTED :: e.lists[name] == map[])
            && e.user.Some? && e.user.value.email == AnonymizedEmail(userId) && e.user.value.profile == map[]
  {
    hide AfterDeletion, EmailOf, ScopeOf, FinalTable, HitRows, T;
    DeletionMeaning(db, userId);
    var after := AfterDeletion(db, userId).value;
    ScopeAfterDeletion(db, userId, userId);
    UserIsAnonymized(db, userId);
    assert T(after, User) == FinalTable(db, userId, User);
    forall name | name in EXPORTED ensures HitRows(name, T(after, name), userId, "", ScopeOf(after, userId)) == map[] {
      ExportedListEmpties(db, userId, name);
    }
  }

  lemma UserIsAnonymized(db: Db, userId: string)
    requires userId in T(db, User)
    ensures var now := FinalTable(db, userId, User);
            userId in now && now[userId].email == AnonymizedEmail(userId) && now[userId].profile == map[]
  {
    hide EmailOf, ScopeOf, AnonymizedEmail;
  }

  lemma ExportedListEmpties(db: Db, userId: string, name: Name)
    requires name in EXPORTED
    ensures HitRows(name, FinalTable(db, userId, name), userId, "", Scope({}, {}, {}, {})) == map[]
  {
    hide EmailOf, ScopeOf, Hit, Changed, Unlinked;
    var now := FinalTable(db, userId, name);
    forall id | id in now ensures !Hit(name, id, now[id], userId, "", Scope({}, {}, {}, {})) {
      LeftAlone(name, id, T(db, name)[id], userId, EmailOf(db, userId), ScopeOf(db, userId));
    }
  }

  /** A row that a deletion leaves is in no list of the user's with nothing collected. */
  lemma LeftAlone(name: Name, id: string, row: Row, userId: string, email: string, s: Scope)
    requires name in EXPORTED
    ensures var none := Scope({}, {}, {}, {});
            && (!Hit(name, id, row, userId, email, s) ==> !Hit(name, id, row, userId, "", none))
            && (Keeps(name) ==> !Hit(name, id, Changed(name, row, userId), userId, "", none))
            && (name == Grade ==> !Hit(name, id, Unlinked(row, Submission, s.submissions), userId, "", none))
  {
  }

  /** Share cards of others that go with the enrollments they hang on. */
  function CascadedCards(db: Db, userId: string): Table {
    map id | id in T(db, ShareCard) && !PointsInto(T(db, ShareCard)[id], User, {userId})
             && PointsInto(T(db, ShareCard)[id], Enrollment, ScopeOf(db, userId).enrollments) :: T(db, ShareCard)[id]
  }

  /**
   The counts a deletion reports are the lengths of the lists an export just before would have had. With the
   share cards the database removes on its own, they account for every row that leaves.
   */
  lemma CountsAreExportLengths(db: Db, userId: string, name: Name)
    requires name in EXPORTED
    ensures HitRows(name, T(db, name), userId, EmailOf(db, userId), ScopeOf(db, userId))
         == ExportAccount(db, userId).lists[name]
    ensures AfterDeletion(db, userId).Some?
    ensures !Keeps(name) ==>
              |T(AfterDeletion(db, userId).value, name)| + |ExportAccount(db, userId).lists[name]|
              + (if name == ShareCard then |CascadedCards(db, userId)| else 0) == |T(db, name)|
  {
    hide AfterDeletion, EmailOf, ScopeOf, HitRows, NewTable, CascadedCards, UnlinkAll, WithoutChildren;
    var t, email, s := T(db, name), EmailOf(db, userId), ScopeOf(db, userId);
    DeletionMeaning(db, userId);
    ExportedHitsIgnoreEmail(name, t, userId, email, s);
    HitAndLeft(name, t, userId, email, s);
    FinalSizes(db, userId);
  }

  lemma FinalSizes(db: Db, userId: string)
    ensures var email, s := EmailOf(db, userId), ScopeOf(db, userId);
            && |FinalTable(db, userId, Grade)| == |NewTable(Grade, T(db, Grade), userId, email, s)|
            && |FinalTable(db, userId, ShareCard)| + |CascadedCards(db, userId)|
               == |NewTable(ShareCard, T(db, ShareCard), userId, email, s)|
  {
    hide EmailOf, ScopeOf, NewTable, UnlinkAll;
    var email, s := EmailOf(db, userId), ScopeOf(db, userId);
    UnlinkKeepsSize(NewTable(Grade, T(db, Grade), userId, email, s), Submission, s.submissions);
    CascadedAreLeft(db, userId);
    SplitSize(NewTable(ShareCard, T(db, ShareCard), userId, email, s), CascadedCards(db, userId),
              FinalTable(db, userId, ShareCard));
  }

  lemma CascadedAreLeft(db: Db, userId: string)
    ensures var left := NewTable(ShareCard, T(db, ShareCard), userId, EmailOf(db, userId), ScopeOf(db, userId));
            forall id :: id in CascadedCards(db, userId)
                         <==> id in left && PointsInto(left[id], Enrollment, ScopeOf(db, userId).enrollments)
  {
    hide EmailOf, ScopeOf;
  }

  lemma UnlinkKeepsSize(t: Table, p: Name, ids: set<string>)
    ensures |UnlinkAll(t, p, ids)| == |t|
  {
    assert UnlinkAll(t, p, ids).Keys == t.Keys;
    assert |UnlinkAll(t, p, ids).Keys| == |t.Keys|;
  }

  lemma ExportedHitsIgnoreEmail(name: Name, t: Table, userId: string, email: string, s: Scope)
    requires name in EXPORTED
    ensures HitRows(name, t, userId, email, s) == HitRows(name, t, userId, "", s)
  {
  }

  lemma HitAndLeft(name: Name, t: Table, userId: string, email: string, s: Scope)
    ensures !Keeps(name) ==> |NewTable(name, t, userId, email, s)| + |HitRows(name, t, userId, email, s)| == |t|
  {
    hide Hit;
    if !Keeps(name) {
      SplitSize(t, HitRows(name, t, userId, email, s), NewTable(name, t, userId, email, s));
    }
  }

  lemma SplitSize(t: Table, hit: Table, left: Table)
    requires forall id :: id in t <==> id in hit || id in left
    requires forall id :: !(id in hit && id in left)
    ensures |t| == |hit| + |left|
  {
    assert t.Keys == hit.Keys + left.Keys && hit.Keys !! left.Keys;
    assert |t.Keys| == |hit.Keys| + |left.Keys|;
  }

  // ---------------------------------------------------------------- whose rows change

  predicate HoldsAddressOf(db: Db, row: Row, userId: string) {
    row.email == if userId in T(db, User) then T(db, User)[userId].email else ""
  }

  lemma AddressIsEmail(db: Db, row: Row, userId: string)
    ensures HoldsAddressOf(db, row, userId) <==> row.email == EmailOf(db, userId)
  {
  }

  /**
   The row belongs to the user: it is the user's row, or one of its foreign keys leads to a row that belongs to the
   user. A verification token has no foreign key; it belongs to the user whose address it holds.
   */
  ghost predicate BelongsTo(db: Db, name: Name, id: string, userId: string)
    decreases |PLAN| - Position(name)
  {
    && id in T(db, name)
    && var row := T(db, name)[id];
       if name == User then id == userId
       else if name == VerificationToken then HoldsAddressOf(db, row, userId)
       else exists p | p in row.refs && Position(name) < Position(p) ::
              BelongsTo(db, p, row.refs[p], userId)
  }

  /** The rows that statements hit, and the two kinds of rows the database changes or removes on its own. */
  predicate Touched(name: Name, id: string, row: Row, userId: string, email: string, s: Scope) {
    || Hit(name, id, row, userId, email, s)
    || (name == Grade && PointsInto(row, Submission, s.submissions))
    || (name == ShareCard && PointsInto(row, Enrollment, s.enrollments))
  }

  /** The ids by which a row of `p` is the user's. */
  function UsersOwn(p: Name, userId: string, s: Scope): set<string> {
    if p == User then {userId} else Collected(p, s)
  }

  lemma TouchedThroughKeys(name: Name, id: string, row: Row, userId: string, email: string, s: Scope)
    requires Required(name) <= row.refs.Keys <= Required(name) + Optional(name)
    requires name != User && name != VerificationToken
    ensures Touched(name, id, row, userId, email, s)
            <==> exists p | p in row.refs && Position(name) < Position(p) :: row.refs[p] in UsersOwn(p, userId, s)
  {
    hide Touched, UsersOwn, Position, Required, Optional;
    if Touched(name, id, row, userId, email, s) {
      var p := KeyTouchedThrough(name, id, row, userId, email, s);
      assert row.refs[p] in UsersOwn(p, userId, s);
    }
    if p :| p in row.refs && Position(name) < Position(p) && row.refs[p] in UsersOwn(p, userId, s) {
      assert p in Required(name) + Optional(name);
      KeyTouches(name, id, row, p, userId, email, s);
    }
  }

  /** The foreign key by which a touched row is the user's. */
  lemma KeyTouchedThrough(name: Name, id: string, row: Row, userId: string, email: string, s: Scope) returns (p: Name)
    requires Touched(name, id, row, userId, email, s) && name != User && name != VerificationToken
    ensures PointsInto(row, p, UsersOwn(p, userId, s)) && Position(name) < Position(p)
  {
    match name
    case Run => p := Submission;
    case Grade => p := if PointsInto(row, StageAttempt, s.attempts) then StageAttempt else Submission;
    case Submission => p := StageAttempt;
    case StageAttempt | MentorThread | NodeTraversal => p := Enrollment;
    case MentorMessage => p := MentorThread;
    case ShareCard => p := if PointsInto(row, User, {userId}) then User else Enrollment;
    case _ => p := User;
  }

  lemma KeyTouches(name: Name, id: string, row: Row, p: Name, userId: string, email: string, s: Scope)
    requires p in Required(name) + Optional(name) && PointsInto(row, p, UsersOwn(p, userId, s))
    ensures Touched(name, id, row, userId, email, s)
  {
    if p != User && !(name == Grade && p == Submission) && !(name == ShareCard && p == Enrollment) {
      ChildOfCollected(name, id, row, p, userId, email, s);
    }
  }

  /** What belongs to the user is what the deletion touches. */
  lemma {:induction false} BelongsIsTouched(db: Db, name: Name, id: string, userId: string)
    requires Shaped(db) && ForeignKeysHold(db) && id in T(db, name)
    ensures BelongsTo(db, name, id, userId)
            <==> Touched(name, id, T(db, name)[id], userId, EmailOf(db, userId), ScopeOf(db, userId))
    decreases |PLAN| - Position(name)
  {
    hide Touched, EmailOf, ScopeOf, Position, UsersOwn, Hit, Required, Optional, HoldsAddressOf;
    var row, email, s := T(db, name)[id], EmailOf(db, userId), ScopeOf(db, userId);
    AddressIsEmail(db, row, userId);
    if name == User || name == VerificationToken {
      TouchedItself(name, id, row, userId, email, s);
    } else {
      forall p | p in row.refs && Position(name) < Position(p)
        ensures BelongsTo(db, p, row.refs[p], userId) <==> row.refs[p] in UsersOwn(p, userId, s)
      {
        PositionIs(p);
        BelongsIsTouched(db, p, row.refs[p], userId);
        ParentIsUsersOwn(db, name, p, row.refs[p], userId);
      }
      TouchedThroughKeys(name, id, row, userId, email, s);
    }
  }

  lemma TouchedItself(name: Name, id: string, row: Row, userId: string, email: string, s: Scope)
    ensures name == User ==> (Touched(name, id, row, userId, email, s) <==> id == userId)
    ensures name == VerificationToken ==> (Touched(name, id, row, userId, email, s) <==> row.email == email)
  {
  }

  lemma ParentIsUsersOwn(db: Db, name: Name, p: Name, x: string, userId: string)
    requires p in Required(name) + Optional(name) && x in T(db, p)
    ensures var s := ScopeOf(db, userId);
            Touched(p, x, T(db, p)[x], userId, EmailOf(db, userId), s) <==> x in UsersOwn(p, userId, s)
  {
    hide EmailOf, ScopeOf, Hit, HitRows;
    var email, s := EmailOf(db, userId), ScopeOf(db, userId);
    TouchedItself(p, x, T(db, p)[x], userId, email, s);
    if p != User {
      ParentTables(name, p);
      CollectedIsHit(db, userId, p);
      HitRowsAre(p, T(db, p), userId, email, s, x);
    }
  }

  /**
   The frame of a deletion: outside the user table, exactly the rows that belong to the user leave or change; in it,
   only the user's own row may.
   */
  lemma ExactlyTheUsersRowsChange(db: Db, userId: string, name: Name, id: string)
    requires Shaped(db) && ForeignKeysHold(db) && id in T(db, name)
    ensures AfterDeletion(db, userId).Some?
    ensures var now := T(AfterDeletion(db, userId).value, name);
            && (!BelongsTo(db, name, id, userId) ==> id in now && now[id] == T(db, name)[id])
            && (BelongsTo(db, name, id, userId) && name != User ==> !(id in now && now[id] == T(db, name)[id]))
  {
    hide AfterDeletion, EmailOf, ScopeOf, Touched, BelongsTo, FinalTable;
    DeletionMeaning(db, userId);
    BelongsIsTouched(db, name, id, userId);
    TouchedRowChanges(db, userId, name, id);
  }

  lemma TouchedRowChanges(db: Db, userId: string, name: Name, id: string)
    requires id in T(db, name)
    ensures var now := FinalTable(db, userId, name);
            var touched := Touched(name, id, T(db, name)[id], userId, EmailOf(db, userId), ScopeOf(db, userId));
            && (!touched ==> id in now && now[id] == T(db, name)[id])
            && (touched && name != User ==> !(id in now && now[id] == T(db, name)[id]))
  {
    hide EmailOf, ScopeOf;
    var row := T(db, name)[id];
    assert User in row.refs ==> User !in (row.refs - {User});
    assert Submission in row.refs ==> Submission !in (row.refs - {Submission});
    if Keeps(name) && name != User && Hit(name, id, row, userId, EmailOf(db, userId), ScopeOf(db, userId)) {
      assert User in row.refs && User !in Changed(name, row, userId).refs;
    }
  }

  /** A deletion adds no row to any table. */
  lemma NothingAppears(db: Db, userId: string, name: Name)
    ensures AfterDeletion(db, userId).Some?
    ensures T(AfterDeletion(db, userId).value, name).Keys <= T(db, name).Keys
  {
    hide AfterDeletion, EmailOf, ScopeOf, Hit;
    DeletionMeaning(db, userId);
  }

  /** The row belongs to the user through its foreign key to `p`. */
  ghost predicate BelongsThrough(db: Db, row: Row, p: Name, userId: string) {
    p in row.refs && BelongsTo(db, p, row.refs[p], userId)
  }

  /**
   What becomes of a row that belongs to the user. The user row stays as a tombstone; events and reviews stay and name
   no user; a grade that is the user's through its submission only stays without it; every other row is gone.
   */
  lemma FateOfTheUsersRows(db: Db, userId: string, name: Name, id: string)
    requires Shaped(db) && ForeignKeysHold(db) && id in T(db, name) && BelongsTo(db, name, id, userId)
    ensures AfterDeletion(db, userId).Some?
    ensures var row, now := T(db, name)[id], T(AfterDeletion(db, userId).value, name);
            if name == User then
              id in now && now[id] == Row(row.refs, "anonymized-" + userId + "@deleted.invalid", map[], row.rest)
            else if name == Event || name == Review then
              id in now && now[id] == Row(row.refs - {User}, row.email, row.profile, row.rest)
            else if name == Grade && !BelongsThrough(db, row, StageAttempt, userId) then
              id in now && now[id] == Row(row.refs - {Submission}, row.email, row.profile, row.rest)
            else id !in now
  {
    hide AfterDeletion, EmailOf, ScopeOf, BelongsTo, FinalTable, Touched;
    DeletionMeaning(db, userId);
    BelongsIsTouched(db, name, id, userId);
    var s := ScopeOf(db, userId);
    if name == Grade { ThroughIsCollected(db, id, userId); }
    FateOfTouched(db, userId, name, id);
  }

  lemma GradeHasAttempt(db: Db, id: string)
    requires Shaped(db) && ForeignKeysHold(db) && id in T(db, Grade)
    ensures var row := T(db, Grade)[id]; StageAttempt in row.refs && row.refs[StageAttempt] in T(db, StageAttempt)
  {
  }

  lemma ThroughIsCollected(db: Db, id: string, userId: string)
    requires Shaped(db) && ForeignKeysHold(db) && id in T(db, Grade)
    ensures BelongsThrough(db, T(db, Grade)[id], StageAttempt, userId)
            <==> PointsInto(T(db, Grade)[id], StageAttempt, ScopeOf(db, userId).attempts)
  {
    hide EmailOf, ScopeOf, Touched, BelongsTo, Hit, T, Shaped, ForeignKeysHold;
    var row := T(db, Grade)[id];
    GradeHasAttempt(db, id);
    var attempt := row.refs[StageAttempt];
    BelongsIsTouched(db, StageAttempt, attempt, userId);
    ParentIsUsersOwn(db, Grade, StageAttempt, attempt, userId);
  }

  lemma FateOfTouched(db: Db, userId: string, name: Name, id: string)
    requires id in T(db, name)
    requires Touched(name, id, T(db, name)[id], userId, EmailOf(db, userId), ScopeOf(db, userId))
    ensures var row, now := T(db, name)[id], FinalTable(db, userId, name);
            if name == User then
              id in now && now[id] == Row(row.refs, "anonymized-" + userId + "@deleted.invalid", map[], row.rest)
            else if name == Event || name == Review then
              id in now && now[id] == Row(row.refs - {User}, row.email, row.profile, row.rest)
            else if name == Grade && !PointsInto(row, StageAttempt, ScopeOf(db, userId).attempts) then
              id in now && now[id] == Row(row.refs - {Submission}, row.email, row.profile, row.rest)
            else id !in now
  {
    hide EmailOf, ScopeOf;
  }

  /**
   What an export holds: the user row as it is, and in twelve lists the rows that belong to the user, a grade or share
   card only through its attempt or its user.
   */
  lemma ExportIsWhatBelongs(db: Db, userId: string, name: Name, id: string)
    requires Shaped(db) && ForeignKeysHold(db)
    ensures var e := ExportAccount(db, userId);
            && e.user == (if userId in T(db, User) then Some(T(db, User)[userId]) else None)
            && (name in e.lists <==>
                name !in {Session, Account, DeviceCodeFlow, VerificationToken, Review, User})
            && (name in e.lists ==>
                  && (id in e.lists[name] <==>
                      && id in T(db, name) && BelongsTo(db, name, id, userId)
                      && (name == Grade ==> BelongsThrough(db, T(db, name)[id], StageAttempt, userId))
                      && (name == ShareCard ==> T(db, name)[id].refs[User] == userId))
                  && (id in e.lists[name] ==> e.lists[name][id] == T(db, name)[id]))
  {
    hide EmailOf, ScopeOf, BelongsTo, Touched, Hit, HitRows, ExportAccount, T, Shaped, ForeignKeysHold;
    ExportLists(db, userId, name, id);
    if name in EXPORTED && id in T(db, name) {
      BelongsIsTouched(db, name, id, userId);
      if name == Grade { ThroughIsCollected(db, id, userId); }
      ListedIsTouched(db, userId, name, id);
    }
    ExportedNames(name);
    if name == ShareCard && id in T(db, name) { CardHasUser(db, id); }
  }

  lemma CardHasUser(db: Db, id: string)
    requires Shaped(db) && id in T(db, ShareCard)
    ensures User in T(db, ShareCard)[id].refs
  {
  }

  lemma ExportedNames(name: Name)
    ensures name in EXPORTED <==> name !in {Session, Account, DeviceCodeFlow, VerificationToken, Review, User}
  {
  }

  lemma ExportLists(db: Db, userId: string, name: Name, id: string)
    ensures var e := ExportAccount(db, userId);
            && e.user == (if userId in T(db, User) then Some(T(db, User)[userId]) else None)
            && (name in e.lists <==> name in EXPORTED)
            && (name in e.lists ==>
                  && (id in e.lists[name] <==>
                        id in T(db, name) && Hit(name, id, T(db, name)[id], userId, "", ScopeOf(db, userId)))
                  && (id in e.lists[name] ==> e.lists[name][id] == T(db, name)[id]))
  {
    hide ScopeOf, Hit, T;
  }

  lemma ListedIsTouched(db: Db, userId: string, name: Name, id: string)
    requires Shaped(db) && name in EXPORTED && id in T(db, name)
    ensures var row, s := T(db, name)[id], ScopeOf(db, userId);
            Hit(name, id, row, userId, "", s) <==>
            && Touched(name, id, row, userId, EmailOf(db, userId), s)
            && (name == Grade ==> PointsInto(row, StageAttempt, s.attempts))
            && (name == ShareCard ==> row.refs[User] == userId)
  {
    hide EmailOf, ScopeOf;
    assert name == ShareCard ==> User in T(db, name)[id].refs;
  }

  // ---------------------------------------------------------------- everybody else's export

  /** No share card of `v` hangs on an enrollment of the user's, and no grade of `v` on a submission of theirs. */
  ghost predicate Untangled(db: Db, userId: string, v: string) {
    var s, r := ScopeOf(db, userId), ScopeOf(db, v);
    && (forall id | id in T(db, ShareCard) && PointsInto(T(db, ShareCard)[id], User, {v}) ::
          !PointsInto(T(db, ShareCard)[id], Enrollment, s.enrollments))
    && (forall id | id in T(db, Grade) && PointsInto(T(db, Grade)[id], StageAttempt, r.attempts) ::
          !PointsInto(T(db, Grade)[id], Submission, s.submissions))
  }

  /** Where a row hangs on two parents, both belong to the same user. */
  ghost predicate OwnedTogether(db: Db, userId: string) {
    var s := ScopeOf(db, userId);
    && (forall id | id in T(db, Grade) && PointsInto(T(db, Grade)[id], Submission, s.submissions) ::
          PointsInto(T(db, Grade)[id], StageAttempt, s.attempts))
    && (forall id | id in T(db, ShareCard) && PointsInto(T(db, ShareCard)[id], Enrollment, s.enrollments) ::
          PointsInto(T(db, ShareCard)[id], User, {userId}))
  }

  /** The database acts on its own in a deletion if and only if some row hangs on two users. */
  lemma ActionsNeedTangledRows(db: Db, userId: string)
    ensures OwnedTogether(db, userId) <==>
            forall name :: FinalTable(db, userId, name)
                        == NewTable(name, T(db, name), userId, EmailOf(db, userId), ScopeOf(db, userId))
  {
    hide EmailOf, ScopeOf, NewTable, UnlinkAll, WithoutChildren;
    var email, s := EmailOf(db, userId), ScopeOf(db, userId);
    var grades, cards := T(db, Grade), T(db, ShareCard);
    UnlinkingNothing(NewTable(Grade, grades, userId, email, s), Submission, s.submissions);
    RemovingNothing(NewTable(ShareCard, cards, userId, email, s), Enrollment, s.enrollments);
    LeftAreClear(Grade, grades, Submission, s.submissions, userId, email, s);
    LeftAreClear(ShareCard, cards, Enrollment, s.enrollments, userId, email, s);
    assert FinalTable(db, userId, Grade)
        == UnlinkAll(NewTable(Grade, grades, userId, email, s), Submission, s.submissions);
    assert FinalTable(db, userId, ShareCard)
        == WithoutChildren(NewTable(ShareCard, cards, userId, email, s), Enrollment, s.enrollments);
  }

  lemma LeftAreClear(name: Name, t: Table, p: Name, ids: set<string>, userId: string, email: string, s: Scope)
    requires !Keeps(name)
    ensures var left := NewTable(name, t, userId, email, s);
            (forall id | id in left :: !PointsInto(left[id], p, ids)) <==>
            forall id | id in t && PointsInto(t[id], p, ids) :: Hit(name, id, t[id], userId, email, s)
  {
    hide Hit, PointsInto;
    var left := NewTable(name, t, userId, email, s);
    assert forall id | id in t :: id in left <==> !Hit(name, id, t[id], userId, email, s);
  }

  lemma UnlinkingNothing(t: Table, p: Name, ids: set<string>)
    ensures UnlinkAll(t, p, ids) == t <==> forall id | id in t :: !PointsInto(t[id], p, ids)
  {
    if id :| id in t && PointsInto(t[id], p, ids) {
      assert p in t[id].refs && p !in UnlinkAll(t, p, ids)[id].refs;
    }
  }

  lemma RemovingNothing(t: Table, p: Name, ids: set<string>)
    ensures WithoutChildren(t, p, ids) == t <==> forall id | id in t :: !PointsInto(t[id], p, ids)
  {
    if id :| id in t && PointsInto(t[id], p, ids) {
      assert id !in WithoutChildren(t, p, ids);
    }
  }

  lemma OwnedTogetherIsUntangled(db: Db, userId: string, v: string)
    requires OwnedTogether(db, userId) && v != userId
    ensures Untangled(db, userId, v)
  {
    hide ScopeOf;
    ScopesDisjoint(db, userId, v);
  }

  /** Somebody else's export is what it was if and only if none of their rows hangs on one of the user's. */
  lemma OtherExportsKept(db: Db, userId: string, v: string)
    requires v != userId
    ensures AfterDeletion(db, userId).Some?
    ensures ExportAccount(AfterDeletion(db, userId).value, v) == ExportAccount(db, v) <==> Untangled(db, userId, v)
  {
    hide AfterDeletion, EmailOf, ScopeOf, HitRows, FinalTable, Untangled, ExportAccount, T;
    DeletionMeaning(db, userId);
    var after := AfterDeletion(db, userId).value;
    ScopeAfterDeletion(db, userId, v);
    OtherUserKept(db, userId, v);
    assert T(after, User) == FinalTable(db, userId, User);
    var r := ScopeOf(db, v);
    forall name | name in EXPORTED && name != Grade && name != ShareCard
      ensures HitRows(name, T(after, name), v, "", r) == HitRows(name, T(db, name), v, "", r)
    {
      OtherListKept(db, userId, v, name);
    }
    OtherCardsAndGrades(db, userId, v);
    ExportsEqual(db, after, v);
  }

  lemma ExportsEqual(db: Db, after: Db, v: string)
    requires ScopeOf(after, v) == ScopeOf(db, v)
    requires v in T(after, User) <==> v in T(db, User)
    requires v in T(after, User) ==> T(after, User)[v] == T(db, User)[v]
    requires forall name | name in EXPORTED && name != Grade && name != ShareCard ::
               HitRows(name, T(after, name), v, "", ScopeOf(db, v)) == HitRows(name, T(db, name), v, "", ScopeOf(db, v))
    ensures ExportAccount(after, v) == ExportAccount(db, v) <==>
            forall name | name == Grade || name == ShareCard ::
              HitRows(name, T(after, name), v, "", ScopeOf(db, v)) == HitRows(name, T(db, name), v, "", ScopeOf(db, v))
  {
    hide HitRows, ScopeOf, T;
    var was, now := ExportAccount(db, v), ExportAccount(after, v);
    assert forall name | name in EXPORTED :: was.lists[name] == HitRows(name, T(db, name), v, "", ScopeOf(db, v));
    assert forall name | name in EXPORTED :: now.lists[name] == HitRows(name, T(after, name), v, "", ScopeOf(db, v));
    assert Grade in EXPORTED && ShareCard in EXPORTED;
    assert now.lists == was.lists
      <==> now.lists[Grade] == was.lists[Grade] && now.lists[ShareCard] == was.lists[ShareCard];
  }

  lemma OtherUserKept(db: Db, userId: string, v: string)
    requires v != userId
    ensures var now := FinalTable(db, userId, User);
            (v in now <==> v in T(db, User)) && (v in now ==> now[v] == T(db, User)[v])
  {
    hide EmailOf, ScopeOf;
  }

  lemma OtherListKept(db: Db, userId: string, v: string, name: Name)
    requires name in EXPORTED && v != userId && name != Grade && name != ShareCard
    ensures HitRows(name, FinalTable(db, userId, name), v, "", ScopeOf(db, v))
         == HitRows(name, T(db, name), v, "", ScopeOf(db, v))
  {
    hide EmailOf, ScopeOf, NewTable, HitRows;
    ScopesDisjoint(db, userId, v);
    OtherRowsKept(name, T(db, name), userId, EmailOf(db, userId), ScopeOf(db, userId), v, ScopeOf(db, v));
  }

  lemma OtherCardsAndGrades(db: Db, userId: string, v: string)
    requires v != userId
    ensures var r := ScopeOf(db, v);
            Untangled(db, userId, v) <==>
            && HitRows(Grade, FinalTable(db, userId, Grade), v, "", r) == HitRows(Grade, T(db, Grade), v, "", r)
            && HitRows(ShareCard, FinalTable(db, userId, ShareCard), v, "", r)
               == HitRows(ShareCard, T(db, ShareCard), v, "", r)
  {
    hide EmailOf, ScopeOf, NewTable;
    var s, r := ScopeOf(db, userId), ScopeOf(db, v);
    ScopesDisjoint(db, userId, v);
    OtherRowsKept(Grade, T(db, Grade), userId, EmailOf(db, userId), s, v, r);
    OtherRowsKept(ShareCard, T(db, ShareCard), userId, EmailOf(db, userId), s, v, r);
    UnlinkingShows(NewTable(Grade, T(db, Grade), userId, EmailOf(db, userId), s), T(db, Grade), v, r, s.submissions);
    RemovalShows(NewTable(ShareCard, T(db, ShareCard), userId, EmailOf(db, userId), s), T(db, ShareCard), v, r,
                 s.enrollments);
  }

  lemma UnlinkingShows(t: Table, was: Table, v: string, r: Scope, ids: set<string>)
    requires HitRows(Grade, t, v, "", r) == HitRows(Grade, was, v, "", r)
    ensures HitRows(Grade, UnlinkAll(t, Submission, ids), v, "", r) == HitRows(Grade, was, v, "", r)
            <==> forall id | id in was && PointsInto(was[id], StageAttempt, r.attempts) ::
                   !PointsInto(was[id], Submission, ids)
  {
    var hits, now := HitRows(Grade, was, v, "", r), HitRows(Grade, UnlinkAll(t, Submission, ids), v, "", r);
    forall id | id in was && PointsInto(was[id], StageAttempt, r.attempts)
      ensures id in hits && id in t && t[id] == was[id] && id in now && now[id] == Unlinked(was[id], Submission, ids)
    {
      assert id in HitRows(Grade, t, v, "", r);
    }
    forall id | id in now ensures id in hits {
      assert id in HitRows(Grade, t, v, "", r);
    }
    if now == hits {
      forall id | id in was && PointsInto(was[id], StageAttempt, r.attempts)
        ensures !PointsInto(was[id], Submission, ids)
      {
        assert Submission in was[id].refs ==> Submission !in (was[id].refs - {Submission});
      }
    }
  }

  lemma RemovalShows(t: Table, was: Table, v: string, r: Scope, ids: set<string>)
    requires HitRows(ShareCard, t, v, "", r) == HitRows(ShareCard, was, v, "", r)
    ensures HitRows(ShareCard, WithoutChildren(t, Enrollment, ids), v, "", r) == HitRows(ShareCard, was, v, "", r)
            <==> forall id | id in was && PointsInto(was[id], User, {v}) :: !PointsInto(was[id], Enrollment, ids)
  {
    var hits := HitRows(ShareCard, was, v, "", r);
    var now := HitRows(ShareCard, WithoutChildren(t, Enrollment, ids), v, "", r);
    forall id | id in was && PointsInto(was[id], User, {v})
      ensures id in hits && id in t && t[id] == was[id] && (id in now <==> !PointsInto(was[id], Enrollment, ids))
    {
      assert id in HitRows(ShareCard, t, v, "", r);
    }
    forall id | id in now ensures id in hits && now[id] == hits[id] {
      assert id in HitRows(ShareCard, t, v, "", r);
    }
  }

  lemma OtherRowsKept(name: Name, t: Table, userId: string, email: string, s: Scope, v: string, r: Scope)
    requires name in EXPORTED && v != userId
    requires s.enrollments !! r.enrollments && s.attempts !! r.attempts && s.submissions !! r.submissions
    requires s.threads !! r.threads
    ensures HitRows(name, NewTable(name, t, userId, email, s), v, "", r) == HitRows(name, t, v, "", r)
  {
    hide Hit, Changed, Keeps;
    var now := NewTable(name, t, userId, email, s);
    forall id | id in t && Hit(name, id, t[id], v, "", r) ensures id in now && now[id] == t[id] {
      NotHitByBoth(name, id, t[id], userId, email, s, v, r);
    }
    forall id | id in now && Hit(name, id, now[id], v, "", r) ensures now[id] == t[id] {
      ChangedIsNobodys(name, id, t[id], userId, v, r);
    }
  }

  lemma ChangedIsNobodys(name: Name, id: string, row: Row, userId: string, v: string, r: Scope)
    requires name in EXPORTED
    ensures Keeps(name) ==> !Hit(name, id, Changed(name, row, userId), v, "", r)
  {
  }

  lemma NotHitByBoth(name: Name, id: string, row: Row, userId: string, email: string, s: Scope, v: string, r: Scope)
    requires name in EXPORTED && v != userId && Hit(name, id, row, v, "", r)
    requires s.enrollments !! r.enrollments && s.attempts !! r.attempts && s.submissions !! r.submissions
    requires s.threads !! r.threads
    ensures !Hit(name, id, row, userId, email, s)
  {
  }

  /** User B's share card hangs on user A's enrollment, which no foreign key forbids. */
  const USERS: Table := map["A" := Row(map[], "a@x", map[], ""), "B" := Row(map[], "b@x", map[], "")]
  const ENROLLMENTS: Table := map["e" := Row(map[User := "A"], "", map[], "")]
  const CARDS: Table := map["c" := Row(map[User := "B", Enrollment := "e"], "", map[], "")]
  const TANGLED: Db := map[User := USERS, Enrollment := ENROLLMENTS, ShareCard := CARDS]

  lemma TangledIsLegal()
    ensures Shaped(TANGLED) && ForeignKeysHold(TANGLED)
  {
    hide USERS, ENROLLMENTS, CARDS;
    forall name, id | id in T(TANGLED, name)
      ensures Required(name) <= T(TANGLED, name)[id].refs.Keys <= Required(name) + Optional(name)
      ensures forall p | p in T(TANGLED, name)[id].refs :: T(TANGLED, name)[id].refs[p] in T(TANGLED, p)
    {
      TangledRows(id);
    }
  }

  lemma TangledRows(id: string)
    ensures "A" in USERS && "B" in USERS && "e" in ENROLLMENTS
    ensures id in USERS ==> USERS[id].refs == map[]
    ensures id in ENROLLMENTS ==> ENROLLMENTS[id].refs == map[User := "A"]
    ensures id in CARDS ==> CARDS[id].refs == map[User := "B", Enrollment := "e"]
  {
  }

  lemma TangledIsTangled()
    ensures !Untangled(TANGLED, "A", "B")
  {
    var e := ScopeOf(TANGLED, "A").enrollments;
    assert PointsInto(ENROLLMENTS["e"], User, {"A"});
    assert e == ChildrenOf(TANGLED, Enrollment, User, {"A"});
    assert "e" in e;
    hide ScopeOf;
    assert PointsInto(T(TANGLED, ShareCard)["c"], User, {"B"}) && PointsInto(T(TANGLED, ShareCard)["c"], Enrollment, e);
  }

  /** A deletion takes the share card of somebody else that hangs on an enrollment of the user's. */
  lemma ForeignCardGoes()
    ensures Shaped(TANGLED) && ForeignKeysHold(TANGLED) && AfterDeletion(TANGLED, "A").Some?
    ensures ExportAccount(AfterDeletion(TANGLED, "A").value, "B") != ExportAccount(TANGLED, "B")
  {
    hide AfterDeletion, ExportAccount, Untangled, Shaped, ForeignKeysHold;
    TangledIsLegal();
    TangledIsTangled();
    OtherExportsKept(TANGLED, "A", "B");
  }
}
