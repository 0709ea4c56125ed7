/**
 The tables an account is spread over, their foreign keys, and what the database does below a deleted row:
 `packages/db/prisma/schema.prisma`.
 */
module AccountSchema {
  import opened Wrappers

  datatype Name =
    | Session | Account | DeviceCodeFlow | VerificationToken | Run | Grade | Submission | StageAttempt
    | MentorMessage | MentorThread | NodeTraversal | ShareCard | Enrollment | Entitlement | Membership
    | Event | Review | User

  /**
   A row: its foreign keys that are not null, by the table they point to; the email address it holds, if any
   (`User.email`, `VerificationToken.identifier`); the other identifying columns of a user; everything else.
   */
  datatype Row = Row(refs: map<Name, string>, email: string, profile: map<string, string>, rest: string)

  type Table = map<string, Row>

  type Db = map<Name, Table>

  function T(db: Db, name: Name): Table {
    if name in db then db[name] else map[]
  }

  /** The foreign keys a table must have, and those it may have (`?` in the schema). */
  function Required(name: Name): set<Name> {
    match name
    case Session | Account | Enrollment | Entitlement | Membership => {User}
    case Run => {Submission}
    case Grade | Submission => {StageAttempt}
    case StageAttempt | MentorThread | NodeTraversal => {Enrollment}
    case MentorMessage => {MentorThread}
    case ShareCard => {User, Enrollment}
    case DeviceCodeFlow | VerificationToken | Event | Review | User => {}
  }

  function Optional(name: Name): set<Name> {
    match name
    case Grade => {Submission}
    case DeviceCodeFlow | Event | Review => {User}
    case _ => {}
  }

  ghost predicate Shaped(db: Db) {
    forall name, id | id in T(db, name) ::
      Required(name) <= T(db, name)[id].refs.Keys <= Required(name) + Optional(name)
  }

  /** Every foreign key finds its row. */
  ghost predicate ForeignKeysHold(db: Db) {
    forall name, id, p | id in T(db, name) && p in T(db, name)[id].refs :: T(db, name)[id].refs[p] in T(db, p)
  }

  predicate PointsInto(row: Row, p: Name, ids: set<string>) {
    p in row.refs && row.refs[p] in ids
  }

  function ChildrenOf(db: Db, name: Name, p: Name, ids: set<string>): set<string> {
    set id | id in T(db, name) && PointsInto(T(db, name)[id], p, ids)
  }

  /** A rank by which every row ranks below the rows it points to. */
  function Position(name: Name): nat {
    match name
    case Session => 0 case Account => 1 case DeviceCodeFlow => 2 case VerificationToken => 3 case Run => 4
    case Grade => 5 case Submission => 6 case StageAttempt => 7 case MentorMessage => 8 case MentorThread => 9
    case NodeTraversal => 10 case ShareCard => 11 case Enrollment => 12 case Entitlement => 13
    case Membership => 14 case Event => 15 case Review => 16 case User => 17
  }

  // ---------------------------------------------------------------- referential actions

  /** `onDelete` of a foreign key. */
  datatype Action = Restrict | Cascade | SetNull

  function ActionOn(child: Name, parent: Name): Action {
    match (child, parent)
    case (Run, Submission) => Restrict
    case (Submission, StageAttempt) => Restrict
    case (Grade, StageAttempt) => Restrict
    case (Grade, Submission) => SetNull
    case (DeviceCodeFlow, User) => SetNull
    case (Event, User) => SetNull
    case (Review, User) => SetNull
    case _ => Cascade
  }

  /** The tables with a foreign key to `parent`. */
  function Dependents(parent: Name): (children: seq<Name>)
    ensures forall c :: c in children <==> parent in Required(c) + Optional(c)
    ensures forall c | c in children :: Position(c) < Position(parent)
  {
    match parent
    case Submission => [Run, Grade]
    case StageAttempt => [Submission, Grade]
    case MentorThread => [MentorMessage]
    case Enrollment => [StageAttempt, MentorThread, NodeTraversal, ShareCard]
    case User => [Session, Account, DeviceCodeFlow, ShareCard, Enrollment, Entitlement, Membership, Event, Review]
    case _ => []
  }

  function Minus(db: Db, name: Name, ids: set<string>): Db {
    if name in db then db[name := db[name] - ids] else db
  }

  function Unlinked(row: Row, p: Name, ids: set<string>): Row {
    if PointsInto(row, p, ids) then row.(refs := row.refs - {p}) else row
  }

  function UnlinkAll(t: Table, p: Name, ids: set<string>): Table {
    map id | id in t :: Unlinked(t[id], p, ids)
  }

  /** Delete rows of a table, with what their deletion does below; `None` if a `Restrict` refuses it. */
  function Remove(db: Db, name: Name, ids: set<string>): Option<Db>
    decreases Position(name), |Dependents(name)| + 1
  {
    Follow(Minus(db, name, ids), Dependents(name), name, ids)
  }

  function Follow(db: Db, children: seq<Name>, parent: Name, gone: set<string>): Option<Db>
    requires forall c | c in children :: Position(c) < Position(parent)
    decreases Position(parent), |children|
  {
    if children == [] then Some(db)
    else
      var next := Act(db, children[0], parent, gone);
      if next.None? then None else Follow(next.value, children[1..], parent, gone)
  }

  function Act(db: Db, child: Name, parent: Name, gone: set<string>): Option<Db>
    requires Position(child) < Position(parent)
    decreases Position(parent), 0
  {
    var hit := ChildrenOf(db, child, parent, gone);
    if hit == {} then Some(db)
    else
      match ActionOn(child, parent)
      case Restrict => None
      case SetNull => Some(if child in db then db[child := UnlinkAll(db[child], parent, gone)] else db)
      case Cascade => Remove(db, child, hit)
  }

  /** Where nothing points to what is gone, nothing follows. */
  lemma {:induction false} NothingFollows(db: Db, children: seq<Name>, parent: Name, gone: set<string>)
    requires forall c | c in children :: Position(c) < Position(parent) && ChildrenOf(db, c, parent, gone) == {}
    ensures Follow(db, children, parent, gone) == Some(db)
    decreases |children|
  {
    hide ChildrenOf, Position;
    if children != [] {
      NothingFollows(db, children[1..], parent, gone);
    }
  }

  lemma NoChildren(db: Db, name: Name, p: Name, ids: set<string>)
    requires ChildrenOf(db, name, p, ids) == {}
    ensures forall id | id in T(db, name) :: !PointsInto(T(db, name)[id], p, ids)
  {
    forall id | id in T(db, name) ensures !PointsInto(T(db, name)[id], p, ids) {
      assert id !in ChildrenOf(db, name, p, ids);
    }
  }

  lemma RemoveNothing(db: Db, name: Name)
    ensures Remove(db, name, {}) == Some(db)
  {
    if name in db { assert db[name] - {} == db[name]; }
    assert Minus(db, name, {}) == db;
    assert forall c :: ChildrenOf(db, c, name, {}) == {};
    NothingFollows(db, Dependents(name), name, {});
  }
}
