/**
 The mentor spend ledger of `apps/web/lib/mentor/spend-store.ts` and the budget check of
 `packages/ai/src/cost-cap.ts`. Amounts and times are reals.
 */
module SpendStore {
  import opened Keys

  type Millis = real

  type Usd = real

  datatype Hit = Hit(at: Millis, usd: Usd)

  datatype UserEntry = UserEntry(hits: seq<Hit>, total: Usd)

  const NO_ENTRY := UserEntry([], 0.0)

  datatype State = State(userDaily: map<string, UserEntry>, packageTotal: map<string, Usd>,
                         stageTotal: map<string, Usd>)

  const EMPTY := State(map[], map[], map[])

  datatype Spend = Spend(at: Millis, userId: string, packageId: string, stageId: string, usd: Usd)

  function StageKey(packageId: string, stageId: string): string {
    packageId + SEP + stageId
  }

  function Total(m: map<string, Usd>, key: string): Usd {
    if key in m then m[key] else 0.0
  }

  function Entry(s: State, userId: string): UserEntry {
    if userId in s.userDaily then s.userDaily[userId] else NO_ENTRY
  }

  // ---------------------------------------------------------------- the store

  /** A spend that is not positive leaves no trace. */
  function Record(s: State, x: Spend): State {
    if x.usd <= 0.0 then s
    else
      var e := Entry(s, x.userId);
      State(s.userDaily[x.userId := UserEntry(e.hits + [Hit(x.at, x.usd)], e.total + x.usd)],
            s.packageTotal[x.packageId := Total(s.packageTotal, x.packageId) + x.usd],
            s.stageTotal[StageKey(x.packageId, x.stageId) :=
              Total(s.stageTotal, StageKey(x.packageId, x.stageId)) + x.usd])
  }

  function Sum(hits: seq<Hit>): Usd {
    if hits == [] then 0.0 else hits[0].usd + Sum(hits[1..])
  }

  /** How many leading hits are at or before the cutoff. */
  function Expired(hits: seq<Hit>, cutoff: Millis): (n: nat)
    ensures n <= |hits|
  {
    if hits != [] && hits[0].at <= cutoff then 1 + Expired(hits[1..], cutoff) else 0
  }

  /** Drop the expired hits and take their sum off the running total. */
  function PruneEntry(e: UserEntry, cutoff: Millis): UserEntry {
    var n := Expired(e.hits, cutoff);
    if n == 0 then e
    else
      var left := e.total - Sum(e.hits[..n]);
      UserEntry(e.hits[n..], if left < 0.0 then 0.0 else left)
  }

  function Prune(s: State, windowMs: Millis, now: Millis, userId: string): State {
    if userId !in s.userDaily then s
    else s.(userDaily := s.userDaily[userId := PruneEntry(s.userDaily[userId], now - windowMs)])
  }

  class InMemoryMentorSpendStore {
    const windowMs: Millis
    var userDaily: map<string, UserEntry>
    var packageTotal: map<string, Usd>
    var stageTotal: map<string, Usd>

    ghost function Abstract(): State
      reads this
    {
      State(userDaily, packageTotal, stageTotal)
    }

    constructor (windowMs: Millis)
      requires windowMs > 0.0
      ensures this.windowMs == windowMs && Abstract() == EMPTY
    {
      this.windowMs := windowMs;
      userDaily, packageTotal, stageTotal := map[], map[], map[];
    }

    method RecordSpend(x: Spend)
      modifies this
      ensures Abstract() == Record(old(Abstract()), x)
    {
      if x.usd <= 0.0 { return; }
      var e := if x.userId in userDaily then userDaily[x.userId] else NO_ENTRY;
      userDaily := userDaily[x.userId := UserEntry(e.hits + [Hit(x.at, x.usd)], e.total + x.usd)];
      packageTotal := packageTotal[x.packageId := Total(packageTotal, x.packageId) + x.usd];
      var sk := StageKey(x.packageId, x.stageId);
      stageTotal := stageTotal[sk := Total(stageTotal, sk) + x.usd];
    }

    method PruneAndTotalUser(now: Millis, userId: string) returns (total: Usd)
      modifies this
      ensures Abstract() == Prune(old(Abstract()), windowMs, now, userId)
      ensures total == Entry(Abstract(), userId).total
    {
      if userId !in userDaily { return 0.0; }
      var entry := userDaily[userId];
      var cutoff := now - windowMs;
      var drop, droppedSum := 0, 0.0;
      while drop < |entry.hits| && entry.hits[drop].at <= cutoff
        invariant 0 <= drop <= |entry.hits|
        invariant Expired(entry.hits, cutoff) == drop + Expired(entry.hits[drop..], cutoff)
        invariant droppedSum == Sum(entry.hits[..drop])
        invariant Abstract() == old(Abstract())
      {
        SumOneMore(entry.hits[..drop], entry.hits[drop]);
        assert entry.hits[..drop + 1] == entry.hits[..drop] + [entry.hits[drop]];
        assert entry.hits[drop..][1..] == entry.hits[drop + 1..];
        droppedSum := droppedSum + entry.hits[drop].usd;
        drop := drop + 1;
      }
      assert Expired(entry.hits[drop..], cutoff) == 0;
      ghost var pruned := PruneEntry(entry, cutoff);
      if drop > 0 {
        var left := entry.total - droppedSum;
        entry := UserEntry(entry.hits[drop..], if left < 0.0 then 0.0 else left);
      }
      assert entry == pruned;
      userDaily := userDaily[userId := entry];
      total := entry.total;
    }
  }

  lemma {:induction false} SumOneMore(hits: seq<Hit>, h: Hit)
    ensures Sum(hits + [h]) == Sum(hits) + h.usd
  {
    if hits == [] {
      assert hits + [h] == [h] && [h][1..] == [];
    } else {
      assert (hits + [h])[1..] == hits[1..] + [h];
      SumOneMore(hits[1..], h);
    }
  }

  lemma {:induction false} SumOfParts(hits: seq<Hit>, n: nat)
    requires n <= |hits|
    ensures Sum(hits) == Sum(hits[..n]) + Sum(hits[n..])
  {
    if n > 0 {
      SumOfParts(hits[1..], n - 1);
      assert hits[..n][1..] == hits[1..][..n - 1];
    } else {
      assert hits[0..] == hits;
    }
  }

  // ---------------------------------------------------------------- the full ledger

  /** What a spend counts towards: a user, a package, a stage, or all stages with one stage key. */
  datatype Bucket =
    | User(userId: string)
    | Package(packageId: string)
    | Stage(packageId: string, stageId: string)
    | Keyed(stageKey: string)

  predicate Counts(x: Spend, b: Bucket) {
    match b
    case User(u) => x.userId == u
    case Package(p) => x.packageId == p
    case Stage(p, s) => x.packageId == p && x.stageId == s
    case Keyed(key) => StageKey(x.packageId, x.stageId) == key
  }

  /** The recorded spend of a bucket with `from < at <= to`. */
  function SpentWithin(ledger: seq<Spend>, b: Bucket, from: Millis, to: Millis): Usd {
    if ledger == [] then 0.0
    else
      var x := ledger[|ledger| - 1];
      SpentWithin(ledger[..|ledger| - 1], b, from, to)
      + if Counts(x, b) && from < x.at <= to && x.usd > 0.0 then x.usd else 0.0
  }

  function Spent(ledger: seq<Spend>, b: Bucket): Usd {
    if ledger == [] then 0.0
    else
      var x := ledger[|ledger| - 1];
      Spent(ledger[..|ledger| - 1], b) + if Counts(x, b) && x.usd > 0.0 then x.usd else 0.0
  }

  lemma SpentOneMore(ledger: seq<Spend>, x: Spend, b: Bucket, from: Millis, to: Millis)
    ensures SpentWithin(ledger + [x], b, from, to) == SpentWithin(ledger, b, from, to)
            + if Counts(x, b) && from < x.at <= to && x.usd > 0.0 then x.usd else 0.0
    ensures Spent(ledger + [x], b) == Spent(ledger, b) + if Counts(x, b) && x.usd > 0.0 then x.usd else 0.0
  {
    assert (ledger + [x])[..|ledger|] == ledger;
  }

  ghost predicate Past(ledger: seq<Spend>, now: Millis) {
    forall x | x in ledger :: x.at <= now
  }

  /** A window that starts later and ends no earlier than anything recorded holds no more. */
  lemma {:induction false} SpentNarrower(ledger: seq<Spend>, b: Bucket, from: Millis, from': Millis, to: Millis,
                                         to': Millis)
    requires from <= from' && Past(ledger, to)
    ensures SpentWithin(ledger, b, from', to') <= SpentWithin(ledger, b, from, to)
  {
    if ledger != [] {
      SpentNarrower(ledger[..|ledger| - 1], b, from, from', to, to');
      assert ledger[|ledger| - 1] in ledger;
    }
  }

  // ---------------------------------------------------------------- the invariant

  function SumAfter(hits: seq<Hit>, cutoff: Millis): Usd {
    if hits == [] then 0.0
    else SumAfter(hits[..|hits| - 1], cutoff) + if hits[|hits| - 1].at > cutoff then hits[|hits| - 1].usd else 0.0
  }

  ghost predicate Orderly(hits: seq<Hit>, now: Millis) {
    && (forall i, j | 0 <= i < j < |hits| :: hits[i].at <= hits[j].at)
    && (forall i | 0 <= i < |hits| :: hits[i].at <= now && hits[i].usd > 0.0)
  }

  /** The running total is the sum of the hits, which from `cutoff` on say what the ledger says. */
  ghost predicate UserTracks(s: State, ledger: seq<Spend>, userId: string, cutoff: Millis, now: Millis) {
    var e := Entry(s, userId);
    && e.total == Sum(e.hits) && Orderly(e.hits, now)
    && forall c: Millis | c >= cutoff :: SumAfter(e.hits, c) == SpentWithin(ledger, User(userId), c, now)
  }

  lemma SumAfterOneMore(hits: seq<Hit>, h: Hit, c: Millis)
    ensures SumAfter(hits + [h], c) == SumAfter(hits, c) + if h.at > c then h.usd else 0.0
  {
    assert (hits + [h])[..|hits|] == hits;
  }

  lemma {:induction false} SumAfterOfParts(hits: seq<Hit>, n: nat, c: Millis)
    requires n <= |hits| && forall i | 0 <= i < n :: hits[i].at <= c
    ensures SumAfter(hits, c) == SumAfter(hits[n..], c)
  {
    if n == |hits| {
      AllExpired(hits, c);
      assert hits[n..] == [];
    } else {
      var front := hits[..|hits| - 1];
      SumAfterOfParts(front, n, c);
      assert hits[n..][..|hits[n..]| - 1] == front[n..];
    }
  }

  lemma {:induction false} AllExpired(hits: seq<Hit>, c: Millis)
    requires forall i | 0 <= i < |hits| :: hits[i].at <= c
    ensures SumAfter(hits, c) == 0.0
  {
    if hits != [] { AllExpired(hits[..|hits| - 1], c); }
  }

  lemma {:induction false} NoneExpired(hits: seq<Hit>, c: Millis)
    requires forall i | 0 <= i < |hits| :: hits[i].at > c
    ensures SumAfter(hits, c) == Sum(hits)
  {
    if hits != [] {
      var front, last := hits[..|hits| - 1], hits[|hits| - 1];
      NoneExpired(front, c);
      SumOneMore(front, last);
      assert hits == front + [last];
    }
  }

  lemma {:induction false} ExpiredIsPrefix(hits: seq<Hit>, c: Millis)
    ensures var n := Expired(hits, c);
            && (forall i | 0 <= i < n :: hits[i].at <= c)
            && (n < |hits| ==> hits[n].at > c)
  {
    if hits != [] && hits[0].at <= c {
      ExpiredIsPrefix(hits[1..], c);
    }
  }

  lemma {:induction false} SumIsNotNegative(hits: seq<Hit>)
    requires forall i | 0 <= i < |hits| :: hits[i].usd > 0.0
    ensures Sum(hits) >= 0.0
  {
    if hits != [] { SumIsNotNegative(hits[1..]); }
  }

  /** Pruning leaves the total equal to what was spent inside the window; the guard against negatives never fires. */
  lemma PruneEntryIsWindow(e: UserEntry, cutoff: Millis, now: Millis)
    requires e.total == Sum(e.hits) && Orderly(e.hits, now)
    ensures var p := PruneEntry(e, cutoff);
            && p.total == Sum(p.hits) == SumAfter(e.hits, cutoff) && Orderly(p.hits, now)
            && forall c: Millis | c >= cutoff :: SumAfter(p.hits, c) == SumAfter(e.hits, c)
  {
    hide Sum, SumAfter;
    var n := Expired(e.hits, cutoff);
    ExpiredIsPrefix(e.hits, cutoff);
    SumOfParts(e.hits, n);
    var left := e.hits[n..];
    assert e.hits[0..] == e.hits;
    SumIsNotNegative(left);
    NoneExpired(left, cutoff);
    forall c: Millis | c >= cutoff ensures SumAfter(left, c) == SumAfter(e.hits, c) {
      SumAfterOfParts(e.hits, n, c);
    }
    assert SumAfter(left, cutoff) == SumAfter(e.hits, cutoff);
  }

  lemma PruneKeepsTracking(s: State, ledger: seq<Spend>, userId: string, readBy: string, cutoff: Millis, before: Millis,
                           windowMs: Millis, now: Millis)
    requires UserTracks(s, ledger, userId, cutoff, before) && Past(ledger, before)
    requires cutoff <= now - windowMs && before <= now
    ensures UserTracks(Prune(s, windowMs, now, readBy), ledger, userId, now - windowMs, now)
    ensures readBy == userId ==>
              Entry(Prune(s, windowMs, now, readBy), userId).total ==
              SpentWithin(ledger, User(userId), now - windowMs, now)
  {
    hide SumAfter, Sum, SpentWithin, PruneEntry;
    var e := Entry(s, userId);
    PruneEntryIsWindow(e, now - windowMs, now);
    PruneNothing(now - windowMs);
    forall c: Millis | c >= cutoff ensures SumAfter(e.hits, c) == SpentWithin(ledger, User(userId), c, now) {
      LaterEndSame(ledger, User(userId), c, before, now);
      assert SumAfter(e.hits, c) == SpentWithin(ledger, User(userId), c, before);
    }
  }

  lemma PruneNothing(cutoff: Millis)
    ensures PruneEntry(NO_ENTRY, cutoff) == NO_ENTRY
  {
  }

  lemma {:induction false} LaterEndSame(ledger: seq<Spend>, b: Bucket, from: Millis, to: Millis, to': Millis)
    requires Past(ledger, to) && to <= to'
    ensures SpentWithin(ledger, b, from, to') == SpentWithin(ledger, b, from, to)
  {
    if ledger != [] {
      LaterEndSame(ledger[..|ledger| - 1], b, from, to, to');
      assert ledger[|ledger| - 1] in ledger;
    }
  }

  lemma RecordKeepsTracking(s: State, ledger: seq<Spend>, x: Spend, userId: string, cutoff: Millis, before: Millis)
    requires UserTracks(s, ledger, userId, cutoff, before) && Past(ledger, before) && before <= x.at
    ensures UserTracks(Record(s, x), ledger + [x], userId, cutoff, x.at) && Past(ledger + [x], x.at)
  {
    hide SumAfter, Sum, SpentWithin;
    var e := Entry(s, userId);
    var h := Hit(x.at, x.usd);
    SumOneMore(e.hits, h);
    forall c: Millis | c >= cutoff
      ensures SumAfter(Entry(Record(s, x), userId).hits, c) == SpentWithin(ledger + [x], User(userId), c, x.at)
    {
      assert SumAfter(e.hits, c) == SpentWithin(ledger, User(userId), c, before);
      SpentOneMore(ledger, x, User(userId), c, x.at);
      LaterEndSame(ledger, User(userId), c, before, x.at);
      SumAfterOneMore(e.hits, h, c);
    }
  }

  // ---------------------------------------------------------------- runs of the store

  /** Reads prune, spends are recorded. */
  datatype Op = ReadUser(at: Millis, userId: string) | RecordOp(spend: Spend)

  function TimeOf(op: Op): Millis {
    match op
    case ReadUser(at, _) => at
    case RecordOp(x) => x.at
  }

  function Step(windowMs: Millis, s: State, op: Op): State {
    match op
    case ReadUser(at, userId) => Prune(s, windowMs, at, userId)
    case RecordOp(x) => Record(s, x)
  }

  function After(windowMs: Millis, ops: seq<Op>): State {
    if ops == [] then EMPTY else Step(windowMs, After(windowMs, ops[..|ops| - 1]), ops[|ops| - 1])
  }

  function Ledger(ops: seq<Op>): seq<Spend> {
    if ops == [] then []
    else Ledger(ops[..|ops| - 1]) + if ops[|ops| - 1].RecordOp? then [ops[|ops| - 1].spend] else []
  }

  ghost predicate InOrder(ops: seq<Op>) {
    forall i, j | 0 <= i < j < |ops| :: TimeOf(ops[i]) <= TimeOf(ops[j])
  }

  function Clock(ops: seq<Op>, start: Millis): Millis {
    if ops == [] then start else TimeOf(ops[|ops| - 1])
  }

  lemma {:induction false} AfterTracks(windowMs: Millis, ops: seq<Op>, userId: string, start: Millis)
    requires InOrder(ops) && (ops != [] ==> start <= TimeOf(ops[0]))
    ensures UserTracks(After(windowMs, ops), Ledger(ops), userId, Clock(ops, start) - windowMs, Clock(ops, start))
    ensures Past(Ledger(ops), Clock(ops, start))
  {
    if ops == [] {
    } else {
      hide UserTracks, Record, Prune;
      var front, op := ops[..|ops| - 1], ops[|ops| - 1];
      var before := Clock(front, start);
      var s, ledger := After(windowMs, front), Ledger(front);
      AfterTracks(windowMs, front, userId, start);
      assert before <= TimeOf(op);
      match op
      case ReadUser(at, reader) =>
        PruneKeepsTracking(s, ledger, userId, reader, before - windowMs, before, windowMs, at);
        assert ledger + [] == ledger;
      case RecordOp(x) =>
        RecordKeepsTracking(s, ledger, x, userId, before - windowMs, before);
        TracksFromLater(Record(s, x), ledger + [x], userId, before - windowMs, x.at - windowMs, x.at);
    }
  }

  lemma TracksFromLater(s: State, ledger: seq<Spend>, userId: string, c: Millis, d: Millis, now: Millis)
    requires UserTracks(s, ledger, userId, c, now) && c <= d
    ensures UserTracks(s, ledger, userId, d, now)
  {
  }

  /**
   With a clock that does not go back, a user's total as read at `now` is exactly what the whole ledger says
   was spent in the window that ends there.
   */
  lemma ReadTotalIsWindow(windowMs: Millis, ops: seq<Op>, now: Millis, userId: string)
    requires InOrder(ops + [ReadUser(now, userId)])
    ensures Entry(After(windowMs, ops + [ReadUser(now, userId)]), userId).total
         == SpentWithin(Ledger(ops), User(userId), now - windowMs, now)
  {
    hide UserTracks, Prune;
    var all := ops + [ReadUser(now, userId)];
    assert forall i | 0 <= i < |ops| :: all[i] == ops[i];
    assert all[|ops|] == ReadUser(now, userId) && all[..|ops|] == ops;
    var start := if ops == [] then now else TimeOf(ops[0]);
    assert Clock(ops, start) <= now;
    AfterTracks(windowMs, ops, userId, start);
    PruneKeepsTracking(After(windowMs, ops), Ledger(ops), userId, userId, Clock(ops, start) - windowMs,
                       Clock(ops, start), windowMs, now);
  }

  // ---------------------------------------------------------------- packages and stages

  /** Package and stage totals are what the ledger says, a stage total for all stages with its key. */
  lemma {:induction false} TotalsFollowLedger(windowMs: Millis, ops: seq<Op>, packageId: string, key: string)
    ensures var s := After(windowMs, ops);
            && Total(s.packageTotal, packageId) == Spent(Ledger(ops), Package(packageId))
            && Total(s.stageTotal, key) == Spent(Ledger(ops), Keyed(key))
  {
    hide PruneEntry, Record, Counts, StageKey, Spent;
    if ops == [] {
      NothingSpent(Package(packageId));
      NothingSpent(Keyed(key));
    } else {
      var front, op := ops[..|ops| - 1], ops[|ops| - 1];
      TotalsFollowLedger(windowMs, front, packageId, key);
      match op
      case ReadUser(_, _) =>
        assert Ledger(ops) == Ledger(front);
      case RecordOp(x) =>
        SpentOneMore(Ledger(front), x, Package(packageId), 0.0, 0.0);
        SpentOneMore(Ledger(front), x, Keyed(key), 0.0, 0.0);
        RecordTotals(After(windowMs, front), x, packageId, key);
    }
  }

  lemma RecordTotals(s: State, x: Spend, packageId: string, key: string)
    ensures var s' := Record(s, x);
            && Total(s'.packageTotal, packageId)
               == Total(s.packageTotal, packageId)
                  + (if Counts(x, Package(packageId)) && x.usd > 0.0 then x.usd else 0.0)
            && Total(s'.stageTotal, key)
               == Total(s.stageTotal, key) + (if Counts(x, Keyed(key)) && x.usd > 0.0 then x.usd else 0.0)
  {
    hide StageKey;
  }

  /** A stage total never misses any of the stage's spend. */
  lemma {:induction false} StageWithinKey(ledger: seq<Spend>, packageId: string, stageId: string)
    ensures Spent(ledger, Stage(packageId, stageId)) <= Spent(ledger, Keyed(StageKey(packageId, stageId)))
  {
    hide StageKey;
    if ledger != [] { StageWithinKey(ledger[..|ledger| - 1], packageId, stageId); }
  }

  /** No positive spend of another package has the key of this stage. */
  ghost predicate KeyIsOwn(ledger: seq<Spend>, packageId: string, stageId: string) {
    forall x | x in ledger && x.usd > 0.0 && Counts(x, Keyed(StageKey(packageId, stageId))) :: x.packageId == packageId
  }

  /** The total of a stage's key is the stage's spend if and only if the key is its own. */
  lemma {:induction false} StageIsKey(ledger: seq<Spend>, packageId: string, stageId: string)
    ensures Spent(ledger, Stage(packageId, stageId)) == Spent(ledger, Keyed(StageKey(packageId, stageId)))
            <==> KeyIsOwn(ledger, packageId, stageId)
  {
    if ledger != [] {
      var front, x := ledger[..|ledger| - 1], ledger[|ledger| - 1];
      assert ledger == front + [x];
      StageIsKey(front, packageId, stageId);
      StageWithinKey(front, packageId, stageId);
      SameKeySameStage(packageId, stageId, x.stageId);
      hide StageKey;
      assert KeyIsOwn(ledger, packageId, stageId)
          <==> KeyIsOwn(front, packageId, stageId) && KeyIsOwn([x], packageId, stageId);
      assert x in [x];
    }
  }

  lemma SameKeySameStage(packageId: string, a: string, b: string)
    ensures StageKey(packageId, a) == StageKey(packageId, b) ==> a == b
  {
    assert StageKey(packageId, a)[|packageId| + 2..] == a;
    assert StageKey(packageId, b)[|packageId| + 2..] == b;
  }

  ghost predicate SeparablePackages(ledger: seq<Spend>) {
    forall x | x in ledger :: Separable(x.packageId)
  }

  /** Package ids that keys can be taken apart at make every key its stage's own. */
  lemma SeparableKeysAreOwn(ledger: seq<Spend>, packageId: string, stageId: string)
    requires SeparablePackages(ledger) && Separable(packageId)
    ensures KeyIsOwn(ledger, packageId, stageId)
  {
    hide Separable;
    forall x | x in ledger && Counts(x, Keyed(StageKey(packageId, stageId))) ensures x.packageId == packageId {
      SeparableIsCancellable(x.packageId, x.stageId, packageId, stageId);
    }
  }

  /** The stages of a package that the ledger mentions, each once. */
  function StagesOf(ledger: seq<Spend>, packageId: string): (stages: seq<string>)
    ensures forall i, j | 0 <= i < j < |stages| :: stages[i] != stages[j]
    ensures forall x | x in ledger && x.packageId == packageId :: x.stageId in stages
  {
    if ledger == [] then []
    else
      var front, x := StagesOf(ledger[..|ledger| - 1], packageId), ledger[|ledger| - 1];
      if x.packageId == packageId && x.stageId !in front then front + [x.stageId] else front
  }

  function SumStages(ledger: seq<Spend>, packageId: string, stages: seq<string>): Usd {
    if stages == [] then 0.0
    else SumStages(ledger, packageId, stages[..|stages| - 1]) + Spent(ledger, Stage(packageId, stages[|stages| - 1]))
  }

  lemma {:induction false} SumStagesOneMore(ledger: seq<Spend>, x: Spend, packageId: string, stages: seq<string>)
    requires forall i, j | 0 <= i < j < |stages| :: stages[i] != stages[j]
    ensures SumStages(ledger + [x], packageId, stages) == SumStages(ledger, packageId, stages)
            + if x.packageId == packageId && x.stageId in stages && x.usd > 0.0 then x.usd else 0.0
  {
    hide Spent;
    if stages != [] {
      var front, last := stages[..|stages| - 1], stages[|stages| - 1];
      SumStagesOneMore(ledger, x, packageId, front);
      SpentOneMore(ledger, x, Stage(packageId, last), 0.0, 0.0);
      assert stages == front + [last];
    }
  }

  lemma {:induction false} UnknownStageIsZero(ledger: seq<Spend>, packageId: string, stageId: string)
    requires forall x | x in ledger && x.packageId == packageId :: x.stageId != stageId
    ensures Spent(ledger, Stage(packageId, stageId)) == 0.0
  {
    if ledger != [] {
      assert forall x | x in ledger[..|ledger| - 1] :: x in ledger;
      UnknownStageIsZero(ledger[..|ledger| - 1], packageId, stageId);
      assert ledger[|ledger| - 1] in ledger;
    }
  }

  /** Each package total is the sum of its stage totals. */
  lemma {:induction false} PackageIsSumOfStages(ledger: seq<Spend>, packageId: string)
    ensures Spent(ledger, Package(packageId)) == SumStages(ledger, packageId, StagesOf(ledger, packageId))
  {
    hide Spent;
    if ledger == [] {
      NothingSpent(Package(packageId));
    } else {
      var front, x := ledger[..|ledger| - 1], ledger[|ledger| - 1];
      assert ledger == front + [x];
      var stages := StagesOf(front, packageId);
      PackageIsSumOfStages(front, packageId);
      SpentOneMore(front, x, Package(packageId), 0.0, 0.0);
      SumStagesOneMore(front, x, packageId, stages);
      if x.packageId == packageId && x.stageId !in stages {
        UnknownStageIsZero(front, packageId, x.stageId);
        SpentOneMore(front, x, Stage(packageId, x.stageId), 0.0, 0.0);
        assert StagesOf(ledger, packageId) == stages + [x.stageId];
        assert (stages + [x.stageId])[..|stages|] == stages;
      }
    }
  }

  function SumStageTotals(s: State, packageId: string, stages: seq<string>): Usd {
    if stages == [] then 0.0
    else SumStageTotals(s, packageId, stages[..|stages| - 1])
         + Total(s.stageTotal, StageKey(packageId, stages[|stages| - 1]))
  }

  lemma {:induction false} SumsAgree(windowMs: Millis, ops: seq<Op>, packageId: string, stages: seq<string>)
    ensures SumStages(Ledger(ops), packageId, stages) <= SumStageTotals(After(windowMs, ops), packageId, stages)
    ensures SumStages(Ledger(ops), packageId, stages) == SumStageTotals(After(windowMs, ops), packageId, stages)
            <==> forall stage | stage in stages :: KeyIsOwn(Ledger(ops), packageId, stage)
  {
    hide StageKey, Spent, After, Ledger, KeyIsOwn;
    if stages != [] {
      var front, last := stages[..|stages| - 1], stages[|stages| - 1];
      assert stages == front + [last];
      SumsAgree(windowMs, ops, packageId, front);
      TotalsFollowLedger(windowMs, ops, packageId, StageKey(packageId, last));
      StageIsKey(Ledger(ops), packageId, last);
      StageWithinKey(Ledger(ops), packageId, last);
    }
  }

  /**
   After any run, the total kept for a package is the sum of those kept for its stages if and only if no other
   package has spent anything under the key of one of them.
   */
  lemma PackageTotalIsSumOfStageTotals(windowMs: Millis, ops: seq<Op>, packageId: string)
    ensures var s, stages := After(windowMs, ops), StagesOf(Ledger(ops), packageId);
            Total(s.packageTotal, packageId) == SumStageTotals(s, packageId, stages)
            <==> forall stage | stage in stages :: KeyIsOwn(Ledger(ops), packageId, stage)
  {
    hide After, Ledger, Spent, KeyIsOwn;
    TotalsFollowLedger(windowMs, ops, packageId, "");
    PackageIsSumOfStages(Ledger(ops), packageId);
    SumsAgree(windowMs, ops, packageId, StagesOf(Ledger(ops), packageId));
  }

  /** Two packages whose stages share a total. */
  lemma StagesCanShareATotal(windowMs: Millis)
    ensures var ops := [RecordOp(Spend(0.0, "u", "p", "x::y", 1.0)), RecordOp(Spend(0.0, "u", "p::x", "y", 1.0))];
            var s := After(windowMs, ops);
            Total(s.packageTotal, "p") != SumStageTotals(s, "p", StagesOf(Ledger(ops), "p"))
  {
    var a, b := Spend(0.0, "u", "p", "x::y", 1.0), Spend(0.0, "u", "p::x", "y", 1.0);
    var ops := [RecordOp(a), RecordOp(b)];
    assert ops[..1] == [RecordOp(a)] && [RecordOp(a)][..0] == [] && Ledger([RecordOp(a)]) == [] + [a];
    assert Ledger(ops) == [a] + [b];
    assert a in Ledger(ops) && b in Ledger(ops);
    assert StageKey("p", "x::y") == StageKey("p::x", "y");
    hide StageKey, After, SumStageTotals, Ledger, StagesOf;
    assert !KeyIsOwn(Ledger(ops), "p", "x::y");
    PackageTotalIsSumOfStageTotals(windowMs, ops, "p");
  }

  lemma NothingSpent(b: Bucket)
    ensures Spent([], b) == 0.0
  {
  }
}
