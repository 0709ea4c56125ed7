/** The sliding-window limiter of `apps/web/lib/mentor/rate-limiter.ts`, against one that forgets nothing. */
module RateLimiter {
  import opened Keys

  /** Milliseconds; JavaScript numbers are taken as reals. */
  type Millis = real

  datatype Scope = PerUser | PerUserPackage

  datatype Decision = Allowed | Refused(scope: Scope, retryAfterSeconds: int)

  datatype Config = Config(perUserLimit: int, perUserPackageLimit: int, windowMs: Millis)

  /** What the constructor insists on. */
  ghost predicate ValidConfig(cfg: Config) {
    cfg.perUserLimit > 0 && cfg.perUserPackageLimit > 0 && cfg.windowMs > 0.0
  }

  type Windows = map<string, seq<Millis>>

  datatype State = State(perUser: Windows, perUserPackage: Windows)

  function Hits(m: Windows, key: string): seq<Millis> {
    if key in m then m[key] else []
  }

  function PairKey(userId: string, packageId: string): string {
    userId + SEP + packageId
  }

  // ---------------------------------------------------------------- the two helpers

  /** The hits without the leading ones at or before the cutoff. */
  function Prune(hits: seq<Millis>, cutoff: Millis): (kept: seq<Millis>)
  {
    if hits != [] && hits[0] <= cutoff then Prune(hits[1..], cutoff) else hits
  }

  method PruneWindow(hits: seq<Millis>, cutoff: Millis) returns (kept: seq<Millis>)
    ensures kept == Prune(hits, cutoff)
  {
    var drop := 0;
    while drop < |hits| && hits[drop] <= cutoff
      invariant 0 <= drop <= |hits|
      invariant Prune(hits[drop..], cutoff) == Prune(hits, cutoff)
    {
      assert hits[drop..][1..] == hits[drop + 1..];
      drop := drop + 1;
    }
    kept := hits[drop..];
  }

  function Ceil(x: real): int {
    -((-x).Floor)
  }

  function RetryAfter(hits: seq<Millis>, cutoff: Millis): int {
    if hits == [] then 0
    else
      var seconds := Ceil((hits[0] - cutoff) / 1000.0);
      if seconds > 1 then seconds else 1
  }

  // ---------------------------------------------------------------- the limiter

  function Check(cfg: Config, s: State, now: Millis, userId: string, packageId: string): (State, Decision) {
    var cutoff := now - cfg.windowMs;
    var userHits := Prune(Hits(s.perUser, userId), cutoff);
    var pairHits := Prune(Hits(s.perUserPackage, PairKey(userId, packageId)), cutoff);
    var pruned := State(s.perUser[userId := userHits],
                        s.perUserPackage[PairKey(userId, packageId) := pairHits]);
    if |pairHits| >= cfg.perUserPackageLimit then (pruned, Refused(PerUserPackage, RetryAfter(pairHits, cutoff)))
    else if |userHits| >= cfg.perUserLimit then (pruned, Refused(PerUser, RetryAfter(userHits, cutoff)))
    else
      (State(s.perUser[userId := userHits + [now]],
             s.perUserPackage[PairKey(userId, packageId) := pairHits + [now]]), Allowed)
  }

  class InMemoryMentorRateLimiter {
    const cfg: Config
    var perUser: Windows
    var perUserPackage: Windows

    ghost function Abstract(): State
      reads this
    {
      State(perUser, perUserPackage)
    }

    constructor (cfg: Config)
      requires ValidConfig(cfg)
      ensures this.cfg == cfg && Abstract() == State(map[], map[])
    {
      this.cfg := cfg;
      perUser, perUserPackage := map[], map[];
    }

    /** The clock is read once, into `now`. */
    method CheckNow(now: Millis, userId: string, packageId: string) returns (decision: Decision)
      modifies this
      ensures (Abstract(), decision) == Check(cfg, old(Abstract()), now, userId, packageId)
    {
      var cutoff := now - cfg.windowMs;
      var pairKey := PairKey(userId, packageId);
      var userWindow := PruneWindow(Hits(perUser, userId), cutoff);
      var pairWindow := PruneWindow(Hits(perUserPackage, pairKey), cutoff);
      perUser := perUser[userId := userWindow];
      perUserPackage := perUserPackage[pairKey := pairWindow];
      if |pairWindow| >= cfg.perUserPackageLimit {
        return Refused(PerUserPackage, RetryAfter(pairWindow, cutoff));
      }
      if |userWindow| >= cfg.perUserLimit {
        return Refused(PerUser, RetryAfter(userWindow, cutoff));
      }
      perUser := perUser[userId := userWindow + [now]];
      perUserPackage := perUserPackage[pairKey := pairWindow + [now]];
      assert perUser == old(perUser)[userId := userWindow + [now]];
      assert perUserPackage == old(perUserPackage)[pairKey := pairWindow + [now]];
      decision := Allowed;
    }

    method Reset()
      modifies this
      ensures Abstract() == State(map[], map[])
    {
      perUser, perUserPackage := map[], map[];
    }
  }

  // ---------------------------------------------------------------- a limiter that keeps everything

  datatype Request = Request(at: Millis, userId: string, packageId: string)

  /** Whose requests a window counts: a user's, a pair's, or those of all pairs with one pair key. */
  datatype Who = User(userId: string) | Pair(userId: string, packageId: string) | Keyed(pairKey: string)

  predicate Concerns(r: Request, who: Who) {
    match who
    case User(u) => r.userId == u
    case Pair(u, p) => r.userId == u && r.packageId == p
    case Keyed(key) => PairKey(r.userId, r.packageId) == key
  }

  /** When the admitted requests of `who` were made. */
  function Times(admitted: seq<Request>, who: Who): seq<Millis> {
    if admitted == [] then []
    else
      var front, last := Times(admitted[..|admitted| - 1], who), admitted[|admitted| - 1];
      if Concerns(last, who) then front + [last.at] else front
  }

  /** The times in the half-open window `(from, to]`. */
  function Within(ts: seq<Millis>, from: Millis, to: Millis): seq<Millis> {
    if ts == [] then []
    else (if from < ts[0] <= to then [ts[0]] else []) + Within(ts[1..], from, to)
  }

  /** How many of the times lie in the window of length `window` that ends at `to`. */
  function Fill(ts: seq<Millis>, window: Millis, to: Millis): nat {
    |Within(ts, to - window, to)|
  }

  /** Whether requests count towards a pair by its key, as the program has it, or by the pair itself. */
  datatype Counting = ByKey | ByPair

  /** Decide from the complete list of admitted requests. */
  function DecideFromHistory(cfg: Config, admitted: seq<Request>, r: Request, counting: Counting): Decision {
    var cutoff := r.at - cfg.windowMs;
    var pair := if counting == ByKey then Keyed(PairKey(r.userId, r.packageId)) else Pair(r.userId, r.packageId);
    var pairHits := Within(Times(admitted, pair), cutoff, r.at);
    var userHits := Within(Times(admitted, User(r.userId)), cutoff, r.at);
    if |pairHits| >= cfg.perUserPackageLimit then Refused(PerUserPackage, RetryAfter(pairHits, cutoff))
    else if |userHits| >= cfg.perUserLimit then Refused(PerUser, RetryAfter(userHits, cutoff))
    else Allowed
  }

  // ---------------------------------------------------------------- runs

  datatype Run = Run(state: State, admitted: seq<Request>, decisions: seq<Decision>)

  /** The limiter's state, the requests it admitted and what it answered, after `rs`. */
  function Play(cfg: Config, rs: seq<Request>): Run {
    if rs == [] then Run(State(map[], map[]), [], [])
    else
      var before, r := Play(cfg, rs[..|rs| - 1]), rs[|rs| - 1];
      var (state, decision) := Check(cfg, before.state, r.at, r.userId, r.packageId);
      Run(state, if decision == Allowed then before.admitted + [r] else before.admitted,
          before.decisions + [decision])
  }

  /** What the limiter that keeps everything admits and answers. */
  function PlayHistory(cfg: Config, rs: seq<Request>, counting: Counting): (seq<Request>, seq<Decision>) {
    if rs == [] then ([], [])
    else
      var (admitted, decisions) := PlayHistory(cfg, rs[..|rs| - 1], counting);
      var r := rs[|rs| - 1];
      var decision := DecideFromHistory(cfg, admitted, r, counting);
      (if decision == Allowed then admitted + [r] else admitted, decisions + [decision])
  }

  ghost predicate InOrder(rs: seq<Request>) {
    forall i, j | 0 <= i < j < |rs| :: rs[i].at <= rs[j].at
  }

  ghost predicate Rising(ts: seq<Millis>) {
    forall i, j | 0 <= i < j < |ts| :: ts[i] <= ts[j]
  }

  ghost predicate AtMost(ts: seq<Millis>, bound: Millis) {
    forall i | 0 <= i < |ts| :: ts[i] <= bound
  }

  // ---------------------------------------------------------------- pruning is windowing

  lemma {:induction false} PruneTwice(ts: seq<Millis>, c: Millis, d: Millis)
    requires c <= d
    ensures Prune(Prune(ts, c), d) == Prune(ts, d)
  {
    if ts != [] && ts[0] <= c {
      PruneTwice(ts[1..], c, d);
    }
  }

  lemma {:induction false} PruneOneMore(ts: seq<Millis>, t: Millis, c: Millis)
    ensures Prune(ts + [t], c) == if Prune(ts, c) == [] then Prune([t], c) else Prune(ts, c) + [t]
  {
    if ts == [] {
      assert ts + [t] == [t];
    } else {
      assert (ts + [t])[1..] == ts[1..] + [t];
      PruneOneMore(ts[1..], t, c);
    }
  }

  lemma {:induction false} PruneIsWindow(ts: seq<Millis>, from: Millis, to: Millis)
    requires Rising(ts) && AtMost(ts, to)
    ensures Prune(ts, from) == Within(ts, from, to)
  {
    if ts != [] {
      if ts[0] <= from {
        PruneIsWindow(ts[1..], from, to);
      } else {
        AllWithin(ts, from, to);
      }
    }
  }

  lemma {:induction false} AllWithin(ts: seq<Millis>, from: Millis, to: Millis)
    requires forall i | 0 <= i < |ts| :: from < ts[i] <= to
    ensures Within(ts, from, to) == ts
  {
    if ts != [] { AllWithin(ts[1..], from, to); }
  }

  lemma {:induction false} WithinOneMore(ts: seq<Millis>, t: Millis, from: Millis, to: Millis)
    ensures Within(ts + [t], from, to) == Within(ts, from, to) + if from < t <= to then [t] else []
  {
    if ts == [] {
      assert ts + [t] == [t] && [t][1..] == [];
    } else {
      assert (ts + [t])[1..] == ts[1..] + [t];
      WithinOneMore(ts[1..], t, from, to);
    }
  }

  /** A narrower window holds no more. */
  lemma {:induction false} WithinNarrower(ts: seq<Millis>, from: Millis, to: Millis, from': Millis, to': Millis)
    requires from <= from' && forall i | 0 <= i < |ts| :: from' < ts[i] <= to' ==> ts[i] <= to
    ensures |Within(ts, from', to')| <= |Within(ts, from, to)|
  {
    if ts != [] {
      assert forall i | 0 <= i < |ts[1..]| :: ts[1..][i] == ts[i + 1];
      WithinNarrower(ts[1..], from, to, from', to');
    }
  }

  // ---------------------------------------------------------------- the invariant

  function StoredHits(s: State, who: Who): seq<Millis> {
    match who
    case User(u) => Hits(s.perUser, u)
    case Pair(u, p) => Hits(s.perUserPackage, PairKey(u, p))
    case Keyed(key) => Hits(s.perUserPackage, key)
  }

  function Limit(cfg: Config, who: Who): int {
    if who.User? then cfg.perUserLimit else cfg.perUserPackageLimit
  }

  /** From `cutoff` on, the stored window prunes to the same hits as the full list. */
  ghost predicate Tracks(s: State, admitted: seq<Request>, who: Who, cutoff: Millis) {
    forall c: Millis | c >= cutoff :: Prune(StoredHits(s, who), c) == Prune(Times(admitted, who), c)
  }

  ghost predicate Bounded(cfg: Config, admitted: seq<Request>, who: Who) {
    forall t: Millis :: Fill(Times(admitted, who), cfg.windowMs, t) <= Limit(cfg, who)
  }

  /** The admitted times of `who` never run ahead of the clock. */
  ghost predicate Timely(admitted: seq<Request>, who: Who, now: Millis) {
    Rising(Times(admitted, who)) && AtMost(Times(admitted, who), now)
  }

  ghost predicate Invariant(cfg: Config, s: State, admitted: seq<Request>, who: Who, now: Millis) {
    && Tracks(s, admitted, who, now - cfg.windowMs)
    && Bounded(cfg, admitted, who)
    && Timely(admitted, who, now)
  }

  lemma TimesOneMore(admitted: seq<Request>, r: Request, who: Who)
    ensures Times(admitted + [r], who)
         == if Concerns(r, who) then Times(admitted, who) + [r.at] else Times(admitted, who)
  {
    assert (admitted + [r])[..|admitted|] == admitted;
  }

  /** A check leaves the windows of everyone it does not concern alone. */
  lemma OtherWindowsKept(cfg: Config, s: State, r: Request, who: Who)
    requires !who.Pair? && !Concerns(r, who)
    ensures StoredHits(Check(cfg, s, r.at, r.userId, r.packageId).0, who) == StoredHits(s, who)
  {
    hide Prune, RetryAfter;
  }

  lemma OwnWindow(cfg: Config, s: State, r: Request, who: Who)
    requires !who.Pair? && Concerns(r, who)
    ensures var (s', decision) := Check(cfg, s, r.at, r.userId, r.packageId);
            var kept := Prune(StoredHits(s, who), r.at - cfg.windowMs);
            && StoredHits(s', who) == (if decision == Allowed then kept + [r.at] else kept)
            && (decision == Allowed ==> |kept| < Limit(cfg, who))
  {
    hide Prune, RetryAfter;
  }

  lemma TracksAfterCheck(cfg: Config, s: State, admitted: seq<Request>, r: Request, who: Who)
    requires cfg.windowMs > 0.0 && !who.Pair? && Concerns(r, who) && Tracks(s, admitted, who, r.at - cfg.windowMs)
    ensures var (s', decision) := Check(cfg, s, r.at, r.userId, r.packageId);
            Tracks(s', if decision == Allowed then admitted + [r] else admitted, who, r.at - cfg.windowMs)
  {
    hide Check, Prune, Times, StoredHits;
    var (s', decision) := Check(cfg, s, r.at, r.userId, r.packageId);
    var cutoff := r.at - cfg.windowMs;
    var hits, ts := StoredHits(s, who), Times(admitted, who);
    OwnWindow(cfg, s, r, who);
    TimesOneMore(admitted, r, who);
    forall c: Millis | c >= cutoff
      ensures Prune(StoredHits(s', who), c)
           == Prune(Times(if decision == Allowed then admitted + [r] else admitted, who), c)
    {
      PruneTwice(hits, cutoff, c);
      PruneOneMore(Prune(hits, cutoff), r.at, c);
      PruneOneMore(ts, r.at, c);
    }
  }

  lemma TracksUnconcerned(cfg: Config, s: State, admitted: seq<Request>, r: Request, who: Who)
    requires !who.Pair? && !Concerns(r, who)
    requires Tracks(s, admitted, who, r.at - cfg.windowMs)
    requires Bounded(cfg, admitted, who)
    ensures var (s', decision) := Check(cfg, s, r.at, r.userId, r.packageId);
            var admitted' := if decision == Allowed then admitted + [r] else admitted;
            Tracks(s', admitted', who, r.at - cfg.windowMs) && Bounded(cfg, admitted', who)
  {
    hide Check, Prune, Times, Within;
    OtherWindowsKept(cfg, s, r, who);
    TimesOneMore(admitted, r, who);
  }

  lemma TracksLater(s: State, admitted: seq<Request>, who: Who, c: Millis, d: Millis)
    requires Tracks(s, admitted, who, c) && c <= d
    ensures Tracks(s, admitted, who, d)
  {
  }

  /** Admitting at `now`, with room in the window that ends there, leaves room in every window. */
  lemma BoundedOneMore(cfg: Config, admitted: seq<Request>, r: Request, who: Who)
    requires Bounded(cfg, admitted, who) && Timely(admitted, who, r.at) && Concerns(r, who)
    requires Fill(Times(admitted, who), cfg.windowMs, r.at) < Limit(cfg, who)
    ensures Bounded(cfg, admitted + [r], who) && Timely(admitted + [r], who, r.at)
  {
    hide Within, Times;
    var ts := Times(admitted, who);
    TimesOneMore(admitted, r, who);
    forall t: Millis ensures Fill(ts + [r.at], cfg.windowMs, t) <= Limit(cfg, who) {
      assert Fill(ts, cfg.windowMs, t) <= Limit(cfg, who);
      WithinOneMore(ts, r.at, t - cfg.windowMs, t);
      if t >= r.at {
        WithinNarrower(ts, r.at - cfg.windowMs, r.at, t - cfg.windowMs, t);
      }
    }
  }

  lemma CheckKeepsInvariant(cfg: Config, s: State, admitted: seq<Request>, r: Request, who: Who, before: Millis)
    requires ValidConfig(cfg) && !who.Pair?
    requires Invariant(cfg, s, admitted, who, before) && before <= r.at
    ensures var (s', decision) := Check(cfg, s, r.at, r.userId, r.packageId);
            Invariant(cfg, s', if decision == Allowed then admitted + [r] else admitted, who, r.at)
  {
    hide Check, Prune, Within, Times, Tracks, Bounded;
    var cutoff := r.at - cfg.windowMs;
    TracksLater(s, admitted, who, before - cfg.windowMs, cutoff);
    TimesOneMore(admitted, r, who);
    if Concerns(r, who) {
      OwnWindow(cfg, s, r, who);
      TracksAfterCheck(cfg, s, admitted, r, who);
      PruneIsWindow(Times(admitted, who), cutoff, r.at);
      if Check(cfg, s, r.at, r.userId, r.packageId).1 == Allowed {
        BoundedOneMore(cfg, admitted, r, who);
      }
    } else {
      TracksUnconcerned(cfg, s, admitted, r, who);
    }
  }

  /** A state that tracks the history decides like the history. */
  lemma CheckDecidesLikeHistory(cfg: Config, s: State, admitted: seq<Request>, r: Request, before: Millis)
    requires before <= r.at
    requires Invariant(cfg, s, admitted, User(r.userId), before)
    requires Invariant(cfg, s, admitted, Keyed(PairKey(r.userId, r.packageId)), before)
    ensures Check(cfg, s, r.at, r.userId, r.packageId).1 == DecideFromHistory(cfg, admitted, r, ByKey)
  {
    hide Prune, Within, Times, RetryAfter, Bounded;
    var cutoff := r.at - cfg.windowMs;
    var user, pair := User(r.userId), Keyed(PairKey(r.userId, r.packageId));
    assert Prune(StoredHits(s, user), cutoff) == Prune(Times(admitted, user), cutoff);
    assert Prune(StoredHits(s, pair), cutoff) == Prune(Times(admitted, pair), cutoff);
    PruneIsWindow(Times(admitted, user), cutoff, r.at);
    PruneIsWindow(Times(admitted, pair), cutoff, r.at);
  }

  /** The clock after a run, starting at `start`. */
  function Clock(rs: seq<Request>, start: Millis): Millis {
    if rs == [] then start else rs[|rs| - 1].at
  }

  lemma {:induction false} PlayKeepsInvariant(cfg: Config, rs: seq<Request>, who: Who, start: Millis)
    requires ValidConfig(cfg) && InOrder(rs) && !who.Pair?
    requires rs != [] ==> start <= rs[0].at
    ensures var run := Play(cfg, rs); Invariant(cfg, run.state, run.admitted, who, Clock(rs, start))
  {
    if rs == [] {
    } else {
      hide Check, Invariant;
      var front, r := rs[..|rs| - 1], rs[|rs| - 1];
      PlayKeepsInvariant(cfg, front, who, start);
      var before := Play(cfg, front);
      CheckKeepsInvariant(cfg, before.state, before.admitted, r, who, Clock(front, start));
    }
  }

  /**
   The windows kept in memory lose nothing that matters: on every run with a clock that does not go back, the
   limiter answers and admits exactly what one with the complete history does, whatever the ids.
   */
  lemma {:induction false} LimiterAgreesWithHistory(cfg: Config, rs: seq<Request>)
    requires ValidConfig(cfg) && InOrder(rs)
    ensures (Play(cfg, rs).admitted, Play(cfg, rs).decisions) == PlayHistory(cfg, rs, ByKey)
  {
    hide Check, Invariant, DecideFromHistory;
    if rs != [] {
      var front, r := rs[..|rs| - 1], rs[|rs| - 1];
      LimiterAgreesWithHistory(cfg, front);
      var before := Play(cfg, front);
      PlayKeepsInvariant(cfg, front, User(r.userId), rs[0].at);
      PlayKeepsInvariant(cfg, front, Keyed(PairKey(r.userId, r.packageId)), rs[0].at);
      CheckDecidesLikeHistory(cfg, before.state, before.admitted, r, Clock(front, rs[0].at));
    }
  }

  /** A pair may share the window of its key, and counts no more than the window does. */
  lemma {:induction false} PairWithinKey(admitted: seq<Request>, userId: string, packageId: string, window: Millis,
                                         t: Millis)
    ensures Fill(Times(admitted, Pair(userId, packageId)), window, t)
         <= Fill(Times(admitted, Keyed(PairKey(userId, packageId))), window, t)
  {
    hide Within;
    if admitted != [] {
      var front, last := admitted[..|admitted| - 1], admitted[|admitted| - 1];
      PairWithinKey(front, userId, packageId, window, t);
      WithinOneMore(Times(front, Pair(userId, packageId)), last.at, t - window, t);
      WithinOneMore(Times(front, Keyed(PairKey(userId, packageId))), last.at, t - window, t);
    }
  }

  /**
   No window of any run, ending at any instant, holds more admitted requests than its limit: for users and for
   pairs, whatever their ids look like.
   */
  lemma NoWindowOverflows(cfg: Config, rs: seq<Request>, who: Who, t: Millis)
    requires ValidConfig(cfg) && InOrder(rs)
    ensures Fill(Times(Play(cfg, rs).admitted, who), cfg.windowMs, t) <= Limit(cfg, who)
  {
    hide Play, Within, Times, Prune;
    var start := if rs == [] then 0.0 else rs[0].at;
    if who.Pair? {
      var window := Keyed(PairKey(who.userId, who.packageId));
      PlayKeepsInvariant(cfg, rs, window, start);
      PairWithinKey(Play(cfg, rs).admitted, who.userId, who.packageId, cfg.windowMs, t);
      assert Fill(Times(Play(cfg, rs).admitted, window), cfg.windowMs, t) <= Limit(cfg, window);
    } else {
      PlayKeepsInvariant(cfg, rs, who, start);
    }
  }

  // ---------------------------------------------------------------- the wait

  /** The window a refusal names. */
  function WindowOf(scope: Scope, r: Request): Who {
    if scope == PerUser then User(r.userId) else Keyed(PairKey(r.userId, r.packageId))
  }

  /** How full the window of `who` is `seconds` later, if nothing else is admitted. */
  function FillAfter(cfg: Config, admitted: seq<Request>, who: Who, now: Millis, seconds: int): nat {
    Fill(Times(admitted, who), cfg.windowMs, now + 1000.0 * seconds as real)
  }

  lemma {:induction false} WindowFreesWithOldest(ts: seq<Millis>, from: Millis, to: Millis, from': Millis, to': Millis)
    requires Rising(ts) && AtMost(ts, to) && from <= from' && to <= to' && Within(ts, from, to) != []
    ensures var w := Within(ts, from, to);
            |Within(ts, from', to')| < |w| <==> w[0] <= from'
  {
    hide Within;
    PruneIsWindow(ts, from, to);
    assert AtMost(ts, to');
    PruneIsWindow(ts, from', to');
    PruneTwice(ts, from, from');
    PruneShortens(Within(ts, from, to), from');
  }

  lemma {:induction false} PruneShortens(ts: seq<Millis>, c: Millis)
    ensures |Prune(ts, c)| <= |ts|
    ensures |Prune(ts, c)| < |ts| <==> ts != [] && ts[0] <= c
  {
    if ts != [] && ts[0] <= c { PruneShortens(ts[1..], c); }
  }

  /**
   The wait the limiter answers a refusal with is the least whole number of seconds after which the window that
   refused has room again, if nothing else is admitted meanwhile: on every run, whatever the ids.
   */
  lemma WaitIsLeast(cfg: Config, rs: seq<Request>, r: Request, seconds: nat)
    requires ValidConfig(cfg) && InOrder(rs + [r])
    ensures var run := Play(cfg, rs);
            var decision := Check(cfg, run.state, r.at, r.userId, r.packageId).1;
            decision.Refused? ==>
              var who := WindowOf(decision.scope, r);
              FillAfter(cfg, run.admitted, who, r.at, seconds) < Limit(cfg, who)
              <==> seconds >= decision.retryAfterSeconds
  {
    hide Play, Within, Times, Prune, RetryAfter, Check;
    var run := Play(cfg, rs);
    assert forall i | 0 <= i < |rs| :: (rs + [r])[i] == rs[i];
    assert (rs + [r])[|rs|] == r;
    var start := if rs == [] then r.at else rs[0].at;
    var user, window := User(r.userId), Keyed(PairKey(r.userId, r.packageId));
    PlayKeepsInvariant(cfg, rs, user, start);
    PlayKeepsInvariant(cfg, rs, window, start);
    CheckDecidesLikeHistory(cfg, run.state, run.admitted, r, Clock(rs, start));
    NoWindowOverflows(cfg, rs, user, r.at);
    NoWindowOverflows(cfg, rs, window, r.at);
    FullWindowFrees(Times(run.admitted, user), cfg.windowMs, r.at, seconds);
    FullWindowFrees(Times(run.admitted, window), cfg.windowMs, r.at, seconds);
  }

  /** A window that holds something loses its oldest hit after exactly the wait computed from that hit. */
  lemma FullWindowFrees(ts: seq<Millis>, window: Millis, now: Millis, seconds: nat)
    requires Rising(ts) && AtMost(ts, now)
    ensures var hits := Within(ts, now - window, now);
            hits != [] ==>
              (Fill(ts, window, now + 1000.0 * seconds as real) < |hits| <==> seconds >= RetryAfter(hits, now - window))
  {
    hide Within;
    var cutoff, at := now - window, now + 1000.0 * seconds as real;
    if Within(ts, cutoff, now) != [] {
      WindowFreesWithOldest(ts, cutoff, now, at - window, at);
      var oldest := Within(ts, cutoff, now)[0];
      OldestIsInside(ts, cutoff, now);
    }
  }

  lemma {:induction false} OldestIsInside(ts: seq<Millis>, from: Millis, to: Millis)
    requires Within(ts, from, to) != []
    ensures from < Within(ts, from, to)[0]
  {
    if !(from < ts[0] <= to) { OldestIsInside(ts[1..], from, to); }
  }

  // ---------------------------------------------------------------- pairs that share a window

  type PairIds = (string, string)

  ghost predicate AmongPairs(rs: seq<Request>, pairs: set<PairIds>) {
    forall r | r in rs :: (r.userId, r.packageId) in pairs
  }

  /** No two of the pairs have one pair key. */
  ghost predicate KeysDiffer(pairs: set<PairIds>) {
    forall a, b | a in pairs && b in pairs && PairKey(a.0, a.1) == PairKey(b.0, b.1) :: a == b
  }

  /** On every run over the pairs, under every configuration, each pair is counted by itself. */
  ghost predicate EachPairByItself(pairs: set<PairIds>) {
    forall cfg, rs | ValidConfig(cfg) && InOrder(rs) && AmongPairs(rs, pairs) ::
      (Play(cfg, rs).admitted, Play(cfg, rs).decisions) == PlayHistory(cfg, rs, ByPair)
  }

  /** Over a set of pairs the limiter counts each pair by itself if and only if their keys differ. */
  lemma PairsCountByThemselves(pairs: set<PairIds>)
    ensures EachPairByItself(pairs) <==> KeysDiffer(pairs)
  {
    hide Play, PlayHistory, InOrder;
    if KeysDiffer(pairs) {
      forall cfg, rs | ValidConfig(cfg) && InOrder(rs) && AmongPairs(rs, pairs)
        ensures (Play(cfg, rs).admitted, Play(cfg, rs).decisions) == PlayHistory(cfg, rs, ByPair)
      {
        LimiterAgreesWithHistory(cfg, rs);
        HistoriesAgree(cfg, rs, pairs);
      }
    } else {
      var a, b :| a in pairs && b in pairs && PairKey(a.0, a.1) == PairKey(b.0, b.1) && a != b;
      SharedWindowShows(a, b);
      var rs := [Request(0.0, a.0, a.1), Request(0.0, b.0, b.1)];
      assert AmongPairs(rs, pairs);
    }
  }

  lemma {:induction false} HistoriesAgree(cfg: Config, rs: seq<Request>, pairs: set<PairIds>)
    requires KeysDiffer(pairs) && AmongPairs(rs, pairs)
    ensures PlayHistory(cfg, rs, ByPair) == PlayHistory(cfg, rs, ByKey)
    ensures AmongPairs(PlayHistory(cfg, rs, ByKey).0, pairs)
  {
    hide KeysDiffer;
    if rs != [] {
      var front, r := rs[..|rs| - 1], rs[|rs| - 1];
      assert r in rs && forall q | q in front :: q in rs;
      HistoriesAgree(cfg, front, pairs);
      PairTimesAreKeyTimes(PlayHistory(cfg, front, ByKey).0, (r.userId, r.packageId), pairs);
    }
  }

  lemma {:induction false} PairTimesAreKeyTimes(admitted: seq<Request>, p: PairIds, pairs: set<PairIds>)
    requires KeysDiffer(pairs) && AmongPairs(admitted, pairs) && p in pairs
    ensures Times(admitted, Pair(p.0, p.1)) == Times(admitted, Keyed(PairKey(p.0, p.1)))
  {
    if admitted != [] {
      var front, last := admitted[..|admitted| - 1], admitted[|admitted| - 1];
      assert last in admitted && forall q | q in front :: q in admitted;
      PairTimesAreKeyTimes(front, p, pairs);
      assert (last.userId, last.packageId) in pairs;
    }
  }

  /** Two pairs with one key: the second pair's first request is refused for the first pair's. */
  lemma SharedWindowShows(a: PairIds, b: PairIds)
    requires PairKey(a.0, a.1) == PairKey(b.0, b.1) && a != b
    ensures var cfg, rs := Config(9, 1, 1000.0), [Request(0.0, a.0, a.1), Request(0.0, b.0, b.1)];
            && ValidConfig(cfg) && InOrder(rs)
            && PlayHistory(cfg, rs, ByPair).1 == [Allowed, Allowed]
            && Play(cfg, rs).decisions != [Allowed, Allowed]
  {
    hide Play, RetryAfter, PairKey, PlayHistory, DecideFromHistory, Within, Times;
    var cfg, r, q := Config(9, 1, 1000.0), Request(0.0, a.0, a.1), Request(0.0, b.0, b.1);
    LimiterAgreesWithHistory(cfg, [r, q]);
    TwoRequests(cfg, r, q, ByPair);
    TwoRequests(cfg, r, q, ByKey);
    SecondDecision(r, q);
  }

  lemma TwoRequests(cfg: Config, r: Request, q: Request, counting: Counting)
    ensures DecideFromHistory(cfg, [], r, counting) == Allowed ==>
              PlayHistory(cfg, [r, q], counting).1 == [Allowed, DecideFromHistory(cfg, [r], q, counting)]
  {
    hide DecideFromHistory;
    assert [r, q][..1] == [r] && [r][..0] == [];
    assert PlayHistory(cfg, [], counting) == ([], []);
    var (admitted, decisions) := PlayHistory(cfg, [r], counting);
    assert decisions == [DecideFromHistory(cfg, [], r, counting)];
    if DecideFromHistory(cfg, [], r, counting) == Allowed {
      assert admitted == [r];
      assert PlayHistory(cfg, [r, q], counting).1 == decisions + [DecideFromHistory(cfg, [r], q, counting)];
    }
  }

  lemma SecondDecision(r: Request, q: Request)
    requires r.at == q.at == 0.0 && !Concerns(r, Pair(q.userId, q.packageId))
    requires Concerns(r, Keyed(PairKey(q.userId, q.packageId)))
    ensures var cfg := Config(9, 1, 1000.0);
            && (forall c :: DecideFromHistory(cfg, [], r, c) == Allowed)
            && DecideFromHistory(cfg, [r], q, ByPair) == Allowed
            && DecideFromHistory(cfg, [r], q, ByKey) != Allowed
  {
    hide RetryAfter, PairKey, Within, Times, Concerns;
    OneAdmitted(r, User(q.userId), -1000.0, 0.0);
    OneAdmitted(r, Pair(q.userId, q.packageId), -1000.0, 0.0);
    OneAdmitted(r, Keyed(PairKey(q.userId, q.packageId)), -1000.0, 0.0);
    NoneAdmitted(User(r.userId), -1000.0, 0.0);
    NoneAdmitted(Pair(r.userId, r.packageId), -1000.0, 0.0);
    NoneAdmitted(Keyed(PairKey(r.userId, r.packageId)), -1000.0, 0.0);
  }

  lemma NoneAdmitted(who: Who, from: Millis, to: Millis)
    ensures Within(Times([], who), from, to) == []
  {
  }

  lemma OneAdmitted(r: Request, who: Who, from: Millis, to: Millis)
    requires from < r.at <= to
    ensures Within(Times([r], who), from, to) == if Concerns(r, who) then [r.at] else []
  {
    hide Concerns;
    assert [r][..0] == [];
    assert [] + [r.at] == [r.at] && [r.at][1..] == [];
  }

  /** A user id with the separator in it lets one pair be refused for another's request. */
  lemma PairWindowsCanCollide()
    ensures var rs := [Request(0.0, "a::b", "c"), Request(0.0, "a", "b::c")];
            Play(Config(9, 1, 1000.0), rs).decisions != PlayHistory(Config(9, 1, 1000.0), rs, ByPair).1
  {
    hide Play, PlayHistory;
    assert PairKey("a::b", "c") == PairKey("a", "b::c");
    SharedWindowShows(("a::b", "c"), ("a", "b::c"));
  }

  /** User ids that keys can be taken apart at make all keys differ. */
  lemma SeparableKeysDiffer(pairs: set<PairIds>)
    requires forall p | p in pairs :: Separable(p.0)
    ensures KeysDiffer(pairs)
  {
    hide Separable;
    forall a, b | a in pairs && b in pairs && PairKey(a.0, a.1) == PairKey(b.0, b.1) ensures a == b {
      SeparableIsCancellable(a.0, a.1, b.0, b.1);
    }
  }
}
