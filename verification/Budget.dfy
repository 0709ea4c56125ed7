/** `checkBudget` of `packages/ai/src/cost-cap.ts`: requests let through one at a time never exceed a cap. */
module Budget {
  import opened Reals
  import opened SpendStore

  datatype Price = Price(inputPerMillion: Usd, outputPerMillion: Usd)

  /** An unpriced model costs nothing. */
  function EstimateRequestCost(prices: map<string, Price>, model: string, inputTokens: nat, outputTokens: nat): Usd {
    if model !in prices then 0.0
    else
      inputTokens as real / 1000000.0 * prices[model].inputPerMillion
      + outputTokens as real / 1000000.0 * prices[model].outputPerMillion
  }

  /** A request that uses no more tokens than estimated costs no more. */
  lemma FewerTokensCostLess(prices: map<string, Price>, model: string, i: nat, o: nat, i': nat, o': nat)
    requires i <= i' && o <= o'
    requires model in prices ==> prices[model].inputPerMillion >= 0.0 && prices[model].outputPerMillion >= 0.0
    ensures EstimateRequestCost(prices, model, i, o) <= EstimateRequestCost(prices, model, i', o')
  {
    if model in prices {
      ProductGrows(i as real / 1000000.0, i' as real / 1000000.0, prices[model].inputPerMillion);
      ProductGrows(o as real / 1000000.0, o' as real / 1000000.0, prices[model].outputPerMillion);
    }
  }

  /** Prices are per million tokens, and a model without one costs nothing. */
  lemma CostPerMillion(prices: map<string, Price>, model: string, inputTokens: nat, outputTokens: nat)
    ensures var cost := EstimateRequestCost(prices, model, inputTokens, outputTokens);
            if model in prices then
              cost * 1000000.0 == inputTokens as real * prices[model].inputPerMillion
                                  + outputTokens as real * prices[model].outputPerMillion
            else cost == 0.0
  {
  }

  datatype Tier = Hint | FeedbackTier

  datatype Decision = Allow | DegradeToHint | RefuseStage | RefusePackage | RefuseUser

  datatype Caps = Caps(perUserDaily: Usd, perPackage: Usd, perStage: Usd)

  function Decide(caps: Caps, userSpend: Usd, packageSpend: Usd, stageSpend: Usd, estimate: Usd, tier: Tier): Decision {
    if stageSpend + estimate > caps.perStage then RefuseStage
    else if packageSpend + estimate > caps.perPackage then RefusePackage
    else if userSpend + estimate > caps.perUserDaily then if tier == FeedbackTier then DegradeToHint else RefuseUser
    else Allow
  }

  /**
   Which decision means what: a stage over its cap goes before a package over its cap, either before a user over
   theirs; feedback then falls back to a hint, and a hint is refused.
   */
  lemma DecisionMeaning(caps: Caps, user: Usd, package: Usd, stage: Usd, estimate: Usd, tier: Tier)
    ensures var d := Decide(caps, user, package, stage, estimate, tier);
            var overStage, overPackage := stage + estimate > caps.perStage, package + estimate > caps.perPackage;
            var overUser := user + estimate > caps.perUserDaily;
            && (d == RefuseStage <==> overStage)
            && (d == RefusePackage <==> overPackage && !overStage)
            && (d == DegradeToHint <==> overUser && !overPackage && !overStage && tier == FeedbackTier)
            && (d == RefuseUser <==> overUser && !overPackage && !overStage && tier == Hint)
            && (d == Allow <==> !overUser && !overPackage && !overStage)
  {
  }

  datatype BudgetCheck = BudgetCheck(decision: Decision, perUserSpend: Usd, perPackageSpend: Usd, perStageSpend: Usd)

  /** Estimates the cost, reads the three totals (the user's read prunes), then decides. */
  method CheckBudget(store: InMemoryMentorSpendStore, caps: Caps, now: Millis, userId: string, packageId: string,
                     stageId: string, tier: Tier, prices: map<string, Price>, model: string, inputTokens: nat,
                     outputTokens: nat) returns (check: BudgetCheck)
    modifies store
    ensures store.Abstract() == Prune(old(store.Abstract()), store.windowMs, now, userId)
    ensures check.perUserSpend == Entry(store.Abstract(), userId).total
    ensures check.perPackageSpend == Total(store.packageTotal, packageId)
    ensures check.perStageSpend == Total(store.stageTotal, StageKey(packageId, stageId))
    ensures check.decision == Decide(caps, check.perUserSpend, check.perPackageSpend, check.perStageSpend,
                                     EstimateRequestCost(prices, model, inputTokens, outputTokens), tier)
  {
    hide EstimateRequestCost;
    var estimate := EstimateRequestCost(prices, model, inputTokens, outputTokens);
    var userSpend := store.PruneAndTotalUser(now, userId);
    var packageSpend := Total(store.packageTotal, packageId);
    var stageSpend := Total(store.stageTotal, StageKey(packageId, stageId));
    var decision: Decision;
    if stageSpend + estimate > caps.perStage {
      decision := RefuseStage;
    } else if packageSpend + estimate > caps.perPackage {
      decision := RefusePackage;
    } else if userSpend + estimate > caps.perUserDaily {
      decision := if tier == FeedbackTier then DegradeToHint else RefuseUser;
    } else {
      decision := Allow;
    }
    check := BudgetCheck(decision, userSpend, packageSpend, stageSpend);
  }

  // ---------------------------------------------------------------- requests, one at a time

  /** A check, and what the request really cost once it had run. */
  datatype Request = Request(checkAt: Millis, spend: Spend, tier: Tier, estimate: Usd)

  function DecisionFor(caps: Caps, windowMs: Millis, s: State, r: Request): Decision {
    var x := r.spend;
    var read := Prune(s, windowMs, r.checkAt, x.userId);
    Decide(caps, Entry(read, x.userId).total, Total(read.packageTotal, x.packageId),
           Total(read.stageTotal, StageKey(x.packageId, x.stageId)), r.estimate, r.tier)
  }

  /** What a run of requests does to the store: a read each, and a spend for those let through. */
  function OpsOf(caps: Caps, windowMs: Millis, rs: seq<Request>): seq<Op> {
    if rs == [] then []
    else
      var ops, r := OpsOf(caps, windowMs, rs[..|rs| - 1]), rs[|rs| - 1];
      ops + [ReadUser(r.checkAt, r.spend.userId)]
      + if DecisionFor(caps, windowMs, After(windowMs, ops), r) == Allow then [RecordOp(r.spend)] else []
  }

  ghost predicate OneAtATime(rs: seq<Request>) {
    && (forall i | 0 <= i < |rs| :: rs[i].checkAt <= rs[i].spend.at)
    && (forall i, j | 0 <= i < j < |rs| :: rs[i].spend.at <= rs[j].checkAt)
  }

  ghost predicate WithinEstimates(rs: seq<Request>) {
    forall i | 0 <= i < |rs| :: rs[i].spend.usd <= rs[i].estimate
  }

  function CapOf(caps: Caps, b: Bucket): Usd {
    match b
    case User(_) => caps.perUserDaily
    case Package(_) => caps.perPackage
    case Stage(_, _) | Keyed(_) => caps.perStage
  }

  /** No total of the ledger exceeds its cap: packages and stages over all time, users in every window. */
  ghost predicate CapsHold(caps: Caps, windowMs: Millis, ledger: seq<Spend>, b: Bucket) {
    if b.User? then forall t: Millis :: UserFill(ledger, b, windowMs, t) <= caps.perUserDaily
    else Spent(ledger, b) <= CapOf(caps, b)
  }

  function UserFill(ledger: seq<Spend>, b: Bucket, windowMs: Millis, t: Millis): Usd {
    SpentWithin(ledger, b, t - windowMs, t)
  }

  lemma LedgerOneMore(ops: seq<Op>, op: Op)
    ensures Ledger(ops + [op]) == Ledger(ops) + if op.RecordOp? then [op.spend] else []
  {
    assert (ops + [op])[..|ops|] == ops;
  }

  /** Letting a request through that fits, as read at `checkAt`, keeps every window of its user within the cap. */
  lemma UserCapKept(caps: Caps, windowMs: Millis, ledger: seq<Spend>, r: Request, userId: string)
    requires CapsHold(caps, windowMs, ledger, User(userId)) && Past(ledger, r.checkAt) && r.checkAt <= r.spend.at
    requires r.spend.usd <= r.estimate
    requires userId == r.spend.userId ==>
               SpentWithin(ledger, User(userId), r.checkAt - windowMs, r.checkAt) + r.estimate <= caps.perUserDaily
    ensures CapsHold(caps, windowMs, ledger + [r.spend], User(userId))
  {
    hide SpentWithin;
    var b := User(userId);
    forall t: Millis ensures UserFill(ledger + [r.spend], b, windowMs, t) <= caps.perUserDaily {
      SpentOneMore(ledger, r.spend, b, t - windowMs, t);
      assert UserFill(ledger, b, windowMs, t) <= caps.perUserDaily;
      if userId == r.spend.userId && t >= r.spend.at {
        SpentNarrower(ledger, b, r.checkAt - windowMs, t - windowMs, r.checkAt, t);
      }
    }
  }

  lemma TotalCapKept(caps: Caps, windowMs: Millis, ledger: seq<Spend>, r: Request, b: Bucket)
    requires !b.User? && CapsHold(caps, windowMs, ledger, b) && r.spend.usd <= r.estimate
    requires Counts(r.spend, b) ==> Spent(ledger, b) + r.estimate <= CapOf(caps, b)
    ensures CapsHold(caps, windowMs, ledger + [r.spend], b)
  {
    SpentOneMore(ledger, r.spend, b, 0.0, 0.0);
  }

  lemma {:induction false} OpsAreInOrder(caps: Caps, windowMs: Millis, rs: seq<Request>)
    requires OneAtATime(rs)
    ensures var ops := OpsOf(caps, windowMs, rs);
            && InOrder(ops) && (rs != [] ==> forall i | 0 <= i < |ops| :: TimeOf(ops[i]) <= rs[|rs| - 1].spend.at)
            && (rs == [] ==> ops == [])
  {
    hide DecisionFor;
    if rs != [] {
      var front := rs[..|rs| - 1];
      OpsAreInOrder(caps, windowMs, front);
      assert front != [] ==> front[|front| - 1] == rs[|rs| - 2];
    }
  }

  function DecideByLedger(caps: Caps, windowMs: Millis, ledger: seq<Spend>, r: Request): Decision {
    var x := r.spend;
    Decide(caps, SpentWithin(ledger, User(x.userId), r.checkAt - windowMs, r.checkAt),
           Spent(ledger, Package(x.packageId)), Spent(ledger, Keyed(StageKey(x.packageId, x.stageId))), r.estimate,
           r.tier)
  }

  /** What `checkBudget` read, said of the ledger. */
  lemma CheckReadsTheLedger(caps: Caps, windowMs: Millis, ops: seq<Op>, r: Request)
    requires InOrder(ops + [ReadUser(r.checkAt, r.spend.userId)])
    ensures DecisionFor(caps, windowMs, After(windowMs, ops), r) == DecideByLedger(caps, windowMs, Ledger(ops), r)
  {
    hide Spent, SpentWithin, StageKey, PruneEntry, Decide, Ledger;
    var read := ops + [ReadUser(r.checkAt, r.spend.userId)];
    assert read[..|ops|] == ops;
    ReadTotalIsWindow(windowMs, ops, r.checkAt, r.spend.userId);
    TotalsFollowLedger(windowMs, ops, r.spend.packageId, StageKey(r.spend.packageId, r.spend.stageId));
  }

  lemma {:induction false} EveryPrefixHolds(caps: Caps, windowMs: Millis, rs: seq<Request>, b: Bucket)
    requires OneAtATime(rs) && WithinEstimates(rs) && !b.Stage?
    requires caps.perUserDaily >= 0.0 && caps.perPackage >= 0.0 && caps.perStage >= 0.0
    ensures CapsHold(caps, windowMs, Ledger(OpsOf(caps, windowMs, rs)), b)
  {
    if rs == [] {
    } else {
      hide CapsHold, OpsOf, Ledger, DecideByLedger;
      EveryPrefixHolds(caps, windowMs, rs[..|rs| - 1], b);
      LedgerOfRun(caps, windowMs, rs);
      var ledger := Ledger(OpsOf(caps, windowMs, rs[..|rs| - 1]));
      if DecideByLedger(caps, windowMs, ledger, rs[|rs| - 1]) == Allow {
        AllowedKeepsCap(caps, windowMs, ledger, rs[|rs| - 1], b);
      } else {
        assert ledger + [] == ledger;
      }
    }
  }

  /** The last request of a run is decided by the ledger so far, and enters it if it is let through. */
  lemma LedgerOfRun(caps: Caps, windowMs: Millis, rs: seq<Request>)
    requires OneAtATime(rs) && WithinEstimates(rs) && rs != []
    ensures var r, ledger := rs[|rs| - 1], Ledger(OpsOf(caps, windowMs, rs[..|rs| - 1]));
            && Past(ledger, r.checkAt)
            && Ledger(OpsOf(caps, windowMs, rs))
               == ledger + if DecideByLedger(caps, windowMs, ledger, r) == Allow then [r.spend] else []
  {
    hide DecisionFor, DecideByLedger, Past, After, Ledger;
    var front, r := rs[..|rs| - 1], rs[|rs| - 1];
    var ops := OpsOf(caps, windowMs, front);
    var read := ops + [ReadUser(r.checkAt, r.spend.userId)];
    OpsAreInOrder(caps, windowMs, front);
    assert front != [] ==> front[|front| - 1] == rs[|rs| - 2];
    LedgerOneMore(ops, ReadUser(r.checkAt, r.spend.userId));
    LedgerOneMore(read, RecordOp(r.spend));
    CheckReadsTheLedger(caps, windowMs, ops, r);
    LedgerIsPast(ops, r.checkAt);
    assert read + [] == read && Ledger(ops) + [] == Ledger(ops);
  }

  lemma {:induction false} LedgerIsPast(ops: seq<Op>, now: Millis)
    requires forall i | 0 <= i < |ops| :: TimeOf(ops[i]) <= now
    ensures Past(Ledger(ops), now)
  {
    if ops != [] { LedgerIsPast(ops[..|ops| - 1], now); }
  }

  lemma AllowedKeepsCap(caps: Caps, windowMs: Millis, ledger: seq<Spend>, r: Request, b: Bucket)
    requires CapsHold(caps, windowMs, ledger, b) && Past(ledger, r.checkAt) && !b.Stage?
    requires r.checkAt <= r.spend.at && r.spend.usd <= r.estimate
    requires DecideByLedger(caps, windowMs, ledger, r) == Allow
    ensures CapsHold(caps, windowMs, ledger + [r.spend], b)
  {
    hide Spent, SpentWithin, CapsHold;
    if b.User? {
      UserCapKept(caps, windowMs, ledger, r, b.userId);
    } else {
      TotalCapKept(caps, windowMs, ledger, r, b);
    }
  }

  /**
   When requests run one at a time, only those allowed are run, and none costs more than estimated, then no
   package or stage, in the ledger or in the stored totals, ever exceeds its cap, and no user spends more than
   the daily cap in any window.
   */
  lemma NoCapIsExceeded(caps: Caps, windowMs: Millis, rs: seq<Request>, n: nat)
    requires OneAtATime(rs) && WithinEstimates(rs) && n <= |rs|
    requires caps.perUserDaily >= 0.0 && caps.perPackage >= 0.0 && caps.perStage >= 0.0
    ensures var ledger := Ledger(OpsOf(caps, windowMs, rs[..n]));
            && (forall p :: Spent(ledger, Package(p)) <= caps.perPackage)
            && (forall p, s :: Spent(ledger, Stage(p, s)) <= caps.perStage)
            && (forall u, t: Millis :: UserFill(ledger, User(u), windowMs, t) <= caps.perUserDaily)
    ensures var s := After(windowMs, OpsOf(caps, windowMs, rs[..n]));
            && (forall p :: Total(s.packageTotal, p) <= caps.perPackage)
            && (forall key :: Total(s.stageTotal, key) <= caps.perStage)
  {
    hide OpsOf, Spent, SpentWithin, Ledger, After;
    var ops := OpsOf(caps, windowMs, rs[..n]);
    var ledger, s := Ledger(ops), After(windowMs, ops);
    forall p ensures Total(s.packageTotal, p) <= caps.perPackage {
      TotalsFollowLedger(windowMs, ops, p, "");
      EveryPrefixHolds(caps, windowMs, rs[..n], Package(p));
    }
    forall key ensures Total(s.stageTotal, key) <= caps.perStage {
      TotalsFollowLedger(windowMs, ops, "", key);
      EveryPrefixHolds(caps, windowMs, rs[..n], Keyed(key));
    }
    forall p ensures Spent(ledger, Package(p)) <= caps.perPackage {
      EveryPrefixHolds(caps, windowMs, rs[..n], Package(p));
    }
    forall p, s ensures Spent(ledger, Stage(p, s)) <= caps.perStage {
      EveryPrefixHolds(caps, windowMs, rs[..n], Keyed(StageKey(p, s)));
      StageWithinKey(ledger, p, s);
    }
    forall u, t: Millis ensures UserFill(ledger, User(u), windowMs, t) <= caps.perUserDaily {
      EveryPrefixHolds(caps, windowMs, rs[..n], User(u));
    }
  }
}
