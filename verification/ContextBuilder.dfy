/**
 The mentor context builder of `packages/ai/src/context-builder.ts` and its cache key
 (`packages/ai/src/context-cache.ts`): a cached build says what a fresh one would.
 */
module ContextBuilder {
  import opened Wrappers
  import opened Keys
  import opened ContextCache
  import Sorting

  datatype VisibilityRule = Always | AfterAttempt | AfterPass | AfterCompletion | Never

  datatype Scope =
    StageCopy | ArtifactRefs | Rubric | Evidence | BranchFeedback | CanonicalSolution | BranchSolutions

  /** The order in which `Object.keys` lists the scopes of a parsed policy. */
  const SCOPES := [StageCopy, ArtifactRefs, Rubric, Evidence, BranchFeedback, CanonicalSolution, BranchSolutions]

  datatype Visibility = Visibility(
    stageCopy: VisibilityRule, artifactRefs: VisibilityRule, rubric: VisibilityRule, evidence: VisibilityRule,
    branchFeedback: VisibilityRule, canonicalSolution: VisibilityRule, branchSolutions: VisibilityRule)
  {
    function Rule(scope: Scope): VisibilityRule {
      match scope
      case StageCopy => stageCopy
      case ArtifactRefs => artifactRefs
      case Rubric => rubric
      case Evidence => evidence
      case BranchFeedback => branchFeedback
      case CanonicalSolution => canonicalSolution
      case BranchSolutions => branchSolutions
    }
  }

  /** The part of a stage policy the builder reads, and the rest of it. */
  datatype StagePolicy = StagePolicy(visibility: Visibility, redactionTargets: Option<seq<string>>, other: string)

  datatype VisibilityState = VisibilityState(hasAttempt: bool, hasPassed: bool, hasCompletedPackage: bool)

  datatype Excerpt = Excerpt(ref: string, text: string)

  datatype Feedback = Feedback(branchId: string, text: string)

  /** What the loaders return for a package version and stage. */
  datatype Content = Content(artifact: (string, string, string) -> string,
                             criteria: (string, string) -> seq<string>,
                             feedback: (string, string) -> seq<Feedback>)

  /** `policyDigest` is the caller's digest or the fallback one of the policy. */
  datatype Input = Input(packageVersionId: string, stageId: string, attempt: int, policy: StagePolicy,
                         policyDigest: string, state: VisibilityState, artifactRefs: seq<string>)

  datatype MentorContext = MentorContext(
    stageId: string, attempt: int, packageVersionId: string, allowedScopes: seq<Scope>,
    artifactExcerpts: seq<Excerpt>, redactionTargets: seq<string>, policySnapshot: StagePolicy,
    rubricCriteria: Option<seq<string>>, branchFeedback: Option<seq<Feedback>>)

  // ---------------------------------------------------------------- visibility

  predicate IsVisible(rule: VisibilityRule, state: VisibilityState) {
    match rule
    case Always => true
    case AfterAttempt => state.hasAttempt
    case AfterPass => state.hasPassed
    case AfterCompletion => state.hasCompletedPackage
    case Never => false
  }

  predicate IsForbiddenAlways(scope: Scope) {
    scope == CanonicalSolution || scope == BranchSolutions
  }

  predicate Allowed(input: Input, scope: Scope) {
    var rule := input.policy.visibility.Rule(scope);
    if IsForbiddenAlways(scope) && rule == Always then false else IsVisible(rule, input.state)
  }

  function FilterScopes(input: Input, scopes: seq<Scope>): (r: seq<Scope>)
    ensures forall s :: s in r <==> s in scopes && Allowed(input, s)
  {
    if scopes == [] then []
    else
      var rest := FilterScopes(input, scopes[1..]);
      if Allowed(input, scopes[0]) then [scopes[0]] + rest else rest
  }

  // ---------------------------------------------------------------- a build without a cache

  function LoadArtifacts(content: Content, input: Input, refs: seq<string>): (es: seq<Excerpt>)
    ensures |es| == |refs|
  {
    if refs == [] then []
    else [Excerpt(refs[0], content.artifact(input.packageVersionId, input.stageId, refs[0]))]
         + LoadArtifacts(content, input, refs[1..])
  }

  function Fresh(content: Content, input: Input): MentorContext {
    MentorContext(
      input.stageId, input.attempt, input.packageVersionId,
      FilterScopes(input, SCOPES),
      if Allowed(input, ArtifactRefs) then LoadArtifacts(content, input, input.artifactRefs) else [],
      if input.policy.redactionTargets.Some? then input.policy.redactionTargets.value else [],
      input.policy,
      if Allowed(input, Rubric) then Some(content.criteria(input.packageVersionId, input.stageId)) else None,
      if Allowed(input, BranchFeedback) then Some(content.feedback(input.packageVersionId, input.stageId)) else None)
  }

  /** The event a rule waits for has happened. */
  predicate TriggerFired(rule: VisibilityRule, state: VisibilityState) {
    || (rule == AfterAttempt && state.hasAttempt)
    || (rule == AfterPass && state.hasPassed)
    || (rule == AfterCompletion && state.hasCompletedPackage)
  }

  lemma {:induction false} LoadsEachRef(content: Content, input: Input, refs: seq<string>, k: nat)
    requires k < |refs|
    ensures LoadArtifacts(content, input, refs)[k]
         == Excerpt(refs[k], content.artifact(input.packageVersionId, input.stageId, refs[k]))
  {
    if k > 0 { LoadsEachRef(content, input, refs[1..], k - 1); }
  }

  /**
   A context holds the loaded content of exactly the scopes it lists, ref by ref, and lists a solution scope
   if and only if the trigger of that scope's own rule has fired.
   */
  lemma ContextShowsWhatIsAllowed(content: Content, input: Input)
    ensures var c := Fresh(content, input);
            var pv, stage, refs := input.packageVersionId, input.stageId, input.artifactRefs;
            && c.attempt == input.attempt && c.stageId == stage && c.packageVersionId == pv
            && c.rubricCriteria == (if Rubric in c.allowedScopes then Some(content.criteria(pv, stage)) else None)
            && c.branchFeedback
               == (if BranchFeedback in c.allowedScopes then Some(content.feedback(pv, stage)) else None)
            && |c.artifactExcerpts| == (if ArtifactRefs in c.allowedScopes then |refs| else 0)
            && (forall k | 0 <= k < |c.artifactExcerpts| ::
                  c.artifactExcerpts[k] == Excerpt(refs[k], content.artifact(pv, stage, refs[k])))
            && (forall s | IsForbiddenAlways(s) ::
                  s in c.allowedScopes <==> TriggerFired(input.policy.visibility.Rule(s), input.state))
  {
    hide LoadArtifacts, FilterScopes;
    var c := Fresh(content, input);
    forall k | 0 <= k < |c.artifactExcerpts|
      ensures c.artifactExcerpts[k] == Excerpt(input.artifactRefs[k],
                content.artifact(input.packageVersionId, input.stageId, input.artifactRefs[k]))
    {
      LoadsEachRef(content, input, input.artifactRefs, k);
    }
  }

  /** The rule lets the scope be shown: its trigger has fired, or it asks for none and the scope is no solution. */
  predicate Granted(rule: VisibilityRule, scope: Scope, state: VisibilityState) {
    TriggerFired(rule, state) || (rule == Always && scope != CanonicalSolution && scope != BranchSolutions)
  }

  /** The rule a policy has for a scope. */
  function RuleOf(v: Visibility, scope: Scope): VisibilityRule {
    match scope
    case StageCopy => v.stageCopy
    case ArtifactRefs => v.artifactRefs
    case Rubric => v.rubric
    case Evidence => v.evidence
    case BranchFeedback => v.branchFeedback
    case CanonicalSolution => v.canonicalSolution
    case BranchSolutions => v.branchSolutions
  }

  /**
   The allowed scopes are exactly the granted ones, each once and in the order of the policy; targets and policy are
   handed on.
   */
  lemma GrantedScopesAreListed(content: Content, input: Input)
    ensures var c := Fresh(content, input);
            && (forall s :: s in c.allowedScopes <==>
                  Granted(RuleOf(input.policy.visibility, s), s, input.state))
            && InOrder(c.allowedScopes)
            && c.policySnapshot == input.policy
            && c.redactionTargets
               == match input.policy.redactionTargets { case Some(targets) => targets case None => [] }
  {
    hide LoadArtifacts, FilterScopes, Allowed, Granted, RuleOf, PlaceOf;
    forall s: Scope ensures Allowed(input, s) <==> Granted(RuleOf(input.policy.visibility, s), s, input.state) {
      AllowedIsGranted(input, s);
    }
    forall s: Scope ensures s in SCOPES {
      ScopeHasPlace(s);
    }
    ScopesInOrder();
    FilterKeepsOrder(input, SCOPES);
  }

  lemma AllowedIsGranted(input: Input, s: Scope)
    ensures Allowed(input, s) <==> Granted(RuleOf(input.policy.visibility, s), s, input.state)
  {
  }

  lemma ScopeHasPlace(s: Scope)
    ensures SCOPES[PlaceOf(s)] == s
  {
  }

  lemma ScopesInOrder()
    ensures InOrder(SCOPES)
  {
  }

  ghost predicate InOrder(scopes: seq<Scope>) {
    forall i, j | 0 <= i < j < |scopes| :: PlaceOf(scopes[i]) < PlaceOf(scopes[j])
  }

  function PlaceOf(s: Scope): nat {
    match s
    case StageCopy => 0
    case ArtifactRefs => 1
    case Rubric => 2
    case Evidence => 3
    case BranchFeedback => 4
    case CanonicalSolution => 5
    case BranchSolutions => 6
  }

  lemma {:induction false} FilterKeepsOrder(input: Input, scopes: seq<Scope>)
    requires InOrder(scopes)
    ensures InOrder(FilterScopes(input, scopes))
  {
    hide Allowed, PlaceOf;
    if scopes != [] {
      FilterKeepsOrder(input, scopes[1..]);
      var r, rest := FilterScopes(input, scopes), FilterScopes(input, scopes[1..]);
      forall k | 0 <= k < |rest| ensures PlaceOf(scopes[0]) < PlaceOf(rest[k]) {
        assert rest[k] in scopes[1..];
      }
      assert r == rest || r == [scopes[0]] + rest;
    }
  }

  /** An attempt alone can show a solution: nothing keeps a policy from asking for that. */
  lemma SolutionAfterAnAttempt(content: Content, input: Input)
    requires input.policy.visibility.canonicalSolution == AfterAttempt
    requires input.state == VisibilityState(true, false, false)
    ensures CanonicalSolution in Fresh(content, input).allowedScopes
  {
    hide LoadArtifacts;
    ContextShowsWhatIsAllowed(content, input);
  }

  /** Everything that has happened in `s` has happened in `t`. */
  predicate NoLaterThan(s: VisibilityState, t: VisibilityState) {
    && (s.hasAttempt ==> t.hasAttempt) && (s.hasPassed ==> t.hasPassed)
    && (s.hasCompletedPackage ==> t.hasCompletedPackage)
  }

  /** Progress never hides a scope, and keeps the order in which scopes are listed. */
  lemma {:induction false} ProgressShowsMore(input: Input, later: VisibilityState, scopes: seq<Scope>)
    requires NoLaterThan(input.state, later)
    ensures var now, then' := FilterScopes(input, scopes), FilterScopes(input.(state := later), scopes);
            IsSubsequence(now, then')
  {
    hide Allowed;
    if scopes != [] {
      ProgressShowsMore(input, later, scopes[1..]);
      AllowedStays(input, later, scopes[0]);
    }
  }

  lemma AllowedStays(input: Input, later: VisibilityState, scope: Scope)
    requires NoLaterThan(input.state, later)
    ensures Allowed(input, scope) ==> Allowed(input.(state := later), scope)
  {
  }

  predicate IsSubsequence(a: seq<Scope>, b: seq<Scope>) {
    if a == [] then true
    else if b == [] then false
    else if a[0] == b[0] then IsSubsequence(a[1..], b[1..]) || IsSubsequence(a, b[1..])
    else IsSubsequence(a, b[1..])
  }

  // ---------------------------------------------------------------- the cache key

  function Bit(b: bool): string {
    if b then "1" else "0"
  }

  function VisibilityText(s: VisibilityState): string {
    Bit(s.hasAttempt) + Bit(s.hasPassed) + Bit(s.hasCompletedPackage)
  }

  function CharCode(c: char): int {
    c as int
  }

  function JoinBar(refs: seq<string>): string {
    if refs == [] then ""
    else if |refs| == 1 then refs[0]
    else refs[0] + "|" + JoinBar(refs[1..])
  }

  function CacheKey(input: Input): string {
    input.packageVersionId + SEP
    + (input.stageId + SEP
       + (VisibilityText(input.state) + SEP
          + (input.policyDigest + SEP + JoinBar(Sorting.Sort(CharCode, input.artifactRefs)))))
  }

  /** Ids and a digest the key can be taken apart at. */
  ghost predicate SeparableIds(input: Input) {
    Separable(input.packageVersionId) && Separable(input.stageId) && Separable(input.policyDigest)
  }

  lemma VisibilityTextIsSeparable(s: VisibilityState)
    ensures Separable(VisibilityText(s)) && |VisibilityText(s)| == 3
  {
    var t := VisibilityText(s);
    assert forall i | 0 <= i < |t| :: t[i] != ':';
  }

  lemma VisibilityTextSeparates(s: VisibilityState, r: VisibilityState)
    ensures VisibilityText(s) == VisibilityText(r) <==> s == r
  {
    var t, u := VisibilityText(s), VisibilityText(r);
    assert t[0] == Bit(s.hasAttempt)[0] && t[1] == Bit(s.hasPassed)[0] && t[2] == Bit(s.hasCompletedPackage)[0];
    assert u[0] == Bit(r.hasAttempt)[0] && u[1] == Bit(r.hasPassed)[0] && u[2] == Bit(r.hasCompletedPackage)[0];
  }

  /** A key in full: package version, stage, the three flags as bits, digest, and the refs in order. */
  lemma KnownKey(input: Input)
    requires input.state == VisibilityState(true, false, true) && input.artifactRefs == ["b", "a"]
    ensures CacheKey(input) == input.packageVersionId + "::" + (input.stageId + "::" + ("101" + "::"
                               + (input.policyDigest + "::" + "a|b")))
  {
    SmallSorts("b", "a");
    SmallJoins("a", "b");
    hide Sorting.Sort, JoinBar;
    assert "1" + "0" + "1" == "101" && "a" + "|" + "b" == "a|b";
  }

  /** The parts of a text between its bars. */
  function Cut(text: string): (parts: seq<string>)
    ensures parts != []
  {
    if text == "" then [""]
    else
      var rest := Cut(text[1..]);
      if text[0] == '|' then [""] + rest else [[text[0]] + rest[0]] + rest[1..]
  }

  /** What a reader who takes every bar for a separator makes of a list of refs. */
  function Parts(refs: seq<string>): seq<string> {
    if refs == [] then [""] else if |refs| == 1 then Cut(refs[0]) else Cut(refs[0]) + Parts(refs[1..])
  }

  lemma {:induction false} CutAtBar(a: string, b: string)
    ensures Cut(a + "|" + b) == Cut(a) + Cut(b)
  {
    var text := a + "|" + b;
    if a == "" {
      assert text[1..] == b;
    } else {
      assert text[1..] == a[1..] + "|" + b;
      CutAtBar(a[1..], b);
    }
  }

  lemma {:induction false} JoinOfCut(text: string)
    ensures JoinBar(Cut(text)) == text
  {
    if text == "" {
    } else {
      var rest := Cut(text[1..]);
      JoinOfCut(text[1..]);
      hide Cut;
      OneCharacterMore(text);
      if text[0] == '|' {
        assert ([""] + rest)[1..] == rest;
        assert text == "" + "|" + text[1..];
      } else {
        assert ([[text[0]] + rest[0]] + rest[1..])[1..] == rest[1..];
        assert text == [text[0]] + text[1..];
      }
    }
  }

  lemma OneCharacterMore(text: string)
    requires text != ""
    ensures var rest := Cut(text[1..]);
            Cut(text) == if text[0] == '|' then [""] + rest else [[text[0]] + rest[0]] + rest[1..]
  {
  }

  lemma {:induction false} CutOfJoin(refs: seq<string>)
    ensures Cut(JoinBar(refs)) == Parts(refs)
  {
    if |refs| > 1 {
      CutAtBar(refs[0], JoinBar(refs[1..]));
      CutOfJoin(refs[1..]);
    }
  }

  lemma JoinSeparatesParts(a: seq<string>, b: seq<string>)
    ensures JoinBar(a) == JoinBar(b) <==> Parts(a) == Parts(b)
  {
    hide JoinBar, Cut, Parts;
    CutOfJoin(a);
    CutOfJoin(b);
    JoinOfCut(JoinBar(a));
    JoinOfCut(JoinBar(b));
  }

  function SortedRefs(input: Input): (refs: seq<string>)
    ensures multiset(refs) == multiset(input.artifactRefs) && |refs| == |input.artifactRefs|
  {
    Sorting.Sort(CharCode, input.artifactRefs)
  }

  /**
   The key tells two inputs apart exactly by package version, stage, visibility, policy digest and the parts
   their sorted refs fall into at bars.
   */
  lemma KeySeparatesInputs(i: Input, j: Input)
    requires SeparableIds(i) && SeparableIds(j)
    ensures CacheKey(i) == CacheKey(j) <==>
            && i.packageVersionId == j.packageVersionId && i.stageId == j.stageId && i.state == j.state
            && i.policyDigest == j.policyDigest && Parts(SortedRefs(i)) == Parts(SortedRefs(j))
  {
    hide Separable, Sorting.Sort, JoinBar, VisibilityText, Parts;
    var ri, rj := SortedRefs(i), SortedRefs(j);
    JoinSeparatesParts(ri, rj);
    if CacheKey(i) == CacheKey(j) {
      var di, dj := i.policyDigest + SEP + JoinBar(ri), j.policyDigest + SEP + JoinBar(rj);
      var vi, vj := VisibilityText(i.state) + SEP + di, VisibilityText(j.state) + SEP + dj;
      SeparableIsCancellable(i.packageVersionId, i.stageId + SEP + vi, j.packageVersionId, j.stageId + SEP + vj);
      SeparableIsCancellable(i.stageId, vi, j.stageId, vj);
      VisibilityTextIsSeparable(i.state);
      VisibilityTextIsSeparable(j.state);
      SeparableIsCancellable(VisibilityText(i.state), di, VisibilityText(j.state), dj);
      VisibilityTextSeparates(i.state, j.state);
      SeparableIsCancellable(i.policyDigest, JoinBar(ri), j.policyDigest, JoinBar(rj));
    }
  }

  /** The ids have one separator between them, and so have digest and refs; the other two stand at the bits. */
  predicate Unambiguous(input: Input) {
    && OneSeparator(input.packageVersionId, input.stageId)
    && OneSeparator(input.policyDigest, JoinBar(SortedRefs(input)))
  }

  /** In `a :: b` no other separator can be read. */
  predicate OneSeparator(a: string, b: string) {
    Separable(a) && !HasSep(b) && !StartsWithColon(b)
  }

  ghost predicate AgreeOnParts(i: Input, j: Input) {
    && i.packageVersionId == j.packageVersionId && i.stageId == j.stageId && i.state == j.state
    && i.policyDigest == j.policyDigest && Parts(SortedRefs(i)) == Parts(SortedRefs(j))
  }

  function Ids(input: Input): string {
    input.packageVersionId + SEP + input.stageId
  }

  function Rest(input: Input): string {
    input.policyDigest + SEP + JoinBar(SortedRefs(input))
  }

  lemma KeyInThree(input: Input)
    ensures CacheKey(input) == Ids(input) + SEP + (VisibilityText(input.state) + SEP + Rest(input))
  {
    hide VisibilityText, JoinBar, Sorting.Sort;
    var tail := VisibilityText(input.state) + SEP + Rest(input);
    assert input.packageVersionId + SEP + (input.stageId + SEP + tail) == Ids(input) + SEP + tail;
  }

  /** Where the separators stand in `ids :: bits :: rest`. */
  lemma ThreeCuts(ids: string, bits: string, rest: string)
    requires |bits| == 3
    ensures var key, p := ids + SEP + (bits + SEP + rest), |ids|;
            && |key| == p + 7 + |rest| && SepAt(key, p) && SepAt(key, p + 5)
            && key[..p] == ids && key[p + 2..p + 5] == bits && key[p + 7..] == rest
  {
    var key, p := ids + SEP + (bits + SEP + rest), |ids|;
    assert key[p + 2..] == bits + SEP + rest;
    assert key[p + 2..][..3] == bits && key[p + 2..][5..] == rest;
  }

  lemma PairCut(a: string, b: string)
    ensures var s, p := a + SEP + b, |a|;
            p + 2 <= |s| && SepAt(s, p) && s[..p] == a && s[p + 2..] == b
  {
  }

  /** A separator of the key lies in the ids, in the rest, or touches the bits. */
  lemma SeparatorsOfKey(ids: string, bits: string, rest: string, k: nat)
    requires |bits| == 3 && bits[0] != ':' && bits[1] != ':' && bits[2] != ':'
    requires SepAt(ids + SEP + (bits + SEP + rest), k)
    ensures || SepAt(ids, k) || k + 1 == |ids| || k == |ids| || k == |ids| + 5 || k == |ids| + 6
            || (k >= |ids| + 7 && SepAt(rest, k - |ids| - 7))
  {
    var key := ids + SEP + (bits + SEP + rest);
    ThreeCuts(ids, bits, rest);
    assert forall i | 0 <= i < |ids| :: key[i] == key[..|ids|][i] == ids[i];
    assert forall i | 0 <= i < 3 :: key[|ids| + 2 + i] == key[|ids| + 2..|ids| + 5][i] == bits[i];
    assert forall i | 0 <= i < |rest| :: key[|ids| + 7 + i] == key[|ids| + 7..][i] == rest[i];
    assert key[|ids| + 2] == bits[0] && key[|ids| + 3] == bits[1] && key[|ids| + 4] == bits[2];
  }

  lemma SeparatorsShowInKey(ids: string, bits: string, rest: string, k: nat)
    requires |bits| == 3
    ensures var key := ids + SEP + (bits + SEP + rest);
            && (SepAt(ids, k) ==> SepAt(key, k)) && (SepAt(rest, k) ==> SepAt(key, |ids| + 7 + k))
  {
    var key := ids + SEP + (bits + SEP + rest);
    ThreeCuts(ids, bits, rest);
    assert forall i | 0 <= i < |ids| :: key[i] == key[..|ids|][i] == ids[i];
    assert forall i | 0 <= i < |rest| :: key[|ids| + 7 + i] == key[|ids| + 7..][i] == rest[i];
  }

  lemma OnlySeparator(a: string, b: string, k: nat)
    requires OneSeparator(a, b) && SepAt(a + SEP + b, k)
    ensures k == |a|
  {
    NoSeparatorIn(a);
    NoSeparatorIn(b);
    hide SepAt, HasSep;
    SeparatorsOf(a, b, k);
  }

  lemma BitsAreNoColons(s: VisibilityState)
    ensures var bits := VisibilityText(s); |bits| == 3 && bits[0] != ':' && bits[1] != ':' && bits[2] != ':'
  {
  }

  /** Where the separators of an input stand in its key. */
  lemma KeyCuts(input: Input)
    ensures var key, p := CacheKey(input), |Ids(input)|;
            && SepAt(key, |input.packageVersionId|) && SepAt(key, p) && SepAt(key, p + 5)
            && SepAt(key, p + 7 + |input.policyDigest|)
            && p + 7 <= |key| && key[..p] == Ids(input) && key[p + 7..] == Rest(input)
            && key[p + 2..p + 5] == VisibilityText(input.state)
  {
    hide JoinBar, SortedRefs, CacheKey, SepAt;
    BitsAreNoColons(input.state);
    hide VisibilityText;
    KeyInThree(input);
    ThreeCuts(Ids(input), VisibilityText(input.state), Rest(input));
    PairCut(input.packageVersionId, input.stageId);
    PairCut(input.policyDigest, JoinBar(SortedRefs(input)));
    SeparatorsShowInKey(Ids(input), VisibilityText(input.state), Rest(input), |input.packageVersionId|);
    SeparatorsShowInKey(Ids(input), VisibilityText(input.state), Rest(input), |input.policyDigest|);
  }

  lemma KeySeparators(input: Input)
    ensures var key, p := CacheKey(input), |Ids(input)|;
            && SepAt(key, |input.packageVersionId|) && SepAt(key, p) && SepAt(key, p + 5)
            && SepAt(key, p + 7 + |input.policyDigest|)
  {
    hide CacheKey, Ids, Rest, VisibilityText, SepAt;
    KeyCuts(input);
  }

  predicate MayCut(p1: nat, p: nat, p4: nat, k: nat) {
    k == p1 || k == p - 1 || k == p || k == p + 5 || k == p + 6 || k == p4
  }

  /** In the key of an unambiguous input a separator is one of the four, or touches the bits. */
  lemma OnlyCuts(input: Input, k: nat)
    requires Unambiguous(input) && SepAt(CacheKey(input), k)
    ensures MayCut(|input.packageVersionId|, |Ids(input)|, |Ids(input)| + 7 + |input.policyDigest|, k)
  {
    hide JoinBar, SortedRefs, CacheKey, SepAt, OneSeparator;
    BitsAreNoColons(input.state);
    hide VisibilityText;
    KeyInThree(input);
    var p := |Ids(input)|;
    SeparatorsOfKey(Ids(input), VisibilityText(input.state), Rest(input), k);
    if SepAt(Ids(input), k) { OnlySeparator(input.packageVersionId, input.stageId, k); }
    if k >= p + 7 && SepAt(Rest(input), k - p - 7) {
      OnlySeparator(input.policyDigest, JoinBar(SortedRefs(input)), k - p - 7);
    }
  }

  /** Four separators, none overlapping, the middle two three bits apart. */
  lemma CutsAreForced(p1: nat, p: nat, p4: nat, q1: nat, q: nat, q4: nat)
    requires p1 + 2 <= p && p + 7 <= p4 && q1 + 2 <= q && q + 7 <= q4
    requires MayCut(p1, p, p4, q1) && MayCut(p1, p, p4, q) && MayCut(p1, p, p4, q + 5) && MayCut(p1, p, p4, q4)
    ensures q1 == p1 && q == p && q4 == p4
  {
  }

  lemma IdsLength(input: Input)
    ensures |Ids(input)| == |input.packageVersionId| + 2 + |input.stageId|
  {
  }

  lemma CutsOfUnambiguous(i: Input, q1: nat, q: nat, q4: nat)
    requires Unambiguous(i) && q1 + 2 <= q && q + 7 <= q4
    requires SepAt(CacheKey(i), q1) && SepAt(CacheKey(i), q) && SepAt(CacheKey(i), q + 5) && SepAt(CacheKey(i), q4)
    ensures q1 == |i.packageVersionId| && q == |Ids(i)| && q4 == q + 7 + |i.policyDigest|
  {
    hide Ids, CacheKey, Unambiguous, SepAt, MayCut;
    OnlyCuts(i, q1);
    OnlyCuts(i, q);
    OnlyCuts(i, q + 5);
    OnlyCuts(i, q4);
    IdsLength(i);
    CutsAreForced(|i.packageVersionId|, |Ids(i)|, |Ids(i)| + 7 + |i.policyDigest|, q1, q, q4);
  }

  /** Another input can only have the key of an unambiguous one by cutting it in the same places. */
  lemma SameKeySameCuts(i: Input, j: Input)
    requires Unambiguous(i) && CacheKey(i) == CacheKey(j)
    ensures |Ids(j)| == |Ids(i)| && |j.packageVersionId| == |i.packageVersionId| && |j.policyDigest| == |i.policyDigest|
  {
    hide *;
    KeySeparators(j);
    IdsLength(j);
    CutsOfUnambiguous(i, |j.packageVersionId|, |Ids(j)|, |Ids(j)| + 7 + |j.policyDigest|);
  }

  lemma SameCutsSameParts(i: Input, j: Input)
    requires CacheKey(i) == CacheKey(j) && |Ids(j)| == |Ids(i)|
    requires |j.packageVersionId| == |i.packageVersionId| && |j.policyDigest| == |i.policyDigest|
    ensures AgreeOnParts(i, j)
  {
    hide CacheKey, JoinBar, SortedRefs, Parts, VisibilityText;
    KeyCuts(i);
    KeyCuts(j);
    VisibilityTextSeparates(i.state, j.state);
    PairCut(i.packageVersionId, i.stageId);
    PairCut(j.packageVersionId, j.stageId);
    PairCut(i.policyDigest, JoinBar(SortedRefs(i)));
    PairCut(j.policyDigest, JoinBar(SortedRefs(j)));
    JoinSeparatesParts(SortedRefs(i), SortedRefs(j));
  }

  /** A key belongs to one input only, up to what it does not show, if and only if its input is unambiguous. */
  lemma KeyBelongsToOneInput(i: Input)
    ensures (forall j :: CacheKey(j) == CacheKey(i) ==> AgreeOnParts(i, j)) <==> Unambiguous(i)
  {
    hide CacheKey, AgreeOnParts, Unambiguous;
    if Unambiguous(i) {
      forall j | CacheKey(j) == CacheKey(i) ensures AgreeOnParts(i, j) {
        SameKeySameCuts(i, j);
        SameCutsSameParts(i, j);
      }
    } else {
      var j := AnotherInput(i);
    }
  }

  lemma AnotherInput(i: Input) returns (j: Input)
    requires !Unambiguous(i)
    ensures CacheKey(j) == CacheKey(i) && !AgreeOnParts(i, j)
  {
    hide JoinBar, Parts, VisibilityText, SepAt, CacheKey, SortedRefs, Separable, HasSep, StartsWithColon;
    KeyInThree(i);
    if !OneSeparator(i.packageVersionId, i.stageId) {
      var k := ExtraSeparator(i.packageVersionId, i.stageId);
      CutAt(Ids(i), k);
      j := i.(packageVersionId := Ids(i)[..k], stageId := Ids(i)[k + 2..]);
      assert Ids(j) == Ids(i) && SortedRefs(j) == SortedRefs(i) by { SameRefsSorted(i, j); }
    } else {
      var k := ExtraSeparator(i.policyDigest, JoinBar(SortedRefs(i)));
      CutAt(Rest(i), k);
      j := i.(policyDigest := Rest(i)[..k], artifactRefs := [Rest(i)[k + 2..]]);
      OneRefSorted(j);
      assert Rest(j) == Rest(i);
    }
    KeyInThree(j);
  }

  lemma CutAt(s: string, k: nat)
    requires SepAt(s, k)
    ensures k + 2 <= |s| && s == s[..k] + SEP + s[k + 2..]
  {
  }

  lemma SameRefsSorted(i: Input, j: Input)
    requires i.artifactRefs == j.artifactRefs
    ensures SortedRefs(i) == SortedRefs(j)
  {
  }

  lemma OneRefSorted(input: Input)
    requires |input.artifactRefs| == 1
    ensures JoinBar(SortedRefs(input)) == input.artifactRefs[0]
  {
    hide Sorting.Sort;
    assert SortedRefs(input)[0] in multiset(SortedRefs(input));
    assert input.artifactRefs == [input.artifactRefs[0]];
  }

  predicate BarFree(refs: seq<string>) {
    forall ref | ref in refs :: '|' !in ref
  }

  lemma {:induction false} CutBarFree(text: string)
    requires '|' !in text
    ensures Cut(text) == [text]
  {
    if text != "" {
      CutBarFree(text[1..]);
      assert text == [text[0]] + text[1..];
    }
  }

  lemma {:induction false} PartsOfBarFree(refs: seq<string>)
    requires BarFree(refs)
    ensures Parts(refs) == if refs == [] then [""] else refs
  {
    hide Cut;
    if refs != [] {
      CutBarFree(refs[0]);
      PartsOfBarFree(refs[1..]);
    }
  }

  /**
   Without bars the key tells the refs apart as a multiset, with one exception: no refs at all and a single
   empty ref read the same.
   */
  lemma BarFreeRefsSeparate(i: Input, j: Input)
    requires BarFree(i.artifactRefs) && BarFree(j.artifactRefs)
    ensures Parts(SortedRefs(i)) == Parts(SortedRefs(j)) <==>
            || multiset(i.artifactRefs) == multiset(j.artifactRefs)
            || (i.artifactRefs == [] && j.artifactRefs == [""])
            || (i.artifactRefs == [""] && j.artifactRefs == [])
  {
    hide Sorting.Sort, Parts;
    Sorting.SortIsCanonical(CharCode, i.artifactRefs, j.artifactRefs);
    forall input | input in [i, j] ensures Parts(SortedRefs(input))
        == if SortedRefs(input) == [] then [""] else SortedRefs(input)
    {
      SortedRefsAreBarFree(input);
      PartsOfBarFree(SortedRefs(input));
    }
    assert i in [i, j] && j in [i, j];
    OneEmptyRef(i);
    OneEmptyRef(j);
  }

  lemma SortedRefsAreBarFree(input: Input)
    requires BarFree(input.artifactRefs)
    ensures BarFree(SortedRefs(input))
  {
    hide SortedRefs;
    forall ref | ref in SortedRefs(input) ensures '|' !in ref {
      assert ref in multiset(SortedRefs(input));
    }
  }

  lemma OneEmptyRef(input: Input)
    ensures SortedRefs(input) == [""] <==> input.artifactRefs == [""]
    ensures SortedRefs(input) == [] <==> input.artifactRefs == []
  {
    hide Sorting.Sort;
    var refs := SortedRefs(input);
    if |refs| == 1 {
      assert refs[0] in multiset(input.artifactRefs);
      assert input.artifactRefs == [input.artifactRefs[0]];
    }
  }

  /**
   One ref that is two refs joined by a bar has the key of the two, provided they are joined in sorted order or the
   other order reads the same; no ref at all has the key of one empty ref.
   */
  lemma BarsCollide(input: Input, a: string, b: string)
    ensures CacheKey(input.(artifactRefs := [a + "|" + b])) == CacheKey(input.(artifactRefs := [a, b]))
       <==> !Sorting.Before(CharCode, b, a) || a + "|" + b == b + "|" + a
    ensures CacheKey(input.(artifactRefs := [])) == CacheKey(input.(artifactRefs := [""]))
  {
    hide CacheKey, Sorting.Sort, Sorting.Before, JoinBar;
    SmallSorts(a, b);
    SmallJoins(a, b);
    SmallJoins(b, a);
    KeyEndsInRefs(input, [a + "|" + b], [a, b]);
    KeyEndsInRefs(input, [], [""]);
  }

  lemma SmallSorts(a: string, b: string)
    ensures forall ref :: Sorting.Sort(CharCode, [ref]) == [ref]
    ensures Sorting.Sort(CharCode, []) == []
    ensures Sorting.Sort(CharCode, [a, b]) == if Sorting.Before(CharCode, b, a) then [b, a] else [a, b]
  {
    hide Sorting.Before;
    assert [a, b][1..] == [b] && [b][1..] == [];
    assert Sorting.Sort(CharCode, [b]) == [b];
    assert Sorting.Insert(CharCode, a, []) == [a];
    assert Sorting.Insert(CharCode, a, [b]) == if Sorting.Before(CharCode, b, a) then [b, a] else [a, b];
  }

  lemma SmallJoins(a: string, b: string)
    ensures forall ref :: JoinBar([ref]) == ref
    ensures JoinBar([]) == "" && JoinBar([a, b]) == a + "|" + b
  {
    assert [a, b][1..] == [b];
  }

  /** Among inputs that differ in their refs only, the joined refs decide. */
  lemma KeyEndsInRefs(input: Input, a: seq<string>, b: seq<string>)
    ensures CacheKey(input.(artifactRefs := a)) == CacheKey(input.(artifactRefs := b))
       <==> JoinBar(Sorting.Sort(CharCode, a)) == JoinBar(Sorting.Sort(CharCode, b))
  {
    hide JoinBar, Sorting.Sort, VisibilityText;
    var front := input.packageVersionId + SEP + (input.stageId + SEP + (VisibilityText(input.state) + SEP
                 + (input.policyDigest + SEP)));
    forall refs | refs in [a, b]
      ensures CacheKey(input.(artifactRefs := refs)) == front + JoinBar(Sorting.Sort(CharCode, refs))
    {
    }
    assert a in [a, b] && b in [a, b];
    var x, y := JoinBar(Sorting.Sort(CharCode, a)), JoinBar(Sorting.Sort(CharCode, b));
    assert (front + x)[|front|..] == x && (front + y)[|front|..] == y;
  }

  // ---------------------------------------------------------------- same context

  /** Equal, but for the order of the artifact excerpts. */
  ghost predicate SameContext(c: MentorContext, d: MentorContext) {
    && multiset(c.artifactExcerpts) == multiset(d.artifactExcerpts)
    && c.(artifactExcerpts := []) == d.(artifactExcerpts := [])
  }

  lemma {:induction false} ArtifactsFollowRefs(content: Content, i: Input, a: seq<string>, b: seq<string>)
    requires multiset(a) == multiset(b)
    ensures multiset(LoadArtifacts(content, i, a)) == multiset(LoadArtifacts(content, i, b))
  {
    hide LoadArtifacts;
    if a == [] {
      assert |multiset(b)| == 0;
    } else {
      assert a[0] in multiset(b);
      var k :| 0 <= k < |b| && b[k] == a[0];
      RestsMatch(a, b, k);
      ArtifactsFollowRefs(content, i, a[..0] + a[1..], b[..k] + b[k + 1..]);
      LoadOneOut(content, i, a, 0);
      LoadOneOut(content, i, b, k);
    }
  }

  lemma RestsMatch<T>(a: seq<T>, b: seq<T>, k: nat)
    requires a != [] && k < |b| && b[k] == a[0] && multiset(a) == multiset(b)
    ensures multiset(a[..0] + a[1..]) == multiset(b[..k] + b[k + 1..])
  {
    OneOut(a, 0);
    OneOut(b, k);
  }

  lemma OneOut<T>(s: seq<T>, k: nat)
    requires k < |s|
    ensures multiset(s[..k] + s[k + 1..]) == multiset(s) - multiset{s[k]}
  {
    assert s == s[..k] + [s[k]] + s[k + 1..];
  }

  lemma {:induction false} LoadOneOut(content: Content, i: Input, refs: seq<string>, k: nat)
    requires k < |refs|
    ensures multiset(LoadArtifacts(content, i, refs))
         == multiset{Excerpt(refs[k], content.artifact(i.packageVersionId, i.stageId, refs[k]))}
            + multiset(LoadArtifacts(content, i, refs[..k] + refs[k + 1..]))
  {
    var rest := refs[..k] + refs[k + 1..];
    var head := Excerpt(refs[0], content.artifact(i.packageVersionId, i.stageId, refs[0]));
    assert LoadArtifacts(content, i, refs) == [head] + LoadArtifacts(content, i, refs[1..]);
    if k == 0 {
      assert rest == refs[1..];
    } else {
      assert rest[1..] == refs[1..][..k - 1] + refs[1..][k..];
      LoadOneOut(content, i, refs[1..], k - 1);
      assert LoadArtifacts(content, i, rest) == [head] + LoadArtifacts(content, i, rest[1..]);
    }
  }

  /** The same stage under the same policy, the same scopes shown, and the same refs where refs are shown. */
  ghost predicate SameQuestion(i: Input, j: Input) {
    && i.packageVersionId == j.packageVersionId && i.stageId == j.stageId && i.policy == j.policy
    && FilterScopes(i, SCOPES) == FilterScopes(j, SCOPES)
    && (ArtifactRefs in FilterScopes(i, SCOPES) ==> multiset(i.artifactRefs) == multiset(j.artifactRefs))
  }

  /** Two inputs have one answer, up to attempt and excerpt order, exactly when they ask the same question. */
  lemma SameAnswerMeansSameQuestion(content: Content, i: Input, j: Input)
    ensures SameContext(Fresh(content, i).(attempt := j.attempt), Fresh(content, j)) <==> SameQuestion(i, j)
  {
    hide FilterScopes, LoadArtifacts, Allowed;
    ScopesAreAllowed(i);
    ScopesAreAllowed(j);
    if SameQuestion(i, j) {
      if Allowed(i, ArtifactRefs) {
        ArtifactsFollowRefs(content, i, i.artifactRefs, j.artifactRefs);
        SameLoads(content, i, j, j.artifactRefs);
      }
    } else if SameContext(Fresh(content, i).(attempt := j.attempt), Fresh(content, j)) && Allowed(i, ArtifactRefs) {
      RefsOfLoads(content, i, i.artifactRefs);
      RefsOfLoads(content, j, j.artifactRefs);
      SameRefs(LoadArtifacts(content, i, i.artifactRefs), LoadArtifacts(content, j, j.artifactRefs));
    }
  }

  lemma ScopesAreAllowed(input: Input)
    ensures forall s | s in [ArtifactRefs, Rubric, BranchFeedback] ::
              s in FilterScopes(input, SCOPES) <==> Allowed(input, s)
  {
    hide FilterScopes, Allowed;
  }

  function RefsOf(es: seq<Excerpt>): seq<string> {
    if es == [] then [] else [es[0].ref] + RefsOf(es[1..])
  }

  lemma {:induction false} RefsOfLoads(content: Content, i: Input, refs: seq<string>)
    ensures RefsOf(LoadArtifacts(content, i, refs)) == refs
  {
    if refs != [] {
      RefsOfLoads(content, i, refs[1..]);
      assert LoadArtifacts(content, i, refs)[1..] == LoadArtifacts(content, i, refs[1..]);
    }
  }

  lemma {:induction false} RefsWithoutOne(es: seq<Excerpt>, k: nat)
    requires k < |es|
    ensures multiset(RefsOf(es)) == multiset{es[k].ref} + multiset(RefsOf(es[..k] + es[k + 1..]))
  {
    var rest := es[..k] + es[k + 1..];
    if k == 0 {
      assert rest == es[1..];
    } else {
      assert rest[1..] == es[1..][..k - 1] + es[1..][k..];
      RefsWithoutOne(es[1..], k - 1);
    }
  }

  lemma {:induction false} SameRefs(a: seq<Excerpt>, b: seq<Excerpt>)
    requires multiset(a) == multiset(b)
    ensures multiset(RefsOf(a)) == multiset(RefsOf(b))
  {
    hide RefsOf;
    if a == [] {
      assert |multiset(b)| == 0;
    } else {
      assert a[0] in multiset(b);
      var k :| 0 <= k < |b| && b[k] == a[0];
      RestsMatch(a, b, k);
      SameRefs(a[..0] + a[1..], b[..k] + b[k + 1..]);
      RefsWithoutOne(a, 0);
      RefsWithoutOne(b, k);
    }
  }

  lemma {:induction false} SameLoads(content: Content, i: Input, j: Input, refs: seq<string>)
    requires i.packageVersionId == j.packageVersionId && i.stageId == j.stageId
    ensures LoadArtifacts(content, i, refs) == LoadArtifacts(content, j, refs)
  {
    if refs != [] { SameLoads(content, i, j, refs[1..]); }
  }

  // ---------------------------------------------------------------- builds sharing one cache

  /**
   What happens to the shared cache. A build is a lookup and, on a miss, a store some time later, so builds
   may interleave in any way; deletes and clears come from package re-publishing.
   */
  datatype Event =
    | Lookup(at: Millis, input: Input)
    | Store(at: Millis, input: Input)
    | Drop(key: string)
    | Clear

  function Happen(cfg: Config, content: Content, slots: Slots<MentorContext>, e: Event): Slots<MentorContext> {
    match e
    case Lookup(at, input) => Get(slots, at, CacheKey(input)).1
    case Store(at, input) => Set(cfg, slots, at, CacheKey(input), Fresh(content, input))
    case Drop(key) => Delete(slots, key)
    case Clear => []
  }

  function After(cfg: Config, content: Content, es: seq<Event>): Slots<MentorContext> {
    if es == [] then [] else Happen(cfg, content, After(cfg, content, es[..|es| - 1]), es[|es| - 1])
  }

  /** Every slot holds a fresh build of an input that was stored under its key. */
  ghost predicate Sound(content: Content, es: seq<Event>, slots: Slots<MentorContext>) {
    forall s | s in slots :: exists e | e in es :: StoredBy(content, s, e)
  }

  ghost predicate StoredBy(content: Content, s: Slot<MentorContext>, e: Event) {
    e.Store? && s.key == CacheKey(e.input) && s.value == Fresh(content, e.input)
  }

  lemma SetAddsOne<V>(cfg: Config, slots: Slots<V>, now: Millis, key: string, value: V)
    ensures forall s | s in Set(cfg, slots, now, key, value) :: s in slots || (s.key == key && s.value == value)
  {
    DeleteAddsNothing(slots, key);
    hide Delete;
  }

  lemma DeleteAddsNothing<V>(slots: Slots<V>, key: string)
    ensures forall s | s in Delete(slots, key) :: s in slots
  {
  }

  lemma SoundStep(content: Content, es: seq<Event>, e: Event, before: Slots<MentorContext>,
                  next: Slots<MentorContext>)
    requires Sound(content, es, before) && forall s | s in next :: s in before || StoredBy(content, s, e)
    ensures Sound(content, es + [e], next)
  {
    hide StoredBy;
    forall s | s in next ensures exists f | f in es + [e] :: StoredBy(content, s, f) {
      if StoredBy(content, s, e) {
        assert e in es + [e];
      } else {
        var f :| f in es && StoredBy(content, s, f);
        assert f in es + [e];
      }
    }
  }

  /** An event puts nothing into the cache but what it stores. */
  lemma HappenAddsOne(cfg: Config, content: Content, slots: Slots<MentorContext>, e: Event)
    ensures forall s | s in Happen(cfg, content, slots, e) :: s in slots || StoredBy(content, s, e)
  {
    hide Delete, Set, Fresh, CacheKey;
    match e
    case Lookup(at, input) => DeleteAddsNothing(slots, CacheKey(input));
    case Store(at, input) => SetAddsOne(cfg, slots, at, CacheKey(input), Fresh(content, input));
    case Drop(key) => DeleteAddsNothing(slots, key);
    case Clear =>
  }

  lemma {:induction false} AfterIsSound(cfg: Config, content: Content, es: seq<Event>)
    ensures Sound(content, es, After(cfg, content, es))
  {
    var none: Slots<MentorContext> := [];
    assert Sound(content, es, none);
    hide Happen, Sound, StoredBy;
    if es != [] {
      var front, e := es[..|es| - 1], es[|es| - 1];
      AfterIsSound(cfg, content, front);
      assert es == front + [e];
      HappenAddsOne(cfg, content, After(cfg, content, front), e);
      SoundStep(content, front, e, After(cfg, content, front), After(cfg, content, es));
    }
  }

  /** No stored input of the run shares a key with this one unless it asks the same question. */
  ghost predicate KeyIsOwn(es: seq<Event>, input: Input) {
    forall e | e in es && e.Store? && CacheKey(e.input) == CacheKey(input) :: SameQuestion(e.input, input)
  }

  /**
   On any run of builds, expiries, evictions, deletes and clears that share one cache, interleaved in any way
   and with any clock, a hit with the current attempt is the context a fresh build would give, up to the order
   of its excerpts.
   */
  lemma HitsAreFresh(cfg: Config, content: Content, es: seq<Event>, now: Millis, input: Input)
    requires KeyIsOwn(es, input)
    ensures var hit := Get(After(cfg, content, es), now, CacheKey(input)).0;
            hit.Some? ==> SameContext(hit.value.(attempt := input.attempt), Fresh(content, input))
  {
    hide Delete, Fresh, CacheKey, SameQuestion, SameContext, After;
    var slots := After(cfg, content, es);
    AfterIsSound(cfg, content, es);
    var i := IndexOf(slots, CacheKey(input));
    if i < |slots| {
      assert slots[i] in slots;
      var e :| e in es && StoredBy(content, slots[i], e);
      SameAnswerMeansSameQuestion(content, e.input, input);
    }
  }

  /** All builds of the run are for inputs of the given set. */
  ghost predicate RunOver(es: seq<Event>, inputs: set<Input>) {
    forall e | e in es && e.Store? :: e.input in inputs
  }

  ghost predicate EveryHitIsFresh(cfg: Config, content: Content, inputs: set<Input>) {
    forall es, now, input | RunOver(es, inputs) && input in inputs ::
      var hit := Get(After(cfg, content, es), now, CacheKey(input)).0;
      hit.Some? ==> SameContext(hit.value.(attempt := input.attempt), Fresh(content, input))
  }

  /** Inputs that share a key ask the same question. */
  ghost predicate KeysSeparateQuestions(inputs: set<Input>) {
    forall i, j | i in inputs && j in inputs && CacheKey(i) == CacheKey(j) :: SameQuestion(i, j)
  }

  /** With any ids, digests and refs: every run over these inputs is served freshly exactly when keys separate them. */
  lemma HitsAreFreshExactly(cfg: Config, content: Content, inputs: set<Input>)
    requires cfg.ttlMs > 0.0
    ensures EveryHitIsFresh(cfg, content, inputs) <==> KeysSeparateQuestions(inputs)
  {
    hide Get, Fresh, CacheKey, SameQuestion, SameContext, After;
    if KeysSeparateQuestions(inputs) {
      forall es, now, input | RunOver(es, inputs) && input in inputs
        ensures var hit := Get(After(cfg, content, es), now, CacheKey(input)).0;
                hit.Some? ==> SameContext(hit.value.(attempt := input.attempt), Fresh(content, input))
      {
        HitsAreFresh(cfg, content, es, now, input);
      }
    } else {
      var i, j :| i in inputs && j in inputs && CacheKey(i) == CacheKey(j) && !SameQuestion(i, j);
      StoredAnswersBoth(cfg, content, i, j);
      SameAnswerMeansSameQuestion(content, i, j);
      assert RunOver([Store(0.0, i)], inputs);
    }
  }

  lemma StoredAnswersBoth(cfg: Config, content: Content, i: Input, j: Input)
    requires cfg.ttlMs > 0.0 && CacheKey(i) == CacheKey(j)
    ensures Get(After(cfg, content, [Store(0.0, i)]), 0.0, CacheKey(j)).0 == Some(Fresh(content, i))
  {
    hide Fresh, CacheKey;
    var es := [Store(0.0, i)];
    assert es[..0] == [];
    assert After(cfg, content, es) == [Slot(CacheKey(i), Fresh(content, i), 0.0 + cfg.ttlMs)];
  }

  /** Ids and digest the key can be taken apart at, and refs without a bar, a lone empty one excepted. */
  ghost predicate Keyable(input: Input) {
    SeparableIds(input) && BarFree(input.artifactRefs) && input.artifactRefs != [""]
  }

  /** Keyable inputs whose digests tell their policies apart are served freshly. */
  lemma KeyableInputsSeparate(inputs: set<Input>)
    requires forall i | i in inputs :: Keyable(i)
    requires forall i, j | i in inputs && j in inputs && i.policyDigest == j.policyDigest :: i.policy == j.policy
    ensures KeysSeparateQuestions(inputs)
  {
    hide FilterScopes, CacheKey, SeparableIds, BarFree, SortedRefs, Parts;
    forall i, j | i in inputs && j in inputs && CacheKey(i) == CacheKey(j) ensures SameQuestion(i, j) {
      KeySeparatesInputs(i, j);
      BarFreeRefsSeparate(i, j);
      SameScopes(i, j, SCOPES);
    }
  }

  lemma {:induction false} SameScopes(i: Input, j: Input, scopes: seq<Scope>)
    requires i.policy == j.policy && i.state == j.state
    ensures FilterScopes(i, scopes) == FilterScopes(j, scopes)
  {
    if scopes != [] { SameScopes(i, j, scopes[1..]); }
  }

  // ---------------------------------------------------------------- buildMentorContext

  /** One build: the answer, and the events it causes. */
  function Build(cfg: Config, content: Content, slots: Slots<MentorContext>, lookAt: Millis, storeAt: Millis,
                 input: Input): (MentorContext, Slots<MentorContext>)
  {
    var (hit, looked) := Get(slots, lookAt, CacheKey(input));
    if hit.Some? then (hit.value.(attempt := input.attempt), looked)
    else (Fresh(content, input), Set(cfg, looked, storeAt, CacheKey(input), Fresh(content, input)))
  }

  method BuildMentorContext(content: Content, cache: InMemoryMentorContextCache?<MentorContext>,
                            lookAt: Millis, storeAt: Millis, input: Input) returns (context: MentorContext)
    modifies if cache == null then {} else {cache}
    ensures cache == null ==> context == Fresh(content, input)
    ensures cache != null ==>
              (context, cache.entries) == Build(cache.cfg, content, old(cache.entries), lookAt, storeAt, input)
  {
    hide CacheKey, FilterScopes, LoadArtifacts, Allowed, Set, Get;
    var cacheKey := "";
    if cache != null {
      cacheKey := CacheKey(input);
      var hit := cache.Lookup(lookAt, cacheKey);
      if hit.Some? {
        return if hit.value.attempt == input.attempt then hit.value else hit.value.(attempt := input.attempt);
      }
    }
    var allowedScopes := FilterScopes(input, SCOPES);
    var artifactExcerpts := [];
    if Allowed(input, ArtifactRefs) {
      artifactExcerpts := LoadArtifacts(content, input, input.artifactRefs);
    }
    var rubricCriteria: Option<seq<string>> := None;
    if Allowed(input, Rubric) {
      rubricCriteria := Some(content.criteria(input.packageVersionId, input.stageId));
    }
    var branchFeedback: Option<seq<Feedback>> := None;
    if Allowed(input, BranchFeedback) {
      branchFeedback := Some(content.feedback(input.packageVersionId, input.stageId));
    }
    context := MentorContext(
      input.stageId, input.attempt, input.packageVersionId, allowedScopes, artifactExcerpts,
      if input.policy.redactionTargets.Some? then input.policy.redactionTargets.value else [],
      input.policy, rubricCriteria, branchFeedback);
    if cache != null {
      cache.Store(storeAt, cacheKey, context);
    }
  }

  /**
   A build is a lookup, followed on a miss by a store, and answers what a fresh build would, so it lists a
   solution scope only once the trigger of that scope's rule has fired.
   */
  lemma CachedBuildAgreesWithUncached(cfg: Config, content: Content, es: seq<Event>, lookAt: Millis,
                                      storeAt: Millis, input: Input)
    requires KeyIsOwn(es, input)
    ensures var (context, slots) := Build(cfg, content, After(cfg, content, es), lookAt, storeAt, input);
            && SameContext(context, Fresh(content, input))
            && context.attempt == input.attempt
            && (forall s | s in context.allowedScopes && IsForbiddenAlways(s) ::
                  TriggerFired(input.policy.visibility.Rule(s), input.state))
            && (slots == After(cfg, content, es + [Lookup(lookAt, input)])
                || slots == After(cfg, content, es + [Lookup(lookAt, input), Store(storeAt, input)]))
  {
    hide Delete, Fresh, CacheKey, Get, Set, KeyIsOwn;
    HitsAreFresh(cfg, content, es, lookAt, input);
    var one, two := es + [Lookup(lookAt, input)], es + [Lookup(lookAt, input), Store(storeAt, input)];
    assert one[..|one| - 1] == es && two[..|two| - 1] == one;
    ContextShowsWhatIsAllowed(content, input);
  }
}
