/** `derivePrereqsPlans` of `packages/content-sdk/src/validator/sandbox.ts`: prerequisites are reachability. */
module Prerequisites {
  import opened Wrappers
  import Sorting

  /** A curriculum graph node, with the id of the stage it is bound to, if its stage reference resolves. */
  datatype Node = Node(id: string, stageId: Option<string>, unlocks: seq<string>, unlocksByChoice: seq<seq<string>>)

  // ---------------------------------------------------------------- edges

  ghost predicate Unlocks(n: Node, child: string) {
    child in n.unlocks || exists k | 0 <= k < |n.unlocksByChoice| :: child in n.unlocksByChoice[k]
  }

  /** Some node called `parent` unlocks `child`, outright or by choice. */
  ghost predicate Edge(nodes: seq<Node>, parent: string, child: string) {
    exists k | 0 <= k < |nodes| :: nodes[k].id == parent && Unlocks(nodes[k], child)
  }

  /** Child ids to the parents of each, in insertion order. */
  type Parents = map<string, seq<string>>

  function ParentsOf(parents: Parents, child: string): seq<string> {
    if child in parents then parents[child] else []
  }

  /** `new Set(...)` filled from both kinds of edges. */
  method Outgoing(n: Node) returns (outgoing: set<string>)
    ensures forall c :: c in outgoing <==> Unlocks(n, c)
  {
    outgoing := set c | c in n.unlocks;
    for k := 0 to |n.unlocksByChoice|
      invariant forall c :: c in outgoing <==>
                c in n.unlocks || exists l | 0 <= l < k :: c in n.unlocksByChoice[l]
    {
      outgoing := outgoing + set c | c in n.unlocksByChoice[k];
    }
  }

  method BuildParents(nodes: seq<Node>) returns (parents: Parents)
    ensures forall p, c :: p in ParentsOf(parents, c) <==> Edge(nodes, p, c)
  {
    hide Unlocks;
    parents := map[];
    for k := 0 to |nodes|
      invariant forall p, c :: p in ParentsOf(parents, c) <==> Edge(nodes[..k], p, c)
    {
      var node := nodes[k];
      var outgoing := Outgoing(node);
      parents := AddParent(parents, node.id, outgoing);
      forall p, c ensures p in ParentsOf(parents, c) <==> Edge(nodes[..k + 1], p, c) {
        EdgeOneMore(nodes, k, p, c);
      }
    }
    assert nodes[..|nodes|] == nodes;
  }

  lemma EdgeOneMore(nodes: seq<Node>, k: nat, p: string, c: string)
    requires k < |nodes|
    ensures Edge(nodes[..k + 1], p, c) <==> Edge(nodes[..k], p, c) || (nodes[k].id == p && Unlocks(nodes[k], c))
  {
    hide Unlocks;
    var before, after := nodes[..k], nodes[..k + 1];
    assert forall i | 0 <= i < k :: after[i] == before[i];
    assert after[k] == nodes[k];
  }

  /** Put `parent` into the bucket of every child, once. */
  method AddParent(parents: Parents, parent: string, children: set<string>) returns (r: Parents)
    ensures forall p, c :: p in ParentsOf(r, c) <==> p in ParentsOf(parents, c) || (p == parent && c in children)
  {
    r := parents;
    var todo := children;
    while todo != {}
      invariant todo <= children
      invariant forall p, c :: p in ParentsOf(r, c) <==>
                p in ParentsOf(parents, c) || (p == parent && c in children && c !in todo)
    {
      var child :| child in todo;
      var bucket := ParentsOf(r, child);
      ghost var before := r;
      if parent !in bucket {
        r := r[child := bucket + [parent]];
      }
      assert forall p, c :: p in ParentsOf(r, c) <==> p in ParentsOf(before, c) || (p == parent && c == child);
      todo := todo - {child};
    }
  }

  // ---------------------------------------------------------------- reachability

  /** Each element is a parent of the next. */
  ghost predicate IsPath(parents: Parents, path: seq<string>) {
    forall i | 0 < i < |path| :: path[i - 1] in ParentsOf(parents, path[i])
  }

  /** There is a path of at least one edge from `from` to `to`. */
  ghost predicate Reaches(parents: Parents, from: string, to: string) {
    exists path :: |path| >= 2 && path[0] == from && path[|path| - 1] == to && IsPath(parents, path)
  }

  lemma EdgeReaches(parents: Parents, from: string, to: string)
    requires from in ParentsOf(parents, to)
    ensures Reaches(parents, from, to)
  {
    var path := [from, to];
    assert IsPath(parents, path) && path[0] == from && path[1] == to;
  }

  lemma ReachesThrough(parents: Parents, from: string, via: string, to: string)
    requires Reaches(parents, via, to)
    requires from in ParentsOf(parents, via) || Reaches(parents, from, via)
    ensures Reaches(parents, from, to)
  {
    if from in ParentsOf(parents, via) { EdgeReaches(parents, from, via); }
    var p :| |p| >= 2 && p[0] == from && p[|p| - 1] == via && IsPath(parents, p);
    var q :| |q| >= 2 && q[0] == via && q[|q| - 1] == to && IsPath(parents, q);
    var r := p + q[1..];
    assert IsPath(parents, r);
    assert r[0] == from && r[|r| - 1] == to;
  }

  /** A set that holds the parents of the target and of its own members holds every path to the target. */
  lemma {:induction false} ClosedUnderParents(parents: Parents, s: seq<string>, path: seq<string>)
    requires |path| >= 2 && IsPath(parents, path)
    requires forall p | p in ParentsOf(parents, path[|path| - 1]) :: p in s
    requires forall n, p | n in s && p in ParentsOf(parents, n) :: p in s
    ensures path[0] in s
    decreases |path|
  {
    var front := path[..|path| - 1];
    if |path| > 2 {
      assert front[|front| - 1] in s;
      ClosedUnderParents(parents, s, front);
    }
  }

  function ElementsOf(s: seq<string>): set<string> {
    set x | x in s
  }

  /** Every id that is a parent of something. */
  function AllParents(parents: Parents): set<string> {
    set c, p | c in parents && p in parents[c] :: p
  }

  ghost predicate Distinct(s: seq<string>) {
    forall i, j | 0 <= i < j < |s| :: s[i] != s[j]
  }

  method PushUnseen(queue: seq<string>, ps: seq<string>, seen: seq<string>) returns (r: seq<string>)
    ensures forall m :: m in r <==> m in queue || (m in ps && m !in seen)
  {
    r := queue;
    for i := 0 to |ps|
      invariant forall m :: m in r <==> m in queue || (m in ps[..i] && m !in seen)
    {
      assert ps[..i + 1] == ps[..i] + [ps[i]];
      if ps[i] !in seen {
        r := r + [ps[i]];
      }
    }
    assert ps[..|ps|] == ps;
  }

  /**
   The worklist. On every graph, cyclic or not, it stops, and returns each node from which the start can be
   reached exactly once: the start itself, then, exactly when it lies on a cycle.
   */
  method Ancestors(parents: Parents, start: string) returns (seen: seq<string>)
    ensures Distinct(seen)
    ensures forall n :: n in seen <==> Reaches(parents, n, start)
  {
    hide Reaches, AllParents, ElementsOf, ParentsOf;
    seen := [];
    var queue := ParentsOf(parents, start);
    forall n | n in queue ensures Reaches(parents, n, start) && n in AllParents(parents) {
      EdgeReaches(parents, n, start);
      ParentIsParent(parents, n, start);
    }
    while |queue| > 0
      invariant Distinct(seen)
      invariant forall n | n in seen || n in queue :: n in AllParents(parents) && Reaches(parents, n, start)
      invariant forall p | p in ParentsOf(parents, start) :: p in seen || p in queue
      invariant forall n, p | n in seen && p in ParentsOf(parents, n) :: p in seen || p in queue
      decreases |AllParents(parents) - ElementsOf(seen)|, |queue|
    {
      var n := queue[0];
      ghost var before := queue;
      queue := queue[1..];
      assert before == [n] + queue;
      if n in seen { continue; }
      ghost var left := AllParents(parents) - ElementsOf(seen);
      seen := seen + [n];
      FewerLeft(AllParents(parents), seen[..|seen| - 1], n);
      assert seen[..|seen| - 1] + [n] == seen;
      ghost var rest := queue;
      var ps := ParentsOf(parents, n);
      queue := PushUnseen(queue, ps, seen);
      PushedReach(parents, start, n, rest, queue);
    }
    forall n ensures n in seen <==> Reaches(parents, n, start) {
      ReachedIsSeen(parents, start, seen, n);
    }
  }

  /** Parents of a node that reaches the start reach it too. */
  lemma PushedReach(parents: Parents, start: string, n: string, rest: seq<string>, queue: seq<string>)
    requires Reaches(parents, n, start)
    requires forall m | m in rest :: m in AllParents(parents) && Reaches(parents, m, start)
    requires forall m | m in queue :: m in rest || m in ParentsOf(parents, n)
    ensures forall m | m in queue :: m in AllParents(parents) && Reaches(parents, m, start)
  {
    hide Reaches, AllParents, ParentsOf;
    forall m | m in queue && m in ParentsOf(parents, n) ensures m in AllParents(parents) && Reaches(parents, m, start) {
      ReachesThrough(parents, m, n, start);
      ParentIsParent(parents, m, n);
    }
  }

  lemma ParentIsParent(parents: Parents, p: string, c: string)
    requires p in ParentsOf(parents, c)
    ensures p in AllParents(parents)
  {
  }

  lemma FewerLeft(all: set<string>, seen: seq<string>, n: string)
    requires n in all && n !in seen
    ensures |all - ElementsOf(seen + [n])| < |all - ElementsOf(seen)|
  {
    assert all - ElementsOf(seen) == (all - ElementsOf(seen + [n])) + {n};
  }

  lemma ReachedIsSeen(parents: Parents, start: string, seen: seq<string>, n: string)
    requires forall p | p in ParentsOf(parents, start) :: p in seen
    requires forall m, p | m in seen && p in ParentsOf(parents, m) :: p in seen
    ensures Reaches(parents, n, start) ==> n in seen
  {
    if Reaches(parents, n, start) {
      var path :| |path| >= 2 && path[0] == n && path[|path| - 1] == start && IsPath(parents, path);
      ClosedUnderParents(parents, seen, path);
    }
  }

  // ---------------------------------------------------------------- plans

  datatype Plan = Plan(stageId: string, nodeId: string, requiredStageIds: seq<string>)

  /** Stage ids to runner modes, as `workspace/runner.yaml` declares them. */
  type Runner = map<string, string>

  predicate IsRunnerGated(runner: Runner, stageId: string) {
    stageId in runner && runner[stageId] != "none"
  }

  /** The runner has an entry for the stage, and its mode is not `none`. */
  ghost predicate Executes(runner: Runner, stageId: string) {
    stageId in runner.Keys && !(runner[stageId] == "none")
  }

  /** Node ids to stage ids; a later node of the same id wins. */
  function Binding(nodes: seq<Node>): map<string, string> {
    if nodes == [] then map[]
    else
      var front, last := Binding(nodes[..|nodes| - 1]), nodes[|nodes| - 1];
      if last.stageId.Some? then front[last.id := last.stageId.value] else front
  }

  /** The stages bound to the given nodes that a runner executes. */
  function GatedStages(binding: map<string, string>, runner: Runner, ids: seq<string>): (stages: seq<string>)
    ensures forall s :: s in stages <==>
              IsRunnerGated(runner, s) && exists k | 0 <= k < |ids| :: ids[k] in binding && binding[ids[k]] == s
  {
    if ids == [] then []
    else
      var front, last := GatedStages(binding, runner, ids[..|ids| - 1]), ids[|ids| - 1];
      if last in binding && IsRunnerGated(runner, binding[last]) then front + [binding[last]] else front
  }

  ghost predicate HasPlan(nodes: seq<Node>, runner: Runner, id: string) {
    id in Binding(nodes) && Binding(nodes)[id] != "" && Executes(runner, Binding(nodes)[id])
  }

  /**
   The plan for a node lists the gated stages of exactly the nodes from which it can be reached, and each of them
   once if no two nodes share a stage.
   */
  ghost predicate IsPlanFor(nodes: seq<Node>, parents: Parents, runner: Runner, plan: Plan, id: string) {
    && plan.nodeId == id && id in Binding(nodes) && plan.stageId == Binding(nodes)[id]
    && (OneNodePerStage(nodes) ==> Distinct(plan.requiredStageIds))
    && forall s :: s in plan.requiredStageIds <==>
         Executes(runner, s)
         && exists m :: Reaches(parents, m, id) && m in Binding(nodes) && Binding(nodes)[m] == s
  }

  ghost predicate OneNodePerStage(nodes: seq<Node>) {
    InjectiveOn(Binding(nodes))
  }

  ghost predicate InjectiveOn(binding: map<string, string>) {
    forall m, n | m in binding && n in binding && binding[m] == binding[n] :: m == n
  }

  lemma {:induction false} GatedStagesDistinct(binding: map<string, string>, runner: Runner, ids: seq<string>)
    requires InjectiveOn(binding) && Distinct(ids)
    ensures Distinct(GatedStages(binding, runner, ids))
  {
    if ids != [] {
      GatedStagesDistinct(binding, runner, ids[..|ids| - 1]);
    }
  }

  /** The ids, in order, of the nodes that get a plan. */
  ghost function PlannedIds(nodes: seq<Node>, runner: Runner, all: seq<Node>): seq<string> {
    if nodes == [] then []
    else
      var front, last := PlannedIds(nodes[..|nodes| - 1], runner, all), nodes[|nodes| - 1];
      if HasPlan(all, runner, last.id) then front + [last.id] else front
  }

  /** How two strings compare, as `localeCompare` says. */
  type Compare = (string, string) -> int

  function ByStage(compare: Compare): (Plan, Plan) -> int {
    (p: Plan, q: Plan) => compare(p.stageId, q.stageId)
  }

  /** The plans in the order in which the loop finds them, before they are sorted. */
  ghost predicate ArePlans(nodes: seq<Node>, parents: Parents, runner: Runner, compare: Compare, plans: seq<Plan>,
                           ids: seq<string>)
  {
    |plans| == |ids| && forall k | 0 <= k < |plans| :: IsSortedPlan(nodes, parents, runner, compare, plans[k], ids[k])
  }

  ghost predicate IsSortedPlan(nodes: seq<Node>, parents: Parents, runner: Runner, compare: Compare, plan: Plan,
                               id: string)
  {
    && IsPlanFor(nodes, parents, runner, plan, id)
    && (Sorting.Consistent(compare) ==> Sorting.Ordered(compare, plan.requiredStageIds))
  }

  method DerivePrereqsPlans(nodes: seq<Node>, runner: Option<Runner>, compare: Compare)
    returns (plans: seq<Plan>, ghost parents: Parents, ghost found: seq<Plan>)
    ensures forall p, c :: p in ParentsOf(parents, c) <==> Edge(nodes, p, c)
    ensures runner.None? ==> plans == []
    ensures runner.Some? ==>
              && ArePlans(nodes, parents, runner.value, compare, found, PlannedIds(nodes, runner.value, nodes))
              && plans == Sorting.SortBy(ByStage(compare), found) && multiset(plans) == multiset(found)
              && (Sorting.Consistent(compare) ==> Sorting.Ordered(ByStage(compare), plans))
  {
    hide Reaches, Edge, IsSortedPlan, ArePlans, ByStage;
    hide Sorting.SortBy, Sorting.Consistent, Sorting.Ordered;
    plans, found := [], [];
    var adjacency := BuildParents(nodes);
    parents := adjacency;
    if runner.None? { return; }
    var runnerStages := runner.value;
    var nodeIdToStageId: map<string, string> := map[];
    for k := 0 to |nodes|
      invariant nodeIdToStageId == Binding(nodes[..k])
    {
      assert nodes[..k + 1][..k] == nodes[..k];
      if nodes[k].stageId.None? { continue; }
      nodeIdToStageId := nodeIdToStageId[nodes[k].id := nodes[k].stageId.value];
    }
    assert nodes[..|nodes|] == nodes;
    NoPlans(nodes, parents, runnerStages, compare);
    for k := 0 to |nodes|
      invariant ArePlans(nodes, parents, runnerStages, compare, plans, PlannedIds(nodes[..k], runnerStages, nodes))
    {
      assert nodes[..k + 1][..k] == nodes[..k];
      var id := nodes[k].id;
      if id !in nodeIdToStageId { continue; }
      var stageId := nodeIdToStageId[id];
      if stageId == "" { continue; }
      if !IsRunnerGated(runnerStages, stageId) { continue; }
      var priorNodeIds := Ancestors(adjacency, id);
      var priorStageIds := Sorting.SortBy(compare, GatedStages(nodeIdToStageId, runnerStages, priorNodeIds));
      var plan := Plan(stageId, id, priorStageIds);
      PlanIsRight(nodes, parents, runnerStages, compare, plan, id, priorNodeIds);
      OnePlanMore(nodes, parents, runnerStages, compare, plans, PlannedIds(nodes[..k], runnerStages, nodes), plan, id);
      plans := plans + [plan];
    }
    found := plans;
    plans := Sorting.SortBy(ByStage(compare), plans);
    PlansAreOrdered(compare, found);
  }

  lemma OnePlanMore(nodes: seq<Node>, parents: Parents, runner: Runner, compare: Compare, plans: seq<Plan>,
                    ids: seq<string>, plan: Plan, id: string)
    requires ArePlans(nodes, parents, runner, compare, plans, ids)
    requires IsSortedPlan(nodes, parents, runner, compare, plan, id)
    ensures ArePlans(nodes, parents, runner, compare, plans + [plan], ids + [id])
  {
    hide IsSortedPlan;
  }

  lemma NoPlans(nodes: seq<Node>, parents: Parents, runner: Runner, compare: Compare)
    ensures ArePlans(nodes, parents, runner, compare, [], [])
    ensures PlannedIds(nodes[..0], runner, nodes) == []
  {
  }

  lemma PlansAreOrdered(compare: Compare, found: seq<Plan>)
    ensures Sorting.Consistent(compare) ==>
              Sorting.Ordered(ByStage(compare), Sorting.SortBy(ByStage(compare), found))
  {
    if Sorting.Consistent(compare) {
      hide Sorting.SortBy, Sorting.Ordered, Sorting.Consistent;
      ByStageIsConsistent(compare);
      Sorting.SortByOrders(ByStage(compare), found);
    }
  }

  lemma ByStageIsConsistent(compare: Compare)
    requires Sorting.Consistent(compare)
    ensures Sorting.Consistent(ByStage(compare))
  {
    forall p: Plan, q: Plan ensures ByStage(compare)(p, q) == compare(p.stageId, q.stageId) {
    }
    hide ByStage;
  }

  /** Sorting keeps elements apart. */
  lemma DistinctIsCount(s: seq<string>, t: seq<string>)
    requires Distinct(s) && multiset(s) == multiset(t)
    ensures Distinct(t)
  {
    forall i, j | 0 <= i < j < |t| ensures t[i] != t[j] {
      if t[i] == t[j] {
        TwiceInSequence(t, i, j);
        OnceInSequence(s, t[i]);
      }
    }
  }

  lemma TwiceInSequence(t: seq<string>, i: nat, j: nat)
    requires i < j < |t| && t[i] == t[j]
    ensures multiset(t)[t[i]] >= 2
  {
    assert t == t[..i] + [t[i]] + t[i + 1..j] + [t[j]] + t[j + 1..];
  }

  lemma {:induction false} OnceInSequence(s: seq<string>, x: string)
    requires Distinct(s)
    ensures multiset(s)[x] <= 1
  {
    if s != [] {
      OnceInSequence(s[1..], x);
      assert s == [s[0]] + s[1..];
      assert s[0] !in s[1..];
    }
  }

  lemma PlanIsRight(nodes: seq<Node>, parents: Parents, runner: Runner, compare: Compare, plan: Plan, id: string,
                    prior: seq<string>)
    requires Distinct(prior) && forall n :: n in prior <==> Reaches(parents, n, id)
    requires id in Binding(nodes) && plan.nodeId == id && plan.stageId == Binding(nodes)[id]
    requires plan.requiredStageIds == Sorting.SortBy(compare, GatedStages(Binding(nodes), runner, prior))
    ensures IsSortedPlan(nodes, parents, runner, compare, plan, id)
  {
    hide Reaches, Binding, Sorting.SortBy, Sorting.Consistent, Sorting.Ordered, Distinct, OneNodePerStage;
    var stages := GatedStages(Binding(nodes), runner, prior);
    if Sorting.Consistent(compare) { Sorting.SortByOrders(compare, stages); }
    StagesAreDistinct(nodes, runner, prior, plan.requiredStageIds);
    forall s ensures
      s in plan.requiredStageIds <==>
      Executes(runner, s)
      && exists m :: Reaches(parents, m, id) && m in Binding(nodes) && Binding(nodes)[m] == s
    {
      assert s in plan.requiredStageIds <==> s in multiset(plan.requiredStageIds);
      assert s in multiset(stages) <==> s in stages;
      if m :| Reaches(parents, m, id) && m in Binding(nodes) && Binding(nodes)[m] == s {
        assert m in prior;
      }
    }
  }

  lemma StagesAreDistinct(nodes: seq<Node>, runner: Runner, prior: seq<string>, sorted: seq<string>)
    requires Distinct(prior) && multiset(sorted) == multiset(GatedStages(Binding(nodes), runner, prior))
    ensures OneNodePerStage(nodes) ==> Distinct(sorted)
  {
    hide Binding, GatedStages, Distinct;
    if OneNodePerStage(nodes) {
      GatedStagesDistinct(Binding(nodes), runner, prior);
      DistinctIsCount(GatedStages(Binding(nodes), runner, prior), sorted);
    }
  }

  // ---------------------------------------------------------------- required stages

  /** A gated stage bound to some node requires a gated stage bound to a node that reaches it. */
  ghost predicate Requires(nodes: seq<Node>, parents: Parents, runner: Runner, stage: string, prior: string) {
    exists n, m :: IsRequirement(nodes, parents, runner, stage, prior, n, m)
  }

  ghost predicate IsRequirement(nodes: seq<Node>, parents: Parents, runner: Runner, stage: string, prior: string,
                                n: string, m: string)
  {
    && n in Binding(nodes) && Binding(nodes)[n] == stage && Executes(runner, stage)
    && m in Binding(nodes) && Binding(nodes)[m] == prior && Executes(runner, prior)
    && Reaches(parents, m, n)
  }

  /** With one node per stage, what a required stage's own plan requires is required already. */
  lemma PlansAreTransitive(nodes: seq<Node>, parents: Parents, runner: Runner, plan: Plan, prior: Plan, s: string)
    requires OneNodePerStage(nodes)
    requires IsPlanFor(nodes, parents, runner, plan, plan.nodeId)
    requires IsPlanFor(nodes, parents, runner, prior, prior.nodeId)
    requires prior.stageId in plan.requiredStageIds && s in prior.requiredStageIds
    ensures s in plan.requiredStageIds
  {
    hide Binding, Reaches, Distinct;
    var m :| Reaches(parents, m, plan.nodeId) && m in Binding(nodes) && Binding(nodes)[m] == prior.stageId;
    assert m == prior.nodeId;
    var l :| Reaches(parents, l, prior.nodeId) && l in Binding(nodes) && Binding(nodes)[l] == s;
    ReachesThrough(parents, l, m, plan.nodeId);
  }

  /** The same of the relation between stages: prerequisites of prerequisites are prerequisites. */
  lemma PrerequisitesAreTransitive(nodes: seq<Node>, parents: Parents, runner: Runner, a: string, b: string, c: string)
    requires OneNodePerStage(nodes)
    requires Requires(nodes, parents, runner, a, b) && Requires(nodes, parents, runner, b, c)
    ensures Requires(nodes, parents, runner, a, c)
  {
    hide Binding, Reaches;
    var n, m :| IsRequirement(nodes, parents, runner, a, b, n, m);
    var m', l :| IsRequirement(nodes, parents, runner, b, c, m', l);
    assert m == m';
    ReachesThrough(parents, l, m, n);
    assert IsRequirement(nodes, parents, runner, a, c, n, l);
  }

  // ---------------------------------------------------------------- the order of required stages

  /** Some node of one stage reaches some node of the other. */
  ghost predicate StageReaches(nodes: seq<Node>, parents: Parents, s: string, t: string) {
    exists m, n :: LeadsTo(nodes, parents, m, n, s, t)
  }

  ghost predicate LeadsTo(nodes: seq<Node>, parents: Parents, m: string, n: string, s: string, t: string) {
    && m in Binding(nodes) && Binding(nodes)[m] == s
    && n in Binding(nodes) && Binding(nodes)[n] == t
    && Reaches(parents, m, n)
  }

  /** No stage of the list reaches another one that stands before it. */
  ghost predicate InDagOrder(nodes: seq<Node>, parents: Parents, stages: seq<string>) {
    forall i, j | 0 <= i < j < |stages| && stages[i] != stages[j] :: !StageReaches(nodes, parents, stages[j], stages[i])
  }

  /** Only equal ids tie. */
  ghost predicate Antisymmetric(compare: Compare) {
    forall s, t | compare(s, t) <= 0 && compare(t, s) <= 0 :: s == t
  }

  /**
   A plan lists its required stages in DAG order if and only if their ids are named in DAG order: no stage reaches
   another one whose id sorts before its own.
   */
  lemma DagOrderIsNameOrder(nodes: seq<Node>, parents: Parents, runner: Runner, compare: Compare, plan: Plan)
    requires IsSortedPlan(nodes, parents, runner, compare, plan, plan.nodeId)
    requires Sorting.Consistent(compare) && Antisymmetric(compare)
    ensures InDagOrder(nodes, parents, plan.requiredStageIds) <==>
            forall s, t | s in plan.requiredStageIds && t in plan.requiredStageIds && s != t
                          && StageReaches(nodes, parents, s, t) :: compare(s, t) <= 0
  {
    hide IsPlanFor, StageReaches;
    var stages := plan.requiredStageIds;
    if InDagOrder(nodes, parents, stages) {
      forall s, t | s in stages && t in stages && s != t && StageReaches(nodes, parents, s, t)
        ensures compare(s, t) <= 0
      {
        var i :| 0 <= i < |stages| && stages[i] == s;
        var j :| 0 <= j < |stages| && stages[j] == t;
        assert i < j;
      }
    } else {
      var i, j :| 0 <= i < j < |stages| && stages[i] != stages[j] && StageReaches(nodes, parents, stages[j], stages[i]);
      assert compare(stages[i], stages[j]) <= 0;
      assert stages[i] in stages && stages[j] in stages;
    }
  }

  /** Three stages in a row, of which the second is named before the first. */
  const ROW: seq<Node> := [
    Node("n1", Some("S002"), ["n2"], []), Node("n2", Some("S001"), ["n3"], []), Node("n3", Some("S003"), [], [])]
  const ROW_RUNNER: Runner := map["S001" := "test", "S002" := "test", "S003" := "test"]

  /** The last stage of the row requires the other two, the wrong way round. */
  lemma RequiredStagesOutOfDagOrder(parents: Parents, compare: Compare, plan: Plan)
    requires forall p, c :: p in ParentsOf(parents, c) <==> Edge(ROW, p, c)
    requires Sorting.Consistent(compare) && Antisymmetric(compare) && compare("S001", "S002") <= 0
    requires IsSortedPlan(ROW, parents, ROW_RUNNER, compare, plan, "n3")
    ensures plan.requiredStageIds == ["S001", "S002"] && StageReaches(ROW, parents, "S002", "S001")
    ensures !InDagOrder(ROW, parents, plan.requiredStageIds)
  {
    hide ROW, ROW_RUNNER, Reaches, StageReaches, Edge, InDagOrder;
    RowBinding();
    RowReaches(parents);
    var stages := plan.requiredStageIds;
    RowIsGated();
    assert Reaches(parents, "n2", "n3") && Binding(ROW)["n2"] == "S001";
    assert Reaches(parents, "n1", "n3") && Binding(ROW)["n1"] == "S002";
    assert forall s | s in stages :: s == "S001" || s == "S002";
    TwoInOrder(compare, stages);
    OutOfOrder(parents, stages);
  }

  lemma OutOfOrder(parents: Parents, stages: seq<string>)
    requires stages == ["S001", "S002"] && Reaches(parents, "n1", "n2")
    ensures StageReaches(ROW, parents, "S002", "S001") && !InDagOrder(ROW, parents, stages)
  {
    RowBinding();
    hide ROW, Reaches, Binding;
    assert LeadsTo(ROW, parents, "n1", "n2", "S002", "S001");
    assert stages[0] == "S001" && stages[1] == "S002";
  }

  lemma TwoInOrder(compare: Compare, stages: seq<string>)
    requires Distinct(stages) && Sorting.Ordered(compare, stages) && Antisymmetric(compare)
    requires compare("S001", "S002") <= 0
    requires "S001" in stages && "S002" in stages && forall s | s in stages :: s == "S001" || s == "S002"
    ensures stages == ["S001", "S002"]
  {
    assert |stages| >= 3 ==> stages[0] in stages && stages[1] in stages && stages[2] in stages;
    assert "S001" != "S002" by { assert "S001"[3] != "S002"[3]; }
    assert stages[0] in stages;
  }

  lemma RowIsGated()
    ensures Executes(ROW_RUNNER, "S001") && Executes(ROW_RUNNER, "S002")
  {
    assert "test"[0] != "none"[0];
  }

  lemma RowBinding()
    ensures Binding(ROW) == map["n1" := "S002", "n2" := "S001", "n3" := "S003"] && OneNodePerStage(ROW)
  {
    assert ROW[..2] == [ROW[0], ROW[1]] && ROW[..2][..1] == [ROW[0]] && [ROW[0]][..0] == [];
    assert Binding([]) == map[];
    assert Binding([ROW[0]]) == map["n1" := "S002"];
    assert Binding(ROW[..2]) == map["n1" := "S002", "n2" := "S001"];
    assert "S001"[3] != "S002"[3] && "S001"[3] != "S003"[3] && "S002"[3] != "S003"[3];
  }

  lemma RowReaches(parents: Parents)
    requires forall p, c :: p in ParentsOf(parents, c) <==> Edge(ROW, p, c)
    ensures Reaches(parents, "n1", "n2")
    ensures forall m :: Reaches(parents, m, "n3") <==> m == "n1" || m == "n2"
  {
    forall p, c ensures Edge(ROW, p, c) <==> (p == "n1" && c == "n2") || (p == "n2" && c == "n3") {
      assert ROW[0].id == "n1" && ROW[1].id == "n2" && ROW[2].id == "n3";
      assert Unlocks(ROW[0], "n2") && Unlocks(ROW[1], "n3");
    }
    hide Edge, Reaches;
    EdgeReaches(parents, "n1", "n2");
    EdgeReaches(parents, "n2", "n3");
    ReachesThrough(parents, "n1", "n2", "n3");
    forall m | Reaches(parents, m, "n3") ensures m == "n1" || m == "n2" {
      ReachedIsSeen(parents, "n3", ["n1", "n2"], m);
    }
  }
}
