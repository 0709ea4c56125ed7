/**
 Branch statistics: `apps/worker/src/jobs/branch-stats-rollup.ts` and `safeCohortPercentage` of
 `apps/web/lib/share-cards.ts`.
 */
module BranchStats {
  import opened Wrappers
  import opened Reals

  datatype Traversal = Traversal(decisionNodeId: string, branchId: Option<string>, packageVersionId: string,
                                 selectedAt: real)

  /** A traversal without a branch, or with an empty one, is skipped. */
  predicate Counted(r: Traversal) {
    r.branchId.Some? && r.branchId.value != ""
  }

  // ---------------------------------------------------------------- counts

  function CountNode(rows: seq<Traversal>, node: string): nat {
    if rows == [] then 0
    else
      var r := rows[|rows| - 1];
      CountNode(rows[..|rows| - 1], node) + if Counted(r) && r.decisionNodeId == node then 1 else 0
  }

  function CountBranch(rows: seq<Traversal>, node: string, branch: string): nat {
    if rows == [] then 0
    else
      var r := rows[|rows| - 1];
      CountBranch(rows[..|rows| - 1], node, branch)
      + if Counted(r) && r.decisionNodeId == node && r.branchId.value == branch then 1 else 0
  }

  // ---------------------------------------------------------------- aggregateTraversals

  /** One entry of the inner `Map`, which keeps insertion order. */
  datatype Slot = Slot(branchId: string, n: nat)

  function IndexOf(slots: seq<Slot>, branch: string): (i: nat)
    ensures i <= |slots|
    ensures i < |slots| ==> slots[i].branchId == branch
    ensures forall j | 0 <= j < i :: slots[j].branchId != branch
  {
    if slots == [] || slots[0].branchId == branch then 0 else 1 + IndexOf(slots[1..], branch)
  }

  function Bump(slots: seq<Slot>, branch: string): seq<Slot> {
    var i := IndexOf(slots, branch);
    if i < |slots| then slots[i := Slot(branch, slots[i].n + 1)] else slots + [Slot(branch, 1)]
  }

  /** The branches of a node in order of first appearance, with their counts. */
  function Slots(rows: seq<Traversal>, node: string): seq<Slot> {
    if rows == [] then []
    else
      var front, r := Slots(rows[..|rows| - 1], node), rows[|rows| - 1];
      if Counted(r) && r.decisionNodeId == node then Bump(front, r.branchId.value) else front
  }

  /** The nodes in order of first appearance. */
  function NodeOrder(rows: seq<Traversal>): seq<string> {
    if rows == [] then []
    else
      var front, r := NodeOrder(rows[..|rows| - 1]), rows[|rows| - 1];
      if Counted(r) && r.decisionNodeId !in front then front + [r.decisionNodeId] else front
  }

  datatype Aggregated = Aggregated(decisionNodeId: string, branchId: string, branchN: nat, nodeN: nat)

  function RowsOf(node: string, slots: seq<Slot>, nodeN: nat): (out: seq<Aggregated>)
    ensures |out| == |slots|
    ensures forall i | 0 <= i < |out| :: out[i] == Aggregated(node, slots[i].branchId, slots[i].n, nodeN)
  {
    seq(|slots|, i requires 0 <= i < |slots| => Aggregated(node, slots[i].branchId, slots[i].n, nodeN))
  }

  function Emit(rows: seq<Traversal>, nodes: seq<string>): seq<Aggregated> {
    if nodes == [] then []
    else
      var last := nodes[|nodes| - 1];
      Emit(rows, nodes[..|nodes| - 1]) + RowsOf(last, Slots(rows, last), CountNode(rows, last))
  }

  function Aggregate(rows: seq<Traversal>): seq<Aggregated> {
    Emit(rows, NodeOrder(rows))
  }

  /** Node counts, and the inner maps, after some rows. */
  ghost predicate Tallies(rows: seq<Traversal>, nodes: seq<string>, nodeCounts: map<string, nat>,
                          branchCounts: map<string, seq<Slot>>)
  {
    && nodes == NodeOrder(rows)
    && (forall n :: n in branchCounts <==> n in nodes)
    && (forall n :: n in nodeCounts <==> n in nodes)
    && (forall n :: CountNode(rows, n) == if n in nodeCounts then nodeCounts[n] else 0)
    && (forall n :: Slots(rows, n) == if n in branchCounts then branchCounts[n] else [])
  }

  lemma OneMoreRow(rows: seq<Traversal>, k: nat, n: string)
    requires k < |rows|
    ensures var r, front, all := rows[k], rows[..k], rows[..k + 1];
            && CountNode(all, n) == CountNode(front, n) + (if Counted(r) && r.decisionNodeId == n then 1 else 0)
            && Slots(all, n) == (if Counted(r) && r.decisionNodeId == n then Bump(Slots(front, n), r.branchId.value)
                                 else Slots(front, n))
            && NodeOrder(all) == (if Counted(r) && r.decisionNodeId !in NodeOrder(front)
                                  then NodeOrder(front) + [r.decisionNodeId] else NodeOrder(front))
  {
    assert rows[..k + 1][..k] == rows[..k];
  }

  method AggregateTraversals(rows: seq<Traversal>) returns (out: seq<Aggregated>)
    ensures out == Aggregate(rows)
  {
    hide Bump, Counted, CountNode, Slots, NodeOrder, Emit;
    var nodeCounts: map<string, nat> := map[];
    var branchCounts: map<string, seq<Slot>> := map[];
    var nodes: seq<string> := [];
    NothingTallied();
    for k := 0 to |rows|
      invariant Tallies(rows[..k], nodes, nodeCounts, branchCounts)
    {
      var row := rows[k];
      SkippedRow(rows, k, nodes, nodeCounts, branchCounts);
      CountedRow(rows, k, nodes, nodeCounts, branchCounts);
      if !Counted(row) { continue; }
      CountedBranch(row);
      var node := row.decisionNodeId;
      nodeCounts := nodeCounts[node := (if node in nodeCounts then nodeCounts[node] else 0) + 1];
      var inner := if node in branchCounts then branchCounts[node] else [];
      if node !in branchCounts {
        nodes := nodes + [node];
      }
      branchCounts := branchCounts[node := Bump(inner, row.branchId.value)];
    }
    assert rows[..|rows|] == rows;
    out := EmitRows(rows, nodes, nodeCounts, branchCounts);
  }

  lemma SkippedRow(rows: seq<Traversal>, k: nat, nodes: seq<string>, nodeCounts: map<string, nat>,
                   branchCounts: map<string, seq<Slot>>)
    requires k < |rows| && Tallies(rows[..k], nodes, nodeCounts, branchCounts)
    ensures !Counted(rows[k]) ==> Tallies(rows[..k + 1], nodes, nodeCounts, branchCounts)
  {
    hide Bump, CountNode, Slots, NodeOrder, Counted;
    if !Counted(rows[k]) {
      OneMoreRow(rows, k, "");
      forall n
        ensures CountNode(rows[..k + 1], n) == CountNode(rows[..k], n) && Slots(rows[..k + 1], n) == Slots(rows[..k], n)
      {
        OneMoreRow(rows, k, n);
      }
    }
  }

  lemma CountedRow(rows: seq<Traversal>, k: nat, nodes: seq<string>, nodeCounts: map<string, nat>,
                   branchCounts: map<string, seq<Slot>>)
    requires k < |rows| && Tallies(rows[..k], nodes, nodeCounts, branchCounts)
    ensures var node := rows[k].decisionNodeId;
            Counted(rows[k]) ==>
              Tallies(rows[..k + 1], if node in branchCounts then nodes else nodes + [node],
                      nodeCounts[node := (if node in nodeCounts then nodeCounts[node] else 0) + 1],
                      branchCounts[node :=
                        Bump(if node in branchCounts then branchCounts[node] else [], rows[k].branchId.value)])
  {
    hide Bump, CountNode, Slots, NodeOrder;
    var r, front, all := rows[k], rows[..k], rows[..k + 1];
    if Counted(r) {
      hide Counted;
      OneMoreRow(rows, k, r.decisionNodeId);
      forall n | n != r.decisionNodeId
        ensures CountNode(all, n) == CountNode(front, n) && Slots(all, n) == Slots(front, n)
      {
        OneMoreRow(rows, k, n);
      }
    }
  }

  lemma NothingTallied()
    ensures Tallies([], [], map[], map[])
  {
  }

  lemma EmitOneMore(rows: seq<Traversal>, nodes: seq<string>, i: nat)
    requires i < |nodes|
    ensures Emit(rows, nodes[..i + 1])
         == Emit(rows, nodes[..i]) + RowsOf(nodes[i], Slots(rows, nodes[i]), CountNode(rows, nodes[i]))
  {
    hide Slots, CountNode, RowsOf;
    assert nodes[..i + 1][..i] == nodes[..i];
  }

  lemma TalliedNode(rows: seq<Traversal>, nodes: seq<string>, nodeCounts: map<string, nat>,
                    branchCounts: map<string, seq<Slot>>, node: string)
    requires Tallies(rows, nodes, nodeCounts, branchCounts) && node in nodes
    ensures node in nodeCounts && nodeCounts[node] == CountNode(rows, node)
    ensures node in branchCounts && branchCounts[node] == Slots(rows, node)
  {
    hide Slots, CountNode, NodeOrder;
  }

  /** The second pair of loops: nodes in order, and the branches of each in order. */
  method EmitRows(ghost rows: seq<Traversal>, nodes: seq<string>, nodeCounts: map<string, nat>,
                  branchCounts: map<string, seq<Slot>>) returns (out: seq<Aggregated>)
    requires Tallies(rows, nodes, nodeCounts, branchCounts)
    ensures out == Emit(rows, nodes)
  {
    assert Emit(rows, nodes[..0]) == [];
    assert nodes[..|nodes|] == nodes;
    hide Slots, CountNode, RowsOf, Emit, Tallies;
    out := [];
    for i := 0 to |nodes|
      invariant out == Emit(rows, nodes[..i])
    {
      var nodeId := nodes[i];
      TalliedNode(rows, nodes, nodeCounts, branchCounts, nodeId);
      EmitOneMore(rows, nodes, i);
      var nodeN := nodeCounts[nodeId];
      var branches := branchCounts[nodeId];
      ghost var before := out;
      NoRows(before, nodeId, branches, nodeN);
      for j := 0 to |branches|
        invariant out == before + RowsOf(nodeId, branches[..j], nodeN)
      {
        RowsOneMore(before, nodeId, branches, j, nodeN);
        out := out + [Aggregated(nodeId, branches[j].branchId, branches[j].n, nodeN)];
      }
      assert branches[..|branches|] == branches;
    }
  }

  lemma NoRows(before: seq<Aggregated>, node: string, slots: seq<Slot>, nodeN: nat)
    ensures before + RowsOf(node, slots[..0], nodeN) == before
  {
  }

  lemma CountedBranch(r: Traversal)
    requires Counted(r)
    ensures r.branchId.Some?
  {
  }

  lemma RowsOneMore(before: seq<Aggregated>, node: string, slots: seq<Slot>, j: nat, nodeN: nat)
    requires j < |slots|
    ensures before + RowsOf(node, slots[..j + 1], nodeN)
         == before + RowsOf(node, slots[..j], nodeN) + [Aggregated(node, slots[j].branchId, slots[j].n, nodeN)]
  {
    assert RowsOf(node, slots[..j + 1], nodeN)
        == RowsOf(node, slots[..j], nodeN) + [Aggregated(node, slots[j].branchId, slots[j].n, nodeN)];
  }

  // ---------------------------------------------------------------- each pair once, with its true count

  function SumSlots(slots: seq<Slot>): nat {
    if slots == [] then 0 else slots[0].n + SumSlots(slots[1..])
  }

  ghost predicate DistinctBranches(slots: seq<Slot>) {
    forall i, j | 0 <= i < j < |slots| :: slots[i].branchId != slots[j].branchId
  }

  /** How often `branch` was counted, according to the slots. */
  function SlotCount(slots: seq<Slot>, branch: string): nat {
    var i := IndexOf(slots, branch);
    if i < |slots| then slots[i].n else 0
  }

  lemma {:induction false} SumUpdate(slots: seq<Slot>, i: nat, s: Slot)
    requires i < |slots|
    ensures SumSlots(slots[i := s]) + slots[i].n == SumSlots(slots) + s.n
  {
    if i > 0 {
      SumUpdate(slots[1..], i - 1, s);
      assert slots[i := s][1..] == slots[1..][i - 1 := s];
    } else {
      assert slots[0 := s][1..] == slots[1..];
    }
  }

  lemma {:induction false} SumAppend(slots: seq<Slot>, s: Slot)
    ensures SumSlots(slots + [s]) == SumSlots(slots) + s.n
  {
    if slots == [] {
      assert slots + [s] == [s] && [s][1..] == [];
    } else {
      assert (slots + [s])[1..] == slots[1..] + [s];
      SumAppend(slots[1..], s);
    }
  }

  lemma IndexIs(slots: seq<Slot>, i: nat)
    requires DistinctBranches(slots) && i < |slots|
    ensures IndexOf(slots, slots[i].branchId) == i
  {
  }

  lemma BumpCounts(slots: seq<Slot>, branch: string, other: string)
    requires DistinctBranches(slots)
    ensures DistinctBranches(Bump(slots, branch)) && SumSlots(Bump(slots, branch)) == SumSlots(slots) + 1
    ensures SlotCount(Bump(slots, branch), other) == SlotCount(slots, other) + if other == branch then 1 else 0
  {
    hide SumSlots;
    var i := IndexOf(slots, branch);
    var bumped := Bump(slots, branch);
    if i < |slots| {
      SumUpdate(slots, i, Slot(branch, slots[i].n + 1));
      IndexIs(bumped, i);
    } else {
      SumAppend(slots, Slot(branch, 1));
      assert bumped[|slots|] == Slot(branch, 1);
      IndexIs(bumped, |slots|);
    }
    var k := IndexOf(slots, other);
    if k < |slots| { IndexIs(bumped, k); }
  }

  /** The slots of a node hold every branch once with its true count, and add up to the node's count. */
  lemma {:induction false} SlotsAreCounts(rows: seq<Traversal>, node: string, branch: string)
    ensures var slots := Slots(rows, node);
            && DistinctBranches(slots) && SumSlots(slots) == CountNode(rows, node)
            && SlotCount(slots, branch) == CountBranch(rows, node, branch)
  {
    hide Bump, SlotCount, Counted, DistinctBranches;
    if rows != [] {
      var front, r := rows[..|rows| - 1], rows[|rows| - 1];
      SlotsAreCounts(front, node, branch);
      if Counted(r) && r.decisionNodeId == node {
        CountedBranch(r);
        BumpCounts(Slots(front, node), r.branchId.value, branch);
      }
    } else {
      NoSlots(branch);
    }
  }

  lemma NoSlots(branch: string)
    ensures DistinctBranches([]) && SlotCount([], branch) == 0
  {
  }

  lemma {:induction false} SlotsArePositive(rows: seq<Traversal>, node: string)
    ensures forall s | s in Slots(rows, node) :: s.n > 0
  {
    if rows != [] { SlotsArePositive(rows[..|rows| - 1], node); }
  }

  lemma {:induction false} NodeOrderIsSupport(rows: seq<Traversal>, node: string)
    ensures node in NodeOrder(rows) <==> CountNode(rows, node) > 0
    ensures forall i, j | 0 <= i < j < |NodeOrder(rows)| :: NodeOrder(rows)[i] != NodeOrder(rows)[j]
  {
    hide Counted;
    if rows != [] {
      NodeOrderIsSupport(rows[..|rows| - 1], node);
    }
  }

  function SumFor(out: seq<Aggregated>, node: string): nat {
    if out == [] then 0
    else
      var last := out[|out| - 1];
      SumFor(out[..|out| - 1], node) + if last.decisionNodeId == node then last.branchN else 0
  }

  ghost predicate DistinctPairs(out: seq<Aggregated>) {
    forall i, j | 0 <= i < j < |out| ::
      out[i].decisionNodeId != out[j].decisionNodeId || out[i].branchId != out[j].branchId
  }

  ghost predicate DistinctNodes(nodes: seq<string>) {
    forall i, j | 0 <= i < j < |nodes| :: nodes[i] != nodes[j]
  }

  lemma {:induction false} EmitShape(rows: seq<Traversal>, nodes: seq<string>)
    requires DistinctNodes(nodes)
    ensures DistinctPairs(Emit(rows, nodes))
    ensures forall a | a in Emit(rows, nodes) :: a.decisionNodeId in nodes && IsTrueRow(rows, a)
  {
    hide Slots, CountNode, IsTrueRow;
    if nodes != [] {
      var front, last := nodes[..|nodes| - 1], nodes[|nodes| - 1];
      EmitShape(rows, front);
      RowsAreTrue(rows, last);
    }
  }

  /** A row says how often its branch and its node were counted. */
  ghost predicate IsTrueRow(rows: seq<Traversal>, a: Aggregated) {
    && a.branchN == CountBranch(rows, a.decisionNodeId, a.branchId) > 0
    && a.nodeN == CountNode(rows, a.decisionNodeId)
  }

  lemma RowsAreTrue(rows: seq<Traversal>, node: string)
    ensures var out := RowsOf(node, Slots(rows, node), CountNode(rows, node));
            DistinctPairs(out) && forall a | a in out :: a.decisionNodeId == node && IsTrueRow(rows, a)
  {
    hide Slots, CountNode, CountBranch;
    var slots := Slots(rows, node);
    var out := RowsOf(node, slots, CountNode(rows, node));
    SlotsArePositive(rows, node);
    SlotsAreCounts(rows, node, "");
    forall a | a in out ensures IsTrueRow(rows, a) {
      var i :| 0 <= i < |out| && out[i] == a;
      assert slots[i] in slots;
      SlotsAreCounts(rows, node, slots[i].branchId);
      IndexIs(slots, i);
    }
  }

  lemma {:induction false} EmitHas(rows: seq<Traversal>, nodes: seq<string>, node: string, branch: string)
    requires node in nodes && CountBranch(rows, node, branch) > 0
    ensures exists a | a in Emit(rows, nodes) :: a.decisionNodeId == node && a.branchId == branch
  {
    hide Slots, CountNode, CountBranch;
    var front, last := nodes[..|nodes| - 1], nodes[|nodes| - 1];
    if node in front {
      EmitHas(rows, front, node, branch);
      var a :| a in Emit(rows, front) && a.decisionNodeId == node && a.branchId == branch;
      assert a in Emit(rows, nodes);
    } else {
      var slots := Slots(rows, node);
      SlotsAreCounts(rows, node, branch);
      var i := IndexOf(slots, branch);
      var a := RowsOf(node, slots, CountNode(rows, node))[i];
      assert a in Emit(rows, nodes);
    }
  }

  lemma {:induction false} CountBranchBelowNode(rows: seq<Traversal>, node: string, branch: string)
    ensures CountBranch(rows, node, branch) <= CountNode(rows, node)
  {
    if rows != [] { CountBranchBelowNode(rows[..|rows| - 1], node, branch); }
  }

  lemma {:induction false} SumForConcat(a: seq<Aggregated>, b: seq<Aggregated>, node: string)
    ensures SumFor(a + b, node) == SumFor(a, node) + SumFor(b, node)
  {
    if b == [] {
      assert a + b == a;
    } else {
      assert (a + b)[..|a + b| - 1] == a + b[..|b| - 1];
      SumForConcat(a, b[..|b| - 1], node);
    }
  }

  lemma {:induction false} SumForRows(node: string, slots: seq<Slot>, nodeN: nat, other: string)
    ensures SumFor(RowsOf(node, slots, nodeN), other) == if other == node then SumSlots(slots) else 0
  {
    if slots != [] {
      var front, last := slots[..|slots| - 1], slots[|slots| - 1];
      SumForRows(node, front, nodeN, other);
      SumAppend(front, last);
      assert front + [last] == slots;
      assert RowsOf(node, slots, nodeN)[..|slots| - 1] == RowsOf(node, front, nodeN);
    }
  }

  lemma {:induction false} EmitConserves(rows: seq<Traversal>, nodes: seq<string>, node: string)
    requires DistinctNodes(nodes)
    ensures SumFor(Emit(rows, nodes), node) == if node in nodes then CountNode(rows, node) else 0
  {
    if nodes == [] {
    } else {
      hide Slots, CountNode, SumFor;
      var front, last := nodes[..|nodes| - 1], nodes[|nodes| - 1];
      assert nodes == front + [last];
      EmitConserves(rows, front, node);
      SumForConcat(Emit(rows, front), RowsOf(last, Slots(rows, last), CountNode(rows, last)), node);
      SumForRows(last, Slots(rows, last), CountNode(rows, last), node);
      SlotsAreCounts(rows, last, "");
    }
  }

  /**
   Aggregation reports each (node, branch) that was counted exactly once, with its true counts; the branch
   counts of a node add up to the node's count.
   */
  lemma AggregationConserves(rows: seq<Traversal>, node: string, branch: string)
    ensures DistinctPairs(Aggregate(rows)) && forall a | a in Aggregate(rows) :: IsTrueRow(rows, a)
    ensures CountBranch(rows, node, branch) > 0 <==>
            exists a | a in Aggregate(rows) :: a.decisionNodeId == node && a.branchId == branch
    ensures SumFor(Aggregate(rows), node) == CountNode(rows, node)
  {
    hide CountNode, CountBranch, Emit, NodeOrder, SumFor;
    NodeOrderIsSupport(rows, node);
    EmitShape(rows, NodeOrder(rows));
    EmitConserves(rows, NodeOrder(rows), node);
    if CountBranch(rows, node, branch) > 0 {
      CountBranchBelowNode(rows, node, branch);
      EmitHas(rows, NodeOrder(rows), node, branch);
    }
  }

  // ---------------------------------------------------------------- percentages

  const NODE_MIN_N := 20
  const BRANCH_MIN_N := 5

  /** `Math.round`. */
  function MathRound(x: real): int {
    (x + 0.5).Floor
  }

  function RoundToNearestFive(percent: real): int {
    MathRound(percent / 5.0) * 5
  }

  function ComputePercent(branchN: int, nodeN: int): Option<int> {
    if nodeN < NODE_MIN_N then None
    else if branchN < BRANCH_MIN_N then None
    else Some(RoundToNearestFive(branchN as real / nodeN as real * 100.0))
  }

  function SafeCohortPercentage(nodeN: int, branchN: int): Option<int> {
    if nodeN < NODE_MIN_N then None
    else if branchN < BRANCH_MIN_N then None
    else if nodeN <= 0 then None
    else if branchN < 0 || branchN > nodeN then None
    else Some(MathRound(branchN as real / nodeN as real * 100.0 / 5.0) * 5)
  }

  /** Rounding to a multiple of five moves a number by at most two and a half. */
  lemma RoundedIsClose(p: real)
    ensures RoundToNearestFive(p) % 5 == 0
    ensures RoundToNearestFive(p) == MathRound(p / 5.0) * 5
    ensures p - 2.5 <= RoundToNearestFive(p) as real <= p + 2.5
    ensures 0.0 <= p <= 100.0 ==> 0 <= RoundToNearestFive(p) <= 100
  {
    var q := MathRound(p / 5.0);
    assert q as real <= p / 5.0 + 0.5 < q as real + 1.0;
    assert RoundToNearestFive(p) as real == 5.0 * q as real;
  }

  lemma RatioIsPercent(b: int, n: int)
    requires 0 <= b <= n && n > 0
    ensures 0.0 <= b as real / n as real * 100.0 <= 100.0
  {
    var r := b as real / n as real;
    assert r * n as real == b as real;
    RatioBounds(r, b as real, n as real);
  }

  lemma RatioBounds(r: real, b: real, n: real)
    requires r * n == b && 0.0 <= b <= n && n > 0.0
    ensures 0.0 <= r <= 1.0
  {
    ProductsCompare(r, 0.0, n);
    ProductsCompare(1.0, r, n);
  }

  /**
   Published exactly when both samples are large enough, and then a multiple of five between 0 and 100 within
   2.5 of the exact value.
   */
  ghost predicate IsSafePercent(p: Option<int>, branchN: int, nodeN: int)
    requires 0 <= branchN <= nodeN
  {
    && (p.Some? <==> nodeN >= 20 && branchN >= 5)
    && (p.Some? ==> var exact := branchN as real / nodeN as real * 100.0;
                    && p.value % 5 == 0 && 0 <= p.value <= 100
                    && exact - 2.5 <= p.value as real <= exact + 2.5)
  }

  /** The rollup's percentage is safe, and the share card shows the same one. */
  lemma PublishedPercentIsSafe(branchN: int, nodeN: int)
    requires 0 <= branchN <= nodeN
    ensures IsSafePercent(ComputePercent(branchN, nodeN), branchN, nodeN)
    ensures ComputePercent(branchN, nodeN) == SafeCohortPercentage(nodeN, branchN)
  {
    hide RoundToNearestFive;
    if nodeN >= NODE_MIN_N && branchN >= BRANCH_MIN_N {
      var exact := branchN as real / nodeN as real * 100.0;
      RatioIsPercent(branchN, nodeN);
      RoundedIsClose(exact);
    }
  }

  /** The share card shows nothing where a branch would have more traversals than its node. */
  lemma CardRefusesImpossibleCounts(nodeN: int, branchN: int)
    requires branchN > nodeN
    ensures SafeCohortPercentage(nodeN, branchN) == None
  {
  }

  // ---------------------------------------------------------------- the rollup

  datatype Job = Job(packageVersionId: string, cohort: string, windowStart: real, windowEnd: real)

  datatype Stat = Stat(packageVersionId: string, decisionNodeId: string, branchId: string, cohort: string,
                       windowStart: real, windowEnd: real, n: nat, percent: Option<int>)

  predicate Matches(s: Stat, job: Job, a: Aggregated) {
    && s.packageVersionId == job.packageVersionId && s.decisionNodeId == a.decisionNodeId
    && s.branchId == a.branchId && s.cohort == job.cohort && s.windowStart == job.windowStart
  }

  /** `findFirst`: the index of the first matching row, or the size of the table. */
  function FindFirst(table: seq<Stat>, job: Job, a: Aggregated): (i: nat)
    ensures i <= |table|
    ensures i < |table| ==> Matches(table[i], job, a)
    ensures forall j | 0 <= j < i :: !Matches(table[j], job, a)
  {
    if table == [] || Matches(table[0], job, a) then 0 else 1 + FindFirst(table[1..], job, a)
  }

  function Upsert(table: seq<Stat>, job: Job, a: Aggregated): seq<Stat> {
    var percent := ComputePercent(a.branchN, a.nodeN);
    var i := FindFirst(table, job, a);
    if i < |table| then table[i := table[i].(n := a.branchN, percent := percent, windowEnd := job.windowEnd)]
    else table + [Stat(job.packageVersionId, a.decisionNodeId, a.branchId, job.cohort, job.windowStart,
                       job.windowEnd, a.branchN, percent)]
  }

  function UpsertAll(table: seq<Stat>, job: Job, rows: seq<Aggregated>): seq<Stat> {
    if rows == [] then table else Upsert(UpsertAll(table, job, rows[..|rows| - 1]), job, rows[|rows| - 1])
  }

  /** The `findMany` of the job: its package version, its half-open window. */
  function Selected(all: seq<Traversal>, job: Job): seq<Traversal> {
    if all == [] then []
    else
      var r := all[|all| - 1];
      Selected(all[..|all| - 1], job)
      + if r.packageVersionId == job.packageVersionId && job.windowStart <= r.selectedAt < job.windowEnd then [r]
        else []
  }

  function Rollup(table: seq<Stat>, all: seq<Traversal>, job: Job): seq<Stat> {
    UpsertAll(table, job, Aggregate(Selected(all, job)))
  }

  method RunBranchStatsRollup(table: seq<Stat>, all: seq<Traversal>, job: Job)
    returns (table': seq<Stat>, rollupCount: nat)
    ensures table' == Rollup(table, all, job) && rollupCount == |Aggregate(Selected(all, job))|
  {
    hide Upsert, Aggregate, Selected;
    var aggregated := AggregateTraversals(Selected(all, job));
    rollupCount := 0;
    table' := table;
    for i := 0 to |aggregated|
      invariant table' == UpsertAll(table, job, aggregated[..i]) && rollupCount == i
    {
      assert aggregated[..i + 1][..i] == aggregated[..i];
      table' := Upsert(table', job, aggregated[i]);
      rollupCount := rollupCount + 1;
    }
    assert aggregated[..|aggregated|] == aggregated;
  }

  // ---------------------------------------------------------------- counted over all traversals

  /** The traversals at `node` that the job is about and that took some branch. */
  ghost function AtNode(all: seq<Traversal>, job: Job, node: string): set<nat> {
    set i: nat | i < |all| && all[i].packageVersionId == job.packageVersionId
                 && job.windowStart <= all[i].selectedAt < job.windowEnd
                 && all[i].decisionNodeId == node && all[i].branchId !in {None, Some("")}
  }

  /** Those of them that took `branch`. */
  ghost function OnBranch(all: seq<Traversal>, job: Job, node: string, branch: string): set<nat> {
    set i: nat | i < |all| && all[i].packageVersionId == job.packageVersionId
                 && job.windowStart <= all[i].selectedAt < job.windowEnd
                 && all[i].decisionNodeId == node && all[i].branchId == Some(branch) && branch != ""
  }

  /** The counts of a rollup are those of the job's own traversals, over all there are. */
  lemma {:induction false} CountsAreDirect(all: seq<Traversal>, job: Job, node: string, branch: string)
    ensures CountNode(Selected(all, job), node) == |AtNode(all, job, node)|
    ensures CountBranch(Selected(all, job), node, branch) == |OnBranch(all, job, node, branch)|
  {
    if all == [] {
      assert AtNode(all, job, node) == {} && OnBranch(all, job, node, branch) == {};
    } else {
      var front, last, n := all[..|all| - 1], all[|all| - 1], |all| - 1;
      CountsAreDirect(front, job, node, branch);
      CountsOneMore(Selected(front, job), last, node, branch);
      NodeSetOneMore(all, job, node);
      BranchSetOneMore(all, job, node, branch);
    }
  }

  lemma CountsOneMore(rows: seq<Traversal>, r: Traversal, node: string, branch: string)
    ensures CountNode(rows + [r], node) == CountNode(rows, node)
              + if r.decisionNodeId == node && r.branchId !in {None, Some("")} then 1 else 0
    ensures CountBranch(rows + [r], node, branch) == CountBranch(rows, node, branch)
              + if r.decisionNodeId == node && r.branchId == Some(branch) && branch != "" then 1 else 0
    ensures rows + [] == rows
  {
    assert (rows + [r])[..|rows|] == rows;
  }

  lemma NodeSetOneMore(all: seq<Traversal>, job: Job, node: string)
    requires all != []
    ensures var n, last := |all| - 1, all[|all| - 1];
            |AtNode(all, job, node)| == |AtNode(all[..n], job, node)|
              + if last.packageVersionId == job.packageVersionId && job.windowStart <= last.selectedAt < job.windowEnd
                   && last.decisionNodeId == node && last.branchId !in {None, Some("")} then 1 else 0
  {
    var n := |all| - 1;
    var before, now := AtNode(all[..n], job, node), AtNode(all, job, node);
    assert n !in before;
    assert now == before || now == before + {n};
  }

  lemma BranchSetOneMore(all: seq<Traversal>, job: Job, node: string, branch: string)
    requires all != []
    ensures var n, last := |all| - 1, all[|all| - 1];
            |OnBranch(all, job, node, branch)| == |OnBranch(all[..n], job, node, branch)|
              + if last.packageVersionId == job.packageVersionId && job.windowStart <= last.selectedAt < job.windowEnd
                   && last.decisionNodeId == node && last.branchId == Some(branch) && branch != "" then 1 else 0
  {
    var n := |all| - 1;
    var before, now := OnBranch(all[..n], job, node, branch), OnBranch(all, job, node, branch);
    assert n !in before;
    assert now == before || now == before + {n};
  }

  // ---------------------------------------------------------------- running the job again

  /** The first row for `a` already says what `a` would write. */
  ghost predicate Settled(table: seq<Stat>, job: Job, a: Aggregated) {
    var i := FindFirst(table, job, a);
    && i < |table| && table[i].n == a.branchN && table[i].percent == ComputePercent(a.branchN, a.nodeN)
    && table[i].windowEnd == job.windowEnd
  }

  lemma UpsertSettles(table: seq<Stat>, job: Job, a: Aggregated)
    ensures Settled(Upsert(table, job, a), job, a)
  {
    hide ComputePercent;
    var i := FindFirst(table, job, a);
    var table' := Upsert(table, job, a);
    assert i < |table'| && Matches(table'[i], job, a);
    assert forall j | 0 <= j < i :: table'[j] == table[j];
  }

  lemma UpsertKeepsOthersSettled(table: seq<Stat>, job: Job, a: Aggregated, b: Aggregated)
    requires Settled(table, job, a)
    requires a.decisionNodeId != b.decisionNodeId || a.branchId != b.branchId
    ensures Settled(Upsert(table, job, b), job, a)
  {
    hide ComputePercent;
    var i := FindFirst(table, job, a);
    var table' := Upsert(table, job, b);
    assert table'[i] == table[i];
    assert forall j | 0 <= j < i :: Matches(table'[j], job, a) <==> Matches(table[j], job, a);
  }

  lemma {:induction false} UpsertAllSettles(table: seq<Stat>, job: Job, rows: seq<Aggregated>)
    requires DistinctPairs(rows)
    ensures forall a | a in rows :: Settled(UpsertAll(table, job, rows), job, a)
  {
    hide Upsert, Settled;
    if rows != [] {
      var front, last := rows[..|rows| - 1], rows[|rows| - 1];
      var before := UpsertAll(table, job, front);
      UpsertAllSettles(table, job, front);
      UpsertSettles(before, job, last);
      forall a | a in rows ensures Settled(UpsertAll(table, job, rows), job, a) {
        if a != last {
          assert a in front;
          UpsertKeepsOthersSettled(before, job, a, last);
        }
      }
    }
  }

  lemma SettledUpsertIsNoOp(table: seq<Stat>, job: Job, a: Aggregated)
    requires Settled(table, job, a)
    ensures Upsert(table, job, a) == table
  {
  }

  lemma {:induction false} SettledUpsertsAreNoOps(table: seq<Stat>, job: Job, rows: seq<Aggregated>)
    requires forall a | a in rows :: Settled(table, job, a)
    ensures UpsertAll(table, job, rows) == table
  {
    hide Upsert, Settled;
    if rows != [] {
      SettledUpsertsAreNoOps(table, job, rows[..|rows| - 1]);
      SettledUpsertIsNoOp(table, job, rows[|rows| - 1]);
    }
  }

  /** Running the job again over the same traversals changes nothing. */
  lemma RerunChangesNothing(table: seq<Stat>, all: seq<Traversal>, job: Job)
    ensures Rollup(Rollup(table, all, job), all, job) == Rollup(table, all, job)
  {
    hide Aggregate, Selected, UpsertAll, Settled, IsTrueRow;
    var rows := Aggregate(Selected(all, job));
    AggregationConserves(Selected(all, job), "", "");
    UpsertAllSettles(table, job, rows);
    SettledUpsertsAreNoOps(UpsertAll(table, job, rows), job, rows);
  }

  /**
   After a rollup, every pair that one of the job's traversals took has a row, and the first one carries the number of
   those traversals and a percentage that is safe for it and the number at the node.
   */
  lemma RollupPublishesSafely(table: seq<Stat>, all: seq<Traversal>, job: Job, node: string, branch: string)
    requires OnBranch(all, job, node, branch) != {}
    ensures var stats := Rollup(table, all, job);
            var branchN, nodeN := |OnBranch(all, job, node, branch)|, |AtNode(all, job, node)|;
            exists i :: IsFirstRowOf(stats, job, node, branch, i) && branchN <= nodeN && stats[i].n == branchN
                        && stats[i].windowEnd == job.windowEnd && IsSafePercent(stats[i].percent, branchN, nodeN)
  {
    hide Aggregate, Selected, UpsertAll, CountBranch, CountNode, ComputePercent, DistinctPairs, FindFirst, SumFor,
         OnBranch, AtNode;
    var rows := Selected(all, job);
    CountsAreDirect(all, job, node, branch);
    AggregationConserves(rows, node, branch);
    UpsertAllSettles(table, job, Aggregate(rows));
    var a :| a in Aggregate(rows) && a.decisionNodeId == node && a.branchId == branch;
    assert IsTrueRow(rows, a);
    CountBranchBelowNode(rows, node, branch);
    PublishedPercentIsSafe(a.branchN, a.nodeN);
    assert Settled(Rollup(table, all, job), job, a);
    var i := FindFirst(Rollup(table, all, job), job, a);
    assert IsFirstRowOf(Rollup(table, all, job), job, node, branch, i);
  }

  ghost predicate IsRowOf(s: Stat, job: Job, node: string, branch: string) {
    && s.packageVersionId == job.packageVersionId && s.cohort == job.cohort && s.windowStart == job.windowStart
    && s.decisionNodeId == node && s.branchId == branch
  }

  ghost predicate IsFirstRowOf(stats: seq<Stat>, job: Job, node: string, branch: string, i: int) {
    && 0 <= i < |stats| && IsRowOf(stats[i], job, node, branch)
    && forall j | 0 <= j < i :: !IsRowOf(stats[j], job, node, branch)
  }

  // ---------------------------------------------------------------- every row of the table

  /** One run of the job, over the traversals there were then. */
  datatype Run = Run(all: seq<Traversal>, job: Job)

  /** The row says how many traversals of the run took its branch, and carries a percentage safe for the true counts. */
  ghost predicate TrueOf(s: Stat, run: Run) {
    var branchN := |OnBranch(run.all, run.job, s.decisionNodeId, s.branchId)|;
    var nodeN := |AtNode(run.all, run.job, s.decisionNodeId)|;
    && IsRowOf(s, run.job, s.decisionNodeId, s.branchId) && s.windowEnd == run.job.windowEnd
    && 0 < branchN <= nodeN && s.n == branchN && IsSafePercent(s.percent, branchN, nodeN)
  }

  /** The row is one of the job's, for a pair that some traversal of the run took. */
  ghost predicate Recounted(s: Stat, run: Run) {
    && IsRowOf(s, run.job, s.decisionNodeId, s.branchId)
    && OnBranch(run.all, run.job, s.decisionNodeId, s.branchId) != {}
  }

  /** An upsert writes a true row, over an earlier one of the same pair or at the end, and leaves all others. */
  lemma UpsertWritesTrueRow(table: seq<Stat>, run: Run, a: Aggregated)
    requires IsTrueRow(Selected(run.all, run.job), a)
    ensures |table| <= |Upsert(table, run.job, a)|
    ensures forall i | 0 <= i < |Upsert(table, run.job, a)| ::
              var s := Upsert(table, run.job, a)[i];
              (i < |table| && s == table[i])
              || (TrueOf(s, run) && (i < |table| ==> Recounted(table[i], run)))
  {
    hide Selected, CountBranch, CountNode, ComputePercent, IsSafePercent, OnBranch, AtNode;
    var rows := Selected(run.all, run.job);
    CountsAreDirect(run.all, run.job, a.decisionNodeId, a.branchId);
    CountBranchBelowNode(rows, a.decisionNodeId, a.branchId);
    PublishedPercentIsSafe(a.branchN, a.nodeN);
  }

  lemma {:induction false} UpsertsWriteTrueRows(table: seq<Stat>, run: Run, rows: seq<Aggregated>)
    requires forall a | a in rows :: IsTrueRow(Selected(run.all, run.job), a)
    ensures |table| <= |UpsertAll(table, run.job, rows)|
    ensures forall i | 0 <= i < |UpsertAll(table, run.job, rows)| ::
              var s := UpsertAll(table, run.job, rows)[i];
              (i < |table| && s == table[i])
              || (TrueOf(s, run) && (i < |table| ==> Recounted(table[i], run)))
  {
    hide Upsert, IsTrueRow, TrueOf, Recounted;
    if rows != [] {
      var front, last := rows[..|rows| - 1], rows[|rows| - 1];
      UpsertsWriteTrueRows(table, run, front);
      assert last in rows;
      var before := UpsertAll(table, run.job, front);
      UpsertWritesTrueRow(before, run, last);
    }
  }

  /**
   What a run does to the rows there were: those of a pair it counts it may rewrite truly, all others stay, stale or
   not; what it adds is true.
   */
  lemma RollupRow(table: seq<Stat>, run: Run, i: nat)
    requires i < |Rollup(table, run.all, run.job)|
    ensures var s := Rollup(table, run.all, run.job)[i];
            && ((i < |table| && s == table[i]) || TrueOf(s, run))
            && (i < |table| && !Recounted(table[i], run) ==> s == table[i])
  {
    hide Aggregate, Selected, UpsertAll, TrueOf, Recounted, IsTrueRow;
    var rows := Selected(run.all, run.job);
    AggregationConserves(rows, "", "");
    UpsertsWriteTrueRows(table, run, Aggregate(rows));
  }

  function AfterRuns(runs: seq<Run>): seq<Stat> {
    if runs == [] then []
    else
      var last := runs[|runs| - 1];
      Rollup(AfterRuns(runs[..|runs| - 1]), last.all, last.job)
  }

  /** After any runs, every row of the table says what one of the runs counted. */
  lemma {:induction false} EveryRowWasCounted(runs: seq<Run>, i: nat)
    requires i < |AfterRuns(runs)|
    ensures exists run | run in runs :: TrueOf(AfterRuns(runs)[i], run)
  {
    hide Rollup, TrueOf;
    if runs != [] {
      var front, last := runs[..|runs| - 1], runs[|runs| - 1];
      assert last in runs;
      RollupRow(AfterRuns(front), last, i);
      if !TrueOf(AfterRuns(runs)[i], last) {
        EveryRowWasCounted(front, i);
        var run :| run in front && TrueOf(AfterRuns(front)[i], run);
        assert run in runs;
      }
    }
  }
}
