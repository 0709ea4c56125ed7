/** Tensor comparison: `checkNumeric` of `packages/evaluator-sdk/src/numeric.ts`. */
module NumericCheck {
  import opened Wrappers
  import opened Reals

  /** A JavaScript number; the finite ones are taken as reals. */
  datatype Number = Finite(x: real) | NotFinite

  datatype Value = Leaf(number: Number) | Array(items: seq<Value>)

  datatype Tolerance = Tolerance(absolute: Option<real>, relative: Option<real>)

  datatype Spec = Spec(expected: Value, tolerance: Tolerance, unit: Option<string>, shape: Option<seq<int>>)

  datatype Observation = Observation(value: Option<Value>, unit: Option<string>)

  datatype Reason = UnitMismatch | ShapeMismatch | ValueMismatch | Missing | ObservedNotFinite | SpecInvalid

  datatype CheckResult = CheckResult(
    passed: bool, maxAbsError: Option<real>, maxRelError: Option<real>, observedShape: Option<seq<int>>,
    observedUnit: Option<string>, reason: Option<Reason>)

  function Failed(reason: Reason): CheckResult {
    CheckResult(false, None, None, None, None, Some(reason))
  }

  // ---------------------------------------------------------------- shapes

  /** The lengths met on the way down the first children. */
  function InferShape(v: Value): seq<int> {
    if v.Leaf? then []
    else if v.items == [] then [0]
    else [|v.items|] + InferShape(v.items[0])
  }

  lemma ShapeOneDown(dims: seq<int>, v: Value)
    requires v.Array?
    ensures dims + InferShape(v)
         == dims + [|v.items|] + if v.items == [] then [] else InferShape(v.items[0])
  {
  }

  method InferShapeUnchecked(v: Value) returns (dims: seq<int>)
    ensures dims == InferShape(v)
  {
    assert forall w: Value | w.Leaf? :: InferShape(w) == [];
    hide InferShape;
    dims := [];
    var cur := v;
    assert [] + InferShape(v) == InferShape(v);
    while cur.Array?
      invariant dims + InferShape(cur) == InferShape(v)
      decreases cur
    {
      ShapeOneDown(dims, cur);
      dims := dims + [|cur.items|];
      if |cur.items| == 0 { return; }
      cur := cur.items[0];
    }
  }

  predicate IsUniformShape(v: Value, shape: seq<int>, depth: nat)
    requires depth <= |shape|
    decreases |shape| - depth
  {
    if depth == |shape| then v.Leaf?
    else
      && v.Array? && |v.items| == shape[depth]
      && forall i | 0 <= i < |v.items| :: IsUniformShape(v.items[i], shape, depth + 1)
  }

  method ShapesEqual(a: seq<int>, b: seq<int>) returns (equal: bool)
    ensures equal <==> a == b
  {
    if |a| != |b| { return false; }
    for i := 0 to |a|
      invariant a[..i] == b[..i]
    {
      if a[i] != b[i] { return false; }
    }
    equal := true;
  }

  /** A regular tensor: every level has the length the shape says. */
  ghost predicate IsTensor(v: Value, shape: seq<int>)
    decreases |shape|
  {
    if shape == [] then v.Leaf?
    else v.Array? && |v.items| == shape[0] && forall i | 0 <= i < |v.items| :: IsTensor(v.items[i], shape[1..])
  }

  lemma {:induction false} UniformIsTensor(v: Value, shape: seq<int>, depth: nat)
    requires depth <= |shape|
    ensures IsUniformShape(v, shape, depth) <==> IsTensor(v, shape[depth..])
    decreases |shape| - depth
  {
    if depth < |shape| {
      assert shape[depth..][1..] == shape[depth + 1..];
      if v.Array? {
        forall i | 0 <= i < |v.items|
          ensures IsUniformShape(v.items[i], shape, depth + 1) <==> IsTensor(v.items[i], shape[depth + 1..])
        {
          UniformIsTensor(v.items[i], shape, depth + 1);
        }
      }
    }
  }

  /** A shape up to its first zero: what can be seen of it in a tensor. */
  function Visible(shape: seq<int>): seq<int> {
    if shape == [] then [] else if shape[0] == 0 then [0] else [shape[0]] + Visible(shape[1..])
  }

  /** Whatever shape a regular tensor has, the inferred one is the visible part of it, and fits too. */
  lemma {:induction false} InferredShapeIsVisible(v: Value, shape: seq<int>)
    requires IsTensor(v, shape)
    ensures InferShape(v) == Visible(shape) && IsTensor(v, InferShape(v))
    decreases |shape|
  {
    if shape != [] && v.items != [] {
      InferredShapeIsVisible(v.items[0], shape[1..]);
      var seen := Visible(shape[1..]);
      forall i | 0 <= i < |v.items| ensures IsTensor(v.items[i], seen) {
        InferredShapeIsVisible(v.items[i], shape[1..]);
      }
      assert InferShape(v)[1..] == seen;
    }
  }

  ghost predicate SameShape(v: Value, w: Value) {
    exists shape :: IsTensor(v, shape) && IsTensor(w, shape)
  }

  /** The checks on inferred shapes decide whether the two values are regular tensors of one shape. */
  lemma InferredShapesDecide(v: Value, w: Value)
    ensures SameShape(v, w) <==>
            && IsUniformShape(v, InferShape(v), 0) && IsUniformShape(w, InferShape(w), 0)
            && InferShape(v) == InferShape(w)
  {
    hide IsTensor, InferShape;
    UniformIsTensor(v, InferShape(v), 0);
    UniformIsTensor(w, InferShape(w), 0);
    assert InferShape(v)[0..] == InferShape(v) && InferShape(w)[0..] == InferShape(w);
    if SameShape(v, w) {
      var shape :| IsTensor(v, shape) && IsTensor(w, shape);
      InferredShapeIsVisible(v, shape);
      InferredShapeIsVisible(w, shape);
    }
  }

  // ---------------------------------------------------------------- the walk

  /** The worst residuals seen so far. */
  datatype Worst = Worst(maxAbs: real, maxRel: Option<real>)

  function Abs(x: real): real {
    if x < 0.0 then -x else x
  }

  function Relative(o: real, e: real): real
    requires e != 0.0
  {
    Abs(o - e) / Abs(e)
  }

  function Allowance(tol: Tolerance, e: real): real {
    (if tol.absolute.Some? then tol.absolute.value else 0.0) + Scaled(tol.relative, Abs(e))
  }

  function Scaled(t: Option<real>, a: real): real {
    if t.Some? then t.value * a else 0.0
  }

  /** One pair of leaves; a failing pair still counts towards the worst residuals. */
  function Visit(tol: Tolerance, o: Number, e: Number, w: Worst): (Option<Reason>, Worst) {
    if o.NotFinite? then (Some(ObservedNotFinite), w)
    else if e.NotFinite? then (Some(SpecInvalid), w)
    else
      var diff := Abs(o.x - e.x);
      var w' := Worst(
        if diff > w.maxAbs then diff else w.maxAbs,
        if e.x != 0.0 && (w.maxRel.None? || Relative(o.x, e.x) > w.maxRel.value) then Some(Relative(o.x, e.x))
        else w.maxRel);
      (if diff <= Allowance(tol, e.x) then None else Some(ValueMismatch), w')
  }

  function Walk(tol: Tolerance, o: Value, e: Value, w: Worst): (Option<Reason>, Worst)
    decreases o, 1
  {
    if o.Leaf? && e.Leaf? then Visit(tol, o.number, e.number, w)
    else if o.Array? && e.Array? then
      if |o.items| != |e.items| then (Some(ShapeMismatch), w) else WalkItems(tol, o.items, e.items, w)
    else (Some(ShapeMismatch), w)
  }

  function WalkItems(tol: Tolerance, os: seq<Value>, es: seq<Value>, w: Worst): (Option<Reason>, Worst)
    requires |os| == |es|
    decreases os, 0
  {
    if os == [] then (None, w)
    else
      var (fail, w') := Walk(tol, os[0], es[0], w);
      if fail.Some? then (fail, w') else WalkItems(tol, os[1..], es[1..], w')
  }

  method WalkPairs(tol: Tolerance, o: Value, e: Value, w: Worst) returns (fail: Option<Reason>, w': Worst)
    ensures (fail, w') == Walk(tol, o, e, w)
    decreases o
  {
    w' := w;
    if o.Leaf? && e.Leaf? {
      var visited := Visit(tol, o.number, e.number, w);
      return visited.0, visited.1;
    }
    if o.Array? && e.Array? {
      if |o.items| != |e.items| { return Some(ShapeMismatch), w'; }
      for i := 0 to |o.items|
        invariant WalkItems(tol, o.items[i..], e.items[i..], w') == Walk(tol, o, e, w)
      {
        hide Walk;
        assert o.items[i..][1..] == o.items[i + 1..] && e.items[i..][1..] == e.items[i + 1..];
        var r: Option<Reason>;
        r, w' := WalkPairs(tol, o.items[i], e.items[i], w');
        if r.Some? { return r, w'; }
      }
      return None, w';
    }
    fail := Some(ShapeMismatch);
  }

  // ---------------------------------------------------------------- checkNumeric

  predicate ToleranceValid(tol: Tolerance) {
    && (tol.absolute.Some? || tol.relative.Some?)
    && (tol.absolute.Some? ==> tol.absolute.value >= 0.0)
    && (tol.relative.Some? ==> tol.relative.value >= 0.0)
  }

  predicate UnitMatches(observed: Option<string>, wanted: Option<string>) {
    wanted.Some? ==> observed == wanted
  }

  function Check(observation: Option<Observation>, spec: Spec): CheckResult {
    if !ToleranceValid(spec.tolerance) then Failed(SpecInvalid)
    else if observation.None? || observation.value.value.None? then Failed(Missing)
    else
      var obs := observation.value;
      var value := obs.value.value;
      var shape, expectedShape := InferShape(value), InferShape(spec.expected);
      if !UnitMatches(obs.unit, spec.unit) then Failed(UnitMismatch).(observedUnit := obs.unit)
      else if !IsUniformShape(value, shape, 0) then Failed(ShapeMismatch).(observedShape := Some(shape))
      else if !IsUniformShape(spec.expected, expectedShape, 0) then Failed(SpecInvalid)
      else if spec.shape.Some? && spec.shape.value != expectedShape then Failed(SpecInvalid)
      else if shape != expectedShape then Failed(ShapeMismatch).(observedShape := Some(shape))
      else
        var (fail, worst) := Walk(spec.tolerance, value, spec.expected, Worst(0.0, None));
        CheckResult(fail.None?, Some(worst.maxAbs), worst.maxRel, Some(shape), obs.unit, fail)
  }

  method CheckNumeric(observation: Option<Observation>, spec: Spec) returns (r: CheckResult)
    ensures r == Check(observation, spec)
  {
    hide Walk, InferShape, IsUniformShape;
    var tol := spec.tolerance;
    if tol.absolute.None? && tol.relative.None? { return Failed(SpecInvalid); }
    if tol.absolute.Some? && tol.absolute.value < 0.0 { return Failed(SpecInvalid); }
    if tol.relative.Some? && tol.relative.value < 0.0 { return Failed(SpecInvalid); }
    if observation.None? || observation.value.value.None? { return Failed(Missing); }
    var obs := observation.value;
    var value := obs.value.value;
    if spec.unit.Some? {
      if obs.unit.None? || obs.unit.value != spec.unit.value {
        return Failed(UnitMismatch).(observedUnit := obs.unit);
      }
    }
    var observedShape := InferShapeUnchecked(value);
    if !IsUniformShape(value, observedShape, 0) {
      return Failed(ShapeMismatch).(observedShape := Some(observedShape));
    }
    var expectedShape := InferShapeUnchecked(spec.expected);
    if !IsUniformShape(spec.expected, expectedShape, 0) { return Failed(SpecInvalid); }
    if spec.shape.Some? {
      var declared := ShapesEqual(spec.shape.value, expectedShape);
      if !declared { return Failed(SpecInvalid); }
    }
    var targetShape := if spec.shape.Some? then spec.shape.value else expectedShape;
    var sameShape := ShapesEqual(observedShape, targetShape);
    if !sameShape { return Failed(ShapeMismatch).(observedShape := Some(observedShape)); }
    var fail, worst := WalkPairs(tol, value, spec.expected, Worst(0.0, None));
    r := CheckResult(fail.None?, Some(worst.maxAbs), worst.maxRel, Some(observedShape), obs.unit, fail);
  }

  // ---------------------------------------------------------------- leaves

  /** The leaves from left to right. */
  function Leaves(v: Value): seq<Number>
    decreases v, 1
  {
    if v.Leaf? then [v.number] else LeavesOf(v.items)
  }

  function LeavesOf(vs: seq<Value>): seq<Number>
    decreases vs, 0
  {
    if vs == [] then [] else Leaves(vs[0]) + LeavesOf(vs[1..])
  }

  /** The walk over two flat lists of leaves. */
  function WalkLeaves(tol: Tolerance, os: seq<Number>, es: seq<Number>, w: Worst): (Option<Reason>, Worst)
    requires |os| == |es|
  {
    if os == [] then (None, w)
    else
      var (fail, w') := Visit(tol, os[0], es[0], w);
      if fail.Some? then (fail, w') else WalkLeaves(tol, os[1..], es[1..], w')
  }

  lemma {:induction false} WalkLeavesOfConcat(tol: Tolerance, os: seq<Number>, es: seq<Number>,
                                              os': seq<Number>, es': seq<Number>, w: Worst)
    requires |os| == |es| && |os'| == |es'|
    ensures var (fail, v) := WalkLeaves(tol, os, es, w);
            WalkLeaves(tol, os + os', es + es', w) == if fail.Some? then (fail, v) else WalkLeaves(tol, os', es', v)
  {
    hide Visit;
    if os == [] {
      assert os + os' == os' && es + es' == es';
    } else {
      assert (os + os')[1..] == os[1..] + os' && (es + es')[1..] == es[1..] + es';
      WalkLeavesOfConcat(tol, os[1..], es[1..], os', es', Visit(tol, os[0], es[0], w).1);
    }
  }

  ghost predicate AreTensors(vs: seq<Value>, shape: seq<int>) {
    forall i | 0 <= i < |vs| :: IsTensor(vs[i], shape)
  }

  /** Walking two tensors of one shape is walking their leaves. */
  lemma {:induction false} WalkIsWalkLeaves(tol: Tolerance, o: Value, e: Value, shape: seq<int>, w: Worst)
    requires IsTensor(o, shape) && IsTensor(e, shape)
    ensures |Leaves(o)| == |Leaves(e)|
    ensures Walk(tol, o, e, w) == WalkLeaves(tol, Leaves(o), Leaves(e), w)
    decreases o, 1
  {
    hide Visit;
    if shape == [] {
      assert [o.number][1..] == [] && [e.number][1..] == [];
    } else {
      WalkItemsIsWalkLeaves(tol, o.items, e.items, shape[1..], w);
    }
  }

  lemma {:induction false} WalkItemsIsWalkLeaves(tol: Tolerance, os: seq<Value>, es: seq<Value>, shape: seq<int>,
                                                 w: Worst)
    requires |os| == |es| && AreTensors(os, shape) && AreTensors(es, shape)
    ensures |LeavesOf(os)| == |LeavesOf(es)|
    ensures WalkItems(tol, os, es, w) == WalkLeaves(tol, LeavesOf(os), LeavesOf(es), w)
    decreases os, 0
  {
    hide Visit, Walk, Leaves, IsTensor;
    if os != [] {
      WalkIsWalkLeaves(tol, os[0], es[0], shape, w);
      var w' := Walk(tol, os[0], es[0], w).1;
      WalkItemsIsWalkLeaves(tol, os[1..], es[1..], shape, w');
      WalkLeavesOfConcat(tol, Leaves(os[0]), Leaves(es[0]), LeavesOf(os[1..]), LeavesOf(es[1..]), w);
    }
  }

  ghost predicate PairOk(tol: Tolerance, o: Number, e: Number) {
    o.Finite? && e.Finite? && Abs(o.x - e.x) <= Allowance(tol, e.x)
  }

  /** How far apart two numbers are, and how far one is from zero. */
  function Distance(a: real, b: real): real {
    if a <= b then b - a else a - b
  }

  /** Within the absolute tolerance, or the relative one of the expectation, or their sum if both are given. */
  lemma PairOkMeaning(tol: Tolerance, o: real, e: real)
    requires ToleranceValid(tol)
    ensures PairOk(tol, Finite(o), Finite(e)) <==>
            match (tol.absolute, tol.relative)
            case (Some(a), None) => Distance(o, e) <= a
            case (None, Some(r)) => Distance(o, e) <= r * Distance(0.0, e)
            case (Some(a), Some(r)) => Distance(o, e) <= a + r * Distance(0.0, e)
            case (None, None) => false
    ensures !PairOk(tol, NotFinite, Finite(e)) && !PairOk(tol, Finite(o), NotFinite)
    ensures !PairOk(tol, NotFinite, NotFinite)
  {
  }

  /** The residuals that are reported, said of the two numbers. */
  lemma ResidualMeaning(o: real, e: real)
    ensures Abs(o - e) == Distance(o, e)
    ensures e != 0.0 ==> Relative(o, e) * Distance(0.0, e) == Distance(o, e)
  {
  }

  ghost predicate PairsOk(tol: Tolerance, os: seq<Number>, es: seq<Number>) {
    |os| == |es| && forall i | 0 <= i < |os| :: PairOk(tol, os[i], es[i])
  }

  lemma {:induction false} WalkPassesIffPairsOk(tol: Tolerance, os: seq<Number>, es: seq<Number>, w: Worst)
    requires |os| == |es|
    ensures WalkLeaves(tol, os, es, w).0.None? <==> PairsOk(tol, os, es)
  {
    if os != [] {
      WalkPassesIffPairsOk(tol, os[1..], es[1..], Visit(tol, os[0], es[0], w).1);
      assert forall i | 0 < i < |os| :: os[i] == os[1..][i - 1] && es[i] == es[1..][i - 1];
    }
  }

  /** `m` is the greatest absolute residual, or zero when there is none greater. */
  ghost predicate IsMaxAbs(m: real, os: seq<Number>, es: seq<Number>)
    requires |os| == |es| && forall i | 0 <= i < |os| :: os[i].Finite? && es[i].Finite?
  {
    && m >= 0.0 && (forall i | 0 <= i < |os| :: Abs(os[i].x - es[i].x) <= m)
    && (m == 0.0 || exists i | 0 <= i < |os| :: Abs(os[i].x - es[i].x) == m)
  }

  /** `m` is the greatest relative residual over the leaves with a nonzero expectation, if there is one. */
  ghost predicate IsMaxRel(m: Option<real>, os: seq<Number>, es: seq<Number>)
    requires |os| == |es| && forall i | 0 <= i < |os| :: os[i].Finite? && es[i].Finite?
  {
    && (m.None? <==> forall i | 0 <= i < |os| :: es[i].x == 0.0)
    && (m.Some? ==>
          && (forall i | 0 <= i < |os| && es[i].x != 0.0 :: Relative(os[i].x, es[i].x) <= m.value)
          && exists i | 0 <= i < |os| :: es[i].x != 0.0 && Relative(os[i].x, es[i].x) == m.value)
  }

  lemma WalkOneMore(tol: Tolerance, os: seq<Number>, es: seq<Number>, o: Number, e: Number, w: Worst)
    requires |os| == |es| && WalkLeaves(tol, os, es, w).0.None?
    ensures WalkLeaves(tol, os + [o], es + [e], w) == Visit(tol, o, e, WalkLeaves(tol, os, es, w).1)
  {
    WalkLeavesOfConcat(tol, os, es, [o], [e], w);
    assert [o][1..] == [] && [e][1..] == [];
  }

  lemma {:induction false} WalkFindsTheWorst(tol: Tolerance, os: seq<Number>, es: seq<Number>)
    requires PairsOk(tol, os, es)
    ensures var worst := WalkLeaves(tol, os, es, Worst(0.0, None)).1;
            IsMaxAbs(worst.maxAbs, os, es) && IsMaxRel(worst.maxRel, os, es)
    decreases |os|
  {
    if os == [] {
      NothingToWalk(tol);
    } else {
      hide WalkLeaves, Visit, PairOk, IsMaxAbs, IsMaxRel;
      var n := |os| - 1;
      var fo, fe := os[..n], es[..n];
      assert os == fo + [os[n]] && es == fe + [es[n]];
      WalkFindsTheWorst(tol, fo, fe);
      PairsAreFinite(tol, os, es);
      WalkPassesIffPairsOk(tol, fo, fe, Worst(0.0, None));
      WalkOneMore(tol, fo, fe, os[n], es[n], Worst(0.0, None));
      VisitOneMore(tol, fo, fe, os[n], es[n], WalkLeaves(tol, fo, fe, Worst(0.0, None)).1);
    }
  }

  /** One more pair of finite leaves: the worst residuals stay the worst. */
  lemma VisitOneMore(tol: Tolerance, os: seq<Number>, es: seq<Number>, o: Number, e: Number, w: Worst)
    requires |os| == |es| && (forall i | 0 <= i < |os| :: os[i].Finite? && es[i].Finite?)
    requires o.Finite? && e.Finite? && IsMaxAbs(w.maxAbs, os, es) && IsMaxRel(w.maxRel, os, es)
    ensures var w' := Visit(tol, o, e, w).1;
            IsMaxAbs(w'.maxAbs, os + [o], es + [e]) && IsMaxRel(w'.maxRel, os + [o], es + [e])
  {
    hide IsMaxAbs, IsMaxRel, Abs, Relative, Allowance;
    MaxAbsOneMore(w.maxAbs, os, es, o, e);
    MaxRelOneMore(w.maxRel, os, es, o, e);
  }

  lemma NothingToWalk(tol: Tolerance)
    ensures WalkLeaves(tol, [], [], Worst(0.0, None)) == (None, Worst(0.0, None))
  {
  }

  lemma MaxAbsOneMore(m: real, os: seq<Number>, es: seq<Number>, o: Number, e: Number)
    requires |os| == |es| && (forall i | 0 <= i < |os| :: os[i].Finite? && es[i].Finite?)
    requires o.Finite? && e.Finite? && IsMaxAbs(m, os, es)
    ensures var diff := Abs(o.x - e.x);
            IsMaxAbs(if diff > m then diff else m, os + [o], es + [e])
  {
    hide Abs;
    var os', es' := os + [o], es + [e];
    assert os'[|os|] == o && es'[|os|] == e;
    assert forall i | 0 <= i < |os| :: os'[i] == os[i] && es'[i] == es[i];
    if m > 0.0 {
      var i :| 0 <= i < |os| && Abs(os[i].x - es[i].x) == m;
      assert Abs(os'[i].x - es'[i].x) == m;
    }
  }

  lemma MaxRelOneMore(m: Option<real>, os: seq<Number>, es: seq<Number>, o: Number, e: Number)
    requires |os| == |es| && (forall i | 0 <= i < |os| :: os[i].Finite? && es[i].Finite?)
    requires o.Finite? && e.Finite? && IsMaxRel(m, os, es)
    ensures var m' := if e.x != 0.0 && (m.None? || Relative(o.x, e.x) > m.value) then Some(Relative(o.x, e.x)) else m;
            IsMaxRel(m', os + [o], es + [e])
  {
    hide Relative;
    var os', es' := os + [o], es + [e];
    assert os'[|os|] == o && es'[|os|] == e;
    assert forall i | 0 <= i < |os| :: os'[i] == os[i] && es'[i] == es[i];
    if m.Some? {
      var i :| 0 <= i < |os| && es[i].x != 0.0 && Relative(os[i].x, es[i].x) == m.value;
      assert es'[i].x != 0.0 && Relative(os'[i].x, es'[i].x) == m.value;
    }
  }

  // ---------------------------------------------------------------- what a check means

  /** The observation answers the specification: everything a pass stands for. */
  ghost predicate Answers(observation: Option<Observation>, spec: Spec) {
    && ToleranceValid(spec.tolerance)
    && observation.Some? && observation.value.value.Some?
    && UnitMatches(observation.value.unit, spec.unit)
    && SameShape(observation.value.value.value, spec.expected)
    && (spec.shape.Some? ==> spec.shape.value == InferShape(spec.expected))
    && PairsOk(spec.tolerance, Leaves(observation.value.value.value), Leaves(spec.expected))
  }

  lemma WalkOfSameShape(tol: Tolerance, o: Value, e: Value)
    requires SameShape(o, e)
    ensures |Leaves(o)| == |Leaves(e)|
    ensures Walk(tol, o, e, Worst(0.0, None)) == WalkLeaves(tol, Leaves(o), Leaves(e), Worst(0.0, None))
  {
    var shape :| IsTensor(o, shape) && IsTensor(e, shape);
    WalkIsWalkLeaves(tol, o, e, shape, Worst(0.0, None));
  }

  /**
   A check passes exactly when the tolerance is valid, the units match, both values are regular tensors of one
   shape, that of the specification if it declares one, and every pair of leaves is finite and within tolerance;
   it then reports the true worst residuals.
   */
  lemma CheckMeaning(observation: Option<Observation>, spec: Spec)
    ensures var r := Check(observation, spec);
            && (r.passed <==> Answers(observation, spec))
            && (r.passed <==> r.reason.None?)
            && (r.passed ==> WorstReported(r, Leaves(observation.value.value.value), Leaves(spec.expected)))
  {
    hide Walk, InferShape, IsUniformShape, SameShape, PairsOk, Leaves, WalkLeaves, IsMaxAbs, IsMaxRel,
         ToleranceValid;
    if observation.Some? && observation.value.value.Some? {
      var o, e := observation.value.value.value, spec.expected;
      InferredShapesDecide(o, e);
      if SameShape(o, e) {
        WalkOfSameShape(spec.tolerance, o, e);
        WalkPassesIffPairsOk(spec.tolerance, Leaves(o), Leaves(e), Worst(0.0, None));
        if PairsOk(spec.tolerance, Leaves(o), Leaves(e)) {
          PairsAreFinite(spec.tolerance, Leaves(o), Leaves(e));
          WalkFindsTheWorst(spec.tolerance, Leaves(o), Leaves(e));
        }
      }
    }
  }

  ghost predicate Regular(v: Value) {
    SameShape(v, v)
  }

  /** Leaf `k` is the first pair that is not within tolerance, and `reason` says why. */
  ghost predicate FirstFailure(tol: Tolerance, os: seq<Number>, es: seq<Number>, k: int, reason: Reason) {
    && 0 <= k < |os| == |es|
    && (forall i | 0 <= i < k :: PairOk(tol, os[i], es[i]))
    && !PairOk(tol, os[k], es[k])
    && reason == if os[k].NotFinite? then ObservedNotFinite else if es[k].NotFinite? then SpecInvalid else ValueMismatch
  }

  lemma {:induction false} WalkStopsAtFirstFailure(tol: Tolerance, os: seq<Number>, es: seq<Number>, w: Worst)
    returns (k: int)
    requires |os| == |es|
    ensures var fail := WalkLeaves(tol, os, es, w).0; fail.Some? ==> FirstFailure(tol, os, es, k, fail.value)
  {
    k := 0;
    if os != [] && Visit(tol, os[0], es[0], w).0.None? {
      var l := WalkStopsAtFirstFailure(tol, os[1..], es[1..], Visit(tol, os[0], es[0], w).1);
      k := l + 1;
      assert forall i | 0 < i < |os| :: os[i] == os[1..][i - 1] && es[i] == es[1..][i - 1];
    }
  }

  /**
   Why a check fails, once the tolerance is valid, the value is there and the units match: a shape is at fault
   exactly when the observation is no regular tensor or not of the shape of a well-formed expectation; between
   values of one shape the reason is that of the first leaf out of tolerance.
   */
  lemma FailureMeaning(observation: Option<Observation>, spec: Spec)
    requires ToleranceValid(spec.tolerance) && observation.Some? && observation.value.value.Some?
    requires UnitMatches(observation.value.unit, spec.unit)
    ensures var r, o, e := Check(observation, spec), observation.value.value.value, spec.expected;
            var declared := spec.shape.None? || spec.shape.value == InferShape(e);
            && (r.reason == Some(ShapeMismatch) <==> !Regular(o) || (Regular(e) && declared && !SameShape(o, e)))
            && (Regular(o) && !(Regular(e) && declared) ==> r.reason == Some(SpecInvalid))
            && (SameShape(o, e) && declared && !r.passed ==>
                  r.reason.Some? && exists k :: FirstFailure(spec.tolerance, Leaves(o), Leaves(e), k, r.reason.value))
  {
    hide Walk, InferShape, IsUniformShape, SameShape, FirstFailure, Leaves, WalkLeaves, ToleranceValid, UnitMatches;
    var o, e := observation.value.value.value, spec.expected;
    InferredShapesDecide(o, o);
    InferredShapesDecide(e, e);
    InferredShapesDecide(o, e);
    if SameShape(o, e) {
      WalkOfSameShape(spec.tolerance, o, e);
      var k := WalkStopsAtFirstFailure(spec.tolerance, Leaves(o), Leaves(e), Worst(0.0, None));
    }
  }

  ghost predicate WorstReported(r: CheckResult, os: seq<Number>, es: seq<Number>) {
    && |os| == |es| && (forall i | 0 <= i < |os| :: os[i].Finite? && es[i].Finite?)
    && r.maxAbsError.Some? && IsMaxAbs(r.maxAbsError.value, os, es) && IsMaxRel(r.maxRelError, os, es)
  }

  lemma PairsAreFinite(tol: Tolerance, os: seq<Number>, es: seq<Number>)
    requires PairsOk(tol, os, es)
    ensures |os| == |es| && forall i | 0 <= i < |os| :: os[i].Finite? && es[i].Finite?
  {
  }

  ghost predicate WiderOption(narrow: Option<real>, wide: Option<real>) {
    (narrow.Some? ==> wide.Some? && narrow.value <= wide.value) && (wide.Some? ==> wide.value >= 0.0)
  }

  lemma WiderAllowance(narrow: Tolerance, wide: Tolerance, e: real)
    requires ToleranceValid(narrow)
    requires WiderOption(narrow.absolute, wide.absolute) && WiderOption(narrow.relative, wide.relative)
    ensures Allowance(narrow, e) <= Allowance(wide, e)
  {
    ScaledGrows(narrow.relative, wide.relative, Abs(e));
    hide Abs, Scaled;
  }

  lemma ScaledGrows(narrow: Option<real>, wide: Option<real>, a: real)
    requires WiderOption(narrow, wide) && a >= 0.0
    ensures Scaled(narrow, a) <= Scaled(wide, a)
  {
    if narrow.Some? {
      ProductGrows(narrow.value, wide.value, a);
    } else if wide.Some? {
      ProductGrows(0.0, wide.value, a);
    }
  }

  /** Raising either tolerance, or adding the one not given, never turns a pass into a failure. */
  lemma WideningKeepsPasses(observation: Option<Observation>, spec: Spec, wide: Tolerance)
    requires Check(observation, spec).passed
    requires WiderOption(spec.tolerance.absolute, wide.absolute)
    requires WiderOption(spec.tolerance.relative, wide.relative)
    ensures Check(observation, spec.(tolerance := wide)).passed
  {
    hide Check, InferShape, SameShape, Leaves, Allowance, Abs;
    CheckMeaning(observation, spec);
    CheckMeaning(observation, spec.(tolerance := wide));
    var os, es := Leaves(observation.value.value.value), Leaves(spec.expected);
    forall i | 0 <= i < |os| ensures PairOk(wide, os[i], es[i]) {
      assert PairOk(spec.tolerance, os[i], es[i]);
      WiderAllowance(spec.tolerance, wide, es[i].x);
    }
  }
}
