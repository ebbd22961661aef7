/** The integer program that `CreateVariables` and `CreateConstraints` emit
    (src/OptimalStrips.cpp:120-179), written as functions of the dual graph, and
    what its rows guarantee about any feasible assignment: no triangle has more than
    two selected dual edges, and the selected dual edges close no cycle. */
module Formulation {
  import opened Milp
  import opened DualGraph

  /** The flow that one selected dual edge carries. */
  const F: real := 1.0

  /** The amount each triangle's flow cap lies below `F`. */
  const Epsilon: real := 0.0001

  /** `std::numeric_limits<double>::max()`, the upper bound of every `y`. */
  const DoubleMax: real := 179769313486231570814527423731704356798070567525844996598917476803157260780028538760589558632766878171540458953514382464234321326889464182768467546703537516986049910576551282076245490090389328944075868508455133942304583236903222948165808559332123348274797826204144723168738177180919299881250404026184124858368.0

  /** `xs` holds one handle per dual edge and `ys` one pair per dual edge, and every
      dual edge is an entry of the edge map with an id in range. */
  predicate Sized(g: Graph, xs: seq<Variable>, ys: seq<(Variable, Variable)>)
  {
    && (forall e :: e in g.ids ==> e in g.edgeMap && 0 <= g.ids[e] < |g.edges|)
    && |xs| == |g.edges| && |ys| == |g.edges|
  }

  /** `sumX` after the first `n` corners of triangle `t`: each dual edge adds its `x`. */
  function SumX(g: Graph, xs: seq<Variable>, ys: seq<(Variable, Variable)>, t: int, n: nat): Terms
    requires Sized(g, xs, ys) && 0 <= t < TriangleCount(g.indices) && n <= 3
  {
    if n == 0 then map[]
    else
      var key := CornerKey(g.indices, t, n - 1);
      if key in g.ids then Merge(SumX(g, xs, ys, t, n - 1), map[xs[g.ids[key]] := 1.0])
      else SumX(g, xs, ys, t, n - 1)
  }

  /** `sumY` after the first `n` corners of triangle `t`: each dual edge adds the `y` of
      the side `t` is on, the first one if `t` is its left triangle, else the second one
      if `t` is its right triangle. */
  function SumY(g: Graph, xs: seq<Variable>, ys: seq<(Variable, Variable)>, t: int, n: nat): Terms
    requires Sized(g, xs, ys) && 0 <= t < TriangleCount(g.indices) && n <= 3
  {
    if n == 0 then map[]
    else
      var key := CornerKey(g.indices, t, n - 1);
      if key in g.ids then
        var faces := g.edgeMap[key];
        var id := g.ids[key];
        if faces.left == t then Merge(SumY(g, xs, ys, t, n - 1), map[ys[id].0 := 1.0])
        else if faces.right == t then Merge(SumY(g, xs, ys, t, n - 1), map[ys[id].1 := 1.0])
        else SumY(g, xs, ys, t, n - 1)
      else SumY(g, xs, ys, t, n - 1)
  }

  /** `numberOfDualEdges` after the first `n` corners of triangle `t`. */
  function DualCount(g: Graph, t: int, n: nat): nat
    requires 0 <= t < TriangleCount(g.indices) && n <= 3
  {
    if n == 0 then 0
    else DualCount(g, t, n - 1) + (if CornerKey(g.indices, t, n - 1) in g.ids then 1 else 0)
  }

  /** The rows of triangle `t`: the anti-fork row when all three of its edges are dual
      edges, then its flow cap. */
  function TriangleRows(g: Graph, xs: seq<Variable>, ys: seq<(Variable, Variable)>, t: int): seq<Constraint>
    requires Sized(g, xs, ys) && 0 <= t < TriangleCount(g.indices)
  {
    (if DualCount(g, t, 3) == 3 then [Constraint(SumX(g, xs, ys, t, 3), LessEqual, 2.0)] else []) +
    [Constraint(SumY(g, xs, ys, t, 3), LessEqual, F - Epsilon)]
  }

  function TriangleRowsUpTo(g: Graph, xs: seq<Variable>, ys: seq<(Variable, Variable)>, n: nat): seq<Constraint>
    requires Sized(g, xs, ys) && n <= TriangleCount(g.indices)
  {
    if n == 0 then [] else TriangleRowsUpTo(g, xs, ys, n - 1) + TriangleRows(g, xs, ys, n - 1)
  }

  /** The coupling row of dual edge `e`: `-F x[e] + y[e].first + y[e].second == 0`,
      built by three `+=` onto an empty expression. */
  function CouplingRow(xs: seq<Variable>, ys: seq<(Variable, Variable)>, e: int): Constraint
    requires 0 <= e < |xs| && |ys| == |xs|
  {
    Constraint(Merge(Merge(Merge(map[], map[xs[e] := -F]), map[ys[e].0 := 1.0]), map[ys[e].1 := 1.0]), Equal, 0.0)
  }

  function CouplingRowsUpTo(xs: seq<Variable>, ys: seq<(Variable, Variable)>, n: nat): seq<Constraint>
    requires n <= |xs| && |ys| == |xs|
  {
    if n == 0 then [] else CouplingRowsUpTo(xs, ys, n - 1) + [CouplingRow(xs, ys, n - 1)]
  }

  /** Every row `CreateConstraints` adds, in order. */
  function ModelRows(g: Graph, xs: seq<Variable>, ys: seq<(Variable, Variable)>): seq<Constraint>
    requires Sized(g, xs, ys)
  {
    TriangleRowsUpTo(g, xs, ys, TriangleCount(g.indices)) + CouplingRowsUpTo(xs, ys, |xs|)
  }

  /** Every variable `CreateVariables` declares, in order: `e` binaries with objective 1,
      then `2 e` continuous variables in `[0, DoubleMax]` with objective 0. */
  function ModelVars(e: nat): seq<VarDecl>
  {
    seq(e, _ => VarDecl(Binary, 0.0, 1.0, 1.0)) + seq(2 * e, _ => VarDecl(Continuous, 0.0, DoubleMax, 0.0))
  }

  /** The handles of the `x` variables in a solver that starts empty. */
  function XHandles(e: nat): seq<Variable>
  {
    seq(e, i => i)
  }

  /** The handles of the `y` pairs in a solver that starts empty. */
  function YHandles(e: nat): seq<(Variable, Variable)>
  {
    seq(e, i => (e + 2 * i, e + 2 * i + 1))
  }

  /** Handles laid out as in a solver that starts empty are `XHandles` and `YHandles`. */
  lemma HandlesFromZero(xs: seq<Variable>, ys: seq<(Variable, Variable)>, e: nat)
    requires |xs| == e && forall k :: 0 <= k < e ==> xs[k] == k
    requires |ys| == e && forall k :: 0 <= k < e ==> ys[k] == (e + 2 * k, e + 2 * k + 1)
    ensures xs == XHandles(e) && ys == YHandles(e)
  {
  }

  /** The selection `Run` reads off a solution: dual edge `i` is selected when its `x`
      exceeds 0.5. */
  function Selection(xs: seq<Variable>, val: seq<real>): seq<bool>
  {
    seq(|xs|, i requires 0 <= i < |xs| => 0 <= xs[i] < |val| && val[xs[i]] > 0.5)
  }

  /** The variables and handles together: `3 e` declarations, `x[i]` the `i`-th binary,
      `y[i]` two continuous variables, and no handle used twice. */
  lemma ModelVarsSpec(e: nat)
    ensures |ModelVars(e)| == 3 * e
    ensures forall i :: 0 <= i < e ==> XHandles(e)[i] == i && ModelVars(e)[i] == VarDecl(Binary, 0.0, 1.0, 1.0)
    ensures forall i :: 0 <= i < e ==>
      && e <= YHandles(e)[i].0 < 3 * e && e <= YHandles(e)[i].1 < 3 * e
      && ModelVars(e)[YHandles(e)[i].0] == VarDecl(Continuous, 0.0, DoubleMax, 0.0)
      && ModelVars(e)[YHandles(e)[i].1] == VarDecl(Continuous, 0.0, DoubleMax, 0.0)
    ensures forall i, j :: 0 <= i < e && 0 <= j < e ==>
      YHandles(e)[i].0 != YHandles(e)[j].1 && (i != j ==> YHandles(e)[i].0 != YHandles(e)[j].0 && YHandles(e)[i].1 != YHandles(e)[j].1)
  {
  }

  /** The number of triangles among the first `n` whose three edges are dual edges. */
  function ForkCount(g: Graph, n: nat): nat
    requires n <= TriangleCount(g.indices)
  {
    if n == 0 then 0 else ForkCount(g, n - 1) + (if DualCount(g, n - 1, 3) == 3 then 1 else 0)
  }

  lemma {:induction false} TriangleRowsUpToCount(g: Graph, xs: seq<Variable>, ys: seq<(Variable, Variable)>, n: nat)
    requires Sized(g, xs, ys) && n <= TriangleCount(g.indices)
    ensures |TriangleRowsUpTo(g, xs, ys, n)| == n + ForkCount(g, n)
  {
    if n > 0 {
      TriangleRowsUpToCount(g, xs, ys, n - 1);
    }
  }

  lemma {:induction false} CouplingRowsUpToCount(xs: seq<Variable>, ys: seq<(Variable, Variable)>, n: nat)
    requires n <= |xs| && |ys| == |xs|
    ensures |CouplingRowsUpTo(xs, ys, n)| == n
  {
    if n > 0 {
      CouplingRowsUpToCount(xs, ys, n - 1);
    }
  }

  /** One cap row per triangle, one anti-fork row per triangle whose three edges are
      dual edges, and one coupling row per dual edge. */
  lemma ModelRowCount(g: Graph, xs: seq<Variable>, ys: seq<(Variable, Variable)>)
    requires Sized(g, xs, ys)
    ensures |ModelRows(g, xs, ys)| == TriangleCount(g.indices) + ForkCount(g, TriangleCount(g.indices)) + |g.edges|
  {
    TriangleRowsUpToCount(g, xs, ys, TriangleCount(g.indices));
    CouplingRowsUpToCount(xs, ys, |xs|);
  }

  /** The cap row of every triangle is emitted, and so is the anti-fork row of every
      triangle whose three edges are dual edges. */
  lemma {:induction false} TriangleRowsUpToContain(g: Graph, xs: seq<Variable>, ys: seq<(Variable, Variable)>, n: nat, t: int)
    requires Sized(g, xs, ys) && n <= TriangleCount(g.indices) && 0 <= t < n
    ensures Constraint(SumY(g, xs, ys, t, 3), LessEqual, F - Epsilon) in TriangleRowsUpTo(g, xs, ys, n)
    ensures DualCount(g, t, 3) == 3 ==> Constraint(SumX(g, xs, ys, t, 3), LessEqual, 2.0) in TriangleRowsUpTo(g, xs, ys, n)
  {
    if t < n - 1 {
      TriangleRowsUpToContain(g, xs, ys, n - 1, t);
    } else {
      assert TriangleRowsUpTo(g, xs, ys, n) == TriangleRowsUpTo(g, xs, ys, n - 1) + TriangleRows(g, xs, ys, t);
    }
  }

  lemma {:induction false} CouplingRowsUpToContain(xs: seq<Variable>, ys: seq<(Variable, Variable)>, n: nat, e: int)
    requires n <= |xs| && |ys| == |xs| && 0 <= e < n
    ensures CouplingRow(xs, ys, e) in CouplingRowsUpTo(xs, ys, n)
  {
    if e < n - 1 {
      CouplingRowsUpToContain(xs, ys, n - 1, e);
    }
  }

  /** Every emitted row is one of the rows named by a triangle or a dual edge. */
  lemma ModelRowsContain(g: Graph, xs: seq<Variable>, ys: seq<(Variable, Variable)>)
    requires Sized(g, xs, ys)
    ensures forall t :: 0 <= t < TriangleCount(g.indices) ==>
      Constraint(SumY(g, xs, ys, t, 3), LessEqual, F - Epsilon) in ModelRows(g, xs, ys)
    ensures forall t :: 0 <= t < TriangleCount(g.indices) && DualCount(g, t, 3) == 3 ==>
      Constraint(SumX(g, xs, ys, t, 3), LessEqual, 2.0) in ModelRows(g, xs, ys)
    ensures forall e :: 0 <= e < |xs| ==> CouplingRow(xs, ys, e) in ModelRows(g, xs, ys)
  {
    forall t | 0 <= t < TriangleCount(g.indices)
      ensures Constraint(SumY(g, xs, ys, t, 3), LessEqual, F - Epsilon) in ModelRows(g, xs, ys)
      ensures DualCount(g, t, 3) == 3 ==> Constraint(SumX(g, xs, ys, t, 3), LessEqual, 2.0) in ModelRows(g, xs, ys)
    {
      TriangleRowsUpToContain(g, xs, ys, TriangleCount(g.indices), t);
    }
    forall e | 0 <= e < |xs|
      ensures CouplingRow(xs, ys, e) in ModelRows(g, xs, ys)
    {
      CouplingRowsUpToContain(xs, ys, |xs|, e);
    }
  }

  /** Every handle in `xs` and `ys` names one of the first `n` variables. */
  predicate InRange(xs: seq<Variable>, ys: seq<(Variable, Variable)>, n: nat)
  {
    && (forall e :: 0 <= e < |xs| ==> 0 <= xs[e] < n)
    && (forall e :: 0 <= e < |ys| ==> 0 <= ys[e].0 < n && 0 <= ys[e].1 < n)
  }

  /** The value corner `i` of `t` contributes to `sumX` under `val`. */
  function XValue(g: Graph, xs: seq<Variable>, ys: seq<(Variable, Variable)>, val: seq<real>, t: int, i: int): real
    requires Sized(g, xs, ys) && InRange(xs, ys, |val|) && 0 <= t < TriangleCount(g.indices) && 0 <= i < 3
  {
    var key := CornerKey(g.indices, t, i);
    if key in g.ids then val[xs[g.ids[key]]] else 0.0
  }

  /** The value corner `i` of `t` contributes to `sumY` under `val`. */
  function YValue(g: Graph, xs: seq<Variable>, ys: seq<(Variable, Variable)>, val: seq<real>, t: int, i: int): real
    requires Sized(g, xs, ys) && InRange(xs, ys, |val|) && 0 <= t < TriangleCount(g.indices) && 0 <= i < 3
  {
    var key := CornerKey(g.indices, t, i);
    if key in g.ids then
      var faces := g.edgeMap[key];
      if faces.left == t then val[ys[g.ids[key]].0]
      else if faces.right == t then val[ys[g.ids[key]].1]
      else 0.0
    else 0.0
  }

  lemma EvalSumXStep(g: Graph, xs: seq<Variable>, ys: seq<(Variable, Variable)>, val: seq<real>, t: int, n: nat)
    requires Sized(g, xs, ys) && InRange(xs, ys, |val|) && 0 <= t < TriangleCount(g.indices) && n < 3
    ensures Eval(SumX(g, xs, ys, t, n + 1), val) == Eval(SumX(g, xs, ys, t, n), val) + XValue(g, xs, ys, val, t, n)
  {
    var key := CornerKey(g.indices, t, n);
    if key in g.ids {
      var v := xs[g.ids[key]];
      EvalMerge(SumX(g, xs, ys, t, n), map[v := 1.0], val);
      EvalSingle(v, 1.0, val);
    }
  }

  lemma EvalSumYStep(g: Graph, xs: seq<Variable>, ys: seq<(Variable, Variable)>, val: seq<real>, t: int, n: nat)
    requires Sized(g, xs, ys) && InRange(xs, ys, |val|) && 0 <= t < TriangleCount(g.indices) && n < 3
    ensures Eval(SumY(g, xs, ys, t, n + 1), val) == Eval(SumY(g, xs, ys, t, n), val) + YValue(g, xs, ys, val, t, n)
  {
    var key := CornerKey(g.indices, t, n);
    if key in g.ids {
      var faces := g.edgeMap[key];
      var id := g.ids[key];
      if faces.left == t {
        EvalMerge(SumY(g, xs, ys, t, n), map[ys[id].0 := 1.0], val);
        EvalSingle(ys[id].0, 1.0, val);
      } else if faces.right == t {
        EvalMerge(SumY(g, xs, ys, t, n), map[ys[id].1 := 1.0], val);
        EvalSingle(ys[id].1, 1.0, val);
      }
    }
  }

  /** The left side of the anti-fork row of `t` evaluates to the sum of the `x` values
      of its dual edges (an edge on two corners counted twice). */
  lemma EvalSumX(g: Graph, xs: seq<Variable>, ys: seq<(Variable, Variable)>, val: seq<real>, t: int)
    requires Sized(g, xs, ys) && InRange(xs, ys, |val|) && 0 <= t < TriangleCount(g.indices)
    ensures Eval(SumX(g, xs, ys, t, 3), val) ==
      XValue(g, xs, ys, val, t, 0) + XValue(g, xs, ys, val, t, 1) + XValue(g, xs, ys, val, t, 2)
  {
    EvalEmpty(val);
    EvalSumXStep(g, xs, ys, val, t, 0);
    EvalSumXStep(g, xs, ys, val, t, 1);
    EvalSumXStep(g, xs, ys, val, t, 2);
  }

  /** The left side of the cap row of `t` evaluates to the sum of the `y` values of the
      side `t` lies on, over its dual edges. */
  lemma EvalSumY(g: Graph, xs: seq<Variable>, ys: seq<(Variable, Variable)>, val: seq<real>, t: int)
    requires Sized(g, xs, ys) && InRange(xs, ys, |val|) && 0 <= t < TriangleCount(g.indices)
    ensures Eval(SumY(g, xs, ys, t, 3), val) ==
      YValue(g, xs, ys, val, t, 0) + YValue(g, xs, ys, val, t, 1) + YValue(g, xs, ys, val, t, 2)
  {
    EvalEmpty(val);
    EvalSumYStep(g, xs, ys, val, t, 0);
    EvalSumYStep(g, xs, ys, val, t, 1);
    EvalSumYStep(g, xs, ys, val, t, 2);
  }

  /** The coupling row of `e` holds exactly when the two `y` of `e` add up to `F x[e]`. */
  lemma EvalCouplingRow(xs: seq<Variable>, ys: seq<(Variable, Variable)>, val: seq<real>, e: int)
    requires 0 <= e < |xs| && |ys| == |xs| && InRange(xs, ys, |val|)
    ensures Satisfies(CouplingRow(xs, ys, e), val) <==> val[ys[e].0] + val[ys[e].1] == F * val[xs[e]]
  {
    var m0: Terms := map[];
    var m1 := Merge(m0, map[xs[e] := -F]);
    var m2 := Merge(m1, map[ys[e].0 := 1.0]);
    var m3 := Merge(m2, map[ys[e].1 := 1.0]);
    EvalEmpty(val);
    EvalMerge(m0, map[xs[e] := -F], val);
    EvalSingle(xs[e], -F, val);
    assert Eval(m1, val) == -F * val[xs[e]];
    EvalMerge(m1, map[ys[e].0 := 1.0], val);
    EvalSingle(ys[e].0, 1.0, val);
    assert Eval(m2, val) == -F * val[xs[e]] + val[ys[e].0];
    EvalMerge(m2, map[ys[e].1 := 1.0], val);
    EvalSingle(ys[e].1, 1.0, val);
    assert Eval(m3, val) == -F * val[xs[e]] + val[ys[e].0] + val[ys[e].1];
  }

  /** `val` is a feasible solution of the program emitted for `g` into a fresh solver. */
  ghost predicate FeasibleFor(g: Graph, val: seq<real>)
    requires Numbering(g.edgeMap, g.edges, g.ids)
  {
    var e := |g.edges|;
    Feasible(ModelVars(e), ModelRows(g, XHandles(e), YHandles(e)), val)
  }

  /** What a feasible solution gives: every `x` is 0 or 1, every `y` is non-negative,
      and every emitted row holds. */
  lemma FeasibleValues(g: Graph, val: seq<real>)
    requires Numbering(g.edgeMap, g.edges, g.ids) && FeasibleFor(g, val)
    ensures |val| == 3 * |g.edges|
    ensures InRange(XHandles(|g.edges|), YHandles(|g.edges|), |val|)
    ensures forall i :: 0 <= i < |g.edges| ==> val[i] == 0.0 || val[i] == 1.0
    ensures forall i :: |g.edges| <= i < |val| ==> val[i] >= 0.0
  {
    var e := |g.edges|;
    var vars := ModelVars(e);
    assert |val| == |vars|;
    assert forall v :: 0 <= v < |vars| ==> InBounds(vars[v], val[v]);
    BoundedValues(e, val);
  }

  /** Values in the bounds of the declared variables: the binaries are 0 or 1 and the
      continuous variables are non-negative. */
  lemma BoundedValues(e: nat, val: seq<real>)
    requires |val| == |ModelVars(e)|
    requires forall v :: 0 <= v < |ModelVars(e)| ==> InBounds(ModelVars(e)[v], val[v])
    ensures |val| == 3 * e
    ensures InRange(XHandles(e), YHandles(e), |val|)
    ensures forall i :: 0 <= i < e ==> val[i] == 0.0 || val[i] == 1.0
    ensures forall i :: e <= i < |val| ==> val[i] >= 0.0
  {
    ModelVarsSpec(e);
    forall i | 0 <= i < e
      ensures val[i] == 0.0 || val[i] == 1.0
    {
      assert InBounds(ModelVars(e)[i], val[i]);
      BinaryValue(ModelVars(e)[i], val[i]);
    }
    forall i | e <= i < |val|
      ensures val[i] >= 0.0
    {
      assert InBounds(ModelVars(e)[i], val[i]);
      assert ModelVars(e)[i].lo == 0.0;
    }
  }

  /** The rows a feasible solution meets, one by one. */
  lemma FeasibleRows(g: Graph, val: seq<real>)
    requires Numbering(g.edgeMap, g.edges, g.ids) && FeasibleFor(g, val)
    ensures forall t :: 0 <= t < TriangleCount(g.indices) ==>
      Satisfies(Constraint(SumY(g, XHandles(|g.edges|), YHandles(|g.edges|), t, 3), LessEqual, F - Epsilon), val)
    ensures forall t :: 0 <= t < TriangleCount(g.indices) && DualCount(g, t, 3) == 3 ==>
      Satisfies(Constraint(SumX(g, XHandles(|g.edges|), YHandles(|g.edges|), t, 3), LessEqual, 2.0), val)
    ensures forall e :: 0 <= e < |g.edges| ==> Satisfies(CouplingRow(XHandles(|g.edges|), YHandles(|g.edges|), e), val)
  {
    var e := |g.edges|;
    ModelRowsContain(g, XHandles(e), YHandles(e));
  }

  /** What the cycle argument uses of a feasible solution: binary `x`, non-negative
      `y`, and every cap row and coupling row satisfied. */
  ghost predicate FlowFacts(g: Graph, val: seq<real>)
    requires Numbering(g.edgeMap, g.edges, g.ids)
  {
    var e := |g.edges|;
    && |val| == 3 * e && InRange(XHandles(e), YHandles(e), |val|)
    && (forall i :: 0 <= i < e ==> val[i] == 0.0 || val[i] == 1.0)
    && (forall i :: e <= i < |val| ==> val[i] >= 0.0)
    && (forall t :: 0 <= t < TriangleCount(g.indices) ==>
          Satisfies(Constraint(SumY(g, XHandles(e), YHandles(e), t, 3), LessEqual, F - Epsilon), val))
    && (forall i :: 0 <= i < e ==> Satisfies(CouplingRow(XHandles(e), YHandles(e), i), val))
  }

  lemma FeasibleFlowFacts(g: Graph, val: seq<real>)
    requires Numbering(g.edgeMap, g.edges, g.ids) && FeasibleFor(g, val)
    ensures FlowFacts(g, val)
  {
    FeasibleValues(g, val);
    FeasibleRows(g, val);
  }

  /** The anti-fork row of one triangle: with binary `x`, at most two of its corners
      are selected dual edges. */
  lemma ForkRowBoundsDegree(g: Graph, val: seq<real>, t: int)
    requires ValidGraph(g) && 0 <= t < TriangleCount(g.indices) && |val| == 3 * |g.edges|
    requires InRange(XHandles(|g.edges|), YHandles(|g.edges|), |val|)
    requires forall i :: 0 <= i < |g.edges| ==> val[i] == 0.0 || val[i] == 1.0
    requires DualCount(g, t, 3) == 3 ==>
      Satisfies(Constraint(SumX(g, XHandles(|g.edges|), YHandles(|g.edges|), t, 3), LessEqual, 2.0), val)
    ensures Degree(g, Selection(XHandles(|g.edges|), val), t) <= 2
  {
    var e := |g.edges|;
    var xs, ys := XHandles(e), YHandles(e);
    var sel := Selection(xs, val);
    if Degree(g, sel, t) == 3 {
      forall i | 0 <= i < 3
        ensures CornerKey(g.indices, t, i) in g.ids && XValue(g, xs, ys, val, t, i) == 1.0
      {
        NeighbourSpec(g, sel, t, i);
      }
      AllCornersDual(g, t);
      EvalSumX(g, xs, ys, val, t);
      assert false;
    }
  }

  /** A triangle whose three corner keys are all dual edges counts three of them. */
  lemma AllCornersDual(g: Graph, t: int)
    requires 0 <= t < TriangleCount(g.indices)
    requires forall i :: 0 <= i < 3 ==> CornerKey(g.indices, t, i) in g.ids
    ensures DualCount(g, t, 3) == 3
  {
    assert DualCount(g, t, 1) == 1;
    assert DualCount(g, t, 2) == 2;
  }

  /** The anti-fork rows: in a feasible solution no triangle has more than two
      selected dual edges. */
  lemma AntiForkBoundsDegree(g: Graph, val: seq<real>)
    requires ValidGraph(g) && FeasibleFor(g, val)
    ensures DegreeAtMostTwo(g, Selection(XHandles(|g.edges|), val))
  {
    FeasibleValues(g, val);
    FeasibleRows(g, val);
    forall t | 0 <= t < TriangleCount(g.indices)
      ensures Degree(g, Selection(XHandles(|g.edges|), val), t) <= 2
    {
      ForkRowBoundsDegree(g, val, t);
    }
  }

  /** For a selected dual edge from corner `c` of `a` to a different triangle `b` on a
      two-sided mesh, the corner of `b` with the same key leads back to `a`, and the two
      `y` values the edge gives to `a` and to `b` add up to 1. */
  lemma CornerCarriesUnitFlow(g: Graph, val: seq<real>, a: int, c: int)
    requires ValidGraph(g) && TwoSided(g.indices) && FlowFacts(g, val)
    requires 0 <= a < TriangleCount(g.indices) && 0 <= c < 3
    requires var b := Neighbour(g, Selection(XHandles(|g.edges|), val), a, c); b != NoTriangle && b != a
    ensures 0 <= Neighbour(g, Selection(XHandles(|g.edges|), val), a, c) < TriangleCount(g.indices)
    ensures var sel := Selection(XHandles(|g.edges|), val);
      var b := Neighbour(g, sel, a, c);
      var cb := MatchCorner(g.indices, b, CornerKey(g.indices, a, c));
      && CornerKey(g.indices, b, cb) == CornerKey(g.indices, a, c)
      && Neighbour(g, sel, b, cb) == a
      && YValue(g, XHandles(|g.edges|), YHandles(|g.edges|), val, a, c) +
         YValue(g, XHandles(|g.edges|), YHandles(|g.edges|), val, b, cb) == 1.0
  {
    var e := |g.edges|;
    var xs, ys := XHandles(e), YHandles(e);
    var sel := Selection(xs, val);
    BackCornerAt(g, sel, a, c);
    var key := CornerKey(g.indices, a, c);
    var id := g.ids[key];
    assert val[xs[id]] == 1.0;
    EvalCouplingRow(xs, ys, val, id);
  }

  /** `CornerCarriesUnitFlow` for the corner of `a` that leads to `b`. */
  lemma EdgeCarriesUnitFlow(g: Graph, val: seq<real>, a: int, b: int)
    requires ValidGraph(g) && TwoSided(g.indices) && FlowFacts(g, val)
    requires Step(g, Selection(XHandles(|g.edges|), val), a, b) && a != b
    ensures var sel := Selection(XHandles(|g.edges|), val);
      var ca := OutCorner(g, sel, a, b);
      var cb := MatchCorner(g.indices, b, CornerKey(g.indices, a, ca));
      && CornerKey(g.indices, b, cb) == CornerKey(g.indices, a, ca)
      && Neighbour(g, sel, b, cb) == a
      && YValue(g, XHandles(|g.edges|), YHandles(|g.edges|), val, a, ca) +
         YValue(g, XHandles(|g.edges|), YHandles(|g.edges|), val, b, cb) == 1.0
  {
    CornerCarriesUnitFlow(g, val, a, OutCorner(g, Selection(XHandles(|g.edges|), val), a, b));
  }

  /** Two different corners of `b` carry at most `F - Epsilon` of `y` between them. */
  lemma CapBoundsTwoCorners(g: Graph, val: seq<real>, b: int, c1: int, c2: int)
    requires Numbering(g.edgeMap, g.edges, g.ids) && 0 <= b < TriangleCount(g.indices)
    requires 0 <= c1 < 3 && 0 <= c2 < 3 && c1 != c2
    requires InRange(XHandles(|g.edges|), YHandles(|g.edges|), |val|)
    requires forall i :: |g.edges| <= i < |val| ==> val[i] >= 0.0
    requires Satisfies(Constraint(SumY(g, XHandles(|g.edges|), YHandles(|g.edges|), b, 3), LessEqual, F - Epsilon), val)
    ensures YValue(g, XHandles(|g.edges|), YHandles(|g.edges|), val, b, c1) +
      YValue(g, XHandles(|g.edges|), YHandles(|g.edges|), val, b, c2) <= F - Epsilon
  {
    var e := |g.edges|;
    var xs, ys := XHandles(e), YHandles(e);
    EvalSumY(g, xs, ys, val, b);
    YValuesNonNegative(g, val, b);
    var v := [YValue(g, xs, ys, val, b, 0), YValue(g, xs, ys, val, b, 1), YValue(g, xs, ys, val, b, 2)];
    TwoOfThree(v, c1, c2, F - Epsilon);
  }

  /** With non-negative `y`, every corner's `y` value is non-negative. */
  lemma YValuesNonNegative(g: Graph, val: seq<real>, t: int)
    requires Numbering(g.edgeMap, g.edges, g.ids) && 0 <= t < TriangleCount(g.indices)
    requires InRange(XHandles(|g.edges|), YHandles(|g.edges|), |val|)
    requires forall i :: |g.edges| <= i < |val| ==> val[i] >= 0.0
    ensures forall i :: 0 <= i < 3 ==> YValue(g, XHandles(|g.edges|), YHandles(|g.edges|), val, t, i) >= 0.0
  {
    ModelVarsSpec(|g.edges|);
  }

  /** Two of three non-negative terms sum to at most the sum of all three. */
  lemma TwoOfThree(v: seq<real>, c1: int, c2: int, bound: real)
    requires |v| == 3 && 0 <= c1 < 3 && 0 <= c2 < 3 && c1 != c2
    requires v[0] >= 0.0 && v[1] >= 0.0 && v[2] >= 0.0 && v[0] + v[1] + v[2] <= bound
    ensures v[c1] + v[c2] <= bound
  {
  }

  /** The `y` value that the edge from `a` to `b` gives to `a`'s cap. */
  function FlowOut(g: Graph, val: seq<real>, a: int, b: int): real
    requires Numbering(g.edgeMap, g.edges, g.ids) && InRange(XHandles(|g.edges|), YHandles(|g.edges|), |val|)
    requires 0 <= a < TriangleCount(g.indices)
  {
    var sel := Selection(XHandles(|g.edges|), val);
    YValue(g, XHandles(|g.edges|), YHandles(|g.edges|), val, a, OutCorner(g, sel, a, b))
  }

  /** The `y` value that the edge from `a` to `b` gives to `b`'s cap. */
  function FlowIn(g: Graph, val: seq<real>, a: int, b: int): real
    requires Numbering(g.edgeMap, g.edges, g.ids) && InRange(XHandles(|g.edges|), YHandles(|g.edges|), |val|)
    requires 0 <= a < TriangleCount(g.indices) && 0 <= b < TriangleCount(g.indices)
  {
    var sel := Selection(XHandles(|g.edges|), val);
    var key := CornerKey(g.indices, a, OutCorner(g, sel, a, b));
    YValue(g, XHandles(|g.edges|), YHandles(|g.edges|), val, b, MatchCorner(g.indices, b, key))
  }

  /** Going round a cycle, the flow an edge gives to the triangle it enters and the
      flow the next edge takes from that triangle lie on two different corners of it,
      so by its cap they add up to at most `F - Epsilon`. */
  lemma CycleCapStep(g: Graph, val: seq<real>, a: int, b: int, c: int)
    requires ValidGraph(g) && TwoSided(g.indices) && FlowFacts(g, val)
    requires var sel := Selection(XHandles(|g.edges|), val); Step(g, sel, a, b) && Step(g, sel, b, c)
    requires a != b && a != c
    ensures FlowIn(g, val, a, b) + FlowOut(g, val, b, c) <= F - Epsilon
  {
    var sel := Selection(XHandles(|g.edges|), val);
    EdgeCarriesUnitFlow(g, val, a, b);
    var cb := MatchCorner(g.indices, b, CornerKey(g.indices, a, OutCorner(g, sel, a, b)));
    var cc := OutCorner(g, sel, b, c);
    assert Neighbour(g, sel, b, cb) == a && Neighbour(g, sel, b, cc) == c;
    CapBoundsTwoCorners(g, val, b, cb, cc);
  }

  /** `CycleCapStep` at position `i` of a selected cycle. */
  lemma CycleCapAt(g: Graph, val: seq<real>, cyc: seq<int>, i: int)
    requires ValidGraph(g) && TwoSided(g.indices) && FlowFacts(g, val)
    requires SelectedCycle(g, Selection(XHandles(|g.edges|), val), cyc) && 0 <= i < |cyc|
    ensures var j := NextIndex(|cyc|, i);
      && 0 <= cyc[i] < TriangleCount(g.indices) && 0 <= cyc[j] < TriangleCount(g.indices)
      && FlowIn(g, val, cyc[i], Next(cyc, i)) + FlowOut(g, val, cyc[j], Next(cyc, j)) <= F - Epsilon
  {
    var sel := Selection(XHandles(|g.edges|), val);
    var k := |cyc|;
    var j := NextIndex(k, i);
    var l := NextIndex(k, j);
    assert Step(g, sel, cyc[i], Next(cyc, i));
    assert Step(g, sel, cyc[j], Next(cyc, j));
    assert Next(cyc, i) == cyc[j] && Next(cyc, j) == cyc[l];
    assert i != j && i != l;
    CycleCapStep(g, val, cyc[i], cyc[j], cyc[l]);
  }

  /** The flow rows: in a feasible solution the selected dual edges form no cycle.
      Each selected edge of a cycle of `k` triangles carries flow 1 split between its
      two triangles, so the caps of the `k` triangles would have to hold `k` while
      each holds at most `F - Epsilon < 1`. */
  lemma FlowRowsExcludeCycles(g: Graph, val: seq<real>, cyc: seq<int>)
    requires ValidGraph(g) && TwoSided(g.indices) && FeasibleFor(g, val)
    ensures !SelectedCycle(g, Selection(XHandles(|g.edges|), val), cyc)
  {
    var sel := Selection(XHandles(|g.edges|), val);
    if SelectedCycle(g, sel, cyc) {
      FeasibleFlowFacts(g, val);
      var k := |cyc|;
      forall i | 0 <= i < k
        ensures 0 <= cyc[i] < TriangleCount(g.indices)
        ensures Step(g, sel, cyc[i], Next(cyc, i))
      {
        assert Step(g, sel, cyc[i], Next(cyc, i));
      }
      var P := seq(k, i requires 0 <= i < k => FlowOut(g, val, cyc[i], Next(cyc, i)));
      var Q := seq(k, i requires 0 <= i < k => FlowIn(g, val, cyc[i], Next(cyc, i)));
      forall i {:trigger Q[i]} | 0 <= i < k
        ensures P[i] + Q[i] == 1.0
      {
        assert cyc[i] != Next(cyc, i);
        EdgeCarriesUnitFlow(g, val, cyc[i], Next(cyc, i));
      }
      forall i {:trigger Q[i]} | 0 <= i < k
        ensures Q[i] + P[NextIndex(k, i)] <= F - Epsilon
      {
        CycleCapAt(g, val, cyc, i);
      }
      NoCircularFlow(P, Q);
      assert false;
    }
  }

  /** On a feasible point the selected dual edges close a loop only through a triangle
      across a selected edge of itself, which a mesh without repeated vertices in a
      triangle does not have. */
  lemma FeasibleLoops(g: Graph, val: seq<real>)
    requires ValidGraph(g) && TwoSided(g.indices) && FeasibleFor(g, val)
    ensures var sel := Selection(XHandles(|g.edges|), val);
      HasLoop(g, sel) <==> exists t :: Step(g, sel, t, t)
    ensures NonDegenerate(g.indices) ==> !HasLoop(g, Selection(XHandles(|g.edges|), val))
  {
    var sel := Selection(XHandles(|g.edges|), val);
    forall cyc
      ensures !SelectedCycle(g, sel, cyc)
    {
      FlowRowsExcludeCycles(g, val, cyc);
    }
    if NonDegenerate(g.indices) {
      forall t
        ensures !Step(g, sel, t, t)
      {
        NonDegenerateNoSelfStep(g, sel, t);
      }
    }
  }

  /** The flow rows also exclude the shortest cycle: two triangles joined by two
      different selected dual edges. The two edges carry flow 2 between them, while the
      caps of the two triangles hold at most `2 (F - Epsilon)`. */
  lemma FlowRowsSingleLinks(g: Graph, val: seq<real>)
    requires ValidGraph(g) && TwoSided(g.indices) && FeasibleFor(g, val)
    ensures SingleLinks(g, Selection(XHandles(|g.edges|), val))
  {
    var sel := Selection(XHandles(|g.edges|), val);
    FeasibleFlowFacts(g, val);
    forall a, c1, c2 | 0 <= a < TriangleCount(g.indices) && 0 <= c1 < 3 && 0 <= c2 < 3 &&
      CornerKey(g.indices, a, c1) != CornerKey(g.indices, a, c2) &&
      Neighbour(g, sel, a, c1) != NoTriangle && Neighbour(g, sel, a, c1) != a
      ensures Neighbour(g, sel, a, c2) != Neighbour(g, sel, a, c1)
    {
      if Neighbour(g, sel, a, c2) == Neighbour(g, sel, a, c1) {
        TwoLinksOverflow(g, val, a, c1, c2);
      }
    }
  }

  /** Two different dual edges from `a` to the same triangle `b` would need more flow
      than the caps of `a` and `b` allow. */
  lemma TwoLinksOverflow(g: Graph, val: seq<real>, a: int, c1: int, c2: int)
    requires ValidGraph(g) && TwoSided(g.indices) && FlowFacts(g, val)
    requires 0 <= a < TriangleCount(g.indices) && 0 <= c1 < 3 && 0 <= c2 < 3
    requires CornerKey(g.indices, a, c1) != CornerKey(g.indices, a, c2)
    requires var sel := Selection(XHandles(|g.edges|), val);
      Neighbour(g, sel, a, c1) != NoTriangle && Neighbour(g, sel, a, c1) != a
    ensures var sel := Selection(XHandles(|g.edges|), val);
      Neighbour(g, sel, a, c2) != Neighbour(g, sel, a, c1)
  {
    var e := |g.edges|;
    var xs, ys := XHandles(e), YHandles(e);
    var sel := Selection(xs, val);
    var b := Neighbour(g, sel, a, c1);
    if Neighbour(g, sel, a, c2) == b {
      CornerCarriesUnitFlow(g, val, a, c1);
      CornerCarriesUnitFlow(g, val, a, c2);
      var d1 := MatchCorner(g.indices, b, CornerKey(g.indices, a, c1));
      var d2 := MatchCorner(g.indices, b, CornerKey(g.indices, a, c2));
      assert d1 != d2;
      CapBoundsTwoCorners(g, val, a, c1, c2);
      CapBoundsTwoCorners(g, val, b, d1, d2);
      assert false;
    }
  }

  /** The counting half of the argument: `k` units of flow, each split between two
      consecutive caps, cannot fit into `k` caps of `F - Epsilon` each. */
  lemma NoCircularFlow(P: seq<real>, Q: seq<real>)
    requires |P| == |Q|
    requires forall i {:trigger Q[i]} :: 0 <= i < |P| ==> P[i] + Q[i] == 1.0
    requires forall i {:trigger Q[i]} :: 0 <= i < |P| ==> Q[i] + P[NextIndex(|P|, i)] <= F - Epsilon
    ensures |P| == 0
  {
    if |P| > 0 {
      UnitPairs(P, Q);
      CapSum(P, Q);
      assert false;
    }
  }

  /** Pairs that each sum to 1 sum to their number. */
  lemma UnitPairs(P: seq<real>, Q: seq<real>)
    requires |P| == |Q|
    requires forall i {:trigger Q[i]} :: 0 <= i < |P| ==> P[i] + Q[i] == 1.0
    ensures Collections.Sum(P) + Collections.Sum(Q) == |P| as real
  {
    var pairs := seq(|P|, i requires 0 <= i < |P| => P[i] + Q[i]);
    Collections.SumAdd(P, Q, pairs);
    Collections.SumConstant(pairs, 1.0);
  }

  /** Caps of `F - Epsilon` on `Q[i] + P[i + 1]`, around the cycle, keep both sums
      below the number of pairs. */
  lemma CapSum(P: seq<real>, Q: seq<real>)
    requires |P| == |Q| > 0
    requires forall i {:trigger Q[i]} :: 0 <= i < |P| ==> Q[i] + P[NextIndex(|P|, i)] <= F - Epsilon
    ensures Collections.Sum(P) + Collections.Sum(Q) < |P| as real
  {
    var caps := RotatedCaps(P, Q);
    Collections.SumAtMost(caps, F - Epsilon);
    BelowCount(|caps| as real, Collections.Sum(caps));
  }

  /** The cap sums `Q[i] + P[i + 1]` around the cycle: each at most `F - Epsilon`,
      together the sum of both sequences. */
  lemma RotatedCaps(P: seq<real>, Q: seq<real>) returns (caps: seq<real>)
    requires |P| == |Q| > 0
    requires forall i {:trigger Q[i]} :: 0 <= i < |P| ==> Q[i] + P[NextIndex(|P|, i)] <= F - Epsilon
    ensures |caps| == |P| && Collections.Sum(caps) == Collections.Sum(P) + Collections.Sum(Q)
    ensures forall i :: 0 <= i < |caps| ==> caps[i] <= F - Epsilon
  {
    var k := |P|;
    var rotated := P[1..] + P[..1];
    forall i | 0 <= i < k
      ensures rotated[i] == P[NextIndex(k, i)]
    {
    }
    caps := seq(k, i requires 0 <= i < k => Q[i] + rotated[i]);
    Collections.SumRotate(P);
    Collections.SumAdd(Q, rotated, caps);
  }

  /** `s <= n (F - Epsilon)` with `n` positive lies below `n`. */
  lemma BelowCount(n: real, s: real)
    requires n > 0.0 && s <= n * (F - Epsilon)
    ensures s < n
  {
  }
}
