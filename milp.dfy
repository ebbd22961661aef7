/** The linear-expression type and the solver interface the strip formulation is
    written against (include/MILP.h, src/MILP.cpp). */
module Milp {
  import Collections

  /** A solver variable handle. Both backends hand out dense indices 0, 1, 2, ... */
  type Variable = int

  datatype Comparison = Equal | GreaterEqual | LessEqual

  /** The coefficient map of a linear expression (`expression_`): variable to coefficient. */
  type Terms = map<Variable, real>

  /** The coefficient of `v` in `m`; a variable that is not a key has coefficient 0. */
  function Coefficient(m: Terms, v: Variable): real
  {
    if v in m then m[v] else 0.0
  }

  /** The map that `a += b` leaves in `a`: every key of either side, and for a key of
      both sides the sum of the two coefficients (2x + 3x = 5x). */
  function Merge(a: Terms, b: Terms): (r: Terms)
    ensures r.Keys == a.Keys + b.Keys
    ensures forall v :: v in r ==> r[v] == Coefficient(a, v) + Coefficient(b, v)
  {
    map v | v in a.Keys + b.Keys :: if v in a && v in b then a[v] + b[v] else if v in a then a[v] else b[v]
  }

  /** Keys only in `a` keep their coefficient, keys only in `b` are copied from `b`. */
  lemma MergeOneSided(a: Terms, b: Terms, v: Variable)
    ensures v in a && v !in b ==> Merge(a, b)[v] == a[v]
    ensures v !in a && v in b ==> Merge(a, b)[v] == b[v]
    ensures v in a && v in b ==> Merge(a, b)[v] == a[v] + b[v]
  {
  }

  /** Adding the empty expression changes nothing. */
  lemma MergeEmptyRight(a: Terms)
    ensures Merge(a, map[]) == a
  {
    var r := Merge(a, map[]);
    assert r.Keys == a.Keys;
    forall v | v in r
      ensures r[v] == a[v]
    {
    }
  }

  /** The sum of the first `n` terms `Coefficient(m, v) * val[v]`. */
  function EvalPrefix(m: Terms, val: seq<real>, n: nat): real
    requires n <= |val|
  {
    if n == 0 then 0.0 else EvalPrefix(m, val, n - 1) + Coefficient(m, n - 1) * val[n - 1]
  }

  /** The value of an expression under an assignment `val` of the variables 0 .. |val|-1. */
  function Eval(m: Terms, val: seq<real>): real
  {
    EvalPrefix(m, val, |val|)
  }

  lemma {:induction false} EvalPrefixMerge(a: Terms, b: Terms, val: seq<real>, n: nat)
    requires n <= |val|
    ensures EvalPrefix(Merge(a, b), val, n) == EvalPrefix(a, val, n) + EvalPrefix(b, val, n)
  {
    if n > 0 {
      var v := n - 1;
      EvalPrefixMerge(a, b, val, v);
      var m := Merge(a, b);
      assert Coefficient(m, v) == Coefficient(a, v) + Coefficient(b, v);
      AddTerms(EvalPrefix(a, val, v), EvalPrefix(b, val, v), EvalPrefix(m, val, v),
               Coefficient(a, v), Coefficient(b, v), Coefficient(m, v), val[v]);
    }
  }

  /** One step of `EvalPrefixMerge`, on plain reals: adding `cm * x` with `cm = ca + cb`
      to a sum of two prefixes adds `ca * x` to one and `cb * x` to the other. */
  lemma AddTerms(pa: real, pb: real, pm: real, ca: real, cb: real, cm: real, x: real)
    requires pm == pa + pb && cm == ca + cb
    ensures pm + cm * x == (pa + ca * x) + (pb + cb * x)
  {
    Distribute(ca, cb, x);
  }

  lemma Distribute(p: real, q: real, x: real)
    ensures (p + q) * x == p * x + q * x
  {
  }

  /** Evaluation is linear in `+=`: the merged expression evaluates to the sum. */
  lemma EvalMerge(a: Terms, b: Terms, val: seq<real>)
    ensures Eval(Merge(a, b), val) == Eval(a, val) + Eval(b, val)
  {
    EvalPrefixMerge(a, b, val, |val|);
  }

  lemma {:induction false} EvalPrefixSingle(v: Variable, c: real, val: seq<real>, n: nat)
    requires n <= |val|
    ensures EvalPrefix(map[v := c], val, n) == if 0 <= v < n then c * val[v] else 0.0
  {
    if n > 0 {
      EvalPrefixSingle(v, c, val, n - 1);
    }
  }

  /** The expression `LinearExpression(c, v)` evaluates to `c * val[v]`. */
  lemma EvalSingle(v: Variable, c: real, val: seq<real>)
    requires 0 <= v < |val|
    ensures Eval(map[v := c], val) == c * val[v]
  {
    EvalPrefixSingle(v, c, val, |val|);
  }

  lemma {:induction false} EvalPrefixEmpty(val: seq<real>, n: nat)
    requires n <= |val|
    ensures EvalPrefix(map[], val, n) == 0.0
  {
    if n > 0 {
      EvalPrefixEmpty(val, n - 1);
    }
  }

  /** The empty expression evaluates to 0. */
  lemma EvalEmpty(val: seq<real>)
    ensures Eval(map[], val) == 0.0
  {
    EvalPrefixEmpty(val, |val|);
  }

  /** A row `lhs cmp rhs` as handed to `AddConstraint`. */
  datatype Constraint = Constraint(lhs: Terms, cmp: Comparison, rhs: real)

  predicate Satisfies(c: Constraint, val: seq<real>)
  {
    var lhs := Eval(c.lhs, val);
    match c.cmp
    case Equal => lhs == c.rhs
    case GreaterEqual => lhs >= c.rhs
    case LessEqual => lhs <= c.rhs
  }

  datatype VarKind = Continuous | Integer | Binary

  /** A declared variable: its kind, bounds and objective coefficient. */
  datatype VarDecl = VarDecl(kind: VarKind, lo: real, hi: real, objective: real)

  /** `x` lies in the bounds of `d`, and is integral unless `d` is continuous. */
  predicate InBounds(d: VarDecl, x: real)
  {
    d.lo <= x <= d.hi && (d.kind != Continuous ==> x == x.Floor as real)
  }

  /** `val` assigns every declared variable a value in its bounds and meets every row. */
  predicate Feasible(vars: seq<VarDecl>, rows: seq<Constraint>, val: seq<real>)
  {
    && |val| == |vars|
    && (forall v :: 0 <= v < |vars| ==> InBounds(vars[v], val[v]))
    && (forall c :: c in rows ==> Satisfies(c, val))
  }

  /** A value of a binary variable `[0, 1]` is 0 or 1. */
  lemma BinaryValue(d: VarDecl, x: real)
    requires d.kind == Binary && d.lo == 0.0 && d.hi == 1.0 && InBounds(d, x)
    ensures x == 0.0 || x == 1.0
  {
    var k := x.Floor;
    assert 0 <= k <= 1;
  }

  /** `LinearExpression`: a coefficient map that `+=` updates in place. */
  class LinearExpression {
    var terms: Terms

    /** `LinearExpression() = default`: the empty expression. */
    constructor ()
      ensures terms == map[]
    {
      terms := map[];
    }

    /** `LinearExpression(v)`: the expression `1 * v`. */
    constructor Of(v: Variable)
      ensures terms == map[v := 1.0]
    {
      terms := map[v := 1.0];
    }

    /** `LinearExpression(factor, v)`: the expression `factor * v`. */
    constructor Scaled(factor: real, v: Variable)
      ensures terms == map[v := factor]
    {
      terms := map[v := factor];
    }

    /** `operator+=`: emplace each term of `other`, summing the coefficient when the key
        is already present; returns this same object. `a += a` doubles `a`. */
    method AddAssign(other: LinearExpression) returns (self: LinearExpression)
      modifies this
      ensures self == this
      ensures terms == Merge(old(terms), old(other.terms))
    {
      var source := other.terms;
      var pending := source.Keys;
      while pending != {}
        invariant pending <= source.Keys
        invariant terms.Keys == old(terms).Keys + (source.Keys - pending)
        invariant forall v :: v in terms ==>
          terms[v] == Coefficient(old(terms), v) + (if v in source && v !in pending then source[v] else 0.0)
        decreases pending
      {
        ghost var someKey := Collections.NonEmptyHasElement(pending);
        var v :| v in pending;
        if v !in terms {
          terms := terms[v := source[v]];
        } else {
          terms := terms[v := terms[v] + source[v]];
        }
        pending := pending - {v};
      }
      var expected := Merge(old(terms), source);
      assert terms.Keys == expected.Keys;
      forall v | v in terms
        ensures terms[v] == expected[v]
      {
      }
      self := this;
    }
  }

  /** A solver backend (`MILPSolverBase`) that only records what is submitted to it:
      the declared variables in order of creation, the rows, and the direction. */
  class Recorder {
    var vars: seq<VarDecl>
    var constraints: seq<Constraint>
    var maximize: bool

    constructor ()
      ensures vars == [] && constraints == [] && !maximize
    {
      vars, constraints, maximize := [], [], false;
    }

    /** `AddVariable`: a continuous variable; the handle is its index. */
    method AddVariable(lo: real, hi: real, objective: real) returns (v: Variable)
      modifies this
      ensures v == |old(vars)|
      ensures vars == old(vars) + [VarDecl(Continuous, lo, hi, objective)]
      ensures constraints == old(constraints) && maximize == old(maximize)
    {
      v := |vars|;
      vars := vars + [VarDecl(Continuous, lo, hi, objective)];
    }

    /** `AddIntegerVariable`: an integer variable; the handle is its index. */
    method AddIntegerVariable(lo: real, hi: real, objective: real) returns (v: Variable)
      modifies this
      ensures v == |old(vars)|
      ensures vars == old(vars) + [VarDecl(Integer, lo, hi, objective)]
      ensures constraints == old(constraints) && maximize == old(maximize)
    {
      v := |vars|;
      vars := vars + [VarDecl(Integer, lo, hi, objective)];
    }

    /** `AddBinaryVariable`: an integer variable bounded by [0, 1]. */
    method AddBinaryVariable(objective: real) returns (v: Variable)
      modifies this
      ensures v == |old(vars)|
      ensures vars == old(vars) + [VarDecl(Binary, 0.0, 1.0, objective)]
      ensures constraints == old(constraints) && maximize == old(maximize)
    {
      v := |vars|;
      vars := vars + [VarDecl(Binary, 0.0, 1.0, objective)];
    }

    /** `AddConstraint`: records the row with the expression's current terms. */
    method AddConstraint(lhs: LinearExpression, cmp: Comparison, rhs: real)
      modifies this
      ensures constraints == old(constraints) + [Constraint(lhs.terms, cmp, rhs)]
      ensures vars == old(vars) && maximize == old(maximize)
    {
      constraints := constraints + [Constraint(lhs.terms, cmp, rhs)];
    }

    /** `SetObjective`: fixes the direction of the objective. */
    method SetObjective(maximize: bool)
      modifies this
      ensures this.maximize == maximize
      ensures vars == old(vars) && constraints == old(constraints)
    {
      this.maximize := maximize;
    }
  }
}
