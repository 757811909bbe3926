/** Constraints as data.

    The source hands Pyomo expression trees built from indexed variables.
    Here a variable is a `VarRef` (component name and index), an expression
    is a small tree over reals, and a constraint is an equality or a
    less-or-equal between two expressions.  A trajectory (a candidate
    solution) is an `Assignment` of a real to every variable. */
module Expressions {

  /** The two axes of the planar model, in the order of the set R2_INDEX. */
  datatype Axis = X | Z

  const Axes: seq<Axis> := [X, Z]

  datatype Vec2 = Vec2(x: real, z: real)

  function Component(v: Vec2, i: Axis): real
  {
    if i == X then v.x else v.z
  }

  /** One indexed variable of the trajectory model.  Time indices run over
      1..N.  Feet are numbered in the order of the hip-offset table. */
  datatype VarRef =
    | Dt(t: nat)                                  // dt[t]
    | Pos(axis: Axis, t: nat)                     // r[i, t]
    | Vel(axis: Axis, t: nat)                     // v[i, t]
    | Th(t: nat)                                  // th[t]
    | Omega(t: nat)                               // w[t]
    | NetForce(axis: Axis, t: nat)                // F[i, t]
    | NetTorque(t: nat)                           // T[t]
    | Cth(t: nat)                                 // cth[t]
    | Sth(t: nat)                                 // sth[t]
    | ContactForce(foot: nat, axis: Axis, t: nat) // f[foot, i, t]
    | Rel(foot: nat, axis: Axis, t: nat)          // p[foot, i, t]
    | RelVel(foot: nat, axis: Axis, t: nat)       // pd[foot, i, t]
    | RelAcc(foot: nat, axis: Axis, t: nat)       // pdd[foot, i, t]
    | Hip(foot: nat, axis: Axis, t: nat)          // hip[foot, i, t]
    | FootRelCom(foot: nat, axis: Axis, t: nat)   // footRelativeToCOM[foot, i, t]
    | FootPos(foot: nat, axis: Axis, t: nat)      // foot[foot, i, t]

  /** A value for every variable: a candidate trajectory. */
  type Assignment = VarRef -> real

  datatype Expr =
    | Const(c: real)
    | Var(ref: VarRef)
    | Add(l: Expr, r: Expr)
    | Sub(l: Expr, r: Expr)
    | Mul(l: Expr, r: Expr)

  datatype Constraint = Eq(lhs: Expr, rhs: Expr) | Le(lhs: Expr, rhs: Expr)

  function Eval(e: Expr, a: Assignment): real
  {
    match e
    case Const(c) => c
    case Var(v) => a(v)
    case Add(l, r) => Eval(l, a) + Eval(r, a)
    case Sub(l, r) => Eval(l, a) - Eval(r, a)
    case Mul(l, r) => Eval(l, a) * Eval(r, a)
  }

  predicate Holds(c: Constraint, a: Assignment)
  {
    match c
    case Eq(l, r) => Eval(l, a) == Eval(r, a)
    case Le(l, r) => Eval(l, a) <= Eval(r, a)
  }

  predicate AllHold(cs: seq<Constraint>, a: Assignment)
  {
    forall i :: 0 <= i < |cs| ==> Holds(cs[i], a)
  }

  lemma AllHoldConcat(cs: seq<Constraint>, ds: seq<Constraint>, a: Assignment)
    ensures AllHold(cs + ds, a) <==> AllHold(cs, a) && AllHold(ds, a)
  {
    if AllHold(cs, a) && AllHold(ds, a) {
      forall i | 0 <= i < |cs + ds| ensures Holds((cs + ds)[i], a) {
        if i >= |cs| { assert (cs + ds)[i] == ds[i - |cs|]; }
      }
    }
    if AllHold(cs + ds, a) {
      forall i | 0 <= i < |cs| ensures Holds(cs[i], a) {
        assert (cs + ds)[i] == cs[i];
      }
      forall i | 0 <= i < |ds| ensures Holds(ds[i], a) {
        assert (cs + ds)[|cs| + i] == ds[i];
      }
    }
  }

  /** The variables an expression mentions. */
  function Refs(e: Expr): set<VarRef>
  {
    match e
    case Const(_) => {}
    case Var(v) => {v}
    case Add(l, r) => Refs(l) + Refs(r)
    case Sub(l, r) => Refs(l) + Refs(r)
    case Mul(l, r) => Refs(l) + Refs(r)
  }

  function ConstraintRefs(c: Constraint): set<VarRef>
  {
    Refs(c.lhs) + Refs(c.rhs)
  }

  /** Python's built-in `sum` over a generator of expressions:
      0 + term(0) + term(1) + ... + term(n-1). */
  function SumOver(n: nat, term: nat -> Expr): Expr
  {
    if n == 0 then Const(0.0) else Add(SumOver(n - 1, term), term(n - 1))
  }

  /** The mathematical sum term(0) + ... + term(n-1). */
  function RealSum(n: nat, term: nat -> real): real
  {
    if n == 0 then 0.0 else RealSum(n - 1, term) + term(n - 1)
  }

  /** Evaluating a built sum gives the sum of the evaluated terms. */
  lemma {:induction false} EvalSumOver(n: nat, term: nat -> Expr, val: nat -> real, a: Assignment)
    requires forall k :: 0 <= k < n ==> Eval(term(k), a) == val(k)
    ensures Eval(SumOver(n, term), a) == RealSum(n, val)
  {
    if n > 0 {
      EvalSumOver(n - 1, term, val, a);
    }
  }

  /** A built sum mentions only what its terms mention. */
  lemma {:induction false} SumOverRefs(n: nat, term: nat -> Expr, v: VarRef)
    requires v in Refs(SumOver(n, term))
    ensures exists k :: 0 <= k < n && v in Refs(term(k))
  {
    if n > 0 && v !in Refs(term(n - 1)) {
      SumOverRefs(n - 1, term, v);
    }
  }

  /** part(0) + part(1) + ... + part(n-1): the constraints of an indexed
      family, in index order. */
  function ConcatN(n: nat, part: nat -> seq<Constraint>): seq<Constraint>
  {
    if n == 0 then [] else ConcatN(n - 1, part) + part(n - 1)
  }

  lemma {:induction false} AllHoldConcatN(n: nat, part: nat -> seq<Constraint>, a: Assignment)
    ensures AllHold(ConcatN(n, part), a) <==> forall k :: 0 <= k < n ==> AllHold(part(k), a)
  {
    if n > 0 {
      AllHoldConcatN(n - 1, part, a);
      AllHoldConcat(ConcatN(n - 1, part), part(n - 1), a);
    }
  }

  /** A constraint's truth depends only on the variables it mentions. */
  lemma {:induction false} EvalDependsOnRefs(e: Expr, a: Assignment, b: Assignment)
    requires forall v :: v in Refs(e) ==> a(v) == b(v)
    ensures Eval(e, a) == Eval(e, b)
  {
    match e
    case Const(_) =>
    case Var(_) =>
    case Add(l, r) => EvalDependsOnRefs(l, a, b); EvalDependsOnRefs(r, a, b);
    case Sub(l, r) => EvalDependsOnRefs(l, a, b); EvalDependsOnRefs(r, a, b);
    case Mul(l, r) => EvalDependsOnRefs(l, a, b); EvalDependsOnRefs(r, a, b);
  }

  lemma HoldsDependsOnRefs(c: Constraint, a: Assignment, b: Assignment)
    requires forall v :: v in ConstraintRefs(c) ==> a(v) == b(v)
    ensures Holds(c, a) <==> Holds(c, b)
  {
    EvalDependsOnRefs(c.lhs, a, b);
    EvalDependsOnRefs(c.rhs, a, b);
  }
}
