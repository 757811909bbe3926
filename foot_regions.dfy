/** The disjunctive part of `Hopper.constructPyomoModel`: one disjunct per
    (region, foot, sample) saying "the foot is in this region", and one
    disjunction per (foot, sample) over the whole catalog
    (hopper.py:258-352).

    The disjunct's constraints are returned as data; whether a trajectory
    satisfies them is `AllHold`.  How the disjunction is lowered to mixed
    integer constraints (convex hull or big-M) is the library's business;
    here a disjunction holds when some listed disjunct's constraints hold. */
module FootRegions {
  import opened Wrappers
  import opened Expressions
  import opened Regions

  /** Why a region's geometry cannot be turned into rows. */
  datatype GeometryError =
    | NoRows       // neither A nor Aeq: `b` is never bound
    | MissingRhs   // A without b, or Aeq without beq
    | RhsTooShort  // fewer right-hand sides than rows: an index past the end

  /** `A·p <= b` as a matrix and a column. */
  datatype LinearSystem = LinearSystem(rows: Matrix, rhs: Column)

  function NegatedRows(m: Matrix): (r: Matrix)
    ensures |r| == |m| && forall i :: 0 <= i < |m| ==> r[i] == Row(-m[i].ax, -m[i].az)
  {
    seq(|m|, i requires 0 <= i < |m| => Row(-m[i].ax, -m[i].az))
  }

  function NegatedColumn(c: Column): (r: Column)
    ensures |r| == |c| && forall i :: 0 <= i < |c| ==> r[i] == -c[i]
  {
    seq(|c|, i requires 0 <= i < |c| => -c[i])
  }

  function RowsOf(m: Option<Matrix>): Matrix
  {
    if m.Some? then m.value else []
  }

  /** The right-hand side that goes with a matrix: none when the matrix is
      absent, whatever was stored under the rhs key. */
  function RhsFor(m: Option<Matrix>, c: Option<Column>): Column
  {
    if m.Some? && c.Some? then c.value else []
  }

  /** The stacking of hopper.py:260-274: A's rows, then Aeq's, then -Aeq's,
      with the right-hand sides stacked the same way.  A `b` stored without
      an `A` (or a `beq` without an `Aeq`) is never read. */
  function StackedSystem(reg: Region): (r: Result<LinearSystem, GeometryError>)
    ensures r.Success? <==> && (reg.A.Some? || reg.Aeq.Some?)
                            && (reg.A.Some? ==> reg.b.Some?)
                            && (reg.Aeq.Some? ==> reg.beq.Some?)
    ensures r.Success? ==>
              && |r.value.rows| == |RowsOf(reg.A)| + 2 * |RowsOf(reg.Aeq)|
              && |r.value.rhs| == |RhsFor(reg.A, reg.b)| + 2 * |RhsFor(reg.Aeq, reg.beq)|
  {
    if reg.A.None? && reg.Aeq.None? then Failure(NoRows)
    else if reg.A.Some? && reg.b.None? then Failure(MissingRhs)
    else if reg.Aeq.Some? && reg.beq.None? then Failure(MissingRhs)
    else
      var eq := RowsOf(reg.Aeq);
      var beq := RhsFor(reg.Aeq, reg.beq);
      Success(LinearSystem(RowsOf(reg.A) + eq + NegatedRows(eq), RhsFor(reg.A, reg.b) + beq + NegatedColumn(beq)))
  }

  /** For a well-formed region the stacked rows describe exactly the region:
      an equality row holds iff both it and its negation hold as
      inequalities. */
  lemma StackedSystemMeaning(reg: Region, p: Vec2)
    requires WellFormed(reg)
    ensures StackedSystem(reg).Success?
    ensures |StackedSystem(reg).value.rhs| == |StackedSystem(reg).value.rows|
    ensures RowsHold(StackedSystem(reg).value.rows, StackedSystem(reg).value.rhs, p) <==> InRegion(reg, p)
  {
    var a, b := RowsOf(reg.A), RhsFor(reg.A, reg.b);
    var eq, beq := RowsOf(reg.Aeq), RhsFor(reg.Aeq, reg.beq);
    var neq, nbeq := NegatedRows(eq), NegatedColumn(beq);
    assert |b| == |a| && |beq| == |eq|;
    RowsHoldConcat(a, b, eq, beq, p);
    RowsHoldConcat(a + eq, b + beq, neq, nbeq, p);
    assert RowsHold(eq, beq, p) && RowsHold(neq, nbeq, p)
           <==> forall i :: 0 <= i < |eq| ==> Dot(eq[i], p) == beq[i] by {
      if RowsHold(eq, beq, p) && RowsHold(neq, nbeq, p) {
        forall i | 0 <= i < |eq| ensures Dot(eq[i], p) == beq[i] {
          assert Dot(neq[i], p) == -Dot(eq[i], p);
        }
      }
      if forall i :: 0 <= i < |eq| ==> Dot(eq[i], p) == beq[i] {
        forall i | 0 <= i < |neq| ensures Dot(neq[i], p) <= nbeq[i] {
          assert Dot(neq[i], p) == -Dot(eq[i], p);
        }
      }
    }
  }

  /** `row[0]*ex + row[1]*ez <= rhs` */
  function RowConstraint(row: Row, rhs: real, ex: Expr, ez: Expr): Constraint
  {
    Le(Add(Mul(Const(row.ax), ex), Mul(Const(row.az), ez)), Const(rhs))
  }

  /** One constraint per row, indexed by `range(A.shape[0])`. */
  function RowConstraints(rows: Matrix, rhs: Column, ex: Expr, ez: Expr): (cs: seq<Constraint>)
    requires |rhs| >= |rows|
    ensures |cs| == |rows|
  {
    seq(|rows|, i requires 0 <= i < |rows| => RowConstraint(rows[i], rhs[i], ex, ez))
  }

  /** The left-hand side of a row constraint evaluates to the row's dot
      product with the point (ex, ez). */
  lemma RowLhsValue(row: Row, ex: Expr, ez: Expr, a: Assignment)
    ensures Eval(RowConstraint(row, 0.0, ex, ez).lhs, a) == Dot(row, Vec2(Eval(ex, a), Eval(ez, a)))
  {
    var l1, l2 := Mul(Const(row.ax), ex), Mul(Const(row.az), ez);
    assert Eval(Const(row.ax), a) == row.ax && Eval(Const(row.az), a) == row.az;
    assert Eval(l1, a) == row.ax * Eval(ex, a);
    assert Eval(l2, a) == row.az * Eval(ez, a);
  }

  lemma RowConstraintMeaning(row: Row, rhs: real, ex: Expr, ez: Expr, a: Assignment)
    ensures Holds(RowConstraint(row, rhs, ex, ez), a) <==> Dot(row, Vec2(Eval(ex, a), Eval(ez, a))) <= rhs
  {
    RowLhsValue(row, ex, ez, a);
    assert RowConstraint(row, rhs, ex, ez).lhs == RowConstraint(row, 0.0, ex, ez).lhs;
    assert Eval(Const(rhs), a) == rhs;
  }

  /** The row constraints hold iff the point (ex, ez) satisfies every row. */
  lemma RowConstraintsMeaning(rows: Matrix, rhs: Column, ex: Expr, ez: Expr, a: Assignment)
    requires |rhs| >= |rows|
    ensures AllHold(RowConstraints(rows, rhs, ex, ez), a) <==> RowsHold(rows, rhs, Vec2(Eval(ex, a), Eval(ez, a)))
  {
    var cs := RowConstraints(rows, rhs, ex, ez);
    var p := Vec2(Eval(ex, a), Eval(ez, a));
    forall i | 0 <= i < |rows| ensures Holds(cs[i], a) <==> Dot(rows[i], p) <= rhs[i] {
      RowConstraintMeaning(rows[i], rhs[i], ex, ez, a);
    }
  }

  lemma RowConstraintsRefs(rows: Matrix, rhs: Column, ex: Expr, ez: Expr)
    requires |rhs| >= |rows|
    ensures forall c :: c in RowConstraints(rows, rhs, ex, ez) ==> ConstraintRefs(c) <= Refs(ex) + Refs(ez)
  {
    var cs := RowConstraints(rows, rhs, ex, ez);
    forall c | c in cs ensures ConstraintRefs(c) <= Refs(ex) + Refs(ez) {
      var i :| 0 <= i < |cs| && cs[i] == c;
      assert c == RowConstraint(rows[i], rhs[i], ex, ez);
      assert Refs(Mul(Const(rows[i].ax), ex)) == Refs(ex);
      assert Refs(Mul(Const(rows[i].az), ez)) == Refs(ez);
      assert Refs(Const(rhs[i])) == {};
    }
  }

  /** The constraint blocks of one disjunct, as named in hopper.py:278-313. */
  datatype Disjunct = Disjunct(
    contactPosition: seq<Constraint>,
    hipPosition: seq<Constraint>,
    contactForce1: Constraint,
    contactForce2: Constraint,
    contactForce3: seq<Constraint>,
    stationaryFoot: seq<Constraint>)

  function DisjunctConstraints(d: Disjunct): seq<Constraint>
  {
    d.contactPosition + d.hipPosition + [d.contactForce1, d.contactForce2] + d.contactForce3 + d.stationaryFoot
  }

  /** r + hip on axis i: the hip's position in the world. */
  function HipInWorld(foot: nat, i: Axis, t: nat): Expr
  {
    Add(Var(Pos(i, t)), Var(Hip(foot, i, t)))
  }

  /** `_footRegionConstraints(disjunct, region, foot, t)` (hopper.py:258-313).
      A region without friction (mu == 0) is free space: the foot carries no
      force and the hip must lie in the region too.  A region with friction
      is a contact surface: the foot may not slide along x.  The friction
      pair is stated for both kinds. */
  function FootRegionConstraints(reg: Region, foot: nat, t: nat): (r: Result<Disjunct, GeometryError>)
    ensures r.Success? <==> StackedSystem(reg).Success?
                            && |StackedSystem(reg).value.rhs| >= |StackedSystem(reg).value.rows|
    ensures r.Success? ==>
              && |r.value.contactPosition| == |StackedSystem(reg).value.rows|
              && |r.value.hipPosition| == (if reg.mu == 0.0 then |StackedSystem(reg).value.rows| else 0)
              && |r.value.contactForce3| == (if reg.mu == 0.0 then 2 else 0)
              && |r.value.stationaryFoot| == (if reg.mu == 0.0 then 0 else 1)
  {
    var sys := StackedSystem(reg);
    if sys.Failure? then Failure(sys.error)
    else if |sys.value.rhs| < |sys.value.rows| then Failure(RhsTooShort)
    else
      var rows, rhs := sys.value.rows, sys.value.rhs;
      var fx, fz := Var(ContactForce(foot, X, t)), Var(ContactForce(foot, Z, t));
      Success(Disjunct(
        RowConstraints(rows, rhs, Var(FootPos(foot, X, t)), Var(FootPos(foot, Z, t))),
        if reg.mu == 0.0 then RowConstraints(rows, rhs, HipInWorld(foot, X, t), HipInWorld(foot, Z, t)) else [],
        Le(fx, Mul(Const(reg.mu), fz)),
        Le(Mul(Const(-reg.mu), fz), fx),
        if reg.mu == 0.0 then [Eq(fx, Const(0.0)), Eq(fz, Const(0.0))] else [],
        if reg.mu == 0.0 then [] else [Eq(Var(RelVel(foot, X, t)), Const(0.0))]))
  }

  /** Where foot `foot` is at sample t. */
  function FootAt(a: Assignment, foot: nat, t: nat): Vec2
  {
    Vec2(a(FootPos(foot, X, t)), a(FootPos(foot, Z, t)))
  }

  /** Where the hip of `foot` is at sample t, r + hip. */
  function HipAt(a: Assignment, foot: nat, t: nat): Vec2
  {
    Vec2(a(Pos(X, t)) + a(Hip(foot, X, t)), a(Pos(Z, t)) + a(Hip(foot, Z, t)))
  }

  /** What "foot `foot` uses region `reg` at sample t" means. */
  predicate RegionActive(reg: Region, a: Assignment, foot: nat, t: nat)
    requires WellFormed(reg)
  {
    var fx, fz := a(ContactForce(foot, X, t)), a(ContactForce(foot, Z, t));
    && InRegion(reg, FootAt(a, foot, t))
    && (reg.mu == 0.0 ==> InRegion(reg, HipAt(a, foot, t)) && fx == 0.0 && fz == 0.0)
    && (reg.mu != 0.0 ==> a(RelVel(foot, X, t)) == 0.0)
    && -reg.mu * fz <= fx <= reg.mu * fz
  }

  lemma ContactPositionMeaning(reg: Region, foot: nat, t: nat, a: Assignment)
    requires WellFormed(reg)
    ensures FootRegionConstraints(reg, foot, t).Success?
    ensures AllHold(FootRegionConstraints(reg, foot, t).value.contactPosition, a) <==> InRegion(reg, FootAt(a, foot, t))
  {
    StackedSystemMeaning(reg, FootAt(a, foot, t));
    var sys := StackedSystem(reg).value;
    RowConstraintsMeaning(sys.rows, sys.rhs, Var(FootPos(foot, X, t)), Var(FootPos(foot, Z, t)), a);
    assert Eval(Var(FootPos(foot, X, t)), a) == a(FootPos(foot, X, t));
    assert Eval(Var(FootPos(foot, Z, t)), a) == a(FootPos(foot, Z, t));
  }

  lemma HipPositionMeaning(reg: Region, foot: nat, t: nat, a: Assignment)
    requires WellFormed(reg)
    ensures FootRegionConstraints(reg, foot, t).Success?
    ensures AllHold(FootRegionConstraints(reg, foot, t).value.hipPosition, a)
            <==> (reg.mu == 0.0 ==> InRegion(reg, HipAt(a, foot, t)))
  {
    StackedSystemMeaning(reg, HipAt(a, foot, t));
    var sys := StackedSystem(reg).value;
    if reg.mu == 0.0 {
      RowConstraintsMeaning(sys.rows, sys.rhs, HipInWorld(foot, X, t), HipInWorld(foot, Z, t), a);
      assert Eval(Var(Pos(X, t)), a) == a(Pos(X, t)) && Eval(Var(Hip(foot, X, t)), a) == a(Hip(foot, X, t));
      assert Eval(Var(Pos(Z, t)), a) == a(Pos(Z, t)) && Eval(Var(Hip(foot, Z, t)), a) == a(Hip(foot, Z, t));
      assert Eval(HipInWorld(foot, X, t), a) == HipAt(a, foot, t).x;
      assert Eval(HipInWorld(foot, Z, t), a) == HipAt(a, foot, t).z;
    }
  }

  lemma ContactForceMeaning(reg: Region, foot: nat, t: nat, a: Assignment)
    requires FootRegionConstraints(reg, foot, t).Success?
    ensures var d := FootRegionConstraints(reg, foot, t).value;
            AllHold([d.contactForce1, d.contactForce2] + d.contactForce3, a)
            <==> && -reg.mu * a(ContactForce(foot, Z, t)) <= a(ContactForce(foot, X, t)) <= reg.mu * a(ContactForce(foot, Z, t))
                 && (reg.mu == 0.0 ==> a(ContactForce(foot, X, t)) == 0.0 && a(ContactForce(foot, Z, t)) == 0.0)
  {
    var d := FootRegionConstraints(reg, foot, t).value;
    var fx, fz := Var(ContactForce(foot, X, t)), Var(ContactForce(foot, Z, t));
    assert Eval(fx, a) == a(ContactForce(foot, X, t)) && Eval(fz, a) == a(ContactForce(foot, Z, t));
    assert Eval(Const(reg.mu), a) == reg.mu && Eval(Const(-reg.mu), a) == -reg.mu && Eval(Const(0.0), a) == 0.0;
    assert Eval(Mul(Const(reg.mu), fz), a) == reg.mu * a(ContactForce(foot, Z, t));
    assert Eval(Mul(Const(-reg.mu), fz), a) == -reg.mu * a(ContactForce(foot, Z, t));
    var cs := [d.contactForce1, d.contactForce2] + d.contactForce3;
    if AllHold(cs, a) {
      assert Holds(cs[0], a) && Holds(cs[1], a);
      if reg.mu == 0.0 {
        assert Holds(cs[2], a) && Holds(cs[3], a);
      }
    }
  }

  lemma StationaryFootMeaning(reg: Region, foot: nat, t: nat, a: Assignment)
    requires FootRegionConstraints(reg, foot, t).Success?
    ensures AllHold(FootRegionConstraints(reg, foot, t).value.stationaryFoot, a)
            <==> (reg.mu != 0.0 ==> a(RelVel(foot, X, t)) == 0.0)
  {
    var d := FootRegionConstraints(reg, foot, t).value;
    assert Eval(Var(RelVel(foot, X, t)), a) == a(RelVel(foot, X, t)) && Eval(Const(0.0), a) == 0.0;
    if reg.mu != 0.0 && AllHold(d.stationaryFoot, a) {
      assert Holds(d.stationaryFoot[0], a);
    }
  }

  /** A well-formed region always yields a disjunct, and its constraints hold
      exactly when the foot uses the region. */
  lemma FootRegionMeaning(reg: Region, foot: nat, t: nat, a: Assignment)
    requires WellFormed(reg)
    ensures FootRegionConstraints(reg, foot, t).Success?
    ensures AllHold(DisjunctConstraints(FootRegionConstraints(reg, foot, t).value), a) <==> RegionActive(reg, a, foot, t)
  {
    var d := FootRegionConstraints(reg, foot, t).value;
    ContactPositionMeaning(reg, foot, t, a);
    HipPositionMeaning(reg, foot, t, a);
    ContactForceMeaning(reg, foot, t, a);
    StationaryFootMeaning(reg, foot, t, a);
    var pos := d.contactPosition + d.hipPosition;
    var force := [d.contactForce1, d.contactForce2] + d.contactForce3;
    assert DisjunctConstraints(d) == pos + force + d.stationaryFoot;
    AllHoldConcat(d.contactPosition, d.hipPosition, a);
    AllHoldConcat(pos, force, a);
    AllHoldConcat(pos + force, d.stationaryFoot, a);
  }

  /** The variables a disjunct may constrain: the foot's position and force
      always; the centre and hip only in free space; the foot's x velocity
      only on a contact surface.  The z velocity is never constrained. */
  function DisjunctScope(mu: real, foot: nat, t: nat): set<VarRef>
  {
    {FootPos(foot, X, t), FootPos(foot, Z, t), ContactForce(foot, X, t), ContactForce(foot, Z, t)}
    + (if mu == 0.0 then {Pos(X, t), Pos(Z, t), Hip(foot, X, t), Hip(foot, Z, t)} else {RelVel(foot, X, t)})
  }

  lemma PositionBlocksScope(reg: Region, foot: nat, t: nat)
    requires FootRegionConstraints(reg, foot, t).Success?
    ensures forall c :: c in FootRegionConstraints(reg, foot, t).value.contactPosition
                        ==> ConstraintRefs(c) <= {FootPos(foot, X, t), FootPos(foot, Z, t)}
    ensures forall c :: c in FootRegionConstraints(reg, foot, t).value.hipPosition
                        ==> reg.mu == 0.0 && ConstraintRefs(c) <= {Pos(X, t), Pos(Z, t), Hip(foot, X, t), Hip(foot, Z, t)}
  {
    var sys := StackedSystem(reg).value;
    RowConstraintsRefs(sys.rows, sys.rhs, Var(FootPos(foot, X, t)), Var(FootPos(foot, Z, t)));
    RowConstraintsRefs(sys.rows, sys.rhs, HipInWorld(foot, X, t), HipInWorld(foot, Z, t));
    assert Refs(Var(FootPos(foot, X, t))) + Refs(Var(FootPos(foot, Z, t))) == {FootPos(foot, X, t), FootPos(foot, Z, t)};
    assert Refs(HipInWorld(foot, X, t)) + Refs(HipInWorld(foot, Z, t))
           == {Pos(X, t), Hip(foot, X, t), Pos(Z, t), Hip(foot, Z, t)};
  }

  lemma ForceBlocksScope(reg: Region, foot: nat, t: nat)
    requires FootRegionConstraints(reg, foot, t).Success?
    ensures var d := FootRegionConstraints(reg, foot, t).value;
            forall c :: c in [d.contactForce1, d.contactForce2] + d.contactForce3
                        ==> ConstraintRefs(c) <= {ContactForce(foot, X, t), ContactForce(foot, Z, t)}
    ensures forall c :: c in FootRegionConstraints(reg, foot, t).value.stationaryFoot
                        ==> reg.mu != 0.0 && ConstraintRefs(c) == {RelVel(foot, X, t)}
  {
    var d := FootRegionConstraints(reg, foot, t).value;
    var fx, fz := Var(ContactForce(foot, X, t)), Var(ContactForce(foot, Z, t));
    var forces := {ContactForce(foot, X, t), ContactForce(foot, Z, t)};
    assert Refs(Mul(Const(reg.mu), fz)) == {ContactForce(foot, Z, t)};
    assert Refs(Mul(Const(-reg.mu), fz)) == {ContactForce(foot, Z, t)};
    assert ConstraintRefs(d.contactForce1) <= forces;
    assert ConstraintRefs(d.contactForce2) <= forces;
    forall c | c in d.contactForce3 ensures ConstraintRefs(c) <= forces {
      assert c == Eq(fx, Const(0.0)) || c == Eq(fz, Const(0.0));
    }
    forall c | c in d.stationaryFoot ensures reg.mu != 0.0 && ConstraintRefs(c) == {RelVel(foot, X, t)} {
      assert c == Eq(Var(RelVel(foot, X, t)), Const(0.0));
    }
  }

  lemma FootRegionScope(reg: Region, foot: nat, t: nat)
    requires FootRegionConstraints(reg, foot, t).Success?
    ensures forall c :: c in DisjunctConstraints(FootRegionConstraints(reg, foot, t).value)
                        ==> ConstraintRefs(c) <= DisjunctScope(reg.mu, foot, t)
    ensures forall c :: c in DisjunctConstraints(FootRegionConstraints(reg, foot, t).value)
                        ==> RelVel(foot, Z, t) !in ConstraintRefs(c)
  {
    var d := FootRegionConstraints(reg, foot, t).value;
    PositionBlocksScope(reg, foot, t);
    ForceBlocksScope(reg, foot, t);
    var scope := DisjunctScope(reg.mu, foot, t);
    var force := [d.contactForce1, d.contactForce2] + d.contactForce3;
    assert DisjunctConstraints(d) == d.contactPosition + d.hipPosition + force + d.stationaryFoot;
    forall c | c in DisjunctConstraints(d) ensures ConstraintRefs(c) <= scope {
      if c in d.contactPosition {
      } else if c in d.hipPosition {
      } else if c in force {
      } else {
        assert c in d.stationaryFoot;
      }
    }
    assert RelVel(foot, Z, t) !in scope;
  }

  // ----- The disjunction over the catalog -----

  /** `footRegionConstraints[region, foot, t]`, the disjunct of one region. */
  datatype DisjunctRef = DisjunctRef(region: nat, foot: nat, t: nat)

  /** `_footRegionDisjunction(m, foot, t)` (hopper.py:319-323): the disjunct
      of every region, in catalog order. */
  method FootRegionDisjunction(nRegions: nat, foot: nat, t: nat) returns (disjunctList: seq<DisjunctRef>)
    ensures |disjunctList| == nRegions
    ensures forall k :: 0 <= k < nRegions ==> disjunctList[k] == DisjunctRef(k, foot, t)
  {
    disjunctList := [];
    var region := 0;
    while region < nRegions
      invariant 0 <= region <= nRegions
      invariant |disjunctList| == region
      invariant forall k :: 0 <= k < region ==> disjunctList[k] == DisjunctRef(k, foot, t)
    {
      disjunctList := disjunctList + [DisjunctRef(region, foot, t)];
      region := region + 1;
    }
  }

  /** The constraints of a listed disjunct hold. */
  predicate DisjunctHolds(regions: seq<Region>, d: DisjunctRef, a: Assignment)
  {
    && d.region < |regions|
    && var r := FootRegionConstraints(regions[d.region], d.foot, d.t);
       r.Success? && AllHold(DisjunctConstraints(r.value), a)
  }

  /** A disjunction holds when one of its disjuncts does. */
  predicate DisjunctionHolds(regions: seq<Region>, disjunctList: seq<DisjunctRef>, a: Assignment)
  {
    exists k :: 0 <= k < |disjunctList| && DisjunctHolds(regions, disjunctList[k], a)
  }

  predicate AllWellFormed(regions: seq<Region>)
  {
    forall k :: 0 <= k < |regions| ==> WellFormed(regions[k])
  }

  /** Over a catalog of well-formed regions, the disjunction for (foot, t)
      holds iff the foot uses some region of the catalog at t; an empty
      catalog leaves it unsatisfiable. */
  lemma FootRegionDisjunctionMeaning(regions: seq<Region>, disjunctList: seq<DisjunctRef>, foot: nat, t: nat, a: Assignment)
    requires AllWellFormed(regions)
    requires |disjunctList| == |regions|
    requires forall k :: 0 <= k < |regions| ==> disjunctList[k] == DisjunctRef(k, foot, t)
    ensures DisjunctionHolds(regions, disjunctList, a)
            <==> exists k :: 0 <= k < |regions| && RegionActive(regions[k], a, foot, t)
  {
    forall k | 0 <= k < |regions|
      ensures DisjunctHolds(regions, disjunctList[k], a) <==> RegionActive(regions[k], a, foot, t)
    {
      FootRegionMeaning(regions[k], foot, t, a);
    }
  }

  /** A foot on a platform with friction stands on its top face, does not
      slide along x, and pushes inside the friction cone. */
  lemma PlatformFoot(start: real, end: real, height: real, mu: real, foot: nat, t: nat, a: Assignment)
    requires mu != 0.0
    requires WellFormed(PlatformRegion(start, end, height, mu))
    requires RegionActive(PlatformRegion(start, end, height, mu), a, foot, t)
    ensures start <= a(FootPos(foot, X, t)) <= end && a(FootPos(foot, Z, t)) == height
    ensures a(RelVel(foot, X, t)) == 0.0
    ensures -mu * a(ContactForce(foot, Z, t)) <= a(ContactForce(foot, X, t)) <= mu * a(ContactForce(foot, Z, t))
  {
    PlatformContainment(start, end, height, mu, FootAt(a, foot, t));
  }

  /** A foot in a free block carries no force, and both it and its hip lie
      within the block's bounds. */
  lemma FreeBlockFootExample(left: Option<real>, right: Option<real>, top: Option<real>, bottom: Option<real>,
                             foot: nat, t: nat, a: Assignment)
    requires CountSome(left, right, top, bottom) > 0
    requires WellFormed(FreeBlockRegion(left, right, top, bottom))
    requires RegionActive(FreeBlockRegion(left, right, top, bottom), a, foot, t)
    ensures a(ContactForce(foot, X, t)) == 0.0 && a(ContactForce(foot, Z, t)) == 0.0
    ensures left.Some? ==> left.value <= a(FootPos(foot, X, t)) && left.value <= HipAt(a, foot, t).x
    ensures right.Some? ==> a(FootPos(foot, X, t)) <= right.value && HipAt(a, foot, t).x <= right.value
    ensures top.Some? ==> a(FootPos(foot, Z, t)) <= top.value && HipAt(a, foot, t).z <= top.value
    ensures bottom.Some? ==> bottom.value <= a(FootPos(foot, Z, t)) && bottom.value <= HipAt(a, foot, t).z
  {
    FreeBlockContainment(left, right, top, bottom, FootAt(a, foot, t));
    FreeBlockContainment(left, right, top, bottom, HipAt(a, foot, t));
  }

  // ----- The body-region disjunct -----

  /** b - bodyRadius, entry by entry (hopper.py:334). */
  function ShrunkColumn(b: Column, radius: real): (r: Column)
    ensures |r| == |b| && forall i :: 0 <= i < |b| ==> r[i] == b[i] - radius
  {
    seq(|b|, i requires 0 <= i < |b| => b[i] - radius)
  }

  /** `_bodyRegionConstraints(disjunct, region, t)` (hopper.py:326-340): a
      region with friction contributes nothing; a free-space region keeps
      the centre of mass `bodyRadius` inside each of its inequality rows.
      The equality rows are not used. */
  function BodyRegionConstraints(reg: Region, t: nat, bodyRadius: real): (r: Result<seq<Constraint>, GeometryError>)
    ensures reg.mu != 0.0 ==> r == Success([])
    ensures reg.mu == 0.0 ==>
              (r.Success? <==> reg.A.Some? && reg.b.Some? && |reg.b.value| >= |reg.A.value|)
    ensures reg.mu == 0.0 && r.Success? ==> |r.value| == |reg.A.value|
  {
    if reg.mu != 0.0 then Success([])
    else if reg.A.None? then Failure(NoRows)
    else if reg.b.None? then Failure(MissingRhs)
    else if |reg.b.value| < |reg.A.value| then Failure(RhsTooShort)
    else Success(RowConstraints(reg.A.value, ShrunkColumn(reg.b.value, bodyRadius), Var(Pos(X, t)), Var(Pos(Z, t))))
  }

  /** The body rows hold iff the centre of mass clears every inequality
      face by bodyRadius; with a non-negative radius the centre of mass is
      then inside the region's inequality rows. */
  lemma BodyRegionMeaning(reg: Region, t: nat, bodyRadius: real, a: Assignment)
    requires reg.mu == 0.0 && reg.A.Some? && reg.b.Some? && |reg.b.value| >= |reg.A.value|
    ensures BodyRegionConstraints(reg, t, bodyRadius).Success?
    ensures AllHold(BodyRegionConstraints(reg, t, bodyRadius).value, a)
            <==> forall i :: 0 <= i < |reg.A.value| ==>
                   Dot(reg.A.value[i], Vec2(a(Pos(X, t)), a(Pos(Z, t)))) + bodyRadius <= reg.b.value[i]
    ensures bodyRadius >= 0.0 && AllHold(BodyRegionConstraints(reg, t, bodyRadius).value, a)
            ==> RowsHold(reg.A.value, reg.b.value, Vec2(a(Pos(X, t)), a(Pos(Z, t))))
  {
    assert Eval(Var(Pos(X, t)), a) == a(Pos(X, t)) && Eval(Var(Pos(Z, t)), a) == a(Pos(Z, t));
    RowConstraintsMeaning(reg.A.value, ShrunkColumn(reg.b.value, bodyRadius), Var(Pos(X, t)), Var(Pos(Z, t)), a);
  }

  /** `constructPyomoModel` builds the foot disjunct of every (region, foot,
      t) and, although the body disjunction itself is commented out
      (hopper.py:352), still builds the body disjunct of every (region, t)
      (hopper.py:343).  A region lets the model be built only when both
      succeed; neither depends on the foot or the sample. */
  predicate RegionBuilds(reg: Region, bodyRadius: real)
  {
    FootRegionConstraints(reg, 0, 1).Success? && BodyRegionConstraints(reg, 1, bodyRadius).Success?
  }

  /** A catalog lets the model be built when every region does. */
  predicate CatalogBuilds(regions: seq<Region>, bodyRadius: real)
  {
    forall k :: 0 <= k < |regions| ==> RegionBuilds(regions[k], bodyRadius)
  }

  /** Appending a region keeps a catalog buildable iff the region is. */
  lemma CatalogBuildsSnoc(regions: seq<Region>, reg: Region, bodyRadius: real)
    ensures CatalogBuilds(regions + [reg], bodyRadius) <==> CatalogBuilds(regions, bodyRadius) && RegionBuilds(reg, bodyRadius)
  {
    if CatalogBuilds(regions + [reg], bodyRadius) {
      assert (regions + [reg])[|regions|] == reg;
      forall k | 0 <= k < |regions| ensures RegionBuilds(regions[k], bodyRadius) {
        assert (regions + [reg])[k] == regions[k];
      }
    }
  }

  /** Every free block `addFreeBlock` accepts lets the model be built. */
  lemma FreeBlockBuilds(left: Option<real>, right: Option<real>, top: Option<real>, bottom: Option<real>, bodyRadius: real)
    requires CountSome(left, right, top, bottom) > 0
    ensures RegionBuilds(FreeBlockRegion(left, right, top, bottom), bodyRadius)
  {
    var reg := FreeBlockRegion(left, right, top, bottom);
    assert |reg.A.value| == |reg.b.value|;
  }

  /** Every platform lets the model be built, whatever its friction. */
  lemma PlatformBuilds(start: real, end: real, height: real, mu: real, bodyRadius: real)
    ensures RegionBuilds(PlatformRegion(start, end, height, mu), bodyRadius)
  {
  }

  /** A well-formed region is not enough: a frictionless region given by
      equality rows alone yields a foot disjunct, but its body disjunct
      reads the missing `A` and `b`, so the model cannot be built. */
  lemma EqualityOnlyFreeRegionDoesNotBuild(bodyRadius: real)
    ensures var reg := Region(None, None, Some([Row(0.0, 1.0)]), Some([0.0]), Vec2(0.0, 0.0), 0.0);
            WellFormed(reg) && FootRegionConstraints(reg, 0, 1).Success? && !RegionBuilds(reg, bodyRadius)
  {
  }

  /** The regions `_bodyRegionDisjunction` lists (hopper.py:346-351): the
      free-space ones, in catalog order. */
  function BodyRegionCandidates(regions: seq<Region>): (r: seq<nat>)
    ensures forall i :: 0 <= i < |r| ==> r[i] < |regions|
    ensures forall k: nat :: k < |regions| ==> (k in r <==> regions[k].mu == 0.0)
    ensures forall i, j :: 0 <= i < j < |r| ==> r[i] < r[j]
  {
    if regions == [] then []
    else
      var n := |regions| - 1;
      var before := BodyRegionCandidates(regions[..n]);
      assert forall k: nat :: k < n ==> regions[..n][k] == regions[k];
      before + (if regions[n].mu == 0.0 then [n] else [])
  }
}
