/** The trajectory rules of `Hopper.constructPyomoModel` (hopper.py:98-256).

    Each Pyomo constraint rule becomes a function from its indices to a
    `Constraint`; a rule that returns `Constraint.Skip` at the last sample
    returns `None` there.  The lemmas say what each generated constraint
    means for a trajectory, that the stepping rules are exactly the ones
    absent at t = N, and that no rule ever reads the final dt. */
module Dynamics {
  import opened Wrappers
  import opened Expressions
  import opened Variables

  /** The constants the rules read: horizon N, number of feet, the
      dimensionless moment of inertia and each foot's hip offset. */
  datatype Config = Config(N: nat, nFeet: nat, momentOfInertia: real, hipOffset: seq<Vec2>)

  predicate ValidConfig(c: Config)
  {
    c.N >= 1 && c.momentOfInertia > 0.0 && |c.hipOffset| == c.nFeet
  }

  /** g in `_forceRule`: -1 on z, 0 on x. */
  function Gravity(i: Axis): real
  {
    if i == Z then -1.0 else 0.0
  }

  // ----- Rules stated at every sample -----

  /** The generator `m.f[foot, i, t] for foot in m.feet`. */
  function ForceTerm(i: Axis, t: nat): nat -> Expr
  {
    (k: nat) => Var(ContactForce(k, i, t))
  }

  /** `_forceRule` (hopper.py:180-182). */
  function ForceRule(nFeet: nat, i: Axis, t: nat): Constraint
  {
    Eq(Var(NetForce(i, t)), Add(SumOver(nFeet, ForceTerm(i, t)), Const(Gravity(i))))
  }

  function TorqueTerm(t: nat): nat -> Expr
  {
    (k: nat) => Sub(Mul(Var(FootRelCom(k, X, t)), Var(ContactForce(k, Z, t))),
             Mul(Var(FootRelCom(k, Z, t)), Var(ContactForce(k, X, t))))
  }

  /** `_momentRule` (hopper.py:170-171). */
  function MomentRule(nFeet: nat, t: nat): Constraint
  {
    Eq(Var(NetTorque(t)), SumOver(nFeet, TorqueTerm(t)))
  }

  /** `_footPositionDefinition` (hopper.py:198-199). */
  function FootPositionDefinition(foot: nat, i: Axis, t: nat): Constraint
  {
    Eq(Var(FootPos(foot, i, t)), Add(Add(Var(Rel(foot, i, t)), Var(Hip(foot, i, t))), Var(Pos(i, t))))
  }

  /** `_footRelativeToCOMDefinition` (hopper.py:209-210). */
  function FootRelativeToComDefinition(foot: nat, i: Axis, t: nat): Constraint
  {
    Eq(Var(FootRelCom(foot, i, t)), Add(Var(Rel(foot, i, t)), Var(Hip(foot, i, t))))
  }

  /** `_hipPositionRule` (hopper.py:217-221). */
  function HipPositionRule(offset: Vec2, foot: nat, i: Axis, t: nat): Constraint
  {
    if i == X then
      Eq(Var(Hip(foot, X, t)), Add(Mul(Const(offset.x), Var(Cth(t))), Mul(Const(offset.z), Var(Sth(t)))))
    else
      Eq(Var(Hip(foot, Z, t)), Sub(Mul(Const(offset.z), Var(Cth(t))), Mul(Const(offset.x), Var(Sth(t)))))
  }

  // ----- Rules skipped at the last sample -----

  /** `m.dt[t]/2` */
  function HalfDt(t: nat): Expr
  {
    Mul(Var(Dt(t)), Const(0.5))
  }

  /** `v_mid = v[i,t] + dt[t]/2*F[i,t]` */
  function VMid(i: Axis, t: nat): Expr
  {
    Add(Var(Vel(i, t)), Mul(HalfDt(t), Var(NetForce(i, t))))
  }

  /** `m.dt[t]/(2*momentOfInertia)` */
  function InertiaDt(inertia: real, t: nat): Expr
    requires inertia != 0.0
  {
    Mul(Var(Dt(t)), Const(1.0 / (2.0 * inertia)))
  }

  /** `w_mid = w[t] + dt[t]/(2*I)*T[t]` */
  function WMid(inertia: real, t: nat): Expr
    requires inertia != 0.0
  {
    Add(Var(Omega(t)), Mul(InertiaDt(inertia, t), Var(NetTorque(t))))
  }

  /** `_positionRule` (hopper.py:190-195). */
  function PositionRule(N: nat, i: Axis, t: nat): (c: Option<Constraint>)
    requires 1 <= t <= N
    ensures c.None? <==> t == N
  {
    if t == N then None
    else Some(Eq(Var(Pos(i, t + 1)), Add(Var(Pos(i, t)), Mul(Var(Dt(t)), VMid(i, t)))))
  }

  /** `_velocityRule` (hopper.py:231-236). */
  function VelocityRule(N: nat, i: Axis, t: nat): (c: Option<Constraint>)
    requires 1 <= t <= N
    ensures c.None? <==> t == N
  {
    if t == N then None
    else Some(Eq(Var(Vel(i, t + 1)), Add(VMid(i, t), Mul(HalfDt(t), Var(NetForce(i, t + 1))))))
  }

  /** `_angularVelocityRule` (hopper.py:240-245). */
  function AngularVelocityRule(N: nat, inertia: real, t: nat): (c: Option<Constraint>)
    requires 1 <= t <= N && inertia != 0.0
    ensures c.None? <==> t == N
  {
    if t == N then None
    else Some(Eq(Var(Omega(t + 1)), Add(WMid(inertia, t), Mul(InertiaDt(inertia, t), Var(NetTorque(t + 1))))))
  }

  /** `_orientationRule` (hopper.py:249-254). */
  function OrientationRule(N: nat, inertia: real, t: nat): (c: Option<Constraint>)
    requires 1 <= t <= N && inertia != 0.0
    ensures c.None? <==> t == N
  {
    if t == N then None
    else Some(Eq(Var(Th(t + 1)), Add(Var(Th(t)), Mul(Var(Dt(t)), WMid(inertia, t)))))
  }

  /** `_footPositionRule` (hopper.py:202-206). */
  function FootPositionRule(N: nat, foot: nat, i: Axis, t: nat): (c: Option<Constraint>)
    requires 1 <= t <= N
    ensures c.None? <==> t == N
  {
    if t == N then None
    else Some(Eq(Var(FootPos(foot, i, t + 1)),
                 Add(Var(FootPos(foot, i, t)), Mul(Var(Dt(t)), Var(RelVel(foot, i, t))))))
  }

  /** `_footVelocityRule` (hopper.py:224-228). */
  function FootVelocityRule(N: nat, foot: nat, i: Axis, t: nat): (c: Option<Constraint>)
    requires 1 <= t <= N
    ensures c.None? <==> t == N
  {
    if t == N then None
    else Some(Eq(Var(RelVel(foot, i, t + 1)),
                 Add(Var(RelVel(foot, i, t)),
                     Mul(Mul(Const(0.5), Var(Dt(t))), Add(Var(RelAcc(foot, i, t)), Var(RelAcc(foot, i, t + 1)))))))
  }

  // ----- The constraints a sample contributes -----

  /** What Pyomo keeps of a rule's outcomes: `Constraint.Skip` adds nothing. */
  function Generated(os: seq<Option<Constraint>>): (cs: seq<Constraint>)
    ensures |cs| <= |os|
    ensures forall c :: c in cs ==> Some(c) in os
  {
    if os == [] then []
    else (if os[0].Some? then [os[0].value] else []) + Generated(os[1..])
  }

  lemma {:induction false} GeneratedAllSome(os: seq<Option<Constraint>>)
    requires forall i :: 0 <= i < |os| ==> os[i].Some?
    ensures |Generated(os)| == |os|
    ensures forall i :: 0 <= i < |os| ==> Generated(os)[i] == os[i].value
  {
    if os != [] {
      GeneratedAllSome(os[1..]);
    }
  }

  lemma {:induction false} GeneratedAllNone(os: seq<Option<Constraint>>)
    requires forall i :: 0 <= i < |os| ==> os[i].None?
    ensures Generated(os) == []
  {
    if os != [] {
      GeneratedAllNone(os[1..]);
    }
  }

  /** The rules skipped at the last sample, for the centre of mass. */
  function BodySteppingRules(cfg: Config, t: nat): (os: seq<Option<Constraint>>)
    requires ValidConfig(cfg) && 1 <= t <= cfg.N
    ensures |os| == 6
  {
    TranslationRules(cfg.N, X, t) + TranslationRules(cfg.N, Z, t) + RotationRules(cfg, t)
  }

  function TranslationRules(N: nat, i: Axis, t: nat): (os: seq<Option<Constraint>>)
    requires 1 <= t <= N
  {
    [PositionRule(N, i, t), VelocityRule(N, i, t)]
  }

  function RotationRules(cfg: Config, t: nat): (os: seq<Option<Constraint>>)
    requires ValidConfig(cfg) && 1 <= t <= cfg.N
  {
    [AngularVelocityRule(cfg.N, cfg.momentOfInertia, t), OrientationRule(cfg.N, cfg.momentOfInertia, t)]
  }

  /** The rules stated at every sample, for the centre of mass. */
  function BalanceRules(cfg: Config, t: nat): seq<Constraint>
  {
    [ForceRule(cfg.nFeet, X, t), ForceRule(cfg.nFeet, Z, t), MomentRule(cfg.nFeet, t)]
  }

  /** The centre-of-mass constraints indexed by sample t. */
  function BodyConstraintsAt(cfg: Config, t: nat): seq<Constraint>
    requires ValidConfig(cfg) && 1 <= t <= cfg.N
  {
    BalanceRules(cfg, t) + Generated(BodySteppingRules(cfg, t))
  }

  function FootSteppingRules(cfg: Config, foot: nat, t: nat): (os: seq<Option<Constraint>>)
    requires ValidConfig(cfg) && 1 <= t <= cfg.N
    ensures |os| == 4
  {
    [FootPositionRule(cfg.N, foot, X, t), FootPositionRule(cfg.N, foot, Z, t),
     FootVelocityRule(cfg.N, foot, X, t), FootVelocityRule(cfg.N, foot, Z, t)]
  }

  function FootKinematicRules(cfg: Config, foot: nat, t: nat): seq<Constraint>
    requires ValidConfig(cfg) && foot < cfg.nFeet
  {
    [FootPositionDefinition(foot, X, t), FootPositionDefinition(foot, Z, t),
     FootRelativeToComDefinition(foot, X, t), FootRelativeToComDefinition(foot, Z, t),
     HipPositionRule(cfg.hipOffset[foot], foot, X, t), HipPositionRule(cfg.hipOffset[foot], foot, Z, t)]
  }

  /** The constraints of one foot indexed by sample t. */
  function FootConstraintsAt(cfg: Config, foot: nat, t: nat): seq<Constraint>
    requires ValidConfig(cfg) && foot < cfg.nFeet && 1 <= t <= cfg.N
  {
    FootKinematicRules(cfg, foot, t) + Generated(FootSteppingRules(cfg, foot, t))
  }

  function FeetConstraintsAt(cfg: Config, t: nat): seq<Constraint>
    requires ValidConfig(cfg) && 1 <= t <= cfg.N
  {
    ConcatN(cfg.nFeet, FootPart(cfg, t))
  }

  function FootPart(cfg: Config, t: nat): nat -> seq<Constraint>
    requires ValidConfig(cfg) && 1 <= t <= cfg.N
  {
    (foot: nat) => if foot < cfg.nFeet then FootConstraintsAt(cfg, foot, t) else []
  }

  /** Every non-disjunctive constraint indexed by sample t. */
  function ConstraintsAt(cfg: Config, t: nat): seq<Constraint>
    requires ValidConfig(cfg) && 1 <= t <= cfg.N
  {
    BodyConstraintsAt(cfg, t) + FeetConstraintsAt(cfg, t)
  }

  // ----- What the constraints mean for a trajectory -----

  /** Each foot's force on axis i, as a function of the foot. */
  function ForceOf(a: Assignment, i: Axis, t: nat): nat -> real
  {
    (k: nat) => a(ContactForce(k, i, t))
  }

  /** Each foot's torque about the centre of mass: the 2-D cross product of
      its position relative to the centre of mass with its force. */
  function TorqueOf(a: Assignment, t: nat): nat -> real
  {
    (k: nat) => a(FootRelCom(k, X, t)) * a(ContactForce(k, Z, t)) - a(FootRelCom(k, Z, t)) * a(ContactForce(k, X, t))
  }

  /** Force and torque balance at sample t. */
  predicate BalanceAt(cfg: Config, a: Assignment, t: nat)
  {
    && a(NetForce(X, t)) == RealSum(cfg.nFeet, ForceOf(a, X, t)) + Gravity(X)
    && a(NetForce(Z, t)) == RealSum(cfg.nFeet, ForceOf(a, Z, t)) + Gravity(Z)
    && a(NetTorque(t)) == RealSum(cfg.nFeet, TorqueOf(a, t))
  }

  /** Semi-implicit trapezoidal update of position and velocity on axis i. */
  predicate TranslationStep(a: Assignment, i: Axis, t: nat)
  {
    var dt := a(Dt(t));
    && a(Vel(i, t + 1)) == a(Vel(i, t)) + dt / 2.0 * (a(NetForce(i, t)) + a(NetForce(i, t + 1)))
    && a(Pos(i, t + 1)) == a(Pos(i, t)) + dt * (a(Vel(i, t)) + dt / 2.0 * a(NetForce(i, t)))
  }

  /** The same update for orientation and angular velocity, torque scaled by
      the moment of inertia. */
  predicate RotationStep(a: Assignment, inertia: real, t: nat)
    requires inertia != 0.0
  {
    var dt := a(Dt(t));
    && a(Omega(t + 1)) == a(Omega(t)) + dt / (2.0 * inertia) * (a(NetTorque(t)) + a(NetTorque(t + 1)))
    && a(Th(t + 1)) == a(Th(t)) + dt * (a(Omega(t)) + dt / (2.0 * inertia) * a(NetTorque(t)))
  }

  /** foot = p + hip + r and footRelativeToCOM = p + hip on axis i. */
  predicate FootOnAxis(a: Assignment, foot: nat, i: Axis, t: nat)
  {
    && a(FootPos(foot, i, t)) == a(Rel(foot, i, t)) + a(Hip(foot, i, t)) + a(Pos(i, t))
    && a(FootRelCom(foot, i, t)) == a(Rel(foot, i, t)) + a(Hip(foot, i, t))
  }

  /** The hip offset rotated by (cth, sth). */
  predicate HipRotated(a: Assignment, offset: Vec2, foot: nat, t: nat)
  {
    && a(Hip(foot, X, t)) == offset.x * a(Cth(t)) + offset.z * a(Sth(t))
    && a(Hip(foot, Z, t)) == offset.z * a(Cth(t)) - offset.x * a(Sth(t))
  }

  predicate FootKinematics(a: Assignment, offset: Vec2, foot: nat, t: nat)
  {
    FootOnAxis(a, foot, X, t) && FootOnAxis(a, foot, Z, t) && HipRotated(a, offset, foot, t)
  }

  /** Foot position integrates pd explicitly; pd integrates pdd by the
      trapezoidal rule. */
  predicate FootStepOnAxis(a: Assignment, foot: nat, i: Axis, t: nat)
  {
    && a(FootPos(foot, i, t + 1)) == a(FootPos(foot, i, t)) + a(Dt(t)) * a(RelVel(foot, i, t))
    && a(RelVel(foot, i, t + 1))
       == a(RelVel(foot, i, t)) + a(Dt(t)) / 2.0 * (a(RelAcc(foot, i, t)) + a(RelAcc(foot, i, t + 1)))
  }

  predicate FootStep(a: Assignment, foot: nat, t: nat)
  {
    FootStepOnAxis(a, foot, X, t) && FootStepOnAxis(a, foot, Z, t)
  }

  /** Everything the model requires of sample t: balance and kinematics
      always, the integration steps only before the last sample. */
  predicate StepRelations(cfg: Config, a: Assignment, t: nat)
    requires ValidConfig(cfg)
  {
    && BalanceAt(cfg, a, t)
    && (forall foot :: 0 <= foot < cfg.nFeet ==> FootKinematics(a, cfg.hipOffset[foot], foot, t))
    && (t < cfg.N ==>
          && TranslationStep(a, X, t) && TranslationStep(a, Z, t)
          && RotationStep(a, cfg.momentOfInertia, t)
          && (forall foot :: 0 <= foot < cfg.nFeet ==> FootStep(a, foot, t)))
  }

  /** The force balance constraint holds iff F = sum of the feet's forces + g. */
  lemma ForceRuleMeaning(nFeet: nat, i: Axis, t: nat, a: Assignment)
    ensures Holds(ForceRule(nFeet, i, t), a) <==> a(NetForce(i, t)) == RealSum(nFeet, ForceOf(a, i, t)) + Gravity(i)
  {
    var sum := SumOver(nFeet, ForceTerm(i, t));
    forall k | 0 <= k < nFeet ensures Eval(ForceTerm(i, t)(k), a) == ForceOf(a, i, t)(k) {
      assert Eval(Var(ContactForce(k, i, t)), a) == a(ContactForce(k, i, t));
    }
    EvalSumOver(nFeet, ForceTerm(i, t), ForceOf(a, i, t), a);
    assert Eval(Add(sum, Const(Gravity(i))), a) == Eval(sum, a) + Gravity(i);
    assert Eval(Var(NetForce(i, t)), a) == a(NetForce(i, t));
  }

  /** The torque constraint holds iff T is the sum of the feet's torques. */
  lemma MomentRuleMeaning(nFeet: nat, t: nat, a: Assignment)
    ensures Holds(MomentRule(nFeet, t), a) <==> a(NetTorque(t)) == RealSum(nFeet, TorqueOf(a, t))
  {
    forall k | 0 <= k < nFeet ensures Eval(TorqueTerm(t)(k), a) == TorqueOf(a, t)(k) {
      var xz := Mul(Var(FootRelCom(k, X, t)), Var(ContactForce(k, Z, t)));
      var zx := Mul(Var(FootRelCom(k, Z, t)), Var(ContactForce(k, X, t)));
      assert Eval(Var(FootRelCom(k, X, t)), a) == a(FootRelCom(k, X, t));
      assert Eval(Var(FootRelCom(k, Z, t)), a) == a(FootRelCom(k, Z, t));
      assert Eval(Var(ContactForce(k, X, t)), a) == a(ContactForce(k, X, t));
      assert Eval(Var(ContactForce(k, Z, t)), a) == a(ContactForce(k, Z, t));
      assert Eval(xz, a) == a(FootRelCom(k, X, t)) * a(ContactForce(k, Z, t));
      assert Eval(zx, a) == a(FootRelCom(k, Z, t)) * a(ContactForce(k, X, t));
      assert Eval(Sub(xz, zx), a) == Eval(xz, a) - Eval(zx, a);
    }
    EvalSumOver(nFeet, TorqueTerm(t), TorqueOf(a, t), a);
    assert Eval(Var(NetTorque(t)), a) == a(NetTorque(t));
  }

  /** Before the last sample, the position and velocity rules hold iff the
      trapezoidal update does. */
  lemma TranslationRulesMeaning(N: nat, i: Axis, t: nat, a: Assignment)
    requires 1 <= t < N
    ensures Holds(PositionRule(N, i, t).value, a) && Holds(VelocityRule(N, i, t).value, a)
            <==> TranslationStep(a, i, t)
  {
    var dt, v, v1, f, f1, r, r1 := a(Dt(t)), a(Vel(i, t)), a(Vel(i, t + 1)), a(NetForce(i, t)), a(NetForce(i, t + 1)), a(Pos(i, t)), a(Pos(i, t + 1));
    assert Eval(Var(Dt(t)), a) == dt;
    assert Eval(Var(Vel(i, t)), a) == v && Eval(Var(Vel(i, t + 1)), a) == v1;
    assert Eval(Var(NetForce(i, t)), a) == f && Eval(Var(NetForce(i, t + 1)), a) == f1;
    assert Eval(Var(Pos(i, t)), a) == r && Eval(Var(Pos(i, t + 1)), a) == r1;
    assert Eval(HalfDt(t), a) == dt / 2.0;
    assert Eval(Mul(HalfDt(t), Var(NetForce(i, t))), a) == dt / 2.0 * f;
    assert Eval(Mul(HalfDt(t), Var(NetForce(i, t + 1))), a) == dt / 2.0 * f1;
    assert Eval(VMid(i, t), a) == v + dt / 2.0 * f;
    assert Eval(Mul(Var(Dt(t)), VMid(i, t)), a) == dt * (v + dt / 2.0 * f);
    assert Holds(PositionRule(N, i, t).value, a) <==> r1 == r + dt * (v + dt / 2.0 * f);
    assert Holds(VelocityRule(N, i, t).value, a) <==> v1 == v + dt / 2.0 * f + dt / 2.0 * f1;
    assert dt / 2.0 * f + dt / 2.0 * f1 == dt / 2.0 * (f + f1);
  }

  lemma RotationRulesMeaning(N: nat, inertia: real, t: nat, a: Assignment)
    requires 1 <= t < N && inertia != 0.0
    ensures Holds(AngularVelocityRule(N, inertia, t).value, a) && Holds(OrientationRule(N, inertia, t).value, a)
            <==> RotationStep(a, inertia, t)
  {
    var dt, w, w1, tq, tq1, th, th1 := a(Dt(t)), a(Omega(t)), a(Omega(t + 1)), a(NetTorque(t)), a(NetTorque(t + 1)), a(Th(t)), a(Th(t + 1));
    var s := dt / (2.0 * inertia);
    assert Eval(Var(Dt(t)), a) == dt;
    assert Eval(Var(Omega(t)), a) == w && Eval(Var(Omega(t + 1)), a) == w1;
    assert Eval(Var(NetTorque(t)), a) == tq && Eval(Var(NetTorque(t + 1)), a) == tq1;
    assert Eval(Var(Th(t)), a) == th && Eval(Var(Th(t + 1)), a) == th1;
    assert dt * (1.0 / (2.0 * inertia)) == s;
    assert Eval(InertiaDt(inertia, t), a) == s;
    assert Eval(Mul(InertiaDt(inertia, t), Var(NetTorque(t))), a) == s * tq;
    assert Eval(Mul(InertiaDt(inertia, t), Var(NetTorque(t + 1))), a) == s * tq1;
    assert Eval(WMid(inertia, t), a) == w + s * tq;
    assert Eval(Mul(Var(Dt(t)), WMid(inertia, t)), a) == dt * (w + s * tq);
    assert Holds(OrientationRule(N, inertia, t).value, a) <==> th1 == th + dt * (w + s * tq);
    assert Holds(AngularVelocityRule(N, inertia, t).value, a) <==> w1 == w + s * tq + s * tq1;
    assert s * tq + s * tq1 == s * (tq + tq1);
  }

  lemma FootOnAxisMeaning(foot: nat, i: Axis, t: nat, a: Assignment)
    ensures Holds(FootPositionDefinition(foot, i, t), a) && Holds(FootRelativeToComDefinition(foot, i, t), a)
            <==> FootOnAxis(a, foot, i, t)
  {
    var ph := Add(Var(Rel(foot, i, t)), Var(Hip(foot, i, t)));
    assert Eval(Var(Rel(foot, i, t)), a) == a(Rel(foot, i, t));
    assert Eval(Var(Hip(foot, i, t)), a) == a(Hip(foot, i, t));
    assert Eval(Var(Pos(i, t)), a) == a(Pos(i, t));
    assert Eval(Var(FootPos(foot, i, t)), a) == a(FootPos(foot, i, t));
    assert Eval(Var(FootRelCom(foot, i, t)), a) == a(FootRelCom(foot, i, t));
    assert Eval(ph, a) == a(Rel(foot, i, t)) + a(Hip(foot, i, t));
    assert Eval(Add(ph, Var(Pos(i, t))), a) == a(Rel(foot, i, t)) + a(Hip(foot, i, t)) + a(Pos(i, t));
  }

  lemma HipRotatedMeaning(off: Vec2, foot: nat, t: nat, a: Assignment)
    ensures Holds(HipPositionRule(off, foot, X, t), a) && Holds(HipPositionRule(off, foot, Z, t), a)
            <==> HipRotated(a, off, foot, t)
  {
    assert Eval(Var(Cth(t)), a) == a(Cth(t)) && Eval(Var(Sth(t)), a) == a(Sth(t));
    assert Eval(Var(Hip(foot, X, t)), a) == a(Hip(foot, X, t));
    assert Eval(Var(Hip(foot, Z, t)), a) == a(Hip(foot, Z, t));
    assert Eval(Mul(Const(off.x), Var(Cth(t))), a) == off.x * a(Cth(t));
    assert Eval(Mul(Const(off.z), Var(Sth(t))), a) == off.z * a(Sth(t));
    assert Eval(Mul(Const(off.z), Var(Cth(t))), a) == off.z * a(Cth(t));
    assert Eval(Mul(Const(off.x), Var(Sth(t))), a) == off.x * a(Sth(t));
  }

  lemma FootKinematicRulesMeaning(cfg: Config, foot: nat, t: nat, a: Assignment)
    requires ValidConfig(cfg) && foot < cfg.nFeet
    ensures AllHold(FootKinematicRules(cfg, foot, t), a) <==> FootKinematics(a, cfg.hipOffset[foot], foot, t)
  {
    var rules := FootKinematicRules(cfg, foot, t);
    FootOnAxisMeaning(foot, X, t, a);
    FootOnAxisMeaning(foot, Z, t, a);
    HipRotatedMeaning(cfg.hipOffset[foot], foot, t, a);
    if AllHold(rules, a) {
      assert Holds(rules[0], a) && Holds(rules[1], a) && Holds(rules[2], a);
      assert Holds(rules[3], a) && Holds(rules[4], a) && Holds(rules[5], a);
    }
  }

  lemma FootStepOnAxisMeaning(N: nat, foot: nat, i: Axis, t: nat, a: Assignment)
    requires 1 <= t < N
    ensures Holds(FootPositionRule(N, foot, i, t).value, a) && Holds(FootVelocityRule(N, foot, i, t).value, a)
            <==> FootStepOnAxis(a, foot, i, t)
  {
    var dt := a(Dt(t));
    var acc := Add(Var(RelAcc(foot, i, t)), Var(RelAcc(foot, i, t + 1)));
    assert Eval(Var(Dt(t)), a) == dt;
    assert Eval(Var(RelVel(foot, i, t)), a) == a(RelVel(foot, i, t));
    assert Eval(Var(RelVel(foot, i, t + 1)), a) == a(RelVel(foot, i, t + 1));
    assert Eval(Var(FootPos(foot, i, t)), a) == a(FootPos(foot, i, t));
    assert Eval(Var(FootPos(foot, i, t + 1)), a) == a(FootPos(foot, i, t + 1));
    assert Eval(Var(RelAcc(foot, i, t)), a) == a(RelAcc(foot, i, t));
    assert Eval(Var(RelAcc(foot, i, t + 1)), a) == a(RelAcc(foot, i, t + 1));
    assert Eval(Mul(Var(Dt(t)), Var(RelVel(foot, i, t))), a) == dt * a(RelVel(foot, i, t));
    assert Eval(Mul(Const(0.5), Var(Dt(t))), a) == dt / 2.0;
    assert Eval(acc, a) == a(RelAcc(foot, i, t)) + a(RelAcc(foot, i, t + 1));
    assert Eval(Mul(Mul(Const(0.5), Var(Dt(t))), acc), a) == dt / 2.0 * (a(RelAcc(foot, i, t)) + a(RelAcc(foot, i, t + 1)));
  }

  lemma FootSteppingRulesMeaning(cfg: Config, foot: nat, t: nat, a: Assignment)
    requires ValidConfig(cfg) && 1 <= t <= cfg.N
    ensures AllHold(Generated(FootSteppingRules(cfg, foot, t)), a) <==> (t < cfg.N ==> FootStep(a, foot, t))
  {
    var os := FootSteppingRules(cfg, foot, t);
    if t < cfg.N {
      GeneratedAllSome(os);
      var cs := Generated(os);
      FootStepOnAxisMeaning(cfg.N, foot, X, t, a);
      FootStepOnAxisMeaning(cfg.N, foot, Z, t, a);
      if AllHold(cs, a) {
        assert Holds(cs[0], a) && Holds(cs[1], a) && Holds(cs[2], a) && Holds(cs[3], a);
      }
    } else {
      GeneratedAllNone(os);
    }
  }

  lemma FootRulesMeaning(cfg: Config, foot: nat, t: nat, a: Assignment)
    requires ValidConfig(cfg) && foot < cfg.nFeet && 1 <= t <= cfg.N
    ensures AllHold(FootConstraintsAt(cfg, foot, t), a)
            <==> FootKinematics(a, cfg.hipOffset[foot], foot, t) && (t < cfg.N ==> FootStep(a, foot, t))
  {
    AllHoldConcat(FootKinematicRules(cfg, foot, t), Generated(FootSteppingRules(cfg, foot, t)), a);
    FootKinematicRulesMeaning(cfg, foot, t, a);
    FootSteppingRulesMeaning(cfg, foot, t, a);
  }

  lemma BalanceRulesMeaning(cfg: Config, t: nat, a: Assignment)
    ensures AllHold(BalanceRules(cfg, t), a) <==> BalanceAt(cfg, a, t)
  {
    var balance := BalanceRules(cfg, t);
    ForceRuleMeaning(cfg.nFeet, X, t, a);
    ForceRuleMeaning(cfg.nFeet, Z, t, a);
    MomentRuleMeaning(cfg.nFeet, t, a);
    if AllHold(balance, a) {
      assert Holds(balance[0], a) && Holds(balance[1], a) && Holds(balance[2], a);
    }
  }

  lemma {:induction false} GeneratedConcat(os: seq<Option<Constraint>>, ps: seq<Option<Constraint>>)
    ensures Generated(os + ps) == Generated(os) + Generated(ps)
  {
    if os == [] {
      assert os + ps == ps;
    } else {
      assert (os + ps)[0] == os[0];
      assert (os + ps)[1..] == os[1..] + ps;
      GeneratedConcat(os[1..], ps);
    }
  }

  /** Two present rules hold together iff each holds. */
  lemma GeneratedPairMeaning(o1: Option<Constraint>, o2: Option<Constraint>, a: Assignment)
    requires o1.Some? && o2.Some?
    ensures AllHold(Generated([o1, o2]), a) <==> Holds(o1.value, a) && Holds(o2.value, a)
  {
    GeneratedAllSome([o1, o2]);
  }

  lemma TranslationPairMeaning(N: nat, i: Axis, t: nat, a: Assignment)
    requires 1 <= t <= N
    ensures AllHold(Generated(TranslationRules(N, i, t)), a) <==> (t < N ==> TranslationStep(a, i, t))
  {
    if t < N {
      GeneratedPairMeaning(PositionRule(N, i, t), VelocityRule(N, i, t), a);
      TranslationRulesMeaning(N, i, t, a);
    } else {
      GeneratedAllNone(TranslationRules(N, i, t));
    }
  }

  lemma RotationPairMeaning(cfg: Config, t: nat, a: Assignment)
    requires ValidConfig(cfg) && 1 <= t <= cfg.N
    ensures AllHold(Generated(RotationRules(cfg, t)), a) <==> (t < cfg.N ==> RotationStep(a, cfg.momentOfInertia, t))
  {
    if t < cfg.N {
      GeneratedPairMeaning(AngularVelocityRule(cfg.N, cfg.momentOfInertia, t), OrientationRule(cfg.N, cfg.momentOfInertia, t), a);
      RotationRulesMeaning(cfg.N, cfg.momentOfInertia, t, a);
    } else {
      GeneratedAllNone(RotationRules(cfg, t));
    }
  }

  lemma BodySteppingRulesMeaning(cfg: Config, t: nat, a: Assignment)
    requires ValidConfig(cfg) && 1 <= t <= cfg.N
    ensures AllHold(Generated(BodySteppingRules(cfg, t)), a)
            <==> (t < cfg.N ==> TranslationStep(a, X, t) && TranslationStep(a, Z, t)
                                && RotationStep(a, cfg.momentOfInertia, t))
  {
    var tx, tz, rot := TranslationRules(cfg.N, X, t), TranslationRules(cfg.N, Z, t), RotationRules(cfg, t);
    GeneratedConcat(tx, tz);
    GeneratedConcat(tx + tz, rot);
    AllHoldConcat(Generated(tx), Generated(tz), a);
    AllHoldConcat(Generated(tx) + Generated(tz), Generated(rot), a);
    TranslationPairMeaning(cfg.N, X, t, a);
    TranslationPairMeaning(cfg.N, Z, t, a);
    RotationPairMeaning(cfg, t, a);
  }

  /** A trajectory satisfies every constraint indexed by t iff balance and
      kinematics hold at t and, before the last sample, the integration
      steps from t to t + 1 hold. */
  lemma ConstraintsAtMeaning(cfg: Config, t: nat, a: Assignment)
    requires ValidConfig(cfg) && 1 <= t <= cfg.N
    ensures AllHold(ConstraintsAt(cfg, t), a) <==> StepRelations(cfg, a, t)
  {
    AllHoldConcat(BodyConstraintsAt(cfg, t), FeetConstraintsAt(cfg, t), a);
    AllHoldConcat(BalanceRules(cfg, t), Generated(BodySteppingRules(cfg, t)), a);
    BalanceRulesMeaning(cfg, t, a);
    BodySteppingRulesMeaning(cfg, t, a);
    AllHoldConcatN(cfg.nFeet, FootPart(cfg, t), a);
    forall foot | 0 <= foot < cfg.nFeet
      ensures AllHold(FootPart(cfg, t)(foot), a)
              <==> FootKinematics(a, cfg.hipOffset[foot], foot, t) && (t < cfg.N ==> FootStep(a, foot, t))
    {
      FootRulesMeaning(cfg, foot, t, a);
    }
  }

  // ----- The final dt -----

  /** A sum depends only on its terms' values. */
  lemma {:induction false} RealSumCongruent(n: nat, f: nat -> real, g: nat -> real)
    requires forall k :: 0 <= k < n ==> f(k) == g(k)
    ensures RealSum(n, f) == RealSum(n, g)
  {
    if n > 0 {
      RealSumCongruent(n - 1, f, g);
    }
  }

  /** Two trajectories that differ at most in dt[N]. */
  ghost predicate AgreeExceptFinalDt(N: nat, a: Assignment, b: Assignment)
  {
    forall v :: v != Dt(N) ==> a(v) == b(v)
  }

  /** No constraint of any sample reads dt[N]: whatever value it holds, the
      same trajectories satisfy the constraints.  This is why fixing it to 0
      (hopper.py:149-151), outside its bounds, changes nothing. */
  lemma FinalDtUnused(cfg: Config, t: nat, a: Assignment, b: Assignment)
    requires ValidConfig(cfg) && 1 <= t <= cfg.N
    requires AgreeExceptFinalDt(cfg.N, a, b)
    ensures AllHold(ConstraintsAt(cfg, t), a) <==> AllHold(ConstraintsAt(cfg, t), b)
  {
    ConstraintsAtMeaning(cfg, t, a);
    ConstraintsAtMeaning(cfg, t, b);
    StepRelationsIgnoreFinalDt(cfg, t, a, b);
  }

  lemma StepRelationsIgnoreFinalDt(cfg: Config, t: nat, a: Assignment, b: Assignment)
    requires ValidConfig(cfg) && 1 <= t <= cfg.N
    requires AgreeExceptFinalDt(cfg.N, a, b)
    ensures StepRelations(cfg, a, t) <==> StepRelations(cfg, b, t)
  {
    BalanceIgnoresFinalDt(cfg, t, a, b);
    forall foot | 0 <= foot < cfg.nFeet
      ensures FootKinematics(a, cfg.hipOffset[foot], foot, t) <==> FootKinematics(b, cfg.hipOffset[foot], foot, t)
    {
      KinematicsIgnoreFinalDt(cfg.N, cfg.hipOffset[foot], foot, t, a, b);
    }
    if t < cfg.N {
      forall foot | 0 <= foot < cfg.nFeet
        ensures FootStep(a, foot, t) <==> FootStep(b, foot, t)
      {
        FootStepIgnoresFinalDt(cfg.N, foot, X, t, a, b);
        FootStepIgnoresFinalDt(cfg.N, foot, Z, t, a, b);
      }
      TranslationIgnoresFinalDt(cfg.N, X, t, a, b);
      TranslationIgnoresFinalDt(cfg.N, Z, t, a, b);
      RotationIgnoresFinalDt(cfg.N, cfg.momentOfInertia, t, a, b);
    }
  }

  lemma BalanceIgnoresFinalDt(cfg: Config, t: nat, a: Assignment, b: Assignment)
    requires AgreeExceptFinalDt(cfg.N, a, b)
    ensures BalanceAt(cfg, a, t) <==> BalanceAt(cfg, b, t)
  {
    RealSumCongruent(cfg.nFeet, ForceOf(a, X, t), ForceOf(b, X, t));
    RealSumCongruent(cfg.nFeet, ForceOf(a, Z, t), ForceOf(b, Z, t));
    RealSumCongruent(cfg.nFeet, TorqueOf(a, t), TorqueOf(b, t));
  }

  lemma KinematicsIgnoreFinalDt(N: nat, offset: Vec2, foot: nat, t: nat, a: Assignment, b: Assignment)
    requires AgreeExceptFinalDt(N, a, b)
    ensures FootKinematics(a, offset, foot, t) <==> FootKinematics(b, offset, foot, t)
  {
  }

  lemma RotationIgnoresFinalDt(N: nat, inertia: real, t: nat, a: Assignment, b: Assignment)
    requires AgreeExceptFinalDt(N, a, b) && t < N && inertia != 0.0
    ensures RotationStep(a, inertia, t) <==> RotationStep(b, inertia, t)
  {
    assert a(Dt(t)) == b(Dt(t));
    assert a(Omega(t)) == b(Omega(t)) && a(Omega(t + 1)) == b(Omega(t + 1));
    assert a(NetTorque(t)) == b(NetTorque(t)) && a(NetTorque(t + 1)) == b(NetTorque(t + 1));
    assert a(Th(t)) == b(Th(t)) && a(Th(t + 1)) == b(Th(t + 1));
  }

  lemma TranslationIgnoresFinalDt(N: nat, i: Axis, t: nat, a: Assignment, b: Assignment)
    requires AgreeExceptFinalDt(N, a, b) && t < N
    ensures TranslationStep(a, i, t) <==> TranslationStep(b, i, t)
  {
    assert a(Dt(t)) == b(Dt(t));
    assert a(Vel(i, t)) == b(Vel(i, t)) && a(Vel(i, t + 1)) == b(Vel(i, t + 1));
    assert a(NetForce(i, t)) == b(NetForce(i, t)) && a(NetForce(i, t + 1)) == b(NetForce(i, t + 1));
    assert a(Pos(i, t)) == b(Pos(i, t)) && a(Pos(i, t + 1)) == b(Pos(i, t + 1));
  }

  lemma FootStepIgnoresFinalDt(N: nat, foot: nat, i: Axis, t: nat, a: Assignment, b: Assignment)
    requires AgreeExceptFinalDt(N, a, b) && t < N
    ensures FootStepOnAxis(a, foot, i, t) <==> FootStepOnAxis(b, foot, i, t)
  {
    assert a(Dt(t)) == b(Dt(t));
    assert a(FootPos(foot, i, t)) == b(FootPos(foot, i, t)) && a(FootPos(foot, i, t + 1)) == b(FootPos(foot, i, t + 1));
    assert a(RelVel(foot, i, t)) == b(RelVel(foot, i, t)) && a(RelVel(foot, i, t + 1)) == b(RelVel(foot, i, t + 1));
    assert a(RelAcc(foot, i, t)) == b(RelAcc(foot, i, t)) && a(RelAcc(foot, i, t + 1)) == b(RelAcc(foot, i, t + 1));
  }

  /** The `dt` variable as declared (hopper.py:126, 149-151): one record per
      sample, bounded by the dt bounds and started at their mean, except the
      last, which is fixed at 0. */
  method DeclareDt(N: nat, dtLower: real, dtUpper: real) returns (dt: array<VarData>)
    requires N >= 1
    ensures fresh(dt) && dt.Length == N
    ensures forall k :: 0 <= k < N ==>
              dt[k].component == DtComponent && dt[k].continuous && dt[k].lb == dtLower && dt[k].ub == dtUpper
    ensures forall k :: 0 <= k < N - 1 ==> !dt[k].fixed && dt[k].value == (dtLower + dtUpper) / 2.0
    ensures dt[N - 1].fixed && dt[N - 1].value == 0.0
  {
    var initial := VarData(DtComponent, true, false, (dtLower + dtUpper) / 2.0, dtLower, dtUpper);
    dt := new VarData[N];
    var k := 0;
    while k < N
      invariant 0 <= k <= N
      invariant forall j :: 0 <= j < k ==> dt[j] == initial
    {
      dt[k] := initial;
      k := k + 1;
    }
    dt[N - 1] := dt[N - 1].(value := 0.0, fixed := true);
  }

  /** Fixing dt with a value overwrites the final 0; fixing it without one
      keeps it (hopperUtil.py:11-14, 21-24). */
  lemma FinalDtAfterFix(last: VarData, dt: Option<real>)
    requires last.component == DtComponent && last.fixed && last.value == 0.0
    ensures FixDtRecord(last, dt).fixed
    ensures FixDtRecord(last, dt).value == if dt.Some? then dt.value else 0.0
  {
  }

  // ----- Orientation breakpoints -----

  /** `numPieces` is 0: the first breakpoint divides by zero. */
  datatype BreakpointError = ZeroPieces

  /** The i-th breakpoint, -rotationMax + i*2*rotationMax/numPieces. */
  function Breakpoint(rotationMax: real, numPieces: nat, i: nat): real
    requires numPieces > 0
  {
    -rotationMax + (i as real * 2.0 * rotationMax) / numPieces as real
  }

  /** The breakpoint loop of hopper.py:156-159. */
  method OrientationBreakpoints(rotationMax: real, numPieces: nat) returns (r: Result<seq<real>, BreakpointError>)
    ensures r.Failure? <==> numPieces == 0
    ensures r.Success? ==> |r.value| == numPieces + 2
                           && forall i :: 0 <= i < numPieces + 2 ==> r.value[i] == Breakpoint(rotationMax, numPieces, i)
  {
    if numPieces == 0 {
      return Failure(ZeroPieces);
    }
    var bpts: seq<real> := [];
    var i := 0;
    while i < numPieces + 2
      invariant 0 <= i <= numPieces + 2
      invariant |bpts| == i
      invariant forall j :: 0 <= j < i ==> bpts[j] == Breakpoint(rotationMax, numPieces, j)
    {
      bpts := bpts + [-rotationMax + (i as real * 2.0 * rotationMax) / numPieces as real];
      assert bpts[i] == Breakpoint(rotationMax, numPieces, i);
      i := i + 1;
    }
    return Success(bpts);
  }

  /** The breakpoints are evenly spaced by 2*rotationMax/numPieces, start at
      -rotationMax and reach rotationMax at index numPieces; with a positive
      bound they increase strictly and the last lies beyond the bound. */
  lemma BreakpointsSpan(rotationMax: real, numPieces: nat)
    requires numPieces > 0
    ensures Breakpoint(rotationMax, numPieces, 0) == -rotationMax
    ensures Breakpoint(rotationMax, numPieces, numPieces) == rotationMax
    ensures forall i: nat :: Breakpoint(rotationMax, numPieces, i + 1) - Breakpoint(rotationMax, numPieces, i)
                             == 2.0 * rotationMax / numPieces as real
    ensures rotationMax > 0.0 ==>
              && (forall i: nat, j: nat :: i < j ==> Breakpoint(rotationMax, numPieces, i) < Breakpoint(rotationMax, numPieces, j))
              && Breakpoint(rotationMax, numPieces, numPieces + 1) > rotationMax
  {
    var n := numPieces as real;
    assert (numPieces as real * 2.0 * rotationMax) / n == 2.0 * rotationMax;
    forall i: nat
      ensures Breakpoint(rotationMax, numPieces, i + 1) - Breakpoint(rotationMax, numPieces, i) == 2.0 * rotationMax / n
    {
      var x := i as real;
      assert ((x + 1.0) * 2.0 * rotationMax) / n - (x * 2.0 * rotationMax) / n == 2.0 * rotationMax / n;
    }
    if rotationMax > 0.0 {
      forall i: nat, j: nat | i < j
        ensures Breakpoint(rotationMax, numPieces, i) < Breakpoint(rotationMax, numPieces, j)
      {
        var x, y := i as real, j as real;
        assert x * 2.0 * rotationMax < y * 2.0 * rotationMax;
        assert (x * 2.0 * rotationMax) / n < (y * 2.0 * rotationMax) / n;
      }
    }
  }
}
