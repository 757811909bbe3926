/** The result readers of hopperUtil.py (hopperUtil.py:66-97).

    A solved model is read through the values of its variables, an
    `Assignment`; the time grid is 1..N and the feet are numbered 0..nFeet-1.
    Arrays are nested sequences: [axis][time] for a `vstack` of per-axis
    rows, [axis][time][foot] for a `dstack` of per-foot layers. */
module Extraction {
  import opened Expressions
  import opened Regions
  import Dynamics
  import FootRegions

  // ----- extractTime -----

  /** s[0] + s[1] + ... */
  function SeqSum(s: seq<real>): real
  {
    if s == [] then 0.0 else s[0] + SeqSum(s[1..])
  }

  lemma {:induction false} SeqSumSnoc(s: seq<real>, x: real)
    ensures SeqSum(s + [x]) == SeqSum(s) + x
  {
    if s == [] {
      assert [] + [x] == [x];
    } else {
      assert (s + [x])[1..] == s[1..] + [x];
      SeqSumSnoc(s[1..], x);
    }
  }

  /** `np.cumsum` started from `acc`: entry k is acc plus the first k + 1
      values. */
  function CumSumFrom(acc: real, s: seq<real>): (r: seq<real>)
    ensures |r| == |s|
    ensures forall k :: 0 <= k < |s| ==> r[k] == acc + SeqSum(s[..k + 1])
    decreases s
  {
    if s == [] then []
    else
      var rest := CumSumFrom(acc + s[0], s[1..]);
      assert forall k :: 1 <= k < |s| ==> s[..k + 1][1..] == s[1..][..k];
      [acc + s[0]] + rest
  }

  /** The dt values in time order, `[m.dt[ti].value for ti in m.t]`. */
  function DtValues(a: Assignment, N: nat): (dt: seq<real>)
    ensures |dt| == N && forall k :: 0 <= k < N ==> dt[k] == a(Dt(k + 1))
  {
    seq(N, k requires 0 <= k < N => a(Dt(k + 1)))
  }

  /** `extractTime` (hopperUtil.py:66-67): the cumulative sum of 0 followed
      by every dt but the last. */
  function ExtractTime(dt: seq<real>): (times: seq<real>)
    ensures |times| == if dt == [] then 1 else |dt|
  {
    CumSumFrom(0.0, [0.0] + (if dt == [] then [] else dt[..|dt| - 1]))
  }

  /** The sample times start at 0 and sample k + 1 comes dt[k] after sample
      k; so time k is the sum of the first k dt values. */
  lemma ExtractTimeSteps(dt: seq<real>)
    ensures ExtractTime(dt)[0] == 0.0
    ensures forall k :: 1 <= k < |ExtractTime(dt)| ==> ExtractTime(dt)[k] == ExtractTime(dt)[k - 1] + dt[k - 1]
    ensures forall k :: 0 <= k < |ExtractTime(dt)| ==> ExtractTime(dt)[k] == SeqSum(dt[..k])
  {
    var s := [0.0] + (if dt == [] then [] else dt[..|dt| - 1]);
    var times := ExtractTime(dt);
    assert SeqSum(s[..1]) == 0.0 by { assert s[..1] == [0.0]; }
    forall k | 0 <= k < |times| ensures times[k] == SeqSum(dt[..k]) {
      if dt == [] {
        assert s == [0.0];
      } else {
        assert s[1..] == dt[..|dt| - 1];
        assert s[..k + 1][1..] == s[1..][..k];
        assert dt[..|dt| - 1][..k] == dt[..k];
      }
    }
    forall k | 1 <= k < |times| ensures times[k] == times[k - 1] + dt[k - 1] {
      assert dt[..k] == dt[..k - 1] + [dt[k - 1]];
      SeqSumSnoc(dt[..k - 1], dt[k - 1]);
    }
  }

  /** The final dt never reaches the time grid. */
  lemma ExtractTimeIgnoresFinalDt(dt: seq<real>, x: real)
    requires dt != []
    ensures ExtractTime(dt[..|dt| - 1] + [x]) == ExtractTime(dt)
  {
    var dt' := dt[..|dt| - 1] + [x];
    assert dt'[..|dt'| - 1] == dt[..|dt| - 1];
  }

  // ----- Per-axis and per-foot reshapers -----

  /** `extractPostition` (hopperUtil.py:69-70): one row per axis, one column
      per sample. */
  function ExtractPosition(a: Assignment, N: nat): (r: seq<seq<real>>)
    ensures |r| == 2
    ensures forall i :: 0 <= i < 2 ==> |r[i]| == N && forall k :: 0 <= k < N ==> r[i][k] == a(Pos(Axes[i], k + 1))
  {
    seq(2, i requires 0 <= i < 2 => seq(N, k requires 0 <= k < N => a(Pos(Axes[i], k + 1))))
  }

  /** `extractOrientation` (hopperUtil.py:72-73): a single row. */
  function ExtractOrientation(a: Assignment, N: nat): (r: seq<seq<real>>)
    ensures |r| == 1 && |r[0]| == N && forall k :: 0 <= k < N ==> r[0][k] == a(Th(k + 1))
  {
    [seq(N, k requires 0 <= k < N => a(Th(k + 1)))]
  }

  /** `extractTotalTorque` (hopperUtil.py:84-85): a single row. */
  function ExtractTotalTorque(a: Assignment, N: nat): (r: seq<seq<real>>)
    ensures |r| == 1 && |r[0]| == N && forall k :: 0 <= k < N ==> r[0][k] == a(NetTorque(k + 1))
  {
    [seq(N, k requires 0 <= k < N => a(NetTorque(k + 1)))]
  }

  /** Which per-foot variable a `dstack` reshaper reads. */
  datatype FootQuantity = HipQuantity | RelativeFootQuantity | ForceQuantity

  function FootRef(q: FootQuantity, foot: nat, i: Axis, t: nat): VarRef
  {
    match q
    case HipQuantity => Hip(foot, i, t)
    case RelativeFootQuantity => Rel(foot, i, t)
    case ForceQuantity => ContactForce(foot, i, t)
  }

  /** `np.dstack` over the feet of an axis-by-time table (hopperUtil.py:75-82):
      entry [i][k][foot]. */
  function FootTable(q: FootQuantity, a: Assignment, N: nat, nFeet: nat): (r: seq<seq<seq<real>>>)
    ensures |r| == 2
    ensures forall i :: 0 <= i < 2 ==> |r[i]| == N
    ensures forall i, k :: 0 <= i < 2 && 0 <= k < N ==>
              |r[i][k]| == nFeet && forall j :: 0 <= j < nFeet ==> r[i][k][j] == a(FootRef(q, j, Axes[i], k + 1))
  {
    seq(2, i requires 0 <= i < 2 =>
      seq(N, k requires 0 <= k < N =>
        seq(nFeet, j requires 0 <= j < nFeet => a(FootRef(q, j, Axes[i], k + 1)))))
  }

  /** `extractHipPosition` (hopperUtil.py:75-76). */
  function ExtractHipPosition(a: Assignment, N: nat, nFeet: nat): seq<seq<seq<real>>>
  {
    FootTable(HipQuantity, a, N, nFeet)
  }

  /** `extractRelativeFootPosition` (hopperUtil.py:78-79). */
  function ExtractRelativeFootPosition(a: Assignment, N: nat, nFeet: nat): seq<seq<seq<real>>>
  {
    FootTable(RelativeFootQuantity, a, N, nFeet)
  }

  /** `extractFootForce` (hopperUtil.py:81-82). */
  function ExtractFootForce(a: Assignment, N: nat, nFeet: nat): seq<seq<seq<real>>>
  {
    FootTable(ForceQuantity, a, N, nFeet)
  }

  /** The torque of foot j at column k, from the extracted tables: the cross
      product of p + hip with f. */
  function TableTorque(hip: seq<seq<seq<real>>>, p: seq<seq<seq<real>>>, f: seq<seq<seq<real>>>, k: nat): nat -> real
    requires |hip| == 2 && |p| == 2 && |f| == 2
  {
    (j: nat) =>
      if k < |hip[0]| && k < |hip[1]| && k < |p[0]| && k < |p[1]| && k < |f[0]| && k < |f[1]|
         && j < |hip[0][k]| && j < |hip[1][k]| && j < |p[0][k]| && j < |p[1][k]| && j < |f[0][k]| && j < |f[1][k]|
      then (p[0][k][j] + hip[0][k][j]) * f[1][k][j] - (p[1][k][j] + hip[1][k][j]) * f[0][k][j]
      else 0.0
  }

  /** For a trajectory that satisfies the model's constraints, the extracted
      torque row is the sum over the feet of the torques computed from the
      extracted relative foot positions, hip positions and forces. */
  lemma ExtractedTorqueBalances(cfg: Dynamics.Config, a: Assignment)
    requires Dynamics.ValidConfig(cfg)
    requires forall t :: 1 <= t <= cfg.N ==> Dynamics.StepRelations(cfg, a, t)
    ensures var hip := ExtractHipPosition(a, cfg.N, cfg.nFeet);
            var p := ExtractRelativeFootPosition(a, cfg.N, cfg.nFeet);
            var f := ExtractFootForce(a, cfg.N, cfg.nFeet);
            forall k :: 0 <= k < cfg.N ==>
              ExtractTotalTorque(a, cfg.N)[0][k] == RealSum(cfg.nFeet, TableTorque(hip, p, f, k))
  {
    forall k | 0 <= k < cfg.N
      ensures ExtractTotalTorque(a, cfg.N)[0][k]
              == RealSum(cfg.nFeet, TableTorque(ExtractHipPosition(a, cfg.N, cfg.nFeet),
                                                ExtractRelativeFootPosition(a, cfg.N, cfg.nFeet),
                                                ExtractFootForce(a, cfg.N, cfg.nFeet), k))
    {
      TorqueColumn(cfg, a, k);
    }
  }

  lemma TorqueColumn(cfg: Dynamics.Config, a: Assignment, k: nat)
    requires Dynamics.ValidConfig(cfg) && k < cfg.N
    requires Dynamics.StepRelations(cfg, a, k + 1)
    ensures ExtractTotalTorque(a, cfg.N)[0][k]
            == RealSum(cfg.nFeet, TableTorque(ExtractHipPosition(a, cfg.N, cfg.nFeet),
                                              ExtractRelativeFootPosition(a, cfg.N, cfg.nFeet),
                                              ExtractFootForce(a, cfg.N, cfg.nFeet), k))
  {
    var hip := ExtractHipPosition(a, cfg.N, cfg.nFeet);
    var p := ExtractRelativeFootPosition(a, cfg.N, cfg.nFeet);
    var f := ExtractFootForce(a, cfg.N, cfg.nFeet);
    var t := k + 1;
    forall j | 0 <= j < cfg.nFeet ensures Dynamics.TorqueOf(a, t)(j) == TableTorque(hip, p, f, k)(j) {
      TorqueEntry(cfg, a, k, j);
    }
    Dynamics.RealSumCongruent(cfg.nFeet, Dynamics.TorqueOf(a, t), TableTorque(hip, p, f, k));
  }

  lemma TorqueEntry(cfg: Dynamics.Config, a: Assignment, k: nat, j: nat)
    requires Dynamics.ValidConfig(cfg) && k < cfg.N && j < cfg.nFeet
    requires Dynamics.FootKinematics(a, cfg.hipOffset[j], j, k + 1)
    ensures Dynamics.TorqueOf(a, k + 1)(j)
            == TableTorque(ExtractHipPosition(a, cfg.N, cfg.nFeet),
                           ExtractRelativeFootPosition(a, cfg.N, cfg.nFeet),
                           ExtractFootForce(a, cfg.N, cfg.nFeet), k)(j)
  {
    var t := k + 1;
    var hip := ExtractHipPosition(a, cfg.N, cfg.nFeet);
    var p := ExtractRelativeFootPosition(a, cfg.N, cfg.nFeet);
    var f := ExtractFootForce(a, cfg.N, cfg.nFeet);
    assert Axes[0] == X && Axes[1] == Z;
    assert hip[0][k][j] == a(Hip(j, X, t)) && hip[1][k][j] == a(Hip(j, Z, t));
    assert p[0][k][j] == a(Rel(j, X, t)) && p[1][k][j] == a(Rel(j, Z, t));
    assert f[0][k][j] == a(ContactForce(j, X, t)) && f[1][k][j] == a(ContactForce(j, Z, t));
    assert Dynamics.FootOnAxis(a, j, X, t) && Dynamics.FootOnAxis(a, j, Z, t);
  }

  /** Every extracted table has one column per sample, as the time grid
      has one entry per sample. */
  lemma ExtractedShapesAgree(a: Assignment, N: nat, nFeet: nat)
    requires N >= 1
    ensures |ExtractTime(DtValues(a, N))| == N
    ensures |ExtractPosition(a, N)[0]| == N && |ExtractOrientation(a, N)[0]| == N
    ensures |ExtractTotalTorque(a, N)[0]| == N
    ensures forall i :: 0 <= i < 2 ==>
              && |ExtractPosition(a, N)[i]| == N && |ExtractHipPosition(a, N, nFeet)[i]| == N
              && |ExtractRelativeFootPosition(a, N, nFeet)[i]| == N && |ExtractFootForce(a, N, nFeet)[i]| == N
  {
  }

  // ----- extractBodyRegionIndicators -----

  /** `extractBodyRegionIndicators` (hopperUtil.py:90-97): one row per
      region, the body disjunct's indicator values for a free-space region
      and zeros for a contact region.  The indicator values are read from
      variables the disjunction lowering creates; here they are given. */
  function ExtractBodyRegionIndicators(regions: seq<Region>, indicator: (nat, nat) -> real, N: nat): (r: seq<seq<real>>)
    ensures |r| == |regions|
    ensures forall region :: 0 <= region < |regions| ==> |r[region]| == N
    ensures forall region, k :: 0 <= region < |regions| && 0 <= k < N ==>
              r[region][k] == if regions[region].mu == 0.0 then indicator(region, k + 1) else 0.0
  {
    seq(|regions|, region requires 0 <= region < |regions| =>
      if regions[region].mu == 0.0 then seq(N, k requires 0 <= k < N => indicator(region, k + 1))
      else seq(N, k requires 0 <= k < N => 0.0))
  }

  /** Only the rows of the regions the body disjunction may list can be
      non-zero. */
  lemma BodyIndicatorsOnlyForCandidates(regions: seq<Region>, indicator: (nat, nat) -> real, N: nat, region: nat, k: nat)
    requires region < |regions| && k < N
    requires ExtractBodyRegionIndicators(regions, indicator, N)[region][k] != 0.0
    ensures region in FootRegions.BodyRegionCandidates(regions)
  {
  }
}
