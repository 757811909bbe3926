/** The `Hopper` object of hopper.py: its constants and its region catalog,
    which `addRegion`, `addFreeBlock` and `addPlatform` grow in place
    (hopper.py:13-79). */
module HopperModel {
  import opened Wrappers
  import opened Expressions
  import opened Regions
  import Dynamics
  import opened FootRegions

  /** Raised by numpy when `addFreeBlock` stacks an empty list of rows. */
  datatype CatalogError = EmptyRowStack

  /** A horizon of at least one sample: `model.t[-1]` (hopper.py:150) needs
      a non-empty time set. */
  type Horizon = n: nat | n >= 1 witness 1

  /** A positive moment of inertia: the rotation rules divide by it
      (hopper.py:244, 253). */
  type Inertia = r: real | r > 0.0 witness 1.0

  class Hopper {
    /** The region catalog, in insertion order; the index is the region id. */
    var regions: seq<Region>

    const N: Horizon
    /** Dimensionless moment of inertia, fetched once from the robot description. */
    const momentOfInertia: Inertia
    /** Hip offset in the body frame, one entry per foot. */
    const hipOffset: seq<Vec2>
    /** Orientation bound; 2*pi in the source, kept symbolic here. */
    const rotationMax: real
    const nOrientationSectors: nat
    const positionMax: real
    const velocityMax: real
    const forceMax: real
    const bodyRadius: real
    const dtLower: real
    const dtUpper: real

    /** hopper.py:14-45, with the robot constants passed in instead of
        queried over the engine bridge. */
    constructor(N: Horizon, momentOfInertia: Inertia, hipOffset: seq<Vec2>, rotationMax: real)
      ensures this.N == N && this.momentOfInertia == momentOfInertia
      ensures this.hipOffset == hipOffset && this.rotationMax == rotationMax
      ensures nOrientationSectors == 1 && bodyRadius == 0.5
      ensures positionMax == 10.0 && velocityMax == 10.0 && forceMax == 10.0
      ensures dtLower == 0.05 && dtUpper == 0.2
      ensures regions == []
    {
      this.N := N;
      this.momentOfInertia := momentOfInertia;
      this.hipOffset := hipOffset;
      this.rotationMax := rotationMax;
      nOrientationSectors := 1;
      positionMax := 10.0;
      velocityMax := 10.0;
      forceMax := 10.0;
      bodyRadius := 0.5;
      dtLower, dtUpper := 0.05, 0.2;
      regions := [];
    }

    /** The constants the trajectory rules read, one record: every hopper
        yields a configuration the rule lemmas of `Dynamics` apply to. */
    function TrajectoryConfig(): (c: Dynamics.Config)
      ensures Dynamics.ValidConfig(c)
      ensures c.N == N && c.nFeet == |hipOffset|
      ensures c.momentOfInertia == momentOfInertia && c.hipOffset == hipOffset
    {
      Dynamics.Config(N, |hipOffset|, momentOfInertia, hipOffset)
    }

    /** The constraints `constructPyomoModel` builds for this hopper at
        sample t hold exactly when its balance, kinematics and (before the
        last sample) stepping relations hold. */
    lemma ConstraintsMeaning(t: nat, a: Assignment)
      requires 1 <= t <= N
      ensures AllHold(Dynamics.ConstraintsAt(TrajectoryConfig(), t), a)
              <==> Dynamics.StepRelations(TrajectoryConfig(), a, t)
    {
      Dynamics.ConstraintsAtMeaning(TrajectoryConfig(), t, a);
    }

    /** `addRegion(**kwargs)` (hopper.py:72-79): append a fresh entry with the
        defaults, then copy every recognised keyword into it. */
    method AddRegion(kwargs: seq<Arg>)
      requires AllWellTyped(kwargs)
      modifies this
      ensures regions == old(regions) + [ApplyArgs(DefaultRegion, kwargs)]
    {
      var last := |regions|;
      regions := regions + [DefaultRegion];
      var i := 0;
      while i < |kwargs|
        invariant 0 <= i <= |kwargs|
        invariant |regions| == last + 1 && regions[..last] == old(regions)
        invariant regions[last] == ApplyArgs(DefaultRegion, kwargs[..i])
      {
        var arg := kwargs[i];
        ghost var before := regions[last];
        var j := 0;
        while j < |RegionKeys|
          invariant 0 <= j <= |RegionKeys|
          invariant |regions| == last + 1 && regions[..last] == old(regions)
          invariant regions[last]
                    == if arg.key in RegionKeys[..j] then SetField(before, arg.key, arg.value) else before
        {
          assert RegionKeys[..j + 1] == RegionKeys[..j] + [RegionKeys[j]];
          if arg.key == RegionKeys[j] {
            regions := regions[last := SetField(regions[last], arg.key, arg.value)];
          }
          j := j + 1;
        }
        assert RegionKeys[..j] == RegionKeys;
        assert kwargs[..i + 1][..i] == kwargs[..i];
        i := i + 1;
      }
      assert kwargs[..i] == kwargs;
    }

    /** The row lists `addFreeBlock` grows (hopper.py:55-68): one row and
        one right-hand side per given bound, in the order left, right, top,
        bottom. */
    static method CollectBoundRows(left: Option<real>, right: Option<real>, top: Option<real>, bottom: Option<real>)
      returns (aRows: Matrix, bRows: Column)
      ensures aRows == FreeBlockRows(left, right, top, bottom)
      ensures bRows == FreeBlockRhs(left, right, top, bottom)
    {
      aRows, bRows := [], [];
      if left.Some? {
        aRows := aRows + [Row(-1.0, 0.0)];
        bRows := bRows + [-left.value];
      }
      assert aRows == RowIf(left, Row(-1.0, 0.0)) && bRows == RhsIf(left, -1.0);
      if right.Some? {
        aRows := aRows + [Row(1.0, 0.0)];
        bRows := bRows + [right.value];
      }
      assert aRows == RowIf(left, Row(-1.0, 0.0)) + RowIf(right, Row(1.0, 0.0));
      assert bRows == RhsIf(left, -1.0) + RhsIf(right, 1.0);
      if top.Some? {
        aRows := aRows + [Row(0.0, 1.0)];
        bRows := bRows + [top.value];
      }
      assert aRows == RowIf(left, Row(-1.0, 0.0)) + RowIf(right, Row(1.0, 0.0)) + RowIf(top, Row(0.0, 1.0));
      assert bRows == RhsIf(left, -1.0) + RhsIf(right, 1.0) + RhsIf(top, 1.0);
      if bottom.Some? {
        aRows := aRows + [Row(0.0, -1.0)];
        bRows := bRows + [-bottom.value];
      }
      assert RhsIf(bottom, -1.0) == if bottom.Some? then [-bottom.value] else [];
    }

    /** `addFreeBlock(left, right, top, bottom)` (hopper.py:54-69): with no
        bound at all numpy refuses to stack the empty list and nothing is
        added. */
    method AddFreeBlock(left: Option<real>, right: Option<real>, top: Option<real>, bottom: Option<real>)
      returns (outcome: Outcome<CatalogError>)
      modifies this
      ensures outcome.Fail? <==> CountSome(left, right, top, bottom) == 0
      ensures outcome.Pass? ==> regions == old(regions) + [FreeBlockRegion(left, right, top, bottom)]
      ensures outcome.Fail? ==> regions == old(regions)
      ensures CatalogBuilds(regions, bodyRadius) <==> CatalogBuilds(old(regions), bodyRadius)
    {
      var aRows, bRows := CollectBoundRows(left, right, top, bottom);
      if aRows == [] {
        return Fail(EmptyRowStack);
      }
      ApplyInequalityArgs(aRows, bRows);
      AddRegion([Arg("A", MatrixValue(aRows)), Arg("b", ColumnValue(bRows))]);
      FreeBlockBuilds(left, right, top, bottom, bodyRadius);
      CatalogBuildsSnoc(old(regions), FreeBlockRegion(left, right, top, bottom), bodyRadius);
      return Pass;
    }

    /** `addPlatform(start, end, height, mu)` (hopper.py:47-51): the segment
        start <= x <= end at height z, normal (0, 1), friction mu. */
    method AddPlatform(start: real, end: real, height: real, mu: real)
      modifies this
      ensures regions == old(regions) + [PlatformRegion(start, end, height, mu)]
      ensures CatalogBuilds(regions, bodyRadius) <==> CatalogBuilds(old(regions), bodyRadius)
    {
      ApplyPlatformArgs(start, end, height, mu);
      AddRegion(PlatformArgs(start, end, height, mu));
      PlatformBuilds(start, end, height, mu, bodyRadius);
      CatalogBuildsSnoc(old(regions), PlatformRegion(start, end, height, mu), bodyRadius);
    }
  }
}
