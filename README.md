# Hopper trajectory model, in Dafny

This project models the constraint-generation core of a planar hopping-robot
trajectory planner (`hopper.py`, `hopperUtil.py`). The planner describes the
terrain as a catalog of convex regions and turns it into a mixed-integer
optimisation problem over a time grid 1..N. Its parts are:

- dynamics rules for the centre of mass and for each foot;
- a disjunction per (foot, t) that says which region the foot is in;
- readers that turn a solved model back into arrays;
- passes that fix and unfix variable flags before handing the model to a solver.

The model keeps the repository's own logic and represents constraints as data:

- `Expressions`: variables (`VarRef`), linear and bilinear expressions, and
  equality and inequality constraints, with their value under an assignment of
  reals to variables (a candidate trajectory).
- `Regions`: the region records and the keyword-argument fold of `addRegion`,
  plus the geometry of free blocks and platforms.
- `HopperModel`: the `Hopper` class. Its `regions` field is grown in place by
  `AddRegion`, `AddFreeBlock` and `AddPlatform`.
- `Dynamics`:
  - the rules of `constructPyomoModel`, each a function from its indices to an
    optional constraint, where `None` is `Constraint.Skip`;
  - what they mean for a trajectory;
  - the declared `dt` records and the orientation breakpoint loop.
- `FootRegions`:
  - the row stacking of `_footRegionConstraints` and the constraint blocks of
    each disjunct;
  - the disjunct list of each (foot, t);
  - the body-region disjuncts, which are built for every region and sample
    although their disjunction is commented out, and the condition they put
    on the catalog for the model to be built at all.
- `Extraction`: the `extract*` readers of `hopperUtil.py`.
- `Variables`: the variable-record passes of `hopperUtil.py`:
  - fixing and unfixing integer variables;
  - fixing `dt` on a clone;
  - the digit count handed to the radix linearization;
  - branch priorities.

Each rule is paired with a predicate that states the rule's physics directly.
A lemma proves that the generated constraints hold exactly when that predicate
holds. Each mutating operation is proved against a function of its inputs, and
the properties are then proved about that function.

## Model

| member | source | states |
|---|---|---|
| Regions.SetField | hopper.py:77-79 | writing one recognised key changes that field only; every other recognised key keeps its value |
| Regions.ApplyArgsSnoc | hopper.py:76-79 | processing one more keyword either overwrites its field (recognised key) or leaves the entry unchanged |
| Regions.ApplyArgsLookup | hopper.py:73-79 | after the fold `ApplyArgs` (the loop of `addRegion`), each recognised field holds the value of the last keyword with that key, or the default when the key is absent |
| Regions.UnknownKeysIgnored | hopper.py:76-79 | dropping every unrecognised keyword gives the same entry: unknown keys are ignored |
| Regions.RecognisedWellTyped | hopper.py:76-79 | filtering the keywords to the recognised ones keeps them well-typed |
| Regions.Recognised | hopper.py:77-78 | the filtered keyword list holds only the six recognised keys |
| Regions.ApplyInequalityArgs | hopper.py:69 | the keywords `A=..., b=...` give the default entry with exactly A and b set |
| Regions.FreeBlockRows | hopper.py:55-68 | one row per given bound |
| Regions.FreeBlockRhs | hopper.py:55-68 | one right-hand side per given bound |
| Regions.RowIfMeaning | hopper.py:57-68 | the row of one bound holds iff the bound is absent or the point is on its side of it |
| Regions.FreeBlockContainment | hopper.py:54-69 | a free block (`FreeBlockRegion`) with at least one bound is well formed with mu = 0, and a point is inside iff left <= x, x <= right, z <= top and bottom <= z for the given bounds |
| Regions.RowsHoldConcat | hopper.py:268-269 | stacked rows hold iff both stacks hold |
| Regions.ApplyPlatformArgs | hopper.py:48-51 | the six keywords of `addPlatform` give the platform region |
| Regions.PlatformArgsPrefix | hopper.py:48-50 | the first three keywords set only A, b and Aeq |
| Regions.PlatformContainment | hopper.py:47-51 | a platform (`PlatformRegion`) is well formed and accepts (x, z) iff start <= x <= end and z == height |
| HopperModel.Hopper.constructor | hopper.py:14-45 | the catalog starts empty; the constants are the source's (sectors 1, bounds 10, body radius 0.5, dt in [0.05, 0.2]) |
| HopperModel.Hopper.TrajectoryConfig | hopper.py:101-103 | every hopper yields a valid rule configuration (horizon at least 1, positive moment of inertia, one foot per hip offset) carrying its own constants |
| HopperModel.Hopper.ConstraintsMeaning | hopper.py:170-256 | the constraints built for this hopper at sample t hold iff its balance, kinematics and (before N) stepping relations hold |
| HopperModel.Hopper.AddRegion | hopper.py:72-79 | the catalog grows by exactly one entry, earlier entries unchanged, and the new entry is the default entry with the keywords applied in order |
| HopperModel.Hopper.CollectBoundRows | hopper.py:55-68 | the grown row lists are the rows and right-hand sides of the given bounds, in the order left, right, top, bottom |
| HopperModel.Hopper.AddFreeBlock | hopper.py:54-69 | fails, adding nothing, iff no bound is given; otherwise appends the free-block region; the catalog lets the model be built after the call iff it did before |
| HopperModel.Hopper.AddPlatform | hopper.py:47-51 | appends the platform region and nothing else; the catalog lets the model be built after the call iff it did before |
| Expressions.AllHoldConcat | hopper.py:173-256 | two constraint lists hold together iff each holds |
| Expressions.EvalSumOver | hopper.py:171-182 | a built `sum(...)` evaluates to the sum of its evaluated terms |
| Expressions.SumOverRefs | hopper.py:171-182 | a built sum mentions only variables its terms mention |
| Expressions.AllHoldConcatN | hopper.py:200-229 | the constraints of an indexed family hold iff every member's do |
| Expressions.EvalDependsOnRefs | hopper.py:170-256 | an expression's value depends only on the variables it mentions |
| Expressions.HoldsDependsOnRefs | hopper.py:170-256 | a constraint's truth depends only on the variables it mentions |
| Dynamics.PositionRule | hopper.py:190-195 | skipped exactly at t = N |
| Dynamics.VelocityRule | hopper.py:231-236 | skipped exactly at t = N |
| Dynamics.AngularVelocityRule | hopper.py:240-245 | skipped exactly at t = N |
| Dynamics.OrientationRule | hopper.py:249-254 | skipped exactly at t = N |
| Dynamics.FootPositionRule | hopper.py:202-206 | skipped exactly at t = N |
| Dynamics.FootVelocityRule | hopper.py:224-228 | skipped exactly at t = N |
| Dynamics.Generated | hopper.py:191-192 | `Constraint.Skip` adds nothing: every generated constraint comes from a rule outcome |
| Dynamics.GeneratedAllSome | hopper.py:190-256 | when no rule skips, every outcome is generated, in order |
| Dynamics.GeneratedAllNone | hopper.py:190-256 | when every rule skips, nothing is generated |
| Dynamics.GeneratedConcat | hopper.py:190-256 | generation distributes over concatenation of rule lists |
| Dynamics.GeneratedPairMeaning | hopper.py:190-256 | two present rules hold together iff each holds |
| Dynamics.BodySteppingRules | hopper.py:190-256 | six centre-of-mass stepping rules per sample |
| Dynamics.FootSteppingRules | hopper.py:202-228 | four foot stepping rules per sample |
| Dynamics.ForceRuleMeaning | hopper.py:180-182 | `_forceRule`, modelled by `ForceRule`: F[i] = sum of the feet's f[i] + g, with g = -1 on z and 0 on x |
| Dynamics.MomentRuleMeaning | hopper.py:170-171 | `_momentRule`, modelled by `MomentRule`: T = sum over feet of frc.x*f.z - frc.z*f.x |
| Dynamics.TranslationRulesMeaning | hopper.py:190-236 | before N: r[t+1] = r[t] + dt*(v[t] + dt/2*F[t]) and v[t+1] = v[t] + dt/2*(F[t] + F[t+1]) |
| Dynamics.RotationRulesMeaning | hopper.py:240-254 | before N: the same updates for th and w, with T/I in place of F |
| Dynamics.FootOnAxisMeaning | hopper.py:198-211 | `_footPositionDefinition` and `_footRelativeToCOMDefinition`, modelled by `FootPositionDefinition` and `FootRelativeToComDefinition`: foot = p + hip + r and frc = p + hip |
| Dynamics.HipRotatedMeaning | hopper.py:217-221 | `_hipPositionRule`, modelled by `HipPositionRule`: hip.x = off.x*cth + off.z*sth and hip.z = off.z*cth - off.x*sth |
| Dynamics.FootKinematicRulesMeaning | hopper.py:198-222 | the per-foot kinematic rules hold iff the foot kinematics hold |
| Dynamics.FootStepOnAxisMeaning | hopper.py:202-228 | before N: foot[t+1] = foot[t] + dt*pd[t] and pd[t+1] = pd[t] + dt/2*(pdd[t] + pdd[t+1]) |
| Dynamics.FootSteppingRulesMeaning | hopper.py:202-228 | the generated foot stepping constraints hold iff t = N or the foot step holds |
| Dynamics.FootRulesMeaning | hopper.py:198-228 | all constraints of one foot at t hold iff kinematics hold, and the step holds when t < N |
| Dynamics.BalanceRulesMeaning | hopper.py:170-183 | the balance constraints hold iff force and torque balance hold |
| Dynamics.TranslationPairMeaning | hopper.py:190-238 | the translation pair holds iff t = N or the translation step holds |
| Dynamics.RotationPairMeaning | hopper.py:240-256 | the rotation pair holds iff t = N or the rotation step holds |
| Dynamics.BodySteppingRulesMeaning | hopper.py:190-256 | the centre-of-mass stepping constraints hold iff t = N or both translation steps and the rotation step hold |
| Dynamics.ConstraintsAtMeaning | hopper.py:170-256 | every non-disjunctive constraint indexed by t (collected by `ConstraintsAt`) holds iff balance and kinematics hold at t, and the stepping relations hold when t < N |
| Dynamics.RealSumCongruent | hopper.py:171-182 | a sum depends only on its terms' values |
| Dynamics.FinalDtUnused | hopper.py:149-151 | two trajectories that differ only in dt[N] satisfy the same constraints at every t, so fixing dt[N] to 0 removes nothing |
| Dynamics.StepRelationsIgnoreFinalDt | hopper.py:190-256 | the physics at any t does not read dt[N] |
| Dynamics.BalanceIgnoresFinalDt | hopper.py:170-183 | balance does not read dt[N] |
| Dynamics.KinematicsIgnoreFinalDt | hopper.py:198-222 | foot kinematics do not read dt[N] |
| Dynamics.RotationIgnoresFinalDt | hopper.py:240-254 | the rotation step before N does not read dt[N] |
| Dynamics.TranslationIgnoresFinalDt | hopper.py:190-236 | the translation step before N does not read dt[N] |
| Dynamics.FootStepIgnoresFinalDt | hopper.py:202-228 | the foot step before N does not read dt[N] |
| Dynamics.DeclareDt | hopper.py:126-151 | N continuous dt records bounded by the dt bounds; all but the last start free at the bounds' mean; the last is fixed at 0 although its lower bound is `dtLower` (0.05 in the hopper) |
| Dynamics.FinalDtAfterFix | hopperUtil.py:11-14 | fixing dt with a value overwrites the final 0; fixing without one keeps it |
| Dynamics.OrientationBreakpoints | hopper.py:156-159 | fails iff numPieces = 0 (division by zero); otherwise numPieces + 2 points, the i-th being -rotationMax + i*2*rotationMax/numPieces |
| Dynamics.BreakpointsSpan | hopper.py:156-159 | of the points `Breakpoint` defines: the first point is -rotationMax, point numPieces is rotationMax, the spacing is 2*rotationMax/numPieces, and for rotationMax > 0 the points strictly increase and the last lies beyond rotationMax |
| FootRegions.NegatedRows | hopper.py:268-271 | -Aeq negates each row |
| FootRegions.NegatedColumn | hopper.py:269-272 | -beq negates each entry |
| FootRegions.StackedSystem | hopper.py:258-274 | succeeds iff A or Aeq is given and each has its right-hand side; rows are A's, then Aeq's, then -Aeq's, so rows(A) + 2*rows(Aeq) of them |
| FootRegions.StackedSystemMeaning | hopper.py:258-278 | for a well-formed region the stacked rows hold iff the point is in the region: the equality holds iff both opposed rows hold |
| FootRegions.RowConstraints | hopper.py:275-278 | one constraint per row |
| FootRegions.RowLhsValue | hopper.py:277 | a row constraint's left side is the row's dot product with the point |
| FootRegions.RowConstraintMeaning | hopper.py:275-277 | a row constraint holds iff the point satisfies the row |
| FootRegions.RowConstraintsMeaning | hopper.py:275-278 | the row constraints hold iff the point satisfies every row |
| FootRegions.RowConstraintsRefs | hopper.py:275-278 | row constraints mention only the point's coordinates |
| FootRegions.FootRegionConstraints | hopper.py:258-313 | succeeds iff the rows stack and b is long enough; the block sizes follow mu: hip rows and two zero forces iff mu = 0, one sticking constraint iff mu != 0, and always the friction pair |
| FootRegions.ContactPositionMeaning | hopper.py:275-278 | the contact rows hold iff the foot is in the region |
| FootRegions.HipPositionMeaning | hopper.py:280-286 | the hip rows hold iff mu != 0 or r + hip is in the region |
| FootRegions.ContactForceMeaning | hopper.py:293-301 | -mu*f.z <= f.x <= mu*f.z always, and f = 0 when mu = 0 |
| FootRegions.StationaryFootMeaning | hopper.py:304-313 | holds iff mu = 0 or pd.x = 0; pd.z is left free |
| FootRegions.FootRegionMeaning | hopper.py:258-313 | a well-formed region yields a disjunct whose constraints hold iff the foot uses the region |
| FootRegions.PositionBlocksScope | hopper.py:275-286 | the position blocks mention only foot, r and hip |
| FootRegions.ForceBlocksScope | hopper.py:293-313 | the force blocks mention only f and pd.x |
| FootRegions.FootRegionScope | hopper.py:258-313 | a disjunct mentions only its foot's variables at t, and never pd.z |
| FootRegions.FootRegionDisjunction | hopper.py:319-323 | one disjunct per region, in index order |
| FootRegions.FootRegionDisjunctionMeaning | hopper.py:316-324 | the disjunction holds iff the foot uses some region of the catalog |
| FootRegions.PlatformFoot | hopper.py:258-313 | a foot on any platform with friction lies on it (start <= x <= end, z = height), does not slide in x, and its force lies in the friction cone |
| FootRegions.FreeBlockFootExample | hopper.py:258-313 | a foot in a free block carries no force, and the foot and its hip both respect the block's bounds |
| FootRegions.ShrunkColumn | hopper.py:334 | b - bodyRadius entry by entry |
| FootRegions.BodyRegionConstraints | hopper.py:326-340 | nothing for a contact region; for a free-space region one row per row of A, failing iff A or b is missing or b is shorter than A |
| FootRegions.BodyRegionMeaning | hopper.py:326-340 | the body rows hold iff the centre of mass clears every row of A by bodyRadius; with a non-negative radius it then lies in the region's inequality rows |
| FootRegions.CatalogBuildsSnoc | hopper.py:316-343 | appending a region keeps a catalog buildable iff the region lets both its foot and body disjuncts be built |
| FootRegions.FreeBlockBuilds | hopper.py:326-343 | every free block with a bound yields both its foot and its body disjuncts |
| FootRegions.PlatformBuilds | hopper.py:326-343 | every platform yields both its foot and its body disjuncts, whatever its friction |
| FootRegions.EqualityOnlyFreeRegionDoesNotBuild | hopper.py:326-343 | a frictionless region given by equality rows alone is well formed and yields a foot disjunct, but its body disjunct fails, so the model cannot be built |
| FootRegions.BodyRegionCandidates | hopper.py:346-351 | the regions with mu = 0, each once, in increasing index order |
| Extraction.CumSumFrom | hopperUtil.py:67 | entry k of a running sum is the start value plus the first k+1 values |
| Extraction.SeqSumSnoc | hopperUtil.py:67 | appending a value adds it to the sum |
| Extraction.DtValues | hopperUtil.py:67 | the dt values in time order |
| Extraction.ExtractTime | hopperUtil.py:66-67 | one time per sample |
| Extraction.ExtractTimeSteps | hopperUtil.py:66-67 | times[0] = 0, consecutive times differ by the previous dt, and times[k] = dt[1] + ... + dt[k] |
| Extraction.ExtractTimeIgnoresFinalDt | hopperUtil.py:66-67 | the final dt never reaches the time grid |
| Extraction.ExtractPosition | hopperUtil.py:69-70 | one row per axis and one column per sample; entry [i][k] is r at (axis i, sample k+1) |
| Extraction.ExtractOrientation | hopperUtil.py:72-73 | a single row of th values |
| Extraction.ExtractTotalTorque | hopperUtil.py:84-85 | a single row of T values |
| Extraction.FootTable | hopperUtil.py:75-82 | the common layout of `ExtractHipPosition`, `ExtractRelativeFootPosition` and `ExtractFootForce`: entry [i][k][foot] is the foot's variable at (axis i, sample k+1) |
| Extraction.ExtractedTorqueBalances | hopper.py:170-171 | for a trajectory that meets the constraints, the extracted torque row is the sum over feet of (p + hip) x f from the extracted tables |
| Extraction.TorqueColumn | hopper.py:170-171 | the same, for one sample |
| Extraction.TorqueEntry | hopper.py:209-210 | one foot's torque computed from the tables equals its torque in the moment rule |
| Extraction.ExtractedShapesAgree | hopperUtil.py:66-85 | the time grid has N entries, and every row of the position, orientation, torque, hip, relative-foot and force tables has N columns |
| Extraction.ExtractBodyRegionIndicators | hopperUtil.py:90-97 | one row per region, in index order; the row is the indicator values for mu = 0 and zeros otherwise |
| Extraction.BodyIndicatorsOnlyForCandidates | hopperUtil.py:90-97 | only regions the body disjunction lists can have a non-zero indicator row |
| Variables.FixIfInteger | hopperUtil.py:100-103 | a variable ends fixed iff it was fixed or is not continuous; nothing else changes |
| Variables.UnfixIfInteger | hopperUtil.py:106-109 | a variable ends fixed iff it was fixed and is continuous; nothing else changes |
| Variables.FixIdempotent | hopperUtil.py:99-103 | fixing twice is fixing once |
| Variables.FixThenUnfix | hopperUtil.py:99-109 | fix then unfix equals unfix, so every non-continuous variable ends unfixed |
| Variables.FixIntegerVariables | hopperUtil.py:99-103 | every record becomes its fixed-if-integer form, in place |
| Variables.UnfixIntegerVariables | hopperUtil.py:105-109 | every record becomes its unfixed-if-integer form, in place |
| Variables.FixDtRecord | hopperUtil.py:11-24 | non-dt records are unchanged; dt records become fixed at the given value, or at their own value when none is given |
| Variables.CloneAndFixDt | hopperUtil.py:10-14 | a fresh copy with dt fixed; the input array is untouched |
| Variables.FirstOf | hopperUtil.py:29-31 | the index of the first record of a component, or none when no record has it |
| Variables.MdtRadixCall | hopperUtil.py:25-36 | radix 2, digit count 1 and discretize `f`, whenever the bounds of `f` and `footRelativeToCOM` exist and maxVal and the precision make the ignored log2 term defined |
| Variables.MdtDigitsIgnorePrecision | hopperUtil.py:34 | the requested precision never changes the call |
| Variables.ConstructMdtModel | hopperUtil.py:19-36 | a fresh copy with dt fixed, and the radix call computed from the input's bounds |
| Variables.FirstOfSameComponents | hopperUtil.py:20-31 | fixing dt on the clone does not move the records the bounds are read from |
| Variables.SetBranchPriorities | hopperUtil.py:38-39 | the `z` component gets priority 1 iff some record belongs to it; other priorities are unchanged |

## Left out

- Pyomo's `Piecewise` encoding of cos and sin (hopper.py:161-168). Only the breakpoints passed to it are modelled; `cth` and `sth` are free variables.
- The disjunction lowering (hopper.py:354-356). Its library code is not part of this model. A disjunction is modelled as "the constraints of some listed disjunct hold"; exactly-one indicator semantics are not modelled.
- `McCormickEnvelope` and `RadixLinearization` (hopperUtil.py:15-16, 25-36). These are library transformations not part of this model. Only what the repository passes to them is modelled.
- The MATLAB bridge (hopper.py:43-44, 52, 81-96). The moment of inertia and the hip offsets are constructor parameters instead; the moment of inertia is required to be positive.
- The solver factories and option strings (hopperUtil.py:42-64). They only configure external engines.
- `_bvRule` and `basisVectors` (hopper.py:106-120). They are trigonometric and feed only a commented-out constraint.
- `extractRegionIndicators` (hopperUtil.py:87-88). It reads attribute names that the lowering library generates.
- Extraction.ExtractBodyRegionIndicators: the indicator values are a parameter, because their variables are created by the lowering library.
- `testHopper` (hopper.py:360-409). It only sets up an objective and boundary conditions.
- The commented-out constraints: leg length, hip torque, periodic foot and maximum vertical velocity.
- The body-region disjunction, commented out at hopper.py:352. Only its candidate list is modelled. The body disjuncts themselves are still built (hopper.py:343). They are modelled by `BodyRegionConstraints`, and `CatalogBuilds` states the condition they put on the catalog. The abort of `constructPyomoModel` on a catalog that does not build is not modelled as an operation.
- HopperModel.Hopper.constructor: the horizon must be at least 1 and the moment of inertia positive. The source fails on an empty time set at hopper.py:150 and divides by the inertia at hopper.py:244 and 253. A negative inertia, which the source would accept, is excluded.
- Extraction.FootTable: with no feet, `np.dstack` of an empty list raises (hopperUtil.py:76, 79, 82). The model returns a table with empty entries instead.
- Extraction.ExtractBodyRegionIndicators: with an empty catalog, `np.vstack` of an empty list raises (hopperUtil.py:97). The model returns an empty table instead.
- The variable bounds other than those of `dt` (hopper.py:127-147). The model does not add them as constraints.
- Regions.PlatformRegion: the `'%f'` formatting at hopper.py:49 rounds the platform ends to six decimals; the model keeps them exact.
- HopperModel.Hopper.AddRegion: keyword values are typed by key (a matrix for `A`, a column for `b`, and so on). Python would store any object under a recognised key.
- HopperModel.Hopper.AddRegion: keywords are a sequence applied in order, last one wins. Python's `**kwargs` has unique keys in an unspecified order, which coincides when keys are unique.
- HopperModel.Hopper.constructor: `rotationMax` is 2*pi in the source. It is a parameter here because reals in the model are exact rationals.
- FootRegions.StackedSystem: numpy's error kinds (unbound `b`, a `b` too short for `A`, `atleast_2d(None)`) are collapsed into three `GeometryError` values.
- FootRegions.StackedSystem: `b` is only read when `A` is given and `beq` only when `Aeq` is given, as in the code. A `b` longer than `A` would shift the stacked right-hand sides, and the model keeps that too.
- Variables.MdtRadixCall: the digit count is `1 + 0*int(ceil(-log2(desiredPrecision/maxVal)))` at hopperUtil.py:34, which is always 1. The model follows that code, not a digit count that depends on the precision. The conditions under which Python's log2 and int raise (maxVal = 0, a non-positive ratio) are modelled by sign only.
- Variables.SetBranchPriorities: a component's `branchPriority` attribute is modelled as an entry of a map from component names.
- Floating point: the source computes with Python floats and numpy. The model uses exact reals, so rounding is not modelled.
