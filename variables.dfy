/** Variable-flag passes of hopperUtil.py (hopperUtil.py:9-40, 99-109).

    A Pyomo model's scalar variables are an array of `VarData` records: the
    name of the owning component, whether the domain is continuous, the
    fixed flag, the current value and the bounds.  The library passes these
    functions hand the model to (McCormick envelope, radix linearization)
    are not part of this model; what the repository passes to them is. */
module Variables {
  import opened Wrappers

  datatype VarData = VarData(component: string, continuous: bool, fixed: bool, value: real, lb: real, ub: real)

  // ----- fixIntegerVariables / unfixIntegerVariables -----

  /** One step of `fixIntegerVariables` (hopperUtil.py:101-103). */
  function FixIfInteger(v: VarData): (r: VarData)
    ensures r.fixed == (v.fixed || !v.continuous)
    ensures r.(fixed := v.fixed) == v
  {
    if !v.continuous then v.(fixed := true) else v
  }

  /** One step of `unfixIntegerVariables` (hopperUtil.py:107-109). */
  function UnfixIfInteger(v: VarData): (r: VarData)
    ensures r.fixed == (v.fixed && v.continuous)
    ensures r.(fixed := v.fixed) == v
  {
    if !v.continuous then v.(fixed := false) else v
  }

  /** Fixing twice is fixing once. */
  lemma FixIdempotent(v: VarData)
    ensures FixIfInteger(FixIfInteger(v)) == FixIfInteger(v)
  {
  }

  /** Fix followed by unfix leaves every non-continuous variable unfixed,
      whatever it was before, and is the same as unfixing alone. */
  lemma FixThenUnfix(v: VarData)
    ensures UnfixIfInteger(FixIfInteger(v)) == UnfixIfInteger(v)
    ensures !v.continuous ==> !UnfixIfInteger(FixIfInteger(v)).fixed
  {
  }

  method FixIntegerVariables(vars: array<VarData>)
    modifies vars
    ensures forall i :: 0 <= i < vars.Length ==> vars[i] == FixIfInteger(old(vars[i]))
  {
    var i := 0;
    while i < vars.Length
      invariant 0 <= i <= vars.Length
      invariant forall j :: 0 <= j < i ==> vars[j] == FixIfInteger(old(vars[j]))
      invariant forall j :: i <= j < vars.Length ==> vars[j] == old(vars[j])
    {
      if !vars[i].continuous {
        vars[i] := vars[i].(fixed := true);
      }
      i := i + 1;
    }
  }

  method UnfixIntegerVariables(vars: array<VarData>)
    modifies vars
    ensures forall i :: 0 <= i < vars.Length ==> vars[i] == UnfixIfInteger(old(vars[i]))
  {
    var i := 0;
    while i < vars.Length
      invariant 0 <= i <= vars.Length
      invariant forall j :: 0 <= j < i ==> vars[j] == UnfixIfInteger(old(vars[j]))
      invariant forall j :: i <= j < vars.Length ==> vars[j] == old(vars[j])
    {
      if !vars[i].continuous {
        vars[i] := vars[i].(fixed := false);
      }
      i := i + 1;
    }
  }

  // ----- m.dt.fix(dt) / m.dt.fix() on a clone -----

  const DtComponent: string := "dt"

  /** `m.dt.fix(dt)` on one record: every dt entry becomes fixed, at the
      given value if there is one, at its current value otherwise. */
  function FixDtRecord(v: VarData, dt: Option<real>): (r: VarData)
    ensures v.component != DtComponent ==> r == v
    ensures v.component == DtComponent ==> r.fixed && r.value == (if dt.Some? then dt.value else v.value)
    ensures r.(fixed := v.fixed, value := v.value) == v
  {
    if v.component == DtComponent then
      v.(fixed := true, value := if dt.Some? then dt.value else v.value)
    else v
  }

  /** `m = m_nlp.clone()` followed by the dt fixing of hopperUtil.py:10-14
      (and 20-24): the copy has every dt entry fixed, the input is left as
      it was. */
  method CloneAndFixDt(m: array<VarData>, dt: Option<real>) returns (c: array<VarData>)
    ensures fresh(c) && c.Length == m.Length
    ensures forall i :: 0 <= i < c.Length ==> c[i] == FixDtRecord(m[i], dt)
  {
    c := new VarData[m.Length](i reads m requires 0 <= i < m.Length => m[i]);
    var i := 0;
    while i < c.Length
      invariant 0 <= i <= c.Length
      invariant forall j :: 0 <= j < i ==> c[j] == FixDtRecord(m[j], dt)
      invariant forall j :: i <= j < c.Length ==> c[j] == m[j]
    {
      if c[i].component == DtComponent {
        c[i] := c[i].(fixed := true, value := if dt.Some? then dt.value else c[i].value);
      }
      i := i + 1;
    }
  }

  // ----- constructMDTModel: arguments handed to the radix linearization -----

  /** What `constructMDTModel` passes to `RadixLinearization`: the radix,
      the digit count and the components to discretize. */
  datatype RadixCall = RadixCall(radix: nat, precision: int, discretize: seq<string>)

  datatype MdtError =
    | MissingComponent(name: string)   // `.values()[0]` of an empty component
    | ZeroRange                        // desiredPrecision/maxVal divides by zero
    | NonFiniteDigits                  // int() of the NaN or infinity log2 gives

  /** Index of the first record owned by `comp`, if any. */
  function FirstOf(vars: seq<VarData>, comp: string): (r: Option<nat>)
    ensures r.Some? ==> r.value < |vars| && vars[r.value].component == comp
                        && forall j :: 0 <= j < r.value ==> vars[j].component != comp
    ensures r.None? ==> forall j :: 0 <= j < |vars| ==> vars[j].component != comp
  {
    if vars == [] then None
    else if vars[0].component == comp then Some(0)
    else
      var rest := FirstOf(vars[1..], comp);
      if rest.Some? then Some(rest.value + 1) else None
  }

  /** The product of the two bound spans (hopperUtil.py:29-33). */
  function MaxVal(f: VarData, frc: VarData): real
  {
    (f.ub - f.lb) * (frc.ub - frc.lb)
  }

  /** hopperUtil.py:25-36.  The digit count is `1 + 0*int(ceil(-log2(p/maxVal)))`,
      so whenever the logarithm can be taken the count is 1.  The logarithm
      fails when p/maxVal is not positive (NaN or infinity reaches `int`). */
  function MdtRadixCall(vars: seq<VarData>, desiredPrecision: real): (r: Result<RadixCall, MdtError>)
    ensures r.Success? ==> r.value == RadixCall(2, 1, ["f"])
    ensures r.Success? <==>
              && FirstOf(vars, "f").Some? && FirstOf(vars, "footRelativeToCOM").Some?
              && var m := MaxVal(vars[FirstOf(vars, "f").value], vars[FirstOf(vars, "footRelativeToCOM").value]);
                 m != 0.0 && desiredPrecision / m > 0.0
  {
    var fi := FirstOf(vars, "f");
    if fi.None? then Failure(MissingComponent("f"))
    else
      var pi := FirstOf(vars, "footRelativeToCOM");
      if pi.None? then Failure(MissingComponent("footRelativeToCOM"))
      else
        var maxVal := MaxVal(vars[fi.value], vars[pi.value]);
        if maxVal == 0.0 then Failure(ZeroRange)
        else if desiredPrecision / maxVal <= 0.0 then Failure(NonFiniteDigits)
        else Success(RadixCall(2, 1, ["f"]))
  }

  /** The requested precision never changes the digit count. */
  lemma MdtDigitsIgnorePrecision(vars: seq<VarData>, p1: real, p2: real)
    requires MdtRadixCall(vars, p1).Success? && MdtRadixCall(vars, p2).Success?
    ensures MdtRadixCall(vars, p1) == MdtRadixCall(vars, p2)
  {
  }

  /** `constructMDTModel` up to the library call: clone, fix dt, and work
      out the radix-linearization arguments. */
  method ConstructMdtModel(m: array<VarData>, desiredPrecision: real, dt: Option<real>)
    returns (c: array<VarData>, call: Result<RadixCall, MdtError>)
    ensures fresh(c) && c.Length == m.Length
    ensures forall i :: 0 <= i < c.Length ==> c[i] == FixDtRecord(m[i], dt)
    ensures call == MdtRadixCall(m[..], desiredPrecision)
  {
    c := CloneAndFixDt(m, dt);
    assert forall i :: 0 <= i < c.Length ==> c[i].component == m[i].component;
    assert forall i :: 0 <= i < c.Length ==> c[i].lb == m[i].lb && c[i].ub == m[i].ub;
    FirstOfSameComponents(c[..], m[..], "f");
    FirstOfSameComponents(c[..], m[..], "footRelativeToCOM");
    call := MdtRadixCall(c[..], desiredPrecision);
  }

  lemma {:induction false} FirstOfSameComponents(s: seq<VarData>, u: seq<VarData>, comp: string)
    requires |s| == |u| && forall i :: 0 <= i < |s| ==> s[i].component == u[i].component && s[i].lb == u[i].lb && s[i].ub == u[i].ub
    ensures FirstOf(s, comp) == FirstOf(u, comp)
  {
    if s != [] {
      FirstOfSameComponents(s[1..], u[1..], comp);
    }
  }

  /** hopperUtil.py:38-39: every component that owns a `z` entry gets branch
      priority 1; other components keep theirs. */
  method SetBranchPriorities(vars: array<VarData>, priority: map<string, int>) returns (p: map<string, int>)
    ensures p == if exists i :: 0 <= i < vars.Length && vars[i].component == "z" then priority["z" := 1] else priority
  {
    p := priority;
    var i := 0;
    while i < vars.Length
      invariant 0 <= i <= vars.Length
      invariant p == if exists j :: 0 <= j < i && vars[j].component == "z" then priority["z" := 1] else priority
    {
      if vars[i].component == "z" {
        p := p[vars[i].component := 1];
      }
      i := i + 1;
    }
  }
}
