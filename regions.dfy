/** The region catalog's entries (hopper.py:47-79).

    A region is what `Hopper.addRegion` stores: a dictionary with the six
    keys A, b, Aeq, beq, normal, mu.  Matrices have two columns (x, z) and
    are kept as sequences of rows; right-hand sides are columns of reals. */
module Regions {
  import opened Wrappers
  import opened Expressions

  /** One row [a_x, a_z] of a two-column constraint matrix. */
  datatype Row = Row(ax: real, az: real)

  type Matrix = seq<Row>

  type Column = seq<real>

  function Dot(row: Row, p: Vec2): real
  {
    row.ax * p.x + row.az * p.z
  }

  /** `None` stands for a key that was never given a value. */
  datatype Region = Region(
    A: Option<Matrix>,
    b: Option<Column>,
    Aeq: Option<Matrix>,
    beq: Option<Column>,
    normal: Vec2,
    mu: real)

  /** The keys of a region dictionary (hopper.py:73). */
  const RegionKeys: seq<string> := ["A", "b", "Aeq", "beq", "normal", "mu"]

  /** A fresh entry: every key None, then normal = (0, 0) and mu = 0
      (hopper.py:73-75). */
  const DefaultRegion: Region := Region(None, None, None, None, Vec2(0.0, 0.0), 0.0)

  /** A keyword argument's value.  `NoneValue` is Python's `None`. */
  datatype ArgValue =
    | NoneValue
    | MatrixValue(m: Matrix)
    | ColumnValue(c: Column)
    | VectorValue(v: Vec2)
    | RealValue(r: real)

  /** One keyword argument `key=value` of `addRegion`. */
  datatype Arg = Arg(key: string, value: ArgValue)

  /** The value shape a recognised key holds; any value under any other key. */
  predicate WellTyped(arg: Arg)
  {
    && (arg.key == "A" || arg.key == "Aeq" ==> arg.value.NoneValue? || arg.value.MatrixValue?)
    && (arg.key == "b" || arg.key == "beq" ==> arg.value.NoneValue? || arg.value.ColumnValue?)
    && (arg.key == "normal" ==> arg.value.VectorValue?)
    && (arg.key == "mu" ==> arg.value.RealValue?)
  }

  predicate AllWellTyped(kwargs: seq<Arg>)
  {
    forall i :: 0 <= i < |kwargs| ==> WellTyped(kwargs[i])
  }

  function MatrixField(m: Option<Matrix>): ArgValue
  {
    if m.Some? then MatrixValue(m.value) else NoneValue
  }

  function ColumnField(c: Option<Column>): ArgValue
  {
    if c.Some? then ColumnValue(c.value) else NoneValue
  }

  /** `region[key]`, the entry of the dictionary under a recognised key. */
  function Field(reg: Region, key: string): ArgValue
  {
    if key == "A" then MatrixField(reg.A)
    else if key == "b" then ColumnField(reg.b)
    else if key == "Aeq" then MatrixField(reg.Aeq)
    else if key == "beq" then ColumnField(reg.beq)
    else if key == "normal" then VectorValue(reg.normal)
    else RealValue(reg.mu)
  }

  /** `region[key] = value` for a recognised key (hopper.py:79): that entry
      reads back as `value` and every other entry is unchanged. */
  function SetField(reg: Region, key: string, value: ArgValue): (r: Region)
    requires key in RegionKeys && WellTyped(Arg(key, value))
    ensures Field(r, key) == value
    ensures forall k :: k in RegionKeys && k != key ==> Field(r, k) == Field(reg, k)
  {
    if key == "A" then reg.(A := if value.MatrixValue? then Some(value.m) else None)
    else if key == "b" then reg.(b := if value.ColumnValue? then Some(value.c) else None)
    else if key == "Aeq" then reg.(Aeq := if value.MatrixValue? then Some(value.m) else None)
    else if key == "beq" then reg.(beq := if value.ColumnValue? then Some(value.c) else None)
    else if key == "normal" then reg.(normal := value.v)
    else reg.(mu := value.r)
  }

  /** The entry produced by the keyword loop of hopper.py:76-79, applied to
      the arguments left to right: a recognised key overwrites its entry,
      any other key is skipped. */
  function ApplyArgs(reg: Region, kwargs: seq<Arg>): Region
    requires AllWellTyped(kwargs)
  {
    if kwargs == [] then reg
    else
      var before := ApplyArgs(reg, kwargs[..|kwargs| - 1]);
      var last := kwargs[|kwargs| - 1];
      if last.key in RegionKeys then SetField(before, last.key, last.value) else before
  }

  /** One more argument applies after all the earlier ones. */
  lemma ApplyArgsSnoc(reg: Region, kwargs: seq<Arg>, arg: Arg)
    requires AllWellTyped(kwargs) && WellTyped(arg)
    ensures AllWellTyped(kwargs + [arg])
    ensures ApplyArgs(reg, kwargs + [arg])
            == if arg.key in RegionKeys then SetField(ApplyArgs(reg, kwargs), arg.key, arg.value)
               else ApplyArgs(reg, kwargs)
  {
    assert (kwargs + [arg])[..|kwargs|] == kwargs;
  }

  /** `addRegion(A=a, b=b)` sets exactly those two entries. */
  lemma ApplyInequalityArgs(a: Matrix, b: Column)
    ensures AllWellTyped([Arg("A", MatrixValue(a)), Arg("b", ColumnValue(b))])
    ensures ApplyArgs(DefaultRegion, [Arg("A", MatrixValue(a)), Arg("b", ColumnValue(b))])
            == DefaultRegion.(A := Some(a), b := Some(b))
  {
    var argA, argB := Arg("A", MatrixValue(a)), Arg("b", ColumnValue(b));
    ApplyArgsSnoc(DefaultRegion, [], argA);
    ApplyArgsSnoc(DefaultRegion, [argA], argB);
    assert [] + [argA] == [argA] && [argA] + [argB] == [argA, argB];
    assert ApplyArgs(DefaultRegion, [argA]) == DefaultRegion.(A := Some(a));
  }

  /** The value of the last argument named `key`, if any. */
  function Lookup(kwargs: seq<Arg>, key: string): Option<ArgValue>
  {
    if kwargs == [] then None
    else if kwargs[|kwargs| - 1].key == key then Some(kwargs[|kwargs| - 1].value)
    else Lookup(kwargs[..|kwargs| - 1], key)
  }

  /** Every entry of the built region is the last value passed for its key,
      or the entry it had before when no argument names it. */
  lemma {:induction false} ApplyArgsLookup(reg: Region, kwargs: seq<Arg>, key: string)
    requires AllWellTyped(kwargs) && key in RegionKeys
    ensures Field(ApplyArgs(reg, kwargs), key)
            == (match Lookup(kwargs, key) case Some(v) => v case None => Field(reg, key))
  {
    if kwargs != [] {
      ApplyArgsLookup(reg, kwargs[..|kwargs| - 1], key);
    }
  }

  /** The arguments whose key is one of the six recognised keys. */
  function Recognised(kwargs: seq<Arg>): (r: seq<Arg>)
    ensures forall i :: 0 <= i < |r| ==> r[i].key in RegionKeys
  {
    if kwargs == [] then []
    else if kwargs[|kwargs| - 1].key in RegionKeys
    then Recognised(kwargs[..|kwargs| - 1]) + [kwargs[|kwargs| - 1]]
    else Recognised(kwargs[..|kwargs| - 1])
  }

  lemma {:induction false} RecognisedWellTyped(kwargs: seq<Arg>)
    requires AllWellTyped(kwargs)
    ensures AllWellTyped(Recognised(kwargs))
  {
    if kwargs != [] {
      RecognisedWellTyped(kwargs[..|kwargs| - 1]);
    }
  }

  /** Unknown keyword arguments are silently ignored: dropping them gives the
      same region. */
  lemma {:induction false} UnknownKeysIgnored(reg: Region, kwargs: seq<Arg>)
    requires AllWellTyped(kwargs)
    ensures AllWellTyped(Recognised(kwargs))
    ensures ApplyArgs(reg, kwargs) == ApplyArgs(reg, Recognised(kwargs))
  {
    RecognisedWellTyped(kwargs);
    if kwargs != [] {
      var init := kwargs[..|kwargs| - 1];
      UnknownKeysIgnored(reg, init);
      RecognisedWellTyped(init);
      var last := kwargs[|kwargs| - 1];
      if last.key in RegionKeys {
        var rs := Recognised(init) + [last];
        assert rs[..|rs| - 1] == Recognised(init);
      }
    }
  }

  /** The rows `A·p <= b` all hold. */
  predicate RowsHold(rows: Matrix, rhs: Column, p: Vec2)
    requires |rhs| >= |rows|
  {
    forall i :: 0 <= i < |rows| ==> Dot(rows[i], p) <= rhs[i]
  }

  lemma RowsHoldConcat(r1: Matrix, b1: Column, r2: Matrix, b2: Column, p: Vec2)
    requires |b1| == |r1| && |b2| == |r2|
    ensures RowsHold(r1 + r2, b1 + b2, p) <==> RowsHold(r1, b1, p) && RowsHold(r2, b2, p)
  {
    if RowsHold(r1 + r2, b1 + b2, p) {
      forall i | 0 <= i < |r1| ensures Dot(r1[i], p) <= b1[i] {
        assert (r1 + r2)[i] == r1[i] && (b1 + b2)[i] == b1[i];
      }
      forall i | 0 <= i < |r2| ensures Dot(r2[i], p) <= b2[i] {
        assert (r1 + r2)[|r1| + i] == r2[i] && (b1 + b2)[|b1| + i] == b2[i];
      }
    }
  }

  /** The geometry can be turned into constraints: some rows exist and every
      matrix has a right-hand side of matching length. */
  predicate WellFormed(reg: Region)
  {
    && (reg.A.Some? || reg.Aeq.Some?)
    && (reg.A.Some? ==> reg.b.Some? && |reg.b.value| == |reg.A.value|)
    && (reg.Aeq.Some? ==> reg.beq.Some? && |reg.beq.value| == |reg.Aeq.value|)
  }

  /** The polytope the region describes: `A·p <= b` and `Aeq·p == beq`. */
  predicate InRegion(reg: Region, p: Vec2)
    requires WellFormed(reg)
  {
    && (reg.A.Some? ==> RowsHold(reg.A.value, reg.b.value, p))
    && (reg.Aeq.Some? ==> forall i :: 0 <= i < |reg.Aeq.value| ==> Dot(reg.Aeq.value[i], p) == reg.beq.value[i])
  }

  function RowIf(bound: Option<real>, row: Row): Matrix
  {
    if bound.Some? then [row] else []
  }

  function RhsIf(bound: Option<real>, sign: real): Column
  {
    if bound.Some? then [sign * bound.value] else []
  }

  function CountSome(left: Option<real>, right: Option<real>, top: Option<real>, bottom: Option<real>): nat
  {
    (if left.Some? then 1 else 0) + (if right.Some? then 1 else 0)
    + (if top.Some? then 1 else 0) + (if bottom.Some? then 1 else 0)
  }

  /** The rows of a free block (hopper.py:55-68): one per given bound, in
      the order left, right, top, bottom. */
  function FreeBlockRows(left: Option<real>, right: Option<real>, top: Option<real>, bottom: Option<real>): (rows: Matrix)
    ensures |rows| == CountSome(left, right, top, bottom)
  {
    RowIf(left, Row(-1.0, 0.0)) + RowIf(right, Row(1.0, 0.0))
    + RowIf(top, Row(0.0, 1.0)) + RowIf(bottom, Row(0.0, -1.0))
  }

  function FreeBlockRhs(left: Option<real>, right: Option<real>, top: Option<real>, bottom: Option<real>): (rhs: Column)
    ensures |rhs| == CountSome(left, right, top, bottom)
  {
    RhsIf(left, -1.0) + RhsIf(right, 1.0) + RhsIf(top, 1.0) + RhsIf(bottom, -1.0)
  }

  /** The region `addFreeBlock` adds: only A and b set, so mu = 0. */
  function FreeBlockRegion(left: Option<real>, right: Option<real>, top: Option<real>, bottom: Option<real>): Region
  {
    DefaultRegion.(A := Some(FreeBlockRows(left, right, top, bottom)),
                   b := Some(FreeBlockRhs(left, right, top, bottom)))
  }

  /** The rows contributed by one optional bound hold iff the bound, when
      given, holds. */
  lemma RowIfMeaning(bound: Option<real>, row: Row, sign: real, p: Vec2)
    ensures RowsHold(RowIf(bound, row), RhsIf(bound, sign), p) <==> (bound.Some? ==> Dot(row, p) <= sign * bound.value)
  {
    if bound.Some? {
      assert RowIf(bound, row)[0] == row;
    }
  }

  /** A point lies in a free block iff it is within every given bound. */
  lemma FreeBlockContainment(left: Option<real>, right: Option<real>, top: Option<real>, bottom: Option<real>, p: Vec2)
    requires CountSome(left, right, top, bottom) > 0
    ensures WellFormed(FreeBlockRegion(left, right, top, bottom))
    ensures FreeBlockRegion(left, right, top, bottom).mu == 0.0
    ensures InRegion(FreeBlockRegion(left, right, top, bottom), p)
            <==> && (left.Some? ==> left.value <= p.x)
                 && (right.Some? ==> p.x <= right.value)
                 && (top.Some? ==> p.z <= top.value)
                 && (bottom.Some? ==> bottom.value <= p.z)
  {
    var l, lb := RowIf(left, Row(-1.0, 0.0)), RhsIf(left, -1.0);
    var r, rb := RowIf(right, Row(1.0, 0.0)), RhsIf(right, 1.0);
    var t, tb := RowIf(top, Row(0.0, 1.0)), RhsIf(top, 1.0);
    var b, bb := RowIf(bottom, Row(0.0, -1.0)), RhsIf(bottom, -1.0);
    RowsHoldConcat(l, lb, r, rb, p);
    RowsHoldConcat(l + r, lb + rb, t, tb, p);
    RowsHoldConcat(l + r + t, lb + rb + tb, b, bb, p);
    RowIfMeaning(left, Row(-1.0, 0.0), -1.0, p);
    RowIfMeaning(right, Row(1.0, 0.0), 1.0, p);
    RowIfMeaning(top, Row(0.0, 1.0), 1.0, p);
    RowIfMeaning(bottom, Row(0.0, -1.0), -1.0, p);
    assert Dot(Row(-1.0, 0.0), p) == -p.x && Dot(Row(1.0, 0.0), p) == p.x;
    assert Dot(Row(0.0, 1.0), p) == p.z && Dot(Row(0.0, -1.0), p) == -p.z;
  }

  /** The region `addPlatform` adds (hopper.py:47-51): the segment
      start <= x <= end at height z, with upward normal and friction mu. */
  function PlatformRegion(start: real, end: real, height: real, mu: real): Region
  {
    Region(Some([Row(-1.0, 0.0), Row(1.0, 0.0)]), Some([-start, end]),
           Some([Row(0.0, 1.0)]), Some([height]), Vec2(0.0, 1.0), mu)
  }

  /** The keyword arguments `addPlatform` passes to `addRegion`
      (hopper.py:48-51). */
  function PlatformArgs(start: real, end: real, height: real, mu: real): seq<Arg>
  {
    [Arg("A", MatrixValue([Row(-1.0, 0.0), Row(1.0, 0.0)])),
     Arg("b", ColumnValue([-start, end])),
     Arg("Aeq", MatrixValue([Row(0.0, 1.0)])),
     Arg("beq", ColumnValue([height])),
     Arg("normal", VectorValue(Vec2(0.0, 1.0))),
     Arg("mu", RealValue(mu))]
  }

  /** Those arguments build exactly the platform region. */
  lemma ApplyPlatformArgs(start: real, end: real, height: real, mu: real)
    ensures AllWellTyped(PlatformArgs(start, end, height, mu))
    ensures ApplyArgs(DefaultRegion, PlatformArgs(start, end, height, mu)) == PlatformRegion(start, end, height, mu)
  {
    var args := PlatformArgs(start, end, height, mu);
    var r := PlatformRegion(start, end, height, mu);
    PlatformArgsPrefix(start, end, height, mu);
    ApplyArgsSnoc(DefaultRegion, args[..3], args[3]);
    assert args[..3] + [args[3]] == args[..4];
    ApplyArgsSnoc(DefaultRegion, args[..4], args[4]);
    assert args[..4] + [args[4]] == args[..5];
    ApplyArgsSnoc(DefaultRegion, args[..5], args[5]);
    assert args[..5] + [args[5]] == args;
  }

  lemma PlatformArgsPrefix(start: real, end: real, height: real, mu: real)
    ensures AllWellTyped(PlatformArgs(start, end, height, mu)[..3])
    ensures ApplyArgs(DefaultRegion, PlatformArgs(start, end, height, mu)[..3])
            == PlatformRegion(start, end, height, mu).(beq := None, normal := Vec2(0.0, 0.0), mu := 0.0)
  {
    var args := PlatformArgs(start, end, height, mu);
    ApplyArgsSnoc(DefaultRegion, [], args[0]);
    assert [] + [args[0]] == args[..1];
    ApplyArgsSnoc(DefaultRegion, args[..1], args[1]);
    assert args[..1] + [args[1]] == args[..2];
    ApplyArgsSnoc(DefaultRegion, args[..2], args[2]);
    assert args[..2] + [args[2]] == args[..3];
  }

  /** A point lies on a platform iff it is within its x-extent at exactly its
      height. */
  lemma PlatformContainment(start: real, end: real, height: real, mu: real, p: Vec2)
    ensures WellFormed(PlatformRegion(start, end, height, mu))
    ensures InRegion(PlatformRegion(start, end, height, mu), p)
            <==> start <= p.x <= end && p.z == height
  {
    var reg := PlatformRegion(start, end, height, mu);
    if start <= p.x <= end && p.z == height {
      assert RowsHold(reg.A.value, reg.b.value, p) by {
        forall i | 0 <= i < 2 ensures Dot(reg.A.value[i], p) <= reg.b.value[i] {
          if i == 0 { assert Dot(reg.A.value[0], p) == -p.x; }
        }
      }
    }
    if InRegion(reg, p) {
      assert Dot(reg.A.value[0], p) <= reg.b.value[0];
      assert Dot(reg.A.value[1], p) <= reg.b.value[1];
      assert Dot(reg.Aeq.value[0], p) == reg.beq.value[0];
    }
  }
}
