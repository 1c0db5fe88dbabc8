/** Field placement of the 2014 front end: the pass of `finalizeSize` that
    calls `setFieldOffset` on every member, in member order, with one shared
    cursor. Each instance field is either skipped, reported as having the
    struct's own type, flagged as a forward reference, or placed with
    `placeField` and appended to `fields`. */
module DfrontendFields {
  import opened Bits
  import opened DfrontendTypes
  import opened DfrontendLayout

  /** What the pass works on, fixed for its whole run: the declaration table,
      the index of the aggregate being laid out, its members, the size of
      each member as laid out (read from the table, which the pass does not
      change), whether it is a union, and the target's pointer width. */
  datatype LayoutEnv = LayoutEnv(
    decls: seq<StructDecl>,
    self: nat,
    members: seq<VarDecl>,
    sizes: seq<nat>,
    isUnion: bool,
    is64bit: bool)

  /** What the pass has built so far: one offset per member, the field list,
      the aggregate's size and alignment, whether a forward reference was
      met (`sizeok = SIZEOKfwd`), the shared cursor and the diagnostics. */
  datatype LayoutState = LayoutState(
    offsets: seq<nat>,
    fields: seq<nat>,
    structsize: nat,
    alignsize: nat,
    fwd: bool,
    cursor: nat,
    diags: seq<Diag>)

  /** What `setFieldOffset` does with a member. */
  datatype FieldAction = NotPlaced | SelfTyped | ForwardRef | Placed

  /** Every declaration whose size is done has a power-of-two alignment. */
  predicate DoneAligned(decls: seq<StructDecl>)
  {
    forall j :: 0 <= j < |decls| && decls[j].sizeok == SizeOkDone ==> IsPow2(decls[j].alignsize)
  }

  /** The members' types name declarations of the table and their alignments
      are valid. */
  predicate MembersOk(n: nat, members: seq<VarDecl>)
  {
    forall k :: 0 <= k < |members| ==> WellFormedType(n, members[k].ty) && ValidAlignment(members[k].align)
  }

  /** The size a field occupies in the layout. */
  function FieldSize(decls: seq<StructDecl>, v: VarDecl, is64bit: bool): nat
  {
    TypeSize(decls, LayoutType(v, is64bit))
  }

  /** The alignment requirement a field is placed with. */
  function FieldAlignSize(decls: seq<StructDecl>, v: VarDecl, is64bit: bool): nat
  {
    TypeAlignSize(decls, LayoutType(v, is64bit))
  }

  /** The environment is fit for layout: done declarations are aligned, the
      members are well formed and there is one size per member. */
  predicate EnvOk(env: LayoutEnv)
  {
    DoneAligned(env.decls) && MembersOk(|env.decls|, env.members) && |env.sizes| == |env.members|
  }

  /** The sizes recorded in the environment are those of the members' types. */
  predicate SizesRead(env: LayoutEnv)
  {
    |env.sizes| == |env.members|
    && forall k :: 0 <= k < |env.members| ==> env.sizes[k] == FieldSize(env.decls, env.members[k], env.is64bit)
  }

  /** The environment for laying out declaration `self` of the table. */
  function MakeEnv(decls: seq<StructDecl>, self: nat, sd: StructDecl, is64bit: bool): (env: LayoutEnv)
    ensures SizesRead(env)
    ensures env.decls == decls && env.self == self && env.members == sd.members
    ensures env.isUnion == sd.isUnion && env.is64bit == is64bit
  {
    LayoutEnv(decls, self, sd.members,
              seq(|sd.members|, k requires 0 <= k < |sd.members| => FieldSize(decls, sd.members[k], is64bit)),
              sd.isUnion, is64bit)
  }

  lemma {:induction false} BaseElemWellFormed(n: nat, t: Type)
    requires WellFormedType(n, t)
    ensures WellFormedType(n, BaseElem(t))
  {
    if t.SArray? {
      BaseElemWellFormed(n, t.elem);
    }
  }

  lemma {:induction false} AlignSizeOfBaseElem(decls: seq<StructDecl>, t: Type)
    ensures TypeAlignSize(decls, t) == TypeAlignSize(decls, BaseElem(t))
  {
    if t.SArray? {
      AlignSizeOfBaseElem(decls, t.elem);
    }
  }

  /** How `setFieldOffset` treats member `k`: a member that is not an
      instance field, or is one already, is skipped; a field whose element
      type is the struct itself is reported; a field whose element type is an
      unresolved identifier type, or a struct not yet sized, makes the
      aggregate a forward reference; every other field is placed. */
  function Classify(env: LayoutEnv, fields: seq<nat>, k: nat): FieldAction
    requires k < |env.members|
  {
    var v := env.members[k];
    if !IsField(v) || k in fields then NotPlaced
    else
      var b := BaseElem(LayoutType(v, env.is64bit));
      if b == Struct(env.self) then SelfTyped
      else if b.Unresolved? || (b.Struct? && !(b.sym < |env.decls| && env.decls[b.sym].sizeok == SizeOkDone)) then ForwardRef
      else Placed
  }

  /** The alignment requirement member `k` is placed with. */
  function AlignOf(env: LayoutEnv, k: nat): nat
    requires k < |env.members|
  {
    FieldAlignSize(env.decls, env.members[k], env.is64bit)
  }

  /** A field that is placed has a power-of-two alignment requirement, so
      the assertion in `alignmember` holds for it. */
  lemma PlacedAlignOk(env: LayoutEnv, fields: seq<nat>, k: nat)
    requires EnvOk(env) && k < |env.members|
    requires Classify(env, fields, k) == Placed
    ensures IsPow2(AlignOf(env, k))
    ensures AlignArgsOk(env.members[k].align, AlignOf(env, k))
  {
    var t := LayoutType(env.members[k], env.is64bit);
    assert IsPow2(4) && IsPow2(8) by {
      assert IsPow2(2);
    }
    assert WellFormedType(|env.decls|, t);
    BaseElemWellFormed(|env.decls|, t);
    AlignSizeOfBaseElem(env.decls, t);
  }

  /** The placement `placeField` computes for member `k`. */
  function PlaceMember(env: LayoutEnv, st: LayoutState, k: nat): Placement
    requires k < |env.members| && k < |env.sizes| && AlignArgsOk(env.members[k].align, AlignOf(env, k))
  {
    Place(st.cursor, env.sizes[k], AlignOf(env, k), env.members[k].align,
          st.structsize, st.alignsize, env.isUnion, env.is64bit)
  }

  /** Specification of `setFieldOffset` for member `k`. */
  function FieldOffsetStep(env: LayoutEnv, st: LayoutState, k: nat): (r: LayoutState)
    requires EnvOk(env) && k < |env.members| && |st.offsets| == |env.members|
    ensures |r.offsets| == |env.members|
  {
    match Classify(env, st.fields, k)
    case NotPlaced => st
    case SelfTyped => st.(diags := st.diags + [SameStructType(env.self, k)])
    case ForwardRef => st.(fwd := true)
    case Placed =>
      PlacedAlignOk(env, st.fields, k);
      var p := PlaceMember(env, st, k);
      st.(offsets := st.offsets[k := p.offset], fields := st.fields + [k],
          structsize := p.aggsize, alignsize := p.aggalignsize, cursor := p.nextoffset)
  }

  /** The state after `setFieldOffset` has run on members `0 .. n - 1`. */
  function Layout(env: LayoutEnv, st0: LayoutState, n: nat): (r: LayoutState)
    requires EnvOk(env) && n <= |env.members| && |st0.offsets| == |env.members|
    ensures |r.offsets| == |env.members|
    decreases n
  {
    if n == 0 then st0
    else FieldOffsetStep(env, Layout(env, st0, n - 1), n - 1)
  }

  /** The member loop reports nothing that `size()` reports. */
  lemma {:induction false} LayoutNoSizeReports(env: LayoutEnv, st0: LayoutState, n: nat)
    requires EnvOk(env) && n <= |env.members| && |st0.offsets| == |env.members|
    requires NoSizeReports(st0.diags)
    ensures NoSizeReports(Layout(env, st0, n).diags)
    decreases n
  {
    if n > 0 {
      LayoutNoSizeReports(env, st0, n - 1);
    }
  }

  /** A declaration laid out for the first time, or after an unwind. */
  predicate CleanStart(st: LayoutState)
  {
    st.fields == [] && st.structsize == 0 && st.alignsize == 0 && st.cursor == 0
  }

  /** The end of field `k`'s storage in the layout. */
  function FieldEnd(env: LayoutEnv, offsets: seq<nat>, k: nat): nat
    requires k < |env.sizes| && k < |offsets|
  {
    offsets[k] + env.sizes[k]
  }

  /** Fields are valid distinct member indices. */
  predicate FieldsOk(fields: seq<nat>, n: nat)
  {
    (forall f :: 0 <= f < |fields| ==> fields[f] < n)
    && (forall f, g :: 0 <= f < g < |fields| ==> fields[f] != fields[g])
  }

  /** What one call of `setFieldOffset` changes: a member that is not placed
      leaves offsets, fields, size, alignment and cursor alone; a placed
      member is appended to the fields at the offset `placeField` chose. */
  lemma StepFacts(env: LayoutEnv, st: LayoutState, k: nat)
    requires EnvOk(env) && k < |env.members| && |st.offsets| == |env.members|
    ensures var r := FieldOffsetStep(env, st, k);
      && (Classify(env, st.fields, k) != Placed ==>
            r.offsets == st.offsets && r.fields == st.fields && r.cursor == st.cursor
            && r.structsize == st.structsize && r.alignsize == st.alignsize)
      && (Classify(env, st.fields, k) == Placed ==>
            AlignArgsOk(env.members[k].align, AlignOf(env, k)) && IsPow2(AlignOf(env, k))
            && var p := PlaceMember(env, st, k);
            r.offsets == st.offsets[k := p.offset] && r.fields == st.fields + [k] && k !in st.fields
            && r.cursor == p.nextoffset && r.structsize == p.aggsize && r.alignsize == p.aggalignsize)
  {
    if Classify(env, st.fields, k) == Placed {
      PlacedAlignOk(env, st.fields, k);
    }
  }

  /** One call of `setFieldOffset` keeps the field list made of distinct
      member indices and only appends to it. */
  lemma StepKeepsFields(env: LayoutEnv, st: LayoutState, k: nat, m: nat)
    requires EnvOk(env) && k < |env.members| && |st.offsets| == |env.members|
    requires FieldsOk(st.fields, |env.members|) && m <= |st.fields|
    ensures var r := FieldOffsetStep(env, st, k);
      FieldsOk(r.fields, |env.members|) && m <= |r.fields| && r.fields[..m] == st.fields[..m]
  {
    StepFacts(env, st, k);
    var fs := st.fields + [k];
    assert fs[..m] == st.fields[..m];
  }

  /** One call of `setFieldOffset` keeps the aggregate alignment a power of
      two or, while the aggregate is still empty, zero. */
  lemma StepKeepsAlign(env: LayoutEnv, st: LayoutState, k: nat)
    requires EnvOk(env) && k < |env.members| && |st.offsets| == |env.members|
    requires IsPow2(st.alignsize) || (st.alignsize == 0 && st.structsize == 0)
    ensures var r := FieldOffsetStep(env, st, k);
      IsPow2(r.alignsize) || (r.alignsize == 0 && r.structsize == 0)
  {
    StepFacts(env, st, k);
    if Classify(env, st.fields, k) == Placed {
      PlaceKeepsPow2(st.cursor, env.sizes[k], AlignOf(env, k), env.members[k].align,
                     st.structsize, st.alignsize, env.isUnion, env.is64bit);
    }
  }

  /** The pass keeps the field list made of distinct member indices and
      only appends to it. */
  lemma {:induction false} LayoutKeepsFields(env: LayoutEnv, st0: LayoutState, n: nat)
    requires EnvOk(env) && n <= |env.members| && |st0.offsets| == |env.members|
    requires FieldsOk(st0.fields, |env.members|)
    ensures var r := Layout(env, st0, n);
      FieldsOk(r.fields, |env.members|) && |st0.fields| <= |r.fields| && r.fields[..|st0.fields|] == st0.fields
    decreases n
  {
    if n > 0 {
      LayoutKeepsFields(env, st0, n - 1);
      StepKeepsFields(env, Layout(env, st0, n - 1), n - 1, |st0.fields|);
    }
  }

  /** The pass keeps the aggregate alignment a power of two, or zero while
      the aggregate is empty. */
  lemma {:induction false} LayoutKeepsAlign(env: LayoutEnv, st0: LayoutState, n: nat)
    requires EnvOk(env) && n <= |env.members| && |st0.offsets| == |env.members|
    requires IsPow2(st0.alignsize) || (st0.alignsize == 0 && st0.structsize == 0)
    ensures var r := Layout(env, st0, n);
      IsPow2(r.alignsize) || (r.alignsize == 0 && r.structsize == 0)
    decreases n
  {
    if n > 0 {
      LayoutKeepsAlign(env, st0, n - 1);
      StepKeepsAlign(env, Layout(env, st0, n - 1), n - 1);
    }
  }

  /** Every field sits at offset 0 and ends within the union's size; the
      cursor has not moved. */
  predicate UnionShape(env: LayoutEnv, st: LayoutState)
  {
    |st.offsets| == |env.members| == |env.sizes| && st.cursor == 0
    && (forall f :: 0 <= f < |st.fields| ==>
          st.fields[f] < |env.members| && st.offsets[st.fields[f]] == 0
          && FieldEnd(env, st.offsets, st.fields[f]) <= st.structsize)
  }

  /** The fields among members `0 .. n - 1` follow one another in order
      without overlapping, the last ends at or before the cursor, and the
      running size is the cursor. */
  predicate StructShape(env: LayoutEnv, st: LayoutState, n: nat)
  {
    |st.offsets| == |env.members| == |env.sizes| && n <= |env.members| && st.structsize == st.cursor
    && (forall f :: 0 <= f < |st.fields| ==> st.fields[f] < n)
    && (forall f :: 0 <= f < |st.fields| && st.fields[f] < n ==>
          FieldEnd(env, st.offsets, st.fields[f]) <= st.cursor)
    && (forall f, g :: 0 <= f < g < |st.fields| && st.fields[f] < n && st.fields[g] < n ==>
          FieldEnd(env, st.offsets, st.fields[f]) <= st.offsets[st.fields[g]])
  }

  lemma StepUnionShape(env: LayoutEnv, st: LayoutState, k: nat)
    requires EnvOk(env) && env.isUnion && k < |env.members| && UnionShape(env, st)
    ensures UnionShape(env, FieldOffsetStep(env, st, k))
  {
    StepFacts(env, st, k);
    if Classify(env, st.fields, k) == Placed {
      AlignedOffsetOfAligned(env.members[k].align, AlignOf(env, k), 0);
      var p := PlaceMember(env, st, k);
      PlaceMeaning(0, env.sizes[k], AlignOf(env, k), env.members[k].align,
                   st.structsize, st.alignsize, true, env.is64bit);
      assert p.offset == 0 && st.structsize <= p.aggsize && env.sizes[k] <= p.aggsize;
      var r := FieldOffsetStep(env, st, k);
      assert r.offsets == st.offsets[k := 0] && r.structsize == p.aggsize;
      forall f | 0 <= f < |r.fields|
        ensures r.fields[f] < |env.members| && r.offsets[r.fields[f]] == 0
                && FieldEnd(env, r.offsets, r.fields[f]) <= r.structsize
      {
        if f < |st.fields| {
          var j := st.fields[f];
          assert r.fields[f] == j != k;
          assert r.offsets[j] == st.offsets[j] == 0;
          assert FieldEnd(env, st.offsets, j) <= st.structsize;
        } else {
          assert r.fields[f] == k;
        }
      }
    }
  }

  lemma StepStructShape(env: LayoutEnv, st: LayoutState, k: nat)
    requires EnvOk(env) && !env.isUnion && k < |env.members| && StructShape(env, st, k)
    ensures StructShape(env, FieldOffsetStep(env, st, k), k + 1)
  {
    StepFacts(env, st, k);
    var r := FieldOffsetStep(env, st, k);
    if Classify(env, st.fields, k) == Placed {
      PlaceMeaning(st.cursor, env.sizes[k], AlignOf(env, k), env.members[k].align,
                   st.structsize, st.alignsize, false, env.is64bit);
      forall f | 0 <= f < |st.fields|
        ensures r.fields[f] == st.fields[f] && r.offsets[r.fields[f]] == st.offsets[st.fields[f]]
      {
        assert st.fields[f] != k;
      }
    }
  }

  /** In a union the cursor never moves, so every field of a fresh layout
      sits at offset 0, and the union is as large as its largest field. */
  lemma {:induction false} UnionFieldsAtZero(env: LayoutEnv, st0: LayoutState, n: nat)
    requires EnvOk(env) && env.isUnion && n <= |env.members| && |st0.offsets| == |env.members|
    requires CleanStart(st0)
    ensures UnionShape(env, Layout(env, st0, n))
    decreases n
  {
    if n > 0 {
      var st := Layout(env, st0, n - 1);
      assert UnionShape(env, FieldOffsetStep(env, st, n - 1)) by {
        UnionFieldsAtZero(env, st0, n - 1);
        StepUnionShape(env, st, n - 1);
      }
    }
  }

  /** In a struct the fields of a fresh layout follow one another without
      overlapping, and the struct's running size is exactly the cursor. */
  lemma {:induction false} StructFieldsDisjoint(env: LayoutEnv, st0: LayoutState, n: nat)
    requires EnvOk(env) && !env.isUnion && n <= |env.members| && |st0.offsets| == |env.members|
    requires CleanStart(st0)
    ensures StructShape(env, Layout(env, st0, n), n)
    decreases n
  {
    if n > 0 {
      StructFieldsDisjoint(env, st0, n - 1);
      StepStructShape(env, Layout(env, st0, n - 1), n - 1);
    }
  }

  /** A plain (non-`ref`) instance field of basic type always ends up among
      the fields; in particular the hidden context pointer of a nested
      aggregate does. */
  lemma {:induction false} BasicFieldPlaced(env: LayoutEnv, st0: LayoutState, n: nat, k: nat)
    requires EnvOk(env) && k < n <= |env.members| && |st0.offsets| == |env.members|
    requires IsField(env.members[k]) && !env.members[k].isRef && env.members[k].ty.Basic?
    ensures k in Layout(env, st0, n).fields
    decreases n
  {
    var st := Layout(env, st0, n - 1);
    StepFacts(env, st, n - 1);
    if k < n - 1 {
      BasicFieldPlaced(env, st0, n - 1, k);
      var r := Layout(env, st0, n);
      var i :| 0 <= i < |st.fields| && st.fields[i] == k;
      assert r.fields[i] == k;
    }
  }
}
