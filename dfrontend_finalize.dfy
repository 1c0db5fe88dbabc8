/** `StructDeclaration::finalizeSize` of the 2014 front end: one layout pass
    over the members, then (unless a forward reference was met) the
    zero-size fix-up, the rounding of the size to the alignment boundary,
    the overlap scan and the `zeroInit` computation. */
module DfrontendFinalize {
  import opened Bits
  import opened DfrontendTypes
  import opened DfrontendLayout
  import opened DfrontendFields
  import opened DfrontendOverlap

  /** The table may be laid out at declaration `self`. */
  predicate FinalizeOk(decls: seq<StructDecl>, self: nat)
  {
    WellFormed(decls) && self < |decls|
  }

  /** The state the layout pass starts from: the members' current offsets,
      fields, size and alignment, the cursor (`offset`) at 0. */
  function StartState(sd: StructDecl): (st: LayoutState)
    ensures |st.offsets| == |sd.members| && !st.fwd && st.cursor == 0 && st.diags == []
    ensures st.fields == sd.fields && st.structsize == sd.structsize && st.alignsize == sd.alignsize
    ensures forall k :: 0 <= k < |sd.members| ==> st.offsets[k] == sd.members[k].offset
  {
    LayoutState(seq(|sd.members|, k requires 0 <= k < |sd.members| => sd.members[k].offset),
                sd.fields, sd.structsize, sd.alignsize, false, 0, [])
  }

  /** The members with the offsets of a layout written back. */
  function WithOffsets(members: seq<VarDecl>, offsets: seq<nat>): (r: seq<VarDecl>)
    requires |offsets| == |members|
    ensures |r| == |members|
    ensures forall k :: 0 <= k < |r| ==> r[k] == members[k].(offset := offsets[k])
  {
    seq(|members|, k requires 0 <= k < |members| => members[k].(offset := offsets[k]))
  }

  lemma EnvOkOfWellFormed(decls: seq<StructDecl>, self: nat, is64bit: bool)
    requires FinalizeOk(decls, self)
    ensures EnvOk(MakeEnv(decls, self, decls[self], is64bit))
  {
    assert WellFormedDecl(|decls|, decls[self]);
    forall j | 0 <= j < |decls| && decls[j].sizeok == SizeOkDone
      ensures IsPow2(decls[j].alignsize)
    {
      assert AlignInv(decls[j]);
    }
  }

  /** The layout pass over all members of declaration `self`. */
  function LaidOut(decls: seq<StructDecl>, self: nat, is64bit: bool): (st: LayoutState)
    requires FinalizeOk(decls, self)
    ensures |st.offsets| == |decls[self].members|
  {
    EnvOkOfWellFormed(decls, self, is64bit);
    var sd := decls[self];
    Layout(MakeEnv(decls, self, sd, is64bit), StartState(sd), |sd.members|)
  }

  /** The declaration with a layout written back. */
  function Apply(sd: StructDecl, st: LayoutState): StructDecl
    requires |st.offsets| == |sd.members|
  {
    sd.(members := WithOffsets(sd.members, st.offsets), fields := st.fields,
        structsize := st.structsize, alignsize := st.alignsize)
  }

  /** Every entry of a field list names an instance-field member. */
  predicate AllFields(members: seq<VarDecl>, fields: seq<nat>)
  {
    forall f :: 0 <= f < |fields| ==> fields[f] < |members| && IsField(members[fields[f]])
  }

  lemma StepPlacesFields(env: LayoutEnv, st: LayoutState, k: nat)
    requires EnvOk(env) && k < |env.members| && |st.offsets| == |env.members|
    requires AllFields(env.members, st.fields)
    ensures AllFields(env.members, FieldOffsetStep(env, st, k).fields)
  {
    StepFacts(env, st, k);
    if Classify(env, st.fields, k) == Placed {
      var fs := FieldOffsetStep(env, st, k).fields;
      assert fs == st.fields + [k];
      forall f | 0 <= f < |fs|
        ensures fs[f] < |env.members| && IsField(env.members[fs[f]])
      {
        if f < |st.fields| {
          assert fs[f] == st.fields[f];
        }
      }
    }
  }

  /** Only instance fields are ever placed. */
  lemma {:induction false} LayoutPlacesFields(env: LayoutEnv, st0: LayoutState, n: nat)
    requires EnvOk(env) && n <= |env.members| && |st0.offsets| == |env.members|
    requires AllFields(env.members, st0.fields)
    ensures AllFields(env.members, Layout(env, st0, n).fields)
    decreases n
  {
    if n > 0 {
      LayoutPlacesFields(env, st0, n - 1);
      StepPlacesFields(env, Layout(env, st0, n - 1), n - 1);
    }
  }

  /** What the layout pass guarantees about the field list and alignment:
      the old fields stay in front, all are distinct instance fields, the
      alignment is a power of two unless the aggregate is still empty, and
      a nested aggregate's context pointer is among the fields. */
  lemma LaidOutFacts(decls: seq<StructDecl>, self: nat, is64bit: bool)
    requires FinalizeOk(decls, self)
    ensures var sd, st := decls[self], LaidOut(decls, self, is64bit);
      && FieldsOk(st.fields, |sd.members|)
      && |sd.fields| <= |st.fields| && st.fields[..|sd.fields|] == sd.fields
      && AllFields(sd.members, st.fields)
      && (IsPow2(st.alignsize) || (st.alignsize == 0 && st.structsize == 0))
      && (sd.nested ==> |st.fields| > 0)
  {
    var sd := decls[self];
    assert WellFormedDecl(|decls|, sd) && AlignInv(sd);
    EnvOkOfWellFormed(decls, self, is64bit);
    var env := MakeEnv(decls, self, sd, is64bit);
    var st0 := StartState(sd);
    var n := |sd.members|;
    LayoutKeepsFields(env, st0, n);
    LayoutPlacesFields(env, st0, n);
    LayoutKeepsAlign(env, st0, n);
    if sd.nested {
      BasicFieldPlaced(env, st0, n, n - 1);
    }
  }

  /** The boundary the final size is rounded to: the aggregate's own
      alignment under the default policy, the explicit alignment otherwise. */
  function SizeBoundary(alignment: Alignment, alignsize: nat): nat
  {
    if alignment == AlignDefault then alignsize else alignment.n
  }

  /** The declaration after a layout without forward references: a
      zero-sized aggregate becomes one byte with alignment 1, the size is
      rounded up with the mask to the boundary, and the size is done. */
  function Sized(sd: StructDecl, st: LayoutState): StructDecl
    requires |st.offsets| == |sd.members|
  {
    var size := if st.structsize == 0 then 1 else st.structsize;
    var align := if st.structsize == 0 then 1 else st.alignsize;
    Apply(sd, st).(structsize := MaskRoundUp(size, SizeBoundary(sd.alignment, align)),
                   alignsize := align, sizeok := SizeOkDone)
  }

  /** Size, alignment and progress do not enter well-formedness. */
  lemma WellFormedDeclIgnoresSize(n: nat, sd: StructDecl, size: nat, align: nat, ok: SizeOk)
    requires WellFormedDecl(n, sd)
    ensures WellFormedDecl(n, sd.(structsize := size, alignsize := align, sizeok := ok))
  {
  }

  /** Writing a layout back keeps the declaration well formed. */
  lemma AppliedWellFormed(decls: seq<StructDecl>, self: nat, is64bit: bool)
    requires FinalizeOk(decls, self)
    ensures var a := Apply(decls[self], LaidOut(decls, self, is64bit));
      WellFormedDecl(|decls|, a) && FieldCountOk(a)
  {
    LaidOutFacts(decls, self, is64bit);
    assert WellFormedDecl(|decls|, decls[self]);
  }

  /** The laid-out declaration is well formed, so the overlap scan may run
      on it, and its alignment is consistent with its size. */
  lemma SizedScanOk(decls: seq<StructDecl>, self: nat, is64bit: bool)
    requires FinalizeOk(decls, self)
    ensures var sd, st := decls[self], LaidOut(decls, self, is64bit);
      var done := Sized(sd, st);
      && ScanOk(decls[self := done], done) && AlignInv(done)
      && (st.fwd ==> WellFormedDecl(|decls|, Apply(sd, st).(sizeok := SizeOkFwd))
                     && AlignInv(Apply(sd, st).(sizeok := SizeOkFwd)))
  {
    var sd, st := decls[self], LaidOut(decls, self, is64bit);
    var a := Apply(sd, st);
    AppliedWellFormed(decls, self, is64bit);
    LaidOutFacts(decls, self, is64bit);
    assert AlignInv(sd);
    var done := Sized(sd, st);
    WellFormedDeclIgnoresSize(|decls|, a, done.structsize, done.alignsize, SizeOkDone);
    WellFormedDeclIgnoresSize(|decls|, a, a.structsize, a.alignsize, SizeOkFwd);
    assert IsPow2(1);
  }

  /** Whether every field is default-initialised to all zero bits: it has no
      initialiser at all and its type's default value is all zeros. */
  predicate ZeroInitOf(decls: seq<StructDecl>, sd: StructDecl)
    requires forall f :: 0 <= f < |sd.fields| ==> sd.fields[f] < |sd.members|
  {
    forall f :: 0 <= f < |sd.fields| ==>
      FieldVar(sd, f).init == NoInit && TypeIsZeroInit(decls, FieldVar(sd, f).ty)
  }

  /** The outcome of `finalizeSize`: the new declaration and the
      diagnostics it reported. */
  datatype Finalized = Finalized(sd: StructDecl, diags: seq<Diag>)

  /** The end of `finalizeSize` on a declaration whose size is done: the
      overlap scan sets the `overlapped` flags, then `zeroInit` is computed. */
  function Complete(decls: seq<StructDecl>, self: nat, done: StructDecl): StructDecl
    requires self < |decls| && ScanOk(decls[self := done], done)
  {
    var decls' := decls[self := done];
    var fin := done.(members := Scan(decls', self, done, NFields(done)).members);
    fin.(zeroInit := ZeroInitOf(decls', fin))
  }

  /** Completion changes only the `overlapped` flags of the members and
      `zeroInit`. */
  lemma CompleteKeeps(decls: seq<StructDecl>, self: nat, done: StructDecl)
    requires self < |decls| && ScanOk(decls[self := done], done)
    ensures var r := Complete(decls, self, done);
      && r == done.(members := r.members, zeroInit := r.zeroInit)
      && |r.members| == |done.members|
      && forall k :: 0 <= k < |done.members| ==>
           r.members[k] == done.members[k].(overlapped := r.members[k].overlapped)
  {
    CheckOverlappedFieldsMarks(decls[self := done], self, done);
  }

  /** Specification of `finalizeSize` for declaration `self`. */
  function FinalizeSpec(decls: seq<StructDecl>, self: nat, is64bit: bool): Finalized
    requires FinalizeOk(decls, self)
  {
    var sd := decls[self];
    if sd.sizeok != SizeOkNone then Finalized(sd, [])
    else
      var st := LaidOut(decls, self, is64bit);
      if st.fwd then Finalized(Apply(sd, st).(sizeok := SizeOkFwd), st.diags)
      else
        var done := Sized(sd, st);
        SizedScanOk(decls, self, is64bit);
        Finalized(Complete(decls, self, done),
                  st.diags + Scan(decls[self := done], self, done, NFields(done)).diags)
  }

  /** `finalizeSize` never reports what `size()` reports. */
  lemma FinalizeNoSizeReports(decls: seq<StructDecl>, self: nat, is64bit: bool)
    requires FinalizeOk(decls, self)
    ensures NoSizeReports(FinalizeSpec(decls, self, is64bit).diags)
  {
    var sd := decls[self];
    if sd.sizeok == SizeOkNone {
      EnvOkOfWellFormed(decls, self, is64bit);
      LayoutNoSizeReports(MakeEnv(decls, self, sd, is64bit), StartState(sd), |sd.members|);
      var st := LaidOut(decls, self, is64bit);
      if !st.fwd {
        var done := Sized(sd, st);
        SizedScanOk(decls, self, is64bit);
        ScanNoSizeReports(decls[self := done], self, done, NFields(done));
      }
    }
  }

  /** `finalizeSize` does nothing unless the size is still to be done. */
  lemma FinalizeOnlyFromNone(decls: seq<StructDecl>, self: nat, is64bit: bool)
    requires FinalizeOk(decls, self) && decls[self].sizeok != SizeOkNone
    ensures FinalizeSpec(decls, self, is64bit) == Finalized(decls[self], [])
  {
  }

  /** `r` differs from `sd` only in the layout: members, fields, size,
      alignment, `sizeok` and `zeroInit`. */
  predicate LayoutOnly(sd: StructDecl, r: StructDecl)
  {
    r == sd.(members := r.members, fields := r.fields, structsize := r.structsize,
             alignsize := r.alignsize, sizeok := r.sizeok, zeroInit := r.zeroInit)
  }

  /** `finalizeSize` touches only the layout: the kind, the alignment, the
      pass, the saved scope and the special members stay; a size that was
      not done ends done or blocked by a forward reference. */
  lemma FinalizeKeepsHeader(decls: seq<StructDecl>, self: nat, is64bit: bool)
    requires FinalizeOk(decls, self)
    ensures LayoutOnly(decls[self], FinalizeSpec(decls, self, is64bit).sd)
    ensures var sd, r := decls[self], FinalizeSpec(decls, self, is64bit).sd;
      |r.members| == |sd.members| && (sd.sizeok == SizeOkNone <==> r.sizeok != sd.sizeok)
  {
    var sd := decls[self];
    if sd.sizeok == SizeOkNone {
      if LaidOut(decls, self, is64bit).fwd {
        ForwardKeepsHeader(decls, self, is64bit);
      } else {
        SizedKeepsHeader(decls, self, is64bit);
      }
    }
  }

  lemma ForwardKeepsHeader(decls: seq<StructDecl>, self: nat, is64bit: bool)
    requires FinalizeOk(decls, self) && decls[self].sizeok == SizeOkNone && LaidOut(decls, self, is64bit).fwd
    ensures LayoutOnly(decls[self], FinalizeSpec(decls, self, is64bit).sd)
    ensures FinalizeSpec(decls, self, is64bit).sd.sizeok == SizeOkFwd
    ensures |FinalizeSpec(decls, self, is64bit).sd.members| == |decls[self].members|
  {
    var sd, st := decls[self], LaidOut(decls, self, is64bit);
    var a := Apply(sd, st);
    assert FinalizeSpec(decls, self, is64bit).sd == a.(sizeok := SizeOkFwd);
  }

  lemma SizedKeepsHeader(decls: seq<StructDecl>, self: nat, is64bit: bool)
    requires FinalizeOk(decls, self) && decls[self].sizeok == SizeOkNone && !LaidOut(decls, self, is64bit).fwd
    ensures LayoutOnly(decls[self], FinalizeSpec(decls, self, is64bit).sd)
    ensures FinalizeSpec(decls, self, is64bit).sd.sizeok == SizeOkDone
    ensures |FinalizeSpec(decls, self, is64bit).sd.members| == |decls[self].members|
  {
    var sd, st := decls[self], LaidOut(decls, self, is64bit);
    var done := Sized(sd, st);
    SizedScanOk(decls, self, is64bit);
    CompleteKeeps(decls, self, done);
    var r := Complete(decls, self, done);
    assert FinalizeSpec(decls, self, is64bit).sd == r;
    assert LayoutOnly(sd, done);
  }

  /** `r` carries the layout `st` of `sd`: its fields and its members'
      offsets are those the pass computed, and nothing but offsets and
      overlap flags changes in the members. */
  predicate CarriesLayout(sd: StructDecl, st: LayoutState, r: StructDecl)
    requires |st.offsets| == |sd.members|
  {
    r.fields == st.fields && |r.members| == |sd.members|
    && forall k :: 0 <= k < |sd.members| ==>
         r.members[k] == sd.members[k].(offset := st.offsets[k], overlapped := r.members[k].overlapped)
  }

  lemma CompleteCarries(decls: seq<StructDecl>, self: nat, is64bit: bool)
    requires FinalizeOk(decls, self)
    ensures var sd, st := decls[self], LaidOut(decls, self, is64bit);
      ScanOk(decls[self := Sized(sd, st)], Sized(sd, st))
      && CarriesLayout(sd, st, Complete(decls, self, Sized(sd, st)))
  {
    var sd, st := decls[self], LaidOut(decls, self, is64bit);
    SizedScanOk(decls, self, is64bit);
    CompleteKeeps(decls, self, Sized(sd, st));
  }

  /** The new declaration carries the layout the pass computed. */
  lemma FinalizeWritesLayout(decls: seq<StructDecl>, self: nat, is64bit: bool)
    requires FinalizeOk(decls, self) && decls[self].sizeok == SizeOkNone
    ensures CarriesLayout(decls[self], LaidOut(decls, self, is64bit), FinalizeSpec(decls, self, is64bit).sd)
  {
    var sd, st := decls[self], LaidOut(decls, self, is64bit);
    if !st.fwd {
      CompleteCarries(decls, self, is64bit);
      assert FinalizeSpec(decls, self, is64bit).sd == Complete(decls, self, Sized(sd, st));
    }
  }

  /** A forward reference leaves the size as the pass left it: no zero-size
      fix-up and no rounding, and `sizeok` becomes `SIZEOKfwd`. */
  lemma FinalizeForward(decls: seq<StructDecl>, self: nat, is64bit: bool)
    requires FinalizeOk(decls, self) && decls[self].sizeok == SizeOkNone
    requires LaidOut(decls, self, is64bit).fwd
    ensures var st, r := LaidOut(decls, self, is64bit), FinalizeSpec(decls, self, is64bit).sd;
      r.sizeok == SizeOkFwd && r.structsize == st.structsize && r.alignsize == st.alignsize
  {
  }

  /** Without forward references the size is done: at least one byte, with
      a power-of-two alignment (1 for an empty aggregate), and the least
      multiple of the boundary that covers the laid-out size. */
  lemma FinalizeRounds(decls: seq<StructDecl>, self: nat, is64bit: bool)
    requires FinalizeOk(decls, self) && decls[self].sizeok == SizeOkNone
    requires !LaidOut(decls, self, is64bit).fwd
    ensures var sd, st, r := decls[self], LaidOut(decls, self, is64bit), FinalizeSpec(decls, self, is64bit).sd;
      && r.sizeok == SizeOkDone && IsPow2(r.alignsize) && IsPow2(SizeBoundary(sd.alignment, r.alignsize))
      && (st.structsize == 0 ==> r.alignsize == 1)
      && (st.structsize != 0 ==> r.alignsize == st.alignsize)
      && IsRoundUp(if st.structsize == 0 then 1 else st.structsize,
                   SizeBoundary(sd.alignment, r.alignsize), r.structsize)
      && 1 <= r.structsize && st.structsize <= r.structsize
  {
    var sd, st := decls[self], LaidOut(decls, self, is64bit);
    LaidOutFacts(decls, self, is64bit);
    assert WellFormedDecl(|decls|, sd);
    assert IsPow2(1);
    var align := if st.structsize == 0 then 1 else st.alignsize;
    var size := if st.structsize == 0 then 1 else st.structsize;
    MaskRoundUpIsRoundUp(size, SizeBoundary(sd.alignment, align));
  }

  lemma CompleteWellFormed(decls: seq<StructDecl>, self: nat, done: StructDecl)
    requires self < |decls| && ScanOk(decls[self := done], done) && AlignInv(done)
    ensures WellFormedDecl(|decls|, Complete(decls, self, done)) && AlignInv(Complete(decls, self, done))
  {
    CompleteKeeps(decls, self, done);
  }

  /** The declaration `finalizeSize` produces is well formed. */
  lemma FinalizedDeclOk(decls: seq<StructDecl>, self: nat, is64bit: bool)
    requires FinalizeOk(decls, self)
    ensures WellFormedDecl(|decls|, FinalizeSpec(decls, self, is64bit).sd)
    ensures AlignInv(FinalizeSpec(decls, self, is64bit).sd)
    ensures decls[self].sizeok == SizeOkNone ==> FieldCountOk(FinalizeSpec(decls, self, is64bit).sd)
  {
    var sd, st := decls[self], LaidOut(decls, self, is64bit);
    if sd.sizeok == SizeOkNone {
      SizedScanOk(decls, self, is64bit);
      FinalizeWritesLayout(decls, self, is64bit);
      LaidOutFacts(decls, self, is64bit);
      if !st.fwd {
        CompleteWellFormed(decls, self, Sized(sd, st));
        assert FinalizeSpec(decls, self, is64bit).sd == Complete(decls, self, Sized(sd, st));
      }
    }
  }

  /** `finalizeSize` keeps the table well formed. */
  lemma FinalizeKeepsWellFormed(decls: seq<StructDecl>, self: nat, is64bit: bool)
    requires FinalizeOk(decls, self)
    ensures WellFormed(decls[self := FinalizeSpec(decls, self, is64bit).sd])
  {
    FinalizedDeclOk(decls, self, is64bit);
  }

  /** The size the pass grows the aggregate to never exceeds the final size. */
  lemma FinalizeCoversLayout(decls: seq<StructDecl>, self: nat, is64bit: bool)
    requires FinalizeOk(decls, self) && decls[self].sizeok == SizeOkNone
    ensures LaidOut(decls, self, is64bit).structsize <= FinalizeSpec(decls, self, is64bit).sd.structsize
  {
    if !LaidOut(decls, self, is64bit).fwd {
      FinalizeRounds(decls, self, is64bit);
    }
  }

  /** A fresh declaration: no fields yet, nothing sized. */
  predicate Fresh(sd: StructDecl)
  {
    sd.fields == [] && sd.structsize == 0 && sd.alignsize == 0
  }

  /** Laying out a fresh union puts every field at offset 0, within the
      union's size. */
  lemma FinalizeUnionAtZero(decls: seq<StructDecl>, self: nat, is64bit: bool)
    requires FinalizeOk(decls, self) && decls[self].sizeok == SizeOkNone
    requires decls[self].isUnion && Fresh(decls[self])
    ensures var sd, r := decls[self], FinalizeSpec(decls, self, is64bit).sd;
      |r.members| == |sd.members|
      && forall f :: 0 <= f < |r.fields| ==>
           r.fields[f] < |r.members| && r.members[r.fields[f]].offset == 0
           && FieldSize(decls, sd.members[r.fields[f]], is64bit) <= r.structsize
  {
    var sd := decls[self];
    EnvOkOfWellFormed(decls, self, is64bit);
    var env := MakeEnv(decls, self, sd, is64bit);
    UnionFieldsAtZero(env, StartState(sd), |sd.members|);
    FinalizeWritesLayout(decls, self, is64bit);
    FinalizeCoversLayout(decls, self, is64bit);
  }

  /** Laying out a fresh struct puts the fields one after the other, in
      member order, without overlap, within the struct's size. */
  lemma FinalizeStructInOrder(decls: seq<StructDecl>, self: nat, is64bit: bool)
    requires FinalizeOk(decls, self) && decls[self].sizeok == SizeOkNone
    requires !decls[self].isUnion && Fresh(decls[self])
    ensures var sd, r := decls[self], FinalizeSpec(decls, self, is64bit).sd;
      |r.members| == |sd.members|
      && (forall f :: 0 <= f < |r.fields| ==>
            r.fields[f] < |r.members|
            && r.members[r.fields[f]].offset + FieldSize(decls, sd.members[r.fields[f]], is64bit) <= r.structsize)
      && (forall f, g :: 0 <= f < g < |r.fields| ==>
            r.fields[f] < |r.members| && r.fields[g] < |r.members| &&
            r.members[r.fields[f]].offset + FieldSize(decls, sd.members[r.fields[f]], is64bit)
              <= r.members[r.fields[g]].offset)
  {
    var sd := decls[self];
    EnvOkOfWellFormed(decls, self, is64bit);
    var env := MakeEnv(decls, self, sd, is64bit);
    var st := Layout(env, StartState(sd), |sd.members|);
    assert st == LaidOut(decls, self, is64bit);
    StructFieldsDisjoint(env, StartState(sd), |sd.members|);
    FinalizeWritesLayout(decls, self, is64bit);
    FinalizeCoversLayout(decls, self, is64bit);
    var r := FinalizeSpec(decls, self, is64bit).sd;
    assert r.fields == st.fields;
    forall f | 0 <= f < |r.fields|
      ensures r.fields[f] < |r.members|
      ensures r.members[r.fields[f]].offset + FieldSize(decls, sd.members[r.fields[f]], is64bit) == FieldEnd(env, st.offsets, st.fields[f])
    {
      var a := r.fields[f];
      assert r.members[a].offset == st.offsets[a];
    }
  }

  /** `setFieldOffset` on member `k`: skip it, report it, flag a forward
      reference, or place it with `placeField` and append it to the fields. */
  method SetFieldOffset(env: LayoutEnv, st: LayoutState, k: nat) returns (r: LayoutState)
    requires EnvOk(env) && k < |env.members| && |st.offsets| == |env.members|
    ensures r == FieldOffsetStep(env, st, k)
  {
    var v := env.members[k];
    if !IsField(v) || k in st.fields {
      return st;
    }
    var b := BaseElem(LayoutType(v, env.is64bit));
    if b == Struct(env.self) {
      return st.(diags := st.diags + [SameStructType(env.self, k)]);
    }
    if b.Unresolved? || (b.Struct? && !(b.sym < |env.decls| && env.decls[b.sym].sizeok == SizeOkDone)) {
      return st.(fwd := true);
    }
    PlacedAlignOk(env, st.fields, k);
    var memoffset, cursor, size, align :=
      PlaceField(st.cursor, env.sizes[k], AlignOf(env, k), v.align, st.structsize, st.alignsize,
                 env.isUnion, env.is64bit);
    r := st.(offsets := st.offsets[k := memoffset], fields := st.fields + [k],
             structsize := size, alignsize := align, cursor := cursor);
  }

  /** The `zeroInit` loop: stops at the first field with an initialiser
      (even `= void`; the initialiser is not examined) or whose type's
      default is not all zeros. Fields are never in the data segment. */
  method ComputeZeroInit(decls: seq<StructDecl>, sd: StructDecl) returns (z: bool)
    requires forall f :: 0 <= f < |sd.fields| ==> sd.fields[f] < |sd.members|
    ensures z == ZeroInitOf(decls, sd)
  {
    z := true;
    var i := 0;
    while i < |sd.fields|
      invariant 0 <= i <= |sd.fields|
      invariant forall f :: 0 <= f < i ==>
        FieldVar(sd, f).init == NoInit && TypeIsZeroInit(decls, FieldVar(sd, f).ty)
    {
      var vd := sd.members[sd.fields[i]];
      assert vd == FieldVar(sd, i);
      if vd.init != NoInit {
        z := false;
        break;
      } else if !TypeIsZeroInit(decls, vd.ty) {
        z := false;
        break;
      }
      i := i + 1;
    }
  }

  /** The loop of `finalizeSize` calling `setFieldOffset` on every member. */
  method LayOutMembers(decls: seq<StructDecl>, self: nat, is64bit: bool) returns (st: LayoutState)
    requires FinalizeOk(decls, self)
    ensures st == LaidOut(decls, self, is64bit)
  {
    var sd := decls[self];
    EnvOkOfWellFormed(decls, self, is64bit);
    var env := MakeEnv(decls, self, sd, is64bit);
    st := StartState(sd);
    var i := 0;
    while i < |sd.members|
      invariant 0 <= i <= |sd.members|
      invariant st == Layout(env, StartState(sd), i)
    {
      st := SetFieldOffset(env, st, i);
      i := i + 1;
    }
  }

  /** The tail of `finalizeSize` after a layout without forward references:
      a zero-sized aggregate becomes one byte, and the size is rounded up so
      that arrays of the aggregate stay aligned. */
  method RoundSize(sd: StructDecl, st: LayoutState) returns (done: StructDecl)
    requires |st.offsets| == |sd.members|
    ensures done == Sized(sd, st)
  {
    var structsize, alignsize := st.structsize, st.alignsize;
    if structsize == 0 {
      structsize := 1;
      alignsize := 1;
    }
    if sd.alignment == AlignDefault {
      structsize := MaskRoundUp(structsize, alignsize);
    } else {
      structsize := MaskRoundUp(structsize, sd.alignment.n);
    }
    done := Apply(sd, st).(structsize := structsize, alignsize := alignsize, sizeok := SizeOkDone);
  }

  /** `finalizeSize` on declaration `self`: the new declaration (with
      `sizeok` done or forward) and the diagnostics. */
  method FinalizeSizeOf(decls: seq<StructDecl>, self: nat, is64bit: bool) returns (r: Finalized)
    requires FinalizeOk(decls, self)
    ensures r == FinalizeSpec(decls, self, is64bit)
  {
    var sd := decls[self];
    if sd.sizeok != SizeOkNone {
      return Finalized(sd, []);
    }
    var st := LayOutMembers(decls, self, is64bit);
    if st.fwd {
      return Finalized(Apply(sd, st).(sizeok := SizeOkFwd), st.diags);
    }
    var done := RoundSize(sd, st);
    SizedScanOk(decls, self, is64bit);
    var decls' := decls[self := done];
    var members, errors, diags := CheckOverlappedFields(decls', self, done);
    var fin := done.(members := members);
    var z := ComputeZeroInit(decls', fin);
    r := Finalized(fin.(zeroInit := z), st.diags + diags);
  }
}
