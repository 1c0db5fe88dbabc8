/** Struct literal completion of the 2014 front end: `fill` pads an element
    list to the field count with default initialisers, respecting groups of
    overlapping fields, and `fit` checks explicit elements against the
    fields and rewrites them as converted to the field types. Expressions
    are opaque; only counts, offsets and overlaps are modelled. */
module DfrontendInit {
  import opened DfrontendTypes
  import opened DfrontendOverlap
  import opened Bits

  /** `elements->setDim(nfields)` followed by nulling the new slots. */
  function Resize(elements: seq<Option<Expr>>, n: nat): (r: seq<Option<Expr>>)
    ensures |r| == n
    ensures forall k :: 0 <= k < n ==> r[k] == (if k < |elements| then elements[k] else None)
  {
    if n <= |elements| then elements[..n] else elements + seq(n - |elements|, _ => None)
  }

  /** The inner loop's state: whether a field was chosen to supply the
      default (`vx != NULL`), which one (`fieldi`), whether an overlapping
      initialisation error was found, and whether the loop was left early. */
  datatype Pick = Pick(vx: bool, fieldi: nat, errors: bool, stopped: bool)

  /** The choice `fill` starts from for slot `i`: field `i` itself, unless it
      is void-initialised. */
  function PickStart(sd: StructDecl, i: nat): Pick
    requires i < |sd.fields| && sd.fields[i] < |sd.members|
  {
    Pick(FieldVar(sd, i).init != VoidInit, i, false, false)
  }

  /** The inner loop's body for slot `i` and field `j`: an overlapping field
      with an element already present cancels the default; a void-initialised
      one is ignored; the first non-void one is chosen if none was; a second
      one with an initialiser is an error. */
  function PickStep(decls: seq<StructDecl>, sd: StructDecl, elems: seq<Option<Expr>>, i: nat, j: nat, p: Pick): Pick
    requires ScanOk(decls, sd) && i < NFields(sd) && j < NFields(sd) && |elems| == NFields(sd)
  {
    if p.stopped || i == j || !FieldsOverlap(decls, sd, i, j) then p
    else if elems[j].Some? then p.(vx := false, stopped := true)
    else if FieldVar(sd, j).init == VoidInit then p
    else if !p.vx then p.(vx := true, fieldi := j)
    else if FieldVar(sd, j).init.ExpInit? then p.(errors := true)
    else p
  }

  /** The inner loop after fields `0 .. j - 1`. */
  function PickScan(decls: seq<StructDecl>, sd: StructDecl, elems: seq<Option<Expr>>, i: nat, j: nat): (p: Pick)
    requires ScanOk(decls, sd) && i < NFields(sd) && j <= NFields(sd) && |elems| == NFields(sd)
    ensures p.fieldi < NFields(sd)
    decreases j
  {
    if j == 0 then PickStart(sd, i)
    else PickStep(decls, sd, elems, i, j - 1, PickScan(decls, sd, elems, i, j - 1))
  }

  /** The outer loop's state: the elements and the error flag. */
  datatype FillState = FillState(elems: seq<Option<Expr>>, errors: bool)

  /** The value `fill` stores for the chosen field `x`: nothing for a
      zero-sized type, the field's own initialiser, or the default
      initialiser of its type. */
  function OwnDefault(decls: seq<StructDecl>, sd: StructDecl, x: nat): Option<Expr>
    requires x < |sd.fields| && sd.fields[x] < |sd.members|
  {
    var v := FieldVar(sd, x);
    if TypeSize(decls, v.ty) == 0 then None
    else if v.init.ExpInit? then Some(v.init.e)
    else Some(DefaultInit(sd.fields[x]))
  }

  /** Default construction of field `x` is an error: the default
      initialiser is needed, the field's type has no default constructor and
      the literal is not for constructor initialisation. */
  predicate MissingCtor(decls: seq<StructDecl>, sd: StructDecl, x: nat, ctorinit: bool)
    requires x < |sd.fields| && sd.fields[x] < |sd.members|
  {
    var v := FieldVar(sd, x);
    TypeSize(decls, v.ty) != 0 && !v.init.ExpInit? && v.noDefaultCtor && !ctorinit
  }

  /** The outer loop's body for slot `i`. */
  function FillSlot(decls: seq<StructDecl>, sd: StructDecl, ctorinit: bool, i: nat, s: FillState): (r: FillState)
    requires ScanOk(decls, sd) && i < NFields(sd) && |s.elems| == NFields(sd)
    ensures |r.elems| == NFields(sd)
  {
    if s.elems[i].Some? then s
    else
      var p := PickScan(decls, sd, s.elems, i, NFields(sd));
      if !p.vx then FillState(s.elems, s.errors || p.errors)
      else FillState(s.elems[p.fieldi := OwnDefault(decls, sd, p.fieldi)],
                     s.errors || p.errors || MissingCtor(decls, sd, p.fieldi, ctorinit))
  }

  /** The outer loop after slots `0 .. i - 1`. */
  function FillScan(decls: seq<StructDecl>, sd: StructDecl, elements: seq<Option<Expr>>, ctorinit: bool, i: nat): (r: FillState)
    requires ScanOk(decls, sd) && i <= NFields(sd)
    ensures |r.elems| == NFields(sd)
    decreases i
  {
    if i == 0 then FillState(Resize(elements, NFields(sd)), false)
    else FillSlot(decls, sd, ctorinit, i - 1, FillScan(decls, sd, elements, ctorinit, i - 1))
  }

  /** No element is an error expression. */
  predicate NoErrorExp(elems: seq<Option<Expr>>)
  {
    forall k :: 0 <= k < |elems| ==> elems[k] != Some(ErrorExp)
  }

  /** The inner loop of `fill` for an empty slot `i`: whether some field
      supplies the slot group's default, which one, and whether two
      overlapping fields both have initialisers. */
  method PickDefault(decls: seq<StructDecl>, sd: StructDecl, elems: seq<Option<Expr>>, i: nat)
    returns (vx: bool, fieldi: nat, errors: bool)
    requires ScanOk(decls, sd) && i < NFields(sd) && |elems| == NFields(sd)
    ensures var p := PickScan(decls, sd, elems, i, NFields(sd));
      vx == p.vx && fieldi == p.fieldi && errors == p.errors
  {
    var nfields := |elems|;
    var vd := sd.members[sd.fields[i]];
    vx := vd.init != VoidInit;
    fieldi := i;
    errors := false;
    var j := 0;
    ghost var p := PickStart(sd, i);
    while j < nfields
      invariant 0 <= j <= nfields
      invariant p == PickScan(decls, sd, elems, i, j) == Pick(vx, fieldi, errors, false)
    {
      ghost var p' := PickStep(decls, sd, elems, i, j, p);
      if i != j {
        var v2 := sd.members[sd.fields[j]];
        if Overlap(decls, sd, sd.fields[i], sd.fields[j]) {
          if elems[j].Some? {
            vx := false;
            PickStoppedStays(decls, sd, elems, i, j + 1, nfields);
            break;
          }
          if v2.init != VoidInit {
            if !vx {
              vx := true;
              fieldi := j;
            } else if v2.init.ExpInit? {
              errors := true;
            }
          }
        }
      }
      j := j + 1;
      p := p';
    }
  }

  /** `fill`: the completed elements and whether no error occurred. */
  method Fill(decls: seq<StructDecl>, sd: StructDecl, elements: seq<Option<Expr>>, ctorinit: bool)
    returns (ok: bool, elems: seq<Option<Expr>>)
    requires ScanOk(decls, sd)
    ensures elems == FillScan(decls, sd, elements, ctorinit, NFields(sd)).elems
    ensures ok == (!FillScan(decls, sd, elements, ctorinit, NFields(sd)).errors && NoErrorExp(elems))
  {
    var nfields := |sd.fields|;
    if sd.nested {
      nfields := nfields - 1;
    }
    var errors := false;
    elems := Resize(elements, nfields);
    var i := 0;
    while i < nfields
      invariant 0 <= i <= nfields == NFields(sd)
      invariant FillState(elems, errors) == FillScan(decls, sd, elements, ctorinit, i)
    {
      ghost var st := FillState(elems, errors);
      if elems[i].None? {
        var vx, fieldi, clash := PickDefault(decls, sd, elems, i);
        ghost var p := PickScan(decls, sd, elems, i, nfields);
        errors := errors || clash;
        if vx {
          var x := sd.members[sd.fields[fieldi]];
          var e: Option<Expr>;
          if TypeSize(decls, x.ty) == 0 {
            e := None;
          } else if x.init.ExpInit? {
            e := Some(x.init.e);
          } else {
            if x.noDefaultCtor && !ctorinit {
              errors := true;
            }
            e := Some(DefaultInit(sd.fields[fieldi]));
          }
          assert e == OwnDefault(decls, sd, fieldi);
          assert errors == (st.errors || p.errors || MissingCtor(decls, sd, fieldi, ctorinit));
          elems := elems[fieldi := e];
        }
        assert FillState(elems, errors) == FillSlot(decls, sd, ctorinit, i, st);
      }
      i := i + 1;
    }
    ok := true;
    i := 0;
    while i < |elems|
      invariant 0 <= i <= |elems|
      invariant forall k :: 0 <= k < i ==> elems[k] != Some(ErrorExp)
    {
      if elems[i] == Some(ErrorExp) {
        ok := false;
        assert !NoErrorExp(elems);
        return;
      }
      i := i + 1;
    }
    ok := !errors;
  }

  /** Once the inner loop is left early nothing changes any more. */
  lemma {:induction false} PickStoppedStays(decls: seq<StructDecl>, sd: StructDecl, elems: seq<Option<Expr>>,
                                            i: nat, k: nat, m: nat)
    requires ScanOk(decls, sd) && i < NFields(sd) && k <= m <= NFields(sd) && |elems| == NFields(sd)
    requires PickScan(decls, sd, elems, i, k).stopped
    ensures PickScan(decls, sd, elems, i, m) == PickScan(decls, sd, elems, i, k)
    decreases m
  {
    if k < m {
      PickStoppedStays(decls, sd, elems, i, k, m - 1);
    }
  }

  /** Slot `k` was given an element by the caller. */
  predicate Supplied(elements: seq<Option<Expr>>, k: nat)
  {
    k < |elements| && elements[k].Some?
  }

  /** The field the inner loop settles on for an empty slot has an empty
      slot itself. */
  lemma {:induction false} PickChoosesEmpty(decls: seq<StructDecl>, sd: StructDecl, elems: seq<Option<Expr>>, i: nat, j: nat)
    requires ScanOk(decls, sd) && i < NFields(sd) && j <= NFields(sd) && |elems| == NFields(sd)
    requires elems[i].None?
    ensures var p := PickScan(decls, sd, elems, i, j); p.vx ==> elems[p.fieldi].None?
    decreases j
  {
    if j > 0 {
      PickChoosesEmpty(decls, sd, elems, i, j - 1);
    }
  }

  /** What `fill` may leave in each slot: a supplied element is kept, and an
      empty slot ends either empty or holding its own field's default. */
  predicate FilledSlots(decls: seq<StructDecl>, sd: StructDecl, elements: seq<Option<Expr>>, elems: seq<Option<Expr>>)
    requires ScanOk(decls, sd)
  {
    |elems| == NFields(sd)
    && forall k :: 0 <= k < NFields(sd) ==>
         if Supplied(elements, k) then elems[k] == elements[k]
         else elems[k] == None || elems[k] == OwnDefault(decls, sd, k)
  }

  lemma FillSlotFilled(decls: seq<StructDecl>, sd: StructDecl, elements: seq<Option<Expr>>, ctorinit: bool, i: nat, s: FillState)
    requires ScanOk(decls, sd) && i < NFields(sd) && FilledSlots(decls, sd, elements, s.elems)
    ensures FilledSlots(decls, sd, elements, FillSlot(decls, sd, ctorinit, i, s).elems)
  {
    if s.elems[i].None? {
      PickChoosesEmpty(decls, sd, s.elems, i, NFields(sd));
    }
  }

  lemma {:induction false} FillScanFilled(decls: seq<StructDecl>, sd: StructDecl, elements: seq<Option<Expr>>, ctorinit: bool, i: nat)
    requires ScanOk(decls, sd) && i <= NFields(sd)
    ensures FilledSlots(decls, sd, elements, FillScan(decls, sd, elements, ctorinit, i).elems)
    decreases i
  {
    if i > 0 {
      FillScanFilled(decls, sd, elements, ctorinit, i - 1);
      FillSlotFilled(decls, sd, elements, ctorinit, i - 1, FillScan(decls, sd, elements, ctorinit, i - 1));
    }
  }

  /** `fill` returns one element per non-hidden field; it keeps every
      supplied element; it leaves every other slot empty or sets it to its
      own field's default, so a zero-sized field without an element stays
      empty; and it succeeds only if no element is an error expression. */
  lemma FillResult(decls: seq<StructDecl>, sd: StructDecl, elements: seq<Option<Expr>>, ctorinit: bool)
    requires ScanOk(decls, sd)
    ensures var r := FillScan(decls, sd, elements, ctorinit, NFields(sd));
      && |r.elems| == NFields(sd)
      && (forall k :: 0 <= k < NFields(sd) && Supplied(elements, k) ==> r.elems[k] == elements[k])
      && (forall k :: 0 <= k < NFields(sd) && !Supplied(elements, k) ==>
            r.elems[k] == None || r.elems[k] == OwnDefault(decls, sd, k))
      && (forall k :: (0 <= k < NFields(sd) && !Supplied(elements, k)
                       && TypeSize(decls, FieldVar(sd, k).ty) == 0) ==> r.elems[k] == None)
  {
    FillScanFilled(decls, sd, elements, ctorinit, NFields(sd));
  }

  /** No two distinct fields share storage, as in a struct without unions. */
  predicate NoOverlap(decls: seq<StructDecl>, sd: StructDecl)
    requires ScanOk(decls, sd)
  {
    forall f, g :: 0 <= f < NFields(sd) && 0 <= g < NFields(sd) && f != g ==> !FieldsOverlap(decls, sd, f, g)
  }

  lemma {:induction false} PickNoOverlap(decls: seq<StructDecl>, sd: StructDecl, elems: seq<Option<Expr>>, i: nat, j: nat)
    requires ScanOk(decls, sd) && i < NFields(sd) && j <= NFields(sd) && |elems| == NFields(sd)
    requires NoOverlap(decls, sd)
    ensures PickScan(decls, sd, elems, i, j) == PickStart(sd, i)
    decreases j
  {
    if j > 0 {
      PickNoOverlap(decls, sd, elems, i, j - 1);
    }
  }

  /** Without overlapping fields each slot is independent: the element the
      caller supplied, nothing for a void-initialised field, or the field's
      own default. */
  function Independent(decls: seq<StructDecl>, sd: StructDecl, elements: seq<Option<Expr>>, k: nat): Option<Expr>
    requires ScanOk(decls, sd) && k < NFields(sd)
  {
    if Supplied(elements, k) then elements[k]
    else if FieldVar(sd, k).init == VoidInit then None
    else OwnDefault(decls, sd, k)
  }

  /** Slot `k` makes `fill` fail for want of a default constructor. */
  predicate CtorError(decls: seq<StructDecl>, sd: StructDecl, elements: seq<Option<Expr>>, ctorinit: bool, k: nat)
    requires ScanOk(decls, sd) && k < NFields(sd)
  {
    !Supplied(elements, k) && FieldVar(sd, k).init != VoidInit && MissingCtor(decls, sd, k, ctorinit)
  }

  /** The fill after `i` slots of a declaration without overlapping fields. */
  predicate IndependentPrefix(decls: seq<StructDecl>, sd: StructDecl, elements: seq<Option<Expr>>, ctorinit: bool,
                              i: nat, s: FillState)
    requires ScanOk(decls, sd) && i <= NFields(sd)
  {
    |s.elems| == NFields(sd)
    && (forall k :: 0 <= k < i ==> s.elems[k] == Independent(decls, sd, elements, k))
    && (forall k :: i <= k < NFields(sd) ==> s.elems[k] == Resize(elements, NFields(sd))[k])
    && (s.errors <==> exists k :: 0 <= k < i && CtorError(decls, sd, elements, ctorinit, k))
  }

  lemma FillSlotIndependent(decls: seq<StructDecl>, sd: StructDecl, elements: seq<Option<Expr>>, ctorinit: bool,
                            i: nat, s: FillState)
    requires ScanOk(decls, sd) && i < NFields(sd) && NoOverlap(decls, sd)
    requires IndependentPrefix(decls, sd, elements, ctorinit, i, s)
    ensures IndependentPrefix(decls, sd, elements, ctorinit, i + 1, FillSlot(decls, sd, ctorinit, i, s))
  {
    PickNoOverlap(decls, sd, s.elems, i, NFields(sd));
    var r := FillSlot(decls, sd, ctorinit, i, s);
    assert r.errors <==> s.errors || CtorError(decls, sd, elements, ctorinit, i);
    if r.errors && !s.errors {
      assert CtorError(decls, sd, elements, ctorinit, i);
    }
  }

  lemma {:induction false} FillScanIndependent(decls: seq<StructDecl>, sd: StructDecl, elements: seq<Option<Expr>>,
                                               ctorinit: bool, i: nat)
    requires ScanOk(decls, sd) && i <= NFields(sd) && NoOverlap(decls, sd)
    ensures IndependentPrefix(decls, sd, elements, ctorinit, i, FillScan(decls, sd, elements, ctorinit, i))
    decreases i
  {
    if i > 0 {
      var s := FillScan(decls, sd, elements, ctorinit, i - 1);
      assert IndependentPrefix(decls, sd, elements, ctorinit, i - 1, s) by {
        FillScanIndependent(decls, sd, elements, ctorinit, i - 1);
      }
      FillSlotIndependent(decls, sd, elements, ctorinit, i - 1, s);
    }
  }

  /** For a declaration whose fields do not overlap, `fill` gives every
      slot independently its supplied element or its field's default, and
      fails exactly when a field that needs default construction has no
      default constructor. */
  lemma FillWithoutOverlap(decls: seq<StructDecl>, sd: StructDecl, elements: seq<Option<Expr>>, ctorinit: bool)
    requires ScanOk(decls, sd) && NoOverlap(decls, sd)
    ensures var r := FillScan(decls, sd, elements, ctorinit, NFields(sd));
      && (forall k :: 0 <= k < NFields(sd) ==> r.elems[k] == Independent(decls, sd, elements, k))
      && (r.errors <==> exists k :: 0 <= k < NFields(sd) && CtorError(decls, sd, elements, ctorinit, k))
  {
    FillScanIndependent(decls, sd, elements, ctorinit, NFields(sd));
  }

  /** Once the inner loop has stopped no field is chosen. */
  lemma {:induction false} PickStoppedNone(decls: seq<StructDecl>, sd: StructDecl, elems: seq<Option<Expr>>, i: nat, j: nat)
    requires ScanOk(decls, sd) && i < NFields(sd) && j <= NFields(sd) && |elems| == NFields(sd)
    ensures PickScan(decls, sd, elems, i, j).stopped ==> !PickScan(decls, sd, elems, i, j).vx
    decreases j
  {
    if j > 0 {
      PickStoppedNone(decls, sd, elems, i, j - 1);
    }
  }

  /** An overlapping field with an element already present stops the inner
      loop, so the slot gets no default. */
  lemma {:induction false} PickStopsAtElement(decls: seq<StructDecl>, sd: StructDecl, elems: seq<Option<Expr>>,
                                              i: nat, j: nat, w: nat)
    requires ScanOk(decls, sd) && i < NFields(sd) && j <= NFields(sd) && |elems| == NFields(sd)
    requires w < j && w != i && FieldsOverlap(decls, sd, i, w) && elems[w].Some?
    ensures PickScan(decls, sd, elems, i, j).stopped && !PickScan(decls, sd, elems, i, j).vx
    decreases j
  {
    if w < j - 1 {
      PickStopsAtElement(decls, sd, elems, i, j - 1, w);
    }
    PickStoppedNone(decls, sd, elems, i, j);
  }

  /** No field is void-initialised. */
  predicate NoVoidInit(sd: StructDecl)
  {
    forall k :: 0 <= k < |sd.fields| && sd.fields[k] < |sd.members| ==> sd.members[sd.fields[k]].init != VoidInit
  }

  /** Without void-initialised fields the inner loop never chooses another
      field than the slot's own. */
  lemma {:induction false} PickOwnField(decls: seq<StructDecl>, sd: StructDecl, elems: seq<Option<Expr>>, i: nat, j: nat)
    requires ScanOk(decls, sd) && i < NFields(sd) && j <= NFields(sd) && |elems| == NFields(sd)
    requires NoVoidInit(sd)
    ensures var p := PickScan(decls, sd, elems, i, j); p.fieldi == i && (p.vx || p.stopped)
    decreases j
  {
    if j > 0 {
      PickOwnField(decls, sd, elems, i, j - 1);
    }
  }

  /** Field `k` shares storage with a field the caller supplied. */
  predicate OverlapsSupplied(decls: seq<StructDecl>, sd: StructDecl, elements: seq<Option<Expr>>, k: nat)
    requires ScanOk(decls, sd) && k < NFields(sd)
  {
    exists w :: 0 <= w < NFields(sd) && w != k && Supplied(elements, w) && FieldsOverlap(decls, sd, k, w)
  }

  /** The fill after `i` slots when no field is void-initialised: supplied
      elements are kept, later empty slots are untouched, and earlier empty
      slots that overlap a supplied element are still empty. */
  predicate ShadowPrefix(decls: seq<StructDecl>, sd: StructDecl, elements: seq<Option<Expr>>, i: nat, s: FillState)
    requires ScanOk(decls, sd) && i <= NFields(sd)
  {
    |s.elems| == NFields(sd)
    && forall k :: 0 <= k < NFields(sd) ==>
         if Supplied(elements, k) then s.elems[k] == elements[k]
         else (i <= k ==> s.elems[k] == None) && (k < i && OverlapsSupplied(decls, sd, elements, k) ==> s.elems[k] == None)
  }

  lemma FillSlotShadow(decls: seq<StructDecl>, sd: StructDecl, elements: seq<Option<Expr>>, ctorinit: bool, i: nat, s: FillState)
    requires ScanOk(decls, sd) && i < NFields(sd) && NoVoidInit(sd)
    requires ShadowPrefix(decls, sd, elements, i, s)
    ensures ShadowPrefix(decls, sd, elements, i + 1, FillSlot(decls, sd, ctorinit, i, s))
  {
    if s.elems[i].None? {
      PickOwnField(decls, sd, s.elems, i, NFields(sd));
      PickStoppedNone(decls, sd, s.elems, i, NFields(sd));
      if OverlapsSupplied(decls, sd, elements, i) {
        var w :| 0 <= w < NFields(sd) && w != i && Supplied(elements, w) && FieldsOverlap(decls, sd, i, w);
        PickStopsAtElement(decls, sd, s.elems, i, NFields(sd), w);
      }
    }
  }

  lemma {:induction false} FillScanShadow(decls: seq<StructDecl>, sd: StructDecl, elements: seq<Option<Expr>>, ctorinit: bool, i: nat)
    requires ScanOk(decls, sd) && i <= NFields(sd) && NoVoidInit(sd)
    ensures ShadowPrefix(decls, sd, elements, i, FillScan(decls, sd, elements, ctorinit, i))
    decreases i
  {
    if i > 0 {
      var s := FillScan(decls, sd, elements, ctorinit, i - 1);
      assert ShadowPrefix(decls, sd, elements, i - 1, s) by {
        FillScanShadow(decls, sd, elements, ctorinit, i - 1);
      }
      FillSlotShadow(decls, sd, elements, ctorinit, i - 1, s);
    }
  }

  /** When no field is void-initialised, a field sharing storage with a
      supplied element gets no default: the supplied element initialises
      that storage. */
  lemma FillShadowsSupplied(decls: seq<StructDecl>, sd: StructDecl, elements: seq<Option<Expr>>, ctorinit: bool, k: nat)
    requires ScanOk(decls, sd) && NoVoidInit(sd)
    requires k < NFields(sd) && !Supplied(elements, k) && OverlapsSupplied(decls, sd, elements, k)
    ensures FillScan(decls, sd, elements, ctorinit, NFields(sd)).elems[k] == None
  {
    FillScanShadow(decls, sd, elements, ctorinit, NFields(sd));
  }

  /** `union { int a; struct { short b; short c = void; } }` with only `b`
      given: the void-initialised `c` hands its slot group to `a`, which
      overlaps `c` but also the supplied `b`, so `a` receives its default
      next to `b`. With a void-initialised field the shadowing above fails. */
  lemma FillVoidLeaksDefault()
    ensures var a := VarDecl(Basic(4, 4, true), InstanceField, false, NoInit, AlignDefault, false, true, 0, false);
      var b := VarDecl(Basic(2, 2, true), InstanceField, false, NoInit, AlignDefault, false, true, 0, false);
      var c := VarDecl(Basic(2, 2, true), InstanceField, false, VoidInit, AlignDefault, false, true, 2, false);
      var sd := StructDecl(true, false, false, [a, b, c], [0, 1, 2], 4, 4, AlignDefault, SizeOkDone,
                           PassSemanticDone, true, None, false, false, false, false);
      var elements := [None, Some(Literal(1))];
      && ScanOk([], sd) && !Supplied(elements, 0) && OverlapsSupplied([], sd, elements, 0)
      && FillScan([], sd, elements, false, 3).elems == [Some(DefaultInit(0)), Some(Literal(1)), None]
  {
    var a := VarDecl(Basic(4, 4, true), InstanceField, false, NoInit, AlignDefault, false, true, 0, false);
    var b := VarDecl(Basic(2, 2, true), InstanceField, false, NoInit, AlignDefault, false, true, 0, false);
    var c := VarDecl(Basic(2, 2, true), InstanceField, false, VoidInit, AlignDefault, false, true, 2, false);
    var sd := StructDecl(true, false, false, [a, b, c], [0, 1, 2], 4, 4, AlignDefault, SizeOkDone,
                         PassSemanticDone, true, None, false, false, false, false);
    var elements := [None, Some(Literal(1))];
    assert IsPow2(2) && IsPow2(4);
    assert ScanOk([], sd);
    assert FieldsOverlap([], sd, 0, 1) && FieldsOverlap([], sd, 0, 2) && !FieldsOverlap([], sd, 1, 2);
    var e0 := [None, Some(Literal(1)), None];
    assert FillScan([], sd, elements, false, 0).elems == e0;
    assert PickScan([], sd, e0, 0, 3).vx == false;
    var s1 := FillScan([], sd, elements, false, 1);
    assert s1.elems == e0;
    var s2 := FillScan([], sd, elements, false, 2);
    assert s2.elems == e0;
    assert PickScan([], sd, e0, 2, 1) == Pick(true, 0, false, false);
    assert PickScan([], sd, e0, 2, 3) == Pick(true, 0, false, false);
    assert OwnDefault([], sd, 0) == Some(DefaultInit(0));
  }

  /** What `fit` needs of the declaration: well formed, with its context
      pointer among the fields when it is nested. */
  predicate FitOk(decls: seq<StructDecl>, sd: StructDecl)
  {
    WellFormedDecl(|decls|, sd) && FieldCountOk(sd)
  }

  /** The end `offset + size` of field `k`. */
  function FieldEndAt(decls: seq<StructDecl>, sd: StructDecl, k: nat): (e: nat)
    requires k < |sd.fields| && sd.fields[k] < |sd.members|
    ensures FieldVar(sd, k).offset <= e
  {
    FieldVar(sd, k).offset + TypeSize(decls, FieldVar(sd, k).ty)
  }

  /** The loop state of `fit`: the elements (rewritten as they are
      converted), the end of the last initialised field, and whether `fit`
      has returned false. */
  datatype FitState = FitState(elems: seq<Option<Expr>>, offset: nat, failed: bool)

  /** The loop body of `fit` for element `i`: an element beyond the fields
      is an error unless it is the `null` CTFE puts in the hidden context
      pointer; a field starting before the end of the previous initialised
      one is an overlapping initialisation; an element that converts to an
      error is an error; otherwise the converted element replaces it. */
  function FitStep(decls: seq<StructDecl>, sd: StructDecl, i: nat, s: FitState): (r: FitState)
    requires FitOk(decls, sd) && i < |s.elems|
    ensures |r.elems| == |s.elems|
  {
    if s.failed || s.elems[i].None? then s
    else
      var e := s.elems[i].value;
      if i >= NFields(sd) then
        if i == |sd.fields| - 1 && sd.nested && e == NullLiteral then s else s.(failed := true)
      else if FieldVar(sd, i).offset < s.offset then s.(failed := true)
      else if e == ErrorExp then s.(offset := FieldEndAt(decls, sd, i), failed := true)
      else FitState(s.elems[i := Some(Converted(e, sd.fields[i]))], FieldEndAt(decls, sd, i), false)
  }

  /** `fit` after elements `0 .. i - 1`. */
  function FitScan(decls: seq<StructDecl>, sd: StructDecl, elements: seq<Option<Expr>>, i: nat): (r: FitState)
    requires FitOk(decls, sd) && i <= |elements|
    ensures |r.elems| == |elements|
    decreases i
  {
    if i == 0 then FitState(elements, 0, false)
    else FitStep(decls, sd, i - 1, FitScan(decls, sd, elements, i - 1))
  }

  lemma {:induction false} FitFailedStays(decls: seq<StructDecl>, sd: StructDecl, elements: seq<Option<Expr>>, k: nat, m: nat)
    requires FitOk(decls, sd) && k <= m <= |elements| && FitScan(decls, sd, elements, k).failed
    ensures FitScan(decls, sd, elements, m) == FitScan(decls, sd, elements, k)
    decreases m
  {
    if k < m {
      FitFailedStays(decls, sd, elements, k, m - 1);
    }
  }

  /** `StructDeclaration::fit`: checks a struct literal's elements against
      the fields and converts them; a missing element list fits trivially. */
  method Fit(decls: seq<StructDecl>, sd: StructDecl, elements: Option<seq<Option<Expr>>>)
    returns (ok: bool, result: Option<seq<Option<Expr>>>)
    requires FitOk(decls, sd)
    ensures elements.None? ==> ok && result.None?
    ensures elements.Some? ==>
      var r := FitScan(decls, sd, elements.value, |elements.value|);
      result == Some(r.elems) && ok == !r.failed
  {
    result := elements;
    if elements.None? {
      return true, result;
    }
    var el := elements.value;
    var nfields := |sd.fields|;
    if sd.nested {
      nfields := nfields - 1;
    }
    var offset: nat := 0;
    var i := 0;
    while i < |el|
      invariant 0 <= i <= |el| == |elements.value| && nfields == NFields(sd)
      invariant FitState(el, offset, false) == FitScan(decls, sd, elements.value, i)
    {
      if el[i].None? {
        i := i + 1;
        continue;
      }
      var e := el[i].value;
      if i >= nfields {
        if i == |sd.fields| - 1 && sd.nested && e == NullLiteral {
          i := i + 1;
          continue;
        }
        FitFailedStays(decls, sd, elements.value, i + 1, |el|);
        return false, Some(el);
      }
      var v := sd.members[sd.fields[i]];
      if v.offset < offset {
        FitFailedStays(decls, sd, elements.value, i + 1, |el|);
        return false, Some(el);
      }
      offset := v.offset + TypeSize(decls, v.ty);
      if e == ErrorExp {
        FitFailedStays(decls, sd, elements.value, i + 1, |el|);
        return false, Some(el);
      }
      el := el[i := Some(Converted(e, sd.fields[i]))];
      i := i + 1;
    }
    return true, Some(el);
  }

  /** Element `i` may appear in a literal: an element for a field that is
      not an error expression, or `null` for the hidden context pointer. */
  predicate Admissible(sd: StructDecl, el: seq<Option<Expr>>, i: nat)
    requires FieldCountOk(sd) && i < |el| && el[i].Some?
  {
    if i < NFields(sd) then el[i].value != ErrorExp
    else sd.nested && i == |sd.fields| - 1 && el[i].value == NullLiteral
  }

  /** The first `m` elements of a literal fit: every element is admissible
      and the fields initialised are in increasing order without overlap,
      each one starting at or after the end of every earlier one. */
  predicate FitsPrefix(decls: seq<StructDecl>, sd: StructDecl, el: seq<Option<Expr>>, m: nat)
    requires FitOk(decls, sd) && m <= |el|
  {
    (forall i :: 0 <= i < m && el[i].Some? ==> Admissible(sd, el, i))
    && (forall i, j :: 0 <= i < j < m && j < NFields(sd) && el[i].Some? && el[j].Some? ==>
          FieldEndAt(decls, sd, i) <= FieldVar(sd, j).offset)
  }

  /** The element after conversion to its field's type. */
  function Fitted(sd: StructDecl, el: seq<Option<Expr>>, k: nat): Option<Expr>
    requires FieldCountOk(sd) && k < |el|
  {
    if el[k].Some? && k < NFields(sd) then Some(Converted(el[k].value, sd.fields[k])) else el[k]
  }

  /** The end of the last field initialised among the first `m` elements. */
  function LastEnd(decls: seq<StructDecl>, sd: StructDecl, el: seq<Option<Expr>>, m: nat): nat
    requires FitOk(decls, sd) && m <= |el|
  {
    if m == 0 then 0
    else if m - 1 < NFields(sd) && el[m - 1].Some? then FieldEndAt(decls, sd, m - 1)
    else LastEnd(decls, sd, el, m - 1)
  }

  /** In a fitting prefix the last end is the largest end. */
  lemma {:induction false} LastEndBound(decls: seq<StructDecl>, sd: StructDecl, el: seq<Option<Expr>>, m: nat, k: nat)
    requires FitOk(decls, sd) && m <= |el| && FitsPrefix(decls, sd, el, m)
    requires k < m && k < NFields(sd) && el[k].Some?
    ensures FieldEndAt(decls, sd, k) <= LastEnd(decls, sd, el, m)
    decreases m
  {
    if k < m - 1 {
      if m - 1 < NFields(sd) && el[m - 1].Some? {
        assert FieldEndAt(decls, sd, k) <= FieldVar(sd, m - 1).offset;
      } else {
        LastEndBound(decls, sd, el, m - 1, k);
      }
    }
  }

  /** The last end is no larger than any bound on the ends. */
  lemma {:induction false} LastEndLeast(decls: seq<StructDecl>, sd: StructDecl, el: seq<Option<Expr>>, m: nat, x: nat)
    requires FitOk(decls, sd) && m <= |el|
    requires forall k :: 0 <= k < m && k < NFields(sd) && el[k].Some? ==> FieldEndAt(decls, sd, k) <= x
    ensures LastEnd(decls, sd, el, m) <= x
    decreases m
  {
    if m > 0 {
      LastEndLeast(decls, sd, el, m - 1, x);
    }
  }

  /** The meaning of `fit`'s state after `m` elements. */
  predicate FitMeaning(decls: seq<StructDecl>, sd: StructDecl, el: seq<Option<Expr>>, m: nat, r: FitState)
    requires FitOk(decls, sd) && m <= |el|
  {
    |r.elems| == |el|
    && (!r.failed <==> FitsPrefix(decls, sd, el, m))
    && (!r.failed ==>
          r.offset == LastEnd(decls, sd, el, m)
          && forall k :: 0 <= k < |el| ==> r.elems[k] == if k < m then Fitted(sd, el, k) else el[k])
  }

  lemma FitStepMeaning(decls: seq<StructDecl>, sd: StructDecl, el: seq<Option<Expr>>, m: nat, r: FitState)
    requires FitOk(decls, sd) && m < |el| && FitMeaning(decls, sd, el, m, r)
    ensures FitMeaning(decls, sd, el, m + 1, FitStep(decls, sd, m, r))
  {
    if !r.failed && el[m].Some? && m < NFields(sd) {
      if FieldVar(sd, m).offset < r.offset {
        if forall k :: 0 <= k < m && k < NFields(sd) && el[k].Some? ==> FieldEndAt(decls, sd, k) <= FieldVar(sd, m).offset {
          LastEndLeast(decls, sd, el, m, FieldVar(sd, m).offset);
        }
      } else {
        forall k | 0 <= k < m && k < NFields(sd) && el[k].Some?
          ensures FieldEndAt(decls, sd, k) <= FieldVar(sd, m).offset
        {
          LastEndBound(decls, sd, el, m, k);
        }
      }
    }
  }

  lemma {:induction false} FitScanMeaning(decls: seq<StructDecl>, sd: StructDecl, el: seq<Option<Expr>>, m: nat)
    requires FitOk(decls, sd) && m <= |el|
    ensures FitMeaning(decls, sd, el, m, FitScan(decls, sd, el, m))
    decreases m
  {
    if m > 0 {
      var r := FitScan(decls, sd, el, m - 1);
      assert FitMeaning(decls, sd, el, m - 1, r) by {
        FitScanMeaning(decls, sd, el, m - 1);
      }
      FitStepMeaning(decls, sd, el, m - 1, r);
    }
  }

  /** `fit` accepts exactly the literals whose elements are admissible and
      initialise fields in increasing, non-overlapping order; on success
      every element for a field is replaced by its conversion to the
      field's type and nothing else changes. */
  lemma FitAccepts(decls: seq<StructDecl>, sd: StructDecl, el: seq<Option<Expr>>)
    requires FitOk(decls, sd)
    ensures var r := FitScan(decls, sd, el, |el|);
      && (!r.failed <==> FitsPrefix(decls, sd, el, |el|))
      && (!r.failed ==> forall k :: 0 <= k < |el| ==> r.elems[k] == Fitted(sd, el, k))
  {
    FitScanMeaning(decls, sd, el, |el|);
  }
}
