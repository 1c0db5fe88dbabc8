/** The resolution state machine of the 2014 front end: `semantic` with its
    forward-reference unwind and deferral, `size`, the `finalizeSize` step on
    the declaration table, and the cached, recursive `isPOD`. The table, the
    global progress counter `Module::dprogress`, the deferred-semantic queue
    and the diagnostics are the state of one `Compilation` object. */
module DfrontendSemantic {
  import opened Bits
  import opened DfrontendTypes
  import opened DfrontendFields
  import opened DfrontendOverlap
  import opened DfrontendFinalize

  // ---------------------------------------------------------------------
  // Fields whose struct type is sized, and the rank that orders them

  /** A field's struct base element (if it is not a `ref`) is another
      declaration of the table whose size is done. */
  predicate BaseDone(decls: seq<StructDecl>, self: nat, v: VarDecl)
  {
    var b := BaseElem(v.ty);
    !v.isRef && b.Struct? ==> b.sym != self && b.sym < |decls| && decls[b.sym].sizeok == SizeOkDone
  }

  /** Every field of a field list has a sized struct base element. */
  predicate BasesDone(decls: seq<StructDecl>, self: nat, members: seq<VarDecl>, fields: seq<nat>)
  {
    forall f :: 0 <= f < |fields| ==> fields[f] < |members| && BaseDone(decls, self, members[fields[f]])
  }

  /** `setFieldOffset` only appends fields whose struct type is sized. */
  lemma StepBasesDone(env: LayoutEnv, st: LayoutState, k: nat)
    requires EnvOk(env) && k < |env.members| && |st.offsets| == |env.members|
    requires BasesDone(env.decls, env.self, env.members, st.fields)
    ensures BasesDone(env.decls, env.self, env.members, FieldOffsetStep(env, st, k).fields)
  {
    StepFacts(env, st, k);
    if Classify(env, st.fields, k) == Placed {
      var fs := FieldOffsetStep(env, st, k).fields;
      assert fs == st.fields + [k];
      forall f | 0 <= f < |fs|
        ensures fs[f] < |env.members| && BaseDone(env.decls, env.self, env.members[fs[f]])
      {
        if f < |st.fields| {
          assert fs[f] == st.fields[f];
        }
      }
    }
  }

  lemma {:induction false} LayoutBasesDone(env: LayoutEnv, st0: LayoutState, n: nat)
    requires EnvOk(env) && n <= |env.members| && |st0.offsets| == |env.members|
    requires BasesDone(env.decls, env.self, env.members, st0.fields)
    ensures BasesDone(env.decls, env.self, env.members, Layout(env, st0, n).fields)
    decreases n
  {
    if n > 0 {
      LayoutBasesDone(env, st0, n - 1);
      StepBasesDone(env, Layout(env, st0, n - 1), n - 1);
    }
  }

  /** After `finalizeSize` every field of the declaration has a sized struct
      base element other than the declaration itself. */
  lemma FinalizeBasesDone(decls: seq<StructDecl>, self: nat, is64bit: bool)
    requires FinalizeOk(decls, self) && decls[self].sizeok == SizeOkNone
    requires BasesDone(decls, self, decls[self].members, decls[self].fields)
    ensures var r := FinalizeSpec(decls, self, is64bit).sd;
      BasesDone(decls, self, r.members, r.fields)
  {
    var sd := decls[self];
    EnvOkOfWellFormed(decls, self, is64bit);
    var env := MakeEnv(decls, self, sd, is64bit);
    LayoutBasesDone(env, StartState(sd), |sd.members|);
    FinalizeWritesLayout(decls, self, is64bit);
    var r := FinalizeSpec(decls, self, is64bit).sd;
    forall f | 0 <= f < |r.fields|
      ensures r.fields[f] < |r.members| && BaseDone(decls, self, r.members[r.fields[f]])
    {
      var k := r.fields[f];
      assert r.members[k].ty == sd.members[k].ty && r.members[k].isRef == sd.members[k].isRef;
    }
  }

  /** A field's struct base element ranks below the declaration `i`. */
  predicate RankedField(decls: seq<StructDecl>, rank: seq<nat>, i: nat, v: VarDecl)
    requires |rank| == |decls| && i < |decls|
  {
    var b := BaseElem(v.ty);
    !v.isRef && b.Struct? ==>
      b.sym < |decls| && decls[b.sym].sizeok == SizeOkDone && rank[b.sym] < rank[i]
  }

  /** Every declaration's fields have sized struct types of smaller rank: a
      struct cannot contain itself by value, so following fields by value
      always ends. */
  predicate Ranked(decls: seq<StructDecl>, rank: seq<nat>)
  {
    |rank| == |decls|
    && forall i, f :: 0 <= i < |decls| && 0 <= f < |decls[i].fields| ==>
         decls[i].fields[f] < |decls[i].members|
         && RankedField(decls, rank, i, decls[i].members[decls[i].fields[f]])
  }

  /** A declaration whose size is not done has no field of its own type
      and only fields of sized struct types. */
  lemma RankedBasesDone(decls: seq<StructDecl>, rank: seq<nat>, i: nat)
    requires Ranked(decls, rank) && i < |decls| && decls[i].sizeok != SizeOkDone
    ensures BasesDone(decls, i, decls[i].members, decls[i].fields)
  {
    forall f | 0 <= f < |decls[i].fields|
      ensures decls[i].fields[f] < |decls[i].members|
           && BaseDone(decls, i, decls[i].members[decls[i].fields[f]])
    {
      assert RankedField(decls, rank, i, decls[i].members[decls[i].fields[f]]);
    }
  }

  /** `finalizeSize` on a declaration whose size was not done, with that
      declaration given a rank above every other, keeps the table ranked. */
  lemma FinalizeKeepsRanked(decls: seq<StructDecl>, rank: seq<nat>, top: nat, i: nat, is64bit: bool)
    requires FinalizeOk(decls, i) && Ranked(decls, rank) && decls[i].sizeok == SizeOkNone
    requires forall j :: 0 <= j < |rank| ==> rank[j] < top
    ensures Ranked(decls[i := FinalizeSpec(decls, i, is64bit).sd], rank[i := top])
  {
    var r := FinalizeSpec(decls, i, is64bit).sd;
    var decls', rank' := decls[i := r], rank[i := top];
    RankedBasesDone(decls, rank, i);
    FinalizeBasesDone(decls, i, is64bit);
    forall k, f | 0 <= k < |decls'| && 0 <= f < |decls'[k].fields|
      ensures decls'[k].fields[f] < |decls'[k].members|
           && RankedField(decls', rank', k, decls'[k].members[decls'[k].fields[f]])
    {
      if k == i {
        assert BaseDone(decls, i, r.members[r.fields[f]]);
      } else {
        assert RankedField(decls, rank, k, decls[k].members[decls[k].fields[f]]);
      }
    }
  }

  // ---------------------------------------------------------------------
  // isPOD

  function PodBit(b: bool): (c: PodCache)
    ensures c != IsPodFwd && (c == IsPodYes <==> b)
  {
    if b then IsPodYes else IsPodNo
  }

  /** The declaration itself allows POD: no enclosing context, no postblit,
      no destructor. */
  predicate PodHeader(sd: StructDecl)
  {
    !(sd.nested || sd.postblit || sd.dtor)
  }

  /** What `isPOD` answers on declaration `i` given the cache `cache`: the
      cached answer when there is one, otherwise the header test and, for
      every field, that it is not `ref` and that its struct base element
      (if any) is POD. */
  predicate PodValue(decls: seq<StructDecl>, rank: seq<nat>, cache: seq<PodCache>, i: nat)
    requires Ranked(decls, rank) && |cache| == |decls| && i < |decls|
    decreases rank[i], 1
  {
    if cache[i] != IsPodFwd then cache[i] == IsPodYes
    else PodHeader(decls[i])
         && forall f :: 0 <= f < |decls[i].fields| ==> FieldPod(decls, rank, cache, i, f)
  }

  /** Field `f` of declaration `i` does not make it non-POD. */
  predicate FieldPod(decls: seq<StructDecl>, rank: seq<nat>, cache: seq<PodCache>, i: nat, f: nat)
    requires Ranked(decls, rank) && |cache| == |decls| && i < |decls| && f < |decls[i].fields|
    decreases rank[i], 0
  {
    var v := decls[i].members[decls[i].fields[f]];
    var b := BaseElem(v.ty);
    assert RankedField(decls, rank, i, v);
    !v.isRef && (b.Struct? ==> PodValue(decls, rank, cache, b.sym))
  }

  /** A cache with no answers. */
  function EmptyCache(n: nat): (c: seq<PodCache>)
    ensures |c| == n && forall k :: 0 <= k < n ==> c[k] == IsPodFwd
  {
    seq(n, _ => IsPodFwd)
  }

  /** Plain-old-data-ness itself: the answer from an empty cache. */
  predicate PodSpec(decls: seq<StructDecl>, rank: seq<nat>, i: nat)
    requires Ranked(decls, rank) && i < |decls|
  {
    PodValue(decls, rank, EmptyCache(|decls|), i)
  }

  /** Every cached answer is the right one. */
  predicate CacheSound(decls: seq<StructDecl>, rank: seq<nat>, cache: seq<PodCache>)
    requires Ranked(decls, rank) && |cache| == |decls|
  {
    forall k :: 0 <= k < |decls| && cache[k] != IsPodFwd ==> cache[k] == PodBit(PodSpec(decls, rank, k))
  }

  /** `c2` differs from `c1` below rank `r` only by answers filled into empty
      entries, each the answer `c1` gives. */
  predicate CacheAgrees(decls: seq<StructDecl>, rank: seq<nat>, c1: seq<PodCache>, c2: seq<PodCache>, r: nat)
    requires Ranked(decls, rank) && |c1| == |decls| && |c2| == |decls|
  {
    forall k :: 0 <= k < |decls| && rank[k] < r ==>
      c2[k] == c1[k] || (c1[k] == IsPodFwd && c2[k] == PodBit(PodValue(decls, rank, c1, k)))
  }

  /** What one `isPOD(i)` call may do to the cache: fill empty entries of
      `i` and of declarations below it with the answers `c1` gives. */
  predicate CacheGrows(decls: seq<StructDecl>, rank: seq<nat>, c1: seq<PodCache>, c2: seq<PodCache>, i: nat)
    requires Ranked(decls, rank) && |c1| == |decls| && |c2| == |decls| && i < |decls|
  {
    forall k :: 0 <= k < |decls| ==>
      c2[k] == c1[k]
      || (c1[k] == IsPodFwd && c2[k] == PodBit(PodValue(decls, rank, c1, k)) && (k == i || rank[k] < rank[i]))
  }

  /** Fields `0 .. f - 1` of declaration `i` do not make it non-POD. */
  predicate FieldsPodUpTo(decls: seq<StructDecl>, rank: seq<nat>, cache: seq<PodCache>, i: nat, f: nat)
    requires Ranked(decls, rank) && |cache| == |decls| && i < |decls| && f <= |decls[i].fields|
  {
    forall g :: 0 <= g < f ==> FieldPod(decls, rank, cache, i, g)
  }

  /** The cache `c` differs from `c0` away from `i` only by answers filled
      in for declarations below `i`. */
  predicate FilledBelow(decls: seq<StructDecl>, rank: seq<nat>, c0: seq<PodCache>, c: seq<PodCache>, i: nat)
    requires Ranked(decls, rank) && |c0| == |decls| && i < |decls|
  {
    |c| == |decls|
    && forall k :: 0 <= k < |decls| && k != i ==>
         c[k] == c0[k] || (c0[k] == IsPodFwd && c[k] == PodBit(PodValue(decls, rank, c0, k)) && rank[k] < rank[i])
  }

  /** Filling empty cache entries with their own answers changes no answer. */
  lemma {:induction false} PodValueAgrees(decls: seq<StructDecl>, rank: seq<nat>, c1: seq<PodCache>,
                                          c2: seq<PodCache>, r: nat, i: nat)
    requires Ranked(decls, rank) && |c1| == |decls| && |c2| == |decls| && i < |decls|
    requires CacheAgrees(decls, rank, c1, c2, r) && rank[i] < r
    ensures PodValue(decls, rank, c2, i) == PodValue(decls, rank, c1, i)
    decreases rank[i]
  {
    if c1[i] == IsPodFwd && c2[i] == IsPodFwd {
      forall f | 0 <= f < |decls[i].fields|
        ensures FieldPod(decls, rank, c2, i, f) == FieldPod(decls, rank, c1, i, f)
      {
        var v := decls[i].members[decls[i].fields[f]];
        var b := BaseElem(v.ty);
        assert RankedField(decls, rank, i, v);
        if !v.isRef && b.Struct? {
          PodValueAgrees(decls, rank, c1, c2, r, b.sym);
        }
      }
    }
  }

  /** A recursive `isPOD(j)` inside `isPOD(i)`: it answers as the cache at
      entry would, and the cache stays filled only below `i`. */
  lemma PodCallStep(decls: seq<StructDecl>, rank: seq<nat>, c0: seq<PodCache>, c1: seq<PodCache>,
                    c2: seq<PodCache>, i: nat, j: nat)
    requires Ranked(decls, rank) && |c0| == |decls| && i < |decls| && j < |decls| && rank[j] < rank[i]
    requires FilledBelow(decls, rank, c0, c1, i) && c1[i] != IsPodFwd
    requires |c2| == |decls| && CacheGrows(decls, rank, c1, c2, j)
    ensures FilledBelow(decls, rank, c0, c2, i) && c2[i] == c1[i]
    ensures PodValue(decls, rank, c1, j) == PodValue(decls, rank, c0, j)
  {
    assert CacheAgrees(decls, rank, c0, c1, rank[i]);
    PodValueAgrees(decls, rank, c0, c1, rank[i], j);
    forall k | 0 <= k < |decls| && k != i && c2[k] != c1[k]
      ensures PodValue(decls, rank, c1, k) == PodValue(decls, rank, c0, k)
    {
      PodValueAgrees(decls, rank, c0, c1, rank[i], k);
    }
  }

  /** At the end of `isPOD(i)` the entry of `i` holds its answer. */
  lemma PodCallDone(decls: seq<StructDecl>, rank: seq<nat>, c0: seq<PodCache>, c: seq<PodCache>, i: nat)
    requires Ranked(decls, rank) && |c0| == |decls| && i < |decls|
    requires FilledBelow(decls, rank, c0, c, i)
    requires c0[i] == IsPodFwd ==> c[i] == PodBit(PodValue(decls, rank, c0, i))
    requires c0[i] != IsPodFwd ==> c[i] == c0[i]
    ensures CacheGrows(decls, rank, c0, c, i)
  {
  }

  /** With a sound cache `isPOD`'s answer is plain-old-data-ness itself. */
  lemma PodCacheSound(decls: seq<StructDecl>, rank: seq<nat>, cache: seq<PodCache>, i: nat)
    requires Ranked(decls, rank) && |cache| == |decls| && i < |decls|
    requires CacheSound(decls, rank, cache)
    ensures PodValue(decls, rank, cache, i) == PodSpec(decls, rank, i)
  {
    var empty := EmptyCache(|decls|);
    assert CacheAgrees(decls, rank, empty, cache, rank[i] + 1);
    PodValueAgrees(decls, rank, empty, cache, rank[i] + 1, i);
  }

  /** Filling a sound cache keeps it sound. */
  lemma CacheGrowsSound(decls: seq<StructDecl>, rank: seq<nat>, c1: seq<PodCache>, c2: seq<PodCache>, i: nat)
    requires Ranked(decls, rank) && |c1| == |decls| && |c2| == |decls| && i < |decls|
    requires CacheSound(decls, rank, c1) && CacheGrows(decls, rank, c1, c2, i)
    ensures CacheSound(decls, rank, c2)
  {
    forall k | 0 <= k < |decls| && c2[k] != IsPodFwd
      ensures c2[k] == PodBit(PodSpec(decls, rank, k))
    {
      if c2[k] != c1[k] {
        PodCacheSound(decls, rank, c1, k);
      }
    }
  }

  /** POD-ness unfolded: the header test and every field not `ref` and of
      POD struct type, if any. */
  lemma {:induction false} PodSpecMeaning(decls: seq<StructDecl>, rank: seq<nat>, i: nat)
    requires Ranked(decls, rank) && i < |decls|
    ensures PodSpec(decls, rank, i) <==>
      PodHeader(decls[i])
      && forall f :: 0 <= f < |decls[i].fields| ==>
           var v := FieldVar(decls[i], f);
           !v.isRef && (BaseElem(v.ty).Struct? ==> PodSpec(decls, rank, BaseElem(v.ty).sym))
  {
    var empty := EmptyCache(|decls|);
    assert empty[i] == IsPodFwd;
    forall f | 0 <= f < |decls[i].fields|
      ensures FieldPod(decls, rank, empty, i, f) <==>
        var v := FieldVar(decls[i], f);
        !v.isRef && (BaseElem(v.ty).Struct? ==> PodSpec(decls, rank, BaseElem(v.ty).sym))
    {
      var v := FieldVar(decls[i], f);
      assert RankedField(decls, rank, i, v);
      if !v.isRef && BaseElem(v.ty).Struct? {
        assert PodSpec(decls, rank, BaseElem(v.ty).sym) == PodValue(decls, rank, empty, BaseElem(v.ty).sym);
      }
    }
    assert PodSpec(decls, rank, i) == PodValue(decls, rank, empty, i);
  }

  // ---------------------------------------------------------------------
  // The state of a compilation and the specification of `semantic`/`size`

  /** The state `semantic`, `size` and `finalizeSize` work on: the
      declaration table, `Module::dprogress`, the deferred-semantic queue and
      the diagnostics reported so far. */
  datatype World = World(decls: seq<StructDecl>, dprogress: nat, deferred: seq<nat>, diags: seq<Diag>)

  /** What the special-member builders report: whether the aggregate gets a
      destructor, a postblit and an invariant. */
  datatype Specials = Specials(dtor: bool, postblit: bool, inv: bool)

  /** The members after their own semantic pass has finished. */
  function MembersSemantic(members: seq<VarDecl>): (r: seq<VarDecl>)
    ensures |r| == |members|
    ensures forall k :: 0 <= k < |members| ==> r[k] == members[k].(semanticDone := true)
  {
    seq(|members|, k requires 0 <= k < |members| => members[k].(semanticDone := true))
  }

  /** The members with the offsets of the listed fields set back to 0. */
  function ZeroOffsets(members: seq<VarDecl>, fields: seq<nat>): (r: seq<VarDecl>)
    ensures |r| == |members|
    ensures forall k :: 0 <= k < |members| && k in fields ==> r[k] == members[k].(offset := 0)
    ensures forall k :: 0 <= k < |members| && k !in fields ==> r[k] == members[k]
  {
    seq(|members|, k requires 0 <= k < |members| => if k in fields then members[k].(offset := 0) else members[k])
  }

  /** The unwind after a forward reference: the field offsets go back to 0,
      the field list is emptied, size and alignment go back to 0. */
  function Unwound(sd: StructDecl): StructDecl
  {
    sd.(members := ZeroOffsets(sd.members, sd.fields), fields := [], structsize := 0, alignsize := 0)
  }

  /** Some field's struct base element has not finished its semantic pass,
      so the special members cannot be built yet. */
  predicate WaitsOn(decls: seq<StructDecl>, sd: StructDecl)
  {
    exists f :: 0 <= f < |sd.fields| && sd.fields[f] < |sd.members| && Pending(decls, sd.members[sd.fields[f]])
  }

  /** The variable's struct base element has not finished its semantic pass. */
  predicate Pending(decls: seq<StructDecl>, v: VarDecl)
  {
    var b := BaseElem(v.ty);
    b.Struct? && b.sym < |decls| && decls[b.sym].semanticRun != PassSemanticDone
  }

  /** `finalizeSize` on declaration `i` of a compilation. */
  function FinalizeWorld(w: World, i: nat, is64bit: bool): World
    requires FinalizeOk(w.decls, i)
  {
    var r := FinalizeSpec(w.decls, i, is64bit);
    w.(decls := w.decls[i := r.sd], diags := w.diags + r.diags)
  }

  /** The part of `semantic` from `LafterSizeok` on: defer while a field's
      struct is pending, otherwise record the special members and finish. */
  function AfterSizeok(w: World, i: nat, cur: Alignment, built: Specials): World
    requires i < |w.decls|
  {
    var sd := w.decls[i];
    if WaitsOn(w.decls, sd) then
      w.(decls := w.decls[i := sd.(scope := Some(cur))], deferred := Defer(w.deferred, i))
    else
      w.(decls := w.decls[i := sd.(dtor := built.dtor, postblit := built.postblit, inv := built.inv,
                                   semanticRun := PassSemanticDone)],
         dprogress := w.dprogress + 1)
  }

  /** What `semantic` may be called with: a scope given or saved, and an
      alignment that is valid. */
  predicate SemanticOk(decls: seq<StructDecl>, i: nat, sc: Option<Alignment>)
  {
    WellFormed(decls) && i < |decls|
    && (sc.Some? || decls[i].scope.Some?)
    && (sc.Some? ==> ValidAlignment(sc.value))
  }

  /** The alignment in effect for the run: the saved scope's, else the given one's. */
  function Current(sd: StructDecl, sc: Option<Alignment>): Alignment
    requires sc.Some? || sd.scope.Some?
  {
    if sd.scope.Some? then sd.scope.value else sc.value
  }

  /** The run reaches the layout: not finished, not short-cut because its
      members were already added with no saved scope, and with a body. */
  predicate Runs(sd: StructDecl)
  {
    sd.semanticRun != PassSemanticDone
    && !(sd.semanticRun != PassInit && sd.symtab && sd.scope.None?)
    && !sd.noBody
  }

  /** The declaration as it enters the layout: saved scope taken, alignment
      taken from the scope on the first run, members added and their
      semantic run, and the size to be done again unless it is done. */
  function Entered(sd: StructDecl, sc: Option<Alignment>): StructDecl
    requires sc.Some? || sd.scope.Some?
  {
    var cur := Current(sd, sc);
    var sd1 := sd.(scope := None, semanticRun := PassSemantic, symtab := true,
                   alignment := if sd.semanticRun == PassInit then cur else sd.alignment);
    if sd.sizeok == SizeOkDone then sd1
    else sd1.(sizeok := SizeOkNone, members := MembersSemantic(sd.members))
  }

  lemma EnteredWellFormed(decls: seq<StructDecl>, i: nat, sc: Option<Alignment>)
    requires SemanticOk(decls, i, sc)
    ensures WellFormed(decls[i := Entered(decls[i], sc)])
  {
    var sd := decls[i];
    assert WellFormedDecl(|decls|, sd) && AlignInv(sd);
  }

  /** `StructDeclaration::semantic` on declaration `i`. */
  function SemanticSpec(w: World, i: nat, sc: Option<Alignment>, built: Specials, is64bit: bool): (r: World)
    requires SemanticOk(w.decls, i, sc)
    ensures |r.decls| == |w.decls|
  {
    if Runs(w.decls[i]) then RunSpec(w, i, sc, built, is64bit) else ShortSpec(w, i, sc)
  }

  /** The runs of `semantic` that stop before the layout: one that has
      finished changes nothing; one whose members were added before with no
      scope saved, and one without a body, finish at once. */
  function ShortDecl(sd: StructDecl, sc: Option<Alignment>): (r: StructDecl)
    requires (sc.Some? || sd.scope.Some?) && !Runs(sd)
    ensures r.members == sd.members && r.fields == sd.fields && r.sizeok == sd.sizeok
    ensures r.semanticRun == PassSemanticDone
  {
    var cur := Current(sd, sc);
    if sd.semanticRun == PassSemanticDone then sd
    else if sd.semanticRun != PassInit && sd.symtab && sd.scope.None? then sd.(semanticRun := PassSemanticDone)
    else sd.(scope := None, semanticRun := PassSemanticDone,
             alignment := if sd.semanticRun == PassInit then cur else sd.alignment)
  }

  function ShortSpec(w: World, i: nat, sc: Option<Alignment>): (r: World)
    requires i < |w.decls| && (sc.Some? || w.decls[i].scope.Some?) && !Runs(w.decls[i])
    ensures |r.decls| == |w.decls|
  {
    w.(decls := w.decls[i := ShortDecl(w.decls[i], sc)])
  }

  /** The run of `semantic` that reaches the layout: finalise the size
      unless it is done, then continue at `LafterSizeok`. */
  function RunSpec(w: World, i: nat, sc: Option<Alignment>, built: Specials, is64bit: bool): (r: World)
    requires SemanticOk(w.decls, i, sc) && Runs(w.decls[i])
    ensures |r.decls| == |w.decls|
  {
    var sd := w.decls[i];
    var w1 := w.(decls := w.decls[i := Entered(sd, sc)]);
    if sd.sizeok == SizeOkDone then AfterSizeok(w1, i, Current(sd, sc), built)
    else
      EnteredWellFormed(w.decls, i, sc);
      FinalizeStep(w1, i, Current(sd, sc), built, is64bit)
  }

  /** `finalizeSize` inside `semantic`: unwind and defer on a forward
      reference, otherwise count progress and continue at `LafterSizeok`. */
  function FinalizeStep(w: World, i: nat, cur: Alignment, built: Specials, is64bit: bool): (r: World)
    requires FinalizeOk(w.decls, i)
    ensures |r.decls| == |w.decls|
  {
    var w2 := FinalizeWorld(w, i, is64bit);
    if w2.decls[i].sizeok == SizeOkFwd then
      w2.(decls := w2.decls[i := Unwound(w2.decls[i]).(scope := Some(cur))], deferred := Defer(w2.deferred, i))
    else AfterSizeok(w2.(dprogress := w2.dprogress + 1), i, cur, built)
  }

  /** A member that needs further processing before the size can be known:
      an instance field whose own semantic has not finished. */
  predicate NeedsWork(v: VarDecl)
  {
    v.storage == InstanceField && !v.semanticDone
  }

  /** Every member is done enough to determine the size. */
  predicate FieldsReady(members: seq<VarDecl>)
  {
    forall k :: 0 <= k < |members| ==> !NeedsWork(members[k])
  }

  /** The outcome of `size`: the new state and the size returned. */
  datatype Sizing = Sizing(w: World, size: nat)

  /** `AggregateDeclaration::size` on declaration `i`: run a saved semantic
      first, lay out if that is possible, then report failures. */
  function SizeSpec(w: World, i: nat, built: Specials, is64bit: bool): Sizing
    requires WellFormed(w.decls) && i < |w.decls|
  {
    Reported(SizeLayout(SizeSemantic(w, i, built, is64bit), i, is64bit), i)
  }

  /** The semantic run `size` starts with: only for a declaration not yet
      sized that has a saved scope. */
  function SizeSemantic(w: World, i: nat, built: Specials, is64bit: bool): (r: World)
    requires WellFormed(w.decls) && i < |w.decls|
    ensures WellFormed(r.decls) && |r.decls| == |w.decls|
  {
    SemanticKeepsWellFormed(w, i, None, built, is64bit);
    var sd := w.decls[i];
    if sd.sizeok != SizeOkDone && sd.scope.Some? then SemanticSpec(w, i, None, built, is64bit) else w
  }

  /** `size` lays the declaration out itself when it has a body, is not
      sized and every member is ready. */
  predicate NeedsLayout(sd: StructDecl)
  {
    sd.sizeok != SizeOkDone && !sd.noBody && FieldsReady(sd.members)
  }

  /** The layout step of `size`. */
  function SizeLayout(w: World, i: nat, is64bit: bool): World
    requires WellFormed(w.decls) && i < |w.decls|
  {
    if NeedsLayout(w.decls[i]) then FinalizeWorld(w, i, is64bit) else w
  }

  /** The end of `size`: report an unknown size or a size not yet known,
      and return the recorded size. */
  function Reported(w: World, i: nat): Sizing
    requires i < |w.decls|
  {
    var sd := w.decls[i];
    if sd.noBody then Sizing(w.(diags := w.diags + [UnknownSize(i)]), sd.structsize)
    else if sd.sizeok != SizeOkDone then Sizing(w.(diags := w.diags + [NoSizeYet(i)]), sd.structsize)
    else Sizing(w, sd.structsize)
  }

  /** Unwinding a declaration that is not sized keeps the table well formed. */
  lemma UnwoundWellFormed(decls: seq<StructDecl>, i: nat, cur: Alignment)
    requires WellFormed(decls) && i < |decls| && decls[i].sizeok != SizeOkDone && ValidAlignment(cur)
    ensures WellFormed(decls[i := Unwound(decls[i]).(scope := Some(cur))])
  {
    var sd := decls[i];
    assert WellFormedDecl(|decls|, sd);
    var u := Unwound(sd).(scope := Some(cur));
    forall k | 0 <= k < |u.members|
      ensures u.members[k].ty == sd.members[k].ty && u.members[k].align == sd.members[k].align
      ensures u.members[k].storage == sd.members[k].storage && u.members[k].isRef == sd.members[k].isRef
    {
    }
    assert WellFormedDecl(|decls|, u);
    ReplaceWellFormed(decls, i, u);
  }

  /** Replacing one well-formed declaration keeps the table well formed. */
  lemma ReplaceWellFormed(decls: seq<StructDecl>, i: nat, sd: StructDecl)
    requires WellFormed(decls) && i < |decls| && WellFormedDecl(|decls|, sd) && AlignInv(sd)
    ensures WellFormed(decls[i := sd])
  {
  }

  lemma AfterSizeokWellFormed(w: World, i: nat, cur: Alignment, built: Specials)
    requires WellFormed(w.decls) && i < |w.decls| && ValidAlignment(cur)
    ensures WellFormed(AfterSizeok(w, i, cur, built).decls)
  {
    var sd := w.decls[i];
    assert WellFormedDecl(|w.decls|, sd) && AlignInv(sd);
    if WaitsOn(w.decls, sd) {
      ReplaceWellFormed(w.decls, i, sd.(scope := Some(cur)));
    } else {
      ReplaceWellFormed(w.decls, i, sd.(dtor := built.dtor, postblit := built.postblit, inv := built.inv,
                                        semanticRun := PassSemanticDone));
    }
  }

  /** `semantic` keeps the table well formed. */
  lemma SemanticKeepsWellFormed(w: World, i: nat, sc: Option<Alignment>, built: Specials, is64bit: bool)
    requires WellFormed(w.decls) && i < |w.decls|
    ensures SemanticOk(w.decls, i, sc) ==> WellFormed(SemanticSpec(w, i, sc, built, is64bit).decls)
  {
    if SemanticOk(w.decls, i, sc) {
      var sd := w.decls[i];
      assert WellFormedDecl(|w.decls|, sd) && AlignInv(sd);
      if Runs(sd) {
        RunKeepsWellFormed(w, i, sc, built, is64bit);
      } else {
        ReplaceWellFormed(w.decls, i, ShortDecl(sd, sc));
      }
    }
  }

  lemma RunKeepsWellFormed(w: World, i: nat, sc: Option<Alignment>, built: Specials, is64bit: bool)
    requires SemanticOk(w.decls, i, sc) && Runs(w.decls[i])
    ensures WellFormed(RunSpec(w, i, sc, built, is64bit).decls)
  {
    var sd := w.decls[i];
    var cur := Current(sd, sc);
    assert WellFormedDecl(|w.decls|, sd);
    EnteredWellFormed(w.decls, i, sc);
    var w1 := w.(decls := w.decls[i := Entered(sd, sc)]);
    if sd.sizeok == SizeOkDone {
      AfterSizeokWellFormed(w1, i, cur, built);
    } else {
      FinalizeStepWellFormed(w1, i, cur, built, is64bit);
    }
  }

  lemma FinalizeStepWellFormed(w: World, i: nat, cur: Alignment, built: Specials, is64bit: bool)
    requires FinalizeOk(w.decls, i) && ValidAlignment(cur)
    ensures WellFormed(FinalizeStep(w, i, cur, built, is64bit).decls)
  {
    FinalizeKeepsWellFormed(w.decls, i, is64bit);
    var w2 := FinalizeWorld(w, i, is64bit);
    if w2.decls[i].sizeok == SizeOkFwd {
      UnwoundWellFormed(w2.decls, i, cur);
    } else {
      AfterSizeokWellFormed(w2.(dprogress := w2.dprogress + 1), i, cur, built);
    }
  }

  // ---------------------------------------------------------------------
  // Keeping the table ranked across `semantic`

  /** Replacing declaration `i` by one with the same field list, member
      types and sizedness keeps the table ranked. */
  lemma SameShapeRanked(decls: seq<StructDecl>, rank: seq<nat>, i: nat, sd': StructDecl)
    requires Ranked(decls, rank) && i < |decls|
    requires sd'.fields == decls[i].fields && |sd'.members| == |decls[i].members|
    requires forall k :: 0 <= k < |sd'.members| ==>
      sd'.members[k].ty == decls[i].members[k].ty && sd'.members[k].isRef == decls[i].members[k].isRef
    requires (decls[i].sizeok == SizeOkDone <==> sd'.sizeok == SizeOkDone)
    ensures Ranked(decls[i := sd'], rank)
  {
    var decls' := decls[i := sd'];
    forall k, f | 0 <= k < |decls'| && 0 <= f < |decls'[k].fields|
      ensures decls'[k].fields[f] < |decls'[k].members|
           && RankedField(decls', rank, k, decls'[k].members[decls'[k].fields[f]])
    {
      assert RankedField(decls, rank, k, decls[k].members[decls[k].fields[f]]);
    }
  }

  /** The unwind keeps the table ranked: the declaration has no fields left
      and, not being sized, is no other declaration's field type. */
  lemma UnwoundRanked(decls: seq<StructDecl>, rank: seq<nat>, i: nat, cur: Alignment)
    requires Ranked(decls, rank) && i < |decls| && decls[i].sizeok != SizeOkDone
    ensures Ranked(decls[i := Unwound(decls[i]).(scope := Some(cur))], rank)
  {
    var decls' := decls[i := Unwound(decls[i]).(scope := Some(cur))];
    forall k, f | 0 <= k < |decls'| && 0 <= f < |decls'[k].fields|
      ensures decls'[k].fields[f] < |decls'[k].members|
           && RankedField(decls', rank, k, decls'[k].members[decls'[k].fields[f]])
    {
      assert RankedField(decls, rank, k, decls[k].members[decls[k].fields[f]]);
    }
  }

  lemma AfterSizeokRanked(w: World, rank: seq<nat>, i: nat, cur: Alignment, built: Specials)
    requires Ranked(w.decls, rank) && i < |w.decls|
    ensures Ranked(AfterSizeok(w, i, cur, built).decls, rank)
  {
    var sd := w.decls[i];
    if WaitsOn(w.decls, sd) {
      SameShapeRanked(w.decls, rank, i, sd.(scope := Some(cur)));
    } else {
      SameShapeRanked(w.decls, rank, i, sd.(dtor := built.dtor, postblit := built.postblit, inv := built.inv,
                                             semanticRun := PassSemanticDone));
    }
  }

  /** The ranks after `semantic`: a declaration laid out by the run ranks
      above every other. */
  function SemanticRank(decls: seq<StructDecl>, rank: seq<nat>, top: nat, i: nat): seq<nat>
    requires i < |decls| && |rank| == |decls|
  {
    if Runs(decls[i]) && decls[i].sizeok != SizeOkDone then rank[i := top] else rank
  }

  lemma RunKeepsRanked(w: World, rank: seq<nat>, top: nat, i: nat, sc: Option<Alignment>, built: Specials, is64bit: bool)
    requires SemanticOk(w.decls, i, sc) && Runs(w.decls[i]) && Ranked(w.decls, rank)
    requires forall j :: 0 <= j < |rank| ==> rank[j] < top
    ensures Ranked(RunSpec(w, i, sc, built, is64bit).decls, SemanticRank(w.decls, rank, top, i))
  {
    var sd := w.decls[i];
    var cur := Current(sd, sc);
    var w1 := w.(decls := w.decls[i := Entered(sd, sc)]);
    SameShapeRanked(w.decls, rank, i, Entered(sd, sc));
    if sd.sizeok == SizeOkDone {
      AfterSizeokRanked(w1, rank, i, cur, built);
    } else {
      EnteredWellFormed(w.decls, i, sc);
      FinalizeStepRanked(w1, rank, top, i, cur, built, is64bit);
    }
  }

  lemma FinalizeStepRanked(w: World, rank: seq<nat>, top: nat, i: nat, cur: Alignment, built: Specials, is64bit: bool)
    requires FinalizeOk(w.decls, i) && w.decls[i].sizeok == SizeOkNone && Ranked(w.decls, rank)
    requires forall j :: 0 <= j < |rank| ==> rank[j] < top
    ensures Ranked(FinalizeStep(w, i, cur, built, is64bit).decls, rank[i := top])
  {
    FinalizeKeepsRanked(w.decls, rank, top, i, is64bit);
    var w2 := FinalizeWorld(w, i, is64bit);
    if w2.decls[i].sizeok == SizeOkFwd {
      UnwoundRanked(w2.decls, rank[i := top], i, cur);
    } else {
      AfterSizeokRanked(w2.(dprogress := w2.dprogress + 1), rank[i := top], i, cur, built);
    }
  }

  /** `semantic` keeps the table ranked. */
  lemma SemanticKeepsRanked(w: World, rank: seq<nat>, top: nat, i: nat, sc: Option<Alignment>, built: Specials,
                            is64bit: bool)
    requires SemanticOk(w.decls, i, sc) && Ranked(w.decls, rank)
    requires forall j :: 0 <= j < |rank| ==> rank[j] < top
    ensures Ranked(SemanticSpec(w, i, sc, built, is64bit).decls, SemanticRank(w.decls, rank, top, i))
  {
    if Runs(w.decls[i]) {
      RunKeepsRanked(w, rank, top, i, sc, built, is64bit);
    } else {
      SameShapeRanked(w.decls, rank, i, ShortDecl(w.decls[i], sc));
    }
  }

  /** The invariant of a compilation's table: `n` declarations, well
      formed, ranked, every rank below `top`. */
  ghost predicate TableOk(decls: seq<StructDecl>, n: nat, rank: seq<nat>, top: nat)
  {
    |decls| == n && WellFormed(decls) && Ranked(decls, rank)
    && forall j :: 0 <= j < |rank| ==> rank[j] < top
  }

  lemma SemanticKeepsTable(w: World, r: World, n: nat, rank: seq<nat>, top: nat, i: nat, sc: Option<Alignment>,
                           built: Specials, is64bit: bool)
    requires TableOk(w.decls, n, rank, top) && SemanticOk(w.decls, i, sc)
    requires r == SemanticSpec(w, i, sc, built, is64bit)
    ensures TableOk(r.decls, n, SemanticRank(w.decls, rank, top, i), top + 1)
  {
    SemanticKeepsWellFormed(w, i, sc, built, is64bit);
    SemanticKeepsRanked(w, rank, top, i, sc, built, is64bit);
  }

  lemma FinalizeKeepsTable(w: World, n: nat, rank: seq<nat>, top: nat, i: nat, is64bit: bool)
    requires TableOk(w.decls, n, rank, top) && i < n
    ensures TableOk(FinalizeWorld(w, i, is64bit).decls, n,
                    if w.decls[i].sizeok == SizeOkNone then rank[i := top] else rank, top + 1)
  {
    FinalizeKeepsWellFormed(w.decls, i, is64bit);
    if w.decls[i].sizeok == SizeOkNone {
      FinalizeKeepsRanked(w.decls, rank, top, i, is64bit);
    } else {
      FinalizeOnlyFromNone(w.decls, i, is64bit);
    }
  }

  // ---------------------------------------------------------------------
  // What a run of `semantic` achieves

  /** The run finished declaration `i`: sized, no field's struct still in
      its semantic pass, the special members recorded, nothing queued, and
      `steps` steps of progress counted. */
  predicate Finished(w: World, r: World, i: nat, built: Specials, steps: nat)
    requires i < |r.decls|
  {
    var sd := r.decls[i];
    sd.semanticRun == PassSemanticDone && sd.sizeok == SizeOkDone && !WaitsOn(r.decls, sd)
    && sd.dtor == built.dtor && sd.postblit == built.postblit && sd.inv == built.inv
    && r.deferred == w.deferred && r.dprogress == w.dprogress + steps
  }

  /** The run was put off: declaration `i` is still in its semantic pass,
      queued for another try, with the scope's alignment saved for it. */
  predicate PutOff(r: World, i: nat, cur: Alignment)
    requires i < |r.decls|
  {
    var sd := r.decls[i];
    sd.semanticRun == PassSemantic && sd.scope == Some(cur) && i in r.deferred
  }

  /** Only declaration `i` changes; diagnostics are only added, the queue
      only grows and progress is never taken back. */
  predicate Local(w: World, r: World, i: nat)
  {
    |r.decls| == |w.decls|
    && (forall j :: 0 <= j < |w.decls| && j != i ==> r.decls[j] == w.decls[j])
    && w.diags <= r.diags && multiset(w.deferred) <= multiset(r.deferred) && w.dprogress <= r.dprogress
  }

  lemma AfterSizeokOutcome(w: World, i: nat, cur: Alignment, built: Specials)
    requires i < |w.decls| && w.decls[i].sizeok == SizeOkDone && w.decls[i].semanticRun == PassSemantic
    ensures var r := AfterSizeok(w, i, cur, built);
      && Local(w, r, i) && r.diags == w.diags
      && r.decls[i].members == w.decls[i].members && r.decls[i].fields == w.decls[i].fields
      && (r.decls[i].semanticRun == PassSemanticDone <==> !WaitsOn(w.decls, w.decls[i]))
      && (r.decls[i].semanticRun == PassSemanticDone ==> Finished(w, r, i, built, 1))
      && (r.decls[i].semanticRun != PassSemanticDone ==> PutOff(r, i, cur) && r.dprogress == w.dprogress)
  {
    var sd := w.decls[i];
    var r := AfterSizeok(w, i, cur, built);
    if !WaitsOn(w.decls, sd) {
      var sd' := r.decls[i];
      assert sd' == sd.(dtor := built.dtor, postblit := built.postblit, inv := built.inv,
                        semanticRun := PassSemanticDone);
      forall f | 0 <= f < |sd'.fields| && sd'.fields[f] < |sd'.members|
        ensures !Pending(r.decls, sd'.members[sd'.fields[f]])
      {
        assert !Pending(w.decls, sd.members[sd.fields[f]]);
      }
    }
  }

  lemma FinalizeStepOutcome(w: World, i: nat, cur: Alignment, built: Specials, is64bit: bool)
    requires FinalizeOk(w.decls, i) && w.decls[i].sizeok == SizeOkNone && w.decls[i].semanticRun == PassSemantic
    ensures var r := FinalizeStep(w, i, cur, built, is64bit);
      && Local(w, r, i) && r.decls[i].sizeok != SizeOkNone
      && (r.decls[i].semanticRun == PassSemanticDone ==> Finished(w, r, i, built, 2))
      && (r.decls[i].semanticRun != PassSemanticDone ==> PutOff(r, i, cur))
      && (r.decls[i].sizeok == SizeOkFwd ==>
            r.decls[i].fields == [] && r.decls[i].structsize == 0 && r.decls[i].alignsize == 0
            && r.dprogress == w.dprogress)
  {
    if LaidOut(w.decls, i, is64bit).fwd {
      ForwardStep(w, i, cur, built, is64bit);
    } else {
      SizedStep(w, i, cur, built, is64bit);
    }
  }

  /** A forward reference: the declaration is unwound and put off. */
  lemma ForwardStep(w: World, i: nat, cur: Alignment, built: Specials, is64bit: bool)
    requires FinalizeOk(w.decls, i) && w.decls[i].sizeok == SizeOkNone && w.decls[i].semanticRun == PassSemantic
    requires LaidOut(w.decls, i, is64bit).fwd
    ensures var r := FinalizeStep(w, i, cur, built, is64bit);
      && Local(w, r, i) && r.decls[i].sizeok == SizeOkFwd && PutOff(r, i, cur)
      && r.decls[i].fields == [] && r.decls[i].structsize == 0 && r.decls[i].alignsize == 0
      && r.dprogress == w.dprogress
  {
    ForwardKeepsHeader(w.decls, i, is64bit);
    var w2 := FinalizeWorld(w, i, is64bit);
    var sd2 := w2.decls[i];
    assert LayoutOnly(w.decls[i], sd2) && sd2.sizeok == SizeOkFwd;
    var r := FinalizeStep(w, i, cur, built, is64bit);
    assert r == w2.(decls := w2.decls[i := Unwound(sd2).(scope := Some(cur))], deferred := Defer(w2.deferred, i));
  }

  /** The size done: progress is counted and the run goes on at
      `LafterSizeok`. */
  lemma SizedStep(w: World, i: nat, cur: Alignment, built: Specials, is64bit: bool)
    requires FinalizeOk(w.decls, i) && w.decls[i].sizeok == SizeOkNone && w.decls[i].semanticRun == PassSemantic
    requires !LaidOut(w.decls, i, is64bit).fwd
    ensures var r := FinalizeStep(w, i, cur, built, is64bit);
      && Local(w, r, i) && r.decls[i].sizeok == SizeOkDone
      && (r.decls[i].semanticRun == PassSemanticDone ==> Finished(w, r, i, built, 2))
      && (r.decls[i].semanticRun != PassSemanticDone ==> PutOff(r, i, cur))
  {
    SizedKeepsHeader(w.decls, i, is64bit);
    var w2 := FinalizeWorld(w, i, is64bit);
    var sd2 := w2.decls[i];
    assert LayoutOnly(w.decls[i], sd2) && sd2.sizeok == SizeOkDone;
    var w3 := w2.(dprogress := w2.dprogress + 1);
    assert FinalizeStep(w, i, cur, built, is64bit) == AfterSizeok(w3, i, cur, built);
    AfterSizeokOutcome(w3, i, cur, built);
  }

  /** A run of `semantic` that reaches the layout ends with the declaration
      sized or blocked, and either finished or put off; blocked by a forward
      reference, it is left with no fields, no size and no progress counted. */
  lemma SemanticOutcome(w: World, i: nat, sc: Option<Alignment>, built: Specials, is64bit: bool)
    requires SemanticOk(w.decls, i, sc) && Runs(w.decls[i])
    ensures var r, sd := SemanticSpec(w, i, sc, built, is64bit), w.decls[i];
      && Local(w, r, i) && r.decls[i].sizeok != SizeOkNone
      && (r.decls[i].semanticRun == PassSemanticDone ==>
            Finished(w, r, i, built, if sd.sizeok == SizeOkDone then 1 else 2))
      && (r.decls[i].semanticRun != PassSemanticDone ==> PutOff(r, i, Current(sd, sc)))
      && (r.decls[i].sizeok == SizeOkFwd ==>
            r.decls[i].fields == [] && r.decls[i].structsize == 0 && r.decls[i].alignsize == 0
            && r.dprogress == w.dprogress)
  {
    var sd := w.decls[i];
    var cur := Current(sd, sc);
    var w1 := w.(decls := w.decls[i := Entered(sd, sc)]);
    var r := RunSpec(w, i, sc, built, is64bit);
    assert SemanticSpec(w, i, sc, built, is64bit) == r;
    if sd.sizeok == SizeOkDone {
      assert r == AfterSizeok(w1, i, cur, built);
      AfterSizeokOutcome(w1, i, cur, built);
    } else {
      EnteredWellFormed(w.decls, i, sc);
      assert r == FinalizeStep(w1, i, cur, built, is64bit);
      FinalizeStepOutcome(w1, i, cur, built, is64bit);
    }
    EnteredLocal(w, w1, r, i);
  }

  /** Entering a run changes only declaration `i`. */
  lemma EnteredLocal(w: World, w1: World, r: World, i: nat)
    requires i < |w.decls| == |w1.decls| && w1.decls == w.decls[i := w1.decls[i]]
    requires w1.dprogress == w.dprogress && w1.deferred == w.deferred && w1.diags == w.diags
    requires Local(w1, r, i)
    ensures Local(w, r, i)
  {
  }

  /** The runs that stop before the layout finish the declaration at once
      and change nothing else: not its layout, not the queue, not the
      progress count, not the diagnostics. */
  lemma SemanticShortcut(w: World, i: nat, sc: Option<Alignment>, built: Specials, is64bit: bool)
    requires SemanticOk(w.decls, i, sc) && !Runs(w.decls[i])
    ensures var r, sd := SemanticSpec(w, i, sc, built, is64bit), w.decls[i];
      && Local(w, r, i) && r.dprogress == w.dprogress && r.deferred == w.deferred && r.diags == w.diags
      && r.decls[i].semanticRun == PassSemanticDone
      && r.decls[i].members == sd.members && r.decls[i].fields == sd.fields && r.decls[i].sizeok == sd.sizeok
      && (sd.semanticRun == PassSemanticDone ==> r == w)
  {
    if w.decls[i].semanticRun == PassSemanticDone {
      assert w.decls[i := w.decls[i]] == w.decls;
    }
  }

  /** `size` returns the declaration's size; it reports an unknown size for
      a declaration without a body and a size not yet known for one whose
      layout could not be finished; a declaration already sized is left
      alone. */
  lemma SizeReports(w: World, i: nat, built: Specials, is64bit: bool)
    requires WellFormed(w.decls) && i < |w.decls|
    ensures var z := SizeSpec(w, i, built, is64bit); var sd := z.w.decls[i];
      && Local(w, z.w, i) && z.size == sd.structsize
      && (sd.noBody ==> |z.w.diags| > 0 && z.w.diags[|z.w.diags| - 1] == UnknownSize(i))
      && (!sd.noBody && sd.sizeok != SizeOkDone ==> |z.w.diags| > 0 && z.w.diags[|z.w.diags| - 1] == NoSizeYet(i))
    ensures var z := SizeSpec(w, i, built, is64bit); var sd := z.w.decls[i]; var added := z.w.diags[|w.diags|..];
      && (UnknownSize(i) in added <==> sd.noBody)
      && (NoSizeYet(i) in added <==> !sd.noBody && sd.sizeok != SizeOkDone)
      && (|added| > 0 ==> NoSizeReports(added[..|added| - 1]))
    ensures w.decls[i].sizeok == SizeOkDone && !w.decls[i].noBody ==>
      SizeSpec(w, i, built, is64bit) == Sizing(w, w.decls[i].structsize)
  {
    var w1 := SizeSemantic(w, i, built, is64bit);
    SizeSemanticLocal(w, i, built, is64bit);
    var w2 := SizeLayout(w1, i, is64bit);
    SizeLayoutLocal(w1, i, is64bit);
    ReportedFacts(w2, i);
    LocalTrans(w, w1, w2, i);
    LocalTrans(w, w2, Reported(w2, i).w, i);
    SizeStagesNoSizeReports(w, i, built, is64bit);
    ReportedAdds(w.diags, w2, i);
  }

  /** The report of `size()` is the only one it adds, and it is added
      exactly in the two failing cases. */
  lemma ReportedAdds(prior: seq<Diag>, w: World, i: nat)
    requires i < |w.decls| && |prior| <= |w.diags| && NoSizeReports(w.diags[|prior|..])
    ensures var z := Reported(w, i); var sd := z.w.decls[i]; var added := z.w.diags[|prior|..];
      && (UnknownSize(i) in added <==> sd.noBody)
      && (NoSizeYet(i) in added <==> !sd.noBody && sd.sizeok != SizeOkDone)
      && (|added| > 0 ==> NoSizeReports(added[..|added| - 1]))
  {
    var z := Reported(w, i);
    var before := w.diags[|prior|..];
    var added := z.w.diags[|prior|..];
    assert NoSizeYet(i) !in before && UnknownSize(i) !in before;
    if |z.w.diags| == |w.diags| {
      assert added == before;
    } else {
      assert z.w.diags == w.diags + [z.w.diags[|z.w.diags| - 1]];
      assert added == before + [z.w.diags[|z.w.diags| - 1]];
      assert added[..|added| - 1] == before;
    }
  }

  /** Before its report, `size()` adds only diagnostics of other kinds. */
  lemma SizeStagesNoSizeReports(w: World, i: nat, built: Specials, is64bit: bool)
    requires WellFormed(w.decls) && i < |w.decls|
    ensures var w2 := SizeLayout(SizeSemantic(w, i, built, is64bit), i, is64bit);
      |w.diags| <= |w2.diags| && NoSizeReports(w2.diags[|w.diags|..])
  {
    var w1 := SizeSemantic(w, i, built, is64bit);
    if w.decls[i].sizeok != SizeOkDone && w.decls[i].scope.Some? {
      SemanticNoSizeReports(w, i, None, built, is64bit);
    }
    SizeSemanticLocal(w, i, built, is64bit);
    var w2 := SizeLayout(w1, i, is64bit);
    if NeedsLayout(w1.decls[i]) {
      FinalizeNoSizeReports(w1.decls, i, is64bit);
      var fin := FinalizeSpec(w1.decls, i, is64bit);
      assert w2.diags[|w.diags|..] == w1.diags[|w.diags|..] + fin.diags;
    }
  }

  /** `semantic` adds no diagnostic of the kinds `size()` reports. */
  lemma SemanticNoSizeReports(w: World, i: nat, sc: Option<Alignment>, built: Specials, is64bit: bool)
    requires SemanticOk(w.decls, i, sc)
    ensures var r := SemanticSpec(w, i, sc, built, is64bit);
      |w.diags| <= |r.diags| && NoSizeReports(r.diags[|w.diags|..])
  {
    var sd := w.decls[i];
    if Runs(sd) && sd.sizeok != SizeOkDone {
      EnteredWellFormed(w.decls, i, sc);
      var w1 := w.(decls := w.decls[i := Entered(sd, sc)]);
      FinalizeNoSizeReports(w1.decls, i, is64bit);
      var fin := FinalizeSpec(w1.decls, i, is64bit);
      assert SemanticSpec(w, i, sc, built, is64bit).diags == w.diags + fin.diags;
      assert (w.diags + fin.diags)[|w.diags|..] == fin.diags;
    } else {
      assert SemanticSpec(w, i, sc, built, is64bit).diags == w.diags;
    }
  }

  lemma SizeSemanticLocal(w: World, i: nat, built: Specials, is64bit: bool)
    requires WellFormed(w.decls) && i < |w.decls|
    ensures Local(w, SizeSemantic(w, i, built, is64bit), i)
    ensures w.decls[i].sizeok == SizeOkDone ==> SizeSemantic(w, i, built, is64bit) == w
  {
    if w.decls[i].sizeok != SizeOkDone && w.decls[i].scope.Some? {
      SemanticLocal(w, i, None, built, is64bit);
    }
  }

  lemma SizeLayoutLocal(w: World, i: nat, is64bit: bool)
    requires WellFormed(w.decls) && i < |w.decls|
    ensures Local(w, SizeLayout(w, i, is64bit), i)
    ensures w.decls[i].sizeok == SizeOkDone ==> SizeLayout(w, i, is64bit) == w
  {
  }

  /** The report keeps the table and only appends to the diagnostics. */
  lemma ReportedFacts(w: World, i: nat)
    requires i < |w.decls|
    ensures var z := Reported(w, i); var sd := z.w.decls[i];
      && Local(w, z.w, i) && z.w.decls == w.decls && z.size == sd.structsize
      && (sd.noBody ==> |z.w.diags| > 0 && z.w.diags[|z.w.diags| - 1] == UnknownSize(i))
      && (!sd.noBody && sd.sizeok != SizeOkDone ==> |z.w.diags| > 0 && z.w.diags[|z.w.diags| - 1] == NoSizeYet(i))
      && (!sd.noBody && sd.sizeok == SizeOkDone ==> z.w == w)
  {
  }

  lemma LocalTrans(w1: World, w2: World, w3: World, i: nat)
    requires Local(w1, w2, i) && Local(w2, w3, i)
    ensures Local(w1, w3, i)
  {
  }

  /** `semantic` changes only declaration `i`. */
  lemma SemanticLocal(w: World, i: nat, sc: Option<Alignment>, built: Specials, is64bit: bool)
    requires SemanticOk(w.decls, i, sc)
    ensures Local(w, SemanticSpec(w, i, sc, built, is64bit), i)
  {
    if Runs(w.decls[i]) {
      SemanticOutcome(w, i, sc, built, is64bit);
    } else {
      SemanticShortcut(w, i, sc, built, is64bit);
    }
  }

  // ---------------------------------------------------------------------
  // The loops of `semantic` and `size`

  /** The unwind loop: zero the offset of every field, then drop the fields
      and the size. */
  method UnwindDecl(sd: StructDecl) returns (r: StructDecl)
    requires forall f :: 0 <= f < |sd.fields| ==> sd.fields[f] < |sd.members|
    ensures r == Unwound(sd)
  {
    var members := sd.members;
    var f := 0;
    while f < |sd.fields|
      invariant 0 <= f <= |sd.fields|
      invariant members == ZeroOffsets(sd.members, sd.fields[..f])
    {
      var k := sd.fields[f];
      assert forall m :: m in sd.fields[..f + 1] <==> m in sd.fields[..f] || m == k;
      members := members[k := members[k].(offset := 0)];
      f := f + 1;
    }
    assert sd.fields[..|sd.fields|] == sd.fields;
    r := sd.(members := members, fields := [], structsize := 0, alignsize := 0);
  }

  /** The `LafterSizeok` loop: is some field's struct still in its
      semantic pass? */
  method WaitingField(decls: seq<StructDecl>, sd: StructDecl) returns (waits: bool)
    requires WellFormedDecl(|decls|, sd)
    ensures waits == WaitsOn(decls, sd)
  {
    var f := 0;
    while f < |sd.fields|
      invariant 0 <= f <= |sd.fields|
      invariant forall g :: 0 <= g < f ==> !Pending(decls, sd.members[sd.fields[g]])
    {
      var v := sd.members[sd.fields[f]];
      BaseElemWellFormed(|decls|, v.ty);
      var tb := BaseElem(v.ty);
      if tb.Struct? && decls[tb.sym].semanticRun != PassSemanticDone {
        return true;
      }
      f := f + 1;
    }
    return false;
  }

  /** The member walk of `size`: stop at the first member that still needs
      work. */
  method MembersReady(members: seq<VarDecl>) returns (ready: bool)
    ensures ready == FieldsReady(members)
  {
    ready := true;
    var k := 0;
    while k < |members|
      invariant 0 <= k <= |members|
      invariant forall m :: 0 <= m < k ==> !NeedsWork(members[m])
    {
      var v := members[k];
      if v.storage == InstanceField && !v.semanticDone {
        ready := false;
        break;
      }
      k := k + 1;
    }
  }

  // ---------------------------------------------------------------------
  // `semantic` step by step

  /** The part of `semantic` from `LafterSizeok` on. */
  method AfterSizeokRun(w: World, i: nat, cur: Alignment, built: Specials) returns (r: World)
    requires WellFormed(w.decls) && i < |w.decls|
    ensures r == AfterSizeok(w, i, cur, built)
  {
    var sd := w.decls[i];
    assert WellFormedDecl(|w.decls|, sd);
    var waits := WaitingField(w.decls, sd);
    if waits {
      // a field's struct is still in its semantic pass: defer
      return w.(decls := w.decls[i := sd.(scope := Some(cur))], deferred := Defer(w.deferred, i));
    }
    sd := sd.(dtor := built.dtor, postblit := built.postblit, inv := built.inv);
    r := w.(dprogress := w.dprogress + 1);
    r := r.(decls := r.decls[i := sd.(semanticRun := PassSemanticDone)]);
  }

  /** `finalizeSize` inside `semantic` and what follows it. */
  method FinalizeStepRun(w: World, i: nat, cur: Alignment, built: Specials, is64bit: bool) returns (r: World)
    requires FinalizeOk(w.decls, i)
    ensures r == FinalizeStep(w, i, cur, built, is64bit)
  {
    var dprogressSave := w.dprogress;
    var fin := FinalizeSizeOf(w.decls, i, is64bit);
    FinalizeKeepsWellFormed(w.decls, i, is64bit);
    r := w.(decls := w.decls[i := fin.sd], diags := w.diags + fin.diags);
    if fin.sd.sizeok == SizeOkFwd {
      // a forward reference: unwind what was done and defer
      FieldsInRange(r.decls, i);
      assert r.decls[i] == fin.sd;
      var u := UnwindDecl(fin.sd);
      r := r.(decls := r.decls[i := u.(scope := Some(cur))], deferred := Defer(r.deferred, i),
              dprogress := dprogressSave);
    } else {
      r := r.(dprogress := r.dprogress + 1);
      r := AfterSizeokRun(r, i, cur, built);
    }
  }

  lemma FieldsInRange(decls: seq<StructDecl>, i: nat)
    requires WellFormed(decls) && i < |decls|
    ensures forall f :: 0 <= f < |decls[i].fields| ==> decls[i].fields[f] < |decls[i].members|
  {
    assert WellFormedDecl(|decls|, decls[i]);
  }

  /** The run of `semantic` that reaches the layout. */
  method LayoutRun(w: World, i: nat, sc: Option<Alignment>, built: Specials, is64bit: bool) returns (r: World)
    requires SemanticOk(w.decls, i, sc) && Runs(w.decls[i])
    ensures r == RunSpec(w, i, sc, built, is64bit)
  {
    var sd := w.decls[i];
    var cur := if sd.scope.Some? then sd.scope.value else sc.value;
    EnteredWellFormed(w.decls, i, sc);
    r := w.(decls := w.decls[i := Entered(sd, sc)]);
    if sd.sizeok == SizeOkDone {
      r := AfterSizeokRun(r, i, cur, built);
    } else {
      r := FinalizeStepRun(r, i, cur, built, is64bit);
    }
  }

  /** The runs of `semantic` that stop before the layout. */
  method ShortRun(w: World, i: nat, sc: Option<Alignment>) returns (r: World)
    requires i < |w.decls| && (sc.Some? || w.decls[i].scope.Some?) && !Runs(w.decls[i])
    ensures r == ShortSpec(w, i, sc)
  {
    var sd := w.decls[i];
    if sd.semanticRun == PassSemanticDone {
      return w.(decls := w.decls[i := sd]);
    }
    var cur := if sd.scope.Some? then sd.scope.value else sc.value;
    if sd.semanticRun != PassInit && sd.symtab && sd.scope.None? {
      // members were added before and nothing was saved: nothing left to do
      sd := sd.(semanticRun := PassSemanticDone);
    } else {
      // an opaque declaration
      if sd.semanticRun == PassInit {
        sd := sd.(alignment := cur);
      }
      sd := sd.(scope := None, semanticRun := PassSemanticDone);
    }
    r := w.(decls := w.decls[i := sd]);
  }

  /** The reporting at the end of `size`. */
  method ReportRun(w: World, i: nat) returns (z: Sizing)
    requires i < |w.decls|
    ensures z == Reported(w, i)
  {
    z := Sizing(w, w.decls[i].structsize);
    if w.decls[i].noBody {
      z := z.(w := w.(diags := w.diags + [UnknownSize(i)]));
    } else if w.decls[i].sizeok != SizeOkDone {
      z := z.(w := w.(diags := w.diags + [NoSizeYet(i)]));
    }
  }

  /** `StructDeclaration::semantic` on declaration `i` of the state `w`. */
  method SemanticRun(w: World, i: nat, sc: Option<Alignment>, built: Specials, is64bit: bool) returns (r: World)
    requires SemanticOk(w.decls, i, sc)
    ensures r == SemanticSpec(w, i, sc, built, is64bit)
  {
    if Runs(w.decls[i]) {
      r := LayoutRun(w, i, sc, built, is64bit);
    } else {
      r := ShortRun(w, i, sc);
    }
  }

  // ---------------------------------------------------------------------
  // The compilation

  class Compilation {
    /** The struct and union declarations, by index. */
    var decls: seq<StructDecl>
    /** Each declaration's `ispod` cache. */
    var ispod: seq<PodCache>
    /** `Module::dprogress`: how many steps of progress semantic has made. */
    var dprogress: nat
    /** The deferred-semantic queue. */
    var deferred: seq<nat>
    /** The diagnostics reported so far. */
    var diags: seq<Diag>
    /** Whether the target has 64-bit pointers. */
    const is64bit: bool
    /** The order in which declarations were laid out: every field's struct
        type was laid out earlier. */
    ghost var rank: seq<nat>
    ghost var nextRank: nat

    ghost predicate Valid()
      reads this
    {
      TableOk(decls, |ispod|, rank, nextRank)
    }

    function State(): World
      reads this
    {
      World(decls, dprogress, deferred, diags)
    }

    /** A compilation over freshly parsed declarations: none has fields yet. */
    constructor (decls0: seq<StructDecl>, is64bit: bool)
      requires WellFormed(decls0)
      requires forall j :: 0 <= j < |decls0| ==> decls0[j].fields == []
      ensures Valid() && State() == World(decls0, 0, [], []) && ispod == EmptyCache(|decls0|)
      ensures this.is64bit == is64bit
    {
      decls := decls0;
      ispod := EmptyCache(|decls0|);
      dprogress := 0;
      deferred := [];
      diags := [];
      this.is64bit := is64bit;
      rank := seq(|decls0|, _ => 0);
      nextRank := 1;
    }

    /** `finalizeSize` on declaration `i`; a declaration laid out now ranks
        above every declaration laid out before. */
    method FinalizeSize(i: nat)
      requires Valid() && i < |decls|
      modifies this`decls, this`diags, this`rank, this`nextRank
      ensures Valid() && State() == FinalizeWorld(old(State()), i, is64bit)
    {
      var r := FinalizeSizeOf(decls, i, is64bit);
      FinalizeKeepsTable(State(), |ispod|, rank, nextRank, i, is64bit);
      if decls[i].sizeok == SizeOkNone {
        rank := rank[i := nextRank];
      }
      nextRank := nextRank + 1;
      decls := decls[i := r.sd];
      diags := diags + r.diags;
    }

    /** `isPOD` on declaration `i`: the cached answer when there is one;
        otherwise the answer is computed, recursing into the fields' struct
        types, and cached. */
    method IsPOD(i: nat) returns (b: bool)
      requires Valid() && i < |decls|
      modifies this`ispod
      ensures Valid()
      ensures b == PodValue(decls, rank, old(ispod), i)
      ensures ispod[i] == PodBit(b)
      ensures old(ispod)[i] != IsPodFwd ==> ispod == old(ispod)
      ensures CacheGrows(decls, rank, old(ispod), ispod, i)
      decreases rank[i]
    {
      if ispod[i] != IsPodFwd {
        return ispod[i] == IsPodYes;
      }
      ghost var c0 := ispod;
      var sd := decls[i];
      ispod := ispod[i := IsPodYes];
      if sd.nested || sd.postblit || sd.dtor {
        ispod := ispod[i := IsPodNo];
      }
      var f := 0;
      while f < |sd.fields|
        invariant 0 <= f <= |sd.fields|
        invariant FilledBelow(decls, rank, c0, ispod, i)
        invariant ispod[i] == PodBit(PodHeader(sd) && FieldsPodUpTo(decls, rank, c0, i, f))
      {
        var v := sd.members[sd.fields[f]];
        if v.isRef {
          assert !FieldPod(decls, rank, c0, i, f);
          ispod := ispod[i := IsPodNo];
          break;
        }
        var tb := BaseElem(v.ty);
        assert RankedField(decls, rank, i, v);
        if tb.Struct? {
          ghost var c1 := ispod;
          var p := IsPOD(tb.sym);
          PodCallStep(decls, rank, c0, c1, ispod, i, tb.sym);
          if !p {
            assert !FieldPod(decls, rank, c0, i, f);
            ispod := ispod[i := IsPodNo];
            break;
          }
        }
        f := f + 1;
      }
      b := ispod[i] == IsPodYes;
      PodCallDone(decls, rank, c0, ispod, i);
    }

    /** `StructDeclaration::semantic` on declaration `i` with the scope's
        alignment `sc` (none when called from `size`) and what the special
        member builders produce. */
    method Semantic(i: nat, sc: Option<Alignment>, built: Specials)
      requires Valid() && SemanticOk(decls, i, sc)
      modifies this`decls, this`diags, this`rank, this`nextRank, this`deferred, this`dprogress
      ensures Valid()
      ensures State() == SemanticSpec(old(State()), i, sc, built, is64bit)
    {
      var r := SemanticRun(State(), i, sc, built, is64bit);
      SemanticKeepsTable(State(), r, |ispod|, rank, nextRank, i, sc, built, is64bit);
      rank := SemanticRank(decls, rank, nextRank, i);
      nextRank := nextRank + 1;
      decls, dprogress, deferred, diags := r.decls, r.dprogress, r.deferred, r.diags;
    }

    /** The layout step of `size`: lay the declaration out when it has a
        body, is not sized and every member is ready. */
    method LayOutIfReady(i: nat)
      requires Valid() && i < |decls|
      modifies this`decls, this`diags, this`rank, this`nextRank
      ensures Valid() && State() == SizeLayout(old(State()), i, is64bit)
    {
      if decls[i].sizeok != SizeOkDone && !decls[i].noBody {
        var ready := MembersReady(decls[i].members);
        if ready {
          FinalizeSize(i);
        }
      }
    }

    /** `AggregateDeclaration::size` on declaration `i`. */
    method Size(i: nat, built: Specials) returns (size: nat)
      requires Valid() && i < |decls|
      modifies this`decls, this`diags, this`rank, this`nextRank, this`deferred, this`dprogress
      ensures Valid()
      ensures Sizing(State(), size) == SizeSpec(old(State()), i, built, is64bit)
    {
      if decls[i].sizeok != SizeOkDone && decls[i].scope.Some? {
        Semantic(i, None, built);
      }
      assert State() == SizeSemantic(old(State()), i, built, is64bit);
      LayOutIfReady(i);
      var z := ReportRun(State(), i);
      diags := z.w.diags;
      size := z.size;
    }
  }
}
