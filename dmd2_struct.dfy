/** The struct code of the 2010 front end (d/dmd2): `alignmember`, `addField`,
    `size` and the layout / defer / unwind / rounding / zeroInit skeleton of
    `StructDeclaration::semantic`. Declarations live in an indexed table; the
    declaration being laid out stays in the table while its members are
    added, so a field type that mentions it sees its partial size, as in the
    source. */
module Dmd2Struct {
  import opened Bits
  import opened DfrontendTypes

  /** `sizeok` of this front end: 0 not laid out, 1 done, 2 forward referenced. */
  datatype SizeState = SizeNone | SizeDone | SizeFwd

  /** A struct or union declaration. `noBody` marks `members == NULL`;
      `fields` are indices into `members`; `structalign` is the alignment in
      effect when semantic last ran; `scope` is the saved scope, reduced to
      the alignment it puts in effect; `symtab` says semantic has started. */
  datatype Aggregate = Aggregate(
    isUnion: bool,
    noBody: bool,
    members: seq<VarDecl>,
    fields: seq<nat>,
    structsize: nat,
    alignsize: nat,
    structalign: nat,
    sizeok: SizeState,
    symtab: bool,
    scope: Option<nat>,
    zeroInit: bool)

  function MaxNat(a: nat, b: nat): nat
  {
    if a < b then b else a
  }

  function MinNat(a: nat, b: nat): nat
  {
    if b < a then b else a
  }

  /** `Type::size()` against the table. */
  function MemSize(decls: seq<Aggregate>, t: Type): nat
  {
    match t
    case Basic(size, _, _) => size
    case Struct(j) => if j < |decls| then decls[j].structsize else 0
    case SArray(elem, dim) => dim * MemSize(decls, elem)
    case Unresolved => 0
  }

  /** `Type::alignsize()` against the table. */
  function MemAlignSize(decls: seq<Aggregate>, t: Type): nat
  {
    match t
    case Basic(_, alignsize, _) => alignsize
    case Struct(j) => if j < |decls| then decls[j].alignsize else 0
    case SArray(elem, _) => MemAlignSize(decls, elem)
    case Unresolved => 0
  }

  /** `Type::isZeroInit()` against the table. */
  predicate IsZeroInitType(decls: seq<Aggregate>, t: Type)
  {
    match t
    case Basic(_, _, z) => z
    case Struct(j) => j < |decls| && decls[j].zeroInit
    case SArray(elem, _) => IsZeroInitType(decls, elem)
    case Unresolved => false
  }

  // ---------------------------------------------------------------------
  // alignmember

  /** The boundary `alignmember` rounds to: the field's requirement, or the
      struct alignment when that is smaller or the requirement is 0. */
  function Boundary(salign: nat, size: nat): nat
  {
    if size == 0 || salign < size then salign else size
  }

  /** The offset `alignmember` leaves: unchanged when the struct alignment is
      at most 1, otherwise rounded with the mask `(offset + sa - 1) & ~(sa - 1)`. */
  function AlignedTo(salign: nat, size: nat, offset: nat): nat
    requires salign <= 1 || size != 3
  {
    if salign > 1 then MaskRoundUp(offset, Boundary(salign, size)) else offset
  }

  /** `alignmember`, with its assertion as the precondition. */
  method AlignMember(salign: nat, size: nat, offset: nat) returns (r: nat)
    requires salign <= 1 || size != 3
    ensures r == AlignedTo(salign, size, offset)
  {
    r := offset;
    if salign > 1 {
      var sa := size;
      if sa == 0 || salign < sa {
        sa := salign;
      }
      r := AndNot(r + sa - 1, sa - 1);
    }
  }

  /** With a struct alignment of at most 1 the offset does not move; otherwise
      the boundary is positive, and when it is a power of two the result is
      the least multiple of it that is not below the offset. */
  lemma AlignMemberMeaning(salign: nat, size: nat, offset: nat)
    requires salign <= 1 || size != 3
    ensures salign <= 1 ==> AlignedTo(salign, size, offset) == offset
    ensures salign > 1 ==> Boundary(salign, size) >= 1
    ensures salign > 1 && IsPow2(Boundary(salign, size)) ==>
      IsRoundUp(offset, Boundary(salign, size), AlignedTo(salign, size, offset))
  {
    if salign > 1 && IsPow2(Boundary(salign, size)) {
      MaskRoundUpIsRoundUp(offset, Boundary(salign, size));
    }
  }

  lemma {:induction false} AndNotSelf(x: nat)
    ensures AndNot(x, x) == 0
    decreases x
  {
    if x > 0 {
      AndNotSelf(x / 2);
    }
  }

  /** Offset 0 stays 0 whatever the boundary: this is why every union member
      starts at 0. */
  lemma AlignedAtZero(salign: nat, size: nat)
    requires salign <= 1 || size != 3
    ensures AlignedTo(salign, size, 0) == 0
  {
    if salign > 1 {
      AndNotSelf(Boundary(salign, size) - 1);
    }
  }

  /** Clearing the bits of `m` takes away at most `m`. */
  lemma {:induction false} AndNotLowerBound(y: nat, m: nat)
    ensures y <= AndNot(y, m) + m
    decreases y
  {
    if y > 0 {
      AndNotLowerBound(y / 2, m / 2);
    }
  }

  /** `alignmember` never moves an offset backwards, whatever the boundary. */
  lemma AlignedNotBelow(salign: nat, size: nat, offset: nat)
    requires salign <= 1 || size != 3
    ensures offset <= AlignedTo(salign, size, offset)
  {
    if salign > 1 {
      var b := Boundary(salign, size);
      AndNotLowerBound(offset + b - 1, b - 1);
    }
  }

  // ---------------------------------------------------------------------
  // addField

  /** The state `addField` works on: the table (holding the aggregate being
      laid out), the scope's running offset `sc->offset`, and diagnostics. */
  datatype Layout = Layout(decls: seq<Aggregate>, offset: nat, diags: seq<Diag>)

  /** `addField` gives up on a forward reference: the field's type is a struct
      that is not laid out yet (the aggregate itself included), or an
      identifier type not resolved yet. A struct index outside the table
      counts as not laid out. */
  predicate Bails(decls: seq<Aggregate>, t: Type)
  {
    match t
    case Struct(j) => !(j < |decls| && decls[j].sizeok == SizeDone)
    case Unresolved => true
    case _ => false
  }

  /** What `addField` demands: a field (not static, extern or thread-local)
      of the aggregate, and no alignment requirement of 3 when
      `alignmember` is reached with a struct alignment above 1. */
  predicate AddFieldOk(a: Layout, self: nat, salign: nat, k: nat, is64bit: bool)
  {
    self < |a.decls| && k < |a.decls[self].members| && IsField(a.decls[self].members[k])
    && var t := LayoutType(a.decls[self].members[k], is64bit);
    (Bails(a.decls, t) || salign <= 1 || MemAlignSize(a.decls, t) != 3)
  }

  /** Specification of `addField`. */
  function AddFieldSpec(a: Layout, self: nat, salign: nat, k: nat, is64bit: bool): (r: Layout)
    requires AddFieldOk(a, self, salign, k, is64bit)
    ensures |r.decls| == |a.decls|
    ensures forall j :: 0 <= j < |a.decls| && j != self ==> r.decls[j] == a.decls[j]
    ensures |r.decls[self].members| == |a.decls[self].members|
    ensures r.decls[self].isUnion == a.decls[self].isUnion
    ensures a.diags <= r.diags
  {
    var sd := a.decls[self];
    var v := sd.members[k];
    var t := LayoutType(v, is64bit);
    var diags := if t.Struct? && t.sym == self then a.diags + [SameStructType(self, k)] else a.diags;
    if Bails(a.decls, t) then
      Layout(a.decls[self := sd.(sizeok := SizeFwd)], a.offset, diags)
    else
      var memalignsize := MemAlignSize(a.decls, t);
      var ofs := AlignedTo(salign, memalignsize, a.offset);
      var end := ofs + MemSize(a.decls, t);
      Layout(a.decls[self := sd.(members := sd.members[k := v.(offset := ofs)],
                                 fields := sd.fields + [k],
                                 structsize := MaxNat(sd.structsize, end),
                                 alignsize := MaxNat(sd.alignsize, MinNat(memalignsize, salign)))],
             end, diags)
  }

  /** `addField`. */
  method AddField(a: Layout, self: nat, salign: nat, k: nat, is64bit: bool) returns (r: Layout)
    requires AddFieldOk(a, self, salign, k, is64bit)
    ensures r == AddFieldSpec(a, self, salign, k, is64bit)
  {
    var sd := a.decls[self];
    var v := sd.members[k];
    var t := LayoutType(v, is64bit);
    r := a;
    if t.Struct? {
      if t.sym == self {
        r := r.(diags := r.diags + [SameStructType(self, k)]);
      }
      if !(t.sym < |a.decls| && a.decls[t.sym].sizeok == SizeDone) {
        r := r.(decls := r.decls[self := sd.(sizeok := SizeFwd)]);
        return;
      }
    }
    if t.Unresolved? {
      r := r.(decls := r.decls[self := sd.(sizeok := SizeFwd)]);
      return;
    }
    var memsize := MemSize(a.decls, t);
    var memalignsize := MemAlignSize(a.decls, t);
    var offset := AlignMember(salign, memalignsize, a.offset);
    var placed := v.(offset := offset);
    offset := offset + memsize;
    var structsize := sd.structsize;
    if offset > structsize {
      structsize := offset;
    }
    if salign < memalignsize {
      memalignsize := salign;
    }
    var alignsize := sd.alignsize;
    if alignsize < memalignsize {
      alignsize := memalignsize;
    }
    r := Layout(a.decls[self := sd.(members := sd.members[k := placed], fields := sd.fields + [k],
                                    structsize := structsize, alignsize := alignsize)],
                offset, r.diags);
  }

  /** The forward-reference bail-out: the aggregate is flagged forward
      referenced and nothing else moves: no field is added, no member
      offset changes, the running offset and the sizes stay put. A field of
      the aggregate's own type is reported whether or not it bails. */
  lemma AddFieldBailOut(a: Layout, self: nat, salign: nat, k: nat, is64bit: bool)
    requires AddFieldOk(a, self, salign, k, is64bit)
    ensures var t := LayoutType(a.decls[self].members[k], is64bit); var r := AddFieldSpec(a, self, salign, k, is64bit);
      Bails(a.decls, t) ==>
        && r.decls[self] == a.decls[self].(sizeok := SizeFwd)
        && r.offset == a.offset
    ensures var t := LayoutType(a.decls[self].members[k], is64bit); var r := AddFieldSpec(a, self, salign, k, is64bit);
      r.diags == a.diags + (if t == Struct(self) then [SameStructType(self, k)] else [])
  {
  }

  /** Normal placement: the member lands at the aligned running offset, the
      running offset moves just past it, the struct grows to cover it, the
      alignment grows to the member's requirement capped by the struct
      alignment, and `fields` gains exactly this member at the end. */
  lemma AddFieldPlaces(a: Layout, self: nat, salign: nat, k: nat, is64bit: bool)
    requires AddFieldOk(a, self, salign, k, is64bit)
    requires !Bails(a.decls, LayoutType(a.decls[self].members[k], is64bit))
    ensures var t := LayoutType(a.decls[self].members[k], is64bit);
      var r := AddFieldSpec(a, self, salign, k, is64bit); var rd := r.decls[self];
      && a.offset <= rd.members[k].offset
      && (salign > 1 && IsPow2(Boundary(salign, MemAlignSize(a.decls, t))) ==>
            rd.members[k].offset % Boundary(salign, MemAlignSize(a.decls, t)) == 0)
      && r.offset == rd.members[k].offset + MemSize(a.decls, t)
    ensures var sd := a.decls[self]; var r := AddFieldSpec(a, self, salign, k, is64bit); var rd := r.decls[self];
      && sd.structsize <= rd.structsize && r.offset <= rd.structsize
      && (rd.structsize == sd.structsize || rd.structsize == r.offset)
      && rd.alignsize == MaxNat(sd.alignsize, MinNat(MemAlignSize(a.decls, LayoutType(sd.members[k], is64bit)), salign))
    ensures var sd := a.decls[self]; var rd := AddFieldSpec(a, self, salign, k, is64bit).decls[self];
      && rd.fields == sd.fields + [k] && rd.sizeok == sd.sizeok && |rd.members| == |sd.members|
      && (forall m :: 0 <= m < |sd.members| && m != k ==> rd.members[m] == sd.members[m])
  {
    var t := LayoutType(a.decls[self].members[k], is64bit);
    var m := MemAlignSize(a.decls, t);
    AlignMemberMeaning(salign, m, a.offset);
    AlignedNotBelow(salign, m, a.offset);
    if salign > 1 && IsPow2(Boundary(salign, m)) {
      assert IsRoundUp(a.offset, Boundary(salign, m), AlignedTo(salign, m, a.offset));
    }
  }

  // ---------------------------------------------------------------------
  // The member loop of semantic

  /** One turn of the member loop: semantic on member `k` adds it as a field
      when it is one, then a union puts the running offset back to 0. */
  function Step(a: Layout, self: nat, salign: nat, k: nat, is64bit: bool): (r: Layout)
    requires self < |a.decls| && k < |a.decls[self].members|
    requires !IsField(a.decls[self].members[k]) || AddFieldOk(a, self, salign, k, is64bit)
    ensures |r.decls| == |a.decls| && |r.decls[self].members| == |a.decls[self].members|
  {
    var b := if IsField(a.decls[self].members[k]) then AddFieldSpec(a, self, salign, k, is64bit) else a;
    if a.decls[self].isUnion then b.(offset := 0) else b
  }

  /** Members still to visit. */
  function Remaining(a: Layout, self: nat, k: nat): nat
  {
    if self < |a.decls| && k < |a.decls[self].members| then |a.decls[self].members| - k else 0
  }

  /** The loop from member `k` on reaches no failing assertion. */
  predicate LayoutRuns(a: Layout, self: nat, salign: nat, k: nat, is64bit: bool)
    decreases Remaining(a, self, k)
  {
    self < |a.decls| && k <= |a.decls[self].members|
    && (k < |a.decls[self].members| ==>
          (!IsField(a.decls[self].members[k]) || AddFieldOk(a, self, salign, k, is64bit))
          && LayoutRuns(Step(a, self, salign, k, is64bit), self, salign, k + 1, is64bit))
  }

  /** The member loop from member `k` on. */
  function LayoutSpec(a: Layout, self: nat, salign: nat, k: nat, is64bit: bool): (r: Layout)
    requires LayoutRuns(a, self, salign, k, is64bit)
    ensures |r.decls| == |a.decls|
    decreases Remaining(a, self, k)
  {
    if k == |a.decls[self].members| then a
    else LayoutSpec(Step(a, self, salign, k, is64bit), self, salign, k + 1, is64bit)
  }

  /** The member loop of `semantic`, from a zero running offset. */
  method LayoutMembers(decls: seq<Aggregate>, self: nat, salign: nat, is64bit: bool) returns (r: Layout)
    requires LayoutRuns(Layout(decls, 0, []), self, salign, 0, is64bit)
    ensures r == LayoutSpec(Layout(decls, 0, []), self, salign, 0, is64bit)
  {
    var n := |decls[self].members|;
    r := Layout(decls, 0, []);
    var k := 0;
    while k < n
      invariant k <= n && self < |r.decls| && |r.decls[self].members| == n
      invariant LayoutRuns(r, self, salign, k, is64bit)
      invariant LayoutSpec(r, self, salign, k, is64bit) == LayoutSpec(Layout(decls, 0, []), self, salign, 0, is64bit)
      decreases n - k
    {
      var isUnion := r.decls[self].isUnion;
      if IsField(r.decls[self].members[k]) {
        r := AddField(r, self, salign, k, is64bit);
      }
      if isUnion {
        r := r.(offset := 0);
      }
      k := k + 1;
    }
  }

  /** Every declaration but `self` is the same in both tables. */
  predicate OthersSame(d0: seq<Aggregate>, d1: seq<Aggregate>, self: nat)
  {
    |d1| == |d0| && self < |d0|
    && forall j :: 0 <= j < |d0| && j != self ==> d1[j] == d0[j]
  }

  /** What the member loop may change in the aggregate: member offsets,
      fields (by appending), sizes (by growing) and the forward flag. */
  predicate SelfFrame(sd: Aggregate, rd: Aggregate)
  {
    && |rd.members| == |sd.members|
    && (forall m :: 0 <= m < |sd.members| ==> rd.members[m] == sd.members[m].(offset := rd.members[m].offset))
    && rd == sd.(members := rd.members, fields := rd.fields, structsize := rd.structsize,
                 alignsize := rd.alignsize, sizeok := rd.sizeok)
    && sd.fields <= rd.fields
    && sd.structsize <= rd.structsize && sd.alignsize <= rd.alignsize
    && (rd.sizeok == sd.sizeok || rd.sizeok == SizeFwd)
  }

  /** What the member loop leaves alone: every other declaration, and in
      the aggregate everything but what `SelfFrame` lets change. */
  predicate LayoutFrame(d0: seq<Aggregate>, d1: seq<Aggregate>, self: nat)
  {
    OthersSame(d0, d1, self) && SelfFrame(d0[self], d1[self])
  }

  lemma BailFrame(a: Layout, self: nat, salign: nat, k: nat, is64bit: bool)
    requires AddFieldOk(a, self, salign, k, is64bit)
    requires Bails(a.decls, LayoutType(a.decls[self].members[k], is64bit))
    ensures LayoutFrame(a.decls, AddFieldSpec(a, self, salign, k, is64bit).decls, self)
  {
    var sd := a.decls[self];
    assert AddFieldSpec(a, self, salign, k, is64bit).decls[self] == sd.(sizeok := SizeFwd);
  }

  lemma PlaceFrame(a: Layout, self: nat, salign: nat, k: nat, is64bit: bool)
    requires AddFieldOk(a, self, salign, k, is64bit)
    requires !Bails(a.decls, LayoutType(a.decls[self].members[k], is64bit))
    ensures LayoutFrame(a.decls, AddFieldSpec(a, self, salign, k, is64bit).decls, self)
  {
    var sd := a.decls[self];
    var rd := AddFieldSpec(a, self, salign, k, is64bit).decls[self];
    assert rd.members == sd.members[k := rd.members[k]];
    assert rd.members[k] == sd.members[k].(offset := rd.members[k].offset);
    assert sd.fields <= rd.fields;
  }

  lemma StepFrame(a: Layout, self: nat, salign: nat, k: nat, is64bit: bool)
    requires self < |a.decls| && k < |a.decls[self].members|
    requires !IsField(a.decls[self].members[k]) || AddFieldOk(a, self, salign, k, is64bit)
    ensures LayoutFrame(a.decls, Step(a, self, salign, k, is64bit).decls, self)
    ensures a.diags <= Step(a, self, salign, k, is64bit).diags
  {
    if IsField(a.decls[self].members[k]) {
      if Bails(a.decls, LayoutType(a.decls[self].members[k], is64bit)) {
        BailFrame(a, self, salign, k, is64bit);
      } else {
        PlaceFrame(a, self, salign, k, is64bit);
      }
    }
  }

  lemma FrameTrans(d0: seq<Aggregate>, d1: seq<Aggregate>, d2: seq<Aggregate>, self: nat)
    requires LayoutFrame(d0, d1, self) && LayoutFrame(d1, d2, self)
    ensures LayoutFrame(d0, d2, self)
  {
    var sd, bd, cd := d0[self], d1[self], d2[self];
    forall m | 0 <= m < |sd.members|
      ensures cd.members[m] == sd.members[m].(offset := cd.members[m].offset)
    {
      assert cd.members[m] == bd.members[m].(offset := cd.members[m].offset);
    }
  }

  /** The member loop changes only the aggregate being laid out, and in it
      only offsets, fields (by appending), sizes and the forward flag;
      diagnostics are only appended. */
  lemma {:induction false} LayoutKeepsFrame(a: Layout, self: nat, salign: nat, k: nat, is64bit: bool)
    requires LayoutRuns(a, self, salign, k, is64bit)
    ensures LayoutFrame(a.decls, LayoutSpec(a, self, salign, k, is64bit).decls, self)
    ensures a.diags <= LayoutSpec(a, self, salign, k, is64bit).diags
    decreases Remaining(a, self, k)
  {
    if k < |a.decls[self].members| {
      var b := Step(a, self, salign, k, is64bit);
      StepFrame(a, self, salign, k, is64bit);
      LayoutKeepsFrame(b, self, salign, k + 1, is64bit);
      FrameTrans(a.decls, b.decls, LayoutSpec(b, self, salign, k + 1, is64bit).decls, self);
    } else {
      assert SelfFrame(a.decls[self], a.decls[self]);
    }
  }

  /** Every union field sits at offset 0, and the running offset is 0. */
  predicate AllAtZero(a: Layout, self: nat)
    requires self < |a.decls|
  {
    var sd := a.decls[self];
    a.offset == 0
    && forall f :: 0 <= f < |sd.fields| && sd.fields[f] < |sd.members| ==> sd.members[sd.fields[f]].offset == 0
  }

  lemma StepAtZero(a: Layout, self: nat, salign: nat, k: nat, is64bit: bool)
    requires self < |a.decls| && k < |a.decls[self].members| && a.decls[self].isUnion
    requires !IsField(a.decls[self].members[k]) || AddFieldOk(a, self, salign, k, is64bit)
    requires AllAtZero(a, self)
    ensures AllAtZero(Step(a, self, salign, k, is64bit), self)
  {
    var v := a.decls[self].members[k];
    if IsField(v) && !Bails(a.decls, LayoutType(v, is64bit)) {
      AlignedAtZero(salign, MemAlignSize(a.decls, LayoutType(v, is64bit)));
    }
  }

  /** Because the running offset goes back to 0 after every member, every
      field of a union is placed at offset 0. */
  lemma {:induction false} UnionFieldsAtZero(a: Layout, self: nat, salign: nat, k: nat, is64bit: bool)
    requires LayoutRuns(a, self, salign, k, is64bit) && a.decls[self].isUnion && AllAtZero(a, self)
    ensures self < |LayoutSpec(a, self, salign, k, is64bit).decls|
    ensures AllAtZero(LayoutSpec(a, self, salign, k, is64bit), self)
    decreases Remaining(a, self, k)
  {
    if k < |a.decls[self].members| {
      var b := Step(a, self, salign, k, is64bit);
      StepAtZero(a, self, salign, k, is64bit);
      StepFrame(a, self, salign, k, is64bit);
      UnionFieldsAtZero(b, self, salign, k + 1, is64bit);
    }
  }

  /** The type mentions declaration `self` (through static arrays). */
  predicate Mentions(self: nat, t: Type)
  {
    match t
    case Struct(j) => j == self
    case SArray(elem, _) => Mentions(self, elem)
    case _ => false
  }

  /** No member's layout type mentions the aggregate itself. */
  predicate NoSelfReference(sd: Aggregate, self: nat, is64bit: bool)
  {
    forall m :: 0 <= m < |sd.members| ==> !Mentions(self, LayoutType(sd.members[m], is64bit))
  }

  /** Sizes of types that do not mention the aggregate do not change while
      it is laid out. */
  lemma {:induction false} SizeIgnoresOther(decls: seq<Aggregate>, self: nat, x: Aggregate, t: Type)
    requires self < |decls| && !Mentions(self, t)
    ensures MemSize(decls[self := x], t) == MemSize(decls, t)
  {
    if t.SArray? {
      SizeIgnoresOther(decls, self, x, t.elem);
    }
  }

  /** The sizes of the aggregate's members against the table. */
  function Sizes(decls: seq<Aggregate>, sd: Aggregate, is64bit: bool): (s: seq<nat>)
    ensures |s| == |sd.members|
    ensures forall m :: 0 <= m < |sd.members| ==> s[m] == MemSize(decls, LayoutType(sd.members[m], is64bit))
  {
    seq(|sd.members|, m requires 0 <= m < |sd.members| => MemSize(decls, LayoutType(sd.members[m], is64bit)))
  }

  /** Only offsets of members differ. */
  predicate SameMemberTypes(sd: Aggregate, rd: Aggregate)
  {
    |rd.members| == |sd.members|
    && forall m :: 0 <= m < |sd.members| ==>
         rd.members[m].ty == sd.members[m].ty && rd.members[m].isRef == sd.members[m].isRef
  }

  /** Member sizes stay put while only the aggregate changes, as long as no
      member type mentions it. */
  lemma SizesStay(d0: seq<Aggregate>, d1: seq<Aggregate>, self: nat, is64bit: bool)
    requires OthersSame(d0, d1, self) && SameMemberTypes(d0[self], d1[self])
    requires NoSelfReference(d0[self], self, is64bit)
    ensures NoSelfReference(d1[self], self, is64bit)
    ensures Sizes(d1, d1[self], is64bit) == Sizes(d0, d0[self], is64bit)
  {
    assert d1 == d0[self := d1[self]];
    forall m | 0 <= m < |d0[self].members|
      ensures Sizes(d1, d1[self], is64bit)[m] == Sizes(d0, d0[self], is64bit)[m]
    {
      assert LayoutType(d1[self].members[m], is64bit) == LayoutType(d0[self].members[m], is64bit);
      SizeIgnoresOther(d0, self, d1[self], LayoutType(d0[self].members[m], is64bit));
    }
  }

  /** The end of field `f`, given the members' sizes. */
  function FieldEnd(sd: Aggregate, sizes: seq<nat>, f: nat): nat
    requires f < |sd.fields| && sd.fields[f] < |sd.members| && |sizes| == |sd.members|
  {
    sd.members[sd.fields[f]].offset + sizes[sd.fields[f]]
  }

  /** The fields lie in order without overlap, all within the struct size. */
  predicate Disjoint(sd: Aggregate, sizes: seq<nat>)
  {
    |sizes| == |sd.members|
    && (forall f :: 0 <= f < |sd.fields| ==> sd.fields[f] < |sd.members|)
    && (forall f :: 0 <= f < |sd.fields| ==> FieldEnd(sd, sizes, f) <= sd.structsize)
    && (forall f, g :: 0 <= f < g < |sd.fields| ==> FieldEnd(sd, sizes, f) <= sd.members[sd.fields[g]].offset)
  }

  /** The loop invariant behind `Disjoint`: every field so far precedes
      member `k` and ends before the running offset. */
  predicate InOrder(sd: Aggregate, offset: nat, sizes: seq<nat>, k: nat)
  {
    Disjoint(sd, sizes)
    && (forall f :: 0 <= f < |sd.fields| ==> sd.fields[f] < k)
    && (forall f :: 0 <= f < |sd.fields| ==> FieldEnd(sd, sizes, f) <= offset)
    && offset <= sd.structsize
  }

  lemma PlaceInOrder(a: Layout, self: nat, salign: nat, k: nat, sizes: seq<nat>, is64bit: bool)
    requires AddFieldOk(a, self, salign, k, is64bit) && !a.decls[self].isUnion
    requires !Bails(a.decls, LayoutType(a.decls[self].members[k], is64bit))
    requires |sizes| == |a.decls[self].members|
    requires sizes[k] == MemSize(a.decls, LayoutType(a.decls[self].members[k], is64bit))
    requires InOrder(a.decls[self], a.offset, sizes, k)
    ensures var r := AddFieldSpec(a, self, salign, k, is64bit); InOrder(r.decls[self], r.offset, sizes, k + 1)
  {
    var sd := a.decls[self];
    var r := AddFieldSpec(a, self, salign, k, is64bit);
    AddFieldPlaces(a, self, salign, k, is64bit);
    var rd := r.decls[self];
    assert |rd.fields| == |sd.fields| + 1 && rd.fields[|sd.fields|] == k;
    forall f | 0 <= f < |sd.fields|
      ensures rd.fields[f] == sd.fields[f] && FieldEnd(rd, sizes, f) == FieldEnd(sd, sizes, f)
    {
      assert rd.members[sd.fields[f]] == sd.members[sd.fields[f]];
    }
    assert FieldEnd(rd, sizes, |sd.fields|) == r.offset;
  }

  lemma StepInOrder(a: Layout, self: nat, salign: nat, k: nat, sizes: seq<nat>, is64bit: bool)
    requires self < |a.decls| && k < |a.decls[self].members| && !a.decls[self].isUnion
    requires !IsField(a.decls[self].members[k]) || AddFieldOk(a, self, salign, k, is64bit)
    requires sizes == Sizes(a.decls, a.decls[self], is64bit)
    requires InOrder(a.decls[self], a.offset, sizes, k)
    ensures var b := Step(a, self, salign, k, is64bit); InOrder(b.decls[self], b.offset, sizes, k + 1)
  {
    var v := a.decls[self].members[k];
    if IsField(v) {
      if Bails(a.decls, LayoutType(v, is64bit)) {
        var sd := a.decls[self];
        var rd := AddFieldSpec(a, self, salign, k, is64bit).decls[self];
        assert rd == sd.(sizeok := SizeFwd);
        forall f | 0 <= f < |sd.fields|
          ensures FieldEnd(rd, sizes, f) == FieldEnd(sd, sizes, f)
        {
        }
      } else {
        PlaceInOrder(a, self, salign, k, sizes, is64bit);
      }
    }
  }

  /** Struct fields are placed in declaration order without overlapping one
      another, and all of them fit in the struct size, provided no field's
      type mentions the struct itself. */
  lemma {:induction false} StructFieldsInOrder(a: Layout, self: nat, salign: nat, k: nat, sizes: seq<nat>, is64bit: bool)
    requires LayoutRuns(a, self, salign, k, is64bit) && !a.decls[self].isUnion
    requires NoSelfReference(a.decls[self], self, is64bit) && sizes == Sizes(a.decls, a.decls[self], is64bit)
    requires InOrder(a.decls[self], a.offset, sizes, k)
    ensures var r := LayoutSpec(a, self, salign, k, is64bit); InOrder(r.decls[self], r.offset, sizes, |a.decls[self].members|)
    decreases Remaining(a, self, k)
  {
    if k < |a.decls[self].members| {
      var b := Step(a, self, salign, k, is64bit);
      StepInOrder(a, self, salign, k, sizes, is64bit);
      StepFrame(a, self, salign, k, is64bit);
      SizesStay(a.decls, b.decls, self, is64bit);
      StructFieldsInOrder(b, self, salign, k + 1, sizes, is64bit);
    }
  }

  // ---------------------------------------------------------------------
  // semantic

  /** The compiler state `semantic` and `size` work on: the declaration
      table, `Module::dprogress`, the deferred queue and the diagnostics. */
  datatype World = World(decls: seq<Aggregate>, dprogress: nat, deferred: seq<nat>, diags: seq<Diag>)

  /** `semantic` has completed already: it started (a symbol table exists)
      and is laid out or has no saved scope to resume from. */
  predicate Completed(sd: Aggregate)
  {
    sd.symtab && (sd.sizeok == SizeDone || sd.scope.None?)
  }

  /** The alignment in effect for a run: the saved scope's, or the caller's. */
  function RunAlign(sd: Aggregate, sc: nat): nat
  {
    if sd.scope.Some? then sd.scope.value else sc
  }

  /** The aggregate as the member loop starts: symbol table made, saved
      scope taken, alignment recorded, `sizeok` back to 0. */
  function Started(sd: Aggregate, sc: nat): Aggregate
  {
    sd.(symtab := true, scope := None, structalign := RunAlign(sd, sc), sizeok := SizeNone)
  }

  /** The member loop's start and the run's layout. */
  function Start(w: World, i: nat, sc: nat): Layout
    requires i < |w.decls|
  {
    Layout(w.decls[i := Started(w.decls[i], sc)], 0, [])
  }

  /** A run of `semantic` reaches no failing assertion. */
  predicate SemanticRuns(w: World, i: nat, sc: nat, is64bit: bool)
  {
    i < |w.decls|
    && (w.decls[i].noBody || Completed(w.decls[i])
        || LayoutRuns(Start(w, i, sc), i, RunAlign(w.decls[i], sc), 0, is64bit))
  }

  /** The unwinding after a forward reference: no fields, sizes and alignment
      0, and the scope saved for the deferred run. */
  function Unwound(a: Aggregate, salign: nat): Aggregate
  {
    a.(fields := [], structsize := 0, alignsize := 0, structalign := 0, scope := Some(salign))
  }

  /** The end of a successful layout: an empty struct gets size and
      alignment 1, the size is rounded up with the mask to the alignment,
      and the aggregate is laid out. */
  function Rounded(a: Aggregate): Aggregate
  {
    var size := if a.structsize == 0 then 1 else a.structsize;
    var align := if a.structsize == 0 then 1 else a.alignsize;
    a.(structsize := MaskRoundUp(size, align), alignsize := align, sizeok := SizeDone)
  }

  /** `zeroInit`: every field that is not in the data segment has no
      initialiser and a type whose default value is all zero bits. */
  predicate ZeroInit(decls: seq<Aggregate>, sd: Aggregate)
  {
    forall f :: 0 <= f < |sd.fields| && sd.fields[f] < |sd.members| && IsField(sd.members[sd.fields[f]]) ==>
      sd.members[sd.fields[f]].init == NoInit && IsZeroInitType(decls, sd.members[sd.fields[f]].ty)
  }

  /** The loop that computes `zeroInit`, leaving at the first field that is
      not zero-initialised. */
  method ComputeZeroInit(decls: seq<Aggregate>, sd: Aggregate) returns (z: bool)
    ensures z == ZeroInit(decls, sd)
  {
    z := true;
    var f := 0;
    while f < |sd.fields|
      invariant f <= |sd.fields|
      invariant z == (forall g :: 0 <= g < f && sd.fields[g] < |sd.members| && IsField(sd.members[sd.fields[g]]) ==>
                        sd.members[sd.fields[g]].init == NoInit && IsZeroInitType(decls, sd.members[sd.fields[g]].ty))
      decreases |sd.fields| - f
    {
      if sd.fields[f] < |sd.members| {
        var vd := sd.members[sd.fields[f]];
        if IsField(vd) {
          if vd.init != NoInit {
            z := false;
            break;
          } else if !IsZeroInitType(decls, vd.ty) {
            z := false;
            break;
          }
        }
      }
      f := f + 1;
    }
  }

  /** `StructDeclaration::semantic` on declaration `i` with the caller's
      struct alignment `sc`. */
  function SemanticSpec(w: World, i: nat, sc: nat, is64bit: bool): World
    requires SemanticRuns(w, i, sc, is64bit)
  {
    var sd := w.decls[i];
    if sd.noBody then w
    else if Completed(sd) then w.(decls := w.decls[i := sd.(scope := None)])
    else Finish(w, Laid(w, i, sc, is64bit), i, RunAlign(sd, sc))
  }

  /** The member loop of a run that goes as far as laying out. */
  function Laid(w: World, i: nat, sc: nat, is64bit: bool): Layout
    requires SemanticRuns(w, i, sc, is64bit) && !w.decls[i].noBody && !Completed(w.decls[i])
  {
    LayoutSpec(Start(w, i, sc), i, RunAlign(w.decls[i], sc), 0, is64bit)
  }

  /** What `semantic` does after the member loop: unwind and defer on a
      forward reference (the progress count as on entry), otherwise round
      the size, mark the aggregate done, count progress and work out
      `zeroInit`. */
  function Finish(w: World, lay: Layout, i: nat, salign: nat): World
    requires i < |lay.decls|
  {
    var a := lay.decls[i];
    if a.sizeok == SizeFwd then
      World(lay.decls[i := Unwound(a, salign)], w.dprogress, Defer(w.deferred, i), w.diags + lay.diags)
    else
      var done := Rounded(a);
      var decls := lay.decls[i := done];
      World(decls[i := done.(zeroInit := ZeroInit(decls, done))], w.dprogress + 1, w.deferred, w.diags + lay.diags)
  }

  /** The end of `semantic`, after the member loop. */
  method FinishRun(w: World, lay: Layout, i: nat, salign: nat) returns (r: World)
    requires i < |lay.decls|
    ensures r == Finish(w, lay, i, salign)
  {
    var dprogressSave := w.dprogress;
    r := w.(decls := lay.decls, diags := w.diags + lay.diags);
    var a := r.decls[i];
    if a.sizeok == SizeFwd {
      // unwind, and defer for later
      r := r.(decls := r.decls[i := Unwound(a, salign)], deferred := Defer(r.deferred, i), dprogress := dprogressSave);
      return;
    }
    if a.structsize == 0 {
      a := a.(structsize := 1, alignsize := 1);
    }
    a := a.(structsize := MaskRoundUp(a.structsize, a.alignsize), sizeok := SizeDone);
    r := r.(dprogress := r.dprogress + 1, decls := r.decls[i := a]);
    var z := ComputeZeroInit(r.decls, a);
    r := r.(decls := r.decls[i := a.(zeroInit := z)]);
  }

  // ---------------------------------------------------------------------
  // Properties of semantic

  /** `semantic` changes only declaration `i`, only appends diagnostics,
      only grows the queue, and never lowers the progress count. */
  predicate Local(w: World, r: World, i: nat)
  {
    |r.decls| == |w.decls|
    && (forall j :: 0 <= j < |w.decls| && j != i ==> r.decls[j] == w.decls[j])
    && w.diags <= r.diags && multiset(w.deferred) <= multiset(r.deferred) && w.dprogress <= r.dprogress
  }

  /** The member loop of a run changes only the aggregate, and in it only
      what `SelfFrame` allows. */
  lemma LaidFrame(w: World, i: nat, sc: nat, is64bit: bool)
    requires SemanticRuns(w, i, sc, is64bit) && !w.decls[i].noBody && !Completed(w.decls[i])
    ensures var lay := Laid(w, i, sc, is64bit);
      && OthersSame(w.decls, lay.decls, i) && SelfFrame(Started(w.decls[i], sc), lay.decls[i])
      && [] <= lay.diags
  {
    LayoutKeepsFrame(Start(w, i, sc), i, RunAlign(w.decls[i], sc), 0, is64bit);
  }

  /** The unwinding branch. */
  lemma FinishDefers(w: World, lay: Layout, i: nat, salign: nat)
    requires i < |lay.decls| && lay.decls[i].sizeok == SizeFwd
    ensures var r := Finish(w, lay, i, salign); var rd := r.decls[i];
      && OthersSame(lay.decls, r.decls, i) && r.diags == w.diags + lay.diags
      && rd == lay.decls[i].(fields := [], structsize := 0, alignsize := 0, structalign := 0, scope := Some(salign))
      && r.deferred == Defer(w.deferred, i) && r.dprogress == w.dprogress
  {
  }

  /** The laying-out branch: size at least 1 and rounded up, aggregate done,
      progress counted, nothing else of it changed but `zeroInit`. */
  lemma FinishSized(w: World, lay: Layout, i: nat, salign: nat)
    requires i < |lay.decls| && lay.decls[i].sizeok != SizeFwd
    ensures var r := Finish(w, lay, i, salign); var laid := lay.decls[i]; var rd := r.decls[i];
      && OthersSame(lay.decls, r.decls, i) && r.diags == w.diags + lay.diags
      && r.deferred == w.deferred && r.dprogress == w.dprogress + 1
      && rd == laid.(structsize := rd.structsize, alignsize := rd.alignsize, sizeok := SizeDone, zeroInit := rd.zeroInit)
    ensures var laid := lay.decls[i]; var rd := Finish(w, lay, i, salign).decls[i];
      && (laid.structsize == 0 ==> rd.structsize == 1 && rd.alignsize == 1)
      && (laid.structsize > 0 ==> rd.alignsize == laid.alignsize)
      && (IsPow2(rd.alignsize) ==> IsRoundUp(MaxNat(laid.structsize, 1), rd.alignsize, rd.structsize))
  {
    var laid := lay.decls[i];
    var done := Rounded(laid);
    if IsPow2(done.alignsize) {
      MaskRoundUpIsRoundUp(MaxNat(laid.structsize, 1), done.alignsize);
    }
  }

  /** A declaration without a body is left as it is. */
  lemma SemanticNoBody(w: World, i: nat, sc: nat, is64bit: bool)
    requires i < |w.decls| && w.decls[i].noBody
    ensures SemanticRuns(w, i, sc, is64bit)
    ensures SemanticSpec(w, i, sc, is64bit) == w
  {
  }

  /** A completed declaration only drops its saved scope. */
  lemma SemanticCompleted(w: World, i: nat, sc: nat, is64bit: bool)
    requires i < |w.decls| && !w.decls[i].noBody && Completed(w.decls[i])
    ensures SemanticRuns(w, i, sc, is64bit)
    ensures SemanticSpec(w, i, sc, is64bit) == w.(decls := w.decls[i := w.decls[i].(scope := None)])
  {
  }

  /** A forward reference unwinds the declaration: no fields, sizes and
      struct alignment 0, scope saved, queued for a later run, progress
      count as it was on entry. */
  lemma SemanticDefers(w: World, i: nat, sc: nat, is64bit: bool)
    requires SemanticRuns(w, i, sc, is64bit) && !w.decls[i].noBody && !Completed(w.decls[i])
    requires Laid(w, i, sc, is64bit).decls[i].sizeok == SizeFwd
    ensures var r := SemanticSpec(w, i, sc, is64bit); var rd := r.decls[i];
      && Local(w, r, i)
      && rd.fields == [] && rd.structsize == 0 && rd.alignsize == 0 && rd.structalign == 0
      && rd.sizeok == SizeFwd && rd.symtab && rd.scope == Some(RunAlign(w.decls[i], sc))
      && i in r.deferred && r.dprogress == w.dprogress
  {
    var lay := Laid(w, i, sc, is64bit);
    LaidFrame(w, i, sc, is64bit);
    FinishDefers(w, lay, i, RunAlign(w.decls[i], sc));
    assert SemanticSpec(w, i, sc, is64bit) == Finish(w, lay, i, RunAlign(w.decls[i], sc));
  }

  /** A successful run lays the declaration out: its size is at least 1 and
      is the laid-out size rounded up (to a multiple of the alignment when
      that is a power of two); an empty aggregate gets size and alignment 1;
      the progress count goes up by one; the queue is untouched. */
  lemma SemanticSizes(w: World, i: nat, sc: nat, is64bit: bool)
    requires SemanticRuns(w, i, sc, is64bit) && !w.decls[i].noBody && !Completed(w.decls[i])
    requires Laid(w, i, sc, is64bit).decls[i].sizeok != SizeFwd
    ensures var r := SemanticSpec(w, i, sc, is64bit); var rd := r.decls[i];
      && Local(w, r, i) && r.deferred == w.deferred && r.dprogress == w.dprogress + 1
      && rd.sizeok == SizeDone && rd.symtab && rd.scope.None?
    ensures var laid := Laid(w, i, sc, is64bit).decls[i]; var rd := SemanticSpec(w, i, sc, is64bit).decls[i];
      && rd.fields == laid.fields && rd.members == laid.members
      && (laid.structsize == 0 ==> rd.structsize == 1 && rd.alignsize == 1)
      && (laid.structsize > 0 ==> rd.alignsize == laid.alignsize)
      && (IsPow2(rd.alignsize) ==> IsRoundUp(MaxNat(laid.structsize, 1), rd.alignsize, rd.structsize))
  {
    var lay := Laid(w, i, sc, is64bit);
    LaidFrame(w, i, sc, is64bit);
    FinishSized(w, lay, i, RunAlign(w.decls[i], sc));
    assert SemanticSpec(w, i, sc, is64bit) == Finish(w, lay, i, RunAlign(w.decls[i], sc));
  }

  /** No member's declared type mentions the aggregate itself. */
  predicate NoSelfType(sd: Aggregate, self: nat)
  {
    forall m :: 0 <= m < |sd.members| ==> !Mentions(self, sd.members[m].ty)
  }

  lemma {:induction false} ZeroInitTypeIgnoresOther(decls: seq<Aggregate>, self: nat, x: Aggregate, t: Type)
    requires self < |decls| && !Mentions(self, t)
    ensures IsZeroInitType(decls[self := x], t) == IsZeroInitType(decls, t)
  {
    if t.SArray? {
      ZeroInitTypeIgnoresOther(decls, self, x, t.elem);
    }
  }

  /** `zeroInit` of a declaration whose fields do not mention it does not
      depend on the flag itself: it is the fixed point the loop computes. */
  lemma ZeroInitIgnoresSelf(decls: seq<Aggregate>, i: nat, sd: Aggregate, x: Aggregate)
    requires i < |decls| && NoSelfType(sd, i)
    ensures ZeroInit(decls[i := x], sd) == ZeroInit(decls, sd)
  {
    forall f | 0 <= f < |sd.fields| && sd.fields[f] < |sd.members|
      ensures IsZeroInitType(decls[i := x], sd.members[sd.fields[f]].ty) == IsZeroInitType(decls, sd.members[sd.fields[f]].ty)
    {
      ZeroInitTypeIgnoresOther(decls, i, x, sd.members[sd.fields[f]].ty);
    }
  }

  /** After a successful run `zeroInit` holds exactly when every field has
      no initialiser and a type whose default is all zero bits. */
  lemma SemanticZeroInit(w: World, i: nat, sc: nat, is64bit: bool)
    requires SemanticRuns(w, i, sc, is64bit) && !w.decls[i].noBody && !Completed(w.decls[i])
    requires Laid(w, i, sc, is64bit).decls[i].sizeok != SizeFwd && NoSelfType(w.decls[i], i)
    ensures var r := SemanticSpec(w, i, sc, is64bit); r.decls[i].zeroInit <==> ZeroInit(r.decls, r.decls[i])
  {
    var lay := Laid(w, i, sc, is64bit);
    LaidFrame(w, i, sc, is64bit);
    var done := Rounded(lay.decls[i]);
    var decls := lay.decls[i := done];
    var r := SemanticSpec(w, i, sc, is64bit);
    assert r == Finish(w, lay, i, RunAlign(w.decls[i], sc));
    var rd := done.(zeroInit := ZeroInit(decls, done));
    assert r.decls == decls[i := rd];
    assert NoSelfType(done, i) by {
      forall m | 0 <= m < |done.members| ensures !Mentions(i, done.members[m].ty) {
        assert done.members[m].ty == w.decls[i].members[m].ty;
      }
    }
    ZeroInitIgnoresSelf(decls, i, done, rd);
    assert ZeroInit(r.decls, rd) == ZeroInit(r.decls, done);
  }

  /** Running `semantic` again after it laid a declaration out changes
      nothing. */
  lemma SemanticIdempotent(w: World, i: nat, sc: nat, sc2: nat, is64bit: bool)
    requires SemanticRuns(w, i, sc, is64bit) && !w.decls[i].noBody
    requires SemanticSpec(w, i, sc, is64bit).decls[i].sizeok == SizeDone
    ensures SemanticRuns(SemanticSpec(w, i, sc, is64bit), i, sc2, is64bit)
    ensures SemanticSpec(SemanticSpec(w, i, sc, is64bit), i, sc2, is64bit) == SemanticSpec(w, i, sc, is64bit)
  {
    var r := SemanticSpec(w, i, sc, is64bit);
    if !Completed(w.decls[i]) {
      var lay := Laid(w, i, sc, is64bit);
      LaidFrame(w, i, sc, is64bit);
      if lay.decls[i].sizeok == SizeFwd {
        assert false;
      }
      FinishSized(w, lay, i, RunAlign(w.decls[i], sc));
      assert r == Finish(w, lay, i, RunAlign(w.decls[i], sc));
      assert r.decls[i].symtab && r.decls[i].scope.None?;
    }
    assert r.decls[i].(scope := None) == r.decls[i];
    assert r.decls[i := r.decls[i]] == r.decls;
  }

  /** A union's fields all sit at offset 0 after `semantic`. */
  lemma SemanticUnionAtZero(w: World, i: nat, sc: nat, is64bit: bool)
    requires SemanticRuns(w, i, sc, is64bit) && !w.decls[i].noBody && !Completed(w.decls[i])
    requires w.decls[i].isUnion && w.decls[i].fields == []
    ensures var rd := SemanticSpec(w, i, sc, is64bit).decls[i];
      forall f :: 0 <= f < |rd.fields| && rd.fields[f] < |rd.members| ==> rd.members[rd.fields[f]].offset == 0
  {
    var salign := RunAlign(w.decls[i], sc);
    var lay := Laid(w, i, sc, is64bit);
    UnionFieldsAtZero(Start(w, i, sc), i, salign, 0, is64bit);
    LaidFrame(w, i, sc, is64bit);
    assert SemanticSpec(w, i, sc, is64bit) == Finish(w, lay, i, salign);
    if lay.decls[i].sizeok == SizeFwd {
      FinishDefers(w, lay, i, salign);
    } else {
      FinishSized(w, lay, i, salign);
    }
  }

  /** The fields lie in order without overlap. */
  predicate Ordered(sd: Aggregate, sizes: seq<nat>)
  {
    |sizes| == |sd.members|
    && (forall f :: 0 <= f < |sd.fields| ==> sd.fields[f] < |sd.members|)
    && (forall f, g :: 0 <= f < g < |sd.fields| ==> FieldEnd(sd, sizes, f) <= sd.members[sd.fields[g]].offset)
  }

  /** The member loop of a run leaves a struct's fields in order, without
      overlap and within the laid-out size. */
  lemma LaidInOrder(w: World, i: nat, sc: nat, is64bit: bool)
    requires SemanticRuns(w, i, sc, is64bit) && !w.decls[i].noBody && !Completed(w.decls[i])
    requires !w.decls[i].isUnion && w.decls[i].fields == [] && NoSelfType(w.decls[i], i)
    ensures var lay := Laid(w, i, sc, is64bit);
      && NoSelfReference(lay.decls[i], i, is64bit)
      && Disjoint(lay.decls[i], Sizes(lay.decls, lay.decls[i], is64bit))
  {
    var salign := RunAlign(w.decls[i], sc);
    var a0 := Start(w, i, sc);
    var sizes := Sizes(a0.decls, a0.decls[i], is64bit);
    assert NoSelfReference(a0.decls[i], i, is64bit) by {
      forall m | 0 <= m < |a0.decls[i].members|
        ensures !Mentions(i, LayoutType(a0.decls[i].members[m], is64bit))
      {
        assert a0.decls[i].members[m] == w.decls[i].members[m];
      }
    }
    StructFieldsInOrder(a0, i, salign, 0, sizes, is64bit);
    LayoutKeepsFrame(a0, i, salign, 0, is64bit);
    SizesStay(a0.decls, Laid(w, i, sc, is64bit).decls, i, is64bit);
  }

  /** Rounding keeps the fields in order, and within the size when the
      alignment is a power of two. */
  lemma FinishInOrder(w: World, lay: Layout, i: nat, salign: nat, is64bit: bool)
    requires i < |lay.decls| && lay.decls[i].sizeok != SizeFwd
    requires NoSelfReference(lay.decls[i], i, is64bit) && Disjoint(lay.decls[i], Sizes(lay.decls, lay.decls[i], is64bit))
    ensures var r := Finish(w, lay, i, salign); var rd := r.decls[i];
      && Ordered(rd, Sizes(r.decls, rd, is64bit))
      && (IsPow2(rd.alignsize) ==> Disjoint(rd, Sizes(r.decls, rd, is64bit)))
  {
    FinishSized(w, lay, i, salign);
    var laid := lay.decls[i];
    var r := Finish(w, lay, i, salign);
    var rd := r.decls[i];
    var sizes := Sizes(lay.decls, laid, is64bit);
    SizesStay(lay.decls, r.decls, i, is64bit);
    assert rd.fields == laid.fields && rd.members == laid.members;
    assert forall f :: 0 <= f < |rd.fields| ==> FieldEnd(rd, sizes, f) == FieldEnd(laid, sizes, f);
  }

  /** A struct's fields lie in declaration order without overlap after
      `semantic`, and within its final size when its alignment is a power
      of two, provided no member type mentions the struct itself. */
  lemma SemanticStructInOrder(w: World, i: nat, sc: nat, is64bit: bool)
    requires SemanticRuns(w, i, sc, is64bit) && !w.decls[i].noBody && !Completed(w.decls[i])
    requires !w.decls[i].isUnion && w.decls[i].fields == [] && NoSelfType(w.decls[i], i)
    ensures var r := SemanticSpec(w, i, sc, is64bit); var rd := r.decls[i];
      && Ordered(rd, Sizes(r.decls, rd, is64bit))
      && (IsPow2(rd.alignsize) ==> Disjoint(rd, Sizes(r.decls, rd, is64bit)))
  {
    var salign := RunAlign(w.decls[i], sc);
    var lay := Laid(w, i, sc, is64bit);
    LaidInOrder(w, i, sc, is64bit);
    assert SemanticSpec(w, i, sc, is64bit) == Finish(w, lay, i, salign);
    if lay.decls[i].sizeok == SizeFwd {
      FinishDefers(w, lay, i, salign);
    } else {
      FinishInOrder(w, lay, i, salign, is64bit);
    }
  }

  // ---------------------------------------------------------------------
  // size

  /** What `size` returns, and the state it leaves. */
  datatype Sizing = Sizing(w: World, size: nat)

  /** `AggregateDeclaration::size`: both failures are reported, each on its
      own condition, and the recorded size is returned either way. */
  function SizeSpec(w: World, i: nat): Sizing
    requires i < |w.decls|
  {
    var sd := w.decls[i];
    var d1 := if sd.noBody then [UnknownSize(i)] else [];
    var d2 := if sd.sizeok != SizeDone then [NoSizeYet(i)] else [];
    Sizing(w.(diags := w.diags + d1 + d2), sd.structsize)
  }

  /** `size` changes nothing but the diagnostics; it reports an unknown size
      exactly when there is no body, and no size yet exactly when layout is
      not done; after a successful `semantic` it reports nothing. */
  lemma SizeReports(w: World, i: nat)
    requires i < |w.decls|
    ensures var z := SizeSpec(w, i); var sd := w.decls[i];
      && z.w.decls == w.decls && z.w.dprogress == w.dprogress && z.w.deferred == w.deferred
      && z.size == sd.structsize && w.diags <= z.w.diags
      && (UnknownSize(i) in z.w.diags[|w.diags|..] <==> sd.noBody)
      && (NoSizeYet(i) in z.w.diags[|w.diags|..] <==> sd.sizeok != SizeDone)
      && |z.w.diags| <= |w.diags| + 2
  {
    var z := SizeSpec(w, i);
    var sd := w.decls[i];
    var d1 := if sd.noBody then [UnknownSize(i)] else [];
    var d2 := if sd.sizeok != SizeDone then [NoSizeYet(i)] else [];
    assert z.w.diags[|w.diags|..] == d1 + d2;
  }

  // ---------------------------------------------------------------------
  // The compiler state as the source holds it

  class Compilation {
    var decls: seq<Aggregate>
    var dprogress: nat
    var deferred: seq<nat>
    var diags: seq<Diag>

    function State(): World
      reads this
    {
      World(decls, dprogress, deferred, diags)
    }

    constructor(decls: seq<Aggregate>)
      ensures State() == World(decls, 0, [], [])
    {
      this.decls := decls;
      dprogress := 0;
      deferred := [];
      diags := [];
    }

    /** `StructDeclaration::semantic` on declaration `i`. */
    method Semantic(i: nat, sc: nat, is64bit: bool)
      requires SemanticRuns(State(), i, sc, is64bit)
      modifies this
      ensures State() == SemanticSpec(old(State()), i, sc, is64bit)
    {
      var sd := decls[i];
      if sd.noBody {
        return;
      }
      if sd.symtab {
        if sd.sizeok == SizeDone || sd.scope.None? {
          decls := decls[i := sd.(scope := None)];
          return;
        }
      }
      var salign := RunAlign(sd, sc);
      var lay := LayoutMembers(decls[i := Started(sd, sc)], i, salign, is64bit);
      var r := FinishRun(State(), lay, i, salign);
      decls, dprogress, deferred, diags := r.decls, r.dprogress, r.deferred, r.diags;
    }

    /** `AggregateDeclaration::size` on declaration `i`. */
    method Size(i: nat) returns (size: nat)
      requires i < |decls|
      modifies this
      ensures Sizing(State(), size) == SizeSpec(old(State()), i)
    {
      var sd := decls[i];
      if sd.noBody {
        diags := diags + [UnknownSize(i)];
      }
      if sd.sizeok != SizeDone {
        diags := diags + [NoSizeYet(i)];
      }
      size := sd.structsize;
    }
  }
}
