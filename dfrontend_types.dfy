/** The entities of the 2014 front end's struct code (gcc/d/dfrontend):
    types reduced to what layout needs, variable declarations (members),
    and struct/union declarations held in an indexed table. A declaration
    refers to another one by its index in that table. */
module DfrontendTypes {
  import opened Bits

  datatype Option<T> = None | Some(value: T)

  /** `structalign_t`: `STRUCTALIGN_DEFAULT` or an explicit `align(n)`. */
  datatype Alignment = AlignDefault | AlignExplicit(n: nat)

  /** An alignment the front end accepts: an explicit alignment is a positive
      power of two (the assertion in `alignmember`). */
  predicate ValidAlignment(a: Alignment)
  {
    a.AlignExplicit? ==> IsPow2(a.n)
  }

  /** `sizeok`: layout not done, blocked by a forward reference, done. */
  datatype SizeOk = SizeOkNone | SizeOkFwd | SizeOkDone

  /** `semanticRun` as far as struct semantic uses it. */
  datatype Pass = PassInit | PassSemantic | PassSemanticDone

  /** The `ispod` cache. */
  datatype PodCache = IsPodFwd | IsPodYes | IsPodNo

  /** Storage of a member: an instance field, static-like storage
      (`static`, `extern`, `__gshared`, thread-local), a manifest constant
      (`enum x = ...`), or a member that is not a variable at all. */
  datatype Storage = InstanceField | StaticStorage | ManifestConstant | OtherSymbol

  /** Diagnostics the struct code reports: a field whose type is the struct
      itself, the two failures of `size()`, and the two overlap errors of
      `checkOverlappedFields` (members named by their index). */
  datatype Diag =
    | SameStructType(decl: nat, member: nat)
    | UnknownSize(decl: nat)
    | NoSizeYet(decl: nat)
    | OverlapSpecialMember(decl: nat, member1: nat, member2: nat)
    | OverlapDefaultInit(decl: nat, member1: nat, member2: nat)

  /** The two reports only `size()` makes. */
  predicate SizeReport(d: Diag)
  {
    d.UnknownSize? || d.NoSizeYet?
  }

  predicate NoSizeReports(ds: seq<Diag>)
  {
    forall k :: 0 <= k < |ds| ==> !SizeReport(ds[k])
  }

  /** Expressions only as far as initialisation needs them. `DefaultInit(k)`
      is the default initialiser of member `k`'s type; `Converted(e, k)` is
      `e` after implicit conversion to the type of field `k`. */
  datatype Expr =
    | Literal(id: nat)
    | NullLiteral
    | ErrorExp
    | DefaultInit(member: nat)
    | Converted(e: Expr, field: nat)

  /** A variable's initialiser: none, `= void`, or an expression. */
  datatype Init = NoInit | VoidInit | ExpInit(e: Expr)

  /** Types: a basic type with its size, alignment and whether its default
      value is all zero bits; a struct by declaration index; a static array;
      an identifier type not yet resolved. */
  datatype Type =
    | Basic(size: nat, alignsize: nat, zeroInit: bool)
    | Struct(sym: nat)
    | SArray(elem: Type, dim: nat)
    | Unresolved

  /** A variable declaration that is a member of an aggregate. */
  datatype VarDecl = VarDecl(
    ty: Type,
    storage: Storage,
    isRef: bool,
    init: Init,
    align: Alignment,
    noDefaultCtor: bool,
    semanticDone: bool,
    offset: nat,
    overlapped: bool)

  /** A struct or union declaration. `noBody` marks a declaration without a body
      (`members == NULL`); `fields` are indices into `members`; `nested` is
      `isNested()`, i.e. an enclosing context exists; `scope` is the saved
      scope, reduced to the alignment it puts in effect. `dtor`, `postblit`
      and `inv` say whether the special member exists. */
  datatype StructDecl = StructDecl(
    isUnion: bool,
    nested: bool,
    noBody: bool,
    members: seq<VarDecl>,
    fields: seq<nat>,
    structsize: nat,
    alignsize: nat,
    alignment: Alignment,
    sizeok: SizeOk,
    semanticRun: Pass,
    symtab: bool,
    scope: Option<Alignment>,
    zeroInit: bool,
    dtor: bool,
    postblit: bool,
    inv: bool)

  /** `Type::baseElemOf`: the element type under all static array levels. */
  function BaseElem(t: Type): (r: Type)
    ensures !r.SArray?
  {
    if t.SArray? then BaseElem(t.elem) else t
  }

  /** `Type::size()`: a struct type has the size of its declaration. */
  function TypeSize(decls: seq<StructDecl>, t: Type): nat
  {
    match t
    case Basic(size, _, _) => size
    case Struct(j) => if j < |decls| then decls[j].structsize else 0
    case SArray(elem, dim) => dim * TypeSize(decls, elem)
    case Unresolved => 0
  }

  /** `Type::alignsize()`: a static array aligns like its element. */
  function TypeAlignSize(decls: seq<StructDecl>, t: Type): nat
  {
    match t
    case Basic(_, alignsize, _) => alignsize
    case Struct(j) => if j < |decls| then decls[j].alignsize else 0
    case SArray(elem, _) => TypeAlignSize(decls, elem)
    case Unresolved => 0
  }

  /** `Type::isZeroInit()`: the default value is all zero bits. */
  predicate TypeIsZeroInit(decls: seq<StructDecl>, t: Type)
  {
    match t
    case Basic(_, _, z) => z
    case Struct(j) => j < |decls| && decls[j].zeroInit
    case SArray(elem, _) => TypeIsZeroInit(decls, elem)
    case Unresolved => false
  }

  /** Size of a pointer on the target. */
  function PointerSize(is64bit: bool): nat
  {
    if is64bit then 8 else 4
  }

  /** The type a field is laid out as: a `ref` field is a pointer. */
  function LayoutType(v: VarDecl, is64bit: bool): Type
  {
    if v.isRef then Basic(PointerSize(is64bit), PointerSize(is64bit), true) else v.ty
  }

  /** `VarDeclaration::isField()`. */
  predicate IsField(v: VarDecl)
  {
    v.storage == InstanceField
  }

  /** The end `offset + size` of member `k`. */
  function MemberEnd(decls: seq<StructDecl>, sd: StructDecl, k: nat): nat
    requires k < |sd.members|
  {
    sd.members[k].offset + TypeSize(decls, sd.members[k].ty)
  }

  /** `VarDeclaration::isOverlappedWith`: the half-open byte ranges
      `[offset, offset + size)` of the two members intersect. */
  predicate Overlap(decls: seq<StructDecl>, sd: StructDecl, k1: nat, k2: nat)
    requires k1 < |sd.members| && k2 < |sd.members|
  {
    sd.members[k1].offset < MemberEnd(decls, sd, k2)
    && sd.members[k2].offset < MemberEnd(decls, sd, k1)
  }

  /** Every type in the table names a declaration of the table and every
      basic alignment is a power of two. */
  predicate WellFormedType(n: nat, t: Type)
  {
    match t
    case Basic(_, alignsize, _) => IsPow2(alignsize)
    case Struct(j) => j < n
    case SArray(elem, _) => WellFormedType(n, elem)
    case Unresolved => true
  }

  /** A declaration whose members and fields are well formed: types name
      declarations of the table, alignments are valid, field indices name
      distinct instance-field members. */
  predicate WellFormedDecl(n: nat, sd: StructDecl)
  {
    ValidAlignment(sd.alignment)
    && (forall k :: 0 <= k < |sd.members| ==>
          WellFormedType(n, sd.members[k].ty) && ValidAlignment(sd.members[k].align))
    && (forall f :: 0 <= f < |sd.fields| ==>
          sd.fields[f] < |sd.members| && IsField(sd.members[sd.fields[f]]))
    && (forall f, g :: 0 <= f < g < |sd.fields| ==> sd.fields[f] != sd.fields[g])
    && (sd.scope.Some? ==> ValidAlignment(sd.scope.value))
    && (sd.nested ==> HasContextPointer(sd))
  }

  /** A nested aggregate carries the hidden context pointer as its last
      member: an instance field of pointer (basic) type. */
  predicate HasContextPointer(sd: StructDecl)
  {
    |sd.members| > 0
    && var v := sd.members[|sd.members| - 1];
    IsField(v) && !v.isRef && v.ty.Basic?
  }

  /** A declaration's recorded alignment is a power of two, or it is still
      empty; once its size is done it is a power of two. */
  predicate AlignInv(sd: StructDecl)
  {
    (IsPow2(sd.alignsize) || (sd.alignsize == 0 && sd.structsize == 0))
    && (sd.sizeok == SizeOkDone ==> IsPow2(sd.alignsize))
  }

  /** The whole table is well formed. */
  predicate WellFormed(decls: seq<StructDecl>)
  {
    forall i {:trigger WellFormedDecl(|decls|, decls[i])} {:trigger AlignInv(decls[i])} ::
      0 <= i < |decls| ==> WellFormedDecl(|decls|, decls[i]) && AlignInv(decls[i])
  }

  /** `Module::addDeferredSemantic` as both front ends use it: queue the
      declaration unless it is queued already. */
  function Defer(deferred: seq<nat>, i: nat): (r: seq<nat>)
    ensures i in r && multiset(deferred) <= multiset(r)
    ensures i in deferred ==> r == deferred
    ensures i !in deferred ==> r == deferred + [i]
  {
    if i in deferred then deferred else deferred + [i]
  }
}
