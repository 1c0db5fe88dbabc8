# Struct and union layout in the D front end

This project models how the D compiler front end lays out struct and union
declarations and resolves their sizes. It covers two generations of the same code:

- `gcc/d/dfrontend/struct.c`, the 2014 front end shipped with GDC;
- `d/dmd2/struct.c`, the 2010 front end.

Both files assign each field an offset within the aggregate. A member is aligned
either to its own alignment or to the `align(n)` in effect. Offsets advance for a
struct and stay at 0 for a union. The aggregate's size is the largest field end,
rounded up to its alignment, and an empty aggregate gets size 1. When a field's
type is a struct whose layout is not known yet, the layout is abandoned. The
declaration then goes onto the module's deferred-semantic queue, and progress
(`Module::dprogress`) is left as it was on entry.

The 2014 file also covers the following:

- `size()` first runs a saved semantic, then lays out when every field is done,
  and finally reports "unknown size" or "no size yet for forward reference";
- `checkOverlappedFields` marks fields that share storage and reports
  overlapping destructors, postblits and invariants, and overlapping default
  initialisers;
- `fill` pads a struct literal with default initialisers, one per group of
  overlapping fields;
- `fit` checks a struct literal's explicit elements against the fields;
- `isPOD` is recursive and caches its answer per declaration.

The model keeps every declaration of a compilation in an indexed table. A
`Struct(j)` type names entry `j`, and a declaration's `fields` are indices into its
`members`. The compiler state is the source's globals plus the table:

- the table;
- `Module::dprogress`;
- the deferred queue;
- the diagnostics.

Each file has a `Compilation` class holding this state. Its methods `Semantic` and
`Size` update it in place. The `isPOD` cache is also a field of the class, and
`IsPOD` updates it there. Each layout loop is a method with loop invariants,
proved against a specification function over the same state. The properties the
source promises are then proved about those functions.

C's mask rounding `(x + a - 1) & ~(a - 1)` is modelled bit for bit (`Bits.AndNot`).
For a power of two `a` it is proved equal to rounding up by division, on every input.
For every other positive `a`, `Bits.MaskNeedsPow2` proves that rounding 1 up gives a
value strictly between 0 and `a`, which is not a multiple of `a`. So the mask
rounds correctly exactly when `a` is a power of two.

Modules, one per file:

- `Bits`: C bit operations and rounding.
- `DfrontendTypes`: entities of both front ends — types, members, declarations and
  diagnostics — plus the deferred queue.
- `DfrontendLayout`: `alignmember` and `placeField`.
- `DfrontendFields`: the member loop of `finalizeSize`, with `setFieldOffset` per member.
- `DfrontendOverlap`: `checkOverlappedFields`.
- `DfrontendFinalize`: `finalizeSize`.
- `DfrontendSemantic`: `semantic`, `size` and `isPOD`, plus the `Compilation` class.
- `DfrontendInit`: `fill` and `fit`.
- `Dmd2Struct`: the 2010 file — `alignmember`, `addField`, `semantic`, `size` and its own `Compilation` class.

## Model

| member | source | states |
|---|---|---|
| Bits.MaskRoundUpIsRoundUp | gcc/d/dfrontend/struct.c:1160-1164 | For a power-of-two `a`, the mask `(x + a - 1) & ~(a - 1)` gives the least multiple of `a` that is at least `x`. |
| Bits.MaskRoundUpEqRoundUp | gcc/d/dfrontend/struct.c:1160-1164 | For a power of two, the mask rounding equals rounding up by division, on every input. |
| Bits.MaskRoundUpOfMultiple | gcc/d/dfrontend/struct.c:681 | Rounding a multiple of a power of two leaves it unchanged. |
| Bits.MaskNeedsPow2 | gcc/d/dfrontend/struct.c:686 | For every positive `a` that is not a power of two, the mask rounds 1 to a value strictly between 0 and `a`, so not to a multiple of `a`. This is why `alignmember` asserts a power of two. |
| Bits.Pow2TestCorrect | gcc/d/dfrontend/struct.c:680 | The C test `n > 0 && !(n & (n - 1))` holds exactly for the positive powers of two. |
| Bits.RoundUpUnique | gcc/d/dfrontend/struct.c:1160-1164 | There is only one least multiple of `a` at or above `x`. |
| DfrontendLayout.AlignMember | gcc/d/dfrontend/struct.c:665-690 | `alignmember` returns the least multiple of the boundary at or above the offset. The boundary is 1 for `align(1)`, the member's own alignment by default, and the explicit alignment otherwise. |
| DfrontendLayout.AlignedOffsetIsRoundUp | gcc/d/dfrontend/struct.c:671-689 | The aligned offset equals rounding the offset up by division to the boundary. |
| DfrontendLayout.AlignOneUnchanged | gcc/d/dfrontend/struct.c:673-675 | `align(1)` never moves a member. |
| DfrontendLayout.AlignedOffsetOfAligned | gcc/d/dfrontend/struct.c:665-690 | An offset already on the boundary is kept. |
| DfrontendLayout.PlaceField | gcc/d/dfrontend/struct.c:705-741 | `placeField` returns the member offset, the next offset, the aggregate size and the aggregate alignment of `Place`. |
| DfrontendLayout.PlaceMeaning | gcc/d/dfrontend/struct.c:715-738 | The member goes on the boundary, at or after the next offset. The size grows to cover the member end and never shrinks. A union keeps the next offset, while a struct moves it to the member end. The alignment never shrinks. |
| DfrontendLayout.ContributionBounds | gcc/d/dfrontend/struct.c:724-735 | With the default alignment, a member adds its own alignment capped at 8, except a 16-byte one on 64-bit targets. An explicit alignment adds at least itself and at least the member's alignment. The result is always a power of two. |
| DfrontendLayout.PlaceKeepsPow2 | gcc/d/dfrontend/struct.c:737-738 | The aggregate alignment stays a power of two. |
| DfrontendFields.StepFacts | gcc/d/dfrontend/struct.c:1143-1147 | One `setFieldOffset` step either changes nothing, or places member `k` through `placeField` and appends it to the fields exactly once. |
| DfrontendFields.LayoutKeepsFields | gcc/d/dfrontend/struct.c:1143-1147 | The member loop only appends distinct field indices to the fields already there. |
| DfrontendFields.LayoutKeepsAlign | gcc/d/dfrontend/struct.c:1143-1147 | After the member loop the alignment is a power of two, or both alignment and size are still 0. |
| DfrontendFields.UnionFieldsAtZero | gcc/d/dfrontend/struct.c:1142-1147 | In a union every field is placed at offset 0, and its size fits within the union's size. |
| DfrontendFields.StructFieldsDisjoint | gcc/d/dfrontend/struct.c:1142-1147 | In a struct the fields follow each other in member order without overlapping, and each ends within the size. |
| DfrontendFields.BasicFieldPlaced | gcc/d/dfrontend/struct.c:1143-1147 | An instance field of basic type is always placed. |
| DfrontendOverlap.CheckOverlappedFields | gcc/d/dfrontend/struct.c:440-503 | The double loop of `checkOverlappedFields` computes the marks, error flag and diagnostics of `Scan`. |
| DfrontendOverlap.CheckOverlappedFieldsMarks | gcc/d/dfrontend/struct.c:454-488 | A field is marked overlapped exactly when it was marked already or shares storage with another field (the context pointer is excluded). Nothing else in the members changes. |
| DfrontendOverlap.CheckOverlappedFieldsErrors | gcc/d/dfrontend/struct.c:472-499 | The result is true exactly when, of two overlapping fields, one has a struct type with a destructor, postblit or invariant, or both have an initialiser expression. It is true exactly when a diagnostic was reported. |
| DfrontendFinalize.FinalizeSizeOf | gcc/d/dfrontend/struct.c:1134-1192 | `finalizeSize` computes `FinalizeSpec`, the declaration and the diagnostics it adds. |
| DfrontendFinalize.LayOutMembers | gcc/d/dfrontend/struct.c:1140-1147 | The member loop computes `LaidOut`. |
| DfrontendFinalize.SetFieldOffset | gcc/d/dfrontend/struct.c:1146 | One member's `setFieldOffset` computes `FieldOffsetStep`. |
| DfrontendFinalize.RoundSize | gcc/d/dfrontend/struct.c:1151-1166 | The rounding block computes `Sized`. |
| DfrontendFinalize.ComputeZeroInit | gcc/d/dfrontend/struct.c:1171-1192 | The zero-initialisation loop computes whether every non-static field has no initialiser and a zero-initialised type. |
| DfrontendFinalize.FinalizeOnlyFromNone | gcc/d/dfrontend/struct.c:1137-1138 | A declaration not in state `SIZEOKnone` is left untouched. |
| DfrontendFinalize.FinalizeKeepsHeader | gcc/d/dfrontend/struct.c:1134-1192 | Only layout state changes, and `sizeok` changes exactly when it was `SIZEOKnone`. |
| DfrontendFinalize.FinalizeWritesLayout | gcc/d/dfrontend/struct.c:1140-1147 | The declaration carries the fields and offsets of the member loop. |
| DfrontendFinalize.FinalizeForward | gcc/d/dfrontend/struct.c:1148-1149 | On a forward reference the size stays as laid out, without rounding, and `sizeok` is `SIZEOKfwd`. |
| DfrontendFinalize.FinalizeRounds | gcc/d/dfrontend/struct.c:1151-1166 | A layout of size 0 becomes size 1 with alignment 1. The size is the least multiple, at or above the laid-out size, of the explicit alignment or otherwise of the alignment. It is at least 1 and `sizeok` is `SIZEOKdone`. |
| DfrontendFinalize.FinalizeCoversLayout | gcc/d/dfrontend/struct.c:1151-1166 | The final size is never below the laid-out size. |
| DfrontendFinalize.FinalizeUnionAtZero | gcc/d/dfrontend/struct.c:1142-1166 | After `finalizeSize` every union field is at offset 0 and fits in the union's size. |
| DfrontendFinalize.FinalizeStructInOrder | gcc/d/dfrontend/struct.c:1142-1166 | After `finalizeSize` struct fields are in order, do not overlap, and end within the size. |
| DfrontendFinalize.FinalizeKeepsWellFormed | gcc/d/dfrontend/struct.c:1134-1192 | The table stays well formed: a done declaration has a power-of-two alignment, and field indices stay valid and distinct. |
| DfrontendSemantic.SemanticRun | gcc/d/dfrontend/struct.c:869-1078 | The value-level `semantic` computes `SemanticSpec`. |
| DfrontendSemantic.LayoutRun | gcc/d/dfrontend/struct.c:924-1078 | A run that reaches the layout computes `RunSpec`. |
| DfrontendSemantic.ShortRun | gcc/d/dfrontend/struct.c:875-930 | The early returns compute `ShortSpec`. |
| DfrontendSemantic.FinalizeStepRun | gcc/d/dfrontend/struct.c:972-998 | `finalizeSize`, then the unwind or the progress step, computes `FinalizeStep`. |
| DfrontendSemantic.AfterSizeokRun | gcc/d/dfrontend/struct.c:1002-1078 | The part after `LafterSizeok` computes `AfterSizeok`. |
| DfrontendSemantic.UnwindDecl | gcc/d/dfrontend/struct.c:978-985 | The unwind resets field offsets to 0, empties the fields, and sets size and alignment to 0. |
| DfrontendSemantic.WaitingField | gcc/d/dfrontend/struct.c:1006-1024 | The loop finds whether a field's struct base element has not finished semantic. |
| DfrontendSemantic.MembersReady | gcc/d/dfrontend/struct.c:359-400 | The member scan of `size()` finds whether every instance field has finished semantic. |
| DfrontendSemantic.SemanticShortcut | gcc/d/dfrontend/struct.c:875-930 | A finished declaration is left as is. One whose members were added with no saved scope, and one without a body, become done without layout, progress, deferral or diagnostics. |
| DfrontendSemantic.SemanticOutcome | gcc/d/dfrontend/struct.c:924-1078 | A run changes only its own declaration and leaves `sizeok` set. It either finishes or is put off. Finishing means: sized, no field's struct pending, special members recorded, nothing queued, and progress counted once or twice. Being put off means: queued with the scope's alignment saved. After a forward reference the fields, size and alignment are emptied and progress is restored. |
| DfrontendSemantic.SemanticLocal | gcc/d/dfrontend/struct.c:869-1078 | `semantic` changes only declaration `i`. It only appends diagnostics, only grows the queue, and never lowers progress. |
| DfrontendSemantic.SemanticKeepsWellFormed | gcc/d/dfrontend/struct.c:869-1078 | `semantic` keeps the table well formed. |
| DfrontendSemantic.SemanticKeepsRanked | gcc/d/dfrontend/struct.c:972-998 | After `semantic`, every field's struct type was laid out before the declaration, so no struct contains itself by value. |
| DfrontendSemantic.FinalizeKeepsRanked | gcc/d/dfrontend/struct.c:1134-1166 | A fresh layout keeps that order, with the new declaration ranked last. |
| DfrontendSemantic.SemanticKeepsTable | gcc/d/dfrontend/struct.c:869-1078 | `semantic` preserves the class invariant of the compilation's table. |
| DfrontendSemantic.FinalizeKeepsTable | gcc/d/dfrontend/struct.c:1134-1192 | `finalizeSize` preserves the class invariant of the compilation's table. |
| DfrontendSemantic.SizeReports | gcc/d/dfrontend/struct.c:345-416 | `size` changes only declaration `i` and returns its recorded size. It ends with "unknown size" when there is no body, or with "no size yet" when layout is not done. On a declaration already done with a body it changes nothing. Of the diagnostics `size` adds, "unknown size" is among them exactly when there is no body, and "no size yet" exactly when there is a body but layout is not done. Only the last diagnostic added can be one of these two reports. |
| DfrontendSemantic.PodSpecMeaning | gcc/d/dfrontend/struct.c:1316-1351 | A struct is POD exactly when it is not nested, has no postblit and no destructor, and no field is `ref` or has a non-POD struct base element. |
| DfrontendSemantic.PodCacheSound | gcc/d/dfrontend/struct.c:1319-1320 | With a sound cache, the cached answer of `isPOD` is the POD answer. |
| DfrontendSemantic.CacheGrowsSound | gcc/d/dfrontend/struct.c:1322-1350 | What one `isPOD` call writes into the caches keeps them sound. |
| DfrontendSemantic.PodValueAgrees | gcc/d/dfrontend/struct.c:1337-1346 | Answers filled in by the recursive calls do not change any other answer. |
| DfrontendSemantic.Compilation.IsPOD | gcc/d/dfrontend/struct.c:1316-1351 | `isPOD` returns the answer given the cache on entry and stores it. A cached answer is returned without writing anything. Otherwise only entries of this declaration and of struct types below it are filled. |
| DfrontendSemantic.Compilation.Semantic | gcc/d/dfrontend/struct.c:869-1078 | The compilation state afterwards is `SemanticSpec` of the state before, and the table invariant holds. |
| DfrontendSemantic.Compilation.Size | gcc/d/dfrontend/struct.c:345-416 | The state afterwards and the returned size are `SizeSpec` of the state before. |
| DfrontendSemantic.Compilation.FinalizeSize | gcc/d/dfrontend/struct.c:1134-1192 | The state afterwards is `finalizeSize` applied to declaration `i`. |
| DfrontendInit.Resize | gcc/d/dfrontend/struct.c:523-526 | The elements are cut or padded with nulls to the field count. |
| DfrontendInit.Fill | gcc/d/dfrontend/struct.c:515-655 | `fill` computes the elements of `FillScan`. It succeeds exactly when no overlap or missing-constructor error was found and no element is an error expression. |
| DfrontendInit.PickDefault | gcc/d/dfrontend/struct.c:534-600 | The inner loop computes the field chosen to supply a slot's default. |
| DfrontendInit.FillResult | gcc/d/dfrontend/struct.c:529-645 | Supplied elements are kept. An empty slot ends up empty or holding its own field's default, and a zero-sized field's slot stays empty. |
| DfrontendInit.FillWithoutOverlap | gcc/d/dfrontend/struct.c:529-655 | With no overlapping fields, each slot is the supplied element, nothing for a void field, or the field's default. Errors are exactly the fields lacking a default constructor outside constructor initialisation. |
| DfrontendInit.PickOwnField | gcc/d/dfrontend/struct.c:540-600 | Without overlaps the inner loop chooses the slot's own field. |
| DfrontendInit.PickChoosesEmpty | gcc/d/dfrontend/struct.c:541-600 | The field chosen for a default has no element yet. |
| DfrontendInit.FillShadowsSupplied | gcc/d/dfrontend/struct.c:541-553 | When no field is void-initialised, a field overlapping a supplied element gets no default. |
| DfrontendInit.FillVoidLeaksDefault | gcc/d/dfrontend/struct.c:534-566 | A union `{ int a; struct { short b; short c = void; } }` given only `b` still gets `a`'s default: the void field `c` hands its slot to `a`. |
| DfrontendInit.Fit | gcc/d/dfrontend/struct.c:1228-1306 | `fit` accepts a missing element list. Otherwise it returns the converted elements and whether `FitScan` failed. |
| DfrontendInit.FitAccepts | gcc/d/dfrontend/struct.c:1233-1305 | `fit` succeeds exactly when every element is admissible (an element past the fields is only the nested context's `null`) and the initialised fields come in increasing, non-overlapping order. On success every field element is replaced by its conversion and nothing else changes. |
| DfrontendInit.FitScanMeaning | gcc/d/dfrontend/struct.c:1235-1304 | After `m` elements, `fit` has failed exactly when the first `m` do not fit. Otherwise its offset is the end of the last initialised field. |
| DfrontendTypes.Defer | gcc/d/dfrontend/struct.c:991 | Queuing a declaration puts it in the queue once and keeps everything already there. |
| Dmd2Struct.AlignMember | d/dmd2/struct.c:148-163 | `alignmember` computes `AlignedTo` with the mask. |
| Dmd2Struct.AlignMemberMeaning | d/dmd2/struct.c:154-161 | A struct alignment of at most 1 leaves the offset unchanged. Otherwise the boundary is the member's alignment, capped at the struct alignment (or the struct alignment for size 0). For a power-of-two boundary the result is the least multiple at or above the offset. |
| Dmd2Struct.AlignedNotBelow | d/dmd2/struct.c:160 | The mask never moves an offset backwards, whatever the boundary. |
| Dmd2Struct.AlignedAtZero | d/dmd2/struct.c:160 | Offset 0 stays 0. |
| Dmd2Struct.AddField | d/dmd2/struct.c:166-218 | `addField` computes `AddFieldSpec`. |
| Dmd2Struct.AddFieldBailOut | d/dmd2/struct.c:181-200 | A field whose type is the struct itself is reported once. On an unsized struct or unresolved type, only `sizeok` becomes forward referenced and the offset stays. |
| Dmd2Struct.AddFieldPlaces | d/dmd2/struct.c:202-218 | Placement follows these rules. The offset never moves backwards, and it lands on the boundary when that boundary is a power of two and the struct alignment exceeds 1. The scope offset becomes the member end. The size grows to that end or stays. The alignment is the maximum of the old alignment and the member's alignment capped at the struct alignment. The field is appended and no other member changes. |
| Dmd2Struct.LayoutMembers | d/dmd2/struct.c:397-402 | The member loop, with the union's offset reset after each member, computes `LayoutSpec`. |
| Dmd2Struct.LayoutKeepsFrame | d/dmd2/struct.c:397-402 | The member loop changes only the declaration's layout state and only appends diagnostics. |
| Dmd2Struct.UnionFieldsAtZero | d/dmd2/struct.c:401-402 | In a union every field is placed at offset 0. |
| Dmd2Struct.StructFieldsInOrder | d/dmd2/struct.c:397-402 | In a struct that does not contain itself, fields follow in order without overlap and end within the size. |
| Dmd2Struct.ComputeZeroInit | d/dmd2/struct.c:556-578 | The loop finds whether every non-static field has no initialiser and a zero-initialised type. |
| Dmd2Struct.FinishRun | d/dmd2/struct.c:521-578 | The end of `semantic` computes `Finish`. |
| Dmd2Struct.FinishDefers | d/dmd2/struct.c:521-536 | On a forward reference the fields, size, alignment and struct alignment are emptied and the scope is saved. The declaration is queued and progress is as on entry. |
| Dmd2Struct.FinishSized | d/dmd2/struct.c:538-551 | Size 0 becomes size 1 with alignment 1. With a power-of-two alignment, the size is the least multiple at or above the laid-out size. Progress goes up by one. |
| Dmd2Struct.SemanticNoBody | d/dmd2/struct.c:271-272 | A declaration without a body is left untouched. |
| Dmd2Struct.SemanticCompleted | d/dmd2/struct.c:274-280 | A completed semantic only drops the saved scope. |
| Dmd2Struct.SemanticDefers | d/dmd2/struct.c:521-536 | A run that meets a forward reference leaves the declaration empty, forward referenced, with its scope saved and queued, and progress unchanged. |
| Dmd2Struct.SemanticSizes | d/dmd2/struct.c:538-551 | A successful run lays out, rounds the size and marks the declaration done. It drops the scope, counts one step of progress and queues nothing. |
| Dmd2Struct.SemanticZeroInit | d/dmd2/struct.c:556-578 | After a successful run the recorded `zeroInit` is the zero-initialisation of the final declaration. |
| Dmd2Struct.SemanticIdempotent | d/dmd2/struct.c:274-280 | Once a run has laid the declaration out, running `semantic` again changes nothing, whatever the scope. |
| Dmd2Struct.SemanticUnionAtZero | d/dmd2/struct.c:401-402 | After semantic every union field is at offset 0. |
| Dmd2Struct.SemanticStructInOrder | d/dmd2/struct.c:397-551 | After semantic, struct fields are in member order. With a power-of-two alignment they also do not overlap and end within the size. |
| Dmd2Struct.SizeReports | d/dmd2/struct.c:121-131 | `size` changes only the diagnostics and returns the recorded size. It reports "unknown size" exactly when there is no body, and "no size yet" exactly when layout is not done — both when both hold. |
| Dmd2Struct.Compilation.Semantic | d/dmd2/struct.c:262-578 | The compilation state afterwards is `SemanticSpec` of the state before. |
| Dmd2Struct.Compilation.Size | d/dmd2/struct.c:121-131 | The state afterwards and the returned size are `SizeSpec` of the state before. |

## Left out

- I/O, locations and message texts: diagnostics are values (`Diag`) naming the declaration and members.
- Unsigned 32-bit wrap-around of offsets and sizes is not modelled; integers are unbounded.
- Type semantic, `toBasetype`, enums and aliases are not modelled. A type is already resolved, or is `Unresolved`.
- `Type::memalign` is taken to be the scope's struct alignment (2010 file).
- `Type::size` diagnostics for a struct type whose own size is unknown belong to mtype.c, which is not part of this model.
- `setFieldOffset` lives in declaration.c, which is not part of this model. It is modelled after the 2010 `addField`:
  - non-fields are skipped;
  - a member already in `fields` is skipped;
  - a field of the struct's own type is reported and skipped;
  - an unsized struct or an unresolved type makes `sizeok` forward referenced;
  - otherwise the field is placed with `placeField`.

  It tests the struct base element under static arrays (`baseElemOf`).
- The semantic of members (`addMember`, `setScope`, `importAll`, `semantic` of each member) is modelled as marking every member's semantic as finished (2014 file). The 2010 file models only `addField` for instance fields.
- The hidden `this` member added for nested structs (`vthis`) and the "inner struct cannot be a field" error in the 2010 file are not modelled.
- The special member builders (`buildDtor`, `buildPostBlit`, `buildInv` and the others) are outside these files. Their outcome is a parameter of `semantic` (`Specials`), recorded when the run finishes.
- The search for `opCall`, `ctor`, `aggNew` and `aggDelete` and the constructor semantic in `finalizeSize` are not modelled: they are lookups in code that is not part of this model.
- `semantic2`, `semantic3`, TypeInfo generation, `toArgTypes`, gagging and the error-type fallback after errors are not modelled.
- The progress counter is restored after a deferred run. Progress made by nested semantic calls in between is not modelled, because member semantic is not run.
- `Module::addDeferredSemantic` is in module.c, which is not part of this model. It is modelled as appending the declaration to the queue unless it is queued already.
- A struct index outside the table counts as not laid out in the 2010 `addField` (`Dmd2Struct.Bails`).
- Dmd2Struct.SemanticStructInOrder: requires that the declaration enters with no fields, and that no member type mentions the struct itself by value, because then its partial size would change while its own fields are laid out.
- Dmd2Struct.SemanticZeroInit: requires that no member type mentions the struct itself by value, for the same reason.
- Dmd2Struct.SemanticUnionAtZero: requires that the declaration enters with no fields, as it does on its first run and after an unwind.
- DfrontendInit.FillShadowsSupplied: proved only when no field is void-initialised. With a void-initialised field the shadowing fails, as `DfrontendInit.FillVoidLeaksDefault` shows.
- DfrontendInit.Fit / DfrontendInit.FitAccepts: the conversion of an element to its field's type is opaque (`Converted(e, k)`). The implicit conversion or cast, the static-array element peel, the string-literal widening and `doCopyOrMove` are not modelled, and the conversion never fails. So `fit` fails only on the ordering and admissibility rules, or on an element that is already an error expression. An element that does not convert to its field's type is not a failure here, although it is one in the source.
- DfrontendInit.Fill: the default initialiser of a field is opaque (`DefaultInit(k)`). `getConstInitializer` and `defaultInitLiteral` are not modelled, and a default never fails. So the final error check of `fill` fails only on an element that was supplied as an error expression, never on a default that failed to build.
- DfrontendSemantic.Compilation.IsPOD: its contract gives the answer for the cache on entry. That it is the POD answer follows from `PodCacheSound`. The class does not keep the cache sound when `semantic` later changes a declaration, and neither does the source.
- Class methods state the new state with `old`. The properties are proved on the specification functions they compute.
- The DMDV1 parts, `search`, `toCBuffer`, `syntaxCopy`, `inlineScan` and class declarations are not modelled.
