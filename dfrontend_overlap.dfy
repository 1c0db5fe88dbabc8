/** `checkOverlappedFields` of the 2014 front end: a pairwise scan over the
    fields that marks every field sharing storage with another one as
    `overlapped` and reports two kinds of illegal overlap. */
module DfrontendOverlap {
  import opened DfrontendTypes

  /** A nested aggregate has its hidden context pointer among the fields. */
  predicate FieldCountOk(sd: StructDecl)
  {
    sd.nested ==> |sd.fields| > 0
  }

  /** `fields.dim - isNested()`: the fields that take part in the overlap
      and initialisation checks; the hidden context pointer does not. */
  function NFields(sd: StructDecl): (n: nat)
    requires FieldCountOk(sd)
    ensures n <= |sd.fields| && (sd.nested ==> n == |sd.fields| - 1)
  {
    |sd.fields| - (if sd.nested then 1 else 0)
  }

  /** What the scan needs of the declaration: well formed, with its context
      pointer placed, and laid out (`sizeok == SIZEOKdone`). */
  predicate ScanOk(decls: seq<StructDecl>, sd: StructDecl)
  {
    WellFormedDecl(|decls|, sd) && FieldCountOk(sd) && sd.sizeok == SizeOkDone
  }

  /** The variable declaration of field `f`. */
  function FieldVar(sd: StructDecl, f: nat): VarDecl
    requires f < |sd.fields| && sd.fields[f] < |sd.members|
  {
    sd.members[sd.fields[f]]
  }

  /** `isOverlappedWith` between fields `f` and `g`. */
  predicate FieldsOverlap(decls: seq<StructDecl>, sd: StructDecl, f: nat, g: nat)
    requires f < |sd.fields| && sd.fields[f] < |sd.members|
    requires g < |sd.fields| && sd.fields[g] < |sd.members|
  {
    Overlap(decls, sd, sd.fields[f], sd.fields[g])
  }

  /** The element type of `v` is a struct with a destructor, an invariant or
      a postblit. */
  predicate HasSpecial(decls: seq<StructDecl>, v: VarDecl)
  {
    var b := BaseElem(v.ty);
    b.Struct? && b.sym < |decls| && (decls[b.sym].dtor || decls[b.sym].inv || decls[b.sym].postblit)
  }

  /** A pair of overlapping fields the scan rejects: one side has special
      members, or both have a (non-void) initialiser expression. */
  predicate BadPair(decls: seq<StructDecl>, sd: StructDecl, f: nat, g: nat)
    requires f < |sd.fields| && sd.fields[f] < |sd.members|
    requires g < |sd.fields| && sd.fields[g] < |sd.members|
  {
    HasSpecial(decls, FieldVar(sd, f)) || HasSpecial(decls, FieldVar(sd, g))
    || (FieldVar(sd, f).init.ExpInit? && FieldVar(sd, g).init.ExpInit?)
  }

  /** The scan's state: the members with their `overlapped` flags, the error
      flag and the diagnostics so far. */
  datatype ScanState = ScanState(members: seq<VarDecl>, errors: bool, diags: seq<Diag>)

  /** The inner loop's body for fields `i` and `j`. */
  function PairStep(decls: seq<StructDecl>, self: nat, sd: StructDecl, i: nat, j: nat, s: ScanState): (r: ScanState)
    requires ScanOk(decls, sd) && i < NFields(sd) && j < NFields(sd) && |s.members| == |sd.members|
    ensures |r.members| == |sd.members|
  {
    if i == j || !FieldsOverlap(decls, sd, i, j) then s
    else
      var vd, v2 := FieldVar(sd, i), FieldVar(sd, j);
      var s1 :=
        if !s.errors && (HasSpecial(decls, vd) || HasSpecial(decls, v2))
        then s.(errors := true, diags := s.diags + [OverlapSpecialMember(self, sd.fields[i], sd.fields[j])])
        else s;
      var k := sd.fields[i];
      var s2 := s1.(members := s1.members[k := s1.members[k].(overlapped := true)]);
      if vd.init.ExpInit? && v2.init.ExpInit?
      then s2.(errors := true, diags := s2.diags + [OverlapDefaultInit(self, sd.fields[j], sd.fields[i])])
      else s2
  }

  /** The state after the inner loop has visited fields `0 .. j - 1` for field `i`. */
  function RowScan(decls: seq<StructDecl>, self: nat, sd: StructDecl, i: nat, j: nat, s: ScanState): (r: ScanState)
    requires ScanOk(decls, sd) && i < NFields(sd) && j <= NFields(sd) && |s.members| == |sd.members|
    ensures |r.members| == |sd.members|
    decreases j
  {
    if j == 0 then s
    else PairStep(decls, self, sd, i, j - 1, RowScan(decls, self, sd, i, j - 1, s))
  }

  /** The state after the outer loop has visited fields `0 .. i - 1`. */
  function Scan(decls: seq<StructDecl>, self: nat, sd: StructDecl, i: nat): (r: ScanState)
    requires ScanOk(decls, sd) && i <= NFields(sd)
    ensures |r.members| == |sd.members|
    decreases i
  {
    if i == 0 then ScanState(sd.members, false, [])
    else RowScan(decls, self, sd, i - 1, NFields(sd), Scan(decls, self, sd, i - 1))
  }

  /** The overlap scan reports only overlap errors, never what `size()` reports. */
  lemma {:induction false} RowScanNoSizeReports(decls: seq<StructDecl>, self: nat, sd: StructDecl, i: nat, j: nat,
                                                s: ScanState)
    requires ScanOk(decls, sd) && i < NFields(sd) && j <= NFields(sd) && |s.members| == |sd.members|
    requires NoSizeReports(s.diags)
    ensures NoSizeReports(RowScan(decls, self, sd, i, j, s).diags)
    decreases j
  {
    if j > 0 {
      RowScanNoSizeReports(decls, self, sd, i, j - 1, s);
    }
  }

  lemma {:induction false} ScanNoSizeReports(decls: seq<StructDecl>, self: nat, sd: StructDecl, i: nat)
    requires ScanOk(decls, sd) && i <= NFields(sd)
    ensures NoSizeReports(Scan(decls, self, sd, i).diags)
    decreases i
  {
    if i > 0 {
      ScanNoSizeReports(decls, self, sd, i - 1);
      RowScanNoSizeReports(decls, self, sd, i - 1, NFields(sd), Scan(decls, self, sd, i - 1));
    }
  }

  /** `checkOverlappedFields`: returns the members with their new
      `overlapped` flags, whether an error was found, and the diagnostics. */
  method CheckOverlappedFields(decls: seq<StructDecl>, self: nat, sd: StructDecl)
    returns (members: seq<VarDecl>, errors: bool, diags: seq<Diag>)
    requires ScanOk(decls, sd)
    ensures ScanState(members, errors, diags) == Scan(decls, self, sd, NFields(sd))
  {
    var nfields := |sd.fields|;
    if sd.nested {
      nfields := nfields - 1;
    }
    members, errors, diags := sd.members, false, [];
    var i := 0;
    while i < nfields
      invariant 0 <= i <= nfields == NFields(sd)
      invariant ScanState(members, errors, diags) == Scan(decls, self, sd, i)
    {
      var vd := sd.members[sd.fields[i]];
      ghost var row := ScanState(members, errors, diags);
      var j := 0;
      while j < nfields
        invariant 0 <= j <= nfields
        invariant ScanState(members, errors, diags) == RowScan(decls, self, sd, i, j, row)
      {
        if i != j {
          var v2 := sd.members[sd.fields[j]];
          if Overlap(decls, sd, sd.fields[i], sd.fields[j]) {
            // the two-element loop over `vd` and `v2`, stopped by the first error
            if !errors && (HasSpecial(decls, vd) || HasSpecial(decls, v2)) {
              diags := diags + [OverlapSpecialMember(self, sd.fields[i], sd.fields[j])];
              errors := true;
            }
            var k := sd.fields[i];
            members := members[k := members[k].(overlapped := true)];
            if vd.init != VoidInit && v2.init != VoidInit && vd.init.ExpInit? && v2.init.ExpInit? {
              diags := diags + [OverlapDefaultInit(self, sd.fields[j], sd.fields[i])];
              errors := true;
            }
          }
        }
        j := j + 1;
      }
      i := i + 1;
    }
  }

  /** Field `i` shares storage with one of the fields `0 .. j - 1` other than itself. */
  predicate RowHit(decls: seq<StructDecl>, sd: StructDecl, i: nat, j: nat)
    requires ScanOk(decls, sd) && i < NFields(sd) && j <= NFields(sd)
  {
    exists g :: 0 <= g < j && g != i && FieldsOverlap(decls, sd, i, g)
  }

  /** Member `k` is field `f` for some `f < i` that overlaps another field. */
  predicate MarkedBefore(decls: seq<StructDecl>, sd: StructDecl, i: nat, k: nat)
    requires ScanOk(decls, sd) && i <= NFields(sd)
  {
    exists f :: 0 <= f < i && sd.fields[f] == k && RowHit(decls, sd, f, NFields(sd))
  }

  /** Member `k` after the flag of member `target` was set if `hit`. */
  function MarkIf(s: seq<VarDecl>, k: nat, target: nat, hit: bool): VarDecl
    requires k < |s|
  {
    if k == target && hit then s[k].(overlapped := true) else s[k]
  }

  lemma PairStepMarks(decls: seq<StructDecl>, self: nat, sd: StructDecl, i: nat, j: nat, s: ScanState)
    requires ScanOk(decls, sd) && i < NFields(sd) && j < NFields(sd) && |s.members| == |sd.members|
    ensures var r := PairStep(decls, self, sd, i, j, s);
      forall k :: 0 <= k < |sd.members| ==>
        r.members[k] == MarkIf(s.members, k, sd.fields[i], j != i && FieldsOverlap(decls, sd, i, j))
  {
  }

  lemma {:induction false} RowScanMarks(decls: seq<StructDecl>, self: nat, sd: StructDecl, i: nat, j: nat, s: ScanState)
    requires ScanOk(decls, sd) && i < NFields(sd) && j <= NFields(sd) && |s.members| == |sd.members|
    ensures var r := RowScan(decls, self, sd, i, j, s);
      forall k :: 0 <= k < |sd.members| ==>
        r.members[k] == MarkIf(s.members, k, sd.fields[i], RowHit(decls, sd, i, j))
    decreases j
  {
    if j > 0 {
      var r' := RowScan(decls, self, sd, i, j - 1, s);
      RowScanMarks(decls, self, sd, i, j - 1, s);
      PairStepMarks(decls, self, sd, i, j - 1, r');
      var hit := j - 1 != i && FieldsOverlap(decls, sd, i, j - 1);
      assert RowHit(decls, sd, i, j) == (RowHit(decls, sd, i, j - 1) || hit) by {
        if RowHit(decls, sd, i, j) && !RowHit(decls, sd, i, j - 1) {
          var g :| 0 <= g < j && g != i && FieldsOverlap(decls, sd, i, g);
          assert g == j - 1;
        }
        if hit {
          assert RowHit(decls, sd, i, j);
        }
      }
      var r := RowScan(decls, self, sd, i, j, s);
      assert r == PairStep(decls, self, sd, i, j - 1, r');
      forall k | 0 <= k < |sd.members|
        ensures r.members[k] == MarkIf(s.members, k, sd.fields[i], RowHit(decls, sd, i, j))
      {
        assert r.members[k] == MarkIf(r'.members, k, sd.fields[i], hit);
        assert r'.members[k] == MarkIf(s.members, k, sd.fields[i], RowHit(decls, sd, i, j - 1));
      }
    }
  }

  /** Member `v` with its flag raised if `b`. */
  function Flagged(v: VarDecl, b: bool): VarDecl
  {
    v.(overlapped := v.overlapped || b)
  }

  lemma MarkedBeforeStep(decls: seq<StructDecl>, sd: StructDecl, i: nat, k: nat)
    requires ScanOk(decls, sd) && 0 < i <= NFields(sd)
    ensures MarkedBefore(decls, sd, i, k) ==
            (MarkedBefore(decls, sd, i - 1, k) || (k == sd.fields[i - 1] && RowHit(decls, sd, i - 1, NFields(sd))))
  {
    if MarkedBefore(decls, sd, i, k) && !MarkedBefore(decls, sd, i - 1, k) {
      var f :| 0 <= f < i && sd.fields[f] == k && RowHit(decls, sd, f, NFields(sd));
      assert f == i - 1;
    }
    if k == sd.fields[i - 1] && RowHit(decls, sd, i - 1, NFields(sd)) {
      assert MarkedBefore(decls, sd, i, k);
    }
  }

  lemma {:induction false} ScanMarks(decls: seq<StructDecl>, self: nat, sd: StructDecl, i: nat)
    requires ScanOk(decls, sd) && i <= NFields(sd)
    ensures var r := Scan(decls, self, sd, i);
      forall k :: 0 <= k < |sd.members| ==> r.members[k] == Flagged(sd.members[k], MarkedBefore(decls, sd, i, k))
    decreases i
  {
    if i > 0 {
      var n := NFields(sd);
      var s := Scan(decls, self, sd, i - 1);
      var r := Scan(decls, self, sd, i);
      assert r == RowScan(decls, self, sd, i - 1, n, s);
      ScanMarks(decls, self, sd, i - 1);
      RowScanMarks(decls, self, sd, i - 1, n, s);
      forall k | 0 <= k < |sd.members|
        ensures r.members[k] == Flagged(sd.members[k], MarkedBefore(decls, sd, i, k))
      {
        MarkedBeforeStep(decls, sd, i, k);
        assert r.members[k] == MarkIf(s.members, k, sd.fields[i - 1], RowHit(decls, sd, i - 1, n));
        assert s.members[k] == Flagged(sd.members[k], MarkedBefore(decls, sd, i - 1, k));
      }
    }
  }

  /** The scan sets `overlapped` on exactly the checked fields that share
      storage with another checked field, never clears a flag, and changes
      nothing else about the members. */
  lemma CheckOverlappedFieldsMarks(decls: seq<StructDecl>, self: nat, sd: StructDecl)
    requires ScanOk(decls, sd)
    ensures var r := Scan(decls, self, sd, NFields(sd));
      && (forall k :: 0 <= k < |sd.members| ==>
            r.members[k] == sd.members[k].(overlapped := r.members[k].overlapped))
      && (forall k :: 0 <= k < |sd.members| && sd.members[k].overlapped ==> r.members[k].overlapped)
      && (forall f :: 0 <= f < NFields(sd) ==>
            (r.members[sd.fields[f]].overlapped <==>
               sd.members[sd.fields[f]].overlapped
               || exists g :: 0 <= g < NFields(sd) && g != f && FieldsOverlap(decls, sd, f, g)))
  {
    var n := NFields(sd);
    ScanMarks(decls, self, sd, n);
    var r := Scan(decls, self, sd, n);
    forall f | 0 <= f < n
      ensures MarkedBefore(decls, sd, n, sd.fields[f]) == RowHit(decls, sd, f, n)
    {
      if MarkedBefore(decls, sd, n, sd.fields[f]) {
        var f' :| 0 <= f' < n && sd.fields[f'] == sd.fields[f] && RowHit(decls, sd, f', n);
        assert f' == f;
      }
    }
  }

  /** Field `i` shares storage with one of the fields `0 .. j - 1` other
      than itself, in a way the scan rejects. */
  predicate RowBad(decls: seq<StructDecl>, sd: StructDecl, i: nat, j: nat)
    requires ScanOk(decls, sd) && i < NFields(sd) && j <= NFields(sd)
  {
    exists g :: 0 <= g < j && g != i && FieldsOverlap(decls, sd, i, g) && BadPair(decls, sd, i, g)
  }

  lemma PairStepErrors(decls: seq<StructDecl>, self: nat, sd: StructDecl, i: nat, j: nat, s: ScanState)
    requires ScanOk(decls, sd) && i < NFields(sd) && j < NFields(sd) && |s.members| == |sd.members|
    requires s.errors == (|s.diags| > 0)
    ensures var r := PairStep(decls, self, sd, i, j, s);
      && r.errors == (s.errors || (j != i && FieldsOverlap(decls, sd, i, j) && BadPair(decls, sd, i, j)))
      && r.errors == (|r.diags| > 0)
  {
  }

  lemma {:induction false} RowScanErrors(decls: seq<StructDecl>, self: nat, sd: StructDecl, i: nat, j: nat, s: ScanState)
    requires ScanOk(decls, sd) && i < NFields(sd) && j <= NFields(sd) && |s.members| == |sd.members|
    requires s.errors == (|s.diags| > 0)
    ensures var r := RowScan(decls, self, sd, i, j, s);
      r.errors == (s.errors || RowBad(decls, sd, i, j)) && r.errors == (|r.diags| > 0)
    decreases j
  {
    if j > 0 {
      var r' := RowScan(decls, self, sd, i, j - 1, s);
      RowScanErrors(decls, self, sd, i, j - 1, s);
      PairStepErrors(decls, self, sd, i, j - 1, r');
      var bad := j - 1 != i && FieldsOverlap(decls, sd, i, j - 1) && BadPair(decls, sd, i, j - 1);
      assert RowBad(decls, sd, i, j) == (RowBad(decls, sd, i, j - 1) || bad) by {
        if RowBad(decls, sd, i, j) && !RowBad(decls, sd, i, j - 1) {
          var g :| 0 <= g < j && g != i && FieldsOverlap(decls, sd, i, g) && BadPair(decls, sd, i, g);
          assert g == j - 1;
        }
        if bad {
          assert RowBad(decls, sd, i, j);
        }
      }
    }
  }

  /** One of the fields `0 .. i - 1` is in a pair the scan rejects. */
  predicate AnyBadBefore(decls: seq<StructDecl>, sd: StructDecl, i: nat)
    requires ScanOk(decls, sd) && i <= NFields(sd)
  {
    exists f :: 0 <= f < i && RowBad(decls, sd, f, NFields(sd))
  }

  lemma AnyBadBeforeStep(decls: seq<StructDecl>, sd: StructDecl, i: nat)
    requires ScanOk(decls, sd) && 0 < i <= NFields(sd)
    ensures AnyBadBefore(decls, sd, i) == (AnyBadBefore(decls, sd, i - 1) || RowBad(decls, sd, i - 1, NFields(sd)))
  {
    var n := NFields(sd);
    if RowBad(decls, sd, i - 1, n) {
      assert AnyBadBefore(decls, sd, i);
    }
    if AnyBadBefore(decls, sd, i) {
      var f :| 0 <= f < i && RowBad(decls, sd, f, n);
      if f < i - 1 {
        assert AnyBadBefore(decls, sd, i - 1);
      }
    }
  }

  lemma {:induction false} ScanErrors(decls: seq<StructDecl>, self: nat, sd: StructDecl, i: nat)
    requires ScanOk(decls, sd) && i <= NFields(sd)
    ensures var r := Scan(decls, self, sd, i);
      r.errors == AnyBadBefore(decls, sd, i) && r.errors == (|r.diags| > 0)
    decreases i
  {
    if i > 0 {
      ScanErrors(decls, self, sd, i - 1);
      RowScanErrors(decls, self, sd, i - 1, NFields(sd), Scan(decls, self, sd, i - 1));
      AnyBadBeforeStep(decls, sd, i);
    }
  }

  /** The scan reports an error, and then at least one diagnostic, exactly
      when two distinct checked fields share storage and one of them has a
      struct type with a destructor, postblit or invariant, or both have an
      initialiser expression. */
  lemma CheckOverlappedFieldsErrors(decls: seq<StructDecl>, self: nat, sd: StructDecl)
    requires ScanOk(decls, sd)
    ensures var r := Scan(decls, self, sd, NFields(sd));
      && (r.errors <==> exists f, g :: 0 <= f < NFields(sd) && 0 <= g < NFields(sd) && f != g
                                      && FieldsOverlap(decls, sd, f, g) && BadPair(decls, sd, f, g))
      && (r.errors <==> |r.diags| > 0)
  {
    var n := NFields(sd);
    ScanErrors(decls, self, sd, n);
    if exists f, g :: 0 <= f < n && 0 <= g < n && f != g && FieldsOverlap(decls, sd, f, g) && BadPair(decls, sd, f, g) {
      var f, g :| 0 <= f < n && 0 <= g < n && f != g && FieldsOverlap(decls, sd, f, g) && BadPair(decls, sd, f, g);
      assert RowBad(decls, sd, f, n);
    }
  }
}
