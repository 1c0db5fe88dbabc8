/** Member alignment arithmetic of the 2014 front end: `alignmember` rounds an
    offset up under one of three policies and `placeField` places one member
    in a struct, union or class, growing the aggregate's size and alignment. */
module DfrontendLayout {
  import opened Bits
  import opened DfrontendTypes

  /** What `alignmember` asserts of its arguments: under the default policy
      the member's alignment requirement is a positive power of two, and an
      explicit alignment is one too (`align(1)` included). */
  predicate AlignArgsOk(alignment: Alignment, size: nat)
  {
    match alignment
    case AlignDefault => IsPow2(size)
    case AlignExplicit(n) => IsPow2(n)
  }

  /** The boundary an offset is rounded to: the member's own requirement under
      the default policy, the explicit alignment otherwise. */
  function Boundary(alignment: Alignment, size: nat): (b: nat)
    requires AlignArgsOk(alignment, size)
    ensures IsPow2(b) && b > 0
  {
    match alignment
    case AlignDefault => size
    case AlignExplicit(n) => n
  }

  /** Where a member with alignment requirement `size` is placed when the
      cursor is at `offset`: the offset rounded up with the mask
      `(offset + b - 1) & ~(b - 1)` for the boundary `b`. */
  function AlignedOffset(alignment: Alignment, size: nat, offset: nat): nat
    requires AlignArgsOk(alignment, size)
  {
    MaskRoundUp(offset, Boundary(alignment, size))
  }

  /** The aligned offset is the least multiple of the boundary that is not
      below the offset. */
  lemma AlignedOffsetIsRoundUp(alignment: Alignment, size: nat, offset: nat)
    requires AlignArgsOk(alignment, size)
    ensures AlignedOffset(alignment, size, offset) == RoundUp(offset, Boundary(alignment, size))
    ensures IsRoundUp(offset, Boundary(alignment, size), AlignedOffset(alignment, size, offset))
  {
    MaskRoundUpEqRoundUp(offset, Boundary(alignment, size));
  }

  /** `alignmember`: `align(1)` leaves the offset alone, the other policies
      apply the mask; the result is the least multiple of the boundary that
      is not below the offset. */
  method AlignMember(alignment: Alignment, size: nat, offset: nat) returns (r: nat)
    requires AlignArgsOk(alignment, size)
    ensures r == AlignedOffset(alignment, size, offset)
    ensures r % Boundary(alignment, size) == 0
    ensures offset <= r < offset + Boundary(alignment, size)
  {
    AlignedOffsetIsRoundUp(alignment, size, offset);
    r := offset;
    match alignment {
      case AlignExplicit(n) =>
        if n == 1 {
          // no alignment
          AndNotZero(offset);
        } else {
          r := MaskRoundUp(r, n);
        }
      case AlignDefault =>
        r := MaskRoundUp(r, size);
    }
  }

  function Max(a: nat, b: nat): nat
  {
    if a < b then b else a
  }

  /** The alignment a member contributes to its aggregate: under the default
      policy at most 8, except that a 16-byte requirement is kept on 64-bit
      targets; under an explicit alignment at least that alignment. */
  function Contribution(alignment: Alignment, memalignsize: nat, is64bit: bool): nat
  {
    match alignment
    case AlignDefault =>
      if is64bit && memalignsize == 16 then 16
      else if 8 < memalignsize then 8
      else memalignsize
    case AlignExplicit(n) => Max(memalignsize, n)
  }

  /** The outcome of placing one member: its offset and the updated cursor,
      aggregate size and aggregate alignment. */
  datatype Placement = Placement(offset: nat, nextoffset: nat, aggsize: nat, aggalignsize: nat)

  /** Specification of `placeField`. */
  function Place(nextoffset: nat, memsize: nat, memalignsize: nat, alignment: Alignment,
                 aggsize: nat, aggalignsize: nat, isunion: bool, is64bit: bool): Placement
    requires AlignArgsOk(alignment, memalignsize)
  {
    var offset := AlignedOffset(alignment, memalignsize, nextoffset);
    var end := offset + memsize;
    Placement(offset, if isunion then nextoffset else end, Max(aggsize, end),
              Max(aggalignsize, Contribution(alignment, memalignsize, is64bit)))
  }

  /** `placeField`: updates the cursor, the aggregate size and the aggregate
      alignment (the C out-pointers) and returns the member's offset. */
  method PlaceField(nextoffset: nat, memsize: nat, memalignsize: nat, alignment: Alignment,
                    aggsize: nat, aggalignsize: nat, isunion: bool, is64bit: bool)
    returns (memoffset: nat, nextoffset': nat, aggsize': nat, aggalignsize': nat)
    requires AlignArgsOk(alignment, memalignsize)
    ensures Placement(memoffset, nextoffset', aggsize', aggalignsize')
         == Place(nextoffset, memsize, memalignsize, alignment, aggsize, aggalignsize, isunion, is64bit)
  {
    var ofs := AlignMember(alignment, memalignsize, nextoffset);
    memoffset := ofs;
    ofs := ofs + memsize;
    aggsize' := aggsize;
    if ofs > aggsize' {
      aggsize' := ofs;
    }
    nextoffset' := nextoffset;
    if !isunion {
      nextoffset' := ofs;
    }
    var m := memalignsize;
    if alignment == AlignDefault {
      if is64bit && m == 16 {
      } else if 8 < m {
        m := 8;
      }
    } else {
      if m < alignment.n {
        m := alignment.n;
      }
    }
    aggalignsize' := aggalignsize;
    if aggalignsize' < m {
      aggalignsize' := m;
    }
  }

  /** With `align(1)` the offset is unchanged, whatever the member needs. */
  lemma AlignOneUnchanged(size: nat, offset: nat)
    ensures AlignArgsOk(AlignExplicit(1), size)
    ensures AlignedOffset(AlignExplicit(1), size, offset) == offset
  {
    AlignedOffsetIsRoundUp(AlignExplicit(1), size, offset);
  }

  /** An offset that is already on the boundary does not move. */
  lemma {:induction false} AlignedOffsetOfAligned(alignment: Alignment, size: nat, offset: nat)
    requires AlignArgsOk(alignment, size) && offset % Boundary(alignment, size) == 0
    ensures AlignedOffset(alignment, size, offset) == offset
  {
    var b := Boundary(alignment, size);
    assert IsRoundUp(offset, b, offset);
    AlignedOffsetIsRoundUp(alignment, size, offset);
    RoundUpUnique(offset, b, offset, AlignedOffset(alignment, size, offset));
  }

  /** The member lands at or after the cursor and on its boundary; the
      aggregate grows to cover it and never shrinks; a union keeps its cursor
      still so that every union member starts from the same offset; a struct
      moves the cursor just past the member. */
  lemma PlaceMeaning(nextoffset: nat, memsize: nat, memalignsize: nat, alignment: Alignment,
                     aggsize: nat, aggalignsize: nat, isunion: bool, is64bit: bool)
    requires AlignArgsOk(alignment, memalignsize)
    ensures var p := Place(nextoffset, memsize, memalignsize, alignment, aggsize, aggalignsize, isunion, is64bit);
      && nextoffset <= p.offset
      && p.offset % Boundary(alignment, memalignsize) == 0
      && aggsize <= p.aggsize && p.offset + memsize <= p.aggsize
      && (p.aggsize == aggsize || p.aggsize == p.offset + memsize)
      && (isunion ==> p.nextoffset == nextoffset)
      && (!isunion ==> p.nextoffset == p.offset + memsize)
      && aggalignsize <= p.aggalignsize
  {
    AlignedOffsetIsRoundUp(alignment, memalignsize, nextoffset);
  }

  /** The contribution rule: the default policy caps at 8 except for a
      16-byte requirement on 64-bit targets, an explicit alignment raises the
      contribution to at least itself, and powers of two stay powers of two. */
  lemma {:induction false} ContributionBounds(alignment: Alignment, memalignsize: nat, is64bit: bool)
    requires AlignArgsOk(alignment, memalignsize) && IsPow2(memalignsize)
    ensures var c := Contribution(alignment, memalignsize, is64bit);
      && IsPow2(c)
      && (alignment == AlignDefault ==>
            (if is64bit && memalignsize == 16 then c == 16 else c <= 8 && c <= memalignsize))
      && (alignment.AlignExplicit? ==> c >= alignment.n && c >= memalignsize)
  {
    var c := Contribution(alignment, memalignsize, is64bit);
    match alignment {
      case AlignDefault =>
        if !(is64bit && memalignsize == 16) && 8 < memalignsize {
          assert IsPow2(8) by {
            assert IsPow2(1) && IsPow2(2) && IsPow2(4);
          }
        }
      case AlignExplicit(n) =>
        MaxPow2(memalignsize, n);
    }
  }

  /** The aggregate alignment stays a power of two once it is one. */
  lemma {:induction false} PlaceKeepsPow2(nextoffset: nat, memsize: nat, memalignsize: nat,
                                          alignment: Alignment, aggsize: nat, aggalignsize: nat,
                                          isunion: bool, is64bit: bool)
    requires AlignArgsOk(alignment, memalignsize) && IsPow2(memalignsize)
    requires IsPow2(aggalignsize) || aggalignsize == 0
    ensures IsPow2(Place(nextoffset, memsize, memalignsize, alignment, aggsize,
                         aggalignsize, isunion, is64bit).aggalignsize)
  {
    var c := Contribution(alignment, memalignsize, is64bit);
    ContributionBounds(alignment, memalignsize, is64bit);
    if aggalignsize != 0 {
      MaxPow2(aggalignsize, c);
    }
  }
}
