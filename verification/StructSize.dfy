/**
 Packing, the trailing pad and the total size of a structure: what `MemberType.define` infers,
 and when the consumer's size is the one in the debug information.
 */
module StructSize {
  import opened StructLayout
  import opened StructArithmetic
  import opened StructReplay

  // ----- What the engine infers -----

  /** The alignment of the structure: that of its most aligned member. */
  function MaxAlignment(s: Struct, n: nat): (a: nat)
    requires n <= |s.members|
    ensures a > 0
  {
    if n == 0 then 1
    else
      var a := MaxAlignment(s, n - 1);
      if !s.members[n - 1].emptyBase && s.Alignment(n - 1) > a then s.Alignment(n - 1) else a
  }

  /** The alignment that the emitted fields have together. */
  function FieldsAlignment(s: Struct, n: nat): (a: nat)
    requires n <= |s.members|
    ensures a > 0
  {
    if n == 0 then 1
    else
      var a := FieldsAlignment(s, n - 1);
      if !s.members[n - 1].emptyBase && s.FieldAlignment(n - 1) > a then s.FieldAlignment(n - 1) else a
  }

  /** It is what the engine reckons with, but for members whose type is overridden. */
  lemma {:induction false} SameAlignment(s: Struct, n: nat)
    requires n <= |s.members| && forall m <- s.members :: m.override.None?
    ensures FieldsAlignment(s, n) == MaxAlignment(s, n)
  {
    if n > 0 {
      SameAlignment(s, n - 1);
      assert s.members[n - 1] in s.members;
    }
  }

  /** a is the alignment of the field that member m is emitted as: 1 for a stand-in, that of the type in
      its place, or its own. */
  predicate EmittedWith(m: Member, a: nat) {
    if !m.defined then a == 1
    else if m.override.Some? then a == m.override.value.alignment
    else a == m.alignment
  }

  /** The alignment of the fields is the largest one they are emitted with. */
  lemma {:induction false} FieldsAlignmentIsLargest(s: Struct, n: nat)
    requires n <= |s.members|
    ensures forall i, a: nat :: 0 <= i < n && !s.members[i].emptyBase && EmittedWith(s.members[i], a) ==> a <= FieldsAlignment(s, n)
    ensures FieldsAlignment(s, n) == 1
      || exists i :: 0 <= i < n && !s.members[i].emptyBase && EmittedWith(s.members[i], FieldsAlignment(s, n))
  {
    if n > 0 {
      FieldsAlignmentIsLargest(s, n - 1);
      assert EmittedWith(s.members[n - 1], s.FieldAlignment(n - 1));
    }
  }

  predicate Unaligned(s: Struct, i: nat)
    requires i < |s.members|
  {
    var m := s.members[i];
    !m.emptyBase && m.location.Some? && s.Alignment(i) != 0 && m.location.value % s.Alignment(i) != 0
  }

  predicate LooksPacked(s: Struct, n: nat)
    requires n <= |s.members|
  {
    s.packHint || exists i :: 0 <= i < n && Unaligned(s, i)
  }

  predicate Packed(s: Struct) {
    LooksPacked(s, |s.members|)
    || (s.members != [] && s.byteSize % MaxAlignment(s, |s.members|) != 0)
  }

  predicate AllInherited(s: Struct) {
    forall m <- s.members :: m.inherited
  }

  /** The engine's estimate of the size, from its expected end in bits. */
  function Estimate(end: int, alignment: nat): int
    requires alignment > 0
  {
    var bytes := end / 8;
    var residue := bytes % alignment;
    if residue != 0 then bytes + (alignment - residue) else bytes
  }

  function TrailingPad(s: Struct): (pad: nat)
    requires UnitsHaveSize(s)
  {
    var n := |s.members|;
    var estimate := Estimate(EmitAll(s, n).end, MaxAlignment(s, n));
    if n != 0 && !s.isUnion && estimate < s.byteSize && !AllInherited(s) then s.byteSize - estimate else 0
  }

  function AllFields(s: Struct): seq<Field>
    requires UnitsHaveSize(s)
  {
    EmitAll(s, |s.members|).fields + if TrailingPad(s) != 0 then [Bytes(TrailingPad(s), 1)] else []
  }

  /** The size, in bits, that the consumer gives the structure. */
  function TotalBits(s: Struct, pack: bool): int
    requires UnitsHaveSize(s)
  {
    AlignTo(Replay(AllFields(s), pack, Cursor(0, 0)).end, 8 * FieldsAlignment(s, |s.members|), pack)
  }

  // ----- The total size -----

  /** The estimate rounds up like the consumer does. */
  lemma EstimateRoundsUp(bytes: nat, alignment: nat)
    requires alignment > 0
    ensures 8 * Estimate(8 * bytes, alignment) == RoundUp(8 * bytes, 8 * alignment)
  {
    RoundUpRemainder(bytes, alignment);
    UpwardsScales(0, bytes, alignment);
  }

  /** Storage comes in whole bytes. */
  lemma {:induction false} WholeBytes(s: Struct, n: nat)
    requires WellFormed(s) && n <= |s.members|
    ensures var g := GeometryOf(s, n); g.end % 8 == 0 && g.unitEnd % 8 == 0 && g.unitEnd >= 0
  {
    if n > 0 {
      WholeBytes(s, n - 1);
      OneMoreWhole(s, n - 1, GeometryOf(s, n - 1));
    }
  }

  lemma OneMoreWhole(s: Struct, i: nat, g: Geometry)
    requires i < |s.members| && (s.members[i].IsBitfield() ==> s.members[i].size > 0)
    requires g.end % 8 == 0 && g.unitEnd % 8 == 0 && g.unitEnd >= 0
    ensures var g' := After(s, i, g); g'.end % 8 == 0 && g'.unitEnd % 8 == 0 && g'.unitEnd >= 0
  {
    var m := s.members[i];
    if !m.emptyBase && m.IsBitfield() && m.Offset() >= g.unitEnd {
      UnitStartWhole(m.Offset(), g.unitEnd, m.size);
      UnitStartBounds(m.Offset(), g.unitEnd, m.UnitBits());
    }
  }

  /** When all types are defined the engine expects what is used. */
  lemma {:induction false} ExpectedIsUsed(s: Struct, n: nat)
    requires WellFormed(s) && n <= |s.members| && OwnTypes(s)
    ensures GeometryOf(s, n).end == GeometryOf(s, n).unitEnd
  {
    if n > 0 {
      ExpectedIsUsed(s, n - 1);
      assert s.members[n - 1] in s.members;
    }
  }

  lemma {:induction false} UnitStartWhole(off: int, from: int, size: nat)
    requires size > 0 && from % 8 == 0
    ensures UnitStart(off, from, 8 * size) % 8 == 0
    decreases off - from
  {
    if off >= from + 8 * size {
      UnitStartWhole(off, from + 8 * size, size);
    }
  }

  /** The size in bits the members take, once they are placed. */
  function Used(s: Struct): int
    requires UnitsHaveSize(s)
  {
    GeometryOf(s, |s.members|).end
  }

  /** Where the engine expects the members to end. */
  function Expected(s: Struct): int
    requires UnitsHaveSize(s)
  {
    GeometryOf(s, |s.members|).unitEnd
  }

  /** A union is never padded at its end. */
  lemma UnionUnpadded(s: Struct)
    requires UnitsHaveSize(s) && s.isUnion
    ensures AllFields(s) == EmitAll(s, |s.members|).fields
  {
  }

  lemma TotalOfPlaced(s: Struct, pack: bool)
    requires WellFormed(s)
    requires forall i :: 0 <= i < |s.members| ==> Placeable(s, i, pack)
    ensures TotalBits(s, pack)
         == AlignTo(Used(s) + 8 * TrailingPad(s), 8 * FieldsAlignment(s, |s.members|), pack)
    ensures Used(s) >= 0 && Used(s) % 8 == 0
  {
    var n := |s.members|;
    PlaceableMeansPlaced(s, n, pack);
    WholeBytes(s, n);
    ReplayWithPad(s, pack);
    MultipleInBits(Used(s) / 8, 1);
  }

  /** Is there a trailing pad?  Not if there is nothing but bases; otherwise if rounding up where the
      engine expects the members to end falls short of the size. */
  predicate Padded(s: Struct)
    requires UnitsHaveSize(s)
  {
    && (exists m <- s.members :: !m.inherited)
    && RoundUp(Expected(s), 8 * MaxAlignment(s, |s.members|)) < 8 * s.byteSize
  }

  /** Where the members have to end: without a trailing pad at the size, with one where the engine
      rounds up to. */
  function Target(s: Struct): int
    requires UnitsHaveSize(s)
  {
    if Padded(s) then RoundUp(Expected(s), 8 * MaxAlignment(s, |s.members|)) else 8 * s.byteSize
  }

  /** When the consumer's size is right: packed, when the members end at the target; otherwise when they
      are short of it by less than the fields' alignment, and that divides the size. */
  predicate SizeFits(s: Struct)
    requires UnitsHaveSize(s)
  {
    var a := FieldsAlignment(s, |s.members|);
    if Packed(s) then Used(s) == Target(s)
    else s.byteSize % a == 0 && Target(s) - 8 * a < Used(s) <= Target(s)
  }

  /** The trailing pad completes the structure to its size exactly when SizeFits says so. */
  lemma SizeExact(s: Struct)
    requires WellFormed(s) && s.members != []
    requires forall i :: 0 <= i < |s.members| ==> Placeable(s, i, Packed(s))
    ensures TotalBits(s, Packed(s)) == 8 * s.byteSize <==> SizeFits(s)
  {
    TotalOfPlaced(s, Packed(s));
    TrailingPadIs(s);
    RoundUpReaches(Used(s) / 8 + TrailingPad(s), s.byteSize, FieldsAlignment(s, |s.members|));
  }

  lemma RoundUpReaches(used: nat, size: nat, a: nat)
    requires a > 0
    ensures RoundUp(8 * used, 8 * a) == 8 * size <==> size % a == 0 && size - a < used <= size
  {
    UpwardsScales(0, used, a);
    UpwardsBounds(0, used, a);
    RoundUpRemainder(used, a);
    if size % a == 0 && size - a < used <= size {
      var up := RoundUp(used, a);
      RoundUpIsMultiple(used, up, a);
      if up < size {
        ApartByMultiple(up, size, a);
      } else if up > size {
        ApartByMultiple(size, up, a);
      }
    }
    if RoundUp(8 * used, 8 * a) == 8 * size {
      RoundUpIsMultiple(used, size, a);
    }
  }

  /** When all members have their own types: without packing, the structure has to be at least as long as
      its members; with packing it has to be exactly as long, or longer with members that end on a
      multiple of the alignment. */
  lemma SizeFitsDefined(s: Struct)
    requires WellFormed(s) && OwnTypes(s) && s.members != [] && Used(s) >= 0
    ensures
      var bits, up := 8 * s.byteSize, RoundUp(Used(s), 8 * MaxAlignment(s, |s.members|));
      var padded := !AllInherited(s) && up < bits;
      SizeFits(s) <==>
        if Packed(s) then Used(s) == bits || (padded && up == Used(s)) else up == bits || padded
  {
    var n := |s.members|;
    ExpectedIsUsed(s, n);
    WholeBytes(s, n);
    SameAlignment(s, n);
    UpwardsBounds(0, Used(s), 8 * MaxAlignment(s, n));
    RoundUpReaches(Used(s) / 8, s.byteSize, MaxAlignment(s, n));
  }

  /** The trailing pad, from where the engine expects the members to end. */
  lemma TrailingPadIs(s: Struct)
    requires WellFormed(s) && s.members != []
    ensures 8 * TrailingPad(s) ==
      if Padded(s) then 8 * s.byteSize - RoundUp(Expected(s), 8 * MaxAlignment(s, |s.members|)) else 0
  {
    EngineFollows(s, |s.members|);
    WholeBytes(s, |s.members|);
    EstimateRoundsUp(Expected(s) / 8, MaxAlignment(s, |s.members|));
  }

  /** A last member whose type has no definition is emitted up to the end of the structure, but the
      engine's estimate stops at its start.  The size is right exactly when the estimate still
      rounds up to the whole structure, which then has to be aligned; otherwise a trailing pad is added
      on top. */
  lemma UndefinedTail(s: Struct)
    requires WellFormed(s) && s.members != [] && !AllInherited(s)
    requires
      var m := s.members[|s.members| - 1];
      !m.emptyBase && !m.IsBitfield() && !m.defined
    requires forall i :: 0 <= i < |s.members| ==> Placeable(s, i, Packed(s))
    ensures TotalBits(s, Packed(s)) == 8 * s.byteSize
      <==>
      && RoundUp(8 * s.members[|s.members| - 1].Location(), 8 * MaxAlignment(s, |s.members|)) >= 8 * s.byteSize
      && (Packed(s) || s.byteSize % FieldsAlignment(s, |s.members|) == 0)
  {
    var n, pack := |s.members|, Packed(s);
    assert MemberFits(s, n - 1);
    SizeExact(s);
  }

  /** The consumer's end after the trailing pad. */
  lemma ReplayWithPad(s: Struct, pack: bool)
    requires UnitsHaveSize(s)
    ensures
      var end := Replay(EmitAll(s, |s.members|).fields, pack, Cursor(0, 0)).end;
      Replay(AllFields(s), pack, Cursor(0, 0)).end ==
        if TrailingPad(s) != 0 then AlignTo(end, 8, pack) + 8 * TrailingPad(s) else end
  {
    var fs := EmitAll(s, |s.members|).fields;
    if TrailingPad(s) != 0 {
      var pad := Bytes(TrailingPad(s), 1);
      ReplayAppend(fs, [pad], pack, Cursor(0, 0));
      assert [pad][..0] == [];
    } else {
      assert fs + [] == fs;
    }
  }

  /** A structure that is laid out naturally: aligned offsets, and a size that is the members'
      rounded up to the alignment. */
  predicate Natural(s: Struct)
    requires UnitsHaveSize(s)
  {
    && (forall i :: 0 <= i < |s.members| ==> Placeable(s, i, false))
    && 8 * s.byteSize == RoundUp(Used(s), 8 * MaxAlignment(s, |s.members|))
  }

  /** A structure that is fully packed. */
  predicate Tight(s: Struct)
    requires UnitsHaveSize(s)
  {
    && (forall i :: 0 <= i < |s.members| ==> Placeable(s, i, true))
    && 8 * s.byteSize == Used(s)
  }

  predicate Plain(s: Struct) {
    && !s.packHint && s.members != []
    && forall m <- s.members :: !m.IsBitfield() && !m.emptyBase && m.location.Some?
  }

  /** Inferring the packing from the offsets and the size alone is enough: a plain structure that is
      laid out naturally or fully packed is replayed with its own offsets and size. */
  lemma PackInference(s: Struct)
    requires WellFormed(s) && OwnTypes(s) && Plain(s)
    requires Natural(s) || Tight(s)
    ensures forall i :: 0 <= i < |s.members| ==> Placed(s, i, Packed(s))
    ensures TotalBits(s, Packed(s)) == 8 * s.byteSize
    ensures Natural(s) ==> !Packed(s)
  {
    var n := |s.members|;
    var a := MaxAlignment(s, n);
    WholeBytes(s, n);
    ExpectedIsUsed(s, n);
    UsedIsPositive(s, n);
    if Natural(s) {
      forall i | 0 <= i < n
        ensures !Unaligned(s, i)
      {
        NaturalIsAligned(s, i);
      }
      RoundUpIsMultiple(Used(s) / 8, s.byteSize, a);
    } else if !Packed(s) {
      forall i | 0 <= i < n
        ensures Placeable(s, i, false)
      {
        AlignedIsNatural(s, i);
      }
      MultipleInBits(s.byteSize, a);
    }
    LayoutExact(s, Packed(s));
    SizeExact(s);
    SizeFitsDefined(s);
  }

  lemma UsedIsPositive(s: Struct, n: nat)
    requires WellFormed(s) && n <= |s.members| && Plain(s)
    ensures GeometryOf(s, n).end >= 0
  {
    if n > 0 {
      assert s.members[n - 1] in s.members;
    }
  }

  lemma RoundUpIsMultiple(used: nat, size: nat, a: nat)
    requires a > 0 && 8 * size == RoundUp(8 * used, 8 * a)
    ensures size % a == 0
  {
    UpwardsScales(0, used, a);
    UpwardsAgain(0, used, a);
    RoundUpRemainder(size, a);
  }

  lemma NaturalIsAligned(s: Struct, i: nat)
    requires WellFormed(s) && OwnTypes(s) && Plain(s) && i < |s.members| && Placeable(s, i, false)
    ensures !Unaligned(s, i)
  {
    assert s.members[i] in s.members && MemberFits(s, i);
    WholeBytes(s, i);
    ExpectedIsUsed(s, i);
    UsedIsPositive(s, i);
    RoundUpIsMultiple(GeometryOf(s, i).end / 8, s.members[i].Location(), s.Alignment(i));
  }

  lemma AlignedIsNatural(s: Struct, i: nat)
    requires WellFormed(s) && OwnTypes(s) && Plain(s) && i < |s.members|
    requires Placeable(s, i, true) && !Unaligned(s, i)
    ensures Placeable(s, i, false)
  {
    assert s.members[i] in s.members && MemberFits(s, i);
    MultipleInBits(s.members[i].Location(), s.Alignment(i));
  }
}
