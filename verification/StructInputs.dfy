/**
 Structures on which the layout engine or the checks made with it go wrong, each as its debug
 information has it.
 */
module StructInputs {
  import opened Options
  import opened StructLayout
  import opened StructArithmetic
  import opened StructReplay
  import opened StructSize
  import opened StructOffsets

  function PlainAt(location: nat, size: nat): Member {
    Member(Some(location), None, None, 0, size, size, true, None, false, false)
  }

  // ----- An empty base -----

  /** `class E {}; class D : E { int a, b, c; };` */
  predicate EmptyBase(s: Struct) {
    s == Struct([Member(Some(0), None, None, 0, 1, 1, true, None, true, true), PlainAt(0, 4), PlainAt(4, 4), PlainAt(8, 4)],
                12, false, false)
  }

  /** The emitted fields. */
  lemma EmptyBaseEmits(s: Struct)
    requires EmptyBase(s)
    ensures UnitsHaveSize(s) && forall n :: 1 <= n <= 4 ==> EmitAll(s, n).end == 32 * (n - 1)
    ensures EmitAll(s, 1).fields == [] && EmitAll(s, 2).fields == [Bytes(4, 4)]
    ensures EmitAll(s, 3).fields == [Bytes(4, 4), Bytes(4, 4)]
    ensures EmitAll(s, 4).fields == [Bytes(4, 4), Bytes(4, 4), Bytes(4, 4)]
    ensures EmitAll(s, 4).prePads == [[], [], [], []]
  {
    assert EmitAll(s, 0) == Engine([], [], 0, 0);
    assert EmitAll(s, 1) == Engine([], [[]], 0, 0);
    assert EmitAll(s, 2) == Engine([Bytes(4, 4)], [[], []], 32, 32);
    assert EmitAll(s, 3) == Engine([Bytes(4, 4), Bytes(4, 4)], [[], [], []], 64, 64);
  }

  lemma EmptyBaseReplays()
    ensures Replay([], false, Cursor(0, 0)) == Cursor(0, 0)
    ensures Replay([Bytes(4, 4)], false, Cursor(0, 0)) == Cursor(32, 32)
    ensures Replay([Bytes(4, 4), Bytes(4, 4)], false, Cursor(0, 0)) == Cursor(64, 64)
    ensures Replay([Bytes(4, 4), Bytes(4, 4), Bytes(4, 4)], false, Cursor(0, 0)) == Cursor(96, 96)
    ensures ByteOffsets([Bytes(4, 4), Bytes(4, 4), Bytes(4, 4)], false) == [0, 4, 8]
  {
    var one, two, three := [Bytes(4, 4)], [Bytes(4, 4), Bytes(4, 4)], [Bytes(4, 4), Bytes(4, 4), Bytes(4, 4)];
    assert Upwards(0, 0, 32) == 0 && Upwards(0, 32, 32) == 32;
    assert Upwards(0, 64, 32) == Upwards(32, 64, 32) == Upwards(64, 64, 32) == 64;
    assert one[..0] == [] && two[..1] == one && three[..2] == two;
    assert ByteOffsets([], false) == [];
    assert ByteOffsets(one, false) == [0];
    assert ByteOffsets(two, false) == [0, 4];
  }

  /** Every member is replayed at its offset, and still the check complains: it holds c's offset
      against the entry of b. */
  lemma EmptyBaseComplains(s: Struct)
    requires EmptyBase(s)
    ensures UnitsHaveSize(s) && ByteOffsets(EmitAll(s, 4).fields, false) == [0, 4, 8]
    ensures s.members[1].location == Some(0) && s.members[2].location == Some(4) && s.members[3].location == Some(8)
    ensures TableOf(s, PadsOf(s), 4).entries == [Some(0), None, Some(4), Some(8)]
    ensures !Clean(ByteOffsets(EmitAll(s, 4).fields, false), TableOf(s, PadsOf(s), 4).entries)
  {
    EmptyBaseEmits(s);
    EmptyBaseReplays();
    EmptyBasePads(s);
    EmptyBaseTable(s, PadsOf(s));
    Complains([0, 4, 8], [Some(0), None, Some(4), Some(8)]);
  }

  lemma Complains(offsets: seq<int>, entries: seq<Option<int>>)
    requires offsets == [0, 4, 8] && entries == [Some(0), None, Some(4), Some(8)]
    ensures !Clean(offsets, entries)
  {
    assert Mismatch(offsets, entries, 2);
  }

  lemma EmptyBasePads(s: Struct)
    requires EmptyBase(s)
    ensures UnitsHaveSize(s) && forall i :: 0 <= i < 4 ==> PadsOf(s)[i] == 0
  {
    EmptyBaseEmits(s);
    ZeroLengths(EmitAll(s, 4).prePads);
  }

  lemma ZeroLengths(prePads: seq<seq<int>>)
    requires forall i :: 0 <= i < |prePads| ==> prePads[i] == []
    ensures forall i :: 0 <= i < |prePads| ==> Lengths(prePads)[i] == 0
  {
  }

  lemma EmptyBaseTable(s: Struct, pads: seq<nat>)
    requires EmptyBase(s) && |pads| == 4 && forall i :: 0 <= i < 4 ==> pads[i] == 0
    ensures TableOf(s, pads, 4).entries == [Some(0), None, Some(4), Some(8)]
  {
    assert TableOf(s, pads, 0) == Table([], None);
    assert TableOf(s, pads, 1) == Table([Some(0)], Some(Some(0)));
    assert TableOf(s, pads, 2) == Table([Some(0), None], Some(Some(0)));
    assert TableOf(s, pads, 3) == Table([Some(0), None, Some(4)], Some(Some(4)));
  }

  // ----- Sizes -----

  /** `struct { char a; int b; int :8; } __attribute__((packed));` */
  predicate PackedTail(s: Struct) {
    s == Struct([PlainAt(0, 1), PlainAt(1, 4)], 6, false, false)
  }

  /** `struct { long n; std::string s; };`, with no definition of the string's type. */
  predicate UndefinedString(s: Struct) {
    s == Struct([PlainAt(0, 8), Member(Some(8), None, None, 0, 0, 1, false, None, false, false)], 40, false, false)
  }

  lemma PackedTailGeometry(s: Struct)
    requires PackedTail(s)
    ensures WellFormed(s) && OwnTypes(s) && Used(s) == 40 && MaxAlignment(s, 2) == 4 && Packed(s) && !AllInherited(s)
    ensures Placeable(s, 0, true) && Placeable(s, 1, true)
  {
    assert s.members[0] == PlainAt(0, 1) && s.members[1] == PlainAt(1, 4);
    assert GeometryOf(s, 0) == Geometry(0, 0, 0, 0, 0) && GeometryOf(s, 1) == Geometry(8, 8, 8, 8, 0);
    assert MemberFits(s, 0) && MemberFits(s, 1) && Follows(s, 0) && Follows(s, 1);
    assert forall i, j :: 0 <= i < 2 && 0 <= j < 2 ==> UnitsFit(s, i, j);
    assert MaxAlignment(s, 0) == 1 && MaxAlignment(s, 1) == 1;
    assert Unaligned(s, 1);
  }

  /** It comes out 5 bytes long instead of 6: rounding up to the alignment that packing takes away
      leaves no room for a trailing pad. */
  lemma PackedTailWrong(s: Struct)
    requires PackedTail(s)
    ensures WellFormed(s) && Packed(s) && forall i :: 0 <= i < 2 ==> Placeable(s, i, true)
    ensures TrailingPad(s) == 0 && TotalBits(s, true) == 8 * 5 != 8 * s.byteSize
  {
    PackedTailGeometry(s);
    forall i | 0 <= i < |s.members| ensures Placeable(s, i, true) {
      assert i == 0 || i == 1;
    }
    ExpectedIsUsed(s, 2);
    assert RoundUp(40, 32) == Upwards(32, 40, 32) == 64;
    TrailingPadIs(s);
    TotalOfPlaced(s, true);
  }

  lemma UndefinedStringGeometry(s: Struct)
    requires UndefinedString(s)
    ensures WellFormed(s) && MaxAlignment(s, 2) == 8 && !Packed(s) && !AllInherited(s)
    ensures Placeable(s, 0, false) && Placeable(s, 1, false) && Used(s) == 320 && Expected(s) == 64
  {
    assert s.members[0] == PlainAt(0, 8) && s.Extent(1) == 32 && s.Alignment(1) == 1;
    assert GeometryOf(s, 0) == Geometry(0, 0, 0, 0, 0) && GeometryOf(s, 1) == Geometry(64, 64, 64, 64, 0);
    assert MemberFits(s, 0) && MemberFits(s, 1) && Follows(s, 0) && Follows(s, 1);
    assert forall i, j :: 0 <= i < 2 && 0 <= j < 2 ==> UnitsFit(s, i, j);
    assert MaxAlignment(s, 0) == 1 && MaxAlignment(s, 1) == 8;
    assert !Unaligned(s, 0) && !Unaligned(s, 1);
    MultipleInBits(8, 1);
  }

  /** It comes out 72 bytes long instead of 40: the 32 bytes of the string are there twice. */
  lemma UndefinedStringWrong(s: Struct)
    requires UndefinedString(s)
    ensures WellFormed(s) && !Packed(s) && forall i :: 0 <= i < 2 ==> Placeable(s, i, false)
    ensures TrailingPad(s) == 32 && TotalBits(s, false) == 8 * 72 != 8 * s.byteSize
  {
    UndefinedStringGeometry(s);
    forall i | 0 <= i < |s.members| ensures Placeable(s, i, false) {
      assert i == 0 || i == 1;
    }
    MultipleInBits(8, 8);
    MultipleInBits(72, 8);
    TrailingPadIs(s);
    TotalOfPlaced(s, false);
  }

  // ----- The tail of a base class -----

  /** `struct B { int a; char b; }; struct D : B { char c; };`, where c takes the tail of B. */
  predicate TailReuse(s: Struct) {
    s == Struct([Member(Some(0), None, None, 0, 8, 4, true, None, false, true), PlainAt(5, 1)], 8, false, false)
  }

  /** It cannot be replayed, packed or not: the consumer never goes back. */
  lemma TailReuseMisplaced(s: Struct, pack: bool)
    requires TailReuse(s)
    ensures WellFormed(s) && !(Placed(s, 0, pack) && Placed(s, 1, pack))
  {
    assert s.members[1] == PlainAt(5, 1);
    assert GeometryOf(s, 0) == Geometry(0, 0, 0, 0, 0) && GeometryOf(s, 1) == Geometry(64, 64, 64, 64, 0);
    assert MemberFits(s, 0) && MemberFits(s, 1) && Follows(s, 0) && Follows(s, 1);
    assert forall i, j :: 0 <= i < 2 && 0 <= j < 2 ==> UnitsFit(s, i, j);
    AlignProperties(64, 8, pack);
    LayoutExact(s, pack);
    assert !Placeable(s, 1, pack);
  }
}
