/**
 The layout engine of `MemberType.define`: from the offsets in the debug information it emits a
 list of ctypes fields, with padding bitfields of its own, and decides about packing.  The
 functions say what it emits; `Replay` is the consumer, which lays the list out again knowing
 only widths, sizes and alignments.
 */
module StructLayout {
  import opened Options

  /** A type that a hint puts in place of a member's own, with its size and alignment. */
  datatype Override = Override(size: nat, alignment: nat)

  /** A member of a structure or union, with the attributes the engine reads.
      - location: byte offset of the member (DW_AT_data_member_location)
      - dataBitOffset, bitOffset, width: the bitfield attributes, in bits
      - size, alignment: of the member's type; for a bitfield, of its storage unit
      - defined: is there a definition of the member's type?
      - override: the type that takes its place in the field list */
  datatype Member = Member(
    location: Option<nat>, dataBitOffset: Option<nat>, bitOffset: Option<int>, width: nat,
    size: nat, alignment: nat, defined: bool, override: Option<Override>, emptyBase: bool, inherited: bool)
  {
    /** The bit offset of a bitfield, counted from the lowest address of the structure. */
    function DieBitOffset(): Option<int> {
      if dataBitOffset.Some? then Some(dataBitOffset.value)
      else if bitOffset.Some? then Some(8 * Location() + 8 * size - width - bitOffset.value)
      else None
    }

    function Location(): nat {
      if location.Some? then location.value else 0
    }

    predicate IsBitfield() {
      DieBitOffset().Some? && override.None?
    }

    function Offset(): int {
      if IsBitfield() then DieBitOffset().value else 8 * Location()
    }

    function UnitBits(): nat { 8 * size }
  }

  datatype Struct = Struct(members: seq<Member>, byteSize: nat, isUnion: bool, packHint: bool)
  {
    /** The size of the plain field emitted for a member.  The type in its place counts, and a type without a definition becomes an
        array of characters that reaches to the next member or to the end. */
    function Extent(i: nat): int
      requires i < |members|
    {
      var m := members[i];
      if m.defined then if m.override.Some? then m.override.value.size else m.size
      else if i + 1 < |members| then members[i + 1].Location() - m.Location()
      else byteSize - m.Location()
    }

    /** The stand-in for a type without a definition has no end: the offset of the next member is not
        given in bytes.  The engine raises. */
    predicate NextUnlocated(i: nat)
      requires i < |members|
    {
      !members[i].defined && !members[i].emptyBase && i + 1 < |members| && members[i + 1].location.None?
    }

    /** The alignment the engine reckons with. */
    function Alignment(i: nat): nat
      requires i < |members|
    {
      if members[i].defined then members[i].alignment else 1
    }

    /** The alignment the emitted field has. */
    function FieldAlignment(i: nat): nat
      requires i < |members|
    {
      if members[i].defined && members[i].override.Some? then members[i].override.value.alignment else Alignment(i)
    }
  }

  /** What is emitted.  A pad is an unnamed bitfield. */
  datatype Field =
    | Pad(width: int, unit: nat)
    | Bits(width: int, unit: nat)
    | Bytes(size: int, alignment: nat)

  // ----- What the engine emits -----

  /** The padding emitted by the loop that moves to the data object holding bit off, and the
      expected bit offset and expected end it leaves. */
  function Advance(off: int, width: nat, unit: nat, bit: int, end: int): (seq<int>, int, int)
    requires unit > 0
    decreases off - end
  {
    if off < end then ([], bit, end) else
    var (pads, bit', end') := Advance(off, width, unit, end, end + unit);
    ((if width <= end - bit then [end - bit] else []) + pads, bit', end')
  }

  /** All the pads emitted before a bitfield. */
  function PrePads(off: int, width: nat, unit: nat, bit: int, end: int): seq<int>
    requires unit > 0
  {
    var (pads, bit', _) := Advance(off, width, unit, bit, end);
    pads + if off != bit' then [off - bit'] else []
  }

  function PadFields(pads: seq<int>, unit: nat): (fs: seq<Field>)
    ensures |fs| == |pads|
  {
    if pads == [] then []
    else PadFields(pads[..|pads| - 1], unit) + [Pad(pads[|pads| - 1], unit)]
  }

  /** The engine after some members: the fields so far, each member's pads, the bit offset
      expected next, and the end of the current data object. */
  datatype Engine = Engine(fields: seq<Field>, prePads: seq<seq<int>>, bit: int, end: int)

  /** The pads member i gets. */
  function MemberPads(m: Member, e: Engine): seq<int>
    requires m.IsBitfield() ==> m.size > 0
  {
    if m.emptyBase || !m.IsBitfield() then [] else PrePads(m.Offset(), m.width, m.UnitBits(), e.bit, e.end)
  }

  function Emit(s: Struct, i: nat, e: Engine): Engine
    requires i < |s.members|
    requires s.members[i].IsBitfield() ==> s.members[i].size > 0
  {
    var m := s.members[i];
    if m.emptyBase then
      e.(prePads := e.prePads + [[]])
    else if m.IsBitfield() then
      var off, unit := m.Offset(), m.UnitBits();
      var pads := MemberPads(m, e);
      var (_, _, end) := Advance(off, m.width, unit, e.bit, e.end);
      Engine(e.fields + PadFields(pads, unit) + [Bits(m.width, unit)], e.prePads + [pads], off + m.width, end)
    else
      var end := 8 * (m.Location() + m.size);
      Engine(e.fields + [Bytes(s.Extent(i), s.FieldAlignment(i))], e.prePads + [[]],
             if s.isUnion then e.bit else end, if s.isUnion then e.end else end)
  }

  predicate UnitsHaveSize(s: Struct) {
    forall m <- s.members :: m.IsBitfield() ==> m.size > 0
  }

  function EmitAll(s: Struct, n: nat): Engine
    requires n <= |s.members| && UnitsHaveSize(s)
  {
    if n == 0 then Engine([], [], 0, 0) else Emit(s, n - 1, EmitAll(s, n - 1))
  }

  // ----- The consumer -----

  /** pos is the first free bit of the open storage unit, end the end of all storage so far;
      they are equal when no unit is open. */
  datatype Cursor = Cursor(pos: int, end: int)

  /** The first of from, from + a, from + 2a, ... that is not below x. */
  function Upwards(from: int, x: int, a: nat): int
    requires a > 0
    decreases x - from
  {
    if x <= from then from else Upwards(from + a, x, a)
  }

  /** The least multiple of a that is not below x, for x not negative. */
  function RoundUp(x: int, a: nat): int
    requires a > 0
  {
    Upwards(0, x, a)
  }

  function AlignTo(x: int, a: nat, pack: bool): int {
    if pack || a == 0 then x else RoundUp(x, a)
  }

  /** The bit offset a field is given, and the cursor after it.  A bitfield goes into the open unit
      if it fits, else into a new unit; anything else closes the unit. */
  function Place(c: Cursor, f: Field, pack: bool): (Cursor, int) {
    if f.Bytes? then
      var start := AlignTo(c.end, 8 * f.alignment, pack);
      (Cursor(start + 8 * f.size, start + 8 * f.size), start)
    else if f.width <= c.end - c.pos then
      (Cursor(c.pos + f.width, c.end), c.pos)
    else
      var start := AlignTo(c.end, f.unit, pack);
      (Cursor(start + f.width, start + f.unit), start)
  }

  function Replay(fs: seq<Field>, pack: bool, c: Cursor): Cursor {
    if fs == [] then c
    else Place(Replay(fs[..|fs| - 1], pack, c), fs[|fs| - 1], pack).0
  }
}
