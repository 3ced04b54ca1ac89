/**
 Replaying what the layout engine emits puts a member at its offset in the debug information
 exactly when a condition on that offset and on the members before it holds.
 */
module StructReplay {
  import opened StructLayout
  import opened StructArithmetic
  import opened Options

  // ----- Where the debug information puts things -----

  /** The start of the storage unit that holds bit off, if units follow each other from `from`. */
  function UnitStart(off: int, from: int, unit: nat): int
    requires unit > 0
    decreases off - from
  {
    if off < from + unit then from else UnitStart(off, from + unit, unit)
  }

  /** After some members: the end of the last member's bits, the end of the storage in use, the
      engine's expected bit offset and end, and the size of the storage unit that is open, if any. */
  datatype Geometry = Geometry(pos: int, end: int, bit: int, unitEnd: int, open: nat)
  {
    /** A bitfield may come at bit off: what is before it ends there, and takes all its storage. */
    predicate LeadsUpTo(off: int) { bit <= off && unitEnd <= end }
  }

  function After(s: Struct, i: nat, g: Geometry): Geometry
    requires i < |s.members|
    requires s.members[i].IsBitfield() ==> s.members[i].size > 0
  {
    var m := s.members[i];
    if m.emptyBase then g
    else if m.IsBitfield() then AfterBits(m.Offset(), m.width, m.UnitBits(), g)
    else
      var end, expected := 8 * (m.Location() + s.Extent(i)), 8 * (m.Location() + m.size);
      Geometry(end, end, expected, expected, 0)
  }

  function AfterBits(off: int, width: nat, unit: nat, g: Geometry): Geometry
    requires unit > 0
  {
    if off < g.unitEnd then g.(pos := off + width, bit := off + width)
    else
      var end := UnitStart(off, g.unitEnd, unit) + unit;
      Geometry(off + width, end, off + width, end, unit)
  }

  function GeometryOf(s: Struct, n: nat): Geometry
    requires n <= |s.members| && UnitsHaveSize(s)
  {
    if n == 0 then Geometry(0, 0, 0, 0, 0) else After(s, n - 1, GeometryOf(s, n - 1))
  }

  /** The structures the engine is for: a bitfield does not overlap what comes before it nor follow
      a type that took the place of a larger one, of the sizes of two storage types one divides the
      other, and a type without a definition has no size of its own, but an end.  Other members may
      start anywhere, as in the tail of a base class. */
  predicate WellFormed(s: Struct) {
    && !s.isUnion
    && (forall i :: 0 <= i < |s.members| ==> MemberFits(s, i))
    && UnitsHaveSize(s)
    && (forall i, j :: 0 <= i < |s.members| && 0 <= j < |s.members| ==> UnitsFit(s, i, j))
    && (forall i :: 0 <= i < |s.members| ==> Follows(s, i))
  }

  predicate MemberFits(s: Struct, i: nat)
    requires i < |s.members|
  {
    var m := s.members[i];
    && m.alignment > 0 && s.FieldAlignment(i) > 0 && !s.NextUnlocated(i)
    && (if m.IsBitfield() then 0 < m.width <= m.UnitBits()
        else s.Extent(i) >= 0 && (!m.defined ==> m.size == 0))
  }

  /** Every member is emitted with the type it has: none without a definition, none overridden. */
  predicate OwnTypes(s: Struct) {
    forall m <- s.members :: m.defined && m.override.None?
  }

  predicate UnitsFit(s: Struct, i: nat, j: nat)
    requires i < |s.members| && j < |s.members|
  {
    s.members[i].IsBitfield() && s.members[j].IsBitfield()
    ==> OneDivides(s.members[i].UnitBits(), s.members[j].UnitBits())
  }

  predicate Follows(s: Struct, i: nat)
    requires i < |s.members| && UnitsHaveSize(s)
  {
    s.members[i].IsBitfield() && !s.members[i].emptyBase ==> GeometryOf(s, i).LeadsUpTo(s.members[i].Offset())
  }

  /** The engine skips bits without a pad when the field would not have fitted there.  If the pad
      that follows does fit there, the consumer puts it there and the field is misplaced. */
  predicate PadSlipsBack(off: int, width: nat, unit: nat, g: Geometry)
    requires unit > 0
  {
    var free, lead := g.unitEnd - g.bit, off - UnitStart(off, g.unitEnd, unit);
    off < g.unitEnd + unit && free < width && 0 < lead <= free
  }

  predicate BitfieldPlaceable(off: int, width: nat, unit: nat, g: Geometry, pack: bool)
    requires unit > 0
  {
    if off < g.unitEnd then off + width <= g.unitEnd
    else
      && AlignTo(g.end, unit, pack) == g.unitEnd
      && off + width <= UnitStart(off, g.unitEnd, unit) + unit
      && !PadSlipsBack(off, width, unit, g)
  }

  /** The condition under which the replay places member i correctly. */
  predicate Placeable(s: Struct, i: nat, pack: bool)
    requires i < |s.members| && UnitsHaveSize(s)
  {
    var m, g := s.members[i], GeometryOf(s, i);
    m.emptyBase ||
    if m.IsBitfield() then BitfieldPlaceable(m.Offset(), m.width, m.UnitBits(), g, pack)
    else 8 * m.Location() == AlignTo(g.end, 8 * s.FieldAlignment(i), pack)
  }

  // ----- Lemmas about the pieces -----

  lemma {:induction false} PadFieldsAppend(a: seq<int>, b: seq<int>, unit: nat)
    ensures PadFields(a + b, unit) == PadFields(a, unit) + PadFields(b, unit)
    decreases |b|
  {
    if b == [] {
      assert a + b == a;
    } else {
      var b' := b[..|b| - 1];
      assert (a + b)[..|a + b| - 1] == a + b';
      PadFieldsAppend(a, b', unit);
    }
  }

  lemma {:induction false} ReplayAppend(a: seq<Field>, b: seq<Field>, pack: bool, c: Cursor)
    ensures Replay(a + b, pack, c) == Replay(b, pack, Replay(a, pack, c))
    decreases |b|
  {
    if b == [] {
      assert a + b == a;
    } else {
      var b' := b[..|b| - 1];
      assert (a + b)[..|a + b| - 1] == a + b';
      ReplayAppend(a, b', pack, c);
    }
  }

  lemma ReplayFirst(f: Field, fs: seq<Field>, pack: bool, c: Cursor)
    ensures Replay([f] + fs, pack, c) == Replay(fs, pack, Place(c, f, pack).0)
  {
    ReplayAppend([f], fs, pack, c);
    assert [f][..0] == [];
  }

  lemma PadFieldsFirst(p: int, pads: seq<int>, unit: nat)
    requires unit > 0
    ensures PadFields([p] + pads, unit) == [Pad(p, unit)] + PadFields(pads, unit)
  {
    PadFieldsAppend([p], pads, unit);
    assert [p][..0] == [];
  }

  /** The engine's pads for whole units that are skipped. */
  function Skipped(off: int, from: int, unit: nat): seq<int>
    requires unit > 0
    decreases off - from
  {
    if off < from + unit then [] else [unit] + Skipped(off, from + unit, unit)
  }

  lemma {:induction false} AdvanceToUnit(off: int, width: nat, unit: nat, from: int)
    requires unit > 0 && width <= unit
    ensures Advance(off, width, unit, from, from + unit)
         == (Skipped(off, from, unit), UnitStart(off, from, unit), UnitStart(off, from, unit) + unit)
    decreases off - from
  {
    if off >= from + unit {
      AdvanceToUnit(off, width, unit, from + unit);
    }
  }

  /** What the loop emits: at most one pad that fills the current data object, one pad for each
      whole unit skipped, and it stops in the unit that holds off. */
  lemma AdvanceShape(off: int, width: nat, unit: nat, bit: int, end: int)
    requires unit > 0 && width <= unit && off >= end
    ensures Advance(off, width, unit, bit, end)
         == ((if width <= end - bit then [end - bit] else []) + Skipped(off, end, unit),
             UnitStart(off, end, unit), UnitStart(off, end, unit) + unit)
  {
    AdvanceToUnit(off, width, unit, end);
  }

  lemma {:induction false} UnitStartBounds(off: int, from: int, unit: nat)
    requires unit > 0 && from <= off
    ensures from <= UnitStart(off, from, unit) <= off < UnitStart(off, from, unit) + unit
    ensures UnitStart(off, from, unit) == from <==> off < from + unit
    ensures Skipped(off, from, unit) == [] <==> off < from + unit
    decreases off - from
  {
    if off >= from + unit {
      UnitStartBounds(off, from + unit, unit);
    }
  }

  lemma PlaceWholeUnit(c: Cursor, unit: nat, pack: bool)
    requires unit > 0 && 0 <= c.pos <= c.end < c.pos + unit
    ensures var c' := Place(c, Pad(unit, unit), pack).0;
      && c'.pos == c'.end == AlignTo(c.end, unit, pack) + unit
      && AlignTo(c'.end, unit, pack) == c'.end
  {
    AlignProperties(c.end, unit, pack);
  }

  /** Whole-unit pads move the consumer along with the engine: the distance between the next unit
      of the one and the current unit of the other does not change. */
  lemma {:induction false} ReplaySkipped(off: int, from: int, unit: nat, pack: bool, c: Cursor)
    requires unit > 0 && 0 <= c.pos <= c.end < c.pos + unit
    ensures
      var c' := Replay(PadFields(Skipped(off, from, unit), unit), pack, c);
      && AlignTo(c'.end, unit, pack) - UnitStart(off, from, unit) == AlignTo(c.end, unit, pack) - from
      && (if off < from + unit then c' == c else c'.pos == c'.end >= 0)
    decreases off - from
  {
    if off >= from + unit {
      var rest := Skipped(off, from + unit, unit);
      var c1 := Place(c, Pad(unit, unit), pack).0;
      PlaceWholeUnit(c, unit, pack);
      ReplaySkipped(off, from + unit, unit, pack, c1);
      assert AlignTo(c1.end, unit, pack) - (from + unit) == AlignTo(c.end, unit, pack) - from;
      PadFieldsFirst(unit, rest, unit);
      ReplayFirst(Pad(unit, unit), PadFields(rest, unit), pack, c);
      assert Skipped(off, from, unit) == [unit] + rest;
      assert Replay(PadFields(Skipped(off, from, unit), unit), pack, c) == Replay(PadFields(rest, unit), pack, c1);
    }
  }

  // ----- One bitfield -----

  /** How the engine's state and the consumer's go together while all is well. */
  predicate Coupled(g: Geometry, pack: bool) {
    && 0 <= g.pos <= g.end
    && ((g.bit == g.pos && g.unitEnd == g.end) || (g.bit == g.unitEnd && g.pos == g.end))
    && (g.pos < g.end ==> g.open > 0 && g.end < g.pos + g.open && AlignTo(g.end, g.open, pack) == g.end)
  }

  /** The next unit of this size starts at the end of the open one, or beyond its reach. */
  predicate Apart(g: Geometry, unit: nat, pack: bool) {
    g.pos < g.end ==> AlignTo(g.end, unit, pack) == g.end || AlignTo(g.end, unit, pack) - g.end > g.end - g.pos
  }

  function Lead(d: int): seq<int> { if d != 0 then [d] else [] }

  lemma ReplayLead(d: int, unit: nat, pack: bool, c: Cursor)
    requires unit > 0
    ensures Replay(PadFields(Lead(d), unit), pack, c) == if d != 0 then Place(c, Pad(d, unit), pack).0 else c
  {
    if d != 0 {
      assert [d][..0] == [];
      assert [Pad(d, unit)][..0] == [];
      assert PadFields([d], unit) == [Pad(d, unit)];
    }
  }

  /** Where a field goes after a pad of d bits, counted from the start of the next unit. */
  function LandsAt(free: int, next: int, d: int, width: nat, unit: nat): int {
    if d == 0 || d <= free then next
    else if d + width <= unit then next + d
    else next + unit
  }

  /** The last pad and the field, from the start of a unit the engine has moved to. */
  lemma PlaceLeadAndField(c: Cursor, d: int, width: nat, unit: nat, pack: bool)
    requires unit > 0 && 0 <= c.pos <= c.end < c.pos + unit && 0 <= d < unit && 0 < width <= unit
    requires c.end - c.pos < width
    ensures
      var c1 := if d != 0 then Place(c, Pad(d, unit), pack).0 else c;
      var free, next := c.end - c.pos, AlignTo(c.end, unit, pack);
      var (c', at) := Place(c1, Bits(width, unit), pack);
      && at == LandsAt(free, next, d, width, unit)
      && (d + width <= unit && (d == 0 || d > free) ==> c' == Cursor(next + d + width, next + unit))
  {
    AlignProperties(c.end, unit, pack);
  }

  /** Where the consumer puts a field of the open unit, after the pad before it. */
  lemma OpenVerdict(off: int, width: nat, unit: nat, g: Geometry, pack: bool)
    requires unit > 0 && Coupled(g, pack) && 0 < width <= unit && g.LeadsUpTo(off) && off < g.unitEnd
    ensures
      var before := Cursor(g.pos, g.end);
      var c1 := if off != g.bit then Place(before, Pad(off - g.bit, unit), pack).0 else before;
      var (c, at) := Place(c1, Bits(width, unit), pack);
      && (at == off <==> BitfieldPlaceable(off, width, unit, g, pack))
      && (at == off ==> c == Cursor(off + width, g.end))
  {
    AlignProperties(g.end, unit, pack);
  }

  /** In the open unit there is at most the pad right before the field. */
  lemma OpenPads(off: int, width: nat, unit: nat, bit: int, end: int)
    requires unit > 0 && off < end
    ensures PrePads(off, width, unit, bit, end) == Lead(off - bit)
  {
    assert Advance(off, width, unit, bit, end) == ([], bit, end);
  }

  /** A field in a unit that is already open. */
  lemma BitfieldInOpenUnit(off: int, width: nat, unit: nat, g: Geometry, pack: bool)
    requires unit > 0 && Coupled(g, pack) && 0 < width <= unit && g.LeadsUpTo(off) && off < g.unitEnd
    ensures
      var pads := PrePads(off, width, unit, g.bit, g.unitEnd);
      && var (c, at) := Place(Replay(PadFields(pads, unit), pack, Cursor(g.pos, g.end)), Bits(width, unit), pack);
         && (at == off <==> BitfieldPlaceable(off, width, unit, g, pack))
         && (at == off ==> c == Cursor(off + width, g.end))
  {
    OpenPads(off, width, unit, g.bit, g.unitEnd);
    ReplayLead(off - g.bit, unit, pack, Cursor(g.pos, g.end));
    OpenVerdict(off, width, unit, g, pack);
  }

  function Fill(width: nat, g: Geometry): seq<int> {
    if width <= g.unitEnd - g.bit then [g.unitEnd - g.bit] else []
  }

  lemma ReplayFill(width: nat, unit: nat, g: Geometry, pack: bool)
    requires unit > 0 && Coupled(g, pack) && 0 < width
    ensures Replay(PadFields(Fill(width, g), unit), pack, Cursor(g.pos, g.end))
         == if width <= g.unitEnd - g.bit then Cursor(g.end, g.end) else Cursor(g.pos, g.end)
  {
    assert Fill(width, g) == Lead(if width <= g.unitEnd - g.bit then g.unitEnd - g.bit else 0);
    ReplayLead(if width <= g.unitEnd - g.bit then g.unitEnd - g.bit else 0, unit, pack, Cursor(g.pos, g.end));
  }

  lemma ReplayThree(a: seq<int>, b: seq<int>, d: seq<int>, unit: nat, pack: bool, c: Cursor)
    requires unit > 0
    ensures Replay(PadFields(a + b + d, unit), pack, c)
         == Replay(PadFields(d, unit), pack, Replay(PadFields(b, unit), pack, Replay(PadFields(a, unit), pack, c)))
  {
    PadFieldsAppend(a + b, d, unit);
    PadFieldsAppend(a, b, unit);
    ReplayAppend(PadFields(a, unit), PadFields(b, unit), pack, c);
    ReplayAppend(PadFields(a + b, unit), PadFields(d, unit), pack, c);
  }

  /** Replaying the pads before a field that needs a new unit. */
  lemma ReplayPrePads(off: int, width: nat, unit: nat, g: Geometry, pack: bool)
    requires unit > 0 && Coupled(g, pack) && 0 < width <= unit && g.unitEnd <= off
    ensures
      var c1 := if width <= g.unitEnd - g.bit then Cursor(g.end, g.end) else Cursor(g.pos, g.end);
      var d := off - UnitStart(off, g.unitEnd, unit);
      var pads := PrePads(off, width, unit, g.bit, g.unitEnd);
      && Replay(PadFields(pads, unit), pack, Cursor(g.pos, g.end))
         == Replay(PadFields(Lead(d), unit), pack, Replay(PadFields(Skipped(off, g.unitEnd, unit), unit), pack, c1))
  {
    var fill, skip := Fill(width, g), Skipped(off, g.unitEnd, unit);
    var lead := Lead(off - UnitStart(off, g.unitEnd, unit));
    AdvanceShape(off, width, unit, g.bit, g.unitEnd);
    assert PrePads(off, width, unit, g.bit, g.unitEnd) == (fill + skip) + lead;
    ReplayThree(fill, skip, lead, unit, pack, Cursor(g.pos, g.end));
    ReplayFill(width, unit, g, pack);
  }

  /** The verdict on a field the engine starts a new unit for, as arithmetic: next is where the
      consumer's next unit starts, start where the engine's current one does, and they differ by
      as much as they did for the members before. */
  lemma NewUnitVerdict(off: int, width: nat, unit: nat, g: Geometry, pack: bool,
                       start: int, next: int, aligned: int, free: int)
    requires unit > 0 && Coupled(g, pack) && Apart(g, unit, pack) && 0 < width <= unit && g.LeadsUpTo(off) && g.unitEnd <= off
    requires aligned == AlignTo(g.end, unit, pack) && aligned >= g.end
    requires start == UnitStart(off, g.unitEnd, unit) && start <= off < start + unit
    requires next - start == aligned - g.unitEnd
    requires free == if off < g.unitEnd + unit && width > g.unitEnd - g.bit then g.end - g.pos else 0
    ensures LandsAt(free, next, off - start, width, unit) == off
      <==> BitfieldPlaceable(off, width, unit, g, pack)
    ensures BitfieldPlaceable(off, width, unit, g, pack) ==> off - start == 0 || off - start > free
  {
  }

  /** The cursor once the whole-unit pads before a field are placed. */
  lemma CursorInNewUnit(off: int, width: nat, unit: nat, g: Geometry, pack: bool) returns (c: Cursor)
    requires unit > 0 && Coupled(g, pack) && 0 < width <= unit && g.LeadsUpTo(off) && g.unitEnd <= off
    ensures 0 <= c.pos <= c.end < c.pos + unit && c.end - c.pos < width
    ensures c.end - c.pos == if off < g.unitEnd + unit && width > g.unitEnd - g.bit then g.end - g.pos else 0
    ensures AlignTo(c.end, unit, pack) - UnitStart(off, g.unitEnd, unit) == AlignTo(g.end, unit, pack) - g.unitEnd
    ensures
      var pads, d := PrePads(off, width, unit, g.bit, g.unitEnd), off - UnitStart(off, g.unitEnd, unit);
      Replay(PadFields(pads, unit), pack, Cursor(g.pos, g.end)) == if d != 0 then Place(c, Pad(d, unit), pack).0 else c
  {
    var c1 := if width <= g.unitEnd - g.bit then Cursor(g.end, g.end) else Cursor(g.pos, g.end);
    ReplayPrePads(off, width, unit, g, pack);
    ReplaySkipped(off, g.unitEnd, unit, pack, c1);
    SkippedRoom(off, unit, g, pack, width);
    c := Replay(PadFields(Skipped(off, g.unitEnd, unit), unit), pack, c1);
    ReplayLead(off - UnitStart(off, g.unitEnd, unit), unit, pack, c);
  }

  /** Where the consumer puts a field the engine starts a new unit for. */
  lemma NewUnitLanding(off: int, width: nat, unit: nat, g: Geometry, pack: bool) returns (next: int, free: int)
    requires unit > 0 && Coupled(g, pack) && 0 < width <= unit && g.LeadsUpTo(off) && g.unitEnd <= off
    ensures next - UnitStart(off, g.unitEnd, unit) == AlignTo(g.end, unit, pack) - g.unitEnd
    ensures free == if off < g.unitEnd + unit && width > g.unitEnd - g.bit then g.end - g.pos else 0
    ensures
      var pads, d := PrePads(off, width, unit, g.bit, g.unitEnd), off - UnitStart(off, g.unitEnd, unit);
      && var (c, at) := Place(Replay(PadFields(pads, unit), pack, Cursor(g.pos, g.end)), Bits(width, unit), pack);
         && at == LandsAt(free, next, d, width, unit)
         && (d + width <= unit && (d == 0 || d > free) ==> c == Cursor(next + d + width, next + unit))
  {
    var before := CursorInNewUnit(off, width, unit, g, pack);
    UnitStartBounds(off, g.unitEnd, unit);
    PlaceLeadAndField(before, off - UnitStart(off, g.unitEnd, unit), width, unit, pack);
    next, free := AlignTo(before.end, unit, pack), before.end - before.pos;
  }

  /** A field the engine starts a new unit for. */
  lemma BitfieldInNewUnit(off: int, width: nat, unit: nat, g: Geometry, pack: bool)
    requires unit > 0 && Coupled(g, pack) && Apart(g, unit, pack) && 0 < width <= unit && g.LeadsUpTo(off) && g.unitEnd <= off
    ensures
      var pads := PrePads(off, width, unit, g.bit, g.unitEnd);
      && var (c, at) := Place(Replay(PadFields(pads, unit), pack, Cursor(g.pos, g.end)), Bits(width, unit), pack);
         && (at == off <==> BitfieldPlaceable(off, width, unit, g, pack))
         && (at == off ==> c == Cursor(off + width, UnitStart(off, g.unitEnd, unit) + unit))
  {
    var next, free := NewUnitLanding(off, width, unit, g, pack);
    UnitStartBounds(off, g.unitEnd, unit);
    AlignProperties(g.end, unit, pack);
    NewUnitVerdict(off, width, unit, g, pack, UnitStart(off, g.unitEnd, unit), next,
                   AlignTo(g.end, unit, pack), free);
  }

  /** What is left of the open unit once the whole-unit pads are placed. */
  lemma SkippedRoom(off: int, unit: nat, g: Geometry, pack: bool, width: nat)
    requires unit > 0 && Coupled(g, pack) && g.LeadsUpTo(off) && g.unitEnd <= off && 0 < width <= unit
    ensures
      var c1 := if width <= g.unitEnd - g.bit then Cursor(g.end, g.end) else Cursor(g.pos, g.end);
      var c2 := Replay(PadFields(Skipped(off, g.unitEnd, unit), unit), pack, c1);
      && 0 <= c2.pos <= c2.end < c2.pos + unit && c2.end - c2.pos < width
      && c2.end - c2.pos == if off < g.unitEnd + unit && width > g.unitEnd - g.bit then g.end - g.pos else 0
  {
    var c1 := if width <= g.unitEnd - g.bit then Cursor(g.end, g.end) else Cursor(g.pos, g.end);
    ReplaySkipped(off, g.unitEnd, unit, pack, c1);
  }

  // ----- The whole structure -----

  /** Except in unions, the engine's two counters follow the geometry. */
  lemma {:induction false} EngineFollows(s: Struct, n: nat)
    requires WellFormed(s) && n <= |s.members|
    ensures EmitAll(s, n).bit == GeometryOf(s, n).bit && EmitAll(s, n).end == GeometryOf(s, n).unitEnd
  {
    if n > 0 {
      EngineFollows(s, n - 1);
      var m, e := s.members[n - 1], EmitAll(s, n - 1);
      assert MemberFits(s, n - 1);
      if !m.emptyBase && m.IsBitfield() {
        if m.Offset() >= e.end {
          AdvanceShape(m.Offset(), m.width, m.UnitBits(), e.bit, e.end);
        }
      }
    }
  }

  /** The bit offset at which the consumer puts member i. */
  function OffsetGiven(s: Struct, i: nat, pack: bool): int
    requires WellFormed(s) && i < |s.members| && !s.members[i].emptyBase
  {
    EngineFollows(s, i + 1);
    var fs := EmitAll(s, i + 1).fields;
    Place(Replay(fs[..|fs| - 1], pack, Cursor(0, 0)), fs[|fs| - 1], pack).1
  }

  predicate Placed(s: Struct, i: nat, pack: bool)
    requires WellFormed(s) && i < |s.members|
  {
    s.members[i].emptyBase || OffsetGiven(s, i, pack) == s.members[i].Offset()
  }

  /** Once the first n members are placed, the consumer stands where the debug information says. */
  predicate InStep(s: Struct, n: nat, pack: bool)
    requires WellFormed(s) && n <= |s.members|
  {
    var g := GeometryOf(s, n);
    EngineFollows(s, n);
    Coupled(g, pack) && Replay(EmitAll(s, n).fields, pack, Cursor(0, 0)) == Cursor(g.pos, g.end)
  }

  lemma PlainMember(s: Struct, i: nat, pack: bool)
    requires WellFormed(s) && i < |s.members| && InStep(s, i, pack)
    requires !s.members[i].emptyBase && !s.members[i].IsBitfield()
    ensures Placeable(s, i, pack) <==> Placed(s, i, pack)
    ensures Placeable(s, i, pack) ==> InStep(s, i + 1, pack)
  {
    assert MemberFits(s, i);
    var fs := EmitAll(s, i + 1).fields;
    assert fs[..|fs| - 1] == EmitAll(s, i).fields;
  }

  /** What the consumer does with a bitfield member and its pads, from where it stands. */
  function BitfieldStep(s: Struct, i: nat, pack: bool): (Cursor, int)
    requires WellFormed(s) && i < |s.members| && s.members[i].IsBitfield()
  {
    var m, g := s.members[i], GeometryOf(s, i);
    assert MemberFits(s, i);
    var pads := PrePads(m.Offset(), m.width, m.UnitBits(), g.bit, g.unitEnd);
    Place(Replay(PadFields(pads, m.UnitBits()), pack, Cursor(g.pos, g.end)), Bits(m.width, m.UnitBits()), pack)
  }

  lemma BitfieldConsumed(s: Struct, i: nat, pack: bool)
    requires WellFormed(s) && i < |s.members| && InStep(s, i, pack)
    requires !s.members[i].emptyBase && s.members[i].IsBitfield()
    ensures Replay(EmitAll(s, i + 1).fields, pack, Cursor(0, 0)) == BitfieldStep(s, i, pack).0
    ensures OffsetGiven(s, i, pack) == BitfieldStep(s, i, pack).1
  {
    var m, g, e := s.members[i], GeometryOf(s, i), EmitAll(s, i);
    assert MemberFits(s, i);
    EngineFollows(s, i);
    var unit := m.UnitBits();
    var pads := PrePads(m.Offset(), m.width, unit, g.bit, g.unitEnd);
    var fs := EmitAll(s, i + 1).fields;
    assert fs == e.fields + PadFields(pads, unit) + [Bits(m.width, unit)];
    assert fs[..|fs| - 1] == e.fields + PadFields(pads, unit);
    ReplayAppend(e.fields, PadFields(pads, unit), pack, Cursor(0, 0));
  }

  lemma NewUnitCoupled(off: int, width: nat, unit: nat, g: Geometry, pack: bool)
    requires unit > 0 && Coupled(g, pack) && 0 < width <= unit && g.LeadsUpTo(off) && g.unitEnd <= off
    requires BitfieldPlaceable(off, width, unit, g, pack)
    ensures Coupled(AfterBits(off, width, unit, g), pack)
  {
    UnitStartBounds(off, g.unitEnd, unit);
    AlignProperties(g.end, unit, pack);
    UnitStartAligned(off, g.unitEnd, unit, pack);
  }

  /** A bitfield lands at its offset exactly when it is placeable, and then the consumer is in step
      with the geometry after it. */
  lemma LandsInStep(off: int, width: nat, unit: nat, g: Geometry, pack: bool)
    requires unit > 0 && Coupled(g, pack) && Apart(g, unit, pack) && 0 < width <= unit && g.LeadsUpTo(off)
    ensures
      var g', pads := AfterBits(off, width, unit, g), PrePads(off, width, unit, g.bit, g.unitEnd);
      && var (c, at) := Place(Replay(PadFields(pads, unit), pack, Cursor(g.pos, g.end)), Bits(width, unit), pack);
         && (at == off <==> BitfieldPlaceable(off, width, unit, g, pack))
         && (at == off ==> c == Cursor(g'.pos, g'.end) && Coupled(g', pack))
  {
    if off < g.unitEnd {
      BitfieldInOpenUnit(off, width, unit, g, pack);
    } else {
      BitfieldInNewUnit(off, width, unit, g, pack);
      if BitfieldPlaceable(off, width, unit, g, pack) {
        NewUnitCoupled(off, width, unit, g, pack);
      }
    }
  }

  /** The open unit is that of a bitfield before. */
  lemma {:induction false} OpenUnit(s: Struct, n: nat)
    requires WellFormed(s) && n <= |s.members|
    ensures
      var open := GeometryOf(s, n).open;
      open == 0 || exists j :: 0 <= j < n && s.members[j].IsBitfield() && s.members[j].UnitBits() == open
  {
    if n > 0 {
      OpenUnit(s, n - 1);
      if s.members[n - 1].IsBitfield() {
        assert s.members[n - 1].UnitBits() == s.members[n - 1].UnitBits();
      }
    }
  }

  lemma UnitsApart(s: Struct, i: nat, pack: bool)
    requires WellFormed(s) && i < |s.members| && s.members[i].IsBitfield() && Coupled(GeometryOf(s, i), pack)
    ensures Apart(GeometryOf(s, i), s.members[i].UnitBits(), pack)
  {
    var g := GeometryOf(s, i);
    if g.pos < g.end {
      OpenUnit(s, i);
      var j :| 0 <= j < i && s.members[j].IsBitfield() && s.members[j].UnitBits() == g.open;
      assert UnitsFit(s, j, i);
      NextUnitApart(g.pos, g.end, g.open, s.members[i].UnitBits(), pack);
    }
  }

  lemma BitfieldVerdict(s: Struct, i: nat, pack: bool)
    requires WellFormed(s) && i < |s.members| && Coupled(GeometryOf(s, i), pack)
    requires !s.members[i].emptyBase && s.members[i].IsBitfield()
    ensures
      var (c, at) := BitfieldStep(s, i, pack);
      var g := GeometryOf(s, i + 1);
      && (at == s.members[i].Offset() <==> Placeable(s, i, pack))
      && (at == s.members[i].Offset() ==> c == Cursor(g.pos, g.end) && Coupled(g, pack))
  {
    var m := s.members[i];
    assert MemberFits(s, i) && Follows(s, i);
    UnitsApart(s, i, pack);
    LandsInStep(m.Offset(), m.width, m.UnitBits(), GeometryOf(s, i), pack);
  }

  lemma BitfieldMember(s: Struct, i: nat, pack: bool)
    requires WellFormed(s) && i < |s.members| && InStep(s, i, pack)
    requires !s.members[i].emptyBase && s.members[i].IsBitfield()
    ensures Placeable(s, i, pack) <==> Placed(s, i, pack)
    ensures Placeable(s, i, pack) ==> InStep(s, i + 1, pack)
  {
    BitfieldConsumed(s, i, pack);
    BitfieldVerdict(s, i, pack);
  }

  lemma {:induction false} UnitStartAligned(off: int, from: int, unit: nat, pack: bool)
    requires unit > 0 && 0 <= from <= off && AlignTo(from, unit, pack) == from
    ensures AlignTo(UnitStart(off, from, unit) + unit, unit, pack) == UnitStart(off, from, unit) + unit
    decreases off - from
  {
    AlignProperties(from, unit, pack);
    if off >= from + unit {
      UnitStartAligned(off, from + unit, unit, pack);
    }
  }

  lemma OneMore(s: Struct, i: nat, pack: bool)
    requires WellFormed(s) && i < |s.members| && InStep(s, i, pack)
    ensures Placed(s, i, pack) <==> Placeable(s, i, pack)
    ensures Placeable(s, i, pack) ==> InStep(s, i + 1, pack)
  {
    assert MemberFits(s, i);
    if !s.members[i].emptyBase {
      if s.members[i].IsBitfield() {
        BitfieldMember(s, i, pack);
      } else {
        PlainMember(s, i, pack);
      }
    }
  }

  lemma StartsInStep(s: Struct, pack: bool)
    requires WellFormed(s)
    ensures InStep(s, 0, pack)
  {
  }

  lemma {:induction false} PlaceableMeansPlaced(s: Struct, n: nat, pack: bool)
    requires WellFormed(s) && n <= |s.members|
    requires forall i :: 0 <= i < n ==> Placeable(s, i, pack)
    ensures InStep(s, n, pack) && forall i :: 0 <= i < n ==> Placed(s, i, pack)
  {
    if n == 0 {
      StartsInStep(s, pack);
    } else {
      PlaceableMeansPlaced(s, n - 1, pack);
      OneMore(s, n - 1, pack);
    }
  }

  lemma {:induction false} PlacedMeansPlaceable(s: Struct, n: nat, pack: bool)
    requires WellFormed(s) && n <= |s.members|
    requires forall i :: 0 <= i < n ==> Placed(s, i, pack)
    ensures InStep(s, n, pack) && forall i :: 0 <= i < n ==> Placeable(s, i, pack)
  {
    if n == 0 {
      StartsInStep(s, pack);
    } else {
      PlacedMeansPlaceable(s, n - 1, pack);
      OneMore(s, n - 1, pack);
    }
  }

  lemma LayoutExactUpTo(s: Struct, n: nat, pack: bool)
    requires WellFormed(s) && n <= |s.members|
    ensures forall i :: 0 <= i < n ==> MemberFits(s, i)
    ensures (forall i :: 0 <= i < n ==> Placed(s, i, pack))
       <==> (forall i :: 0 <= i < n ==> Placeable(s, i, pack))
    ensures (forall i :: 0 <= i < n ==> Placeable(s, i, pack)) ==> InStep(s, n, pack)
  {
    if forall i :: 0 <= i < n ==> Placeable(s, i, pack) {
      PlaceableMeansPlaced(s, n, pack);
    } else if forall i :: 0 <= i < n ==> Placed(s, i, pack) {
      PlacedMeansPlaceable(s, n, pack);
    }
  }

  /** The replay puts every member where the debug information has it exactly when each member is
      placeable. */
  lemma LayoutExact(s: Struct, pack: bool)
    requires WellFormed(s)
    ensures forall i :: 0 <= i < |s.members| ==> MemberFits(s, i)
    ensures (forall i :: 0 <= i < |s.members| ==> Placed(s, i, pack))
       <==> (forall i :: 0 <= i < |s.members| ==> Placeable(s, i, pack))
  {
    LayoutExactUpTo(s, |s.members|, pack);
  }

  // ----- Types without a definition -----

  /** The stand-in for a member whose type has no definition reaches from the member to the next one,
      or to the end of the structure, and asks for no alignment. */
  lemma StandInReaches(s: Struct, i: nat)
    requires UnitsHaveSize(s) && i < |s.members| && !s.NextUnlocated(i)
    requires !s.members[i].defined && !s.members[i].emptyBase && !s.members[i].IsBitfield()
    ensures
      exists size :: EmitAll(s, i + 1).fields == EmitAll(s, i).fields + [Bytes(size, 1)]
        && (match s.members[i].location case Some(at) => at case None => 0) + size
             == if i + 1 < |s.members| then s.members[i + 1].location.value else s.byteSize
  {
    var last := EmitAll(s, i + 1).fields[|EmitAll(s, i).fields|];
    assert EmitAll(s, i + 1).fields == EmitAll(s, i).fields + [Bytes(last.size, 1)];
  }

  predicate IsMultiple(x: nat, a: nat) { a > 0 && x % a == 0 }

  /** So a plain member that comes after it is put at its offset, if that is aligned or all is packed. */
  lemma PlacedAfterStandIn(s: Struct, i: nat, at: nat, pack: bool)
    requires WellFormed(s) && i + 1 < |s.members| && forall j :: 0 <= j <= i ==> Placed(s, j, pack)
    requires !s.members[i].defined && !s.members[i].emptyBase && !s.members[i].IsBitfield()
    requires !s.members[i + 1].emptyBase && !s.members[i + 1].IsBitfield()
    requires s.members[i + 1].location == Some(at) && (pack || IsMultiple(at, s.FieldAlignment(i + 1)))
    ensures Placed(s, i + 1, pack)
  {
    PlacedMeansPlaceable(s, i + 1, pack);
    assert MemberFits(s, i) && MemberFits(s, i + 1);
    MultipleInBits(at, s.FieldAlignment(i + 1));
    OneMore(s, i + 1, pack);
  }

  /** What any other plain member is emitted as: its own type, or the one in its place. */
  lemma PlainEmitted(s: Struct, i: nat)
    requires UnitsHaveSize(s) && i < |s.members|
    requires s.members[i].defined && !s.members[i].emptyBase && !s.members[i].IsBitfield()
    ensures EmitAll(s, i + 1).fields == EmitAll(s, i).fields
      + [match s.members[i].override
         case Some(o) => Bytes(o.size, o.alignment)
         case None => Bytes(s.members[i].size, s.members[i].alignment)]
  {
  }

  /** A member is emitted as a bitfield if it has either of the attributes and is not overridden, and
      DW_AT_data_bit_offset has precedence. */
  lemma BitfieldIff(m: Member)
    ensures m.IsBitfield() <==> m.override.None? && (m.dataBitOffset.Some? || m.bitOffset.Some?)
    ensures m.IsBitfield() && m.dataBitOffset.Some? ==> m.Offset() == m.dataBitOffset.value
  {
  }

  /** A bitfield given by DW_AT_bit_offset: the bits between its end and the end of its storage unit
      are as many as that. */
  lemma BitOffsetCounts(m: Member)
    requires m.IsBitfield() && m.dataBitOffset.None? && m.location.Some?
    ensures m.Offset() + m.width + m.bitOffset.value == 8 * (m.location.value + m.size)
  {
  }
}
