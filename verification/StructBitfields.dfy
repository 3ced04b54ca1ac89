/**
 Consequences for bitfields: what the emitted pads tile, when a structure of bitfields alone is
 replayed exactly, and where the engine goes wrong.
 */
module StructBitfields {
  import opened Options
  import opened StructLayout
  import opened StructArithmetic
  import opened StructReplay

  // ----- Tiling, with no condition on the gaps -----

  function Sum(pads: seq<int>): int {
    if pads == [] then 0 else pads[0] + Sum(pads[1..])
  }

  /** The bits before a field that get no pad: the rest of the current data object, when the field
      is too wide for it. */
  function Unpadded(off: int, width: nat, bit: int, end: int): int {
    if off >= end && width > end - bit then end - bit else 0
  }

  lemma {:induction false} SumAppend(a: seq<int>, b: seq<int>)
    ensures Sum(a + b) == Sum(a) + Sum(b)
  {
    if a == [] {
      assert a + b == b;
    } else {
      assert (a + b)[1..] == a[1..] + b;
      SumAppend(a[1..], b);
    }
  }

  lemma {:induction false} SkippedSum(off: int, from: int, unit: nat)
    requires unit > 0 && from <= off
    ensures Sum(Skipped(off, from, unit)) == UnitStart(off, from, unit) - from
    ensures forall p <- Skipped(off, from, unit) :: p == unit
    decreases off - from
  {
    if off >= from + unit {
      SkippedSum(off, from + unit, unit);
      assert Skipped(off, from, unit)[1..] == Skipped(off, from + unit, unit);
    }
  }

  /** The pads before a field are all positive and, with the unpadded bits, fill exactly the gap
      from the expected bit to the field.  Unpadded bits are the tail of one data object and
      fewer than the field's. */
  lemma PadsTile(off: int, width: nat, unit: nat, bit: int, end: int)
    requires 0 < width <= unit && bit <= end && bit <= off
    ensures
      var pads := PrePads(off, width, unit, bit, end);
      && (forall p <- pads :: p > 0)
      && Unpadded(off, width, bit, end) + Sum(pads) == off - bit
    ensures
      var gap := Unpadded(off, width, bit, end);
      0 <= gap < width && (gap > 0 ==> gap == end - bit && off >= end)
  {
    if off < end {
      SumAppend([], Lead(off - bit));
      assert PrePads(off, width, unit, bit, end) == Lead(off - bit);
    } else {
      var fill := if width <= end - bit then [end - bit] else [];
      var skip, lead := Skipped(off, end, unit), Lead(off - UnitStart(off, end, unit));
      AdvanceShape(off, width, unit, bit, end);
      UnitStartBounds(off, end, unit);
      SkippedSum(off, end, unit);
      SumAppend(fill + skip, lead);
      SumAppend(fill, skip);
      assert PrePads(off, width, unit, bit, end) == fill + skip + lead;
    }
  }

  // ----- Intended ranges -----

  /** The bits that something is meant to occupy. */
  datatype Span = Span(start: int, width: int)

  /** The pads of the loop, each where the engine expects the next bit. */
  function AdvanceSpans(off: int, width: nat, unit: nat, bit: int, end: int): seq<Span>
    requires unit > 0
    decreases off - end
  {
    if off < end then []
    else
      (if width <= end - bit then [Span(bit, end - bit)] else [])
      + AdvanceSpans(off, width, unit, end, end + unit)
  }

  function PadSpans(off: int, width: nat, unit: nat, bit: int, end: int): seq<Span>
    requires unit > 0
  {
    var (_, bit', _) := Advance(off, width, unit, bit, end);
    AdvanceSpans(off, width, unit, bit, end) + if off != bit' then [Span(bit', off - bit')] else []
  }

  function Widths(spans: seq<Span>): seq<int> {
    if spans == [] then [] else [spans[0].width] + Widths(spans[1..])
  }

  lemma {:induction false} WidthsAppend(a: seq<Span>, b: seq<Span>)
    ensures Widths(a + b) == Widths(a) + Widths(b)
  {
    if a == [] {
      assert a + b == b;
    } else {
      assert (a + b)[1..] == a[1..] + b;
      WidthsAppend(a[1..], b);
    }
  }

  lemma {:induction false} AdvanceWidths(off: int, width: nat, unit: nat, bit: int, end: int)
    requires unit > 0
    ensures Widths(AdvanceSpans(off, width, unit, bit, end)) == Advance(off, width, unit, bit, end).0
    decreases off - end
  {
    if off >= end {
      AdvanceWidths(off, width, unit, end, end + unit);
      WidthsAppend(if width <= end - bit then [Span(bit, end - bit)] else [],
                   AdvanceSpans(off, width, unit, end, end + unit));
    }
  }

  /** The ranges are those of the pads that are emitted. */
  lemma PadSpansArePads(off: int, width: nat, unit: nat, bit: int, end: int)
    requires unit > 0
    ensures Widths(PadSpans(off, width, unit, bit, end)) == PrePads(off, width, unit, bit, end)
  {
    var bit' := Advance(off, width, unit, bit, end).1;
    AdvanceWidths(off, width, unit, bit, end);
    WidthsAppend(AdvanceSpans(off, width, unit, bit, end), if off != bit' then [Span(bit', off - bit')] else []);
  }

  /** Each range starts no earlier than the one before ends, and the last ends by to. */
  predicate InOrder(spans: seq<Span>, from: int, to: int)
    decreases |spans|
  {
    if spans == [] then from <= to
    else from <= spans[0].start && spans[0].width >= 0 && InOrder(spans[1..], spans[0].start + spans[0].width, to)
  }

  lemma {:induction false} InOrderAppend(a: seq<Span>, b: seq<Span>, from: int, mid: int, to: int)
    requires InOrder(a, from, mid) && InOrder(b, mid, to)
    ensures InOrder(a + b, from, to)
    decreases |a|
  {
    if a == [] {
      assert a + b == b;
      InOrderWider(b, mid, from, to);
    } else {
      assert (a + b)[1..] == a[1..] + b;
      InOrderAppend(a[1..], b, a[0].start + a[0].width, mid, to);
    }
  }

  lemma InOrderWider(spans: seq<Span>, from: int, from': int, to: int)
    requires InOrder(spans, from, to) && from' <= from
    ensures InOrder(spans, from', to)
  {
  }

  lemma {:induction false} InOrderBounds(spans: seq<Span>, from: int, to: int, k: nat)
    requires InOrder(spans, from, to) && k < |spans|
    ensures from <= spans[k].start && spans[k].start + spans[k].width <= to && spans[k].width >= 0
    decreases |spans|
  {
    InOrderTo(spans[1..], spans[0].start + spans[0].width, to);
    if k > 0 {
      InOrderBounds(spans[1..], spans[0].start + spans[0].width, to, k - 1);
    }
  }

  lemma {:induction false} InOrderTo(spans: seq<Span>, from: int, to: int)
    requires InOrder(spans, from, to)
    ensures from <= to
    decreases |spans|
  {
    if spans != [] {
      InOrderTo(spans[1..], spans[0].start + spans[0].width, to);
    }
  }

  /** Ranges in order do not overlap. */
  lemma {:induction false} InOrderDisjoint(spans: seq<Span>, from: int, to: int, i: nat, j: nat)
    requires InOrder(spans, from, to) && i < j < |spans|
    ensures spans[i].start + spans[i].width <= spans[j].start
    decreases |spans|
  {
    if i == 0 {
      InOrderBounds(spans[1..], spans[0].start + spans[0].width, to, j - 1);
    } else {
      InOrderDisjoint(spans[1..], spans[0].start + spans[0].width, to, i - 1, j - 1);
    }
  }

  /** The pads before a field lie in order between the expected bit and the field. */
  lemma PadsInOrder(off: int, width: nat, unit: nat, bit: int, end: int)
    requires 0 < width <= unit && bit <= end && bit <= off
    ensures InOrder(PadSpans(off, width, unit, bit, end), bit, off)
  {
    AdvanceInOrder(off, width, unit, bit, end);
    var bit' := Advance(off, width, unit, bit, end).1;
    InOrderAppend(AdvanceSpans(off, width, unit, bit, end), if off != bit' then [Span(bit', off - bit')] else [],
                  bit, bit', off);
  }

  lemma {:induction false} AdvanceInOrder(off: int, width: nat, unit: nat, bit: int, end: int)
    requires 0 < width <= unit && bit <= end && bit <= off
    ensures
      var bit' := Advance(off, width, unit, bit, end).1;
      bit' <= off && InOrder(AdvanceSpans(off, width, unit, bit, end), bit, bit')
    decreases off - end
  {
    if off >= end {
      AdvanceInOrder(off, width, unit, end, end + unit);
      var rest := AdvanceSpans(off, width, unit, end, end + unit);
      if width <= end - bit {
        assert ([Span(bit, end - bit)] + rest)[1..] == rest;
      } else {
        assert [] + rest == rest;
        InOrderWider(rest, end, bit, Advance(off, width, unit, bit, end).1);
      }
    }
  }

  /** No bitfield goes beyond the unit it starts in. */
  predicate StaysInUnit(s: Struct, i: nat)
    requires i < |s.members| && UnitsHaveSize(s)
  {
    var m, g := s.members[i], GeometryOf(s, i);
    m.IsBitfield() && !m.emptyBase ==>
      m.Offset() + m.width <=
        if m.Offset() < g.unitEnd then g.unitEnd else UnitStart(m.Offset(), g.unitEnd, m.UnitBits()) + m.UnitBits()
  }

  function MemberSpans(s: Struct, i: nat): seq<Span>
    requires i < |s.members| && UnitsHaveSize(s)
  {
    var m, e := s.members[i], EmitAll(s, i);
    if m.emptyBase then []
    else if m.IsBitfield() then
      PadSpans(m.Offset(), m.width, m.UnitBits(), e.bit, e.end) + [Span(m.Offset(), m.width)]
    else [Span(m.Offset(), 8 * s.Extent(i))]
  }

  predicate AllStay(s: Struct, n: nat)
    requires n <= |s.members| && UnitsHaveSize(s)
  {
    forall i :: 0 <= i < n ==> StaysInUnit(s, i)
  }

  /** All pads and fields of the first n members, in the order in which they are emitted. */
  function Spans(s: Struct, n: nat): seq<Span>
    requires n <= |s.members| && UnitsHaveSize(s)
  {
    if n == 0 then [] else Spans(s, n - 1) + MemberSpans(s, n - 1)
  }

  /** The engine's counters where a member is emitted: the next bit is in the current data object. */
  lemma CountersFit(s: Struct, n: nat)
    requires WellFormed(s) && n <= |s.members| && AllStay(s, n)
    ensures
      var e, g := EmitAll(s, n), GeometryOf(s, n);
      0 <= e.bit <= e.end && (OwnTypes(s) ==> e.bit == g.pos)
  {
    EngineFollows(s, n);
    BitsFit(s, n);
  }

  predicate GeometryFits(g: Geometry, exact: bool) {
    0 <= g.bit <= g.unitEnd && (exact ==> g.bit == g.pos)
  }

  lemma {:induction false} BitsFit(s: Struct, n: nat)
    requires WellFormed(s) && n <= |s.members| && AllStay(s, n)
    ensures GeometryFits(GeometryOf(s, n), OwnTypes(s))
  {
    if n > 0 {
      assert AllStay(s, n - 1);
      BitsFit(s, n - 1);
      assert StaysInUnit(s, n - 1) && MemberFits(s, n - 1) && Follows(s, n - 1) && s.members[n - 1] in s.members;
      OneMoreFits(s, n - 1, GeometryOf(s, n - 1), OwnTypes(s));
    }
  }

  lemma OneMoreFits(s: Struct, i: nat, g: Geometry, exact: bool)
    requires i < |s.members| && MemberFits(s, i) && GeometryFits(g, exact) && (exact ==> s.members[i].defined && s.members[i].override.None?)
    requires
      var m := s.members[i];
      m.IsBitfield() && !m.emptyBase ==>
        && m.size > 0 && m.Offset() >= g.bit
        && m.Offset() + m.width <=
          if m.Offset() < g.unitEnd then g.unitEnd else UnitStart(m.Offset(), g.unitEnd, m.UnitBits()) + m.UnitBits()
    ensures GeometryFits(After(s, i, g), exact)
  {
    var m := s.members[i];
    if !m.emptyBase && m.IsBitfield() && m.Offset() >= g.unitEnd {
      UnitStartBounds(m.Offset(), g.unitEnd, m.UnitBits());
    }
  }

  /** What the pads of a member of a structure are, with no assumption on the counters. */
  lemma StructTiles(s: Struct, i: nat)
    requires WellFormed(s) && i < |s.members| && AllStay(s, i)
    requires s.members[i].IsBitfield() && !s.members[i].emptyBase
    ensures
      var m, e := s.members[i], EmitAll(s, i);
      var pads, gap := MemberPads(m, e), Unpadded(m.Offset(), m.width, e.bit, e.end);
      && (forall p <- pads :: p > 0) && gap + Sum(pads) == m.Offset() - e.bit
      && 0 <= gap < m.width && (gap > 0 ==> gap == e.end - e.bit && m.Offset() >= e.end)
  {
    var m, e := s.members[i], EmitAll(s, i);
    EngineFollows(s, i);
    CountersFit(s, i);
    assert MemberFits(s, i) && Follows(s, i);
    PadsTile(m.Offset(), m.width, m.UnitBits(), e.bit, e.end);
  }

  /** No member starts before the end of those before it. */
  predicate NoOverlap(s: Struct)
    requires UnitsHaveSize(s)
  {
    forall i :: 0 <= i < |s.members| ==> StartsAfter(s, i)
  }

  predicate StartsAfter(s: Struct, i: nat)
    requires i < |s.members| && UnitsHaveSize(s)
  {
    !s.members[i].emptyBase ==> s.members[i].Offset() >= GeometryOf(s, i).pos
  }

  /** A member's pads and field lie in order from the end of the members before it. */
  predicate MemberOrdered(s: Struct, i: nat)
    requires i < |s.members| && UnitsHaveSize(s)
  {
    InOrder(MemberSpans(s, i), GeometryOf(s, i).pos, GeometryOf(s, i + 1).pos)
  }

  lemma MemberInOrder(s: Struct, i: nat)
    requires WellFormed(s) && OwnTypes(s) && i < |s.members| && AllStay(s, i + 1) && StartsAfter(s, i)
    ensures MemberOrdered(s, i)
  {
    var m, e, g := s.members[i], EmitAll(s, i), GeometryOf(s, i);
    assert MemberFits(s, i) && Follows(s, i) && m in s.members;
    if !m.emptyBase && m.IsBitfield() {
      assert AllStay(s, i);
      CountersFit(s, i);
      PadsInOrder(m.Offset(), m.width, m.UnitBits(), e.bit, e.end);
      var field := Span(m.Offset(), m.width);
      assert InOrder([field], m.Offset(), m.Offset() + m.width);
      InOrderAppend(PadSpans(m.Offset(), m.width, m.UnitBits(), e.bit, e.end), [field],
                    g.pos, m.Offset(), m.Offset() + m.width);
    }
  }

  lemma {:induction false} MembersInOrder(s: Struct, n: nat)
    requires UnitsHaveSize(s) && n <= |s.members| && forall i :: 0 <= i < n ==> MemberOrdered(s, i)
    ensures InOrder(Spans(s, n), 0, GeometryOf(s, n).pos)
  {
    if n > 0 {
      MembersInOrder(s, n - 1);
      assert MemberOrdered(s, n - 1);
      InOrderAppend(Spans(s, n - 1), MemberSpans(s, n - 1), 0, GeometryOf(s, n - 1).pos, GeometryOf(s, n).pos);
    }
  }

  /** The intended ranges of all pads and fields of a structure are disjoint and in order.  A type
      without a definition is an exception, since the engine goes on from where its stand-in starts, and
      so is one that is overridden. */
  lemma SpansInOrder(s: Struct, i: nat, j: nat)
    requires WellFormed(s) && OwnTypes(s) && AllStay(s, |s.members|) && NoOverlap(s) && i < j < |Spans(s, |s.members|)|
    ensures
      var spans := Spans(s, |s.members|);
      spans[i].start >= 0 && spans[i].start + spans[i].width <= spans[j].start
  {
    var n := |s.members|;
    forall k | 0 <= k < n
      ensures MemberOrdered(s, k)
    {
      assert AllStay(s, k + 1) && StartsAfter(s, k);
      MemberInOrder(s, k);
    }
    MembersInOrder(s, n);
    InOrderDisjoint(Spans(s, n), 0, GeometryOf(s, n).pos, i, j);
    InOrderBounds(Spans(s, n), 0, GeometryOf(s, n).pos, i);
  }

  // ----- Structures of bitfields alone -----

  predicate OnlyBitfields(s: Struct, unit: nat)
    requires unit > 0
  {
    forall i :: 0 <= i < |s.members| ==>
      var m := s.members[i];
      m.IsBitfield() && !m.emptyBase && m.UnitBits() == unit && m.Offset() >= 0
      && m.Offset() + m.width <= UnitStart(m.Offset(), 0, unit) + unit
  }

  /** The end of the bitfield before member i. */
  function PreviousEnd(s: Struct, i: nat): int
    requires i <= |s.members|
  {
    if i == 0 then 0 else s.members[i - 1].Offset() + s.members[i - 1].width
  }

  /** Member i starts the unit after the one its predecessor ends in, is too wide for the bits left
      there, and starts no later in its own unit than that many bits. */
  predicate SlipsBack(s: Struct, unit: nat, i: nat)
    requires unit > 0 && i < |s.members|
  {
    var prev, off := PreviousEnd(s, i), s.members[i].Offset();
    var next := RoundUp(prev, unit);
    next <= off < next + unit && next - prev < s.members[i].width && 0 < off - next <= next - prev
  }

  /** Units that tile from a multiple of the unit tile from 0. */
  lemma {:induction false} SameUnits(off: int, from: int, at: int, unit: nat)
    requires unit > 0 && from <= at <= off && Upwards(from, at, unit) == at
    ensures UnitStart(off, at, unit) == UnitStart(off, from, unit)
    decreases at - from
  {
    if from < at {
      UpwardsBounds(from + unit, at, unit);
      SameUnits(off, from + unit, at, unit);
    }
  }

  lemma {:induction false} UnitEndIsRoundUp(off: int, end: int, from: int, unit: nat)
    requires unit > 0 && from <= off < end <= UnitStart(off, from, unit) + unit
    ensures Upwards(from, end, unit) == UnitStart(off, from, unit) + unit
    decreases off - from
  {
    if off >= from + unit {
      UnitEndIsRoundUp(off, end, from + unit, unit);
    }
  }

  /** In a structure of bitfields the expected end is the end of the unit the last one ends in. */
  lemma {:induction false} BitfieldGeometry(s: Struct, unit: nat, n: nat)
    requires unit > 0 && WellFormed(s) && OnlyBitfields(s, unit) && n <= |s.members|
    ensures
      var g, prev := GeometryOf(s, n), PreviousEnd(s, n);
      && g == Geometry(prev, RoundUp(prev, unit), prev, RoundUp(prev, unit), g.open) && prev >= 0
      && (n > 0 ==> g.open == unit)
  {
    if n > 0 {
      BitfieldGeometry(s, unit, n - 1);
      assert MemberFits(s, n - 1) && Follows(s, n - 1);
      var m, g := s.members[n - 1], GeometryOf(s, n - 1);
      var off, prev := m.Offset(), PreviousEnd(s, n - 1);
      UnitStartBounds(off, 0, unit);
      UpwardsBounds(0, prev, unit);
      UpwardsAgain(0, prev, unit);
      UnitEndIsRoundUp(off, off + m.width, 0, unit);
      if off < g.unitEnd {
        SameUnitWithin(off, prev, unit);
      } else {
        SameUnits(off, 0, g.unitEnd, unit);
      }
    }
  }

  lemma SameUnitWithin(off: int, prev: int, unit: nat)
    requires unit > 0 && 0 <= prev <= off < RoundUp(prev, unit)
    ensures UnitStart(off, 0, unit) + unit == RoundUp(prev, unit)
  {
    SameUnitFrom(off, prev, 0, unit);
  }

  lemma {:induction false} SameUnitFrom(off: int, prev: int, from: int, unit: nat)
    requires unit > 0 && from <= prev <= off < Upwards(from, prev, unit)
    ensures UnitStart(off, from, unit) + unit == Upwards(from, prev, unit)
    decreases prev - from
  {
    UpwardsBounds(from, prev, unit);
    if prev > from + unit {
      UpwardsBounds(from + unit, prev, unit);
      SameUnitFrom(off, prev, from + unit, unit);
    }
  }

  /** So what is said of pads and ranges above holds of such structures. */
  lemma BitfieldsStay(s: Struct, unit: nat)
    requires unit > 0 && WellFormed(s) && OnlyBitfields(s, unit)
    ensures AllStay(s, |s.members|)
  {
    forall i | 0 <= i < |s.members|
      ensures StaysInUnit(s, i)
    {
      BitfieldGeometry(s, unit, i);
      assert MemberFits(s, i) && Follows(s, i);
      var prev, off := PreviousEnd(s, i), s.members[i].Offset();
      UpwardsBounds(0, prev, unit);
      UpwardsAgain(0, prev, unit);
      if off < RoundUp(prev, unit) {
        SameUnitWithin(off, prev, unit);
      } else {
        SameUnits(off, 0, RoundUp(prev, unit), unit);
      }
    }
  }

  /** A structure of bitfields with one storage type, none straddling a unit, is replayed exactly
      if and only if no member slips back, whether or not it is packed. */
  lemma BitfieldsExact(s: Struct, unit: nat, pack: bool)
    requires unit > 0 && WellFormed(s) && OnlyBitfields(s, unit)
    ensures (forall i :: 0 <= i < |s.members| ==> Placed(s, i, pack))
       <==> (forall i :: 0 <= i < |s.members| ==> !SlipsBack(s, unit, i))
  {
    LayoutExact(s, pack);
    forall i | 0 <= i < |s.members|
      ensures Placeable(s, i, pack) <==> !SlipsBack(s, unit, i)
    {
      BitfieldPlaceableUnlessSlips(s, unit, i, pack);
    }
  }

  lemma BitfieldPlaceableUnlessSlips(s: Struct, unit: nat, i: nat, pack: bool)
    requires unit > 0 && WellFormed(s) && OnlyBitfields(s, unit) && i < |s.members|
    ensures Placeable(s, i, pack) <==> !SlipsBack(s, unit, i)
  {
    BitfieldGeometry(s, unit, i);
    assert MemberFits(s, i) && Follows(s, i);
    var prev, off := PreviousEnd(s, i), s.members[i].Offset();
    var next := RoundUp(prev, unit);
    UpwardsBounds(0, prev, unit);
    UpwardsAgain(0, prev, unit);
    if off < next {
      SameUnitWithin(off, prev, unit);
    } else {
      SameUnits(off, 0, next, unit);
      UnitStartBounds(off, next, unit);
    }
  }

  function BitfieldAt(off: nat, width: nat, size: nat): Member {
    Member(Some(0), Some(off), None, width, size, size, true, None, false, false)
  }

  /** `uint32_t a:30; uint32_t :2; uint32_t :2; uint32_t b:16;` */
  predicate Slipping(s: Struct) {
    s == Struct([BitfieldAt(0, 30, 4), BitfieldAt(34, 16, 4)], 8, false, false)
  }

  lemma SlippingMembers(s: Struct)
    requires Slipping(s)
    ensures |s.members| == 2 && UnitsHaveSize(s) && !s.isUnion && MemberFits(s, 0) && MemberFits(s, 1)
    ensures forall m <- s.members :: m.IsBitfield() && !m.emptyBase && m.UnitBits() == 32
    ensures s.members[0].Offset() == 0 && s.members[0].width == 30
    ensures s.members[1].Offset() == 34 && s.members[1].width == 16
  {
    assert s.members[0] == BitfieldAt(0, 30, 4) && s.members[1] == BitfieldAt(34, 16, 4);
  }

  lemma SlippingFollows(s: Struct)
    requires Slipping(s)
    ensures UnitsHaveSize(s) && |s.members| == 2 && Follows(s, 0) && Follows(s, 1)
  {
    SlippingMembers(s);
    assert GeometryOf(s, 0) == Geometry(0, 0, 0, 0, 0);
    assert GeometryOf(s, 1) == After(s, 0, GeometryOf(s, 0));
    assert GeometryOf(s, 1).pos == 30;
  }

  lemma SlippingIsWellFormed(s: Struct)
    requires Slipping(s)
    ensures WellFormed(s) && OnlyBitfields(s, 32)
  {
    SlippingMembers(s);
    SlippingFollows(s);
    SlippingUnits(s);
    SlippingOnlyBits(s);
  }

  lemma SlippingUnits(s: Struct)
    requires Slipping(s)
    ensures |s.members| == 2 && forall i, j :: 0 <= i < 2 && 0 <= j < 2 ==> UnitsFit(s, i, j)
  {
    SlippingMembers(s);
    forall i, j | 0 <= i < 2 && 0 <= j < 2
      ensures UnitsFit(s, i, j)
    {
      assert s.members[i] in s.members && s.members[j] in s.members;
    }
  }

  lemma SlippingOnlyBits(s: Struct)
    requires Slipping(s)
    ensures OnlyBitfields(s, 32)
  {
    SlippingMembers(s);
    assert UnitStart(0, 0, 32) == 0 && UnitStart(34, 0, 32) == 32;
  }

  /** It comes out wrong: b is at bit 34, and its 2-bit pad fits in the 2 bits that a leaves. */
  lemma BitfieldsSlip(s: Struct, pack: bool)
    requires Slipping(s)
    ensures WellFormed(s) && OnlyBitfields(s, 32)
    ensures !forall i :: 0 <= i < 2 ==> Placed(s, i, pack)
  {
    SlippingIsWellFormed(s);
    SlippingSlips(s);
    BitfieldsExact(s, 32, pack);
  }

  lemma SlippingSlips(s: Struct)
    requires Slipping(s)
    ensures SlipsBack(s, 32, 1)
  {
    assert PreviousEnd(s, 1) == 30;
    assert RoundUp(30, 32) == 32;
  }

  // ----- Unions -----

  /** A union: every bitfield starts at bit 0. */
  predicate UnionAtZero(s: Struct) {
    && s.isUnion && UnitsHaveSize(s)
    && forall i :: 0 <= i < |s.members| ==> AtZero(s.members[i])
  }

  predicate AtZero(m: Member) {
    !m.emptyBase && (m.IsBitfield() ==> m.Offset() == 0 && 0 < m.width <= m.UnitBits())
  }

  /** The counters of a union: untouched by plain members, left inside the unit by a bitfield. */
  lemma {:induction false} UnionCounters(s: Struct, n: nat)
    requires UnionAtZero(s) && n <= |s.members|
    ensures
      var e := EmitAll(s, n);
      && e.end >= 0 && (e.bit == e.end == 0 || (e.bit > 0 && e.end > 0))
      && ((forall k :: 0 <= k < n ==> !s.members[k].IsBitfield()) ==> e.bit == 0)
  {
    if n > 0 {
      UnionCounters(s, n - 1);
      assert AtZero(s.members[n - 1]);
    }
  }

  /** The first bitfield of a union gets no pad. */
  lemma UnionFirst(s: Struct, j: nat)
    requires UnionAtZero(s) && j < |s.members|
    requires forall k :: 0 <= k < j ==> !s.members[k].IsBitfield()
    ensures MemberPads(s.members[j], EmitAll(s, j)) == []
  {
    UnionCounters(s, j);
    assert AtZero(s.members[j]);
  }

  /** Each bitfield of a union after the first gets a pad of negative width. */
  lemma UnionPads(s: Struct, i: nat, j: nat)
    requires UnionAtZero(s) && i < j < |s.members|
    requires s.members[i].IsBitfield() && s.members[j].IsBitfield()
    requires forall k :: i < k < j ==> !s.members[k].IsBitfield()
    ensures
      var width: int := s.members[i].width;
      MemberPads(s.members[j], EmitAll(s, j)) == [-width]
  {
    UnionCounters(s, i);
    UnionKeeps(s, i, j);
    assert AtZero(s.members[j]);
  }

  lemma {:induction false} UnionKeeps(s: Struct, i: nat, n: nat)
    requires UnionAtZero(s) && i < n <= |s.members| && s.members[i].IsBitfield()
    requires forall k :: i < k < n ==> !s.members[k].IsBitfield()
    ensures EmitAll(s, n).bit == s.members[i].width && EmitAll(s, n).end > 0
  {
    assert AtZero(s.members[n - 1]);
    if n > i + 1 {
      UnionKeeps(s, i, n - 1);
    } else {
      UnionCounters(s, i);
    }
  }

  predicate TwoBitfields(s: Struct) {
    exists i, j :: 0 <= i < j < |s.members| && s.members[i].IsBitfield() && s.members[j].IsBitfield()
  }

  /** The last bitfield before j. */
  lemma {:induction false} LastBitfield(s: Struct, j: nat, i: nat) returns (k: nat)
    requires i < j <= |s.members| && s.members[i].IsBitfield()
    ensures i <= k < j && s.members[k].IsBitfield() && forall l :: k < l < j ==> !s.members[l].IsBitfield()
    decreases j
  {
    if s.members[j - 1].IsBitfield() {
      k := j - 1;
    } else {
      k := LastBitfield(s, j - 1, i);
    }
  }

  /** A union is emitted without pads if and only if at most one of its members is a bitfield. */
  lemma UnionPaddedIff(s: Struct)
    requires UnionAtZero(s)
    ensures (exists j :: 0 <= j < |s.members| && MemberPads(s.members[j], EmitAll(s, j)) != []) <==> TwoBitfields(s)
  {
    if i, j :| 0 <= i < j < |s.members| && s.members[i].IsBitfield() && s.members[j].IsBitfield() {
      var k := LastBitfield(s, j, i);
      UnionPads(s, k, j);
    } else {
      forall j | 0 <= j < |s.members|
        ensures MemberPads(s.members[j], EmitAll(s, j)) == []
      {
        if s.members[j].IsBitfield() {
          UnionFirst(s, j);
        }
      }
    }
  }

  /** `union { uint32_t a:3; uint32_t b:5; };` */
  predicate ThreeOrFive(s: Struct) {
    s == Struct([BitfieldAt(0, 3, 4), BitfieldAt(0, 5, 4)], 4, true, false)
  }

  /** b gets a pad of -3 bits. */
  lemma UnionGoesWrong(s: Struct)
    requires ThreeOrFive(s)
    ensures UnionAtZero(s) && MemberPads(s.members[1], EmitAll(s, 1)) == [-3]
  {
    assert s.members[0] == BitfieldAt(0, 3, 4) && s.members[1] == BitfieldAt(0, 5, 4);
    assert AtZero(s.members[0]) && AtZero(s.members[1]);
    UnionPads(s, 0, 1);
  }
}
