/**
 `MemberType.define` and `StructType.define` as they run: loops over the members that update the
 field list, the counters and the packing in place, proved to compute what `StructLayout`,
 `StructSize` and `StructOffsets` say.
 */
module StructDefine {
  import opened Options
  import opened StructLayout
  import opened StructArithmetic
  import opened StructSize
  import opened StructOffsets

  predicate PowerOfTwo(a: nat) {
    a == 1 || (a > 1 && a % 2 == 0 && PowerOfTwo(a / 2))
  }

  /** Of two powers of two, the smaller divides the larger. */
  lemma {:induction false} PowersDivide(a: nat, b: nat)
    requires PowerOfTwo(a) && PowerOfTwo(b) && a >= b
    ensures a % b == 0
    decreases b
  {
    if b > 1 {
      PowersDivide(a / 2, b / 2);
      RemainderOf(a, b, (a / 2) / (b / 2), 0);
    }
  }

  lemma {:induction false} MaxIsPower(s: Struct, n: nat)
    requires n <= |s.members| && PowerAligned(s)
    ensures PowerOfTwo(MaxAlignment(s, n))
  {
    if n > 0 {
      MaxIsPower(s, n - 1);
    }
  }

  /** Every type is aligned to a power of two. */
  predicate PowerAligned(s: Struct) {
    forall m <- s.members :: PowerOfTwo(m.alignment)
  }

  /** Member i is emitted with its own alignment. */
  predicate Aligning(s: Struct, i: nat)
    requires i < |s.members|
  {
    !s.members[i].emptyBase && s.members[i].defined
  }

  /** The alignment of a structure is 1 or that of a member, and every member's divides it. */
  lemma {:induction false} AlignmentIsLargest(s: Struct, n: nat)
    requires n <= |s.members| && PowerAligned(s)
    ensures MaxAlignment(s, n) == 1 || exists i :: 0 <= i < n && Aligning(s, i) && MaxAlignment(s, n) == s.members[i].alignment
    ensures forall i :: 0 <= i < n && Aligning(s, i) ==> s.members[i].alignment > 0 && MaxAlignment(s, n) % s.members[i].alignment == 0
  {
    if n > 0 {
      AlignmentIsLargest(s, n - 1);
      var a, b := MaxAlignment(s, n), MaxAlignment(s, n - 1);
      MaxIsPower(s, n);
      MaxIsPower(s, n - 1);
      PowersDivide(a, b);
      forall i | 0 <= i < n && Aligning(s, i)
        ensures s.members[i].alignment > 0 && a % s.members[i].alignment == 0
      {
        assert s.members[i] in s.members;
        if i == n - 1 {
          PowersDivide(a, s.members[i].alignment);
        } else {
          DividesOn(s.members[i].alignment, b, a);
        }
      }
      if a != b {
        assert Aligning(s, n - 1);
      }
    }
  }

  lemma DividesOn(a: nat, b: nat, c: nat)
    requires a > 0 && b > 0 && b % a == 0 && c % b == 0
    ensures c % a == 0
  {
    var q, k := c / b, b / a;
    assert c == q * b && b == k * a;
    assert c == a * (q * k) by { Reorders(a, k, q); }
    RemainderOf(c, a, q * k, 0);
  }

  lemma Reorders(a: int, k: int, q: int)
    ensures q * (k * a) == a * (q * k)
  {
  }

  /** When a structure, of bitfields or of whatever, is packed: on a hint, or when a member's alignment
      does not divide its offset, or not the size of the structure. */
  lemma PackedIff(s: Struct)
    requires PowerAligned(s)
    ensures Packed(s) <==>
      || s.packHint
      || exists i :: 0 <= i < |s.members| && Aligning(s, i) && Misfits(s.members[i], s.byteSize)
  {
    var n := |s.members|;
    var a := MaxAlignment(s, n);
    AlignmentIsLargest(s, n);
    forall i | 0 <= i < n && Aligning(s, i)
      ensures s.members[i].alignment > 0 && (s.byteSize % s.members[i].alignment != 0 ==> s.byteSize % a != 0)
    {
      if s.byteSize % a == 0 {
        DividesOn(s.members[i].alignment, a, s.byteSize);
      }
    }
    if Packed(s) && !s.packHint {
      if i :| 0 <= i < n && Unaligned(s, i) {
        assert Aligning(s, i) && Misfits(s.members[i], s.byteSize);
      } else {
        assert s.byteSize % a != 0;
        var i :| 0 <= i < n && Aligning(s, i) && a == s.members[i].alignment;
        assert Misfits(s.members[i], s.byteSize);
      }
    } else if i :| 0 <= i < n && Aligning(s, i) && Misfits(s.members[i], s.byteSize) {
      assert Unaligned(s, i) || s.byteSize % a != 0;
    }
  }

  predicate Misfits(m: Member, byteSize: nat) {
    m.alignment > 0 && ((m.location.Some? && m.location.value % m.alignment != 0) || byteSize % m.alignment != 0)
  }

  class MemberType {
    const die: Struct
    var alignment: nat
    var packed: bool
    var fields: seq<Field>
    var prePads: seq<seq<int>>
    var offsets: seq<Option<int>>

    constructor (die: Struct)
      ensures this.die == die && packed == die.packHint
      ensures alignment == 0 && fields == [] && prePads == [] && offsets == []
    {
      this.die, packed := die, die.packHint;
      alignment, fields, prePads, offsets := 0, [], [], [];
    }

    /** Emits padding until the bit at off is the next one, moving on to new data objects. */
    method PadTo(off: int, width: nat, unit: nat, bit: int, end: int)
      returns (pads: seq<int>, end': int)
      requires unit > 0
      modifies `fields
      ensures pads == PrePads(off, width, unit, bit, end) && end' == Advance(off, width, unit, bit, end).2
      ensures fields == old(fields) + PadFields(pads, unit)
    {
      var bit' := bit;
      pads, end' := [], end;
      ghost var total := Advance(off, width, unit, bit, end);
      assert [] + total.0 == total.0;
      while off >= end'
        invariant Remains(total, pads, Advance(off, width, unit, bit', end'))
        invariant fields == old(fields) + PadFields(pads, unit)
        decreases off - end'
      {
        Moves(total, pads, off, width, unit, bit', end');
        if width <= end' - bit' {
          AddPad(pads, end' - bit', unit);
          pads := pads + [end' - bit'];
          fields := fields + [Pad(end' - bit', unit)];
        }
        bit' := end';
        end' := bit' + unit;
      }
      assert Advance(off, width, unit, bit', end') == ([], bit', end') && pads + [] == pads;
      var diff := off - bit';
      if diff != 0 {
        AddPad(pads, diff, unit);
        pads := pads + [diff];
        fields := fields + [Pad(diff, unit)];
      }
    }

    /** The whole of the loop is what it has emitted and what it still will. */
    ghost predicate Remains(total: (seq<int>, int, int), pads: seq<int>, rest: (seq<int>, int, int)) {
      total == (pads + rest.0, rest.1, rest.2)
    }

    lemma Moves(total: (seq<int>, int, int), pads: seq<int>, off: int, width: nat, unit: nat, bit: int, end: int)
      requires unit > 0 && off >= end && Remains(total, pads, Advance(off, width, unit, bit, end))
      ensures Remains(total, if width <= end - bit then pads + [end - bit] else pads,
                      Advance(off, width, unit, end, end + unit))
    {
      var rest := Advance(off, width, unit, end, end + unit).0;
      assert pads + ([end - bit] + rest) == (pads + [end - bit]) + rest;
      assert [] + rest == rest;
    }

    lemma AddPad(pads: seq<int>, p: int, unit: nat)
      ensures PadFields(pads + [p], unit) == PadFields(pads, unit) + [Pad(p, unit)]
    {
      assert (pads + [p])[..|pads|] == pads;
    }

    /** One member: its pads and its field. */
    method DefineMember(i: nat, bit: int, end: int) returns (bit': int, end': int)
      requires i < |die.members| && UnitsHaveSize(die) && !die.members[i].emptyBase
      requires Engine(fields, prePads, bit, end) == EmitAll(die, i)
      modifies `fields, `prePads
      ensures Engine(fields, prePads, bit', end') == EmitAll(die, i + 1)
    {
      var m := die.members[i];
      if m.IsBitfield() {
        var pads;
        pads, end' := PadTo(m.Offset(), m.width, m.UnitBits(), bit, end);
        bit' := m.Offset() + m.width;
        fields, prePads := fields + [Bits(m.width, m.UnitBits())], prePads + [pads];
      } else {
        bit', end' := bit, end;
        fields, prePads := fields + [Bytes(die.Extent(i), die.FieldAlignment(i))], prePads + [[]];
        if !die.isUnion {
          bit' := 8 * (m.Location() + m.size);
          end' := bit';
        }
      }
    }

    /** The layout loop, the trailing pad and the packing.  It raises at a member without a definition
        that is followed by one without a byte offset. */
    method Define() returns (raised: bool)
      requires UnitsHaveSize(die) && PowerAligned(die)
      requires packed == die.packHint && fields == [] && prePads == []
      modifies `alignment, `packed, `fields, `prePads
      ensures raised <==> exists i :: 0 <= i < |die.members| && die.NextUnlocated(i)
      ensures !raised ==>
        && fields == AllFields(die) && prePads == EmitAll(die, |die.members|).prePads
        && packed == Packed(die)
        && alignment == if Packed(die) then 1 else MaxAlignment(die, |die.members|)
    {
      var bit, end := 0, 0;
      alignment := 1;
      for i := 0 to |die.members|
        invariant Engine(fields, prePads, bit, end) == EmitAll(die, i)
        invariant alignment == MaxAlignment(die, i)
        invariant packed == LooksPacked(die, i)
        invariant forall j :: 0 <= j < i ==> !die.NextUnlocated(j)
      {
        var m := die.members[i];
        if m.emptyBase {
          prePads := prePads + [[]];
          continue;
        }
        if !m.defined && i + 1 < |die.members| && die.members[i + 1].location.None? {
          assert die.NextUnlocated(i);
          return true;
        }
        var fieldAlignment := die.Alignment(i);
        if fieldAlignment > alignment {
          MaxIsPower(die, i);
          assert m in die.members;
          PowersDivide(fieldAlignment, alignment);
          assert fieldAlignment % alignment == 0;
          alignment := fieldAlignment;
        }
        bit, end := DefineMember(i, bit, end);
        if m.location.Some? && fieldAlignment != 0 && !packed && m.location.value % fieldAlignment != 0 {
          assert Unaligned(die, i);
          packed := true;
        }
      }
      if |die.members| != 0 {
        Finish(end);
      }
      if packed {
        alignment := 1;
      }
      return false;
    }

    /** The trailing pad and the last look at the size. */
    method Finish(end: int)
      requires UnitsHaveSize(die) && die.members != []
      requires
        var n := |die.members|;
        && fields == EmitAll(die, n).fields && end == EmitAll(die, n).end
        && alignment == MaxAlignment(die, n) && packed == LooksPacked(die, n)
      modifies `packed, `fields
      ensures fields == AllFields(die) && packed == Packed(die)
    {
      var estimate := end / 8;
      var residue := estimate % alignment;
      if residue != 0 {
        estimate := estimate + (alignment - residue);
      }
      if !die.isUnion && estimate < die.byteSize && !AllInherited(die) {
        fields := fields + [Bytes(die.byteSize - estimate, 1)];
      }
      if !packed && die.byteSize % alignment != 0 {
        packed := true;
      }
    }

    /** Writes the table of offsets. */
    method DefineOffsets()
      requires UnitsHaveSize(die) && prePads == EmitAll(die, |die.members|).prePads && offsets == []
      modifies `offsets
      ensures offsets == TableOf(die, PadsOf(die), |die.members|).entries
    {
      ghost var pads := PadsOf(die);
      assert |pads| == |die.members| == |prePads| && forall i :: 0 <= i < |pads| ==> pads[i] == |prePads[i]| by {
        EngineCounts(die, |die.members|);
      }
      var last: Option<Option<nat>> := None;
      for i := 0 to |die.members|
        invariant Table(offsets, last) == TableOf(die, pads, i)
      {
        var m := die.members[i];
        var offset: Option<int> := None;
        if Some(m.location) != last && m.override.None? {
          offset := if m.location.Some? then Some(m.location.value) else None;
          last := Some(m.location);
        }
        AddRow(|prePads[i]|, offset);
      }
    }

    /** A row of the table: -1 for each pad, and the member's own entry. */
    method AddRow(pads: nat, entry: Option<int>)
      modifies `offsets
      ensures offsets == old(offsets) + Copies(Some(-1), pads) + [entry]
    {
      for k := 0 to pads
        invariant offsets == old(offsets) + Copies(Some(-1), k)
      {
        offsets := offsets + [Some(-1)];
      }
      offsets := offsets + [entry];
    }
  }
}
