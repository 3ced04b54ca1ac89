/**
 The checks that a generated module makes of itself: does a type hold pointers, remembered from one
 question to the next; are fields that hold pointers aligned; is the size right.
 */
module RuntimeChecks {
  import StructLayout
  import StructArithmetic
  import StructReplay
  import StructSize

  /** A ctypes type.  Types are known by their position in the order in which they were completed. */
  datatype CType = Pointer | VoidPointer | Aggregate(fields: seq<nat>) | Plain
  {
    predicate IsPointer() { Pointer? || VoidPointer? }
  }

  /** A field's type is complete before the type that has the field. */
  predicate Completed(types: seq<CType>) {
    forall t, k :: 0 <= t < |types| && types[t].Aggregate? && 0 <= k < |types[t].fields| ==> types[t].fields[k] < t
  }

  /** A way through fields of fields to a pointer. */
  predicate LeadsToPointer(types: seq<CType>, way: seq<nat>) {
    && way != [] && (forall i :: 0 <= i < |way| ==> way[i] < |types|)
    && (forall i :: 0 <= i < |way| - 1 ==> types[way[i]].Aggregate? && way[i + 1] in types[way[i]].fields)
    && types[way[|way| - 1]] in {Pointer, VoidPointer}
  }

  ghost predicate HoldsPointer(types: seq<CType>, t: nat) {
    exists way :: LeadsToPointer(types, way) && way[0] == t
  }

  lemma HoldsIff(types: seq<CType>, t: nat)
    requires t < |types|
    ensures HoldsPointer(types, t) <==>
      types[t].IsPointer() || (types[t].Aggregate? && exists f :: f in types[t].fields && HoldsPointer(types, f))
  {
    if types[t].IsPointer() {
      assert LeadsToPointer(types, [t]);
    }
    if HoldsPointer(types, t) && !types[t].IsPointer() {
      var way :| LeadsToPointer(types, way) && way[0] == t;
      assert LeadsToPointer(types, way[1..]);
      assert way[1] in types[t].fields && HoldsPointer(types, way[1]);
    }
    if types[t].Aggregate? {
      forall f | f in types[t].fields && HoldsPointer(types, f)
        ensures HoldsPointer(types, t)
      {
        var way :| LeadsToPointer(types, way) && way[0] == f;
        assert LeadsToPointer(types, [t] + way);
      }
    }
  }

  class PointerCheck {
    const types: seq<CType>
    var memo: map<nat, bool>

    /** What is remembered is right. */
    ghost predicate Valid()
      reads this
    {
      && Completed(types)
      && forall t <- memo :: t < |types| && (memo[t] <==> HoldsPointer(types, t))
    }

    constructor (types: seq<CType>)
      requires Completed(types)
      ensures Valid() && this.types == types && memo == map[]
    {
      this.types, memo := types, map[];
    }

    /** Answers from memory, or goes through the fields until one holds a pointer. */
    method HasPointers(t: nat) returns (rv: bool)
      requires Valid() && t < |types|
      modifies this
      ensures Valid() && (rv <==> HoldsPointer(types, t))
      ensures t in memo && forall t' <- old(memo) :: t' in memo
      decreases t
    {
      if t in memo {
        return memo[t];
      }
      HoldsIff(types, t);
      rv := types[t].IsPointer();
      if types[t].Aggregate? {
        var fields := types[t].fields;
        for k := 0 to |fields|
          invariant Valid() && !rv && forall t' <- old(memo) :: t' in memo
          invariant forall j :: 0 <= j < k ==> !HoldsPointer(types, fields[j])
        {
          rv := HasPointers(fields[k]);
          if rv {
            break;
          }
        }
      }
      memo := memo[t := rv];
    }

    /** The positions of the fields of a type that are misaligned, hold pointers and are not allowed
        to be misaligned. */
    method CheckUnalignedPtrs(t: nat, names: seq<string>, offsets: seq<nat>, alignments: seq<nat>, allowed: Allowed)
      returns (errors: seq<nat>)
      requires Valid() && t < |types| && types[t].Aggregate?
      requires |names| == |offsets| == |alignments| == |types[t].fields|
      modifies this
      ensures Valid()
      ensures forall k: nat :: k in errors <==>
        && k < |names| && alignments[k] != 0 && offsets[k] % alignments[k] != 0
        && allowed.Named? && names[k] !in allowed.names && HoldsPointer(types, types[t].fields[k])
      ensures forall i, j :: 0 <= i < j < |errors| ==> errors[i] < errors[j]
    {
      errors := [];
      if allowed.Everything? {
        return;
      }
      for k := 0 to |names|
        invariant Valid()
        invariant forall j: nat :: j in errors <==>
          && j < k && alignments[j] != 0 && offsets[j] % alignments[j] != 0
          && names[j] !in allowed.names && HoldsPointer(types, types[t].fields[j])
        invariant forall i :: 0 <= i < |errors| ==> errors[i] < k
        invariant forall i, j :: 0 <= i < j < |errors| ==> errors[i] < errors[j]
      {
        if alignments[k] == 0 || offsets[k] % alignments[k] == 0 {
          continue;
        }
        var holds := HasPointers(types[t].fields[k]);
        if holds && names[k] !in allowed.names {
          errors := errors + [k];
        }
      }
    }
  }

  /** The fields a class allows to be misaligned: the ones named, or all. */
  datatype Allowed = Everything | Named(names: seq<string>)

  /** The size check reports nothing: sizes agree, or an empty class has the size 1. */
  predicate SizeAccepted(size: int, native: nat) {
    size == native || (size == 0 && native == 1)
  }

  /** When all members are placed, the size check accepts what was emitted exactly when the size fits,
      or the class is empty. */
  lemma CheckSizeMeans(s: StructLayout.Struct)
    requires StructReplay.WellFormed(s) && s.members != []
    requires forall i :: 0 <= i < |s.members| ==> StructReplay.Placeable(s, i, StructSize.Packed(s))
    ensures
      var pack := StructSize.Packed(s);
      && StructSize.TotalBits(s, pack) % 8 == 0
      && (SizeAccepted(StructSize.TotalBits(s, pack) / 8, s.byteSize)
          <==> StructSize.SizeFits(s) || (StructSize.TotalBits(s, pack) == 0 && s.byteSize == 1))
  {
    var pack := StructSize.Packed(s);
    StructSize.TotalOfPlaced(s, pack);
    StaysWhole(StructSize.Used(s) / 8 + StructSize.TrailingPad(s), StructSize.FieldsAlignment(s, |s.members|), pack);
    StructSize.SizeExact(s);
    InBytes(StructSize.TotalBits(s, pack), s.byteSize);
  }

  lemma StaysWhole(bytes: nat, a: nat, pack: bool)
    requires a > 0
    ensures StructLayout.AlignTo(8 * bytes, 8 * a, pack) % 8 == 0
  {
    StructArithmetic.UpwardsScales(0, bytes, a);
  }

  lemma InBytes(bits: int, native: nat)
    requires bits % 8 == 0
    ensures SizeAccepted(bits / 8, native) <==> bits == 8 * native || (bits == 0 && native == 1)
  {
  }
}
