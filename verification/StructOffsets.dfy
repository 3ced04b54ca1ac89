/**
 The table of offsets that `StructType.define` writes beside the field list, and the check of
 one against the other by position (`checkOffsets`).
 */
module StructOffsets {
  import opened Options
  import opened StructLayout
  import opened StructArithmetic
  import opened StructReplay
  import opened StructSize

  function Copies<T>(x: T, n: nat): (xs: seq<T>)
    ensures |xs| == n && forall k :: 0 <= k < n ==> xs[k] == x
  {
    if n == 0 then [] else Copies(x, n - 1) + [x]
  }

  /** The table after some members, and the last offset entered.  Members that share the offset of
      the one before, and overridden ones, get no offset; pads get -1. */
  datatype Table = Table(entries: seq<Option<int>>, last: Option<Option<nat>>)

  predicate Entered(s: Struct, i: nat, last: Option<Option<nat>>)
    requires i < |s.members|
  {
    Some(s.members[i].location) != last && s.members[i].override.None?
  }

  /** The entry of a member itself. */
  function OwnEntry(s: Struct, i: nat, last: Option<Option<nat>>): Option<int>
    requires i < |s.members|
  {
    if Entered(s, i, last) && s.members[i].location.Some? then Some(s.members[i].location.value) else None
  }

  /** pads[i] is the number of pads of member i. */
  function TableOf(s: Struct, pads: seq<nat>, n: nat): Table
    requires n <= |s.members| == |pads|
  {
    if n == 0 then Table([], None)
    else
      var t := TableOf(s, pads, n - 1);
      Table(t.entries + Copies(Some(-1), pads[n - 1]) + [OwnEntry(s, n - 1, t.last)],
            if Entered(s, n - 1, t.last) then Some(s.members[n - 1].location) else t.last)
  }

  function Entry(s: Struct, pads: seq<nat>, i: nat): Option<int>
    requires i < |s.members| == |pads|
  {
    OwnEntry(s, i, TableOf(s, pads, i).last)
  }

  /** j is the last member before the n'th whose type is not overridden. */
  predicate LastOwn(s: Struct, n: nat, j: nat)
    requires n <= |s.members|
  {
    j < n && s.members[j].override.None? && forall k :: j < k < n ==> s.members[k].override.Some?
  }

  /** The last offset entered is that of the last member whose type is not overridden. */
  lemma {:induction false} LastIsOwn(s: Struct, pads: seq<nat>, n: nat)
    requires n <= |s.members| == |pads|
    ensures
      match TableOf(s, pads, n).last
      case None => forall k :: 0 <= k < n ==> s.members[k].override.Some?
      case Some(at) => exists j: nat :: LastOwn(s, n, j) && s.members[j].location == at
  {
    if n > 0 {
      LastIsOwn(s, pads, n - 1);
      var last := TableOf(s, pads, n - 1).last;
      if s.members[n - 1].override.None? {
        assert LastOwn(s, n, n - 1);
      } else if last.Some? {
        var j: nat :| LastOwn(s, n - 1, j) && s.members[j].location == last.value;
        assert LastOwn(s, n, j);
      }
    }
  }

  /** Which members have an offset in the table: those whose type is not overridden, that have one, and
      that do not share it with the last such member before. */
  lemma EntryIff(s: Struct, pads: seq<nat>, i: nat)
    requires i < |s.members| == |pads|
    ensures Entry(s, pads, i) != None <==>
      && s.members[i].override.None? && s.members[i].location.Some?
      && forall j: nat :: LastOwn(s, i, j) ==> s.members[j].location != s.members[i].location
    ensures Entry(s, pads, i).Some? ==> Entry(s, pads, i).value == s.members[i].location.value
  {
    LastIsOwn(s, pads, i);
  }

  // ----- Positions -----

  function EmptyBases(s: Struct, n: nat): nat
    requires n <= |s.members|
  {
    if n == 0 then 0 else EmptyBases(s, n - 1) + if s.members[n - 1].emptyBase then 1 else 0
  }

  /** The number of fields emitted for the first n members. */
  function FieldsBefore(s: Struct, pads: seq<nat>, n: nat): nat
    requires n <= |s.members| == |pads|
  {
    if n == 0 then 0 else FieldsBefore(s, pads, n - 1) + if s.members[n - 1].emptyBase then 0 else pads[n - 1] + 1
  }

  /** The lengths of the pad lists the engine recorded. */
  function Lengths(prePads: seq<seq<int>>): (pads: seq<nat>)
    ensures |pads| == |prePads|
    ensures forall i :: 0 <= i < |pads| ==> pads[i] == |prePads[i]|
  {
    if prePads == [] then []
    else Lengths(prePads[..|prePads| - 1]) + [|prePads[|prePads| - 1]|]
  }

  lemma EngineStep(s: Struct, i: nat)
    requires UnitsHaveSize(s) && i < |s.members|
    ensures
      var e, e', pads := EmitAll(s, i), EmitAll(s, i + 1), MemberPads(s.members[i], EmitAll(s, i));
      && e'.prePads == e.prePads + [pads]
      && |e'.fields| == |e.fields| + (if s.members[i].emptyBase then 0 else |pads| + 1)
      && (s.members[i].emptyBase ==> pads == [])
  {
  }

  lemma {:induction false} FieldsBeforePrefix(s: Struct, pads: seq<nat>, pads': seq<nat>, n: nat)
    requires n <= |s.members| == |pads| == |pads'| && pads[..n] == pads'[..n]
    ensures FieldsBefore(s, pads, n) == FieldsBefore(s, pads', n)
  {
    if n > 0 {
      assert pads[n - 1] == pads[..n][n - 1] == pads'[n - 1];
      assert pads[..n - 1] == pads[..n][..n - 1] == pads'[..n][..n - 1];
      FieldsBeforePrefix(s, pads, pads', n - 1);
    }
  }

  /** What the engine recorded for the first n members, filled up for the rest. */
  function Recorded(s: Struct, e: Engine): (pads: seq<nat>)
    requires |e.prePads| <= |s.members|
    ensures |pads| == |s.members|
  {
    Lengths(e.prePads) + Copies<nat>(0, |s.members| - |e.prePads|)
  }

  /** The engine has recorded a list of pads for each member, none for an empty base, and emitted
      that many fields. */
  predicate CountsHold(s: Struct, n: nat, e: Engine) {
    && n == |e.prePads| <= |s.members|
    && (forall i :: 0 <= i < n && s.members[i].emptyBase ==> e.prePads[i] == [])
    && |e.fields| == FieldsBefore(s, Recorded(s, e), n)
  }

  lemma {:induction false} EngineCounts(s: Struct, n: nat)
    requires n <= |s.members| && UnitsHaveSize(s)
    ensures CountsHold(s, n, EmitAll(s, n))
  {
    if n > 0 {
      EngineCounts(s, n - 1);
      EngineStep(s, n - 1);
      CountsStep(s, n - 1, EmitAll(s, n - 1), EmitAll(s, n), MemberPads(s.members[n - 1], EmitAll(s, n - 1)));
    }
  }

  lemma CountsStep(s: Struct, i: nat, e: Engine, e': Engine, pads: seq<int>)
    requires i < |s.members| && CountsHold(s, i, e) && e'.prePads == e.prePads + [pads]
    requires s.members[i].emptyBase ==> pads == []
    requires |e'.fields| == |e.fields| + if s.members[i].emptyBase then 0 else |pads| + 1
    ensures CountsHold(s, i + 1, e')
  {
    FieldsBeforePrefix(s, Recorded(s, e), Recorded(s, e'), i);
  }

  function PadsOf(s: Struct): (pads: seq<nat>)
    requires UnitsHaveSize(s)
    ensures |pads| == |s.members|
  {
    EngineCounts(s, |s.members|);
    Lengths(EmitAll(s, |s.members|).prePads)
  }

  /** The facts about the engine's own list that the positions rest on. */
  lemma PadsFacts(s: Struct)
    requires UnitsHaveSize(s)
    ensures forall i :: 0 <= i < |s.members| && s.members[i].emptyBase ==> PadsOf(s)[i] == 0
    ensures |EmitAll(s, |s.members|).fields| == FieldsBefore(s, PadsOf(s), |s.members|)
  {
    EngineCounts(s, |s.members|);
    FieldsBeforePrefix(s, Recorded(s, EmitAll(s, |s.members|)), PadsOf(s), |s.members|);
  }

  /** Each empty base has a table entry and no field. */
  lemma {:induction false} TableRunsAhead(s: Struct, pads: seq<nat>, n: nat)
    requires n <= |s.members| == |pads|
    requires forall i :: 0 <= i < n && s.members[i].emptyBase ==> pads[i] == 0
    ensures |TableOf(s, pads, n).entries| == FieldsBefore(s, pads, n) + EmptyBases(s, n)
  {
    if n > 0 {
      TableRunsAhead(s, pads, n - 1);
    }
  }

  /** The position of member i's field in the field list. */
  function FieldPosition(s: Struct, pads: seq<nat>, i: nat): int
    requires i < |s.members| == |pads|
  {
    FieldsBefore(s, pads, i + 1) - 1
  }

  /** The position of member i's entry in the table. */
  function EntryPosition(s: Struct, pads: seq<nat>, i: nat): int
    requires i < |s.members| == |pads|
  {
    |TableOf(s, pads, i + 1).entries| - 1
  }

  lemma {:induction false} EmptyBasesNone(s: Struct, n: nat)
    requires n <= |s.members|
    ensures EmptyBases(s, n) == 0 <==> forall j :: 0 <= j < n ==> !s.members[j].emptyBase
  {
    if n > 0 {
      EmptyBasesNone(s, n - 1);
    }
  }

  /** A member's field is checked against its own entry exactly when no empty base comes before it. */
  lemma PositionsAgree(s: Struct, i: nat)
    requires UnitsHaveSize(s) && i < |s.members| && !s.members[i].emptyBase
    ensures FieldPosition(s, PadsOf(s), i) == EntryPosition(s, PadsOf(s), i)
      <==> forall j :: 0 <= j < i ==> !s.members[j].emptyBase
  {
    PadsFacts(s);
    TableRunsAhead(s, PadsOf(s), i + 1);
    EmptyBasesNone(s, i);
  }

  /** The table is exactly as long as the field list without its trailing pad, so that the pad is
      checked against nothing, exactly when there is no empty base. */
  lemma LengthsAgree(s: Struct)
    requires UnitsHaveSize(s)
    ensures |TableOf(s, PadsOf(s), |s.members|).entries| == |EmitAll(s, |s.members|).fields|
      <==> forall j :: 0 <= j < |s.members| ==> !s.members[j].emptyBase
  {
    PadsFacts(s);
    TableRunsAhead(s, PadsOf(s), |s.members|);
    EmptyBasesNone(s, |s.members|);
  }

  // ----- The check -----

  /** The byte offset ctypes reports for a field: of the storage unit, for a bitfield. */
  function ByteOffset(c: Cursor, f: Field, pack: bool): int {
    if f.Bytes? then AlignTo(c.end, 8 * f.alignment, pack) / 8
    else if f.width <= c.end - c.pos then (c.end - f.unit) / 8
    else AlignTo(c.end, f.unit, pack) / 8
  }

  function ByteOffsets(fs: seq<Field>, pack: bool): (offsets: seq<int>)
    ensures |offsets| == |fs|
  {
    if fs == [] then []
    else
      var n := |fs| - 1;
      ByteOffsets(fs[..n], pack) + [ByteOffset(Replay(fs[..n], pack, Cursor(0, 0)), fs[n], pack)]
  }

  predicate Mismatch(offsets: seq<int>, entries: seq<Option<int>>, k: nat)
    requires k < |offsets| && k < |entries|
  {
    entries[k].Some? && offsets[k] != entries[k].value && entries[k].value != -1
  }

  /** The check collects a complaint for each position where both lists go and the entry is a
      proper offset that differs. */
  method CheckOffsets(offsets: seq<int>, entries: seq<Option<int>>) returns (errors: seq<nat>)
    ensures forall k: nat :: k in errors <==> k < |offsets| && k < |entries| && Mismatch(offsets, entries, k)
    ensures forall i, j :: 0 <= i < j < |errors| ==> errors[i] < errors[j]
  {
    errors := [];
    var n := if |offsets| < |entries| then |offsets| else |entries|;
    for k := 0 to n
      invariant forall j: nat :: j in errors <==> j < k && Mismatch(offsets, entries, j)
      invariant forall i :: 0 <= i < |errors| ==> errors[i] < k
      invariant forall i, j :: 0 <= i < j < |errors| ==> errors[i] < errors[j]
    {
      if entries[k].Some? {
        var entry := entries[k].value;
        if offsets[k] != entry && entry != -1 {
          errors := errors + [k];
        }
      }
    }
  }

  predicate Clean(offsets: seq<int>, entries: seq<Option<int>>) {
    forall k :: 0 <= k < |offsets| && k < |entries| ==> !Mismatch(offsets, entries, k)
  }

  /** Member i is where the debug information has it, as far as the table says. */
  predicate EntryHolds(s: Struct, pads: seq<nat>, i: nat, offsets: seq<int>)
    requires i < |s.members| == |pads| && 0 <= FieldPosition(s, pads, i) < |offsets|
  {
    Entry(s, pads, i).Some? ==> offsets[FieldPosition(s, pads, i)] == Entry(s, pads, i).value
  }

  lemma {:induction false} FieldsGrow(s: Struct, pads: seq<nat>, n: nat)
    requires n <= |s.members| == |pads| && forall j :: 0 <= j < n ==> !s.members[j].emptyBase
    ensures forall i :: 0 <= i < n ==> 0 <= FieldPosition(s, pads, i) < FieldsBefore(s, pads, n)
    ensures |TableOf(s, pads, n).entries| == FieldsBefore(s, pads, n)
  {
    if n > 0 {
      FieldsGrow(s, pads, n - 1);
    }
  }

  lemma {:induction false} CleanUpTo(s: Struct, pads: seq<nat>, n: nat, offsets: seq<int>)
    requires n <= |s.members| == |pads| && FieldsBefore(s, pads, n) <= |offsets|
    requires forall j :: 0 <= j < n ==> !s.members[j].emptyBase
    ensures forall i :: 0 <= i < n ==> 0 <= FieldPosition(s, pads, i) < |offsets|
    ensures Clean(offsets, TableOf(s, pads, n).entries) <==> forall i :: 0 <= i < n ==> EntryHolds(s, pads, i, offsets)
  {
    FieldsGrow(s, pads, n);
    if n > 0 {
      CleanUpTo(s, pads, n - 1, offsets);
      FieldsGrow(s, pads, n - 1);
      var before, entry := TableOf(s, pads, n - 1).entries, Entry(s, pads, n - 1);
      CleanStep(offsets, before, pads[n - 1], entry);
      assert TableOf(s, pads, n).entries == before + Copies(Some(-1), pads[n - 1]) + [entry];
      assert FieldPosition(s, pads, n - 1) == |before| + pads[n - 1];
      assert EntryHolds(s, pads, n - 1, offsets) <==> (entry.Some? ==> offsets[|before| + pads[n - 1]] == entry.value);
    }
  }

  /** A position that only pads and members own. */
  lemma CleanStep(offsets: seq<int>, entries: seq<Option<int>>, pads: nat, entry: Option<int>)
    requires |entries| + pads < |offsets| && (entry.Some? ==> entry.value != -1)
    ensures Clean(offsets, entries + Copies(Some(-1), pads) + [entry])
       <==> Clean(offsets, entries) && (entry.Some? ==> offsets[|entries| + pads] == entry.value)
  {
    var all := entries + Copies(Some(-1), pads) + [entry];
    assert forall k :: 0 <= k < |entries| ==> (Mismatch(offsets, all, k) <==> Mismatch(offsets, entries, k));
    assert forall k :: |entries| <= k < |entries| + pads ==> !Mismatch(offsets, all, k);
    assert Mismatch(offsets, all, |entries| + pads) <==> entry.Some? && offsets[|entries| + pads] != entry.value;
  }

  /** Without empty bases, a clean check means that every member whose offset is entered is at that
      offset, and nothing else can make it complain. */
  lemma CheckMeans(s: Struct, pack: bool)
    requires UnitsHaveSize(s) && forall j :: 0 <= j < |s.members| ==> !s.members[j].emptyBase
    ensures forall i :: 0 <= i < |s.members| ==> 0 <= FieldPosition(s, PadsOf(s), i) < |AllFields(s)|
    ensures Clean(ByteOffsets(AllFields(s), pack), TableOf(s, PadsOf(s), |s.members|).entries)
       <==> forall i :: 0 <= i < |s.members| ==> EntryHolds(s, PadsOf(s), i, ByteOffsets(AllFields(s), pack))
  {
    PadsFacts(s);
    CleanUpTo(s, PadsOf(s), |s.members|, ByteOffsets(AllFields(s), pack));
  }
}
