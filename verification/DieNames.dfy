/**
 The full name of an entry, computed by pushing names outermost first and by filling a tuple from
 its depth, and the search of all units for the definition with a declaration's full name.
 */
module DieNames {
  import opened Options
  import opened Dies

  datatype World = World(units: seq<Die>)
  {
    predicate Has(r: Ref) { r.unit < |units| && units[r.unit].HasPath(r.path) }

    function Entry(r: Ref): Die
      requires Has(r)
    {
      units[r.unit].Node(r.path)
    }
  }

  function Parent(r: Ref): Ref
    requires r.path != []
  {
    Ref(r.unit, r.path[..|r.path| - 1])
  }

  /** Specification and parent links lead to entries of lower rank, so they do not go round. */
  ghost predicate Linked(w: World, rank: Ref -> nat) {
    forall r {:trigger w.Entry(r)} :: w.Has(r) ==>
      match w.Entry(r).specification
      case Some(s) => w.Has(s) && rank(s) < rank(r)
      case None => r.path != [] ==> w.Has(Parent(r)) && rank(Parent(r)) < rank(r)
  }

  /** The names of the scopes around an entry, and its own if it is the leaf. */
  ghost function FullName(w: World, rank: Ref -> nat, r: Ref, leaf: bool): seq<string>
    requires Linked(w, rank) && w.Has(r)
    decreases rank(r)
  {
    var die := w.Entry(r);
    if die.specification.Some? then FullName(w, rank, die.specification.value, leaf)
    else
      (if r.path != [] then FullName(w, rank, Parent(r), false) else [])
      + (if leaf || die.tag.MakesScope() then [die.DieName()] else [])
  }

  lemma {:induction false} FullNameNotEmpty(w: World, rank: Ref -> nat, r: Ref)
    requires Linked(w, rank) && w.Has(r)
    ensures FullName(w, rank, r, true) != []
    decreases rank(r)
  {
    if w.Entry(r).specification.Some? {
      FullNameNotEmpty(w, rank, w.Entry(r).specification.value);
    }
  }

  /** A container that names are pushed into. */
  class Names {
    var items: seq<string>

    constructor ()
      ensures items == []
    {
      items := [];
    }

    method Push(name: string)
      modifies this
      ensures items == old(items) + [name]
    {
      items := items + [name];
    }
  }

  /** Pushes the full name, outermost scope first. */
  method GetFullName(w: World, ghost rank: Ref -> nat, r: Ref, fullname: Names, leaf: bool)
    requires Linked(w, rank) && w.Has(r)
    modifies fullname
    ensures fullname.items == old(fullname.items) + FullName(w, rank, r, leaf)
    decreases rank(r)
  {
    var die := w.Entry(r);
    if die.specification.Some? {
      GetFullName(w, rank, die.specification.value, fullname, leaf);
      return;
    }
    if r.path != [] {
      GetFullName(w, rank, Parent(r), fullname, false);
    }
    if leaf || die.tag.MakesScope() {
      fullname.Push(die.DieName());
    }
  }

  /** Goes up counting the names below, makes the tuple at the top, and fills it on the way back:
      depth slots at the end are left for the callers. */
  method MakeFullNameR(w: World, ghost rank: Ref -> nat, r: Ref, depth: nat) returns (tuple: array<Option<string>>)
    requires Linked(w, rank) && w.Has(r)
    ensures fresh(tuple)
    ensures
      var names := FullName(w, rank, r, depth == 0);
      && tuple.Length == |names| + depth
      && (forall i :: 0 <= i < |names| ==> tuple[i] == Some(names[i]))
      && forall i :: |names| <= i < tuple.Length ==> tuple[i] == None
    decreases rank(r)
  {
    var die := w.Entry(r);
    if die.specification.Some? {
      tuple := MakeFullNameR(w, rank, die.specification.value, depth);
      return;
    }
    var thisCounts := depth == 0 || die.tag.MakesScope();
    var nextDepth := if thisCounts then depth + 1 else depth;
    if r.path != [] {
      tuple := MakeFullNameR(w, rank, Parent(r), nextDepth);
    } else {
      tuple := new Option<string>[nextDepth](_ => None);
    }
    if thisCounts {
      var idx := tuple.Length - depth - 1;
      assert 0 <= idx < tuple.Length;
      assert tuple[idx] == None;
      tuple[idx] := Some(die.DieName());
    }
  }

  /** Every slot of the tuple is filled, with the names that pushing gives. */
  method MakeFullName(w: World, ghost rank: Ref -> nat, r: Ref) returns (tuple: array<Option<string>>)
    requires Linked(w, rank) && w.Has(r)
    ensures fresh(tuple) && tuple.Length == |FullName(w, rank, r, true)|
    ensures forall i :: 0 <= i < tuple.Length ==> tuple[i] == Some(FullName(w, rank, r, true)[i])
  {
    tuple := MakeFullNameR(w, rank, r, 0);
  }

  // ----- Full names and places in the tree -----

  /** No entry from the root down to r has a specification. */
  predicate Plain(w: World, r: Ref)
    requires w.Has(r)
    decreases |r.path|
  {
    && w.Entry(r).specification.None?
    && (r.path != [] ==> (PrefixInTree(w.units[r.unit], r.path); Plain(w, Parent(r))))
  }

  lemma {:induction false} PrefixInTree(d: Die, p: Path)
    requires p != [] && d.HasPath(p)
    ensures d.HasPath(p[..|p| - 1])
    ensures d.Above(p) == d.Above(p[..|p| - 1]) + [d.Node(p[..|p| - 1])]
    decreases p
  {
    if |p| > 1 {
      assert p[1..][..|p| - 2] == p[..|p| - 1][1..];
      PrefixInTree(d.children[p[0]], p[1..]);
    }
  }

  lemma {:induction false} SpelledAppend(a: seq<Die>, b: seq<Die>)
    ensures Spelled(a + b) == Spelled(a) + Spelled(b)
  {
    if a == [] {
      assert a + b == b;
    } else {
      assert (a + b)[1..] == a[1..] + b;
      SpelledAppend(a[1..], b);
    }
  }

  /** Without specifications the full name spells the path from the root. */
  lemma {:induction false} NameSpellsPath(w: World, rank: Ref -> nat, r: Ref, leaf: bool)
    requires Linked(w, rank) && w.Has(r) && Plain(w, r)
    ensures FullName(w, rank, r, leaf) == Spelled(w.units[r.unit].Above(r.path))
      + (if leaf || w.Entry(r).tag.MakesScope() then [w.Entry(r).DieName()] else [])
    decreases |r.path|
  {
    if r.path != [] {
      var d := w.units[r.unit];
      PrefixInTree(d, r.path);
      NameSpellsPath(w, rank, Parent(r), false);
      SpelledAppend(d.Above(Parent(r).path), [w.Entry(Parent(r))]);
    }
  }

  // ----- Full names with specifications -----

  /** The step up from an entry: to what it specifies, and else to its parent. */
  predicate StepsUp(w: World, r: Ref, up: Ref) {
    && w.Has(r) && w.Has(up)
    && match w.Entry(r).specification
       case Some(s) => up == s
       case None => r.path != [] && up.unit == r.unit && up.path == r.path[..|r.path| - 1]
  }

  /** All steps up from the first of these entries, to the root of a unit. */
  predicate IsWayUp(w: World, way: seq<Ref>) {
    && way != [] && (forall i :: 0 <= i < |way| ==> w.Has(way[i]))
    && (forall i :: 0 <= i < |way| - 1 ==> StepsUp(w, way[i], way[i + 1]))
    && w.Entry(way[|way| - 1]).specification.None? && way[|way| - 1].path == []
  }

  /** An entry on the way counts if it specifies nothing, and either makes a scope or is the first
      that specifies nothing: the leaf. */
  predicate Counts(w: World, way: seq<Ref>, k: nat, leaf: bool)
    requires k < |way| && forall i :: 0 <= i < |way| ==> w.Has(way[i])
  {
    var die := w.Entry(way[k]);
    && die.specification.None?
    && (die.tag in {Namespace, Structure, Class, Union}
        || (leaf && forall j :: 0 <= j < k ==> w.Entry(way[j]).specification.Some?))
  }

  /** The name of the k'th entry, if it counts. */
  function NameAt(w: World, way: seq<Ref>, k: nat, leaf: bool): seq<string>
    requires k < |way| && forall i :: 0 <= i < |way| ==> w.Has(way[i])
  {
    var die := w.Entry(way[k]);
    if Counts(w, way, k, leaf) then [match die.name case Some(name) => name case None => die.anon] else []
  }

  /** The names of the entries that count among the first n, the last first. */
  function NamesAlong(w: World, way: seq<Ref>, n: nat, leaf: bool): seq<string>
    requires n <= |way| && forall i :: 0 <= i < |way| ==> w.Has(way[i])
  {
    if n == 0 then [] else NameAt(w, way, n - 1, leaf) + NamesAlong(w, way, n - 1, leaf)
  }

  lemma {:induction false} NamesAlongRest(w: World, way: seq<Ref>, n: nat, leaf: bool)
    requires way != [] && n < |way| && forall i :: 0 <= i < |way| ==> w.Has(way[i])
    ensures
      var still := leaf && w.Entry(way[0]).specification.Some?;
      NamesAlong(w, way, n + 1, leaf) == NamesAlong(w, way[1..], n, still) + NamesAlong(w, way, 1, leaf)
  {
    var still := leaf && w.Entry(way[0]).specification.Some?;
    if n > 0 {
      NamesAlongRest(w, way, n - 1, leaf);
      CountsRest(w, way, n - 1, leaf);
      Regroups(NameAt(w, way, n, leaf), NamesAlong(w, way[1..], n - 1, still), NamesAlong(w, way, 1, leaf));
    }
  }

  lemma Regroups(a: seq<string>, b: seq<string>, c: seq<string>)
    ensures a + (b + c) == (a + b) + c
  {
  }

  lemma CountsRest(w: World, way: seq<Ref>, k: nat, leaf: bool)
    requires k + 1 < |way| && forall i :: 0 <= i < |way| ==> w.Has(way[i])
    ensures NameAt(w, way, k + 1, leaf) == NameAt(w, way[1..], k, leaf && w.Entry(way[0]).specification.Some?)
  {
    if forall j :: 0 <= j < k ==> w.Entry(way[1..][j]).specification.Some? {
      forall j | 1 <= j < k + 1 ensures w.Entry(way[j]).specification.Some? {
        assert way[j] == way[1..][j - 1];
      }
    } else {
      var j :| 0 <= j < k && !w.Entry(way[1..][j]).specification.Some?;
      assert way[j + 1] == way[1..][j];
    }
  }

  /** For every entry, specifications or not: the full name is the names of the entries that count on
      the way up, outermost first. */
  lemma {:induction false} NameSpellsWay(w: World, rank: Ref -> nat, r: Ref, leaf: bool, way: seq<Ref>)
    requires Linked(w, rank) && w.Has(r) && IsWayUp(w, way) && way[0] == r
    ensures FullName(w, rank, r, leaf) == NamesAlong(w, way, |way|, leaf)
    decreases |way|
  {
    if |way| > 1 {
      WayGoesOn(w, way);
      NameSpellsWay(w, rank, way[1], leaf && w.Entry(r).specification.Some?, way[1..]);
      NamesAlongRest(w, way, |way| - 1, leaf);
    }
    NameStep(w, rank, way, leaf);
  }

  /** One step of that. */
  lemma NameStep(w: World, rank: Ref -> nat, way: seq<Ref>, leaf: bool)
    requires Linked(w, rank) && IsWayUp(w, way) && (|way| > 1 ==> StepsUp(w, way[0], way[1]))
    ensures
      var above := if |way| > 1 then FullName(w, rank, way[1], leaf && w.Entry(way[0]).specification.Some?) else [];
      FullName(w, rank, way[0], leaf) == above + NamesAlong(w, way, 1, leaf)
  {
    assert NamesAlong(w, way, 0, leaf) == [];
  }

  lemma WayGoesOn(w: World, way: seq<Ref>)
    requires IsWayUp(w, way) && |way| > 1
    ensures IsWayUp(w, way[1..]) && way[1..][0] == way[1] && StepsUp(w, way[0], way[1])
  {
    var rest := way[1..];
    forall i | 0 <= i < |rest| - 1 ensures StepsUp(w, rest[i], rest[i + 1]) {
      assert StepsUp(w, way[i + 1], way[i + 2]);
    }
  }

  /** Every entry has a way up. */
  lemma {:induction false} HasWayUp(w: World, rank: Ref -> nat, r: Ref) returns (way: seq<Ref>)
    requires Linked(w, rank) && w.Has(r)
    ensures IsWayUp(w, way) && way[0] == r
    decreases rank(r)
  {
    var die := w.Entry(r);
    if die.specification.None? && r.path == [] {
      way := [r];
    } else {
      var up := if die.specification.Some? then die.specification.value else Parent(r);
      var rest := HasWayUp(w, rank, up);
      way := [r] + rest;
      forall i | 0 <= i < |way| - 1 ensures StepsUp(w, way[i], way[i + 1]) {
        if i > 0 {
          assert StepsUp(w, rest[i - 1], rest[i]);
        }
      }
    }
  }

  /** The entry at q is one that the search for this tag and name can return. */
  ghost predicate Defines(w: World, q: Ref, tag: Tag, names: seq<string>) {
    q.unit < |w.units| && Denotes(w.units[q.unit], q.path, tag, names)
  }

  /** Everything above the entry is a compile unit or a namespace, struct or class with a name. */
  predicate Reached(w: World, q: Ref) {
    w.Has(q) && forall a <- w.units[q.unit].Above(q.path) :: Searched(a)
  }

  /** The names of the scopes an entry stands in, and its own. */
  function PathNames(w: World, q: Ref): seq<string>
    requires w.Has(q)
  {
    Spelled(w.units[q.unit].Above(q.path)) + [w.Entry(q).DieName()]
  }

  /** What can be returned are the definitions with this tag that have names of their own, lie within
      named namespaces, structs and classes, and stand where the names say: nothing inside a union or
      a function.  Where there are no specifications, that is under the full name. */
  lemma DefinesByName(w: World, rank: Ref -> nat, q: Ref, tag: Tag, names: seq<string>)
    requires Linked(w, rank) && w.Has(q)
    ensures Defines(w, q, tag, names) <==>
      && Reached(w, q) && w.Entry(q).name.Some? && !w.Entry(q).declaration && w.Entry(q).tag == tag
      && PathNames(w, q) == names
    ensures Plain(w, q) ==> PathNames(w, q) == FullName(w, rank, q, true)
  {
    if Plain(w, q) {
      NameSpellsPath(w, rank, q, true);
    }
  }

  /** A definition with a specification has the full name of what it specifies.  The search for that
      name can return it exactly if it has a name of its own and stands in the same scopes; one
      without a name, as for a nested struct that is defined out of line, is never returned. */
  lemma OutOfLine(w: World, rank: Ref -> nat, q: Ref)
    requires Linked(w, rank) && w.Has(q) && w.Entry(q).specification.Some?
    ensures w.Has(w.Entry(q).specification.value)
    ensures
      var decl := w.Entry(q).specification.value;
      && FullName(w, rank, q, true) == FullName(w, rank, decl, true)
      && (Defines(w, q, w.Entry(q).tag, FullName(w, rank, decl, true)) <==>
            Reached(w, q) && w.Entry(q).name.Some? && !w.Entry(q).declaration
            && PathNames(w, q) == FullName(w, rank, decl, true))
  {
    var decl := w.Entry(q).specification.value;
    DefinesByName(w, rank, q, w.Entry(q).tag, FullName(w, rank, decl, true));
  }

  predicate Earlier(q: Ref, q': Ref) {
    q.unit < q'.unit || (q.unit == q'.unit && Before(q.path, q'.path))
  }

  /** Looks through the units in order for the definition that the entry r stands for. */
  method FindDefinition(w: World, ghost rank: Ref -> nat, r: Ref) returns (found: Option<Ref>)
    requires Linked(w, rank) && w.Has(r)
    ensures
      var tag, names := w.Entry(r).tag, FullName(w, rank, r, true);
      match found
      case None => forall q :: !Defines(w, q, tag, names)
      case Some(p) => Defines(w, p, tag, names) && forall q :: Defines(w, q, tag, names) ==> p == q || Earlier(p, q)
  {
    var fullname := new Names();
    GetFullName(w, rank, r, fullname, true);
    FullNameNotEmpty(w, rank, r);
    var names, tag := fullname.items, w.Entry(r).tag;
    for u := 0 to |w.units|
      invariant forall q :: Defines(w, q, tag, names) ==> q.unit >= u
    {
      var defn := Find(w.units[u], tag, names);
      FindsFirst(w.units[u], tag, names);
      if defn.Some? {
        return Some(Ref(u, defn.value));
      }
    }
    return None;
  }

  // ----- A definition that is not found -----

  /** A union's declared struct beside its definition. */
  predicate StructInUnion(w: World) {
    && |w.units| == 1 && w.units[0].tag.CompileUnit? && |w.units[0].children| == 1
    && w.units[0].specification.None?
    && var u := w.units[0].children[0];
      && u.tag.Union? && u.name.Some? && |u.children| == 2 && u.specification.None?
      && var (a, b) := (u.children[0], u.children[1]);
        && a.tag.Structure? && a.declaration && a.name.Some? && a.children == [] && a.specification.None?
        && b == a.(declaration := false)
  }

  /** Unions count in full names but are not searched: the definition has the declaration's full
      name and tag, and is still not found. */
  lemma UnionHidesDefinition(w: World, rank: Ref -> nat)
    requires Linked(w, rank) && StructInUnion(w)
    ensures
      var decl, defn := Ref(0, [0, 0]), Ref(0, [0, 1]);
      && w.Has(decl) && w.Has(defn) && w.Entry(decl).declaration && !w.Entry(defn).declaration
      && w.Entry(decl).tag == w.Entry(defn).tag
      && FullName(w, rank, decl, true) == FullName(w, rank, defn, true)
      && forall q :: !Defines(w, q, w.Entry(decl).tag, FullName(w, rank, decl, true))
  {
    var root, u := w.units[0], w.units[0].children[0];
    var decl, defn := Ref(0, [0, 0]), Ref(0, [0, 1]);
    assert root.HasPath([]) && root.HasPath([0]);
    InUnion(w, rank, decl);
    InUnion(w, rank, defn);
    var tag, names := w.Entry(decl).tag, FullName(w, rank, decl, true);
    FindsFirst(root, tag, names);
    assert Find(u, tag, names) == None;
    assert FindIn(root, 1, tag, names) == None;
    assert FindIn(root, 0, tag, names) == None;
    assert Find(root, tag, names) == None;
    forall q ensures !Defines(w, q, tag, names) {
      assert !Denotes(root, q.path, tag, names);
    }
  }

  lemma InUnion(w: World, rank: Ref -> nat, r: Ref)
    requires Linked(w, rank) && StructInUnion(w) && (r == Ref(0, [0, 0]) || r == Ref(0, [0, 1]))
    ensures w.Has(r) && w.Entry(r) == w.units[0].children[0].children[r.path[1]]
    ensures FullName(w, rank, r, true) == [w.units[0].children[0].name.value, w.Entry(r).name.value]
  {
    var root, u := w.units[0], w.units[0].children[0];
    assert r.path[1..] == [r.path[1]] && r.path[1..][1..] == [];
    assert u.HasPath(r.path[1..]) && root.HasPath(r.path);
    var up := Parent(r);
    assert up.path == [0] && Parent(up).path == [];
    assert w.Entry(up) == u && w.Entry(Parent(up)) == root;
    assert FullName(w, rank, Parent(up), false) == [];
    assert FullName(w, rank, up, false) == [u.name.value];
  }

  /** `namespace N { struct S; }  struct N::S { ... };` with the definition beside the namespace. */
  predicate DefinedOutside(w: World) {
    && |w.units| == 1 && w.units[0].tag.CompileUnit? && |w.units[0].children| == 2
    && w.units[0].specification.None? && w.units[0].name.None?
    && var (n, b) := (w.units[0].children[0], w.units[0].children[1]);
      && n.tag.Namespace? && n.name.Some? && |n.children| == 1 && n.specification.None?
      && b.tag.Structure? && !b.declaration && b.name.None? && b.children == [] && b.specification == Some(Ref(0, [0, 0]))
      && var a := n.children[0];
        a.tag.Structure? && a.declaration && a.name.Some? && a.children == [] && a.specification.None?
  }

  /** The definition has the declaration's full name and is not found. */
  lemma OutOfLineNotFound(w: World, rank: Ref -> nat)
    requires Linked(w, rank) && DefinedOutside(w)
    ensures
      var decl, defn := Ref(0, [0, 0]), Ref(0, [1]);
      && w.Has(decl) && w.Has(defn) && w.Entry(decl).declaration && !w.Entry(defn).declaration
      && w.Entry(decl).tag == w.Entry(defn).tag
      && FullName(w, rank, decl, true) == FullName(w, rank, defn, true)
      && forall q :: !Defines(w, q, w.Entry(decl).tag, FullName(w, rank, decl, true))
  {
    var root, n := w.units[0], w.units[0].children[0];
    var decl, defn := Ref(0, [0, 0]), Ref(0, [1]);
    InNamespace(w, rank);
    assert defn.path[1..] == [] && root.HasPath(defn.path);
    var tag, names := w.Entry(decl).tag, FullName(w, rank, decl, true);
    FindsFirst(root, tag, names);
    assert FindIn(n, 1, tag, names[1..]) == None;
    assert Find(n.children[0], tag, names[1..]) == None;
    assert FindIn(n, 0, tag, names[1..]) == None;
    assert Find(n, tag, names) == None;
    assert Find(root.children[1], tag, names) == None;
    assert FindIn(root, 2, tag, names) == None;
    assert FindIn(root, 1, tag, names) == None;
    assert FindIn(root, 0, tag, names) == None;
    assert Find(root, tag, names) == None;
    forall q ensures !Defines(w, q, tag, names) {
      assert !Denotes(root, q.path, tag, names);
    }
  }

  lemma InNamespace(w: World, rank: Ref -> nat)
    requires Linked(w, rank) && DefinedOutside(w)
    ensures w.Has(Ref(0, [0, 0])) && w.Entry(Ref(0, [0, 0])) == w.units[0].children[0].children[0]
    ensures FullName(w, rank, Ref(0, [0, 0]), true)
         == [w.units[0].children[0].name.value, w.units[0].children[0].children[0].name.value]
  {
    var root, n := w.units[0], w.units[0].children[0];
    var r := Ref(0, [0, 0]);
    assert r.path[1..] == [0] && r.path[1..][1..] == [];
    assert n.HasPath(r.path[1..]) && root.HasPath(r.path);
    var up := Parent(r);
    assert up.path == [0] && Parent(up).path == [];
    assert w.Entry(up) == n && w.Entry(Parent(up)) == root;
    assert FullName(w, rank, Parent(up), false) == [];
    assert FullName(w, rank, up, false) == [n.name.value];
  }

  /** `namespace N { struct S; }  struct N::S { struct T {}; };` */
  predicate NestedOutside(w: World) {
    && |w.units| == 1 && w.units[0].tag.CompileUnit? && |w.units[0].children| == 2 && w.units[0].specification.None?
    && var (n, b) := (w.units[0].children[0], w.units[0].children[1]);
      && n.tag.Namespace? && n.name == Some("N") && |n.children| == 1 && n.specification.None?
      && b.tag.Structure? && b.name.None? && |b.children| == 1 && b.specification == Some(Ref(0, [0, 0]))
      && var (a, t) := (n.children[0], b.children[0]);
        && a.tag.Structure? && a.declaration && a.name == Some("S") && a.children == [] && a.specification.None?
        && t.tag.Structure? && t.name == Some("T") && t.specification.None?
  }

  lemma NestedEntries(w: World)
    requires NestedOutside(w)
    ensures w.Has(Ref(0, [1, 0])) && w.Entry(Ref(0, [1, 0])) == w.units[0].children[1].children[0]
    ensures w.Has(Ref(0, [1])) && w.Entry(Ref(0, [1])) == w.units[0].children[1]
    ensures w.Has(Ref(0, [0, 0])) && w.Entry(Ref(0, [0, 0])) == w.units[0].children[0].children[0]
    ensures w.Has(Ref(0, [0])) && w.Entry(Ref(0, [0])) == w.units[0].children[0]
    ensures w.Has(Ref(0, [])) && w.Entry(Ref(0, [])) == w.units[0]
  {
    var root := w.units[0];
    assert [0, 0][1..] == [0] && [1, 0][1..] == [0] && [0][1..] == [] && [1][1..] == [];
    assert root.children[1].HasPath([0]) && root.children[0].HasPath([0]);
    assert root.HasPath([1, 0]) && root.HasPath([1]) && root.HasPath([0, 0]) && root.HasPath([0]) && root.HasPath([]);
  }

  /** What lies in a definition out of line has the scopes of what is specified in its full name. */
  lemma NestedFullName(w: World, rank: Ref -> nat)
    requires Linked(w, rank) && NestedOutside(w)
    ensures w.Has(Ref(0, [1, 0])) && FullName(w, rank, Ref(0, [1, 0]), true) == ["N", "S", "T"]
  {
    NestedEntries(w);
    assert Parent(Ref(0, [1, 0])) == Ref(0, [1]);
    assert Parent(Ref(0, [0, 0])) == Ref(0, [0]) && Parent(Ref(0, [0])) == Ref(0, []);
    assert FullName(w, rank, Ref(0, []), false) == [];
    assert FullName(w, rank, Ref(0, [0]), false) == ["N"];
    assert FullName(w, rank, Ref(0, [0, 0]), false) == ["N", "S"];
    assert FullName(w, rank, Ref(0, [1]), false) == ["N", "S"];
  }
}
