/**
 Debug information entries: the full name of an entry, computed in two ways, and the search for the
 definition that a declaration stands for.  An entry is referred to by its unit and the path of
 child positions from the unit's root, which stands for its offset.
 */
module Dies {
  import opened Options

  datatype Tag = CompileUnit | Namespace | Structure | Class | Union | Other(number: nat)
  {
    /** The entry's name is part of the names of what it holds. */
    predicate MakesScope() { Structure? || Namespace? || Class? || Union? }
  }

  type Path = seq<nat>

  datatype Ref = Ref(unit: nat, path: Path)

  /** anon is the name made up from file, offset and tag for an entry without one. */
  datatype Die = Die(
    tag: Tag, name: Option<string>, anon: string, declaration: bool, specification: Option<Ref>, children: seq<Die>)
  {
    function DieName(): string {
      if name.Some? then name.value else anon
    }

    predicate HasPath(p: Path)
      decreases p
    {
      p == [] || (p[0] < |children| && children[p[0]].HasPath(p[1..]))
    }

    function Node(p: Path): Die
      requires HasPath(p)
      decreases p
    {
      if p == [] then this else children[p[0]].Node(p[1..])
    }

    /** The entries above the one at p, outermost first. */
    function Above(p: Path): seq<Die>
      requires HasPath(p)
      decreases p
    {
      if p == [] then [] else [this] + children[p[0]].Above(p[1..])
    }
  }

  // ----- The search for a definition -----

  /** Searches a tree for a definition with the given tag and name.  A scope consumes the first of
      the names, a compile unit none. */
  function Find(d: Die, tag: Tag, names: seq<string>): Option<Path>
    requires names != []
    decreases d, |d.children| + 1
  {
    var sameName := d.name == Some(names[0]);
    if |names| == 1 && sameName && !d.declaration && tag == d.tag then Some([])
    else
      match d.tag
      case Namespace | Structure | Class =>
        if !sameName || |names| == 1 then None else FindIn(d, 0, tag, names[1..])
      case CompileUnit => FindIn(d, 0, tag, names)
      case _ => None
  }

  /** Searches the children of d from the k'th on. */
  function FindIn(d: Die, k: nat, tag: Tag, names: seq<string>): Option<Path>
    requires names != [] && k <= |d.children|
    decreases d, |d.children| - k
  {
    if k == |d.children| then None
    else
      match Find(d.children[k], tag, names)
      case Some(p) => Some([k] + p)
      case None => FindIn(d, k + 1, tag, names)
  }

  /** The search looks below the entry: a compile unit, or a namespace, struct or class with a name. */
  predicate Searched(d: Die) {
    d.tag.CompileUnit? || (d.tag.MakesScope() && !d.tag.Union? && d.name.Some?)
  }

  /** The names of the scopes among the entries. */
  function Spelled(ds: seq<Die>): seq<string> {
    if ds == [] then []
    else (if ds[0].tag.MakesScope() then [ds[0].DieName()] else []) + Spelled(ds[1..])
  }

  /** The entry at p has this tag, is no declaration, can be reached, and names is its path of names. */
  ghost predicate Denotes(d: Die, p: Path, tag: Tag, names: seq<string>) {
    && d.HasPath(p)
    && (forall a <- d.Above(p) :: Searched(a))
    && d.Node(p).name.Some? && !d.Node(p).declaration && d.Node(p).tag == tag
    && names == Spelled(d.Above(p)) + [d.Node(p).name.value]
  }

  predicate Before(p: Path, q: Path) {
    q != [] && (p == [] || p[0] < q[0] || (p[0] == q[0] && Before(p[1..], q[1..])))
  }

  /** p is the first path in the order of the tree that denotes, and there is none if it is None. */
  ghost predicate IsFirst(d: Die, r: Option<Path>, tag: Tag, names: seq<string>) {
    match r
    case None => forall q :: !Denotes(d, q, tag, names)
    case Some(p) => Denotes(d, p, tag, names) && forall q :: Denotes(d, q, tag, names) ==> p == q || Before(p, q)
  }

  /** The entry itself is the definition. */
  predicate Here(d: Die, tag: Tag, names: seq<string>) {
    |names| == 1 && d.name == Some(names[0]) && !d.declaration && d.tag == tag
  }

  /** The search goes on below the entry, with names left. */
  predicate Enters(d: Die, names: seq<string>)
    requires names != []
  {
    d.tag.CompileUnit? || (Searched(d) && d.name == Some(names[0]) && |names| > 1)
  }

  function Rest(d: Die, names: seq<string>): seq<string>
    requires names != []
  {
    if d.tag.CompileUnit? then names else names[1..]
  }

  lemma FindGoes(d: Die, tag: Tag, names: seq<string>)
    requires names != []
    ensures Enters(d, names) ==> Rest(d, names) != []
    ensures Find(d, tag, names) ==
      if Here(d, tag, names) then Some([])
      else if Enters(d, names) then FindIn(d, 0, tag, Rest(d, names))
      else None
  {
  }

  lemma DenotesHere(d: Die, tag: Tag, names: seq<string>)
    requires names != []
    ensures Denotes(d, [], tag, names) <==> Here(d, tag, names)
  {
    if d.name.Some? {
      assert names == [d.name.value] <==> |names| == 1 && names[0] == d.name.value;
    }
  }

  lemma DenotesBelow(d: Die, q: Path, tag: Tag, names: seq<string>)
    requires q != [] && names != []
    ensures Denotes(d, q, tag, names) <==>
      q[0] < |d.children| && Enters(d, names) && Denotes(d.children[q[0]], q[1..], tag, Rest(d, names))
  {
    if q[0] < |d.children| && d.children[q[0]].HasPath(q[1..]) {
      var c := d.children[q[0]];
      var below, node := c.Above(q[1..]), c.Node(q[1..]);
      AllSearched(d, below);
      if d.tag.MakesScope() && node.name.Some? {
        Consumes(d, below, node.name.value, names);
      }
    }
  }

  lemma AllSearched(d: Die, below: seq<Die>)
    ensures (forall a <- [d] + below :: Searched(a)) <==> Searched(d) && forall a <- below :: Searched(a)
    ensures !d.tag.MakesScope() ==> Spelled([d] + below) == Spelled(below)
  {
    assert ([d] + below)[1..] == below;
    assert forall a <- below :: a in [d] + below;
    assert d in [d] + below;
  }

  lemma Consumes(d: Die, below: seq<Die>, leaf: string, names: seq<string>)
    requires d.tag.MakesScope() && names != []
    ensures names == Spelled([d] + below) + [leaf]
       <==> |names| > 1 && names[0] == d.DieName() && names[1..] == Spelled(below) + [leaf]
  {
    assert ([d] + below)[1..] == below;
    assert Spelled([d] + below) + [leaf] == [d.DieName()] + (Spelled(below) + [leaf]);
    assert names == [names[0]] + names[1..];
  }

  /** The paths that go through the k'th child or a later one. */
  predicate Through(d: Die, k: nat, q: Path) {
    q != [] && k <= q[0] < |d.children|
  }

  ghost predicate DenotesIn(d: Die, k: nat, q: Path, tag: Tag, names: seq<string>) {
    Through(d, k, q) && Denotes(d.children[q[0]], q[1..], tag, names)
  }

  ghost predicate IsFirstIn(d: Die, k: nat, r: Option<Path>, tag: Tag, names: seq<string>) {
    match r
    case None => forall q :: !DenotesIn(d, k, q, tag, names)
    case Some(p) => DenotesIn(d, k, p, tag, names) && forall q :: DenotesIn(d, k, q, tag, names) ==> p == q || Before(p, q)
  }

  /** The search is sound and complete, and takes the first of several. */
  lemma {:induction false} FindsFirst(d: Die, tag: Tag, names: seq<string>)
    requires names != []
    ensures IsFirst(d, Find(d, tag, names), tag, names)
    decreases d, |d.children| + 1
  {
    FindGoes(d, tag, names);
    DenotesHere(d, tag, names);
    forall q | q != []
      ensures Denotes(d, q, tag, names) <==> Enters(d, names) && DenotesIn(d, 0, q, tag, Rest(d, names))
    {
      DenotesBelow(d, q, tag, names);
    }
    if !Here(d, tag, names) && Enters(d, names) {
      FindsFirstIn(d, 0, tag, Rest(d, names));
    }
  }

  lemma {:induction false} FindsFirstIn(d: Die, k: nat, tag: Tag, names: seq<string>)
    requires names != [] && k <= |d.children|
    ensures IsFirstIn(d, k, FindIn(d, k, tag, names), tag, names)
    decreases d, |d.children| - k
  {
    if k < |d.children| {
      var found := Find(d.children[k], tag, names);
      FindsFirst(d.children[k], tag, names);
      if found.Some? {
        FirstThrough(d, k, found.value, tag, names);
      } else {
        FindsFirstIn(d, k + 1, tag, names);
        forall q ensures DenotesIn(d, k, q, tag, names) <==> DenotesIn(d, k + 1, q, tag, names) {
        }
      }
    }
  }

  lemma FirstThrough(d: Die, k: nat, p: Path, tag: Tag, names: seq<string>)
    requires k < |d.children| && IsFirst(d.children[k], Some(p), tag, names)
    ensures IsFirstIn(d, k, Some([k] + p), tag, names)
  {
    assert ([k] + p)[1..] == p;
    forall q | DenotesIn(d, k, q, tag, names)
      ensures [k] + p == q || Before([k] + p, q)
    {
      assert q == [q[0]] + q[1..];
    }
  }
}
