/**
 Types as the debug information links them, and the calls by which `TypeResolver` writes them
 out: declaring a type makes its name known, defining it makes it usable by value.  Both first
 make other calls, emit at the end, and are marked as done only then.
 */
module TypeGraph {
  import opened Options

  type Type = nat

  /** A member or base of a record: the type, whether it is an empty base, which is not written, and
      whether it has a byte offset. */
  datatype Field = Field(t: Type, emptyBase: bool, located: bool)

  function FieldTypes(fs: seq<Field>): (ts: seq<Type>)
    ensures |ts| == |fs| && forall i :: 0 <= i < |fs| ==> ts[i] == fs[i].t
  {
    if fs == [] then [] else [fs[0].t] + FieldTypes(fs[1..])
  }

  datatype Qualifier = Const | Volatile | Restrict

  /** What a type is made of.  A missing base is void.
      - Basic: base types, and types taken from an imported module; aligned says whether ctypes has an
        alignment for it
      - Record: structures, classes and unions; a declaration has no known members */
  datatype Kind =
    | Basic(aligned: bool, declaration: bool)
    | Record(fields: seq<Field>, declaration: bool)
    | Enumeration(base: Option<Type>, declaration: bool)
    | Typedef(base: Option<Type>)
    | Modifier(qualifier: Qualifier, base: Option<Type>)
    | Pointer(base: Option<Type>)
    | Array(element: Type)
    | Function(result: Option<Type>, params: seq<Type>)

  /** kinds[t] is type t; void[t] says that t is void under typedefs and qualifiers. */
  datatype Graph = Graph(kinds: seq<Kind>, void: seq<bool>)
  {
    predicate Has(t: Type) { t < |kinds| && t < |void| }

    predicate HasSome(o: Option<Type>) { o.Some? ==> Has(o.value) }

    predicate IsVoid(o: Option<Type>)
      requires HasSome(o)
    {
      o.None? || void[o.value]
    }

    predicate Valid() {
      |kinds| == |void| && forall t :: 0 <= t < |kinds| ==> ValidKind(t)
    }

    predicate ValidKind(t: Type)
      requires Has(t)
    {
      match kinds[t]
      case Basic(_, _) => !void[t]
      case Record(fs, _) => !void[t] && forall m <- FieldTypes(fs) :: Has(m)
      case Enumeration(b, _) => !void[t] && HasSome(b)
      case Typedef(b) => HasSome(b) && void[t] == IsVoid(b)
      case Modifier(_, b) => HasSome(b) && void[t] == IsVoid(b)
      case Pointer(b) => !void[t] && HasSome(b)
      case Array(b) => !void[t] && Has(b)
      case Function(r, ps) => !void[t] && HasSome(r) && forall p <- ps :: Has(p)
    }
  }

  datatype Call = Declare(t: Type) | Define(t: Type)

  function DefineAll(ts: seq<Type>): (cs: seq<Call>)
    ensures |cs| == |ts| && forall i :: 0 <= i < |ts| ==> cs[i] == Define(ts[i])
  {
    if ts == [] then [] else [Define(ts[0])] + DefineAll(ts[1..])
  }

  function DefineSome(o: Option<Type>): seq<Call> { if o.Some? then [Define(o.value)] else [] }

  function DeclareSome(o: Option<Type>): seq<Call> { if o.Some? then [Declare(o.value)] else [] }

  /** The calls a call makes, in order, before it emits anything. */
  function Needs(g: Graph, c: Call): seq<Call>
    requires g.Has(c.t) && g.ValidKind(c.t)
  {
    var kind := g.kinds[c.t];
    if c.Define? then
      match kind
      case Basic(_, _) => []
      case Record(fs, declaration) => if declaration then [] else [Declare(c.t)] + DefineAll(FieldTypes(fs))
      case Enumeration(b, _) => DefineSome(b)
      case Typedef(b) => DeclareSome(b) + [Declare(c.t)] + DefineSome(b)
      case Modifier(_, b) => DefineSome(b)
      case Pointer(b) => if g.IsVoid(b) then [] else DeclareSome(b)
      case Array(b) => [Define(b)]
      case Function(r, ps) => DefineSome(r) + DefineAll(ps)
    else
      match kind
      case Record(_, _) => []
      case Typedef(b) => DeclareSome(b)
      case Modifier(_, b) => DeclareSome(b)
      case Pointer(b) => DeclareSome(b)
      case _ => [Define(c.t)]
  }

  // ----- The text of a type -----

  /** The types whose text is part of a type's text.  A record, an enumeration or a typedef is a name
      in the text, and void behind a pointer is not mentioned. */
  function Parts(g: Graph, t: Type): seq<Type>
    requires g.Has(t) && g.ValidKind(t)
  {
    match g.kinds[t]
    case Modifier(_, b) => if b.Some? then [b.value] else []
    case Array(b) => [b]
    case Pointer(b) => if g.IsVoid(b) then [] else [b.value]
    case Function(r, ps) => (if r.Some? then [r.value] else []) + ps
    case _ => []
  }

  /** Only const asks whether there is anything to qualify. */
  predicate Bare(g: Graph, t: Type)
    requires g.Has(t)
  {
    g.kinds[t].Modifier? && g.kinds[t].base.None? && !g.kinds[t].qualifier.Const?
  }

  /** The text of a type can be put together, with calls nested at most so deep. */
  predicate RendersIn(g: Graph, t: Type, depth: nat)
    requires g.Valid() && g.Has(t)
    decreases depth
  {
    assert g.ValidKind(t);
    depth > 0 && !Bare(g, t) && forall u <- Parts(g, t) :: g.Has(u) && RendersIn(g, u, depth - 1)
  }

  ghost predicate Renders(g: Graph, t: Type)
    requires g.Valid() && g.Has(t)
  {
    exists depth: nat :: RendersIn(g, t, depth)
  }

  // ----- What a member needs of its type -----

  /** Defining the type, once it comes to an end, marks it as defined. */
  predicate CompletesIn(g: Graph, t: Type, depth: nat)
    requires g.Valid() && g.Has(t)
    decreases depth
  {
    assert g.ValidKind(t);
    depth > 0 && !g.void[t]
    && match g.kinds[t]
       case Record(_, declaration) => !declaration
       case Typedef(b) => CompletesIn(g, b.value, depth - 1)
       case Modifier(_, b) => CompletesIn(g, b.value, depth - 1)
       case Array(b) => g.void[b] || CompletesIn(g, b, depth - 1)
       case _ => true
  }

  ghost predicate Completes(g: Graph, t: Type)
    requires g.Valid() && g.Has(t)
  {
    exists depth: nat :: CompletesIn(g, t, depth)
  }

  /** The alignment of a type is that of what it is made of; a base type may have none. */
  predicate AlignsIn(g: Graph, t: Type, depth: nat)
    requires g.Valid() && g.Has(t)
    decreases depth
  {
    assert g.ValidKind(t);
    depth > 0
    && match g.kinds[t]
       case Basic(aligned, _) => aligned
       case Record(_, _) => true
       case Enumeration(b, _) => b.None? || AlignsIn(g, b.value, depth - 1)
       case Typedef(b) => b.None? || AlignsIn(g, b.value, depth - 1)
       case Modifier(_, b) => b.None? || AlignsIn(g, b.value, depth - 1)
       case Pointer(_) => true
       case Array(b) => AlignsIn(g, b, depth - 1)
       case Function(r, _) => r.None? || AlignsIn(g, r.value, depth - 1)
  }

  ghost predicate Aligns(g: Graph, t: Type)
    requires g.Valid() && g.Has(t)
  {
    exists depth: nat :: AlignsIn(g, t, depth)
  }

  /** Writing the k-th field raises: its type is defined and has no alignment or no text, or it is not
      defined and the next member, whose offset would give its size, has none. */
  ghost predicate FieldRaises(g: Graph, fs: seq<Field>, k: nat)
    requires g.Valid() && k < |fs|
  {
    g.Has(fs[k].t) && !fs[k].emptyBase
    && if Completes(g, fs[k].t) then !Aligns(g, fs[k].t) || !Renders(g, fs[k].t)
       else k + 1 < |fs| && !fs[k + 1].located
  }

  /** An exception: the text of a typedef's base cannot be put together, or a field cannot be written. */
  ghost predicate Raises(g: Graph, c: Call)
    requires g.Valid() && g.Has(c.t)
  {
    assert g.ValidKind(c.t);
    match g.kinds[c.t]
    case Typedef(b) => c.Declare? && (b.None? || !Renders(g, b.value))
    case Record(fs, declaration) =>
      c.Define? && !declaration && exists k :: 0 <= k < |fs| && FieldRaises(g, fs, k)
    case _ => false
  }

  /** Defining void is refused without doing anything. */
  predicate Skips(g: Graph, c: Call)
    requires g.Has(c.t)
  {
    c.Define? && g.void[c.t]
  }

  /** done lists the calls that have finished, in order; todo is the worklist of deepInspect. */
  datatype State = State(declared: set<Type>, defined: set<Type>, done: seq<Call>, todo: set<Type>)

  const START := State({}, {}, [], {})

  predicate Settled(g: Graph, st: State, c: Call)
    requires g.Has(c.t)
  {
    if c.Declare? then c.t in st.declared else c.t in st.defined || g.void[c.t]
  }

  /** Does defining t succeed, once its needs are done? */
  predicate Succeeds(g: Graph, t: Type, st: State)
    requires g.Valid() && g.Has(t)
  {
    assert g.ValidKind(t);
    match g.kinds[t]
    case Record(_, declaration) => !declaration
    case Typedef(b) => b.Some? && Settled(g, st, Define(b.value))
    case Modifier(_, b) => b.Some? && Settled(g, st, Define(b.value))
    case Array(b) => Settled(g, st, Define(b))
    case _ => true
  }

  /** The debug information only declares the type. */
  predicate OnlyADeclaration(g: Graph, t: Type)
    requires g.Has(t)
  {
    match g.kinds[t]
    case Basic(_, declaration) => declaration
    case Record(_, declaration) => declaration
    case Enumeration(_, declaration) => declaration
    case _ => false
  }

  /** The pointed-to type that defining a pointer queues when pointers are followed. */
  function Queued(g: Graph, t: Type): set<Type>
    requires g.Valid() && g.Has(t)
  {
    assert g.ValidKind(t);
    match g.kinds[t]
    case Pointer(b) =>
      if g.IsVoid(b) || OnlyADeclaration(g, b.value) then {} else {b.value}
    case _ => {}
  }

  function Finish(g: Graph, c: Call, deep: bool, st: State): State
    requires g.Valid() && g.Has(c.t)
  {
    if c.Declare? then st.(declared := st.declared + {c.t}, done := st.done + [c])
    else
      State(st.declared, if Succeeds(g, c.t, st) then st.defined + {c.t} else st.defined,
            st.done + [c], if deep then st.todo + Queued(g, c.t) else st.todo)
  }

  lemma NeedsValid(g: Graph, c: Call)
    requires g.Valid() && g.Has(c.t)
    ensures forall n <- Needs(g, c) :: g.Has(n.t)
  {
    assert g.ValidKind(c.t);
  }

  lemma DefineAllHas(ts: seq<Type>, n: Call)
    ensures n in DefineAll(ts) <==> n.Define? && n.t in ts
  {
    var cs := DefineAll(ts);
    if n in cs {
      var i :| 0 <= i < |cs| && cs[i] == n;
      assert ts[i] == n.t;
    }
    if n.Define? && n.t in ts {
      var i :| 0 <= i < |ts| && ts[i] == n.t;
      assert cs[i] == n;
    }
  }

  /** Which calls a call makes.  Defining a record, a typedef or a pointer is what declares something:
      the record, the typedef and its base, and what is pointed to unless that is void. */
  lemma NeedsExactly(g: Graph, c: Call, n: Call)
    requires g.Valid() && g.Has(c.t) && g.ValidKind(c.t)
    ensures n in Needs(g, c) <==>
      if c.Define? then
        match g.kinds[c.t]
        case Basic(_, _) => false
        case Record(fs, declaration) => !declaration && (n == Declare(c.t) || (n.Define? && n.t in FieldTypes(fs)))
        case Enumeration(b, _) => n.Define? && b == Some(n.t)
        case Typedef(b) => n == Declare(c.t) || b == Some(n.t)
        case Modifier(_, b) => n.Define? && b == Some(n.t)
        case Pointer(b) => n.Declare? && b == Some(n.t) && !g.void[n.t]
        case Array(b) => n == Define(b)
        case Function(r, ps) => n.Define? && (r == Some(n.t) || n.t in ps)
      else
        match g.kinds[c.t]
        case Record(_, _) => false
        case Typedef(b) => n.Declare? && b == Some(n.t)
        case Modifier(_, b) => n.Declare? && b == Some(n.t)
        case Pointer(b) => n.Declare? && b == Some(n.t)
        case _ => n == Define(c.t)
  {
    match g.kinds[c.t]
    case Record(fs, _) => DefineAllHas(FieldTypes(fs), n);
    case Function(_, ps) => DefineAllHas(ps, n);
    case _ =>
  }

  /** A call, with a bound on the depth of calls.  None: it does not return normally within it. */
  ghost function Do(g: Graph, c: Call, deep: bool, st: State, depth: nat): (r: Option<State>)
    requires g.Valid() && g.Has(c.t)
    decreases depth, 0
  {
    if Settled(g, st, c) then Some(st)
    else if depth == 0 || Raises(g, c) then None
    else
      NeedsValid(g, c);
      match DoAll(g, Needs(g, c), deep, st, depth - 1)
      case None => None
      case Some(st') => Some(Finish(g, c, deep, st'))
  }

  ghost function DoAll(g: Graph, cs: seq<Call>, deep: bool, st: State, depth: nat): (r: Option<State>)
    requires g.Valid() && forall c <- cs :: g.Has(c.t)
    decreases depth, |cs| + 1
  {
    if cs == [] then Some(st)
    else
      match Do(g, cs[0], deep, st, depth)
      case None => None
      case Some(st') => DoAll(g, cs[1..], deep, st', depth)
  }
}
