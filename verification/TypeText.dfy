/**
 The text of a type, which the modules written out use to refer to it: whether it can be put together,
 and what it mentions.
 */
module TypeText {
  import opened Options
  import opened TypeGraph

  /** From a type to a type whose own text is part of its text. */
  predicate Mentions(g: Graph, t: Type, u: Type)
    requires g.Valid() && g.Has(t)
  {
    assert g.ValidKind(t);
    u in Parts(g, t)
  }

  predicate MentionChain(g: Graph, chain: seq<Type>)
    requires g.Valid()
  {
    && chain != [] && (forall i :: 0 <= i < |chain| ==> g.Has(chain[i]))
    && forall i :: 0 <= i < |chain| - 1 ==> Mentions(g, chain[i], chain[i + 1])
  }

  lemma ChainRest(g: Graph, chain: seq<Type>)
    requires g.Valid() && MentionChain(g, chain) && |chain| > 1
    ensures MentionChain(g, chain[1..]) && Mentions(g, chain[0], chain[1])
  {
    forall i | 0 <= i < |chain[1..]| - 1
      ensures Mentions(g, chain[1..][i], chain[1..][i + 1])
    {
      assert Mentions(g, chain[i + 1], chain[i + 2]);
    }
  }

  lemma ChainFrom(g: Graph, t: Type, chain: seq<Type>)
    requires g.Valid() && g.Has(t) && MentionChain(g, chain) && Mentions(g, t, chain[0])
    ensures MentionChain(g, [t] + chain)
  {
    var longer := [t] + chain;
    forall i | 0 <= i < |longer| - 1
      ensures Mentions(g, longer[i], longer[i + 1])
    {
      assert i > 0 ==> Mentions(g, chain[i - 1], chain[i]);
    }
  }

  // ----- When a text can be put together -----

  /** A volatile or restrict of nothing. */
  predicate QualifiesNothing(kind: Kind) {
    kind == Modifier(Volatile, None) || kind == Modifier(Restrict, None)
  }

  /** Nothing that t mentions, at any depth, is a volatile or restrict without anything to qualify,
      and no way from t is longer than n. */
  ghost predicate Plain(g: Graph, t: Type, n: nat)
    requires g.Valid()
  {
    forall chain :: MentionChain(g, chain) && chain[0] == t ==>
      |chain| <= n && !QualifiesNothing(g.kinds[chain[|chain| - 1]])
  }

  lemma {:induction false} RendersPlain(g: Graph, t: Type, depth: nat, chain: seq<Type>)
    requires g.Valid() && g.Has(t) && RendersIn(g, t, depth) && MentionChain(g, chain) && chain[0] == t
    ensures |chain| <= depth && !QualifiesNothing(g.kinds[chain[|chain| - 1]])
    decreases depth
  {
    if |chain| > 1 {
      ChainRest(g, chain);
      RendersPlain(g, chain[1], depth - 1, chain[1..]);
    }
  }

  lemma {:induction false} PlainRenders(g: Graph, t: Type, n: nat)
    requires g.Valid() && g.Has(t) && Plain(g, t, n)
    ensures RendersIn(g, t, n)
    decreases n
  {
    assert g.ValidKind(t);
    assert MentionChain(g, [t]) && [t][0] == t;
    forall u | u in Parts(g, t)
      ensures g.Has(u) && RendersIn(g, u, n - 1)
    {
      forall chain | MentionChain(g, chain) && chain[0] == u
        ensures |chain| <= n - 1 && !QualifiesNothing(g.kinds[chain[|chain| - 1]])
      {
        ChainFrom(g, t, chain);
        assert ([t] + chain)[0] == t && ([t] + chain)[|chain|] == chain[|chain| - 1];
      }
      assert MentionChain(g, [u]) && [u][0] == u;
      PlainRenders(g, u, n - 1);
    }
  }

  /** Putting the text of a type together succeeds exactly when nothing in it is a bare volatile or
      restrict and the text does not contain itself. */
  lemma RendersIffPlain(g: Graph, t: Type)
    requires g.Valid() && g.Has(t)
    ensures Renders(g, t) <==> exists n: nat :: Plain(g, t, n)
  {
    if depth: nat :| RendersIn(g, t, depth) {
      forall chain | MentionChain(g, chain) && chain[0] == t
        ensures |chain| <= depth && !QualifiesNothing(g.kinds[chain[|chain| - 1]])
      {
        RendersPlain(g, t, depth, chain);
      }
      assert Plain(g, t, depth);
    }
    if n: nat :| Plain(g, t, n) {
      PlainRenders(g, t, n);
    }
  }

  /** What the text of each kind of type mentions, whatever the types: what it qualifies, holds, gives
      or takes, and what it points to unless that is void. */
  lemma MentionsExactly(g: Graph, t: Type, u: Type)
    requires g.Valid() && g.Has(t) && g.Has(u)
    ensures Mentions(g, t, u) <==>
      match g.kinds[t]
      case Modifier(_, b) => b == Some(u)
      case Array(b) => b == u
      case Pointer(b) => b == Some(u) && !g.void[u]
      case Function(r, ps) => r == Some(u) || u in ps
      case _ => false
  {
    assert g.ValidKind(t);
  }

  /** Void is mentioned only as the result or a parameter of a function, or as the element of an
      array: not behind a pointer, and what qualifies void is void itself. */
  lemma VoidIsMentionedBy(g: Graph, t: Type, u: Type)
    requires g.Valid() && g.Has(t) && g.Has(u) && !g.void[t] && g.void[u]
    ensures Mentions(g, t, u) <==>
      match g.kinds[t]
      case Array(b) => b == u
      case Function(r, ps) => r == Some(u) || u in ps
      case _ => false
  {
    assert g.ValidKind(t);
  }

  // ----- When a type has an alignment, and when it is complete -----

  /** All of these types exist, and each is made of the next. */
  ghost predicate BaseChain(g: Graph, chain: seq<Type>) {
    && chain != [] && (forall i :: 0 <= i < |chain| ==> g.Has(chain[i]))
    && forall i :: 0 <= i < |chain| - 1 ==> IsMadeOf(g, chain[i], chain[i + 1])
  }

  predicate IsMadeOf(g: Graph, t: Type, u: Type)
    requires g.Has(t)
  {
    match g.kinds[t]
    case Enumeration(b, _) => b == Some(u)
    case Typedef(b) => b == Some(u)
    case Modifier(_, b) => b == Some(u)
    case Array(b) => b == u
    case Function(r, _) => r == Some(u)
    case _ => false
  }

  lemma BaseRest(g: Graph, chain: seq<Type>)
    requires BaseChain(g, chain) && |chain| > 1
    ensures BaseChain(g, chain[1..]) && IsMadeOf(g, chain[0], chain[1])
  {
    forall i | 0 <= i < |chain[1..]| - 1
      ensures IsMadeOf(g, chain[1..][i], chain[1..][i + 1])
    {
      assert IsMadeOf(g, chain[i + 1], chain[i + 2]);
    }
  }

  lemma BaseFrom(g: Graph, t: Type, chain: seq<Type>)
    requires g.Has(t) && BaseChain(g, chain) && IsMadeOf(g, t, chain[0])
    ensures BaseChain(g, [t] + chain)
  {
    var longer := [t] + chain;
    forall i | 0 <= i < |longer| - 1
      ensures IsMadeOf(g, longer[i], longer[i + 1])
    {
      assert i > 0 ==> IsMadeOf(g, chain[i - 1], chain[i]);
    }
  }

  /** A type with an alignment that is not that of another: of its own, or that of void. */
  predicate HasAlignment(g: Graph, t: Type)
    requires g.Has(t)
  {
    match g.kinds[t]
    case Basic(aligned, _) => aligned
    case Record(_, _) => true
    case Pointer(_) => true
    case Array(_) => false
    case Enumeration(b, _) => b.None?
    case Typedef(b) => b.None?
    case Modifier(_, b) => b.None?
    case Function(r, _) => r.None?
  }

  /** A type has an alignment exactly when what it is made of leads to a type with one. */
  lemma AlignsIff(g: Graph, t: Type)
    requires g.Valid() && g.Has(t)
    ensures Aligns(g, t) <==> exists chain :: BaseChain(g, chain) && chain[0] == t && HasAlignment(g, chain[|chain| - 1])
  {
    if depth: nat :| AlignsIn(g, t, depth) {
      var chain := AlignedChain(g, t, depth);
    }
    if chain :| BaseChain(g, chain) && chain[0] == t && HasAlignment(g, chain[|chain| - 1]) {
      ChainAligns(g, chain);
    }
  }

  lemma {:induction false} AlignedChain(g: Graph, t: Type, depth: nat) returns (chain: seq<Type>)
    requires g.Valid() && g.Has(t) && AlignsIn(g, t, depth)
    ensures BaseChain(g, chain) && chain[0] == t && HasAlignment(g, chain[|chain| - 1])
    decreases depth
  {
    assert g.ValidKind(t);
    chain := [t];
    if !HasAlignment(g, t) {
      var u := if g.kinds[t].Array? then g.kinds[t].element
               else if g.kinds[t].Function? then g.kinds[t].result.value else g.kinds[t].base.value;
      var rest := AlignedChain(g, u, depth - 1);
      BaseFrom(g, t, rest);
      chain := [t] + rest;
    }
  }

  lemma {:induction false} ChainAligns(g: Graph, chain: seq<Type>)
    requires g.Valid() && BaseChain(g, chain) && HasAlignment(g, chain[|chain| - 1])
    ensures AlignsIn(g, chain[0], |chain|)
    decreases |chain|
  {
    assert g.ValidKind(chain[0]);
    if |chain| > 1 {
      BaseRest(g, chain);
      ChainAligns(g, chain[1..]);
    }
  }

  /** Nothing is missing here, whatever it is made of. */
  predicate IsWhole(g: Graph, t: Type)
    requires g.Valid() && g.Has(t)
  {
    assert g.ValidKind(t);
    match g.kinds[t]
    case Record(_, declaration) => !declaration
    case Array(b) => g.void[b]
    case Typedef(_) => false
    case Modifier(_, _) => false
    case _ => true
  }

  /** Each of these is a typedef, a qualified type or an array, but for the last. */
  predicate ThroughNames(g: Graph, chain: seq<Type>)
  {
    forall i :: 0 <= i < |chain| - 1 ==> g.Has(chain[i]) && IsName(g.kinds[chain[i]])
  }

  predicate IsName(kind: Kind) { kind.Typedef? || kind.Modifier? || kind.Array? }

  /** A type is complete exactly when it is not void, and its typedefs, qualifiers and arrays lead to a
      type that is no record only declared. */
  lemma CompletesIff(g: Graph, t: Type)
    requires g.Valid() && g.Has(t)
    ensures Completes(g, t) <==>
      !g.void[t] && exists chain :: BaseChain(g, chain) && ThroughNames(g, chain) && chain[0] == t && IsWhole(g, chain[|chain| - 1])
  {
    if depth: nat :| CompletesIn(g, t, depth) {
      var chain := CompleteChain(g, t, depth);
    }
    if chain :| !g.void[t] && BaseChain(g, chain) && ThroughNames(g, chain) && chain[0] == t && IsWhole(g, chain[|chain| - 1]) {
      ChainCompletes(g, chain);
    }
  }

  lemma {:induction false} CompleteChain(g: Graph, t: Type, depth: nat) returns (chain: seq<Type>)
    requires g.Valid() && g.Has(t) && CompletesIn(g, t, depth)
    ensures BaseChain(g, chain) && ThroughNames(g, chain) && chain[0] == t && IsWhole(g, chain[|chain| - 1])
    decreases depth
  {
    assert g.ValidKind(t);
    chain := [t];
    if !IsWhole(g, t) {
      var u := if g.kinds[t].Array? then g.kinds[t].element else g.kinds[t].base.value;
      var rest := CompleteChain(g, u, depth - 1);
      BaseFrom(g, t, rest);
      chain := [t] + rest;
    }
  }

  lemma {:induction false} ChainCompletes(g: Graph, chain: seq<Type>)
    requires g.Valid() && BaseChain(g, chain) && ThroughNames(g, chain) && IsWhole(g, chain[|chain| - 1]) && !g.void[chain[0]]
    ensures CompletesIn(g, chain[0], |chain|)
    decreases |chain|
  {
    assert g.ValidKind(chain[0]);
    if |chain| > 1 {
      BaseRest(g, chain);
      if !g.void[chain[1]] {
        forall i | 0 <= i < |chain[1..]| - 1
          ensures g.Has(chain[1..][i]) && IsName(g.kinds[chain[1..][i]])
        {
          assert chain[1..][i] == chain[i + 1];
        }
        ChainCompletes(g, chain[1..]);
      }
    }
  }
}
