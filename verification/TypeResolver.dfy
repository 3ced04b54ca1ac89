/**
 `TypeResolver` as it runs: the flags, the worklist and the output are updated in place by
 mutually recursive methods, each proved to carry out the calls of `TypeGraph`.
 */
module TypeResolver {
  import opened Options
  import opened TypeGraph
  import opened EmissionOrder
  import opened EmissionWorklist

  lemma OutputSnoc(g: Graph, done: seq<Call>, c: Call)
    requires (forall x <- done :: g.Has(x.t)) && g.Has(c.t)
    ensures Output(g, done + [c]) == Output(g, done) + Written(g, c)
    ensures forall x <- done + [c] :: g.Has(x.t)
  {
    assert (done + [c])[..|done|] == done;
  }

  /** A call that is not settled makes the calls it needs, and then finishes. */
  lemma DoStep(g: Graph, c: Call, deep: bool, st: State, depth: nat)
    requires g.Valid() && g.Has(c.t) && Sound(g, st) && !Settled(g, st, c) && Do(g, c, deep, st, depth).Some?
    ensures depth > 0 && !Raises(g, c) && (forall n <- Needs(g, c) :: g.Has(n.t))
    ensures DoAll(g, Needs(g, c), deep, st, depth - 1).Some?
    ensures Do(g, c, deep, st, depth).value == Finish(g, c, deep, DoAll(g, Needs(g, c), deep, st, depth - 1).value)
    ensures Sound(g, Do(g, c, deep, st, depth).value)
  {
    NeedsValid(g, c);
    DoKeepsSound(g, c, deep, st, depth);
  }

  class Resolver {
    const g: Graph
    const deepInspect: bool
    var declared: set<Type>
    var defined: set<Type>
    var defineTypes: set<Type>
    var out: seq<Statement>
    ghost var done: seq<Call>
    ghost const wanted: set<Type>

    ghost predicate Valid()
      reads this
    {
      g.Valid() && Sound(g, Now()) && (forall c <- done :: g.Has(c.t)) && out == Output(g, done)
    }

    ghost function Now(): State
      reads this
    {
      State(declared, defined, done, defineTypes)
    }

    constructor (g: Graph, deepInspect: bool, wanted: set<Type>)
      requires g.Valid() && forall t <- wanted :: g.Has(t)
      ensures Running({}) && this.g == g && this.deepInspect == deepInspect
      ensures Now() == START.(todo := wanted) && this.wanted == wanted
    {
      this.wanted := wanted;
      RunStarts(g, deepInspect, wanted);
      this.g, this.deepInspect, declared, defined, defineTypes, out := g, deepInspect, {}, {}, wanted, [];
      done := [];
    }

    /** Idempotent wrapper of a type's own declaration. */
    method DeclareType(o: Option<Type>, ghost depth: nat)
      requires Valid() && g.HasSome(o)
      requires o.Some? ==> Do(g, Declare(o.value), deepInspect, Now(), depth).Some?
      modifies this
      ensures Valid()
      ensures Now() == if o.None? then old(Now()) else Do(g, Declare(o.value), deepInspect, old(Now()), depth).value
      decreases depth, 1, 0
    {
      if o.None? || o.value in declared {
        return;
      }
      DoStep(g, Declare(o.value), deepInspect, Now(), depth);
      WriteDeclaration(o.value, depth - 1);
      declared := declared + {o.value};
      done := done + [Declare(o.value)];
    }

    /** Idempotent wrapper of a type's own definition. */
    method DefineType(o: Option<Type>, ghost depth: nat) returns (ok: bool)
      requires Valid() && g.HasSome(o)
      requires o.Some? ==> Do(g, Define(o.value), deepInspect, Now(), depth).Some?
      modifies this
      ensures Valid()
      ensures Now() == if o.None? then old(Now()) else Do(g, Define(o.value), deepInspect, old(Now()), depth).value
      ensures ok == (o.None? || Settled(g, Now(), Define(o.value)))
      decreases depth, 1, 0
    {
      if o.None? || o.value in defined || g.void[o.value] {
        return true;
      }
      DoStep(g, Define(o.value), deepInspect, Now(), depth);
      ok := WriteDefinition(o.value, depth - 1);
      if ok {
        defined := defined + {o.value};
      }
      done := done + [Define(o.value)];
    }

    /** What each kind of type does to be declared. */
    method WriteDeclaration(t: Type, ghost depth: nat)
      requires Valid() && g.Has(t) && !Raises(g, Declare(t))
      requires DoAll(g, Needs(g, Declare(t)), deepInspect, Now(), depth).Some?
      modifies this
      ensures Now() == DoAll(g, Needs(g, Declare(t)), deepInspect, old(Now()), depth).value
      ensures (forall c <- done :: g.Has(c.t)) && out == Output(g, done + [Declare(t)])
      decreases depth, 2, 0
    {
      assert g.ValidKind(t);
      match g.kinds[t] {
        case Record(_, _) =>
          out := out + [ClassStatement(t)];
        case Typedef(b) =>
          DeclareBase(b, depth);
          out := out + [AliasStatement(t)];
        case Modifier(_, b) =>
          DeclareBase(b, depth);
        case Pointer(b) =>
          DeclareBase(b, depth);
        case _ =>
          var _ := DefineBase(Some(t), depth);
      }
      OutputSnoc(g, done, Declare(t));
    }

    /** What each kind of type does to be defined. */
    method WriteDefinition(t: Type, ghost depth: nat) returns (ok: bool)
      requires Valid() && g.Has(t) && !g.void[t]
      requires DoAll(g, Needs(g, Define(t)), deepInspect, Now(), depth).Some?
      modifies this
      ensures
        var st := DoAll(g, Needs(g, Define(t)), deepInspect, old(Now()), depth).value;
        && Now() == (if deepInspect then st.(todo := st.todo + Queued(g, t)) else st)
        && ok == Succeeds(g, t, st)
      ensures (forall c <- done :: g.Has(c.t)) && out == Output(g, done + [Define(t)])
      decreases depth, 2, 0
    {
      assert g.ValidKind(t);
      if g.kinds[t].Pointer? {
        ok := true;
        DefinePointer(t, g.kinds[t].base, depth);
        OutputSnoc(g, done, Define(t));
      } else {
        ok := DefineMade(t, depth);
      }
    }

    /** The kinds of type that queue nothing. */
    method DefineMade(t: Type, ghost depth: nat) returns (ok: bool)
      requires Valid() && g.Has(t) && !g.void[t] && !g.kinds[t].Pointer?
      requires DoAll(g, Needs(g, Define(t)), deepInspect, Now(), depth).Some?
      modifies this
      ensures Now() == DoAll(g, Needs(g, Define(t)), deepInspect, old(Now()), depth).value
      ensures ok == Succeeds(g, t, Now())
      ensures (forall c <- done :: g.Has(c.t)) && out == Output(g, done + [Define(t)])
      decreases depth, 1, 5
    {
      assert g.ValidKind(t);
      ok := true;
      if g.kinds[t].Record? {
        ok := !g.kinds[t].declaration;
        if ok {
          DefineMembers(t, FieldTypes(g.kinds[t].fields), depth);
        }
      } else if g.kinds[t].Enumeration? {
        var _ := DefineBase(g.kinds[t].base, depth);
        out := out + [EnumStatement(t)];
      } else if !g.kinds[t].Basic? {
        ok := DefineDerived(t, depth);
      }
      OutputSnoc(g, done, Define(t));
    }

    /** The kinds of type that write nothing and define what they are made of. */
    method DefineDerived(t: Type, ghost depth: nat) returns (ok: bool)
      requires Valid() && g.Has(t) && !g.void[t]
      requires g.kinds[t].Typedef? || g.kinds[t].Modifier? || g.kinds[t].Array? || g.kinds[t].Function?
      requires DoAll(g, Needs(g, Define(t)), deepInspect, Now(), depth).Some?
      modifies this
      ensures
        var st := DoAll(g, Needs(g, Define(t)), deepInspect, old(Now()), depth).value;
        Now() == st && ok == Succeeds(g, t, st)
      ensures Valid()
      decreases depth, 1, 3
    {
      assert g.ValidKind(t);
      ok := true;
      if g.kinds[t].Typedef? {
        var b := g.kinds[t].base;
        assert Needs(g, Define(t)) == [Declare(b.value), Declare(t), Define(b.value)];
        ok := DefineTypedef(t, b, depth);
      } else if g.kinds[t].Function? {
        DefineFunction(g.kinds[t].result, g.kinds[t].params, depth);
      } else {
        ok := DefineBase(if g.kinds[t].Array? then Some(g.kinds[t].element) else g.kinds[t].base, depth);
      }
    }

    /** A record declares itself, then defines the types of its members, then writes its fields. */
    method DefineMembers(t: Type, ms: seq<Type>, ghost depth: nat)
      requires Valid() && g.Has(t) && g.kinds[t].Record? && !g.kinds[t].declaration
      requires ms == FieldTypes(g.kinds[t].fields) && forall m <- ms :: g.Has(m)
      requires DoAll(g, [Declare(t)] + DefineAll(ms), deepInspect, Now(), depth).Some?
      modifies this
      ensures Now() == DoAll(g, [Declare(t)] + DefineAll(ms), deepInspect, old(Now()), depth).value
      ensures (forall c <- done :: g.Has(c.t)) && out == Output(g, done) + [FieldsStatement(t)]
      decreases depth, 1, 2
    {
      assert ([Declare(t)] + DefineAll(ms))[1..] == DefineAll(ms);
      DeclareType(Some(t), depth);
      DefineEach(ms, depth);
      out := out + [FieldsStatement(t)];
    }

    method DeclareBase(b: Option<Type>, ghost depth: nat)
      requires Valid() && g.HasSome(b) && DoAll(g, DeclareSome(b), deepInspect, Now(), depth).Some?
      modifies this
      ensures Valid() && Now() == DoAll(g, DeclareSome(b), deepInspect, old(Now()), depth).value
      decreases depth, 1, 2
    {
      if b.Some? {
        DoAllOne(g, Declare(b.value), deepInspect, Now(), depth);
      }
      DeclareType(b, depth);
    }

    method DefineBase(b: Option<Type>, ghost depth: nat) returns (ok: bool)
      requires Valid() && g.HasSome(b) && DoAll(g, DefineSome(b), deepInspect, Now(), depth).Some?
      modifies this
      ensures Valid() && Now() == DoAll(g, DefineSome(b), deepInspect, old(Now()), depth).value
      ensures ok == (b.None? || Settled(g, Now(), Define(b.value)))
      decreases depth, 1, 2
    {
      if b.Some? {
        DoAllOne(g, Define(b.value), deepInspect, Now(), depth);
      }
      ok := DefineType(b, depth);
    }

    /** A typedef declares its base and itself, so that its name is there for the definition of the
        base. */
    method DefineTypedef(t: Type, b: Option<Type>, ghost depth: nat) returns (ok: bool)
      requires Valid() && g.Has(t) && g.HasSome(b) && b.Some?
      requires DoAll(g, [Declare(b.value), Declare(t), Define(b.value)], deepInspect, Now(), depth).Some?
      modifies this
      ensures Valid()
      ensures Now() == DoAll(g, [Declare(b.value), Declare(t), Define(b.value)], deepInspect, old(Now()), depth).value
      ensures ok == Settled(g, Now(), Define(b.value))
      decreases depth, 1, 2
    {
      DoAllThree(g, Declare(b.value), Declare(t), Define(b.value), deepInspect, Now(), depth);
      DeclareType(b, depth);
      DeclareType(Some(t), depth);
      ok := DefineType(b, depth);
    }

    method DefineFunction(r: Option<Type>, ps: seq<Type>, ghost depth: nat)
      requires Valid() && g.HasSome(r) && forall p <- ps :: g.Has(p)
      requires DoAll(g, DefineSome(r) + DefineAll(ps), deepInspect, Now(), depth).Some?
      modifies this
      ensures Valid()
      ensures Now() == DoAll(g, DefineSome(r) + DefineAll(ps), deepInspect, old(Now()), depth).value
      decreases depth, 1, 2
    {
      var _ := DefineType(r, depth);
      assert r.Some? ==> (DefineSome(r) + DefineAll(ps))[1..] == DefineAll(ps);
      assert r.None? ==> DefineSome(r) + DefineAll(ps) == DefineAll(ps);
      DefineEach(ps, depth);
    }

    method DefineEach(ts: seq<Type>, ghost depth: nat)
      requires Valid() && forall t <- ts :: g.Has(t)
      requires DoAll(g, DefineAll(ts), deepInspect, Now(), depth).Some?
      modifies this
      ensures Valid() && Now() == DoAll(g, DefineAll(ts), deepInspect, old(Now()), depth).value
      decreases depth, 1, 1
    {
      for i := 0 to |ts|
        invariant Valid()
        invariant DoAll(g, DefineAll(ts[i..]), deepInspect, Now(), depth)
               == DoAll(g, DefineAll(ts), deepInspect, old(Now()), depth)
      {
        assert ts[i..][1..] == ts[i + 1..];
        assert DefineAll(ts[i..]) == [Define(ts[i])] + DefineAll(ts[i + 1..]);
        var _ := DefineType(Some(ts[i]), depth);
      }
    }

    /** A pointer declares what it points to, and queues it when pointers are followed. */
    method DefinePointer(t: Type, b: Option<Type>, ghost depth: nat)
      requires Valid() && g.Has(t) && g.kinds[t] == Pointer(b) && g.HasSome(b)
      requires DoAll(g, Needs(g, Define(t)), deepInspect, Now(), depth).Some?
      modifies this
      ensures
        var st := DoAll(g, Needs(g, Define(t)), deepInspect, old(Now()), depth).value;
        Now() == if deepInspect then st.(todo := st.todo + Queued(g, t)) else st
      ensures Valid()
      decreases depth, 1, 1
    {
      assert g.ValidKind(t);
      if g.IsVoid(b) {
        return;
      }
      assert Needs(g, Define(t)) == [Declare(b.value)];
      DoAllOne(g, Declare(b.value), deepInspect, Now(), depth);
      DeclareType(b, depth);
      if deepInspect && !OnlyADeclaration(g, b.value) {
        defineTypes := defineTypes + {b.value};
      }
    }

    // ----- A whole run -----

    ghost predicate Running(batch: set<Type>)
      reads this
    {
      Valid() && InRun(g, deepInspect, wanted, Now(), batch)
    }

    /** Defines one type of a batch. */
    method DefineWanted(t: Type, ghost batch: set<Type>, ghost rank: map<Call, nat>)
      requires Running(batch) && Rankable(g, deepInspect, rank, Now(), batch) && t in batch
      modifies this
      ensures Running(batch - {t}) && Rankable(g, deepInspect, rank, Now(), batch - {t})
      ensures old(done) <= done && Handled(g, done, t) && old(defined) <= defined
      ensures defineTypes == old(defineTypes) || (old(defineTypes) <= defineTypes && old(defined) < defined)
    {
      ghost var depth := RunSteps(g, deepInspect, wanted, rank, Now(), batch, t);
      var _ := DefineType(Some(t), depth);
    }

    /** One batch of the worklist, in any order. */
    method DefineBatch(batch: set<Type>, ghost rank: map<Call, nat>)
      requires Running(batch) && Rankable(g, deepInspect, rank, Now(), batch) && defineTypes == {}
      modifies this
      ensures Running({}) && Rankable(g, deepInspect, rank, Now(), {})
      ensures old(done) <= done && forall t <- batch :: Handled(g, done, t)
      ensures old(defined) <= defined && (defineTypes == {} || old(defined) < defined)
    {
      var types := batch;
      while types != {}
        invariant types <= batch && Running(types) && Rankable(g, deepInspect, rank, Now(), types)
        invariant old(done) <= done && forall t <- batch - types :: Handled(g, done, t)
        invariant old(defined) <= defined && (defineTypes == {} || old(defined) < defined)
        decreases types
      {
        var t :| t in types;
        ghost var was := done;
        DefineWanted(t, types, rank);
        forall u | u in batch - types ensures Handled(g, done, u) {
          HandledStays(g, was, done, u);
        }
        types := types - {t};
      }
    }

    /** One round of the worklist loop. */
    method DefineQueued(ghost rank: map<Call, nat>)
      requires Running({}) && Rankable(g, deepInspect, rank, Now(), {})
      modifies this
      ensures Running({}) && Rankable(g, deepInspect, rank, Now(), {})
      ensures old(done) <= done && forall t <- old(defineTypes) :: Handled(g, done, t)
      ensures |Undefined(g, defined)| <= |Undefined(g, old(defined))|
      ensures defineTypes == {} || |Undefined(g, defined)| < |Undefined(g, old(defined))|
    {
      var types := defineTypes;
      RunTakes(g, deepInspect, wanted, rank, Now());
      defineTypes := {};
      DefineBatch(types, rank);
      UndefinedShrinks(g, old(defined), defined);
    }

    /** The worklist loop.  If the calls that it leads to can be ranked it ends, with nothing queued,
        and exactly the calls that are reached from the wanted types have finished. */
    method Write(ghost rank: map<Call, nat>)
      requires Running({}) && Rankable(g, deepInspect, rank, Now(), {})
      modifies this
      ensures Running({}) && Rankable(g, deepInspect, rank, Now(), {}) && defineTypes == {}
      ensures old(done) <= done && forall t <- old(defineTypes) :: Handled(g, done, t)
      ensures forall c: Call :: c in done <==> Reached(g, deepInspect, wanted, c)
    {
      while defineTypes != {}
        invariant Running({}) && Rankable(g, deepInspect, rank, Now(), {}) && old(done) <= done
        invariant forall t <- old(defineTypes) :: t in defineTypes || Handled(g, done, t)
        decreases |Undefined(g, defined)|, if defineTypes == {} then 0 else 1
      {
        ghost var was := done;
        DefineQueued(rank);
        forall t | t in old(defineTypes) && Handled(g, was, t) ensures Handled(g, done, t) {
          HandledStays(g, was, done, t);
        }
      }
      forall c: Call ensures c in done <==> Reached(g, deepInspect, wanted, c) {
        ReachedIffDone(g, deepInspect, wanted, Now(), c);
      }
    }
  }
}
