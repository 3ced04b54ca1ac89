/**
 What has been written by the time something is used: every field list comes after the field
 lists of the records it holds by value and after the names its text mentions.
 */
module EmissionNames {
  import opened Options
  import opened TypeGraph
  import opened TypeText
  import opened EmissionOrder

  // ----- Records held by value -----

  /** From a type to the type that it holds or stands for by value. */
  predicate HoldsByValue(g: Graph, t: Type, u: Type)
    requires g.Has(t)
  {
    match g.kinds[t]
    case Typedef(b) => b == Some(u)
    case Modifier(_, b) => b == Some(u)
    case Array(b) => b == u
    case _ => false
  }

  predicate ValueChain(g: Graph, chain: seq<Type>) {
    && chain != [] && (forall i :: 0 <= i < |chain| ==> g.Has(chain[i]))
    && forall i :: 0 <= i < |chain| - 1 ==> HoldsByValue(g, chain[i], chain[i + 1])
  }

  /** The calls that finished before the k-th. */
  ghost predicate Before(g: Graph, done: seq<Call>, k: nat, c: Call)
    requires g.Valid() && k <= |done|
  {
    g.Has(c.t) && (Skips(g, c) || c in done[..k])
  }

  /** A call that has finished has had its needs done. */
  lemma NeedsBefore(g: Graph, st: State, k: nat, c: Call, n: Call)
    requires g.Valid() && Ordered(g, st) && k <= |st.done| && c in st.done[..k] && g.Has(c.t) && n in Needs(g, c)
    ensures Before(g, st.done, k, n)
  {
    var j :| 0 <= j < k && st.done[..k][j] == c;
    assert st.done[j] == c && FinishedInOrder(g, st.done, j);
    if n in st.done[..j] {
      var i :| 0 <= i < j && st.done[..j][i] == n;
      assert st.done[..k][i] == n;
    }
  }

  /** Down a chain of typedefs, qualifiers and arrays, all is defined once the top is. */
  lemma {:induction false} ValueChainDefined(g: Graph, st: State, k: nat, chain: seq<Type>)
    requires g.Valid() && Ordered(g, st) && k <= |st.done| && ValueChain(g, chain)
    requires Define(chain[0]) in st.done[..k] && !g.void[chain[|chain| - 1]]
    ensures Define(chain[|chain| - 1]) in st.done[..k]
    decreases |chain|
  {
    if |chain| > 1 {
      assert HoldsByValue(g, chain[0], chain[1]);
      assert g.ValidKind(chain[0]);
      VoidEnds(g, chain[1..]);
      NeedsBefore(g, st, k, Define(chain[0]), Define(chain[1]));
      assert chain[1..][|chain| - 2] == chain[|chain| - 1];
      forall i | 0 <= i < |chain[1..]| - 1
        ensures HoldsByValue(g, chain[1..][i], chain[1..][i + 1])
      {
        assert HoldsByValue(g, chain[i + 1], chain[i + 2]);
      }
      ValueChainDefined(g, st, k, chain[1..]);
    }
  }

  /** What stands for a type that is not void is not void. */
  lemma {:induction false} VoidEnds(g: Graph, chain: seq<Type>)
    requires g.Valid() && ValueChain(g, chain) && !g.void[chain[|chain| - 1]]
    ensures !g.void[chain[0]]
    decreases |chain|
  {
    if |chain| > 1 {
      assert HoldsByValue(g, chain[0], chain[1]) && g.ValidKind(chain[0]);
      forall i | 0 <= i < |chain[1..]| - 1
        ensures HoldsByValue(g, chain[1..][i], chain[1..][i + 1])
      {
        assert HoldsByValue(g, chain[i + 1], chain[i + 2]);
      }
      VoidEnds(g, chain[1..]);
    }
  }

  // ----- Names in the text of a type -----

  /** The statement that makes a type's name known, and the call that writes it. */
  function NamedBy(g: Graph, t: Type): Option<Statement>
    requires g.Has(t)
  {
    match g.kinds[t]
    case Record(_, _) => Some(ClassStatement(t))
    case Typedef(_) => Some(AliasStatement(t))
    case Enumeration(_, _) => Some(EnumStatement(t))
    case _ => None
  }

  function NamingCall(g: Graph, t: Type): Call
    requires g.Has(t)
  {
    if g.kinds[t].Enumeration? then Define(t) else Declare(t)
  }

  /** A name is written exactly when its call has finished. */
  lemma NamedIff(g: Graph, done: seq<Call>, t: Type)
    requires (forall c <- done :: g.Has(c.t)) && g.Has(t) && NamedBy(g, t).Some?
    ensures NamedBy(g, t).value in Output(g, done) <==> NamingCall(g, t) in done
  {
    var s, c := NamedBy(g, t).value, NamingCall(g, t);
    assert Written(g, c) == [s];
    if c in done {
      OutputHas(g, done, c, s);
    }
    if s in Output(g, done) {
      WrittenBy(g, done, s, c);
    }
  }

  lemma WrittenBy(g: Graph, done: seq<Call>, s: Statement, c: Call)
    requires (forall x <- done :: g.Has(x.t)) && s in Output(g, done) && g.Has(c.t) && Written(g, c) == [s]
    ensures c in done
  {
    var o := Output(g, done);
    var i :| 0 <= i < |o| && o[i] == s;
    var k := OutputWhere(g, done, i);
    SameWrites(g, done[k], c);
  }

  /** Over every run: a name is written if and only if the calls asked for lead to the one that
      writes it. */
  lemma NamedInRun(g: Graph, cs: seq<Call>, deep: bool, depth: nat, t: Type)
    requires g.Valid() && (forall c <- cs :: g.Has(c.t)) && DoAll(g, cs, deep, START, depth).Some?
    requires g.Has(t) && NamedBy(g, t).Some?
    ensures
      var done := DoAll(g, cs, deep, START, depth).value.done;
      && (forall c <- done :: g.Has(c.t))
      && (NamedBy(g, t).value in Output(g, done) <==> exists c <- cs :: LeadsTo(g, c, NamingCall(g, t)))
  {
    var st := DoAll(g, cs, deep, START, depth).value;
    DoAllKeepsOrder(g, cs, deep, START, depth);
    DoneIsValid(g, st, |st.done|);
    NamedIff(g, st.done, t);
    FinishedIff(g, cs, deep, depth, NamingCall(g, t));
  }

  /** A typedef whose alias cannot be put together is never named in a run that returns. */
  lemma RaisingNeverNamed(g: Graph, cs: seq<Call>, deep: bool, depth: nat, t: Type)
    requires g.Valid() && (forall c <- cs :: g.Has(c.t)) && DoAll(g, cs, deep, START, depth).Some?
    requires g.Has(t) && g.kinds[t].Typedef? && Raises(g, Declare(t))
    ensures
      var done := DoAll(g, cs, deep, START, depth).value.done;
      (forall c <- done :: g.Has(c.t)) && AliasStatement(t) !in Output(g, done)
  {
    var st := DoAll(g, cs, deep, START, depth).value;
    DoAllKeepsOrder(g, cs, deep, START, depth);
    DoneIsValid(g, st, |st.done|);
    NamedIff(g, st.done, t);
    forall k | 0 <= k < |st.done|
      ensures st.done[k] != Declare(t)
    {
      assert FinishedInOrder(g, st.done, k);
    }
  }

  /** Is the end of the chain declared, or defined, once its start is?  The last link that is not a
      qualifier decides: behind a pointer types are declared, in an array or a function they are
      defined. */
  predicate EndsDeclared(g: Graph, chain: seq<Type>, start: bool)
    requires g.Valid() && MentionChain(g, chain)
    decreases |chain|
  {
    if |chain| == 1 then start
    else
      ChainInit(g, chain);
      match g.kinds[chain[|chain| - 2]]
      case Modifier(_, _) => EndsDeclared(g, chain[..|chain| - 1], start)
      case Pointer(_) => true
      case _ => false
  }

  lemma ChainInit(g: Graph, chain: seq<Type>)
    requires g.Valid() && MentionChain(g, chain) && |chain| > 1
    ensures MentionChain(g, chain[..|chain| - 1]) && Mentions(g, chain[|chain| - 2], chain[|chain| - 1])
  {
    var before := chain[..|chain| - 1];
    forall i | 0 <= i < |before| - 1
      ensures Mentions(g, before[i], before[i + 1])
    {
      assert Mentions(g, chain[i], chain[i + 1]);
    }
    assert Mentions(g, chain[|chain| - 2], chain[|chain| - 1]);
  }

  /** t has been declared or defined before the k-th finished call; defining void does nothing. */
  ghost predicate Arrived(g: Graph, done: seq<Call>, k: nat, t: Type, declared: bool)
    requires g.Valid() && k <= |done| && g.Has(t)
  {
    if declared then Declare(t) in done[..k] else g.void[t] || Define(t) in done[..k]
  }

  lemma {:induction false} ChainArrives(g: Graph, st: State, k: nat, chain: seq<Type>, start: bool)
    requires g.Valid() && Ordered(g, st) && k <= |st.done| && MentionChain(g, chain)
    requires Arrived(g, st.done, k, chain[0], start)
    ensures Arrived(g, st.done, k, chain[|chain| - 1], EndsDeclared(g, chain, start))
    decreases |chain|
  {
    if |chain| > 1 {
      var before := chain[..|chain| - 1];
      ChainInit(g, chain);
      ChainArrives(g, st, k, before, start);
      LinkArrives(g, st, k, chain[|chain| - 2], chain[|chain| - 1], EndsDeclared(g, before, start));
    }
  }

  /** One link of a chain. */
  lemma LinkArrives(g: Graph, st: State, k: nat, t: Type, u: Type, declared: bool)
    requires g.Valid() && Ordered(g, st) && k <= |st.done| && g.Has(t) && g.Has(u) && Mentions(g, t, u)
    requires Arrived(g, st.done, k, t, declared)
    ensures
      match g.kinds[t]
      case Modifier(_, _) => Arrived(g, st.done, k, u, declared)
      case Pointer(_) => Arrived(g, st.done, k, u, true)
      case _ => Arrived(g, st.done, k, u, false)
  {
    assert g.ValidKind(t);
    if declared && (g.kinds[t].Modifier? || g.kinds[t].Pointer?) {
      NeedsBefore(g, st, k, Declare(t), Declare(u));
    } else {
      if declared {
        NeedsBefore(g, st, k, Declare(t), Define(t));
      }
      if !g.void[t] {
        PartIsNeeded(g, t, u);
        NeedsBefore(g, st, k, Define(t), if g.kinds[t].Pointer? then Declare(u) else Define(u));
      }
    }
  }

  lemma PartIsNeeded(g: Graph, t: Type, u: Type)
    requires g.Valid() && g.Has(t) && Mentions(g, t, u)
    ensures (if g.kinds[t].Pointer? then Declare(u) else Define(u)) in Needs(g, Define(t))
  {
    assert g.ValidKind(t);
    match g.kinds[t]
    case Function(r, ps) =>
      if u in ps {
        var i :| 0 <= i < |ps| && ps[i] == u;
        assert DefineAll(ps)[i] == Define(u);
      }
    case _ =>
  }

  /** A record that is only declared: defining it writes nothing. */
  predicate OnlyDeclared(g: Graph, t: Type)
    requires g.Has(t)
  {
    g.kinds[t].Record? && g.kinds[t].declaration
  }

  /** Defining the type, if it comes to that, does not name it. */
  predicate NamedOnlyByDeclaring(g: Graph, t: Type)
    requires g.Has(t)
  {
    g.void[t] || OnlyDeclared(g, t)
  }

  /** What has arrived is named, but for void and records only declared that were only defined. */
  lemma ArrivedIsNamed(g: Graph, st: State, k: nat, t: Type, declared: bool)
    requires g.Valid() && Ordered(g, st) && k <= |st.done| && g.Has(t) && NamedBy(g, t).Some?
    requires Arrived(g, st.done, k, t, declared)
    ensures declared || !NamedOnlyByDeclaring(g, t) ==> NamingCall(g, t) in st.done[..k]
  {
    assert g.ValidKind(t);
    if declared && g.kinds[t].Enumeration? {
      NeedsBefore(g, st, k, Declare(t), Define(t));
    }
    if !declared && !NamedOnlyByDeclaring(g, t) && !g.kinds[t].Enumeration? {
      NeedsBefore(g, st, k, Define(t), Declare(t));
    }
  }

  /** A chain that starts with something declared or defined before the k-th call: the name at its
      end has been written by then if the chain declares it, or if defining it names it; otherwise
      exactly if it has been declared for another reason. */
  ghost predicate ChainNames(g: Graph, done: seq<Call>, k: nat, chain: seq<Type>, start: bool)
    requires g.Valid() && MentionChain(g, chain) && k <= |done| && forall c <- done[..k] :: g.Has(c.t)
  {
    var u := chain[|chain| - 1];
    NamedBy(g, u).Some? ==>
      && (EndsDeclared(g, chain, start) || !NamedOnlyByDeclaring(g, u) ==> NamedBy(g, u).value in Output(g, done[..k]))
      && (NamedOnlyByDeclaring(g, u) ==> (NamedBy(g, u).value in Output(g, done[..k]) <==> Declare(u) in done[..k]))
  }

  lemma ChainIsNamed(g: Graph, st: State, k: nat, chain: seq<Type>, start: bool)
    requires g.Valid() && Ordered(g, st) && k <= |st.done| && MentionChain(g, chain)
    requires (forall c <- st.done[..k] :: g.Has(c.t)) && Arrived(g, st.done, k, chain[0], start)
    ensures ChainNames(g, st.done, k, chain, start)
  {
    var u := chain[|chain| - 1];
    assert g.ValidKind(u);
    ChainArrives(g, st, k, chain, start);
    if NamedBy(g, u).Some? {
      ArrivedIsNamed(g, st, k, u, EndsDeclared(g, chain, start));
      NamedIff(g, st.done[..k], u);
    }
  }

  lemma DoneIsValid(g: Graph, st: State, k: nat)
    requires g.Valid() && Ordered(g, st) && k <= |st.done|
    ensures forall c <- st.done[..k] :: g.Has(c.t)
    ensures forall c <- st.done :: g.Has(c.t)
  {
    forall i | 0 <= i < |st.done|
      ensures g.Has(st.done[i].t)
    {
      assert FinishedInOrder(g, st.done, i);
    }
  }

  // ----- What is there when a field list or an alias is written -----

  /** The call behind a field list. */
  lemma FieldsCall(g: Graph, st: State, i: nat, t: Type) returns (k: nat)
    requires g.Valid() && Ordered(g, st) && (forall c <- st.done :: g.Has(c.t))
    requires i < |Output(g, st.done)| && Output(g, st.done)[i] == FieldsStatement(t)
    ensures k < |st.done| && st.done[k] == Define(t) && (forall c <- st.done[..k] :: g.Has(c.t))
    ensures Output(g, st.done)[..i] == Output(g, st.done[..k])
    ensures g.Has(t) && g.kinds[t].Record? && !g.kinds[t].declaration
  {
    k := OutputWhere(g, st.done, i);
    DoneIsValid(g, st, k);
  }

  /** A field list is written after its class statement, and after the field list of every complete
      record that a member holds by value. */
  lemma FieldsAfterValues(g: Graph, st: State, i: nat, t: Type)
    requires g.Valid() && Ordered(g, st) && (forall c <- st.done :: g.Has(c.t))
    requires i < |Output(g, st.done)| && Output(g, st.done)[i] == FieldsStatement(t)
    ensures g.Has(t) && g.kinds[t].Record?
    ensures ClassStatement(t) in Output(g, st.done)[..i]
    ensures forall chain | ValueChain(g, chain) && chain[0] in FieldTypes(g.kinds[t].fields) ::
      var r := chain[|chain| - 1];
      g.kinds[r].Record? && !g.kinds[r].declaration ==> FieldsStatement(r) in Output(g, st.done)[..i]
  {
    var k := FieldsCall(g, st, i, t);
    assert FinishedInOrder(g, st.done, k);
    assert Needs(g, Define(t))[0] == Declare(t);
    OutputHas(g, st.done[..k], Declare(t), ClassStatement(t));
    forall chain | ValueChain(g, chain) && chain[0] in FieldTypes(g.kinds[t].fields)
      ensures
        var r := chain[|chain| - 1];
        g.kinds[r].Record? && !g.kinds[r].declaration ==> FieldsStatement(r) in Output(g, st.done[..k])
    {
      MemberValueChain(g, st, k, t, chain);
    }
  }

  /** A field list is written after everything that gives a name used in the text of a member's
      type.  Only the name of a typedef of void or of a record that is only declared can be missing,
      at the end of a chain whose last link but for qualifiers is a function or an array, and it is
      missing exactly when it has not been declared for another reason. */
  lemma FieldsAfterNames(g: Graph, st: State, i: nat, t: Type) returns (k: nat)
    requires g.Valid() && Ordered(g, st) && (forall c <- st.done :: g.Has(c.t))
    requires i < |Output(g, st.done)| && Output(g, st.done)[i] == FieldsStatement(t)
    ensures k < |st.done| && st.done[k] == Define(t) && (forall c <- st.done[..k] :: g.Has(c.t))
    ensures Output(g, st.done)[..i] == Output(g, st.done[..k])
    ensures g.Has(t) && g.kinds[t].Record?
    ensures forall chain | MentionChain(g, chain) && chain[0] in FieldTypes(g.kinds[t].fields) ::
      ChainNames(g, st.done, k, chain, false)
  {
    k := FieldsCall(g, st, i, t);
    forall chain | MentionChain(g, chain) && chain[0] in FieldTypes(g.kinds[t].fields)
      ensures ChainNames(g, st.done, k, chain, false)
    {
      MemberDefined(g, st, k, t, chain[0]);
      ChainIsNamed(g, st, k, chain, false);
    }
  }

  lemma MemberDefined(g: Graph, st: State, k: nat, t: Type, m: Type)
    requires g.Valid() && Ordered(g, st) && k < |st.done| && st.done[k] == Define(t) && g.Has(t)
    requires g.kinds[t].Record? && !g.kinds[t].declaration && m in FieldTypes(g.kinds[t].fields)
    ensures g.Has(m) && (g.void[m] || Define(m) in st.done[..k])
  {
    assert FinishedInOrder(g, st.done, k) && g.ValidKind(t);
    var ms := FieldTypes(g.kinds[t].fields);
    var i :| 0 <= i < |ms| && ms[i] == m;
    assert Needs(g, Define(t))[i + 1] == DefineAll(ms)[i] == Define(m);
  }

  lemma MemberValueChain(g: Graph, st: State, k: nat, t: Type, chain: seq<Type>)
    requires g.Valid() && Ordered(g, st) && k < |st.done| && st.done[k] == Define(t) && g.Has(t)
    requires (forall c <- st.done[..k] :: g.Has(c.t))
    requires g.kinds[t].Record? && !g.kinds[t].declaration
    requires ValueChain(g, chain) && chain[0] in FieldTypes(g.kinds[t].fields)
    ensures
      var r := chain[|chain| - 1];
      g.kinds[r].Record? && !g.kinds[r].declaration ==> FieldsStatement(r) in Output(g, st.done[..k])
  {
    var r := chain[|chain| - 1];
    if g.kinds[r].Record? && !g.kinds[r].declaration {
      assert g.ValidKind(r);
      VoidEnds(g, chain);
      MemberDefined(g, st, k, t, chain[0]);
      ValueChainDefined(g, st, k, chain);
      OutputHas(g, st.done[..k], Define(r), FieldsStatement(r));
    }
  }

  /** An alias is written after every name used in the text of the type it stands for, with the same
      exceptions.  What it stands for has been declared, so they take a function or an array. */
  lemma AliasComesAfter(g: Graph, st: State, i: nat, t: Type) returns (k: nat)
    requires g.Valid() && Ordered(g, st) && (forall c <- st.done :: g.Has(c.t))
    requires i < |Output(g, st.done)| && Output(g, st.done)[i] == AliasStatement(t)
    ensures k < |st.done| && st.done[k] == Declare(t) && (forall c <- st.done[..k] :: g.Has(c.t))
    ensures Output(g, st.done)[..i] == Output(g, st.done[..k])
    ensures g.Has(t) && g.kinds[t].Typedef? && g.kinds[t].base.Some?
    ensures forall chain | MentionChain(g, chain) && chain[0] == g.kinds[t].base.value ::
      ChainNames(g, st.done, k, chain, true)
  {
    k := OutputWhere(g, st.done, i);
    assert st.done[k] == Declare(t) && FinishedInOrder(g, st.done, k);
    DoneIsValid(g, st, k);
    assert Declare(g.kinds[t].base.value) in Needs(g, Declare(t));
    forall chain | MentionChain(g, chain) && chain[0] == g.kinds[t].base.value
      ensures ChainNames(g, st.done, k, chain, true)
    {
      ChainIsNamed(g, st, k, chain, true);
    }
  }

  // ----- The whole property -----

  /** A field of this type is written with the type's text.  An empty base is not written, and for a
      type without a definition an array of characters is, which mentions no name. */
  ghost predicate WritesField(g: Graph, fs: seq<Field>, t: Type)
    requires g.Valid()
  {
    g.Has(t) && Completes(g, t) && exists i :: 0 <= i < |fs| && fs[i].t == t && !fs[i].emptyBase
  }

  /** What the k-th finished call writes mentions the end of the chain: it is a field list and the
      chain starts with the type of a field, or an enumeration and the chain is the type under it, or
      an alias and the chain starts with the type it stands for. */
  ghost predicate MentionedAt(g: Graph, done: seq<Call>, k: nat, chain: seq<Type>, declared: bool)
    requires g.Valid()
  {
    && k < |done| && g.Has(done[k].t) && MentionChain(g, chain)
    && match g.kinds[done[k].t]
       case Record(fs, declaration) => done[k].Define? && !declaration && WritesField(g, fs, chain[0]) && !declared
       case Enumeration(b, _) => done[k].Define? && b.Some? && chain == [b.value] && !declared
       case Typedef(b) => done[k].Declare? && b == Some(chain[0]) && declared
       case _ => false
  }

  /** The name at the end of a chain, if it has one, is written before the k-th call finishes. */
  ghost predicate WrittenBefore(g: Graph, done: seq<Call>, k: nat, u: Type)
    requires k <= |done| && g.Has(u)
  {
    (forall c <- done[..k] :: g.Has(c.t)) && (NamedBy(g, u).Some? ==> NamedBy(g, u).value in Output(g, done[..k]))
  }

  /** A mention that needs luck: of void or of a record only declared, that is not declared on the
      way. */
  ghost predicate AtRisk(g: Graph, chain: seq<Type>, declared: bool)
    requires g.Valid() && MentionChain(g, chain)
  {
    var u := chain[|chain| - 1];
    NamedBy(g, u).Some? && NamedOnlyByDeclaring(g, u) && !EndsDeclared(g, chain, declared)
  }

  lemma MentionArrives(g: Graph, st: State, k: nat, chain: seq<Type>, declared: bool)
    requires g.Valid() && Ordered(g, st) && MentionedAt(g, st.done, k, chain, declared)
    ensures Arrived(g, st.done, k, chain[0], declared)
  {
    var c := st.done[k];
    assert FinishedInOrder(g, st.done, k) && g.ValidKind(c.t);
    if g.kinds[c.t].Record? {
      var fs := g.kinds[c.t].fields;
      var i :| 0 <= i < |fs| && fs[i].t == chain[0];
      assert FieldTypes(fs)[i] == chain[0];
      MemberDefined(g, st, k, c.t, chain[0]);
    } else if g.kinds[c.t].Enumeration? {
      assert Define(chain[0]) in Needs(g, c);
    } else {
      assert Declare(chain[0]) in Needs(g, c);
    }
  }

  lemma MentionNamed(g: Graph, st: State, k: nat, chain: seq<Type>, declared: bool)
    requires g.Valid() && Ordered(g, st) && MentionedAt(g, st.done, k, chain, declared)
    ensures WrittenBefore(g, st.done, k, chain[|chain| - 1])
      <==> (AtRisk(g, chain, declared) ==> Declare(chain[|chain| - 1]) in st.done[..k])
  {
    DoneIsValid(g, st, k);
    MentionArrives(g, st, k, chain, declared);
    ChainIsNamed(g, st, k, chain, declared);
  }

  /** Every name is written before it is mentioned, in every field list, enumeration and alias of a
      run, if and only if the types that are mentioned at risk have been declared by then. */
  lemma NamesComeFirstIff(g: Graph, st: State)
    requires g.Valid() && Ordered(g, st)
    ensures
      (forall k: nat, chain, declared :: MentionedAt(g, st.done, k, chain, declared) ==>
        WrittenBefore(g, st.done, k, chain[|chain| - 1]))
      <==>
      (forall k: nat, chain, declared :: MentionedAt(g, st.done, k, chain, declared) && AtRisk(g, chain, declared) ==>
        Declare(chain[|chain| - 1]) in st.done[..k])
  {
    forall k: nat, chain, declared | MentionedAt(g, st.done, k, chain, declared)
      ensures WrittenBefore(g, st.done, k, chain[|chain| - 1])
        <==> (AtRisk(g, chain, declared) ==> Declare(chain[|chain| - 1]) in st.done[..k])
    {
      MentionNamed(g, st, k, chain, declared);
    }
  }

  // ----- What is at risk, before the run -----

  predicate HasLink(g: Graph, chain: seq<Type>)
    requires g.Valid() && MentionChain(g, chain)
  {
    exists j :: 0 <= j < |chain| - 1 && (g.kinds[chain[j]].Function? || g.kinds[chain[j]].Array?)
  }

  predicate OnlyQualifiers(g: Graph, chain: seq<Type>)
    requires g.Valid() && MentionChain(g, chain)
  {
    forall j :: 0 <= j < |chain| - 1 ==> g.kinds[chain[j]].Modifier?
  }

  lemma {:induction false} NotDeclaredLink(g: Graph, chain: seq<Type>, start: bool)
    requires g.Valid() && MentionChain(g, chain) && !EndsDeclared(g, chain, start)
    ensures HasLink(g, chain) || (!start && OnlyQualifiers(g, chain))
    decreases |chain|
  {
    if |chain| > 1 {
      var before, t := chain[..|chain| - 1], chain[|chain| - 2];
      ChainInit(g, chain);
      assert g.ValidKind(t);
      if g.kinds[t].Modifier? {
        NotDeclaredLink(g, before, start);
        if HasLink(g, before) {
          var j :| 0 <= j < |before| - 1 && (g.kinds[before[j]].Function? || g.kinds[before[j]].Array?);
          assert chain[j] == before[j];
        } else {
          forall j | 0 <= j < |chain| - 1 ensures g.kinds[chain[j]].Modifier? {
            assert j < |before| - 1 ==> chain[j] == before[j];
          }
        }
      }
    }
  }

  lemma {:induction false} QualifiersComplete(g: Graph, chain: seq<Type>)
    requires g.Valid() && MentionChain(g, chain) && OnlyQualifiers(g, chain) && Completes(g, chain[0])
    ensures Completes(g, chain[|chain| - 1])
    decreases |chain|
  {
    if |chain| > 1 {
      ChainRest(g, chain);
      assert g.ValidKind(chain[0]) && g.kinds[chain[0]].Modifier?;
      var depth: nat :| CompletesIn(g, chain[0], depth);
      assert CompletesIn(g, chain[1], depth - 1);
      assert OnlyQualifiers(g, chain[1..]) by {
        forall j | 0 <= j < |chain[1..]| - 1 ensures g.kinds[chain[1..][j]].Modifier? {
          assert chain[1..][j] == chain[j + 1];
        }
      }
      QualifiersComplete(g, chain[1..]);
    }
  }

  /** In a field list or an alias only what is mentioned through a function or an array is at risk. */
  lemma RiskNeedsLink(g: Graph, done: seq<Call>, k: nat, chain: seq<Type>, declared: bool)
    requires g.Valid() && MentionedAt(g, done, k, chain, declared) && AtRisk(g, chain, declared)
    requires !g.kinds[done[k].t].Enumeration?
    ensures HasLink(g, chain)
  {
    NotDeclaredLink(g, chain, declared);
    if !declared {
      QualifiersNotRisky(g, chain);
    }
  }

  lemma QualifiersNotRisky(g: Graph, chain: seq<Type>)
    requires g.Valid() && MentionChain(g, chain) && Completes(g, chain[0])
    ensures OnlyQualifiers(g, chain) ==> !NamedOnlyByDeclaring(g, chain[|chain| - 1])
  {
    if OnlyQualifiers(g, chain) {
      QualifiersComplete(g, chain);
      CompleteIsNamed(g, chain[|chain| - 1]);
    }
  }

  lemma CompleteIsNamed(g: Graph, u: Type)
    requires g.Valid() && g.Has(u) && Completes(g, u)
    ensures !NamedOnlyByDeclaring(g, u)
  {
    var depth: nat :| CompletesIn(g, u, depth);
    assert g.ValidKind(u);
  }

  /** What is at risk is named in time if the call that mentions it leads to its declaration, and never
      if no call asked for does. */
  lemma RiskBeforehand(g: Graph, cs: seq<Call>, deep: bool, depth: nat, st: State, k: nat, u: Type)
    requires g.Valid() && (forall c <- cs :: g.Has(c.t)) && DoAll(g, cs, deep, START, depth) == Some(st)
    requires g.Has(u) && k < |st.done|
    ensures st.done[k] != Declare(u) && LeadsTo(g, st.done[k], Declare(u)) ==> Declare(u) in st.done[..k]
    ensures (forall c <- cs :: !LeadsTo(g, c, Declare(u))) ==> Declare(u) !in st.done
  {
    DoAllKeepsOrder(g, cs, deep, START, depth);
    FinishedIff(g, cs, deep, depth, Declare(u));
    if st.done[k] != Declare(u) && LeadsTo(g, st.done[k], Declare(u)) {
      LedToBefore(g, st, k, Declare(u));
    }
  }
}
