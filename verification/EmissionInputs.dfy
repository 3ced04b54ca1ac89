/**
 Types on which writing out does not end well: a concrete graph for each way.
 */
module EmissionInputs {
  import opened Options
  import opened TypeGraph
  import opened TypeText
  import opened EmissionOrder
  import opened EmissionNames

  // ----- A record that takes itself by value -----

  /** `struct S { void (*f)(struct S); };` */
  predicate SelfByValue(g: Graph) {
    g.kinds == [Record([Field(1, false, true)], false), Pointer(Some(2)), Function(None, [0])] && g.void == [false, false, false]
  }

  /** It is never finished: defining it leads back to defining it. */
  lemma ByValueRecursion(g: Graph, deep: bool)
    requires SelfByValue(g)
    ensures g.Valid() && g.Has(0) && forall depth: nat :: DoAll(g, [Define(0)], deep, START, depth).None?
  {
    SelfByValueNeeds(g);
    ReturnsIffRanked(g, [Define(0)], deep);
    assert Define(0) in [Define(0)];
    forall rank
      ensures !(Ranks(g, rank) && Define(0) in rank)
    {
      SelfByValueUnranked(g, rank);
    }
  }

  lemma SelfByValueNeeds(g: Graph)
    requires SelfByValue(g)
    ensures g.Valid() && g.Has(0) && g.Has(1) && g.Has(2)
    ensures Define(1) in Needs(g, Define(0)) && Declare(2) in Needs(g, Define(1))
    ensures Define(2) in Needs(g, Declare(2)) && Define(0) in Needs(g, Define(2))
  {
    assert g.ValidKind(0) && g.ValidKind(1) && g.ValidKind(2);
    assert Needs(g, Define(0))[1] == Define(1) && Needs(g, Define(2))[0] == Define(0);
  }

  lemma SelfByValueUnranked(g: Graph, rank: map<Call, nat>)
    requires SelfByValue(g) && g.Valid()
    ensures !(Ranks(g, rank) && Define(0) in rank)
  {
    SelfByValueNeeds(g);
    NeedRanked(g, rank, Define(0), Define(1));
    NeedRanked(g, rank, Define(1), Declare(2));
    NeedRanked(g, rank, Declare(2), Define(2));
    NeedRanked(g, rank, Define(2), Define(0));
  }

  // ----- Names mentioned and never written -----

  /** `struct T; struct S { void (*f)(struct T); };` */
  predicate TakesDeclared(g: Graph) {
    && g.kinds == [Record([Field(1, false, true)], false), Pointer(Some(2)), Function(None, [3]), Record([], true)]
    && g.void == [false, false, false, false]
  }

  /** `typedef void V; struct S { V (*f)(void); };` */
  predicate GivesVoid(g: Graph) {
    && g.kinds == [Record([Field(1, false, true)], false), Pointer(Some(2)), Function(Some(3), []), Typedef(None)]
    && g.void == [false, false, false, true]
  }

  lemma SomeNeeds(g: Graph)
    requires TakesDeclared(g) || GivesVoid(g)
    ensures g.Valid() && g.Has(0) && g.Has(1) && g.Has(2) && g.Has(3)
    ensures Needs(g, Define(0)) == [Declare(0), Define(1)] && Needs(g, Declare(0)) == []
    ensures Needs(g, Define(1)) == [Declare(2)] && Needs(g, Declare(2)) == [Define(2)]
    ensures Needs(g, Define(2)) == [Define(3)] && (TakesDeclared(g) ==> Needs(g, Define(3)) == [])
    ensures Parts(g, 1) == [2] && Parts(g, 2) == [3] && Parts(g, 3) == []
  {
    assert g.ValidKind(0) && g.ValidKind(1) && g.ValidKind(2) && g.ValidKind(3);
  }

  /** The run returns and writes the field list, whose text mentions a name that is never written:
      that of a record only declared and taken by value, or of a typedef of void that is a result. */
  lemma MentionedNeverNamed(g: Graph, deep: bool)
    requires TakesDeclared(g) || GivesVoid(g)
    ensures g.Valid() && g.Has(0) && g.Has(3) && exists depth: nat :: DoAll(g, [Define(0)], deep, START, depth).Some?
    ensures MentionChain(g, [1, 2, 3]) && FieldTypes(g.kinds[0].fields) == [1] && NamedBy(g, 3).Some?
    ensures forall depth: nat | DoAll(g, [Define(0)], deep, START, depth).Some? ::
      var done := DoAll(g, [Define(0)], deep, START, depth).value.done;
      && (forall c <- done :: g.Has(c.t))
      && FieldsStatement(0) in Output(g, done) && NamedBy(g, 3).value !in Output(g, done)
  {
    SomeNeeds(g);
    SomeReturns(g, deep);
    assert MentionChain(g, [1, 2, 3]) by {
      assert Mentions(g, 1, 2) && Mentions(g, 2, 3);
    }
    forall depth: nat | DoAll(g, [Define(0)], deep, START, depth).Some?
      ensures
        var done := DoAll(g, [Define(0)], deep, START, depth).value.done;
        && (forall c <- done :: g.Has(c.t))
        && FieldsStatement(0) in Output(g, done) && NamedBy(g, 3).value !in Output(g, done)
    {
      SomeStays(g, deep, depth);
      NotNamed(g, DoAll(g, [Define(0)], deep, START, depth).value.done);
    }
  }

  lemma NotNamed(g: Graph, done: seq<Call>)
    requires (TakesDeclared(g) || GivesVoid(g)) && g.Has(0) && g.Has(3) && forall c <- done :: g.Has(c.t)
    requires Define(0) in done && Declare(3) !in done
    ensures NamedBy(g, 3).Some? && FieldsStatement(0) in Output(g, done) && NamedBy(g, 3).value !in Output(g, done)
  {
    NamedIff(g, done, 3);
    OutputHas(g, done, Define(0), FieldsStatement(0));
  }

  lemma SomeClosed(g: Graph) returns (calls: set<Call>)
    requires TakesDeclared(g) || GivesVoid(g)
    ensures g.Valid() && Closed(g, calls) && Define(0) in calls && Declare(3) !in calls
  {
    if TakesDeclared(g) {
      calls := TakesClosed(g);
    } else {
      calls := GivesClosed(g);
    }
  }

  lemma TakesClosed(g: Graph) returns (calls: set<Call>)
    requires TakesDeclared(g)
    ensures g.Valid() && Closed(g, calls) && Define(0) in calls && Declare(3) !in calls
  {
    SomeNeeds(g);
    calls := {Declare(0), Define(0), Define(1), Declare(2), Define(2), Define(3)};
    assert ClosedCall(g, calls, Define(0)) && ClosedCall(g, calls, Declare(0)) && ClosedCall(g, calls, Define(1));
    assert ClosedCall(g, calls, Declare(2)) && ClosedCall(g, calls, Define(2)) && ClosedCall(g, calls, Define(3));
  }

  lemma GivesClosed(g: Graph) returns (calls: set<Call>)
    requires GivesVoid(g)
    ensures g.Valid() && Closed(g, calls) && Define(0) in calls && Declare(3) !in calls
  {
    SomeNeeds(g);
    calls := {Declare(0), Define(0), Define(1), Declare(2), Define(2)};
    assert ClosedCall(g, calls, Define(0)) && ClosedCall(g, calls, Declare(0)) && ClosedCall(g, calls, Define(1));
    assert ClosedCall(g, calls, Declare(2)) && ClosedCall(g, calls, Define(2));
  }

  lemma SomeStays(g: Graph, deep: bool, depth: nat)
    requires TakesDeclared(g) || GivesVoid(g)
    requires g.Valid() && g.Has(0) && DoAll(g, [Define(0)], deep, START, depth).Some?
    ensures
      var done := DoAll(g, [Define(0)], deep, START, depth).value.done;
      (forall c <- done :: g.Has(c.t)) && Define(0) in done && Declare(3) !in done
  {
    var calls := SomeClosed(g);
    DoAllStaysIn(g, calls, [Define(0)], deep, START, depth);
    DoAllKeepsOrder(g, [Define(0)], deep, START, depth);
    assert Define(0) in [Define(0)];
    var st := DoAll(g, [Define(0)], deep, START, depth).value;
    DoneIsValid(g, st, |st.done|);
  }

  lemma SomeReturns(g: Graph, deep: bool)
    requires TakesDeclared(g) || GivesVoid(g)
    ensures g.Valid() && g.Has(0) && exists depth: nat :: DoAll(g, [Define(0)], deep, START, depth).Some?
  {
    SomeNeeds(g);
    var rank;
    if TakesDeclared(g) {
      rank := TakesRank(g);
    } else {
      rank := GivesRank(g);
    }
    ReturnsIffRanked(g, [Define(0)], deep);
  }

  lemma TakesRank(g: Graph) returns (rank: map<Call, nat>)
    requires TakesDeclared(g)
    ensures g.Valid() && Ranks(g, rank) && Define(0) in rank
  {
    SomeNeeds(g);
    SomeRenders(g);
    rank := map[Define(0) := 4, Define(1) := 3, Declare(2) := 2, Define(2) := 1, Declare(0) := 0, Define(3) := 0];
    TakesRanked(g, rank);
  }

  lemma TakesRanked(g: Graph, rank: map<Call, nat>)
    requires TakesDeclared(g)
    requires rank == map[Define(0) := 4, Define(1) := 3, Declare(2) := 2, Define(2) := 1, Declare(0) := 0, Define(3) := 0]
    ensures g.Valid() && Ranks(g, rank)
  {
    SomeNeeds(g);
    SomeRenders(g);
    forall c | c in rank
      ensures RankedCall(g, rank, c)
    {
    }
  }

  lemma GivesRank(g: Graph) returns (rank: map<Call, nat>)
    requires GivesVoid(g)
    ensures g.Valid() && Ranks(g, rank) && Define(0) in rank
  {
    SomeNeeds(g);
    SomeRenders(g);
    rank := map[Define(0) := 4, Define(1) := 3, Declare(2) := 2, Define(2) := 1, Declare(0) := 0];
    assert RankedCall(g, rank, Define(2));
    assert RankedCall(g, rank, Declare(2));
    assert RankedCall(g, rank, Define(1));
    assert RankedCall(g, rank, Declare(0));
    assert RankedCall(g, rank, Define(0));
  }

  lemma SomeRenders(g: Graph)
    requires TakesDeclared(g) || GivesVoid(g)
    ensures g.Valid() && g.Has(0) && g.Has(1) && Renders(g, 1) && Completes(g, 1) && Aligns(g, 1)
    ensures forall c: Call | g.Has(c.t) && c != Declare(3) :: !Raises(g, c)
  {
    SomeNeeds(g);
    assert CompletesIn(g, 1, 1) && AlignsIn(g, 1, 1);
    assert RendersIn(g, 3, 1);
    assert RendersIn(g, 2, 2);
    assert RendersIn(g, 1, 3);
  }

  // ----- A name that is not mentioned -----

  /** `struct T; struct S { struct T t; };` */
  predicate HoldsDeclared(g: Graph) {
    g.kinds == [Record([Field(1, false, true)], false), Record([], true)] && g.void == [false, false]
  }

  lemma HoldsReturns(g: Graph, deep: bool)
    requires HoldsDeclared(g)
    ensures g.Valid() && g.Has(0) && exists depth: nat :: DoAll(g, [Define(0)], deep, START, depth).Some?
  {
    HoldsNeeds(g);
    var rank := map[Define(0) := 1, Declare(0) := 0, Define(1) := 0];
    assert RankedCall(g, rank, Define(1)) && RankedCall(g, rank, Declare(0)) && RankedCall(g, rank, Define(0));
    assert Ranks(g, rank);
    ReturnsIffRanked(g, [Define(0)], deep);
  }

  /** The run returns without writing T's name, and nothing in it mentions one: t has a stand-in. */
  lemma StandInMentionsNothing(g: Graph, deep: bool, depth: nat, st: State, k: nat, chain: seq<Type>, declared: bool)
    requires HoldsDeclared(g) && g.Valid() && g.Has(0)
    requires DoAll(g, [Define(0)], deep, START, depth) == Some(st)
    ensures Define(0) in st.done && Declare(1) !in st.done && !MentionedAt(g, st.done, k, chain, declared)
  {
    HoldsNeeds(g);
    var calls := {Define(0), Declare(0), Define(1)};
    assert ClosedCall(g, calls, Define(0)) && ClosedCall(g, calls, Declare(0)) && ClosedCall(g, calls, Define(1));
    DoAllStaysIn(g, calls, [Define(0)], deep, START, depth);
    assert Define(0) in [Define(0)];
    DoAllKeepsOrder(g, [Define(0)], deep, START, depth);
    MentionsNothing(g, st.done, k, chain, declared);
  }

  lemma MentionsNothing(g: Graph, done: seq<Call>, k: nat, chain: seq<Type>, declared: bool)
    requires HoldsDeclared(g) && forall c <- done :: c == Define(0) || c == Declare(0) || c == Define(1)
    ensures g.Valid() && !MentionedAt(g, done, k, chain, declared)
  {
    HoldsNeeds(g);
    if k < |done| {
      assert done[k] in done;
    }
  }

  lemma HoldsNeeds(g: Graph)
    requires HoldsDeclared(g)
    ensures g.Valid() && g.Has(0) && g.Has(1) && !Completes(g, 1)
    ensures Needs(g, Define(0)) == [Declare(0), Define(1)] && Needs(g, Declare(0)) == [] && Needs(g, Define(1)) == []
    ensures forall c: Call | g.Has(c.t) :: !Raises(g, c)
  {
    assert g.ValidKind(0) && g.ValidKind(1);
    assert forall n: nat :: !CompletesIn(g, 1, n);
  }

  // ----- Exceptions -----

  /** `typedef volatile void VV; typedef VV *PVV;` */
  predicate VolatileVoid(g: Graph) {
    && g.kinds == [Typedef(Some(1)), Pointer(Some(2)), Typedef(Some(3)), Modifier(Volatile, None)]
    && g.void == [false, false, true, true]
  }

  /** `struct S { volatile void (*f)(void); };` */
  predicate GivesVolatileVoid(g: Graph) {
    && g.kinds == [Record([Field(1, false, true)], false), Pointer(Some(2)), Function(Some(3), []), Modifier(Volatile, None)]
    && g.void == [false, false, false, true]
  }

  /** Neither is ever written: the text of volatile void cannot be put together. */
  lemma VolatileVoidRaises(g: Graph, deep: bool, depth: nat)
    requires VolatileVoid(g) || GivesVolatileVoid(g)
    ensures g.Valid() && g.Has(0) && DoAll(g, [Define(0)], deep, START, depth).None?
  {
    assert g.ValidKind(0) && g.ValidKind(1) && g.ValidKind(2) && g.ValidKind(3);
    var chain;
    if VolatileVoid(g) {
      chain := AliasRaises(g);
    } else {
      chain := MemberRaises(g);
    }
    LeadsToException(g, [Define(0)], deep, depth, chain);
  }

  lemma AliasRaises(g: Graph) returns (chain: seq<Call>)
    requires VolatileVoid(g) && g.Valid()
    ensures CallChain(g, chain) && chain[0] == Define(0) && Raises(g, chain[|chain| - 1])
  {
    assert g.ValidKind(0) && g.ValidKind(1) && g.ValidKind(2) && g.ValidKind(3);
    chain := [Define(0), Declare(1), Declare(2)];
    assert Bare(g, 3) && Raises(g, Declare(2));
    assert Needs(g, Define(0))[0] == Declare(1) && Needs(g, Declare(1))[0] == Declare(2);
    assert IsNeeded(g, Define(0), Declare(1)) && IsNeeded(g, Declare(1), Declare(2));
  }

  lemma MemberRaises(g: Graph) returns (chain: seq<Call>)
    requires GivesVolatileVoid(g) && g.Valid()
    ensures CallChain(g, chain) && chain[0] == Define(0) && Raises(g, chain[|chain| - 1])
  {
    assert g.ValidKind(0) && g.ValidKind(1) && g.ValidKind(2) && g.ValidKind(3);
    chain := [Define(0)];
    assert Bare(g, 3) && Parts(g, 1) == [2] && Parts(g, 2) == [3];
    assert forall depth: nat :: !RendersIn(g, 2, depth);
    assert forall depth: nat :: !RendersIn(g, 1, depth);
    assert CompletesIn(g, 1, 1);
    assert FieldRaises(g, g.kinds[0].fields, 0);
  }

  /** With const it is: `typedef const void CV;` has the text CONST( c_void_p ). */
  lemma ConstVoidRenders(g: Graph)
    requires g.kinds == [Typedef(Some(1)), Modifier(Const, None)] && g.void == [true, true]
    ensures g.Valid() && !Raises(g, Declare(0))
  {
    assert g.ValidKind(0) && g.ValidKind(1);
    assert RendersIn(g, 1, 1);
  }

  /** `struct S { char8_t c; };`, for which ctypes has no alignment. */
  predicate Unaligned(g: Graph) {
    && g.kinds == [Record([Field(1, false, true)], false), Basic(false, false)]
    && g.void == [false, false]
  }

  /** `struct T; struct S { struct T t; unsigned b:1; };` where the bitfield has no byte offset. */
  predicate Unlocated(g: Graph) {
    && g.kinds == [Record([Field(1, false, true), Field(2, false, false)], false), Record([], true), Basic(true, false)]
    && g.void == [false, false, false]
  }

  /** Neither is ever written. */
  lemma FieldsThatRaise(g: Graph, deep: bool, depth: nat)
    requires Unaligned(g) || Unlocated(g)
    ensures g.Valid() && g.Has(0) && DoAll(g, [Define(0)], deep, START, depth).None?
  {
    assert g.ValidKind(0) && g.ValidKind(1) && (|g.kinds| == 3 ==> g.ValidKind(2));
    if Unaligned(g) {
      assert CompletesIn(g, 1, 1);
      assert forall n: nat :: !AlignsIn(g, 1, n);
    } else {
      assert forall n: nat :: !CompletesIn(g, 1, n);
    }
    assert FieldRaises(g, g.kinds[0].fields, 0);
    assert CallChain(g, [Define(0)]);
    LeadsToException(g, [Define(0)], deep, depth, [Define(0)]);
  }
}
