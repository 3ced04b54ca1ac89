/**
 The worklist of deepInspect: types found behind pointers are queued while types are defined.
 */
module EmissionWorklist {
  import opened Options
  import opened TypeGraph
  import opened EmissionOrder

  /** t is a pointer to u, which is not void and of which there is more than a declaration. */
  predicate Points(g: Graph, t: Type, u: Type)
    requires g.Has(t)
  {
    && g.kinds[t] == Pointer(Some(u)) && g.Has(u) && !g.void[u]
    && match g.kinds[u]
       case Basic(_, declaration) => !declaration
       case Record(_, declaration) => !declaration
       case Enumeration(_, declaration) => !declaration
       case _ => true
  }

  /** Defining a type queues what it points to, and nothing else. */
  lemma QueuedExactly(g: Graph, t: Type, u: Type)
    requires g.Valid() && g.Has(t)
    ensures u in Queued(g, t) <==> Points(g, t, u)
  {
    assert g.ValidKind(t);
  }

  /** Everything that a defined pointer points to is still to do, in the batch at hand, or done. */
  ghost predicate Covered(g: Graph, st: State, batch: set<Type>)
    requires g.Valid()
  {
    forall c <- st.done :: g.Has(c.t) && (c.Define? ==>
      forall u: Type :: Points(g, c.t, u) ==> u in st.todo || u in batch || Define(u) in st.done)
  }

  /** A batch is taken off the worklist, and shrinks as its types are defined. */
  lemma TakeBatch(g: Graph, st: State)
    requires g.Valid() && Covered(g, st, {})
    ensures Covered(g, st.(todo := {}), st.todo)
  {
  }

  lemma ShrinkBatch(g: Graph, st: State, batch: set<Type>, t: Type)
    requires g.Valid() && g.Has(t) && Covered(g, st, batch) && (g.void[t] || Define(t) in st.done)
    ensures Covered(g, st, batch - {t})
  {
  }

  lemma FinishCovers(g: Graph, c: Call, st: State, batch: set<Type>)
    requires g.Valid() && g.Has(c.t) && Covered(g, st, batch)
    ensures Covered(g, Finish(g, c, true, st), batch)
  {
    var st' := Finish(g, c, true, st);
    assert forall x <- st.done :: x in st'.done;
    assert forall x <- st'.done :: x in st.done || x == c;
    forall u: Type | c.Define? && Points(g, c.t, u) ensures u in st'.todo {
      QueuedExactly(g, c.t, u);
    }
  }

  lemma {:induction false} DoCovers(g: Graph, c: Call, st: State, depth: nat, batch: set<Type>)
    requires g.Valid() && g.Has(c.t) && Covered(g, st, batch) && Do(g, c, true, st, depth).Some?
    ensures Covered(g, Do(g, c, true, st, depth).value, batch)
    decreases depth, 0
  {
    if !Settled(g, st, c) {
      NeedsValid(g, c);
      DoAllCovers(g, Needs(g, c), st, depth - 1, batch);
      FinishCovers(g, c, DoAll(g, Needs(g, c), true, st, depth - 1).value, batch);
    }
  }

  lemma {:induction false} DoAllCovers(g: Graph, cs: seq<Call>, st: State, depth: nat, batch: set<Type>)
    requires g.Valid() && (forall c <- cs :: g.Has(c.t)) && Covered(g, st, batch) && DoAll(g, cs, true, st, depth).Some?
    ensures Covered(g, DoAll(g, cs, true, st, depth).value, batch)
    decreases depth, |cs| + 1
  {
    if cs != [] {
      DoCovers(g, cs[0], st, depth, batch);
      DoAllCovers(g, cs[1..], Do(g, cs[0], true, st, depth).value, depth, batch);
    }
  }

  /** All flagged types exist. */
  predicate Flagged(g: Graph, st: State) {
    forall t <- st.defined :: g.Has(t)
  }

  /** Work is only queued by marking a pointer as defined. */
  lemma {:induction false} DoProgresses(g: Graph, c: Call, deep: bool, st: State, depth: nat)
    requires g.Valid() && g.Has(c.t) && Do(g, c, deep, st, depth).Some? && Flagged(g, st)
    ensures
      var st' := Do(g, c, deep, st, depth).value;
      && Flagged(g, st') && st.defined <= st'.defined
      && (st'.todo == st.todo || (st.todo <= st'.todo && st.defined < st'.defined))
    decreases depth, 0
  {
    if !Settled(g, st, c) {
      NeedsValid(g, c);
      DoAllProgresses(g, Needs(g, c), deep, st, depth - 1);
      assert g.ValidKind(c.t);
      assert c.Define? ==> c.t !in st.defined;
    }
  }

  lemma {:induction false} DoAllProgresses(g: Graph, cs: seq<Call>, deep: bool, st: State, depth: nat)
    requires g.Valid() && (forall c <- cs :: g.Has(c.t)) && DoAll(g, cs, deep, st, depth).Some? && Flagged(g, st)
    ensures
      var st' := DoAll(g, cs, deep, st, depth).value;
      && Flagged(g, st') && st.defined <= st'.defined
      && (st'.todo == st.todo || (st.todo <= st'.todo && st.defined < st'.defined))
    decreases depth, |cs| + 1
  {
    if cs != [] {
      DoProgresses(g, cs[0], deep, st, depth);
      DoAllProgresses(g, cs[1..], deep, Do(g, cs[0], deep, st, depth).value, depth);
    }
  }

  /** All of the types are void or have a rank. */
  predicate AllRanked(g: Graph, rank: map<Call, nat>, ts: set<Type>) {
    forall t <- ts :: g.Has(t) && (g.void[t] || Define(t) in rank)
  }

  /** What ranked pointers point to has a rank too. */
  ghost predicate QueueRanked(g: Graph, rank: map<Call, nat>)
    requires g.Valid()
  {
    forall c <- rank :: c.Define? && g.Has(c.t) ==> forall u: Type :: Points(g, c.t, u) ==> Define(u) in rank
  }

  lemma {:induction false} DoQueuesRanked(g: Graph, rank: map<Call, nat>, c: Call, deep: bool, st: State, depth: nat)
    requires g.Valid() && g.Has(c.t) && Ranks(g, rank) && (deep ==> QueueRanked(g, rank)) && (Skips(g, c) || c in rank)
    requires Do(g, c, deep, st, depth).Some? && AllRanked(g, rank, st.todo)
    ensures AllRanked(g, rank, Do(g, c, deep, st, depth).value.todo)
    decreases depth, 0
  {
    if !Settled(g, st, c) {
      NeedsRanked(g, rank, c);
      DoAllQueuesRanked(g, rank, Needs(g, c), deep, st, depth - 1);
      forall u: Type | deep && c.Define? && u in Queued(g, c.t) ensures g.Has(u) && Define(u) in rank {
        QueuedExactly(g, c.t, u);
      }
    }
  }

  lemma {:induction false} DoAllQueuesRanked(g: Graph, rank: map<Call, nat>, cs: seq<Call>, deep: bool, st: State, depth: nat)
    requires g.Valid() && (forall c <- cs :: g.Has(c.t)) && Ranks(g, rank) && (deep ==> QueueRanked(g, rank))
    requires forall c <- cs :: Skips(g, c) || c in rank
    requires DoAll(g, cs, deep, st, depth).Some? && AllRanked(g, rank, st.todo)
    ensures AllRanked(g, rank, DoAll(g, cs, deep, st, depth).value.todo)
    decreases depth, |cs| + 1
  {
    if cs != [] {
      DoQueuesRanked(g, rank, cs[0], deep, st, depth);
      DoAllQueuesRanked(g, rank, cs[1..], deep, Do(g, cs[0], deep, st, depth).value, depth);
    }
  }

  /** The types not yet marked as defined. */
  function Undefined(g: Graph, defined: set<Type>): set<Type> {
    Below(|g.kinds|) - defined
  }

  function Below(n: nat): (ts: set<Type>)
    ensures forall t: Type :: t in ts <==> t < n
  {
    if n == 0 then {} else Below(n - 1) + {n - 1}
  }

  lemma UndefinedShrinks(g: Graph, a: set<Type>, b: set<Type>)
    requires a <= b && forall t <- b :: t < |g.kinds|
    ensures |Undefined(g, b)| <= |Undefined(g, a)|
    ensures a < b ==> |Undefined(g, b)| < |Undefined(g, a)|
  {
    assert Undefined(g, b) <= Undefined(g, a);
    SmallerSet(Undefined(g, b), Undefined(g, a));
    if a < b {
      var t :| t in b && t !in a;
      assert t in Undefined(g, a) && t !in Undefined(g, b);
    }
  }

  lemma {:induction false} SmallerSet<T>(a: set<T>, b: set<T>)
    requires a <= b
    ensures |a| <= |b| && (a < b ==> |a| < |b|)
    decreases a
  {
    if a != {} {
      var x :| x in a;
      SmallerSet(a - {x}, b - {x});
    }
  }

  // ----- What is reached -----

  /** From a type to one it is made of, or that it points to. */
  predicate Leads(g: Graph, t: Type, u: Type)
    requires g.Valid() && g.Has(t)
  {
    match g.kinds[t]
    case Basic(_, _) => false
    case Record(fs, declaration) => !declaration && u in FieldTypes(fs)
    case Enumeration(b, _) => b == Some(u)
    case Typedef(b) => b == Some(u)
    case Modifier(_, b) => b == Some(u)
    case Pointer(_) => Points(g, t, u)
    case Array(b) => b == u
    case Function(r, ps) => r == Some(u) || u in ps
  }

  predicate LeadChain(g: Graph, chain: seq<Type>)
    requires g.Valid()
  {
    && chain != [] && (forall i :: 0 <= i < |chain| ==> g.Has(chain[i]))
    && forall i :: 0 <= i < |chain| - 1 ==> Leads(g, chain[i], chain[i + 1])
  }

  /** Once the worklist is empty, one such step from a type that has been through `defineType` leads
      to another, up to void. */
  lemma LeadsToDefined(g: Graph, st: State, t: Type, u: Type)
    requires g.Valid() && Ordered(g, st) && Covered(g, st, {}) && st.todo == {}
    requires g.Has(t) && g.Has(u) && Define(t) in st.done && Leads(g, t, u)
    ensures Define(u) in st.done || g.void[u]
  {
    assert g.ValidKind(t);
    if g.kinds[t].Pointer? {
      assert Points(g, t, u);
    } else {
      LeadsIsNeeded(g, t, u);
      var k :| 0 <= k < |st.done| && st.done[k] == Define(t);
      assert FinishedInOrder(g, st.done, k);
    }
  }

  lemma LeadsIsNeeded(g: Graph, t: Type, u: Type)
    requires g.Valid() && g.Has(t) && Leads(g, t, u) && !g.kinds[t].Pointer?
    ensures Define(u) in Needs(g, Define(t))
  {
    assert g.ValidKind(t);
    match g.kinds[t]
    case Record(fs, _) =>
      var ms := FieldTypes(fs);
      var i :| 0 <= i < |ms| && ms[i] == u;
      assert DefineAll(ms)[i] == Define(u);
    case Function(r, ps) =>
      if u in ps {
        var i :| 0 <= i < |ps| && ps[i] == u;
        assert DefineAll(ps)[i] == Define(u);
      }
    case _ =>
  }

  /** Once the worklist is empty, everything that members, bases, parameters and pointers lead to
      from a defined type has been through `defineType`, up to void. */
  lemma {:induction false} ReachedIsDefined(g: Graph, st: State, chain: seq<Type>)
    requires g.Valid() && Ordered(g, st) && Covered(g, st, {}) && st.todo == {} && LeadChain(g, chain)
    requires Define(chain[0]) in st.done && forall i :: 0 <= i < |chain| - 1 ==> !g.void[chain[i]]
    ensures Define(chain[|chain| - 1]) in st.done || g.void[chain[|chain| - 1]]
    decreases |chain|
  {
    if |chain| > 1 {
      assert Leads(g, chain[0], chain[1]);
      LeadsToDefined(g, st, chain[0], chain[1]);
      var rest := chain[1..];
      forall i | 0 <= i < |rest| - 1
        ensures Leads(g, rest[i], rest[i + 1])
      {
        assert Leads(g, chain[i + 1], chain[i + 2]);
      }
      if |chain| > 2 {
        ReachedIsDefined(g, st, rest);
      }
    }
  }

  // ----- Exactly what a run finishes -----

  /** From a call to one it makes, and from the definition of a pointer to that of what it points to
      when pointers are followed. */
  predicate Links(g: Graph, deep: bool, c: Call, n: Call)
    requires g.Valid() && g.Has(c.t)
  {
    IsNeeded(g, c, n) || (deep && c.Define? && n.Define? && Points(g, c.t, n.t))
  }

  predicate LinkChain(g: Graph, deep: bool, chain: seq<Call>)
    requires g.Valid()
  {
    && chain != [] && (forall i :: 0 <= i < |chain| ==> g.Has(chain[i].t) && !Skips(g, chain[i]))
    && forall i :: 0 <= i < |chain| - 1 ==> Links(g, deep, chain[i], chain[i + 1])
  }

  /** Links lead to the call from the definition of a wanted type. */
  ghost predicate Reached(g: Graph, deep: bool, wanted: set<Type>, c: Call)
    requires g.Valid()
  {
    exists chain: seq<Call> :: LinkChain(g, deep, chain) && chain[0].Define? && chain[0].t in wanted && chain[|chain| - 1] == c
  }

  lemma WantedIsReached(g: Graph, deep: bool, wanted: set<Type>, t: Type)
    requires g.Valid() && g.Has(t) && !g.void[t] && t in wanted
    ensures Reached(g, deep, wanted, Define(t))
  {
    assert LinkChain(g, deep, [Define(t)]);
  }

  lemma ReachesOn(g: Graph, deep: bool, wanted: set<Type>, c: Call, n: Call)
    requires g.Valid() && Reached(g, deep, wanted, c)
    requires g.Has(c.t) && g.Has(n.t) && !Skips(g, n) && Links(g, deep, c, n)
    ensures Reached(g, deep, wanted, n)
  {
    var chain: seq<Call> :| LinkChain(g, deep, chain) && chain[0].Define? && chain[0].t in wanted && chain[|chain| - 1] == c;
    var longer := chain + [n];
    forall i | 0 <= i < |longer| - 1
      ensures Links(g, deep, longer[i], longer[i + 1])
    {
      if i < |chain| - 1 {
        assert Links(g, deep, chain[i], chain[i + 1]);
      }
    }
    assert LinkChain(g, deep, longer) && longer[0] == chain[0] && longer[|longer| - 1] == n;
  }

  /** Whatever has finished, is queued, or is in the batch at hand was reached. */
  ghost predicate AllReached(g: Graph, deep: bool, wanted: set<Type>, st: State, batch: set<Type>)
    requires g.Valid()
  {
    && (forall c {:trigger CallReached(g, deep, wanted, c)} :: c in st.done ==> CallReached(g, deep, wanted, c))
    && (forall u {:trigger TypeReached(g, deep, wanted, u)} ::
          u in st.todo || u in batch ==> TypeReached(g, deep, wanted, u))
  }

  ghost predicate CallReached(g: Graph, deep: bool, wanted: set<Type>, c: Call)
    requires g.Valid()
  {
    g.Has(c.t) && Reached(g, deep, wanted, c)
  }

  ghost predicate TypeReached(g: Graph, deep: bool, wanted: set<Type>, u: Type)
    requires g.Valid()
  {
    g.Has(u) && (g.void[u] || Reached(g, deep, wanted, Define(u)))
  }

  lemma StartIsReached(g: Graph, deep: bool, wanted: set<Type>)
    requires g.Valid() && forall t <- wanted :: g.Has(t)
    ensures AllReached(g, deep, wanted, START.(todo := wanted), {})
  {
    forall u | u in wanted ensures TypeReached(g, deep, wanted, u) {
      if !g.void[u] {
        WantedIsReached(g, deep, wanted, u);
      }
    }
  }

  lemma TakeReached(g: Graph, deep: bool, wanted: set<Type>, st: State)
    requires g.Valid() && AllReached(g, deep, wanted, st, {})
    ensures AllReached(g, deep, wanted, st.(todo := {}), st.todo)
  {
  }

  lemma ShrinkReached(g: Graph, deep: bool, wanted: set<Type>, st: State, batch: set<Type>, t: Type)
    requires g.Valid() && AllReached(g, deep, wanted, st, batch)
    ensures AllReached(g, deep, wanted, st, batch - {t})
  {
  }

  lemma FinishReaches(g: Graph, c: Call, deep: bool, st: State, wanted: set<Type>, batch: set<Type>)
    requires g.Valid() && g.Has(c.t) && AllReached(g, deep, wanted, st, batch) && Reached(g, deep, wanted, c)
    ensures AllReached(g, deep, wanted, Finish(g, c, deep, st), batch)
  {
    var st' := Finish(g, c, deep, st);
    assert forall x <- st'.done :: x in st.done || x == c;
    forall u | u in st'.todo || u in batch
      ensures TypeReached(g, deep, wanted, u)
    {
      if u !in st.todo && u !in batch {
        QueuedExactly(g, c.t, u);
        ReachesOn(g, deep, wanted, c, Define(u));
      } else {
        assert TypeReached(g, deep, wanted, u);
      }
    }
    forall x | x in st'.done
      ensures CallReached(g, deep, wanted, x)
    {
    }
  }

  lemma {:induction false} DoReaches(g: Graph, c: Call, deep: bool, st: State, depth: nat, wanted: set<Type>, batch: set<Type>)
    requires g.Valid() && g.Has(c.t) && AllReached(g, deep, wanted, st, batch) && Do(g, c, deep, st, depth).Some?
    requires Skips(g, c) || Reached(g, deep, wanted, c)
    ensures AllReached(g, deep, wanted, Do(g, c, deep, st, depth).value, batch)
    decreases depth, 0
  {
    if !Settled(g, st, c) {
      NeedsValid(g, c);
      forall n | n in Needs(g, c) ensures Skips(g, n) || Reached(g, deep, wanted, n) {
        if !Skips(g, n) {
          ReachesOn(g, deep, wanted, c, n);
        }
      }
      DoAllReaches(g, Needs(g, c), deep, st, depth - 1, wanted, batch);
      FinishReaches(g, c, deep, DoAll(g, Needs(g, c), deep, st, depth - 1).value, wanted, batch);
    }
  }

  lemma {:induction false} DoAllReaches(g: Graph, cs: seq<Call>, deep: bool, st: State, depth: nat, wanted: set<Type>, batch: set<Type>)
    requires g.Valid() && (forall c <- cs :: g.Has(c.t)) && AllReached(g, deep, wanted, st, batch)
    requires DoAll(g, cs, deep, st, depth).Some? && forall c <- cs :: Skips(g, c) || Reached(g, deep, wanted, c)
    ensures AllReached(g, deep, wanted, DoAll(g, cs, deep, st, depth).value, batch)
    decreases depth, |cs| + 1
  {
    if cs != [] {
      DoReaches(g, cs[0], deep, st, depth, wanted, batch);
      DoAllReaches(g, cs[1..], deep, Do(g, cs[0], deep, st, depth).value, depth, wanted, batch);
    }
  }

  /** t has been through `defineType`. */
  ghost predicate Handled(g: Graph, done: seq<Call>, t: Type) {
    g.Has(t) && (g.void[t] || Define(t) in done)
  }

  /** What every step of a run keeps: output order, no repetition, nothing queued or wanted is lost, and
      nothing is done that is not reached from the wanted types. */
  ghost predicate InRun(g: Graph, deep: bool, wanted: set<Type>, st: State, batch: set<Type>)
    requires g.Valid()
  {
    && Ordered(g, st) && Once(g, st) && Flagged(g, st)
    && (deep ==> Covered(g, st, batch))
    && AllReached(g, deep, wanted, st, batch)
    && NoneForgotten(g, wanted, st, batch)
  }

  ghost predicate NoneForgotten(g: Graph, wanted: set<Type>, st: State, batch: set<Type>) {
    forall t {:trigger Handled(g, st.done, t)} ::
      t in wanted ==> t in st.todo || t in batch || Handled(g, st.done, t)
  }

  /** The calls that the worklist leads to can be ranked. */
  ghost predicate Rankable(g: Graph, deep: bool, rank: map<Call, nat>, st: State, batch: set<Type>)
    requires g.Valid()
  {
    && Ranks(g, rank) && (deep ==> QueueRanked(g, rank))
    && AllRanked(g, rank, st.todo) && AllRanked(g, rank, batch)
  }

  lemma RunStarts(g: Graph, deep: bool, wanted: set<Type>)
    requires g.Valid() && forall t <- wanted :: g.Has(t)
    ensures InRun(g, deep, wanted, START.(todo := wanted), {})
  {
    StartIsReached(g, deep, wanted);
  }

  lemma RunTakes(g: Graph, deep: bool, wanted: set<Type>, rank: map<Call, nat>, st: State)
    requires g.Valid() && InRun(g, deep, wanted, st, {}) && Rankable(g, deep, rank, st, {})
    ensures
      var st' := st.(todo := {});
      InRun(g, deep, wanted, st', st.todo) && Rankable(g, deep, rank, st', st.todo)
  {
    TakeReached(g, deep, wanted, st);
    if deep {
      TakeBatch(g, st);
    }
  }

  /** Defining one type of the batch. */
  lemma RunSteps(g: Graph, deep: bool, wanted: set<Type>, rank: map<Call, nat>, st: State, batch: set<Type>, t: Type)
    returns (depth: nat)
    requires g.Valid() && InRun(g, deep, wanted, st, batch) && Rankable(g, deep, rank, st, batch) && t in batch
    ensures g.Has(t) && Do(g, Define(t), deep, st, depth).Some?
    ensures
      var st' := Do(g, Define(t), deep, st, depth).value;
      && InRun(g, deep, wanted, st', batch - {t}) && Rankable(g, deep, rank, st', batch - {t})
      && st.done <= st'.done && Handled(g, st'.done, t) && st.defined <= st'.defined
      && (st'.todo == st.todo || (st.todo <= st'.todo && st.defined < st'.defined))
  {
    depth := if g.void[t] then 0 else rank[Define(t)] + 1;
    RankedReturns(g, rank, Define(t), deep, st, depth);
    DoKeepsOrder(g, Define(t), deep, st, depth);
    DoKeepsOnce(g, rank, Define(t), deep, st, depth);
    DoProgresses(g, Define(t), deep, st, depth);
    DoQueuesRanked(g, rank, Define(t), deep, st, depth);
    var st' := Do(g, Define(t), deep, st, depth).value;
    StepReaches(g, deep, wanted, st, depth, batch, t);
    StepForgetsNone(g, wanted, st, st', batch, t);
    if deep {
      DoCovers(g, Define(t), st, depth, batch);
      ShrinkBatch(g, st', batch, t);
    }
  }

  lemma StepReaches(g: Graph, deep: bool, wanted: set<Type>, st: State, depth: nat, batch: set<Type>, t: Type)
    requires g.Valid() && AllReached(g, deep, wanted, st, batch) && t in batch
    requires g.Has(t) && Do(g, Define(t), deep, st, depth).Some?
    ensures AllReached(g, deep, wanted, Do(g, Define(t), deep, st, depth).value, batch - {t})
  {
    assert TypeReached(g, deep, wanted, t);
    DoReaches(g, Define(t), deep, st, depth, wanted, batch);
    ShrinkReached(g, deep, wanted, Do(g, Define(t), deep, st, depth).value, batch, t);
  }

  lemma StepForgetsNone(g: Graph, wanted: set<Type>, st: State, st': State, batch: set<Type>, t: Type)
    requires NoneForgotten(g, wanted, st, batch) && st.todo <= st'.todo && st.done <= st'.done && Handled(g, st'.done, t)
    ensures NoneForgotten(g, wanted, st', batch - {t})
  {
    forall u | u in wanted
      ensures u in st'.todo || u in batch - {t} || Handled(g, st'.done, u)
    {
      HandledStays(g, st.done, st'.done, u);
    }
  }

  lemma HandledStays(g: Graph, done: seq<Call>, done': seq<Call>, t: Type)
    requires done <= done'
    ensures Handled(g, done, t) ==> Handled(g, done', t)
  {
  }

  /** Once the worklist is empty, exactly the calls that are reached from the wanted types have
      finished. */
  lemma ReachedIffDone(g: Graph, deep: bool, wanted: set<Type>, st: State, c: Call)
    requires g.Valid() && InRun(g, deep, wanted, st, {}) && st.todo == {}
    ensures c in st.done <==> Reached(g, deep, wanted, c)
  {
    if c in st.done {
      assert CallReached(g, deep, wanted, c);
    } else if Reached(g, deep, wanted, c) {
      var chain: seq<Call> :| LinkChain(g, deep, chain) && chain[0].Define? && chain[0].t in wanted && chain[|chain| - 1] == c;
      assert Handled(g, st.done, chain[0].t);
      LinksStayDone(g, deep, st, chain, |chain| - 1);
    }
  }

  lemma {:induction false} LinksStayDone(g: Graph, deep: bool, st: State, chain: seq<Call>, k: nat)
    requires g.Valid() && Ordered(g, st) && st.todo == {} && (deep ==> Covered(g, st, {}))
    requires LinkChain(g, deep, chain) && chain[0] in st.done && k < |chain|
    ensures chain[k] in st.done
    decreases k
  {
    if k > 0 {
      LinksStayDone(g, deep, st, chain, k - 1);
      var c, n := chain[k - 1], chain[k];
      assert Links(g, deep, c, n);
      if IsNeeded(g, c, n) {
        NeededIsDone(g, st, c, n);
      }
    }
  }
}
