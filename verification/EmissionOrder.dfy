/**
 What holds of every run that writes types out: when it comes to an end, and in what order.
 */
module EmissionOrder {
  import opened Options
  import opened TypeGraph

  // ----- Depth does not matter once it is enough -----

  lemma {:induction false} DeeperIsSame(g: Graph, c: Call, deep: bool, st: State, d: nat, d': nat)
    requires g.Valid() && g.Has(c.t) && d <= d' && Do(g, c, deep, st, d).Some?
    ensures Do(g, c, deep, st, d') == Do(g, c, deep, st, d)
    decreases d, 0
  {
    if !Settled(g, st, c) {
      NeedsValid(g, c);
      DeeperIsSameAll(g, Needs(g, c), deep, st, d - 1, d' - 1);
    }
  }

  lemma {:induction false} DeeperIsSameAll(g: Graph, cs: seq<Call>, deep: bool, st: State, d: nat, d': nat)
    requires g.Valid() && (forall c <- cs :: g.Has(c.t)) && d <= d' && DoAll(g, cs, deep, st, d).Some?
    ensures DoAll(g, cs, deep, st, d') == DoAll(g, cs, deep, st, d)
    decreases d, |cs| + 1
  {
    if cs != [] {
      DeeperIsSame(g, cs[0], deep, st, d, d');
      DeeperIsSameAll(g, cs[1..], deep, Do(g, cs[0], deep, st, d).value, d, d');
    }
  }

  lemma DoAllCons(g: Graph, c: Call, cs: seq<Call>, deep: bool, st: State, depth: nat)
    requires g.Valid() && g.Has(c.t) && (forall x <- cs :: g.Has(x.t))
    ensures DoAll(g, [c] + cs, deep, st, depth)
         == match Do(g, c, deep, st, depth) case None => None case Some(st') => DoAll(g, cs, deep, st', depth)
  {
    assert ([c] + cs)[1..] == cs;
  }

  lemma DoAllOne(g: Graph, c: Call, deep: bool, st: State, depth: nat)
    requires g.Valid() && g.Has(c.t)
    ensures DoAll(g, [c], deep, st, depth) == Do(g, c, deep, st, depth)
  {
    assert [c] + [] == [c];
    DoAllCons(g, c, [], deep, st, depth);
  }

  lemma DoAllThree(g: Graph, a: Call, b: Call, c: Call, deep: bool, st: State, depth: nat)
    requires g.Valid() && g.Has(a.t) && g.Has(b.t) && g.Has(c.t) && DoAll(g, [a, b, c], deep, st, depth).Some?
    ensures Do(g, a, deep, st, depth).Some?
    ensures Do(g, b, deep, Do(g, a, deep, st, depth).value, depth).Some?
    ensures DoAll(g, [a, b, c], deep, st, depth)
         == Do(g, c, deep, Do(g, b, deep, Do(g, a, deep, st, depth).value, depth).value, depth)
  {
    assert [a] + [b, c] == [a, b, c] && [b] + [c] == [b, c];
    DoAllCons(g, a, [b, c], deep, st, depth);
    DoAllCons(g, b, [c], deep, Do(g, a, deep, st, depth).value, depth);
    DoAllOne(g, c, deep, Do(g, b, deep, Do(g, a, deep, st, depth).value, depth).value, depth);
  }

  // ----- Ranks -----

  /** Every call in the map can be carried out, and needs only calls of lower rank in the map. */
  ghost predicate Ranks(g: Graph, rank: map<Call, nat>)
    requires g.Valid()
  {
    forall c {:trigger RankedCall(g, rank, c)} :: c in rank ==> RankedCall(g, rank, c)
  }

  ghost predicate RankedCall(g: Graph, rank: map<Call, nat>, c: Call)
    requires g.Valid() && c in rank
  {
    && g.Has(c.t) && !Raises(g, c)
    && forall n <- Needs(g, c) :: g.Has(n.t) && (!Skips(g, n) ==> n in rank && rank[n] < rank[c])
  }

  lemma NeedRanked(g: Graph, rank: map<Call, nat>, c: Call, n: Call)
    requires g.Valid() && g.Has(c.t) && g.Has(n.t) && g.ValidKind(c.t) && n in Needs(g, c) && !Skips(g, n)
    ensures Ranks(g, rank) && c in rank ==> n in rank && rank[n] < rank[c]
  {
    assert Ranks(g, rank) && c in rank ==> RankedCall(g, rank, c);
  }

  lemma NeedsRanked(g: Graph, rank: map<Call, nat>, c: Call)
    requires g.Valid() && Ranks(g, rank) && c in rank
    ensures g.Has(c.t) && !Raises(g, c) && forall n <- Needs(g, c) :: g.Has(n.t)
    ensures forall n <- Needs(g, c) :: Skips(g, n) || (n in rank && rank[n] < rank[c])
  {
    assert RankedCall(g, rank, c);
  }

  /** A ranked call returns: no depth greater than its rank is needed. */
  lemma {:induction false} RankedReturns(g: Graph, rank: map<Call, nat>, c: Call, deep: bool, st: State, depth: nat)
    requires g.Valid() && g.Has(c.t) && Ranks(g, rank)
    requires Skips(g, c) || (c in rank && rank[c] < depth)
    ensures Do(g, c, deep, st, depth).Some?
    decreases depth, 0
  {
    if !Settled(g, st, c) {
      NeedsRanked(g, rank, c);
      assert rank[c] <= depth - 1;
      RankedReturnsAll(g, rank, Needs(g, c), deep, st, depth - 1);
      ReturnsWithNeeds(g, c, deep, st, depth);
    }
  }

  lemma ReturnsWithNeeds(g: Graph, c: Call, deep: bool, st: State, depth: nat)
    requires g.Valid() && g.Has(c.t) && depth > 0 && !Raises(g, c) && forall n <- Needs(g, c) :: g.Has(n.t)
    requires DoAll(g, Needs(g, c), deep, st, depth - 1).Some?
    ensures Do(g, c, deep, st, depth).Some?
  {
  }

  lemma {:induction false} RankedReturnsAll(g: Graph, rank: map<Call, nat>, cs: seq<Call>, deep: bool, st: State, depth: nat)
    requires g.Valid() && (forall c <- cs :: g.Has(c.t)) && Ranks(g, rank)
    requires forall c <- cs :: Skips(g, c) || (c in rank && rank[c] < depth)
    ensures DoAll(g, cs, deep, st, depth).Some?
    decreases depth, |cs| + 1
  {
    if cs != [] {
      RankedReturns(g, rank, cs[0], deep, st, depth);
      RankedReturnsAll(g, rank, cs[1..], deep, Do(g, cs[0], deep, st, depth).value, depth);
    }
  }

  // ----- Order -----

  /** What a finished call needed had finished before it. */
  ghost predicate FinishedInOrder(g: Graph, done: seq<Call>, k: nat)
    requires g.Valid() && k < |done|
  {
    && g.Has(done[k].t) && !Raises(g, done[k])
    && forall n <- Needs(g, done[k]) :: g.Has(n.t) && (Skips(g, n) || n in done[..k])
  }

  /** Calls finish in order, and the flags are set by finished calls only. */
  ghost predicate Ordered(g: Graph, st: State)
    requires g.Valid()
  {
    && (forall k :: 0 <= k < |st.done| ==> FinishedInOrder(g, st.done, k))
    && (forall t :: t in st.declared <==> Declare(t) in st.done)
    && (forall t :: t in st.defined ==> Define(t) in st.done)
  }

  lemma FinishKeepsOrder(g: Graph, c: Call, deep: bool, st: State)
    requires g.Valid() && g.Has(c.t) && Ordered(g, st) && !Raises(g, c)
    requires forall n <- Needs(g, c) :: g.Has(n.t) && (Skips(g, n) || n in st.done)
    ensures Ordered(g, Finish(g, c, deep, st))
  {
    var st' := Finish(g, c, deep, st);
    forall k | 0 <= k < |st'.done|
      ensures FinishedInOrder(g, st'.done, k)
    {
      if k < |st.done| {
        assert FinishedInOrder(g, st.done, k);
        assert st'.done[..k] == st.done[..k];
      } else {
        assert st'.done[..k] == st.done;
      }
    }
    assert st'.done[|st.done|] == c;
    assert forall x <- st.done :: x in st'.done;
  }

  /** A call that returns leaves calls in order, only adds to what is done, and is itself done. */
  lemma {:induction false} DoKeepsOrder(g: Graph, c: Call, deep: bool, st: State, depth: nat)
    requires g.Valid() && g.Has(c.t) && Ordered(g, st) && Do(g, c, deep, st, depth).Some?
    ensures
      var st' := Do(g, c, deep, st, depth).value;
      Ordered(g, st') && st.done <= st'.done && (Skips(g, c) || c in st'.done)
    decreases depth, 0
  {
    if !Settled(g, st, c) {
      NeedsValid(g, c);
      DoAllKeepsOrder(g, Needs(g, c), deep, st, depth - 1);
      var st1 := DoAll(g, Needs(g, c), deep, st, depth - 1).value;
      FinishKeepsOrder(g, c, deep, st1);
      assert Finish(g, c, deep, st1).done[|st1.done|] == c;
    }
  }

  lemma {:induction false} DoAllKeepsOrder(g: Graph, cs: seq<Call>, deep: bool, st: State, depth: nat)
    requires g.Valid() && (forall c <- cs :: g.Has(c.t)) && Ordered(g, st) && DoAll(g, cs, deep, st, depth).Some?
    ensures
      var st' := DoAll(g, cs, deep, st, depth).value;
      && Ordered(g, st') && st.done <= st'.done
      && forall c <- cs :: Skips(g, c) || c in st'.done
    decreases depth, |cs| + 1
  {
    if cs != [] {
      var st1 := Do(g, cs[0], deep, st, depth).value;
      DoKeepsOrder(g, cs[0], deep, st, depth);
      DoAllKeepsOrder(g, cs[1..], deep, st1, depth);
      var st' := DoAll(g, cs, deep, st, depth).value;
      forall c | c in cs
        ensures Skips(g, c) || c in st'.done
      {
        if c == cs[0] && !Skips(g, c) {
          var k :| 0 <= k < |st1.done| && st1.done[k] == c;
          assert st'.done[k] == c;
        }
      }
    }
  }

  // ----- Termination, exactly -----

  /** Positions in an ordered list of finished calls rank the calls. */
  function FirstPosition(done: seq<Call>, c: Call): (k: nat)
    requires c in done
    ensures k < |done| && done[k] == c && c !in done[..k]
  {
    if done[0] == c then 0
    else
      var k := FirstPosition(done[1..], c);
      assert done[..k + 1] == [done[0]] + done[1..][..k];
      k + 1
  }

  ghost function PositionRank(done: seq<Call>): map<Call, nat> {
    map c | c in done :: FirstPosition(done, c)
  }

  lemma PositionsRank(g: Graph, st: State)
    requires g.Valid() && Ordered(g, st)
    ensures Ranks(g, PositionRank(st.done))
  {
    var rank := PositionRank(st.done);
    forall c | c in rank
      ensures RankedCall(g, rank, c)
    {
      var k := FirstPosition(st.done, c);
      assert FinishedInOrder(g, st.done, k);
      forall n | n in Needs(g, c) && !Skips(g, n)
        ensures n in rank && rank[n] < rank[c]
      {
        var j :| 0 <= j < k && st.done[..k][j] == n;
        assert st.done[j] == n;
        FirstIsLeast(st.done, n, j);
      }
    }
  }

  lemma FirstIsLeast(done: seq<Call>, c: Call, j: nat)
    requires j < |done| && done[j] == c
    ensures FirstPosition(done, c) <= j
  {
  }

  /** Writing types out from scratch returns normally exactly when the calls this leads to can be
      ranked: when none leads back to itself, and none declares a typedef of void. */
  lemma ReturnsIffRanked(g: Graph, cs: seq<Call>, deep: bool)
    requires g.Valid() && forall c <- cs :: g.Has(c.t)
    ensures (exists depth: nat :: DoAll(g, cs, deep, START, depth).Some?)
       <==> (exists rank :: Ranks(g, rank) && forall c <- cs :: Skips(g, c) || c in rank)
  {
    if depth: nat :| DoAll(g, cs, deep, START, depth).Some? {
      DoAllKeepsOrder(g, cs, deep, START, depth);
      var rank := PositionRank(DoAll(g, cs, deep, START, depth).value.done);
      PositionsRank(g, DoAll(g, cs, deep, START, depth).value);
      assert forall c <- cs :: Skips(g, c) || c in rank;
    }
    if rank :| Ranks(g, rank) && forall c <- cs :: Skips(g, c) || c in rank {
      var depth := DepthFor(rank, cs);
      RankedReturnsAll(g, rank, cs, deep, START, depth);
    }
  }

  ghost function DepthFor(rank: map<Call, nat>, cs: seq<Call>): (depth: nat)
    ensures forall c <- cs :: c in rank ==> rank[c] < depth
  {
    if cs == [] then 0
    else
      var d := DepthFor(rank, cs[1..]);
      if cs[0] in rank && rank[cs[0]] >= d then rank[cs[0]] + 1 else d
  }

  // ----- Nothing else -----

  /** A set of calls that leads nowhere else. */
  ghost predicate Closed(g: Graph, calls: set<Call>)
    requires g.Valid()
  {
    forall c {:trigger ClosedCall(g, calls, c)} :: c in calls ==> ClosedCall(g, calls, c)
  }

  ghost predicate ClosedCall(g: Graph, calls: set<Call>, c: Call)
    requires g.Valid()
  {
    g.Has(c.t) && forall n <- Needs(g, c) :: g.Has(n.t) && (Skips(g, n) || n in calls)
  }

  /** Only calls that the first one leads to are finished. */
  lemma {:induction false} DoStaysIn(g: Graph, calls: set<Call>, c: Call, deep: bool, st: State, depth: nat)
    requires g.Valid() && g.Has(c.t) && Closed(g, calls) && (Skips(g, c) || c in calls)
    requires Do(g, c, deep, st, depth).Some? && forall x <- st.done :: x in calls
    ensures forall x <- Do(g, c, deep, st, depth).value.done :: x in calls
    decreases depth, 0
  {
    if !Settled(g, st, c) {
      assert ClosedCall(g, calls, c);
      DoAllStaysIn(g, calls, Needs(g, c), deep, st, depth - 1);
    }
  }

  lemma {:induction false} DoAllStaysIn(g: Graph, calls: set<Call>, cs: seq<Call>, deep: bool, st: State, depth: nat)
    requires g.Valid() && (forall c <- cs :: g.Has(c.t)) && Closed(g, calls)
    requires forall c <- cs :: Skips(g, c) || c in calls
    requires DoAll(g, cs, deep, st, depth).Some? && forall x <- st.done :: x in calls
    ensures forall x <- DoAll(g, cs, deep, st, depth).value.done :: x in calls
    decreases depth, |cs| + 1
  {
    if cs != [] {
      DoStaysIn(g, calls, cs[0], deep, st, depth);
      DoAllStaysIn(g, calls, cs[1..], deep, Do(g, cs[0], deep, st, depth).value, depth);
    }
  }

  // ----- Exactly what is finished -----

  /** Calls each of which is needed by the one before, none of them skipped. */
  predicate CallChain(g: Graph, chain: seq<Call>)
    requires g.Valid()
  {
    && chain != [] && (forall i :: 0 <= i < |chain| ==> g.Has(chain[i].t) && !Skips(g, chain[i]))
    && forall i :: 0 <= i < |chain| - 1 ==> IsNeeded(g, chain[i], chain[i + 1])
  }

  predicate IsNeeded(g: Graph, c: Call, n: Call)
    requires g.Valid() && g.Has(c.t)
  {
    assert g.ValidKind(c.t);
    n in Needs(g, c)
  }

  ghost predicate LeadsTo(g: Graph, c: Call, x: Call)
    requires g.Valid()
  {
    exists chain :: CallChain(g, chain) && chain[0] == c && chain[|chain| - 1] == x
  }

  lemma ChainAfter(g: Graph, c: Call, chain: seq<Call>)
    requires g.Valid() && g.Has(c.t) && !Skips(g, c) && CallChain(g, chain) && IsNeeded(g, c, chain[0])
    ensures CallChain(g, [c] + chain)
  {
    var longer := [c] + chain;
    forall i | 0 <= i < |longer| - 1
      ensures IsNeeded(g, longer[i], longer[i + 1])
    {
      if i > 0 {
        assert longer[i] == chain[i - 1] && longer[i + 1] == chain[i] && IsNeeded(g, chain[i - 1], chain[i]);
      }
    }
  }

  lemma LeadsFirst(g: Graph, c: Call, n: Call, x: Call)
    requires g.Valid() && g.Has(c.t) && !Skips(g, c) && IsNeeded(g, c, n) && LeadsTo(g, n, x)
    ensures LeadsTo(g, c, x)
  {
    var chain :| CallChain(g, chain) && chain[0] == n && chain[|chain| - 1] == x;
    ChainAfter(g, c, chain);
    var longer := [c] + chain;
    assert longer[0] == c && longer[|longer| - 1] == x;
  }

  /** What a call finishes, it leads to. */
  lemma {:induction false} DoTraces(g: Graph, c: Call, deep: bool, st: State, depth: nat, x: Call)
    requires g.Valid() && g.Has(c.t) && Do(g, c, deep, st, depth).Some?
    requires x in Do(g, c, deep, st, depth).value.done
    ensures x in st.done || LeadsTo(g, c, x)
    decreases depth, 0
  {
    if !Settled(g, st, c) {
      NeedsValid(g, c);
      if x == c {
        assert CallChain(g, [c]);
      } else {
        DoAllTraces(g, Needs(g, c), deep, st, depth - 1, x);
        if x !in st.done {
          var n :| n in Needs(g, c) && LeadsTo(g, n, x);
          LeadsFirst(g, c, n, x);
        }
      }
    }
  }

  lemma {:induction false} DoAllTraces(g: Graph, cs: seq<Call>, deep: bool, st: State, depth: nat, x: Call)
    requires g.Valid() && (forall c <- cs :: g.Has(c.t)) && DoAll(g, cs, deep, st, depth).Some?
    requires x in DoAll(g, cs, deep, st, depth).value.done
    ensures x in st.done || exists c <- cs :: LeadsTo(g, c, x)
    decreases depth, |cs| + 1
  {
    if cs != [] {
      var st1 := Do(g, cs[0], deep, st, depth).value;
      DoAllTraces(g, cs[1..], deep, st1, depth, x);
      if x in st1.done {
        DoTraces(g, cs[0], deep, st, depth, x);
      }
    }
  }

  lemma {:induction false} ChainFinished(g: Graph, st: State, chain: seq<Call>)
    requires g.Valid() && Ordered(g, st) && CallChain(g, chain) && chain[0] in st.done
    ensures chain[|chain| - 1] in st.done
    decreases |chain|
  {
    if |chain| > 1 {
      var before := chain[..|chain| - 1];
      assert CallChain(g, before) by {
        forall i | 0 <= i < |before| - 1 ensures IsNeeded(g, before[i], before[i + 1]) {
          assert IsNeeded(g, chain[i], chain[i + 1]);
        }
      }
      ChainFinished(g, st, before);
      assert IsNeeded(g, chain[|chain| - 2], chain[|chain| - 1]);
      var k :| 0 <= k < |st.done| && st.done[k] == chain[|chain| - 2];
      assert FinishedInOrder(g, st.done, k);
    }
  }

  /** What a finished call leads to had finished before it. */
  lemma LedToBefore(g: Graph, st: State, k: nat, x: Call)
    requires g.Valid() && Ordered(g, st) && k < |st.done| && LeadsTo(g, st.done[k], x) && x != st.done[k]
    ensures x in st.done[..k]
  {
    var chain :| CallChain(g, chain) && chain[0] == st.done[k] && chain[|chain| - 1] == x;
    ChainBefore(g, st, k, chain, |chain| - 1);
  }

  lemma {:induction false} ChainBefore(g: Graph, st: State, k: nat, chain: seq<Call>, n: nat)
    requires g.Valid() && Ordered(g, st) && k < |st.done| && CallChain(g, chain) && chain[0] == st.done[k]
    requires 0 < n < |chain|
    ensures chain[n] in st.done[..k]
    decreases n
  {
    assert IsNeeded(g, chain[n - 1], chain[n]) && g.Has(chain[n].t) && !Skips(g, chain[n]);
    if n == 1 {
      assert FinishedInOrder(g, st.done, k);
    } else {
      ChainBefore(g, st, k, chain, n - 1);
      var j :| 0 <= j < k && st.done[..k][j] == chain[n - 1];
      assert st.done[j] == chain[n - 1] && FinishedInOrder(g, st.done, j);
      var i :| 0 <= i < j && st.done[..j][i] == chain[n];
      assert st.done[..k][i] == chain[n];
    }
  }

  /** A run that returns has finished exactly the calls that the ones asked for lead to. */
  lemma FinishedIff(g: Graph, cs: seq<Call>, deep: bool, depth: nat, x: Call)
    requires g.Valid() && (forall c <- cs :: g.Has(c.t)) && DoAll(g, cs, deep, START, depth).Some?
    ensures x in DoAll(g, cs, deep, START, depth).value.done <==> exists c <- cs :: LeadsTo(g, c, x)
  {
    var st := DoAll(g, cs, deep, START, depth).value;
    if x in st.done {
      DoAllTraces(g, cs, deep, START, depth, x);
    }
    if c :| c in cs && LeadsTo(g, c, x) {
      DoAllKeepsOrder(g, cs, deep, START, depth);
      var chain :| CallChain(g, chain) && chain[0] == c && chain[|chain| - 1] == x;
      ChainFinished(g, st, chain);
    }
  }

  /** A run that leads to a call that raises does not return. */
  lemma LeadsToException(g: Graph, cs: seq<Call>, deep: bool, depth: nat, chain: seq<Call>)
    requires g.Valid() && (forall c <- cs :: g.Has(c.t)) && CallChain(g, chain) && chain[0] in cs
    requires Raises(g, chain[|chain| - 1])
    ensures DoAll(g, cs, deep, START, depth).None?
  {
    if DoAll(g, cs, deep, START, depth).Some? {
      var st, x := DoAll(g, cs, deep, START, depth).value, chain[|chain| - 1];
      DoAllKeepsOrder(g, cs, deep, START, depth);
      forall k | 0 <= k < |st.done| ensures st.done[k] != x {
        assert FinishedInOrder(g, st.done, k);
      }
      assert LeadsTo(g, chain[0], x);
      FinishedIff(g, cs, deep, depth, x);
    }
  }

  /** What leads further than itself, leads to something that needs the end. */
  lemma LeadsThrough(g: Graph, c: Call, x: Call) returns (d: Call)
    requires g.Valid() && LeadsTo(g, c, x) && c != x
    ensures LeadsTo(g, c, d) && g.Has(d.t) && IsNeeded(g, d, x)
  {
    var chain :| CallChain(g, chain) && chain[0] == c && chain[|chain| - 1] == x;
    d := chain[|chain| - 2];
    var before := chain[..|chain| - 1];
    forall i | 0 <= i < |before| - 1
      ensures IsNeeded(g, before[i], before[i + 1])
    {
      assert before[i] == chain[i] && before[i + 1] == chain[i + 1] && IsNeeded(g, chain[i], chain[i + 1]);
    }
    assert IsNeeded(g, chain[|chain| - 2], chain[|chain| - 1]);
    assert CallChain(g, before) && before[0] == c && before[|before| - 1] == d;
  }

  lemma NeededIsDone(g: Graph, st: State, d: Call, x: Call)
    requires g.Valid() && Ordered(g, st) && d in st.done && g.Has(x.t) && !Skips(g, x)
    ensures g.Has(d.t) && (IsNeeded(g, d, x) ==> x in st.done)
  {
    var k :| 0 <= k < |st.done| && st.done[k] == d;
    assert FinishedInOrder(g, st.done, k);
  }

  /** So a call has finished exactly when it was asked for, or a finished call needed it. */
  lemma AskedOrNeeded(g: Graph, cs: seq<Call>, deep: bool, depth: nat, x: Call)
    requires g.Valid() && (forall c <- cs :: g.Has(c.t)) && DoAll(g, cs, deep, START, depth).Some?
    requires g.Has(x.t) && !Skips(g, x)
    ensures
      var done := DoAll(g, cs, deep, START, depth).value.done;
      && (forall d <- done :: g.Has(d.t))
      && (x in done <==> x in cs || exists d <- done :: IsNeeded(g, d, x))
  {
    var st := DoAll(g, cs, deep, START, depth).value;
    DoAllKeepsOrder(g, cs, deep, START, depth);
    forall d | d in st.done
      ensures g.Has(d.t) && (IsNeeded(g, d, x) ==> x in st.done)
    {
      NeededIsDone(g, st, d, x);
    }
    if x in st.done {
      FinishedIff(g, cs, deep, depth, x);
      var c :| c in cs && LeadsTo(g, c, x);
      if c != x {
        var d := LeadsThrough(g, c, x);
        FinishedIff(g, cs, deep, depth, d);
      }
    }
  }

  // ----- Names first -----

  /** A call that is not settled ends after the calls it needs. */
  lemma DoUnfolds(g: Graph, c: Call, deep: bool, st: State, depth: nat)
    requires g.Valid() && g.Has(c.t) && !Settled(g, st, c) && Do(g, c, deep, st, depth).Some?
    ensures depth > 0 && (forall n <- Needs(g, c) :: g.Has(n.t))
    ensures DoAll(g, Needs(g, c), deep, st, depth - 1).Some?
    ensures Do(g, c, deep, st, depth).value == Finish(g, c, deep, DoAll(g, Needs(g, c), deep, st, depth - 1).value)
  {
    NeedsValid(g, c);
  }

  lemma {:induction false} DoGrows(g: Graph, c: Call, deep: bool, st: State, depth: nat)
    requires g.Valid() && g.Has(c.t) && Do(g, c, deep, st, depth).Some?
    ensures st.done <= Do(g, c, deep, st, depth).value.done
    decreases depth, 0
  {
    if !Settled(g, st, c) {
      DoUnfolds(g, c, deep, st, depth);
      DoAllGrows(g, Needs(g, c), deep, st, depth - 1);
    }
  }

  lemma {:induction false} DoAllGrows(g: Graph, cs: seq<Call>, deep: bool, st: State, depth: nat)
    requires g.Valid() && (forall c <- cs :: g.Has(c.t)) && DoAll(g, cs, deep, st, depth).Some?
    ensures st.done <= DoAll(g, cs, deep, st, depth).value.done
    decreases depth, |cs| + 1
  {
    if cs != [] {
      DoGrows(g, cs[0], deep, st, depth);
      DoAllGrows(g, cs[1..], deep, Do(g, cs[0], deep, st, depth).value, depth);
    }
  }

  /** Declaring something for which nothing else has to be done. */
  function Declared(st: State, t: Type): State {
    if t in st.declared then st else st.(declared := st.declared + {t}, done := st.done + [Declare(t)])
  }

  lemma DeclaresRecord(g: Graph, t: Type, deep: bool, st: State, depth: nat)
    requires g.Valid() && g.Has(t) && g.kinds[t].Record? && Do(g, Declare(t), deep, st, depth).Some?
    ensures Do(g, Declare(t), deep, st, depth).value == Declared(st, t)
  {
    assert g.ValidKind(t);
    if t !in st.declared {
      DoUnfolds(g, Declare(t), deep, st, depth);
      assert Needs(g, Declare(t)) == [];
    }
  }

  lemma DeclaresTypedef(g: Graph, t: Type, b: Type, deep: bool, st: State, depth: nat)
    requires g.Valid() && g.Has(t) && g.kinds[t] == Typedef(Some(b)) && g.Has(b) && b in st.declared
    requires Do(g, Declare(t), deep, st, depth).Some?
    ensures Do(g, Declare(t), deep, st, depth).value == Declared(st, t)
  {
    assert g.ValidKind(t);
    if t !in st.declared {
      DoUnfolds(g, Declare(t), deep, st, depth);
      assert Needs(g, Declare(t)) == [Declare(b)];
      DoAllOne(g, Declare(b), deep, st, depth - 1);
    }
  }

  /** A record that is defined first declares itself, before it defines anything else: whatever was not
      done before comes after its name. */
  lemma RecordNameFirst(g: Graph, t: Type, deep: bool, st: State, depth: nat)
    requires g.Valid() && g.Has(t) && g.kinds[t].Record? && !g.kinds[t].declaration
    requires !Settled(g, st, Define(t)) && Do(g, Define(t), deep, st, depth).Some?
    ensures Declared(st, t).done <= Do(g, Define(t), deep, st, depth).value.done
  {
    assert g.ValidKind(t);
    FirstNeed(g, Define(t), Declare(t), DefineAll(FieldTypes(g.kinds[t].fields)), deep, st, depth);
    DeclaresRecord(g, t, deep, st, depth - 1);
  }

  /** What is needed first comes before whatever else is done. */
  lemma FirstNeed(g: Graph, c: Call, n: Call, rest: seq<Call>, deep: bool, st: State, depth: nat)
    requires g.Valid() && g.Has(c.t) && g.ValidKind(c.t) && Needs(g, c) == [n] + rest
    requires g.Has(n.t) && (forall x <- rest :: g.Has(x.t))
    requires !Settled(g, st, c) && Do(g, c, deep, st, depth).Some?
    ensures depth > 0 && Do(g, n, deep, st, depth - 1).Some?
    ensures Do(g, n, deep, st, depth - 1).value.done <= Do(g, c, deep, st, depth).value.done
  {
    DoUnfolds(g, c, deep, st, depth);
    DoAllCons(g, n, rest, deep, st, depth - 1);
    DoAllGrows(g, rest, deep, Do(g, n, deep, st, depth - 1).value, depth - 1);
  }

  /** A typedef of a record is declared right after the record, and before the record is defined. */
  lemma TypedefNameFirst(g: Graph, t: Type, b: Type, deep: bool, st: State, depth: nat)
    requires g.Valid() && g.Has(t) && g.kinds[t] == Typedef(Some(b)) && g.Has(b) && g.kinds[b].Record?
    requires !Settled(g, st, Define(t)) && Do(g, Define(t), deep, st, depth).Some?
    ensures Declared(Declared(st, b), t).done <= Do(g, Define(t), deep, st, depth).value.done
  {
    assert g.ValidKind(t);
    DoUnfolds(g, Define(t), deep, st, depth);
    assert Needs(g, Define(t)) == [Declare(b), Declare(t), Define(b)];
    DoAllThree(g, Declare(b), Declare(t), Define(b), deep, st, depth - 1);
    DeclaresRecord(g, b, deep, st, depth - 1);
    DeclaresTypedef(g, t, b, deep, Declared(st, b), depth - 1);
    DoGrows(g, Define(b), deep, Declared(Declared(st, b), t), depth - 1);
  }

  // ----- Success -----

  /** Types are marked as defined only when their definition succeeded. */
  predicate Sound(g: Graph, st: State)
    requires g.Valid()
  {
    forall t <- st.defined :: g.Has(t) && Succeeds(g, t, st)
  }

  lemma SucceedsStays(g: Graph, t: Type, st: State, st': State)
    requires g.Valid() && g.Has(t) && st.defined <= st'.defined && Succeeds(g, t, st)
    ensures Succeeds(g, t, st')
  {
  }

  lemma FinishKeepsSound(g: Graph, c: Call, deep: bool, st: State)
    requires g.Valid() && g.Has(c.t) && Sound(g, st)
    ensures Sound(g, Finish(g, c, deep, st)) && st.defined <= Finish(g, c, deep, st).defined
  {
    var st' := Finish(g, c, deep, st);
    forall t | t in st'.defined
      ensures g.Has(t) && Succeeds(g, t, st')
    {
      SucceedsStays(g, t, st, st');
    }
  }

  lemma {:induction false} DoKeepsSound(g: Graph, c: Call, deep: bool, st: State, depth: nat)
    requires g.Valid() && g.Has(c.t) && Sound(g, st) && Do(g, c, deep, st, depth).Some?
    ensures var st' := Do(g, c, deep, st, depth).value; Sound(g, st') && st.defined <= st'.defined
    decreases depth, 0
  {
    if !Settled(g, st, c) {
      NeedsValid(g, c);
      DoAllKeepsSound(g, Needs(g, c), deep, st, depth - 1);
      FinishKeepsSound(g, c, deep, DoAll(g, Needs(g, c), deep, st, depth - 1).value);
    }
  }

  lemma {:induction false} DoAllKeepsSound(g: Graph, cs: seq<Call>, deep: bool, st: State, depth: nat)
    requires g.Valid() && (forall c <- cs :: g.Has(c.t)) && Sound(g, st) && DoAll(g, cs, deep, st, depth).Some?
    ensures var st' := DoAll(g, cs, deep, st, depth).value; Sound(g, st') && st.defined <= st'.defined
    decreases depth, |cs| + 1
  {
    if cs != [] {
      DoKeepsSound(g, cs[0], deep, st, depth);
      DoAllKeepsSound(g, cs[1..], deep, Do(g, cs[0], deep, st, depth).value, depth);
    }
  }

  /** Types that have been through their definition are marked exactly if they complete. */
  ghost predicate Marked(g: Graph, st: State)
    requires g.Valid()
  {
    forall t: Type :: Define(t) in st.done && g.Has(t) && !g.void[t] ==> (t in st.defined <==> Completes(g, t))
  }

  /** A type that stands for another completes with it. */
  lemma CompletesWith(g: Graph, t: Type, u: Type)
    requires g.Valid() && g.Has(t) && g.Has(u) && !g.void[t]
    requires
      match g.kinds[t]
      case Typedef(b) => b == Some(u)
      case Modifier(_, b) => b == Some(u)
      case Array(b) => b == u && !g.void[u]
      case _ => false
    ensures Completes(g, t) <==> Completes(g, u)
  {
    assert g.ValidKind(t);
    if depth: nat :| CompletesIn(g, t, depth) {
      assert CompletesIn(g, u, depth - 1);
    }
    if depth: nat :| CompletesIn(g, u, depth) {
      assert CompletesIn(g, t, depth + 1);
    }
  }

  lemma CompletesAtOnce(g: Graph, t: Type)
    requires g.Valid() && g.Has(t) && !g.void[t]
    ensures !g.kinds[t].Typedef? && !g.kinds[t].Modifier? && !g.kinds[t].Array? ==>
      (Completes(g, t) <==> !(g.kinds[t].Record? && g.kinds[t].declaration))
    ensures g.kinds[t].Array? && g.Has(g.kinds[t].element) && g.void[g.kinds[t].element] ==> Completes(g, t)
  {
    assert g.ValidKind(t);
    if !g.kinds[t].Typedef? && !g.kinds[t].Modifier? && !(g.kinds[t].Record? && g.kinds[t].declaration)
       && (g.kinds[t].Array? ==> g.void[g.kinds[t].element]) {
      assert CompletesIn(g, t, 1);
    }
  }

  lemma SucceedsIffCompletes(g: Graph, t: Type, st: State)
    requires g.Valid() && g.Has(t) && !g.void[t] && Marked(g, st)
    requires forall n <- Needs(g, Define(t)) :: g.Has(n.t) && (Skips(g, n) || n in st.done)
    requires st.defined <= set c <- st.done | c.Define? :: c.t
    ensures Succeeds(g, t, st) <==> Completes(g, t)
  {
    assert g.ValidKind(t);
    CompletesAtOnce(g, t);
    match g.kinds[t]
    case Typedef(b) =>
      assert Define(b.value) in Needs(g, Define(t));
      CompletesWith(g, t, b.value);
    case Modifier(_, b) =>
      assert Define(b.value) in Needs(g, Define(t));
      CompletesWith(g, t, b.value);
    case Array(b) =>
      assert Define(b) in Needs(g, Define(t));
      if !g.void[b] {
        CompletesWith(g, t, b);
      }
    case _ =>
  }

  /** So when a record asks whether the type of a field is defined, the answer is whether it completes. */
  lemma {:induction false} DoMarks(g: Graph, c: Call, deep: bool, st: State, depth: nat)
    requires g.Valid() && g.Has(c.t) && Ordered(g, st) && Marked(g, st) && Do(g, c, deep, st, depth).Some?
    ensures Marked(g, Do(g, c, deep, st, depth).value)
    decreases depth, 0
  {
    if !Settled(g, st, c) {
      NeedsValid(g, c);
      DoAllMarks(g, Needs(g, c), deep, st, depth - 1);
      DoAllKeepsOrder(g, Needs(g, c), deep, st, depth - 1);
      if c.Define? {
        SucceedsIffCompletes(g, c.t, DoAll(g, Needs(g, c), deep, st, depth - 1).value);
      }
    }
  }

  lemma {:induction false} DoAllMarks(g: Graph, cs: seq<Call>, deep: bool, st: State, depth: nat)
    requires g.Valid() && (forall c <- cs :: g.Has(c.t)) && Ordered(g, st) && Marked(g, st)
    requires DoAll(g, cs, deep, st, depth).Some?
    ensures Marked(g, DoAll(g, cs, deep, st, depth).value)
    decreases depth, |cs| + 1
  {
    if cs != [] {
      DoMarks(g, cs[0], deep, st, depth);
      DoKeepsOrder(g, cs[0], deep, st, depth);
      DoAllMarks(g, cs[1..], deep, Do(g, cs[0], deep, st, depth).value, depth);
    }
  }

  // ----- At most once -----

  /** A call finishes no call of higher rank, and none of its own rank but itself. */
  lemma {:induction false} DoStaysBelow(g: Graph, rank: map<Call, nat>, c: Call, deep: bool, st: State, depth: nat, x: Call)
    requires g.Valid() && g.Has(c.t) && Ranks(g, rank) && (Skips(g, c) || c in rank)
    requires Do(g, c, deep, st, depth).Some? && x in rank
    requires !Skips(g, c) ==> rank[x] > rank[c] || (rank[x] == rank[c] && x != c)
    ensures g.Has(x.t)
    ensures
      var st' := Do(g, c, deep, st, depth).value;
      (x in st'.done <==> x in st.done) && (Settled(g, st', x) <==> Settled(g, st, x))
    decreases depth, 0
  {
    assert RankedCall(g, rank, x);
    if !Settled(g, st, c) {
      NeedsRanked(g, rank, c);
      DoAllStaysBelow(g, rank, Needs(g, c), deep, st, depth - 1, x);
    }
  }

  lemma {:induction false} DoAllStaysBelow(g: Graph, rank: map<Call, nat>, cs: seq<Call>, deep: bool, st: State, depth: nat, x: Call)
    requires g.Valid() && (forall c <- cs :: g.Has(c.t)) && Ranks(g, rank)
    requires DoAll(g, cs, deep, st, depth).Some? && x in rank
    requires forall c <- cs :: Skips(g, c) || (c in rank && rank[c] < rank[x])
    ensures g.Has(x.t)
    ensures
      var st' := DoAll(g, cs, deep, st, depth).value;
      (x in st'.done <==> x in st.done) && (Settled(g, st', x) <==> Settled(g, st, x))
    decreases depth, |cs| + 1
  {
    assert RankedCall(g, rank, x);
    if cs != [] {
      DoStaysBelow(g, rank, cs[0], deep, st, depth, x);
      DoAllStaysBelow(g, rank, cs[1..], deep, Do(g, cs[0], deep, st, depth).value, depth, x);
    }
  }

  /** Calls that are marked whenever they finish.  All calls that write something are among them. */
  predicate AlwaysMarked(g: Graph, c: Call)
    requires g.Has(c.t)
  {
    c.Declare? ||
    match g.kinds[c.t]
    case Record(_, declaration) => !declaration
    case Typedef(_) => false
    case Modifier(_, _) => false
    case Array(_) => false
    case _ => true
  }

  ghost predicate Once(g: Graph, st: State)
    requires g.Valid()
  {
    && (forall c <- st.done :: g.Has(c.t) && (AlwaysMarked(g, c) ==> Settled(g, st, c)))
    && (forall i, j :: 0 <= i < j < |st.done| && AlwaysMarked(g, st.done[i]) ==> st.done[i] != st.done[j])
  }

  lemma FinishKeepsOnce(g: Graph, c: Call, deep: bool, st: State)
    requires g.Valid() && g.Has(c.t) && Once(g, st) && (AlwaysMarked(g, c) ==> c !in st.done)
    ensures Once(g, Finish(g, c, deep, st))
  {
    var st' := Finish(g, c, deep, st);
    assert forall x <- st'.done :: x in st.done || x == c;
  }

  lemma {:induction false} DoKeepsOnce(g: Graph, rank: map<Call, nat>, c: Call, deep: bool, st: State, depth: nat)
    requires g.Valid() && g.Has(c.t) && Ranks(g, rank) && (Skips(g, c) || c in rank)
    requires Do(g, c, deep, st, depth).Some? && Once(g, st)
    ensures Once(g, Do(g, c, deep, st, depth).value)
    decreases depth, 0
  {
    if !Settled(g, st, c) {
      assert RankedCall(g, rank, c);
      NeedsValid(g, c);
      DoAllKeepsOnce(g, rank, Needs(g, c), deep, st, depth - 1);
      DoAllStaysBelow(g, rank, Needs(g, c), deep, st, depth - 1, c);
      FinishKeepsOnce(g, c, deep, DoAll(g, Needs(g, c), deep, st, depth - 1).value);
    }
  }

  lemma {:induction false} DoAllKeepsOnce(g: Graph, rank: map<Call, nat>, cs: seq<Call>, deep: bool, st: State, depth: nat)
    requires g.Valid() && (forall c <- cs :: g.Has(c.t)) && Ranks(g, rank)
    requires forall c <- cs :: Skips(g, c) || c in rank
    requires DoAll(g, cs, deep, st, depth).Some? && Once(g, st)
    ensures Once(g, DoAll(g, cs, deep, st, depth).value)
    decreases depth, |cs| + 1
  {
    if cs != [] {
      DoKeepsOnce(g, rank, cs[0], deep, st, depth);
      DoAllKeepsOnce(g, rank, cs[1..], deep, Do(g, cs[0], deep, st, depth).value, depth);
    }
  }

  // ----- The statements -----

  datatype Statement =
    | ClassStatement(t: Type)
    | FieldsStatement(t: Type)
    | AliasStatement(t: Type)
    | EnumStatement(t: Type)

  /** What a call writes when it finishes. */
  function Written(g: Graph, c: Call): seq<Statement>
    requires g.Has(c.t)
  {
    match g.kinds[c.t]
    case Record(_, declaration) =>
      if c.Declare? then [ClassStatement(c.t)] else if declaration then [] else [FieldsStatement(c.t)]
    case Typedef(_) => if c.Declare? then [AliasStatement(c.t)] else []
    case Enumeration(_, _) => if c.Declare? then [] else [EnumStatement(c.t)]
    case _ => []
  }

  function Output(g: Graph, done: seq<Call>): seq<Statement>
    requires forall c <- done :: g.Has(c.t)
  {
    if done == [] then [] else Output(g, done[..|done| - 1]) + Written(g, done[|done| - 1])
  }

  lemma OutputSplit(o: seq<Statement>, w: seq<Statement>, i: nat)
    requires i < |o + w| && |w| <= 1
    ensures i < |o| ==> (o + w)[..i] == o[..i] && (o + w)[i] == o[i]
    ensures i >= |o| ==> (o + w)[..i] == o && w == [(o + w)[i]]
  {
  }

  lemma {:induction false} OutputWhere(g: Graph, done: seq<Call>, i: nat) returns (k: nat)
    requires (forall c <- done :: g.Has(c.t)) && i < |Output(g, done)|
    ensures k < |done| && Written(g, done[k]) == [Output(g, done)[i]]
    ensures Output(g, done)[..i] == Output(g, done[..k])
  {
    var before := done[..|done| - 1];
    var o, w := Output(g, before), Written(g, done[|done| - 1]);
    OutputSplit(o, w, i);
    if i < |o| {
      k := OutputWhere(g, before, i);
      assert before[..k] == done[..k] && before[k] == done[k];
    } else {
      k := |done| - 1;
    }
  }

  lemma {:induction false} OutputHas(g: Graph, done: seq<Call>, c: Call, s: Statement)
    requires (forall x <- done :: g.Has(x.t)) && c in done && Written(g, c) == [s]
    ensures s in Output(g, done)
  {
    if done[|done| - 1] != c {
      OutputHas(g, done[..|done| - 1], c, s);
    }
  }

  lemma WritesAreMarked(g: Graph, c: Call)
    requires g.Has(c.t) && Written(g, c) != []
    ensures AlwaysMarked(g, c)
  {
  }

  /** The statements of calls that finish once are distinct. */
  lemma OutputDistinct(g: Graph, done: seq<Call>, i: nat, j: nat)
    requires (forall c <- done :: g.Has(c.t)) && i < j < |Output(g, done)|
    requires forall k, l :: 0 <= k < l < |done| && AlwaysMarked(g, done[k]) ==> done[k] != done[l]
    ensures Output(g, done)[i] != Output(g, done)[j]
  {
    var k := OutputWhere(g, done, i);
    var l := OutputWhere(g, done, j);
    assert i == |Output(g, done[..k])| && j == |Output(g, done[..l])|;
    if Output(g, done)[i] == Output(g, done)[j] {
      WritesAreMarked(g, done[k]);
      WritesAreMarked(g, done[l]);
      SameWrites(g, done[k], done[l]);
    }
  }

  lemma SameWrites(g: Graph, c: Call, c': Call)
    requires g.Has(c.t) && g.Has(c'.t) && Written(g, c) == Written(g, c') != []
    ensures c == c'
  {
  }

  /** A class statement, a field list, an alias and an enumeration are each written at most once. */
  lemma WrittenOnce(g: Graph, cs: seq<Call>, deep: bool, depth: nat)
    requires g.Valid() && (forall c <- cs :: g.Has(c.t)) && DoAll(g, cs, deep, START, depth).Some?
    ensures
      var done := DoAll(g, cs, deep, START, depth).value.done;
      && (forall c <- done :: g.Has(c.t))
      && forall i, j :: 0 <= i < j < |Output(g, done)| ==> Output(g, done)[i] != Output(g, done)[j]
  {
    ReturnsIffRanked(g, cs, deep);
    var rank :| Ranks(g, rank) && forall c <- cs :: Skips(g, c) || c in rank;
    DoAllKeepsOnce(g, rank, cs, deep, START, depth);
    var done := DoAll(g, cs, deep, START, depth).value.done;
    forall i, j | 0 <= i < j < |Output(g, done)|
      ensures Output(g, done)[i] != Output(g, done)[j]
    {
      OutputDistinct(g, done, i, j);
    }
  }
}
