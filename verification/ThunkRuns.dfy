/**
 What every run of the PRE-mock thunk does, proved of the abstract machine of `ShadowThunk`
 and inherited by the three processors through their refinement.
 */
module ThunkRuns {
  import opened ShadowThunk

  // ----- Transparency: the calls of a process form a tree -----

  /** A sequence of calls through the GOT slot.  Each call has the caller's registers, the calls
      that CALLBACK1 makes before it returns, the calls that CALLBACK2 makes before it returns,
      and what the two callbacks leave in the registers. */
  datatype Calls =
    | NoCalls
    | OneCall(saved: seq<Word>, kept: seq<Word>, sp: Word, ret: Word,
              before: Calls, junk1: seq<Word>, junk2: seq<Word>,
              during: Calls, result: seq<Word>, junk3: seq<Word>,
              next: Calls)
  {
    predicate Fits(arch: Arch) {
      OneCall? ==>
        && |saved| == arch.saved && |kept| == arch.kept
        && before.Fits(arch) && during.Fits(arch) && next.Fits(arch)
    }

    /** What the callbacks leave has as many words as the processor has registers for it. */
    predicate Shaped(results: nat, junk: nat) {
      OneCall? ==>
        && |junk1| == results && |junk2| == junk && |result| == results && |junk3| == junk
        && before.Shaped(results, junk) && during.Shaped(results, junk) && next.Shaped(results, junk)
    }

    /** Has the slot been resolved once CALLBACK1 of the first call is done?  A call nested in
        CALLBACK1 resolves it. */
    predicate BoundAfterFirst(bound: bool)
      requires OneCall?
    {
      bound || before.OneCall?
    }
  }

  function Max(a: nat, b: nat): nat { if a < b then b else a }

  /** Calls made while the slot holds the resolved function do not reach the thunk. */
  function DirectEvents(cs: Calls): seq<Event> {
    match cs
    case NoCalls => []
    case OneCall(saved, kept, sp, ret, _, _, _, during, _, _, next) =>
      [Call(saved, kept, sp, ret)] + (DirectEvents(during) + DirectEvents(next))
  }

  function DirectLog(link: Link, cs: Calls): seq<Observation> {
    match cs
    case NoCalls => []
    case OneCall(_, _, _, _, _, _, _, during, _, _, next) =>
      [Direct(link.resolved)] + (DirectLog(link, during) + DirectLog(link, next))
  }

  /** What the process does to carry out the calls. */
  function Events(cs: Calls, bound: bool): seq<Event>
    decreases cs, 0
  {
    match cs
    case NoCalls => []
    case OneCall(saved, kept, sp, ret, before, j1, j2, during, result, j3, next) =>
      [Call(saved, kept, sp, ret)] + (Events(before, bound)
      + ([Return(j1, j2)] + (InSecondEvents(during, cs.BoundAfterFirst(bound))
      + ([Return(result, j3)] + Events(next, true)))))
  }

  function InSecondEvents(during: Calls, bound: bool): seq<Event>
    decreases during, 1
  {
    if bound then Events(during, true) else DirectEvents(during)
  }

  lemma {:induction false} DirectShaped(arch: Arch, results: nat, junk: nat, cs: Calls)
    requires cs.Fits(arch) && cs.Shaped(results, junk)
    ensures forall e <- DirectEvents(cs) :: e.Shaped(arch, results, junk)
  {
    if cs.OneCall? {
      DirectShaped(arch, results, junk, cs.during);
      DirectShaped(arch, results, junk, cs.next);
    }
  }

  /** The events of calls that suit a processor suit it. */
  lemma {:induction false} EventsShaped(arch: Arch, results: nat, junk: nat, cs: Calls, bound: bool)
    requires cs.Fits(arch) && cs.Shaped(results, junk)
    ensures forall e <- Events(cs, bound) :: e.Shaped(arch, results, junk)
  {
    if cs.OneCall? {
      EventsShaped(arch, results, junk, cs.before, bound);
      EventsShaped(arch, results, junk, cs.during, true);
      DirectShaped(arch, results, junk, cs.during);
      EventsShaped(arch, results, junk, cs.next, true);
    }
  }

  /** What a transparent interposer shows: each call enters CALLBACK1 once and then CALLBACK2
      once, both with the caller's stack pointer and words, and then the caller resumes at its
      own return address with CALLBACK2's result. */
  function Log(arch: Arch, link: Link, cs: Calls, bound: bool): seq<Observation>
    decreases cs, 0
  {
    match cs
    case NoCalls => []
    case OneCall(saved, kept, sp, ret, before, _, _, during, result, _, next) =>
      var bound1 := cs.BoundAfterFirst(bound);
      [First(sp, saved, kept)] + (Log(arch, link, before, bound)
      + ([Second(if bound1 then link.resolved else link.stub, sp, saved, kept)]
      + (InSecondLog(arch, link, during, bound1)
      + ([Back(ret, sp + arch.popped, result, kept)] + Log(arch, link, next, true)))))
  }

  function InSecondLog(arch: Arch, link: Link, during: Calls, bound: bool): seq<Observation>
    decreases during, 1
  {
    if bound then Log(arch, link, during, true) else DirectLog(link, during)
  }

  /** The thunk stack words the calls need at their deepest point. */
  function Need(arch: Arch, cs: Calls, bound: bool): nat {
    match cs
    case NoCalls => 0
    case OneCall(_, _, _, _, before, _, _, during, _, _, next) =>
      Max(arch.FirstWords() + Need(arch, before, bound),
          Max(if cs.BoundAfterFirst(bound) then arch.SecondWords() + Need(arch, during, true) else 0,
              Need(arch, next, true)))
  }

  /** Ready for a mocked call: bound says whether CALLBACK2 has been resolved. */
  predicate Ready(link: Link, s: State, bound: bool) {
    && s.got == link.thunk && !s.faulted
    && s.second == if bound then link.resolved else link.stub
  }

  lemma {:induction false} DirectRun(arch: Arch, link: Link, s: State, cs: Calls)
    requires link.Valid() && s.got == link.resolved && !s.faulted
    ensures Run(arch, link, s, DirectEvents(cs)) == (s, DirectLog(link, cs))
  {
    if cs.OneCall? {
      DirectRun(arch, link, s, cs.during);
      DirectRun(arch, link, s, cs.next);
      RunAppend(arch, link, s, DirectEvents(cs.during), DirectEvents(cs.next));
      RunFirst(arch, link, s, Call(cs.saved, cs.kept, cs.sp, cs.ret),
               DirectEvents(cs.during) + DirectEvents(cs.next));
    }
  }

  lemma RunFirst(arch: Arch, link: Link, s: State, e: Event, es: seq<Event>)
    ensures
      var (s1, o1) := Next(arch, link, s, e);
      var (s2, o2) := Run(arch, link, s1, es);
      Run(arch, link, s, [e] + es) == (s2, o1 + o2)
  {
    assert ([e] + es)[1..] == es;
  }

  /** Events, what they show, and the thunk stack words in use at their deepest point. */
  datatype Piece = Piece(events: seq<Event>, peak: nat, log: seq<Observation>)

  function Join(p: Piece, q: Piece): Piece {
    Piece(p.events + q.events, Max(p.peak, q.peak), p.log + q.log)
  }

  /** Running the events from s either faults, exactly when the peak exceeds the capacity, or shows
      the log and ends in s'. */
  ghost predicate Shows(arch: Arch, link: Link, s: State, p: Piece, s': State) {
    var r := Run(arch, link, s, p.events);
    && (r.0.faulted <==> p.peak > arch.capacity)
    && (!r.0.faulted ==> r == (s', p.log))
  }

  lemma ShowsJoin(arch: Arch, link: Link, s: State, p: Piece, s1: State, q: Piece, s2: State)
    requires Shows(arch, link, s, p, s1)
    requires p.peak <= arch.capacity ==> Shows(arch, link, s1, q, s2)
    ensures Shows(arch, link, s, Join(p, q), s2)
  {
    RunAppend(arch, link, s, p.events, q.events);
    var r := Run(arch, link, s, p.events);
    if r.0.faulted {
      FaultIsFinal(arch, link, r.0, q.events);
    }
  }

  lemma ShowsThree(arch: Arch, link: Link, s: State, p: Piece, s1: State, q: Piece, s2: State, r: Piece, s3: State)
    requires Shows(arch, link, s, p, s1)
    requires p.peak <= arch.capacity ==> Shows(arch, link, s1, q, s2)
    requires Shows(arch, link, s2, r, s3)
    ensures Shows(arch, link, s, Join(p, Join(q, r)), s3)
  {
    if p.peak <= arch.capacity {
      ShowsJoin(arch, link, s1, q, s2, r, s3);
    }
    ShowsJoin(arch, link, s, p, s1, Join(q, r), s3);
  }

  lemma ShowsStep(arch: Arch, link: Link, s: State, e: Event, peak: nat, log: seq<Observation>, s': State)
    requires Next(arch, link, s, e).0.faulted <==> peak > arch.capacity
    requires peak <= arch.capacity ==> Next(arch, link, s, e) == (s', log)
    ensures Shows(arch, link, s, Piece([e], peak, log), s')
  {
    var r := Next(arch, link, s, e);
    assert Run(arch, link, r.0, []) == (r.0, []);
    assert r.1 + [] == r.1;
    assert [e][1..] == [];
  }

  // The pieces of a call that starts with m words in use: all of it and what follows, and its parts
  // up to the return of CALLBACK1, up to that of CALLBACK2, and from there on.

  function Whole(arch: Arch, link: Link, m: nat, cs: Calls, bound: bool): Piece {
    Piece(Events(cs, bound), m + Need(arch, cs, bound), Log(arch, link, cs, bound))
  }

  function FirstPart(arch: Arch, link: Link, m: nat, cs: Calls, bound: bool): Piece
    requires cs.OneCall?
  {
    Join(Piece([Call(cs.saved, cs.kept, cs.sp, cs.ret)], m + arch.FirstWords(), [First(cs.sp, cs.saved, cs.kept)]),
         Whole(arch, link, m + arch.FirstWords(), cs.before, bound))
  }

  /** What CALLBACK2 does before it returns, mocked or not. */
  function DuringSecond(arch: Arch, link: Link, m: nat, during: Calls, bound: bool): Piece {
    Piece(InSecondEvents(during, bound), if bound then m + Need(arch, during, true) else 0,
          InSecondLog(arch, link, during, bound))
  }

  function SecondPart(arch: Arch, link: Link, m: nat, cs: Calls, bound: bool): Piece
    requires cs.OneCall?
  {
    Join(Piece([Return(cs.junk1, cs.junk2)], 0, [Second(Target(link, cs, bound), cs.sp, cs.saved, cs.kept)]),
         DuringSecond(arch, link, m + arch.SecondWords(), cs.during, cs.BoundAfterFirst(bound)))
  }

  function LastPart(arch: Arch, link: Link, m: nat, cs: Calls): Piece
    requires cs.OneCall?
  {
    Join(Piece([Return(cs.result, cs.junk3)], 0, [Back(cs.ret, cs.sp + arch.popped, cs.result, cs.kept)]),
         Whole(arch, link, m, cs.next, true))
  }

  lemma WholeIsParts(arch: Arch, link: Link, m: nat, cs: Calls, bound: bool)
    requires cs.OneCall?
    ensures Whole(arch, link, m, cs, bound)
         == Join(FirstPart(arch, link, m, cs, bound), Join(SecondPart(arch, link, m, cs, bound), LastPart(arch, link, m, cs)))
  {
    WholeEvents(arch, link, m, cs, bound);
    WholeLog(arch, link, m, cs, bound);
    NeedSplit(arch, cs, bound, m);
  }

  lemma WholeEvents(arch: Arch, link: Link, m: nat, cs: Calls, bound: bool)
    requires cs.OneCall?
    ensures Events(cs, bound) == FirstPart(arch, link, m, cs, bound).events
      + (SecondPart(arch, link, m, cs, bound).events + LastPart(arch, link, m, cs).events)
  {
    EventsSplit(cs, bound);
  }

  lemma WholeLog(arch: Arch, link: Link, m: nat, cs: Calls, bound: bool)
    requires cs.OneCall?
    ensures Log(arch, link, cs, bound) == FirstPart(arch, link, m, cs, bound).log
      + (SecondPart(arch, link, m, cs, bound).log + LastPart(arch, link, m, cs).log)
  {
    LogSplit(arch, link, cs, bound);
  }

  lemma InSecondRun(arch: Arch, link: Link, s: State, cs: Calls, bound: bool)
    requires link.Valid() && !s.faulted && |Image(s.acts)| <= arch.capacity
    requires bound ==> Shows(arch, link, s, Whole(arch, link, |Image(s.acts)|, cs, true), s)
    requires !bound ==> s.got == link.resolved
    ensures Shows(arch, link, s, DuringSecond(arch, link, |Image(s.acts)|, cs, bound), s)
  {
    if !bound {
      DirectRun(arch, link, s, cs);
    }
  }

  // The states a mocked call from s passes through: CALLBACK1 entered, CALLBACK1 about to
  // return, CALLBACK2 entered, and back at the caller.

  function Opened(s: State, cs: Calls): State
    requires cs.OneCall?
  {
    s.(acts := s.acts + [Activation(InFirst, cs.saved, cs.kept, cs.ret, cs.sp)])
  }

  function Target(link: Link, cs: Calls, bound: bool): Word
    requires cs.OneCall?
  {
    if cs.BoundAfterFirst(bound) then link.resolved else link.stub
  }

  function Halfway(link: Link, s: State, cs: Calls, bound: bool): State
    requires cs.OneCall?
  {
    Opened(s, cs).(second := Target(link, cs, bound))
  }

  function Entered(link: Link, s: State, cs: Calls, bound: bool): State
    requires cs.OneCall?
  {
    var target := Target(link, cs, bound);
    s.(acts := s.acts + [Activation(InSecond(target), cs.saved, cs.kept, cs.ret, cs.sp)],
       second := target,
       got := if cs.BoundAfterFirst(bound) then link.thunk else link.resolved)
  }

  function Closed(link: Link, s: State): State { s.(second := link.resolved) }

  lemma FrameSizes(arch: Arch, link: Link, s: State, cs: Calls, bound: bool)
    requires cs.Fits(arch) && cs.OneCall?
    ensures |Image(Opened(s, cs).acts)| == |Image(s.acts)| + arch.FirstWords()
    ensures |Image(Entered(link, s, cs, bound).acts)| == |Image(s.acts)| + arch.SecondWords()
  {
    ImageGrows(s.acts, Activation(InFirst, cs.saved, cs.kept, cs.ret, cs.sp));
    ImageGrows(s.acts, Activation(InSecond(Target(link, cs, bound)), cs.saved, cs.kept, cs.ret, cs.sp));
  }

  lemma StepToSecond(arch: Arch, link: Link, s: State, cs: Calls, bound: bool)
    requires link.Valid() && cs.OneCall? && Ready(link, s, bound)
    ensures Next(arch, link, Halfway(link, s, cs, bound), Return(cs.junk1, cs.junk2))
         == (Entered(link, s, cs, bound), [Second(Target(link, cs, bound), cs.sp, cs.saved, cs.kept)])
  {
    var acts := Halfway(link, s, cs, bound).acts;
    assert acts[..|acts| - 1] == s.acts;
  }

  lemma StepToCaller(arch: Arch, link: Link, s: State, cs: Calls, bound: bool)
    requires link.Valid() && cs.OneCall? && Ready(link, s, bound)
    ensures Next(arch, link, Entered(link, s, cs, bound), Return(cs.result, cs.junk3))
         == (Closed(link, s), [Back(cs.ret, cs.sp + arch.popped, cs.result, cs.kept)])
  {
    var acts := Entered(link, s, cs, bound).acts;
    assert acts[..|acts| - 1] == s.acts;
  }

  /** From the call to CALLBACK1's return. */
  lemma FirstHalf(arch: Arch, link: Link, s: State, cs: Calls, bound: bool)
    requires link.Valid() && cs.Fits(arch) && cs.OneCall? && Ready(link, s, bound)
    requires |Image(s.acts)| <= arch.capacity
    requires |Image(Opened(s, cs).acts)| <= arch.capacity ==>
      Shows(arch, link, Opened(s, cs), Whole(arch, link, |Image(Opened(s, cs).acts)|, cs.before, bound),
            Halfway(link, s, cs, bound))
    ensures Shows(arch, link, s, FirstPart(arch, link, |Image(s.acts)|, cs, bound), Halfway(link, s, cs, bound))
  {
    FrameSizes(arch, link, s, cs, bound);
    var m := |Image(s.acts)| + arch.FirstWords();
    var e, shown := Call(cs.saved, cs.kept, cs.sp, cs.ret), [First(cs.sp, cs.saved, cs.kept)];
    ShowsStep(arch, link, s, e, m, shown, Opened(s, cs));
    ShowsJoin(arch, link, s, Piece([e], m, shown), Opened(s, cs),
              Whole(arch, link, m, cs.before, bound), Halfway(link, s, cs, bound));
  }

  /** From CALLBACK1's return to CALLBACK2's. */
  lemma SecondHalf(arch: Arch, link: Link, s: State, cs: Calls, bound: bool)
    requires link.Valid() && cs.Fits(arch) && cs.OneCall? && Ready(link, s, bound)
    requires |Image(s.acts)| + arch.SecondWords() <= arch.capacity
    requires cs.BoundAfterFirst(bound) ==>
      Shows(arch, link, Entered(link, s, cs, bound),
            Whole(arch, link, |Image(Entered(link, s, cs, bound).acts)|, cs.during, true), Entered(link, s, cs, bound))
    ensures Shows(arch, link, Halfway(link, s, cs, bound), SecondPart(arch, link, |Image(s.acts)|, cs, bound),
                  Entered(link, s, cs, bound))
  {
    FrameSizes(arch, link, s, cs, bound);
    StepToSecond(arch, link, s, cs, bound);
    var m, bound1, s3 := |Image(s.acts)| + arch.SecondWords(), cs.BoundAfterFirst(bound), Entered(link, s, cs, bound);
    var e, shown := Return(cs.junk1, cs.junk2), [Second(Target(link, cs, bound), cs.sp, cs.saved, cs.kept)];
    ShowsStep(arch, link, Halfway(link, s, cs, bound), e, 0, shown, s3);
    InSecondRun(arch, link, s3, cs.during, bound1);
    ShowsJoin(arch, link, Halfway(link, s, cs, bound), Piece([e], 0, shown), s3,
              DuringSecond(arch, link, m, cs.during, bound1), s3);
  }

  /** From CALLBACK2's return to the end of the calls that follow. */
  lemma Tail(arch: Arch, link: Link, s: State, cs: Calls, bound: bool)
    requires link.Valid() && cs.Fits(arch) && cs.OneCall? && Ready(link, s, bound)
    requires Shows(arch, link, Closed(link, s), Whole(arch, link, |Image(s.acts)|, cs.next, true), Closed(link, s))
    ensures Shows(arch, link, Entered(link, s, cs, bound), LastPart(arch, link, |Image(s.acts)|, cs), Closed(link, s))
  {
    StepToCaller(arch, link, s, cs, bound);
    var e, shown := Return(cs.result, cs.junk3), [Back(cs.ret, cs.sp + arch.popped, cs.result, cs.kept)];
    ShowsStep(arch, link, Entered(link, s, cs, bound), e, 0, shown, Closed(link, s));
    ShowsJoin(arch, link, Entered(link, s, cs, bound), Piece([e], 0, shown), Closed(link, s),
              Whole(arch, link, |Image(s.acts)|, cs.next, true), Closed(link, s));
  }

  /** Transparency under any nesting, and the exact stack bound: the run ends in a fault exactly
      when the calls need more words than are free, and otherwise it shows the transparent log and
      leaves the thunk as it was, with CALLBACK2 resolved. */
  lemma {:induction false} Transparent(arch: Arch, link: Link, s: State, cs: Calls, bound: bool)
    requires link.Valid() && cs.Fits(arch) && Ready(link, s, bound)
    requires |Image(s.acts)| <= arch.capacity
    ensures Shows(arch, link, s, Whole(arch, link, |Image(s.acts)|, cs, bound),
                  if cs.NoCalls? then s else Closed(link, s))
    decreases cs
  {
    if cs.OneCall? {
      var m, bound1 := |Image(s.acts)|, cs.BoundAfterFirst(bound);
      FrameSizes(arch, link, s, cs, bound);
      if m + arch.FirstWords() <= arch.capacity {
        Transparent(arch, link, Opened(s, cs), cs.before, bound);
        assert cs.before.NoCalls? ==> Halfway(link, s, cs, bound) == Opened(s, cs);
        assert cs.before.OneCall? ==> Halfway(link, s, cs, bound) == Closed(link, Opened(s, cs));
      }
      FirstHalf(arch, link, s, cs, bound);
      Transparent(arch, link, Closed(link, s), cs.next, true);
      Tail(arch, link, s, cs, bound);
      if m + arch.FirstWords() <= arch.capacity {
        if bound1 {
          Transparent(arch, link, Entered(link, s, cs, bound), cs.during, true);
        }
        SecondHalf(arch, link, s, cs, bound);
      }
      WholeIsParts(arch, link, m, cs, bound);
      ShowsThree(arch, link, s, FirstPart(arch, link, m, cs, bound), Halfway(link, s, cs, bound),
                 SecondPart(arch, link, m, cs, bound), Entered(link, s, cs, bound),
                 LastPart(arch, link, m, cs), Closed(link, s));
    }
  }

  lemma NeedSplit(arch: Arch, cs: Calls, bound: bool, m: nat)
    requires cs.OneCall?
    ensures
      m + Need(arch, cs, bound) ==
        Max(m + arch.FirstWords() + Need(arch, cs.before, bound),
            Max(if cs.BoundAfterFirst(bound) then m + arch.SecondWords() + Need(arch, cs.during, true) else 0,
                m + Need(arch, cs.next, true)))
  {
  }

  lemma EventsSplit(cs: Calls, bound: bool)
    requires cs.OneCall?
    ensures Events(cs, bound)
         == ([Call(cs.saved, cs.kept, cs.sp, cs.ret)] + Events(cs.before, bound))
            + (([Return(cs.junk1, cs.junk2)] + InSecondEvents(cs.during, cs.BoundAfterFirst(bound)))
            + ([Return(cs.result, cs.junk3)] + Events(cs.next, true)))
  {
  }

  lemma LogSplit(arch: Arch, link: Link, cs: Calls, bound: bool)
    requires cs.OneCall?
    ensures Log(arch, link, cs, bound)
         == ([First(cs.sp, cs.saved, cs.kept)] + Log(arch, link, cs.before, bound))
            + (([Second(Target(link, cs, bound), cs.sp, cs.saved, cs.kept)]
               + InSecondLog(arch, link, cs.during, cs.BoundAfterFirst(bound)))
            + ([Back(cs.ret, cs.sp + arch.popped, cs.result, cs.kept)] + Log(arch, link, cs.next, true)))
  {
  }

  // ----- Lazy binding: every reachable state, prefixes included -----

  predicate InStub(link: Link, s: State) {
    s.acts != [] && s.acts[|s.acts| - 1].phase == InSecond(link.stub)
  }

  /** CALLBACK2 is the stub or the resolved function, never the thunk.  While the mock is on, the
      slot holds the thunk, except that it holds the resolved function while the youngest
      activation is inside a stub call; only the youngest can be.  While the mock is off, no
      activation is live. */
  predicate LazyBound(link: Link, s: State) {
    && (s.second == link.stub || s.second == link.resolved)
    && (forall i :: 0 <= i < |s.acts| - 1 ==> s.acts[i].phase != InSecond(link.stub))
    && (InStub(link, s) ==> s.On() && s.second == link.stub && s.got == link.resolved)
    && (s.On() && !InStub(link, s) ==> s.got == link.thunk)
    && (!s.On() ==> s.acts == [] && (s.got == link.stub || s.got == link.resolved))
  }

  /** The mock is switched off, by the disable that gets its count to 0, only while no activation is
      live. */
  predicate DisabledAtRest(arch: Arch, link: Link, s: State, es: seq<Event>)
    decreases |es|
  {
    es == [] ||
    ((es[0].Disable? && s.count == 1 ==> s.acts == []) && DisabledAtRest(arch, link, Next(arch, link, s, es[0]).0, es[1..]))
  }

  /** How often the thunk entered the stub. */
  function StubEntries(link: Link, log: seq<Observation>): nat {
    if log == [] then 0
    else (if log[0].Second? && log[0].target == link.stub then 1 else 0) + StubEntries(link, log[1..])
  }

  /** How often it still can. */
  function StubEntriesLeft(link: Link, s: State): nat {
    if s.second == link.stub && !InStub(link, s) then 1 else 0
  }

  lemma LazyBoundStep(arch: Arch, link: Link, s: State, e: Event)
    requires link.Valid() && LazyBound(link, s)
    requires e.Disable? && s.count == 1 ==> s.acts == []
    ensures LazyBound(link, Next(arch, link, s, e).0)
    ensures StubEntries(link, Next(arch, link, s, e).1) + StubEntriesLeft(link, Next(arch, link, s, e).0)
         <= StubEntriesLeft(link, s)
  {
  }

  lemma {:induction false} StubEntriesAppend(link: Link, a: seq<Observation>, b: seq<Observation>)
    ensures StubEntries(link, a + b) == StubEntries(link, a) + StubEntries(link, b)
  {
    if a == [] {
      assert a + b == b;
    } else {
      assert (a + b)[1..] == a[1..] + b;
      StubEntriesAppend(link, a[1..], b);
    }
  }

  /** Over every run that switches the mock off only at rest, lazy binding keeps its invariant and
      the stub is entered through the thunk at most once, however often the mock is toggled. */
  lemma {:induction false} LazyBinding(arch: Arch, link: Link, s: State, es: seq<Event>)
    requires link.Valid() && LazyBound(link, s) && DisabledAtRest(arch, link, s, es)
    ensures LazyBound(link, Run(arch, link, s, es).0)
    ensures StubEntries(link, Run(arch, link, s, es).1) + StubEntriesLeft(link, Run(arch, link, s, es).0)
         <= StubEntriesLeft(link, s) <= 1
    decreases |es|
  {
    if es != [] {
      var (s1, o1) := Next(arch, link, s, es[0]);
      LazyBoundStep(arch, link, s, es[0]);
      LazyBinding(arch, link, s1, es[1..]);
      StubEntriesAppend(link, o1, Run(arch, link, s1, es[1..]).1);
    }
  }

  /** How many returns it takes for every live activation to end. */
  function ReturnsLeft(acts: seq<Activation>): nat {
    if acts == [] then 0
    else ReturnsLeft(acts[..|acts| - 1]) + if acts[|acts| - 1].phase.InFirst? then 2 else 1
  }

  lemma UnwindingStep(arch: Arch, link: Link, s: State, e: Event)
    requires !s.faulted && e.Return? && s.acts != []
    ensures
      var s' := Next(arch, link, s, e).0;
      && ReturnsLeft(s'.acts) == ReturnsLeft(s.acts) - 1
      && s'.count == s.count && !s'.faulted
      && (s'.acts == [] ==> s'.got == link.thunk)
  {
    var outer, top := s.acts[..|s.acts| - 1], s.acts[|s.acts| - 1];
    assert (outer + [top.(phase := InSecond(s.second))])[..|outer|] == outer;
  }

  lemma {:induction false} Unwinding(arch: Arch, link: Link, s: State, es: seq<Event>)
    requires !s.faulted && (forall e <- es :: e.Return?) && |es| == ReturnsLeft(s.acts)
    ensures
      var s' := Run(arch, link, s, es).0;
      s'.acts == [] && s'.count == s.count && s'.got == if s.acts == [] then s.got else link.thunk
    decreases |es|
  {
    if s.acts != [] {
      UnwindingStep(arch, link, s, es[0]);
      Unwinding(arch, link, Next(arch, link, s, es[0]).0, es[1..]);
    }
  }

  /** Switching the mock off lasts exactly when no activation is live: otherwise the repair that
      ends an activation takes the restored slot for the linker's work and puts the thunk back. */
  lemma DisableInFlight(arch: Arch, link: Link, s: State, es: seq<Event>)
    requires link.Valid() && s.count == 1 && !s.faulted
    requires (forall e <- es :: e.Return?) && |es| == ReturnsLeft(s.acts)
    ensures
      var s' := Run(arch, link, s, [Disable] + es).0;
      && s'.acts == [] && s'.count == 0
      && (s'.got == link.original <==> s.acts == [])
      && (s'.got == link.thunk <==> s.acts != [])
  {
    RunFirst(arch, link, s, Disable, es);
    Unwinding(arch, link, Next(arch, link, s, Disable).0, es);
  }

  /** A state with one call inside CALLBACK1, of a mock that is enabled once. */
  predicate OneInFlight(link: Link, s: State) {
    && link == Link(1000, 1, 1, 2)
    && s == State([Activation(InFirst, [], [], 7, 8)], 1, 1000, 1, false)
  }

  /** Its callback disables the mock: when the call is over the slot holds the thunk again, though the
      mock is off, so that the next call is still mocked. */
  lemma DisableInFlightUndone(arch: Arch, link: Link, s: State)
    requires OneInFlight(link, s)
    ensures link.Valid()
    ensures
      var s' := Run(arch, link, s, [Disable, Return([], []), Return([], [])]).0;
      s'.acts == [] && !s'.On() && s'.got == link.thunk
  {
    assert s.acts[..0] == [];
    assert [Disable] + [Return([], []), Return([], [])] == [Disable, Return([], []), Return([], [])];
    DisableInFlight(arch, link, s, [Return([], []), Return([], [])]);
  }

  // ----- Room -----

  /** The thunk stack never outgrows its page, and a mocked call faults exactly when the frames
      of the live activations leave no room for one more first-phase frame. */
  lemma RoomKept(arch: Arch, link: Link, s: State, e: Event)
    requires s.Fits(arch) && e.Fits(arch) && |Image(s.acts)| <= arch.capacity && !s.faulted
    ensures
      var s' := Next(arch, link, s, e).0;
      && s'.Fits(arch) && |Image(s'.acts)| <= arch.capacity
      && (s'.faulted <==> e.Call? && s.got == link.thunk && WordsInUse(arch, s.acts) + arch.FirstWords() > arch.capacity)
  {
    ImageLength(arch, s.acts);
    if e.Call? && s.got == link.thunk {
      RoomOnCall(arch, link, s, e);
    } else if e.Return? && s.acts != [] {
      RoomOnReturn(arch, link, s, e);
    } else {
      RoomOtherwise(arch, link, s, e);
    }
  }

  lemma RoomOnCall(arch: Arch, link: Link, s: State, e: Event)
    requires s.Fits(arch) && e.Fits(arch) && |Image(s.acts)| <= arch.capacity && !s.faulted
    requires e.Call? && s.got == link.thunk
    ensures
      var s' := Next(arch, link, s, e).0;
      && s'.Fits(arch) && |Image(s'.acts)| <= arch.capacity
      && (s'.faulted <==> |Image(s.acts)| + arch.FirstWords() > arch.capacity)
  {
    CallStep(arch, link, s, e);
    RoomAfterCall(arch, s.acts, Activation(InFirst, e.saved, e.kept, e.ret, e.sp));
  }

  lemma RoomOtherwise(arch: Arch, link: Link, s: State, e: Event)
    requires !s.faulted && !(e.Call? && s.got == link.thunk) && !(e.Return? && s.acts != [])
    ensures var s' := Next(arch, link, s, e).0; s'.acts == s.acts && !s'.faulted
  {
  }

  lemma RoomOnReturn(arch: Arch, link: Link, s: State, e: Event)
    requires s.Fits(arch) && e.Return? && s.acts != [] && !s.faulted
    ensures
      var s' := Next(arch, link, s, e).0;
      s'.Fits(arch) && |Image(s'.acts)| <= |Image(s.acts)| && !s'.faulted
  {
    RoomAfterReturn(arch, s.acts, s.second);
  }

  lemma RoomAfterCall(arch: Arch, acts: seq<Activation>, a: Activation)
    requires (forall b <- acts :: b.Fits(arch)) && a.Fits(arch) && a.phase.InFirst?
    ensures |Image(acts + [a])| == |Image(acts)| + arch.FirstWords()
  {
    ImageGrows(acts, a);
  }

  lemma RoomAfterReturn(arch: Arch, acts: seq<Activation>, target: Word)
    requires (forall a <- acts :: a.Fits(arch)) && acts != []
    ensures
      var outer, top := acts[..|acts| - 1], acts[|acts| - 1];
      && |Image(outer)| <= |Image(acts)|
      && (top.phase.InFirst? ==> |Image(outer + [top.(phase := InSecond(target))])| <= |Image(acts)|)
  {
    var outer, top := acts[..|acts| - 1], acts[|acts| - 1];
    ImageGrows(outer, top.(phase := InSecond(target)));
    assert |Image(acts)| == |top.Frame()| + |Image(outer)|;
  }

  /** On x86_64, 56 nested activations are safe in any mix of phases and 57 first-phase ones are
      not; if all outer ones are in CALLBACK2, 499 are safe and 500 are not. */
  lemma DepthX86(link: Link, s: State, e: Event)
    requires s.Fits(X86_64) && e.Fits(X86_64) && |Image(s.acts)| <= 507 && !s.faulted
    requires e.Call? && s.got == link.thunk
    ensures
      var s' := Next(X86_64, link, s, e).0;
      && (|s.acts| < 56 ==> !s'.faulted)
      && (Firsts(s.acts) == |s.acts| ==> (s'.faulted <==> |s.acts| >= 56))
      && (Firsts(s.acts) == 0 ==> (s'.faulted <==> |s.acts| >= 499))
  {
    RoomKept(X86_64, link, s, e);
    ImageLength(X86_64, s.acts);
  }

  /** On aarch64, 18 nested activations are safe in any mix, and 240 if all outer ones are in
      CALLBACK2. */
  lemma DepthAarch64(link: Link, s: State, e: Event)
    requires s.Fits(AARCH64) && e.Fits(AARCH64) && |Image(s.acts)| <= 507 && !s.faulted
    requires e.Call? && s.got == link.thunk
    ensures
      var s' := Next(AARCH64, link, s, e).0;
      && (|s.acts| < 18 ==> !s'.faulted)
      && (Firsts(s.acts) == |s.acts| ==> (s'.faulted <==> |s.acts| >= 18))
      && (Firsts(s.acts) == 0 ==> (s'.faulted <==> |s.acts| >= 240))
  {
    RoomKept(AARCH64, link, s, e);
    ImageLength(AARCH64, s.acts);
  }

  /** On i386 every frame is one word, so the bound is on the depth alone. */
  lemma DepthI386(link: Link, s: State, e: Event)
    requires s.Fits(I386) && e.Fits(I386) && |Image(s.acts)| <= 1020 && !s.faulted
    requires e.Call? && s.got == link.thunk
    ensures Next(I386, link, s, e).0.faulted <==> |s.acts| >= 1020
  {
    RoomKept(I386, link, s, e);
    ImageLength(I386, s.acts);
    assert WordsInUse(I386, s.acts) == Firsts(s.acts) + Seconds(s.acts);
  }
}
