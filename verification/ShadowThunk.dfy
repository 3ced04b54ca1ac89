/**
 The PRE-mock thunk seen from outside: a re-entrant routine with a private stack of
 activations.  The three assembly versions differ in what a frame holds and in how much
 room there is; `Arch` carries those differences.  `ThunkX86`, `ThunkArm` and `ThunkI386`
 refine the machine defined here; `ThunkRuns` proves what every run of it does.
 */
module ShadowThunk {

  /** A machine word.  No word is ever wrapped: the only arithmetic is on addresses in one page. */
  type Word = int

  /** What differs between the processors.
      - saved: argument words restored before CALLBACK2 (the frame drops them then)
      - kept: words, other than the return address, held until the thunk returns
      - capacity: words of the data page below the top of the thunk stack
      - popped: bytes a callee's return removes from the machine stack */
  datatype Arch = Arch(saved: nat, kept: nat, capacity: nat, popped: nat)
  {
    /** Words of thunk stack used while CALLBACK1 runs. */
    function FirstWords(): nat { saved + kept + 1 }

    /** Words of thunk stack used while CALLBACK2 runs. */
    function SecondWords(): nat { kept + 1 }
  }

  const X86_64 := Arch(8, 0, 507, 8)
  const AARCH64 := Arch(26, 1, 507, 0)
  const I386 := Arch(0, 0, 1020, 4)

  /** The addresses involved: the thunk itself, what the GOT slot held when the mock was
      constructed, the lazy-binding PLT stub, and the function the linker resolves it to. */
  datatype Link = Link(thunk: Word, original: Word, stub: Word, resolved: Word)
  {
    predicate Valid() {
      && thunk != stub && thunk != resolved && stub != resolved
      && (original == stub || original == resolved)
    }

    /** Entering the stub makes the dynamic linker overwrite the slot. */
    function SlotAfterEntering(target: Word, got: Word): Word {
      if target == stub then resolved else got
    }
  }

  datatype Phase = InFirst | InSecond(target: Word)

  datatype Activation =
    Activation(phase: Phase, saved: seq<Word>, kept: seq<Word>, ret: Word, sp: Word)
  {
    /** The words this activation owns on the thunk stack, lowest address first. */
    function Frame(): seq<Word> {
      (if phase.InFirst? then saved else []) + kept + [ret]
    }

    predicate Fits(arch: Arch) {
      |saved| == arch.saved && |kept| == arch.kept
    }
  }

  /** The thunk stack as memory: the youngest activation has the lowest address. */
  function Image(acts: seq<Activation>): seq<Word> {
    if acts == [] then []
    else acts[|acts| - 1].Frame() + Image(acts[..|acts| - 1])
  }

  /** acts is oldest first; second is CALLBACK2; got is the content of the GOT slot. */
  datatype State =
    State(acts: seq<Activation>, second: Word, got: Word, count: int, faulted: bool)
  {
    /** The mock is switched on: enabled more often than disabled. */
    predicate On() { count >= 1 }

    predicate Fits(arch: Arch) {
      forall i :: 0 <= i < |acts| ==> acts[i].Fits(arch)
    }
  }

  /** What the rest of the process does next.
      - Call: code calls through the GOT slot
      - Return: the callback that runs returns, leaving these values in the registers whose
        content reaches the caller (result) and in the ones the thunk reloads (junk)
      - Enable, Disable: the mock is enabled or disabled, which it counts */
  datatype Event =
    | Call(saved: seq<Word>, kept: seq<Word>, sp: Word, ret: Word)
    | Return(result: seq<Word>, junk: seq<Word>)
    | Enable
    | Disable
  {
    predicate Fits(arch: Arch) {
      Call? ==> |saved| == arch.saved && |kept| == arch.kept
    }

    /** The words are as many as the processor has registers for. */
    predicate Shaped(arch: Arch, results: nat, junk: nat) {
      Fits(arch) && (Return? ==> |this.result| == results && |this.junk| == junk)
    }
  }

  /** What the callbacks and the caller can see of the thunk. */
  datatype Observation =
    | First(sp: Word, saved: seq<Word>, kept: seq<Word>)
    | Second(target: Word, sp: Word, saved: seq<Word>, kept: seq<Word>)
    | Back(ret: Word, sp: Word, result: seq<Word>, kept: seq<Word>)
    | Direct(target: Word)
    | Fault

  /** One step: the new state and what was observed. */
  function Next(arch: Arch, link: Link, s: State, e: Event): (State, seq<Observation>) {
    if s.faulted then (s, []) else
    match e
    case Enable =>
      (s.(count := s.count + 1, got := if s.count + 1 == 1 then link.thunk else s.got), [])
    case Disable =>
      (s.(count := s.count - 1, got := if s.count - 1 == 0 then link.original else s.got), [])
    case Call(saved, kept, sp, ret) =>
      if s.got != link.thunk then
        (s.(got := link.SlotAfterEntering(s.got, s.got)), [Direct(s.got)])
      else if |Image(s.acts)| + arch.FirstWords() > arch.capacity then
        (s.(faulted := true), [Fault])
      else
        (s.(acts := s.acts + [Activation(InFirst, saved, kept, ret, sp)]),
         [First(sp, saved, kept)])
    case Return(result, junk) =>
      if s.acts == [] then (s, []) else
      var outer, top := s.acts[..|s.acts| - 1], s.acts[|s.acts| - 1];
      if top.phase.InFirst? then
        (s.(acts := outer + [top.(phase := InSecond(s.second))],
            got := link.SlotAfterEntering(s.second, s.got)),
         [Second(s.second, top.sp, top.saved, top.kept)])
      else
        (s.(acts := outer,
            second := if s.got == link.thunk then s.second else s.got,
            got := link.thunk),
         [Back(top.ret, top.sp + arch.popped, result, top.kept)])
  }

  /** A mocked call, with and without room. */
  lemma CallStep(arch: Arch, link: Link, s: State, e: Event)
    requires e.Call? && !s.faulted && s.got == link.thunk
    ensures
      var room := |Image(s.acts)| + arch.FirstWords() <= arch.capacity;
      Next(arch, link, s, e) ==
        if room then
          (s.(acts := s.acts + [Activation(InFirst, e.saved, e.kept, e.ret, e.sp)]), [First(e.sp, e.saved, e.kept)])
        else (s.(faulted := true), [Fault])
  {
  }

  /** A whole run. */
  function Run(arch: Arch, link: Link, s: State, es: seq<Event>): (State, seq<Observation>)
    decreases |es|
  {
    if es == [] then (s, []) else
    var (s', o) := Next(arch, link, s, es[0]);
    var (s'', os) := Run(arch, link, s', es[1..]);
    (s'', o + os)
  }

  lemma {:induction false} RunAppend(arch: Arch, link: Link, s: State, es: seq<Event>, fs: seq<Event>)
    ensures
      var (s', o) := Run(arch, link, s, es);
      var (s'', o') := Run(arch, link, s', fs);
      Run(arch, link, s, es + fs) == (s'', o + o')
    decreases |es|
  {
    if es == [] {
      assert es + fs == fs;
      assert [] + Run(arch, link, s, fs).1 == Run(arch, link, s, fs).1;
    } else {
      assert (es + fs)[1..] == es[1..] + fs;
      var (s1, o1) := Next(arch, link, s, es[0]);
      RunAppend(arch, link, s1, es[1..], fs);
      var (s2, o2) := Run(arch, link, s1, es[1..]);
      var (s3, o3) := Run(arch, link, s2, fs);
      assert o1 + (o2 + o3) == (o1 + o2) + o3;
    }
  }

  /** A run, one step longer. */
  lemma RunSnoc(arch: Arch, link: Link, s: State, es: seq<Event>, i: nat)
    requires i < |es|
    ensures
      var (s', o) := Run(arch, link, s, es[..i]);
      var (s'', o') := Next(arch, link, s', es[i]);
      Run(arch, link, s, es[..i + 1]) == (s'', o + o')
  {
    var s' := Run(arch, link, s, es[..i]).0;
    assert es[..i + 1] == es[..i] + [es[i]];
    RunAppend(arch, link, s, es[..i], [es[i]]);
    assert [es[i]][1..] == [];
    assert Next(arch, link, s', es[i]).1 + [] == Next(arch, link, s', es[i]).1;
  }

  /** A faulted thunk takes no further step: the process is gone. */
  lemma {:induction false} FaultIsFinal(arch: Arch, link: Link, s: State, es: seq<Event>)
    requires s.faulted
    ensures Run(arch, link, s, es) == (s, [])
    decreases |es|
  {
    if es != [] {
      FaultIsFinal(arch, link, s, es[1..]);
      assert Run(arch, link, s, es).1 == [] + [];
    }
  }

  lemma RunStops(arch: Arch, link: Link, s: State, es: seq<Event>, i: nat)
    requires i <= |es| && Run(arch, link, s, es[..i]).0.faulted
    ensures Run(arch, link, s, es) == Run(arch, link, s, es[..i])
  {
    var r := Run(arch, link, s, es[..i]);
    FaultIsFinal(arch, link, r.0, es[i..]);
    RunAppend(arch, link, s, es[..i], es[i..]);
    assert es[..i] + es[i..] == es && r.1 + [] == r.1;
  }

  lemma {:induction false} ImageGrows(acts: seq<Activation>, a: Activation)
    ensures Image(acts + [a]) == a.Frame() + Image(acts)
  {
    assert (acts + [a])[..|acts|] == acts;
  }

  /** How many activations are still in CALLBACK1. */
  function Firsts(acts: seq<Activation>): nat {
    if acts == [] then 0
    else Firsts(acts[..|acts| - 1]) + if acts[|acts| - 1].phase.InFirst? then 1 else 0
  }

  /** FirstWords for each activation in CALLBACK1, SecondWords for each in CALLBACK2. */
  function WordsInUse(arch: Arch, acts: seq<Activation>): nat {
    Firsts(acts) * arch.FirstWords() + Seconds(acts) * arch.SecondWords()
  }

  /** How many activations are in CALLBACK2. */
  function Seconds(acts: seq<Activation>): nat {
    if acts == [] then 0
    else Seconds(acts[..|acts| - 1]) + if acts[|acts| - 1].phase.InFirst? then 0 else 1
  }

  lemma {:induction false} ImageLength(arch: Arch, acts: seq<Activation>)
    requires forall i :: 0 <= i < |acts| ==> acts[i].Fits(arch)
    ensures |Image(acts)| == WordsInUse(arch, acts)
    ensures Firsts(acts) + Seconds(acts) == |acts|
  {
    if acts != [] {
      var outer := acts[..|acts| - 1];
      ImageLength(arch, outer);
      Distribute(Firsts(outer), arch.FirstWords());
      Distribute(Seconds(outer), arch.SecondWords());
      assert |Image(acts)| == |acts[|acts| - 1].Frame()| + |Image(outer)|;
    }
  }

  lemma Distribute(n: nat, w: nat)
    ensures (n + 1) * w == n * w + w
  {
  }
}
