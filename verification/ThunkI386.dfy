/**
 The i386 thunk, instruction by instruction.  The arguments stay on the machine stack, so a frame is
 only the return address; the thunk stack pointer is at the word below the lowest in use; and the
 thunk finds its own address by a call to the next instruction.
 */
module ThunkI386 {
  import opened ShadowThunk
  import opened ThunkPages

  // Word indices in the two pages.  The first page is code and is not writeable.
  const DATA := 1024
  const TOP := 2044
  const STACKP := 2044
  const GOTENT := 2045
  const CALLBACK1 := 2046
  const CALLBACK2 := 2047

  // Offsets in the code of the instructions after the three calls to themselves.
  const NEXT := 5
  const NEXT2 := 35
  const NEXT3 := 47

  const PAGES := Layout(I386, 2048, DATA, TOP, STACKP, CALLBACK2, false)

  class Thunk {
    const start: Word
    const slot: Word
    const first: Word
    const afterFirst: Word
    const afterSecond: Word
    const link: Link
    const page: array<Word>
    var eax: Word
    var ecx: Word
    var edx: Word
    var esp: Word
    var stack: map<Word, Word>  // the machine stack
    var got: Word               // the word at `slot`
    var count: int              // enables minus disables of the mock
    ghost var shadow: State

    ghost predicate Valid()
      reads `got, `count, `shadow, page
    {
      && page.Length == 2048 && link.Valid() && link.thunk == start && afterFirst != afterSecond
      && page[GOTENT] == slot && page[CALLBACK1] == first
      && Represents(PAGES, page[..], start, shadow)
      && got == shadow.got && count == shadow.count
    }

    ghost function Top(): Activation
      requires shadow.acts != []
      reads `shadow
    {
      shadow.acts[|shadow.acts| - 1]
    }

    /** The word of the thunk's pages at an address. */
    function At(address: Word): int {
      (address - start) / 4
    }

    function Load(address: Word): Word
      requires 0 <= At(address) < page.Length
      reads page
    {
      page[At(address)]
    }

    method Push(value: Word)
      modifies `esp, `stack
      ensures esp == old(esp) - 4 && stack == old(stack)[esp := value]
    {
      esp := esp - 4;
      stack := stack[esp := value];
    }

    method Pop() returns (value: Word)
      requires esp in stack
      modifies `esp
      ensures esp == old(esp) + 4 && value == stack[old(esp)]
    {
      value, esp := stack[esp], esp + 4;
    }

    /** A thunk as first handed out for a slot, before the slot is patched. */
    constructor (start: Word, slot: Word, callback: Word, func: Word, link: Link,
                 afterFirst: Word, afterSecond: Word)
      requires link.Valid() && link.thunk == start && link.original == func && afterFirst != afterSecond
      ensures Valid() && fresh(page)
      ensures this.link == link && this.start == start && this.first == callback
      ensures this.afterFirst == afterFirst && this.afterSecond == afterSecond
      ensures shadow == State([], func, func, 0, false)
    {
      this.start, this.slot, this.first, this.link := start, slot, callback, link;
      this.afterFirst, this.afterSecond := afterFirst, afterSecond;
      var bufp := new Word[2048];
      bufp[STACKP] := start + 4 * 2043;
      bufp[GOTENT] := slot;
      bufp[CALLBACK1] := callback;
      bufp[CALLBACK2] := func;
      page := bufp;
      got, count := func, 0;
      shadow := State([], func, func, 0, false);
    }

    /** From the entry point to CALLBACK1.  Running out of stack faults on the code page before any
        word is written.  Nothing at or above the caller's stack pointer changes on the machine
        stack but the return address. */
    method Enter(ghost k: nat) returns (faulted: bool, target: Word)
      requires page.Length == 2048 && esp in stack
      requires DATA <= k <= TOP && page[STACKP] == start + 4 * (k - 1)
      modifies `eax, `ecx, `edx, `esp, `stack, page
      ensures faulted <==> k - 1 < DATA
      ensures faulted ==> page[..] == old(page[..])
      ensures !faulted ==>
        && page[..] == Overwrite(old(page[..])[STACKP := start + 4 * (k - 2)], k - 1, [old(stack[esp])])
        && esp == old(esp) && stack == old(stack)[esp - 4 := start + NEXT][esp := afterFirst]
        && page[GOTENT] == old(page[GOTENT]) && target == page[CALLBACK1] == old(page[CALLBACK1])
    {
      Push(start + NEXT);
      eax := Pop();
      ecx := Load(eax - NEXT + 4 * STACKP);
      edx := Pop();
      if At(ecx) < DATA {
        return true, 0;
      }
      assert ecx == start + 4 * (k - 1) && edx == old(stack[esp]);
      page[At(ecx)] := edx;
      ecx := ecx - 4;
      page[STACKP] := ecx;
      Push(afterFirst);
      target := Load(eax - NEXT + 4 * CALLBACK1);
      return false, target;
    }

    /** `Enter`, as the push of an activation. */
    method Open(ghost e: Event) returns (faulted: bool, target: Word)
      requires page.Length == 2048 && Represents(PAGES, page[..], start, shadow)
      requires esp in stack && e == Call([], [], esp, stack[esp])
      requires link.thunk == start && shadow.got == start
      modifies `eax, `ecx, `edx, `esp, `stack, page
      ensures faulted <==> |Image(shadow.acts)| + I386.FirstWords() > I386.capacity
      ensures !faulted ==>
        && Represents(PAGES, page[..], start, Next(I386, link, shadow, e).0)
        && page[GOTENT] == old(page[GOTENT]) && page[CALLBACK1] == old(page[CALLBACK1]) == target
        && esp == old(esp) && stack == old(stack)[esp - 4 := start + NEXT][esp := afterFirst]
    {
      ghost var words, k := page[..], TOP - |Image(shadow.acts)|;
      faulted, target := Enter(k);
      if !faulted {
        assert e.saved + e.kept + [e.ret] == [e.ret];
        assert page[..] == Overwrite(words[STACKP := PAGES.Pointer(start, k - 1)], k - 1, [e.ret]);
        Called(PAGES, words, start, link, shadow, e);
      }
    }

    /** From CALLBACK1's return to CALLBACK2, with the same stack pointer. */
    method Resume() returns (target: Word)
      requires page.Length == 2048
      modifies `eax, `esp, `stack
      ensures esp == old(esp) - 4 && stack == old(stack)[esp := afterSecond] && target == page[CALLBACK2]
    {
      Push(start + NEXT2);
      eax := Pop();
      target := Load(eax - NEXT2 + 4 * CALLBACK2);
      Push(afterSecond);
      assert stack == old(stack)[esp := afterSecond];
    }

    /** `Resume`, as the change of phase: there is nothing to drop from the frame.  If CALLBACK2 is
        the stub, entering it makes the linker resolve the slot. */
    method AfterFirst(ghost e: Event) returns (target: Word)
      requires Valid() && e.Return? && shadow.acts != [] && Top().phase.InFirst?
      requires esp == Top().sp + 4
      modifies this
      ensures Valid() && target == old(shadow.second)
      ensures esp == old(Top()).sp && stack == old(stack)[esp := afterSecond]
      ensures shadow == Next(I386, link, old(shadow), e).0
    {
      ghost var words, s', k := page[..], Next(I386, link, shadow, e).0, TOP - |Image(shadow.acts)|;
      FirstDone(PAGES, words, start, link, shadow, s', e);
      target := Resume();
      got := link.SlotAfterEntering(target, got);
      assert words[STACKP := PAGES.Pointer(start, k)] == words;
      shadow := s';
    }

    /** If the slot no longer holds the thunk, the linker has resolved it: keep the resolved
        function as CALLBACK2, and put the thunk back.  The result waits on the machine stack. */
    method Repair()
      requires page.Length == 2048 && page[GOTENT] == slot
      modifies `eax, `ecx, `edx, `esp, `stack, `got, page
      ensures got == start && edx == start && eax == old(eax) && esp == old(esp)
      ensures page[..] == old(page[..])[CALLBACK2 := if old(got) == start then old(page[CALLBACK2]) else old(got)]
    {
      Push(start + NEXT3);
      edx := Pop();
      edx := edx - NEXT3;
      Push(eax);
      ecx := Load(edx + 4 * GOTENT);
      eax := got;  // the word at ecx
      assert ecx == slot && edx == start;
      if eax != edx {
        page[CALLBACK2] := eax;
        got := edx;
      }
      eax := Pop();
    }

    /** From CALLBACK2's return to the caller: the return address goes back on the machine stack,
        and its frame is gone.  The return address is left in edx. */
    method Epilogue(ghost k: nat) returns (target: Word)
      requires page.Length == 2048 && page[GOTENT] == slot
      requires DATA <= k < TOP && page[STACKP] == start + 4 * (k - 1)
      modifies `eax, `ecx, `edx, `esp, `stack, `got, page
      ensures got == start && target == old(page[k]) && esp == old(esp)
      ensures eax == old(eax) && edx == target
      ensures page[..] == old(page[..])[STACKP := start + 4 * k]
                          [CALLBACK2 := if old(got) == start then old(page[CALLBACK2]) else old(got)]
    {
      Repair();
      assert page[k] == page[..][k] && page[STACKP] == page[..][STACKP];
      ecx := Load(edx + 4 * STACKP);
      ecx := ecx + 4;
      page[STACKP] := ecx;
      edx := Load(ecx);
      Push(edx);
      target := Pop();
    }

    /** `Epilogue`, as the end of an activation. */
    method AfterSecond(ghost e: Event) returns (target: Word)
      requires Valid() && e.Return? && shadow.acts != [] && Top().phase.InSecond?
      requires esp == Top().sp + 4
      modifies this, page
      ensures Valid() && target == old(Top()).ret
      ensures eax == old(eax) && edx == target && esp == old(esp)
      ensures shadow == Next(I386, link, old(shadow), e).0
    {
      ghost var words, s', k := page[..], Next(I386, link, shadow, e).0, TOP - |Image(shadow.acts)|;
      SecondFrame(PAGES, words, start, shadow);
      SecondDone(PAGES, words, start, link, shadow, s', e);
      target := Epilogue(k);
      assert page[..] == words[STACKP := PAGES.Pointer(start, k + 1)][CALLBACK2 := s'.second];
      assert page[GOTENT] == page[..][GOTENT] && page[CALLBACK1] == page[..][CALLBACK1];
      shadow := s';
    }

    ghost predicate Matches(pending: seq<Pending>)
      reads `shadow
    {
      Matched(pending, shadow.acts, afterFirst, afterSecond)
    }

    /** The registers and the machine stack as the caller leaves them. */
    method Arrive(e: Event)
      requires e.Call? && e.Fits(I386)
      modifies `esp, `stack
      ensures esp in stack && e == Call([], [], esp, stack[esp])
    {
      esp, stack := e.sp, map[e.sp := e.ret];
      assert e.saved == [] && e.kept == [];
    }

    /** A callback returns: it pops the return address it was entered with, and leaves its own
        values in the registers that calls do not preserve. */
    method Leave(e: Event, sp: Word)
      requires e.Return? && |e.result| == 1 && |e.junk| == 2
      modifies `eax, `ecx, `edx, `esp, `stack
      ensures [eax] == e.result && esp == sp + 4
    {
      eax, ecx, edx := e.result[0], e.junk[0], e.junk[1];
      esp, stack := sp + 4, map[];
    }

    /** What the caller leaves, then the way to CALLBACK1. */
    method Come(e: Event) returns (faulted: bool)
      requires Valid() && e.Call? && e.Fits(I386) && got == start
      modifies `eax, `ecx, `edx, `esp, `stack, page
      ensures faulted <==> |Image(shadow.acts)| + I386.FirstWords() > I386.capacity
      ensures !faulted ==>
        && Represents(PAGES, page[..], start, Next(I386, link, shadow, e).0)
        && page[GOTENT] == slot && page[CALLBACK1] == first
        && First(esp, [], []) == First(e.sp, e.saved, e.kept) && esp in stack && stack[esp] == afterFirst
    {
      Arrive(e);
      var target: Word;
      faulted, target := Open(e);
    }

    /** Code calls through the slot while it holds the thunk. */
    method OnMocked(e: Event, pending: seq<Pending>)
      returns (faulted: bool, log: seq<Observation>, pending': seq<Pending>)
      requires Valid() && Matches(pending) && e.Call? && e.Fits(I386) && got == start
      modifies this, page
      ensures log == Next(I386, link, old(shadow), e).1
      ensures faulted <==> Next(I386, link, old(shadow), e).0.faulted
      ensures !faulted ==> Valid() && Matches(pending') && shadow == Next(I386, link, old(shadow), e).0
    {
      ghost var s' := Next(I386, link, shadow, e).0;
      CallStep(I386, link, shadow, e);
      faulted := Come(e);
      if faulted {
        return true, [Fault], pending;
      }
      ghost var a := Activation(InFirst, e.saved, e.kept, e.ret, e.sp);
      MatchedPush(pending, shadow.acts, Pending(afterFirst, e.sp), a, afterFirst, afterSecond);
      shadow := s';
      assert Represents(PAGES, page[..], start, shadow);
      log, pending' := [First(esp, [], [])], pending + [Pending(stack[esp], esp)];
    }

    /** Code calls through the slot while it does not hold the thunk. */
    method OnDirect(e: Event) returns (log: seq<Observation>)
      requires Valid() && e.Call? && got != start
      modifies `got, `shadow
      ensures Valid() && shadow == Next(I386, link, old(shadow), e).0 && shadow.acts == old(shadow.acts)
      ensures log == Next(I386, link, old(shadow), e).1
    {
      log := [Direct(got)];
      got := link.SlotAfterEntering(got, got);
      shadow := shadow.(got := got);
    }

    /** The callback that runs returns. */
    method OnReturn(e: Event, pending: seq<Pending>)
      returns (log: seq<Observation>, pending': seq<Pending>)
      requires Valid() && Matches(pending) && pending != []
      requires e.Return? && |e.result| == 1 && |e.junk| == 2
      modifies this, page
      ensures log == Next(I386, link, old(shadow), e).1
      ensures Valid() && Matches(pending') && shadow == Next(I386, link, old(shadow), e).0
    {
      var outer, top := pending[..|pending| - 1], pending[|pending| - 1];
      ghost var s, act := shadow, Top();
      assert act.Fits(I386) && act.saved == [] && act.kept == [];
      MatchedTop(pending, s.acts, Pending(afterSecond, act.sp), act.(phase := InSecond(s.second)),
                 afterFirst, afterSecond);
      Leave(e, top.sp);
      if top.resume == afterFirst {
        var target := AfterFirst(e);
        log, pending' := [Second(target, esp, [], [])], outer + [Pending(stack[esp], esp)];
      } else {
        var target := AfterSecond(e);
        log, pending' := [Back(target, esp, [eax], [])], outer;
      }
    }

    /** The mock is enabled or disabled: the slot changes when the count gets to 1 or to 0. */
    method OnToggle(e: Event)
      requires Valid() && (e.Enable? || e.Disable?)
      modifies `got, `count, `shadow
      ensures Valid() && shadow == Next(I386, link, old(shadow), e).0 && shadow.acts == old(shadow.acts)
    {
      if e.Enable? {
        count := count + 1;
        if count == 1 {
          got := start;
        }
      } else {
        count := count - 1;
        if count == 0 {
          got := link.original;
        }
      }
      shadow := shadow.(got := got, count := count);
    }

    method Step(e: Event, pending: seq<Pending>)
      returns (faulted: bool, log: seq<Observation>, pending': seq<Pending>)
      requires Valid() && Matches(pending) && e.Fits(I386)
      requires e.Return? ==> |e.result| == 1 && |e.junk| == 2
      modifies this, page
      ensures log == Next(I386, link, old(shadow), e).1
      ensures faulted <==> Next(I386, link, old(shadow), e).0.faulted
      ensures !faulted ==> Valid() && Matches(pending') && shadow == Next(I386, link, old(shadow), e).0
    {
      faulted, log, pending' := false, [], pending;
      if e.Call? && got == start {
        faulted, log, pending' := OnMocked(e, pending);
      } else if e.Call? {
        log := OnDirect(e);
      } else if !e.Return? {
        OnToggle(e);
      } else if pending != [] {
        log, pending' := OnReturn(e, pending);
      }
    }

    /** Every run: the machine shows what the abstract thunk shows, faults when it does, and ends
        in a state that represents the abstract one. */
    method Drive(es: seq<Event>) returns (faulted: bool, log: seq<Observation>)
      requires Valid() && shadow.acts == []
      requires forall i :: 0 <= i < |es| ==> es[i].Shaped(I386, 1, 2)
      modifies this, page
      ensures log == Run(I386, link, old(shadow), es).1
      ensures faulted <==> Run(I386, link, old(shadow), es).0.faulted
      ensures !faulted ==> Valid() && shadow == Run(I386, link, old(shadow), es).0
    {
      ghost var s := shadow;
      var pending: seq<Pending> := [];
      faulted, log := false, [];
      for i := 0 to |es|
        invariant Valid() && Matches(pending) && !faulted
        invariant (shadow, log) == Run(I386, link, s, es[..i])
      {
        RunSnoc(I386, link, s, es, i);
        var o;
        faulted, o, pending := Step(es[i], pending);
        log := log + o;
        if faulted {
          RunStops(I386, link, s, es, i + 1);
          return;
        }
      }
      assert es[..|es|] == es;
    }
  }
}
