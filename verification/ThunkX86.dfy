/**
 The x86_64 thunk, instruction by instruction: registers, machine stack, the thunk's two pages
 and the GOT slot are updated in place.  Every entry and return refines the abstract step of
 `ShadowThunk`, and `Drive` carries that to whole runs.
 */
module ThunkX86 {
  import opened ShadowThunk
  import opened ThunkPages

  // Word indices in the two pages.  The first page is code and is not writeable.
  const DATA := 512
  const TOP := 1019
  const STACKP := 1020
  const GOTENT := 1021
  const CALLBACK1 := 1022
  const CALLBACK2 := 1023

  const PAGES := Layout(X86_64, 1024, DATA, TOP, STACKP, CALLBACK2, true)

  lemma Overwritten(words: seq<Word>, k: nat, v: seq<Word>)
    requires |v| == 9 && k + 9 <= |words|
    ensures Overwrite(words, k, v)
         == words[k := v[0]][k + 1 := v[1]][k + 2 := v[2]][k + 3 := v[3]][k + 4 := v[4]]
            [k + 5 := v[5]][k + 6 := v[6]][k + 7 := v[7]][k + 8 := v[8]]
  {
  }

  /** `FirstDone` with the frame's words spelled out. */
  lemma Resumed(words: seq<Word>, start: Word, link: Link, s: State, s': State, e: Event)
    requires Represents(PAGES, words, start, s) && e.Return? && s.acts != [] && s.acts[|s.acts| - 1].phase.InFirst?
    requires s' == Next(X86_64, link, s, e).0
    ensures
      var k := TOP - |Image(s.acts)|;
      && k <= TOP - 9 && words[STACKP] == start + 8 * k
      && [words[k], words[k + 1], words[k + 2], words[k + 3], words[k + 4], words[k + 5], words[k + 6], words[k + 7]]
         == s.acts[|s.acts| - 1].saved
      && Represents(PAGES, words[STACKP := words[STACKP] + 64], start, s')
      && s'.got == link.SlotAfterEntering(words[CALLBACK2], s.got)
  {
    var k := TOP - |Image(s.acts)|;
    FirstFrame(PAGES, words, start, s);
    assert [words[k], words[k + 1], words[k + 2], words[k + 3], words[k + 4], words[k + 5], words[k + 6], words[k + 7]]
        == words[k..k + 8];
    FirstDone(PAGES, words, start, link, s, s', e);
    assert words[STACKP] + 64 == PAGES.Pointer(start, k + 8);
  }

  class Thunk {
    const start: Word
    const slot: Word
    const first: Word
    const afterFirst: Word
    const afterSecond: Word
    const link: Link
    const page: array<Word>
    var rax: Word
    var rcx: Word
    var rdx: Word
    var rsi: Word
    var rdi: Word
    var rsp: Word
    var r8: Word
    var r9: Word
    var r10: Word
    var r11: Word
    var stack: map<Word, Word>  // the machine stack
    var got: Word               // the word at `slot`
    var count: int              // enables minus disables of the mock
    ghost var shadow: State

    ghost predicate Valid()
      reads `got, `count, `shadow, page
    {
      && page.Length == 1024 && link.Valid() && link.thunk == start && afterFirst != afterSecond
      && page[GOTENT] == slot && page[CALLBACK1] == first
      && Represents(PAGES, page[..], start, shadow)
      && got == shadow.got && count == shadow.count
    }

    ghost function Top(): Activation
      requires shadow.acts != []
      reads `shadow
    {
      shadow.acts[|shadow.acts| - 1]
    }

    /** The word of the thunk's pages at an address. */
    function At(address: Word): int {
      (address - start) / 8
    }

    function Load(address: Word): Word
      requires 0 <= At(address) < page.Length
      reads page
    {
      page[At(address)]
    }

    method Store(address: Word, value: Word, ghost k: nat)
      requires address == start + 8 * k && DATA <= k < page.Length
      modifies page
      ensures page[..] == old(page[..])[k := value]
    {
      page[At(address)] := value;
    }

    /** The argument registers, in frame order. */
    function Arguments(): seq<Word>
      reads this
    {
      [rax, rdi, rsi, rdx, rcx, r8, r9, r10]
    }

    /** A thunk as first handed out for a slot, before the slot is patched. */
    constructor (start: Word, slot: Word, callback: Word, func: Word, link: Link,
                 afterFirst: Word, afterSecond: Word)
      requires link.Valid() && link.thunk == start && link.original == func && afterFirst != afterSecond
      ensures Valid() && fresh(page)
      ensures this.link == link && this.start == start && this.first == callback
      ensures this.afterFirst == afterFirst && this.afterSecond == afterSecond
      ensures shadow == State([], func, func, 0, false)
    {
      this.start, this.slot, this.first, this.link := start, slot, callback, link;
      this.afterFirst, this.afterSecond := afterFirst, afterSecond;
      var bufp := new Word[1024];
      bufp[STACKP] := start + 8 * TOP;
      bufp[GOTENT] := slot;
      bufp[CALLBACK1] := callback;
      bufp[CALLBACK2] := func;
      page := bufp;
      got, count := func, 0;
      shadow := State([], func, func, 0, false);
    }

    /** Saves the argument registers and the return address in the frame at r11, taking the
        return address off the machine stack. */
    method Save(ghost k: nat)
      requires page.Length == 1024 && rsp in stack
      requires DATA <= k <= TOP - 9 && r11 == start + 8 * k
      modifies this`rax, this`rsp, page
      ensures page[..] == Overwrite(old(page[..]), k, old(Arguments() + [stack[rsp]]))
      ensures rax == old(rax) && rsp == old(rsp) + 8
    {
      ghost var words := page[..];
      Store(r11, rax, k);
      Store(r11 + 8, rdi, k + 1);
      Store(r11 + 16, rsi, k + 2);
      Store(r11 + 24, rdx, k + 3);
      Store(r11 + 32, rcx, k + 4);
      Store(r11 + 40, r8, k + 5);
      Store(r11 + 48, r9, k + 6);
      Store(r11 + 56, r10, k + 7);
      rax, rsp := stack[rsp], rsp + 8;
      Store(r11 + 64, rax, k + 8);
      Overwritten(words, k, old(Arguments() + [stack[rsp]]));
      rax := Load(r11);
    }

    /** From the entry point to CALLBACK1.  Running out of stack faults on the code page before
        any word of a live frame is written. */
    method Enter(ghost k: nat) returns (faulted: bool, target: Word)
      requires page.Length == 1024 && rsp in stack
      requires DATA <= k <= TOP && page[STACKP] == start + 8 * k
      modifies `rax, `rsp, `r11, `stack, page
      ensures r11 == start + 8 * (k - 9)
      ensures faulted <==> k - 9 < DATA
      ensures faulted ==> page[..] == old(page[..])[STACKP := r11]
      ensures !faulted ==>
        && page[..] == Overwrite(old(page[..])[STACKP := r11], k - 9, old(Arguments() + [stack[rsp]]))
        && rax == old(rax) && rsp == old(rsp) && stack == old(stack)[rsp := afterFirst]
        && page[GOTENT] == old(page[GOTENT]) && target == page[CALLBACK1] == old(page[CALLBACK1])
    {
      page[STACKP] := page[STACKP] - 72;
      r11 := page[STACKP];
      if At(r11) < DATA {
        return true, 0;  // the first store hits the code page
      }
      Save(k - 9);
      // call *CALLBACK1
      rsp := rsp - 8;
      stack, target := stack[rsp := afterFirst], page[CALLBACK1];
      assert page[GOTENT] == page[..][GOTENT] && page[CALLBACK1] == page[..][CALLBACK1];
      return false, target;
    }

    /** `Enter`, as the push of an activation. */
    method Open(ghost e: Event) returns (faulted: bool, target: Word)
      requires page.Length == 1024 && Represents(PAGES, page[..], start, shadow)
      requires rsp in stack && e == Call(Arguments(), [], rsp, stack[rsp])
      requires link.thunk == start && shadow.got == start
      modifies `rax, `rsp, `r11, `stack, page
      ensures faulted <==> |Image(shadow.acts)| + X86_64.FirstWords() > X86_64.capacity
      ensures !faulted ==>
        && Represents(PAGES, page[..], start, Next(X86_64, link, shadow, e).0)
        && page[GOTENT] == old(page[GOTENT]) && page[CALLBACK1] == old(page[CALLBACK1]) == target
        && rax == old(rax) && rsp == old(rsp) && stack == old(stack)[rsp := afterFirst]
    {
      ghost var words := page[..];
      faulted, target := Enter(TOP - |Image(shadow.acts)|);
      if !faulted {
        ghost var low := TOP - |Image(shadow.acts)| - 9;
        assert e.saved + e.kept + [e.ret] == e.saved + [e.ret];
        assert page[..] == Overwrite(words[STACKP := start + 8 * low], low, e.saved + [e.ret]);
        Called(PAGES, words, start, link, shadow, e);
      }
    }

    /** Reloads the argument registers from the frame at r11. */
    method Reload(ghost k: nat)
      requires page.Length == 1024 && k <= TOP - 8 && r11 == start + 8 * k
      modifies this`rax, this`rdi, this`rsi, this`rdx, this`rcx, this`r8, this`r9, this`r10
      ensures Arguments() == [page[k], page[k + 1], page[k + 2], page[k + 3], page[k + 4], page[k + 5], page[k + 6], page[k + 7]]
    {
      rax := Load(r11);
      rdi := Load(r11 + 8);
      rsi := Load(r11 + 16);
      rdx := Load(r11 + 24);
      rcx := Load(r11 + 32);
      r8 := Load(r11 + 40);
      r9 := Load(r11 + 48);
      r10 := Load(r11 + 56);
    }

    /** From CALLBACK1's return to CALLBACK2: only the return address stays in the frame. */
    method Resume(ghost k: nat) returns (target: Word)
      requires page.Length == 1024 && k <= TOP - 8 && page[STACKP] == start + 8 * k
      modifies `rax, `rdi, `rsi, `rdx, `rcx, `r8, `r9, `r10, `r11, `rsp, `stack, page
      ensures Arguments() == old([page[k], page[k + 1], page[k + 2], page[k + 3],
                                  page[k + 4], page[k + 5], page[k + 6], page[k + 7]])
      ensures rsp == old(rsp) - 8 && stack == old(stack)[rsp := afterSecond]
      ensures page[..] == old(page[..])[STACKP := old(page[STACKP]) + 64] && target == page[CALLBACK2]
    {
      r11 := page[STACKP];
      Reload(k);
      page[STACKP] := page[STACKP] + 64;
      // call *CALLBACK2
      rsp := rsp - 8;
      stack, target := stack[rsp := afterSecond], page[CALLBACK2];
    }

    /** `Resume`, as the change of phase.  If CALLBACK2 is the stub, entering it makes the linker
        resolve the slot. */
    method AfterFirst(ghost e: Event) returns (target: Word)
      requires Valid() && e.Return? && shadow.acts != [] && Top().phase.InFirst?
      requires rsp == Top().sp + 8
      modifies this, page
      ensures Valid() && target == old(shadow.second)
      ensures Arguments() == old(Top()).saved && rsp == old(Top()).sp
      ensures stack == old(stack)[rsp := afterSecond]
      ensures shadow == Next(X86_64, link, old(shadow), e).0
    {
      ghost var words, s' := page[..], Next(X86_64, link, shadow, e).0;
      ghost var k := TOP - |Image(shadow.acts)|;
      Resumed(words, start, link, shadow, s', e);
      target := Resume(k);
      got := link.SlotAfterEntering(target, got);
      assert page[..] == words[STACKP := words[STACKP] + 64];
      assert page[GOTENT] == page[..][GOTENT] && page[CALLBACK1] == page[..][CALLBACK1];
      shadow := s';
    }

    /** If the slot no longer holds the thunk, the linker has resolved it: keep the resolved
        function as CALLBACK2, and put the thunk back. */
    method Repair()
      requires page.Length == 1024 && page[GOTENT] == slot
      modifies `r11, `rdi, `rsi, `got, page
      ensures got == start
      ensures page[..] == old(page[..])[CALLBACK2 := if old(got) == start then old(page[CALLBACK2]) else old(got)]
    {
      r11, rdi := start, page[GOTENT];
      rsi := got;  // the word at rdi
      assert rdi == slot;
      if rsi != r11 {
        page[CALLBACK2] := rsi;
        got := r11;
      }
    }

    /** From CALLBACK2's return to the caller: the return address goes back on the machine stack,
        and its frame is gone. */
    method Epilogue(ghost k: nat) returns (target: Word)
      requires page.Length == 1024 && page[GOTENT] == slot
      requires DATA <= k < TOP && page[STACKP] == start + 8 * k
      modifies `r11, `rdi, `rsi, `rsp, `stack, `got, page
      ensures got == start && target == old(page[k]) && rsp == old(rsp)
      ensures page[..] == old(page[..])[STACKP := old(page[STACKP]) + 8]
                          [CALLBACK2 := if old(got) == start then old(page[CALLBACK2]) else old(got)]
    {
      Repair();
      assert page[k] == page[..][k] && page[STACKP] == page[..][STACKP];
      r11 := page[STACKP];
      r11 := Load(r11);
      rsp := rsp - 8;
      stack := stack[rsp := r11];
      page[STACKP] := page[STACKP] + 8;
      target, rsp := stack[rsp], rsp + 8;
    }

    /** `Epilogue`, as the end of an activation. */
    method AfterSecond(ghost e: Event) returns (target: Word)
      requires Valid() && e.Return? && shadow.acts != [] && Top().phase.InSecond?
      requires rsp == Top().sp + 8
      modifies this, page
      ensures Valid() && target == old(Top()).ret
      ensures rax == old(rax) && rdx == old(rdx) && rsp == old(rsp)
      ensures shadow == Next(X86_64, link, old(shadow), e).0
    {
      ghost var words, s' := page[..], Next(X86_64, link, shadow, e).0;
      ghost var k := TOP - |Image(shadow.acts)|;
      SecondFrame(PAGES, words, start, shadow);
      SecondDone(PAGES, words, start, link, shadow, s', e);
      target := Epilogue(k);
      assert page[..] == words[STACKP := PAGES.Pointer(start, k + 1)][CALLBACK2 := s'.second];
      assert page[GOTENT] == page[..][GOTENT] && page[CALLBACK1] == page[..][CALLBACK1];
      shadow := s';
    }

    ghost predicate Matches(pending: seq<Pending>)
      reads `shadow
    {
      Matched(pending, shadow.acts, afterFirst, afterSecond)
    }

    /** The registers and the machine stack as the caller leaves them.  What else the machine stack
        holds does not matter to the thunk. */
    method Arrive(e: Event)
      requires e.Call? && e.Fits(X86_64)
      modifies `rax, `rdi, `rsi, `rdx, `rcx, `r8, `r9, `r10, `rsp, `stack
      ensures rsp in stack && e == Call(Arguments(), [], rsp, stack[rsp])
    {
      rax, rdi, rsi, rdx := e.saved[0], e.saved[1], e.saved[2], e.saved[3];
      rcx, r8, r9, r10 := e.saved[4], e.saved[5], e.saved[6], e.saved[7];
      rsp, stack := e.sp, map[e.sp := e.ret];
      assert Arguments() == e.saved && e.kept == [];
    }

    /** A callback returns: it pops the return address it was entered with, and leaves its own
        values in the registers that calls do not preserve. */
    method Leave(e: Event, sp: Word)
      requires e.Return? && |e.result| == 2 && |e.junk| == 7
      modifies `rax, `rdi, `rsi, `rdx, `rcx, `r8, `r9, `r10, `r11, `rsp, `stack
      ensures [rax, rdx] == e.result && rsp == sp + 8
    {
      rax, rdx := e.result[0], e.result[1];
      rdi, rsi, rcx, r8 := e.junk[0], e.junk[1], e.junk[2], e.junk[3];
      r9, r10, r11 := e.junk[4], e.junk[5], e.junk[6];
      rsp, stack := sp + 8, map[];
    }

    /** What the caller leaves, then the way to CALLBACK1. */
    method Come(e: Event) returns (faulted: bool)
      requires Valid() && e.Call? && e.Fits(X86_64) && got == start
      modifies `rax, `rdi, `rsi, `rdx, `rcx, `r8, `r9, `r10, `r11, `rsp, `stack, page
      ensures faulted <==> |Image(shadow.acts)| + X86_64.FirstWords() > X86_64.capacity
      ensures !faulted ==>
        && Represents(PAGES, page[..], start, Next(X86_64, link, shadow, e).0)
        && page[GOTENT] == slot && page[CALLBACK1] == first
        && First(rsp, Arguments(), []) == First(e.sp, e.saved, e.kept) && rsp in stack && stack[rsp] == afterFirst
    {
      Arrive(e);
      var target: Word;
      faulted, target := Open(e);
    }

    /** Code calls through the slot while it holds the thunk. */
    method OnMocked(e: Event, pending: seq<Pending>)
      returns (faulted: bool, log: seq<Observation>, pending': seq<Pending>)
      requires Valid() && Matches(pending) && e.Call? && e.Fits(X86_64) && got == start
      modifies this, page
      ensures log == Next(X86_64, link, old(shadow), e).1
      ensures faulted <==> Next(X86_64, link, old(shadow), e).0.faulted
      ensures !faulted ==> Valid() && Matches(pending') && shadow == Next(X86_64, link, old(shadow), e).0
    {
      ghost var s' := Next(X86_64, link, shadow, e).0;
      CallStep(X86_64, link, shadow, e);
      faulted := Come(e);
      if faulted {
        return true, [Fault], pending;
      }
      ghost var a := Activation(InFirst, e.saved, e.kept, e.ret, e.sp);
      MatchedPush(pending, shadow.acts, Pending(afterFirst, e.sp), a, afterFirst, afterSecond);
      shadow := s';
      assert Represents(PAGES, page[..], start, shadow);
      log, pending' := [First(rsp, Arguments(), [])], pending + [Pending(stack[rsp], rsp)];
    }

    /** Code calls through the slot while it does not hold the thunk. */
    method OnDirect(e: Event) returns (log: seq<Observation>)
      requires Valid() && e.Call? && got != start
      modifies `got, `shadow
      ensures Valid() && shadow == Next(X86_64, link, old(shadow), e).0 && shadow.acts == old(shadow.acts)
      ensures log == Next(X86_64, link, old(shadow), e).1
    {
      log := [Direct(got)];
      got := link.SlotAfterEntering(got, got);
      shadow := shadow.(got := got);
    }

    /** The callback that runs returns. */
    method OnReturn(e: Event, pending: seq<Pending>)
      returns (log: seq<Observation>, pending': seq<Pending>)
      requires Valid() && Matches(pending) && pending != []
      requires e.Return? && |e.result| == 2 && |e.junk| == 7
      modifies this, page
      ensures log == Next(X86_64, link, old(shadow), e).1
      ensures Valid() && Matches(pending') && shadow == Next(X86_64, link, old(shadow), e).0
    {
      var outer, top := pending[..|pending| - 1], pending[|pending| - 1];
      ghost var s, act := shadow, Top();
      MatchedTop(pending, s.acts, Pending(afterSecond, act.sp), act.(phase := InSecond(s.second)),
                 afterFirst, afterSecond);
      Leave(e, top.sp);
      if top.resume == afterFirst {
        var target := AfterFirst(e);
        log, pending' := [Second(target, rsp, Arguments(), [])], outer + [Pending(stack[rsp], rsp)];
      } else {
        var target := AfterSecond(e);
        log, pending' := [Back(target, rsp, [rax, rdx], [])], outer;
      }
    }

    /** The mock is enabled or disabled: the slot changes when the count gets to 1 or to 0. */
    method OnToggle(e: Event)
      requires Valid() && (e.Enable? || e.Disable?)
      modifies `got, `count, `shadow
      ensures Valid() && shadow == Next(X86_64, link, old(shadow), e).0 && shadow.acts == old(shadow.acts)
    {
      if e.Enable? {
        count := count + 1;
        if count == 1 {
          got := start;
        }
      } else {
        count := count - 1;
        if count == 0 {
          got := link.original;
        }
      }
      shadow := shadow.(got := got, count := count);
    }

    method Step(e: Event, pending: seq<Pending>)
      returns (faulted: bool, log: seq<Observation>, pending': seq<Pending>)
      requires Valid() && Matches(pending) && e.Fits(X86_64)
      requires e.Return? ==> |e.result| == 2 && |e.junk| == 7
      modifies this, page
      ensures log == Next(X86_64, link, old(shadow), e).1
      ensures faulted <==> Next(X86_64, link, old(shadow), e).0.faulted
      ensures !faulted ==> Valid() && Matches(pending') && shadow == Next(X86_64, link, old(shadow), e).0
    {
      faulted, log, pending' := false, [], pending;
      if e.Call? && got == start {
        faulted, log, pending' := OnMocked(e, pending);
      } else if e.Call? {
        log := OnDirect(e);
      } else if !e.Return? {
        OnToggle(e);
      } else if pending != [] {
        log, pending' := OnReturn(e, pending);
      }
    }

    /** Every run: the machine shows what the abstract thunk shows, faults when it does, and ends
        in a state that represents the abstract one. */
    method Drive(es: seq<Event>) returns (faulted: bool, log: seq<Observation>)
      requires Valid() && shadow.acts == []
      requires forall i :: 0 <= i < |es| ==> es[i].Shaped(X86_64, 2, 7)
      modifies this, page
      ensures log == Run(X86_64, link, old(shadow), es).1
      ensures faulted <==> Run(X86_64, link, old(shadow), es).0.faulted
      ensures !faulted ==> Valid() && shadow == Run(X86_64, link, old(shadow), es).0
    {
      ghost var s := shadow;
      var pending: seq<Pending> := [];
      faulted, log := false, [];
      for i := 0 to |es|
        invariant Valid() && Matches(pending) && !faulted
        invariant (shadow, log) == Run(X86_64, link, s, es[..i])
      {
        RunSnoc(X86_64, link, s, es, i);
        var o;
        faulted, o, pending := Step(es[i], pending);
        log := log + o;
        if faulted {
          RunStops(X86_64, link, s, es, i + 1);
          return;
        }
      }
      assert es[..|es|] == es;
    }
  }
}
