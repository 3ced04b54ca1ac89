/**
 The aarch64 thunk, instruction by instruction.  A frame holds every register that the callbacks may
 change but the three the thunk uses itself, then the frame pointer and the link register; those two
 stay until the thunk returns.  The machine stack pointer never moves.
 */
module ThunkArm {
  import opened ShadowThunk
  import opened ThunkPages

  // Word indices in the two pages.  The first page is code and is not writeable.
  const DATA := 512
  const TOP := 1019
  const STACKP := 1020
  const GOTENT := 1021
  const CALLBACK1 := 1022
  const CALLBACK2 := 1023

  const PAGES := Layout(AARCH64, 1024, DATA, TOP, STACKP, CALLBACK2, true)

  /** The words of a frame at k, from its j'th on, are written over words. */
  ghost predicate Written(now: seq<Word>, words: seq<Word>, k: int, frame: seq<Word>, j: nat) {
    && |now| == |words| && k + |frame| <= |words|
    && forall i :: 0 <= i < |now| ==> now[i] == if k + j <= i < k + |frame| then frame[i - k] else words[i]
  }

  lemma WrittenAll(now: seq<Word>, words: seq<Word>, k: nat, frame: seq<Word>)
    requires Written(now, words, k, frame, 0)
    ensures now == Overwrite(words, k, frame)
  {
  }

  /** The order in which the frame and the stack pointer are written does not matter. */
  lemma PointerCommutes(words: seq<Word>, k: nat, values: seq<Word>, at: nat, p: Word)
    requires k + |values| <= at < |words|
    ensures Overwrite(words, k, values)[at := p] == Overwrite(words[at := p], k, values)
  {
  }

  // ----- The register file -----

  type Registers = x: seq<Word> | |x| == 31 witness seq(31, _ => 0)

  /** The registers that are saved for CALLBACK2, in frame order: those saved last come first. */
  function Arguments(x: Registers): (v: seq<Word>)
    ensures |v| == 26
  {
    LastSaved(x) + FirstSaved(x)
  }

  function LastSaved(x: Registers): (v: seq<Word>)
    ensures |v| == 14
  {
    [x[27], x[28], x[25], x[26], x[23], x[24], x[21], x[22], x[19], x[20], x[17], x[18], x[15], x[16]]
  }

  function FirstSaved(x: Registers): (v: seq<Word>)
    ensures |v| == 12
  {
    [x[13], x[14], x[8], x[12], x[6], x[7], x[4], x[5], x[2], x[3], x[0], x[1]]
  }

  function SetLast(x: Registers, v: seq<Word>): (x': Registers)
    requires |v| == 14
    ensures LastSaved(x') == v && FirstSaved(x') == FirstSaved(x)
    ensures x'[29] == x[29] && x'[30] == x[30]
  {
    x[27 := v[0]][28 := v[1]][25 := v[2]][26 := v[3]][23 := v[4]][24 := v[5]][21 := v[6]]
     [22 := v[7]][19 := v[8]][20 := v[9]][17 := v[10]][18 := v[11]][15 := v[12]][16 := v[13]]
  }

  function SetFirst(x: Registers, v: seq<Word>): (x': Registers)
    requires |v| == 12
    ensures FirstSaved(x') == v && LastSaved(x') == LastSaved(x)
    ensures x'[29] == x[29] && x'[30] == x[30]
  {
    x[13 := v[0]][14 := v[1]][8 := v[2]][12 := v[3]][6 := v[4]][7 := v[5]]
     [4 := v[6]][5 := v[7]][2 := v[8]][3 := v[9]][0 := v[10]][1 := v[11]]
  }

  function SetArguments(x: Registers, v: seq<Word>): (x': Registers)
    requires |v| == 26
    ensures Arguments(x') == v && x'[29] == x[29] && x'[30] == x[30]
  {
    SetFirst(SetLast(x, v[..14]), v[14..])
  }

  /** The words of a frame, each with the register it comes from. */
  predicate SavedFirst(frame: seq<Word>, x: Registers) {
    && |frame| >= 12
    && frame[0] == x[13] && frame[1] == x[14]
    && frame[2] == x[8] && frame[3] == x[12]
    && frame[4] == x[6] && frame[5] == x[7]
    && frame[6] == x[4] && frame[7] == x[5]
    && frame[8] == x[2] && frame[9] == x[3]
    && frame[10] == x[0] && frame[11] == x[1]
  }

  predicate SavedLast(frame: seq<Word>, x: Registers) {
    && |frame| >= 14
    && frame[0] == x[27] && frame[1] == x[28]
    && frame[2] == x[25] && frame[3] == x[26]
    && frame[4] == x[23] && frame[5] == x[24]
    && frame[6] == x[21] && frame[7] == x[22]
    && frame[8] == x[19] && frame[9] == x[20]
    && frame[10] == x[17] && frame[11] == x[18]
    && frame[12] == x[15] && frame[13] == x[16]
  }

  predicate SameLast(x: Registers, x': Registers) {
    && x[27] == x'[27] && x[28] == x'[28]
    && x[25] == x'[25] && x[26] == x'[26]
    && x[23] == x'[23] && x[24] == x'[24]
    && x[21] == x'[21] && x[22] == x'[22]
    && x[19] == x'[19] && x[20] == x'[20]
    && x[17] == x'[17] && x[18] == x'[18]
    && x[15] == x'[15] && x[16] == x'[16]
  }

  lemma Restored(x: Registers, last: seq<Word>, first: seq<Word>, p: Word, q: Word)
    requires |last| == 14 && |first| == 12
    requires SavedLast(last, x) && SavedFirst(first, x)
    ensures
      var x' := x[29 := p][30 := q];
      Arguments(x') == last + first && x'[29] == p && x'[30] == q
  {
    KeptSet(x, p, q);
    assert LastSaved(x) == last;
    assert FirstSaved(x) == first;
  }

  lemma SavedWords(x: Registers)
    ensures
      var frame := Arguments(x) + [x[29], x[30]];
      SavedLast(frame, x) && SavedFirst(frame[14..], x) && frame[26..] == [x[29], x[30]]
  {
    assert (Arguments(x) + [x[29], x[30]])[14..] == FirstSaved(x) + [x[29], x[30]];
  }

  lemma KeptSet(x: Registers, p: Word, q: Word)
    ensures Arguments(x[29 := p][30 := q]) == Arguments(x)
  {
  }

  /** `FirstFrame` and `FirstDone` for this layout. */
  lemma Resumed(words: seq<Word>, start: Word, link: Link, s: State, s': State, e: Event)
    requires Represents(PAGES, words, start, s) && e.Return? && s.acts != [] && s.acts[|s.acts| - 1].phase.InFirst?
    requires s' == Next(AARCH64, link, s, e).0
    ensures
      var k, top := TOP - |Image(s.acts)|, s.acts[|s.acts| - 1];
      && DATA <= k <= TOP - 28 && words[STACKP] == start + 8 * k
      && words[k..k + 14] + words[k + 14..k + 26] == top.saved && [words[k + 26]] == top.kept
      && Represents(PAGES, words[STACKP := start + 8 * (k + 26)], start, s')
      && s'.got == link.SlotAfterEntering(words[CALLBACK2], s.got)
  {
    var k := TOP - |Image(s.acts)|;
    FirstFrame(PAGES, words, start, s);
    assert words[k..k + 14] + words[k + 14..k + 26] == words[k..k + 26];
    assert words[k + 26..k + 27] == [words[k + 26]];
    FirstDone(PAGES, words, start, link, s, s', e);
    assert PAGES.Pointer(start, k + 26) == start + 8 * (k + 26);
  }

  /** `Called` for this layout, the stack pointer written last. */
  lemma FramePushed(words: seq<Word>, start: Word, link: Link, s: State, e: Event)
    requires Represents(PAGES, words, start, s) && e.Call? && e.Fits(AARCH64) && s.got == link.thunk
    requires |Image(s.acts)| + 28 <= 507
    ensures
      var k := TOP - |Image(s.acts)| - 28;
      Represents(PAGES, Overwrite(words, k, e.saved + e.kept + [e.ret])[STACKP := start + 8 * k], start, Next(AARCH64, link, s, e).0)
  {
    var k := TOP - |Image(s.acts)| - 28;
    PointerCommutes(words, k, e.saved + e.kept + [e.ret], STACKP, start + 8 * k);
    Called(PAGES, words, start, link, s, e);
  }

  /** `SecondFrame` and `SecondDone` for this layout. */
  lemma Finished(words: seq<Word>, start: Word, link: Link, s: State, s': State, e: Event)
    requires Represents(PAGES, words, start, s) && e.Return? && s.acts != [] && s.acts[|s.acts| - 1].phase.InSecond?
    requires s' == Next(AARCH64, link, s, e).0
    ensures
      var k, top := TOP - |Image(s.acts)|, s.acts[|s.acts| - 1];
      && DATA <= k <= TOP - 2 && words[STACKP] == start + 8 * k
      && [words[k]] == top.kept && words[k + 1] == top.ret
      && Represents(PAGES, words[STACKP := start + 8 * (k + 2)][CALLBACK2 := s'.second], start, s')
      && s'.second == (if s.got == link.thunk then words[CALLBACK2] else s.got) && s'.got == link.thunk
  {
    var k := TOP - |Image(s.acts)|;
    SecondFrame(PAGES, words, start, s);
    assert words[k..k + 1] == [words[k]];
    SecondDone(PAGES, words, start, link, s, s', e);
    assert PAGES.Pointer(start, k + 2) == start + 8 * (k + 2);
  }

  class Thunk {
    const start: Word
    const slot: Word
    const first: Word
    const afterFirst: Word
    const afterSecond: Word
    const link: Link
    const page: array<Word>
    var x: Registers            // x0 to x30; x9, x10 and x11 are apart
    var x9: Word
    var x10: Word
    var x11: Word
    var sp: Word
    var got: Word               // the word at `slot`
    var count: int              // enables minus disables of the mock
    ghost var shadow: State

    ghost predicate Valid()
      reads `got, `count, `shadow, page
    {
      && page.Length == 1024 && link.Valid() && link.thunk == start && afterFirst != afterSecond
      && page[GOTENT] == slot && page[CALLBACK1] == first
      && Represents(PAGES, page[..], start, shadow)
      && got == shadow.got && count == shadow.count
    }

    ghost function Top(): Activation
      requires shadow.acts != []
      reads `shadow
    {
      shadow.acts[|shadow.acts| - 1]
    }

    /** The word of the thunk's pages at an address. */
    function At(address: Word): int {
      (address - start) / 8
    }

    function Load(address: Word): Word
      requires 0 <= At(address) < page.Length
      reads page
    {
      page[At(address)]
    }

    /** A thunk as first handed out for a slot, before the slot is patched. */
    constructor (start: Word, slot: Word, callback: Word, func: Word, link: Link,
                 afterFirst: Word, afterSecond: Word)
      requires link.Valid() && link.thunk == start && link.original == func && afterFirst != afterSecond
      ensures Valid() && fresh(page)
      ensures this.link == link && this.start == start && this.first == callback
      ensures this.afterFirst == afterFirst && this.afterSecond == afterSecond
      ensures shadow == State([], func, func, 0, false)
    {
      this.start, this.slot, this.first, this.link := start, slot, callback, link;
      this.afterFirst, this.afterSecond := afterFirst, afterSecond;
      var bufp := new Word[1024];
      bufp[STACKP] := start + 8 * TOP;
      bufp[GOTENT] := slot;
      bufp[CALLBACK1] := callback;
      bufp[CALLBACK2] := func;
      page := bufp;
      got, count := func, 0;
      shadow := State([], func, func, 0, false);
    }

    /** Stores two registers just below x10, moving it down, and so two more words of a frame at k.
        The store faults if a word of it is on the code page. */
    method Stp(a: nat, b: nat, ghost words: seq<Word>, ghost k: int, ghost frame: seq<Word>, ghost j: nat)
      returns (faulted: bool)
      requires page.Length == |words| == 1024 && a < 31 && b < 31 && j + 2 <= |frame|
      requires DATA <= k + j + 2 && k + |frame| <= TOP && x10 == start + 8 * (k + j + 2)
      requires frame[j] == x[a] && frame[j + 1] == x[b] && Written(page[..], words, k, frame, j + 2)
      modifies `x10, page
      ensures faulted <==> k + j < DATA
      ensures x10 == start + 8 * (k + j)
      ensures !faulted ==> Written(page[..], words, k, frame, j)
    {
      x10 := x10 - 16;
      if At(x10) < DATA {
        return true;
      }
      page[At(x10)], page[At(x10 + 8)] := x[a], x[b];
      return false;
    }

    method SaveFirst(ghost words: seq<Word>, ghost k: int, ghost frame: seq<Word>) returns (faulted: bool)
      requires page.Length == |words| == 1024 && |frame| == 28 && SavedFirst(frame[14..], x) && frame[26..] == [x[29], x[30]]
      requires DATA <= k + 28 <= TOP && x10 == start + 8 * (k + 28) && page[..] == words
      modifies `x10, page
      ensures faulted <==> k + 14 < DATA
      ensures !faulted ==> x10 == start + 8 * (k + 14) && Written(page[..], words, k, frame, 14)
    {
      faulted := Stp(29, 30, words, k, frame, 26);
      if faulted { return; }
      faulted := Stp(0, 1, words, k, frame, 24);
      if faulted { return; }
      faulted := Stp(2, 3, words, k, frame, 22);
      if faulted { return; }
      faulted := Stp(4, 5, words, k, frame, 20);
      if faulted { return; }
      faulted := Stp(6, 7, words, k, frame, 18);
      if faulted { return; }
      faulted := Stp(8, 12, words, k, frame, 16);
      if faulted { return; }
      faulted := Stp(13, 14, words, k, frame, 14);
      if faulted { return; }
    }

    method SaveLast(ghost words: seq<Word>, ghost k: int, ghost frame: seq<Word>) returns (faulted: bool)
      requires page.Length == |words| == 1024 && |frame| == 28 && SavedLast(frame, x)
      requires DATA <= k + 14 && k + 28 <= TOP && x10 == start + 8 * (k + 14) && Written(page[..], words, k, frame, 14)
      modifies `x10, page
      ensures faulted <==> k < DATA
      ensures !faulted ==> x10 == start + 8 * k && Written(page[..], words, k, frame, 0)
    {
      faulted := Stp(15, 16, words, k, frame, 12);
      if faulted { return; }
      faulted := Stp(17, 18, words, k, frame, 10);
      if faulted { return; }
      faulted := Stp(19, 20, words, k, frame, 8);
      if faulted { return; }
      faulted := Stp(21, 22, words, k, frame, 6);
      if faulted { return; }
      faulted := Stp(23, 24, words, k, frame, 4);
      if faulted { return; }
      faulted := Stp(25, 26, words, k, frame, 2);
      if faulted { return; }
      faulted := Stp(27, 28, words, k, frame, 0);
      if faulted { return; }
    }

    /** From the entry point to CALLBACK1.  Running out of stack faults on the code page before any
        word of a live frame is written. */
    method Enter(ghost k: nat) returns (faulted: bool, target: Word)
      requires page.Length == 1024 && DATA <= k <= TOP && page[STACKP] == start + 8 * k
      modifies `x9, `x10, `x, page
      ensures faulted <==> k - 28 < DATA
      ensures !faulted ==>
        && page[..] == Overwrite(old(page[..]), k - 28, old(Arguments(x) + [x[29], x[30]]))[STACKP := start + 8 * (k - 28)]
        && page[GOTENT] == old(page[GOTENT]) && target == page[CALLBACK1] == old(page[CALLBACK1])
        && x == old(x)[30 := afterFirst]
    {
      ghost var words, frame := page[..], Arguments(x) + [x[29], x[30]];
      x9 := start;
      x10 := page[STACKP];
      SavedWords(x);
      faulted := SaveFirst(words, k - 28, frame);
      if faulted { return true, 0; }
      faulted := SaveLast(words, k - 28, frame);
      if faulted { return true, 0; }
      WrittenAll(page[..], words, k - 28, frame);
      assert page[GOTENT] == page[..][GOTENT] && page[CALLBACK1] == page[..][CALLBACK1];
      page[STACKP] := x10;
      x10 := page[CALLBACK1];
      x := x[30 := afterFirst];
      return false, x10;
    }

    /** `Enter`, as the push of an activation. */
    method Open(ghost e: Event) returns (faulted: bool, target: Word)
      requires page.Length == 1024 && Represents(PAGES, page[..], start, shadow)
      requires e == Call(Arguments(x), [x[29]], sp, x[30])
      requires link.thunk == start && shadow.got == start
      modifies `x9, `x10, `x, page
      ensures faulted <==> |Image(shadow.acts)| + AARCH64.FirstWords() > AARCH64.capacity
      ensures !faulted ==>
        && Represents(PAGES, page[..], start, Next(AARCH64, link, shadow, e).0)
        && page[GOTENT] == old(page[GOTENT]) && page[CALLBACK1] == old(page[CALLBACK1]) == target
        && x[30] == afterFirst && Arguments(x) == old(Arguments(x)) && x[29] == old(x[29])
    {
      ghost var words, k, x0 := page[..], TOP - |Image(shadow.acts)|, x;
      assert e.saved + e.kept + [e.ret] == Arguments(x) + [x[29], x[30]];
      faulted, target := Enter(k);
      if !faulted {
        FramePushed(words, start, link, shadow, e);
        KeptSet(x0, x0[29], afterFirst);
        assert x0[29 := x0[29]] == x0;
      }
    }

    /** Loads two registers at x10 and moves it up. */
    method Ldp(a: nat, b: nat, ghost k: nat)
      requires page.Length == 1024 && k + 1 < TOP && x10 == start + 8 * k && a < 31 && b < 31
      modifies `x10, `x
      ensures x == old(x)[a := page[k]][b := page[k + 1]] && x10 == start + 8 * k + 16
    {
      x := x[a := Load(x10)][b := Load(x10 + 8)];
      x10 := x10 + 16;
    }

    method RestoreLast(ghost k: nat)
      requires page.Length == 1024 && k + 14 <= TOP && x10 == start + 8 * k
      modifies `x10, `x
      ensures SavedLast(page[k..k + 14], x) && x10 == start + 8 * (k + 14)
    {
      Ldp(27, 28, k);
      Ldp(25, 26, k + 2);
      Ldp(23, 24, k + 4);
      Ldp(21, 22, k + 6);
      Ldp(19, 20, k + 8);
      Ldp(17, 18, k + 10);
      Ldp(15, 16, k + 12);
    }

    method RestoreFirst(ghost k: nat)
      requires page.Length == 1024 && k + 12 <= TOP && x10 == start + 8 * k
      modifies `x10, `x
      ensures SavedFirst(page[k..k + 12], x) && SameLast(old(x), x) && x10 == start + 8 * (k + 12)
    {
      Ldp(13, 14, k);
      Ldp(8, 12, k + 2);
      Ldp(6, 7, k + 4);
      Ldp(4, 5, k + 6);
      Ldp(2, 3, k + 8);
      Ldp(0, 1, k + 10);
    }

    /** From CALLBACK1's return to CALLBACK2: the argument registers are restored and leave the
        frame, the frame pointer is restored and stays. */
    method Resume(ghost k: nat, ghost last: seq<Word>, ghost first: seq<Word>) returns (target: Word)
      requires page.Length == 1024 && k + 28 <= TOP && page[STACKP] == start + 8 * k
      requires last == page[k..k + 14] && first == page[k + 14..k + 26]
      modifies `x9, `x10, `x, page
      ensures Arguments(x) == last + first && x[29] == old(page[k + 26]) && x[30] == afterSecond
      ensures page[..] == old(page[..])[STACKP := start + 8 * (k + 26)] && target == page[CALLBACK2]
    {
      x9 := start;
      x10 := page[STACKP];
      RestoreLast(k);
      RestoreFirst(k + 14);
      Restored(x, last, first, page[k + 26], afterSecond);
      x := x[29 := Load(x10)];
      page[STACKP] := x10;
      x10 := page[CALLBACK2];
      x := x[30 := afterSecond];
      return x10;
    }

    /** `Resume`, as the change of phase.  If CALLBACK2 is the stub, entering it makes the linker
        resolve the slot. */
    method AfterFirst(ghost e: Event) returns (target: Word)
      requires Valid() && e.Return? && shadow.acts != [] && Top().phase.InFirst?
      modifies `x9, `x10, `x, `got, `shadow, page
      ensures Valid() && target == old(shadow.second)
      ensures Arguments(x) == old(Top()).saved && [x[29]] == old(Top()).kept && x[30] == afterSecond
      ensures shadow == Next(AARCH64, link, old(shadow), e).0
    {
      ghost var words, s', k := page[..], Next(AARCH64, link, shadow, e).0, TOP - |Image(shadow.acts)|;
      Resumed(words, start, link, shadow, s', e);
      assert page[k..k + 14] == words[k..k + 14] && page[k + 14..k + 26] == words[k + 14..k + 26];
      target := Resume(k, words[k..k + 14], words[k + 14..k + 26]);
      got := link.SlotAfterEntering(target, got);
      assert page[GOTENT] == page[..][GOTENT] && page[CALLBACK1] == page[..][CALLBACK1];
      shadow := s';
    }

    /** From CALLBACK2's return to the caller.  If the slot no longer holds the thunk, the linker has
        resolved it: keep the resolved function as CALLBACK2, and put the thunk back. */
    method Epilogue(ghost k: nat) returns (target: Word)
      requires page.Length == 1024 && page[GOTENT] == slot
      requires DATA <= k <= TOP - 2 && page[STACKP] == start + 8 * k
      modifies `x9, `x10, `x11, `x, `got, page
      ensures got == start && x == old(x)[29 := old(page[k])][30 := old(page[k + 1])] && target == old(page[k + 1])
      ensures page[..] == old(page[..])[STACKP := start + 8 * (k + 2)]
                          [CALLBACK2 := if old(got) == start then old(page[CALLBACK2]) else old(got)]
    {
      x9 := start;
      x10 := page[STACKP];
      Ldp(29, 30, k);
      page[STACKP] := x10;
      x10 := page[GOTENT];
      assert x10 == slot;
      x11 := got;  // the word at x10
      if x11 != x9 {
        page[CALLBACK2] := x11;
        got := x9;
      }
      return x[30];
    }

    /** `Epilogue`, as the end of an activation.  Only the temporaries and the two kept registers
        change: whatever CALLBACK2 leaves in the others reaches the caller. */
    method AfterSecond(ghost e: Event) returns (target: Word)
      requires Valid() && e.Return? && shadow.acts != [] && Top().phase.InSecond?
      modifies `x9, `x10, `x11, `x, `got, `shadow, page
      ensures Valid() && target == x[30] == old(Top()).ret && [x[29]] == old(Top()).kept
      ensures Arguments(x) == old(Arguments(x))
      ensures shadow == Next(AARCH64, link, old(shadow), e).0
    {
      ghost var words, s', k := page[..], Next(AARCH64, link, shadow, e).0, TOP - |Image(shadow.acts)|;
      Finished(words, start, link, shadow, s', e);
      target := Epilogue(k);
      KeptSet(old(x), words[k], words[k + 1]);
      assert page[..] == words[STACKP := start + 8 * (k + 2)][CALLBACK2 := s'.second];
      assert page[GOTENT] == page[..][GOTENT] && page[CALLBACK1] == page[..][CALLBACK1];
      shadow := s';
    }

    ghost predicate Matches(pending: seq<Pending>)
      reads `shadow
    {
      Matched(pending, shadow.acts, afterFirst, afterSecond)
    }

    /** The registers as the caller leaves them. */
    method Arrive(e: Event)
      requires e.Call? && e.Fits(AARCH64)
      modifies `x, `sp
      ensures e == Call(Arguments(x), [x[29]], sp, x[30])
    {
      x, sp := SetArguments(x, e.saved)[29 := e.kept[0]][30 := e.ret], e.sp;
      KeptSet(SetArguments(old(x), e.saved), e.kept[0], e.ret);
      assert [x[29]] == e.kept;
    }

    /** A callback returns with its own values in every register; the stack pointer is as it was
        when the callback was entered. */
    method Leave(e: Event, sp: Word)
      requires e.Return? && |e.result| == 26 && |e.junk| == 5
      modifies `x9, `x10, `x11, `x, `sp
      ensures Arguments(x) == e.result && this.sp == sp
    {
      x9, x10, x11 := e.junk[0], e.junk[1], e.junk[2];
      x := SetArguments(x, e.result)[29 := e.junk[3]][30 := e.junk[4]];
      KeptSet(SetArguments(old(x), e.result), e.junk[3], e.junk[4]);
      this.sp := sp;
    }

    /** The caller's registers, then the way to CALLBACK1. */
    method Come(e: Event) returns (faulted: bool)
      requires Valid() && e.Call? && e.Fits(AARCH64) && got == start
      modifies `x9, `x10, `x, `sp, page
      ensures faulted <==> |Image(shadow.acts)| + AARCH64.FirstWords() > AARCH64.capacity
      ensures !faulted ==>
        && Represents(PAGES, page[..], start, Next(AARCH64, link, shadow, e).0)
        && page[GOTENT] == slot && page[CALLBACK1] == first
        && First(sp, Arguments(x), [x[29]]) == First(e.sp, e.saved, e.kept) && x[30] == afterFirst
    {
      Arrive(e);
      var target: Word;
      faulted, target := Open(e);
    }

    /** Code calls through the slot while it holds the thunk. */
    method OnMocked(e: Event, pending: seq<Pending>)
      returns (faulted: bool, log: seq<Observation>, pending': seq<Pending>)
      requires Valid() && Matches(pending) && e.Call? && e.Fits(AARCH64) && got == start
      modifies this, page
      ensures log == Next(AARCH64, link, old(shadow), e).1
      ensures faulted <==> Next(AARCH64, link, old(shadow), e).0.faulted
      ensures !faulted ==> Valid() && Matches(pending') && shadow == Next(AARCH64, link, old(shadow), e).0
    {
      ghost var s' := Next(AARCH64, link, shadow, e).0;
      CallStep(AARCH64, link, shadow, e);
      faulted := Come(e);
      if faulted {
        return true, [Fault], pending;
      }
      ghost var a := Activation(InFirst, e.saved, e.kept, e.ret, e.sp);
      MatchedPush(pending, shadow.acts, Pending(afterFirst, e.sp), a, afterFirst, afterSecond);
      shadow := s';
      assert Represents(PAGES, page[..], start, shadow);
      log, pending' := [First(sp, Arguments(x), [x[29]])], pending + [Pending(x[30], sp)];
    }

    /** Code calls through the slot while it does not hold the thunk. */
    method OnDirect(e: Event) returns (log: seq<Observation>)
      requires Valid() && e.Call? && got != start
      modifies `got, `shadow
      ensures Valid() && shadow == Next(AARCH64, link, old(shadow), e).0 && shadow.acts == old(shadow.acts)
      ensures log == Next(AARCH64, link, old(shadow), e).1
    {
      log := [Direct(got)];
      got := link.SlotAfterEntering(got, got);
      shadow := shadow.(got := got);
    }

    /** The callback that runs returns. */
    method OnReturn(e: Event, pending: seq<Pending>)
      returns (log: seq<Observation>, pending': seq<Pending>)
      requires Valid() && Matches(pending) && pending != []
      requires e.Return? && |e.result| == 26 && |e.junk| == 5
      modifies this, page
      ensures log == Next(AARCH64, link, old(shadow), e).1
      ensures Valid() && Matches(pending') && shadow == Next(AARCH64, link, old(shadow), e).0
    {
      var outer, top := pending[..|pending| - 1], pending[|pending| - 1];
      ghost var s, act := shadow, Top();
      MatchedTop(pending, s.acts, Pending(afterSecond, act.sp), act.(phase := InSecond(s.second)),
                 afterFirst, afterSecond);
      Leave(e, top.sp);
      if top.resume == afterFirst {
        var target := AfterFirst(e);
        log, pending' := [Second(target, sp, Arguments(x), [x[29]])], outer + [Pending(x[30], sp)];
      } else {
        var target := AfterSecond(e);
        log, pending' := [Back(target, sp, Arguments(x), [x[29]])], outer;
      }
    }

    /** The mock is enabled or disabled: the slot changes when the count gets to 1 or to 0. */
    method OnToggle(e: Event)
      requires Valid() && (e.Enable? || e.Disable?)
      modifies `got, `count, `shadow
      ensures Valid() && shadow == Next(AARCH64, link, old(shadow), e).0 && shadow.acts == old(shadow.acts)
    {
      if e.Enable? {
        count := count + 1;
        if count == 1 {
          got := start;
        }
      } else {
        count := count - 1;
        if count == 0 {
          got := link.original;
        }
      }
      shadow := shadow.(got := got, count := count);
    }

    method Step(e: Event, pending: seq<Pending>)
      returns (faulted: bool, log: seq<Observation>, pending': seq<Pending>)
      requires Valid() && Matches(pending) && e.Fits(AARCH64)
      requires e.Return? ==> |e.result| == 26 && |e.junk| == 5
      modifies this, page
      ensures log == Next(AARCH64, link, old(shadow), e).1
      ensures faulted <==> Next(AARCH64, link, old(shadow), e).0.faulted
      ensures !faulted ==> Valid() && Matches(pending') && shadow == Next(AARCH64, link, old(shadow), e).0
    {
      faulted, log, pending' := false, [], pending;
      if e.Call? && got == start {
        faulted, log, pending' := OnMocked(e, pending);
      } else if e.Call? {
        log := OnDirect(e);
      } else if !e.Return? {
        OnToggle(e);
      } else if pending != [] {
        log, pending' := OnReturn(e, pending);
      }
    }

    /** Every run: the machine shows what the abstract thunk shows, faults when it does, and ends
        in a state that represents the abstract one. */
    method Drive(es: seq<Event>) returns (faulted: bool, log: seq<Observation>)
      requires Valid() && shadow.acts == []
      requires forall i :: 0 <= i < |es| ==> es[i].Shaped(AARCH64, 26, 5)
      modifies this, page
      ensures log == Run(AARCH64, link, old(shadow), es).1
      ensures faulted <==> Run(AARCH64, link, old(shadow), es).0.faulted
      ensures !faulted ==> Valid() && shadow == Run(AARCH64, link, old(shadow), es).0
    {
      ghost var s := shadow;
      var pending: seq<Pending> := [];
      faulted, log := false, [];
      for i := 0 to |es|
        invariant Valid() && Matches(pending) && !faulted
        invariant (shadow, log) == Run(AARCH64, link, s, es[..i])
      {
        RunSnoc(AARCH64, link, s, es, i);
        var o;
        faulted, o, pending := Step(es[i], pending);
        log := log + o;
        if faulted {
          RunStops(AARCH64, link, s, es, i + 1);
          return;
        }
      }
      assert es[..|es|] == es;
    }
  }
}
