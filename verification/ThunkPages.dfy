/**
 The two pages of a thunk, for any of the processors: how the words at the end of the data page
 represent the abstract thunk's activations, and what pushing and dropping frames does to that.
 */
module ThunkPages {
  import opened ShadowThunk

  /** Word positions in the pages.
      - data: first writeable word
      - top: end of the thunk stack
      - pointer: the thunk stack pointer; second: CALLBACK2
      - wide: eight-byte words, with the pointer at the lowest word in use; otherwise four-byte
        words, with the pointer at the word below */
  datatype Layout = Layout(arch: Arch, size: nat, data: nat, top: nat, pointer: nat, second: nat, wide: bool)
  {
    predicate Valid() {
      data + arch.capacity == top <= pointer < second < size
    }

    /** The thunk stack pointer when low is the lowest word in use. */
    function Pointer(start: Word, low: int): Word {
      if wide then start + 8 * low else start + 4 * (low - 1)
    }
  }

  /** The pages hold exactly the live activations' frames, youngest lowest. */
  ghost predicate Represents(l: Layout, words: seq<Word>, start: Word, s: State) {
    && l.Valid() && |words| == l.size && !s.faulted && s.Fits(l.arch)
    && |Image(s.acts)| <= l.arch.capacity
    && words[l.pointer] == l.Pointer(start, l.top - |Image(s.acts)|)
    && words[l.top - |Image(s.acts)|..l.top] == Image(s.acts)
    && words[l.second] == s.second
  }

  function Overwrite(words: seq<Word>, k: nat, values: seq<Word>): seq<Word>
    requires k + |values| <= |words|
  {
    words[..k] + values + words[k + |values|..]
  }

  /** Writing a frame just below the words in use, with the stack pointer moved down to it,
      pushes its activation. */
  lemma Pushes(l: Layout, words: seq<Word>, start: Word, s: State, a: Activation)
    requires Represents(l, words, start, s) && a.Fits(l.arch)
    requires |Image(s.acts)| + |a.Frame()| <= l.arch.capacity
    ensures
      var low := l.top - |Image(s.acts)| - |a.Frame()|;
      Represents(l, Overwrite(words[l.pointer := l.Pointer(start, low)], low, a.Frame()), start, s.(acts := s.acts + [a]))
  {
    ImageGrows(s.acts, a);
    var low := l.top - |Image(s.acts)| - |a.Frame()|;
    OverwrittenBelow(words, low, l.top, a.Frame(), Image(s.acts), l.pointer, l.Pointer(start, low));
  }

  lemma OverwrittenBelow(words: seq<Word>, low: nat, top: nat, frame: seq<Word>, image: seq<Word>, at: nat, p: Word)
    requires low + |frame| + |image| == top <= at < |words| && words[low + |frame|..top] == image
    ensures
      var words' := Overwrite(words[at := p], low, frame);
      && |words'| == |words| && words'[low..top] == frame + image && words'[at] == p
      && forall i :: top <= i < |words| && i != at ==> words'[i] == words[i]
  {
    var words', mid := Overwrite(words[at := p], low, frame), low + |frame|;
    assert words'[low..mid] == frame;
    assert words'[mid..top] == words[mid..top];
    assert words'[low..top] == words'[low..mid] + words'[mid..top];
  }

  /** The first words of the image, and the ones after them. */
  lemma InImage(words: seq<Word>, low: nat, top: nat, image: seq<Word>, a: nat, b: nat)
    requires low <= top <= |words| && words[low..top] == image && a + b <= |image|
    ensures words[low..low + a] == image[..a] && words[low + a..low + a + b] == image[a..a + b]
    ensures a + b < |image| ==> words[low + a + b] == image[a + b]
  {
    forall j | 0 <= j < |image|
      ensures words[low + j] == image[j]
    {
      assert words[low..top][j] == words[low + j];
    }
  }

  /** A mocked call for which there is room. */
  lemma Called(l: Layout, words: seq<Word>, start: Word, link: Link, s: State, e: Event)
    requires Represents(l, words, start, s) && e.Call? && e.Fits(l.arch) && s.got == link.thunk
    requires |Image(s.acts)| + l.arch.FirstWords() <= l.arch.capacity
    ensures
      var s', low := Next(l.arch, link, s, e).0, l.top - |Image(s.acts)| - l.arch.FirstWords();
      && Represents(l, Overwrite(words[l.pointer := l.Pointer(start, low)], low, e.saved + e.kept + [e.ret]), start, s')
      && s'.got == s.got && s'.count == s.count
  {
    var a := Activation(InFirst, e.saved, e.kept, e.ret, e.sp);
    assert a.Frame() == e.saved + e.kept + [e.ret];
    Pushes(l, words, start, s, a);
  }

  /** Moving the stack pointer up drops the lowest words in use: the argument words of the youngest
      frame when CALLBACK1 is done, the rest at the end. */
  lemma Drops(l: Layout, words: seq<Word>, start: Word, s: State, s': State, n: nat)
    requires Represents(l, words, start, s)
    requires n <= |Image(s.acts)| && Image(s'.acts) == Image(s.acts)[n..]
    requires s'.Fits(l.arch) && !s'.faulted
    ensures Represents(l, words[l.pointer := l.Pointer(start, l.top - |Image(s.acts)| + n)][l.second := s'.second], start, s')
  {
    var low := l.top - |Image(s.acts)|;
    var words' := words[l.pointer := l.Pointer(start, low + n)][l.second := s'.second];
    assert words'[low + n..l.top] == words[low..l.top][n..];
  }

  /** The same when CALLBACK2 stays. */
  lemma DropsOnly(l: Layout, words: seq<Word>, start: Word, s: State, s': State, n: nat)
    requires Represents(l, words, start, s)
    requires n <= |Image(s.acts)| && Image(s'.acts) == Image(s.acts)[n..]
    requires s'.Fits(l.arch) && !s'.faulted && s'.second == s.second
    ensures Represents(l, words[l.pointer := l.Pointer(start, l.top - |Image(s.acts)| + n)], start, s')
  {
    Drops(l, words, start, s, s', n);
    var words' := words[l.pointer := l.Pointer(start, l.top - |Image(s.acts)| + n)];
    assert words'[l.second := s.second] == words';
  }

  lemma FirstShrinks(arch: Arch, acts: seq<Activation>, target: Word)
    requires acts != [] && acts[|acts| - 1].phase.InFirst? && acts[|acts| - 1].Fits(arch)
    ensures
      var outer, top := acts[..|acts| - 1], acts[|acts| - 1];
      && |Image(acts)| >= arch.FirstWords() && Image(acts)[..arch.saved] == top.saved
      && Image(acts)[arch.saved..arch.saved + arch.kept] == top.kept
      && Image(outer + [top.(phase := InSecond(target))]) == Image(acts)[arch.saved..]
  {
    var outer, top := acts[..|acts| - 1], acts[|acts| - 1];
    ImageGrows(outer, top.(phase := InSecond(target)));
    assert Image(acts) == top.saved + top.kept + [top.ret] + Image(outer);
  }

  lemma SecondShrinks(arch: Arch, acts: seq<Activation>)
    requires acts != [] && acts[|acts| - 1].phase.InSecond? && acts[|acts| - 1].Fits(arch)
    ensures
      var outer, top := acts[..|acts| - 1], acts[|acts| - 1];
      && |Image(acts)| >= arch.SecondWords() && Image(acts)[..arch.kept] == top.kept
      && Image(acts)[arch.kept] == top.ret && Image(outer) == Image(acts)[arch.SecondWords()..]
  {
    assert Image(acts) == acts[|acts| - 1].kept + [acts[|acts| - 1].ret] + Image(acts[..|acts| - 1]);
  }

  /** The step from CALLBACK1 to CALLBACK2 keeps everything but the argument words. */
  lemma FirstStep(arch: Arch, link: Link, s: State, e: Event)
    requires !s.faulted && s.Fits(arch) && e.Return? && s.acts != [] && s.acts[|s.acts| - 1].phase.InFirst?
    ensures
      var s' := Next(arch, link, s, e).0;
      && !s'.faulted && s'.Fits(arch) && s'.second == s.second
      && Image(s'.acts) == Image(s.acts)[arch.saved..] && |Image(s.acts)| >= arch.FirstWords()
      && s'.got == link.SlotAfterEntering(s.second, s.got)
  {
    FirstShrinks(arch, s.acts, s.second);
  }

  /** The frame of the youngest activation in CALLBACK1. */
  lemma FirstFrame(l: Layout, words: seq<Word>, start: Word, s: State)
    requires Represents(l, words, start, s) && s.acts != [] && s.acts[|s.acts| - 1].phase.InFirst?
    ensures
      var k, top := l.top - |Image(s.acts)|, s.acts[|s.acts| - 1];
      && l.data <= k <= l.top - l.arch.FirstWords() && words[l.pointer] == l.Pointer(start, k)
      && words[k..k + l.arch.saved] == top.saved
      && words[k + l.arch.saved..k + l.arch.saved + l.arch.kept] == top.kept
  {
    var k := l.top - |Image(s.acts)|;
    assert s.acts[|s.acts| - 1].Fits(l.arch);
    FirstShrinks(l.arch, s.acts, s.second);
    InImage(words, k, l.top, Image(s.acts), l.arch.saved, l.arch.kept);
  }

  /** The step to CALLBACK2, with the stack pointer moved past the argument words. */
  lemma FirstDone(l: Layout, words: seq<Word>, start: Word, link: Link, s: State, s': State, e: Event)
    requires Represents(l, words, start, s) && e.Return? && s.acts != [] && s.acts[|s.acts| - 1].phase.InFirst?
    requires s' == Next(l.arch, link, s, e).0
    ensures Represents(l, words[l.pointer := l.Pointer(start, l.top - |Image(s.acts)| + l.arch.saved)], start, s')
    ensures s'.got == link.SlotAfterEntering(words[l.second], s.got)
  {
    FirstStep(l.arch, link, s, e);
    assert Image(s'.acts) == Image(s.acts)[l.arch.saved..];
    assert s'.Fits(l.arch) && !s'.faulted && s'.second == s.second;
    DropsOnly(l, words, start, s, s', l.arch.saved);
    assert Represents(l, words[l.pointer := l.Pointer(start, l.top - |Image(s.acts)| + l.arch.saved)], start, s');
  }

  /** The frame of the youngest activation in CALLBACK2. */
  lemma SecondFrame(l: Layout, words: seq<Word>, start: Word, s: State)
    requires Represents(l, words, start, s) && s.acts != [] && s.acts[|s.acts| - 1].phase.InSecond?
    ensures
      var k, top := l.top - |Image(s.acts)|, s.acts[|s.acts| - 1];
      && l.data <= k <= l.top - l.arch.SecondWords() && words[l.pointer] == l.Pointer(start, k)
      && words[k..k + l.arch.kept] == top.kept && words[k + l.arch.kept] == top.ret
  {
    var k := l.top - |Image(s.acts)|;
    assert s.acts[|s.acts| - 1].Fits(l.arch);
    SecondShrinks(l.arch, s.acts);
    InImage(words, k, l.top, Image(s.acts), l.arch.kept, 0);
  }

  /** The step from CALLBACK2 to the caller drops the frame and puts the thunk back in the slot. */
  lemma SecondStep(arch: Arch, link: Link, s: State, e: Event)
    requires !s.faulted && s.Fits(arch) && e.Return? && s.acts != [] && s.acts[|s.acts| - 1].phase.InSecond?
    ensures
      var s' := Next(arch, link, s, e).0;
      && !s'.faulted && s'.Fits(arch) && s'.got == link.thunk
      && Image(s'.acts) == Image(s.acts)[arch.SecondWords()..] && |Image(s.acts)| >= arch.SecondWords()
      && s'.second == (if s.got == link.thunk then s.second else s.got)
  {
    SecondShrinks(arch, s.acts);
  }

  /** The step to the caller, with the stack pointer moved past the frame. */
  lemma SecondDone(l: Layout, words: seq<Word>, start: Word, link: Link, s: State, s': State, e: Event)
    requires Represents(l, words, start, s) && e.Return? && s.acts != [] && s.acts[|s.acts| - 1].phase.InSecond?
    requires s' == Next(l.arch, link, s, e).0
    ensures Represents(l, words[l.pointer := l.Pointer(start, l.top - |Image(s.acts)| + l.arch.SecondWords())]
                               [l.second := s'.second], start, s')
    ensures s'.second == (if s.got == link.thunk then words[l.second] else s.got) && s'.got == link.thunk
  {
    SecondStep(l.arch, link, s, e);
    assert Image(s'.acts) == Image(s.acts)[l.arch.SecondWords()..];
    assert s'.Fits(l.arch) && !s'.faulted;
    Drops(l, words, start, s, s', l.arch.SecondWords());
    assert Represents(l, words[l.pointer := l.Pointer(start, l.top - |Image(s.acts)| + l.arch.SecondWords())]
                              [l.second := s'.second], start, s');
  }

  // ----- The callbacks that run -----

  /** A callback on entry: where it returns to, and the stack pointer it was entered with. */
  datatype Pending = Pending(resume: Word, sp: Word)

  /** Each callback that runs was entered from one of the thunk's two calls, at the stack pointer
      its caller had. */
  ghost predicate Matched(pending: seq<Pending>, acts: seq<Activation>, afterFirst: Word, afterSecond: Word) {
    && |pending| == |acts|
    && forall i :: 0 <= i < |pending| ==>
         pending[i] == Pending(if acts[i].phase.InFirst? then afterFirst else afterSecond, acts[i].sp)
  }

  lemma MatchedPush(pending: seq<Pending>, acts: seq<Activation>, p: Pending, a: Activation,
                    afterFirst: Word, afterSecond: Word)
    requires Matched(pending, acts, afterFirst, afterSecond)
    requires p == Pending(if a.phase.InFirst? then afterFirst else afterSecond, a.sp)
    ensures Matched(pending + [p], acts + [a], afterFirst, afterSecond)
  {
  }

  /** Replacing the youngest activation keeps the match. */
  lemma MatchedTop(pending: seq<Pending>, acts: seq<Activation>, p: Pending, a: Activation,
                   afterFirst: Word, afterSecond: Word)
    requires Matched(pending, acts, afterFirst, afterSecond) && acts != []
    requires p == Pending(if a.phase.InFirst? then afterFirst else afterSecond, a.sp)
    ensures Matched(pending[..|pending| - 1], acts[..|acts| - 1], afterFirst, afterSecond)
    ensures Matched(pending[..|pending| - 1] + [p], acts[..|acts| - 1] + [a], afterFirst, afterSecond)
  {
  }
}
