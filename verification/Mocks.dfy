/**
 Mocks that overwrite GOT slots, with their enable counts.  The class updates the process's memory
 in place; `MockRuns` proves what any sequence of enables and disables, and any nesting of mocks,
 leaves behind.
 */
module Mocks {
  type Word = int

  /** Memory at the addresses of relocated words. */
  type Memory = map<Word, Word>

  datatype RelocationType = JumpSlot | GlobDat | Absolute64 | Other(number: nat)
  {
    predicate IsAbsolute() { JumpSlot? || GlobDat? || Absolute64? }
  }

  /** A place that refers to the mocked function. */
  datatype Slot = Slot(address: Word, kind: RelocationType, addend: Word)

  /** A slot and what it held when the mock was constructed. */
  datatype Replacement = Replacement(slot: Slot, original: Word)

  function Capture(mem: Memory, slots: seq<Slot>): (rs: seq<Replacement>)
    requires forall s <- slots :: s.address in mem
    ensures |rs| == |slots|
    ensures forall i :: 0 <= i < |rs| ==> rs[i] == Replacement(slots[i], mem[slots[i].address])
  {
    if slots == [] then [] else [Replacement(slots[0], mem[slots[0].address])] + Capture(mem, slots[1..])
  }

  /** Patching goes through the slots in order, pointing each at the code for its address, and stops
      at the first relocation type that it does not know. */
  function Patch(mem: Memory, rs: seq<Replacement>, code: Word -> Word): Memory
    decreases |rs|
  {
    if rs == [] || !rs[0].slot.kind.IsAbsolute() then mem
    else Patch(mem[rs[0].slot.address := code(rs[0].slot.address) + rs[0].slot.addend], rs[1..], code)
  }

  predicate Supported(rs: seq<Replacement>) {
    forall r <- rs :: r.slot.kind.IsAbsolute()
  }

  /** Only relocation types other than the three absolute ones are not supported. */
  lemma SupportedIff(rs: seq<Replacement>)
    ensures Supported(rs) <==> forall r <- rs :: r.slot.kind in {JumpSlot, GlobDat, Absolute64}
    ensures !Supported(rs) <==> exists r <- rs :: r.slot.kind.Other?
  {
    if !Supported(rs) {
      var r :| r in rs && !r.slot.kind.IsAbsolute();
      assert r.slot.kind.Other?;
    }
  }

  function Restore(mem: Memory, rs: seq<Replacement>): Memory
    decreases |rs|
  {
    if rs == [] then mem else Restore(mem[rs[0].slot.address := rs[0].original], rs[1..])
  }

  /** A mock as a value: its slots, the code that patching points each at, and its count. */
  datatype MockState = MockState(replacements: seq<Replacement>, code: Word -> Word, count: int)

  /** One enable or disable.  Only the first enable patches, and only the disable that gets the count
      to 0 restores. */
  function Toggle(on: bool, m: MockState, mem: Memory): (MockState, Memory) {
    if on then
      (m.(count := m.count + 1), if m.count + 1 == 1 then Patch(mem, m.replacements, m.code) else mem)
    else
      (m.(count := m.count - 1), if m.count - 1 == 0 then Restore(mem, m.replacements) else mem)
  }

  function Always(callback: Word): Word -> Word {
    _ => callback
  }

  function Lookup(thunks: map<Word, Word>): Word -> Word {
    got => if got in thunks then thunks[got] else 0
  }

  /** The four words that the thunk's code reads at the end of its page. */
  datatype ThunkPage = ThunkPage(stackPointer: Word, got: Word, callback: Word, func: Word)

  /** Memory, and the thunk pages, handed out one after the other. */
  class Process {
    var mem: Memory
    var pages: map<Word, ThunkPage>
    var free: Word
  }

  class GotMock {
    const process: Process
    const replacements: seq<Replacement>
    const callback: Word
    var enableCount: int

    function State(): MockState
      reads this
    {
      MockState(replacements, Always(callback), enableCount)
    }

    constructor (process: Process, slots: seq<Slot>, callback: Word)
      requires forall s <- slots :: s.address in process.mem
      ensures this.process == process && this.callback == callback && enableCount == 0
      ensures replacements == Capture(process.mem, slots)
    {
      var rs: seq<Replacement> := [];
      for i := 0 to |slots|
        invariant |rs| == i
        invariant forall j :: 0 <= j < i ==> rs[j] == Replacement(slots[j], process.mem[slots[j].address])
      {
        rs := rs + [Replacement(slots[i], process.mem[slots[i].address])];
      }
      assert rs == Capture(process.mem, slots);
      this.process, this.callback, replacements, enableCount := process, callback, rs, 0;
    }

    /** Counts, and patches on the first enable.  An unknown relocation type throws after the count
        is changed and the slots before it are patched. */
    method Enable() returns (threw: bool)
      modifies this, process`mem
      ensures (State(), process.mem) == Toggle(true, old(State()), old(process.mem))
      ensures threw <==> enableCount == 1 && exists r <- replacements :: r.slot.kind.Other?
    {
      enableCount := enableCount + 1;
      threw := false;
      if enableCount == 1 {
        for i := 0 to |replacements|
          invariant Patch(process.mem, replacements[i..], Always(callback))
                 == Patch(old(process.mem), replacements, Always(callback))
          invariant Supported(replacements[..i]) && enableCount == 1
        {
          var r := replacements[i];
          assert replacements[i..][0] == r && replacements[i..][1..] == replacements[i + 1..];
          if !r.slot.kind.IsAbsolute() {
            assert r in replacements;
            return true;
          }
          process.mem := process.mem[r.slot.address := callback + r.slot.addend];
        }
        assert replacements[..|replacements|] == replacements;
      }
    }

    /** Counts, and restores when the count gets to 0; a surplus disable only counts. */
    method Disable()
      modifies this, process`mem
      ensures (State(), process.mem) == Toggle(false, old(State()), old(process.mem))
    {
      enableCount := enableCount - 1;
      if enableCount == 0 {
        for i := 0 to |replacements|
          invariant Restore(process.mem, replacements[i..]) == Restore(old(process.mem), replacements)
          invariant enableCount == 0
        {
          var r := replacements[i];
          assert replacements[i..][0] == r && replacements[i..][1..] == replacements[i + 1..];
          process.mem := process.mem[r.slot.address := r.original];
        }
      }
    }
  }

  /** A mock that points each slot at a thunk of the slot's own. */
  class PreMock {
    const base: GotMock
    var thunks: map<Word, Word>

    /** Every thunk knows its slot, and what the slot held when the mock was constructed. */
    ghost predicate Valid()
      reads this, base, base.process
    {
      && SameOriginals(base.replacements)
      && (forall got <- thunks :: Serves(thunks, base.process.pages, got, base.callback))
      && (forall r <- base.replacements :: r.slot.address in thunks ==> Remembers(thunks, base.process.pages, r))
      && (forall p <- base.process.pages :: p < base.process.free)
    }

    constructor (process: Process, slots: seq<Slot>, callback: Word)
      requires forall s <- slots :: s.address in process.mem
      requires forall p <- process.pages :: p < process.free
      ensures Valid() && fresh(base) && base.process == process && base.callback == callback
      ensures base.enableCount == 0 && base.replacements == Capture(process.mem, slots)
    {
      base := new GotMock(process, slots, callback);
      thunks := map[];
    }

    /** The slot's thunk, made the first time it is asked for and kept as long as the mock lives. */
    method CallbackFor(got: Word, func: Word) returns (code: Word)
      requires Valid()
      requires forall r <- base.replacements :: r.slot.address == got ==> r.original == func
      modifies this, base.process`pages, base.process`free
      ensures Valid() && got in thunks && code == thunks[got]
      ensures Grown(old(thunks), thunks) && Grown(old(base.process.pages), base.process.pages)
      ensures thunks.Keys == old(thunks).Keys + {got}
      ensures got in old(thunks) ==> base.process.pages == old(base.process.pages)
    {
      if got !in thunks {
        var page := base.process.free;
        base.process.free := page + 8192;
        base.process.pages := base.process.pages[page := ThunkPage(page + 8 * 1019, got, base.callback, func)];
        thunks := thunks[got := page];
        assert Valid() by {
          forall g <- thunks ensures Serves(thunks, base.process.pages, g, base.callback) {
            assert g != got ==> Serves(old(thunks), old(base.process.pages), g, base.callback);
          }
          forall r <- base.replacements | r.slot.address in thunks
            ensures Remembers(thunks, base.process.pages, r)
          {
            assert r.slot.address != got ==> Remembers(old(thunks), old(base.process.pages), r);
          }
        }
      }
      code := thunks[got];
    }

    /** Points one slot at its thunk, unless its relocation type is unknown. */
    method PatchSlot(r: Replacement) returns (threw: bool)
      requires Valid() && r in base.replacements
      modifies this, base.process
      ensures Valid() && Grown(old(thunks), thunks) && Grown(old(base.process.pages), base.process.pages)
      ensures r.slot.address in thunks && threw == !r.slot.kind.IsAbsolute()
      ensures base.process.mem == if threw then old(base.process.mem) else
        old(base.process.mem)[r.slot.address := thunks[r.slot.address] + r.slot.addend]
    {
      var code := CallbackFor(r.slot.address, r.original);
      threw := !r.slot.kind.IsAbsolute();
      if !threw {
        base.process.mem := base.process.mem[r.slot.address := code + r.slot.addend];
      }
    }

    /** As for the other kind of mock, with each slot's own thunk for the code.  Thunks made before
        stay as they are, so that calls still inside them are not lost. */
    method PatchSlots() returns (threw: bool)
      requires Valid()
      modifies this, base.process
      ensures Valid() && threw == !Supported(base.replacements)
      ensures base.process.mem == Patch(old(base.process.mem), base.replacements, Lookup(thunks))
      ensures Grown(old(thunks), thunks) && Grown(old(base.process.pages), base.process.pages)
      ensures !threw ==>
        forall r <- base.replacements :: r.slot.address in thunks && Remembers(thunks, base.process.pages, r)
    {
      var rs := base.replacements;
      ghost var mem := base.process.mem;
      assert rs[..0] == [];
      for i := 0 to |rs|
        invariant Valid() && Supported(rs[..i])
        invariant Grown(old(thunks), thunks) && Grown(old(base.process.pages), base.process.pages)
        invariant forall j :: 0 <= j < i ==> rs[j].slot.address in thunks
        invariant base.process.mem == Patch(mem, rs[..i], Lookup(thunks))
      {
        ghost var before := thunks;
        threw := PatchSlot(rs[i]);
        PatchStep(mem, rs, i, before, thunks);
        if threw {
          PatchStops(rs, i, Lookup(thunks), mem);
          return;
        }
        assert base.process.mem == Patch(mem, rs[..i + 1], Lookup(thunks));
      }
      assert rs[..|rs|] == rs;
      threw := false;
      forall r | r in rs ensures r.slot.address in thunks && Remembers(thunks, base.process.pages, r) {
        var j :| 0 <= j < |rs| && rs[j] == r;
      }
    }

    /** Counts, and patches on the first enable. */
    method Enable() returns (threw: bool)
      requires Valid()
      modifies this, base, base.process
      ensures Valid() && base.enableCount == old(base.enableCount) + 1
      ensures base.process.mem ==
        if base.enableCount == 1 then Patch(old(base.process.mem), base.replacements, Lookup(thunks)) else old(base.process.mem)
      ensures threw <==> base.enableCount == 1 && !Supported(base.replacements)
      ensures Grown(old(thunks), thunks) && Grown(old(base.process.pages), base.process.pages)
      ensures base.enableCount == 1 && !threw ==>
        forall r <- base.replacements :: r.slot.address in thunks && Remembers(thunks, base.process.pages, r)
    {
      base.enableCount := base.enableCount + 1;
      threw := false;
      if base.enableCount == 1 {
        threw := PatchSlots();
      }
    }

    /** One disable, whatever the count, and then the thunks' pages are given back.  From a count above
        1 the slots are not restored, and what they hold is the address of a page that is gone. */
    method Destroy()
      requires Valid()
      modifies this, base, base.process
      ensures base.enableCount == old(base.enableCount) - 1 && thunks == map[]
      ensures base.process.mem ==
        if old(base.enableCount) == 1 then Restore(old(base.process.mem), base.replacements) else old(base.process.mem)
      ensures base.process.pages == old(base.process.pages) - old(thunks).Values
      ensures old(base.enableCount) > 1 ==> forall r <- base.replacements ::
        r.slot.address in old(thunks) && Points(old(base.process.mem), r, old(thunks)[r.slot.address])
        ==> Points(base.process.mem, r, old(thunks)[r.slot.address])
            && old(thunks)[r.slot.address] in old(base.process.pages)
            && old(thunks)[r.slot.address] !in base.process.pages
    {
      assert forall r <- base.replacements :: r.slot.address in thunks ==> Remembers(thunks, base.process.pages, r);
      base.Disable();
      base.process.pages := base.process.pages - thunks.Values;
      thunks := map[];
    }
  }

  ghost predicate Grown<T(!new)>(before: map<Word, T>, now: map<Word, T>) {
    forall k <- before :: k in now && now[k] == before[k]
  }

  /** The slot leads to the code at an address. */
  predicate Points(mem: Memory, r: Replacement, code: Word) {
    r.slot.address in mem && mem[r.slot.address] == code + r.slot.addend
  }

  predicate SameOriginals(rs: seq<Replacement>) {
    forall r, r' :: r in rs && r' in rs && r.slot.address == r'.slot.address ==> r.original == r'.original
  }

  predicate Serves(thunks: map<Word, Word>, pages: map<Word, ThunkPage>, got: Word, callback: Word) {
    && got in thunks && thunks[got] in pages
    && var page := pages[thunks[got]];
      page.got == got && page.callback == callback && page.stackPointer == thunks[got] + 8 * 1019
  }

  predicate Remembers(thunks: map<Word, Word>, pages: map<Word, ThunkPage>, r: Replacement) {
    && r.slot.address in thunks && thunks[r.slot.address] in pages
    && pages[thunks[r.slot.address]].func == r.original
  }

  lemma {:induction false} PatchSame(mem: Memory, rs: seq<Replacement>, code: Word -> Word, code': Word -> Word)
    requires forall i :: 0 <= i < |rs| ==> code(rs[i].slot.address) == code'(rs[i].slot.address)
    ensures Patch(mem, rs, code) == Patch(mem, rs, code')
    decreases |rs|
  {
    if rs != [] {
      assert forall i :: 0 <= i < |rs[1..]| ==> rs[1..][i] == rs[i + 1];
      PatchSame(mem[rs[0].slot.address := code(rs[0].slot.address) + rs[0].slot.addend], rs[1..], code, code');
    }
  }

  lemma {:induction false} PatchSnoc(mem: Memory, rs: seq<Replacement>, k: nat, code: Word -> Word)
    requires k < |rs| && Supported(rs[..k + 1])
    ensures Patch(mem, rs[..k + 1], code)
         == Patch(mem, rs[..k], code)[rs[k].slot.address := code(rs[k].slot.address) + rs[k].slot.addend]
    decreases k
  {
    assert rs[..k + 1][0] == rs[0] && rs[0] in rs[..k + 1];
    if k == 0 {
      assert rs[..1][1..] == [] && rs[..0] == [];
    } else {
      assert rs[..k + 1][1..] == rs[1..][..k] && rs[..k][1..] == rs[1..][..k - 1] && rs[..k][0] == rs[0];
      assert forall r <- rs[1..][..k] :: r in rs[..k + 1];
      PatchSnoc(mem[rs[0].slot.address := code(rs[0].slot.address) + rs[0].slot.addend], rs[1..], k - 1, code);
    }
  }

  /** One more slot patched, with the thunks known by then. */
  lemma PatchStep(mem: Memory, rs: seq<Replacement>, i: nat, before: map<Word, Word>, thunks: map<Word, Word>)
    requires i < |rs| && Supported(rs[..i]) && rs[i].slot.address in thunks && Grown(before, thunks)
    requires forall j :: 0 <= j < i ==> rs[j].slot.address in before
    ensures Patch(mem, rs[..i], Lookup(thunks)) == Patch(mem, rs[..i], Lookup(before))
    ensures rs[i].slot.kind.IsAbsolute() ==>
      Patch(mem, rs[..i + 1], Lookup(thunks))
      == Patch(mem, rs[..i], Lookup(before))[rs[i].slot.address := thunks[rs[i].slot.address] + rs[i].slot.addend]
  {
    PatchSame(mem, rs[..i], Lookup(before), Lookup(thunks));
    if rs[i].slot.kind.IsAbsolute() {
      assert forall r <- rs[..i + 1] :: r in rs[..i] || r == rs[i];
      PatchSnoc(mem, rs, i, Lookup(thunks));
    }
  }

  lemma {:induction false} PatchStops(rs: seq<Replacement>, k: nat, code: Word -> Word, mem: Memory)
    requires k < |rs| && Supported(rs[..k]) && !rs[k].slot.kind.IsAbsolute()
    ensures Patch(mem, rs, code) == Patch(mem, rs[..k], code)
    decreases k
  {
    if k > 0 {
      assert rs[..k][0] == rs[0] && rs[..k][1..] == rs[1..][..k - 1];
      assert forall r <- rs[1..][..k - 1] :: r in rs[..k];
      PatchStops(rs[1..], k - 1, code, mem[rs[0].slot.address := code(rs[0].slot.address) + rs[0].slot.addend]);
    }
  }
}

module MockRuns {
  import opened Mocks

  /** What a program does while a mock is alive: toggle it, or run another mock's whole life. */
  datatype Body =
    | End
    | Then(on: bool, rest: Body)
    | Life(slots: seq<Slot>, code: Word -> Word, body: Body, rest: Body)

  /** Enables minus disables of the mock the body belongs to. */
  function Net(b: Body): int {
    match b
    case End => 0
    case Then(on, rest) => (if on then 1 else -1) + Net(rest)
    case Life(_, _, _, rest) => Net(rest)
  }

  predicate Mapped(b: Body, mem: Memory) {
    match b
    case End => true
    case Then(_, rest) => Mapped(rest, mem)
    case Life(slots, _, body, rest) =>
      (forall s <- slots :: s.address in mem) && Mapped(body, mem) && Mapped(rest, mem)
  }

  /** Every mock in the body is destroyed with a count of at most 1. */
  predicate Tidy(b: Body) {
    match b
    case End => true
    case Then(_, rest) => Tidy(rest)
    case Life(_, _, body, rest) => Net(body) <= 1 && Tidy(body) && Tidy(rest)
  }

  /** Runs a body.  A mock's life ends with one disable, whatever its count. */
  function Exec(b: Body, m: MockState, mem: Memory): (r: (MockState, Memory))
    requires Mapped(b, mem) && forall x <- m.replacements :: x.slot.address in mem
    ensures r.1.Keys == mem.Keys && r.0.replacements == m.replacements
    decreases b
  {
    match b
    case End => (m, mem)
    case Then(on, rest) =>
      KeysKept(m.replacements, m.code, mem);
      var (m1, mem1) := Toggle(on, m, mem);
      MappedKeys(rest, mem, mem1);
      Exec(rest, m1, mem1)
    case Life(slots, code, body, rest) =>
      var inner := MockState(Capture(mem, slots), code, 0);
      var (inner1, mem1) := Exec(body, inner, mem);
      KeysKept(inner.replacements, code, mem1);
      var (_, mem2) := Toggle(false, inner1, mem1);
      MappedKeys(rest, mem, mem2);
      Exec(rest, m, mem2)
  }

  lemma KeysKept(rs: seq<Replacement>, code: Word -> Word, mem: Memory)
    requires forall x <- rs :: x.slot.address in mem
    ensures Patch(mem, rs, code).Keys == mem.Keys && Restore(mem, rs).Keys == mem.Keys
    decreases |rs|
  {
    if rs != [] {
      KeysKept(rs[1..], code, mem[rs[0].slot.address := code(rs[0].slot.address) + rs[0].slot.addend]);
      KeysKept(rs[1..], code, mem[rs[0].slot.address := rs[0].original]);
    }
  }

  lemma {:induction false} MappedKeys(b: Body, mem: Memory, mem': Memory)
    requires Mapped(b, mem) && mem.Keys == mem'.Keys
    ensures Mapped(b, mem')
  {
    match b
    case End =>
    case Then(_, rest) => MappedKeys(rest, mem, mem');
    case Life(_, _, body, rest) =>
      MappedKeys(body, mem, mem');
      MappedKeys(rest, mem, mem');
  }

  // ----- Patching and restoring -----

  /** The replacements remember what mem holds. */
  predicate Remember(rs: seq<Replacement>, mem: Memory) {
    forall r <- rs :: r.slot.address in mem && r.original == mem[r.slot.address]
  }

  predicate Among(rs: seq<Replacement>, a: Word) {
    exists i :: 0 <= i < |rs| && rs[i].slot.address == a
  }

  /** mem is mem0 except at replaced addresses. */
  predicate DiffersAt(rs: seq<Replacement>, mem: Memory, mem0: Memory) {
    && mem.Keys == mem0.Keys
    && forall a :: a in mem && mem[a] != mem0[a] ==> Among(rs, a)
  }

  lemma {:induction false} PatchDiffers(all: seq<Replacement>, k: nat, code: Word -> Word, mem: Memory, mem0: Memory)
    requires Remember(all, mem0) && k <= |all| && DiffersAt(all, mem, mem0)
    ensures DiffersAt(all, Patch(mem, all[k..], code), mem0)
    decreases |all| - k
  {
    if k < |all| && all[k].slot.kind.IsAbsolute() {
      assert all[k] in all;
      assert all[k..][1..] == all[k + 1..];
      PatchDiffers(all, k + 1, code, mem[all[k].slot.address := code(all[k].slot.address) + all[k].slot.addend], mem0);
    }
  }

  /** Restoring repairs the remaining slots and keeps what is repaired, even if slots repeat. */
  lemma {:induction false} RestoreRepairs(all: seq<Replacement>, k: nat, mem: Memory, mem0: Memory)
    requires Remember(all, mem0) && k <= |all| && DiffersAt(all[k..], mem, mem0)
    ensures Restore(mem, all[k..]) == mem0
    decreases |all| - k
  {
    if k < |all| {
      var r, mem1 := all[k], mem[all[k].slot.address := all[k].original];
      assert r in all;
      assert all[k..][1..] == all[k + 1..];
      forall a | a in mem1 && mem1[a] != mem0[a]
        ensures Among(all[k + 1..], a)
      {
        assert a != r.slot.address && mem[a] != mem0[a];
        var i :| 0 <= i < |all[k..]| && all[k..][i].slot.address == a;
        assert all[k + 1..][i - 1] == all[k..][i];
      }
      RestoreRepairs(all, k + 1, mem1, mem0);
    } else {
      assert all[k..] == [];
      forall a | a in mem0
        ensures a in mem && mem[a] == mem0[a]
      {
        assert !Among(all[k..], a);
        assert a in mem0.Keys;
      }
      assert forall a :: a in mem ==> a in mem.Keys;
      assert mem == mem0;
    }
  }

  lemma PatchThenRestore(rs: seq<Replacement>, code: Word -> Word, mem0: Memory)
    requires Remember(rs, mem0)
    ensures Restore(Patch(mem0, rs, code), rs) == mem0 && Restore(mem0, rs) == mem0
  {
    PatchDiffers(rs, 0, code, mem0, mem0);
    assert rs[0..] == rs;
    RestoreRepairs(rs, 0, Patch(mem0, rs, code), mem0);
    RestoreRepairs(rs, 0, mem0, mem0);
  }

  // ----- Runs -----

  /** What memory looks like through a mock constructed on mem0. */
  function Shown(m: MockState, mem0: Memory): Memory {
    if m.count >= 1 then Patch(mem0, m.replacements, m.code) else mem0
  }

  /** Whatever is done to a mock, and whatever other mocks live and die meanwhile, its slots are
      patched exactly when it has been enabled more often than disabled; the others leave no trace. */
  lemma {:induction false} SlotsFollowCount(b: Body, m: MockState, mem0: Memory)
    requires Remember(m.replacements, mem0) && Tidy(b) && Mapped(b, Shown(m, mem0))
    requires forall x <- m.replacements :: x.slot.address in Shown(m, mem0)
    ensures
      var (m', mem') := Exec(b, m, Shown(m, mem0));
      m' == m.(count := m.count + Net(b)) && mem' == Shown(m', mem0)
    decreases b
  {
    var mem := Shown(m, mem0);
    match b
    case End =>
    case Then(on, rest) =>
      PatchThenRestore(m.replacements, m.code, mem0);
      KeysKept(m.replacements, m.code, mem);
      var (m1, mem1) := Toggle(on, m, mem);
      assert mem1 == Shown(m1, mem0);
      MappedKeys(rest, mem, mem1);
      SlotsFollowCount(rest, m1, mem0);
    case Life(slots, code, body, rest) =>
      var inner := MockState(Capture(mem, slots), code, 0);
      SlotsFollowCount(body, inner, mem);
      var (inner1, mem1) := Exec(body, inner, mem);
      PatchThenRestore(inner.replacements, code, mem);
      KeysKept(inner.replacements, code, mem1);
      assert Toggle(false, inner1, mem1).1 == mem;
      SlotsFollowCount(rest, m, mem0);
  }

  /** A tidy program of mocks restores memory exactly, however its mocks share slots. */
  lemma MocksLeaveNoTrace(b: Body, mem: Memory)
    requires Tidy(b) && Mapped(b, mem) && Net(b) <= 0
    ensures Exec(b, MockState([], Always(0), 0), mem).1 == mem
  {
    SlotsFollowCount(b, MockState([], Always(0), 0), mem);
  }

  /** Destroying a mock restores the slots exactly when its count is at most 1, unless patching
      changed nothing: its one disable does not reach 0 from a higher count. */
  lemma DestroyRestores(m: MockState, mem0: Memory)
    requires Remember(m.replacements, mem0)
    ensures Toggle(false, m, Shown(m, mem0)).1 == mem0
      <==> m.count <= 1 || Patch(mem0, m.replacements, m.code) == mem0
  {
    PatchThenRestore(m.replacements, m.code, mem0);
  }

  /** A mock on one slot that is enabled twice and then destroyed. */
  ghost predicate EnabledTwice(b: Body) {
    b == Life([Slot(100, JumpSlot, 0)], Always(9), Then(true, Then(true, End)), End)
  }

  /** The slot is left pointing at the mock. */
  lemma EnabledTwiceStays(b: Body, m: MockState)
    requires EnabledTwice(b) && m.replacements == []
    ensures Mapped(b, map[100 := 7]) && !Tidy(b) && Exec(b, m, map[100 := 7]).1 == map[100 := 9]
  {
    var mem: Memory := map[100 := 7];
    var rs := Capture(mem, [Slot(100, JumpSlot, 0)]);
    assert rs == [Replacement(Slot(100, JumpSlot, 0), 7)] && rs[1..] == [];
    var m0 := MockState(rs, Always(9), 0);
    assert Patch(mem, rs, Always(9)) == mem[100 := 9];
    assert Exec(End, m0.(count := 2), mem[100 := 9]) == (m0.(count := 2), mem[100 := 9]);
    assert Exec(Then(true, End), m0.(count := 1), mem[100 := 9]) == (m0.(count := 2), mem[100 := 9]);
    assert Exec(Then(true, Then(true, End)), m0, mem) == (m0.(count := 2), mem[100 := 9]);
  }

  /** A mock on two slots, the second with a relocation type that is not known. */
  ghost predicate HalfKnown(m: MockState, mem: Memory) {
    && m.replacements == [Replacement(Slot(100, JumpSlot, 0), 7), Replacement(Slot(200, Other(7), 0), 8)]
    && m.code == Always(9) && m.count == 0 && mem == map[100 := 7, 200 := 8]
  }

  /** The first enable throws and leaves the first slot patched and the count at 1; the second does not
      even try. */
  lemma HalfKnownStays(m: MockState, mem: Memory)
    requires HalfKnown(m, mem)
    ensures !Supported(m.replacements) && Remember(m.replacements, mem)
    ensures
      var (m1, mem1) := Toggle(true, m, mem);
      m1.count == 1 && mem1 == map[100 := 9, 200 := 8] && Toggle(true, m1, mem1) == (m1.(count := 2), mem1)
  {
    var rs := m.replacements;
    assert rs[1] in rs && !rs[1].slot.kind.IsAbsolute();
    assert rs[1..][0] == rs[1];
    assert Patch(mem[100 := 9], rs[1..], m.code) == mem[100 := 9];
  }

  // ----- What a patched slot holds -----

  /** Slots at the same address have the same addend. */
  predicate Consistent(rs: seq<Replacement>) {
    forall r, r' :: r in rs && r' in rs && r.slot.address == r'.slot.address ==> r.slot.addend == r'.slot.addend
  }

  predicate Holds(mem: Memory, code: Word -> Word, r: Replacement) {
    Points(mem, r, code(r.slot.address))
  }

  lemma {:induction false} PatchHolds(all: seq<Replacement>, k: nat, code: Word -> Word, mem: Memory)
    requires Supported(all) && Consistent(all) && k <= |all|
    requires forall i :: 0 <= i < k ==> Holds(mem, code, all[i])
    ensures forall i :: 0 <= i < |all| ==> Holds(Patch(mem, all[k..], code), code, all[i])
    decreases |all| - k
  {
    if k < |all| {
      assert all[k] in all;
      assert all[k..][1..] == all[k + 1..];
      var mem1 := mem[all[k].slot.address := code(all[k].slot.address) + all[k].slot.addend];
      forall i | 0 <= i < k + 1
        ensures Holds(mem1, code, all[i])
      {
        assert all[i] in all;
      }
      PatchHolds(all, k + 1, code, mem1);
    } else {
      assert all[k..] == [];
    }
  }

  /** With known relocation types every slot holds its code while the mock is on; the first
      unknown one stops the patching there, and leaves the slots from it on as they were. */
  lemma PatchReaches(rs: seq<Replacement>, code: Word -> Word, mem: Memory)
    requires Remember(rs, mem) && Consistent(rs)
    ensures Supported(rs) ==> forall i :: 0 <= i < |rs| ==> Holds(Patch(mem, rs, code), code, rs[i])
    ensures forall k :: 0 <= k < |rs| && Supported(rs[..k]) && !rs[k].slot.kind.IsAbsolute() ==>
      Patch(mem, rs, code) == Patch(mem, rs[..k], code)
  {
    if Supported(rs) {
      assert rs[0..] == rs;
      PatchHolds(rs, 0, code, mem);
    }
    forall k | 0 <= k < |rs| && Supported(rs[..k]) && !rs[k].slot.kind.IsAbsolute()
      ensures Patch(mem, rs, code) == Patch(mem, rs[..k], code)
    {
      PatchStops(rs, k, code, mem);
    }
  }
}
