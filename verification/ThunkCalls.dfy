/**
 The machines and trees of calls: what `ThunkRuns` proves of the abstract thunk holds of each of the
 three routines.
 */
module ThunkCalls {
  import opened ShadowThunk
  import opened ThunkRuns
  import ThunkX86
  import ThunkArm
  import ThunkI386

  /** For every tree of calls the x86_64 thunk faults exactly when the tree needs more thunk stack than
      there is; otherwise it shows the transparent log and ends at rest, with itself in the slot. */
  method DriveX86(t: ThunkX86.Thunk, cs: Calls, bound: bool) returns (faulted: bool, log: seq<Observation>)
    requires t.Valid() && t.shadow.acts == [] && Ready(t.link, t.shadow, bound)
    requires cs.Fits(X86_64) && cs.Shaped(2, 7)
    modifies t, t.page
    ensures faulted <==> Need(X86_64, cs, bound) > X86_64.capacity
    ensures !faulted ==> log == Log(X86_64, t.link, cs, bound) && t.Valid() && t.shadow.acts == [] && t.got == t.start
  {
    EventsShaped(X86_64, 2, 7, cs, bound);
    Transparent(X86_64, t.link, t.shadow, cs, bound);
    faulted, log := t.Drive(Events(cs, bound));
  }

  /** The same for aarch64. */
  method DriveArm(t: ThunkArm.Thunk, cs: Calls, bound: bool) returns (faulted: bool, log: seq<Observation>)
    requires t.Valid() && t.shadow.acts == [] && Ready(t.link, t.shadow, bound)
    requires cs.Fits(AARCH64) && cs.Shaped(26, 5)
    modifies t, t.page
    ensures faulted <==> Need(AARCH64, cs, bound) > AARCH64.capacity
    ensures !faulted ==> log == Log(AARCH64, t.link, cs, bound) && t.Valid() && t.shadow.acts == [] && t.got == t.start
  {
    EventsShaped(AARCH64, 26, 5, cs, bound);
    Transparent(AARCH64, t.link, t.shadow, cs, bound);
    faulted, log := t.Drive(Events(cs, bound));
  }

  /** The same for i386. */
  method DriveI386(t: ThunkI386.Thunk, cs: Calls, bound: bool) returns (faulted: bool, log: seq<Observation>)
    requires t.Valid() && t.shadow.acts == [] && Ready(t.link, t.shadow, bound)
    requires cs.Fits(I386) && cs.Shaped(1, 2)
    modifies t, t.page
    ensures faulted <==> Need(I386, cs, bound) > I386.capacity
    ensures !faulted ==> log == Log(I386, t.link, cs, bound) && t.Valid() && t.shadow.acts == [] && t.got == t.start
  {
    EventsShaped(I386, 1, 2, cs, bound);
    Transparent(I386, t.link, t.shadow, cs, bound);
    faulted, log := t.Drive(Events(cs, bound));
  }
}
