# A verified model of CTypeGen and CMock

CTypeGen reads DWARF type information and writes Python modules of `ctypes` definitions. CMock replaces
C functions in a running process, by overwriting the GOT slots that refer to them, optionally with a
thunk that calls a Python callback first. This project models the parts of both whose correctness is
not visible in any one function, and proves what they keep.

`dafny verify dfyconfig.toml` checks everything.

## What is modelled

**The PRE-mock thunk** (`thunk-*.s`). `ShadowThunk` is the thunk seen from outside: a stack of
activations, CALLBACK2, the GOT slot, and an environment that calls through the slot, returns, and
switches the mock on and off. `ThunkRuns` proves its theorems over all runs and all trees of nested
calls. `ThunkX86`, `ThunkArm` and `ThunkI386` are the three assembly routines, instruction by
instruction, on registers, the thunk's pages and the machine stack; `Drive` proves for each that every
run of the machine shows exactly what the abstract thunk shows, and `ThunkCalls` that every tree of
calls is transparent on each of the three. `ThunkPages` holds what the three share: how the words of
the data page represent the stack of activations.

**GOT mocks** (`cmock.cpp`). `Mocks` has the mock classes with their enable counts, saved slots and
thunks; `MockRuns` proves what any nesting of mocks leaves behind. `Windows` has the cached map of the
address space and the windows in which slots are writeable. `HashWalk` has the two symbol-table walks.

**The struct layout engine** (`CTypeGen/__init__.py`, `MemberType.define`). `StructLayout` says what is
emitted, and has `Replay`, the consumer that lays the fields out again knowing only widths, sizes and
alignments. `StructReplay`, `StructBitfields` and `StructSize` prove when the two agree with the debug
information, for any mixture of storage types of which one's size divides the other's; `StructArithmetic`
has the rounding that this rests on, and `StructInputs` concrete structures that come out wrong.
`StructOffsets` has the table of offsets and the check made with it, `RuntimeChecks` the
other checks a generated module makes of itself. `StructDefine` is the loop itself.

**Definition order** (`CTypeGen/__init__.py`, `declareType`, `defineType` and the `declare` and `define`
of each kind of type). `TypeGraph` has the calls and what each needs first, `TypeText` the text by which
types are referred to, `EmissionOrder` termination, order, and exactly what is finished,
`EmissionNames` what is written before what, `EmissionWorklist` the worklist of `deepInspect`,
`EmissionInputs` concrete types that do not come out well, and `TypeResolver` the mutually recursive
methods themselves.

**Names and definitions of DIEs** (`CTypeGen.cpp`): `Dies` and `DieNames`. **Macros**
(`CTypeGen/__init__.py`, `MacroCallback`): `Macros`.

Classes stand where the source updates objects; their methods are proved against functions on values,
and the theorems are about those functions.

## Where the code falls short, exactly

Each of these is a theorem: an exact condition, a concrete input on which it fails, or both.

- A PRE mock that is switched off while one of its calls is live is switched on again by the repair that
  ends that call, though its count is 0 (`ThunkRuns.DisableInFlight`, `ThunkRuns.DisableInFlightUndone`).
- Bits that are skipped without a pad, before a pad that would fit there, make the consumer place the
  field too low: `a:30; :2; :2; b:16` in 32-bit units (`StructBitfields.BitfieldsSlip`). Nothing else goes
  wrong with bitfields of one storage type that do not straddle units, packed or not
  (`StructBitfields.BitfieldsExact`).
- A union gets pads, of negative width, if and only if two of its members are bitfields
  (`StructBitfields.UnionPaddedIff`, `StructBitfields.UnionGoesWrong`).
- A member that lies in the tail of a base class cannot be replayed: the consumer never goes back
  (`StructInputs.TailReuseMisplaced`).
- The size comes out right if and only if the members end where the engine expects them to, rounded up
  as it does, or short of that by less than the alignment of the fields emitted
  (`StructSize.SizeExact`). Two ways to miss that: when the last member's type has no definition, its
  stand-in already reaches to the end and the trailing pad comes on top (`StructSize.UndefinedTail`,
  `StructInputs.UndefinedStringWrong`); and the trailing pad of a packed structure is computed with the
  unpacked alignment (`StructInputs.PackedTailWrong`).
- An empty base has an entry in the table of offsets but no field, so later entries are held against
  the wrong fields (`StructOffsets.PositionsAgree`, `StructInputs.EmptyBaseComplains`).
- A run ends if and only if the calls it leads to can be ranked and none of them raises
  (`EmissionOrder.ReturnsIffRanked`). A record that a function pointer in it takes by value is never
  finished (`EmissionInputs.ByValueRecursion`), and the text of a type cannot be put together exactly when
  it contains a bare `volatile` or `restrict`, or itself (`TypeText.RendersIffPlain`,
  `EmissionInputs.VolatileVoidRaises`); an alias of plain void raises as well. So does a field whose type
  has no ctypes alignment, such as `char8_t`, and a field whose type is only declared, when the next
  member has no byte offset (`EmissionInputs.FieldsThatRaise`).
- Every name is written before it is mentioned if and only if the records only declared and the void
  typedefs that are mentioned through a function or an array have been declared for another reason
  (`EmissionNames.NamesComeFirstIff`, `EmissionNames.RiskNeedsLink`, `EmissionInputs.MentionedNeverNamed`).
  Behind a pointer, and as what an alias stands for, such names are always there in time; the stand-in for
  a member whose type is only declared mentions none (`EmissionInputs.StandInMentionsNothing`). What leads
  to the declaration beforehand decides (`EmissionNames.RiskBeforehand`).
- `enable` counts before it patches: with an unknown relocation type it throws, and leaves the count
  raised and the slots before that one patched (`Mocks.GotMock.Enable`, `MockRuns.PatchReaches`,
  `MockRuns.HalfKnownStays`).
- Destroying a mock makes one `disable` call, so one with a count above 1 leaves its slots patched
  (`MockRuns.DestroyRestores`, `MockRuns.EnabledTwiceStays`); a PRE mock's slots then lead to pages that
  have been given back (`Mocks.PreMock.Destroy`).
- A window that ends on a page boundary also changes the page after it, and aborts if that is not mapped
  (`Windows.TouchedPages`, `Windows.LastWordOfPage`, `Windows.OnePageAborts`).
- A definition is found if and only if it has a name of its own and stands, within named namespaces,
  structs and classes, where the full name says (`DieNames.DefinesByName`). Unions count in full names but
  are not searched (`DieNames.UnionHidesDefinition`), and a definition out of line has no name of its own
  (`DieNames.OutOfLineNotFound`).
- On i386 the thunk returns with the return address in edx (`ThunkI386.Thunk.Epilogue`).
- Splitting a macro definition loses nothing if and only if there is a space, or the parameter list is
  closed (`Macros.ParseExact`); a definition without a space never
  defines its own name (`Macros.SpacelessNotDefined`).

## Model

| member | source | states |
|---|---|---|
| ThunkRuns.Transparent | thunk-x86_64.s:74-138 | For every tree of calls nested through the GOT, at any depth and with lazy binding on the way: the run faults exactly when the tree needs more thunk stack than is free; otherwise each call shows CALLBACK1, CALLBACK2 and the caller the same stack pointer, arguments and return address that the caller supplied, in properly nested order, and the thunk ends as it began, with CALLBACK2 resolved |
| ThunkRuns.LazyBinding | thunk-x86_64.s:117-129 | Over every run that switches the mock off only at rest, with any counts: CALLBACK2 is the stub or the resolved function and never the thunk, the slot holds the thunk at rest while the mock is on, and the stub is entered through the thunk at most once |
| ThunkRuns.LazyBoundStep | thunk-x86_64.s:115-129 | Every single event keeps that invariant and uses up the one stub entry if it makes it |
| ThunkRuns.DisableInFlight | thunk-x86_64.s:122-129 | The disable that gets the count to 0 lasts if and only if no activation is live |
| ThunkRuns.DisableInFlightUndone | thunk-x86_64.s:122-129 | The input: one call in CALLBACK1, whose callback disables the mock; after it the slot holds the thunk and the count is 0 |
| ThunkRuns.RoomKept | thunk-x86_64.s:76-77 | Frames never outgrow the data page, and a mocked call faults if and only if one more first-phase frame does not fit |
| ThunkRuns.DepthX86 | thunk-x86_64.s:76-114 | 56 activations always fit and 57 in CALLBACK1 do not; 499 outer ones in CALLBACK2 leave no room and fewer do |
| ThunkRuns.DepthAarch64 | thunk-aarch64.s:154-173 | The same bounds for the 28-word and 2-word frames: 18 and 240 |
| ThunkRuns.DepthI386 | thunk-i386.s:53-57 | Exactly 1020 activations fit, whatever their phases |
| ShadowThunk.ImageLength | thunk-x86_64.s:114 | The thunk stack in use is the sum of a first-phase or second-phase frame for each live activation |
| ThunkPages.Pushes | thunk-x86_64.s:76-96 | Writing a frame just below the words in use and moving the pointer down to it turns a page that represents a stack of activations into one that represents the pushed stack, disturbing no live frame |
| ThunkPages.Drops | thunk-x86_64.s:114 | Moving the pointer up by any number of words represents the stack without them |
| ThunkPages.FirstDone | thunk-x86_64.s:101-115 | Dropping just the argument words represents the change from CALLBACK1 to CALLBACK2 |
| ThunkPages.SecondDone | thunk-x86_64.s:117-138 | Dropping the frame and updating CALLBACK2 represents the end of the activation |
| ThunkX86.Thunk.constructor | cmock.cpp:442-474 | A new thunk represents the empty stack, with the slot's original content as CALLBACK2 |
| ThunkX86.Thunk.Save | thunk-x86_64.s:79-96 | The frame holds rax, rdi, rsi, rdx, rcx, r8, r9, r10 and the return address, which is off the machine stack; rax is as before |
| ThunkX86.Thunk.Enter | thunk-x86_64.s:74-99 | Faults exactly when nine words do not fit, before a live frame is touched; otherwise enters CALLBACK1 at the caller's stack pointer |
| ThunkX86.Thunk.Open | thunk-x86_64.s:74-99 | The same as the push of an activation |
| ThunkX86.Thunk.Reload | thunk-x86_64.s:105-112 | The eight registers are the frame's first eight words |
| ThunkX86.Thunk.Resume | thunk-x86_64.s:101-115 | Enters CALLBACK2 with the saved registers, leaving the return address in the frame |
| ThunkX86.Thunk.AfterFirst | thunk-x86_64.s:101-115 | CALLBACK2 gets the caller's own registers and stack pointer, whatever CALLBACK1 and the calls inside it did |
| ThunkX86.Thunk.Repair | thunk-x86_64.s:122-129 | The slot ends as the thunk, and what the linker wrote there becomes CALLBACK2 |
| ThunkX86.Thunk.Epilogue | thunk-x86_64.s:117-138 | Returns to the saved address with the frame gone |
| ThunkX86.Thunk.AfterSecond | thunk-x86_64.s:117-138 | Returns to the caller's own return address, with rax and rdx as CALLBACK2 left them |
| ThunkX86.Thunk.OnToggle | cmock.cpp:217-231 | Enables and disables are counted; the slot gets the thunk when the count gets to 1, and what it held originally when it gets to 0 |
| ThunkX86.Thunk.OnMocked | thunk-x86_64.s:74-99 | A call through the slot while it holds the thunk shows CALLBACK1 what the caller passed, or faults for want of room |
| ThunkX86.Thunk.OnReturn | thunk-x86_64.s:101-138 | A callback that returns resumes the thunk where it was called from, and nowhere else |
| ThunkX86.Thunk.Step | thunk-x86_64.s:74-138 | Each event shows what the abstract thunk shows and keeps the representation |
| ThunkX86.Thunk.Drive | thunk-x86_64.s:74-138 | Every run of the machine has the log of the abstract thunk's run, faults exactly when it does, and ends representing its final state |
| ThunkArm.Thunk.constructor | cmock.cpp:442-474 | As for x86_64 |
| ThunkArm.Thunk.Stp | thunk-aarch64.s:154-170 | A pre-decrement pair store adds two words to the frame, and faults exactly on the code page |
| ThunkArm.Thunk.SaveFirst | thunk-aarch64.s:154-163 | The first seven pairs land in frame order |
| ThunkArm.Thunk.SaveLast | thunk-aarch64.s:164-170 | The last seven pairs land below them |
| ThunkArm.Thunk.Enter | thunk-aarch64.s:147-175 | Faults exactly when 28 words do not fit; the stack pointer word is written only after all saves |
| ThunkArm.Thunk.Open | thunk-aarch64.s:147-175 | The same as the push of an activation, with every argument register and the frame pointer as the caller left them |
| ThunkArm.Thunk.RestoreLast | thunk-aarch64.s:183-189 | Each register is reloaded from the word it was saved in |
| ThunkArm.Thunk.RestoreFirst | thunk-aarch64.s:190-196 | The same for the rest, keeping those already reloaded |
| ThunkArm.Thunk.Resume | thunk-aarch64.s:177-203 | Enters CALLBACK2 with all saved registers, keeping frame pointer and link register in the frame |
| ThunkArm.Thunk.AfterFirst | thunk-aarch64.s:177-203 | CALLBACK2 gets the caller's own registers, whatever happened inside CALLBACK1 |
| ThunkArm.Thunk.Epilogue | thunk-aarch64.s:205-227 | Link register and frame pointer come back, the frame is gone, the slot is repaired |
| ThunkArm.Thunk.AfterSecond | thunk-aarch64.s:205-227 | Returns to the caller's own address; every register that CALLBACK2 set reaches it but the temporaries |
| ThunkArm.Thunk.Step | thunk-aarch64.s:147-227 | Each event shows what the abstract thunk shows and keeps the representation |
| ThunkArm.Thunk.Drive | thunk-aarch64.s:147-227 | Every run of the machine has the abstract thunk's log and faults exactly when it does |
| ThunkI386.Thunk.constructor | cmock.cpp:461-470 | As for x86_64, with four-byte words |
| ThunkI386.Thunk.Enter | thunk-i386.s:45-62 | Faults exactly when no word is free, before anything is written; the arguments on the machine stack stay and CALLBACK1 is entered at the caller's stack pointer |
| ThunkI386.Thunk.Open | thunk-i386.s:45-62 | The same as the push of an activation |
| ThunkI386.Thunk.Resume | thunk-i386.s:64-69 | CALLBACK2 is entered at the same stack pointer |
| ThunkI386.Thunk.AfterFirst | thunk-i386.s:64-69 | The change of phase drops nothing, since the frame is the return address alone |
| ThunkI386.Thunk.Repair | thunk-i386.s:72-94 | As for x86_64, with the result kept across the use of eax |
| ThunkI386.Thunk.Epilogue | thunk-i386.s:72-101 | Returns to the saved address with eax as it was, and the return address in edx |
| ThunkI386.Thunk.AfterSecond | thunk-i386.s:72-101 | The same as the end of an activation |
| ThunkI386.Thunk.Step | thunk-i386.s:45-101 | Each event shows what the abstract thunk shows and keeps the representation |
| ThunkI386.Thunk.Drive | thunk-i386.s:45-101 | Every run of the machine has the abstract thunk's log and faults exactly when it does |
| ThunkCalls.DriveX86 | thunk-x86_64.s:74-138 | On every tree of calls the routine faults if and only if the tree needs more thunk stack than there is, and otherwise has the transparent log and ends at rest with itself in the slot |
| ThunkCalls.DriveArm | thunk-aarch64.s:147-227 | The same for aarch64 |
| ThunkCalls.DriveI386 | thunk-i386.s:45-101 | The same for i386 |
| Mocks.Capture | cmock.cpp:433-437 | One replacement for each slot, with what it held |
| Mocks.SupportedIff | cmock.cpp:475-488 | What is not supported is exactly a list with a relocation type other than the three absolute ones |
| Mocks.GotMock.constructor | cmock.cpp:401-408 | Remembers every slot's content, and starts with count 0 |
| Mocks.GotMock.Enable | cmock.cpp:219-224 | Counts first; only the first enable patches, and it throws exactly when that meets a relocation type other than the three absolute ones |
| Mocks.GotMock.Disable | cmock.cpp:226-231 | Only the disable that reaches 0 restores |
| Mocks.PreMock.CallbackFor | cmock.cpp:442-474 | A slot's thunk knows the slot and what it held; it is made once, and no thunk changes while the mock lives |
| Mocks.PreMock.constructor | cmock.cpp:401-408 | As for the other mocks, with no thunks yet |
| Mocks.PreMock.PatchSlot | cmock.cpp:533-537 | The slot ends as its thunk plus the addend, unless the relocation type is unknown |
| Mocks.PreMock.PatchSlots | cmock.cpp:530-538 | Memory is as if each slot were patched with its own thunk, up to the first unknown relocation type |
| Mocks.PreMock.Enable | cmock.cpp:530-538 | When it does not throw, every slot has a thunk that calls what the slot held, and thunks from earlier enables are the same |
| Mocks.PreMock.Destroy | cmock.cpp:335-341 | One disable whatever the count, then the pages go; from a count above 1 every slot still leads to its thunk, whose page is gone |
| MockRuns.SlotsFollowCount | cmock.cpp:217-231 | Over any enables and disables, surplus ones too, with any other mocks living and dying meanwhile on the same slots, slots are patched exactly when the count is at least 1 |
| MockRuns.MocksLeaveNoTrace | cmock.cpp:819-832 | Any nesting of mocks that are destroyed with a count of at most 1 restores memory exactly, even when slots repeat |
| MockRuns.DestroyRestores | cmock.cpp:819-832 | Destroying restores if and only if the count is at most 1, or patching changed nothing |
| MockRuns.EnabledTwiceStays | cmock.cpp:819-832 | The input: a mock on one slot, enabled twice and destroyed, leaves the slot at its callback |
| MockRuns.RestoreRepairs | cmock.cpp:555-561 | Restoring undoes any change to the slots, even when slots repeat |
| MockRuns.PatchReaches | cmock.cpp:492-519 | With known relocation types every slot holds its code plus its addend; the first unknown one stops the patching there |
| MockRuns.HalfKnownStays | cmock.cpp:217-224 | The input: of two slots the second has an unknown relocation type; the first enable leaves the first slot patched and the count at 1, and the second does nothing but count |
| Windows.MemoryProtection.constructor | cmock.cpp:115-151 | The cache holds exactly the mapped ranges |
| Windows.MemoryProtection.ProtectionFor | cmock.cpp:154-163 | The lookup by the end of the range equals a linear search of the ranges |
| Windows.AddressSpace.MProtect | cmock.cpp:175-177 | Whole pages get the protection, all or none |
| Windows.AddressSpace.Protect | cmock.cpp:169-184 | Exactly the pages from that of the first byte to that of the end get the protection, and it fails exactly if one is not mapped |
| Windows.AddressSpace.Open | cmock.cpp:192-197 | Throws exactly when the address is in no range, and otherwise notes its protection and makes the pages writeable |
| Windows.AddressSpace.Close | cmock.cpp:198-203 | The same pages get the protection noted |
| Windows.TouchedPages | cmock.cpp:170-178 | The pages touched are those that hold a byte of the window, and one more exactly when it ends on a page boundary |
| Windows.WindowWrites | cmock.cpp:192-197 | Every byte of the window can be read and written while it is open |
| Windows.CloseRestores | cmock.cpp:188-204 | Opening and closing leaves all protections as they were if and only if the pages touched all had the one noted |
| Windows.WindowsRestore | cmock.cpp:543-549 | Any number of windows over one cached map leaves all protections as they were, when each window's pages share one |
| Windows.LastWordOfPage | cmock.cpp:171-178 | Patching the last word of a page aborts if and only if the next page is not mapped |
| Windows.OnePageAborts | cmock.cpp:169-184 | The input: patching the last word of the one page that is mapped |
| HashWalk.WalkGnu | cmock.cpp:976-989 | Every symbol from symoffset to the end is visited exactly once |
| HashWalk.WalkRun | cmock.cpp:981-987 | A bucket's symbols are visited up to the one with the low bit set, and no further |
| HashWalk.GnuLayout | cmock.cpp:76-92 | A table laid out as header, Bloom filter, buckets and chain, in which each bucket's word is its first symbol and the low bits mark the last ones, is one that the walk goes through right: the addresses it computes are those of the parts |
| HashWalk.OneBucket | cmock.cpp:76-92 | The input: one bucket with symbols 1 and 2, whose chain words are words 7 and 8 |
| HashWalk.WalkSysV | cmock.cpp:990-1001 | Every defined symbol is visited exactly once |
| HashWalk.WalkChain | cmock.cpp:996-1000 | A bucket's chain is walked to its end, without meeting another's |
| HashWalk.SysVLayout | cmock.cpp:991-994 | The same for a table of header, buckets and chains that are lists |
| HashWalk.WalksAgree | cmock.cpp:976-1001 | The two walks visit the same symbols if and only if the symbols from symoffset on are the defined ones |
| StructReplay.LayoutExact | CTypeGen/__init__.py:638-743 | For plain members and bitfields of any storage types of which one's size divides the other's, members without a definition, overridden ones and ones that overlap: laying the emitted fields out again puts every member at its DWARF offset if and only if each member is placeable, a condition on its offset and the geometry before it |
| StructReplay.AdvanceShape | CTypeGen/__init__.py:697-710 | The loop ends in the unit that holds the field, after at most one filling pad and one pad for each unit skipped |
| StructReplay.BitfieldVerdict | CTypeGen/__init__.py:694-726 | A bitfield after placed members lands at its offset exactly under the condition for bitfields |
| StructReplay.StandInReaches | CTypeGen/__init__.py:651-659 | A member without a definition is emitted as characters from its offset up to that of the next member, or to the end of the structure, with alignment 1 |
| StructReplay.PlacedAfterStandIn | CTypeGen/__init__.py:651-659 | So the plain member after it is replayed at its offset, when that is aligned or all is packed |
| StructReplay.PlainEmitted | CTypeGen/__init__.py:664-666 | Any other plain member is emitted with the size and alignment of its own type, or of the one that overrides it |
| StructReplay.BitfieldIff | CTypeGen/__init__.py:695-696 | A member is a bitfield if it has either attribute and is not overridden, and DW_AT_data_bit_offset has precedence |
| StructReplay.BitOffsetCounts | CTypeGen/__init__.py:437-446 | With DW_AT_bit_offset, that many bits lie between the end of the field and the end of its storage unit |
| StructBitfields.PadsTile | CTypeGen/__init__.py:697-723 | From any counters: all pads are positive and, with the unpadded bits, fill the gap exactly; unpadded bits are one unit's tail and fewer than the field's |
| StructBitfields.StructTiles | CTypeGen/__init__.py:694-723 | The same for every bitfield of a structure in which none straddles its unit, with nothing assumed of the counters |
| StructBitfields.PadSpansArePads | CTypeGen/__init__.py:697-719 | The ranges that pads are meant for have the widths of the pads that are emitted |
| StructBitfields.SpansInOrder | CTypeGen/__init__.py:638-735 | The ranges meant for all pads and fields of such a structure, with members that have their own types and do not overlap, are disjoint and in order |
| StructBitfields.BitfieldsStay | CTypeGen/__init__.py:694-726 | Structures of bitfields with one storage type that do not straddle are such structures |
| StructBitfields.BitfieldsExact | CTypeGen/__init__.py:694-726 | Packed or not, bitfields of one storage type that do not straddle are replayed exactly if and only if none has a pad that slips back |
| StructBitfields.BitfieldsSlip | CTypeGen/__init__.py:699-715 | The input on which one does, packed or not |
| StructBitfields.UnionFirst | CTypeGen/__init__.py:697-716 | The first bitfield of a union gets no pad |
| StructBitfields.UnionPads | CTypeGen/__init__.py:714-716 | Each later bitfield of a union gets one pad, of minus the width of the bitfield before |
| StructBitfields.UnionPaddedIff | CTypeGen/__init__.py:697-719 | A union is emitted with a pad if and only if two of its members are bitfields |
| StructBitfields.UnionGoesWrong | CTypeGen/__init__.py:714-716 | The input: a union of a:3 and b:5 has a pad of -3 bits |
| StructSize.SizeExact | CTypeGen/__init__.py:745-773 | The consumer's size is DWARF's if and only if the size fits. The members have to end at a target: the size, or with a trailing pad where the engine rounds up to. Packed they end right there; otherwise short of it by less than the alignment of the fields emitted, which divides the size |
| StructSize.SizeFitsDefined | CTypeGen/__init__.py:745-779 | When all members have types of their own: without packing the size has to be at least the natural one, with packing exact or padded from an aligned end |
| StructSize.TrailingPadIs | CTypeGen/__init__.py:745-763 | There is a trailing pad exactly when not all members are bases and the rounded expected end falls short of the size, and it makes up the difference |
| StructSize.UnionUnpadded | CTypeGen/__init__.py:755-763 | A union never gets a trailing pad |
| StructSize.TotalOfPlaced | CTypeGen/__init__.py:745-763 | The consumer's size is the members' extent plus the trailing pad, rounded up unless packed to the alignment of the fields emitted, overridden ones included |
| StructSize.SameAlignment | CTypeGen/__init__.py:666-671 | That alignment is the one the engine reckons with, when no member is overridden |
| StructSize.FieldsAlignmentIsLargest | CTypeGen/__init__.py:664-671 | The alignment of the fields is the largest one emitted, and 1 if there is none |
| StructInputs.PackedTailWrong | CTypeGen/__init__.py:745-763 | The input: a packed char, int and 8 unnamed bits come out 5 bytes long instead of 6 |
| StructSize.UndefinedTail | CTypeGen/__init__.py:651-659 | When the last type has no definition, the size is right if and only if rounding up the member's offset already reaches the end, and the size suits the alignment of the fields |
| StructInputs.UndefinedStringWrong | CTypeGen/__init__.py:651-659 | The input: a long and a string without a definition come out 72 bytes long instead of 40 |
| StructInputs.TailReuseMisplaced | CTypeGen/__init__.py:738-743 | The input: a char in the tail of a base class of an int and a char is not replayed, packed or not |
| StructSize.PackInference | CTypeGen/__init__.py:738-779 | Plain members laid out naturally or fully packed are replayed at their offsets and with their size, and natural ones are not packed |
| StructOffsets.PositionsAgree | CTypeGen/__init__.py:803-836 | A member's field and its table entry have the same position if and only if no empty base comes before |
| StructInputs.EmptyBaseComplains | CTypeGen/__init__.py:639-640 | The input: three ints after an empty base are laid out right, and the check complains of the third |
| StructOffsets.EntryIff | CTypeGen/__init__.py:811-823 | A member has an offset in the table exactly if it has one, its type is not overridden, and the last member before it that is not overridden has another |
| StructOffsets.LengthsAgree | CTypeGen/__init__.py:811-835 | Only the trailing pad is without an entry, if and only if there is no empty base |
| StructOffsets.CheckOffsets | CTypeGenRun.py:110-122 | Reports, in order, exactly the positions in both lists whose offsets differ and are neither absent nor -1 |
| StructOffsets.CheckMeans | CTypeGenRun.py:110-122 | The check is clean if and only if each member with an entry sits at the offset in it |
| StructDefine.MemberType.PadTo | CTypeGen/__init__.py:697-719 | The loop and the pad after it emit the pads of the specification |
| StructDefine.MemberType.DefineMember | CTypeGen/__init__.py:694-735 | One turn of the loop emits a member and moves the counters as specified |
| StructDefine.MemberType.Define | CTypeGen/__init__.py:621-779 | Raises exactly if a member without a definition is followed by one without a byte offset; otherwise the whole loop emits the specified fields, infers the specified packing, and leaves the alignment at 1 if packed; the divisibility assertion holds for powers of two |
| StructDefine.MemberType.Finish | CTypeGen/__init__.py:745-779 | The trailing pad and the last look at the size |
| StructDefine.MemberType.DefineOffsets | CTypeGen/__init__.py:803-836 | Writes the specified table |
| StructDefine.MemberType.AddRow | CTypeGen/__init__.py:825-834 | One -1 for each pad, then the member's own entry |
| StructDefine.PowersDivide | CTypeGen/__init__.py:670-672 | Of two powers of two the smaller divides the larger, so the assertion about alignments never fails |
| StructDefine.AlignmentIsLargest | CTypeGen/__init__.py:668-672 | The alignment that is reckoned with is 1 or a member's, and a multiple of every member's |
| StructDefine.PackedIff | CTypeGen/__init__.py:738-779 | Any structure, of bitfields too, is packed exactly on a hint, or when some member's alignment does not divide its offset, or the size of the structure |
| RuntimeChecks.PointerCheck.HasPointers | CTypeGenRun.py:33-51 | The answer, remembered or not, is whether fields of fields lead to a pointer, and what is remembered stays right |
| RuntimeChecks.PointerCheck.CheckUnalignedPtrs | CTypeGenRun.py:58-89 | Reports, in order, exactly the misaligned fields that hold pointers and are not allowed to be misaligned, one by one or all together |
| RuntimeChecks.CheckSizeMeans | CTypeGenRun.py:91-108 | Once members are placed, the size check accepts what was emitted if and only if the size fits or the class is empty |
| TypeGraph.NeedsValid | CTypeGen/__init__.py:1104-1216 | The calls a declaration or definition makes are about types of the graph |
| TypeGraph.NeedsExactly | CTypeGen/__init__.py:1104-1216 | Which calls the declaration and the definition of each kind of type make |
| TypeText.RendersIffPlain | CTypeGen/__init__.py:1209-1236 | The text of a type can be put together if and only if it contains no bare volatile or restrict and not itself |
| TypeText.MentionsExactly | CTypeGen/__init__.py:1131-1236 | What the text of each kind of type mentions: what it qualifies, holds, gives, takes, or points to unless that is void |
| TypeText.VoidIsMentionedBy | CTypeGen/__init__.py:1145-1155 | Void is mentioned exactly as a result, a parameter or an element: never behind a pointer |
| TypeText.AlignsIff | CTypeGen/__init__.py:992-1007 | A type has an alignment exactly when what it is made of leads to a type with one of its own |
| TypeText.CompletesIff | CTypeGen/__init__.py:651-660 | A type is complete exactly when it is not void, and through typedefs, qualifiers and arrays it leads to no record only declared |
| EmissionWorklist.UndefinedShrinks | CTypeGen/__init__.py:1584-1590 | Defining more types lowers the measure that bounds the rounds |
| EmissionWorklist.QueuedExactly | CTypeGen/__init__.py:1131-1143 | Defining a type queues what it points to, unless that is void or only declared, and nothing else |
| EmissionOrder.ReturnsIffRanked | CTypeGen/__init__.py:651-666 | Writing types out returns if and only if the calls this leads to can be ranked and none raises, for want of a base, of a text, of an alignment, or of the offset that would end a stand-in |
| EmissionOrder.LeadsToException | CTypeGen/__init__.py:1183-1186 | A run that leads to a call that raises does not return |
| EmissionOrder.DoMarks | CTypeGen/__init__.py:651-666 | When a record asks whether a field's type is defined, the answer is yes if and only if the type completes: no record only declared and no void, under typedefs, qualifiers and arrays |
| EmissionOrder.FinishedIff | CTypeGen/__init__.py:1465-1493 | A run that returns has finished exactly the calls that the ones asked for lead to |
| EmissionOrder.AskedOrNeeded | CTypeGen/__init__.py:1465-1493 | A call has finished if and only if it was asked for or a finished call needed it |
| EmissionOrder.RankedReturns | CTypeGen/__init__.py:1465-1493 | The rank bounds the depth of calls |
| EmissionOrder.DoKeepsOrder | CTypeGen/__init__.py:1465-1493 | Every call keeps the order: whatever a finished call needed had finished before it |
| EmissionOrder.LedToBefore | CTypeGen/__init__.py:1465-1493 | What a finished call leads to has finished before it |
| EmissionOrder.RecordNameFirst | CTypeGen/__init__.py:595-605 | Defining a record first writes its class statement, before anything that was not done yet |
| EmissionOrder.TypedefNameFirst | CTypeGen/__init__.py:1173-1181 | Defining a typedef of a record first declares the record and then the typedef, before the record is defined |
| EmissionOrder.DoKeepsSound | CTypeGen/__init__.py:1489-1493 | A type is marked as defined only if its own definition finished and what it depends on for that is defined |
| EmissionOrder.DoStaysIn | CTypeGen/__init__.py:1465-1493 | Only types that the first call leads to are written |
| EmissionOrder.WrittenOnce | CTypeGen/__init__.py:577-593 | No class statement, field list, alias or enumeration is written twice, although flags are set only after the recursive call |
| EmissionNames.FieldsAfterValues | CTypeGen/__init__.py:601-605 | A field list comes after its class statement and after the field list of every complete record held by value, through arrays, typedefs and qualifiers |
| EmissionNames.FieldsAfterNames | CTypeGen/__init__.py:1131-1155 | A field list comes after every name in its members' types: always through a pointer; through a function or an array always but for void typedefs and records only declared, and for those exactly if they have been declared for another reason |
| EmissionNames.AliasComesAfter | CTypeGen/__init__.py:1173-1195 | An alias comes after every name in the text of the type it stands for, opaque records and pointers to them included, with the same exception through a function or an array |
| EmissionNames.NamesComeFirstIff | CTypeGen/__init__.py:639-666 | Over all field lists, enumerations and aliases of a run: every name is written before it is mentioned if and only if those at risk have been declared by then. Empty bases and the stand-ins for types without a definition mention nothing |
| EmissionNames.RiskNeedsLink | CTypeGen/__init__.py:1145-1155 | In a field list or an alias, only what is mentioned through a function or an array is at risk |
| EmissionNames.RiskBeforehand | CTypeGen/__init__.py:1465-1493 | Before any run: it is declared in time if the call that mentions it leads to its declaration, and never if no call asked for does |
| EmissionNames.NamedInRun | CTypeGen/__init__.py:1465-1493 | A name is written in a run if and only if the calls asked for lead to the one that writes it |
| EmissionNames.RaisingNeverNamed | CTypeGen/__init__.py:1183-1186 | A typedef whose alias raises is never named in a run that returns |
| EmissionInputs.ByValueRecursion | CTypeGen/__init__.py:1489 | The input: a record taken by value by a function in it is never finished, at any depth |
| EmissionInputs.MentionedNeverNamed | CTypeGen/__init__.py:257-270 | The inputs: a record only declared that a function takes by value, and a void typedef that is a function's result; the run returns and the field list mentions a name that is never written |
| EmissionInputs.VolatileVoidRaises | CTypeGen/__init__.py:1226-1236 | The inputs: a typedef of volatile void behind a pointer, and a function giving volatile void; neither is ever written |
| EmissionInputs.ConstVoidRenders | CTypeGen/__init__.py:1218-1224 | With const it does not raise |
| EmissionInputs.FieldsThatRaise | CTypeGen/__init__.py:651-665 | The inputs: a field of type char8_t, and a field of a record only declared with a bitfield after it that has no byte offset; neither record is ever written |
| EmissionInputs.StandInMentionsNothing | CTypeGen/__init__.py:651-659 | The input: a record with a field of a record only declared; a run that returns has not written that name, and mentions none |
| EmissionWorklist.DoCovers | CTypeGen/__init__.py:1137-1142 | Whatever a defined pointer points to, if it is not void nor only declared, is defined, queued or in the current batch, throughout |
| EmissionWorklist.DoProgresses | CTypeGen/__init__.py:1137-1143 | Work is queued only by marking a pointer as defined, so there is a bound on the rounds |
| EmissionWorklist.DoQueuesRanked | CTypeGen/__init__.py:1137-1142 | What is queued can be ranked if the worklist it came from could |
| EmissionWorklist.ReachedIsDefined | CTypeGen/__init__.py:1584-1592 | Once the worklist is empty, everything reached by members, bases, parameters and pointers has been through `defineType`, up to void |
| EmissionWorklist.DoReaches | CTypeGen/__init__.py:1131-1143 | Nothing is ever finished or queued that links do not lead to from a wanted type: calls that are made, and pointers when they are followed |
| EmissionWorklist.RunSteps | CTypeGen/__init__.py:1584-1592 | Defining one type of a batch returns, and keeps the invariant of the run and the ranking |
| EmissionWorklist.ReachedIffDone | CTypeGen/__init__.py:1584-1592 | Once the worklist is empty, exactly the calls that links lead to from the wanted types have finished |
| TypeResolver.Resolver.DeclareType | CTypeGen/__init__.py:1465-1475 | Leaves flags and output as the specification of calls says; nothing if already declared |
| TypeResolver.Resolver.DefineType | CTypeGen/__init__.py:1477-1493 | The same for definitions, and returns whether the type can be used by value |
| TypeResolver.Resolver.WriteDeclaration | CTypeGen/__init__.py:1125-1216 | What each kind of type does to be declared makes exactly the calls it needs, then writes its statement |
| TypeResolver.Resolver.WriteDefinition | CTypeGen/__init__.py:1104-1216 | What each kind of type does to be defined makes exactly the calls it needs, then writes, and succeeds exactly when the type can be used by value |
| TypeResolver.Resolver.DefineMade | CTypeGen/__init__.py:595-610 | The kinds that queue nothing: records, enumerations, basic types and what is derived |
| TypeResolver.Resolver.DefineDerived | CTypeGen/__init__.py:1104-1216 | Arrays, qualifiers, typedefs and functions write nothing and are as complete as what they are made of |
| TypeResolver.Resolver.DeclareBase | CTypeGen/__init__.py:1125-1126 | Declares the base |
| TypeResolver.Resolver.DefineBase | CTypeGen/__init__.py:1215-1216 | Defines the base, and is as complete as it |
| TypeResolver.Resolver.DefineEach | CTypeGen/__init__.py:604-605 | Defines the types in order |
| TypeResolver.Resolver.DefineMembers | CTypeGen/__init__.py:595-610 | Members are defined between the class statement and the field list |
| TypeResolver.Resolver.DefineTypedef | CTypeGen/__init__.py:1173-1181 | Declares the base, then itself, then defines the base |
| TypeResolver.Resolver.DefineFunction | CTypeGen/__init__.py:245-252 | Result and parameters are defined in order |
| TypeResolver.Resolver.DefinePointer | CTypeGen/__init__.py:1131-1143 | Declares the base and queues it unless the debug information only declares it |
| TypeResolver.Resolver.DefineWanted | CTypeGen/__init__.py:1591-1592 | Defining one type keeps the order, writes nothing twice, loses nothing queued, and queues something only if it defines something |
| TypeResolver.Resolver.DefineBatch | CTypeGen/__init__.py:1591-1592 | The same for a batch, all of which has been handled at the end |
| TypeResolver.Resolver.DefineQueued | CTypeGen/__init__.py:1584-1592 | A round handles the whole batch, and either queues nothing or has defined something new |
| TypeResolver.Resolver.Write | CTypeGen/__init__.py:1584-1592 | If the calls that the worklist leads to can be ranked, the loop ends with nothing queued, and exactly the calls that links lead to from the wanted types have finished; types they do not lead to do not matter |
| Dies.FindsFirst | CTypeGen.cpp:273-322 | The search returns the first entry, in the order of the tree, with the requested tag and path of names that is no declaration and lies within named scopes, and nothing exactly if there is none; the name list is never read at its end |
| Dies.FindsFirstIn | CTypeGen.cpp:309-316 | The same over the children of an entry |
| Dies.DenotesBelow | CTypeGen.cpp:295-314 | A namespace, struct or class consumes a name on the way down, a compile unit none, and nothing else is entered |
| DieNames.GetFullName | CTypeGen.cpp:243-258 | Pushes the full name, outermost scope first, following specifications |
| DieNames.FullNameNotEmpty | CTypeGen.cpp:255-257 | The full name has at least the entry's own name, so the search starts with one |
| DieNames.MakeFullNameR | CTypeGen.cpp:470-491 | Every index is in range, every slot is empty when it is written, and the slots of the callers are left alone |
| DieNames.MakeFullName | CTypeGen.cpp:493-496 | The filled tuple is the same full name as the one pushed |
| DieNames.NameSpellsPath | CTypeGen.cpp:243-258 | Without specifications the full name is the names of the scopes on the path from the root, and the entry's own |
| DieNames.NameSpellsWay | CTypeGen.cpp:243-258 | For every entry, specifications or not: the full name is the names along the way up, which goes from an entry to what it specifies and else to its parent, of the scopes that specify nothing, and of the leaf |
| DieNames.HasWayUp | CTypeGen.cpp:243-258 | Every entry has such a way up |
| DieNames.NestedFullName | CTypeGen.cpp:243-258 | The input: a struct T inside a definition, out of line, of N::S has the full name N, S, T |
| DieNames.DefinesByName | CTypeGen.cpp:273-322 | What the search can return are exactly the definitions with the tag and names of their own that stand, within named namespaces, structs and classes, where the names say; without specifications that is under their full name |
| DieNames.OutOfLineNotFound | CTypeGen.cpp:273-322 | The input: a struct of a namespace, defined beside it, is not found |
| DieNames.FindDefinition | CTypeGen.cpp:744-764 | The first such entry of the first unit that has one, for the full name of the given entry; nothing if and only if no unit has one |
| DieNames.UnionHidesDefinition | CTypeGen.cpp:300-318 | A definition inside a union has the declaration's full name and is not found |
| Macros.MacroCallback.Define | CTypeGen/__init__.py:1809-1879 | A definition changes what is defined and emitted as the specification of one callback says |
| Macros.MacroCallback.Unbound | CTypeGen/__init__.py:1858-1860 | Is a name mentioned that is neither defined nor a parameter |
| Macros.MacroCallback.StartFile | CTypeGen/__init__.py:1885-1888 | Opens a file, and counts it if it is interesting |
| Macros.MacroCallback.EndFile | CTypeGen/__init__.py:1890-1893 | Closes the file opened last, and raises exactly if there is none |
| Macros.Decide | CTypeGen/__init__.py:1842-1862 | Whatever is emitted has a new name and mentions only its parameters and names already defined |
| Macros.DecideExact | CTypeGen/__init__.py:1813-1862 | Whatever the data: a macro is emitted exactly if its parameter list reads, its name is new, and its body is empty or cleans to a text other than the name with all names defined or parameters; then it has that name, those parameters and that text |
| Macros.ObjectEmitted | CTypeGen/__init__.py:1834-1875 | In an interesting file `name body` is written, as an assignment of the cleaned text or of None, exactly under that condition, and otherwise changes nothing |
| Macros.FunctionEmitted | CTypeGen/__init__.py:1816-1875 | The same for `name(params) body`, with the parameters that the list reads as |
| Macros.ParamsRefused | CTypeGen/__init__.py:1820-1832 | A parameter list with a syntax error is passed over; one that is broken otherwise raises |
| Macros.ParametersSuffice | CTypeGen/__init__.py:1857-1860 | A new function-like macro that mentions nothing but its parameters is always emitted |
| Macros.NextSound | CTypeGen/__init__.py:1809-1893 | Every callback keeps the run invariant; it raises exactly for an end without a start or an unreadable parameter list |
| Macros.RunSound | CTypeGen/__init__.py:1809-1893 | Over every run: the counter is the number of interesting open files, no name is emitted twice or clashes with an earlier one, and the macros load in the order emitted |
| Macros.CountingReads | CTypeGen/__init__.py:1885-1893 | For every nesting of files the counter gives exactly the definitions with an interesting file around them, and ends as it began |
| Macros.ParseObject | CTypeGen/__init__.py:1834-1838 | Name and body are taken apart as they were put together |
| Macros.ParseFunction | CTypeGen/__init__.py:1816-1833 | Name, parameter list and body are taken apart as they were put together |
| Macros.ParseExact | CTypeGen/__init__.py:1813-1838 | For all data: name and body put together again give the definition if and only if it has a space, and with a parameter list if and only if that is closed |
| Macros.SpacelessNotDefined | CTypeGen/__init__.py:1834-1838 | A definition without a space never makes its own name known, whatever state it comes in |

## Left out

- The floating-point argument registers, which no thunk saves before CALLBACK1, and entry by several threads at once.
- `ThunkX86.Thunk.OnDirect` and its likes: a call through a slot that does not hold the thunk is the environment's, not the source's.
- The mock of other slots while a thunk runs: the thunk's theorems are about one slot and its thunk, and other mocks are part of the environment.
- Machine words do not wrap: the only arithmetic is on addresses within a thunk's pages and on small counts.
- `StompMock`, its machine code, and PC-relative relocations of i386: short fixed formulas.
- Reading ELF and DWARF files, `dlsym`, `/proc/self/maps`, demangling and regular expressions: their results are inputs. So are processing of relocations by name and the memory allocator: slots are given, and pages come one after the other.
- That `Replacement::set` and `reset` each open a window: mocks and windows are modelled separately, and `Windows.WindowsRestore` covers any row of windows.
- `StructReplay.LayoutExact`: the consumer is a first-fit model of how ctypes lays out bitfields and plain fields, since ctypes itself is not part of this repository; with storage types of different sizes ctypes has rules of its own about growing a unit. A bitfield that follows a type overridden by a smaller one is left out: there a field that straddles its unit can be placed right by accident.
- `StructDefine.MemberType.Define`: the class starts from the members already found; reading hints, anonymous members and the comments in the text are not modelled. A structure without a size is not modelled either.
- `EmissionOrder.WrittenOnce`: output is a sequence of statements, not text; a typedef whose name equals its base's text writes no alias in the source and one in the model.
- `EmissionOrder.ReturnsIffRanked`: hints that override the types of members are not in the graph, and every type has the attributes that its kind needs, so exceptions for an unknown tag or a missing size are not modelled.
- `TypeResolver.Resolver.Write`: the loop over the worklist only; the loops over variables and functions before it make the same calls. The order of a batch is arbitrary instead of sorted, and types taken from other modules are basic types.
- `TypeResolver.Resolver.DefinePointer`: the test that keeps a type out of the worklist compares a type with names and is always true; the model queues without it.
- `StructReplay.BitOffsetCounts`: a bitfield with DW_AT_bit_offset and no byte offset raises in the source and counts from 0 in the model; the lemma is about those that have one.
- Errors reported through the error callback, and names of enumerators among the defined names.
- `Macros.Decide`: reading parameter lists and cleaning expressions are given functions; the text around a macro is not modelled.
- `HashWalk.WalkGnu`: the filter by name applied to each visited symbol is not modelled.
- Asking for an attribute may in libpstack fall back on other entries; here an entry has its own attributes only. libpstack is not part of this model.
- Python object handling, iterators, the comparison functions, `asPythonId`, the command-line tools and the tests.
