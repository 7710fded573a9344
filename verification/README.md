# Verification of Ruby-FFI's native core

A Dafny model of the parts of Ruby-FFI that are state machines or arithmetic rather than glue: the
dispatcher that runs callbacks arriving on foreign threads, the closure pool and the lifetimes of the
objects that share it, struct layout and the memory it describes, call frames and argument marshalling,
enums and bitmasks, and two caches. `dafny verify dfyconfig.toml` checks the whole project.

Code that works by changing things in place is modelled in place: classes over linked lists, arrays and
mutable fields, with loops where the source has them. Each method is proved against a function on values,
and the theorems are about those functions, over every input and every run. What each operation answers is
also stated without these functions, from the settings, the operations performed or the limits of the C
types. Concurrency is modelled as labelled steps of the threads involved, in any interleaving.

The target is a 64-bit little-endian platform with a 32-bit `int` and a 64-bit `long`; widths, wrap-around
and truncating casts are written out where the source has them. Ruby's own integers are unbounded.

## Files

- `Wrappers.dfy`, `Bits.dfy`: results and options; bitwise operators on unbounded integers in two's
  complement, with the bit-level facts everything below rests on.
- `CallbackSpec.dfy`, `PosixDispatcher.dfy`, `WindowsDispatcher.dfy`: the asynchronous callback protocol,
  without locks, and its two implementations: mutexes with condition variables, where wakeups may be
  spurious, and a critical section with auto-reset events. Both are proved to refine the protocol.
- `PoolSpec.dfy`, `ClosurePool.dfy`, `LifetimeSpec.dfy`, `FunctionLifetime.dfy`: the page-backed free-list
  allocator as a value and as linked lists on the heap; the lifetimes of Functions and their FunctionType
  as runs of operations and as objects.
- `PendingCallbacks.dfy`: the protocol and the lifetimes run together, to say whose block a waiting callback
  runs.
- `StructLayout.dfy`, `StructLayoutBuilder.dfy`, `UnionFiller.dfy`: alignment, field placement and final
  sizes; the mutable builder and the loops around it; the filler types of unions passed by value.
- `Bytes.dfy`, `Memory.dfy`, `Buffers.dfy`: byte encodings and byte swaps; bounds checks, accesses, arrays,
  strings and slices as functions; memory objects that share storage.
- `StructAccess.dfy`, `Structs.dfy`: the memory theorems applied through the layout theorems.
- `CallFrames.dfy`, `CallParams.dfy`: the per-thread frame stack; the three-cursor argument loop.
- `Enums.dfy`, `Bitmasks.dfy`: numbering and conversion.
- `FieldCache.dfy`, `CallbackCache.dfy`: the 256-row field cache and the two-level cache of Functions.

## What the proofs found

- `checkBounds` agrees with the unbounded range test for all offsets and lengths exactly when the memory's
  size is at least -1 (`Memory.BoundsTestIsExactUnlessSizeIsNegative`). A buffer made with a negative count
  has a negative size, and of such memory the test passes exactly the accesses with off >= 0, len >= 0 and
  size + 2**63 < off + len < 2**63 (`Memory.BoundsTestOfNegativeSize`): for every size of -2 or less, a
  one-byte access at 2**63 - 2 (`Memory.NegativeSizeLetsAByteThrough`).
- The alignment bit trick rounds every offset up correctly exactly for powers of two
  (`StructLayout.AlignWorksExactlyForPowersOfTwo`). A packing n therefore places all lists of fields with
  power-of-two alignments up to 2**a exactly when n is a power of two or at least 2**a, in which case it
  never takes effect (`StructLayout.PackingPlacesExactly`), and a minimum alignment below 2**31 places all
  lists exactly when it is a power of two or not positive (`StructLayout.MinimumPlacesExactly`).
- Neither trick ever goes down for a positive alignment, so fields do not overlap under any minimum alignment,
  and under a packing exactly when it is positive (`StructLayout.SettingsKeepApartExactly`). For n <= 0 a field
  of 1 - n bytes and a second one both land at 0 (`StructLayout.SecondAtZero`).
- A struct whose padded size does not fit an `int` is refused when it is unpacked. When it is packed it is
  refused only if the size or the alignment itself does not fit, and gets a negative size otherwise
  (`StructLayout.FinalSize`), as a struct with packed = 2 and one array of 2**31 - 1 bytes does
  (`StructLayout.PackedSizeTurnsNegative`).
- The note on `StructLayoutBuilder#add` says that an offset of `nil` or `-1` is equivalent to 0. The code
  computes the next aligned offset instead, and so does the model. `packed = false` stores 0, which Ruby
  takes for true, and then every field that has no explicit offset lands at 0 and any two that are not empty
  overlap (`StructLayout.PackedFalsePlacesAtZero`, `StructLayout.PackedFalseOverlaps`).
- The comment on `find_homogeneous_leaf_type` says that mixed leaves yield no type. The loop forgets a
  mismatch when the next element arrives, so `{float, double, float}` yields `float`, and
  `{float, double, double}` yields `double` (`UnionFiller.MixedStructs`). For every type without empty
  aggregates the comment is right exactly when the leaves are all of one type or the type's tail is not even
  (`UnionFiller.CommentIsRightExactly`). The tail counts the mismatches in a row up to the end, where two
  elements match when both have an even tail and the same last leaf; in a struct of leaves it is how often in
  a row a leaf differs from the one before it (`UnionFiller.LeavesAreByChanges`). So among structs of leaves
  it is right about all those of n leaves exactly when n is at most 2
  (`UnionFiller.CommentIsRightUpToTwoLeaves`).
- The filler makes up exactly the union's size unless it is a float type found among the leaves whose size
  does not divide it (`UnionFiller.FillerCoversExactly`). That cannot happen while no leaf is larger than its
  member's alignment (`UnionFiller.UnionFillerCovers`); a packed `{double, float, double}` as a member is a
  case where it does (`UnionFiller.PackedMemberIsNotCovered`).
- The callback cursor of `rbffi_SetupCallParams` stays inside the list of callback signatures exactly when
  the mapped callbacks before the point where the loop stops are no more than the callback parameters from
  there on (`CallParams.CursorStaysInRange`); if all types are supported, exactly when no mapped type wraps a
  callback (`CallParams.CursorStaysInRangeIfSupported`). A single such parameter is the smallest case that
  does not (`CallParams.MappedCallbackRunsPast`).
- A callback waiting for its Ruby block names a closure, not a Function. It runs the block of the Function it
  was made on exactly when that Function and its type have not been collected and no Function created later
  was given the closure (`PendingCallbacks.WhoseBlockRuns`). Freeing the Function alone does not change that,
  but the very next Function to be created takes the closure over, and the waiting callback with it
  (`PendingCallbacks.NextFunctionTakesOver`).
- A bitmask value survives the way to Ruby and back wherever the flags lie, even beyond the type's width,
  except that a flag declared before any symbol is filed under `nil` and cannot be converted back
  (`Bitmasks.ValuesSurvive`): with `[0, :a]` the value 1 is lost (`Bitmasks.NilFlagIsLost`). The remainder
  shares a bit with a declared flag exactly when the type is signed, the flag lies beyond its width and the
  value is negative (`Bitmasks.RemainderSharesNoFlag`), for example -1 in a signed 8-bit bitmask `[:a, 8]`
  (`Bitmasks.FlagBeyondItsWidth`).
- A runner that Ruby code ends with `Thread#kill`, before its block or inside it, never gets to the signal. In a
  run without a stop request that can go no further, the native threads that have returned are exactly those
  whose runners were not killed (`PosixDispatcher.EveryCallerIsReleased`,
  `PosixDispatcher.KilledIsStranded`).
- `MemoryPointer` accepts a negative number of bytes down to -7, because the alignment adds 7, and keeps it as
  its size (`Buffers.NewMemoryPointer`).
- The comment on `FIELD_CACHE_LOOKUP` says that the low 8 bits of a name select its row. The code takes the
  8 bits above them (`FieldCache.LookupFillsRow`).
- After a stop request the dispatcher takes at most one more record, so progress is proved without one
  (`PosixDispatcher.StopTakesAtMostOneMore`, `WindowsDispatcher.StopTakesAtMostOneMore`).

## Model

| member | source | states |
|---|---|---|
| CallbackSpec.BlockRunsExactlyOnceBeforeReturn | ext/ffi_c/Function.c:603-671 | In the protocol, a callback's Ruby block is started at most once, and a native thread that has returned had its block started and finished exactly once. |
| PosixDispatcher.StepKeepsInv | ext/ffi_c/Function.c:624-798 | Every step of a caller, the dispatcher, a runner or a stop request, every spurious wakeup and every kill of a runner keeps the invariant: each record is in one place only (list, dispatcher, runner or gone), its list links are intact, mutex owners match program counters, no wakeup is lost; and no step touches a record whose caller has returned. |
| PosixDispatcher.RunsAreSafe | ext/ffi_c/Function.c:624-798 | Over every run no step faults and the invariant holds. |
| PosixDispatcher.StepRefines | ext/ffi_c/Function.c:743-798 | Each step is either invisible or the one protocol action it stands for. |
| PosixDispatcher.RunRefines | ext/ffi_c/Function.c:603-798 | The visible actions of any run form a run of the protocol between the corresponding states. |
| PosixDispatcher.EveryInterleavingIsSafe | ext/ffi_c/Function.c:603-798 | In every interleaving from the start nothing faults, each block is started at most once, and a caller returns only after its block ran exactly once. |
| PosixDispatcher.StepWorks | ext/ffi_c/Function.c:683-798 | Without a stop request every step of a thread that is there uses up some of a finite amount of work. |
| PosixDispatcher.StepPays | ext/ffi_c/Function.c:633-642 | So every step, spurious wakeups, arrivals and kills included: only the first two add work, at most 4 and 27. |
| PosixDispatcher.SomebodyCanStep | ext/ffi_c/Function.c:633-646 | While some caller whose runner was not killed has not returned, a step that is no spurious wakeup is enabled: no wakeup is lost and nothing deadlocks. |
| PosixDispatcher.EveryCallerIsReleased | ext/ffi_c/Function.c:624-798 | Over any run without a stop request the ordinary steps number at most the work at the start, plus 27 per arrival and 4 per spurious wakeup; and when the run can go no further the callers that have returned are exactly those whose runners were not killed, whatever the schedule. |
| PosixDispatcher.KilledIsStranded | ext/ffi_c/Function.c:779-798 | Whatever happens after a runner is killed, a stop request included, its caller does not return. |
| PosixDispatcher.StopTakesAtMostOneMore | ext/ffi_c/Function.c:743-777 | Once stop is set, at most one more record is taken. |
| PosixDispatcher.StoppedStepsAreBounded | ext/ffi_c/Function.c:690-699 | After a stop request the dispatcher takes at most seven more steps of its own, whatever the others do. |
| PosixDispatcher.StopIsNeverStuck | ext/ffi_c/Function.c:743-777 | Until it has exited, it can step, or the holder of the mutex can, or the thread that asked it to stop has still to wake it. |
| PosixDispatcher.StoppedDispatcherExits | ext/ffi_c/Function.c:690-699 | When nothing can go on any more after a stop request, the dispatcher has exited. |
| WindowsDispatcher.StepKeepsInv | ext/ffi_c/Function.c:650-740 | The corresponding invariant for the critical section and auto-reset events, kept by every step; no step touches a record that is gone. |
| WindowsDispatcher.CallerLosesNoWakeup | ext/ffi_c/Function.c:657-668 | A caller that pushes after the dispatcher looked leaves the event set or is still about to set it. |
| WindowsDispatcher.RunRefines | ext/ffi_c/Function.c:650-740 | The auto-reset-event variant refines the same protocol. |
| WindowsDispatcher.EveryInterleavingIsSafe | ext/ffi_c/Function.c:650-740 | As for the POSIX variant: exactly one run of the block before a caller returns, and no fault, in every interleaving. |
| WindowsDispatcher.SomebodyCanStep | ext/ffi_c/Function.c:650-740 | While some caller whose runner was not killed has not returned, a step is enabled. |
| WindowsDispatcher.EveryCallerIsReleased | ext/ffi_c/Function.c:650-740 | Over any run without a stop request the steps number at most the work at the start plus 29 per arrival; and when the run can go no further the callers that have returned are exactly those whose runners were not killed. |
| WindowsDispatcher.KilledIsStranded | ext/ffi_c/Function.c:779-790 | Whatever happens after a runner is killed, its caller does not return. |
| WindowsDispatcher.StopTakesAtMostOneMore | ext/ffi_c/Function.c:703-740 | Once stop is set, at most one more record is taken. |
| WindowsDispatcher.StoppedStepsAreBounded | ext/ffi_c/Function.c:690-740 | After a stop request the dispatcher takes at most nine more steps of its own. |
| WindowsDispatcher.StopIsNeverStuck | ext/ffi_c/Function.c:703-740 | Until it has exited, somebody can step. |
| PoolSpec.ReuseKeepsValid | ext/ffi_c/ClosurePool.c:145-151 | Taking the head of the free list keeps free and live closures a partition and the count right, and yields a closure nobody has. |
| PoolSpec.GrowKeepsValid | ext/ffi_c/ClosurePool.c:180-192 | So does adding a page of new closures and handing out the first. |
| PoolSpec.GiveBackKeepsValid | ext/ffi_c/ClosurePool.c:257-271 | So does pushing a live closure back. |
| PoolSpec.DeadExactlyWhenUnreferenced | ext/ffi_c/ClosurePool.c:121-130 | The count is never negative, and zero exactly when the owner is gone and no closure is outstanding. |
| PoolSpec.SlotHoldsClosure | ext/ffi_c/ClosurePool.c:153 | The distance between trampolines is the least multiple of 8 that holds a closure. |
| PoolSpec.SlotIsInside | ext/ffi_c/ClosurePool.c:153-168 | Each trampoline slot is 8-aligned and inside its page. |
| PoolSpec.SlotsAreApart | ext/ffi_c/ClosurePool.c:164-168 | Slots are pairwise disjoint. |
| ClosurePools.ClosurePool.Build | ext/ffi_c/ClosurePool.c:153-204 | A page is mapped, prepared and protected, or nothing that was acquired is kept; success is exactly when every request succeeds. |
| ClosurePools.ClosurePool.Alloc | ext/ffi_c/ClosurePool.c:134-204 | Hands out the head of the free list or the first cell of a new page, never a live closure; a failure changes nothing. |
| ClosurePools.ClosurePool.Cleanup | ext/ffi_c/ClosurePool.c:102-119 | Walks the block list and releases every page, every node and the pool, each once and nothing else. |
| ClosurePools.ClosurePool.Disown | ext/ffi_c/ClosurePool.c:121-130 | The owner's reference is dropped; everything is released exactly when it was the last. |
| ClosurePools.Free | ext/ffi_c/ClosurePool.c:257-271 | A live closure goes to the head of its pool's free list; the pool is destroyed exactly when that was the last reference. |
| LifetimeSpec.StepKeepsInv | ext/ffi_c/Function.c:459-475 | Every creation, free, autorelease change and collection, of a Function or of the FunctionType, in any order, keeps the invariant and never uses a destroyed pool or returns a closure twice. |
| LifetimeSpec.NoProgramFaults | ext/ffi_c/Function.c:586-601 | No program at all reaches a double return or a use after destruction. |
| LifetimeSpec.PoolDestroyedExactlyOnce | ext/ffi_c/FunctionInfo.c:122-134 | The pool is destroyed at most once, exactly when the type is gone and no Function holds a closure; no two Functions share one. |
| LifetimeSpec.CollectedEverything | ext/ffi_c/Function.c:303-316 | After everything was collected the pool is gone exactly when no Function leaked its closure with autorelease off. |
| LifetimeSpec.FunctionRemembers | ext/ffi_c/Function.c:303-316 | Over every program: only its own free takes a Function's closure, only autorelease= sets its flag, to the last argument given, and only its collection collects it. |
| LifetimeSpec.AutoreleaseIsLastSetting | ext/ffi_c/Function.c:548-558 | From the operations alone: a Function's flag is the argument of the last autorelease= for it, or true if there was none. |
| LifetimeSpec.CollectedLeaks | ext/ffi_c/Function.c:303-316 | A Function that is never freed and was collected when the last autorelease= had been false leaves its closure handed out; otherwise it holds it no more. |
| LifetimeSpec.WhenRaised | ext/ffi_c/Function.c:586-601 | An operation raises exactly when it frees a Function without a closure or needs a page that cannot be had. |
| PendingCallbacks.StepKeepsInv | ext/ffi_c/Function.c:442-485 | Callbacks, creations, frees and collections in any order: a closure names the last Function created with it, and a Function that holds a closure is that one. |
| PendingCallbacks.WhoseBlockRuns | ext/ffi_c/Function.c:603-622 | In every run a waiting callback runs its own Function's block exactly when the Function and its type are not collected and no later Function was given the closure; so always while the Function has its closure. |
| PendingCallbacks.AnotherBlock | ext/ffi_c/Function.c:586-601 | When it is another Function's block, that one was created later with the same closure, which the called one had given back; and the closure is handed out exactly if that one holds it. |
| PendingCallbacks.NextFunctionTakesOver | ext/ffi_c/ClosurePool.c:145-151 | After free alone the callback still runs its own block; after the next Function with a proc is created it runs that one's. |
| FunctionLifetime.Runtime.Init | ext/ffi_c/Function.c:442-485 | function_init with a proc, on the real pool, is the corresponding step, including the exception when no page can be had. |
| FunctionLifetime.Runtime.InitFromPointer | ext/ffi_c/Function.c:451-457 | function_init with an address is the corresponding step and takes no closure. |
| FunctionLifetime.Runtime.Release | ext/ffi_c/Function.c:586-601 | free gives the closure back once and raises the second time. |
| FunctionLifetime.Runtime.SetAutorelease | ext/ffi_c/Function.c:548-558 | Changing autorelease is the corresponding step. |
| FunctionLifetime.Runtime.Collect | ext/ffi_c/Function.c:303-316 | function_free is the corresponding step: it gives the closure back exactly when there is one and autorelease is on. |
| FunctionLifetime.Runtime.CollectType | ext/ffi_c/FunctionInfo.c:122-134 | fntype_free is the corresponding step: it drops the owner's reference if a pool was ever made. |
| StructLayout.RubyAlignRoundsUp | lib/ffi/struct_layout_builder.rb:181-183 | For a power of two, align yields the least multiple that is at least the offset. |
| StructLayout.CAlignIsRubyAlign | ext/ffi_c/StructLayout.c:52 | FFI_ALIGN on a 64-bit size_t computes the same number, zero included. |
| StructLayout.AlignIsIdempotent | ext/ffi_c/StructLayout.c:493 | Aligning what is aligned changes nothing, in either language. |
| StructLayout.AlignWorksExactlyForPowersOfTwo | lib/ffi/struct_layout_builder.rb:181-183 | The bit trick rounds all offsets up exactly if the alignment is a power of two. |
| StructLayout.AddPlaces | lib/ffi/struct_layout_builder.rb:123-138 | A field without an offset goes to the least aligned offset past the struct so far, and is refused exactly when that does not fit an unsigned int. |
| StructLayout.FieldsArePacked | lib/ffi/struct_layout_builder.rb:123-138 | For any list of such fields whose effective alignments are powers of two, each is at the least offset that is aligned for it and past the field before. |
| StructLayout.FieldsBelong | lib/ffi/struct_layout_builder.rb:123-138 | From the settings and any list alone: an explicit offset is taken, wrapped if negative; in a union any other field is at 0; in a struct it is at the first offset past all fields before it that is, unpacked, a multiple of its type's alignment and of the minimum, and packed by n, a multiple of n or of its type's alignment. |
| StructLayout.ExplicitOffsets | lib/ffi/struct_layout_builder.rb:123-138 | An explicit offset is refused exactly when it does not fit 32 bits, as no fixnum or as out of range. |
| StructLayout.AlignmentIsLargest | lib/ffi/struct_layout_builder.rb:56-138 | The alignment of a packed class is that of its settings; of any other the largest of it and its fields' own. |
| StructLayout.LastMinimumHolds | lib/ffi/struct_layout_builder.rb:56-59 | A minimum alignment asked for again replaces the one before, while the alignment only grows. |
| StructLayout.PackingPlacesExactly | lib/ffi/struct_layout_builder.rb:89-96 | A packing places all ordinary lists with alignments up to 2**a so exactly when it is a power of two or at least 2**a. |
| StructLayout.MinimumPlacesExactly | lib/ffi/struct_layout_builder.rb:56-59 | A minimum alignment below 2**31 places all lists so exactly when it is a power of two or not positive. |
| StructLayout.AlignNeverGoesDown | lib/ffi/struct_layout_builder.rb:181-183 | For every positive alignment, align yields an offset from the given one up, less than the alignment above it. |
| StructLayout.CAlignNeverGoesDown | ext/ffi_c/StructLayout.c:52 | The C padding never makes a size smaller, unless it turns negative as an int. |
| StructLayout.CAlignOfNone | ext/ffi_c/StructLayout.c:533-543 | With an alignment of 0 or less no positive size comes out of it. |
| StructLayout.SettingsKeepApartExactly | lib/ffi/struct_layout_builder.rb:89-138 | Whatever the minimum alignment, a struct class keeps all its fields without explicit offsets apart exactly when it has no packing or one that is true or positive. |
| StructLayout.SecondAtZero | lib/ffi/struct_layout_builder.rb:123-138 | With a packing n of 0 or less, a field of 1 - n bytes and a one-byte field after it are both at 0. |
| StructLayout.NegativePackingWraps | lib/ffi/struct_layout_builder.rb:129-138 | With a negative packing the second of two one-byte fields is refused or lands near 2**32. |
| StructLayout.PackedFalsePlacesAtZero | lib/ffi/struct_layout_builder.rb:89-96 | With packed = false every field without an explicit offset lands at 0. |
| StructLayout.PackedFalseOverlaps | lib/ffi/struct_layout_builder.rb:89-96 | So any two such fields that are not empty overlap. |
| StructLayout.FieldsAreDisjoint | lib/ffi/struct_layout_builder.rb:123-138 | Such fields do not overlap and keep their order. |
| StructLayout.FinalSize | ext/ffi_c/StructLayout.c:483-543 | For every size: it becomes the least multiple of the alignment that covers the fields exactly when that fits an int; otherwise the struct is refused, except that a packed one whose size and alignment fit gets a negative size. |
| StructLayout.BuildRefuses | ext/ffi_c/StructLayout.c:482-548 | A struct that fits is refused exactly when it is empty or a field other than the last has no size. |
| StructLayout.PackedSizeTurnsNegative | ext/ffi_c/StructLayout.c:483-543 | A struct with packed = 2 and one array of 2**31 - 1 bytes is laid out with a negative size. |
| StructLayout.StructLayoutIsSound | lib/ffi/struct_layout_builder.rb:167-174 | From the class's settings to the finished layout: for any minimum alignment and any positive packing, no two fields overlap and all are inside the size; placement at least aligned offsets where the effective alignments are powers of two, and the least final size where the struct's own is one too. |
| StructLayout.SensibleIsEnough | lib/ffi/struct_layout_builder.rb:56-96 | Settings and field alignments that are powers of two meet all these conditions. |
| StructLayout.ArrayElementsAreAligned | lib/ffi/struct_layout_builder.rb:167-174 | In an array of such structs every field of every element is aligned. |
| StructLayout.ArrayElementsBelong | lib/ffi/struct_layout_builder.rb:167-174 | In an array of structs every field of every element is at a multiple of its own type's alignment, unpacked, and of the minimum; packed, of one of the two. |
| StructLayout.UnionLayoutIsSound | lib/ffi/struct_layout_builder.rb:125-135 | Whatever its settings, a union's members are all at offset 0 and inside its size, which is the least multiple of the alignment, where that is a power of two, that holds the largest and any size that was set. |
| StructLayout.FieldsStayInside | lib/ffi/struct_layout_builder.rb:135 | Whatever the settings, and whatever explicit offsets are given, wrapped negative ones included, every field of a struct lies inside it. |
| StructLayout.LayoutKeepsFactors | ext/ffi_c/StructLayout.c:483-543 | Whatever the settings, every power of two that divides the alignment divides the size. |
| StructLayout.FieldMapFinds | ext/ffi_c/StructLayout.c:534 | The field map leads from a name to the last field of that name. |
| StructLayout.FieldMapHasOnly | ext/ffi_c/StructLayout.c:534 | And from no other name. |
| StructLayoutBuilders.ParseReadsWhatIsWritten | lib/ffi/struct.rb:298-314 | A specification list, its names symbols or strings, is read back as the fields, and the optional offsets, it was written from. |
| StructLayoutBuilders.ParseReadsExactly | lib/ffi/struct.rb:298-314 | The loop reads given fields from a list exactly if the list spells them: a name, a type or a symbol that names it, and the offset if there is one. |
| StructLayoutBuilders.StructLayoutBuilder.SetPacked | lib/ffi/struct_layout_builder.rb:89-96 | An integer sets both packing and alignment, anything else only packing. |
| StructLayoutBuilders.StructLayoutBuilder.SetAlignment | lib/ffi/struct_layout_builder.rb:56-59 | The alignment only grows, the minimum alignment is replaced. |
| StructLayoutBuilders.StructLayoutBuilder.AddField | lib/ffi/struct_layout_builder.rb:123-138 | add changes the builder as the placement function says, or raises and leaves it alone. |
| StructLayoutBuilders.StructLayoutBuilder.ArrayLayout | lib/ffi/struct.rb:298-314 | The loop over a specification adds exactly the fields it parses to, and fails at the first thing that is none. |
| StructLayoutBuilders.StructLayoutBuilder.BuildLayout | lib/ffi/struct_layout_builder.rb:167-174 | build pads unless packed and makes the layout. |
| StructLayoutBuilders.Initialize | ext/ffi_c/StructLayout.c:482-548 | The checking loop accepts or refuses as specified, and files each field under its name, the last one winning. |
| StructLayoutBuilders.LayOut | lib/ffi/struct.rb:205-225 | Struct.layout applies packing, minimum alignment, fields and size in that order. |
| UnionFiller.UniformIsFound | ext/ffi_c/StructLayout.c:606-630 | If all leaves are one type, the recursion returns it. |
| UnionFiller.LastLeafIsFound | ext/ffi_c/StructLayout.c:606-630 | The recursion yields the last leaf when the tail is even, and nothing otherwise. |
| UnionFiller.CommentIsRightExactly | ext/ffi_c/StructLayout.c:596-605 | Of any type without empty aggregates, nested ones included, what the comment says is right exactly when its leaves are of one type or its tail, counted from the leaves alone, is not even. |
| UnionFiller.LeavesAreByChanges | ext/ffi_c/StructLayout.c:606-630 | Of a struct of leaves, the last leaf's type comes out exactly when the leaves change an even number of times in a row at the end. |
| UnionFiller.MixedStructs | ext/ffi_c/StructLayout.c:596-605 | {float, double, float} and {float, double, double} yield a type although they are mixed; {float, float, double} does not. |
| UnionFiller.CommentIsRightUpToTwoLeaves | ext/ffi_c/StructLayout.c:596-605 | The comment is right about all structs of n leaves exactly when n is at most 2. |
| UnionFiller.FindLeafType | ext/ffi_c/StructLayout.c:606-630 | The recursion with its out-parameter: float_only ends true exactly when no leaf is a non-float. |
| UnionFiller.FillerAnswers | ext/ffi_c/StructLayout.c:668-692 | The strategy of the comment, case by case, with the C types' alignments written out, modulo 2**16. |
| UnionFiller.FloatsFillFloats | ext/ffi_c/StructLayout.c:668-692 | A float fills a union only if all its leaves are floats. |
| UnionFiller.FillerCovers | ext/ffi_c/StructLayout.c:668-698 | Whole copies of the chosen filler make up exactly the layout's size where no leaf is larger than the alignment. |
| UnionFiller.FillerCoversExactly | ext/ffi_c/StructLayout.c:668-698 | In general exactly when no float type is found among the leaves or its size divides the layout's. |
| UnionFiller.PackedMemberIsNotCovered | ext/ffi_c/StructLayout.c:668-698 | A union whose member is a packed {double, float, double} is laid out in 20 bytes at alignment 1, and the filler makes two doubles. |
| UnionFiller.UnionFillerCovers | ext/ffi_c/StructLayout.c:668-698 | For every unpacked union the builder lays out of members whose leaves are no larger than the member's alignment, the copies make up its size. |
| UnionFiller.UnionFillerCoversExactly | ext/ffi_c/StructLayout.c:668-698 | For every union, whatever its settings, exactly when no float type is found among the leaves or its size divides the union's. |
| UnionFiller.Fill | ext/ffi_c/StructLayout.c:632-701 | __union! fills an array with as many copies of the filler as fit, or raises exactly when no type has the alignment as an unsigned short; they total the size exactly when the filler's size divides it. |
| Bytes.DecodeEncode | ext/ffi_c/AbstractMemory.c:87-93 | Reading n bytes back yields the value modulo 2**(8n). |
| Bytes.SwapReverses | ext/ffi_c/AbstractMemory.c:191-224 | bswap16, bswap32 and bswap64, for signed and unsigned types, reverse the byte encoding. |
| Bytes.SwapTwice | ext/ffi_c/AbstractMemory.c:191-249 | They are involutions. |
| Memory.BoundsTestIsExact | ext/ffi_c/AbstractMemory.h:99-106 | With wrapping 64-bit sums the sign test passes exactly if 0 <= off, 0 <= len and off + len <= size. |
| Memory.BoundsTestIsExactUnlessSizeIsNegative | ext/ffi_c/AbstractMemory.h:99-106 | It is exact for all offsets and lengths exactly when the size is at least -1. |
| Memory.BoundsTestOfNegativeSize | ext/ffi_c/AbstractMemory.h:99-106 | For a negative size it passes exactly if 0 <= off, 0 <= len and size + 2**63 < off + len < 2**63. |
| Memory.NegativeSizeLetsAByteThrough | ext/ffi_c/AbstractMemory.h:99-106 | For every size of -2 or less the one-byte access at 2**63 - 2 passes and is outside. |
| Memory.SwapStores | ext/ffi_c/AbstractMemory.c:82-93 | The shifts and masks of a swapping put store the bytes in reverse order. |
| Memory.SwapLoads | ext/ffi_c/AbstractMemory.c:114-121 | And a swapping get reads them so. |
| Memory.PutThenGet | ext/ffi_c/AbstractMemory.c:84-121 | A put changes only its own bytes, and reads back reduced to its width, in native and in swapped order. |
| Memory.ConvertibleLimits | ext/ffi_c/AbstractMemory.c:253-262 | The limits of the four conversions, in numbers: 64 bits wide for 64-bit kinds, 32 bits wide for all others. |
| Memory.PutSucceedsExactly | ext/ffi_c/AbstractMemory.c:84-94 | A put succeeds exactly for a value within those limits, on writable memory, inside of it. |
| Memory.GetSucceedsExactly | ext/ffi_c/AbstractMemory.c:112-122 | A get succeeds exactly on readable memory, inside of it. |
| Memory.HeldExactly | ext/ffi_c/AbstractMemory.c:84-121 | The values a put and get leave unchanged are those between the limits of the kind's own width and sign. |
| Memory.HeldRoundTrip | ext/ffi_c/AbstractMemory.c:84-121 | Each of them can be put wherever there is room and comes back unchanged. |
| Memory.PutElsewhere | ext/ffi_c/AbstractMemory.c:84-121 | An access to other bytes, through any view, does not see it. |
| Memory.ArrayPutIsEachPut | ext/ffi_c/AbstractMemory.c:140-159 | An array put is the sequence of single puts, or changes nothing when its range is not inside. |
| Memory.ArrayRoundTrip | ext/ffi_c/AbstractMemory.c:140-180 | An array that was put reads back, each value reduced, and no byte outside changed. |
| Memory.HeldArrayRoundTrip | ext/ffi_c/AbstractMemory.c:140-180 | An array of such values can be put wherever there is room and comes back unchanged. |
| Memory.ArrayChecks | ext/ffi_c/AbstractMemory.c:140-187 | When an array access is refused before any element, and that an empty one needs no permission. |
| Memory.CutIsUnique | ext/ffi_c/AbstractMemory.c:428-431 | get_string yields the one prefix without NULs that reaches a NUL or the end. |
| Memory.CharArrayTakes | ext/ffi_c/StructLayout.c:391-402 | A char array of n bytes takes exactly the strings of at most n bytes. |
| Memory.CharArrayRoundTrip | ext/ffi_c/StructLayout.c:391-402 | What it took reads back cut at the first NUL, also when it fills the array, and no byte outside changed. |
| Memory.StringRoundTrip | ext/ffi_c/AbstractMemory.c:516-533 | What put_string wrote is read back, cut at its first NUL, by any get_string that reaches the terminator. |
| Memory.PutBytesSucceedsExactly | ext/ffi_c/AbstractMemory.c:516-599 | put_string and put_bytes succeed exactly on writable memory where there is room. |
| Memory.GetStringSucceedsExactly | ext/ffi_c/AbstractMemory.c:416-433 | get_string succeeds exactly on readable memory for a range inside of it. |
| Memory.ChainStaysInside | ext/ffi_c/Buffer.c:199-247 | Any chain of slices, additions and byte-order changes stays inside the root, at the sum of the offsets. |
| Memory.SliceIsWindow | ext/ffi_c/Buffer.c:199-217 | A slice exists exactly if its range is inside, and an access succeeds on it exactly inside its length, finding what its parent has there. |
| Memory.ChainReadsRoot | ext/ffi_c/Buffer.c:199-247 | And reads what the root reads at that offset. |
| Memory.ChainSharesStorage | ext/ffi_c/Buffer.c:199-217 | What is written through the slice is read through the root. |
| Buffers.AlignedAddressFits | ext/ffi_c/Buffer.c:134-142 | The aligned address is 8-aligned and at most 7 bytes into the allocation. |
| Buffers.AbstractMemory.constructor | ext/ffi_c/Buffer.c:122-161 | A new buffer, its count of cells positive, zero or negative: its size is the product in 64 bits, it is embedded up to 8 bytes, negative sizes included, and 8-aligned beyond, and zero when it is embedded or clearing was asked for. |
| Buffers.AbstractMemory.Malloc | ext/ffi_c/MemoryPointer.c:105-137 | A memory pointer of its own, 8-aligned, never embedded, and zero on request. |
| Buffers.NewMemoryPointer | ext/ffi_c/MemoryPointer.c:105-128 | memptr_malloc gets memory exactly when the wrapped number of bytes plus 7 is not negative, and keeps a size of -7 to -1 as it is. |
| Buffers.AbstractMemory.CheckBounds | ext/ffi_c/AbstractMemory.h:99-106 | The sign test answers the unbounded range question for sizes from -1 up, and passes just the far-out accesses described above for negative ones. |
| Buffers.AbstractMemory.SliceOf | ext/ffi_c/Buffer.c:199-217 | slice makes a window on the same storage or raises. |
| Buffers.AbstractMemory.Plus | ext/ffi_c/Buffer.c:225-234 | + is the rest of the buffer from the offset. |
| Buffers.AbstractMemory.OrderAs | ext/ffi_c/Buffer.c:284-323 | order(:big) is a swapped view of the whole, order(:little) the buffer itself. |
| Buffers.AbstractMemory.PutNumber | ext/ffi_c/AbstractMemory.c:84-94 | Conversion, write check and bounds check in that order; then the bytes of the value, and only they, are in storage. |
| Buffers.AbstractMemory.GetNumber | ext/ffi_c/AbstractMemory.c:112-122 | The value of the bytes there, or the right error. |
| Buffers.AbstractMemory.PutArrayOf | ext/ffi_c/AbstractMemory.c:140-159 | The loop writes the values until one does not convert; a failed check writes nothing. |
| Buffers.AbstractMemory.GetArrayOf | ext/ffi_c/AbstractMemory.c:166-187 | The loop reads the values, or the right error. |
| Buffers.AbstractMemory.PutBytesAt | ext/ffi_c/AbstractMemory.c:572-599 | put_bytes of a whole string. |
| Buffers.AbstractMemory.PutStringAt | ext/ffi_c/AbstractMemory.c:516-533 | put_string writes the string and a terminator after checking room for both. |
| Buffers.AbstractMemory.GetStringAt | ext/ffi_c/AbstractMemory.c:416-433 | get_string with a length. |
| StructAccess.BuiltIsLaidOut | lib/ffi/struct_layout_builder.rb:123-138 | Every layout the builder makes for a list of numbers and inline arrays, with any minimum alignment and any positive packing, has disjoint, ordered, contained members. |
| StructAccess.CellIsInside | ext/ffi_c/Struct.c:634-643 | An index inside an inline array leads to an offset inside its member, and the 32-bit arithmetic does not wrap. |
| StructAccess.AccessesStayInBounds | ext/ffi_c/Struct.c:356-410 | No field access of a built struct ever fails its bounds check; a write fails only for a bad index, a value that does not convert or a string too long. |
| StructAccess.CellsThatCanBeRead | ext/ffi_c/Struct.c:634-665 | A cell of an inline array can be read exactly if its index is inside. |
| StructAccess.WriteStaysInField | ext/ffi_c/Struct.c:382-410 | A write changes no byte outside the member it names. |
| StructAccess.LastWriteIsRead | ext/ffi_c/Struct.c:356-410 | Over any run of writes, of numbers or strings, accepted or refused, every cell reads the value last put there, reduced to its width, or what it held at the start. |
| StructAccess.LastPutIsLast | ext/ffi_c/Struct.c:382-410 | That value is the one of the last write that puts anything in the cell. |
| StructAccess.StringOfLastWrites | ext/ffi_c/Struct.c:783-800 | Over any run a char array reads the string that the values last put in its cells spell, up to the first NUL. |
| StructAccess.LastStringIsRead | ext/ffi_c/Struct.c:783-800 | A char array reads the last string written to it, cut at its first NUL, whatever is refused or written to other members since. |
| StructAccess.BuiltStructRemembers | ext/ffi_c/Struct.c:256-266 | The same from the class's settings on: any minimum alignment, any positive packing, any members, any run of writes, every cell reads what was last put there. |
| Structs.Struct.AsetCell | ext/ffi_c/Struct.c:689-730 | []= on the struct's memory object is the write described above. |
| Structs.Struct.ArefCell | ext/ffi_c/Struct.c:649-665 | [] is the read. |
| Structs.Struct.AsetString | ext/ffi_c/StructLayout.c:381-402 | A string goes in by put_string or put_bytes depending on its length. |
| Structs.Struct.CharArrayToS | ext/ffi_c/Struct.c:783-800 | to_s reads it. |
| CallFrames.Thread.Push | ext/ffi_c/Thread.c:68-82 | The frame becomes current, remembers the previous one and has no exception. |
| CallFrames.Thread.CallFunction | ext/ffi_c/Call.c:359-418 | Over any tree of nested calls and callbacks the frame stack is restored, frames below are untouched, and the call raises exactly what its last callback, or an interrupt, left in its frame. |
| CallFrames.Thread.RunNative | ext/ffi_c/Call.c:391-411 | The frame ends with the exception of the last callback only. |
| CallFrames.Thread.InvokeCallback | ext/ffi_c/Function.c:1011-1020 | A callback's uncaught exception goes to the frame current when it began, its native caller gets zero, and without a frame it is lost. |
| CallFrames.NoExceptionIsLost | ext/ffi_c/Function.c:613-622 | Where each call makes at most one callback and nothing is rescued or interrupted, the outermost call raises exactly when some block did, at any depth. |
| CallFrames.LastCallbackDecides | ext/ffi_c/Function.c:616 | Of the callbacks of a call that is not interrupted the last decides: it raises what a call with that one alone does, and nothing without any. |
| CallFrames.OneCallbackRaises | ext/ffi_c/Call.c:414-416 | With one callback it raises e exactly when the block's first call to let an exception out lets e out, or none does and the block ends with e. |
| CallFrames.BlockEndsWith | ext/ffi_c/Function.c:1011-1020 | The same of every block, and it returns its value exactly when nothing is let out and it ends with it. |
| CallFrames.InterruptWins | ext/ffi_c/Call.c:371-391 | An interrupted call raises its interrupt, whatever its callbacks did. |
| CallFrames.BlockingAgrees | ext/ffi_c/Call.c:371-411 | Two programs that differ only in which calls block, at any depth, and are interrupted alike raise the same. |
| CallParams.CollectCallbacks | ext/ffi_c/FunctionInfo.c:195-218 | The loop collects the signatures of the callback parameters in order. |
| CallParams.CursorStaysInRange | ext/ffi_c/Call.c:307-315 | The callback cursor stays inside that list exactly when the mapped callbacks before the loop's stop are no more than the callback parameters from there on. |
| CallParams.CursorStaysInRangeIfSupported | ext/ffi_c/Call.c:307-315 | When all types are supported: exactly when no mapped type wraps a callback. |
| CallParams.MappedCallbackRunsPast | ext/ffi_c/Call.c:307-315 | One parameter of a mapped type that wraps a callback is enough for the cursor to leave the list. |
| CallParams.SupportedExactly | ext/ffi_c/Call.c:121-328 | All types are supported exactly when each is basic or one mapping of a basic one. |
| CallParams.CursorFindsSignature | ext/ffi_c/Call.c:307-315 | At each callback it points at that callback's own signature. |
| CallParams.ArgumentInRange | ext/ffi_c/Call.c:98-121 | The argument cursor is inside argv whenever it is used, with or without a block. |
| CallParams.BlockShiftsArguments | ext/ffi_c/Call.c:98-106 | When a block stands in for the one callback, arguments before it keep their index and later ones move up by one. |
| CallParams.AcceptsExactly | ext/ffi_c/Call.c:98-106 | The count is right if it is that of the parameters, or one less with a block and exactly one callback parameter. |
| CallParams.ArgIndexAnswers | ext/ffi_c/Call.c:98-121 | Parameter i takes argument i; after a callback that a block stands in for, argument i - 1. |
| CallParams.ExpectedIsPassed | ext/ffi_c/Call.c:121-326 | A callback parameter gets code for its own signature, running the block if there is one, a mapped one a converted argument, any other the argument itself. |
| CallParams.SlotsAreDistinct | ext/ffi_c/Call.c:121-326 | No two parameters share a storage cell, and there are enough. |
| CallParams.SetupCallParams | ext/ffi_c/Call.c:89-332 | Whenever the callback cursor stays inside its list: the call is refused exactly for a wrong count or an unsupported type; otherwise every parameter receives its argument, converted if mapped, or the block, in a cell of its own. |
| Enums.NumberingFollowsC | lib/ffi/enum.rb:96-117 | For every list: the numbering loop gives each constant the value section 6.7.2.2 of ISO/IEC 9899:2011 gives it, the last integer counting where there are several, and refuses exactly the lists that repeat a name. |
| Enums.EveryListDeclares | lib/ffi/enum.rb:96-113 | Every list of symbols and integers is a list of declarations, perhaps after integers that have no name. |
| Enums.InvertedIsLast | lib/ffi/enum.rb:114-117 | Inverting the map keeps, for each value, the last key that has it. |
| Enums.IntegersSurvive | lib/ffi/enum.rb:155-169 | to_native(from_native(v)) is v for every integer. |
| Enums.SymbolSurvives | lib/ffi/enum.rb:155-169 | A symbol survives the other round trip exactly when it is the last key with its value. |
| Enums.ToNativeAnswers | lib/ffi/enum.rb:155-163 | A symbol converts exactly if it is a key, to its value, nil likewise; every integer to itself, named or not; an object exactly if it has to_int, to that. |
| Enums.FromNativeAnswers | lib/ffi/enum.rb:167-169 | A value becomes a symbol exactly if the last key that has it is one, and is itself otherwise. |
| Enums.Enum.Initialize | lib/ffi/enum.rb:96-118 | The constructor's loops compute that numbering and its inverse. |
| Enums.Enum.Convert | lib/ffi/enum.rb:155-163 | to_native for symbols, nil, integers and objects with to_int. |
| Bitmasks.FlagsAreFlags | lib/ffi/enum.rb:192-215 | Every constant of a bitmask is a single bit. |
| Bitmasks.FlagsFollowNumbers | lib/ffi/enum.rb:192-215 | A list is refused exactly when it repeats a name or has a negative integer, and otherwise each flag is the bit whose position an enum with the same list gives as the value. |
| Bitmasks.Bitmask.Declare | lib/ffi/enum.rb:198-213 | One turn of the constructor's loop. |
| Bitmasks.ValuesSurvive | lib/ffi/enum.rb:260-300 | Every value the type holds survives from_native and to_native, wherever the flags lie, exactly when no nil key matches it. |
| Bitmasks.NilFlagIsLost | lib/ffi/enum.rb:198-300 | Declared as [0, :a], the value 1 does not come back. |
| Bitmasks.ValuesSurviveDeclaration | lib/ffi/enum.rb:192-300 | So always, for a declaration that starts with a symbol. |
| Bitmasks.RemainderSharesNoFlag | lib/ffi/enum.rb:291-299 | The remainder shares a bit with a declared flag exactly when the type is signed, the flag is beyond its width and the value is negative. |
| Bitmasks.FlagBeyondItsWidth | lib/ffi/enum.rb:291-299 | In a signed 8-bit bitmask [:a, 8] the remainder of -1 has the bit of :a. |
| Bitmasks.ListConvertsModulo | lib/ffi/enum.rb:260-284 | to_native of a list is congruent to the or of its elements modulo the width, and is the type's value for it when the or fits. |
| Bitmasks.QueryIsOr | lib/ffi/enum.rb:260-277 | A list is refused exactly when an element is no flag, integer or object with to_int, and otherwise has the bits of its elements and no others. |
| Bitmasks.ListedExactly | lib/ffi/enum.rb:287-300 | from_native lists the flags that share a bit with the value, and the remainder unless it is 0, and nothing else. |
| Bitmasks.ListedOnce | lib/ffi/enum.rb:287-300 | And each of them once. |
| Bitmasks.Bitmask.Initialize | lib/ffi/enum.rb:192-215 | The constructor's loop, including its refusal of repeated names and negative positions. |
| FieldCache.FieldIsHashLookup | ext/ffi_c/Struct.c:330-349 | A lookup through the cache answers what the hash answers and keeps the cache right. |
| FieldCache.CacheIsInvisible | ext/ffi_c/Struct.h:73-83 | Over any run of lookups and heap compactions the answers are those of the hash alone. |
| FieldCache.LookupFillsRow | ext/ffi_c/Struct.h:73-83 | A symbol's row is its second byte, and after a lookup that row holds its field. |
| FieldCache.MovedNamesFind | ext/ffi_c/StructLayout.c:774-784 | After a compaction each moved name finds what it found before, and no other word finds anything. |
| FieldCache.UnclearedCacheErrs | ext/ffi_c/StructLayout.c:774-784 | Without the clearing at compaction two fields could be taken for each other. |
| FieldCache.StructLayout.Lookup | ext/ffi_c/Struct.c:330-349 | struct_field on the rows in place. |
| FieldCache.StructLayout.CompactAll | ext/ffi_c/StructLayout.c:774-784 | struct_layout_compact on the rows in place. |
| CallbackCache.ForProcIsMemo | ext/ffi_c/Function.c:405-440 | One request is one step of a plain memo table, each signature in one level only. |
| CallbackCache.SamePairSameFunction | ext/ffi_c/Function.c:405-440 | Over any run a pair of proc and signature always gets the same Function and different pairs get different ones. |
| CallbackCache.RubyProc.CallbackFor | ext/ffi_c/Function.c:405-440 | The same on the proc's instance variables in place. |

## Left out

- libffi (`ffi_call`, `ffi_prep_cif`, its closures), the assembly trampoline, page mapping and protection and dlopen: foreign code. Preparing and protecting a page succeed or fail as the environment says.
- The garbage collector: only that each object is freed once, in any order, and that compaction renames keys and clears the field cache.
- The variant of `rbffi_Closure_Alloc` for libffi's own closure allocator, which neither reuses the free list nor links earlier blocks.
- The fields of a closure that the pool does not use (`function` and `pcl`; `info` is in PendingCallbacks only), and `initialize` called again on an existing Function.
- Weak memory: threads interleave step by step; mutexes, condition variables and events behave as their standards say. Failure to create the runner thread and the reset after fork are not modelled.
- PendingCallbacks.WhoseBlockRuns: native code that calls a closure after its Function was freed or collected is outside the model, and so is a closure leaked with autorelease off whose Function is gone.
- PosixDispatcher.EveryCallerIsReleased: says nothing about runs with a stop request, after which at most one pending record is taken.
- WindowsDispatcher.EveryCallerIsReleased: likewise for the Windows variant.
- `Thread#kill` on the dispatcher thread itself; memory exhaustion, except where a size or a count asks for a negative amount.
- UnionFiller.Fill: unions of negative size, for which no array can be allocated.
- Structs and unions with explicit overlapping offsets, trailing arrays of zero elements, ready-made Field objects passed to `add`, hash specifications, and the reference indexes of pointer fields.
- StructAccess.LastWriteIsRead: numbers, inline arrays of numbers and char arrays only; inner structs, pointers, enums and mapped fields are not modelled, and members are named by position (the lookup by name is in FieldCache).
- Floats, long doubles, booleans, pointers and strings behind pointers in memory; BigDecimal; `put_bytes` with an index and a length; memory of unknown size (`Pointer`, whose size is LONG_MAX); setting an already swapped view back to native order.
- CallParams.SetupCallParams: types whose callbacks run past the list of signatures have no defined outcome, CursorStaysInRange says which those are; a conversion that raises part-way is not modelled, since no call follows; variadic calls, the conversion of each argument and the return value are not either.
- CallFrames.Thread.CallFunction: `throw` and `Thread#kill` unwinding through frames and the saving of errno are not modelled.
- `Bitmask#[]`, enum registries, type lookup, library loading, generators and the other parts of the repository that are plumbing.
