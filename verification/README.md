# FacetOS: verified models

FacetOS is a capability operating system in C on top of seL4. This project models, in Dafny, the
parts of it that carry invariants of their own, and proves what they promise. `dafny verify
dfyconfig.toml` checks everything. Nothing was executed: all statements are about the models.

Code that computes a value is modelled by functions; code that changes memory step by step is
modelled by classes, arrays and loops, and every such method is proved to compute a function whose
properties are then proved as lemmas.

**The kernel heap** (`Arena`, `HeapSpec`, `HeapRuns`, `HeapEffects`, `HeapLedger`, `HeapWitness`,
`Heap`). Boundary tags live at addresses and are linked twice: by their physical neighbours and by
32 free lists. `Arena` holds the state, its invariant and the elementary steps; `HeapSpec` composes
them into malloc, free, realloc and add_region; `HeapRuns` states safety over whole runs;
`HeapEffects` says what each call makes of the tags, that nothing is wasted and that what is left
over serves later calls; `HeapLedger` accounts for the pages taken and given back; `HeapWitness` is
one concrete run; `Heap` is the C code on the pointers themselves, with the bytes of memory, proved
to refine the specification. liballoc_alloc is a parameter: its answer is null or a fresh run of
pages.

**Logger and allocator locks** (`LockProtocol`, `LockWork`). The logger allocates and the allocator
logs. Any number of threads step through stacks of activations, one atomic memory access at a time,
under sequential consistency; the choices a thread can make (log, allocate, grow, run out of memory,
panic) are moves of the scheduler. `LockProtocol` proves safety, freedom from deadlock and
termination, and `LockWork` that each activation gets done what it is for.

**Remote calls** (`Bytes`, `CodecSpec`, `CodecLaws`, `CodecValues`, `Codec`, `StubSpec`, `StubLaws`,
`StubValues`, `Stub`, `MethodIds`, `Framing`, `Remote`). The recursive codec, the proxy that marshals
from metadata, the server stub that the interface compiler emits for the same signature (as a list
of instructions), the numbering of methods, and the packing into message registers. `CodecValues`
and `StubValues` say which values and calls go through at all. `StubLaws.RemoteCallPasses` joins the
two sides over a perfect transport, and `Remote.WireCallOutcome` composes all layers.

**Names and files** (`PathSpec`, `Paths`, `PosixCwd`, `InitrdSpec`, `InitrdNames`, `InitrdWriter`,
`Initrd`, `Access`). Three path normalisers written independently are proved equal to one fold over
components. The POSIX view keeps its working directory below its root. The initrd reader is set
against a writer of the "New ASCII" cpio format. The permission walk is written twice, and the two
agree.

**Configuration** (`Utf8`, `ConfigString`, `ConfigEscapes`, `ConfigSpec`, `ConfigValidate`). UTF-8
validation against RFC 3629, quoted strings against every way of writing them, and the validator
that resolves every cross reference.

**Boot loader and shells** (`ElfLoader`, `ElfWriter`, `Shell`, `ShellGrammar`). The ELF loader that
reads its headers from the memory it writes, set against a writer of ELF64 records; and the
tokeniser that rewrites its line in place, in both shells, set against a grammar of command lines.

What the models show about the code:

- An interface may use an enum that a required interface declares. The compiler then describes it to
  the codec as a struct without fields, so an argument of that type is not sent
  (`StubLaws.ImportedEnumLost`).
- The encoder reads a bool inside a payload through an int pointer, so that a false bool followed by a
  nonzero byte arrives as true. `CodecLaws.CarriedIff` states for every value whether it arrives as
  meant, and `CodecLaws.TellsApart` and `StubLaws.RequestsTellApart` for every type and signature.
- add_region does not count its region as a whole free block, and at boot the bootstrap heap is always
  added (`src/dominit0/kmalloc.c:112-138`). `HeapRuns.WholeBlocksCounted` states the count with that
  surplus. A later free may give the region to the page allocator, which never issued it:
  `HeapLedger.GavePosts` states exactly when, as a condition on the heap before the call, and
  `HeapWitness.AddedRegionReturned` gives a run in which it happens.
- The client sends up to three capabilities and the service refuses more than one
  (`Framing.RequestBack`).
- The path given to the POSIX view may hold a NUL. The first normaliser keeps it in a name and the
  second stops at it, so ".." followed by a NUL leads to the parent of the namespace root
  (`PosixCwd.NulLeadsOut`); `PosixCwd.TargetBelowIff` shows that this is the only way out.

## Model

| member | source | states |
|---|---|---|
| Arena.BucketBounds | src/dominit0/liballoc.c:45-69 | the list index of any unsigned 32-bit size lies between MINEXP and MAXEXP - 1 |
| Arena.BucketMonotone | src/dominit0/liballoc.c:305-333 | a larger tag is never filed in a lower list than a smaller one, which is what lets the scan start at the request's own list |
| Arena.PushLinked | src/dominit0/liballoc.c:144-165 | insertion keeps every list a well-linked, duplicate-free sequence matching its head pointer, puts the tag in front of its list and changes no other tag's index |
| Arena.PullLinked | src/dominit0/liballoc.c:167-177 | removal from head, middle or end keeps the lists well linked and takes out that tag alone |
| Arena.AbsorbShaped | src/dominit0/liballoc.c:193-206 | merging a tag with its right neighbour keeps every region tiled by its split chain, with both chain directions agreeing |
| Arena.CarveShaped | src/dominit0/liballoc.c:208-232 | cutting a tag in two keeps every region tiled and creates a tag where there was none |
| Arena.AdoptShaped | src/dominit0/liballoc.c:240-280 | a fresh run of pages becomes a region of one tag, disjoint from all others |
| Arena.WithdrawShaped | src/dominit0/liballoc.c:459-470 | a tag without neighbours is exactly its region, which can be taken out leaving the rest tiled |
| Arena.MeltLeftReady | src/dominit0/liballoc.c:434-442 | one turn of the left loop keeps the whole invariant and leaves no free left neighbour, so the loop cannot turn again |
| Arena.MeltRightReady | src/dominit0/liballoc.c:444-451 | the same for the right loop, without giving the tag a free left neighbour |
| Arena.FileTagReady | src/dominit0/liballoc.c:454-490 | filing a coalesced tag restores the invariant provided the count of its list grows exactly when the tag fills its region |
| Arena.WithdrawReady | src/dominit0/liballoc.c:459-480 | giving a whole region back keeps the invariant and the region's length is the tag's |
| Arena.TakeReady | src/dominit0/liballoc.c:349-353 | unlisting a free tag, with the count lowered exactly for whole regions, leaves both neighbours in use |
| Arena.AdoptReady | src/dominit0/liballoc.c:240-280 | a new region's tag can be handed out next: no header or live block was there before |
| Arena.SplitReady | src/dominit0/liballoc.c:208-232 | the remainder becomes a free tag in its own list and the invariant holds of the tag cut down to the request |
| Arena.HandOutReady | src/dominit0/liballoc.c:357-401 | handing out the tag adds one live block behind its header |
| HeapSpec.SearchMeaning | src/dominit0/liballoc.c:314-333 | the nested search yields the first fitting tag of the first list that has one, or nothing if no list from there on has one |
| HeapSpec.FoundMeaning | src/dominit0/liballoc.c:305-333 | the search fails exactly when no free tag anywhere fits, and otherwise finds the first fitting tag of the lowest list that holds one |
| HeapSpec.PagesFor | src/dominit0/liballoc.c:240-280 | the pages requested hold the block and its header, are no more than needed beyond the minimum run, and stay below 2^31 bytes for the admitted requests |
| HeapSpec.Malloc | src/dominit0/liballoc.c:284-402 | malloc keeps the invariant and adds one new live block of the requested size; it fails, changing nothing, exactly when no free tag fits and no pages are granted, and pages are taken exactly when no free tag fits |
| HeapSpec.Coalesced | src/dominit0/liballoc.c:434-451 | both melt loops together remove just the freed block, keep the regions, and end between non-free neighbours |
| HeapSpec.Disposed | src/dominit0/liballoc.c:454-490 | a coalesced tag is filed, or, being a whole region beyond the standing reserve, goes back with the base and page count it came with |
| HeapSpec.Free | src/dominit0/liballoc.c:408-498 | free keeps the invariant and removes exactly one live block; a region given back leaves the heap, with its own page count if it came from the page allocator |
| HeapSpec.Realloc | src/dominit0/liballoc.c:519-544 | realloc replaces one live block by a new one of the new size |
| HeapSpec.AddRegion | src/dominit0/liballoc.c:547-586 | an added region joins the heap as free memory and the invariant holds with its uncounted surplus |
| HeapRuns.RegionTiled | src/dominit0/liballoc.c:144-232 | following split_right from a region's base covers the region exactly |
| HeapRuns.ByteBelongs | src/dominit0/liballoc.c:144-232 | every byte of every region belongs to exactly one tag |
| HeapRuns.FreeListsExact | src/dominit0/liballoc.c:144-177 | a tag is in a free list exactly when it is not a live block; then in one list, once, the one of its size class, and neither neighbour is free |
| HeapRuns.PayloadApart | src/dominit0/liballoc.c:284-402 | a live payload lies inside its own tag, apart from every header and every other payload |
| HeapRuns.LiveApart | src/dominit0/liballoc.c:284-498 | all live payloads are pairwise disjoint |
| HeapRuns.Step | src/dominit0/liballoc.c:284-586 | each client operation keeps the invariant, and only add_region adds uncounted regions |
| HeapRuns.RunGood | src/dominit0/liballoc.c:284-586 | the invariant holds after every legal run of malloc, free, realloc and add_region |
| HeapRuns.ExtraAdded | src/dominit0/liballoc.c:547-586 | over every legal run the uncounted surplus of a list grows by exactly the regions of its size class that add_region brought in |
| HeapRuns.WholeBlocksCounted | src/dominit0/liballoc.c:454-490 | after every run from boot, l_completePages[i] is the number of neighbourless free tags in list i less the regions of that class that were added, and at most 5; it is exact if and only if none was added |
| HeapLedger.CoalescedWhole | src/dominit0/liballoc.c:434-460 | the coalesced tag fills its region if and only if the freed block was the only live one in it |
| HeapLedger.FreeGivesBack | src/dominit0/liballoc.c:454-480 | a free calls liballoc_free if and only if, before it, the block is the only live one of its region and five whole free blocks of the region's size class are counted; and then it gives back that region |
| HeapLedger.GotPosts | src/dominit0/liballoc.c:240-280 | a malloc enters exactly the pages it took in the ledger of the page allocator |
| HeapLedger.GavePosts | src/dominit0/liballoc.c:454-490 | a free breaks the ledger if and only if, before it, the block is the only live one in a region of add_region and the reserve of that class is full; otherwise it settles one outstanding entry or none |
| HeapLedger.PagesBalance | src/dominit0/liballoc.c:240-490 | over every legal run, each liballoc_free returns a (base, pages) pair that was obtained and not yet returned, and what is outstanding is the heap's page runs, if and only if no free of the run meets that condition |
| HeapLedger.PagesOnly | src/dominit0/liballoc.c:240-490 | no free of a run without add_region meets it |
| HeapWitness.AddedRegionReturned | src/dominit0/kmalloc.c:112-138 | a legal run from boot, of one added region, seven mallocs and seven frees, after which the page allocator has been given a region it never issued |
| HeapEffects.MallocTags | src/dominit0/liballoc.c:305-401 | the tags after a malloc: the one the search chose, or the new region's, begins with the block; if it had 256 bytes and a header to spare, a free tag of exactly the remaining length follows it; all other tags are what they were |
| HeapEffects.MallocTight | src/dominit0/liballoc.c:365-385 | after every successful malloc the block's tag holds the request and less than 256 bytes and two headers more |
| HeapEffects.RemainderServes | src/dominit0/liballoc.c:305-385 | after a malloc that left a remainder, any request that the remainder holds succeeds even if no pages are granted |
| HeapEffects.SecondServed | src/dominit0/liballoc.c:284-402 | from boot, a malloc of 100 bytes that is granted one run of pages and a second one that is granted none both succeed, the second with the remainder of the first |
| HeapEffects.FreeTags | src/dominit0/liballoc.c:434-490 | the tags after a free: the block's tag and its free neighbours on either side have become one free tag of their whole length, or that tag was the whole region and is gone; all other tags are what they were |
| Heap.GetExp | src/dominit0/liballoc.c:45-69 | the shifting loop computes the integer logarithm, or -1 below 256 |
| Heap.PayloadsKept | src/dominit0/liballoc.c:208-232 | an operation that writes only headers of its tags changes no byte of a block live before and after |
| Heap.MallocKeeps | src/dominit0/liballoc.c:284-402 | malloc keeps every live block's bytes |
| Heap.FreeKeeps | src/dominit0/liballoc.c:408-498 | free keeps every other block's bytes |
| Heap.CopyKeeps | src/dominit0/liballoc.c:519-544 | copying into the new block keeps all old blocks and moves the prefix |
| Heap.ReallocKeeps | src/dominit0/liballoc.c:519-544 | freeing the old block afterwards keeps the moved prefix |
| Heap.Heap.constructor | src/dominit0/liballoc.c:34-36 | an empty heap satisfies the invariant before its first use |
| Heap.Heap.InsertTag | src/dominit0/liballoc.c:144-165 | the pointer updates put the tag at the head of its list, or of the list of its size when the index is -1 |
| Heap.Heap.RemoveTag | src/dominit0/liballoc.c:167-177 | the pointer updates take the tag out of its list and mark it unlisted |
| Heap.Heap.MeltLeft | src/dominit0/liballoc.c:180-190 | the left neighbour grows by the tag, whose header disappears |
| Heap.Heap.AbsorbRight | src/dominit0/liballoc.c:193-206 | the tag grows by its right neighbour, which is unlisted and disappears |
| Heap.Heap.SplitTag | src/dominit0/liballoc.c:208-232 | the heap becomes that with the remainder split off, and only headers are written |
| Heap.Heap.AllocateNewTag | src/dominit0/liballoc.c:240-280 | null pages change nothing; granted ones become a region of one tag |
| Heap.Heap.FindTag | src/dominit0/liballoc.c:305-333 | the loops compute the specified search and the index of the list found in |
| Heap.Heap.ObtainTag | src/dominit0/liballoc.c:336-357 | the tag for the request, free or new, off the lists and with the request noted |
| Heap.Heap.CutTag | src/dominit0/liballoc.c:365-385 | the excess is split off exactly when a header and at least 256 bytes are left |
| Heap.Heap.Prepare | src/dominit0/liballoc.c:290-385 | everything malloc does before handing out its result |
| Heap.Heap.Malloc | src/dominit0/liballoc.c:284-402 | refines the specification of malloc and changes no byte of any live block |
| Heap.Heap.MeltAllLeft | src/dominit0/liballoc.c:434-442 | the loop performs at most one melt, exactly when the left neighbour is free |
| Heap.Heap.MeltAllRight | src/dominit0/liballoc.c:444-451 | the loop performs at most one melt, exactly when the right neighbour is free |
| Heap.Heap.Coalesce | src/dominit0/liballoc.c:434-451 | both loops compute the coalesced tag |
| Heap.Heap.Dispose | src/dominit0/liballoc.c:454-490 | refines the choice between list and page allocator |
| Heap.Heap.Free | src/dominit0/liballoc.c:408-498 | refines the specification of free, ignores null, and changes no byte of the remaining blocks |
| Heap.Heap.CopyBytes | src/dominit0/liballoc.c:81-104 | the word loop and the byte loop together copy exactly the range |
| Heap.Heap.Realloc | src/dominit0/liballoc.c:519-544 | null pointer, zero size and the moving case as specified; the first min(old, new) bytes arrive and all other blocks keep theirs |
| Heap.Heap.AddRegion | src/dominit0/liballoc.c:547-586 | fails exactly for a null base or a size of at most one header, and otherwise adds the region |
| LockProtocol.InitialSafe | src/dominit0/klog.c:80-102 | the state before any thread runs satisfies the invariant |
| LockProtocol.ActTransfers | src/dominit0/klog.c:591-625 | no atomic step of the logger or the allocator takes what it cannot have or releases what it does not hold, the plain stores included |
| LockProtocol.InsideKmalloc | src/dominit0/kmalloc.c:140-171 | inside kmalloc_lock the flag and the heap lock are free when they are set |
| LockProtocol.StepExclusive | src/dominit0/klock.c:19-51 | every step keeps each lock and flag held by at most one activation and marked taken exactly while held |
| LockProtocol.ActStacks | src/dominit0/klog.c:115-137 | the log grows its buffer only outside an allocation, so activations nest only in the admitted ways |
| LockProtocol.StepSafe | src/dominit0/kmalloc.c:140-171 | every step of any thread keeps the invariant |
| LockProtocol.RunSafe | src/dominit0/klog.c:591-625 | mutual exclusion over whole runs, for any number of threads and any interleaving of klog, kmalloc, kfree, krealloc and klog_init_postboot |
| LockProtocol.HeapNeverContended | src/dominit0/kmalloc.c:213-223 | nobody ever spins on the inner heap lock |
| LockProtocol.WaitDescends | src/dominit0/klog.c:115-137 | a thread never waits for a lock it holds, and whoever it waits for spins, if at all, at a strictly lower rank |
| LockProtocol.NoDeadlock | src/dominit0/kmalloc.c:126-171 | no reachable state has a circular wait, and no chain of waiting threads has more than four links |
| LockProtocol.SomeoneRuns | src/dominit0/klock.c:19-35 | behind every active thread there is one that is not blocked |
| LockProtocol.Drains | src/dominit0/klog.c:202-216 | from every reachable state without a panic all threads can run to completion, and then no lock or flag is left taken |
| LockProtocol.EveryScheduleDrains | src/dominit0/klock.c:19-51 | every schedule of unblocked threads that only go on is bounded in length, and wherever one cannot go on all threads have finished and nothing is left taken |
| LockWork.Starts | src/dominit0/klog.c:580-625 | an idle thread may enter klog, kmalloc, klog_init_postboot and the dump of the log |
| LockWork.Spins | src/dominit0/klock.c:19-35 | whoever waits for a lock stays as it is while the lock is taken and, when it is free, takes it and goes on to what follows |
| LockWork.Panics | src/dominit0/klog.c:108-113 | a panic stops its thread for good and takes nothing |
| LockWork.KlogCalled | src/dominit0/klog.c:580-625 | klog may be entered from the allocator, from the heap and while booting |
| LockWork.KlogDropsIff | src/dominit0/klog.c:610-613 | in every state a message is dropped at klog's entry if and only if klog_in_progress is set; otherwise the flag is set and the thread goes on to the lock |
| LockWork.KlogLogs | src/dominit0/klog.c:612-618 | if the flag is clear and klog_internal_lock free, two steps reach the formatting with both held by this activation, whatever other threads and outer activations there are |
| LockWork.KlogEnds | src/dominit0/klog.c:620-625 | two more steps end it with the lock released and the flag clear |
| LockWork.GrowsIff | src/dominit0/klog.c:115-137 | the log calls krealloc if and only if no allocation is in progress at the test; otherwise it goes on without |
| LockWork.Grows | src/dominit0/klog.c:115-137 | then, with kmalloc_lock free, it gets into the allocator holding lock and flag, and comes back to the logging with nothing more taken than before |
| LockWork.KmallocWorks | src/dominit0/kmalloc.c:140-148 | in every safe state with kmalloc_lock free, an allocation gets into the allocator and into the heap holding kmalloc_lock, the flag and the heap's lock, and ends with all of them released |
| LockWork.ResetHarmless | src/dominit0/kmalloc.c:126-138 | where kmalloc_init resets the heap's lock, it is free in every safe state, so that nothing changes |
| LockWork.BootAllocates | src/dominit0/klog.c:161-201 | klog_init_postboot may call kmalloc as often as it likes before it takes a lock |
| LockWork.BootWorks | src/dominit0/klog.c:202-216 | with both log locks free it reaches the switch of buffers holding both, then logs under the public one alone, and ends with both released |
| Bytes.LittleEndianRoundTrip | libfacet/src/common/runtime.c:87-106 | reading back a written unsigned integer of any width that holds it gives it back |
| Bytes.FromLittleEndianRoundTrip | libfacet/src/common/runtime.c:87-106 | writing back what was read gives the bytes read |
| Bytes.LittleEndianDigit | libfacet/src/common/runtime.c:87-106 | byte k of a written integer is its k-th digit to the base 256 |
| CodecSpec.IntRoundTrip | libfacet/src/common/runtime.c:230-261 | signed and unsigned integers of every width survive widening to 64 bits, truncation and narrowing back |
| CodecSpec.IntCanonical | libfacet/src/common/runtime.c:230-261 | every byte pattern of an integer is the encoding of the value it decodes to |
| CodecLaws.RoundTrip | libfacet/src/common/runtime.c:117-262 | for all nested types, decoding an encoding followed by any suffix stops at the suffix and returns the value, with each bool as the int the encoder read and each enum presented as a struct as zero |
| CodecLaws.Canonical | libfacet/src/common/runtime.c:117-262 | bytes that decode are exactly the encoding of what they decode to if and only if every byte read as a bool is 0 or 1 |
| CodecLaws.CarriedIff | libfacet/src/common/runtime.c:258 | the receiver has the value the sender means if and only if every bool in it is true or has three zero bytes behind it and every enum presented as a struct is zero |
| CodecLaws.ExactReading | libfacet/src/common/runtime.c:117-262 | on types without bools and such enums both readings of a value are the value itself, so that it round-trips unchanged |
| CodecLaws.ExactTidy | libfacet/src/common/runtime.c:117-262 | on such types all bytes that decode are canonical |
| CodecLaws.SelfDelimiting | libfacet/src/common/runtime.c:117-262 | two encodings of one type that begin the same stream are the same bytes, end at the same place and are of values the receiver cannot tell apart |
| CodecLaws.Collision | libfacet/src/common/runtime.c:258 | every type with a bool, or with an enum presented as a struct, has two values that mean different things and have one encoding, such as a false bool with a byte behind it and a true one |
| CodecLaws.TellsApart | libfacet/src/common/runtime.c:117-262 | an encodable type's encodings tell what its values mean if and only if no part is a bool or an enum presented as a struct |
| CodecValues.EncodesIff | libfacet/src/common/runtime.c:27-262 | a value can be encoded if and only if it is a C value of its type, said by the structure of the type alone: integers in range, lengths and counts below 2^32, members matching fields, for every nesting of strings, arrays, uuids, integers, bools and structs |
| CodecValues.DecodesIff | libfacet/src/common/runtime.c:117-262 | on types that lose nothing, bytes can be decoded if and only if they begin with the encoding of a value of the type |
| CodecValues.AnyByteIsBool | libfacet/src/common/runtime.c:230-244 | any byte is received as a bool, true unless it is zero |
| CodecValues.StringForm | libfacet/src/common/runtime.c:130-156 | a string travels as four bytes of length, lowest first, and its bytes |
| CodecValues.ArrayForm | libfacet/src/common/runtime.c:157-209 | an array travels as four bytes of count and the encodings of its elements in order |
| CodecValues.StructForm | libfacet/src/common/runtime.c:210-221 | a struct travels as the encodings of its fields in the order of their declaration |
| Codec.Codec.Over | libfacet/src/common/runtime.c:313-318 | a codec over received bytes starts at the first of them |
| Codec.Codec.Reserve | libfacet/src/common/runtime.c:65-83 | growing keeps the contents and fails only for lack of memory or when doubling would overflow |
| Codec.Codec.Write | libfacet/src/common/runtime.c:65-83 | appends the bytes or leaves the contents alone |
| Codec.Codec.WriteUint | libfacet/src/common/runtime.c:87-94 | the shifting loop appends the low bytes, lowest first; more than eight are refused |
| Codec.Codec.Read | libfacet/src/common/runtime.c:108-115 | yields the next n bytes exactly if there are that many, and otherwise does not move |
| Codec.Codec.ReadUint | libfacet/src/common/runtime.c:96-106 | the shifting loop reads a little-endian integer of at most eight bytes |
| Codec.Codec.EncodeValue | libfacet/src/common/runtime.c:117-262 | appends exactly the specified encoding; a failure is the specification's or one of the buffer and leaves a longer or equal buffer |
| Codec.Codec.EncodeScalar | libfacet/src/common/runtime.c:224-262 | the type switch and truncation write the specified bytes |
| Codec.Codec.EncodeString | libfacet/src/common/runtime.c:150-155 | length and bytes, refused exactly above 32 bits of length |
| Codec.Codec.EncodeArray | libfacet/src/common/runtime.c:194-208 | count and elements, or the first error in the code's order |
| Codec.Codec.EncodeElems | libfacet/src/common/runtime.c:202-207 | the loop writes the elements one after the other |
| Codec.Codec.EncodeFields | libfacet/src/common/runtime.c:209-220 | the loop writes the fields in declaration order and stops at the first error |
| Codec.Codec.DecodeValue | libfacet/src/common/runtime.c:117-262 | computes the specified decoding and consumes exactly its bytes |
| Codec.Codec.DecodePlain | libfacet/src/common/runtime.c:128-149 | the kinds that need no metadata, with the refused ones refused |
| Codec.Codec.DecodeScalar | libfacet/src/common/runtime.c:224-247 | the type switch yields the specified value |
| Codec.Codec.DecodeString | libfacet/src/common/runtime.c:129-149 | a length beyond the remaining bytes is a protocol error |
| Codec.Codec.DecodeArray | libfacet/src/common/runtime.c:160-193 | zero-size elements and overflowing counts are protocol errors |
| Codec.Codec.DecodeElems | libfacet/src/common/runtime.c:178-192 | the loop decodes the elements one after the other |
| Codec.Codec.DecodeFields | libfacet/src/common/runtime.c:209-220 | the loop decodes the fields in declaration order |
| StubLaws.CastBack | libfacet/src/common/runtime.c:407-518 | every scalar that fits its type survives the widening to a word and the stub's cast |
| StubLaws.AppendExtends | libfacet/src/common/runtime.c:407-518 | marshalling one parameter only adds, and adds the number of words and handles the compiler counts for it |
| StubLaws.LoadBack | src/facet-idlc/generator.c:495-531 | the instruction emitted for an in or inout parameter loads the value marshalled for it, payloads as coded, whatever is appended later |
| StubLaws.LoadsBack | src/facet-idlc/generator.c:495-531 | every in and inout argument arrives as it is passed on and every out parameter starts as zero |
| StubLaws.PassedIff | src/facet-idlc/generator.c:513-521 | an argument in the payload arrives as it is meant if and only if its bools and imported enums are intact |
| StubLaws.MarshalWords | src/facet-idlc/generator.c:463-490 | the proxy sends exactly the number of words the stub checks for |
| StubLaws.TakeBack | libfacet/src/common/runtime.c:520-598 | the proxy takes back the output one store instruction put into the reply |
| StubLaws.CollectBack | libfacet/src/common/runtime.c:695-717 | the proxy recovers the out and inout values the stub replied, payloads as coded |
| StubLaws.StoresInBounds | src/facet-idlc/generator.c:541-568 | the unguarded word stores of the stub stay inside the reply for every signature of at most 32 parameters |
| StubLaws.LoadsInBounds | src/facet-idlc/generator.c:489-531 | on any request with the checked number of words, however malformed, no load leaves the word array |
| StubLaws.RemoteCallPasses | libfacet/src/common/runtime.c:630-721 | for every signature, the method sees the arguments as passed on and the caller gets its result code and its outputs as passed back |
| StubLaws.RemoteCallTransparent | libfacet/src/common/runtime.c:630-721 | on types without payload bools and imported enums a remote call is the local call: exactly the arguments, exactly the result code and outputs |
| StubLaws.RequestsTellApart | src/facet-idlc/generator.c:140-151 | a callable signature's requests determine what its arguments mean if and only if no in or inout parameter has a bool in its payload or an enum of another interface |
| StubLaws.ImportedEnumLost | src/facet-idlc/generator.c:92-151 | an in parameter whose enum is declared by a required interface sends nothing at all |
| StubValues.TypeIff | src/facet-idlc/generator.c:92-151 | the metadata emitted for an interface type describes exactly its values: arrays of any depth element by element |
| StubValues.MarshalIff | libfacet/src/common/runtime.c:630-680 | a request of at most 32 parameters can be marshalled if and only if every in and inout argument is a value of its type that may be passed in and the handles are at most eight |
| StubValues.StoresIff | src/facet-idlc/generator.c:541-568 | a reply can be built if and only if every output is a value of its type, the handles are at most eight and the words at most 64 |
| StubValues.RemoteCallIff | libfacet/src/common/runtime.c:630-721 | a remote call returns if and only if the arguments can be sent and the method's outputs can be sent back, in these terms; it then returns the method's result and outputs |
| StubValues.ServeInBounds | src/facet-idlc/generator.c:463-568 | whatever message arrives, the stub refuses any other number of words than the signature's, and neither reads nor writes outside a message |
| Stub.EmitServerMethod | src/facet-idlc/generator.c:453-580 | the compiler's counting loops emit the word check, one load per parameter at its own word and handle index, the call, and one store per output |
| Stub.CountInputWords | src/facet-idlc/generator.c:463-490 | the loop counts one word per scalar input and two per uuid |
| Stub.EmitLoad | src/facet-idlc/generator.c:497-531 | one turn of the loading loop, with the indices advanced by what the parameter occupies |
| Stub.EmitStore | src/facet-idlc/generator.c:546-568 | one turn of the storing loop: payload, handle, uuid or word |
| Stub.Request.AppendWord | libfacet/src/common/runtime.c:398-405 | a full word array refuses and stays as it is |
| Stub.Request.AppendPayload | libfacet/src/common/runtime.c:459-518 | the value's encoding is appended to the payload; a failure is lack of memory or the specification's, and the payload before it is kept |
| Stub.Request.Append | libfacet/src/common/runtime.c:407-518 | the two type switches append as specified for their direction; they fail exactly when the specification does, or, for payloads, for lack of memory |
| Stub.Request.MarshalCall | libfacet/src/common/runtime.c:640-671 | the marshalling loop builds the specified request, and fails for lack of memory or because there is none |
| Stub.AssignOutput | libfacet/src/common/runtime.c:520-598 | one output is taken from the words, handles or payload at the cursors, which advance accordingly; it fails exactly when the specification does, or, for payloads, for lack of memory |
| Stub.CollectOutputs | libfacet/src/common/runtime.c:695-717 | the second loop takes the outputs in order; a failure is a protocol error, and without a lack of memory it is the specification's |
| MethodIds.IdsDistinct | src/facet-idlc/main.c:64-72 | the numbering gives no id twice if and only if there are at most 100 generic methods or no others |
| MethodIds.DispatchReaches | libfacet/src/common/runtime.c:382-396 | in an accepted interface every method is the one its id dispatches to |
| MethodIds.CompiledDispatch | src/facet-idlc/main.c:181-211 | whatever the compiler accepts dispatches every id to one method, and generic methods have the same ids in every interface |
| MethodIds.FindMethod | libfacet/src/common/runtime.c:382-396 | the first method with the id, or none if there is none |
| MethodIds.Context.ImportGeneric | src/facet-idlc/main.c:131-147 | the generic methods go in front of the declared ones unless the table is full |
| MethodIds.Context.AssignIds | src/facet-idlc/main.c:64-72 | generic methods are numbered from 0 and own methods from 100 |
| MethodIds.Context.Validate | src/facet-idlc/main.c:17-62 | accepts exactly named interfaces with a uuid, numbered as assigned, whose methods return FacetResult and take local pointers only as outputs, with at most 100 generic methods of which getInterface is the first |
| MethodIds.Context.Compile | src/facet-idlc/main.c:181-211 | the compiler accepts exactly if the generic interface, the table size and the merged interface are all acceptable and identified |
| Framing.PayloadBack | libfacet/src/platform/sel4/client.c:20-24 | packing bytes into words and back is the identity for every length, partial last words included |
| Framing.RequestBack | libfacet/src/platform/sel4/service.c:123-165 | the service decodes every request the client sends to the same request if and only if it has the current version and at most one capability; else it is refused |
| Framing.ReplyBack | libfacet/src/platform/sel4/client.c:189-245 | the client decodes every reply sent, the fallback included, to the same reply if and only if the method's reply has the shared-payload flag clear |
| Framing.ReplyDelivered | libfacet/src/platform/sel4/service.c:167-205 | a method's own reply arrives unchanged if and only if it fits a message and has that flag clear |
| Framing.RequestIff | libfacet/src/platform/sel4/service.c:123-165 | whatever registers arrive, the service takes them for a request exactly if they carry one of the current version with at most 512 bytes, 64 words and one capability |
| Framing.ReplyIff | libfacet/src/platform/sel4/client.c:189-245 | whatever registers arrive, the client takes them for a reply exactly if they carry one, likewise, with the shared-payload flag clear |
| Framing.PutPayload | libfacet/src/platform/sel4/client.c:157-164 | the packing loop zero-fills and writes the specified words and nothing before them |
| Framing.GetPayload | libfacet/src/platform/sel4/service.c:146-152 | the unpacking loop yields the specified bytes |
| Framing.SendRequest | libfacet/src/platform/sel4/client.c:127-164 | accepts exactly the requests within the limits and without null handles, and fills the registers with their frame |
| Framing.ReceiveRequest | libfacet/src/platform/sel4/service.c:123-165 | decodes the registers as specified; it runs out of memory only for a payload or a handle of a message it has not refused before |
| Framing.SendReply | libfacet/src/platform/sel4/service.c:167-205 | fills the registers with the frame of the reply, or of the fallback when the reply does not fit |
| Framing.ReceiveReply | libfacet/src/platform/sel4/client.c:189-266 | decodes the registers as specified; it runs out of memory only for a payload or a handle of an acceptable reply |
| Remote.RequestArrives | libfacet/src/platform/sel4/service.c:207-235 | a request the client sends reaches the stub of the method it names, or is answered with a protocol error if it has more than one handle |
| Remote.ReplyArrives | libfacet/src/platform/sel4/client.c:189-245 | a stub's reply is decoded to itself, or to the fallback if it does not fit |
| Remote.UnknownMethod | libfacet/src/common/runtime.c:757-761 | the sender of a request that the client sends and whose number no method has sees FACET_NO_SUCH_METHOD and no outputs |
| Remote.WireCallOutcome | libfacet/src/common/runtime.c:747-764 | a call from marshalling over framing, decoding, dispatch by number and stub to the decoded reply, in full: refused, answered with a protocol error, answered with buffer too small, or the local call |
| Remote.WireCallIff | libfacet/src/common/runtime.c:630-721 | for a method that succeeds, the call over the wire is the call over a perfect transport if and only if request and reply fit inline messages and carry at most one handle each |
| PathSpec.WalkConcat | src/dominit0/initrd.c:172-232 | walking a joined path is walking its parts in turn, up-steps included |
| PathSpec.WalkRender | src/dominit0/initrd.c:172-232 | a canonical path walks to itself |
| PathSpec.RenderInjective | src/dominit0/initrd.c:144-157 | different places have different canonical paths |
| Paths.ResolvePath | src/dominit0/initrd.c:172-232 | the bounded buffer yields the canonical path of the walk and is never overrun; it refuses exactly empty, NUL-bearing and overlong inputs and walks that pass a too long path |
| Paths.ShortFits | src/dominit0/initrd.c:172-232 | a path whose length fits with its base's is never refused as too long |
| Paths.EnterBounded | src/dominit0/initrd.c:204-226 | one component is skipped, popped or appended, and refused exactly when it does not fit |
| Paths.NormaliseInPlace | src/dominit0/file_view.c:299-328 | the canonical path replaces the C string in the same buffer; the write cursor never passes the read cursor |
| Paths.CandidatePath | src/dominit0/file_view.c:294-328 | joining and normalising in place yields the canonical path of the walk from the node |
| Paths.NormalizeComponents | src/dominit0/posix.c:160-182 | the rootless loop walks on from what the buffer holds and grows by at most the input and one slash |
| Paths.NormalizeBeneathRoot | src/dominit0/posix.c:184-198 | a buffer of base + path + 2 bytes is enough, and the result is the relative form of the walk, "." for the root |
| Paths.Agree | src/dominit0/posix.c:160-198 | for NUL-free paths and a canonical base the three normalisers compute the same walk, and resolving a result changes nothing |
| PosixCwd.BeneathIff | src/dominit0/posix.c:138-158 | for canonical paths the string comparison decides containment, with the slash boundary, and the offset marks the path relative to the root |
| PosixCwd.TargetBelow | src/dominit0/posix.c:200-254 | a NUL-free path leads to the namespace root followed by the path's own root-clamped walk |
| PosixCwd.TargetOutside | src/dominit0/posix.c:200-254 | from a working directory outside the root, an absolute path leads to the root followed by its clamped walk, and a relative one is walked from the working directory |
| PosixCwd.TargetBelowIff | src/dominit0/posix.c:200-254 | from below the root a path leads out if and only if the root is not "/" and the walked path, read as a C string, is ".." |
| PosixCwd.NulLeadsOut | src/dominit0/posix.c:200-254 | a concrete path with a NUL for which it does |
| PosixCwd.RunBelowIff | src/dominit0/posix.c:398-444 | once at or below the root, the working directory stays there over a run of calls with any paths if and only if no call of the run leads out |
| PosixCwd.RunBelow | src/dominit0/posix.c:398-444 | no call of a run with NUL-free paths does |
| PosixCwd.CwdAfterChdir | src/dominit0/posix.c:356-444 | after a successful change to a NUL-free path, get_cwd gives the path as normalised |
| PosixCwd.CwdIsFixed | src/dominit0/posix.c:356-444 | changing to the directory that get_cwd names changes nothing |
| PosixCwd.View.Resolve | src/dominit0/posix.c:200-254 | the directory and relative path to open denote the target, from the namespace root whenever the path is absolute or the working directory is below the root |
| PosixCwd.View.ChangeDirectory | src/dominit0/posix.c:398-444 | the working directory becomes the target exactly if it could be opened, with the error codes of the other outcomes |
| PosixCwd.View.GetCwd | src/dominit0/posix.c:356-396 | the working directory relative to the namespace root, or "(unknown)" outside it |
| InitrdSpec.CanonicalNames | src/dominit0/initrd.c:120-142 | names joined by slashes, bare or behind "./" or "/", become the canonical path |
| InitrdSpec.ParseRecord | src/dominit0/initrd.c:506-545 | every record advances, and its data lies behind its header, before the next record and inside the archive |
| InitrdSpec.ParseWellFormed | src/dominit0/initrd.c:490-551 | on any bytes, an accepted archive yields distinct paths and data slices in bounds, disjoint and in archive order |
| InitrdSpec.ArchiveWellFormed | src/dominit0/initrd.c:490-551 | the same for a whole archive, whose first entry is the root |
| InitrdNames.CanonicalIff | src/dominit0/initrd.c:120-142 | a name's path is what follows its leading "./" and "/", unless that is empty or ".", or has a component "..", a NUL, or an empty component before its end, in which case the name is refused |
| InitrdNames.NameSplit | src/dominit0/initrd.c:122-127 | every name is of that form |
| InitrdNames.RecordIff | src/dominit0/initrd.c:506-530 | a record is taken exactly if its magic number is one of the two, its fields are hexadecimal, name and contents are inside the archive, the name with its NUL, and it is the trailer, the root or a file or directory of a legal name |
| InitrdNames.ChecksumFormat | src/dominit0/initrd.c:506-512 | a record with the magic number of the checksum format is read as one without |
| InitrdWriter.HexBack | src/dominit0/initrd.c:104-118 | a field written in upper or lower case hexadecimal reads back |
| InitrdWriter.RecordParses | src/dominit0/initrd.c:506-545 | a record written at an aligned offset is read with its name, data range, mode and owners |
| InitrdWriter.ArchiveBack | src/dominit0/initrd.c:490-551 | an archive written from files with legal distinct names, whatever follows its trailer, is read as exactly those entries after the root |
| InitrdWriter.EntriesDescribe | src/dominit0/initrd.c:490-551 | the entries are the files one for one, and each data slice holds the file's bytes |
| Initrd.HexField | src/dominit0/initrd.c:104-118 | the accumulating loop computes the positional value and refuses any other character |
| Initrd.MakePath | src/dominit0/initrd.c:120-142 | the stripping loops and the scan compute the canonical path or refuse |
| Initrd.ReadRecord | src/dominit0/initrd.c:506-530 | the checks on one record in the code's order |
| Initrd.Create | src/dominit0/initrd.c:490-551 | terminates on any bytes; what it loads is the specified parse and is well formed, and it rejects only what the specification rejects |
| Access.AllowsSearch | src/dominit0/initrd.c:586-597 | search and execute are decided by the execute bit of the first class that applies, or by any of the three for an administrator |
| Access.EndsMeaning | src/dominit0/initrd.c:599-639 | the loop stops at exactly the slashes that directly follow a name |
| Access.CheckExecuteIff | src/dominit0/initrd.c:599-639 | execution is allowed if and only if the root and every proper prefix ending in a name are directories granting search and the path is a file granting execute |
| Access.OpenCanonical | src/dominit0/initrd.c:641-659 | opening a canonical path is looking it up |
| Access.SearchesAgree | src/dominit0/file_view.c:142-170 | the two searches of one canonical directory give the same answer |
| Access.ExecuteIffSearch | src/dominit0/file_view.c:424-443 | for canonical paths within the limit, the initrd allows execution if and only if the credential view's own search passes and the path is a file granting execute; and the view opens that very file |
| Access.FindEntry | src/dominit0/initrd.c:144-157 | the first entry with the path and kind |
| Access.Execute | src/dominit0/initrd.c:599-639 | the loop computes the specified decision, including which error comes first |
| Access.Open | src/dominit0/initrd.c:641-659 | resolving and looking up, as specified |
| Access.Search | src/dominit0/file_view.c:142-170 | the credential view's loop computes its specified decision |
| Utf8.DecodeEncode | src/config.c:248-289 | one turn of the validators accepts the encoding of any scalar and moves past it |
| Utf8.EncodeDecode | src/config.c:147-189 | a sequence one turn accepts is the encoding of a scalar: no overlong form, surrogate or value above 0x10ffff |
| Utf8.AcceptsIff | src/config.c:147-189 | the validators accept exactly the concatenations of encodings of Unicode scalars (sections 3 and 4 of RFC 3629) |
| Utf8.AcceptsConcat | src/config.c:147-189 | valid strings may be joined |
| Utf8.ReadTail | src/config.c:173-180 | the loop over continuation bytes folds them into the value, or stops at the first that is not one |
| Utf8.ReadChar | include/facetos/utf8.h:7-40 | one character is accepted exactly when it decodes, and the offset reported lies in it |
| Utf8.Validate | src/config.c:147-189 | the loop accepts exactly valid strings, and otherwise reports an offset in the first bad character, with everything before it valid |
| ConfigString.BodyValid | src/config.c:321-400 | at every point of a string the bytes copied of the current character and the rest of the string together are valid, whatever mixture of raw bytes and escapes |
| ConfigString.StringValid | src/config.c:321-400 | a string built from a valid file is valid UTF-8 |
| ConfigString.BodyClean | src/config.c:321-400 | no string holds a NUL or exceeds the limit, and it ends behind its closing quote |
| ConfigString.WrittenBack | src/config.c:321-400 | quoting any NUL-free string, with letter or four-digit escapes, and parsing it gives it back |
| ConfigEscapes.EscapeRead | src/config.c:337-360 | for every nonzero scalar, the escape by letter, by four hexadecimal digits or by eight, each digit in either case, is read as the scalar's UTF-8 and ends behind its last character |
| ConfigEscapes.SpelledBack | src/config.c:321-401 | any text of nonzero scalars that fits, written between double quotes with raw characters and escapes mixed at will, is read as the text's UTF-8 |
| ConfigEscapes.QuotedIff | src/config.c:321-401 | a string between double quotes is read if and only if it is made of plain bytes and escapes and fits, and then as what these mean; anything else is refused |
| ConfigEscapes.LiteralIff | src/config.c:321-401 | a string between apostrophes is read if and only if its bytes are plain and fit, and then as those bytes, backslashes included |
| ConfigString.Buffer.Grow | src/config.c:291-311 | doubling keeps the contents and stays within the limit |
| ConfigString.Buffer.Append | src/config.c:248-311 | appends all the bytes or none, and reports the limit exactly when it would be passed |
| ConfigString.Parser.TakeHex | src/config.c:349-360 | the digit loop reads exactly the number of digits asked for |
| ConfigString.Parser.TakeEscape | src/config.c:336-369 | the escape as specified, or nothing |
| ConfigString.Parser.TakePiece | src/config.c:326-390 | one turn of the loop: between one and four bytes, or the problem |
| ConfigString.Parser.ParseQuoted | src/config.c:321-400 | the parser computes the specified string and stops behind it, or reports the specified problem or a lack of memory |
| ConfigSpec.NamesUnique | src/config.c:1487-1512 | a reference names at most one seat and terminal |
| ConfigSpec.SamePlace | src/config.c:1513-1524 | two references name the same place only if they are the same text |
| ConfigValidate.CheckSinks | src/config.c:1284-1297 | accepts exactly complete sinks with distinct names |
| ConfigValidate.CheckSeats | src/config.c:1298-1322 | accepts exactly complete seats with distinct dotless names and distinct dotless terminals |
| ConfigValidate.CheckSources | src/config.c:1323-1342 | accepts exactly complete sources with distinct names |
| ConfigValidate.CheckHash | src/config.c:1249-1257 | accepts exactly the SHA-256 scheme with a nonempty salt and a digest |
| ConfigValidate.CheckUser | src/config.c:1259-1277 | accepts exactly complete users with an acceptable hash and absolute paths |
| ConfigValidate.CheckUsers | src/config.c:1343-1362 | accepts exactly distinct users among which root is as required |
| ConfigValidate.CheckDomainUsers | src/config.c:1386-1397 | accepts exactly domain users distinct from each other and from the global ones |
| ConfigValidate.ResolveSinks | src/config.c:1414-1432 | accepts exactly known sinks used once, and the indices point at the sinks named |
| ConfigValidate.ResolveReference | src/config.c:1487-1512 | finds the place a reference names, and fails exactly when there is none |
| ConfigValidate.TakenIff | src/config.c:1513-1524 | comparing resolved indices over all earlier domains is comparing the references themselves |
| ConfigValidate.ResolveTerminal | src/config.c:1445-1525 | accepts exactly well-formed, resolvable, not yet assigned terminals |
| ConfigValidate.ResolveDomain | src/config.c:1367-1541 | one turn of the domain loop accepts exactly domains that fit the earlier ones and resolves all their references |
| ConfigValidate.AcceptableDomains | src/config.c:1367-1541 | the turn-by-turn conditions together are the conditions on the whole list of domains |
| ConfigValidate.Validator.ResolveDomains | src/config.c:1366-1541 | the loop accepts exactly if every domain fits, and finds the domain with id 0 |
| ConfigValidate.Validator.ResolveProviders | src/config.c:1545-1560 | accepts exactly if every provider exists, and the indices point at them |
| ConfigValidate.Validator.ValidateRequired | src/config.c:1279-1567 | succeeds exactly on acceptable configurations, and then the configuration is closed: every index points at the object its reference names, root_index is the one domain with id 0, and no terminal is assigned twice |
| ElfLoader.LastSegmentWins | bootstub32/bootstub32.c:213-254 | of all segments that cover an address the last decides its byte, and an uncovered address keeps its own |
| ElfLoader.SegmentCovers | bootstub32/bootstub32.c:226-247 | the bytes a checked segment covers lie outside the module and outside the stub |
| ElfWriter.HeaderRead | bootstub32/bootstub32.c:76-91 | an image that begins with a file header written field by field in the order of the format is accepted exactly if the identification, machine and entry size are right and the program headers start below 4 GiB; its count and entry point are those written |
| ElfWriter.ProgramRead | bootstub32/bootstub32.c:93-102 | each program header written field by field is read with its type, offset, physical address, file size and memory size |
| ElfWriter.LoadableIff | bootstub32/bootstub32.c:168-246 | such an image can be loaded if and only if the entry point is below 4 GiB and every PT_LOAD record's file bytes are inside the module and its place ends below 4 GiB, apart from stub and module |
| ElfWriter.LoadedBytes | bootstub32/bootstub32.c:211-246 | each byte of memory is then decided by the last PT_LOAD record that covers it: its file bytes at its physical address, zeros behind them |
| ElfWriter.LoadWritten | bootstub32/bootstub32.c:168-250 | load_kernel_elf on such an image returns the written entry point exactly if it can be loaded, and leaves in memory just what the records say |
| ElfLoader.Memory.Write | bootstub32/bootstub32.c:148-158 | every write goes to an address outside the module and the stub and changes that byte alone |
| ElfLoader.Memory.FetchLow32 | bootstub32/bootstub32.c:160-166 | the low half of a 64-bit field, or failure if the high half is not zero |
| ElfLoader.Memory.CopyBytes | bootstub32/bootstub32.c:148-152 | the range receives the module's bytes and nothing else changes |
| ElfLoader.Memory.ZeroBytes | bootstub32/bootstub32.c:154-158 | the range is zeroed and nothing else changes |
| ElfLoader.Memory.CheckHeader | bootstub32/bootstub32.c:178-208 | accepts exactly headers of the right class, order, machine and entry size whose table lies in the module, without wraparound |
| ElfLoader.Memory.FetchSegment | bootstub32/bootstub32.c:214-224 | reads the segment the image describes |
| ElfLoader.Memory.FillSegment | bootstub32/bootstub32.c:249-253 | the range of a checked segment receives file bytes and zeros, all else and the image stay |
| ElfLoader.Memory.LoadSegment | bootstub32/bootstub32.c:226-253 | loads exactly segments that pass the checks; memory then holds file bytes and zeros there, is otherwise unchanged, and the image is untouched |
| ElfLoader.Memory.LoadKernelElf | bootstub32/bootstub32.c:168-258 | returns the entry point exactly if the image is loadable; then each covered address holds the last covering segment's byte and all other memory, the module and the stub included, is unchanged |
| ElfLoader.RemoveKernelModule | bootstub32/bootstub32.c:261-274 | the modules behind the first move down in order |
| Shell.LexEscaped | src/apps/native/shell_parser.c:7-51 | an escaped word between quotes is read as that word |
| Shell.LineBack | src/apps/native/shell_parser.c:7-51 | the quoted rendering of any words that fit the capacity is tokenised to those words, by either parser |
| ShellGrammar.TokeniseIff | src/apps/native/shell_parser.c:7-51 | a line is accepted with these words if and only if it is a line of a written grammar, words of bare and escaped characters and spans between either quote, with blanks between, that means these words, at most as many as there is room for; for either shell |
| Shell.StrictIff | src/apps/posix/sh.c:23-47 | at equal capacity the POSIX shell accepts a line if and only if the native one does and no operator is unquoted, and then both see the same words |
| Shell.Step | src/apps/native/shell_parser.c:20-46 | one turn of the inner loop grows the word by at most one character, and the write cursor does not overtake unread input |
| Shell.ParseWord | src/apps/native/shell_parser.c:19-46 | the loop writes the specified word over the text it has read |
| Shell.NextWord | src/apps/native/shell_parser.c:17-48 | one word with its NUL, leaving the words before it in place |
| Shell.ParseCommand | src/apps/native/shell_parser.c:7-51 | accepts exactly the lines the specification tokenises; the line then holds the words one after the other, and the arguments point at them |

## Left out

- HeapSpec.Malloc: requests are below 2^31 less the slack for headers and page rounding, so that the `int` and `unsigned int` conversions are exact.
- Heap.Heap.Malloc: the same bound on requests.
- HeapSpec.Free: frees live blocks only; double frees, foreign pointers and the magic-number branch are not modelled.
- Heap.Heap.Free: the same, apart from the null pointer, which it ignores.
- HeapSpec.Realloc: requires that memory can be had, because the C code writes through NULL when its malloc fails.
- Heap.Heap.Realloc: the same for the moving case.
- HeapSpec.AddRegion: regions are below 2^31 bytes, for the same conversions, and disjoint from those the heap has.
- Heap.Heap.AddRegion: the same bound on regions.
- HeapLedger.PagesBalance: for a realloc the condition is on the state between its malloc and its free.
- LockProtocol.NoDeadlock: assumes that the page allocator called under kmalloc_lock (`src/dominit0/kmalloc.c:225-250`) does not call malloc, which is kmalloc, back; panics stop a thread for good, and weak memory ordering is not modelled.
- CodecLaws.CarriedIff: the three bytes behind a bool are part of its value and are not tied to the fields that lie there in a C layout.
- StubLaws.RemoteCallPasses: assumes that the request and the reply can be marshalled; `StubValues.RemoteCallIff` says when they can. Running out of memory is not modelled there.
- CodecValues.DecodesIff: leaves out types with a bool or an enum of another interface; for these `CodecLaws.Canonical` and `CodecValues.AnyByteIsBool` say what is read.
- StubValues.RemoteCallIff: signatures have at most 32 parameters, as the interface compiler enforces.
- Remote.WireCallOutcome: the same; what a stub that fails halfway leaves in the reply is not modelled, nor what the kernel does with a null capability in a reply.
- PosixCwd.RunBelow: covers NUL-free paths; `PosixCwd.RunBelowIff` covers all.
- PosixCwd.View.Resolve: the synthetic /etc mount as working directory is not modelled.
- PosixCwd.View.ChangeDirectory: the synthetic /etc branches and failures to learn a directory's path are not modelled.
- PosixCwd.View.GetCwd: likewise.
- ConfigValidate.Validator.ValidateRequired: says which configurations are accepted, not which diagnostic is reported; presence bits are options or one completeness flag per record, and the index fields are kept in a record of their own.
- Access.Execute: the prefix buffer may be refused, in which case only the error code is stated.
- ElfWriter.HeaderRead: the program headers lie inside the image; `ElfLoader.Memory.CheckHeader` refuses all others.
- liballoc: alignment of results (the code promises none), calloc, statistics and debug output.
- klog: formatting, sinks and the contents of the log buffer; a sink is a step that takes no lock.
- C arrays of enums, whose stride depends on the C compiler; values are abstract.
- Memory leaks and the release of decoded values.
- The C text of generated headers; the server stub is an instruction list, and type names that shadow built-in ones are not considered.
- Enums with underlying types wider than 32 bits.
- seL4 calls and the shared-payload path; a capability is the object it stands for.
- Archives so large that offsets wrap around in `size_t`.
- The rest of the configuration parser: keys, tables, arrays, integers and the assignment of values to fields.
- The boot loader's error output and the handover to the kernel.
- Candidate paths of the native shell, command execution, sessions, authentication, process launch and password hashing.
