# A verified model of the guest kernel's memory, scheduling, formatting and argument passing

The repository runs a small kernel (`rekernel`, in D) as the guest of a KVM monitor (in Go). This project models
the four parts of it whose correctness is not visible from any one function, and proves what they are for:

* **Page tables and address spaces.** `PageTree.dfy` gives a four-level tree a meaning, apart from any entry format:
  a partial map from pages to frames and permissions. `Arm64Vm.dfy` and `Amd64Vm.dfy` are the two implementations as
  classes whose methods change tables in place; each is proved to refine that map, and the theorems about runs,
  lookups, allocation, subtrees and iteration (`PtIter.dfy`, over `Spaces.dfy`) are proved once, on the tree, and
  `Tables.dfy` says what tables in memory mean for any entry format. `Bits.dfy` has the entries as 64-bit words and
  shows that the records of the classes are what the words say. `Vector.dfy`, `Intervals.dfy`, `Vmas.dfy`, `Files.dfy` and `ProcVm.dfy` are the
  bookkeeping of a process: mmap, munmap and brk over interval lists, the page table and physical memory;
  `ProcRuns.dfy` has runs of these calls on a new process.
  `UserIo.dfy` is read and write through the page table.
* **Scheduling.** `Protocol.dfy` is the exit/wait protocol as a state machine over a fixed forest of processes, with
  theorems over all its runs; `Queues.dfy` is the linked queue, proved to refine a sequence; `Kernel.dfy` is the code on
  three linked queues that share the links of the processes, each operation proved to be a protocol step.
* **tinyprintf.** `Numerals.dfy` is digit generation; `Printf.dfy` is the format interpreter and its two sinks.
* **argv.** `Argv.dfy` is the hand-over of the argument list from host to guest, and back.

`dafny verify dfyconfig.toml` checks everything.

## How to read it

Addresses, sizes and frame numbers are unbounded natural numbers; where the source's width matters it is written out
(the 36-bit address field, 64-bit subtraction in the free list and in brk, 32-bit widths and padding, the digit
divisor). What an allocator answers is an input, so that every contract says when an operation succeeds: `heap` is the
list of frames `ptalloc` will hand out before it returns null, and only its front can be used up, one frame for each
table that was added (`PageTree.Fed`); `block` is what `kzalloc` returns; and a vector has a fixed stream of `answers`
to its requests to grow and counts how many it has `asked`. The flag `oom`, which the source does not have, is true
exactly when one of these was a refusal. Ghost parameters and ghost results only name witnesses.

What the proofs found that a reader might not expect:

* A fixed `map_vma` updates the free list correctly if and only if the range starts in the free interval first met
  and either has that interval's size and meets no other, or ends before its end (`Vmas.SplitExact`); exactly then used
  and free intervals still partition the area (`Vmas.PartitionFixed`). Mapping the second of two pages that were mapped
  and unmapped leaves an empty free interval (`Vmas.SplitGoesWrong`). What does not depend on the free list, the
  agreement of the page table with the used intervals, is kept by every fixed mapping (`ProcVm.Proc.MapVma`).
* `map_vma_any` looks only at the first free interval that is large enough and then refuses a range that ends with
  the area, so a request that fits elsewhere, or exactly, can fail (`ProcVm.Proc.MapVmaAny`, `ProcVm.SpotMissed`).
* `map_region` needs a frame for each table that is missing and for no other: it succeeds if and only if there are as
  many (`Arm64Vm.Pagetable.MapRegion`, `Amd64Vm.Pagetable.MapRegion`).
* `sys_brk` sets `brk` before it asks for memory, and leaves it there when it returns NOMEM, or FAULT for a page that
  is not the user's (`ProcVm.Proc.SysBrk`).
* An amd64 entry has no bit for execute or copy-on-write: permissions survive if and only if neither is asked for
  (`Bits.Perm64ReadsBack`). An amd64 walk that ends at a link reports one level less than that of the link
  (`Amd64Vm.Pagetable.Walk`).
* The arm64 iterator looks at USER_END too, which indexes like address 0, so it yields a mapping there if and only
  if page 0 is mapped (`PtIter.Arm64End`); on amd64 USER_END is the kernel's (`PtIter.Amd64End`).
* `wait4` never sleeps twice: a process that was woken always finds a zombie child (`Protocol.WaitSleepsOnce`).
* `%#s` puts the prefix of whatever base an earlier conversion left behind in front of the string
  (`Printf.ConvertString`).
* `a2u` accepts the letter `a` as a width digit (`Printf.IsWidthDigit`). A width of 2^31 or more counts as no width if
  and only if it stays negative, as an int, when sign and prefix are taken off it; otherwise the count wraps around and
  the field gets about two billion filling characters (`Printf.FieldLength`; `Printf.WidthWraps` for %2147483648d of -1).
  Signed overflow, undefined in C, is taken to wrap here and in the negation of the most negative number.

## Model

| member | source | states |
|---|---|---|
| Arm64Vm.Run | rekernel/arch/arm64/vm.d:96-169 | any list of map_region calls and leaf clears on a new page table goes through if and only if there is a frame for each table the calls need, and then vm_lookup at every address gives what the flat map of the calls gives |
| Arm64Vm.LastCallDecides | rekernel/arch/arm64/vm.d:142-169 | what that lookup is, from the list of calls alone: the last call on the page of va decides; a mapping gives the byte at the same distance from its physical address with exactly its permissions, one without READ and a clear give nothing |
| Arm64Vm.NoCallNothing | rekernel/arch/arm64/vm.d:142-169 | an address on whose page no call was is not mapped |
| Arm64Vm.RegionReads | rekernel/arch/arm64/vm.d:142-169 | after map_region, vm_lookup of every byte of the range gives pa plus its distance, exactly the permissions and the bytes left in the page; every other address as before |
| Arm64Vm.RunOn | rekernel/arch/arm64/vm.d:96-169 | the same from any table that translates nothing, where tables that are there already need no frame |
| Arm64Vm.Perform | rekernel/arch/arm64/vm.d:142-149 | one call: succeeds if and only if its missing tables can be made, and then does to the translation what the operation says |
| Arm64Vm.Pagetable.Clear | rekernel/proc.d:415-419 | walk and valid = 0: the page of va no longer translates, every other page as before |
| PageTree.FlatStep | rekernel/arch/arm64/vm.d:142-169 | a tree that agrees with a flat map agrees after an operation with the map after the same operation |
| PageTree.LookupAgrees | rekernel/vm.d:28-43 | where every page translates as a flat map has it, a lookup gives frame plus offset, permissions and bytes left in the page, or an invalid result, as the map says |
| PageTree.LookupIsTranslation | rekernel/vm.d:28-43 | a lookup, at whatever level it stops, agrees with the per-page translation plus the offset in the page |
| PageTree.LookupContiguous | rekernel/vm.d:34-42 | for every j below the size a lookup returns, the lookup at va + j is valid, j bytes further, with the same permissions and j bytes fewer |
| PageTree.RegionLookup | rekernel/vm.d:28-43 | the same for any region and entry format with 4 KB leaves |
| PageTree.LastOp | rekernel/arch/arm64/vm.d:142-169 | in any run of operations, the last one on a page decides its translation |
| PageTree.NoOp | rekernel/arch/arm64/vm.d:142-169 | a page that no operation was on has none |
| PageTree.SlotOfAddress | rekernel/arch/arm64/vm.d:80-82 | the index of an address at a level is nine bits of the address |
| PageTree.EntryNumber | rekernel/arch/arm64/vm.d:171-184 | the entry that covers an address at a level is numbered by the address over the size of the level |
| PageTree.GrownTranslates | rekernel/arch/arm64/vm.d:110-119 | linking a new empty table into a hole changes no translation and moves no mapping to another entry |
| PageTree.GrownGrew | rekernel/arch/arm64/vm.d:110-119 | and the descent that ended in the hole now ends in the new table, one level down |
| PageTree.WrittenTranslates | rekernel/arch/arm64/vm.d:160-167 | writing the 4 KB entry of a page changes the translation of that page, and of no other, and no table |
| PageTree.FindToStops | rekernel/arch/arm64/vm.d:99-122 | a walk to a higher level that does not end at a link, and every walk to the 4 KB level, ends where the full descent does |
| PageTree.WayMissing | rekernel/arch/arm64/vm.d:106-115 | where a walk stops in a hole, the next table on the way is nowhere in the tree |
| PageTree.FedEnough | rekernel/arch/arm64/vm.d:111-118 | the frames handed out were enough if and only if all wanted tables are there in the end |
| PageTree.LackingFew | rekernel/arch/arm64/vm.d:99-121 | three frames for each page are always enough |
| PageTree.FedFew | rekernel/arch/arm64/vm.d:99-121 | and no more are used up |
| PageTree.OverridesDetermine | rekernel/arch/amd64/vm.d:127-148 | whatever overrides the same region of the same translation translates alike |
| Amd64Vm.BothMappers | rekernel/arch/amd64/vm.d:127-148 | the cached mapper and one that looks the leaf table up for every page, on tables that start alike: both succeed, or both stop at the same page, and they leave the same translation, kernel half, tables and frames in either case |
| PageTree.SameStop | rekernel/arch/amd64/vm.d:134-145 | two mappers that run out of frames on the same region stop at the same page |
| PageTree.SameTables | rekernel/arch/amd64/vm.d:75-93 | and have added the same tables by then |
| PageTree.OverridesNext | rekernel/arch/arm64/vm.d:142-149 | a region mapped up to a page and then that page is the longer region |
| PageTree.FindThrough | rekernel/arch/amd64/vm.d:75-93 | a table whose place covers a page is on the way of every descent to that page, so a table once found may be kept |
| PageTree.PlaceInjective | rekernel/arch/arm64/vm.d:110-119 | no two tables of a tree cover the same pages at the same level: tables are never shared |
| PageTree.UnderVia | rekernel/arch/arm64/vm.d:129-140 | what is below a table is reached through exactly the slot its place names |
| Tables.TreeGrown | rekernel/arch/arm64/vm.d:111-118 | linking a zeroed table in memory is growing the tree, in either format |
| Tables.TreeStored | rekernel/arch/arm64/vm.d:160-167 | storing the 4 KB entry of a page in memory changes the translation of that page as the entry decodes, in either format |
| PageTree.AllUnderRoot | rekernel/arch/arm64/vm.d:129-140 | every table but the root is below the root |
| Arm64Vm.VpnIsSlot | rekernel/arch/arm64/vm.d:80-82 | vpn is the tree's index |
| Arm64Vm.Pagetable.constructor | rekernel/proc.d:76 | a new table translates nothing |
| Arm64Vm.Pagetable.LinkFresh | rekernel/arch/arm64/vm.d:111-118 | the next frame is linked where the walk stands: the tree grows there and translates as before, and one more allocation is counted |
| Arm64Vm.Pagetable.Walk | rekernel/arch/arm64/vm.d:96-127 | for every end level: stops at the entry where the descent to that level stops, with its level; null exactly where a table is missing |
| Arm64Vm.Pagetable.WalkAlloc | rekernel/arch/arm64/vm.d:96-123 | for every end level: reaches the entry, or a larger leaf, having made exactly the tables that were missing on the way, or fails with no frame left and a table still missing; translates as before in either case |
| Arm64Vm.Pagetable.Store | rekernel/arch/arm64/vm.d:160-167 | the page translates as its new entry decodes, every other page as before |
| Arm64Vm.Pagetable.Invalidate | rekernel/proc.d:419 | valid = 0 takes away the translation of that page and no other |
| Arm64Vm.Pagetable.Map | rekernel/arch/arm64/vm.d:155-169 | on success exactly one page is overridden and the tables on its way are there; on failure the translation is unchanged, no frame is left and a table is missing |
| Arm64Vm.Pagetable.MapRegion | rekernel/arch/arm64/vm.d:142-149 | succeeds if and only if there are as many frames as tables missing; overrides exactly the pages of the region, or those before the page for which, by count, the frames ran out; uses a frame for each table added |
| Arm64Vm.Pagetable.VmLookup | rekernel/vm.d:28-43 | computes the lookup of the tree |
| Arm64Vm.Pagetable.FreeChild | rekernel/arch/arm64/vm.d:133-136 | frees a table and all below it, each once |
| Arm64Vm.Pagetable.Free | rekernel/arch/arm64/vm.d:129-140 | frees each table below this one exactly once, in place, touches no other, and leaves this one all zero |
| Arm64Vm.Pagetable.FreeAll | rekernel/arch/arm64/vm.d:129-140 | from the root: the tables freed are all tables but the root, each exactly once, as many as were allocated while mapping, and no translation is left |
| Amd64Vm.PageIndexIsSlot | rekernel/arch/amd64/vm.d:22-24 | pageindex is the tree's index, levels counted the other way |
| Amd64Vm.NewTree | rekernel/arch/amd64/vm.d:176-179 | a new root with the two kernel entries is a well-formed tree |
| Amd64Vm.NewFinds | rekernel/arch/amd64/vm.d:176-179 | in it no user page is mapped, and the page at USER_END is the kernel's |
| Amd64Vm.Pagetable.constructor | rekernel/arch/amd64/vm.d:176-179 | no user page translates in a new table; root entry 256 links to init_pdp and 511 to init_pdp_upper, writable and not the user's, and no other entry is set |
| Amd64Vm.Pagetable.LinkFresh | rekernel/arch/amd64/vm.d:79-89 | an allocated table is linked in a hole of the user half, with the write and user permissions of the mapping: the tree grows there, translates as before, and the kernel half of the root is unchanged |
| Amd64Vm.Pagetable.Walk | rekernel/arch/amd64/vm.d:107-121 | for every end level: returns the entry where the descent to that level stops, hole or not, with its level, or one less at a link |
| Amd64Vm.Pagetable.LookupL4 | rekernel/arch/amd64/vm.d:75-93 | returns the leaf table on the way to va, made with exactly the frames that were missing, or null with no frame left and a table missing; translation and kernel entries unchanged |
| Amd64Vm.Pagetable.Store | rekernel/arch/amd64/vm.d:137-140 | the page translates as its new entry decodes, every other page as before, and the kernel half of the root is unchanged |
| Amd64Vm.Pagetable.PutPage | rekernel/arch/amd64/vm.d:137-140 | writing through a kept leaf table overrides the page of va and no other, and the table stays good for its 2 MB |
| Amd64Vm.Pagetable.MapPage | rekernel/arch/amd64/vm.d:133-145 | one page, through a table at hand or one looked up: overrides that page only |
| Amd64Vm.Pagetable.MapRegion | rekernel/arch/amd64/vm.d:127-148 | the cached mapper succeeds if and only if there are as many frames as tables missing, overrides exactly the pages of the region, and never changes root entries 256 to 511 |
| Amd64Vm.RegionReads | rekernel/arch/amd64/vm.d:127-148 | after map_region, vm_lookup of every byte of the range gives paddr plus its distance, with read, the write and user permissions asked for and no others; every other user address as before |
| Amd64Vm.Pagetable.MapEach | rekernel/arch/amd64/vm.d:127-148 | the same of the mapper that looks the leaf table up for every page |
| Amd64Vm.Pagetable.VmLookup | rekernel/vm.d:28-43 | computes the lookup of the tree |
| Amd64Vm.Pagetable.UnmapPages | rekernel/proc.d:409-420 | clears exactly the pages of a fully mapped range though each walk reuses the level the last one left |
| Spaces.Space.Walk | rekernel/vm.d:115-116 | in either format: the entry or null, its level, and whether it is valid |
| Spaces.Space.VmLookup | rekernel/vm.d:28-43 | in either format: the lookup of the tree |
| PtIter.MappedIsTranslated | rekernel/vm.d:116-122 | the mappings the iterator looks for are the translated pages |
| PtIter.Arm64End | rekernel/vm.d:111-113 | the address USER_END counts as mapped if and only if address 0 is |
| PtIter.Amd64End | rekernel/arch/amd64/vm.d:176-179 | the address USER_END is never a 4 KB mapping |
| PtIter.NothingSkipped | rekernel/vm.d:115-127 | every address a step jumps over stops at the same entry as the one the step starts from |
| PtIter.StepKeepsStart | rekernel/vm.d:123-127 | the cursor stays aligned to the size of whatever entry it stands in, which is what makes the jump over a hole safe |
| PtIter.PtIter.Advance | rekernel/vm.d:110-129 | up to and including USER_END, which is 2^48 on arm64 and 2^47 on amd64, passes one entry: reports the valid 4 KB mapping at the old cursor, or passes addresses of which none is mapped |
| PtIter.PtIter.Next | rekernel/vm.d:131-144 | the first mapping at or after the cursor with its own address, or none up to the end; terminates |
| PtIter.PtIter.All | rekernel/vm.d:146-153 | ascending, and each entry holds the translation of its page; on amd64 a page is listed if and only if it lies below 0x8000_0000_0000 and is translated; on arm64, where all leaves are 4 KB, if and only if it is translated, and the address 2^48 a second time for page zero |
| PtIter.UserPages | rekernel/vm.d:116-127 | up to the end of a user half with 4 KB leaves only, the listed pages are the translated ones |
| PtIter.Entries | rekernel/vm.d:83-90 | the entries yielded hold the translations of their pages |
| Bits.MapWordFields | rekernel/core/bits.d:101-109 | after the stores of map, each bit field reads back as the value last stored in it, whatever the word was |
| Bits.MapWordLayout | rekernel/arch/arm64/vm.d:14-33 | the whole word after the stores of map, bit by bit; the bits of no field that is stored stay |
| Bits.DescriptorLayout | rekernel/arch/arm64/vm.d:50-61 | where each permission goes in a VMSAv8-64 page descriptor |
| Bits.PermReadsBack | rekernel/arch/arm64/vm.d:50-77 | every set of permissions and every frame survives the trip through the descriptor |
| Bits.Perm64ReadsBack | rekernel/arch/amd64/vm.d:29-73 | an amd64 entry reads back as its address and the permissions it has bits for; all survive if and only if neither execute nor copy-on-write was asked for |
| Bits.Entry64Layout | rekernel/arch/amd64/vm.d:29-61 | the whole amd64 entry: address, present, writable and user bits, and nothing of what was there |
| Bits.FrameOf | rekernel/arch/arm64/vm.d:39-41 | an address shifted right by 12 bits stands for its number divided by the page size, in 52 bits and in the low 36 |
| Bits.MapCommutes | rekernel/arch/arm64/vm.d:160-167 | the word after the stores of map, read as a record, is the record after the same stores |
| Bits.LinkCommutes | rekernel/arch/arm64/vm.d:116-118 | the same for linking a table |
| Bits.ClearCommutes | rekernel/proc.d:419 | the same for valid = 0 |
| Bits.ZeroCommutes | rekernel/arch/arm64/vm.d:138 | a word of zeros is the zero record, in both formats |
| Bits.PermCommutes | rekernel/arch/arm64/vm.d:63-77 | the permissions read from the word are those of the record |
| Bits.PaCommutes | rekernel/arch/arm64/vm.d:35-37 | the address read from the word is that of the record |
| Bits.Map64Commutes | rekernel/arch/amd64/vm.d:137-140 | the amd64 word after pa and perm were set, read as a record, is the record after the same stores |
| Bits.Clear64Commutes | rekernel/arch/amd64/vm.d:46-51 | the same for valid = 0 |
| Bits.Pa64Commutes | rekernel/arch/amd64/vm.d:29-31 | the address read from the amd64 word is that of the record |
| Bits.Perm64Commutes | rekernel/arch/amd64/vm.d:63-72 | and so are the permissions |
| Vectors.RemoveAtMultiset | rekernel/core/vector.d:60-64 | unordered removal takes away one occurrence of the element and keeps the others |
| Vectors.Vector.Grow | rekernel/core/vector.d:34-43 | succeeds exactly when the allocator grants it; the contents survive growing, and a refusal |
| Vectors.Vector.Append | rekernel/core/vector.d:45-54 | asks for memory only when full, for eight places or twice as many as before, and fails only when refused; adds at the end, or changes nothing |
| Vectors.Vector.UnorderedRemove | rekernel/core/vector.d:60-64 | the last element takes the removed one's place |
| Intervals.IntervalTree.Add | rekernel/core/interval.d:20-22 | adds the interval unless a request for memory was refused, and then changes nothing; asks only when the vector is full |
| Intervals.IntervalTree.Remove | rekernel/core/interval.d:25-33 | removes one interval with that start and size; refuses if and only if there is none |
| Intervals.IntervalTree.Overlaps | rekernel/core/interval.d:36-44 | the first interval that meets the range; none if and only if none does |
| Intervals.OverlapsMeans | rekernel/core/interval.d:36-44 | the test holds if and only if interval and range have an address in common |
| Intervals.IntervalTree.Find | rekernel/core/interval.d:47-55 | the first interval of at least the size; none if and only if there is none |
| Vmas.SplitExact | rekernel/proc.d:354-371 | the free list after the split is again disjoint and non-empty and holds exactly the addresses outside the range, if and only if the range fits the first free interval it meets |
| Vmas.SplitGoesWrong | rekernel/proc.d:361-370 | a free list and a range on which the split leaves an empty interval |
| Vmas.SplitStarts | rekernel/proc.d:361-370 | whatever the split makes of the sizes, page aligned starts stay aligned |
| Vmas.PartitionStart | rekernel/proc.d:91 | the first free interval alone partitions the mmap area |
| Vmas.PartitionMeans | rekernel/proc.d:25-26 | in a partition, every address from 0x70_0000_0000 up to 0xF0_0000_0000 and no other lies in exactly one interval, used or free |
| Vmas.PartitionFixed | rekernel/proc.d:321-371 | a fixed mapping keeps the partition of the area into used and free if and only if taking its range out of the free list goes right |
| Vmas.PartitionSum | rekernel/proc.d:308-422 | conservation: the sizes of all used and free intervals of a partition sum to MMAP_SIZE |
| Vmas.SumCounts | rekernel/core/interval.d:5-13 | disjoint intervals have as many addresses as their sizes say |
| Vmas.PartitionUnmap | rekernel/proc.d:401-407 | moving a used interval to the free list keeps the partition |
| Vmas.FreeIsClear | rekernel/proc.d:312-318 | a range at the start of a free interval meets no used interval, that free interval is the one the split will find, and the split goes right |
| Vmas.PunchedGood | rekernel/proc.d:329-337 | one turn of the loop keeps the used intervals disjoint and non-empty |
| Vmas.PunchedHolds | rekernel/proc.d:329-337 | outside the range, one turn of the loop keeps the area of every address |
| Vmas.PunchedMeeting | rekernel/proc.d:329-337 | each turn leaves exactly one interval fewer that meets the range |
| Vmas.AppendOverrides | rekernel/proc.d:329-352 | once nothing meets the range, adding the new area overrides the address map: the new area inside, the old ones outside |
| Vmas.OverriddenMeans | rekernel/proc.d:321-340 | after an override, an address inside the range has the new area and no other, one outside what it had |
| Files.CopyLoop | rekernel/proc.d:386-394 | the block holds the file from its position on up to length or end of file, then zeros; nothing else in memory changes |
| Files.CopyFile | rekernel/proc.d:384-395 | the same from the offset, or from the current position if the seek is refused, and the file position is restored |
| ProcVm.TakeFree | rekernel/proc.d:354-371 | the first free interval the range meets is replaced by what the split leaves of it; goes wrong exactly when a request for memory is refused, of which there are at most two |
| ProcVm.PunchOne | rekernel/proc.d:330-336 | the interval is replaced by its parts outside the range, unless a request for memory is refused |
| ProcVm.PunchOut | rekernel/proc.d:328-337 | terminates; no interval meets the range, every address outside keeps its area, intervals stay in order; panics exactly when a request for memory is refused, of which there are at most two for each interval met |
| ProcVm.BackingLookup | rekernel/proc.d:373-376 | a lookup in a mapped range gives the byte of the block at the same offset |
| ProcVm.BackedAll | rekernel/proc.d:376 | every address of a mapped range looks up with read, write, execute and user permission and no copy-on-write |
| ProcVm.FileMappingHolds | rekernel/proc.d:373-396 | read through the page table, a mapping is, address by address, the file from the offset up to length or end of file, then zeros, and all zeros without a file; no other byte of memory changed |
| ProcVm.SyncedMap | rekernel/proc.d:376 | mapping a range while the areas are overridden on it keeps: a page of the mmap area translates if and only if it lies in a used interval, and then can be read, written and run by the user |
| ProcVm.SyncedUnmap | rekernel/proc.d:401-421 | and so does clearing the pages of a removed one |
| ProcVm.AreaLookup | rekernel/proc.d:342-376 | from the invariant: an address of the mmap area is mapped if and only if it lies in a used interval, and then with read, write, execute and user permission |
| ProcVm.HeapLookup | rekernel/syscall.d:308 | from the invariant: every heap address below brk is mapped with read, write and user permission and without execute |
| ProcVm.HeapBacked | rekernel/syscall.d:303-311 | the pages that a growing break adds are backed by the block in order, with those permissions |
| ProcVm.BrkGrown | rekernel/syscall.d:303-311 | mapping from the old break to the new one leaves every heap page below the new break mapped for the user to read and write, and none above it mapped |
| ProcVm.BrkAt | rekernel/syscall.d:301-314 | the page of a heap address is mapped if and only if the address is below the end of the heap pages mapped so far, and then for the user |
| ProcVm.SpotAt | rekernel/proc.d:308-318 | where a kernel-placed mapping goes, given the first free interval that is large enough |
| ProcVm.SpotInside | rekernel/proc.d:321-326 | the place lies in the mmap area and the range ends before the area does |
| ProcVm.SpotMissed | rekernel/proc.d:312-324 | a free list on which a request is refused although a later free interval would do |
| ProcVm.FramesMap | rekernel/proc.d:373-376 | mapping a block that is not in use keeps: every page has a frame of its own inside memory |
| ProcVm.VmOkMapped | rekernel/proc.d:321-376 | a fixed mapping keeps the invariant of an address space, whatever the free list |
| ProcVm.VmOkUnmapped | rekernel/proc.d:401-421 | and so does unmapping one area |
| ProcVm.RemovedMeans | rekernel/proc.d:401-404 | after unmapping, an address has its area if and only if it had it and is outside the range |
| ProcVm.VmOkBrk | rekernel/syscall.d:293-316 | moving brk inside the heap never faults, and keeps the invariant |
| ProcVm.FillFrom | rekernel/proc.d:378-398 | the block holds the file image or zeros, the file position is restored; fails with a bad descriptor |
| ProcVm.BrkZeros | rekernel/syscall.d:304-311 | the heap pages that a growing break adds hold zeros, read through the page table |
| ProcRuns.Run | rekernel/proc.d:75-422 | any list of kernel-placed mmap, exact munmap and heap brk calls on a new process: after every call used and free intervals partition the mmap area, their sizes sum to MMAP_SIZE, a page of it translates exactly when it is used, the heap is mapped up to brk and no frame is shared; each call does what it says; with memory enough the run goes through |
| ProcRuns.SeenAt | rekernel/proc.d:308-422 | in every state of such a run, for every address: in the mmap area it is in a used or in a free interval and not both, and it can be read, written and run by the user if and only if it is in a used one; in the heap below brk it can be read and written and not run; what is mapped lies in memory |
| ProcRuns.SeenApart | rekernel/proc.d:373-376 | and no two user addresses share a byte of memory |
| ProcRuns.MmapMoved | rekernel/proc.d:308-376 | an mmap of the run takes the first free interval that is large enough if the area does not end with the range there: byte by byte the block, with all permissions; no other address changes; otherwise nothing does |
| ProcRuns.MunmapMoved | rekernel/proc.d:401-422 | a munmap of exactly one area unmaps its addresses and frees them, and changes no other; any other munmap changes nothing |
| ProcRuns.SetBrkMoved | rekernel/syscall.d:293-316 | a brk call sets the break and changes no address outside the pages between the old break and the new |
| ProcRuns.RunOn | rekernel/proc.d:308-422 | the same from any process that satisfies the invariant |
| ProcRuns.Perform | rekernel/proc.d:308-422 | one call keeps the invariant and leaves memory set aside for later calls untouched, unless it is refused memory; enough memory is never refused |
| ProcRuns.OthersUntouched | rekernel/proc.d:373-376 | mapping one block gives no page a frame of another |
| ProcVm.Back | rekernel/proc.d:373-398 | fails without a block, panics without frames for the missing tables, fails with a bad descriptor; else the range is backed by the block, byte by byte, readable, writable and executable for the user, and holds the file image or zeros |
| ProcVm.Proc.Record | rekernel/proc.d:350-371 | adds the area and splits the free list, unless a request for memory is refused; if the area list was refused, it fails and nothing changed |
| ProcVm.Proc.MapVmaNoOverlap | rekernel/proc.d:342-399 | refuses an overlapping range unchanged; else adds the area, splits the free list, maps the block with read, write, execute and user permission and fills it, exactly when every request for memory is granted; without a block it fails, without frames it panics |
| ProcVm.Proc.MapVma | rekernel/proc.d:321-340 | refuses a range out of bounds unchanged; else, exactly when every request for memory is granted, overrides the address-to-area map on the range only and the page table on the same pages, so that every address of the range looks up as its byte of the block with read, write, execute and user permission; keeps the invariant of the address space, and keeps the partition if and only if the free list splits well |
| ProcVm.Proc.Init | rekernel/proc.d:88-95 | unless memory is refused, a new process satisfies the invariant, with brk at 4 GB and all of the mmap area free |
| ProcVm.Proc.MapVmaAny | rekernel/proc.d:308-319 | from the invariant of the address space alone: succeeds exactly when the first free interval that is large enough leaves room at the end of the area and every request for memory is granted; then every address of the new range, which lies in the mmap area, looks up as its byte of the block with read, write, execute and user permission, and the block holds the file image; where the lists partition the area, the new area met no other and the partition is kept |
| ProcVm.UnmapPages | rekernel/proc.d:409-420 | clears exactly the pages of a fully mapped range, the reused level staying at 4 KB |
| ProcVm.Proc.UnmapVma | rekernel/proc.d:401-422 | succeeds if and only if the range is exactly one area and the free list can grow; takes away exactly its area and its translations; keeps the invariant, and the partition if there was one |
| ProcVm.PageAt | rekernel/syscall.d:301-312 | whether the page of an address is mapped, and for the user |
| ProcVm.MoveBrk | rekernel/syscall.d:299-315 | for every user address: NOMEM exactly when the page is not mapped and there is no block or too few frames, FAULT exactly when it is mapped and not the user's; else maps from the old break up, for the user to read and write, and nothing outside changes |
| ProcVm.Proc.SysBrk | rekernel/syscall.d:293-316 | for every address, which result it returns and when: FAULT outside user space or for a page that is not the user's, the break for 0, NOMEM for lack of memory, else the new break; brk moves even when NOMEM is returned; new pages are readable and writable by the user, not executable, and hold zeros; in the heap every page below brk stays so over growing, shrinking and growing again, and no page below the old brk is touched |
| UserIo.FilledNext | rekernel/syscall.d:213-224 | one contiguous piece read extends the transfer done so far |
| UserIo.SysRead | rekernel/syscall.d:201-226 | FAULT if and only if buf is beyond user space, 2^48 on arm64 and 2^47 on amd64, or some byte of the buffer is the first that is not writable and the file has not ended before it, and then the bytes before it are read; otherwise the n virtual bytes from buf, all writable, are the next n bytes of the file, the later one where two share a place, n is as many as there are, and no other memory changed |
| UserIo.FilledAt | rekernel/syscall.d:213-224 | where no later byte of the buffer shares the place of one, that byte of the file is there; a place that no byte of the buffer has is as before |
| UserIo.FilledInjective | rekernel/syscall.d:213-224 | in a buffer no two bytes of which share a place, every byte read is there |
| UserIo.FramesGive | rekernel/vm.d:28-43 | where every page has a frame of its own, all mapped bytes lie in memory and no two bytes of a buffer share a place, up to 2^48 bytes |
| UserIo.ReadInto | rekernel/syscall.d:201-226 | in a process that satisfies its invariant, for any buffer: the n bytes from buf on, all writable, are the next n bytes of the file, nothing else changes, and the address space is as it was; FAULT exactly as for SysRead, so never for a buffer in the heap below brk or in used areas |
| UserIo.OwnBuffer | rekernel/syscall.d:213-217 | from the invariant: every buffer in the heap below brk, or in used areas, is readable and writable |
| UserIo.MmapThenRead | rekernel/syscall.d:201-226 | read into a new mapping always completes, and the mapping then holds the bytes of the file, byte by byte through the page table |
| UserIo.DrainedNext | rekernel/syscall.d:278-289 | one contiguous piece written extends the transfer done so far |
| UserIo.SysWrite | rekernel/syscall.d:266-291 | FAULT if and only if buf is beyond user space or some byte of the buffer is the first that is not readable and the file takes all before it, and then those are written; otherwise the file got exactly the n virtual bytes from buf, all readable, in order, n being as many as it takes |
| UserIo.WriteFrom | rekernel/syscall.d:266-291 | the same in a process that satisfies its invariant, for any buffer; never FAULT for one in the heap below brk or in used areas |
| Protocol.StepKeeps | rekernel/syscall.d:318-466 | every step keeps the invariant: each process in the one place its state says, child lists exact, no lost wakeup |
| Protocol.Safe | rekernel/syscall.d:318-466 | the invariant holds in every state of every run from every forest |
| Protocol.OnePlace | rekernel/syscall.d:318-466 | in every state of every run, every process is on the CPU, on one of the three queues, once, or reaped, as its state says, and the child lists hold exactly the children not reaped, each once |
| Protocol.StartsAnywhere | rekernel/schedule.d:31-45 | runs start from every forest with its processes on the run queue in whatever order |
| Protocol.SomeoneRuns | rekernel/schedule.d:31-45 | if the CPU is free and a process has not exited, the run queue is not empty, by descent through the forest |
| Protocol.NoDeadlock | rekernel/schedule.d:12-19 | in every run, whenever the scheduler looks for a process and one is alive, it finds one |
| Protocol.SleepsIffNoZombie | rekernel/syscall.d:446-465 | in every state of every run, a process inside wait4 is on the wait queue if and only if no process of the exit queue is its child |
| Protocol.WaitSleepsOnce | rekernel/syscall.d:446-465 | a process that goes on in wait4 after a wakeup reaps a child and returns: it never sleeps again |
| Protocol.AheadAfter | rekernel/schedule.d:31-45 | the number of processes ahead of a queued one falls by one with each pick and with nothing else |
| Protocol.BoundedWaiting | rekernel/schedule.d:12-19 | with k processes ahead, a process is dispatched by the (k+1)-th pick, whatever happens in between |
| Queues.Queue.PushFront | rekernel/queue.d:11-21 | the linked queue becomes the sequence with p in front |
| Queues.Queue.Remove | rekernel/queue.d:23-35 | any member can be taken out; the links are those of the remaining sequence |
| Queues.Queue.PopBack | rekernel/queue.d:37-44 | takes the last of the sequence, or null from an empty one |
| Queues.Wake | rekernel/queue.d:53-58 | moves a blocked process from its queue to the front of the run queue, runnable |
| Queues.WakeAll | rekernel/queue.d:46-51 | terminates with the queue empty and all its processes runnable at the front of the run queue, in reverse order |
| Kernel.DroppedPids | rekernel/queue.d:23-35 | taking a process out of a linked queue is taking its number out of the protocol's queue |
| Kernel.Kernel.PopRun | rekernel/schedule.d:14 | the last of the run queue comes off; no process is on two of the three queues, before or after |
| Kernel.Kernel.Push | rekernel/proc.d:304 | the running process goes to the front of a queue; no process is on two |
| Kernel.Kernel.WakeUp | rekernel/queue.d:53-58 | a blocked process goes from the wait queue to the run queue; the exit queue and all links stay right |
| Kernel.Kernel.Discard | rekernel/syscall.d:457 | a process leaves the exit queue; the other queues and all links stay right |
| Kernel.Kernel.RunnableProc | rekernel/schedule.d:12-19 | is the pick of the protocol: the last of the run queue gets the CPU, or the run queue was empty; finds a process whenever one of the table has not exited |
| Kernel.AliveRuns | rekernel/schedule.d:12-19 | in every state the kernel can be in, with the CPU free and a process alive the run queue is not empty |
| Kernel.WokenHasZombie | rekernel/syscall.d:446-465 | in every state the kernel can be in, a process that goes on in wait4 has a zombie child |
| Kernel.Kernel.YieldCpu | rekernel/schedule.d:35-43 | is the yield of the protocol: the running process goes to the front of the run queue and the CPU is free |
| Kernel.Kernel.Block | rekernel/proc.d:301-306 | state, queue and CPU after blocking |
| Kernel.Kernel.WakeParent | rekernel/syscall.d:323-325 | is the wakeup of the protocol: a parent blocked on the wait queue becomes runnable and goes to the front of the run queue, else nothing changes |
| Kernel.Kernel.SysExit | rekernel/syscall.d:318-331 | is the exit step of the protocol: the process is at the front of the exit queue and off the CPU, its parent is woken exactly if it was blocked on the wait queue; keeps the invariant |
| Kernel.Kernel.Unlist | rekernel/syscall.d:451-456 | the child leaves the child list |
| Kernel.Kernel.FindZombie | rekernel/syscall.d:447-462 | the search along the links finds the first process of the exit queue whose parent is p, or there is none |
| Kernel.Kernel.Reap | rekernel/syscall.d:450-459 | the child leaves the child list and the exit queue |
| Kernel.Kernel.ScanOnce | rekernel/syscall.d:447-464 | one turn of the loop is the scan of the protocol: it takes the first child of the process from the exit queue and returns its pid, or, if there is none, the process is blocked at the front of the wait queue |
| Kernel.ScanFacts | rekernel/syscall.d:447-464 | a scan reaps the first zombie child if there is one and nothing else, and blocks if and only if there is none |
| Kernel.Kernel.SysWait4 | rekernel/syscall.d:440-466 | INVAL exactly for a pid other than -1 or a status pointer, CHILD exactly without children; else it returns a pid if and only if a child is in the exit queue, namely that of the first, which is then off the queue and the one process newly reaped, and it sleeps otherwise, off the CPU and at the front of the wait queue |
| Kernel.Kernel.ResumeWait4 | rekernel/syscall.d:446-465 | the wait after a wakeup is the rescan of the protocol, and always returns the first child in the exit queue, which is off the queue and the one process newly reaped: it never sleeps again |
| Numerals.Scale | rekernel/tinyprintf/tinyprintf.c:91-92 | the divisor is the largest power of the base not above the number, or 1, computed within the machine word: the number is below base times it |
| Numerals.TakeDigit | rekernel/tinyprintf/tinyprintf.c:93-96 | one turn takes the top digit off the number |
| Numerals.EmitDigits | rekernel/tinyprintf/tinyprintf.c:93-101 | the loop writes all digits and skips none |
| Numerals.FixedIsDigits | rekernel/tinyprintf/tinyprintf.c:93-101 | digits taken from the top by division are the digits built from the bottom |
| Numerals.U2a | rekernel/tinyprintf/tinyprintf.c:85-103 | the buffer holds the text of the number and its terminator, and nothing past it changes |
| Numerals.I2a | rekernel/tinyprintf/tinyprintf.c:105-112 | sign and text of the absolute value, the most negative number included |
| Numerals.TextReadsBack | rekernel/tinyprintf/tinyprintf.c:85-103 | the text evaluates back to the number |
| Numerals.TextCanonical | rekernel/tinyprintf/tinyprintf.c:97-100 | the text is not empty, and starts with 0 only for zero |
| Numerals.TextLetters | rekernel/tinyprintf/tinyprintf.c:98 | digits from ten on are letters of the case asked for, and there are none below base 16 |
| Numerals.TextFits | rekernel/tinyprintf/tinyprintf.c:257 | every 64-bit number in base 8, 10 or 16 fits the 23-byte buffer with its terminator |
| Numerals.SignedReadsBack | rekernel/tinyprintf/tinyprintf.c:105-112 | sign and text denote the signed number |
| Printf.FieldLength | rekernel/tinyprintf/tinyprintf.c:201-251 | with a width below 2^31 a field is as long as its width or its sign, prefix and text, whichever is more; a larger width counts as none if and only if it stays a negative int without sign and prefix, and else the field has width + text characters |
| Printf.FieldLaid | rekernel/tinyprintf/tinyprintf.c:217-250 | a field is sign and prefix and text, with spaces before them, zeros between or spaces behind, as the flags say, up to the width |
| Printf.WidthWraps | rekernel/tinyprintf/tinyprintf.c:204-215 | the input on which the count of filling characters wraps around |
| Printf.FillCount | rekernel/tinyprintf/tinyprintf.c:204-215 | counts the filling characters, with wrap-around in 32 bits |
| Printf.Sink.Put | rekernel/tinyprintf/tinyprintf.c:479-485 | the sink stores the first characters up to its capacity and counts all |
| Printf.Sink.PutChw | rekernel/tinyprintf/tinyprintf.c:201-251 | sign, prefix, padding and text in the order the flags ask for |
| Printf.ReadDirective | rekernel/tinyprintf/tinyprintf.c:278-337 | reads one specification, never past the terminator |
| Printf.WidthReadsBack | rekernel/tinyprintf/tinyprintf.c:185-199 | a width written in decimal is read back by a2u |
| Printf.SpecReadsBack | rekernel/tinyprintf/tinyprintf.c:278-337 | flags, width, precision and length written as C99 has them are read as what they say, for every width below 2^32 |
| Printf.FormatSpec | rekernel/tinyprintf/tinyprintf.c:264-419 | where a well-formed specification stands, the output is the conversion it means and then the rest, with the arguments that are left |
| Printf.FormatText | rekernel/tinyprintf/tinyprintf.c:264-419 | plain text goes through unchanged up to the first specification |
| Printf.PutConversion | rekernel/tinyprintf/tinyprintf.c:338-417 | puts what the conversion says, takes its argument, and leaves base and case as the source does |
| Printf.ConvertSigned | rekernel/tinyprintf/tinyprintf.c:356-371 | d and i, for every width and flags: a minus if and only if the low 32 bits, or 64 with a length, are negative in two's complement, then decimal digits that evaluate to the absolute value; padding where the flags say, up to the width; one argument |
| Printf.ConvertUnsigned | rekernel/tinyprintf/tinyprintf.c:341-404 | u, o, x, X and p: digits in base 10, 8 and 16 that evaluate to the word modulo 2^32 or 2^64, upper-case letters for X only, the prefix that # or p asks for, padding, one argument, and the base and case left behind |
| Printf.ConvertString | rekernel/tinyprintf/tinyprintf.c:408-412 | s: the argument up to its first NUL, with padding; # adds the prefix of whatever base was used last |
| Printf.ConvertOther | rekernel/tinyprintf/tinyprintf.c:405-417 | c: the low byte of one argument; %: itself and no argument; anything else: nothing |
| Printf.FormatSigned | rekernel/tinyprintf/tinyprintf.c:264-371 | the same for d and i in terms of the characters of the format: plain text, flags, width, precision and length, and the rest of the format with the next argument |
| Printf.FormatUnsigned | rekernel/tinyprintf/tinyprintf.c:264-404 | and for u, o, x, X and p |
| Printf.FormatString | rekernel/tinyprintf/tinyprintf.c:264-412 | and for s |
| Printf.FormatChar | rekernel/tinyprintf/tinyprintf.c:264-417 | and for c and % |
| Printf.FormatCutOff | rekernel/tinyprintf/tinyprintf.c:279-340 | a specification cut off by the end of the format prints nothing |
| Printf.PercentD | rekernel/tinyprintf/tinyprintf.c:356-371 | plain %d prints a minus exactly for a negative number, and digits without a leading zero that evaluate to its absolute value |
| Printf.TfpFormat | rekernel/tinyprintf/tinyprintf.c:253-421 | terminates; the sink gets exactly the output of the format, in order |
| Printf.Vsnprintf | rekernel/tinyprintf/tinyprintf.c:487-505 | the first min(count, size - 1) characters of the output and a terminator; nothing else is written; the result is the count of the whole output, as an int |
| Printf.Vsprintf | rekernel/tinyprintf/tinyprintf.c:530-538 | the whole output and a terminator; the same count |
| Printf.ToIntIs | rekernel/tinyprintf/tinyprintf.c:487-505 | a count is returned as the int that is equal to it modulo 2^32 |
| Argv.KaRoundTrip | kvm/kvm_amd64.go:66-77 | ka2pa undoes pa2ka if and only if the kernel address lies below the kernel text window, and that address is then 0xffff_8000_0000_0000 above; an address in the text window is its offset there |
| Argv.WordRoundTrip | kvm/argv.go:25 | eight little-endian bytes read back as the word |
| Argv.WordBytesAt | kvm/argv.go:25 | the i-th byte is the i-th digit in base 256, the lowest first |
| Argv.CStringStops | hypercall.go:213-222 | cstring recovers a NUL-free string from its bytes, a NUL and anything after it |
| Argv.WriteStrings | kvm/argv.go:14-20 | strings and terminators in order from the offset, and the address of each |
| Argv.WriteWords | kvm/argv.go:23-27 | the words in order, or a panic if they do not fit |
| Argv.WriteAt | kvm/argv.go:13-34 | succeeds exactly when all fits memory and lies below the kernel, panics exactly when it does not fit memory, and returns the kernel address of the pointers; memory then holds strings, pointers and a zero word, and no byte outside, in particular none of the kernel's, changed |
| Argv.InMemory | kvm/argv.go:13-34 | what memory then holds, byte by byte: each string behind the ones before it with a zero, each word the kernel address 0xffff_8000_4000_0000 plus the offset of its string, and a zero word |
| Argv.ReadBack | kvm/argv.go:13-34 | following the pointers from the returned address with ka2pa and cstring recovers exactly the list written |

## Left out

Contracts that assume or say less than the source:

- Arm64Vm.Pagetable.Map: only at the 4 KB level, and where no larger leaf is in the way, as in every table built by map_region.
- Arm64Vm.Pagetable.MapRegion: the range does not wrap and lies below USER_END.
- Arm64Vm.Perform: the same, and so for Arm64Vm.Run and Arm64Vm.RunOn.
- Amd64Vm.Pagetable.MapRegion: permissions include READ, so the branch that only rewrites permissions, and leaks the tables it allocates, is not modelled; leaf permissions only, not those a processor derives from all levels.
- Amd64Vm.Pagetable.MapEach: the same.
- Amd64Vm.Pagetable.MapPage: the same.
- Amd64Vm.Pagetable.LookupL4: permissions include READ, and the address is a user one.
- Amd64Vm.Pagetable.LinkFresh: permissions include READ; without it the source links a table whose entry is not valid.
- Amd64Vm.Pagetable.PutPage: permissions include READ.
- Amd64Vm.Pagetable.UnmapPages: every page of the range is mapped, as the pages of an area are; over a missing table the level that the walk leaves would stay above 4 KB for the pages after it.
- ProcVm.UnmapPages: the same.
- ProcVm.Proc.MapVma: start + size does not wrap, start is page aligned and the length is positive; after a refusal for lack of memory (oom) only the list structure and the file position are described.
- ProcVm.Proc.MapVmaNoOverlap: the same, for a range inside the mmap area.
- ProcVm.Proc.MapVmaAny: the length is positive and does not wrap; the invariant is claimed unless memory ran out in the middle.
- ProcVm.Proc.UnmapVma: the invariant is claimed unless the free list could not grow.
- UserIo.MmapThenRead: the read does not start or end beyond the length asked for.
- ProcVm.Proc.SysBrk: the invariant is claimed for breaks inside the heap, between BRK_BASE and MMAP_START.
- ProcRuns.Run: fixed mappings are not among the calls, since they need not keep the partition; a run ends at a call that is refused memory.
- ProcVm.Proc.Init: pages from BRK_BASE on are not mapped yet, which loading a program low in memory respects; the user stack is not modelled.
- UserIo.SysRead: every mapped byte of the buffer lies in memory, buf + i does not wrap.
- UserIo.SysWrite: every mapped byte of the buffer lies in memory, buf + i does not wrap.
- Printf.FormatString: without #, whose prefix depends on the conversion before it (Printf.ConvertString has it).
- Printf.Vsprintf: the buffer is large enough, as sprintf demands.
- Printf.TfpFormat: an argument is a 64-bit word and the string it may point to; arguments of the wrong type are not modelled, and what the uninitialised base and case hold at first is a parameter.

Not modelled:

- The processes' address spaces use the arm64 table class; the amd64 one has the same contracts but is not plugged in (UserIo and PtIter cover both).
- Page tables and data memory are separate in the model, so a mapping that exposes a table to the user is not expressed.
- The kernel's exit when the main process has exited: runs in the model may go on, so what is proved covers the shorter ones.
- More than one CPU, preemption inside the kernel, timers, and process creation, which is a stub in the source.
- sys_mmap and sys_munmap as wrappers, mprotect, mremap, lazy faults, freeing of mapped memory (not done by the source either).
- The bodies of allocation and stdio: fresh zeroed memory and stream read, write and seek are taken as contracts.
- ELF loading, the initial stack, the hypercall dispatcher, KVM ioctls, assembly, TLB and cache maintenance, the descriptor table: foreign effects or easy members.
