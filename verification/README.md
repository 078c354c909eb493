# Proofs about the ucore port

A model in Dafny of the hard parts of a MIPS32 port of the ucore teaching kernel, and proofs of
properties of it. The labs repeat most files; each component is modelled once, from the copy cited.
Code that changes things in place is written as classes and methods with the same branches, and each
method is proved against a function on values; the properties are lemmas about those functions.

- **TLB and paging** (`Tlb`, `TlbWords`, `Paging`, `PagingLaws`, `MmuKernel`, `KernelRuns`). A 16-entry cache of page pairs kept
  coherent with a two-level page table through bits in the PTEs, a free stack and a round-robin victim;
  reference counts of frames; page faults. The main result, `Paging.RunsAreSafe`, is about every run, and
  `KernelRuns` makes such runs on the kernel's own arrays. `PagingLaws` adds that faults grant the rights of the
  area and no more (`PagingLaws.AccessKeepsRights`), that no frame is lost (`PagingLaws.NoFrameLost`), and that a
  full TLB throws its slots out in turn (`PagingLaws.EvictedInTurn`).
  The lookup is the one the hardware of `cpu_final/mmu.vhd` does. The register layout is that of the
  MIPS32 Privileged Resource Architecture, volume III, registers EntryLo0, EntryLo1 and EntryHi.
- **Allocators.** First-fit page frames with coalescing on a linked list of descriptors (`FrameList`,
  `Coalesce`, `FirstFit`, whole runs in `AllocatorRuns` and `FrameClient`), and the SLOB byte allocator on a circular
  ring (`SlobRing`, `Kmalloc`, `KmallocSafety`, `FindOrder`, `KernelHeap`, whole runs in
  `HeapClient`). Both stand on `FreeRuns`: a list of blocks that do not touch is determined by the units it
  covers.
- **Skew heap** (`SkewHeap`, `SkewHeapEntries`, `Logarithms`): contents, order, parent pointers and the
  amortized cost, for single operations and whole runs.
- **Image builder** (`SfsBlocks`, `SfsNodes`, `SfsEntries`, `SfsTree`, `SfsSteps`, `SfsRoundTrip`,
  `SfsImage`, `SfsBytes`, `SfsRoom`, `SfsLinks`, `SfsNames`, `SfsSizes`, `SfsLayout`, `SfsReads`, `SfsReadLoop`,
  `SfsLimits`, `MakeSfs`): the block map, the free bitmap and the tree copy of mksfs. A state records what each
  block is used for, which makes every block's owner unique. `SfsRoom.BuildFits` says from the host tree alone when the image is built and how many blocks it
  takes, `SfsImage.ImageRoundTrip` and, for the bytes on disk, `SfsBytes.ByteRoundTrip` that a reader of
  the written blocks gets the host directory back, `SfsLayout.ImageHolds` where every byte of it lies,
  `SfsBytes.MountAccepts` that the kernel mounts it, `SfsReads.ReadAnswers` and `SfsReads.KernelReadsImage` what
  the kernel's own read of a part of a file gives, `SfsReadLoop.ReadImageFile` that its system call reads files
  whole, and `SfsNames.LinkCountsRight` when the link counts are right.
- **Searching, printing, parsing** (`StabSearch`, `ShiftDivision`, `FormatText`, `Printing`, `ParseText`, `Numerals`,
  `FormatLaws`): the debug-table search, division by shifts, the format interpreter with its bounded buffer, and
  strtol. `FormatLaws.ConversionPrints` says what every conversion behind any flags prints,
  `Numerals.StrtolReads` what strtol makes of any text, and `FormatLaws.PrintedReadsBack` when the second undoes
  the first. The return convention of vsnprintf and the syntax strtol accepts follow
  sections 7.19.6.12 and 7.20.1.4 of ISO C99.
- **Areas and scheduling** (`Areas`, `RoundRobin`): the cached lookup of memory areas with its overlap
  checks, and fairness of the round-robin choice.

Where code and comments disagree the code is followed. Several things one would expect turn out false
of the code; for each there is a concrete failing case and the exact condition under which the code is
right:

- a TLB miss is served rightly if and only if enough frames are free (`Paging.MissGood`,
  `Paging.MissWithoutFrames`): get_pte and do_pgfault do not look at the allocator's answer;
- `find_order` covers the request if and only if the size is not just above a power-of-two number of
  pages (`FindOrder.OrderCovers`, `FindOrder.OneByteShort`);
- kmalloc stops the kernel if and only if 4080 <= size < 4088 (`KernelHeap.Heap.Kmalloc`), and the ring
  operations of slob_alloc and slob_free need a second block (`SlobRing.UnlinkNeedsCompany` with
  `SlobRing.ArenaHandedOutTwice`, `SlobRing.LinkInNeedsCompany` with `SlobRing.LinkInOverlaps`);
- names come back from an image if and only if they have at most 252 bytes, though 255 are allowed
  (`SfsImage.NamesSurvive`, `SfsLimits.LongNameCut`): add_entry writes as many bytes as the name field has,
  number included;
- an image file is used to its size, or to the maximum, if and only if 32 bits hold its number of blocks or keep
  enough of it (`SfsImage.BlocksCounted`, `SfsLimits.LargeFileWraps`): ninos is cut to 32 bits before it is
  compared;
- the kernel reads a part of a file rightly if its whole blocks, read at once by consecutive numbers, are all among
  the first thirteen or all after them, and their numbers are right only then (`SfsReads.RightBlocks`,
  `SfsReads.StraightBelow`, `SfsReads.KernelReadsImage`, `SfsLimits.WholeReadFails`): the builder puts the pointer
  block between them. sysfile_read asks for at most 4096 bytes at a time and so never meets this
  (`SfsReadLoop.SysfileRead`);
- the link counts of an image are right if and only if no host file has 65536 names or more
  (`SfsNames.LinkCountsRight`, `SfsLimits.CountWraps`): nlinks has 16 bits, and the kernel stops at an inode
  with a count of 0;
- stab_binsearch ends at the wrong entry if and only if halving meets the address while an entry one above it
  is still to the right, or the increment wraps (`StabSearch.AnswersIff`,
  `StabSearch.AnswersUnlessLowerFirst`, `StabSearch.NeighbourFound`, `StabSearch.TopAddress`);
- division by ten is right if and only if n < 5368709122 (`ShiftDivision.TenDivExact`,
  `ShiftDivision.TenDivFails`);
- vsnprintf returns the length of the text if and only if it is below 2^31 (`Printing.Vsnprintf`,
  `Printing.CountOverflows`), and what it is asked to print in decimal has to be below the limit of the division
  (`FormatText.Divides`, `FormatText.WordsDivide`);
- padded decimal text reads back only under the condition of `ParseText.DecimalRoundTrip`
  (`ParseText.PaddedMinusFive`): the sign is printed before the padding, and the flag '-' pads with minus
  signs;
- a precision written out cuts a string if and only if it is not 0, which is read as a flag
  (`FormatLaws.ConversionPrints`, `FormatLaws.ZeroPrecisionLost`);
- strtol takes the prefix "0x" but not "0X", which its comment allows (`Numerals.CapitalPrefixStops`).

`dafny verify dfyconfig.toml` checks the whole project.

## Model

| member | source | states |
|---|---|---|
| SkewHeap.MergeElements | cspro2014_os/ucore/lab6/libs/skew_heap.h:29-59 | A merge holds exactly the elements of both heaps, counted, for any comparator |
| SkewHeap.RemoveElements | cspro2014_os/ucore/lab6/libs/skew_heap.h:69-85 | Removing a node, however deep, takes away exactly one occurrence of exactly that element |
| SkewHeap.MergeSize | cspro2014_os/ucore/lab6/libs/skew_heap.h:29-59 | Sizes add up under a merge |
| SkewHeap.MergeOrdered | cspro2014_os/ucore/lab6/libs/skew_heap.h:29-59 | Under any total preorder, ties included, merging two heaps gives a heap |
| SkewHeap.RemoveOrdered | cspro2014_os/ucore/lab6/libs/skew_heap.h:69-85 | Removing an arbitrary node keeps the heap order |
| SkewHeap.RootIsLeast | cspro2014_os/ucore/lab6/libs/skew_heap.h:29-59 | In an ordered heap no element comes before the root |
| SkewHeap.LightBound | cspro2014_os/ucore/lab6/libs/skew_heap.h:37-58 | A right spine has at most log2(size + 1) light nodes: each halves the size |
| SkewHeap.HeavyBound | cspro2014_os/ucore/lab6/libs/skew_heap.h:37-58 | A left spine has at most log2(size + 1) right-heavy nodes |
| SkewHeap.MergePaysForCalls | cspro2014_os/ucore/lab6/libs/skew_heap.h:29-59 | The calls of one merge are paid for by the drop in right-heavy nodes, the light nodes on both right spines and the heavy nodes on the new left spine |
| SkewHeap.MergeAmortized | cspro2014_os/ucore/lab6/libs/skew_heap.h:29-59 | Calls plus change of the number of right-heavy nodes is at most log2(a+1) + log2(b+1) + log2(a+b+1) + 1, for all heaps and comparators |
| SkewHeap.RemovePaysForCalls | cspro2014_os/ucore/lab6/libs/skew_heap.h:69-85 | The same accounting for a removal, with the ancestors that tip over |
| SkewHeap.RemoveAmortized | cspro2014_os/ucore/lab6/libs/skew_heap.h:69-85 | Removing any node costs at most 4 log2(n+1) + 1 amortized |
| SkewHeap.RunIsLogarithmic | cspro2014_os/ucore/lab6/libs/skew_heap.h:29-85 | Any run of m inserts and removals from the empty heap makes at most m (4 log2(m+1) + 2) merge calls in all |
| SkewHeapEntries.Entry.constructor | cspro2014_os/ucore/lab6/libs/skew_heap.h:23-27 | A new entry is a heap of one |
| SkewHeapEntries.MergeNodes | cspro2014_os/ucore/lab6/libs/skew_heap.h:29-59 | Merging disjoint trees of entries keeps every entry at one place and loses none |
| SkewHeapEntries.RemoveNodes | cspro2014_os/ucore/lab6/libs/skew_heap.h:69-85 | Removal takes exactly the given entry out of the set of entries |
| SkewHeapEntries.SkewHeapMerge | cspro2014_os/ucore/lab6/libs/skew_heap.h:29-59 | The pointer code links exactly the merged tree, every child points to its parent, the root keeps its parent pointer, and the number of calls is the one bounded above |
| SkewHeapEntries.SkewHeapInsert | cspro2014_os/ucore/lab6/libs/skew_heap.h:61-67 | Insert yields a heap whose entries are the old ones and the new one, rooted with no parent |
| SkewHeapEntries.SkewHeapRemove | cspro2014_os/ucore/lab6/libs/skew_heap.h:69-85 | Removing any entry relinks the tree without it; all parent pointers are right and the root has none |
| SkewHeapEntries.Adopt | cspro2014_os/ucore/lab6/libs/skew_heap.h:41-57 | The common tail of both merge branches links both children and their parent pointers |
| SkewHeapEntries.Rehang | cspro2014_os/ucore/lab6/libs/skew_heap.h:75-83 | The merged subtrees take the removed entry's place below its parent, on the right side |
| SkewHeapEntries.Relinked | cspro2014_os/ucore/lab6/libs/skew_heap.h:75-83 | With a subtree replaced at its parent, the links below the root are those of the tree without the node |
| SkewHeapEntries.OnlyParent | cspro2014_os/ucore/lab6/libs/skew_heap.h:75-83 | The test p->left == b finds the side b is on: a node has one parent and sits on one side of it |
| Tlb.LookupAgrees | cpu_final/mmu.vhd:226-294 | In a coherent state the parallel hardware lookup hits an address exactly when its PTE has TLB_P, and answers with that PTE's frame and write bit; a hit implies the page is present |
| Tlb.SlotsDiffer | cspro2014_os/ucore/lab3/kern/mm/tlb.c:92-125 | Two occupied slots never hold the same tlb_algo_hi, so no address matches twice |
| Tlb.InitCoherent | cspro2014_os/ucore/lab3/kern/mm/tlb.c:18-24 | tlb_init makes the TLB coherent with any page table that has no TLB_P bits |
| Tlb.WriteCoherent | cspro2014_os/ucore/lab3/kern/mm/tlb.c:27-59 | Changing a PTE that is not in the TLB keeps coherence |
| Tlb.FreeStackHasRoom | cspro2014_os/ucore/lab3/kern/mm/tlb.c:121-125 | tlb_del_callback never writes past tlb_algo_empty |
| Tlb.InvalidateCoherent | cspro2014_os/ucore/lab3/kern/mm/tlb.c:68-91 | Flushing one page keeps coherence and clears TLB_P of that page's PTE and of no other |
| Tlb.EvictClears | cspro2014_os/ucore/lab3/kern/mm/tlb.c:103-120 | Eviction clears exactly the TLB_P bits that name the victim slot and never throws out the pair being filled |
| Tlb.PopReady | cspro2014_os/ucore/lab3/kern/mm/tlb.c:103-106 | Popping the free stack gives a slot no PTE names, with everything else coherent |
| Tlb.EvictReady | cspro2014_os/ucore/lab3/kern/mm/tlb.c:107-120 | Evicting when the stack is empty gives a slot no PTE names any more, with everything else coherent |
| Tlb.FillCoherent | cspro2014_os/ucore/lab3/kern/mm/tlb.c:44-58 | Filling a present page after a miss keeps coherence, paired or not, with a full TLB or not, and leaves every other PTE but the evicted pair alone |
| Tlb.FillNeedsPresent | cspro2014_os/ucore/lab3/kern/mm/tlb.c:27-59 | Filling keeps coherence if and only if the page is present |
| TlbWords.EntryLoBits | cspro2014_os/ucore/lab3/kern/mm/tlb.h:25-26 | ENTRYLO puts the frame number, D, V, G and the cache attribute 2 where the hardware has them |
| TlbWords.EntryLoWord | cspro2014_os/ucore/lab3/kern/mm/tlb.h:25-26 | ENTRYLO of a PTE word decodes to the half entry of the decoded PTE |
| TlbWords.MarkWord | cspro2014_os/ucore/lab3/kern/mm/tlb.c:57 | Storing index and TLB_P in a PTE word changes just those fields |
| TlbWords.ClearWord | cspro2014_os/ucore/lab3/kern/mm/tlb.c:90 | Masking out TLB_P changes just that field |
| TlbWords.MapWord | cspro2014_os/ucore/lab3/kern/mm/pmm.c:361-381 | The word that page_insert stores is present with the permissions passed, for every perm; it maps the frame, with no TLB_P and index 0, if and only if perm sets no frame bit the frame lacks and no bit of the TLB's own |
| TlbWords.PairWords | cspro2014_os/ucore/lab3/kern/mm/tlb.h:22-23 | TLBPAIR names the other page of the same pair, and TLBLO its half |
| TlbWords.PteLayout | cspro2014_os/ucore/lab3/kern/mm/tlb.h:10-15 | A word put together from its fields in the PTE format, with any reserved bits, decodes to those fields |
| TlbWords.LoLayout | cspro2014_os/ucore/lab3/kern/mm/tlb.h:25-26 | So does an EntryLo word, with any cache attribute and G bit |
| Paging.GetPteGood | cspro2014_os/ucore/lab3/kern/mm/pmm.c:242-289 | get_pte with create keeps everything; it stops the kernel exactly when a table is missing and no frame is left |
| Paging.RemovePteGood | cspro2014_os/ucore/lab3/kern/mm/pmm.c:307-342 | Unmapping clears one PTE, keeps coherence and all reference counts, and touches no other mapping |
| Paging.RemoveFreesLast | cspro2014_os/ucore/lab3/kern/mm/pmm.c:344-351 | A frame goes back to the allocator if and only if the removed mapping was the last thing naming it |
| Paging.IdleUnmapped | cspro2014_os/ucore/lab3/kern/mm/pmm.c:242-289 | No free frame is mapped or holds a page table |
| Paging.MapGood | cspro2014_os/ucore/lab3/kern/mm/pmm.c:361-380 | page_insert maps the frame as asked, keeps counts and coherence, and touches no other page |
| Paging.InsertGood | cspro2014_os/ucore/lab3/kern/mm/pmm.c:361-380 | The same with the page table created on the way; it fails exactly when that takes a frame and none is left |
| Paging.AllocAndMapGood | cspro2014_os/ucore/lab3/kern/mm/pmm.c:382-403 | pgdir_alloc_page stops exactly when the one frame left is taken for the page and its page table finds none; with no frame it changes nothing and says nothing; otherwise it maps the frame it was given, whatever was mapped there, and no other page changes |
| Paging.FaultGood | cspro2014_os/ucore/lab3/kern/mm/vmm.c:304-416 | do_pgfault succeeds exactly when the page is not present, the area permits the access, and a table is there or can be made; the page is mapped afterwards exactly when enough frames were free, then to one of them, for the user, writable exactly if the area is; no other page changes |
| Paging.MissGood | cspro2014_os/ucore/lab3/kern/mm/tlb.c:27-59 | After a miss all invariants hold if and only if enough frames were free; then the missing page is in the TLB, mapped as before or as its area says, and no other mapping has changed |
| Paging.StepGood | cspro2014_os/ucore/lab3/kern/mm/tlb.c:27-125 | Every permitted step keeps coherence and the counts |
| Paging.RunGood | cspro2014_os/ucore/lab3/kern/mm/tlb.c:27-125 | Every run of permitted steps keeps coherence and the counts |
| Paging.RunsAreSafe | cspro2014_os/ucore/lab3/kern/mm/tlb.c:18-125 | For every run of accesses, misses, inserts, removals, flushes and frame traffic after tlb_init: the TLB answers every address as the page table says, ref equals the number of PTEs and page directory entries naming the frame, and no free frame is mapped |
| Paging.MissWithoutFrames | cspro2014_os/ucore/lab3/kern/mm/vmm.c:366-369 | Concrete failing case: with no frame free, a permitted read of page 0 leaves the TLB mapping a page the page table does not |
| KernelRuns.Act | cspro2014_os/ucore/lab3/kern/mm/tlb.c:18-125 | One access, mapping, unmapping, flush or frame taken or given back, on the kernel's own arrays, is Paging.Step on the view |
| KernelRuns.Perform | cspro2014_os/ucore/lab3/kern/mm/tlb.c:18-125 | After tlb_init any legal sequence of them goes through the states of Paging.Run, so RunsAreSafe holds of the arrays |
| PagingLaws.StepEffect | cspro2014_os/ucore/lab3/kern/mm/tlb.c:27-125 | The effect of each step on what is mapped, in full: after an access the hardware hits the address, a miss having served the page; mapping and unmapping do as asked whatever was there; hits, flushes and frame traffic change no mapping |
| PagingLaws.StepRights | cspro2014_os/ucore/lab3/kern/mm/vmm.c:340-369 | No step gives a page rights that its area does not have, nor takes any: a page that is there stays the user's, and writable exactly if its area is |
| PagingLaws.AccessKeepsRights | cspro2014_os/ucore/lab3/kern/mm/vmm.c:340-369 | So after every run from tlb_init: the hardware hits an address only where there is an area, and with the D bit exactly if the area may be written |
| PagingLaws.StepLosesNone | cspro2014_os/ucore/lab3/kern/mm/pmm.c:307-380 | No step loses a frame: one that nothing refers to is on the free list, or with a caller of alloc_page that neither mapped nor returned it |
| PagingLaws.NoFrameLost | cspro2014_os/ucore/lab3/kern/mm/pmm.c:307-380 | Nor does any run |
| PagingLaws.MapTlb | cspro2014_os/ucore/lab3/kern/mm/pmm.c:361-380 | page_insert flushes its own page and leaves the rest of the TLB alone, though tlb_invalidate is come to twice |
| PagingLaws.StepInTurn | cspro2014_os/ucore/lab3/kern/mm/tlb.c:97-115 | A step throws out at most one pair, the one in the slot tlb_algo_ptr names, only when no slot is free, and then the pointer moves on by one, round again after 15 |
| PagingLaws.StepLeaves | cspro2014_os/ucore/lab3/kern/mm/tlb.c:27-125 | A page leaves the TLB, or its slot there, only when it is thrown out in turn, or itself mapped, unmapped or flushed |
| PagingLaws.EvictedInTurn | cspro2014_os/ucore/lab3/kern/mm/tlb.c:97-115 | In every run the slots are thrown out one after the other by number, whatever happens in between |
| PagingLaws.SixteenDiffer | cspro2014_os/ucore/lab3/kern/mm/tlb.c:97-115 | Two evictions of a run throw out the same slot if and only if their distance is a multiple of sixteen; so sixteen in a row throw out sixteen slots |
| PagingLaws.RunBlank | cspro2014_os/ucore/lab3/kern/mm/tlb.c:18-24 | After every run from tlb_init each half entry that maps nothing is zero, and each slot in no use has the address 0x80000000 |
| MmuKernel.FlatWrite | cspro2014_os/ucore/lab3/kern/mm/pmm.c:242-289 | A write through a PTE pointer changes one entry of the flat view of the two-level table |
| MmuKernel.FlatNewTable | cspro2014_os/ucore/lab3/kern/mm/pmm.c:276-286 | Hanging in an empty page table does not change the flat view |
| MmuKernel.Kernel.Init | cspro2014_os/ucore/lab3/kern/mm/tlb.c:18-24 | tlb_init on the arrays is TlbInit on the view |
| MmuKernel.Kernel.TlbGetEmpty | cspro2014_os/ucore/lab3/kern/mm/tlb.c:103-120 | The stack and eviction code on arrays and tables is GetEmpty on the view |
| MmuKernel.Kernel.TlbFill | cspro2014_os/ucore/lab3/kern/mm/tlb.c:44-58 | The tail of the miss handler is Fill on the view |
| MmuKernel.Kernel.TlbInvalidate | cspro2014_os/ucore/lab3/kern/mm/tlb.c:68-91 | tlb_invalidate is Invalidate on the view |
| MmuKernel.Kernel.TlbMissHandler | cspro2014_os/ucore/lab3/kern/mm/tlb.c:27-59 | The miss handler on the kernel's own arrays does what MissHandler does to the view, failing when it does |
| MmuKernel.Kernel.GetPteCreate | cspro2014_os/ucore/lab3/kern/mm/pmm.c:242-289 | get_pte with create on directory and tables is GetPte on the view |
| MmuKernel.Kernel.PageRemovePte | cspro2014_os/ucore/lab3/kern/mm/pmm.c:307-342 | page_remove_pte is RemovePte on the view |
| MmuKernel.Kernel.PageRemove | cspro2014_os/ucore/lab3/kern/mm/pmm.c:344-351 | page_remove is Remove on the view |
| MmuKernel.Kernel.PageDisplace | cspro2014_os/ucore/lab3/kern/mm/pmm.c:367-377 | The reference and displacement part of page_insert is Displace on the view |
| MmuKernel.Kernel.PageMap | cspro2014_os/ucore/lab3/kern/mm/pmm.c:367-379 | page_insert with its table present is Map on the view |
| MmuKernel.Kernel.PageInsert | cspro2014_os/ucore/lab3/kern/mm/pmm.c:361-380 | page_insert is Insert on the view |
| MmuKernel.Kernel.PgdirAllocPage | cspro2014_os/ucore/lab3/kern/mm/pmm.c:382-403 | pgdir_alloc_page is AllocAndMap on the view |
| MmuKernel.Kernel.DoPgfault | cspro2014_os/ucore/lab3/kern/mm/vmm.c:304-416 | do_pgfault is Fault on the view |
| MmuKernel.Kernel.TlbWrite | cspro2014_os/ucore/lab3/kern/mm/tlb.c:127-135 | tlb_write replaces one hardware slot and no other |
| MmuKernel.Kernel.ClearTlbpAt | cspro2014_os/ucore/lab3/kern/mm/tlb.c:111-116 | Clears TLB_P of an address, and does nothing where there is no page table |
| MmuKernel.Kernel.WritePte | cspro2014_os/ucore/lab3/kern/mm/pmm.c:378 | A PTE write changes one entry of the view |
| MmuKernel.Kernel.ReadPte | cspro2014_os/ucore/lab3/kern/mm/pmm.c:242-289 | get_pte without create: the entry of the view, or nothing where there is no page table, and then the view is empty there |
| MmuKernel.Kernel.GetPage | cspro2014_os/ucore/lab3/kern/mm/pmm.c:291-302 | get_page answers the frame mapped at the page exactly when the page is present, and hands out the entry if there is a table |
| MmuKernel.Kernel.constructor | cspro2014_os/ucore/lab3/kern/mm/tlb.c:18-24 | The kernel before tlb_init: any directory whose entries name different tables, any frames, any contents of the hardware slots |
| FreeRuns.CanonicalUnique | cspro2014_os/ucore/lab3/kern/mm/default_pmm.c:63-79 | Two address-ordered lists of blocks that do not touch are equal if they cover the same units |
| FreeRuns.TakeCanonical | cspro2014_os/ucore/lab3/kern/mm/default_pmm.c:102-129 | Taking units from the front of a block leaves a canonical list |
| FreeRuns.TakeCovers | cspro2014_os/ucore/lab3/kern/mm/default_pmm.c:102-129 | Taking units from a block takes exactly those out of the cover |
| FreeRuns.GiveCanonical | cspro2014_os/ucore/lab3/kern/mm/default_pmm.c:132-162 | Giving a block back, merged with the neighbours it touches, leaves a canonical list |
| FreeRuns.GiveCovers | cspro2014_os/ucore/lab3/kern/mm/default_pmm.c:132-162 | Giving a block back adds exactly its units to the cover |
| FreeRuns.GiveKeeps | cspro2014_os/ucore/lab4/kern/mm/kmalloc.c:153-185 | A block the given one does not touch stays as it is |
| SlobRing.UnlinkValid | cspro2014_os/ucore/lab4/kern/mm/kmalloc.c:120-133 | Taking n units from a block of a ring of two or more leaves an ascending ring with one wrap whose blocks are the old ones less those units |
| SlobRing.LinkInValid | cspro2014_os/ucore/lab4/kern/mm/kmalloc.c:164-182 | Linking a block in leaves such a ring, with the block merged into exactly the neighbours it touches |
| SlobRing.TestsSeeNeighbours | cspro2014_os/ucore/lab4/kern/mm/kmalloc.c:169-180 | The two pointer tests of slob_free tell exactly whether the neighbours touch |
| SlobRing.UnlinkNeedsCompany | cspro2014_os/ucore/lab4/kern/mm/kmalloc.c:120-133 | slob_alloc leaves the right ring if and only if the block was not alone on it |
| SlobRing.LinkInNeedsCompany | cspro2014_os/ucore/lab4/kern/mm/kmalloc.c:164-182 | slob_free leaves the right ring if and only if the block does not end where the only free block starts |
| SlobRing.LinkInOverlaps | cspro2014_os/ucore/lab4/kern/mm/kmalloc.c:164-182 | Concrete failing case: eight units freed just below the only free block; afterwards the ring holds that block and the merged one that contains it |
| SlobRing.BootValid | cspro2014_os/ucore/lab4/kern/mm/kmalloc.c:73-79 | The static arena is a ring of one block |
| SlobRing.ArenaHandedOutTwice | cspro2014_os/ucore/lab4/kern/mm/kmalloc.c:218-226 | kmalloc(0) before any page is obtained hands out the arena and leaves it on the ring |
| Kmalloc.ScanStops | cspro2014_os/ucore/lab4/kern/mm/kmalloc.c:164-167 | From any ring position the insertion scan stops at the block before the gap and nowhere else |
| Kmalloc.UnfitAll | cspro2014_os/ucore/lab4/kern/mm/kmalloc.c:107-135 | A full turn of the next-fit search without success means no block fits |
| Kmalloc.Slob.constructor | cspro2014_os/ucore/lab4/kern/mm/kmalloc.c:73-79 | The ring as it is at boot |
| Kmalloc.Slob.FindBefore | cspro2014_os/ucore/lab4/kern/mm/kmalloc.c:162-167 | The scan terminates on the circular list and finds the block before the gap |
| Kmalloc.Slob.LinkBlock | cspro2014_os/ucore/lab4/kern/mm/kmalloc.c:169-182 | slob_free of any block with its size in its header: the new ring, block for block, unless the block ends where the only free block starts; then no ring holds the blocks that are free |
| Kmalloc.Slob.SlobFree | cspro2014_os/ucore/lab4/kern/mm/kmalloc.c:153-185 | slob_free with either way of giving the size, of any block apart from the free ones: the same two outcomes, told by the addresses; no header outside the free blocks is overwritten |
| Kmalloc.Slob.UnlinkBlock | cspro2014_os/ucore/lab4/kern/mm/kmalloc.c:120-133 | The tail of slob_alloc: the ring loses exactly the units taken if the block had company on it; if not, no ring holds what is free |
| Kmalloc.Slob.AddPage | cspro2014_os/ucore/lab4/kern/mm/kmalloc.c:136-148 | A page obtained in mid-search joins the ring |
| Kmalloc.Slob.SlobAlloc | cspro2014_os/ucore/lab4/kern/mm/kmalloc.c:98-150 | slob_alloc with align 0, for requests larger than some block on the ring as all of kmalloc are: it terminates, is next fit, asks for a page at most once and only when nothing fits, and fails only if that page is refused; the block has the fewest units of 8 bytes that hold the size |
| KmallocSafety.GrowPartition | cspro2014_os/ucore/lab4/kern/mm/kmalloc.c:142-148 | Obtaining a page keeps every unit free or in exactly one block in use |
| FreeRuns.TakePartition | cspro2014_os/ucore/lab4/kern/mm/kmalloc.c:120-133 | Taking a block keeps every unit free or in exactly one block in use |
| FreeRuns.GivePartition | cspro2014_os/ucore/lab4/kern/mm/kmalloc.c:153-185 | Giving a block back keeps every unit free or in exactly one block in use |
| KmallocSafety.ArenaAfterGive | cspro2014_os/ucore/lab4/kern/mm/kmalloc.c:73-79 | The arena's one unit stays a block of its own when blocks are freed |
| KmallocSafety.ArenaAfterTake | cspro2014_os/ucore/lab4/kern/mm/kmalloc.c:73-79 | The arena's one unit stays a block of its own when blocks are taken |
| KmallocSafety.LiveOffArena | cspro2014_os/ucore/lab4/kern/mm/kmalloc.c:73-79 | No block in use touches the arena |
| KernelHeap.Heap.constructor | cspro2014_os/ucore/lab4/kern/mm/kmalloc.c:73-79 | The heap at boot: only the arena given, nothing in use |
| KernelHeap.Heap.AllocBlock | cspro2014_os/ucore/lab4/kern/mm/kmalloc.c:98-150 | A small allocation keeps ring plus blocks in use a partition of the units obtained, and answers a block not in use before, of the fewest units that hold the size; a page is taken, or the request refused, only if no free block holds it |
| KernelHeap.Heap.FreeBlock | cspro2014_os/ucore/lab4/kern/mm/kmalloc.c:153-185 | Freeing takes the block out of use and gives exactly its units back |
| KernelHeap.Heap.KmallocLarge | cspro2014_os/ucore/lab4/kern/mm/kmalloc.c:229-246 | Large requests: the record, which overwrites the header of its block, is kept exactly when the pages were obtained, which are then the answer, and freed again otherwise; Null only if the large pages were refused, or the page for the record and no block holds it; the page is taken exactly when the answer says so |
| KernelHeap.Heap.Kmalloc | cspro2014_os/ucore/lab4/kern/mm/kmalloc.c:218-252 | kmalloc of any size from 1 on: a block not in use before, with room for the size behind its header and less than a unit more, or Null only if no free block has room and the page asked for was refused; it takes its page only if no block has room, and trips slob_alloc's assert if and only if 4080 <= size < 4088 |
| KernelHeap.Heap.Kfree | cspro2014_os/ucore/lab4/kern/mm/kmalloc.c:255-280 | kfree of null, of a small block or of large pages; large blocks are told from small ones exactly |
| KernelHeap.NotPages | cspro2014_os/ucore/lab4/kern/mm/kmalloc.c:262 | An address that is not a page's, or that is a small block's in use, is never that of a large block, page-aligned or not |
| KernelHeap.GrowStep | cspro2014_os/ucore/lab4/kern/mm/kmalloc.c:142-148 | The heap's invariants through a new page |
| KernelHeap.TakeStep | cspro2014_os/ucore/lab4/kern/mm/kmalloc.c:120-133 | The heap's invariants through an allocation |
| KernelHeap.FreeStep | cspro2014_os/ucore/lab4/kern/mm/kmalloc.c:153-185 | The heap's invariants through a free |
| KernelHeap.HeadersStep | cspro2014_os/ucore/lab4/kern/mm/kmalloc.c:120-133 | The headers of all blocks in use, but those that records have overwritten, still say their sizes after an allocation |
| KernelHeap.Heap.WriteRecord | cspro2014_os/ucore/lab4/kern/mm/kmalloc.c:235-236 | The record of a large block is written over its block's header; everything else stays in order |
| HeapClient.Alloc | cspro2014_os/ucore/lab4/kern/mm/kmalloc.c:218-252 | One kmalloc by a caller with books: what it holds is what is in use, records apart; what it gets it did not hold, and it covers what it asked for |
| HeapClient.Free | cspro2014_os/ucore/lab4/kern/mm/kmalloc.c:255-280 | One kfree by that caller: small blocks leave its books, large ones leave with their records |
| HeapClient.PageIsNew | cspro2014_os/ucore/lab4/kern/mm/kmalloc.c:81-89 | The client's comparisons refuse exactly the pages that the heap has or that touch the arena |
| HeapClient.LargeIsNew | cspro2014_os/ucore/lab4/kern/mm/kmalloc.c:81-89 | And exactly the large pages that are in use |
| HeapClient.Call | cspro2014_os/ucore/lab4/kern/mm/kmalloc.c:98-280 | One call keeps the books, and every block held covers what was asked for; a request for which a fresh page is at hand is served |
| HeapClient.AllReturned | cspro2014_os/ucore/lab4/kern/mm/kmalloc.c:98-185 | When the caller has given everything back, every unit ever obtained is free |
| HeapClient.Serve | cspro2014_os/ucore/lab4/kern/mm/kmalloc.c:98-280 | For every sequence of kmalloc and kfree calls from boot on, requests of 0 bytes apart, over a page allocator that hands out nothing twice, small and large blocks mixed: every block held covers what was asked for; ring, blocks in use and records stay a partition of what was obtained, all of it is free again when all is returned, and the kernel stops exactly at the first request of 4080 to 4087 bytes |
| FindOrder.ComputeOrder | cspro2014_os/ucore/lab4/kern/mm/kmalloc.c:210-216 | The shift loop computes the order |
| FindOrder.OrderBounds | cspro2014_os/ucore/lab4/kern/mm/kmalloc.c:210-216 | It is the least k with size >> k at most 4096, in two inequalities |
| FindOrder.JustAboveOrder | cspro2014_os/ucore/lab4/kern/mm/kmalloc.c:210-216 | Sizes just above 4096 * 2^k get order k, one too few |
| FindOrder.OrderCovers | cspro2014_os/ucore/lab4/kern/mm/kmalloc.c:210-216 | The pages cover the request if and only if the size is not just above a power-of-two number of pages (nor negative as an int) |
| FindOrder.OneByteShort | cspro2014_os/ucore/lab4/kern/mm/kmalloc.c:210-216 | Concrete failing case: 8193 bytes get two pages |
| FrameList.UnlinkedChain | cspro2014_os/ucore/lab3/libs/list.h:154-158 | __list_del takes one entry out of a doubly linked ring and changes nothing else |
| FrameList.LinkedChain | cspro2014_os/ucore/lab3/libs/list.h:141-146 | __list_add puts one entry in at its place |
| Coalesce.StageTests | cspro2014_os/ucore/lab3/kern/mm/default_pmm.c:144-160 | At every turn of the merging loop the two tests hold exactly for the touching neighbours |
| Coalesce.StageStep | cspro2014_os/ucore/lab3/kern/mm/default_pmm.c:144-160 | At every turn of the merging loop the list loses exactly the runs merged |
| Coalesce.StageEnd | cspro2014_os/ucore/lab3/kern/mm/default_pmm.c:144-160 | When every run was passed the block is merged with both neighbours it touches |
| FirstFit.FirstFitIsLowest | cspro2014_os/ucore/lab3/kern/mm/default_pmm.c:110-116 | The first run long enough starts at the lowest address with k free pages in a row |
| FirstFit.NoFitNoRow | cspro2014_os/ucore/lab3/kern/mm/default_pmm.c:110-116 | If no run is long enough there are no k free pages in a row anywhere |
| FirstFit.FrameAllocator.constructor | cspro2014_os/ucore/lab3/kern/mm/default_pmm.c:81-85 | page_init's descriptors, all reserved and newly made, and default_init's empty list |
| FirstFit.FrameAllocator.InitMemmap | cspro2014_os/ucore/lab3/kern/mm/default_pmm.c:87-100 | One init_memmap: the free list is that one run, all its pages unreserved |
| FirstFit.FrameAllocator.FindRun | cspro2014_os/ucore/lab3/kern/mm/default_pmm.c:107-116 | The search finds the first run that fits |
| FirstFit.FrameAllocator.AllocPages | cspro2014_os/ucore/lab3/kern/mm/default_pmm.c:102-129 | First fit on the linked descriptors: the first run long enough gives up its first k pages; none only if no run is; list, PG_property and nr_free stay canonical, and no descriptor's ref or reserved flag changes |
| FirstFit.FrameAllocator.TakeRun | cspro2014_os/ucore/lab3/kern/mm/default_pmm.c:117-128 | A run found by the search is unlinked or split; the list of runs loses exactly its first k pages, and no ref or reserved flag changes |
| FirstFit.FrameAllocator.LinkRest | cspro2014_os/ucore/lab3/kern/mm/default_pmm.c:119-124 | The rest of a split run takes the run's place in the list |
| FirstFit.FrameAllocator.ListDel | cspro2014_os/ucore/lab3/libs/list.h:91-94 | list_del takes one page out of the free list and changes only links |
| FirstFit.FrameAllocator.ListAddBefore | cspro2014_os/ucore/lab3/libs/list.h:66-69 | list_add_before puts a page in at any place of the list and changes only links |
| FirstFit.FrameAllocator.ListAdd | cspro2014_os/ucore/lab3/kern/mm/default_pmm.c:62-79 | default_list_add puts the block where it belongs; its asserts hold |
| FirstFit.FrameAllocator.MergeStep | cspro2014_os/ucore/lab3/kern/mm/default_pmm.c:145-159 | One turn of the merging loop advances the stage of the merge by one run |
| FirstFit.FrameAllocator.MergeNeighbours | cspro2014_os/ucore/lab3/kern/mm/default_pmm.c:143-160 | The merging loop ends with the block merged with every run it touches, and those out of the list |
| FirstFit.FrameAllocator.AbsorbHigh | cspro2014_os/ucore/lab3/kern/mm/default_pmm.c:147-152 | Merging with the run above: it leaves the list and the block grows by it |
| FirstFit.FrameAllocator.AbsorbLow | cspro2014_os/ucore/lab3/kern/mm/default_pmm.c:153-159 | Merging with the run below: that run grows and becomes the block |
| FirstFit.FrameAllocator.ClearRange | cspro2014_os/ucore/lab3/kern/mm/default_pmm.c:136-140 | The clearing loop touches exactly the freed pages |
| FirstFit.FrameAllocator.FreePages | cspro2014_os/ucore/lab3/kern/mm/default_pmm.c:132-162 | Freeing gives exactly the pages back, merged with the runs they touch; all other descriptors keep ref and flags |
| FirstFit.FreeUndoesAlloc | cspro2014_os/ucore/lab3/kern/mm/default_pmm.c:102-162 | Freeing what was just allocated restores the very list there was before |
| AllocatorRuns.BetweenIsPlace | cspro2014_os/ucore/lab3/kern/mm/default_pmm.c:62-79 | A block has one place in the ordered list |
| AllocatorRuns.AllocIsStep | cspro2014_os/ucore/lab3/kern/mm/default_pmm.c:102-129 | What AllocPages is proved to do is a first-fit step of a run, blocks in use included |
| AllocatorRuns.FreeIsStep | cspro2014_os/ucore/lab3/kern/mm/default_pmm.c:132-162 | What FreePages is proved to do is a free step of a run, blocks in use included |
| FrameClient.Call | cspro2014_os/ucore/lab3/kern/mm/default_pmm.c:102-162 | One alloc_pages or free_pages call on the descriptors, by a caller that frees what it was given, is Step on free list and blocks in use |
| FrameClient.Serve | cspro2014_os/ucore/lab3/kern/mm/default_pmm.c:62-162 | From page_init through init_memmap to the end of any sequence of calls, the descriptors and the caller's books are those of Run under first fit, so the results on runs hold of the linked list |
| AllocatorRuns.StepPartition | cspro2014_os/ucore/lab3/kern/mm/default_pmm.c:102-162 | Each call keeps every page free or in exactly one block in use |
| AllocatorRuns.RunPartition | cspro2014_os/ucore/lab3/kern/mm/default_pmm.c:102-162 | Every run of calls keeps every page free or in exactly one block in use, whichever run of pages the policy picks |
| AllocatorRuns.OnlyUseMatters | cspro2014_os/ucore/lab3/kern/mm/default_pmm.c:62-162 | Two runs that leave the same blocks in use leave equal free lists, whatever their order and policies |
| AllocatorRuns.AllFreedIsFresh | cspro2014_os/ucore/lab3/kern/mm/default_pmm.c:62-162 | When everything is freed again the list is the one run of init_memmap |
| SfsBlocks.OtherNode | cspro2014_os/ucore/lab8/tools/mksfs.c:397-426 | Pointer writes for one inode change no block number of another |
| SfsBlocks.PointersProvided | cspro2014_os/ucore/lab8/tools/mksfs.c:376-395 | A slot that is zero gets a fresh zeroed pointer block, any other keeps its own |
| SfsBlocks.DoubleLookups | cspro2014_os/ucore/lab8/tools/mksfs.c:413-421 | In the double-indirect range the new number is found at its place and all earlier ones stay |
| SfsBlocks.DoublePointers | cspro2014_os/ucore/lab8/tools/mksfs.c:413-421 | After an append in the double-indirect range exactly the leaf blocks that are needed exist, each used for its place |
| SfsBlocks.PlacePlaced | cspro2014_os/ucore/lab8/tools/mksfs.c:397-426 | In each of the three ranges the pointer writes add one number and keep the rest |
| SfsBlocks.PlaceReached | cspro2014_os/ucore/lab8/tools/mksfs.c:376-426 | Every pointer block made is reached from its inode |
| SfsBlocks.AppendBlocks | cspro2014_os/ucore/lab8/tools/mksfs.c:397-426 | append_block appends: the numbers looked up are the old ones and then the new one, for this inode, and unchanged for all others |
| SfsBlocks.AppendWhole | cspro2014_os/ucore/lab8/tools/mksfs.c:397-426 | append_block keeps every allocated block reached for its one use, pointer blocks included |
| SfsNodes.AddBlockGood | cspro2014_os/ucore/lab8/tools/mksfs.c:173-180 | Allocating, writing and appending a block: the effect on numbers, size and disk, with all invariants |
| SfsNodes.AddBlockFits | cspro2014_os/ucore/lab8/tools/mksfs.c:397-426 | A block can be added if and only if the inode has fewer than 32768 and the image has the blocks it takes, counted exactly with the pointer blocks |
| SfsNodes.NoBlockShared | cspro2014_os/ucore/lab8/tools/mksfs.c:173-180 | No block number belongs to two places: two lookups are equal only if inode and index are, and data blocks are never inode, pointer, bitmap or super blocks |
| SfsNodes.AddNodeGood | cspro2014_os/ucore/lab8/tools/mksfs.c:201-213 | A new inode keeps the invariants and takes a number never used |
| SfsNodes.AddLinkGood | cspro2014_os/ucore/lab8/tools/mksfs.c:436 | Counting a link, in 16 bits, keeps all invariants |
| SfsEntries.Pad | cspro2014_os/ucore/lab8/tools/mksfs.c:287-301 | write_block keeps the data and puts zeros in the rest of the block |
| SfsEntries.CString | cspro2014_os/ucore/lab8/kern/fs/sfs/sfs_inode.c:396-412 | The string at the front of a buffer: up to the first zero, and no zero inside |
| SfsEntries.LittleEndian | cspro2014_os/ucore/lab8/tools/mksfs.c:432-434 | Four bytes give the inode number back |
| SfsEntries.EntryReadsBack | cspro2014_os/ucore/lab8/tools/mksfs.c:428-438 | A directory entry reads back as number and name cut to 252 bytes, whatever the uncleared buffer held; so the name survives if and only if it has at most 252 bytes |
| SfsSteps.AddedKeeps | cspro2014_os/ucore/lab8/tools/mksfs.c:397-426 | A block added to one inode changes the reading of no other |
| SfsSteps.EntryAdded | cspro2014_os/ucore/lab8/tools/mksfs.c:428-438 | add_entry appends exactly one entry to its directory and changes no other reading; what it adds to the size is stated by SfsSizes.DirectorySizes |
| SfsSteps.BytesAdded | cspro2014_os/ucore/lab8/tools/mksfs.c:516-530 | open_file copies every byte of the file, in order |
| SfsSteps.FileAdded | cspro2014_os/ucore/lab8/tools/mksfs.c:449-457 | A host file met for the first time gets an inode with its bytes, met again it is shared; different files never share |
| SfsSteps.TargetAdded | cspro2014_os/ucore/lab8/tools/mksfs.c:532-542 | A link's inode holds its target |
| SfsRoundTrip.ShowsKept | cspro2014_os/ucore/lab8/tools/mksfs.c:439-447 | What a finished directory shows stays while its ancestors grow |
| SfsRoundTrip.TreeStep | cspro2014_os/ucore/lab8/tools/mksfs.c:439-465 | Copying one host entry adds at most one entry, whose inode shows the host tree |
| SfsRoundTrip.DirStep | cspro2014_os/ucore/lab8/tools/mksfs.c:466-514 | open_dir makes the directory show ".", ".." and then the visible host entries in order |
| SfsRoundTrip.WalkStep | cspro2014_os/ucore/lab8/tools/mksfs.c:474-512 | From any point on the readdir loop adds exactly entries that show the remaining visible host entries, in order |
| SfsImage.CreateGood | cspro2014_os/ucore/lab8/tools/mksfs.c:223-254 | create_sfs starts in order with an empty root directory |
| SfsImage.BitmapMarksFree | cspro2014_os/ucore/lab8/tools/mksfs.c:312-335 | The bit of block b is set if and only if b is free: next_ino <= b < ninos |
| SfsImage.BitmapCountsUnused | cspro2014_os/ucore/lab8/tools/mksfs.c:312-335 | The set bits of all bitmap blocks add up to super.unused_blocks |
| SfsImage.UsesApart | cspro2014_os/ucore/lab8/tools/mksfs.c:312-349 | Inode, pointer and data blocks never coincide and stay clear of superblock and bitmap |
| SfsImage.MountGives | cspro2014_os/ucore/lab8/tools/mksfs.c:312-349 | The blocks written by close_sfs hold every inode, pointer block and data block of the builder |
| SfsImage.ShownIsRead | cspro2014_os/ucore/lab8/kern/fs/sfs/sfs_inode.c:396-412 | A reader that follows entries from an inode gets back the tree the inode shows, even if it could take other blocks for inodes |
| SfsImage.BlocksCounted | cspro2014_os/ucore/lab8/tools/mksfs.c:227-231 | create_sfs uses all blocks of the file, or the maximum, if and only if the 32-bit counter holds their number or keeps enough of it to be cut |
| SfsImage.ReaderGets | cspro2014_os/ucore/lab8/tools/mksfs.c:466-560 | Any reader that takes the builder's inodes, pointer blocks and data blocks for what they are gets the host directory back |
| SfsImage.ImageRoundTrip | cspro2014_os/ucore/lab8/tools/mksfs.c:466-560 | Whenever an image is built from a host directory (exactly when, SfsRoom.BuildFits says), reading the written blocks from the root inode gives the directory back: names (cut to 252 bytes), bytes, links and sharing, hidden and special entries left out; two host files share an inode only if they are one file |
| SfsImage.BuildGood | cspro2014_os/ucore/lab8/tools/mksfs.c:544-560 | Whenever an image is built every block taken is reached for exactly one use |
| SfsBytes.InodeBack | cspro2014_os/ucore/lab8/tools/mksfs.c:135-144 | The 68 bytes of an inode decode to it, whatever follows them |
| SfsBytes.HalfWords | cspro2014_os/ucore/lab8/tools/mksfs.c:136-137 | type and nlinks, of two bytes each, lie as one little-endian word does |
| SfsBytes.WordsBack | cspro2014_os/ucore/lab8/tools/mksfs.c:303-306 | A pointer block's bytes decode to its 1024 numbers |
| SfsBytes.BitBack | cspro2014_os/ucore/lab8/tools/mksfs.c:327-330 | The bit set for block j is the one that bitmap_test reads |
| SfsBytes.BytesExtend | cspro2014_os/ucore/lab8/tools/mksfs.c:303-349 | In the bytes of a finished image every inode, pointer block and data block of the builder decodes to what the builder put there |
| SfsBytes.ByteRoundTrip | cspro2014_os/ucore/lab8/tools/mksfs.c:466-560 | The round trip through bytes: decoding the blocks of the image file from block 1 on gives the host directory back |
| SfsBytes.MountAccepts | cspro2014_os/ucore/lab8/kern/fs/sfs/sfs_fs.c:173-226 | sfs_do_mount accepts every image built: the magic number, no more blocks than the device has, and as many set bits as super.unused_blocks, which is asserted |
| SfsSizes.BlockSizes | cspro2014_os/ucore/lab8/tools/mksfs.c:398-426 | append_block counts one block and the size given, in its own inode alone |
| SfsSizes.TreeSizes | cspro2014_os/ucore/lab8/tools/mksfs.c:428-541 | Copying a host entry, with all below it, keeps 256 bytes an entry in every directory and one block in every link |
| SfsSizes.DirectorySizes | cspro2014_os/ucore/lab8/tools/mksfs.c:428-438 | In every finished image a directory has as many blocks as entries and 256 bytes for each entry |
| SfsSizes.DirectorySizeBytes | cspro2014_os/ucore/lab8/tools/mksfs.c:428-438 | And so say the first and the third word of its block |
| SfsLayout.FieldsOn | cspro2014_os/ucore/lab8/kern/fs/sfs/sfs.h:48-57 | Size, type, link count and number of blocks lie at bytes 0, 4, 6 and 8 of the inode's block |
| SfsLayout.NumberIs | cspro2014_os/ucore/lab8/tools/mksfs.c:376-396 | From the bytes alone, the numbers at bytes 12 to 68 of an inode lead to its blocks, in order, through one and two pointer blocks |
| SfsLayout.UnusedOn | cspro2014_os/ucore/lab8/tools/mksfs.c:206-207 | The places for numbers that an inode does not need are zero |
| SfsLayout.DataIs | cspro2014_os/ucore/lab8/tools/mksfs.c:516-541 | Each byte of a file or link is found there |
| SfsLayout.EntryIs | cspro2014_os/ucore/lab8/tools/mksfs.c:428-438 | So is each entry: inode number, the first 252 bytes of the name, and a zero |
| SfsLayout.TreeIs | cspro2014_os/ucore/lab8/tools/mksfs.c:467-541 | An inode that shows a host tree holds it byte for byte |
| SfsLayout.ImageHolds | cspro2014_os/ucore/lab8/tools/mksfs.c:467-558 | Every image built, read byte by byte from block 1 with every offset written out, holds the host directory: kinds, names, sizes, contents, and each host file once |
| SfsLayout.LinksOn | cspro2014_os/ucore/lab8/tools/mksfs.c:436 | The upper half of an inode's second word is the number of entries that name it, in 16 bits |
| SfsLayout.SuperOn | cspro2014_os/ucore/lab8/tools/mksfs.c:335 | The superblock holds the magic number, the number of blocks, that of the free ones, and the text |
| SfsLayout.BitmapOn | cspro2014_os/ucore/lab8/tools/mksfs.c:316-334 | The bit of a block is set if and only if the block is in no use; bits behind the image are clear |
| SfsReads.BytesAre | cspro2014_os/ucore/lab8/tools/mksfs.c:516-530 | Each byte of a file is the byte at its place in its block |
| SfsReads.ReadGives | cspro2014_os/ucore/lab8/kern/fs/sfs/sfs_inode.c:553-638 | A read of a part that holds bytes of the file stops the kernel if and only if it looks for a block beyond the 1036 it has pointers for; otherwise it gives as many bytes as the part has, the whole blocks in the middle from consecutive numbers |
| SfsReads.ReadAnswers | cspro2014_os/ucore/lab8/kern/fs/sfs/sfs_inode.c:553-575 | Every offset and length: -E_INVAL if and only if the offset is negative or not below 128 MB or the end is negative in 32 bits; no bytes if and only if the range holds none of the file, its end included; stopped if and only if a block is out of reach |
| SfsReads.EndPosIs | cspro2014_os/ucore/lab8/kern/fs/sfs/sfs_inode.c:556-561 | The signed 32-bit end of a read is in front of its start exactly if it overflows |
| SfsReads.RightBlocks | cspro2014_os/ucore/lab8/kern/fs/sfs/sfs_inode.c:619-624 | The whole blocks read at once are those of the file, number by number, if and only if no pointer block was taken between them |
| SfsReads.StraightBelow | cspro2014_os/ucore/lab8/kern/fs/sfs/sfs_inode.c:619-624 | Within 1036 blocks that is so if and only if they are all among the first thirteen or all after them |
| SfsReads.ReadRight | cspro2014_os/ucore/lab8/kern/fs/sfs/sfs_inode.c:553-638 | A read within reach whose whole blocks lie so gives exactly that part of the file |
| SfsReads.SmallReadRight | cspro2014_os/ucore/lab8/kern/fs/sfs/sfs_inode.c:553-638 | Reads of at most 4096 bytes are right wherever they start |
| SfsReads.KernelReadsImage | cspro2014_os/ucore/lab8/kern/fs/sfs/sfs_inode.c:553-638 | On the bytes of every image built the kernel reads any part of any file of at most 1036 blocks right, if its whole blocks are not on both sides of the first thirteen |
| SfsReads.PointersRead | cspro2014_os/ucore/lab8/kern/fs/sfs/sfs_inode.c:619-624 | Otherwise the file's pointer block is taken for block 13 of the file |
| SfsReads.ZerosMisread | cspro2014_os/ucore/lab8/kern/fs/sfs/sfs_inode.c:619-624 | So a file of zeros of fourteen blocks or more, read as a whole, never comes back, in any image |
| SfsReadLoop.ChunkRead | cspro2014_os/ucore/lab8/kern/fs/sysfile.c:75-98 | One turn of the loop of sysfile_read, of at most 4096 bytes, for every position: refused, nothing, stopped, or the bytes of the file |
| SfsReadLoop.SysfileRead | cspro2014_os/ucore/lab8/kern/fs/sysfile.c:60-107 | sysfile_read, in place: at every position and for every length the answer that one read would give if none were short and whole blocks never read at once; it stops the kernel exactly if a byte asked for lies beyond block 1036 |
| SfsReadLoop.ReadToEnd | cspro2014_os/ucore/lab8/kern/fs/sysfile.c:60-107 | Reads of any one length from the start until one gives nothing are the whole file, unless it has more than 1036 blocks |
| SfsReadLoop.ReadImageFile | cspro2014_os/ucore/lab8/kern/fs/sysfile.c:60-107 | So is every such file of every image built, from the bytes of the image |
| SfsLimits.WholeReadFails | cspro2014_os/ucore/lab8/kern/fs/sfs/sfs_inode.c:619-624 | Concrete failing case: an image with one file of 57344 zeros, read in one call |
| SfsImage.NamesSurvive | cspro2014_os/ucore/lab8/tools/mksfs.c:428-438 | All names come back whole if and only if none has more than 252 bytes |
| SfsLimits.LongNameCut | cspro2014_os/ucore/lab8/tools/mksfs.c:428-438 | Concrete failing case: a file with a name of 253 bytes; the image is built, and its reader finds the first 252 |
| SfsLinks.EntryIsOne | cspro2014_os/ucore/lab8/tools/mksfs.c:428-438 | add_entry adds one entry naming the inode and one, in 16 bits, to its link count, and nothing else to either |
| SfsLinks.OneEntryCounts | cspro2014_os/ucore/lab8/tools/mksfs.c:428-438 | Adding such an entry keeps every link count equal to the number of entries naming the inode, modulo 65536 |
| SfsLinks.FileIsNone | cspro2014_os/ucore/lab8/tools/mksfs.c:449-457 | Making and filling an inode adds no entry and no link |
| SfsLinks.TreeOk | cspro2014_os/ucore/lab8/tools/mksfs.c:439-514 | Copying a host entry, however deep, keeps the link counts right modulo 65536 |
| SfsLinks.LinksAreCounted | cspro2014_os/ucore/lab8/tools/mksfs.c:466-560 | In every finished image the link count of every inode is the number of directory entries that name it, dot entries included, modulo 65536: that number if and only if it is below 65536; no entry names a missing inode |
| SfsNames.EntryGains | cspro2014_os/ucore/lab8/tools/mksfs.c:428-438 | Entering an inode gives its host file one name, its directory one entry, and the inode one name |
| SfsNames.TreeGains | cspro2014_os/ucore/lab8/tools/mksfs.c:439-465 | Copying a host entry gives each host file the names it has there, and costs no directory its lead of entries over names |
| SfsNames.DirGains | cspro2014_os/ucore/lab8/tools/mksfs.c:466-514 | open_dir gives each host file the names it has among the items |
| SfsNames.FewEntries | cspro2014_os/ucore/lab8/tools/mksfs.c:397-426 | A directory has at most 32768 entries |
| SfsNames.NamesAreHosts | cspro2014_os/ucore/lab8/tools/mksfs.c:466-560 | In the image of one host file system a file's inode has as many entries as the file has visible names, and a directory or link has fewer than 65536 |
| SfsNames.LinkCountsRight | cspro2014_os/ucore/lab8/tools/mksfs.c:466-560 | All link counts of the image are right if and only if no host file has 65536 visible names or more; a file's count is the number of its names modulo 65536 |
| SfsLimits.CountWraps | cspro2014_os/ucore/lab8/tools/mksfs.c:436 | Concrete failing case: one empty file with 65536 names in three folders, no name twice in one; the image is built, the file has 65536 entries and a link count of 0 |
| SfsRoom.RoomStep | cspro2014_os/ucore/lab8/tools/mksfs.c:397-426 | The closed formula for data and pointer blocks of an inode grows as append_block takes blocks |
| SfsRoom.EntryFits | cspro2014_os/ucore/lab8/tools/mksfs.c:428-438 | add_entry succeeds exactly when the directory has fewer than 32768 entries and its block and pointer blocks fit, and takes exactly those |
| SfsRoom.BytesFit | cspro2014_os/ucore/lab8/tools/mksfs.c:516-530 | open_file succeeds exactly when the file needs at most 32768 blocks and they fit with their pointer blocks |
| SfsRoom.TreeFits | cspro2014_os/ucore/lab8/tools/mksfs.c:439-465 | Copying a host entry succeeds exactly when it is within the limits and its blocks fit |
| SfsRoom.WalkFits | cspro2014_os/ucore/lab8/tools/mksfs.c:474-512 | The same for the rest of a directory, from any point on |
| SfsRoom.BuildFits | cspro2014_os/ucore/lab8/tools/mksfs.c:223-254 | An image is built if and only if the blocks counted for its file, in 32 bits, are more than superblock and bitmap take, visible names have at most 255 bytes, link targets fewer than 4096, files and directories at most 32768 blocks, no folder is met twice, and the blocks, counted from the host tree alone, fit; it takes exactly those blocks |
| SfsRoom.BuildNarrow | cspro2014_os/ucore/lab8/tools/mksfs.c:135-144 | Every number in a built image fits the bytes it has on disk: sizes, counts, block numbers |
| SfsRoom.BytesLaid | cspro2014_os/ucore/lab8/tools/mksfs.c:516-530 | open_file lays the blocks of a new file out in order, with only its own pointer blocks between them |
| SfsRoom.BuildLaid | cspro2014_os/ucore/lab8/tools/mksfs.c:466-560 | So lies every file of every image built, at numbers that follow from its inode's |
| SfsLimits.LargeFileWraps | cspro2014_os/ucore/lab8/tools/mksfs.c:227-231 | Concrete failing case: an image file of 2^44 bytes counts as having no blocks and nothing can be built in it; with 409600 bytes more it makes an image of 100 blocks |
| MakeSfs.Sfs.constructor | cspro2014_os/ucore/lab8/tools/mksfs.c:223-254 | create_sfs builds the state Create describes |
| MakeSfs.Sfs.AllocIno | cspro2014_os/ucore/lab8/tools/mksfs.c:173-180 | sfs_alloc_ino is Take |
| MakeSfs.Sfs.WriteBlock | cspro2014_os/ucore/lab8/tools/mksfs.c:287-301 | write_block stores the padded data in one block |
| MakeSfs.Sfs.AllocCacheBlock | cspro2014_os/ucore/lab8/tools/mksfs.c:182-190 | A fresh zeroed pointer block, hung in chain 0 |
| MakeSfs.Sfs.SearchCacheBlock | cspro2014_os/ucore/lab8/tools/mksfs.c:192-199 | The chain search finds a block with the number, if the chain has one |
| MakeSfs.Sfs.AllocCacheInode | cspro2014_os/ucore/lab8/tools/mksfs.c:201-213 | A fresh inode at the head of its chain is AddNode |
| MakeSfs.Sfs.SearchCacheInode | cspro2014_os/ucore/lab8/tools/mksfs.c:214-221 | The chain search finds the image inode last made for a host inode, and nothing otherwise |
| MakeSfs.Sfs.UpdateCache | cspro2014_os/ucore/lab8/tools/mksfs.c:382-395 | All three branches; the chain is searched only if the cached block is not the one asked for |
| MakeSfs.Sfs.CurrentBlock | cspro2014_os/ucore/lab8/tools/mksfs.c:382-395 | As append_block uses it the cached block is right, so the search branch is never reached although new blocks hash under number 0 |
| MakeSfs.SingleCached | cspro2014_os/ucore/lab8/tools/mksfs.c:407-412 | The inode's cached l1 is its indirect block throughout that range |
| MakeSfs.DoubleCached | cspro2014_os/ucore/lab8/tools/mksfs.c:413-421 | In the double-indirect range l2 and l1 are the blocks the next append needs |
| MakeSfs.Sfs.AppendBlock | cspro2014_os/ucore/lab8/tools/mksfs.c:397-426 | append_block on cached blocks and inodes is Append, with no search |
| MakeSfs.Sfs.AppendIndirect | cspro2014_os/ucore/lab8/tools/mksfs.c:407-412 | The single-indirect branch of append_block is Place in that range |
| MakeSfs.Sfs.AppendDouble | cspro2014_os/ucore/lab8/tools/mksfs.c:413-421 | The double-indirect branch of append_block is Place in that range |
| MakeSfs.Sfs.FetchDouble | cspro2014_os/ucore/lab8/tools/mksfs.c:415 | The double-indirect block is the cached one or a new one, and l1 is ready for the next leaf |
| MakeSfs.Sfs.FetchLeaf | cspro2014_os/ucore/lab8/tools/mksfs.c:416-417 | The leaf block is the cached l1 or a new one entered in the double-indirect block |
| MakeSfs.Sfs.AddEntry | cspro2014_os/ucore/lab8/tools/mksfs.c:428-438 | add_entry is the function AddEntry, the stale name buffer included |
| MakeSfs.Sfs.OpenFile | cspro2014_os/ucore/lab8/tools/mksfs.c:516-530 | The read loop is AddBytes |
| MakeSfs.Sfs.FileInode | cspro2014_os/ucore/lab8/tools/mksfs.c:449-456 | The first half of add_file is the function AddFile |
| MakeSfs.Sfs.OpenLink | cspro2014_os/ucore/lab8/tools/mksfs.c:532-542 | The first half of add_link is AddTarget |
| MakeSfs.Sfs.AddFile | cspro2014_os/ucore/lab8/tools/mksfs.c:449-457 | add_file is AddTree of a plain file |
| MakeSfs.Sfs.AddLinkEntry | cspro2014_os/ucore/lab8/tools/mksfs.c:459-464 | add_link is AddTree of a link |
| MakeSfs.Sfs.AddDir | cspro2014_os/ucore/lab8/tools/mksfs.c:439-447 | add_dir is AddTree of a folder; it stops on a directory met before |
| MakeSfs.Sfs.CopyItems | cspro2014_os/ucore/lab8/tools/mksfs.c:474-512 | The readdir loop is the function Walk |
| MakeSfs.Sfs.OpenDir | cspro2014_os/ucore/lab8/tools/mksfs.c:466-514 | open_dir is the function OpenDir, recursion and all |
| MakeSfs.FillBitmap | cspro2014_os/ucore/lab8/tools/mksfs.c:318-332 | The bit-setting loop fills one bitmap block as BitmapBlock says |
| MakeSfs.Sfs.WriteBitmap | cspro2014_os/ucore/lab8/tools/mksfs.c:317-334 | After the bitmap loop every bitmap block is final and no other block has changed |
| MakeSfs.Sfs.FlushBlocks | cspro2014_os/ucore/lab8/tools/mksfs.c:338-342 | Every pointer block of a chain is written to its number |
| MakeSfs.Sfs.FlushInodes | cspro2014_os/ucore/lab8/tools/mksfs.c:343-347 | Every inode of a chain is written to its number |
| MakeSfs.Sfs.CloseSfs | cspro2014_os/ucore/lab8/tools/mksfs.c:312-349 | close_sfs leaves every block with the contents Written says |
| MakeSfs.CreateImage | cspro2014_os/ucore/lab8/tools/mksfs.c:544-560 | The whole program builds exactly when Build does, and writes its image |
| StabSearch.Turn | cspro2014_os/ucore/lab1/kern/debug/kdebug.c:70-97 | Every turn lowers a measure of range and address, for any table: the loop ends in spite of the exact-match step that keeps the range |
| StabSearch.Run | cspro2014_os/ucore/lab1/kern/debug/kdebug.c:70-97 | The loop ends with an empty range inside the table |
| StabSearch.ScanDown | cspro2014_os/ucore/lab1/kern/debug/kdebug.c:74-76 | The inner scan finds the last entry of the type at or below the middle |
| StabSearch.StabBinsearch | cspro2014_os/ucore/lab1/kern/debug/kdebug.c:64-110 | The two nested loops and the final scan compute Result of Run; no access leaves the table |
| StabSearch.TurnKeeps | cspro2014_os/ucore/lab1/kern/debug/kdebug.c:70-97 | In ordered tables where the address does not wrap and is not repeated beside an entry one above it, one turn keeps: entries left of the range are below the address, those right of it above, and the results bracket the range |
| StabSearch.AnswersAbove | cspro2014_os/ucore/lab1/kern/debug/kdebug.c:64-110 | In the same tables the answer is a linear scan's for some address k from the one sought upwards, with every address from the one sought up to k in the table |
| StabSearch.AnswersExactly | cspro2014_os/ucore/lab1/kern/debug/kdebug.c:64-110 | With no entry one above the address sought (nor at it, if it is the greatest address), it is the linear scan's answer for that address |
| StabSearch.HitFinds | cspro2014_os/ucore/lab1/kern/debug/kdebug.c:70-88 | Halving an ordered table, with no exact-match step, meets the address if and only if it is there |
| StabSearch.RunToHit | cspro2014_os/ucore/lab1/kern/debug/kdebug.c:70-97 | Up to its first exact match the search goes as that halving does, on every ordered table |
| StabSearch.AnswersIff | cspro2014_os/ucore/lab1/kern/debug/kdebug.c:64-110 | For every ordered table, repeats and wraps included, and every address: the answer is the linear scan's if and only if halving does not meet the address with an entry one above it still to its right (for 2^32 - 1: if and only if the address is not there; for 2^32 - 2: also if the entry before the next match happens to be the right one) |
| StabSearch.MetTwiceFails | cspro2014_os/ucore/lab1/kern/debug/kdebug.c:90-96 | If halving meets the address too soon, the answer is wrong |
| StabSearch.AnswersUnlessLowerFirst | cspro2014_os/ucore/lab1/kern/debug/kdebug.c:64-110 | In tables without repeated addresses: the answer is the linear scan's unless the address and the next one are both there and halving meets the lower of them first |
| StabSearch.NeighbourFound | cspro2014_os/ucore/lab1/kern/debug/kdebug.c:90-96 | Concrete failing case: entries at addr and addr + 1 end at the wrong one |
| StabSearch.TopAddress | cspro2014_os/ucore/lab1/kern/debug/kdebug.c:90-96 | The greatest address is answered for if and only if it is not in the table: otherwise the increment wraps and the entry is lost |
| ShiftDivision.EstimateClose | cspro2014_os/ucore/lab8/libs/mips32s.h:9-15 | Below 5368709122 the five shift-and-add steps leave a remainder of 0 to 15 |
| ShiftDivision.Overflows | cspro2014_os/ucore/lab8/libs/mips32s.h:9-15 | From 5368709122 on, for every number, the estimate is too small to be corrected: an addition overflows or the quotient is out of reach |
| ShiftDivision.TenDivExact | cspro2014_os/ucore/lab8/libs/mips32s.h:7-18 | Division by ten is right if and only if n < 5368709122, which lies above 2^32 |
| ShiftDivision.TenDivFails | cspro2014_os/ucore/lab8/libs/mips32s.h:7-18 | Concrete failing case: 5368709122 divided by ten comes to 67108864, remainder 402653186 |
| ShiftDivision.DoDiv | cspro2014_os/ucore/lab8/libs/mips32s.h:7-33 | The macro for every base, for all 64-bit numbers: 8, 16 and 2^31 exact, 10 exact below the limit, 3 and 1 for any other base |
| FormatText.Split | cspro2014_os/ucore/lab8/libs/mips32s.h:7-26 | Quotient and remainder in the three bases, as numbers and not as shifts |
| FormatText.PlainText | cspro2014_os/ucore/lab8/libs/printfmt.c:144-150 | Text without an escape stands for itself |
| FormatText.UnknownEscape | cspro2014_os/ucore/lab8/libs/printfmt.c:287-292 | An unknown escape is printed as it stands, although the code moves fmt backwards |
| FormatText.NumberLength | cspro2014_os/ucore/lab8/libs/printfmt.c:52-69 | A number takes max(width, digits) characters |
| FormatText.WordsDivide | cspro2014_os/ucore/lab8/libs/printfmt.c:78-110 | Whatever the format, arguments of 32 bits are all printed right in decimal: only a long long can be too large for the division by ten |
| ParseText.Strtol | cspro2014_os/ucore/lab8/libs/string.c:215-271 | The loops of strtol compute ParseLong |
| ParseText.WrapStep | cspro2014_os/ucore/lab8/libs/string.c:262-263 | Wrapping at every digit is wrapping once at the end |
| ParseText.DigitsRead | cspro2014_os/ucore/lab8/libs/string.c:240-264 | Reading the digits of n accumulates n, wrapped |
| ParseText.UnsignedRoundTrip | cspro2014_os/ucore/lab8/libs/string.c:215-271 | Reading %x, %o and %u text gives the value as a wrapped long and the end of the text, if and only if the padding is readable |
| ParseText.DecimalRoundTrip | cspro2014_os/ucore/lab8/libs/string.c:215-271 | Reading %d text gives the number and stops at the end if and only if no padding was printed, or zeros, or blanks before a number not negative (or a single '-' before zero); -2^31 included |
| ParseText.PaddedMinusFive | cspro2014_os/ucore/lab8/libs/string.c:215-271 | Concrete failing case: -5 in four places prints as a sign, three blanks and the digit, and does not read back |
| ParseText.PercentDReadsBack | cspro2014_os/ucore/lab8/libs/printfmt.c:244-252 | What "%d" prints for a 32-bit argument, strtol reads back |
| Numerals.DigitTable | cspro2014_os/ucore/lab8/libs/string.c:243-259 | A character is the digit k exactly if it stands at place k of the alphabet of small or of capital letters |
| Numerals.DigitsWorth | cspro2014_os/ucore/lab8/libs/string.c:240-264 | Digits of any base up to 36 are read to what they are worth place by place, kept to 32 bits |
| Numerals.StrtolReads | cspro2014_os/ucore/lab8/libs/string.c:215-271 | strtol in every base, 0 included: blanks and tabs, a sign or none, the prefix the base allows, digits, and whatever follows |
| Numerals.CapitalsRead | cspro2014_os/ucore/lab8/libs/string.c:243-259 | In every base capitals read as small letters do |
| Numerals.CapitalPrefixStops | cspro2014_os/ucore/lab8/libs/string.c:232-238 | A prefix with a capital X, which the comment allows, is none: reading stops after the zero |
| Numerals.BaseZeroReads | cspro2014_os/ucore/lab8/libs/string.c:231-238 | In base 0 every number is read back from its hexadecimal digits behind 0x, its octal ones behind 0, and its decimal ones |
| Numerals.DigitsNumeral | cspro2014_os/ucore/lab8/libs/printfmt.c:52-69 | The digits printed for a number are small, have no zero in front, and are worth the number |
| Numerals.NumeralUnique | cspro2014_os/ucore/lab8/libs/printfmt.c:52-69 | There is one such numeral for a number |
| FormatLaws.ExpandShift | cspro2014_os/ucore/lab8/libs/printfmt.c:142-294 | What is printed from a place in the format on depends on the rest of the format and of the arguments alone |
| FormatLaws.DirectiveRead | cspro2014_os/ucore/lab8/libs/printfmt.c:155-200 | Flags, width, precision and 'l's, written out or behind stars, are read as they were written |
| FormatLaws.DirectiveExpands | cspro2014_os/ucore/lab8/libs/printfmt.c:142-294 | A directive is done with at its conversion character, and the rest of the format is printed from the arguments left |
| FormatLaws.ConversionPrints | cspro2014_os/ucore/lab8/libs/printfmt.c:203-285 | Every conversion behind every directive: numbers as their numeral padded in front to the width, with the sign before it; strings cut to the precision and padded on the right side; characters; error messages |
| FormatLaws.PercentPrints | cspro2014_os/ucore/lab8/libs/printfmt.c:283-285 | '%%' is one percent sign and takes no argument |
| FormatLaws.CharacterPrints | cspro2014_os/ucore/lab8/libs/printfmt.c:143-148 | Any other character stands for itself in front of what follows |
| FormatLaws.PrintedReadsBack | cspro2014_os/ucore/lab8/libs/printfmt.c:245-280 | What %d, %u, %o and %x print of 32 bits, strtol reads back in their base to the end, if and only if the padding is none, or zeros, or blanks before no sign (or a single '-' that changes nothing) |
| FormatLaws.PointerReadsBack | cspro2014_os/ucore/lab8/libs/printfmt.c:267-272 | What %p prints is read back in base 16 and in base 0 if and only if the padding is none or zeros |
| FormatLaws.ZeroPrecisionLost | cspro2014_os/ucore/lab8/libs/printfmt.c:164-186 | A precision written as 0, behind any flags and width, cuts nothing, for it is read as the flag; every other numeral does, and so does 0 behind a star (ConversionPrints) |
| Printing.SprintBuf.constructor | cspro2014_os/ucore/lab8/libs/printfmt.c:347-353 | An empty buffer that keeps one place for the zero |
| Printing.SprintBuf.Putch | cspro2014_os/ucore/lab8/libs/printfmt.c:309-315 | sprintputch counts every character and keeps those that fit, writing nowhere else |
| Printing.SprintBuf.PutRepeat | cspro2014_os/ucore/lab8/libs/printfmt.c:62-65 | The padding loops print the character as often as asked, or not at all |
| Printing.PrintNum | cspro2014_os/ucore/lab8/libs/printfmt.c:52-69 | The recursive printnum prints the padded number text, for all 64-bit numbers in octal and hexadecimal, and in decimal for all that the division is right for |
| Printing.Strnlen | cspro2014_os/ucore/lab8/libs/string.c:32-39 | The length of a string, at most the limit |
| Printing.CopyString | cspro2014_os/ucore/lab8/libs/printfmt.c:231-238 | The copying loop with precision |
| Printing.PutString | cspro2014_os/ucore/lab8/libs/printfmt.c:221-242 | The %s conversion prints the string cut to the precision and padded to the width |
| Printing.PutDecimal | cspro2014_os/ucore/lab8/libs/printfmt.c:244-252 | The %d conversion prints the sign and then the padded magnitude |
| Printing.PutError | cspro2014_os/ucore/lab8/libs/printfmt.c:207-219 | The %e conversion prints the message for the error or its negative, or "error n" |
| Printing.PutConversion | cspro2014_os/ucore/lab8/libs/printfmt.c:202-285 | Every known conversion prints its text and uses its arguments, long long ones included |
| Printing.ScanNumber | cspro2014_os/ucore/lab8/libs/printfmt.c:168-176 | The digit loop reads the number and stops behind it |
| Printing.ScanFlags | cspro2014_os/ucore/lab8/libs/printfmt.c:155-200 | The switch on flags stops where the grammar says, with its settings |
| Printing.StepBack | cspro2014_os/ucore/lab8/libs/printfmt.c:287-292 | The backward loop stops just after the '%' and never before it |
| Printing.Vprintfmt | cspro2014_os/ucore/lab8/libs/printfmt.c:135-294 | For every format and arguments of 32 and 64 bits whose decimals are below 5368709122 the loop ends, stays within the format, and prints the text of Expand |
| Printing.Vsnprintf | cspro2014_os/ucore/lab8/libs/printfmt.c:347-359 | The buffer holds the first min(text, size - 1) characters and a zero, nothing beyond is written, and the count is returned as an int: that of the text if and only if it is below 2^31; a null buffer or size 0 gives -E_INVAL |
| Printing.CountOverflows | cspro2014_os/ucore/lab8/libs/printfmt.c:309-315 | Concrete failing case: two numbers of width 2147483647 are counted as -2 characters |
| Areas.NeighboursSuffice | cspro2014_os/ucore/lab3/kern/mm/vmm.c:109-138 | The two neighbour checks pass if and only if the new area overlaps none in the list |
| Areas.InsertSorted | cspro2014_os/ucore/lab3/kern/mm/vmm.c:109-138 | Inserting an area that passes the checks keeps the list ordered and free of overlaps |
| Areas.Mm.constructor | cspro2014_os/ucore/lab3/kern/mm/vmm.c:41-56 | An empty list of areas |
| Areas.Mm.FindPlace | cspro2014_os/ucore/lab3/kern/mm/vmm.c:115-122 | The walk stops after the last area that starts at or below the new one |
| Areas.Mm.Insert | cspro2014_os/ucore/lab3/kern/mm/vmm.c:109-138 | insert_vma_struct inserts at that place exactly when nothing overlaps, counts it, and leaves the kept area alone |
| Areas.Mm.Find | cspro2014_os/ucore/lab3/kern/mm/vmm.c:72-97 | find_vma with its one kept area returns the one area holding the address, or none, as the walk alone would |
| RoundRobin.Scheduler.FindNext | cspro2014_os/ucore/lab4/kern/schedule/sched.c:21-32 | The do-while over the ring stops after at most one turn with the first runnable process, or idle |
| RoundRobin.Scheduler.Schedule | cspro2014_os/ucore/lab4/kern/schedule/sched.c:14-39 | schedule takes the request to reschedule from the process that ran, runs the chosen one and counts it, in an int; nothing else of any process changes |
| RoundRobin.Nearer | cspro2014_os/ucore/lab4/kern/schedule/sched.c:21-32 | A runnable process is chosen or comes nearer |
| RoundRobin.RunsWithinRank | cspro2014_os/ucore/lab4/kern/schedule/sched.c:14-39 | A process that stays runnable is chosen within as many calls as processes lie before it |
| RoundRobin.RoundRobinFair | cspro2014_os/ucore/lab4/kern/schedule/sched.c:14-39 | Among n calls on a list of n processes, one that stays runnable is chosen at least once, whatever the others do |
| RoundRobin.IdleOnlyAlone | cspro2014_os/ucore/lab4/kern/schedule/sched.c:29-31 | The idle process is chosen if and only if no process is runnable |

## Left out

- Swap: swap_init_ok is 0 throughout, for the bodies of swapfs_read and swapfs_write are commented out.
- More than one page directory: load_pgdir resets the TLB but leaves TLB_P bits behind, so one directory is loaded once.
- The self-map entry of the page directory and kernel segments that bypass the TLB.
- Permission bits other than PTE_W and PTE_U in the state machine of `Paging`; these two are the ones callers pass, and `TlbWords.MapWord` says what any others would do.
- The lookup of the memory area inside do_pgfault: the area is a parameter there, and find_vma is proved apart in `Areas`.
- The page allocator under kmalloc: its answers are parameters, fresh and away from the static arena; in `HeapClient` an answer that is not counts as a refusal. Of a record's three words the list pointer is a sequence.
- Frame allocation under paging: a policy that picks some free frame. Where none is left for a page table the code writes to a field of a record at address 0; the model ends there, also if a writable area covers that address.
- slob_alloc with an alignment: kmalloc always passes 0.
- Kmalloc.Slob.SlobAlloc: a request that is not larger than the smallest block on the ring; kmalloc makes one only for 0 bytes, and `Kmalloc.Slob.UnlinkBlock` and `Kmalloc.Slob.SlobFree` say what happens to the ring then.
- KernelHeap.Heap.Kmalloc: requests of 0 bytes are shown at the level of the ring only (`SlobRing.ArenaHandedOutTwice`), because the arena then has two owners and no invariant is left.
- HeapClient.Serve: the same; it makes no request of 0 bytes.
- Locks and interrupt masking; every operation is one step.
- More than one init_memmap of the page allocator.
- MakeSfs.CreateImage: blocks are records, lists of numbers and flags while the image is being built; `SfsBytes` says which bytes they are.
- The kernel's directory operations and writes, its caches of inodes and blocks, and its locks: of its file system `SfsReads` and `SfsReadLoop` have the read of a file, without the copy to the user's memory, `SfsBytes` the checks of the mount; the readers of whole trees follow every pointer, also those of directories over 1036 entries, at which the kernel stops.
- MakeSfs.Sfs.OpenFile: short reads in mid-file, against which the code has an assert, do not occur; a host file is its bytes.
- Host errors while building an image (open, stat, read), the messages that name the current path, and the chdir calls; the host tree is a value.
- SfsImage.ImageRoundTrip: host inode numbers name files uniquely, as on one host filesystem, and none is 0; across mount points the builder would take two files with one number for the same.
- SfsNames.LinkCountsRight: the same one host filesystem; `SfsLinks.LinksAreCounted` holds of any tree.
- MakeSfs.Sfs.AllocCacheBlock: the cached blocks of a chain are a sequence, not a list through hash_next; the same for inodes.
- Printing.Vsnprintf: long long arguments from 5368709122 up in decimal, for which the division fails (`ShiftDivision.TenDivExact`) and the remainder need not be a digit. Widths and precisions do not overflow an int, and the count, a signed int, is taken to wrap. An argument of the wrong kind or missing reads as 0 or as "(null)".
- Printing.Vprintfmt: the same arguments as for Vsnprintf.
- Printing.PutConversion: the same arguments as for Vsnprintf.
- Printing.PrintNum: decimal numbers from 5368709122 up.
- Printing.PutError: the messages are a parameter; for -2^31, whose negation overflows, the code reads outside its table.
- ParseText.Strtol: characters are those of the C locale; a null endptr is not modelled.
- RoundRobin.Scheduler.Schedule: the counter of runs, a signed int, is taken to wrap; the process list is fixed, and context switch and interrupts are left out; states change between calls as they like.
- Areas.Mm.Insert: the list through list_link is a sequence (the pointer operations are in `FrameList`), and a failed assert is a refusal.
- Console output, the kernel monitor, user programs, the ELF loader, the other string functions, hash and rand, disas.py and the CPLD files: input and output, or easy members.
