# CS162 homework cores in Dafny

This project models the central algorithms of a set of CS162 operating-systems
homeworks and proves properties of them:

- **Page walk (hw6, `mmu.c`).** `virt_to_phys` translates a 32-bit virtual
  address through the three levels of x86 PAE paging: a PDPT entry, a page
  directory entry, then a page table entry. `str_from_virt` reads a C string
  byte by byte through that walk into a buffer that doubles as it fills.
- **Pintos user allocator (hw6, `lib/user/stdlib.c`).** A first-fit `malloc`
  over a list of blocks obtained from `sbrk`, each with a 16-byte header. A
  large block is split; `free` merges a block with the free run around it,
  found by walking the `prev` and `next` links. `realloc` and `calloc` are built
  on the other two. The global `tail` pointer is modelled on its own. The
  headers' links are modelled twice: as the list they are meant to form, and as
  the values the code actually stores in them.
- **First-fit allocator (hw5, `mm_alloc.c`).** `mm_malloc` and `mm_free` with
  32-byte headers. `mm_realloc` and `coalesce` are stubs in this version.
- **Pintos system calls (hw6, `userprog/syscall.c`).** `syscall_handler`
  checks the user stack and the buffer and string arguments before
  dispatching. Then come `open`, `write`, `read` and `close`, working on the
  one-file descriptor table. `sbrk` maps and unmaps the heap's pages.
- **Word counting (hw0 `words`, hw2 `pwords`).** The tokenizer of
  `num_words` and `count_words`, and the comparator `wordcount_less`. Two
  lists are modelled: hw0's sentinel-headed word list and hw2's lock-protected
  Pintos list.
- **Shell (hw3, `shell.c`).** Lookup and execution of the builtins. `main`
  decides per line between a builtin, a redirection, a pipeline and a plain
  program. `exec_pipe` cuts the line at `|` tokens, and `exec_full_path`
  builds the PATH candidates.

The model uses pure functions over immutable values. A linked list is the
sequence of its nodes in `next` order. Machine integers are unbounded `int`s
with explicit wrap-around where the source relies on it (`ints.dfy`).
Whatever the kernel, the C library or the hardware would answer (`sbrk`
success, `palloc_get_page`, `pagedir_set_page`, `filesys_open`, `malloc`
success, `getcwd`, `chdir`, the contents of RAM) is a parameter of the
function that needs it.

Files:

| file | contents |
|---|---|
| `wrappers.dfy` | `Option` |
| `ints.dfy` | byte and 32/64-bit integer ranges, 32-bit wrap-around |
| `runs.dfy` | maximal runs of a sequence: the shape of both the word tokenizer and `strtok` |
| `tally.dfy` | first-match search and sums over a list |
| `mmu.dfy` | the page walk and the string read through it |
| `heap.dfy` | the block layout shared by both allocators: footprint, memory image, content addresses, first fit, split |
| `user_malloc.dfy` | the Pintos `malloc`, `free` (with coalescing), `realloc`, `calloc` |
| `linked_malloc.dfy` | the Pintos `malloc` and `free` over headers in memory, with each `prev` and `next` link as the code stores it |
| `tail_pointer.dfy` | the Pintos allocator's `tail` pointer as the source keeps it, against the intended one |
| `mm_alloc.dfy` | the hw5 `mm_malloc`, `mm_free`, `mm_realloc` |
| `syscall.dfy` | argument validation, the file calls, `sbrk`, the handler |
| `words.dfy` | tokenizer, `num_words`, `count_words`, `strcmp`, `wordcount_less` |
| `word_count.dfy` | the hw0 sentinel-headed list |
| `word_count_p.dfy` | the hw2 locked list |
| `shell.dfy` | builtins, line classification, pipeline segments, PATH search |

## Model

| member | source | states |
|---|---|---|
| Mmu.PdptIndex | hw6/hw6-pt-starter/src/mmu.c:45 | the PDPT index (bits 31-30) selects one of the 4 PDPT entries |
| Mmu.PdIndex | hw6/hw6-pt-starter/src/mmu.c:46 | `(vaddr & PDE_MASK) >> 21` selects one of 512 page-directory entries |
| Mmu.PtIndex | hw6/hw6-pt-starter/src/mmu.c:47 | `(vaddr & PTE_MASK) >> 12` selects one of 512 page-table entries |
| Mmu.PageOffset | hw6/hw6-pt-starter/src/mmu.c:49 | the offset lies within one 4096-byte page |
| Mmu.Frame | hw6/hw6-pt-starter/src/mmu.c:70 | `entry & PFN_MASK` is a page-aligned frame address below 2^52: the entry with bits 63-52 and 11-0 cleared |
| Mmu.FrameKeepsHighBits | hw6/hw6-pt-starter/src/mmu.c:30 | the mask keeps bits 51-48: an entry 0x1_0000_0000_0001 names the frame at 2^48 |
| Mmu.SplitRoundTrip | hw6/hw6-pt-starter/src/mmu.c:45-49 | the four fields partition the virtual address: recombined, they give it back |
| Mmu.Pde | hw6/hw6-pt-starter/src/mmu.c:69-73 | the page-directory entry the walk loads: entry `pde_idx` of the table at the PDPT entry's frame (a definition; `Mmu.Translate` and `Mmu.TranslateReadsOnlyItsPath` state what the walk does with it) |
| Mmu.Pte | hw6/hw6-pt-starter/src/mmu.c:77-81 | the page-table entry the walk loads: entry `pte_idx` of the table at the PDE's frame (a definition, used by `Mmu.Translate`) |
| Mmu.FrameAddress | hw6/hw6-pt-starter/src/mmu.c:91-94 | `(pte & PFN_MASK) \| offset` keeps the virtual page offset and takes the page number from the PTE's frame |
| Mmu.Translate | hw6/hw6-pt-starter/src/mmu.c:58-95 | the walk faults iff one of the three entries on its path has its present bit clear; otherwise the result is the PTE's frame plus the page offset |
| Mmu.VirtToPhys | hw6/hw6-pt-starter/src/mmu.c:41-96 | returns 1 exactly on a fault, leaving `*paddr` untouched; returns 0 with the translated address otherwise |
| Mmu.SamePageSameFrame | hw6/hw6-pt-starter/src/mmu.c:45-94 | two addresses on one virtual page fault together or map to one physical frame, each at its own offset |
| Mmu.TranslateReadsOnlyItsPath | hw6/hw6-pt-starter/src/mmu.c:58-85 | the result depends only on the entries the walk reads, up to the first absent one |
| Mmu.ReadFrom | hw6/hw6-pt-starter/src/mmu.c:104-117 | the byte-by-byte read from index `i` with a bound on the bytes looked at (a definition; `Mmu.ReadFromIsString` and `Mmu.ReadFromFaults` state its result) |
| Mmu.ReadFromIsString | hw6/hw6-pt-starter/src/mmu.c:104-117 | a successful read returns exactly the translated bytes up to and including the first NUL, and any such string within the bound is what is read |
| Mmu.ReadFromFaults | hw6/hw6-pt-starter/src/mmu.c:104-108 | the read returns NULL exactly when some byte faults before any NUL is seen |
| Mmu.ReadString | hw6/hw6-pt-starter/src/mmu.c:104-118 | the doubling-buffer loop computes that read, its buffer stays a power of two and strictly longer than the string |
| Mmu.StrFromVirt | hw6/hw6-pt-starter/src/mmu.c:98-119 | `str_from_virt` returns the C string at `vaddr` through the page walk, or NULL exactly when a byte before the NUL faults |
| Heap.Zeros | hw6/hw6-pintos-starter/src/lib/user/stdlib.c:23-28 | `zero_fill` leaves `n` zero bytes |
| Heap.FlattenLength | hw6/hw6-pintos-starter/src/lib/user/stdlib.c:7-21 | the memory image of the blocks, headers included, is exactly as long as the region they occupy |
| Heap.ContentInImage | hw6/hw6-pintos-starter/src/lib/user/stdlib.c:18-21 | the contents of each block sit in the memory image at the address `get_content_addr` returns |
| Heap.ContentAddrIncreasing | hw6/hw6-pintos-starter/src/lib/user/stdlib.c:18-21 | with non-empty headers, content addresses strictly increase along the list |
| Heap.Locate | hw6/hw6-pintos-starter/src/lib/user/stdlib.c:148 | `ptr - sizeof(metadata_t)` finds the block whose contents start at `ptr`, or none when no block starts there |
| Heap.LocateContent | hw6/hw6-pintos-starter/src/lib/user/stdlib.c:148 | every block is found again from the pointer handed out for it |
| Heap.FirstFit | hw6/hw6-pintos-starter/src/lib/user/stdlib.c:45-55 | the earliest free block whose recorded size covers the request; none exactly when no block fits |
| Heap.Split | hw6/hw6-pintos-starter/src/lib/user/stdlib.c:30-42 | a split block becomes an in-use front and a free remainder that occupy exactly the original block's region |
| Heap.SplitAt | hw6/hw6-pintos-starter/src/lib/user/stdlib.c:30-42 | splitting block `i` keeps every other block and the footprint, zero-fills the front, keeps the remainder's bytes, and preserves exact sizes and the no-two-free-neighbours invariant |
| Heap.Grow | hw6/hw6-pintos-starter/src/lib/user/stdlib.c:116-125 | the `sbrk` path appends one zero-filled in-use block of the request's size, growing the region by a header plus the request and keeping the invariants |
| Heap.FlattenIgnoresHeaders | hw6/hw6-pintos-starter/src/lib/user/stdlib.c:7-16 | the memory image depends only on the blocks' contents, not on their sizes or free flags |
| UserMalloc.TakeWhole | hw6/hw6-pintos-starter/src/lib/user/stdlib.c:131-135 | a barely-fitting block is marked in use and zero-filled, keeping its recorded size, the footprint and the invariants |
| UserMalloc.Malloc | hw6/hw6-pintos-starter/src/lib/user/stdlib.c:89-139 | NULL exactly for a zero request or a miss with `sbrk` failing, with the heap unchanged; otherwise the first fit is split into a zeroed block of exactly the request and a free remainder of its size less the request and a header, or taken whole keeping its size, or a zeroed block of exactly the request is appended; the blocks before and after the slot are unchanged; exact sizes and no-adjacent-free are kept |
| UserMalloc.RunStart | hw6/hw6-pintos-starter/src/lib/user/stdlib.c:65-67 | the `prev` walk stops at the first block of the maximal free run |
| UserMalloc.RunEnd | hw6/hw6-pintos-starter/src/lib/user/stdlib.c:69-71 | the `next` walk stops at the last block of the maximal free run |
| UserMalloc.MergedSizeExact | hw6/hw6-pintos-starter/src/lib/user/stdlib.c:79-84 | the size summed by `coalesce` is the first block's size plus the region of the others |
| UserMalloc.MergeImage | hw6/hw6-pintos-starter/src/lib/user/stdlib.c:79-86 | the merged block has exactly the run's memory image and an exact size |
| UserMalloc.MarkFree | hw6/hw6-pintos-starter/src/lib/user/stdlib.c:149 | only the free flag of the released block changes |
| UserMalloc.Coalesce | hw6/hw6-pintos-starter/src/lib/user/stdlib.c:57-87 | the maximal free run around block `i` replaced by one merged block (a definition; `UserMalloc.CoalesceLength`, `UserMalloc.CoalesceImage`, `UserMalloc.CoalesceNoAdjacent`, `UserMalloc.CoalesceUsed` and `UserMalloc.CoalesceCovers` state its result) |
| UserMalloc.CoalesceAlone | hw6/hw6-pintos-starter/src/lib/user/stdlib.c:75-77 | with no free neighbour, `coalesce` leaves the heap unchanged |
| UserMalloc.CoalesceLength | hw6/hw6-pintos-starter/src/lib/user/stdlib.c:57-87 | coalescing removes all but one block of the run and keeps the blocks before it |
| UserMalloc.MergeRange | hw6/hw6-pintos-starter/src/lib/user/stdlib.c:79-86 | replacing a run by its merge keeps the memory image and exact sizes |
| UserMalloc.CoalesceImage | hw6/hw6-pintos-starter/src/lib/user/stdlib.c:57-87 | coalescing never moves or changes a byte of memory and keeps the footprint |
| UserMalloc.CoalesceNoAdjacent | hw6/hw6-pintos-starter/src/lib/user/stdlib.c:57-87 | after coalescing, no two free blocks are neighbours |
| UserMalloc.Free | hw6/hw6-pintos-starter/src/lib/user/stdlib.c:141-151 | NULL is ignored; otherwise the memory image and footprint are unchanged, the released area lies inside one free block, and no two free blocks end up side by side |
| UserMalloc.MarkFreeUsed | hw6/hw6-pintos-starter/src/lib/user/stdlib.c:149 | marking a block free drops exactly that block from the blocks in use |
| UserMalloc.CoalesceUsed | hw6/hw6-pintos-starter/src/lib/user/stdlib.c:57-87 | merging a free run around a block keeps the blocks in use, in order |
| UserMalloc.FreeKeepsUsed | hw6/hw6-pintos-starter/src/lib/user/stdlib.c:141-151 | `free` of one block leaves every other block in use exactly as it was, in order: no live block is merged into free space |
| LinkedMalloc.FindFit | hw6/hw6-pintos-starter/src/lib/user/stdlib.c:45-55 | the first-fit walk along `next` yields a whole header that is free and at least the request, or NULL; a NULL start yields NULL |
| LinkedMalloc.RunHead | hw6/hw6-pintos-starter/src/lib/user/stdlib.c:65-67 | the backward walk along `prev` ends at a whole header at or below its start |
| LinkedMalloc.RunTail | hw6/hw6-pintos-starter/src/lib/user/stdlib.c:69-71 | the forward walk along `next` ends at a whole header at or above its start |
| LinkedMalloc.SpanTo | hw6/hw6-pintos-starter/src/lib/user/stdlib.c:79-83 | the summed sizes and headers on the walk from the run's head stay below the run's tail, and a non-empty walk counts at least a header |
| LinkedMalloc.ListFrom | hw6/hw6-pintos-starter/src/lib/user/stdlib.c:45-55 | every entry of the list walked from a pointer is the whole header stored at its address |
| LinkedMalloc.First | hw6/hw6-pintos-starter/src/lib/user/stdlib.c:101-111 | on an empty list, `sbrk`'s old break gets an in-use header with NULL links, `head` and `tail` name it, and the contents pointer follows it |
| LinkedMalloc.Extend | hw6/hw6-pintos-starter/src/lib/user/stdlib.c:116-125 | after a miss, the new header at the old break has `prev = tail`, the old `tail` gets it as `next`, `tail` moves to it and `head` stays; undefined exactly when `tail` holds no whole header |
| LinkedMalloc.SplitLarge | hw6/hw6-pintos-starter/src/lib/user/stdlib.c:30-42 | the front block shrinks to the request and points at a new free header for the rest, whose `prev` is the front block and `next` the old `next`; no header outside the split block changes, so the old `next` keeps its `prev` |
| LinkedMalloc.Malloc | hw6/hw6-pintos-starter/src/lib/user/stdlib.c:89-139 | NULL exactly for a zero request or a miss without `sbrk`; a returned pointer follows a whole in-use header of at least the request. On a first fit at `f` the pointer is `f` + 16, `head`, `tail`, the break and every header clear of the fit stay. A split gives the fit the request's size, in use, `next` at the new header; that header is free, holds the rest less 16 bytes, and links back to the fit and on to the old `next`. A fit too small to split only loses its free flag. An empty list takes `First`'s path, a miss with `sbrk` `Extend`'s, and a walk that meets a non-header is undefined |
| LinkedMalloc.Coalesce | hw6/hw6-pintos-starter/src/lib/user/stdlib.c:57-87 | `head`, `tail` and the break stay, the block keeps its free flag, and every whole header afterwards was whole before with the same `prev` and free flag; what the merge writes is `CoalesceMerges` |
| LinkedMalloc.CoalesceMerges | hw6/hw6-pintos-starter/src/lib/user/stdlib.c:57-87 | a run that is the block alone changes nothing; otherwise the run's first header gets the span up to the last block plus that block's size, and the last block's `next`, while every cell clear of the first header stays, the merged headers included; a walk or a span that meets a non-header is undefined |
| LinkedMalloc.Free | hw6/hw6-pintos-starter/src/lib/user/stdlib.c:141-151 | NULL changes nothing; a pointer with no whole header 16 bytes before it is undefined; otherwise that header ends whole and free, every other free flag and every `prev` link is as before, and `head`, `tail` and the break stay |
| LinkedMalloc.FreeMerges | hw6/hw6-pintos-starter/src/lib/user/stdlib.c:141-151 | `free` sets the header's free flag and then merges as `coalesce` does from that block: the run's first header takes the run's span and the last block's `next`, and every cell clear of it stays |
| LinkedMalloc.Step | hw6/hw6-pintos-starter/src/lib/user/stdlib.c:89-151 | one call of a program, with `sbrk` always succeeding, keeps every header within the break and its links ordered; `free` returns nothing and `malloc` returns NULL exactly for a zero request |
| LinkedMalloc.Put | hw6/hw6-pintos-starter/src/lib/user/stdlib.c:36-41 | a header store at `x` (no contract of its own): the header there becomes whole, headers clear of [x, x + 16) keep their cells, and any header overlapping it is no longer whole |
| LinkedMalloc.Run | hw6/hw6-pintos-starter/src/lib/user/stdlib.c:89-151 | a program of calls from a valid state either hits undefined behaviour or ends in a valid state with one result per call |
| LinkedMalloc.FreeLeavesFreeNeighbours | hw6/hw6-pintos-starter/src/lib/user/stdlib.c:30-42 | malloc(100), malloc(8), free, malloc(8), free: the split leaves the second block's `prev` naming the in-use front block, so the list ends with two free blocks side by side |
| LinkedMalloc.FreeSwallowsLiveBlock | hw6/hw6-pintos-starter/src/lib/user/stdlib.c:57-87 | adding malloc(76) and freeing the front block before the last `free`: the stale `prev` leads `coalesce` over an in-use block, and the list becomes one free block of 124 bytes that covers the 76 bytes handed out at 40 |
| UserMalloc.CoalesceCovers | hw6/hw6-pintos-starter/src/lib/user/stdlib.c:57-87 | the released block's contents lie inside one free block after coalescing |
| UserMalloc.CoverMerged | hw6/hw6-pintos-starter/src/lib/user/stdlib.c:79-86 | the merged block covers the contents of every block of its run |
| UserMalloc.FreeAt | hw6/hw6-pintos-starter/src/lib/user/stdlib.c:146-150 | `free` of a block's content address marks that very block free and coalesces around it |
| UserMalloc.SplitThenFree | hw6/hw6-pintos-starter/src/lib/user/stdlib.c:30-42 | freeing the front of a split merges it back into a block of the original size and flags |
| UserMalloc.WholeThenFree | hw6/hw6-pintos-starter/src/lib/user/stdlib.c:131-135 | freeing a block that was taken whole restores the heap's shape |
| UserMalloc.MallocThenFree | hw6/hw6-pintos-starter/src/lib/user/stdlib.c:89-151 | `free` of what `malloc` carved out of a free block gives back the heap's shape of sizes and free flags |
| UserMalloc.Store | hw6/hw6-pintos-starter/src/lib/user/stdlib.c:18-21 | a program's write of one byte through the contents pointer a block hands out changes exactly that byte of the heap's memory image and keeps every block's size and free flag |
| UserMalloc.CopyInto | hw6/hw6-pintos-starter/src/lib/user/stdlib.c:180 | `memcpy` into a block replaces its first bytes and changes no other block |
| UserMalloc.Realloc | hw6/hw6-pintos-starter/src/lib/user/stdlib.c:162-181 | NULL pointer means `malloc`; size 0 means `free` and NULL; otherwise the old block is freed first, and the result is NULL exactly when the following `malloc` fails, leaving the heap with the old block freed (lines 175-178, where C's `realloc` would keep the block); a new block starts with the old block's first min(size, old size) bytes |
| UserMalloc.ReallocAsWritten | hw6/hw6-pintos-starter/src/lib/user/stdlib.c:172-180 | the source's order (free, malloc, then memcpy from the old address) returns the same pointer as the intended `realloc` |
| UserMalloc.MallocEight | hw6/hw6-pintos-starter/src/lib/user/stdlib.c:101-111 | the first `malloc(8)` on an empty heap gives one zeroed block at offset 16 |
| UserMalloc.SevenFreed | hw6/hw6-pintos-starter/src/lib/user/stdlib.c:146-150 | freeing a lone block marks it free and keeps its bytes |
| UserMalloc.TakeBackWhole | hw6/hw6-pintos-starter/src/lib/user/stdlib.c:131-135 | a lone free block of the requested size is handed out whole and zeroed |
| UserMalloc.ReallocSevenReuses | hw6/hw6-pintos-starter/src/lib/user/stdlib.c:175-176 | `realloc` to the same size frees the block and gets the same block back from `malloc` |
| UserMalloc.ReallocAsWrittenSeven | hw6/hw6-pintos-starter/src/lib/user/stdlib.c:172-180 | the source's `realloc` in place loses the stored byte: it comes back as the zero `malloc` wrote |
| UserMalloc.ReallocSeven | hw6/hw6-pintos-starter/src/lib/user/stdlib.c:162-181 | the intended `realloc` to the same size keeps the stored byte |
| UserMalloc.ReallocMoves | hw6/hw6-pintos-starter/src/lib/user/stdlib.c:172-180 | the intended `realloc` copies the bytes saved from the old block into the new one |
| UserMalloc.ReallocAsWrittenMoves | hw6/hw6-pintos-starter/src/lib/user/stdlib.c:172-180 | the source's `realloc` copies whatever the old address holds after `malloc` has run |
| UserMalloc.Calloc | hw6/hw6-pintos-starter/src/lib/user/stdlib.c:153-160 | NULL exactly when a count is zero or `malloc` of `nmemb * size` bytes fails; otherwise a zero-filled block of at least `nmemb * size` bytes |
| UserMalloc.CallocAsWritten | hw6/hw6-pintos-starter/src/lib/user/stdlib.c:153-160 | the source's `calloc`: NULL exactly when a count is zero or the request fails; otherwise a zero-filled block of at least `nmemb * sizeof(void *)` bytes, whatever the element size |
| UserMalloc.CallocIgnoresSize | hw6/hw6-pintos-starter/src/lib/user/stdlib.c:158 | one 8-byte element gets a 4-byte block from the source's `calloc`, 8 bytes from the intended one |
| TailPointer.Last | hw6/hw6-pintos-starter/src/lib/user/stdlib.c:4 | `tail` names the last block, or is NULL on an empty list |
| TailPointer.MallocAsWritten | hw6/hw6-pintos-starter/src/lib/user/stdlib.c:116-130 | the source's `malloc` links a new block after `tail` and does not move `tail` on a split; while `tail` is the last block it builds the list `Malloc` builds |
| TailPointer.FreeAsWritten | hw6/hw6-pintos-starter/src/lib/user/stdlib.c:141-151 | the source's `free` coalesces as `Free` does and leaves `tail` where it was |
| TailPointer.MallocTracked | hw6/hw6-pintos-starter/src/lib/user/stdlib.c:89-139 | the intended `malloc` keeps every byte from `sbrk` inside a listed block and `tail` on the last block |
| TailPointer.FreeTracked | hw6/hw6-pintos-starter/src/lib/user/stdlib.c:141-151 | the intended `free` keeps the same accounting |
| TailPointer.MallocAgreesWhileAccounted | hw6/hw6-pintos-starter/src/lib/user/stdlib.c:122-130 | while `tail` is right, the source's `malloc` agrees with the intended one; `tail` goes stale exactly when the last block is split |
| TailPointer.FreeAgreesWhileAccounted | hw6/hw6-pintos-starter/src/lib/user/stdlib.c:57-87 | while `tail` is right, the source's `free` agrees with the intended one; `tail` goes stale exactly when the merge swallows the last block into an earlier one |
| TailPointer.TailAfterMerge | hw6/hw6-pintos-starter/src/lib/user/stdlib.c:79-86 | where the intended `tail` goes when blocks [a, b] merge into a: kept before a, gone inside the run, shifted down past it (a definition; `TailPointer.TailCompare` compares it with the stale `tail`) |
| TailPointer.TailCompare | hw6/hw6-pintos-starter/src/lib/user/stdlib.c:85-86 | the stale and the intended `tail` after merging blocks [a, b] differ exactly when a < b and b is the last block |
| TailPointer.TailLosesBlock | hw6/hw6-pintos-starter/src/lib/user/stdlib.c:116-130 | malloc(40), free, malloc(8), malloc(100): 172 bytes taken from `sbrk`, only 140 still in the list |
| MmAlloc.FindFirstFit | hw5/mm_alloc.c:55-64 | the first free block from `head` on that fits; none exactly when no block from `head` on fits |
| MmAlloc.TakeFront | hw5/mm_alloc.c:108-113 | a barely-fitting block gets the request as its recorded size, is marked in use, and only its first `size` bytes are zeroed |
| MmAlloc.Carve | hw5/mm_alloc.c:105-113 | the chosen free block is handed out in use, its recorded size the request and its first `size` bytes zero, with the blocks before it and the footprint kept. With room for a header beyond the request it becomes two blocks: the request, and a free block of the rest less 32 bytes holding the block's later bytes, every later block following unchanged. Otherwise the block count, the bytes beyond the request and every later block stay |
| MmAlloc.TakeAt | hw5/mm_alloc.c:108-113 | a fit too small to split is marked in use with its recorded size cut to the request and its first `size` bytes zeroed; its bytes beyond, every other block, the block count and the footprint stay |
| MmAlloc.MmMalloc | hw5/mm_alloc.c:66-116 | NULL for a zero request or a failed `sbrk`, with the blocks unchanged; a split is undefined behaviour; otherwise a zeroed block of at least the request; `head` never moves back. A miss appends exactly one in-use zeroed block of the request's size; a fit keeps the block count, the fit's bytes beyond the request and every later block |
| MmAlloc.MmMallocFixed | hw5/mm_alloc.c:66-116 | the intended `mm_malloc` always has a defined result, keeps every block reachable from `head`, and grows the footprint only on a miss, where it appends exactly one in-use zeroed block of the request's size. A split fit adds one block, the free rest less 32 bytes; a fit too small to split keeps the block count, its bytes beyond the request and every later block |
| MmAlloc.FixedReuses | hw5/mm_alloc.c:55-64 | while every block is reachable, a request some free block fits never grows the heap |
| MmAlloc.FixedAgrees | hw5/mm_alloc.c:66-116 | wherever the source is defined, it builds the same blocks and returns the same pointer as the intended version |
| MmAlloc.MmFree | hw5/mm_alloc.c:130-140 | NULL is ignored; otherwise only the released block's free flag changes, with nothing merged |
| MmAlloc.MmFreeTwice | hw5/mm_alloc.c:130-140 | freeing moves no block and is idempotent |
| MmAlloc.MmRealloc | hw5/mm_alloc.c:118-123 | the stub returns NULL and changes nothing |
| MmAlloc.FirstEight | hw5/mm_alloc.c:76-87 | the first `mm_malloc(8)` starts the list with one zeroed block at offset 32 |
| MmAlloc.SecondEight | hw5/mm_alloc.c:88-103 | the second request misses, appends a block and leaves `head` NULL |
| MmAlloc.FreeFirst | hw5/mm_alloc.c:130-140 | freeing the first block only sets its flag |
| MmAlloc.ThirdEight | hw5/mm_alloc.c:76-87 | with `head` NULL, the next request starts a new list behind the freed block |
| MmAlloc.HeadLosesFreeBlock | hw5/mm_alloc.c:57-62 | malloc, malloc, free, malloc: a free block fits, yet the source grows the heap and the freed block is unreachable |
| MmAlloc.ThirdEightFixed | hw5/mm_alloc.c:88-113 | the intended version hands out the freed block again |
| MmAlloc.FixedKeepsFreeBlock | hw5/mm_alloc.c:55-113 | the same call sequence on the intended version reuses the freed block and never takes a third |
| MmAlloc.SplitUndefined | hw5/mm_alloc.c:42 | splitting a 64-byte free block for 8 bytes writes through a pointer made of a byte value |
| MmAlloc.SplitFixed | hw5/mm_alloc.c:40-52 | the intended split leaves an 8-byte in-use block and a 24-byte free remainder |
| Syscall.BufferOk | hw6/hw6-pintos-starter/src/userprog/syscall.c:33-39 | `validate_buffer_in_user_region` passes: the buffer starts below PHYS_BASE and its length fits below PHYS_BASE (a predicate; `Syscall.Checked` and `Syscall.Dispatch` use it) |
| Syscall.StringOk | hw6/hw6-pintos-starter/src/userprog/syscall.c:45-51 | `validate_string_in_user_region` passes (a predicate; `Syscall.StringOkIff` states when) |
| Syscall.StrNLen | hw6/hw6-pintos-starter/src/userprog/syscall.c:49 | `strnlen` is the index of the first NUL within the bound, or the bound |
| Syscall.StringOkIff | hw6/hw6-pintos-starter/src/userprog/syscall.c:45-51 | the string check passes iff the string starts in user memory and has a NUL below PHYS_BASE |
| Syscall.Open | hw6/hw6-pintos-starter/src/userprog/syscall.c:54-66 | returns 2 iff no file was open and `filesys_open` succeeded; otherwise -1, with an open file kept |
| Syscall.Write | hw6/hw6-pintos-starter/src/userprog/syscall.c:68-81 | descriptor 1 reports the full size, descriptor 2 with an open file reports the file layer's count, anything else gives -1 |
| Syscall.Read | hw6/hw6-pintos-starter/src/userprog/syscall.c:83-91 | only descriptor 2 with an open file reads; otherwise -1 |
| Syscall.Close | hw6/hw6-pintos-starter/src/userprog/syscall.c:93-102 | the slot is emptied iff descriptor 2 is closed while a file is open; otherwise nothing changes |
| Syscall.OpenCloseOpen | hw6/hw6-pintos-starter/src/userprog/syscall.c:54-102 | a second open fails while a file is open, and after close(2) open succeeds again |
| Syscall.RoundUp | hw6/hw6-pintos-starter/src/userprog/syscall.c:114 | `pg_round_up` gives the next page boundary at or above the address |
| Syscall.Unmap | hw6/hw6-pintos-starter/src/userprog/syscall.c:143-145 | one page's mapping is dropped and its frame, if any, goes back to the pool |
| Syscall.MapFrom | hw6/hw6-pintos-starter/src/userprog/syscall.c:115-135 | the mapping loop from page `i` on changes nothing of the process but its mapped pages and pool; `Syscall.MapsUnlessPoolEmpty`, `Syscall.MappedAll` and `Syscall.Undone` state what it maps and undoes |
| Syscall.UnmapFrom | hw6/hw6-pintos-starter/src/userprog/syscall.c:140-146 | the unmapping loop changes nothing but the mapped pages and pool, only removes pages and only returns frames; `Syscall.Unmapped` states which pages |
| Syscall.Undo | hw6/hw6-pintos-starter/src/userprog/syscall.c:121-126 | the undo loop only removes mappings and returns frames |
| Syscall.Undone | hw6/hw6-pintos-starter/src/userprog/syscall.c:118-127 | undoing the pages mapped so far restores the process exactly as before the call |
| Syscall.MapsUnlessPoolEmpty | hw6/hw6-pintos-starter/src/userprog/syscall.c:115-135 | when every page can be mapped, the mapping loop fails iff the pool holds too few frames |
| Syscall.MappedAll | hw6/hw6-pintos-starter/src/userprog/syscall.c:115-135 | the whole mapping loop maps every page taking one frame each, or fails and restores the state |
| Syscall.Unmapped | hw6/hw6-pintos-starter/src/userprog/syscall.c:140-146 | the unmapping loop drops exactly the pages above the new break and returns one frame per page |
| Syscall.PagesBetween | hw6/hw6-pintos-starter/src/userprog/syscall.c:114 | the page count computed from the rounded-up new break and the unrounded old break is the number of pages between the two rounded breaks |
| Syscall.GrowCount | hw6/hw6-pintos-starter/src/userprog/syscall.c:114 | `num_pg_alloc` of the growing branch, with its casts through `int` (a definition; `Syscall.PagesBetween` states what it counts) |
| Syscall.ShrinkCount | hw6/hw6-pintos-starter/src/userprog/syscall.c:139 | `num_pg_alloc` of the shrinking branch, with its casts through `int` and C's truncating division (a definition; `Syscall.Unmapped` and `Syscall.ShrinkBelowBase` use it) |
| Syscall.Grow | hw6/hw6-pintos-starter/src/userprog/syscall.c:112-136 | a positive increment returns the old break, or -1 with `sbrk` unchanged |
| Syscall.Shrink | hw6/hw6-pintos-starter/src/userprog/syscall.c:137-148 | a negative increment returns the old break and only unmaps pages |
| Syscall.Sbrk | hw6/hw6-pintos-starter/src/userprog/syscall.c:104-152 | `sbrk(0)` returns the break and changes nothing; any success returns the old break; a failure returns -1 with `sbrk` unchanged |
| Syscall.SbrkGrows | hw6/hw6-pintos-starter/src/userprog/syscall.c:112-136 | a positive increment maps exactly the pages up to the new break, or fails and changes nothing; with every page mappable it fails iff the pool is short |
| Syscall.SbrkShrinks | hw6/hw6-pintos-starter/src/userprog/syscall.c:137-148 | a negative increment unmaps exactly the pages above the new break and returns their frames |
| Syscall.SbrkKeepsHeapMapped | hw6/hw6-pintos-starter/src/userprog/syscall.c:104-152 | the mapped heap pages are exactly those below the rounded break, and pool frames plus heap pages stay constant, unless `pagedir_set_page` fails in the source's version |
| Syscall.TwoPages | hw6/hw6-pintos-starter/src/userprog/syscall.c:113-114 | growing a fresh heap by 8192 bytes needs two pages |
| Syscall.SetPageFailureLeaks | hw6/hw6-pintos-starter/src/userprog/syscall.c:130-134 | a failed `pagedir_set_page` returns -1 but keeps a page mapped and a frame taken; undoing restores the process |
| Syscall.ShrinkBelowBase | hw6/hw6-pintos-starter/src/userprog/syscall.c:137-148 | on a fresh page-aligned heap, sbrk(-4096) is accepted: it returns the old break, clears the page under the base and leaves the break below the heap, so the heap invariant no longer holds |
| Syscall.SbrkGuarded | hw6/hw6-pintos-starter/src/userprog/syscall.c:104-152 | `sbrk` with the missing check: a break below the heap base returns -1 and changes nothing; any other increment is `syscall_sbrk` |
| Syscall.SbrkGuardedKeepsHeapMapped | hw6/hw6-pintos-starter/src/userprog/syscall.c:104-152 | the guarded `sbrk` keeps the heap invariant for every increment whose break stays low, including those below the base, and agrees with `Syscall.SbrkKeepsHeapMapped` on the others |
| Syscall.Checked | hw6/hw6-pintos-starter/src/userprog/syscall.c:161-194 | the argument checks each call number makes before its service runs: the argument words, the string of `open`, the buffer of `read` and `write`, the word of `sbrk` only with the added check (a predicate; `Syscall.Dispatch` states that a failed one ends the process with -1) |
| Syscall.Dispatch | hw6/hw6-pintos-starter/src/userprog/syscall.c:162-199 | the process ends exactly on `SYS_EXIT` (with `args[1]`) or a failed check (with -1); once the argument words, and the buffer or string, pass the checks, open, write and read return their result in `eax`, close leaves `eax` alone, sbrk returns the old break, and an unknown call resumes untouched; only open and close touch the file slot |
| Syscall.Handler | hw6/hw6-pintos-starter/src/userprog/syscall.c:154-202 | a call number outside user memory ends the process with -1; otherwise it ends exactly on `SYS_EXIT` or a failed argument check, and every call whose checks pass is serviced as the switch says (`SYS_SBRK` checked only with the added check) |
| Syscall.SbrkArgUnchecked | hw6/hw6-pintos-starter/src/userprog/syscall.c:192-194 | with the stack pointer on the last user word, `SYS_SBRK` reads its argument from kernel memory and proceeds, while every checked call ends the process |
| WordScan.Lower | hw0/words/main.c:98-103 | lowercasing keeps the length and lowers each byte |
| WordScan.Words | hw0/words/main.c:39-68 | the words of an input in order: its maximal letter runs of length 2 to MAX_WORD_LEN, lowercased (a definition; `WordScan.WordsShape`, `WordScan.OneRun` and `WordScan.NumWords` state its properties) |
| WordScan.WordsClose | hw0/words/main.c:57-64 | a letter run closed by a non-letter or end of file adds one word exactly when its length is 2 to 64 |
| WordScan.WordsShape | hw0/words/main.c:39-68 | every word is 2 to MAX_WORD_LEN lowercase letters |
| WordScan.OneRun | hw0/words/main.c:47-68 | letters between non-letters form one word exactly when their number qualifies |
| WordScan.NumWords | hw0/words/main.c:47-68 | `num_words` returns the number of words of the input, 0 for an empty one |
| WordScan.CountWords | hw0/words/main.c:76-110 | `count_words` calls `add_word` once per word occurrence, lowercased, in input order |
| WordScan.StrCmp | hw0/words/main.c:124 | `strcmp`: the difference of the first bytes that differ, stopping at NUL (a definition; the `WordScan.StrCmp*` lemmas state its properties) |
| WordScan.StrCmpSwap | hw0/words/main.c:124 | swapping the arguments of `strcmp` negates the result |
| WordScan.StrCmpZero | hw0/words/word_count.c:55 | on NUL-free strings, `strcmp` is 0 iff the strings are equal |
| WordScan.StrCmpIsDictLess | hw0/words/main.c:124 | on NUL-free strings, `strcmp < 0` is dictionary order |
| WordScan.StrCmpTrans | hw0/words/main.c:124 | `strcmp` order is transitive |
| WordScan.WordcountLess | hw0/words/main.c:116-128 | the smaller count comes first; a true result never has the larger count first |
| WordScan.WordcountLessIsLexicographic | hw0/words/main.c:116-128 | on NUL-free words the comparator is lexicographic order on (count, word) |
| WordScan.WordcountLessIrreflexive | hw0/words/main.c:116-128 | no entry is less than itself |
| WordScan.WordcountLessAsymmetric | hw0/words/main.c:116-128 | never both x < y and y < x |
| WordScan.WordcountLessTransitive | hw0/words/main.c:116-128 | the comparator is transitive, so it is a strict order for sorting |
| WordScan.WordcountLessTotal | hw0/words/main.c:116-128 | any two different NUL-free entries are ordered one way or the other |
| WordList.InitWords | hw0/words/word_count.c:31-39 | a fresh list is valid and holds only the sentinel |
| WordList.InitWordsEmpty | hw0/words/word_count.c:31-39 | the fresh list records no word and a total of 0 |
| WordList.LenWordsAsWritten | hw0/words/word_count.c:41-48 | `len_words` as written: it answers exactly when some node holds a word, with the index of the first such node, every node before it being wordless; with no word it dereferences NULL |
| WordList.LenWords | hw0/words/word_count.c:41-48 | the count `len_words` is meant to give: the number of nodes holding a word, at most the list's length |
| WordList.LenWordsCountsWords | hw0/words/word_count.c:41-48 | on a sentinel-headed list the intended count is the number of words, every node but the sentinel |
| WordList.LenWordsAsWrittenStopsEarly | hw0/words/word_count.c:41-48 | on every sentinel-headed list the code as written answers 1 once a word is present, and has no answer (NULL dereference) on the bare sentinel |
| WordList.LenWordsTwoWords | hw0/words/word_count.c:41-48 | a sentinel with two words: the code answers 1 where there are 2 words |
| WordList.FindWord | hw0/words/word_count.c:50-62 | the first node with a non-NULL word equal to `w` by `strcmp`; NULL exactly when there is none |
| WordList.FindWordExact | hw0/words/word_count.c:50-62 | on a valid list `find_word` finds exactly the node holding the word, never the sentinel |
| WordList.AddWord | hw0/words/word_count.c:64-76 | a present word has its count raised with nothing else changed; an absent one is inserted right after the head with count 1 |
| WordList.AddWordCounts | hw0/words/word_count.c:64-76 | `add_word` keeps the list valid, raises the count of `w` alone by one and the total by one, and `find_word` finds `w` afterwards |
| WordList.AddAllCounts | hw0/words/word_count.c:64-76 | after a sequence of `add_word` calls each word's count has grown by its number of occurrences |
| WordList.CountInput | hw0/words/main.c:76-110 | counting an input from a fresh list records each word's number of occurrences, and the counts add up to `num_words` |
| LockedWordList.InitWords | hw2/word_count_p.c:33-36 | `list_init` gives an empty, valid list |
| LockedWordList.LenWords | hw2/word_count_p.c:38-46 | the walk counts every entry |
| LockedWordList.FindWord | hw2/word_count_p.c:48-58 | the first entry equal to `w` by `strcmp`; NULL exactly when there is none |
| LockedWordList.FindWordExact | hw2/word_count_p.c:48-58 | on a valid list `find_word` finds exactly the entry holding the word |
| LockedWordList.AddWord | hw2/word_count_p.c:60-75 | NULL exactly when the word is absent and `malloc` fails, with the list unchanged; a present word is incremented in place; an absent one is pushed at the front with count 1 |
| LockedWordList.AddWordCounts | hw2/word_count_p.c:60-75 | `add_word` keeps words unique and raises the count of `w` by one exactly when it does not return NULL |
| LockedWordList.AddAllCounts | hw2/word_count_p.c:60-75 | after the calls, in any order, each word's count has grown by its number of occurrences |
| LockedWordList.InterleavingIrrelevant | hw2/word_count_p.c:62-73 | since each call is atomic under the lock, any two interleavings of the same calls give the same counts |
| Shell.TokenAt | hw3/shell.c:270 | `tokens_get_token` is NULL exactly past the last token |
| Shell.Lookup | hw3/shell.c:86-91 | the index of the first table entry named `cmd`; -1 iff `cmd` is NULL or names no entry |
| Shell.TableIndices | hw3/shell.c:48-53 | `?`, `exit`, `pwd`, `cd` map to 0 to 3, and other names to -1 |
| Shell.RunBuiltin | hw3/shell.c:56-83 | only `exit` ends the shell (status 0); `?` returns 1; `pwd` returns -1 iff `getcwd` fails; `cd` returns 1 iff `chdir` succeeds |
| Shell.PipeAt | hw3/shell.c:188-192 | the scan stops at the first `\|` token or at the end of the line |
| Shell.Segments | hw3/shell.c:184-226 | the commands `exec_pipe` runs: the tokens cut at each `\|` into at least one segment; `Shell.SegmentsShape`, `Shell.SegmentsJoin` and `Shell.SegmentsOfJoin` state what the segments hold |
| Shell.SegmentsShape | hw3/shell.c:184-227 | no command of a pipeline holds a `\|`, and exactly the commands before the last send output into the pipe |
| Shell.SegmentsJoin | hw3/shell.c:184-227 | putting the `\|` tokens back between the commands gives the line again |
| Shell.SegmentsOfJoin | hw3/shell.c:184-227 | commands without `\|` joined by `\|` are split back into exactly those commands |
| Shell.Classify | hw3/shell.c:270-313 | builtin iff token 0 names one; otherwise the first `<`, `>` or `\|` decides: a redirection of the tokens before it to the next token, a pipeline of the whole line, or else a plain program |
| Shell.BuiltinFromFirstToken | hw3/shell.c:270-273 | the builtin choice depends on the first token alone |
| Shell.Dirs | hw3/shell.c:97-113 | the directories `strtok(path, ":")` yields: the maximal stretches without `:`, none for no PATH (a definition; `Shell.CandidatesOfPath` and `Shell.EmptyEntrySkipped` state its properties) |
| Shell.Candidates | hw3/shell.c:94-115 | one candidate for the bare name, then one per PATH directory |
| Shell.CandidatesShape | hw3/shell.c:94-115 | the bare name comes first, then each non-empty, colon-free PATH directory followed by `/` and the name, in order |
| Shell.CandidatesOfPath | hw3/shell.c:97-113 | a PATH of non-empty directories joined by `:` gives exactly those directories, in order |
| Shell.EmptyEntrySkipped | hw3/shell.c:97 | `strtok` skips empty PATH entries: an extra `:` yields no directory |

## Left out

- Console and file I/O are left out. This covers `printf`, `fprintf`, `fgets`, `getopt` and option handling, `fprint_words` (both versions) and `cmd_help`'s listing. These only print.
- The hw2 `pwords` threads and `pthread_mutex_*` are not modelled as threads. Each `add_word` call is one atomic step under the lock, and `LockedWordList.InterleavingIrrelevant` covers every order of steps.
- `wordcount_sort` / `list_sort` is left out, because it belongs to Pintos's list library. The comparator it is given is modelled and proved to be a strict total order.
- hw0 `len_words` is modelled as written (`WordList.LenWordsAsWritten`): it counts the leading nodes with no word, so it answers 1 on any list holding a word and dereferences NULL on the bare sentinel. It is listed under Findings; the word count it is meant to give is `WordList.LenWords`.
- LockedWordList.AddWord: stores the word as a value. The source stores the caller's pointer without copying it (hw2/word_count_p.c:67), so the entry shares the caller's buffer and changes if the caller reuses it. The model does not promise that aliasing.
- `new_string` is left out. Words are values here, so a copy is the word itself.
- `count_words` writes letters into a local buffer of MAX_WORD_LEN + 1 = 65 bytes. A run of 66 or more letters writes past its end. The buffer is also declared inside the block of the second letter (hw0/words/main.c:101-106), so every later write and the `strcpy` of a finished word use an array whose lifetime has ended. Both are undefined behaviour in C. The model keeps each run as a value, which is what the length test and the copy intend, and discards a run that is too long.
- Word counts, `num_chars` and sizes are unbounded integers. The C `int`/`size_t` overflow is not modelled.
- `isalpha` and `tolower` are the C locale's ASCII definitions. Other locales are left out.
- The shell's process plumbing is left out: `fork`, `execv`, `pipe`, `dup2` and `waitpid`. So are the file copying of `exec_stdin`/`exec_stdout`, the second command loop of `main`, `init_shell` and job control. These are system calls whose effects cannot be stated on values. The model covers what they are given: the argument vectors, the redirection target, the pipeline's segments and the PATH candidates.
- `exec_stdin`, `exec_stdout` and `exec_pipe` never return: each ends with `exit(0)`, `exec_pipe` also after a failed `fork` and after its recursive call for the next segment (hw3/shell.c:206-226). So the scan of `main` never goes past the first redirection or pipe. This ending is not modelled, because it only matters after the process plumbing above. `Shell.Classify` records the first decision only.
- `exec_full_path` crashes when PATH is unset (`strtok(NULL, ...)` on the first call) or when the program is NULL. The model gives no candidates beyond the bare name for an unset PATH.
- `strtok` also writes NULs into the environment's PATH. This side effect is not modelled.
- Shell tokens are compared with `==`. The tokenizer (`tokenize`) is not part of this model, and tokens hold no NUL.
- The page walk's RAM is a function from physical address to byte. `ram_fetch` and the mallocs of `virt_to_phys` (which leak, and whose results are never checked) are left out.
- Mmu.StrFromVirt: bounded by `fuel` bytes. The source loops until a NUL or a fault, and beyond the bound the model answers `NoTerminator`.
- `str_from_virt` prints a message on a fault. The message is left out.
- Kernel services used by the system calls are parameters: `filesys_open`, `file_read`, `file_write`, `palloc_get_page` (a pool counter) and `pagedir_set_page`. Their internals are not part of this model.
- The system call numbers of `lib/syscall-nr.h` are not part of this model. The handler takes the decoding as a parameter.
- `syscall_exit`'s message and `thread_exit` are left out. An exit is the `Exit` outcome.
- Syscall.SbrkKeepsHeapMapped: proved only for breaks below 2 GiB less a page (`Low`). Above that, the source's casts between addresses and `int` are not exact. It also requires the new break to stay at or above the heap base (`InRange`). The source accepts a decrement below the base (hw6/hw6-pintos-starter/src/userprog/syscall.c:137-148) and moves the break there (`Syscall.ShrinkBelowBase`, listed under Findings); `Syscall.SbrkGuardedKeepsHeapMapped` proves the property for all increments once such a call is refused.
- The `in_syscall` flag of the thread (hw6/hw6-pintos-starter/src/userprog/syscall.c:159, 201) is left out. It is only read by the page-fault handler, which is not part of this model.
- The argument checks (hw6/hw6-pintos-starter/src/userprog/syscall.c:29-51) test address ranges, not mappings. A read of an unmapped user page while decoding the arguments, or inside `strnlen`, faults in the kernel. The model's user memory `mem` is a total function, so these faults are not modelled.
- Syscall.Sbrk: `sbrk` outside the `Low` range is modelled with its 32-bit wrap-around, but nothing beyond the contract of `Sbrk` is proved there.
- UserMalloc.RunStart: steps to the list's previous block, the one a correct `prev` link names. The code leaves a `prev` stale after `split_large_block` (hw6/hw6-pintos-starter/src/lib/user/stdlib.c:30-42) and after a merge (hw6/hw6-pintos-starter/src/lib/user/stdlib.c:86), and its backward walk follows the stale link. `LinkedMalloc.RunHead` is that walk as written.
- UserMalloc.CoalesceNoAdjacent: holds for the merge over correct links. As written, a stale `prev` can stop the backward walk early and leave two free blocks side by side (`LinkedMalloc.FreeLeavesFreeNeighbours`).
- UserMalloc.Free: the intended `free`, whose merge spares every block in use (`UserMalloc.FreeKeepsUsed`). As written, a stale `prev` can merge over a block in use (`LinkedMalloc.FreeSwallowsLiveBlock`, listed under Findings).
- TailPointer.FreeAsWritten: is written as the source's `free` as far as `tail` goes, but merges over correct links like `UserMalloc.Free`. The stale `prev` links are modelled in `LinkedMalloc`.
- LinkedMalloc: tracks headers only. Block contents, and program writes that overwrite a header, are modelled by `UserMalloc`, not here. `sbrk` always succeeds in `LinkedMalloc.Run`.
- The Pintos `malloc` takes an `int`. A negative request is not modelled: sizes are natural numbers.
- UserMalloc.Realloc and UserMalloc.ReallocAsWritten: `memcpy` of overlapping areas is undefined in C. The model copies the bytes at the old address as they are after `malloc`, which is the forward copy.
- UserMalloc.Calloc: the overflow of `nmemb * size` is not modelled.
- The byte values of headers are unknown cells in the memory image. A program that reads a header through a stale pointer is not modelled.
- `mm_free` and the Pintos `free` of a pointer that `malloc` did not hand out are undefined. Their models require a block to start at that address.

## Findings

| source | as written | input that shows it | evidently intended | confidence | as-written member | corrected member |
|---|---|---|---|---|---|---|
| hw6/hw6-pintos-starter/src/lib/user/stdlib.c:116-130 | `tail` is not moved when a split puts a free block after it, nor when `coalesce` merges it away; the next `sbrk` block is linked after the stale `tail` | malloc(40), free, malloc(8), malloc(100) | every block obtained from `sbrk` stays in the list | not executed | TailPointer.TailLosesBlock | TailPointer.MallocTracked |
| hw6/hw6-pintos-starter/src/lib/user/stdlib.c:172-180 | `realloc` frees the old block, calls `malloc` (which zero-fills), then copies from the old address | a block holding 7 in its first byte, resized to the same 8 bytes | the old contents are kept up to the smaller size | not executed | UserMalloc.ReallocAsWrittenSeven | UserMalloc.ReallocSeven |
| hw6/hw6-pintos-starter/src/lib/user/stdlib.c:158 | `calloc` asks for `nmemb * sizeof(void *)` bytes | calloc(1, 8) on 32-bit x86 | `nmemb * size` bytes | not executed | UserMalloc.CallocIgnoresSize | UserMalloc.Calloc |
| hw5/mm_alloc.c:57-62 | `find_first_fit` advances the global `head`, leaving it NULL after a miss | mm_malloc(8), mm_malloc(8), mm_free(first), mm_malloc(8) | a local pointer walks the list and `head` stays put | not executed | MmAlloc.HeadLosesFreeBlock | MmAlloc.FixedKeepsFreeBlock |
| hw5/mm_alloc.c:42 | the new header's address is a byte of the contents, `begin->contents[size + sizeof(metadata_t)]` | mm_malloc(8) with one free 64-byte block | the header is placed at `begin->contents + size` | not executed | MmAlloc.SplitUndefined | MmAlloc.SplitFixed |
| hw6/hw6-pintos-starter/src/userprog/syscall.c:130-134 | a failed `pagedir_set_page` returns -1 without unmapping the pages mapped so far or freeing the frame just taken | sbrk(8192) on a fresh heap when the second page cannot be mapped | the same undo as for a failed `palloc_get_page` | not executed | Syscall.SetPageFailureLeaks | Syscall.SbrkKeepsHeapMapped |
| hw6/hw6-pintos-starter/src/userprog/syscall.c:192-194 | `SYS_SBRK` reads `args[1]` without checking that it lies in user memory | esp = 0xBFFFFFFC, the last user word | the argument word is validated like the others' | not executed | Syscall.SbrkArgUnchecked | Syscall.Handler |
| hw6/hw6-pintos-starter/src/lib/user/stdlib.c:30-42 | `split_large_block` does not set the old `next`'s `prev` to the new free header, and `coalesce` does not fix the `prev` after a merge (line 86); the backward walk of `coalesce` follows those stale links | malloc(100), malloc(8), free(first), malloc(8), malloc(76), free(third), free(second) | `prev` names the block just before, so `free` merges only the free blocks next to the released one | not executed | LinkedMalloc.FreeSwallowsLiveBlock | UserMalloc.FreeKeepsUsed |
| hw0/words/word_count.c:41-48 | `len_words` loops while the node's word is NULL, so it counts the leading wordless nodes (the sentinel) and then stops | a sentinel followed by two words gives 1; the bare sentinel dereferences NULL | the number of words in the list | not executed | WordList.LenWordsTwoWords | WordList.LenWordsCountsWords |
| hw6/hw6-pintos-starter/src/userprog/syscall.c:137-148 | a negative increment is never checked against `heap_base`: the break moves below the heap base, the loop clears the page under the base, and the break no longer describes the heap | sbrk(-4096) on a fresh heap whose base is page-aligned | refuse a break below the heap base and leave the heap unchanged | not executed | Syscall.ShrinkBelowBase | Syscall.SbrkGuardedKeepsHeapMapped |
