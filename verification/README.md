# A verified model of the xv6 mmap, allocator, buffer-cache and find cores

This project models, in Dafny, the parts of an extended xv6 teaching kernel
(RISC-V, Sv39) and its user programs that hold real logic:

- **Mmap** (`mmap.dfy`) is the per-process table of file-backed memory regions. It covers:
  - `vma_map`, which places a new region directly below the lowest live one;
  - `vma_unmap`, which cuts a range off one edge of a region;
  - `vma_unmap_range`, which walks the pages, writes dirty shared pages back and frees the frames;
  - `vma_access`, which demand-faults one page in;
  - `vma_copy` and `vma_free`, which run at fork and exit;
  - `vma_init`.
- **Kalloc** (`kalloc.dfy`) is the per-CPU physical page allocator. It covers:
  - `kfree` and `freerange`;
  - `steal_from` and `steal_memory`, which top a CPU's free list up to `STEAL_MAX` from the other CPUs;
  - `kalloc`.
- **Bio** (`bio.dfy`) is the hashed buffer cache. It covers:
  - `hash`;
  - `binit`, which deals the buffers round-robin over 13 buckets;
  - `bget`, which finds a hit or recycles an idle buffer;
  - `bread`, `brelse`, `bpin` and `bunpin`.
- **YuvalLib** (`yuval_lib.dfy`) is the user library's `chtol` and `strtol`.
- **Find** (`find.dfy`) is the pure part of the `find` utility:
  - `is_match`;
  - the guard that keeps a joined path inside its 512-byte buffer;
  - the filter that picks the directory entries to recurse into.
- **Support modules:**
  - `outcomes.dfy` holds `Option`, and `Outcome`, which is a value or a kernel panic.
  - `bags.dfy` holds multisets of the elements of a sequence of lists, such as all free lists or all buckets.
  - `riscv.dfy` holds the page size, page rounding and leaf page-table entries.

How the C constructs are modelled:

- **State:** kernel state is an immutable value. Each operation is a function or method from the old state to an `Outcome` of the new one.
- **Panics:** a `panic` is `Panic(reason)`.
- **Error returns:** a C error return of -1 is a `Done` whose state is unchanged.
- **Linked lists:** they are sequences, head first.
- **Unsigned arithmetic:** C's unsigned 64-bit and 32-bit arithmetic is written out as `% 2^64` and `% 2^32` wherever it wraps.
- **Calls into code outside the model:**
  - The frame that `kalloc()` returns inside `vma_access` is a parameter.
  - The CPU id is a parameter.
  - The disk read in `bread` is a returned flag.
  - The `readi`/`writei`/`kfree` calls made while unmapping and faulting are returned as records (`PageIn`, `Write`, the list of freed frames).

Several places in the source misbehave on inputs it accepts. These are listed under Findings. For each one the model keeps the as-written behaviour and exhibits the bad input. The rest of the model then uses a corrected definition:

- `VmaMap` uses the corrected placement.
- `VmaUnmap` uses the corrected trim.
- `FaultIn` and the write-back use the corrected size clamp.
- `BRead` uses the corrected `bget`.
- `strtol`'s as-written form stays the main model. Its corrected form, `StrToLFixed`, is proved to read back what `Render` writes.

Constants that the source takes from headers outside this model are assumed:

| constant | value |
|---|---|
| `NCPU` | 8 |
| `NOFILE` | 16 |
| `NBUF` | 30 |
| `DIRSIZ` | 14 |
| `PHYSTOP` | `0x8000_0000 + 128 MiB` |
| `PROT_READ/WRITE/EXEC` | 1/2/4 |
| `MAP_SHARED/PRIVATE` | 1/2 |
| `VMA_COUNT` | 16 |
| `VMA_MAX` | just below the trampoline and trap frame pages |
| `VMA_MIN` | `0x20_0000_0000` |

## Model

| member | source | states |
|---|---|---|
| Mmap.MinUsed | kernel/mmap.c:136-151 | the lowest address of a live region, VMA_MAX when none is live; at most every live start, and attained |
| Mmap.FreeSlot | kernel/mmap.c:137-150 | -1 exactly when every slot is live; otherwise a free slot with every later slot live (the last free one) |
| Mmap.Placement | kernel/mmap.c:152-157 | the chosen start leaves room for len bytes between VMA_MIN and min_used and is the highest aligned such start; None only when no aligned start fits |
| Mmap.PlacementAsWrittenWraps | kernel/mmap.c:152-153 | as written, a length above min_used wraps to a start far above VMA_MAX that passes the VMA_MIN guard, where the corrected placement finds no room |
| Mmap.PlacementAgrees | kernel/mmap.c:152-153 | for lengths up to min_used the as-written computation and guard give exactly the corrected placement |
| Mmap.VmaMap | kernel/mmap.c:114-193 | rejected arguments, a full table, a bad descriptor or a missing permission give -1 with the table unchanged; no room or an empty descriptor panics; otherwise one free slot takes a region below every live one; and every request passing all checks succeeds |
| Mmap.VmaMapPreservesWellFormed | kernel/mmap.c:114-193 | mapping keeps the table well formed: empty slots zeroed, live regions backed by a file, within [VMA_MIN, VMA_MAX] and pairwise disjoint |
| Mmap.Clamp | kernel/mmap.c:65-73 | the bytes moved for the page at a: at most a page, never past the region's end or the end of the file, and a full page unless one of those ends is reached |
| Mmap.ClampAsWrittenPastEof | kernel/mmap.c:66-73 | as written, a page wholly past the end of the file asks for a full page of file data; the corrected clamp asks for none |
| Mmap.ClampAgrees | kernel/mmap.c:280-288 | whenever the page starts at or before both ends, the as-written clamp equals the corrected one |
| Mmap.UnmapPages | kernel/mmap.c:263-298 | panics exactly when an entry in the range is a non-leaf; otherwise every valid entry in the range is zeroed and every other entry is unchanged |
| Mmap.UnmapPagesFrees | kernel/mmap.c:296-297 | the freed frames are exactly the frames of the valid entries in the range |
| Mmap.UnmapPagesWrites | kernel/mmap.c:276-295 | write-backs are issued exactly for the dirty valid pages in the range, and only when writeback is set, each for that page's offset and clamped size |
| Mmap.UnmapPagesNothing | kernel/mmap.c:266-270 | a range holding no valid entry changes nothing, writes nothing and frees nothing |
| Mmap.VmaUnmapRange | kernel/mmap.c:255-262 | an unaligned start panics; an aligned one runs the page sweep over [va, va + len) |
| Mmap.Hits | kernel/mmap.c:200-214 | the indices of exactly the live regions the request overlaps, in increasing order |
| Mmap.SoleHit | kernel/mmap.c:200-217 | panics exactly when two regions meet the request, is None exactly when none does, and otherwise names the only one |
| Mmap.Trim | kernel/mmap.c:218-233 | a cut is accepted only from one edge and no longer than the region; the survivor then covers exactly the region minus the request |
| Mmap.TrimAsWrittenWraps | kernel/mmap.c:220-224 | as written, unmapping two pages from the start of a one-page region leaves it alive with a length just below 2^64; the corrected trim refuses |
| Mmap.TrimAgrees | kernel/mmap.c:218-233 | for a request no longer than the region, the as-written trim equals the corrected one |
| Mmap.TrimCuts | kernel/mmap.c:218-236 | the region left after an accepted trim lies inside the old one and misses the request |
| Mmap.UnmapPlan | kernel/mmap.c:196-236 | the panic and refusal cases of the overlap scan and trim, and on success the hit region and its cut survivor |
| Mmap.VmaUnmap | kernel/mmap.c:194-243 | len 0 returns 0 unchanged; no overlap or a refused cut gives -1 unchanged; overlapping regions panic; success cuts exactly the request from the one region hit and sweeps its pages |
| Mmap.UnmapWholeRegion | kernel/mmap.c:234-241 | unmapping a whole untouched region empties its slot and nothing else |
| Mmap.MapThenUnmap | kernel/mmap.c:114-243 | mapping a region and then unmapping it before any page is touched gives back the original table |
| Mmap.VmaUnmapPreservesWellFormed | kernel/mmap.c:194-243 | unmapping keeps the table well formed |
| Mmap.CoverUnique | kernel/mmap.c:43-50 | in a well-formed table at most one region covers an address, so the first cover found is the only one |
| Mmap.Perm | kernel/mmap.c:60 | the installed entry is valid and user-accessible, and readable, writable or executable exactly when the region's prot allows it |
| Mmap.FaultIn | kernel/mmap.c:51-80 | a forbidden access or no frame gives -1 unchanged; an already-valid entry panics; otherwise the frame is mapped with the region's permissions and the page's file offset and clamped size are read |
| Mmap.VmaAccess | kernel/mmap.c:39-85 | no covering region gives -1 unchanged; otherwise the fault is served by the one region covering the rounded-down address |
| Mmap.FaultMapsPage | kernel/mmap.c:60-72 | after a successful fault the page is valid, maps the frame with the region's read and write permissions, and nothing else changes; the file read starts at the page's offset, stays inside the region, reads nothing exactly when the page lies past the end of the file, and otherwise stays inside the file |
| Mmap.FaultTwicePanics | kernel/mmap.c:60-62 | a second permitted fault on a page that the first fault mapped hits the remap panic |
| Mmap.AccessTwicePanics | kernel/mmap.c:39-85 | vma_access on the same page with the same access kind panics once a first vma_access has succeeded |
| Mmap.FaultThenUnmap | kernel/mmap.c:263-298 | for a region with nothing mapped, unmapping it after one fault clears exactly that page, frees exactly its frame, and writes it back exactly when the region is shared and the page dirty |
| Mmap.CopyFrom | kernel/mmap.c:88-99 | panics exactly when a child slot from i on is live; otherwise each slot from i on takes the parent's live region and keeps the rest |
| Mmap.VmaCopy | kernel/mmap.c:86-101 | panics exactly when the child's table is not empty; otherwise the child holds every live region of the parent |
| Mmap.VmaCopyClones | kernel/mmap.c:86-101 | copying into an empty table yields exactly the parent's table |
| Mmap.FreeFrom | kernel/mmap.c:104-110 | every valid page of every live region from slot i on is unmapped, and pages outside them are unchanged |
| Mmap.FreeFromFrees | kernel/mmap.c:104-110 | the frames freed from slot i on are exactly the frames of the valid pages of the live regions from slot i on |
| Mmap.FreeFromWrites | kernel/mmap.c:104-110 | the set of write-backs from slot i on is exactly the set of writes of the dirty valid pages of the shared live regions from slot i on, each with that page's offset and clamped size |
| Mmap.VmaFree | kernel/mmap.c:102-113 | every page of every live region is unmapped, pages outside them are unchanged, and the table ends up empty; the frames freed are exactly those of the valid pages of live regions, and the write-backs exactly those of the dirty valid pages of shared live regions |
| Mmap.VmaInit | kernel/mmap.c:244-254 | returns 0 exactly when no slot is live, and panics otherwise |
| Kalloc.KFree | kernel/kalloc.c:57-79 | panics exactly for an unaligned frame or one outside [end, PHYSTOP); otherwise pushes the frame on this CPU's list, bumps its count, leaves other CPUs alone and adds exactly that frame to the free pool |
| Kalloc.KFreePreservesValid | kernel/kalloc.c:66-77 | freeing a frame that is not already free keeps every list valid, counted and free of duplicates |
| Kalloc.DoubleFreeDuplicates | kernel/kalloc.c:66-77 | freeing an already-free frame is not caught and puts the frame on the lists twice |
| Kalloc.PagesExactly | kernel/kalloc.c:48-50 | the pages freerange visits are exactly the aligned pages from the rounded-up start that fit below the end |
| Kalloc.FreeRange | kernel/kalloc.c:44-51 | succeeds exactly when every page of the range is a valid frame; this CPU's list then starts with those pages, highest first, and its count grows by their number |
| Kalloc.KInit | kernel/kalloc.c:33-42 | after initialisation the lists are valid and the free frames are exactly the aligned pages between the kernel's end and PHYSTOP |
| Kalloc.StealFrom | kernel/kalloc.c:84-96 | the first n frames of the donor move, in order, to the front of the thief's list, with both counts adjusted, and nothing else changes |
| Kalloc.StealFromConserves | kernel/kalloc.c:84-96 | stealing neither creates nor loses a frame |
| Kalloc.StealMemory | kernel/kalloc.c:101-116 | changes nothing when no CPU has a free frame; conserves the free frames, raises the local count towards STEAL_MAX but never past it, stops short only when every other CPU is empty, takes prefixes of donor lists and drains lower-numbered CPUs first; the local list ends as the stolen frames followed by the frames it started with, each donor's prefix in its own order and the highest-numbered donor's frames first |
| Kalloc.StealStepFront | kernel/kalloc.c:86-93 | visiting one more donor puts the frames taken from it in front of those taken earlier, so the local list stays the stolen frames followed by its original frames |
| Kalloc.StolenKeepsDonorOrder | kernel/kalloc.c:101-116 | when only CPU 1 has frames, a then b, and CPU 0 steals, CPU 0's list ends as exactly a then b |
| Kalloc.StealKeepsValid | kernel/kalloc.c:101-116 | stealing keeps the lists valid |
| Kalloc.Pop | kernel/kalloc.c:135-139 | the popped frame is the local list's head, the local list loses exactly its head and its count drops by one, other CPUs are unchanged, and the popped frame is the only frame that leaves the pool |
| Kalloc.KAlloc | kernel/kalloc.c:122-145 | returns 0 with nothing changed exactly when no CPU has a free frame; otherwise returns a free frame and removes exactly it; with fewer than STEAL_MAX local frames it first steals, to a state meeting steal_memory's contract, and then pops that state's local head, which is the first frame taken from the highest-numbered donor, or the old local head when nothing was taken; with enough local frames it takes the local head without stealing |
| Kalloc.EmptyAfterSteal | kernel/kalloc.c:101-116 | if the local list is still empty after stealing, every CPU was empty and nothing changed |
| Kalloc.TakenFrom | kernel/kalloc.c:122-145 | stealing and then taking the local head, or 0 when it is empty, keeps the counts exact and removes exactly the frame returned |
| Kalloc.KAllocFresh | kernel/kalloc.c:122-145 | the frame returned is a valid frame that is no longer free, so it cannot be handed out again |
| Bio.Hash | kernel/bio.c:27-32 | every block number hashes to one of the 13 buckets |
| Bio.Binit | kernel/bio.c:44-67 | every buffer starts empty; each lies in exactly one bucket, the one numbered its index mod 13, and each bucket lists its buffers newest first |
| Bio.Deal | kernel/bio.c:57-66 | the round-robin loop deals every one of the NBUF buffers into its bucket exactly once |
| Bio.FirstMatch | kernel/bio.c:82-89 | the first buffer of a bucket holding the block, or -1 exactly when none does |
| Bio.FirstRecyclable | kernel/bio.c:93-95 | the first bucket, counting round from the block's own, whose head buffer is idle, or -1 exactly when none is |
| Bio.Move | kernel/bio.c:97-118 | the buffer is unlinked, appended to the home bucket and relabelled for the block with one reference and no valid data |
| Bio.MoveConserves | kernel/bio.c:97-114 | moving a buffer between buckets keeps the multiset of all buckets |
| Bio.MoveKeepsHomed | kernel/bio.c:93-121 | recycling an idle buffer into the block's own bucket keeps each buffer in exactly one bucket and each used buffer at home |
| Bio.Lookup | kernel/bio.c:73-125 | a hit takes the first matching buffer with one more reference; a miss recycles the head of the first bucket with an idle head, and panics exactly when none has one |
| Bio.RecycleHead | kernel/bio.c:93-124 | the as-written miss path: panics exactly when no bucket's head is idle; otherwise the buffer it takes was idle and now holds the block at home |
| Bio.LookupFixed | kernel/bio.c:73-125 | the corrected bget: panics exactly on a miss with every buffer busy, agrees with bget whenever bget succeeds, and a miss recycles an idle buffer |
| Bio.RecycleAny | kernel/bio.c:93-124 | the corrected miss path: panics exactly when every buffer is busy; otherwise recycles some idle buffer into the home bucket |
| Bio.BRead | kernel/bio.c:128-139 | returns the buffer the corrected bget found, now valid, and reads the disk exactly when its data was not yet valid |
| Bio.BUnpin | kernel/bio.c:183-198 | the reference count drops by one; the buckets change only when it reaches 0 |
| Bio.BUnpinBuckets | kernel/bio.c:188-196 | on the last reference the buffer moves to the front of its block's bucket and leaves every other list |
| Bio.BRelse | kernel/bio.c:152-173 | panics exactly when the caller does not hold the buffer's lock; otherwise it does what bunpin does |
| Bio.BPin | kernel/bio.c:175-181 | raises one buffer's count by one and changes nothing else |
| Bio.PinThenUnpin | kernel/bio.c:175-198 | pinning a referenced buffer and then unpinning it restores the cache |
| Bio.UnpinThenPin | kernel/bio.c:175-198 | unpinning a buffer with more than one reference and pinning it again restores the cache |
| Bio.HitKeepsHomed | kernel/bio.c:82-89 | a cache hit keeps each buffer in one bucket and each used buffer at home |
| Bio.BGetKeeps | kernel/bio.c:73-125 | bget as written keeps that invariant |
| Bio.BGetFixedKeeps | kernel/bio.c:73-125 | the corrected bget keeps that invariant |
| Bio.BReadKeeps | kernel/bio.c:128-139 | bread keeps that invariant |
| Bio.LastUnpinKeeps | kernel/bio.c:188-196 | releasing the last reference keeps that invariant |
| Bio.BUnpinKeeps | kernel/bio.c:183-198 | bunpin of a referenced buffer keeps that invariant |
| Bio.BPinKeeps | kernel/bio.c:175-181 | bpin of a buffer in use keeps that invariant |
| Bio.CachedIsFound | kernel/bio.c:77-89 | under that invariant a cached block in use is always a hit in its home bucket |
| Bio.ReadTwice | kernel/bio.c:128-139 | reading the same block twice returns the same buffer, and the second read does not go to disk |
| Bio.BGetPanicsWithFreeBuffers | kernel/bio.c:93-124 | a partitioned, well-homed cache with an idle buffer behind a busy head makes bget panic, while the corrected bget succeeds |
| YuvalLib.ChToL | user/yuval_lib.c:3-8 | digits map to their value, upper-case letters to their distance from 'A', lower-case ones to a non-positive distance from 'z'; non-negative exactly for digits, upper-case letters and 'z' |
| YuvalLib.ChToLLetters | user/yuval_lib.c:5-6 | as written, 'A' and 'z' are worth 0 and 'a'..'f' are negative, so hexadecimal letters are misread |
| YuvalLib.ChToLFixed | user/yuval_lib.c:3-8 | the corrected digit map gives exactly the 62 alphanumerics a value in 0..35 |
| YuvalLib.ChToLAgreesOnDecimal | user/yuval_lib.c:4 | both digit maps agree on every character that is not a letter |
| YuvalLib.DigitRun | user/yuval_lib.c:21-23 | the digit run after the sign ends at the first character that is not a digit of the base |
| YuvalLib.StrToL | user/yuval_lib.c:10-29 | a bad base gives -1 without moving; otherwise skips an optional '-' then '+', consumes exactly the run of digits of the base, and returns their value, signed only when the run reaches the terminator |
| YuvalLib.StrToLDropsSign | user/yuval_lib.c:23-28 | as written, "-12x" reads as 12 while "-12" reads as -12 |
| YuvalLib.RenderThenStop | user/yuval_lib.c:21-29 | the corrected strtol reads back every rendered integer, sign included, when it is followed by a character that is not a digit of the base, and stops in front of that character |
| YuvalLib.RenderRoundTrip | user/yuval_lib.c:10-29 | the corrected strtol reads back every integer written in any base 2..36, consuming all of it |
| YuvalLib.DecimalAgrees | user/yuval_lib.c:10-29 | on strings of decimal digits the as-written and corrected parsers agree |
| Find.ScanBack | user/find.c:11-13 | the backward scan stops at the last '/' at a position above 0, or at 0 |
| Find.IsMatchAsWritten | user/find.c:6-16 | the comparison has no result exactly for the empty path, where the scan steps past the terminator |
| Find.IsMatchWithSlash | user/find.c:11-15 | on a path holding a '/', is_match compares the text after the last '/' with the target |
| Find.IsMatchTrailingSlash | user/find.c:11-15 | a path ending in '/' compares the empty string |
| Find.IsMatchNoSlash | user/find.c:11-15 | a path without '/' loses its first character before the comparison |
| Find.BareNameMissed | user/find.c:11-15 | as written, the bare path "abc" does not match "abc", while the corrected is_match does |
| Find.IsMatchMeansBasename | user/find.c:6-16 | the corrected is_match is 0 exactly when the last path component equals the target, and agrees with the as-written one on paths holding a '/' |
| Find.Basename | user/find.c:11-14 | the last component holds no '/', is a suffix of the path, and is preceded by a '/' unless it is the whole path |
| Find.Joined | user/find.c:41-48 | the child path is the directory path, a '/', and at most DIRSIZ name characters, all a C string |
| Find.Children | user/find.c:36-53 | nothing when the path fails the length guard; otherwise exactly the joined paths of the in-use entries that do not end in '.', each shorter than the buffer |
| Find.DottedNamesSkipped | user/find.c:49-52 | no name ending in '.' is descended into, and an in-use empty name is descended into as the directory path plus '/' |
| Find.DotEntries | user/find.c:49-52 | "." and ".." are never descended into |
| Find.FreeSlotsSkipped | user/find.c:45-46 | a free directory slot is never descended into |

## Left out

- Locks, sleep locks, `push_off`/`pop_off` and all concurrency: every operation is one atomic step on an explicit state.
- The `memset` junk fills in `kfree`/`kalloc`, the zeroing of slots and frames, and the page contents themselves: the model tracks which frames are free and which pages are mapped, not their bytes.
- `readi`, `writei`, `begin_op`/`end_op`, `ilock`: these are returned as `PageIn`/`Write` records rather than executed. Their failure panics (kernel/mmap.c:74-77, 289-292) are not modelled.
- `filedup`/`fileclose`: `filedup` returns its argument, so the comparison at kernel/mmap.c:181-185 never fails and is not modelled. The reference counts of open files are not modelled.
- `walk` and `mappages` are not part of this model. The page table is a map from page address to leaf entry, and an absent key is a page `walk` cannot reach.
- Mmap.FaultIn: panics only for a page that is already mapped. The other `mappages` failure, running out of memory for a page-table page, is not modelled.
- Mmap.Perm: states the V, U, R, W, X and D bits. The source ORs all of `prot << 1` into the entry (kernel/mmap.c:60), and `vma_map` stores `prot` unchecked (kernel/mmap.c:189). So for `prot >= 512` the high bits land in the entry's physical page number. The model keeps the page number and the ten flag bits apart and drops those bits.
- Mmap.FaultIn: the page maps exactly `frame` only for `prot < 512`. For a larger `prot`, the source's entry names `frame` with `prot >> 9` ORed into its page number (kernel/mmap.c:60).
- Mmap.FaultMapsPage: `Pa() == frame` is the source's behaviour only for `prot < 512`, for the reason given under `FaultIn`.
- Mmap.FaultThenUnmap: "frees exactly its frame" is the source's behaviour only for `prot < 512`. For a larger `prot`, `PTE2PA` at kernel/mmap.c:275 yields the altered address, and that address is the one freed.
- Mmap.VmaFree: success is stated for tables without non-leaf entries and with aligned live regions. When it panics otherwise is stated by `UnmapPages`, not here.
- Mmap.FreeFrom: same as `VmaFree`.
- Mmap.FreeFromFrees: states which frames are freed and which writes are issued as sets. That each valid page adds exactly one entry to the list is not stated. The same holds for `FreeFromWrites` and for `VmaFree`.
- The `sys_mmap`/`sys_munmap` wrappers and the system-call argument fetching.
- Kalloc.KAlloc: `amount_free` is a C `int`, and its overflow is not modelled. This is unreachable with the assumed memory size.
- Bio.BUnpinKeeps: requires a non-zero count. `bunpin` on an idle buffer wraps its count to 2^32 - 1 and leaves an idle buffer marked in use away from home.
- Bio.BPinKeeps: requires the buffer to be in use (valid or referenced). `bpin` on an idle, unused buffer that sits away from its block's bucket breaks the home invariant.
- Bio.Hash: states only that the bucket index is below 13. The 32-bit mixing before the final `% 13` is the definition itself, and nothing is claimed about how evenly it spreads block numbers.
- Bio: `bwrite` and the disk driver. The disk read of `bread` is the returned flag.
- YuvalLib.StrToL: `long` overflow is not modelled; the value is an unbounded integer. Parsing starts at `*end_ptr`, which the model takes as the start of the string. `base_ptr` is unused by the source.
- Find: opening, `fstat`, `read` of directory entries and printing are not modelled. `Children` takes the directory's entries as a parameter.
- Find: `strcmp` (user/ulib.c) is not part of this model. `Find.StrCmp` follows the usual C definition: zero exactly for equal strings, antisymmetric.
- Find.IsMatchAsWritten: the empty path reads past its terminator, so it has no result (`None`) rather than a value.

## Findings

| source | as written | input that shows it | evidently intended | confidence | as-written member | corrected member |
|---|---|---|---|---|---|---|
| kernel/mmap.c:152-157 | `min_used - len` is unsigned and wraps when `len > min_used`; the wrapped start passes the `VMA_MIN` guard | an empty table and `len = VMA_MAX + 4096` | panic "no space to map", as for any request that does not fit above `VMA_MIN` | not executed | Mmap.PlacementAsWrittenWraps | Mmap.Placement |
| kernel/mmap.c:220-227 | `new_len = len_v - len` wraps when the request is longer than the region | `munmap(a, 8192)` on a one-page region at `a` | refuse the request (-1), as for an interior cut, so the region is never left with a wrapped length | not executed | Mmap.TrimAsWrittenWraps | Mmap.Trim |
| kernel/mmap.c:66-73 | `read_end - addr` wraps when the page starts past the end of the file, so a full page is requested from beyond the end of file | a two-page mapping of a 100-byte file, touching its second page | read 0 bytes and zero-fill the page | not executed | Mmap.ClampAsWrittenPastEof | Mmap.Clamp |
| kernel/bio.c:93-124 | a miss looks only at the head buffer of each bucket, so an idle buffer behind a busy head is never recycled | a cache whose every bucket head is busy while buffer 13 is idle | recycle any idle buffer, panicking only when every buffer is busy | not executed | Bio.BGetPanicsWithFreeBuffers | Bio.LookupFixed |
| user/yuval_lib.c:5-6 | letters are worth `c - 'A'` and `c - 'z'` | `chtol('A') == 0`, `chtol('f') == -20` | letters of either case worth 10..35 | not executed | YuvalLib.ChToLLetters | YuvalLib.ChToLFixed |
| user/yuval_lib.c:23 | the early return on a non-digit returns `ans` without the sign | `strtol("-12x")` returns 12 | return `ans * sign` on both exits | not executed | YuvalLib.StrToLDropsSign | YuvalLib.RenderThenStop |
| user/find.c:11-14 | the scan stops at the first character when no '/' precedes it, and `it++` then skips that character | `is_match("abc", "abc")` compares "bc" with "abc" | compare the whole last component | not executed | Find.BareNameMissed | Find.IsMatchMeansBasename |
