# Buddy allocator over a simulated Cortex-M SRAM, in Dafny

`heap.c` implements `malloc`/`free` for a 16 KB heap at `0x2000_1000` with
the binary buddy method. Block state lives outside the heap, in the Memory
Control Block (MCB): 512 two-byte entries at `0x2000_6800`, one per 32-byte
granule. The entry of the granule where a block starts holds the block's
size in bytes. Its low bit is the "occupied" flag. Every other entry of the
block is 0.

This project models that allocator and proves properties about it:

- `layout.dfy` (`Layout`): the address map and the `m2a`/`a2m`
  translations. It also covers the translations between SRAM addresses, MCB
  slots and heap granules, and the 32-bit wrap-around `_ralloc` relies on
  when it computes a block's address.
- `entry.dfy` (`Entry`): the entry encoding (size plus flag) and what
  `_rfree` needs of an entry to free it (`BlockStart`).
- `pow2.dfy` (`Pow2`): powers of two and the alignment arithmetic.
- `buddy_tree.dfy` (`BuddyTree`): the MCB invariant. A window of slots is
  one block, or two buddy halves that are again trees. The module also
  proves the consequences of the invariant: alignment, no overlap, and
  block sizes adding up to `max_size`.
- `alloc.dfy` (`Alloc`): `_ralloc` as the function `Search` over a window
  of slots, with lemmas about the blocks it hands out and the invariant it
  keeps. The midpoint write is a parameter: `IfFree` is the code as written
  and `IfEmpty` the corrected rule (see Findings).
- `free.dfy` (`Dealloc`): `_rfree` as the function `RFree`, built from
  rounds of `Coalesce` (clear the flag, locate the buddy by the parity of
  the block's index, merge).
- `init.dfy` (`Init`): `_kinit`'s effect on the MCB, with the clearing
  loop's start as a parameter.
- `roundtrip.dfy` (`RoundTrip`): on a fresh arena, freeing a single
  allocation gives back the fresh MCB.
- `traces.dfy` (`Traces`): concrete call sequences followed through
  `_ralloc`, `_rfree` and `_kinit`. Two buddies freed in either order give
  back the fresh MCB. The MCB of the midpoint finding is reached from a
  fresh arena. A stale entry kept by `_kinit` is handed out inside a live
  block.
- `heap.dfy` (`Heap`): class `Arena` holds the heap bytes, the MCB and
  `_malloc`'s `init` flag. Its methods follow the C functions statement by
  statement, over the C's MCB-address windows. Each method is proved to
  have the effect of the specification function above.

Model choices:

- MCB entries are `int`s and the heap bytes are a separate `array<int>`.
  Entry `i` is the `short` at `mcb_top + 2*i`.
- `_ralloc` and `_rfree` take their window or entry as MCB addresses, as in
  the C code. Ghost parameters tie those addresses to slot numbers.
- `_kalloc` and `_malloc` use the corrected midpoint rule, and `_malloc`
  uses the corrected `_kinit` loop. `Search`, `InitImage`, `Arena.Ralloc`
  and `Arena.Kinit` take the rule as a parameter, so the code as written is
  modelled by the same members.
- For the root block, `_rfree` reads its buddy at `mcb_top + 1024`, which is
  past the MCB. Nothing ever writes that location, so it reads 0 and no
  merge happens. The model treats a buddy outside the MCB as "no merge".
- `_rfree` returns the MCB address of the block that ends up free, not its
  argument as the comment at heap.c:132 says. `_kfree` only compares that
  value with 0, and it is never 0.

## Model

| member | source | states |
|---|---|---|
| Layout.M2A | heap.c:30-34 | a2m maps the array index back to the same SRAM address |
| Layout.TranslationsInverse | heap.c:30-42 | m2a and a2m are inverses in both directions |
| Layout.SlotOf | heap.c:19-22 | an MCB entry address names a slot in [0, 512) whose entry address is that address |
| Layout.SlotRoundTrip | heap.c:19-22 | every slot's entry address is an MCB entry address that names the slot again |
| Layout.Slots | heap.c:76 | a window [left, right] of entry addresses holds (right - left)/2 + 1 entries, all inside the MCB |
| Layout.McbAddrOfHeap | heap.c:222 | _kfree's mapping takes the start of every heap granule to an MCB entry address, the entry of that granule |
| Layout.HeapAddrOf | heap.c:222 | a slot's granule lies in [heap_top, heap_bot] on a 32-byte boundary, and _kfree's mapping takes it back to the slot's entry |
| Layout.Int32 | heap.c:116 | a C `int` result lies in [-2^31, 2^31) and agrees with the exact value modulo 2^32 |
| Layout.ShiftedAddress | heap.c:116 | `((left - 0x6800) << 4) + heap_top` in 32-bit ints equals heap_top + 16*(left - mcb_top), the granule of the slot at `left` |
| Entry.Occupied | heap.c:149 | the occupied flag is the entry's low bit (`% 2 != 0`), as at heap.c:111 and heap.c:149; it has no contract of its own, and what the flag reads on the entries the allocator writes is stated by Entry.SizeEntry and Entry.CodecRoundTrip |
| Entry.Mark | heap.c:115 | `e \| 1` is occupied and records the same size |
| Entry.Unmark | heap.c:159 | `e & ~1` is free and differs from e by at most the flag |
| Entry.CodecRoundTrip | heap.c:111-115 | a size survives marking then unmarking; the flag reads back; unmarking keeps a free entry and marking restores an occupied one |
| Entry.SizeEntry | heap.c:84-85 | the free and the occupied entry of a block of n granules decode to 32n bytes and span n slots |
| BuddyTree.TreeHead | heap.c:94-116 | the first entry of a tree window is a block no larger than the window |
| BuddyTree.LeafAt | heap.c:94-116 | every non-zero entry of a tree is a power-of-two block, aligned on its size, inside the window, with zero entries after it |
| BuddyTree.NoOverlap | heap.c:94-116 | two recorded blocks of a tree never overlap |
| BuddyTree.EntryIsBlockStart | heap.c:163-169 | every non-zero entry of a well-formed MCB is what _rfree needs: a power-of-two size of at least 32 bytes, aligned, inside the MCB |
| BuddyTree.Conservation | heap.c:84-85 | the sizes recorded in a tree window add up to 32 bytes per slot |
| BuddyTree.WellFormedConserves | heap.c:16 | the sizes recorded in a well-formed MCB add up to max_size |
| Init.FirstCleared | heap.c:244 | the clearing loop starts at an MCB entry address past mcb_top: the third entry as written, the second as corrected |
| Init.InitImage | heap.c:243-247 | after _kinit, entry 0 is max_size, every entry the loop reaches is 0, and entries before the loop start keep their value |
| Init.InitTableWellFormed | heap.c:243-247 | the loop started at the second entry yields the fresh MCB whatever came before, and that MCB is well formed |
| Init.InitWellFormed | heap.c:243-247 | _kinit leaves a well-formed MCB if and only if the loop starts at the second entry or the second entry already held 0 |
| Alloc.RecordsHalf | heap.c:101-102 | the midpoint test never lets the write land on an occupied entry, and lets it land on an empty one, under either rule |
| Alloc.Search | heap.c:74-123 | a size outside [min_size, max_size] gives NULL and writes nothing; a failed search writes nothing; a granted slot lies in the window |
| Alloc.SearchFrame | heap.c:94-116 | a search writes only inside its window and never overwrites an occupied entry |
| Alloc.DescendRight | heap.c:96-99 | one-step unfolding of Search: when the left half finds nothing, the window's outcome is the right half's |
| Alloc.DescendLeft | heap.c:96-106 | one-step unfolding of Search: when the left half grants a slot, the window grants it too, and writes the half-window size at the midpoint exactly when the rule allows |
| Alloc.SearchTakes | heap.c:109-122 | one-step unfolding of Search: a request above half the window takes the window's own entry if it is free and at least the window's size, and fails otherwise |
| Alloc.DepthLog | heap.c:94-99 | on a window of at most 2^k slots _ralloc nests at most k + 1 frames |
| Alloc.DepthBound | heap.c:74-99 | on the 512-entry MCB _ralloc nests at most 10 frames, and a 32-byte request nests exactly 10 |
| Alloc.SearchGrants | heap.c:94-116 | a granted block was free and is now occupied; it is a power of two aligned in the window, at least the request and less than twice it, and no larger than the entry it came from |
| Alloc.SearchKeepsTree | heap.c:94-122 | with the corrected midpoint rule a search keeps a tree window a tree, and inside one block it succeeds exactly when that block is free |
| Alloc.SearchFinds | heap.c:94-122 | with the corrected rule, if a tree window holds a free block of at least the request, the search succeeds |
| Alloc.AllocCorrect | heap.c:74-123 | with the corrected rule on a well-formed MCB: it stays well formed; a block is granted exactly when the size is valid and a large enough free block exists; the grant is as SearchGrants says |
| Alloc.StaleMergeBreaksTree | heap.c:101-105 | an MCB recording a free 128-byte block at slot 4 and an occupied block at slot 6 is not well formed |
| Alloc.ScenarioWellFormed | heap.c:74-193 | the MCB after four 64-byte allocations and two frees is well formed |
| Alloc.AsWrittenOverlaps | heap.c:101-105 | with the midpoint rule as written, a 32-byte request on that well-formed MCB leaves it not well formed, and a following 128-byte request is granted slot 4 as a block of 4 slots while slot 6 is still occupied |
| Dealloc.Mergeable | heap.c:166-191 | the root block (max_size) never has a mergeable buddy |
| Dealloc.FreeStep | heap.c:163-181 | a freed block of k granules with even index has its buddy k slots on, and with odd index k slots back; the merged block of 2k is again a block start |
| Dealloc.Coalesce | heap.c:145-191 | a round either stops at a block that cannot merge, or yields a block start of twice the size at the lower buddy that holds the freed block and differs from the old MCB only inside itself |
| Dealloc.RFree | heap.c:134-193 | _rfree ends at a free block start that holds the freed block, is at least as large, cannot merge further, and is the only part of the MCB that changed |
| Dealloc.RoundTerms | heap.c:145-155 | mcb_curr, the cleared entry over 16, is twice the block's number of granules |
| Dealloc.Quotients | heap.c:163 | the code's index (mcb_addr - mcb_top)/(size/16) is the block's index among blocks of its size |
| Dealloc.Rounds | heap.c:163-191 | one-step unfolding of Coalesce: a round merges with the right buddy when the index is even and that buddy equals the cleared entry, with the left buddy when the index is odd and that buddy equals it, and stops otherwise |
| Dealloc.RightBuddy | heap.c:179-181 | a block with an odd index has its buddy inside the MCB, before it |
| Dealloc.MergeRight | heap.c:167-177 | even index and an equal free entry k slots on: merge into a block of twice the size at the same slot and continue from there |
| Dealloc.MergeLeft | heap.c:179-189 | odd index and an equal free entry k slots back: merge into a block of twice the size at the buddy's slot and continue from there |
| Dealloc.MergeNone | heap.c:166-192 | one-step unfolding of RFree: no equal free buddy inside the MCB: _rfree only clears the flag and stops |
| Dealloc.ClearKeepsTree | heap.c:158-160 | clearing a block's flag keeps the MCB well formed |
| Dealloc.MergeKeepsTree | heap.c:173-176 | merging two equal free buddies keeps the MCB well formed |
| Dealloc.CoalesceKeepsTree | heap.c:145-191 | a round of _rfree keeps the MCB well formed |
| Dealloc.RFreeKeepsOccupied | heap.c:134-193 | freeing one block leaves every other occupied entry of the MCB as it was |
| Dealloc.FreeBothBuddies | heap.c:166-191 | two occupied buddies of k slots at lo and lo + k (lo a multiple of 2k) freed one after the other give the same MCB in either order, and the block that ends up free covers [lo, lo + 2k) |
| Dealloc.LeftBuddyFirst | heap.c:166-191 | freeing the left buddy first stops at once; freeing the right one then merges the pair into their parent and continues from it |
| Dealloc.RightBuddyFirst | heap.c:166-191 | freeing the right buddy first stops at once, its buddy being occupied |
| Dealloc.RFreeKeepsTree | heap.c:134-193 | freeing any non-zero entry of a well-formed MCB is defined and leaves it well formed |
| RoundTrip.AllocFromFresh | heap.c:94-116 | under either midpoint rule, on the fresh MCB a valid request is granted slot 0 in the smallest fitting power-of-two block, and every right half above it is recorded as a free block |
| RoundTrip.FreeLadder | heap.c:166-177 | freeing slot 0 of that MCB merges with every recorded buddy and gives back the fresh MCB |
| RoundTrip.AllocFreeRoundTrip | heap.c:74-193 | on a fresh arena, freeing the block a valid request was granted gives back the fresh MCB |
| Traces.ClimbLadder | heap.c:100-106 | a grant within the first h0 slots is the grant of every larger window when the free halves above it are already recorded |
| Traces.TwoRequestsFreed | heap.c:74-193 | two 100-byte requests on a fresh arena get the 128-byte buddies at slots 0 and 4, and freeing both in either order gives back the fresh MCB |
| Traces.ScenarioReached | heap.c:74-193 | four 64-byte requests on a fresh arena get slots 0, 2, 4 and 6, and freeing slots 0 and 4 leaves the MCB of the midpoint finding |
| Traces.StaleEntryOverlaps | heap.c:238-248 | after _kinit as written over an MCB whose second entry is 32, a 64-byte request gets slot 0 as a 2-slot block and a 32-byte request then gets slot 1, inside it |
| Traces.KinitAfterMalloc | heap.c:238-265 | a fresh arena's 32-byte request leaves 32 in the second entry, so the overlap above follows from _malloc(32), _kinit, _malloc(64), _malloc(32) |
| Heap.AddressOf | heap.c:88-122 | _ralloc returns NULL exactly when no slot was granted |
| Heap.BlankSearch | heap.c:109-122 | before any _kinit (all entries 0) every request fails and nothing is written |
| Heap.Arena.constructor | heap.c:12-22 | the zero-initialised globals: blank MCB, zeroed heap, init flag clear |
| Heap.Arena.Ralloc | heap.c:74-123 | _ralloc on the window [left, right] writes the MCB and returns the address that Search gives |
| Heap.Arena.RallocHalves | heap.c:94-108 | the case where the request fits in half the window, as Search |
| Heap.Arena.RallocRightHalf | heap.c:98-99 | the left half failed: the window's result is the right half's |
| Heap.Arena.KeepLeftHalf | heap.c:100-107 | the left half granted a slot: record the midpoint as the rule allows and return the left address |
| Heap.Arena.RecordHalf | heap.c:101-105 | the midpoint entry is set to the half-window size exactly when the rule allows, and nothing else changes |
| Heap.Arena.RallocWhole | heap.c:109-122 | the base case: mark the window's entry and return its address, or return NULL, as Search |
| Heap.Arena.Rfree | heap.c:134-193 | _rfree on the entry at mcb_addr writes the MCB as RFree and returns the MCB address of the block that ends up free |
| Heap.Arena.RfreeRightBuddy | heap.c:167-178 | even index: merge with the next block when it is equal and free and recurse, else stop, as RFree |
| Heap.Arena.RfreeLeftBuddy | heap.c:179-192 | odd index: merge into the previous block when it is equal and free and recurse from it, else stop, as RFree |
| Heap.Arena.MergePair | heap.c:175-176 | the absorbed entry becomes 0, then the survivor records the sum |
| Heap.Arena.Kalloc | heap.c:202-206 | _ralloc over the whole MCB writes it and returns the address as Search with the corrected rule, and the arena invariant (blank, or well formed) is kept |
| Heap.Arena.Kfree | heap.c:215-230 | NULL with no write outside [heap_top, heap_bot]; otherwise the entry at mcb_top + (ptr - heap_top)/16 is a block start, it is freed as RFree, every other occupied entry is unchanged, ptr is returned, and the arena invariant is kept |
| Heap.Arena.Kinit | heap.c:238-248 | every heap byte becomes 0 and the MCB becomes InitImage; it is well formed iff the loop covers the second entry or that entry was 0 |
| Heap.Arena.Malloc | heap.c:258-265 | the first call sets the flag and initialises; the request is then served from the fresh or the current MCB as Search |
| Heap.Arena.Free | heap.c:275 | exactly _kfree, including that the other occupied entries are unchanged |

## Left out

- `printArray` (heap.c:49-57): debug output only.
- The byte layout of the simulated SRAM (`char array[0x8000]` read as `short`): MCB entries and heap bytes are separate integer arrays. Every entry value stays below 32768, so no `short` overflow arises. The SRAM outside the heap and the MCB is not modelled.
- The SVC dispatch and the startup code that calls `_kinit` (heap.c:197, heap.c:234-236) are not part of this file.
- Heap contents: the allocator never reads or moves user data. Only `_kinit`'s zeroing is modelled.
- Heap.Arena.Kfree: requires that a pointer inside the heap maps to an MCB entry address whose entry is non-zero. Otherwise `_rfree` divides by zero at heap.c:163, or reads half of one entry and half of the next. That behaviour is undefined, so it is not modelled.
- Heap.Arena.Free: carries the same requirement as `Kfree`, for the same reason.
- Heap.Arena.Rfree: requires the entry to be a block start (`BlockStart`). In a well-formed MCB every non-zero entry is one (`BuddyTree.EntryIsBlockStart`).
- Heap.Arena.Kalloc: uses the corrected midpoint rule. `Heap.Arena.Ralloc` with `IfFree` is the code as written.
- Heap.Arena.Malloc: runs `_kinit` with the corrected loop. `Heap.Arena.Kinit` with `FromThirdEntry` is the loop as written.

## Findings

| source | as written | input that shows it | evidently intended | confidence | as-written member | corrected member |
|---|---|---|---|---|---|---|
| heap.c:101-105 | after a successful left descent, the midpoint entry is set to the half-window size whenever its low bit is clear, even when it already records a smaller free block of a split right half | from a fresh arena: `_malloc(64)` four times (0x20001000, 0x20001040, 0x20001080, 0x200010C0), `_free(0x20001000)`, `_free(0x20001080)`, `_malloc(32)`. Entry 4 now records a free 128-byte block over the live block at entry 6, and `_malloc(128)` returns 0x20001080, which overlaps 0x200010C0. Traces.ScenarioReached derives the MCB before `_malloc(32)` from a fresh arena | write the midpoint only when its entry is 0, i.e. the right half has no block recorded yet | not executed | Alloc.AsWrittenOverlaps | Alloc.AllocCorrect |
| heap.c:244 | the MCB clearing loop starts at `mcb_top + 4`, so the second entry keeps its old value | `_kinit` on the MCB left by one `_malloc(32)` on a fresh arena: entry 1 holds 32 and keeps it. Then `_malloc(64)` returns 0x20001000, a 64-byte block over entries 0 and 1, and `_malloc(32)` returns 0x20001020, inside that live block | start the loop at `mcb_top + 2`, clearing every entry after the first | not executed | Traces.KinitAfterMalloc | Init.InitTableWellFormed |
