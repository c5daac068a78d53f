# dmm.c allocator, modelled in Dafny

`dmm.c` is a small explicit-free-list allocator that manages one region
obtained from the environment. Every block starts with a header holding a
taken flag, a payload size and the next and previous links of the free list.
`dmm.c` has four functions. The model covers three of them:

- **`dmalloc_init`** lays out the region. A taken, empty prologue header
  goes at the base. One free block fills the interior. A taken, empty
  epilogue header goes in the last header slot. All three are linked in
  address order.
- **`dmalloc(n)`** runs initialisation on the first call. It rounds `n` up to
  the alignment. It then walks the free list for the smallest block with room
  for the payload plus one more header, keeping the first one seen among
  equals. It splits that block: the block becomes taken with exactly the
  aligned size, and a free remainder header right behind the payload takes
  its place in the list.
- **`dfree(p)`** walks the free list to the first node at or above `p` and
  links the freed header in front of it. It then merges with the free block
  physically after it (case 1), and after that with the free block
  physically before it (case 2).

The model keeps the region as a sequence of headers in address order. Each
header is a `Block(offset, size, taken)`. The free list is a sequence of
header offsets (`Layout.Heap`). Reads and writes of headers are keyed by
offset (`Memory.Lookup`, `Store`, `Discard`), so `Allocate.Malloc` and
`Release.Free` follow the C code step by step:

- the best-fit walk;
- the split writes and the in-place list update;
- the relink walk;
- the two guarded merges, with the same pointer tests.

Each step is then related to an independent arena-level definition:

- `Allocate.SplitAt`;
- `Release.FreeBlocks`;
- `Coalescing.MergedInto`.

The heap invariant `Layout.Wf` says three things:

- the sentinels bound the arena;
- the headers tile the region;
- the free list is exactly the prologue, the free interior blocks and the
  epilogue, in address order.

`Layout.Coalesced` says that no two free blocks are adjacent.
`Layout.AllAligned` says that every offset and size is aligned.

The compile-time constants are a parameter `Arena.Config`:

- `alignment` is ALIGN's boundary;
- `header` is METADATA_T_ALIGNED;
- `maxHeapSize` is MAX_HEAP_SIZE.

`Arena.Valid` states what the code relies on: a positive alignment, an
aligned non-zero header, and a region with room for three headers.

Modules, leaves first:

| module | file | models |
|---|---|---|
| `Arena` | arena.dfy | the constants and ALIGN |
| `Memory` | memory.dfy | headers in address order, tiling |
| `Layout` | layout.dfy | the free list as a function of the arena, the invariants |
| `BestFit` | bestfit.dfy | the best-fit walk over node sizes |
| `Setup` | setup.dfy | `dmalloc_init`'s layout |
| `Allocate` | allocate.dfy | `dmalloc` on an initialised heap |
| `Release` | release.dfy | `dfree`: relink, case 1, case 2 |
| `Coalescing` | coalescing.dfy | `dfree`'s effect on the arena and the invariants it keeps |
| `RoundTrip` | roundtrip.dfy | `dfree` undoes `dmalloc` |
| `Allocator`, `AsWritten` | allocator.dfy | the static state, lazy init, the init-failure finding |
| `Scenario` | scenario.dfy | one concrete trace, proved |

Two boundary cases are decided as the code decides them:

- A zero-byte request is excluded by the precondition `n > 0`, since the
  code asserts it.
- When a block's size is exactly the aligned request plus one header, the
  split leaves a zero-byte free remainder, as the code does.
  `Scenario.FirstCall` shows such a split.

## Model

| member | source | states |
|---|---|---|
| Arena.Align | dmm.c:48 | the aligned size lies in `n .. n + alignment - 1` and is a multiple of the alignment: the least aligned size that holds `n` bytes |
| Arena.AlignRoundsUp | dmm.c:48 | ALIGN equals the rounding formula `((n + A - 1) / A) * A` |
| Arena.AlignedIsMultiple | dmm.c:48 | being aligned is the remainder test `x % A == 0` |
| Setup.InitHeap | dmm.c:137-163 | the fresh heap satisfies the invariant, is coalesced and aligned, and has three headers. The prologue is at 0, the free block at `H`, and the epilogue at `maxBytes - H`. The free block's size is `maxBytes - 3H` |
| Layout.WfSpan | dmm.c:151-152 | in any well-formed heap the headers and payloads add up to exactly `maxBytes` |
| Allocator.DmallocInit | dmm.c:137-142 | answers true exactly when the region is granted. The allocator is initialised exactly then, and the initial heap has one free interior block |
| BestFit.Choose | dmm.c:52-60 | no node exactly when no node has room. Otherwise the node picked has room, no node with room is smaller, and every node with room before it is strictly larger |
| BestFit.BestFitUnique | dmm.c:52-60 | at most one node meets that rule, so the tie rule leaves no choice |
| Allocate.Malloc | dmm.c:47-62 | NULL exactly when no free-list node has room for the aligned request plus a header. On NULL the heap is unchanged |
| Allocate.ChosenIsInner | dmm.c:52-60 | the node picked is never a sentinel, and names a free interior block with room |
| Allocate.MallocBestFit | dmm.c:52-60 | in address terms: the block picked is free, interior and has room. No free block with room is smaller, and every free block with room at a lower address is strictly larger |
| Allocate.MallocSplit | dmm.c:62-80 | when best fit picks a node, dmalloc writes exactly the arena-level split of that node's block for the aligned size, the remainder takes the node's place in the free list, and the pointer is the payload behind the chosen header |
| Allocate.SplitNodeIsSplitAt | dmm.c:64-77 | the header and link writes of the split give exactly the arena-level split: block `i` becomes taken with `a` bytes, and a free remainder header follows its payload |
| Allocate.MallocShape | dmm.c:64-80 | after a successful dmalloc the arena is the split of the chosen block, and the pointer is its header offset plus `H` |
| Allocate.SplitPreservesWf | dmm.c:64-74 | the remainder takes the split node's list position, and the heap stays well formed |
| Allocate.SplitCoalesced | dmm.c:64-77 | a split leaves no two adjacent free blocks |
| Allocate.SplitAligned | dmm.c:64-77 | a split by an aligned amount keeps every offset and size aligned |
| Allocate.MallocWf | dmm.c:38-81 | dmalloc keeps the heap invariant |
| Allocate.MallocKeeps | dmm.c:38-81 | dmalloc keeps the invariant, coalescing and alignment |
| Allocate.MallocPayload | dmm.c:64-80 | a non-NULL result is an aligned payload offset past the prologue. Its header is taken and records the aligned size, which is at least `n`. The payload and one more header end before the epilogue |
| Release.LiveBlock | dmm.c:88 | the header in front of a live payload is an interior, taken block |
| Release.InsertPos | dmm.c:89-97 | the walk stops at the first node at or above `p`: every node before it is below `p` |
| Release.FreeBounds | dmm.c:89-97 | the walk stops strictly after the prologue and no later than the epilogue |
| Release.RelinkPosition | dmm.c:89-104 | the freed header goes in at its rank among the free blocks |
| Release.RelinkBlocks | dmm.c:100 | writing the freed header back changes its flag and nothing else |
| Release.RelinkStep | dmm.c:99-104 | the relink gives exactly the heap whose arena has block `i` free, and that heap is well formed |
| Release.FreeAfter | dmm.c:107-108 | case 1's test holds exactly when the block physically after the freed one is free |
| Release.MergeRightAt | dmm.c:106-113 | when it holds, the freed block absorbs the next one, and the next node leaves the list |
| Release.MergeRightNone | dmm.c:106-113 | when the next block is taken, case 1 changes nothing |
| Release.RightStep | dmm.c:106-113 | case 1 absorbs the next block exactly when it is free, and the heap stays well formed |
| Release.FreeBefore | dmm.c:115-116 | case 2's test can only hold for the free block physically before the freed one |
| Release.MergeLeftAt | dmm.c:114-121 | when the block before is free, it absorbs the freed block and the freed node leaves the list |
| Release.MergeLeftNone | dmm.c:114-121 | when the block before is taken, case 2 changes nothing |
| Release.LeftStep | dmm.c:114-121 | case 2 merges exactly when the block before is free, and the heap stays well formed |
| Release.FreeMatches | dmm.c:85-123 | dfree gives exactly the listed heap of the arena-level free (free, absorb next, absorb previous) and is well formed |
| Coalescing.FreeBlocksShape | dmm.c:106-121 | freeing block `i` replaces exactly `i` and its free neighbours with one free block covering the same bytes. Every other header is unchanged, and the sentinels are never absorbed |
| Coalescing.FreeResult | dmm.c:85-123 | dfree's arena has that merged shape, and the heap is well formed |
| Coalescing.FreeKeeps | dmm.c:85-123 | dfree keeps the invariant, coalescing and alignment, and the blocks still cover `maxBytes` |
| RoundTrip.FreeUndoesSplit | dmm.c:106-113 | freeing the payload of a split whose left neighbour is taken merges the remainder back and restores the heap |
| RoundTrip.MallocFree | dmm.c:38-123 | on a coalesced heap, dfree of the pointer dmalloc handed out is live and restores the heap exactly |
| Allocator.Dmalloc | dmm.c:38-62 | initialises when needed, and answers NULL with the allocator still uninitialised when the grant is refused. Otherwise NULL exactly when no node of the heap has room, and then nothing changes. The invariant holds afterwards |
| Allocator.Dfree | dmm.c:85-123 | on a live payload the invariant holds afterwards, and the blocks cover `maxBytes` |
| Allocator.DmallocThenDfree | dmm.c:38-123 | whenever dmalloc answers non-NULL, the pointer is live, and dfree of it restores the state dmalloc allocated from |
| Allocator.RetryAfterRefusal | dmm.c:41-45 | after a refused grant, the next dmalloc behaves exactly as the first call would have |
| AsWritten.RawDmalloc | dmm.c:41-45 | as written: a refused grant leaves the marker, and a call starting from the marker has no defined result |
| AsWritten.RefusalThenDmalloc | dmm.c:139-142 | as written: after a refused grant, every later dmalloc reads through the marker, even when a grant would now succeed |
| Scenario.SampleInit | dmm.c:137-163 | with an 8-byte alignment, a 32-byte header and a 192-byte region: prologue at 0, a 96-byte free block at 32, epilogue at 160 |
| Scenario.FirstCall | dmm.c:38-81 | the first dmalloc(64) initialises and hands out offset 64, leaving an empty remainder at 128 |
| Scenario.SecondCall | dmm.c:62 | a second dmalloc(64) answers NULL and changes nothing |
| Scenario.FreeThenAgain | dmm.c:85-123 | dfree(64) restores the fresh heap, and dmalloc(64) then hands out 64 again |

## Left out

- The region request (`sbrk`) is the parameter `granted`. The base address is 0, and every pointer is an offset into the region.
- `print_freelist` writes to standard output and changes nothing, so it is not modelled.
- The previous links of the free list are not stored. The list is the sequence of node offsets, so each node's predecessor is the entry before it and the pointer writes of lines 71-74, 101-104, 110-111 and 117-119 are updates of that sequence.
- Payload contents are not modelled; only headers are.
- dmm.h is not part of this model. ALIGN is taken as round-up to a multiple of the alignment, and the constants are a parameter restricted by `Arena.Valid`.
- Allocate.Malloc: sizes are unbounded; the `size_t` wrap-around of `ALIGN(numbytes)` and `numbytes + METADATA_T_ALIGNED` for requests near `SIZE_MAX` is not modelled.
- `assert(numbytes > 0)` becomes the precondition `n > 0`.
- Release.Free: dfree of a pointer that is not a live payload, such as a foreign pointer, a double free or a pointer before initialisation, is undefined in the code. It is excluded by the precondition `Live`.
- RoundTrip.MallocFree: requires a coalesced heap. Every heap the allocator reaches is coalesced (`Allocator.Inv`).
- Concurrency: the code is single-threaded and so is the model.

## Findings

| source | as written | input that shows it | evidently intended | confidence | as-written member | corrected member |
|---|---|---|---|---|---|---|
| dmm.c:139-142 | `dmalloc_init` stores the result of `sbrk` in `freelist` before testing it, so a refused request leaves `(void*)-1` in `freelist`. The NULL test at line 41 then skips initialisation on every later call, and the best-fit walk reads the marker as a header | the region request is refused on the first `dmalloc`, then `dmalloc` is called again | a refused request leaves `freelist` NULL, so a later call retries initialisation | high; not executed | AsWritten.RefusalThenDmalloc | Allocator.RetryAfterRefusal |
