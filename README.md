# A verified model of the mem_alloc allocation engine

This project models the allocation path of a small free-list memory allocator for
Windows (`Memory_Allocator/allocator.cpp`). The allocator keeps a singly linked list of
block headers, starting at `heap_head`. Each header sits at the start of a region committed
by `VirtualAlloc`. A call `allocate_mem(n)` does four things:

- It returns null for `n == 0`.
- Otherwise it rounds `n` up to a multiple of 16 and raises the result to at least 32.
- It then takes the first block in list order that is free and large enough.
- If no block fits, it commits a new region of `max(ALIGN(header + size), 64 KiB)` bytes,
  writes a header there, and appends that header at the tail of the list.

The design the allocator was written towards also has release, splitting, coalescing and
double-free detection. The code has none of them: nothing ever marks a block free. This
model follows the code. It proves, among other things, that every block reachable from
`heap_head` is in use in every reachable state. So the first-fit reuse branch is dead, and
every successful allocation appends a fresh block.

Three modules:

- `Sizing` (`sizing.dfy`): the constants and the size arithmetic. This covers the `ALIGN`
  macro, the clamp to `MIN_BLOCK_SIZE`, and the region size that `request_space` asks
  for. Sizes are 64-bit `size_t` values. Every sum the source computes in `size_t` is
  reduced modulo 2^64 here, so the model keeps the source's wrap-around. The lemmas
  state the rounding properties below that wrap. Two lemmas exhibit the wrap itself:
  - `allocate_mem(SIZE_MAX)` builds a 32-byte block.
  - For a request of `SIZE_MAX - 15`, the header claims more payload than the 64 KiB
    region holds.
- `HeapModel` (`heap_model.dfy`): the heap as a value. It holds the sequence of header
  fields in list order, first fit over it, one call of `allocate_mem` as a function, and
  a run of many calls from the empty heap. Its lemmas are the allocator's properties.
- `Allocator` (`allocator.dfy`): the heap as the source keeps it. `BlockHeader` objects
  are linked through `next`, and a `Heap` object holds `heap_head`. The methods
  `FindFreeBlock`, `RequestSpace` and `AllocateMem` follow the source's loops and field
  writes. Each is proved against the `HeapModel` functions through a ghost list `chain`
  of the reachable headers.

`sizeof(MemoryBlockHeader)` is taken as 32, its size on a 64-bit target with
`alignas(16)`. `VirtualAlloc` is modelled by a `granted` parameter, which says whether it
commits the region it is asked for. An address is a header plus a byte offset.

## Model

| member | source | states |
|---|---|---|
| Sizing.ClearLowBits | Memory_Allocator/allocator.cpp:7 | masking with `~(ALIGNMENT-1)` gives a multiple of 16 that is at most 15 below its argument |
| Sizing.Align | Memory_Allocator/allocator.cpp:4-7 | for every `size_t` input, `ALIGN` yields a `size_t` that is a multiple of 16 |
| Sizing.AlignBounds | Memory_Allocator/allocator.cpp:7 | for `n <= SIZE_MAX - 15`: `n <= ALIGN(n) < n + 16` |
| Sizing.AlignIsLeast | Memory_Allocator/allocator.cpp:7 | for `n <= SIZE_MAX - 15`, `ALIGN(n)` is at most every multiple of 16 that is `>= n` |
| Sizing.AlignIdempotent | Memory_Allocator/allocator.cpp:7 | `ALIGN(ALIGN(n)) == ALIGN(n)` for `n <= SIZE_MAX - 15` |
| Sizing.AlignWrapsAtTop | Memory_Allocator/allocator.cpp:7 | the macro wraps: `ALIGN(SIZE_MAX) == 0` |
| Sizing.EffectiveSize | Memory_Allocator/allocator.cpp:75-78 | for every non-zero request, the size `allocate_mem` works with is a multiple of 16 and at least 32 |
| Sizing.EffectiveSizeIsLeast | Memory_Allocator/allocator.cpp:75-78 | below the wrap, it covers the request and is the least multiple of 16 that is both `>= n` and `>= 32` |
| Sizing.EffectiveSizeWrapsAtTop | Memory_Allocator/allocator.cpp:75-78 | a request for `SIZE_MAX` bytes is normalised to 32 |
| Sizing.RegionSize | Memory_Allocator/allocator.cpp:47-51 | the region asked for is a multiple of 16 and at least 64 KiB |
| Sizing.RegionHoldsBlock | Memory_Allocator/allocator.cpp:47-51 | below the wrap, the region holds header plus payload, and is either 64 KiB or less than 16 bytes over header plus payload |
| Sizing.EffectiveBlockFitsRegion | Memory_Allocator/allocator.cpp:47-51 | for every request `0 < n <= SIZE_MAX - 47`, the block `allocate_mem` builds fits in the region `request_space` obtains |
| Sizing.RegionWrapsAboveMaxRequest | Memory_Allocator/allocator.cpp:47-51 | for a request of `SIZE_MAX - 15`, the header claims `SIZE_MAX - 15` payload bytes in a 64 KiB region |
| HeapModel.FirstFit | Memory_Allocator/allocator.cpp:34-43 | the result is the least list index whose header is free and at least `size`; there is none exactly when no header qualifies |
| HeapModel.InUseHeapHasNoFit | Memory_Allocator/allocator.cpp:34-43 | when every header is in use, first fit finds nothing |
| HeapModel.AllocateNull | Memory_Allocator/allocator.cpp:72-96 | null is returned exactly for a zero request, or when nothing fits and `VirtualAlloc` refuses; a null result leaves every header unchanged |
| HeapModel.AllocateReuses | Memory_Allocator/allocator.cpp:87-91 | on a first-fit hit, the result is that block; only its `is_free` changes, to false; the list length is unchanged |
| HeapModel.AllocateAppends | Memory_Allocator/allocator.cpp:79-101 | on a miss or an empty heap with the region granted, the list becomes the old list plus one new header (effective size, `MAGIC`, in use), and that header is the result |
| HeapModel.AllocateChosenInUse | Memory_Allocator/allocator.cpp:87-104 | the returned block carries `MAGIC`, is in use, and is at least the effective size |
| HeapModel.AllocateKeepsExisting | Memory_Allocator/allocator.cpp:86-101 | the list grows by at most one; no existing header changes its size or sentinel or becomes free |
| HeapModel.AllocatePreservesWellFormed | Memory_Allocator/allocator.cpp:62-89 | if every header has `MAGIC` and a size that is a multiple of 16 and at least 32, this still holds after the call |
| HeapModel.AllocatePreservesAllInUse | Memory_Allocator/allocator.cpp:62-89 | if every header is in use, this still holds after the call |
| HeapModel.Run | Memory_Allocator/allocator.cpp:70-105 | after k calls from `heap_head == NULL`, the list has at most k headers |
| HeapModel.ReachableHeapInUse | Memory_Allocator/allocator.cpp:62-89 | after any sequence of calls from the empty heap, every header is well formed and in use |
| HeapModel.ReachableNeverReuses | Memory_Allocator/allocator.cpp:86-101 | in every reachable heap first fit finds nothing, and a granted allocation appends a fresh header at the tail |
| Allocator.PayloadStepsBackToHeader | Memory_Allocator/allocator.cpp:24-26 | stepping back from a payload by `sizeof(MemoryBlockHeader)` lands on the start of its header |
| Allocator.BlockHeader.constructor | Memory_Allocator/allocator.cpp:62-65 | a new header has the given size, `MAGIC`, `is_free == false` and `next == NULL` |
| Allocator.RequestSpace | Memory_Allocator/allocator.cpp:45-68 | it returns null exactly when `VirtualAlloc` refuses; the region asked for is `RegionSize(size)` and holds header plus payload below the wrap; a new header is fresh, holds `size` (not the region size), `MAGIC` and in use, and has no successor |
| Allocator.Heap.constructor | Memory_Allocator/allocator.cpp:23 | the heap starts with `heap_head == NULL` and no blocks |
| Allocator.Heap.FindFreeBlock | Memory_Allocator/allocator.cpp:34-43 | on any linked list, and modifying nothing, it returns the header `FirstFit` selects, or null when `FirstFit` finds none |
| Allocator.Heap.InstallHead | Memory_Allocator/allocator.cpp:84 | the first block becomes `heap_head` and the whole list |
| Allocator.Heap.MarkInUse | Memory_Allocator/allocator.cpp:89 | only the chosen header's `is_free` changes; the list and its links are unchanged |
| Allocator.Heap.AppendAtTail | Memory_Allocator/allocator.cpp:97-101 | the tail walk ends at the last header; the new header is linked after it, and every earlier header and `heap_head` stay as they were |
| Allocator.Heap.AllocateMem | Memory_Allocator/allocator.cpp:70-78 | the new list of headers is `Allocate` of the old one, and the result is the payload of the header `Allocate` chooses, or null; existing headers keep their identity and order; a returned payload steps back to a header with `MAGIC` that is in use; "all in use" is preserved, and under it every success appends a fresh header |
| Allocator.Heap.PlaceBlock | Memory_Allocator/allocator.cpp:79-104 | the new list of headers is `Place` of the old one, and the result is the chosen header's payload or null; the list stays acyclic and grows only at the tail, by a fresh header |

## Left out

- `VirtualAlloc` and `Windows.h`: the operating system call is the `granted` parameter.
  The contents and page alignment of the committed region are not modelled.
- Raw addresses and pointer casts: an address is a header object plus a byte offset.
  Layout padding from `alignas(16)` is folded into the constant header size of 32 bytes.
- `main` and its printing: a demonstration driver with console output.
- Release, double-free detection, splitting and coalescing: the source has none of them.
  The split branch at line 91 is only a comment, so the model hands out the whole block.
- Thread safety and the process-wide `heap_head`: `heap_head` is a field of a `Heap`
  object, and calls are sequential.
- Allocator.RequestSpace: it promises that header plus payload fit in the region only when
  `header + size <= SIZE_MAX - 15`. Above that, the source's `size_t` sum wraps, and the
  model computes the same wrapped region size without claiming a fit.
