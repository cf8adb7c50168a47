# my_allocator in Dafny

A model of `my_allocator<T, N>`, a fixed-size arena allocator that uses
boundary tags. The allocator owns a buffer of N bytes. The buffer is tiled
from left to right by blocks laid out as `[int tag][payload][int tag]`:

- both tags hold the payload length in bytes;
- a positive tag means the block is free;
- a negated tag means the block is allocated.

`allocate(n)` takes the first block that fits n elements. It absorbs that
block whole when the bytes left over could not form a viable block, and
splits it otherwise. `deallocate(p, n)` frees the block at p. It then merges
neighbouring free blocks, restarting its scan from the start after every
merge. `valid()` walks the tags and checks that the two tags of each block
match and that no two neighbouring blocks are free.

The model has three layers.

- **Buffer.** `Arena.Allocator` is a class. Its field `a` is an `array<int>`
  with one slot per byte offset: slot i stands for the int that
  `operator[](i)` reads and writes. A ghost field `blocks` holds the
  sequence of blocks that the tags describe.
- **Blocks.** `Blocks` defines the link between the two views: `Tiles(m,
  bs)` says the blocks bs lie back to back from offset 0 to N and their tags
  sit in m. The class invariant `Valid()` is tiling, no two free neighbours,
  and every payload at least `sizeof(T)`.
- **Policy.** `Policy` states allocate and deallocate on block sequences:
  - `FirstFit` is the first-fit search;
  - `Carve` is the absorb-or-split step;
  - `Freed` flips a block to free;
  - `Coalesce` repeats "merge the first neighbouring free pair" until no
    pair is left.

The methods of the class do what the source does to the array, loop for
loop, except for the two corrections listed under Findings: `Release` writes
the trailing tag at the end of the block the leading tag describes, and
`CoalesceTags` ends its first pass when the first block already reaches N.
Each method is proved to produce the blocks that these functions compute,
and to keep `Valid()`.

`Consistency` states `valid()` as a function `Walk` over the array
contents. It proves that `Walk` holds exactly when some tiling without free
neighbours exists.

A pointer into the buffer is a byte offset. `sizeof(T)` is the constant
`S`, which must be at least 1. An exception becomes an `Err`/`Fail` result
carrying `BadAlloc` or `InvalidArgument`.

## Model

| member | source | states |
|---|---|---|
| Arena.Create | projects/allocator/Allocator.h:120-132 | bad_alloc exactly when N < sizeof(T) + 8; otherwise a fresh allocator satisfying the invariant, holding one free block of N - 8 bytes |
| Arena.Allocator.constructor | projects/allocator/Allocator.h:128-131 | a[0] == a[N-4] == N - 8; the blocks are a single free block; valid() holds |
| Arena.Allocator.IsValid | projects/allocator/Allocator.h:75-99 | the loop returns Walk of the buffer, which holds iff some run of blocks tiles the buffer with matching tags and no two free neighbours |
| Consistency.WalkFrom | projects/allocator/Allocator.h:80-97 | definition: from offset i with the previous trailing tag last, the walk rejects two positive tags in a row, a tag pair that differs, and a tag read past N, and accepts on reaching N |
| Consistency.Walk | projects/allocator/Allocator.h:75-99 | definition: valid() is the walk from offset 0 with no block before it |
| Consistency.WalkAccepts | projects/allocator/Allocator.h:75-99 | every buffer tiled by blocks with no two free neighbours passes the walk |
| Consistency.WalkSound | projects/allocator/Allocator.h:75-99 | whatever passes the walk is tiled, up to exactly N, by the blocks the walk reads, and no two of them are neighbours that are both free |
| Consistency.WalkIffTiled | projects/allocator/Allocator.h:75-99 | valid() holds iff a tiling with no two free neighbours exists |
| Policy.Fits | projects/allocator/Allocator.h:162-163 | definition: a block fits a request of need bytes when its tag plus 8 is at least need plus 8 |
| Policy.Carve | projects/allocator/Allocator.h:164-176 | definition: the chosen block is absorbed whole, tag negated, when fewer than sizeof(T) + 8 bytes would be left; otherwise it is split into an allocated block of need bytes and a free block holding the rest minus 8 |
| Policy.FirstFit | projects/allocator/Allocator.h:161-181 | the index found fits (tag + 8 >= need + 8), no earlier block fits, and "none" means no block fits |
| Policy.FitsOnlyFree | projects/allocator/Allocator.h:162-163 | for need >= 1 a block fits iff it is free with payload >= need, so an allocated block is never chosen |
| Policy.CarveShape | projects/allocator/Allocator.h:164-176 | the chosen block becomes allocated at the same offset with payload >= need. Absorbed: its size is unchanged and size - need < sizeof(T) + 8. Split: payload exactly need, followed by a free block of payload >= sizeof(T) in the same bytes. Blocks before and after are unchanged |
| Policy.CarveKeepsInvariant | projects/allocator/Allocator.h:145-176 | carving keeps the total length, no two free neighbours, and every payload >= sizeof(T) |
| Arena.Allocator.Allocate | projects/allocator/Allocator.h:150-184 | n == 0 or no fitting block: bad_alloc with buffer and blocks unchanged. Otherwise it returns start of the first fit + 4, the blocks become Carve of the old ones, only the chosen block's bytes change, and the invariant and valid() hold |
| Arena.Allocator.Take | projects/allocator/Allocator.h:163-177 | choosing between absorbing and splitting turns the blocks into Carve of the old blocks, keeps the invariant, and leaves the bytes outside the block unchanged |
| Arena.Allocator.TakeWhole | projects/allocator/Allocator.h:164-167 | negating the leading tag and copying it to the trailing slot tiles the buffer with that block now allocated |
| Arena.Allocator.TakePart | projects/allocator/Allocator.h:170-175 | the four tag writes tile the buffer with an allocated block of need bytes followed by a free block holding the rest minus 8 |
| Policy.Freed | projects/allocator/Allocator.h:222-225 | definition: deallocate's flip, block k becomes free with its payload unchanged and every other block stays |
| Policy.MergeAt | projects/allocator/Allocator.h:239-241 | definition: neighbours j and j + 1 become one free block of payload left + right + 8, the blocks around them unchanged |
| Policy.FirstFreePair | projects/allocator/Allocator.h:230-246 | the pair found is two neighbouring free blocks with no such pair before it; "none" means no two neighbours are free |
| Policy.MergeKeepsExtent | projects/allocator/Allocator.h:239-241 | merging two neighbours into one block of payload left + right + 8 keeps the bytes covered and removes one block |
| Policy.Coalesce | projects/allocator/Allocator.h:227-246 | the result has no two free neighbours, covers the same bytes, and has no more blocks than before |
| Policy.CoalesceMinPayload | projects/allocator/Allocator.h:239-241 | merging never produces a payload below sizeof(T) |
| Policy.CoalesceSettled | projects/allocator/Allocator.h:230-246 | with no two free neighbours the coalescing pass changes nothing |
| Policy.FreeMergesNeighbours | projects/allocator/Allocator.h:207-246 | freeing an allocated block merges it with exactly its free neighbours: one free block of payload c + (l + 8 if the left one is free) + (r + 8 if the right one is free) replaces them, and all other blocks stay |
| Policy.AllocateThenFree | projects/allocator/Allocator.h:150-248 | round trip: allocating from a valid block list and freeing the block obtained gives back the original blocks |
| Arena.Allocator.Deallocate | projects/allocator/Allocator.h:211-248 | a null pointer or one outside [0, N-1] gives invalid_argument and changes nothing. Otherwise the blocks become Coalesce of the old blocks with the block at p freed, and the invariant and valid() hold |
| Arena.Allocator.Release | projects/allocator/Allocator.h:219-225 | flipping both tags of an allocated block to positive tiles the buffer with that block free |
| Arena.Allocator.CoalesceTags | projects/allocator/Allocator.h:227-246 | the scan-merge-restart loop leaves the buffer tiled by Coalesce of the blocks it started from |
| Arena.Allocator.MergeTags | projects/allocator/Allocator.h:238-243 | the two writes of coalesced_space tile the buffer with blocks j - 1 and j merged; that merge is Coalesce's first step, and the next scan starts at the second block |
| Arena.Equal | projects/allocator/Allocator.h:47-49 | operator== is false for every pair of allocators |
| Arena.NotEqual | projects/allocator/Allocator.h:55-57 | operator!= is true for every pair of allocators |
| Arena.FirstScanOffset | projects/allocator/Allocator.h:231-237 | definition: the offset of the first leading tag the coalescing loop reads as written, the first tag's magnitude plus 8, never compared with N |
| Arena.SingleBlockScanOverruns | projects/allocator/Allocator.h:231-237 | in a tiled buffer that read is the second block's leading tag, and it falls at offset N or beyond exactly when one block spans the buffer |
| Arena.FlipAsWritten | projects/allocator/Allocator.h:219-225 | definition: deallocate's flip as written, negating the leading tag and writing the same value n * sizeof(T) bytes past p |
| Arena.FlipFreesExactBlock | projects/allocator/Allocator.h:219-225 | when n * sizeof(T) equals the payload of the allocated block at p, the flip as written leaves the buffer tiled by the blocks with that block freed, as Release does |
| Arena.FlipMissesTrailingTag | projects/allocator/Allocator.h:219-225 | when n * sizeof(T) differs from that payload, the block's real trailing tag keeps its negative value and the block's two tags no longer match a free block |
| Arena.ShortFreeBreaksTags | projects/allocator/Allocator.h:221-225 | after allocate(1) and allocate(9) on 100 bytes with sizeof(T) = 8, freeing the absorbed block as written leaves mismatched tags and valid() fails |

## Left out

- construct and destroy are placement new and an explicit destructor call. They touch no tag and are not modelled.
- The payload bytes and the `reinterpret_cast` aliasing behind `operator[]` are not modelled. The buffer holds one int per byte offset, and only tag slots are read or written.
- Pointers are byte offsets, and the range check compares offsets with 0 and N - 1.
- Exceptions are `Err`/`Fail` results. The `assert(valid())` calls become the precondition `Valid()` and the postcondition `Walk(a[..])`.
- The defaulted copy constructor, assignment and destructor are not modelled, and neither is the `FRIEND_TEST` hook.
- The O(1) and O(n) complexity comments are not modelled.
- Arena.Allocator.Allocate: requires n * sizeof(T) + 8 <= INT_MAX. The source's conversions between int and size_t beyond that are not modelled.
- Arena.Create: requires N <= INT_MAX and sizeof(T) >= 1. The source's unsigned comparison of N with an int is not modelled beyond that range.
- Arena.Allocator.IsValid: a tag read that would fall past the end of the buffer makes the model return false. The source reads out of bounds there, which is undefined.
- Arena.Allocator.Deallocate: requires p to be the payload offset of an allocated block when p passes the range check. The source does not check this: a double free or an interior pointer silently corrupts the tags.
- Arena.Allocator.Deallocate: the bytes it writes are not framed. Unlike Allocate, its contract does not state that the bytes inside the other allocated blocks stay unchanged.
- Arena.Allocator.Release: writes the trailing tag at p plus the payload held in the leading tag, not at p + n elements as the source does. FlipFreesExactBlock shows the two agree when n * sizeof(T) is the payload, and the second Findings row covers the case where they differ.
- Arena.Allocator.CoalesceTags: checks i < N after the first step of each pass, which the source does not. Without the check the source reads the int at offset N when one block spans the buffer; see the first Findings row.
- Arena.Allocator.Deallocate: the parameter n is not used. The model finds the trailing tag through the leading tag's size; see Findings.

## Findings

| source | as written | input that shows it | evidently intended | confidence | as-written member | corrected member |
|---|---|---|---|---|---|---|
| projects/allocator/Allocator.h:231-237 | after the `i == 0` step the coalescing loop reads `a[i]` and `a[i - 4]` without checking `i < N` | my_allocator<double, 16>: allocate(1) absorbs the only block, then deallocate(p, 1) reads the int at offset 16, past the 16-byte buffer | end the pass when the first block already reaches N | high, not executed | Arena.SingleBlockScanOverruns | Arena.Allocator.CoalesceTags |
| projects/allocator/Allocator.h:224-225 | the trailing tag is written at `p + n` elements, which is the block's end only when its payload is exactly n * sizeof(T) | my_allocator<double, 100>: allocate(1), then allocate(9) absorbs the 76-byte rest; deallocate(p, 9) writes offset 92 while that block's trailing tag stays -76 at offset 96, so valid() fails | write the trailing tag at p plus the payload length held in the leading tag | high, not executed | Arena.ShortFreeBreaksTags | Arena.Allocator.Release |
