# zephyr allocators and bit helpers in Dafny

This project models the two memory allocators of the zephyr C++ library
and its small integer helpers, and proves what their code promises.

- **Loki-style small-object allocator** (`loki_allocator.dfy`, module
  `LokiAllocator`).
  - A `chunk` is an arena of up to 255 equal blocks. Its free blocks form an
    intrusive list: the first byte of a free block holds the index of the
    next free one. The class `Chunk` keeps that byte per block in the array
    `links`, plus `base` (`p_data_`), `avail` (`block_available_`) and
    `first` (`first_available_block_`).
  - A `fixed_allocator` owns a vector of chunks and two cached chunk
    pointers. The class `FixedAllocator` keeps the chunks as a sequence of
    `Chunk` objects and the caches as `Option<nat>` positions in it, because
    pointers into a `std::vector` are not stable.
  - Allocation is cached, then first fit. Deallocation searches outward from
    the deallocation cache and then compacts.
  - Each method is proved against a function on the abstract state
    `AllocState` (chunk buffers and free lists as values, plus both caches).
    The lemmas about those functions state the allocator's invariant, what
    allocate and deallocate hand out, and their round trip.
- **Segregated size-class pool allocator** (`pool_allocator.dfy`, module
  `PoolAllocator`).
  - Sixteen free lists serve the sizes 8, 16, ..., 128. They are threaded
    through the first word of each free block and refilled in batches of up
    to ten blocks. The batches are carved from one slab
    `[Z_heap_start, Z_heap_end)`, which grows by fresh system allocations.
  - The class `Pool` holds `Z_free_list` as an array and memory's first
    words as a map. Its ghost `shape` records three things:
    - the free lists as sequences;
    - every block ever carved, with its size;
    - a high-water mark of the addresses obtained from the system.
  - `PoolOk` is the invariant:
    - every list is a null-terminated chain of distinct blocks of its class;
    - carved blocks are pairwise disjoint;
    - carved blocks lie outside the slab.
- **Bit and integer helpers** (`internal_bit.dfy`, module `InternalBit`).
  - `lowbit`, `is_power_of2`, `bsf_constexpr` and `popcount` work on
    `bv32`/`bv64` words.
  - The branch-free `abs`, `max` and `min` work on 32-bit `int` values, with
    the arithmetic shift `>> 31` written out.
- **Modular exponentiation** (`zephyr_math.dfy`, module `ZephyrMath`).
  - `pow_by_mod` is a loop over unbounded integers. The requires clauses
    bound its products to `long long`.
  - The library's implicit conversion of a signed operand of `%` to
    `unsigned long long` is written out.

Addresses are natural numbers and 0 is the null pointer. The system
`::operator new` appears in the model as a parameter `sysBase`: the base of
a fresh range, which the caller supplies. `options.dfy` holds the `Option`
datatype both allocators use.

## Model

| member | source | states |
|---|---|---|
| InternalBit.BsfConstexpr | src/include/math/internal_bit.hpp:25-33 | for n != 0, returns the least x < 32 such that bit x of n is set; no lower bit is set |
| InternalBit.LowBit | src/include/math/internal_bit.hpp:58 | `n & -n` on a 32-bit word is 0 for 0; otherwise it is a single set bit that is also set in n, with no bit of n below it |
| InternalBit.LowBitIsPow2OfBsf | src/include/math/internal_bit.hpp:25-33 | if x is the first set bit of n, then lowbit(n) == 2^x |
| InternalBit.LowBitOfMask | src/include/math/internal_bit.hpp:58 | a set bit x with no bit of n below it makes lowbit(n) == 2^x |
| InternalBit.MaskMeansNoBits | src/include/math/internal_bit.hpp:31 | `n & LowMask(x) == 0` implies no bit below x is set (the loop condition of bsf_constexpr) |
| InternalBit.NoBitsMeansMask | src/include/math/internal_bit.hpp:31 | no set bit below x implies `n & LowMask(x) == 0` (the converse) |
| InternalBit.IsPowerOf2 | src/include/math/internal_bit.hpp:68 | is_power_of2(int) is true exactly for 2^k with 0 <= k < 31 |
| InternalBit.PowerOf2Iff | src/include/math/internal_bit.hpp:66-68 | the test `n > 0 && (n & (n - 1)) == 0` holds for a signed 32-bit word iff the word equals 2^k for some k < 31 (both directions) |
| InternalBit.PowerWitness | src/include/math/internal_bit.hpp:66-68 | a positive word with `n & (n - 1) == 0` is 2^k for some k < 31 |
| InternalBit.ShiftRight31Sign | src/include/math/internal_bit.hpp:71-80 | `n >> 31` on an int is -1 for a negative n and 0 otherwise |
| InternalBit.MaskFacts | src/include/math/internal_bit.hpp:71-75 | or and xor with the masks 0 and -1: xor with -1 is `~x` and xor with 0 is x |
| InternalBit.Abs | src/include/math/internal_bit.hpp:70-76 | for every int except INT_MIN, `(n ^ (n >> 31)) - (n >> 31)` is \|n\|, non-negative, and fits in an int |
| InternalBit.AbsIntMinOverflows | src/include/math/internal_bit.hpp:70-71 | at INT_MIN the formula yields 2^31, which does not fit in an int |
| InternalBit.SelectBySign | src/include/math/internal_bit.hpp:78-85 | `(x & (d >> 31)) \| (y & (~d >> 31))` selects x when d < 0 and y otherwise |
| InternalBit.Max | src/include/math/internal_bit.hpp:78-81 | when a - b does not overflow, the result is one of a and b and at least both |
| InternalBit.Min | src/include/math/internal_bit.hpp:83-85 | when a - b does not overflow, the result is one of a and b and at most both |
| InternalBit.LowBit64 | src/include/math/internal_bit.hpp:55-56 | lowbit<long long> on a 64-bit word: 0 for 0, otherwise the lowest set bit of n |
| InternalBit.ClearLowest | src/include/math/internal_bit.hpp:96 | for n != 0, clearing the lowest set bit removes exactly one set bit |
| InternalBit.SubLowBitCount | src/include/math/internal_bit.hpp:96 | for n != 0, `n - lowbit(n)` has exactly one set bit fewer than n |
| InternalBit.Popcount | src/include/math/internal_bit.hpp:87-98 | returns the number of set bits of n for every n >= 0; for a negative n the last round negates LLONG_MIN, a signed overflow in C++, taken here as the two's-complement wrap, so the bits of the 64-bit word are counted |
| ZephyrMath.ToUnsigned | src/include/math/math.h:37-39 | converting a long long to unsigned long long keeps a non-negative value and adds 2^64 to a negative one |
| ZephyrMath.PowMod | src/include/math/math.h:37-39 | reducing the base modulo m before raising it to k does not change the result modulo m |
| ZephyrMath.StepPreserves | src/include/math/math.h:35-40 | one squaring round preserves the loop invariant `result * p^n ≡ target (mod mod)`, for odd and for even n |
| ZephyrMath.BitLengthBounds | src/include/math/math.h:35-38 | the loop's round count BitLength(n) satisfies 2^(len-1) <= n < 2^len, i.e. it is floor(log2 n) + 1 |
| ZephyrMath.RoundNoOverflow | src/include/math/math.h:37-39 | with (mod - 1)^2 within long long and p*p representable, no product of a round overflows |
| ZephyrMath.PowByMod | src/include/math/math.h:31-43 | the result lies in [0, mod) and equals Expected(p, n, mod); for p >= 0 it is p^n mod mod; for n == 0 it is 1 % mod; the loop runs BitLength(n) rounds |
| ZephyrMath.NegativeBaseDiffers | src/include/math/math.h:37 | as written, pow_by_mod(-1, 1, 3) is 0 while (-1)^1 mod 3 is 2 |
| ZephyrMath.PowByModReduced | src/include/math/math.h:31-43 | with the base first reduced into [0, mod), the result is p^n mod mod for every long long base |
| LokiAllocator.FreeChain | src/include/memory/loki_allocator.h:113 | following link bytes from a head for count steps visits at most count blocks, all inside the buffer |
| LokiAllocator.ResetChain | src/include/memory/loki_allocator.h:27-38 | when block i links to i + 1, the free list from block k is k, k+1, ..., n-1 |
| LokiAllocator.ChainFrame | src/include/memory/loki_allocator.h:125 | writing the link byte of a block that is not on the free list leaves the free list unchanged |
| LokiAllocator.DistinctBound | src/include/memory/loki_allocator.h:22-23 | a free list of distinct block indices below n has at most n entries |
| LokiAllocator.Chunk.Reset | src/include/memory/loki_allocator.h:27-38 | sets avail to the block count and first to 0, makes block i link to i + 1, and makes the free list 0, 1, ..., blocks-1 |
| LokiAllocator.Chunk.constructor | src/include/memory/loki_allocator.h:40-48 | a new chunk at the fresh base has all its blocks free, in order |
| LokiAllocator.Chunk.Release | src/include/memory/loki_allocator.h:50-57 | a live buffer is dropped: base, avail and first become 0 and the free list is empty; a null chunk is left as it was |
| LokiAllocator.Chunk.Moved | src/include/memory/loki_allocator.h:68-76 | the new chunk takes over the other's buffer, counters and free list; the other becomes an empty null chunk |
| LokiAllocator.Chunk.MoveAssign | src/include/memory/loki_allocator.h:78-87 | the target takes over rhs's buffer and free list; rhs becomes an empty null chunk |
| LokiAllocator.Chunk.Allocate | src/include/memory/loki_allocator.h:89-121 | null exactly when no block is free; otherwise it returns base + blockSize * head, unlinks the head and decrements avail, and the head is no longer free |
| LokiAllocator.Chunk.Deallocate | src/include/memory/loki_allocator.h:123-129 | the block of p links to the old head and becomes the new head; avail grows by one; no other link byte changes |
| LokiAllocator.GiveThenTake | src/include/memory/loki_allocator.h:103-114 | LIFO reuse: after a block is given back, the next take hands out that block and restores the chunk |
| LokiAllocator.ExchangeChunks | src/include/memory/loki_allocator.h:275 | std::swap through the move constructor and move assignments exchanges two chunks' buffers and free lists |
| LokiAllocator.Owner | src/include/memory/loki_allocator.h:182-209 | the first chunk whose buffer contains p; None exactly when no chunk contains p |
| LokiAllocator.OwnerUnique | src/include/memory/loki_allocator.h:182-209 | with pairwise apart buffers, any chunk containing p is the owner of p |
| LokiAllocator.FirstFit | src/include/memory/loki_allocator.h:155-171 | the first chunk in vector order with a free block; None exactly when no chunk has one |
| LokiAllocator.AllocTarget | src/include/memory/loki_allocator.h:154-172 | keeps the allocation cache while its chunk has a free block, else takes the first fit; None exactly when no chunk has a free block |
| LokiAllocator.SelectSpec | src/include/memory/loki_allocator.h:154-172 | after the selection step the allocation cache points at a chunk of the vector |
| LokiAllocator.Swap | src/include/memory/loki_allocator.h:275 | exchanges positions i and j and leaves every other chunk in place |
| LokiAllocator.Compact | src/include/memory/loki_allocator.h:227-282 | acts only when the freed chunk is wholly free; it pops at most the last chunk, never empties the vector, and swaps only the freed chunk with the last; both caches stay valid |
| LokiAllocator.AllocSpecOk | src/include/memory/loki_allocator.h:153-174 | allocate keeps the allocator invariant: caches null or in range, free lists distinct and in range, buffers apart and non-null |
| LokiAllocator.SelectOk | src/include/memory/loki_allocator.h:154-172 | the selection step keeps the allocator invariant |
| LokiAllocator.PushOk | src/include/memory/loki_allocator.h:157-160 | appending a fresh chunk and resetting the caches to back and front keeps the invariant |
| LokiAllocator.TakeOk | src/include/memory/loki_allocator.h:173 | taking a chunk's head block keeps the invariant |
| LokiAllocator.GiveOk | src/include/memory/loki_allocator.h:213 | giving back a handed-out block keeps the invariant |
| LokiAllocator.SwapOk | src/include/memory/loki_allocator.h:275 | exchanging two chunks keeps the buffers apart and the free lists in range |
| LokiAllocator.CompactOk | src/include/memory/loki_allocator.h:227-282 | the compaction rule keeps the invariant |
| LokiAllocator.AllocExisting | src/include/memory/loki_allocator.h:153-174 | when some chunk has a free block: nothing is appended, the cached chunk is kept while it has a block, and only the target chunk loses its head, whose address is returned |
| LokiAllocator.AllocAppend | src/include/memory/loki_allocator.h:155-173 | when no chunk has a free block, exactly one chunk at sysBase is appended, its first block is handed out, and the caches point at back and front |
| LokiAllocator.AllocHandsOut | src/include/memory/loki_allocator.h:103-104 | the returned address starts a block of exactly one chunk, and that block is not free |
| LokiAllocator.BlockAddress | src/include/memory/loki_allocator.h:103-104 | block b, when not free, is handed out at base + blockSize * b |
| LokiAllocator.ContainerUnique | src/include/memory/loki_allocator.h:182-209 | a block handed out in one chunk is handed out in the vector |
| LokiAllocator.DeallocSpecOk | src/include/memory/loki_allocator.h:176-295 | deallocating a handed-out block keeps the invariant |
| LokiAllocator.ReturnHead | src/include/memory/loki_allocator.h:123-129 | pushing back the head block just taken restores the chunk |
| LokiAllocator.GiveBackHead | src/include/memory/loki_allocator.h:153-295 | when allocate takes its block from an existing chunk and that chunk does not become wholly free again (so compaction leaves the vector alone), the block just allocated is owned by that chunk, and do_deallocate restores every free list |
| LokiAllocator.AllocDeallocRoundTrip | src/include/memory/loki_allocator.h:153-295 | with a non-null deallocation cache, when allocate takes its block from an existing chunk that does not become wholly free again, deallocating the block just allocated restores every free list, with both caches on that chunk |
| LokiAllocator.DeallocNullSticks | src/include/memory/loki_allocator.h:176-212 | as written, a null deallocation cache makes every deallocate a no-op |
| LokiAllocator.NullFreeLosesBlocks | src/include/memory/loki_allocator.h:176-212 | as written, freeing an address in no chunk nulls the cache, and every later deallocate is lost |
| LokiAllocator.NullInNoChunk | src/include/memory/loki_allocator.h:176-177 | the null pointer lies in no chunk, so deallocate(nullptr) takes that path |
| LokiAllocator.DeallocMatchesFixed | src/include/memory/loki_allocator.h:176-209 | with a non-null cache and an address inside some chunk, the written and the corrected deallocate agree |
| LokiAllocator.DeallocFixedRoundTrip | src/include/memory/loki_allocator.h:176-209 | with the owner searched whatever the cache holds, an address in no chunk changes nothing; and, whatever the cache, when allocate takes its block from an existing chunk that does not become wholly free again, deallocating it restores every free list |
| LokiAllocator.FixedAllocator.constructor | src/include/memory/loki_allocator.h:145-151 | no chunks, and both caches null |
| LokiAllocator.FixedAllocator.Allocate | src/include/memory/loki_allocator.h:153-174 | the new state and the returned address are AllocSpec of the old state; chunks are only ever appended; the invariant is kept |
| LokiAllocator.FixedAllocator.Select | src/include/memory/loki_allocator.h:154-172 | the state becomes SelectSpec of the old one |
| LokiAllocator.FixedAllocator.Rescan | src/include/memory/loki_allocator.h:155-171 | the scan-and-append path reaches SelectSpec of the old state |
| LokiAllocator.FixedAllocator.SetAllocCache | src/include/memory/loki_allocator.h:168 | only the allocation cache changes |
| LokiAllocator.FixedAllocator.FindFree | src/include/memory/loki_allocator.h:155-171 | the scan returns the first chunk with a free block, or the vector's length |
| LokiAllocator.FixedAllocator.PushChunk | src/include/memory/loki_allocator.h:157-160 | exactly one fresh chunk is appended; the caches go to back and front |
| LokiAllocator.FixedAllocator.TakeBlock | src/include/memory/loki_allocator.h:173 | takes from the cached chunk as TakeSpec says |
| LokiAllocator.SearchOutward | src/include/memory/loki_allocator.h:184-208 | searching outward from d, it returns a chunk whose buffer contains p, or None exactly when no chunk does, within \|chunks\| rounds |
| LokiAllocator.FixedAllocator.DeallocateChunkFind | src/include/memory/loki_allocator.h:182-209 | returns null for a null cache, else the chunk containing p, or null when none does; the search takes at most \|chunks\| rounds |
| LokiAllocator.FixedAllocator.Deallocate | src/include/memory/loki_allocator.h:176-179 | the state becomes DeallocSpec of the old one |
| LokiAllocator.FixedAllocator.DoDeallocate | src/include/memory/loki_allocator.h:211-295 | the state becomes DoDeallocSpec of the old one; the invariant is kept |
| LokiAllocator.FixedAllocator.GiveBlock | src/include/memory/loki_allocator.h:212-213 | chunk::deallocate on the cached chunk only |
| LokiAllocator.FixedAllocator.Compaction | src/include/memory/loki_allocator.h:227-282 | the state becomes Compact of the old chunks and caches |
| LokiAllocator.FixedAllocator.PopLast | src/include/memory/loki_allocator.h:235-237 | releases and pops the last chunk and sets the caches |
| LokiAllocator.FixedAllocator.SwapWithLast | src/include/memory/loki_allocator.h:275-281 | exchanges chunk d with the last one and points the allocation cache at the back |
| LokiAllocator.FixedAllocator.ExchangeAt | src/include/memory/loki_allocator.h:275 | exchanges two chunk objects; the views are swapped and the caches unchanged |
| PoolAllocator.AlignSizeListEntries | src/include/memory/pool_allocator.h:57-60 | the size list has 16 entries, and entry k is 8 * (k + 1) |
| PoolAllocator.ClassSize | src/include/memory/pool_allocator.h:90-102 | for n <= 128, the least entry of the size list that is at least n; 0 above 128 |
| PoolAllocator.ClassSizeRoundsUp | src/include/memory/pool_allocator.h:90-102 | above 8 bytes the class is n rounded up to the next multiple of 8 |
| PoolAllocator.ClassSizeIsClass | src/include/memory/pool_allocator.h:57-60 | the class of n <= 128 is a multiple of 8 between 8 and 128 |
| PoolAllocator.ClassSizeOfMultiple | src/include/memory/pool_allocator.h:57-60 | a multiple of 8 up to 128 is its own class |
| PoolAllocator.ClassIndex | src/include/memory/pool_allocator.h:104-106 | the list index lies in [0, 15], and entry k of the size list is the class of n, 8 * (k + 1) |
| PoolAllocator.RoundUp | src/include/memory/pool_allocator.h:90-102 | the binary search with a signed bound returns ClassSize(n) for every n |
| PoolAllocator.RoundUpAsWritten | src/include/memory/pool_allocator.h:90-102 | as written with an unsigned bound, every n <= 8 wraps `r` and reads out of bounds (None); every n > 8 gets ClassSize(n) |
| PoolAllocator.RoundUpOneByte | src/include/memory/pool_allocator.h:62-68 | allocate(1) looks up its list through Z_round_up(1), which reads out of bounds, while its class is 8 |
| PoolAllocator.FreelistIndex | src/include/memory/pool_allocator.h:104-106 | Z_freelist_index(n) is ClassIndex(n); for n <= 8 this is the corrected rounding (list 0), where the source reads out of bounds |
| PoolAllocator.IsListFrame | src/include/memory/pool_allocator.h:119-124 | a list stays a list when the first words of its blocks are unchanged |
| PoolAllocator.PoolOkReadable | src/include/memory/pool_allocator.h:66-71 | in a well-formed pool every non-null head can be dereferenced |
| PoolAllocator.PopOk | src/include/memory/pool_allocator.h:65-71 | popping list k keeps the pool well formed and hands out its head, now live, of size 8 * (k + 1) |
| PoolAllocator.PushOk | src/include/memory/pool_allocator.h:80-82 | pushing a live block of class k keeps the pool well formed; the block is no longer live |
| PoolAllocator.ChunkSpec | src/include/memory/pool_allocator.h:128-170 | Z_chunk_alloc yields a dereferenceable state and between 1 and nblock blocks |
| PoolAllocator.CarveOk | src/include/memory/pool_allocator.h:132-142 | taking bytes off the front of the slab keeps the pool well formed; the taken bytes overlap no carved block |
| PoolAllocator.RetireOk | src/include/memory/pool_allocator.h:145-148 | the slab remainder, taken as one block, is disjoint from every carved block |
| PoolAllocator.NewSlabOk | src/include/memory/pool_allocator.h:149-168 | a fresh system range at or above the high-water mark can become the slab |
| PoolAllocator.ScrapOk | src/include/memory/pool_allocator.h:145-148 | pushing the remainder on its own list keeps the pool well formed |
| PoolAllocator.RegrowOk | src/include/memory/pool_allocator.h:149-168 | installing a fresh range as the slab keeps the pool well formed |
| PoolAllocator.GrowOk | src/include/memory/pool_allocator.h:145-169 | the third branch of Z_chunk_alloc, up to its retry, keeps the pool well formed |
| PoolAllocator.ScrapIndexBelow | src/include/memory/pool_allocator.h:145-147 | a remainder smaller than the requested class goes on a lower list |
| PoolAllocator.ScrapListKept | src/include/memory/pool_allocator.h:145-147 | donating the scrap leaves the requested class's list unchanged |
| PoolAllocator.RegrowFits | src/include/memory/pool_allocator.h:149-169 | the new slab of 4 * need bytes holds the whole batch, so the retry carves it |
| PoolAllocator.ShrunkFits | src/include/memory/pool_allocator.h:137-139 | in the shrunk branch, between 1 and nblock - 1 whole blocks fit in the slab |
| PoolAllocator.ChunkCarveOk | src/include/memory/pool_allocator.h:132-143 | a carve branch returns an unowned run right below the new slab start and keeps the pool well formed |
| PoolAllocator.ChunkGrowOk | src/include/memory/pool_allocator.h:145-169 | the grow branch and its retry return an unowned run and keep the pool well formed |
| PoolAllocator.ChunkOk | src/include/memory/pool_allocator.h:128-170 | Z_chunk_alloc keeps the pool well formed; it returns a non-null run of nb blocks that no carved block overlaps, right below the slab start, and leaves the requested class's list as it was |
| PoolAllocator.Run | src/include/memory/pool_allocator.h:119-124 | a run of count blocks has count entries |
| PoolAllocator.RunShape | src/include/memory/pool_allocator.h:119-124 | a run's blocks are n bytes apart, increasing, and inside [c, c + count * n) |
| PoolAllocator.RunDistinct | src/include/memory/pool_allocator.h:119-124 | a run's blocks are distinct and at or above its start |
| PoolAllocator.AddRunOk | src/include/memory/pool_allocator.h:132-141 | recording an unowned run below the slab as carved blocks keeps all carved blocks pairwise disjoint |
| PoolAllocator.AddOneOk | src/include/memory/pool_allocator.h:132-141 | recording the first block of such a run keeps the rest of the run unowned |
| PoolAllocator.ThreadAt | src/include/memory/pool_allocator.h:120-124 | after the first k writes, blocks 0..k-1 of the run link onward, and memory outside the run is unchanged |
| PoolAllocator.LinkedList | src/include/memory/pool_allocator.h:120-124 | blocks that each link to the next, the last to null, form a list from the first |
| PoolAllocator.ThreadList | src/include/memory/pool_allocator.h:119-124 | after the loop the run is one null-terminated list in address order, and other memory is unchanged |
| PoolAllocator.OutsideRun | src/include/memory/pool_allocator.h:132-141 | an unowned run holds no existing block's address |
| PoolAllocator.RefillManyOk | src/include/memory/pool_allocator.h:115-125 | with more than one block carved, threading keeps the pool well formed and the first block is live |
| PoolAllocator.RefillListsOk | src/include/memory/pool_allocator.h:115-124 | list n becomes the run after its first block; the other lists stay chains of their class |
| PoolAllocator.RefillOneOk | src/include/memory/pool_allocator.h:112-113 | with one block carved, it is handed out live and no list changes |
| PoolAllocator.RefillOk | src/include/memory/pool_allocator.h:109-126 | Z_refill keeps the pool well formed and hands out a live block of class n |
| PoolAllocator.ClassOfClass | src/include/memory/pool_allocator.h:68 | refilling with Z_round_up(n) serves the list of n |
| PoolAllocator.AllocOk | src/include/memory/pool_allocator.h:62-73 | allocate keeps the pool well formed; n <= 128 gets a live block of ClassSize(n); n > 128 changes no list and no slab bound and gets a fresh 128-byte range above all pool memory |
| PoolAllocator.BigRequestShort | src/include/memory/pool_allocator.h:63-64 | as written, allocate(n) for n > 128 returns a system range of only 128 bytes, shorter than the n requested |
| PoolAllocator.AllocFixedOk | src/include/memory/pool_allocator.h:62-73 | with the corrected request size, allocate keeps the pool well formed, and n > 128 gets a fresh range of exactly n bytes above all pool memory, with no list, block or slab bound changed |
| PoolAllocator.DeallocOk | src/include/memory/pool_allocator.h:75-83 | deallocating a live block of its class keeps the pool well formed; the block is free again |
| PoolAllocator.DeallocThenAlloc | src/include/memory/pool_allocator.h:62-83 | LIFO: allocate right after deallocate(p, n) returns p and restores every list; only p's first word differs |
| PoolAllocator.AllocFromList | src/include/memory/pool_allocator.h:65-72 | from a non-empty list, allocate pops the first block, the head becomes its next link, and no other list, no memory and no slab bound changes |
| PoolAllocator.ChunkCarves | src/include/memory/pool_allocator.h:128-143 | with at least one block in the slab: the full batch if it fits, else 1 <= nb < nblock whole blocks leaving less than one block; start <= end |
| PoolAllocator.ChunkGrows | src/include/memory/pool_allocator.h:145-169 | a smaller slab: a non-empty scrap is pushed on the list of its own size; a new slab of 4 * size * nblock bytes at sysBase; Z_heap_size grows by as much; the retry carves the full batch |
| PoolAllocator.RefillList | src/include/memory/pool_allocator.h:109-126 | Z_refill returns the first carved block; with more carved, the class list is the rest in address order, n bytes apart and null-terminated; with one, no list changes |
| PoolAllocator.ThreadedList | src/include/memory/pool_allocator.h:115-124 | the list Z_refill builds has nb - 1 blocks from c + n, n bytes apart, and is followed from the new head |
| PoolAllocator.ReallocSameClass | src/include/memory/pool_allocator.h:85-88 | reallocate within one size class returns the very block it was given |
| PoolAllocator.Pool.constructor | src/include/memory/pool_allocator.h:46-60 | every list empty, no slab, nothing taken from the system |
| PoolAllocator.Pool.Allocate | src/include/memory/pool_allocator.h:62-73 | the new state and the result are AllocSpec of the old state; the invariant is kept; n <= 8 is served from list 0 by the corrected rounding |
| PoolAllocator.Pool.Deallocate | src/include/memory/pool_allocator.h:75-83 | the new state is DeallocSpec of the old state; above 128 bytes nothing changes; n <= 8 pushes onto list 0 by the corrected rounding |
| PoolAllocator.Pool.Reallocate | src/include/memory/pool_allocator.h:85-88 | deallocate, then allocate, composed on the abstract state |
| PoolAllocator.Pool.Refill | src/include/memory/pool_allocator.h:109-126 | the new state and the result are RefillSpec of the old state |
| PoolAllocator.Pool.LinkBlocks | src/include/memory/pool_allocator.h:112-125 | threads the carved run as Threaded says |
| PoolAllocator.Pool.ThreadHead | src/include/memory/pool_allocator.h:115-119 | the class list's head becomes the second block of the run |
| PoolAllocator.Pool.LinkRun | src/include/memory/pool_allocator.h:119-124 | the loop writes the links of blocks 1 .. nblock-1, each to the next and the last to null |
| PoolAllocator.Pool.ChunkAlloc | src/include/memory/pool_allocator.h:128-170 | the new state, start and block count are ChunkSpec of the old state |
| PoolAllocator.Pool.Carve | src/include/memory/pool_allocator.h:133-141 | advances the slab start by len and returns the old start |
| PoolAllocator.Pool.Grow | src/include/memory/pool_allocator.h:145-168 | donates the scrap and installs the new slab, as Regrow(Scrap(...)) says |
| PoolAllocator.Pool.ScrapIn | src/include/memory/pool_allocator.h:145-148 | pushes a non-empty remainder on the list of its class; an 8-byte remainder goes on list 0 by the corrected rounding |

## Left out

- Real memory. Addresses are unbounded naturals and the system allocator
  is a caller-supplied fresh base, so size_t wrap-around of pointers and
  exhaustion of system memory are not modelled.
- `::operator delete` and the above-128-byte pass-through
  (pool_allocator.h:64, 77) are system calls. The model leaves the pool
  untouched, and it claims only the 128 bytes that allocate(n > 128) in
  fact requests (Findings row 4).
- The out-of-memory branch of Z_chunk_alloc (pool_allocator.h:150-166):
  - it is unreachable, because `::operator new` throws instead of
    returning null;
  - its line 157 would overwrite the head's next link instead of
    unlinking the block;
  - `puts` is I/O and `std::bad_alloc` is an exception.
- The contents of handed-out blocks. The pool tracks only the first word
  of each block and a chunk only the first byte; user data is not
  modelled.
- C++ object lifetime:
  - `chunk::release` calling `delete` on `operator new` memory;
  - the move assignment not freeing the target's old buffer;
  - the destructors of `chunk` and `std::vector`.
  Buffer ownership appears only as bases becoming 0.
- The process-wide static state of `pool_allocator` is the one `Pool`
  object. The `loki_alloc<T>` singleton wrapper (loki_allocator.h:298-320)
  is not part of this model.
- `ceil_pow2` reads an uninitialised variable, and `bsf` is a compiler
  intrinsic; `pow` in math.h is floating point. None of these is modelled.
- InternalBit.Max: requires that a - b fits in an int, because the source's
  subtraction is a signed overflow otherwise.
- InternalBit.Min: requires that a - b fits in an int, for the same reason.
- InternalBit.Abs: requires n != INT_MIN, where the source's formula
  overflows (shown by AbsIntMinOverflows).
- ZephyrMath.PowByMod: requires that (mod - 1)^2 fits in a long long and,
  when n >= 1, that p * p does. These bounds make sure that no product of
  any round overflows. They are sufficient, not necessary, so they also
  exclude inputs the source computes correctly. For n == 0 no product is
  formed at all. pow_by_mod(2, 3, 2^40) returns 8 and no product in it
  exceeds 16, yet (2^40 - 1)^2 is above LLONG_MAX.
- LokiAllocator.FixedAllocator.Deallocate: requires that p was handed out.
  The source's behaviour for other pointers (a double free, a foreign
  pointer) corrupts a free list, and the model does not follow it. The
  abstract DeallocSpec does cover an address in no chunk.
- PoolAllocator.FreelistIndex, PoolAllocator.Pool.Allocate, PoolAllocator.Pool.Deallocate, PoolAllocator.Pool.Reallocate, PoolAllocator.Pool.ScrapIn:
  for n <= 8, and for an 8-byte slab remainder (reachable, for example,
  after 24-, 104- and 88-byte batches are carved from a 960-byte slab),
  these members and the abstract AllocSpec, DeallocSpec and Scrap use the
  corrected RoundUp and so serve list 0. The source's Z_freelist_index
  reads Z_align_size_list out of bounds there (Findings row 1), and the
  model does not follow that read.
- PoolAllocator.Pool.Deallocate, PoolAllocator.Pool.Reallocate: require
  that p is a live block of n's class. A double free (which makes a free
  list cyclic in the source) or a foreign pointer is not followed.
- InternalBit.Popcount: for a negative n the source's last round negates
  LLONG_MIN, a signed overflow with undefined behaviour in C++. The model
  takes it as the two's-complement wrap; only n >= 0 is a defined input.
- InternalBit.LowBit, InternalBit.LowBit64: at INT_MIN and LLONG_MIN the
  source's `-n` is a signed overflow. The model takes the two's-complement
  wrap; the documented domain is n >= 1.
- The cache pointers of fixed_allocator are positions in the chunk
  vector, so the raw pointer invalidation of `push_back` and any aliasing
  of the caches with vector elements are not modelled.

## Findings

| source | as written | input that shows it | evidently intended | confidence | as-written member | corrected member |
|---|---|---|---|---|---|---|
| src/include/memory/pool_allocator.h:91-97 | `r` is a `size_t`, so `r = mid - 1` at mid == 0 wraps to SIZE_MAX and the loop goes on to read Z_align_size_list far out of bounds | allocate(1) (any n <= 8, including an 8-byte slab scrap) | the least size-list entry that is at least n, 8 for n <= 8 | not executed | PoolAllocator.RoundUpAsWritten, PoolAllocator.RoundUpOneByte | PoolAllocator.RoundUp |
| src/include/math/math.h:37 | in `(result * p) % mod` a negative `long long` is converted to `unsigned long long` (plus 2^64) before `%` | pow_by_mod(-1, 1, 3) gives 0 | p^n mod mod, 2 for this input | not executed | ZephyrMath.NegativeBaseDiffers | ZephyrMath.PowByModReduced |
| src/include/memory/loki_allocator.h:177 | deallocate stores the search result in dealloc_chunk_ even when it is null, and a null cache makes every later search return null | deallocate(nullptr), then deallocate of a handed-out block, which is lost | the owner is searched whatever the cache holds, and a pointer in no chunk changes nothing | not executed | LokiAllocator.NullFreeLosesBlocks, LokiAllocator.DeallocNullSticks | LokiAllocator.DeallocFixed, LokiAllocator.DeallocFixedRoundTrip |
| src/include/memory/pool_allocator.h:63-64 | for a request above Z_max_bytes, allocate calls `::operator new(Z_max_bytes)`, so the range is 128 bytes whatever n is | allocate(200) returns a 128-byte range | `::operator new(_size)`, a range of n bytes | not executed | PoolAllocator.AllocOk, PoolAllocator.BigRequestShort | PoolAllocator.AllocFixedOk |
