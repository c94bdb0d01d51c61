# Static fixed-block pool allocator, modelled in Dafny

This project models the core of a static memory pool allocator written in C.
A pool handle (`TPool_handle`) owns a byte buffer of `POOL_NUM_BLOCKS *
POOL_BLOCK_SIZE` bytes split into equal blocks, and an occupancy bitmap with
one bit per block (1 = allocated, 0 = free) packed into
`(POOL_NUM_BLOCKS + 7) / 8` bytes. The configuration is 4 blocks of 32 bytes.
The pool offers four operations: `pool_init` zero-fills the handle,
`pool_alloc` takes the lowest-index free block (first fit), `pool_free`
validates a pointer and releases the block it names, and
`pool_get_free_count` counts the free blocks. The byte-fill helper `mem_set`,
which `pool_init` uses, is modelled too.

Files and modules:

- `pool_cfg.dfy` (`PoolConfig`): the block size and block count.
- `helper_routines.dfy` (`HelperRoutines`): `mem_set` as a loop filling a
  prefix of a byte array, with its null guard.
- `bitmap.dfy` (`Bitmap`): the static helpers of `src/pool.c`. These are
  `test_bit` as a pure function, `set_bit` and `clear_bit` as in-place array
  updates, and the first-fit scan `find_first_free` as a loop. Beside them
  sit the functions that give the bitmap its meaning: the allocated set, the
  free count and the first free index. Lemmas relate each bit operation to
  those functions.
- `pool.dfy` (`Pool`): the handle as a class with the arrays `memory` and
  `bitmap`, the four operations as methods, and the pointer validation of
  `pool_free` as a pure function. The abstract state is `Allocated()`, the
  set of allocated block indices.
- `pool_scenario.dfy` (`PoolScenario`): clients that replay the scenarios of
  `demo/test_pool.c` using only the operations' contracts. `FillFreshPool`
  allocates the four blocks of an empty pool in order. `ExhaustAndReuse`
  then sees the fifth allocation fail, frees the first block and gets it
  back. `DoubleFree` shows that a second release changes nothing.
  `RejectedPointers` shows that null, out-of-range and misaligned pointers
  leave the bitmap as it was.

Pointers are byte offsets from `memory[0]`, of type `Option<int>`. `None` is
the null pointer. An offset below 0, or at or past `POOL_NUM_BLOCKS *
POOL_BLOCK_SIZE`, stands for a pointer that does not point into this pool.
Bytes are `bv8`. The bit operations use the same shifts and masks as the C
code.

`pool_init` is idempotent because its postcondition fixes the whole new state
without mentioning the old one: it zeroes both arrays and leaves
`Allocated()` empty, so prior allocations are discarded.

Where the program's own documentation and its code differ, the model follows
the code. The doc comment of `pool_get_free_count` says it scans the entire
bitmap (src/pool.c:239), but the loop counts the clear bits among the first
`POOL_NUM_BLOCKS` bits only, so padding bits are never read. The header
src/pool.h claims O(1) allocation (src/pool.h:6), which does not match the
linear scan of `find_first_free`; complexity is not modelled.

## Model

| member | source | states |
|---|---|---|
| `Bitmap.Mask` | src/pool.c:40 | the mask `1 << k` has exactly one bit set, and that bit is bit `k` |
| `Bitmap.TestBit` | src/pool.c:80-85 | the result is 0 or 1, and it is 1 exactly when the mask of position `index % 8` meets byte `index / 8` |
| `Bitmap.WithBitSet` | src/pool.c:36-41 | after setting bit `index`, that bit reads 1, every other bit reads as before, and every other byte is unchanged |
| `Bitmap.WithBitCleared` | src/pool.c:57-63 | after clearing bit `index`, that bit reads 0, every other bit reads as before, and every other byte is unchanged |
| `Bitmap.SetBit` | src/pool.c:36-41 | the in-place update leaves the array equal to `WithBitSet` of its old contents |
| `Bitmap.ClearBit` | src/pool.c:57-63 | the in-place update leaves the array equal to `WithBitCleared` of its old contents |
| `Bitmap.CountFree` | src/pool.c:261-267 | the number of clear bits among the first `n` never exceeds `n` |
| `Bitmap.FirstFreeFrom` | src/pool.c:103-111 | the first-fit result is the lowest clear bit at or after `from`, and every bit before it is set; it is -1 exactly when all those bits are set |
| `Bitmap.FindFirstFree` | src/pool.c:100-112 | the scan returns the smallest `i < num_blocks` with bit `i` clear, and every bit below it is set; it returns -1 exactly when bits `0..num_blocks-1` are all set |
| `Bitmap.CountFreeComplementsAllocated` | src/pool.c:249-270 | the free count plus the size of the allocated set is `n` |
| `Bitmap.AllocatedAfterSet` | src/pool.c:164-165 | setting bit `k < n` adds exactly `k` to the allocated set |
| `Bitmap.AllocatedAfterClear` | src/pool.c:226-229 | clearing bit `k < n` removes exactly `k` from the allocated set |
| `Bitmap.FreeCountAfterSet` | src/pool.c:164-165 | setting a clear bit below `n` lowers the free count by exactly one |
| `Bitmap.FreeCountAfterClear` | src/pool.c:226-229 | clearing a set bit below `n` raises the free count by exactly one |
| `Bitmap.ZeroBitmapAllFree` | src/pool.c:124-132 | an all-zero bitmap has no allocated block, free count `n`, and first free index 0 |
| `Bitmap.FirstFreeAfterClear` | demo/test_pool.c:88-93 | when every block below `k` is allocated, freeing `k` makes `k` the next first-fit choice (round-trip reuse) |
| `HelperRoutines.ToByte` | base/helper_routines.c:24 | the byte `(uint8)value` has the value `value` modulo 256, so it differs from `value` by a multiple of 256 |
| `HelperRoutines.MemSet` | base/helper_routines.c:21-37 | returns `dest`; a null `dest` is returned as null; otherwise bytes `0..num` become `(uint8)value` and the bytes from `num` on keep their old values |
| `Pool.BlockIndexOf` | src/pool.c:195-223 | a pointer names a block exactly when it is non-null, inside the pool and a whole number of blocks from the start; the block's index is below `POOL_NUM_BLOCKS` and the pointer is that block's start |
| `Pool.BlockStartRoundTrip` | src/pool.c:167-168 | the start address `pool_alloc` returns for block `k` is read back by `pool_free` as block `k` |
| `Pool.PoolHandle.constructor` | src/pool_types.h:23-26 | the handle has a `memory` array of `POOL_NUM_BLOCKS * POOL_BLOCK_SIZE` bytes and a separate bitmap of `(POOL_NUM_BLOCKS + 7) / 8` bytes |
| `Pool.PoolHandle.Init` | src/pool.c:124-132 | every byte of memory and bitmap is zero, no block is allocated, and the free count is `POOL_NUM_BLOCKS`, whatever the earlier state was |
| `Pool.PoolHandle.Alloc` | src/pool.c:145-169 | null is returned, with the bitmap unchanged, exactly when every block is allocated. Otherwise the result is the start of the first free block `k`, and every block below `k` is allocated. Only bit `k` flips from 0 to 1, the allocated set gains `k`, and the free count drops by one |
| `Pool.PoolHandle.Free` | src/pool.c:188-230 | null, out-of-range and misaligned pointers and already free blocks leave the bitmap unchanged (so a double free is a no-op). A pointer to the start of an allocated block clears exactly that bit, and the allocated set loses exactly that block |
| `Pool.PoolHandle.GetFreeCount` | src/pool.c:249-270 | the count equals the number of clear bits among the first `POOL_NUM_BLOCKS` and `POOL_NUM_BLOCKS` minus the number of allocated blocks, so it lies in `0..POOL_NUM_BLOCKS` |
| `PoolScenario.AllocExpecting` | src/pool.c:156-168 | first fit is deterministic: when all blocks below a free block `k` are allocated, allocation returns block `k` |
| `PoolScenario.FillFreshPool` | demo/test_pool.c:111-117 | from an empty pool, four allocations return the starts of blocks 0, 1, 2 and 3 in that order, and afterwards all four blocks are allocated |
| `PoolScenario.ExhaustAndReuse` | demo/test_pool.c:119-120 | after `pool_init` and four allocations the fifth allocation returns null; releasing the first block leaves one block free, and the next allocation returns the released block |
| `PoolScenario.DoubleFree` | src/pool.c:179 | two releases of the same pointer leave the bitmap as one release does, so a second release changes nothing |
| `PoolScenario.RejectedPointers` | demo/test_pool.c:194-207 | releasing a null pointer, a pointer just before the pool, one at its end or one inside a block leaves the bitmap unchanged, whatever is allocated |

## Left out

- Null handles: every entry point's `NULL` handle branch is left out, because the handle is a non-null object in the model. The null-pointer branch of `mem_set` and the null-block branch of `pool_free` are modelled.
- Memory layout of the handle: `pool_init` clears the whole struct with one `mem_set` over `sizeof(TPool_handle)` bytes. The model has two separate arrays, so it makes one `MemSet` call per array. The effect is the same: every byte of both is zero.
- Pointer arithmetic: pointers are integer offsets from the start of `memory`. The C comparison of a foreign pointer against the pool bounds, which compares addresses of unrelated objects, is modelled as an offset outside `0..POOL_NUM_BLOCKS * POOL_BLOCK_SIZE`.
- Redundant index check: the `block_index >= POOL_NUM_BLOCKS` check of `pool_free` is kept in `Pool.PoolHandle.Free`, but the range and alignment checks before it already rule that case out, so it never fires.
- Block contents: the allocator never reads or writes `memory` after `pool_init`, and `Alloc` and `Free` cannot modify it. Data written by clients into blocks, which the demo tests check, is not modelled.
- Integer widths: `uint32` indices and counts are unbounded naturals. For this configuration the only `uint32` wrap is the final `num--` of `mem_set`'s loop test, which leaves `num` at `UINT32_MAX` once the loop ends. Nothing reads `num` afterwards, so the model's countdown simply stops at 0. `pool_init` passes `num = sizeof(TPool_handle)`, which is 129 bytes; the model fills the 128 bytes of `memory` and the 1 byte of the bitmap in two calls. The `(sint32)` cast of the scan result is not modelled for bitmaps of 2^31 bits or more.
- Handle contents before `pool_init`: the constructor promises only the array sizes. The source requires `pool_init` before any other operation.
- Concurrency, complexity and the printf-based test harness in demo/ are not modelled. The allocator is single-threaded by contract. The demo's scenarios appear only as the client methods of `PoolScenario`.
