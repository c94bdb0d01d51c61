/**
 * The static fixed-block pool of src/pool.c. A pool handle owns `memory`,
 * NumBlocks blocks of BlockSize bytes laid end to end, and `bitmap`, one bit
 * per block (1 = allocated, 0 = free). A pointer handed to or returned by the
 * pool is its byte offset from `memory[0]`; `None` is the null pointer, and
 * offsets below 0 or at or beyond the end of `memory` stand for pointers that
 * do not point into this pool.
 */
module Pool {
  import opened Wrappers
  import opened PoolConfig
  import opened Bitmap
  import HelperRoutines

  /** Bytes of block storage (`POOL_NUM_BLOCKS * POOL_BLOCK_SIZE`). */
  const PoolBytes: nat := NumBlocks * BlockSize

  /** Bytes of bitmap: one bit per block, rounded up to whole bytes. */
  const BitmapBytes: nat := (NumBlocks + 7) / 8

  /**
   * The block a pointer names, as `pool_free` validates it: `None` for the
   * null pointer, for an offset outside `memory` and for an offset that is not
   * a whole number of blocks from the start; otherwise the block index.
   */
  function BlockIndexOf(p: Option<int>): (k: Option<nat>)
    ensures k.Some? <==> p.Some? && 0 <= p.value < PoolBytes && p.value % BlockSize == 0
    ensures k.Some? ==> k.value < NumBlocks && p.value == k.value * BlockSize
  {
    match p
    case None => None
    case Some(offset) =>
      if offset < 0 || offset >= PoolBytes then None
      else if offset % BlockSize != 0 then None
      else if offset / BlockSize >= NumBlocks then None
      else Some(offset / BlockSize)
  }

  /** The pointer `pool_alloc` hands out for block `k`, read back by `pool_free`, names `k`. */
  lemma BlockStartRoundTrip(k: nat)
    requires k < NumBlocks
    ensures BlockIndexOf(Some(k * BlockSize)) == Some(k)
  {
  }

  /** `TPool_handle`: block storage and its occupancy bitmap. */
  class PoolHandle {
    const memory: array<bv8>
    const bitmap: array<bv8>

    /** The layout of src/pool_types.h: both arrays have their configured sizes. */
    ghost predicate Valid()
    {
      memory.Length == PoolBytes && bitmap.Length == BitmapBytes && memory != bitmap
    }

    /** The abstract state: indices of the allocated blocks. */
    ghost function Allocated(): set<nat>
      reads bitmap
      requires Valid()
    {
      AllocatedSet(bitmap[..], NumBlocks)
    }

    /** A handle with storage of the configured sizes; its contents are unset until `Init`. */
    constructor ()
      ensures Valid() && fresh(memory) && fresh(bitmap)
    {
      memory := new bv8[PoolBytes];
      bitmap := new bv8[BitmapBytes];
    }

    /**
     * `pool_init`: zero-fills the handle. Every block is free afterwards,
     * whatever was allocated before, so a second call changes nothing.
     */
    method Init()
      requires Valid()
      modifies memory, bitmap
      ensures forall i :: 0 <= i < memory.Length ==> memory[i] == 0
      ensures forall i :: 0 <= i < bitmap.Length ==> bitmap[i] == 0
      ensures Allocated() == {}
      ensures CountFree(bitmap[..], NumBlocks) == NumBlocks
    {
      var _ := HelperRoutines.MemSet(memory, 0, memory.Length);
      var _ := HelperRoutines.MemSet(bitmap, 0, bitmap.Length);
      ZeroBitmapAllFree(bitmap[..], NumBlocks);
    }

    /**
     * `pool_alloc`: takes the lowest-index free block, marks it allocated and
     * returns its start; null exactly when every block is already allocated,
     * and then nothing changes.
     */
    method Alloc() returns (p: Option<int>)
      requires Valid()
      modifies bitmap
      ensures p.None? <==> forall k: nat :: k < NumBlocks ==> k in old(Allocated())
      ensures p.None? ==> bitmap[..] == old(bitmap[..])
      ensures p.Some? ==> BlockIndexOf(p).Some?
      ensures p.Some? ==>
        var k := BlockIndexOf(p).value;
        && p.value == k * BlockSize
        && k == FirstFree(old(bitmap[..]), NumBlocks)
        && k !in old(Allocated())
        && (forall j: nat :: j < k ==> j in old(Allocated()))
        && bitmap[..] == WithBitSet(old(bitmap[..]), k)
        && Allocated() == old(Allocated()) + {k}
        && CountFree(bitmap[..], NumBlocks) == CountFree(old(bitmap[..]), NumBlocks) - 1
    {
      var blockIndex := FindFirstFree(bitmap, NumBlocks);
      ghost var before := bitmap[..];
      if blockIndex < 0 {
        assert forall k: nat :: k < NumBlocks ==> TestBit(before, k) == 1;
        return None;
      }
      assert blockIndex !in Allocated();
      assert forall j: nat :: j < blockIndex ==> TestBit(before, j) == 1;
      SetBit(bitmap, blockIndex);
      AllocatedAfterSet(before, NumBlocks, blockIndex);
      FreeCountAfterSet(before, NumBlocks, blockIndex);
      BlockStartRoundTrip(blockIndex);
      return Some(blockIndex * BlockSize);
    }

    /**
     * `pool_free`: returns a block to the free set. Only a pointer to the
     * start of a block of this pool whose bit is set has an effect, and it
     * clears exactly that bit; null, foreign and misaligned pointers and
     * already free blocks leave the bitmap as it was.
     */
    method Free(p: Option<int>)
      requires Valid()
      modifies bitmap
      ensures BlockIndexOf(p).None? ==> bitmap[..] == old(bitmap[..])
      ensures BlockIndexOf(p).Some? ==>
        var k := BlockIndexOf(p).value;
        bitmap[..] == if k in old(Allocated()) then WithBitCleared(old(bitmap[..]), k) else old(bitmap[..])
      ensures Allocated() == old(Allocated()) - (if BlockIndexOf(p).Some? then {BlockIndexOf(p).value} else {})
    {
      if p.None? {
        return;
      }
      var offset := p.value;
      if offset < 0 || offset >= PoolBytes {
        return;
      }
      var blockIndex := offset / BlockSize;
      if offset % BlockSize != 0 {
        return;
      }
      if blockIndex >= NumBlocks {
        return;
      }
      if TestBit(bitmap[..], blockIndex) == 1 {
        ghost var before := bitmap[..];
        ClearBit(bitmap, blockIndex);
        AllocatedAfterClear(before, NumBlocks, blockIndex);
      }
    }

    /**
     * `pool_get_free_count`: the number of free blocks, which is the number
     * of blocks outside the allocated set.
     */
    method GetFreeCount() returns (count: nat)
      requires Valid()
      ensures count == CountFree(bitmap[..], NumBlocks)
      ensures count == NumBlocks - |Allocated()|
      ensures count <= NumBlocks
    {
      count := 0;
      var i := 0;
      while i < NumBlocks
        invariant i <= NumBlocks
        invariant count == CountFree(bitmap[..], i)
      {
        if TestBit(bitmap[..], i) == 0 {
          count := count + 1;
        }
        i := i + 1;
      }
      CountFreeComplementsAllocated(bitmap[..], NumBlocks);
    }
  }
}
