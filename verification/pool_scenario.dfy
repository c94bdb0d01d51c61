/**
 * Clients of the pool that replay the scenarios of demo/test_pool.c. Each
 * assertion is derived from the contracts of `Pool.PoolHandle` alone.
 */
module PoolScenario {
  import opened Wrappers
  import opened PoolConfig
  import opened Bitmap
  import opened Pool

  /**
   * First-fit is deterministic: when every block below `k` is allocated and
   * `k` is free, an allocation returns block `k`.
   */
  method AllocExpecting(pool: PoolHandle, k: nat) returns (p: Option<int>)
    requires pool.Valid() && k < NumBlocks
    requires k !in pool.Allocated() && forall j: nat :: j < k ==> j in pool.Allocated()
    modifies pool.bitmap
    ensures p == Some(k * BlockSize)
    ensures pool.Allocated() == old(pool.Allocated()) + {k}
  {
    p := pool.Alloc();
    BlockStartRoundTrip(k);
  }

  /** Four allocations from an empty pool return the four blocks in index order. */
  method FillFreshPool(pool: PoolHandle) returns (b0: Option<int>, b1: Option<int>, b2: Option<int>, b3: Option<int>)
    requires pool.Valid() && pool.Allocated() == {}
    modifies pool.bitmap
    ensures b0 == Some(0) && b1 == Some(BlockSize) && b2 == Some(2 * BlockSize) && b3 == Some(3 * BlockSize)
    ensures pool.Allocated() == {0, 1, 2, 3}
  {
    b0 := AllocExpecting(pool, 0);
    b1 := AllocExpecting(pool, 1);
    b2 := AllocExpecting(pool, 2);
    b3 := AllocExpecting(pool, 3);
  }

  /**
   * Init, exhaust, fail, release the first block and get it back: the fifth
   * allocation is null, one block is free after the release, and the next
   * allocation returns the released block.
   */
  method ExhaustAndReuse() returns (first: Option<int>, fifth: Option<int>, freeAfterRelease: nat, again: Option<int>)
    ensures first == Some(0) && fifth == None
    ensures freeAfterRelease == 1
    ensures again == first
  {
    var pool := new PoolHandle();
    pool.Init();
    var free := pool.GetFreeCount();
    assert free == NumBlocks;
    var b1, b2, b3;
    first, b1, b2, b3 := FillFreshPool(pool);
    free := pool.GetFreeCount();
    assert free == 0;

    fifth := pool.Alloc();

    pool.Free(first);
    freeAfterRelease := pool.GetFreeCount();
    again := AllocExpecting(pool, 0);
  }

  /** Releasing a pointer twice has the effect of releasing it once. */
  method DoubleFree(pool: PoolHandle, p: Option<int>)
    requires pool.Valid()
    modifies pool.bitmap
    ensures BlockIndexOf(p).None? ==> pool.bitmap[..] == old(pool.bitmap[..])
    ensures BlockIndexOf(p).Some? ==>
      var k := BlockIndexOf(p).value;
      pool.bitmap[..] == if k in old(pool.Allocated()) then WithBitCleared(old(pool.bitmap[..]), k) else old(pool.bitmap[..])
  {
    pool.Free(p);
    pool.Free(p);
  }

  /**
   * Null, out-of-range and misaligned pointers leave the bitmap as it was,
   * whatever is allocated.
   */
  method RejectedPointers(pool: PoolHandle)
    requires pool.Valid()
    modifies pool.bitmap
    ensures pool.bitmap[..] == old(pool.bitmap[..])
  {
    pool.Free(None);
    pool.Free(Some(-1));
    pool.Free(Some(PoolBytes));
    pool.Free(Some(1));
  }
}
