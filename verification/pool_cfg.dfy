/** Compile-time configuration of the pool (cfg/pool_cfg.h). */
module PoolConfig {
  /** Size of each memory block in bytes (POOL_BLOCK_SIZE). */
  const BlockSize: nat := 32

  /** Total number of blocks in the pool (POOL_NUM_BLOCKS). */
  const NumBlocks: nat := 4
}
