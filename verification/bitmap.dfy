/**
 * The static bit helpers of src/pool.c and the first-fit scan built on them.
 * A bitmap is a byte array; bit `i` lives in byte `i / 8` at position `i % 8`
 * and is 1 when block `i` is allocated, 0 when it is free.
 */
module Bitmap {

  /** The one-bit mask `1 << k` of a byte, for a bit position `k < 8`. */
  function Mask(k: nat): (m: bv8)
    requires k < 8
    ensures m != 0 && m & (m - 1) == 0
    ensures (m >> k) & 1 == 1
  {
    (1 as bv8) << k
  }

  /** Bitmap bit `i` is addressable when its byte exists. */
  predicate InRange(s: seq<bv8>, i: nat)
  {
    i / 8 < |s|
  }

  /**
   * `test_bit`: bit `index` of the bitmap, as 0 or 1. It looks only at byte
   * `index / 8`, and it agrees with the mask that `set_bit` and `clear_bit` use.
   */
  function TestBit(s: seq<bv8>, index: nat): (r: bv8)
    requires InRange(s, index)
    ensures r == 0 || r == 1
    ensures r == 1 <==> s[index / 8] & Mask(index % 8) != 0
  {
    (s[index / 8] >> (index % 8)) & 1
  }

  /** The bitmap after `set_bit(s, index)`. */
  function WithBitSet(s: seq<bv8>, index: nat): (r: seq<bv8>)
    requires InRange(s, index)
    ensures |r| == |s|
    ensures forall b :: 0 <= b < |s| && b != index / 8 ==> r[b] == s[b]
    ensures forall j: nat :: InRange(s, j) ==> TestBit(r, j) == if j == index then 1 else TestBit(s, j)
  {
    var r := s[index / 8 := s[index / 8] | Mask(index % 8)];
    forall j: nat | InRange(s, j)
      ensures TestBit(r, j) == if j == index then 1 else TestBit(s, j)
    {
      if j / 8 == index / 8 {
        SameByteDistinctOffset(j, index);
        SetByteBit(s[index / 8], index % 8, j % 8);
      }
    }
    r
  }

  /** The bitmap after `clear_bit(s, index)`. */
  function WithBitCleared(s: seq<bv8>, index: nat): (r: seq<bv8>)
    requires InRange(s, index)
    ensures |r| == |s|
    ensures forall b :: 0 <= b < |s| && b != index / 8 ==> r[b] == s[b]
    ensures forall j: nat :: InRange(s, j) ==> TestBit(r, j) == if j == index then 0 else TestBit(s, j)
  {
    var r := s[index / 8 := s[index / 8] & !Mask(index % 8)];
    forall j: nat | InRange(s, j)
      ensures TestBit(r, j) == if j == index then 0 else TestBit(s, j)
    {
      if j / 8 == index / 8 {
        SameByteDistinctOffset(j, index);
        ClearedByteBit(s[index / 8], index % 8, j % 8);
      }
    }
    r
  }

  /** Two distinct bit indices that share a byte sit at distinct positions in it. */
  lemma SameByteDistinctOffset(i: nat, j: nat)
    requires i / 8 == j / 8
    ensures i % 8 == j % 8 <==> i == j
  {
  }

  /** Setting position `a` of a byte sets that bit and keeps every other one. */
  lemma SetByteBit(x: bv8, a: nat, b: nat)
    requires a < 8 && b < 8
    ensures (x | Mask(a)) & Mask(b) != 0 <==> a == b || x & Mask(b) != 0
  {
  }

  /** Clearing position `a` of a byte clears that bit and keeps every other one. */
  lemma ClearedByteBit(x: bv8, a: nat, b: nat)
    requires a < 8 && b < 8
    ensures (x & !Mask(a)) & Mask(b) != 0 <==> a != b && x & Mask(b) != 0
  {
  }

  /** `set_bit`: marks block `index` allocated, in place. */
  method SetBit(bitmap: array<bv8>, index: nat)
    requires InRange(bitmap[..], index)
    modifies bitmap
    ensures bitmap[..] == WithBitSet(old(bitmap[..]), index)
  {
    var byteIndex := index / 8;
    var bitOffset := index % 8;
    bitmap[byteIndex] := bitmap[byteIndex] | Mask(bitOffset);
  }

  /** `clear_bit`: marks block `index` free, in place. */
  method ClearBit(bitmap: array<bv8>, index: nat)
    requires InRange(bitmap[..], index)
    modifies bitmap
    ensures bitmap[..] == WithBitCleared(old(bitmap[..]), index)
  {
    var byteIndex := index / 8;
    var bitOffset := index % 8;
    var mask := Mask(bitOffset);
    bitmap[byteIndex] := bitmap[byteIndex] & !mask;
  }

  /** The first `n` bits of the bitmap all exist. */
  predicate Covers(s: seq<bv8>, n: nat)
  {
    n <= 8 * |s|
  }

  /** The set of allocated block indices among the first `n` bits. */
  ghost function AllocatedSet(s: seq<bv8>, n: nat): set<nat>
    requires Covers(s, n)
  {
    set i: nat | i < n && TestBit(s, i) == 1
  }

  /** The number of clear bits among the first `n`, counted as `pool_get_free_count` does. */
  function CountFree(s: seq<bv8>, n: nat): (c: nat)
    requires Covers(s, n)
    ensures c <= n
  {
    if n == 0 then 0
    else CountFree(s, n - 1) + (if TestBit(s, n - 1) == 0 then 1 else 0)
  }

  /**
   * First-fit from `from`: the lowest clear bit in `from..n`, or -1 when all
   * of them are set.
   */
  function FirstFreeFrom(s: seq<bv8>, from: nat, n: nat): (r: int)
    requires from <= n && Covers(s, n)
    decreases n - from
    ensures r == -1 || from <= r < n
    ensures r == -1 <==> forall j :: from <= j < n ==> TestBit(s, j) == 1
    ensures r != -1 ==> TestBit(s, r) == 0 && forall j :: from <= j < r ==> TestBit(s, j) == 1
  {
    if from == n then -1
    else if TestBit(s, from) == 0 then from
    else FirstFreeFrom(s, from + 1, n)
  }

  /** The lowest free block index below `n`, or -1 when every block is allocated. */
  function FirstFree(s: seq<bv8>, n: nat): (r: int)
    requires Covers(s, n)
  {
    FirstFreeFrom(s, 0, n)
  }

  /**
   * `find_first_free`: the linear scan for the lowest clear bit. The result is
   * the smallest `i < num_blocks` whose bit is clear, every bit below it is set,
   * and -1 comes back exactly when all `num_blocks` bits are set.
   */
  method FindFirstFree(bitmap: array<bv8>, numBlocks: nat) returns (r: int)
    requires Covers(bitmap[..], numBlocks)
    ensures r == FirstFree(bitmap[..], numBlocks)
    ensures -1 <= r < numBlocks
    ensures r == -1 <==> forall j :: 0 <= j < numBlocks ==> TestBit(bitmap[..], j) == 1
    ensures r != -1 ==> TestBit(bitmap[..], r) == 0 && forall j :: 0 <= j < r ==> TestBit(bitmap[..], j) == 1
  {
    var i := 0;
    while i < numBlocks
      invariant i <= numBlocks
      invariant forall j :: 0 <= j < i ==> TestBit(bitmap[..], j) == 1
      invariant FirstFreeFrom(bitmap[..], i, numBlocks) == FirstFree(bitmap[..], numBlocks)
    {
      if TestBit(bitmap[..], i) == 0 {
        return i;
      }
      i := i + 1;
    }
    return -1;
  }

  /** Counting the clear bits agrees with the size of the allocated set. */
  lemma {:induction false} CountFreeComplementsAllocated(s: seq<bv8>, n: nat)
    requires Covers(s, n)
    ensures CountFree(s, n) + |AllocatedSet(s, n)| == n
  {
    if n > 0 {
      CountFreeComplementsAllocated(s, n - 1);
      AllocatedSetStep(s, n);
    } else {
      assert AllocatedSet(s, n) == {};
    }
  }

  /** The allocated set below `n` extends the one below `n - 1` by bit `n - 1` alone. */
  lemma AllocatedSetStep(s: seq<bv8>, n: nat)
    requires Covers(s, n) && n > 0
    ensures n - 1 !in AllocatedSet(s, n - 1)
    ensures AllocatedSet(s, n) == AllocatedSet(s, n - 1) + if TestBit(s, n - 1) == 1 then {n - 1} else {}
  {
  }

  /** Setting a bit adds its index to the allocated set and touches no other index. */
  lemma AllocatedAfterSet(s: seq<bv8>, n: nat, index: nat)
    requires Covers(s, n) && index < n
    ensures AllocatedSet(WithBitSet(s, index), n) == AllocatedSet(s, n) + {index}
  {
  }

  /** Clearing a bit removes its index from the allocated set and touches no other index. */
  lemma AllocatedAfterClear(s: seq<bv8>, n: nat, index: nat)
    requires Covers(s, n) && index < n
    ensures AllocatedSet(WithBitCleared(s, index), n) == AllocatedSet(s, n) - {index}
  {
  }

  /** Setting a clear bit below `n` lowers the free count by exactly one. */
  lemma FreeCountAfterSet(s: seq<bv8>, n: nat, index: nat)
    requires Covers(s, n) && index < n && TestBit(s, index) == 0
    ensures CountFree(WithBitSet(s, index), n) == CountFree(s, n) - 1
  {
    AllocatedAfterSet(s, n, index);
    CountFreeComplementsAllocated(s, n);
    CountFreeComplementsAllocated(WithBitSet(s, index), n);
  }

  /** Clearing a set bit below `n` raises the free count by exactly one. */
  lemma FreeCountAfterClear(s: seq<bv8>, n: nat, index: nat)
    requires Covers(s, n) && index < n && TestBit(s, index) == 1
    ensures CountFree(WithBitCleared(s, index), n) == CountFree(s, n) + 1
  {
    AllocatedAfterClear(s, n, index);
    CountFreeComplementsAllocated(s, n);
    CountFreeComplementsAllocated(WithBitCleared(s, index), n);
  }

  /** An all-zero bitmap has every block free. */
  lemma {:induction false} ZeroBitmapAllFree(s: seq<bv8>, n: nat)
    requires Covers(s, n)
    requires forall b :: 0 <= b < |s| ==> s[b] == 0
    ensures AllocatedSet(s, n) == {}
    ensures CountFree(s, n) == n
    ensures FirstFree(s, n) == if n == 0 then -1 else 0
  {
    assert forall i: nat :: i < n ==> TestBit(s, i) == 0;
    CountFreeComplementsAllocated(s, n);
  }

  /**
   * Reuse after release: clearing bit `index` when every lower bit is set makes
   * `index` the first-fit choice again.
   */
  lemma FirstFreeAfterClear(s: seq<bv8>, n: nat, index: nat)
    requires Covers(s, n) && index < n
    requires forall j :: 0 <= j < index ==> TestBit(s, j) == 1
    ensures FirstFree(WithBitCleared(s, index), n) == index
  {
    var r := WithBitCleared(s, index);
    assert forall j :: 0 <= j < index ==> TestBit(r, j) == 1;
  }
}
