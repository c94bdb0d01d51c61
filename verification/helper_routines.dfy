/** The byte-fill helper of base/helper_routines.c. */
module HelperRoutines {

  /** The C `sint32` and `uint32` ranges. */
  type SInt32 = x: int | -0x8000_0000 <= x < 0x8000_0000
  type UInt32 = x: int | 0 <= x < 0x1_0000_0000

  /**
   * The C conversion `(uint8)value`: the one byte whose value is congruent
   * to `value` modulo 256, so negative values wrap around as they do in C.
   */
  function ToByte(value: int): (b: bv8)
    ensures b as int == value % 256
    ensures (value - b as int) % 256 == 0
  {
    ByteRoundTrip(value % 256);
    CongruentRemainder(value, value % 256);
    (value % 256) as bv8
  }

  /** A number in byte range survives conversion to a byte and back. */
  lemma ByteRoundTrip(u: int)
    requires 0 <= u < 256
    ensures (u as bv8) as int == u
  {
    var w: bv16 := u as bv16;
    assert w < 256;
  }

  /** A value and its remainder modulo 256 differ by a multiple of 256. */
  lemma CongruentRemainder(value: int, u: int)
    requires u == value % 256
    ensures (value - u) % 256 == 0
  {
  }

  /**
   * `mem_set`: writes `(uint8)value` into the first `num` bytes of `dest` and
   * returns `dest`; a null `dest` is returned as null and nothing is written.
   */
  method MemSet(dest: array?<bv8>, value: SInt32, num: UInt32) returns (r: array?<bv8>)
    requires dest != null ==> num <= dest.Length
    modifies dest
    ensures r == dest
    ensures dest != null ==> forall i :: 0 <= i < num ==> dest[i] == ToByte(value)
    ensures dest != null ==> forall i :: num <= i < dest.Length ==> dest[i] == old(dest[i])
  {
    var byteValue := ToByte(value);
    if dest == null {
      return null;
    }
    var ptr := 0;
    var remaining := num;
    while remaining > 0
      invariant 0 <= ptr <= num && ptr + remaining == num
      invariant forall i :: 0 <= i < ptr ==> dest[i] == byteValue
      invariant forall i :: ptr <= i < dest.Length ==> dest[i] == old(dest[i])
    {
      dest[ptr] := byteValue;
      ptr := ptr + 1;
      remaining := remaining - 1;
    }
    return dest;
  }
}
