/**
 * The split 48-bit integer store of include/sais48bit.hpp: a signed value is
 * kept as its low 32 bits in a uint32_t array L and the rest (an arithmetic
 * shift by 32) in an int16_t array U.
 */
module Sais48Bit {
  import opened Common

  const TWO32 := 0x1_0000_0000

  /** Conversion of an integer to int16_t: two's complement truncation to 16 bits. */
  function ToInt16(x: int): (r: int16)
    ensures -0x8000 <= x < 0x8000 ==> r == x
    ensures (r - x) % 0x1_0000 == 0
  {
    (x + 0x8000) % 0x1_0000 - 0x8000
  }

  /** The value the halves l and u stand for: (int64)u << 32 | l. */
  function Join(l: uint32, u: int16): (r: int)
    ensures r / TWO32 == u && r % TWO32 == l
    ensures -0x8000_0000_0000 <= r < 0x8000_0000_0000
  {
    DivUnique(u * TWO32 + l, TWO32, u, l);
    u * TWO32 + l
  }

  /** Splitting a value that fits in 48 signed bits and joining the halves gives it back. */
  lemma SplitJoin(value: int)
    requires -0x8000_0000_0000 <= value < 0x8000_0000_0000
    ensures ToInt16(value / TWO32) == value / TWO32
    ensures Join(value % TWO32, ToInt16(value / TWO32)) == value
  {
    var q := value / TWO32;
    assert -0x8000 <= q < 0x8000;
  }

  /**
   * `set_48bit_value`: U[index] receives value >> 32 (truncated to int16_t)
   * and L[index] receives value & 0xffffffff; nothing else changes.
   */
  method Set48BitValue(L: array<uint32>, U: array<int16>, index: nat, value: int64)
    requires index < L.Length && index < U.Length
    modifies L, U
    ensures U[..] == old(U[..])[index := ToInt16(value / TWO32)]
    ensures L[..] == old(L[..])[index := value % TWO32]
    ensures -0x8000_0000_0000 <= value < 0x8000_0000_0000 ==> Get48BitValue(L, U, index) == value
  {
    U[index] := ToInt16(value / TWO32);
    L[index] := value % TWO32;
    if -0x8000_0000_0000 <= value < 0x8000_0000_0000 {
      SplitJoin(value);
    }
  }

  /** `get_48bit_value`: the stored value, whose high part is U[index] and whose low 32 bits are L[index]. */
  function Get48BitValue(L: array<uint32>, U: array<int16>, index: nat): (r: int64)
    requires index < L.Length && index < U.Length
    reads L, U
    ensures r / TWO32 == U[index] && r % TWO32 == L[index]
  {
    Join(L[index], U[index])
  }
}
