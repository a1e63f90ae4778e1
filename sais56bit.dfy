/**
 * The split 56-bit integer store of include/sais56bit.hpp: a signed value is
 * kept as its low 32 bits in a uint32_t array L, the next 16 bits in a
 * uint16_t array M and the rest (an arithmetic shift by 48) in an int8_t
 * array U.
 */
module Sais56Bit {
  import opened Common

  const TWO32 := 0x1_0000_0000
  const TWO48 := 0x1_0000_0000_0000

  /** Conversion of an integer to uint16_t: its low 16 bits. */
  function ToUint16(x: int): (r: uint16)
    ensures 0 <= x < 0x1_0000 ==> r == x
    ensures (r - x) % 0x1_0000 == 0
  {
    x % 0x1_0000
  }

  /** The value the parts stand for: (int64)u << 48 | (int64)m << 32 | l. */
  function Join(l: uint32, m: uint16, u: int8): (r: int)
    ensures r / TWO48 == u && (r / TWO32) % 0x1_0000 == m && r % TWO32 == l
    ensures -0x80_0000_0000_0000 <= r < 0x80_0000_0000_0000
  {
    var high := u * 0x1_0000 + m;
    DivUnique(high * TWO32 + l, TWO32, high, l);
    DivUnique(high, 0x1_0000, u, m);
    DivUnique(high * TWO32 + l, TWO48, u, m * TWO32 + l);
    high * TWO32 + l
  }

  /** Splitting a value that fits in 56 signed bits and joining the parts gives it back. */
  lemma SplitJoin(value: int)
    requires -0x80_0000_0000_0000 <= value < 0x80_0000_0000_0000
    ensures ToInt8(value / TWO48) == value / TWO48
    ensures Join(value % TWO32, ToUint16(value / TWO32), ToInt8(value / TWO48)) == value
  {
    var q, low := value / TWO32, value % TWO32;
    var u, m := q / 0x1_0000, q % 0x1_0000;
    DivUnique(value, TWO48, u, m * TWO32 + low);
  }

  /**
   * `set_56bit_value`: U[index] receives value >> 48, M[index] value >> 32
   * (truncated to its type) and L[index] value & 0xffffffff; nothing else changes.
   */
  method Set56BitValue(L: array<uint32>, M: array<uint16>, U: array<int8>, index: nat, value: int64)
    requires index < L.Length && index < M.Length && index < U.Length
    modifies L, M, U
    ensures U[..] == old(U[..])[index := ToInt8(value / TWO48)]
    ensures M[..] == old(M[..])[index := ToUint16(value / TWO32)]
    ensures L[..] == old(L[..])[index := value % TWO32]
    ensures -0x80_0000_0000_0000 <= value < 0x80_0000_0000_0000 ==> Get56BitValue(L, M, U, index) == value
  {
    U[index] := ToInt8(value / TWO48);
    M[index] := ToUint16(value / TWO32);
    L[index] := value % TWO32;
    if -0x80_0000_0000_0000 <= value < 0x80_0000_0000_0000 {
      SplitJoin(value);
    }
  }

  /** `get_56bit_value`: the stored value, whose three parts are U[index], M[index] and L[index]. */
  function Get56BitValue(L: array<uint32>, M: array<uint16>, U: array<int8>, index: nat): (r: int64)
    requires index < L.Length && index < M.Length && index < U.Length
    reads L, M, U
    ensures r / TWO48 == U[index] && (r / TWO32) % 0x1_0000 == M[index] && r % TWO32 == L[index]
  {
    Join(L[index], M[index], U[index])
  }
}
