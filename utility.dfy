/**
 * The arithmetic helpers of src/utility.cpp on unsigned 64-bit words.
 *
 * Words are integers in the uint64 range. Where the code works on the bits of
 * a word (`log2_64` or-ing a word with its own shifts), the word is taken
 * apart into its 64 bits, least significant first (BitVec.BitsOf); `x >> d`
 * on those bits moves bit i + d to position i. Arithmetic on words is integer
 * arithmetic: `x >> d` is x / 2^d and a product is reduced modulo 2^64.
 */
module Utility {
  import opened Common
  import opened BitVec

  const WORD := 0x1_0000_0000_0000_0000

  /** The multiplier whose 64 six-bit windows are pairwise distinct (a de Bruijn sequence). */
  const DeBruijn := 0x07ED_D5E5_9A4E_28C2

  /** The lookup table `tab64`. */
  function Tab64(i: nat): (r: uint8)
    requires i < 64
    ensures r < 64
  {
    match i
      case 0 => 63 case 1 => 0 case 2 => 58 case 3 => 1 case 4 => 59 case 5 => 47 case 6 => 53 case 7 => 2
      case 8 => 60 case 9 => 39 case 10 => 48 case 11 => 27 case 12 => 54 case 13 => 33 case 14 => 42 case 15 => 3
      case 16 => 61 case 17 => 51 case 18 => 37 case 19 => 40 case 20 => 49 case 21 => 18 case 22 => 28 case 23 => 20
      case 24 => 55 case 25 => 30 case 26 => 34 case 27 => 11 case 28 => 43 case 29 => 14 case 30 => 22 case 31 => 4
      case 32 => 62 case 33 => 57 case 34 => 46 case 35 => 52 case 36 => 38 case 37 => 26 case 38 => 32 case 39 => 41
      case 40 => 50 case 41 => 36 case 42 => 17 case 43 => 19 case 44 => 29 case 45 => 10 case 46 => 13 case 47 => 21
      case 48 => 56 case 49 => 45 case 50 => 25 case 51 => 31 case 52 => 35 case 53 => 16 case 54 => 9 case 55 => 12
      case 56 => 44 case 57 => 24 case 58 => 15 case 59 => 8 case 60 => 23 case 61 => 7 case 62 => 6 case _ => 5
  }

  /** The 64 bits of a word, least significant first. */
  function Bits64(value: uint64): (r: seq<bool>)
    ensures |r| == 64
  {
    BitsOf(value, 64)
  }

  /** Bitwise or of two words given by their bits. */
  function Or(a: seq<bool>, b: seq<bool>): (r: seq<bool>)
    requires |a| == |b|
    ensures |r| == |a| && forall i :: 0 <= i < |a| ==> r[i] == (a[i] || b[i])
  {
    seq(|a|, i requires 0 <= i < |a| => a[i] || b[i])
  }

  /** A word shifted right by d, given by its bits: bit i + d moves to position i. */
  function Shr(a: seq<bool>, d: nat): (r: seq<bool>)
    ensures |r| == |a| && forall i :: 0 <= i < |a| ==> r[i] == (i + d < |a| && a[i + d])
  {
    seq(|a|, i requires 0 <= i < |a| => i + d < |a| && a[i + d])
  }

  /** The six steps `value |= value >> d` of `log2_64`, for d = 1, 2, 4, 8, 16 and 32. */
  function Smear(b: seq<bool>): (r: seq<bool>)
    ensures |r| == |b|
  {
    var b1 := Or(b, Shr(b, 1));
    var b2 := Or(b1, Shr(b1, 2));
    var b3 := Or(b2, Shr(b2, 4));
    var b4 := Or(b3, Shr(b3, 8));
    var b5 := Or(b4, Shr(b4, 16));
    Or(b5, Shr(b5, 32))
  }

  /** The table slot that `log2_64` reads for a word p: the top six bits of p * DeBruijn mod 2^64. */
  function TableIndex(p: nat): (r: nat)
    ensures r < 64
  {
    ((p * DeBruijn) % WORD) / 0x400_0000_0000_0000
  }

  /**
   * `log2_64`: smear the word, keep its top bit (value - (value >> 1)) and look
   * the product with the de Bruijn constant up in the table.
   */
  function Log2_64(value: uint64): (r: uint8)
    ensures r < 64
  {
    Tab64(TableIndex(KeepTop(Value(Smear(Bits64(value))))))
  }

  /** `value - (value >> 1)`. */
  function KeepTop(s: nat): (r: nat)
  {
    s - s / 2
  }

  /**
   * log2_64 is the floor of the binary logarithm of a nonzero word, and
   * tab64[0] = 63 for 0, whose smeared word is 0.
   */
  lemma Log2Correct(value: uint64)
    ensures value != 0 ==> Pow2(Log2_64(value)) <= value < Pow2(Log2_64(value) + 1)
    ensures value == 0 ==> Log2_64(value) == 63
  {
    if value == 0 {
      Log2Zero(value);
    } else {
      var k := FloorLog2(value);
      TopBit(value, k);
      SmearOfTop(Bits64(value), k);
      TableAtBit(k);
    }
  }

  lemma Log2Zero(value: uint64)
    requires value == 0
    ensures Log2_64(value) == 63
  {
    BitsOfZero(value, 64);
    SmearOfZero(Bits64(value));
    TableAtZero();
  }

  lemma TableAtZero()
    ensures Tab64(TableIndex(0)) == 63
  {
  }

  lemma {:induction false} BitsOfZero(x: nat, len: nat)
    requires x == 0
    ensures forall i :: 0 <= i < len ==> !BitsOf(x, len)[i]
  {
    if len > 0 {
      BitsOfZero(x / 2, len - 1);
    }
  }

  lemma SmearOfZero(b: seq<bool>)
    requires forall i :: 0 <= i < |b| ==> !b[i]
    ensures KeepTop(Value(Smear(b))) == 0
  {
    SmearSpreads(b);
    ValueOfLowOnes(Smear(b), 0);
  }

  /** Smearing a word whose top set bit is k sets exactly the bits 0 .. k. */
  lemma SmearOfTop(b: seq<bool>, k: nat)
    requires |b| == 64 && k < 64 && b[k] && forall j :: k < j < 64 ==> !b[j]
    ensures KeepTop(Value(Smear(b))) == Pow2(k)
  {
    SmearSpreads(b);
    forall i | 0 <= i < |b|
      ensures Smear(b)[i] == (i <= k)
    {
      if i <= k {
        assert i <= k < i + 64 && b[k];
      }
    }
    ValueOfLowOnes(Smear(b), k + 1);
    DivUnique(Pow2(k + 1) - 1, 2, Pow2(k) - 1, 1);
  }

  /** The floor of the binary logarithm of a positive number. */
  ghost function FloorLog2(value: nat): (k: nat)
    requires value >= 1
    ensures Pow2(k) <= value < Pow2(k + 1)
  {
    if value == 1 then 0 else FloorLog2(value / 2) + 1
  }

  /** In a word between 2^k and 2^(k+1), bit k is set and every higher bit is clear. */
  lemma TopBit(value: uint64, k: nat)
    requires Pow2(k) <= value < Pow2(k + 1)
    ensures k < 64 && Bits64(value)[k]
    ensures forall j :: k < j < 64 ==> !Bits64(value)[j]
  {
    Pow2Word64();
    if k >= 64 {
      Pow2Monotone(64, k);
    }
    DivUnique(value, Pow2(k), 1, value - Pow2(k));
    BitOf(value, 64, k);
    forall j | k < j < 64
      ensures !Bits64(value)[j]
    {
      Pow2Monotone(k + 1, j);
      DivUnique(value, Pow2(j), 0, value);
      BitOf(value, 64, j);
    }
  }

  /**
   * After the or-shift steps with shifts below w, bit i is set exactly when one
   * of the bits i .. i + w - 1 of the original word is set.
   */
  ghost predicate Spread(s: seq<bool>, b: seq<bool>, w: nat) {
    |s| == |b| &&
    forall i :: 0 <= i < |s| ==> (s[i] <==> exists j :: i <= j < i + w && j < |b| && b[j])
  }

  lemma SpreadStep(s: seq<bool>, b: seq<bool>, w: nat)
    requires Spread(s, b, w)
    ensures Spread(Or(s, Shr(s, w)), b, 2 * w)
  {
    var t := Or(s, Shr(s, w));
    forall i | 0 <= i < |t|
      ensures t[i] <==> exists j :: i <= j < i + 2 * w && j < |b| && b[j]
    {
      if t[i] && !s[i] {
        assert i + w < |s| && s[i + w];
        var j :| i + w <= j < i + w + w && j < |b| && b[j];
      }
      if exists j :: i <= j < i + 2 * w && j < |b| && b[j] {
        var j :| i <= j < i + 2 * w && j < |b| && b[j];
        if j >= i + w {
          assert s[i + w];
        }
      }
    }
  }

  /** After all six steps, bit i is set exactly when some bit at or above i was. */
  lemma SmearSpreads(b: seq<bool>)
    ensures Spread(Smear(b), b, 64)
  {
    assert Spread(b, b, 1) by {
      forall i | 0 <= i < |b|
        ensures b[i] <==> exists j :: i <= j < i + 1 && j < |b| && b[j]
      {
        if b[i] {
          assert i <= i < i + 1;
        }
      }
    }
    var b1 := Or(b, Shr(b, 1));
    SpreadStep(b, b, 1);
    var b2 := Or(b1, Shr(b1, 2));
    SpreadStep(b1, b, 2);
    var b3 := Or(b2, Shr(b2, 4));
    SpreadStep(b2, b, 4);
    var b4 := Or(b3, Shr(b3, 8));
    SpreadStep(b3, b, 8);
    var b5 := Or(b4, Shr(b4, 16));
    SpreadStep(b4, b, 16);
    SpreadStep(b5, b, 32);
  }

  /** A bit sequence whose set bits are exactly the m lowest ones has the value 2^m - 1. */
  lemma {:induction false} ValueOfLowOnes(s: seq<bool>, m: nat)
    requires m <= |s| && forall i :: 0 <= i < |s| ==> (s[i] <==> i < m)
    ensures Value(s) == Pow2(m) - 1
  {
    if s != [] {
      if m > 0 {
        ValueOfLowOnes(s[1..], m - 1);
      } else {
        ValueOfLowOnes(s[1..], 0);
      }
    }
  }

  /** The table maps the slot of 2^k back to k. */
  lemma TableAtBit(k: nat)
    requires k < 64
    ensures Tab64(TableIndex(Pow2(k))) == k
  {
    Pow2Values();
    if k == 0 {
      TableAt0();
    } else if k == 1 {
      TableAt1();
    } else if k == 2 {
      TableAt2();
    } else if k == 3 {
      TableAt3();
    } else if k == 4 {
      TableAt4();
    } else if k == 5 {
      TableAt5();
    } else if k == 6 {
      TableAt6();
    } else if k == 7 {
      TableAt7();
    } else if k == 8 {
      TableAt8();
    } else if k == 9 {
      TableAt9();
    } else if k == 10 {
      TableAt10();
    } else if k == 11 {
      TableAt11();
    } else if k == 12 {
      TableAt12();
    } else if k == 13 {
      TableAt13();
    } else if k == 14 {
      TableAt14();
    } else if k == 15 {
      TableAt15();
    } else if k == 16 {
      TableAt16();
    } else if k == 17 {
      TableAt17();
    } else if k == 18 {
      TableAt18();
    } else if k == 19 {
      TableAt19();
    } else if k == 20 {
      TableAt20();
    } else if k == 21 {
      TableAt21();
    } else if k == 22 {
      TableAt22();
    } else if k == 23 {
      TableAt23();
    } else if k == 24 {
      TableAt24();
    } else if k == 25 {
      TableAt25();
    } else if k == 26 {
      TableAt26();
    } else if k == 27 {
      TableAt27();
    } else if k == 28 {
      TableAt28();
    } else if k == 29 {
      TableAt29();
    } else if k == 30 {
      TableAt30();
    } else if k == 31 {
      TableAt31();
    } else if k == 32 {
      TableAt32();
    } else if k == 33 {
      TableAt33();
    } else if k == 34 {
      TableAt34();
    } else if k == 35 {
      TableAt35();
    } else if k == 36 {
      TableAt36();
    } else if k == 37 {
      TableAt37();
    } else if k == 38 {
      TableAt38();
    } else if k == 39 {
      TableAt39();
    } else if k == 40 {
      TableAt40();
    } else if k == 41 {
      TableAt41();
    } else if k == 42 {
      TableAt42();
    } else if k == 43 {
      TableAt43();
    } else if k == 44 {
      TableAt44();
    } else if k == 45 {
      TableAt45();
    } else if k == 46 {
      TableAt46();
    } else if k == 47 {
      TableAt47();
    } else if k == 48 {
      TableAt48();
    } else if k == 49 {
      TableAt49();
    } else if k == 50 {
      TableAt50();
    } else if k == 51 {
      TableAt51();
    } else if k == 52 {
      TableAt52();
    } else if k == 53 {
      TableAt53();
    } else if k == 54 {
      TableAt54();
    } else if k == 55 {
      TableAt55();
    } else if k == 56 {
      TableAt56();
    } else if k == 57 {
      TableAt57();
    } else if k == 58 {
      TableAt58();
    } else if k == 59 {
      TableAt59();
    } else if k == 60 {
      TableAt60();
    } else if k == 61 {
      TableAt61();
    } else if k == 62 {
      TableAt62();
    } else {
      TableAt63();
    }
  }

  /** The powers of two below 2^64. */
  lemma Pow2Values()
    ensures Pow2(0) == 0x1
         && Pow2(1) == 0x2
         && Pow2(2) == 0x4
         && Pow2(3) == 0x8
         && Pow2(4) == 0x10
         && Pow2(5) == 0x20
         && Pow2(6) == 0x40
         && Pow2(7) == 0x80
         && Pow2(8) == 0x100
         && Pow2(9) == 0x200
         && Pow2(10) == 0x400
         && Pow2(11) == 0x800
         && Pow2(12) == 0x1000
         && Pow2(13) == 0x2000
         && Pow2(14) == 0x4000
         && Pow2(15) == 0x8000
         && Pow2(16) == 0x1_0000
         && Pow2(17) == 0x2_0000
         && Pow2(18) == 0x4_0000
         && Pow2(19) == 0x8_0000
         && Pow2(20) == 0x10_0000
         && Pow2(21) == 0x20_0000
         && Pow2(22) == 0x40_0000
         && Pow2(23) == 0x80_0000
         && Pow2(24) == 0x100_0000
         && Pow2(25) == 0x200_0000
         && Pow2(26) == 0x400_0000
         && Pow2(27) == 0x800_0000
         && Pow2(28) == 0x1000_0000
         && Pow2(29) == 0x2000_0000
         && Pow2(30) == 0x4000_0000
         && Pow2(31) == 0x8000_0000
         && Pow2(32) == 0x1_0000_0000
         && Pow2(33) == 0x2_0000_0000
         && Pow2(34) == 0x4_0000_0000
         && Pow2(35) == 0x8_0000_0000
         && Pow2(36) == 0x10_0000_0000
         && Pow2(37) == 0x20_0000_0000
         && Pow2(38) == 0x40_0000_0000
         && Pow2(39) == 0x80_0000_0000
         && Pow2(40) == 0x100_0000_0000
         && Pow2(41) == 0x200_0000_0000
         && Pow2(42) == 0x400_0000_0000
         && Pow2(43) == 0x800_0000_0000
         && Pow2(44) == 0x1000_0000_0000
         && Pow2(45) == 0x2000_0000_0000
         && Pow2(46) == 0x4000_0000_0000
         && Pow2(47) == 0x8000_0000_0000
         && Pow2(48) == 0x1_0000_0000_0000
         && Pow2(49) == 0x2_0000_0000_0000
         && Pow2(50) == 0x4_0000_0000_0000
         && Pow2(51) == 0x8_0000_0000_0000
         && Pow2(52) == 0x10_0000_0000_0000
         && Pow2(53) == 0x20_0000_0000_0000
         && Pow2(54) == 0x40_0000_0000_0000
         && Pow2(55) == 0x80_0000_0000_0000
         && Pow2(56) == 0x100_0000_0000_0000
         && Pow2(57) == 0x200_0000_0000_0000
         && Pow2(58) == 0x400_0000_0000_0000
         && Pow2(59) == 0x800_0000_0000_0000
         && Pow2(60) == 0x1000_0000_0000_0000
         && Pow2(61) == 0x2000_0000_0000_0000
         && Pow2(62) == 0x4000_0000_0000_0000
         && Pow2(63) == 0x8000_0000_0000_0000
  {
    assert Pow2(1) == 0x2;
    assert Pow2(2) == 0x4;
    assert Pow2(3) == 0x8;
    assert Pow2(4) == 0x10;
    assert Pow2(5) == 0x20;
    assert Pow2(6) == 0x40;
    assert Pow2(7) == 0x80;
    assert Pow2(8) == 0x100;
    assert Pow2(9) == 0x200;
    assert Pow2(10) == 0x400;
    assert Pow2(11) == 0x800;
    assert Pow2(12) == 0x1000;
    assert Pow2(13) == 0x2000;
    assert Pow2(14) == 0x4000;
    assert Pow2(15) == 0x8000;
    assert Pow2(16) == 0x1_0000;
    assert Pow2(17) == 0x2_0000;
    assert Pow2(18) == 0x4_0000;
    assert Pow2(19) == 0x8_0000;
    assert Pow2(20) == 0x10_0000;
    assert Pow2(21) == 0x20_0000;
    assert Pow2(22) == 0x40_0000;
    assert Pow2(23) == 0x80_0000;
    assert Pow2(24) == 0x100_0000;
    assert Pow2(25) == 0x200_0000;
    assert Pow2(26) == 0x400_0000;
    assert Pow2(27) == 0x800_0000;
    assert Pow2(28) == 0x1000_0000;
    assert Pow2(29) == 0x2000_0000;
    assert Pow2(30) == 0x4000_0000;
    assert Pow2(31) == 0x8000_0000;
    assert Pow2(32) == 0x1_0000_0000;
    assert Pow2(33) == 0x2_0000_0000;
    assert Pow2(34) == 0x4_0000_0000;
    assert Pow2(35) == 0x8_0000_0000;
    assert Pow2(36) == 0x10_0000_0000;
    assert Pow2(37) == 0x20_0000_0000;
    assert Pow2(38) == 0x40_0000_0000;
    assert Pow2(39) == 0x80_0000_0000;
    assert Pow2(40) == 0x100_0000_0000;
    assert Pow2(41) == 0x200_0000_0000;
    assert Pow2(42) == 0x400_0000_0000;
    assert Pow2(43) == 0x800_0000_0000;
    assert Pow2(44) == 0x1000_0000_0000;
    assert Pow2(45) == 0x2000_0000_0000;
    assert Pow2(46) == 0x4000_0000_0000;
    assert Pow2(47) == 0x8000_0000_0000;
    assert Pow2(48) == 0x1_0000_0000_0000;
    assert Pow2(49) == 0x2_0000_0000_0000;
    assert Pow2(50) == 0x4_0000_0000_0000;
    assert Pow2(51) == 0x8_0000_0000_0000;
    assert Pow2(52) == 0x10_0000_0000_0000;
    assert Pow2(53) == 0x20_0000_0000_0000;
    assert Pow2(54) == 0x40_0000_0000_0000;
    assert Pow2(55) == 0x80_0000_0000_0000;
    assert Pow2(56) == 0x100_0000_0000_0000;
    assert Pow2(57) == 0x200_0000_0000_0000;
    assert Pow2(58) == 0x400_0000_0000_0000;
    assert Pow2(59) == 0x800_0000_0000_0000;
    assert Pow2(60) == 0x1000_0000_0000_0000;
    assert Pow2(61) == 0x2000_0000_0000_0000;
    assert Pow2(62) == 0x4000_0000_0000_0000;
    assert Pow2(63) == 0x8000_0000_0000_0000;
  }

  lemma TableAt0()
    ensures Tab64(TableIndex(0x1)) == 0
  {
    assert (0x1 * DeBruijn) % WORD == 0x7ED_D5E5_9A4E_28C2;
    assert 0x7ED_D5E5_9A4E_28C2 / 0x400_0000_0000_0000 == 1;
  }

  lemma TableAt1()
    ensures Tab64(TableIndex(0x2)) == 1
  {
    assert (0x2 * DeBruijn) % WORD == 0xFDB_ABCB_349C_5184;
    assert 0xFDB_ABCB_349C_5184 / 0x400_0000_0000_0000 == 3;
  }

  lemma TableAt2()
    ensures Tab64(TableIndex(0x4)) == 2
  {
    assert (0x4 * DeBruijn) % WORD == 0x1FB7_5796_6938_A308;
    assert 0x1FB7_5796_6938_A308 / 0x400_0000_0000_0000 == 7;
  }

  lemma TableAt3()
    ensures Tab64(TableIndex(0x8)) == 3
  {
    assert (0x8 * DeBruijn) % WORD == 0x3F6E_AF2C_D271_4610;
    assert 0x3F6E_AF2C_D271_4610 / 0x400_0000_0000_0000 == 15;
  }

  lemma TableAt4()
    ensures Tab64(TableIndex(0x10)) == 4
  {
    assert (0x10 * DeBruijn) % WORD == 0x7EDD_5E59_A4E2_8C20;
    assert 0x7EDD_5E59_A4E2_8C20 / 0x400_0000_0000_0000 == 31;
  }

  lemma TableAt5()
    ensures Tab64(TableIndex(0x20)) == 5
  {
    assert (0x20 * DeBruijn) % WORD == 0xFDBA_BCB3_49C5_1840;
    assert 0xFDBA_BCB3_49C5_1840 / 0x400_0000_0000_0000 == 63;
  }

  lemma TableAt6()
    ensures Tab64(TableIndex(0x40)) == 6
  {
    assert (0x40 * DeBruijn) % WORD == 0xFB75_7966_938A_3080;
    assert 0xFB75_7966_938A_3080 / 0x400_0000_0000_0000 == 62;
  }

  lemma TableAt7()
    ensures Tab64(TableIndex(0x80)) == 7
  {
    assert (0x80 * DeBruijn) % WORD == 0xF6EA_F2CD_2714_6100;
    assert 0xF6EA_F2CD_2714_6100 / 0x400_0000_0000_0000 == 61;
  }

  lemma TableAt8()
    ensures Tab64(TableIndex(0x100)) == 8
  {
    assert (0x100 * DeBruijn) % WORD == 0xEDD5_E59A_4E28_C200;
    assert 0xEDD5_E59A_4E28_C200 / 0x400_0000_0000_0000 == 59;
  }

  lemma TableAt9()
    ensures Tab64(TableIndex(0x200)) == 9
  {
    assert (0x200 * DeBruijn) % WORD == 0xDBAB_CB34_9C51_8400;
    assert 0xDBAB_CB34_9C51_8400 / 0x400_0000_0000_0000 == 54;
  }

  lemma TableAt10()
    ensures Tab64(TableIndex(0x400)) == 10
  {
    assert (0x400 * DeBruijn) % WORD == 0xB757_9669_38A3_0800;
    assert 0xB757_9669_38A3_0800 / 0x400_0000_0000_0000 == 45;
  }

  lemma TableAt11()
    ensures Tab64(TableIndex(0x800)) == 11
  {
    assert (0x800 * DeBruijn) % WORD == 0x6EAF_2CD2_7146_1000;
    assert 0x6EAF_2CD2_7146_1000 / 0x400_0000_0000_0000 == 27;
  }

  lemma TableAt12()
    ensures Tab64(TableIndex(0x1000)) == 12
  {
    assert (0x1000 * DeBruijn) % WORD == 0xDD5E_59A4_E28C_2000;
    assert 0xDD5E_59A4_E28C_2000 / 0x400_0000_0000_0000 == 55;
  }

  lemma TableAt13()
    ensures Tab64(TableIndex(0x2000)) == 13
  {
    assert (0x2000 * DeBruijn) % WORD == 0xBABC_B349_C518_4000;
    assert 0xBABC_B349_C518_4000 / 0x400_0000_0000_0000 == 46;
  }

  lemma TableAt14()
    ensures Tab64(TableIndex(0x4000)) == 14
  {
    assert (0x4000 * DeBruijn) % WORD == 0x7579_6693_8A30_8000;
    assert 0x7579_6693_8A30_8000 / 0x400_0000_0000_0000 == 29;
  }

  lemma TableAt15()
    ensures Tab64(TableIndex(0x8000)) == 15
  {
    assert (0x8000 * DeBruijn) % WORD == 0xEAF2_CD27_1461_0000;
    assert 0xEAF2_CD27_1461_0000 / 0x400_0000_0000_0000 == 58;
  }

  lemma TableAt16()
    ensures Tab64(TableIndex(0x1_0000)) == 16
  {
    assert (0x1_0000 * DeBruijn) % WORD == 0xD5E5_9A4E_28C2_0000;
    assert 0xD5E5_9A4E_28C2_0000 / 0x400_0000_0000_0000 == 53;
  }

  lemma TableAt17()
    ensures Tab64(TableIndex(0x2_0000)) == 17
  {
    assert (0x2_0000 * DeBruijn) % WORD == 0xABCB_349C_5184_0000;
    assert 0xABCB_349C_5184_0000 / 0x400_0000_0000_0000 == 42;
  }

  lemma TableAt18()
    ensures Tab64(TableIndex(0x4_0000)) == 18
  {
    assert (0x4_0000 * DeBruijn) % WORD == 0x5796_6938_A308_0000;
    assert 0x5796_6938_A308_0000 / 0x400_0000_0000_0000 == 21;
  }

  lemma TableAt19()
    ensures Tab64(TableIndex(0x8_0000)) == 19
  {
    assert (0x8_0000 * DeBruijn) % WORD == 0xAF2C_D271_4610_0000;
    assert 0xAF2C_D271_4610_0000 / 0x400_0000_0000_0000 == 43;
  }

  lemma TableAt20()
    ensures Tab64(TableIndex(0x10_0000)) == 20
  {
    assert (0x10_0000 * DeBruijn) % WORD == 0x5E59_A4E2_8C20_0000;
    assert 0x5E59_A4E2_8C20_0000 / 0x400_0000_0000_0000 == 23;
  }

  lemma TableAt21()
    ensures Tab64(TableIndex(0x20_0000)) == 21
  {
    assert (0x20_0000 * DeBruijn) % WORD == 0xBCB3_49C5_1840_0000;
    assert 0xBCB3_49C5_1840_0000 / 0x400_0000_0000_0000 == 47;
  }

  lemma TableAt22()
    ensures Tab64(TableIndex(0x40_0000)) == 22
  {
    assert (0x40_0000 * DeBruijn) % WORD == 0x7966_938A_3080_0000;
    assert 0x7966_938A_3080_0000 / 0x400_0000_0000_0000 == 30;
  }

  lemma TableAt23()
    ensures Tab64(TableIndex(0x80_0000)) == 23
  {
    assert (0x80_0000 * DeBruijn) % WORD == 0xF2CD_2714_6100_0000;
    assert 0xF2CD_2714_6100_0000 / 0x400_0000_0000_0000 == 60;
  }

  lemma TableAt24()
    ensures Tab64(TableIndex(0x100_0000)) == 24
  {
    assert (0x100_0000 * DeBruijn) % WORD == 0xE59A_4E28_C200_0000;
    assert 0xE59A_4E28_C200_0000 / 0x400_0000_0000_0000 == 57;
  }

  lemma TableAt25()
    ensures Tab64(TableIndex(0x200_0000)) == 25
  {
    assert (0x200_0000 * DeBruijn) % WORD == 0xCB34_9C51_8400_0000;
    assert 0xCB34_9C51_8400_0000 / 0x400_0000_0000_0000 == 50;
  }

  lemma TableAt26()
    ensures Tab64(TableIndex(0x400_0000)) == 26
  {
    assert (0x400_0000 * DeBruijn) % WORD == 0x9669_38A3_0800_0000;
    assert 0x9669_38A3_0800_0000 / 0x400_0000_0000_0000 == 37;
  }

  lemma TableAt27()
    ensures Tab64(TableIndex(0x800_0000)) == 27
  {
    assert (0x800_0000 * DeBruijn) % WORD == 0x2CD2_7146_1000_0000;
    assert 0x2CD2_7146_1000_0000 / 0x400_0000_0000_0000 == 11;
  }

  lemma TableAt28()
    ensures Tab64(TableIndex(0x1000_0000)) == 28
  {
    assert (0x1000_0000 * DeBruijn) % WORD == 0x59A4_E28C_2000_0000;
    assert 0x59A4_E28C_2000_0000 / 0x400_0000_0000_0000 == 22;
  }

  lemma TableAt29()
    ensures Tab64(TableIndex(0x2000_0000)) == 29
  {
    assert (0x2000_0000 * DeBruijn) % WORD == 0xB349_C518_4000_0000;
    assert 0xB349_C518_4000_0000 / 0x400_0000_0000_0000 == 44;
  }

  lemma TableAt30()
    ensures Tab64(TableIndex(0x4000_0000)) == 30
  {
    assert (0x4000_0000 * DeBruijn) % WORD == 0x6693_8A30_8000_0000;
    assert 0x6693_8A30_8000_0000 / 0x400_0000_0000_0000 == 25;
  }

  lemma TableAt31()
    ensures Tab64(TableIndex(0x8000_0000)) == 31
  {
    assert (0x8000_0000 * DeBruijn) % WORD == 0xCD27_1461_0000_0000;
    assert 0xCD27_1461_0000_0000 / 0x400_0000_0000_0000 == 51;
  }

  lemma TableAt32()
    ensures Tab64(TableIndex(0x1_0000_0000)) == 32
  {
    assert (0x1_0000_0000 * DeBruijn) % WORD == 0x9A4E_28C2_0000_0000;
    assert 0x9A4E_28C2_0000_0000 / 0x400_0000_0000_0000 == 38;
  }

  lemma TableAt33()
    ensures Tab64(TableIndex(0x2_0000_0000)) == 33
  {
    assert (0x2_0000_0000 * DeBruijn) % WORD == 0x349C_5184_0000_0000;
    assert 0x349C_5184_0000_0000 / 0x400_0000_0000_0000 == 13;
  }

  lemma TableAt34()
    ensures Tab64(TableIndex(0x4_0000_0000)) == 34
  {
    assert (0x4_0000_0000 * DeBruijn) % WORD == 0x6938_A308_0000_0000;
    assert 0x6938_A308_0000_0000 / 0x400_0000_0000_0000 == 26;
  }

  lemma TableAt35()
    ensures Tab64(TableIndex(0x8_0000_0000)) == 35
  {
    assert (0x8_0000_0000 * DeBruijn) % WORD == 0xD271_4610_0000_0000;
    assert 0xD271_4610_0000_0000 / 0x400_0000_0000_0000 == 52;
  }

  lemma TableAt36()
    ensures Tab64(TableIndex(0x10_0000_0000)) == 36
  {
    assert (0x10_0000_0000 * DeBruijn) % WORD == 0xA4E2_8C20_0000_0000;
    assert 0xA4E2_8C20_0000_0000 / 0x400_0000_0000_0000 == 41;
  }

  lemma TableAt37()
    ensures Tab64(TableIndex(0x20_0000_0000)) == 37
  {
    assert (0x20_0000_0000 * DeBruijn) % WORD == 0x49C5_1840_0000_0000;
    assert 0x49C5_1840_0000_0000 / 0x400_0000_0000_0000 == 18;
  }

  lemma TableAt38()
    ensures Tab64(TableIndex(0x40_0000_0000)) == 38
  {
    assert (0x40_0000_0000 * DeBruijn) % WORD == 0x938A_3080_0000_0000;
    assert 0x938A_3080_0000_0000 / 0x400_0000_0000_0000 == 36;
  }

  lemma TableAt39()
    ensures Tab64(TableIndex(0x80_0000_0000)) == 39
  {
    assert (0x80_0000_0000 * DeBruijn) % WORD == 0x2714_6100_0000_0000;
    assert 0x2714_6100_0000_0000 / 0x400_0000_0000_0000 == 9;
  }

  lemma TableAt40()
    ensures Tab64(TableIndex(0x100_0000_0000)) == 40
  {
    assert (0x100_0000_0000 * DeBruijn) % WORD == 0x4E28_C200_0000_0000;
    assert 0x4E28_C200_0000_0000 / 0x400_0000_0000_0000 == 19;
  }

  lemma TableAt41()
    ensures Tab64(TableIndex(0x200_0000_0000)) == 41
  {
    assert (0x200_0000_0000 * DeBruijn) % WORD == 0x9C51_8400_0000_0000;
    assert 0x9C51_8400_0000_0000 / 0x400_0000_0000_0000 == 39;
  }

  lemma TableAt42()
    ensures Tab64(TableIndex(0x400_0000_0000)) == 42
  {
    assert (0x400_0000_0000 * DeBruijn) % WORD == 0x38A3_0800_0000_0000;
    assert 0x38A3_0800_0000_0000 / 0x400_0000_0000_0000 == 14;
  }

  lemma TableAt43()
    ensures Tab64(TableIndex(0x800_0000_0000)) == 43
  {
    assert (0x800_0000_0000 * DeBruijn) % WORD == 0x7146_1000_0000_0000;
    assert 0x7146_1000_0000_0000 / 0x400_0000_0000_0000 == 28;
  }

  lemma TableAt44()
    ensures Tab64(TableIndex(0x1000_0000_0000)) == 44
  {
    assert (0x1000_0000_0000 * DeBruijn) % WORD == 0xE28C_2000_0000_0000;
    assert 0xE28C_2000_0000_0000 / 0x400_0000_0000_0000 == 56;
  }

  lemma TableAt45()
    ensures Tab64(TableIndex(0x2000_0000_0000)) == 45
  {
    assert (0x2000_0000_0000 * DeBruijn) % WORD == 0xC518_4000_0000_0000;
    assert 0xC518_4000_0000_0000 / 0x400_0000_0000_0000 == 49;
  }

  lemma TableAt46()
    ensures Tab64(TableIndex(0x4000_0000_0000)) == 46
  {
    assert (0x4000_0000_0000 * DeBruijn) % WORD == 0x8A30_8000_0000_0000;
    assert 0x8A30_8000_0000_0000 / 0x400_0000_0000_0000 == 34;
  }

  lemma TableAt47()
    ensures Tab64(TableIndex(0x8000_0000_0000)) == 47
  {
    assert (0x8000_0000_0000 * DeBruijn) % WORD == 0x1461_0000_0000_0000;
    assert 0x1461_0000_0000_0000 / 0x400_0000_0000_0000 == 5;
  }

  lemma TableAt48()
    ensures Tab64(TableIndex(0x1_0000_0000_0000)) == 48
  {
    assert (0x1_0000_0000_0000 * DeBruijn) % WORD == 0x28C2_0000_0000_0000;
    assert 0x28C2_0000_0000_0000 / 0x400_0000_0000_0000 == 10;
  }

  lemma TableAt49()
    ensures Tab64(TableIndex(0x2_0000_0000_0000)) == 49
  {
    assert (0x2_0000_0000_0000 * DeBruijn) % WORD == 0x5184_0000_0000_0000;
    assert 0x5184_0000_0000_0000 / 0x400_0000_0000_0000 == 20;
  }

  lemma TableAt50()
    ensures Tab64(TableIndex(0x4_0000_0000_0000)) == 50
  {
    assert (0x4_0000_0000_0000 * DeBruijn) % WORD == 0xA308_0000_0000_0000;
    assert 0xA308_0000_0000_0000 / 0x400_0000_0000_0000 == 40;
  }

  lemma TableAt51()
    ensures Tab64(TableIndex(0x8_0000_0000_0000)) == 51
  {
    assert (0x8_0000_0000_0000 * DeBruijn) % WORD == 0x4610_0000_0000_0000;
    assert 0x4610_0000_0000_0000 / 0x400_0000_0000_0000 == 17;
  }

  lemma TableAt52()
    ensures Tab64(TableIndex(0x10_0000_0000_0000)) == 52
  {
    assert (0x10_0000_0000_0000 * DeBruijn) % WORD == 0x8C20_0000_0000_0000;
    assert 0x8C20_0000_0000_0000 / 0x400_0000_0000_0000 == 35;
  }

  lemma TableAt53()
    ensures Tab64(TableIndex(0x20_0000_0000_0000)) == 53
  {
    assert (0x20_0000_0000_0000 * DeBruijn) % WORD == 0x1840_0000_0000_0000;
    assert 0x1840_0000_0000_0000 / 0x400_0000_0000_0000 == 6;
  }

  lemma TableAt54()
    ensures Tab64(TableIndex(0x40_0000_0000_0000)) == 54
  {
    assert (0x40_0000_0000_0000 * DeBruijn) % WORD == 0x3080_0000_0000_0000;
    assert 0x3080_0000_0000_0000 / 0x400_0000_0000_0000 == 12;
  }

  lemma TableAt55()
    ensures Tab64(TableIndex(0x80_0000_0000_0000)) == 55
  {
    assert (0x80_0000_0000_0000 * DeBruijn) % WORD == 0x6100_0000_0000_0000;
    assert 0x6100_0000_0000_0000 / 0x400_0000_0000_0000 == 24;
  }

  lemma TableAt56()
    ensures Tab64(TableIndex(0x100_0000_0000_0000)) == 56
  {
    assert (0x100_0000_0000_0000 * DeBruijn) % WORD == 0xC200_0000_0000_0000;
    assert 0xC200_0000_0000_0000 / 0x400_0000_0000_0000 == 48;
  }

  lemma TableAt57()
    ensures Tab64(TableIndex(0x200_0000_0000_0000)) == 57
  {
    assert (0x200_0000_0000_0000 * DeBruijn) % WORD == 0x8400_0000_0000_0000;
    assert 0x8400_0000_0000_0000 / 0x400_0000_0000_0000 == 33;
  }

  lemma TableAt58()
    ensures Tab64(TableIndex(0x400_0000_0000_0000)) == 58
  {
    assert (0x400_0000_0000_0000 * DeBruijn) % WORD == 0x800_0000_0000_0000;
    assert 0x800_0000_0000_0000 / 0x400_0000_0000_0000 == 2;
  }

  lemma TableAt59()
    ensures Tab64(TableIndex(0x800_0000_0000_0000)) == 59
  {
    assert (0x800_0000_0000_0000 * DeBruijn) % WORD == 0x1000_0000_0000_0000;
    assert 0x1000_0000_0000_0000 / 0x400_0000_0000_0000 == 4;
  }

  lemma TableAt60()
    ensures Tab64(TableIndex(0x1000_0000_0000_0000)) == 60
  {
    assert (0x1000_0000_0000_0000 * DeBruijn) % WORD == 0x2000_0000_0000_0000;
    assert 0x2000_0000_0000_0000 / 0x400_0000_0000_0000 == 8;
  }

  lemma TableAt61()
    ensures Tab64(TableIndex(0x2000_0000_0000_0000)) == 61
  {
    assert (0x2000_0000_0000_0000 * DeBruijn) % WORD == 0x4000_0000_0000_0000;
    assert 0x4000_0000_0000_0000 / 0x400_0000_0000_0000 == 16;
  }

  lemma TableAt62()
    ensures Tab64(TableIndex(0x4000_0000_0000_0000)) == 62
  {
    assert (0x4000_0000_0000_0000 * DeBruijn) % WORD == 0x8000_0000_0000_0000;
    assert 0x8000_0000_0000_0000 / 0x400_0000_0000_0000 == 32;
  }

  lemma TableAt63()
    ensures Tab64(TableIndex(0x8000_0000_0000_0000)) == 63
  {
    assert (0x8000_0000_0000_0000 * DeBruijn) % WORD == 0x0;
    assert 0x0 / 0x400_0000_0000_0000 == 0;
  }

  /**
   * `position_of_msb`: scans bit 0 to bit 63 and remembers the last set bit;
   * the result is one more than its index, the bit length of a nonzero n.
   * For n = 0 no bit is set and the result is 1.
   */
  method PositionOfMsb(n: uint64) returns (r: uint8)
    ensures n == 0 ==> r == 1
    ensures n != 0 ==> 1 <= r <= 64 && Pow2(r - 1) <= n < Pow2(r)
  {
    var position: uint8 := 0;
    var i := 0;
    while i < 64
      invariant 0 <= i <= 64 && position < 64
      invariant HighestSetBitBelow(n, i, position)
      decreases 64 - i
    {
      var bset := (n / Pow2(i)) % 2;
      HighestSetBitStep(n, i, position);
      if bset == 1 {
        position := i;
      }
      i := i + 1;
    }
    WordBelowPow2(n);
    assert HighestSetBitBelow(n, 64, position);
    r := position + 1;
  }

  /** The bit length of a nonzero word is one more than its log2_64. */
  lemma MsbIsLog2(n: uint64, r: nat)
    requires n != 0 && 1 <= r && Pow2(r - 1) <= n < Pow2(r)
    ensures r == Log2_64(n) + 1
  {
    var l := Log2_64(n);
    Log2Correct(n);
    var a := r - 1;
    assert Pow2(a) <= n < Pow2(a + 1);
    Log2Unique(n, a, l);
  }

  /** A positive number lies between two consecutive powers of two for one exponent only. */
  lemma Log2Unique(n: nat, a: nat, b: nat)
    requires Pow2(a) <= n < Pow2(a + 1) && Pow2(b) <= n < Pow2(b + 1)
    ensures a == b
  {
    if a < b {
      Pow2Monotone(a + 1, b);
    } else if b < a {
      Pow2Monotone(b + 1, a);
    }
  }

  lemma WordBelowPow2(n: uint64)
    ensures n % Pow2(64) == n
  {
    Pow2Word64();
    DivUnique(n, Pow2(64), 0, n);
  }

  /** `position` is the index of the highest set bit among the low i bits of n, or 0 if there is none. */
  ghost predicate HighestSetBitBelow(n: nat, i: nat, position: nat) {
    var low := n % Pow2(i);
    (low == 0 ==> position == 0) &&
    (low != 0 ==> position < i && Pow2(position) <= low < Pow2(position + 1))
  }

  lemma HighestSetBitStep(n: nat, i: nat, position: nat)
    requires HighestSetBitBelow(n, i, position)
    ensures HighestSetBitBelow(n, i + 1, if (n / Pow2(i)) % 2 == 1 then i else position)
  {
    ModPow2Succ(n, i);
    if (n / Pow2(i)) % 2 == 1 {
      assert n % Pow2(i + 1) == n % Pow2(i) + Pow2(i);
    } else {
      assert n % Pow2(i + 1) == n % Pow2(i);
    }
  }

  /** `(value << 1) | 1` on a uint64: the shift drops the top bit and leaves bit 0 clear. */
  function ShiftInOne(value: uint64): uint64 {
    (2 * value) % 0x1_0000_0000_0000_0000 + 1
  }

  /** Shifting a one into a block of w ones gives w + 1 ones, until all 64 bits are set. */
  lemma ShiftInOneStep(w: nat)
    requires w >= 1
    ensures Pow2(Min(w, 64)) - 1 < 0x1_0000_0000_0000_0000
    ensures ShiftInOne(Pow2(Min(w, 64)) - 1) == Pow2(Min(w + 1, 64)) - 1
  {
    Pow2Word64();
    if w < 64 {
      Pow2Monotone(w + 1, 64);
      DivUnique(2 * (Pow2(w) - 1), 0x1_0000_0000_0000_0000, 0, Pow2(w + 1) - 2);
    } else {
      DivUnique(2 * (Pow2(64) - 1), 0x1_0000_0000_0000_0000, 1, Pow2(64) - 2);
    }
  }

  /**
   * `max_integer`: the largest value of an n-bit unsigned field, 2^min(n, 64) - 1,
   * built from 1 by shifting in n - 1 further ones; 0 for n = 0. The uint16
   * counter never exceeds 254, so it is an unbounded integer here.
   */
  method MaxInteger(n: uint8) returns (r: uint64)
    ensures r == Pow2(Min(n, 64)) - 1
  {
    if n == 0 {
      return 0;
    }
    var value: uint64 := 1;
    var i := 0;
    while i < n - 1
      invariant 0 <= i <= n - 1
      invariant value == Pow2(Min(i + 1, 64)) - 1
    {
      ShiftInOneStep(i + 1);
      value := ShiftInOne(value);
      i := i + 1;
    }
    r := value;
  }

  /** The bit length of n, position_of_msb's result: 1 for 0. */
  ghost function BitLength(n: nat): (r: nat)
    ensures r >= 1 && n < Pow2(r)
    ensures n >= 1 ==> Pow2(r - 1) <= n
  {
    if n == 0 then 1 else FloorLog2(n) + 1
  }

  /** A number below 2^e has at most e bits. */
  lemma BitLengthAtMost(n: nat, e: nat)
    requires 1 <= e && n < Pow2(e)
    ensures BitLength(n) <= e
  {
    if n != 0 && BitLength(n) > e {
      Pow2Monotone(e, BitLength(n) - 1);
    }
  }

  /** The bracket position_of_msb ensures fixes its result as the bit length. */
  lemma PositionIsBitLength(n: uint64, r: nat)
    requires n == 0 ==> r == 1
    requires n != 0 ==> 1 <= r && Pow2(r - 1) <= n < Pow2(r)
    ensures r == BitLength(n)
  {
    if n != 0 {
      Log2Unique(n, r - 1, FloorLog2(n));
    }
  }

  /** What log2_64 computes, by Log2Correct: the floor of log2 v, and 63 for 0. */
  ghost function Log2Floor(v: nat): (r: nat)
  {
    if v == 0 then 63 else FloorLog2(v)
  }

  lemma Log2Agrees(v: uint64)
    ensures Log2_64(v) == Log2Floor(v)
  {
    Log2Correct(v);
    if v != 0 {
      Log2Unique(v, Log2_64(v), FloorLog2(v));
    }
  }

  /** a / b by repeated subtraction, which keeps the division out of the solver's arithmetic. */
  ghost function Quotient(a: nat, b: nat): (r: nat)
    requires b >= 1
    ensures r <= a
    decreases a
  {
    if a < b then 0 else 1 + Quotient(a - b, b)
  }

  lemma {:induction false} QuotientIs(a: nat, b: nat)
    requires b >= 1
    ensures Quotient(a, b) == a / b
    decreases a
  {
    if a < b {
      DivUnique(a, b, 0, a);
    } else {
      QuotientIs(a - b, b);
      var q := (a - b) / b;
      DivAtMost(a - b, b);
      DivUnique(a, b, q + 1, (a - b) % b);
    }
  }

  /**
   * `SS_LIMIT = log2_64(n) / log2_64(k)`, the longest substring the buckets and
   * the hash table store inline; k = 1 makes log2_64(k) zero.
   */
  ghost function SsLimit(n: uint64, k: uint8): (r: nat)
    requires k != 1
    ensures r < 64
  {
    assert Log2Floor(k) >= 1;
    assert Log2Floor(n) < 64 by {
      Pow2Word64();
      Log2Bound(n);
    }
    Quotient(Log2Floor(n), Log2Floor(k))
  }

  lemma SsLimitIs(n: uint64, k: uint8, a: nat, b: nat)
    requires k != 1 && a == Log2_64(n) && b == Log2_64(k)
    ensures b >= 1 && a / b == SsLimit(n, k)
  {
    Log2Agrees(n);
    Log2Agrees(k);
    QuotientIs(a, b);
  }

  /** `log2_64(value)` computed once, as the floor of the binary logarithm (63 for 0). */
  method Log2Word(value: uint64) returns (r: uint8)
    ensures r == Log2Floor(value) && r < 64
  {
    r := Log2_64(value);
    Log2Agrees(value);
  }

  lemma Log2Bound(n: nat)
    ensures n < Pow2(64) ==> Log2Floor(n) < 64
  {
    if n != 0 && n < Pow2(64) && FloorLog2(n) >= 64 {
      Pow2Monotone(64, FloorLog2(n));
    }
  }

  /**
   * The record parameters of bucket.cpp and hashtable.cpp for a text of
   * length n over k symbols: LSI_BITS = position_of_msb(n), SS_LIMIT and
   * SS_BITS = position_of_msb(SS_LIMIT).
   */
  method RecordLimits(n: uint64, k: uint8) returns (lsiBits: uint8, ssLimit: uint64, ssBits: uint8)
    requires k != 1
    ensures lsiBits == BitLength(n) && ssLimit == SsLimit(n, k) && ssBits == BitLength(ssLimit)
  {
    lsiBits := PositionOfMsb(n);
    PositionIsBitLength(n, lsiBits);
    var a, b := Log2_64(n), Log2_64(k);
    SsLimitIs(n, k, a, b);
    ssLimit := a / b;
    ssBits := PositionOfMsb(ssLimit);
    PositionIsBitLength(ssLimit, ssBits);
  }

  lemma DivAtMost(a: nat, b: nat)
    requires b >= 1
    ensures 0 <= a / b <= a
  {
    var q, r := a / b, a % b;
    assert a == b * q + r;
    if q >= 0 {
      MulLe(q, 1, b);
      assert q * b == b * q;
    }
  }

  /** log2_64 of a concrete nonzero word from its bracket between powers of two. */
  lemma Log2Of(n: uint64, e: nat)
    requires n != 0 && Pow2(e) <= n < Pow2(e + 1)
    ensures Log2_64(n) == e
  {
    Log2Correct(n);
    Log2Unique(n, e, Log2_64(n));
  }
}
