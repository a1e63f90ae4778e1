/** The pinned cases of test/hashtable_test.cpp, on the HashTables model. */
module HashTableExamples {
  import opened Common
  import opened BitVec
  import opened Utility
  import opened HashTables
  import BucketExamples

  /** "mmississiippii$". */
  const Mississippi: seq<uint8> := [109, 109, 105, 115, 115, 105, 115, 115, 105, 105, 112, 112, 105, 105, 36]

  /** construct_hashtable_1: for n = 15 and k = 5 the widths are 4/4/1/1, and the table starts empty. */
  method Construct() returns (size: nat, lsi: nat, lsl: nat, ssLimit: nat, ssBits: nat, head0: nat, rest99: nat, bits: nat)
    ensures size == 100 && lsi == 4 && lsl == 4 && ssLimit == 1 && ssBits == 1
    ensures head0 == 0 && rest99 == 0 && bits == 0
  {
    var table := new HashTable(100, 15, 5, Mississippi);
    BucketExamples.LimitsOf15And5();
    assert FloorLog2(1) == 0;
    size, lsi, lsl := table.htSize, table.widths.lsiBits, table.widths.lslBits;
    ssLimit, ssBits := table.widths.ssLimit, table.widths.ssBits;
    head0, rest99, bits := table.head[0], table.rest[99], |table.buf|;
  }

  /** The sum Weighted, folded from the left as hash_function's loop does. */
  function Horner(s: seq<uint8>): nat {
    if s == [] then 0 else Horner(s[..|s| - 1]) * 101 + s[|s| - 1]
  }

  lemma {:induction false} WeightedIsHorner(s: seq<uint8>)
    ensures Weighted(s) == Horner(s)
    decreases |s|
  {
    if s != [] {
      var init := s[..|s| - 1];
      WeightedIsHorner(init);
      WeightedSnoc(init, s[|s| - 1]);
      assert init + [s[|s| - 1]] == s;
    }
  }

  /** hash_function_1: "issi" at 2 and at 5 hash to 40 in a table of 100 chains, "iippii$" at 8 to 80. */
  method Hashes() returns (h1: nat, h2: nat, h3: nat)
    ensures h1 == 40 && h2 == 40 && h3 == 80
  {
    var table := new HashTable(100, 15, 5, Mississippi);
    var T := Mississippi;
    h1 := table.HashFunction(T, 4, 2);
    h2 := table.HashFunction(T, 4, 5);
    h3 := table.HashFunction(T, 7, 8);
    IssiHash(T[2..6]);
    IssiHash(T[5..9]);
    IippiiHash(T[8..15]);
  }

  lemma IssiHash(s: seq<uint8>)
    requires s == [105, 115, 115, 105]
    ensures HashOf(s, 100) == 40
  {
    WeightedIsHorner(s);
    var s3, s2, s1 := s[..3], s[..2], s[..1];
    assert s3[..2] == s2 && s2[..1] == s1;
    assert Horner(s1) == 105;
    assert Horner(s2) == 10720;
    assert Horner(s3) == 1082835;
    assert Horner(s) == 109366440;
  }

  lemma IippiiHash(s: seq<uint8>)
    requires s == [105, 105, 112, 112, 105, 105, 36]
    ensures HashOf(s, 100) == 80
  {
    WeightedIsHorner(s);
    var s6, s5, s4, s3, s2, s1 := s[..6], s[..5], s[..4], s[..3], s[..2], s[..1];
    assert s6[..5] == s5 && s5[..4] == s4 && s4[..3] == s3 && s3[..2] == s2 && s2[..1] == s1;
    assert Horner(s1) == 105;
    assert Horner(s2) == 10710;
    assert Horner(s3) == 1081822;
    assert Horner(s4) == 109264134;
    assert Horner(s5) == 11035677639;
    assert Horner(s6) == 1114603441644;
    assert Horner(s) == 112574947606080;
  }

  /** SS_LIMIT = 4 / 1 = 4, SS_BITS = 3 and LSI_BITS = 5 for n = 16, k = 2. */
  lemma LimitsOf16And2()
    ensures SsLimit(16, 2) == 4 && BitLength(4) == 3 && BitLength(16) == 5
  {
    assert FloorLog2(16) == 4 by {
      assert FloorLog2(1) == 0;
      assert FloorLog2(2) == 1;
      assert FloorLog2(4) == 2;
      assert FloorLog2(8) == 3;
    }
    assert Quotient(0, 1) == 0;
    assert Quotient(1, 1) == 1;
    assert Quotient(2, 1) == 2;
    assert Quotient(3, 1) == 3;
  }

  /**
   * get_length_1, get_length_2, skip_string_1 and skip_string_2 for n = 16,
   * k = 2: a short record of length 4 reads 4 and ends at bit 49, a long one
   * of length 15 reads 15 and ends at bit 24.
   */
  method SkipStrings() returns (l1: nat, skip1: nat, l2: nat, skip2: nat)
    ensures l1 == 4 && skip1 == 49 && l2 == 15 && skip2 == 24
  {
    var table := new HashTable(100, 16, 2, []);
    LimitsOf16And2();
    var w := table.widths;
    var short := SetInt(Zeros(100), 9, 4, w.ssBits);
    ShortLength(w, short);
    l1, skip1 := GetLength(w, short, 0), SkipString(w, short, 0);
    var long := SetInt(Zeros(100)[8 := true], 8 + 1 + w.lsiBits, 15, w.lslBits);
    LongLength(w, long);
    l2, skip2 := GetLength(w, long, 0), SkipString(w, long, 0);
  }

  lemma ShortLength(w: Widths, b: seq<bool>)
    requires w == Widths(4, 3, 5, 5, 5) && b == SetInt(Zeros(100), 9, 4, 3)
    ensures LengthReadable(w, b, 0) && GetLength(w, b, 0) == 4
  {
    SetIntFrame(Zeros(100), 9, 4, 3);
    GetIntSetInt(Zeros(100), 9, 4, 3);
    assert Pow2(3) == 8;
  }

  lemma LongLength(w: Widths, b: seq<bool>)
    requires w == Widths(4, 3, 5, 5, 5) && b == SetInt(Zeros(100)[8 := true], 14, 15, 5)
    ensures LengthReadable(w, b, 0) && GetLength(w, b, 0) == 15
  {
    SetIntFrame(Zeros(100)[8 := true], 14, 15, 5);
    GetIntSetInt(Zeros(100)[8 := true], 14, 15, 5);
    assert Pow2(5) == 32;
  }
}
