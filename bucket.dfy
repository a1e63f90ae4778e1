/**
 * The bucket of src/bucket.cpp: a bit vector that stores, one record after
 * another, the S* substrings starting with one character c.
 *
 * A short substring (length l at most SS_LIMIT) is a record of a type bit 0
 * (left as it is, not written), the length in SS_BITS bits and then each
 * character in 8 bits. A long one is a type bit 1, its position p in LSI_BITS
 * bits and its length in LSL_BITS = LSI_BITS bits. Fields are written with
 * sdsl `set_int`, least significant bit first.
 */
module Buckets {
  import opened Common
  import opened BitVec
  import opened Utility

  /** LSI_BITS = LSL_BITS = position_of_msb(n). */
  ghost function LsiBits(n: nat): nat {
    BitLength(n)
  }

  /** SS_BITS = position_of_msb(SS_LIMIT). */
  ghost function SsBits(n: uint64, k: uint8): nat
    requires k != 1
  {
    BitLength(SsLimit(n, k))
  }

  /** The number of bits insert_substring moves the cursor by. */
  ghost function RecordSize(n: uint64, k: uint8, l: nat): nat
    requires k != 1
  {
    if l <= SsLimit(n, k) then 1 + SsBits(n, k) + 8 * l else 1 + 2 * LsiBits(n)
  }

  /** What a short record writes after its type bit. */
  function ShortBody(T: seq<uint8>, p: nat, l: nat, ssBits: nat): (r: seq<bool>)
    requires p + l <= |T|
    ensures |r| == ssBits + 8 * l
  {
    BitsOf(l, ssBits) + Chars(T[p..p + l])
  }

  /** A long record: type bit 1, the position, the length. */
  function LongRecord(p: nat, l: nat, lsiBits: nat): (r: seq<bool>)
    ensures |r| == 1 + 2 * lsiBits && r[0]
  {
    [true] + BitsOf(p, lsiBits) + BitsOf(l, lsiBits)
  }

  /**
   * The bit vector after inserting T[p..p+l) at cursor pos: the record's bits
   * are written and every bit outside the record keeps its value.
   */
  ghost function Inserted(b: seq<bool>, pos: nat, T: seq<uint8>, n: uint64, k: uint8, p: nat, l: nat): (r: seq<bool>)
    requires k != 1 && pos + RecordSize(n, k, l) <= |b|
    requires l <= SsLimit(n, k) ==> p + l <= |T|
    ensures |r| == |b|
    ensures forall j :: 0 <= j < |b| && !(pos <= j < pos + RecordSize(n, k, l)) ==> r[j] == b[j]
  {
    if l <= SsLimit(n, k) then Overwrite(b, pos + 1, ShortBody(T, p, l, SsBits(n, k)))
    else Overwrite(b, pos, LongRecord(p, l, LsiBits(n)))
  }

  /** A short record reads back: the type bit untouched, the length, each character. */
  lemma ShortRecordFields(b: seq<bool>, pos: nat, T: seq<uint8>, n: uint64, k: uint8, p: nat, l: nat)
    requires k != 1 && l <= SsLimit(n, k) && p + l <= |T| && pos + RecordSize(n, k, l) <= |b|
    ensures Inserted(b, pos, T, n, k, p, l)[pos] == b[pos]
    ensures GetInt(Inserted(b, pos, T, n, k, p, l), pos + 1, SsBits(n, k)) == l
    ensures forall i :: 0 <= i < l ==> GetInt(Inserted(b, pos, T, n, k, p, l), pos + 1 + SsBits(n, k) + 8 * i, 8) == T[p + i]
  {
    var ss := SsBits(n, k);
    var f := ShortBody(T, p, l, ss);
    var r := Inserted(b, pos, T, n, k, p, l);
    assert r == Overwrite(b, pos + 1, f);
    ShortLength(b, pos + 1, T, p, l, ss);
    forall i | 0 <= i < l
      ensures GetInt(r, pos + 1 + SsBits(n, k) + 8 * i, 8) == T[p + i]
    {
      ShortChar(b, pos + 1, T, p, l, ss, i, pos + 1 + SsBits(n, k) + 8 * i);
    }
  }

  /** The length field of a short body, written at position a, reads back. */
  lemma ShortLength(b: seq<bool>, a: nat, T: seq<uint8>, p: nat, l: nat, ss: nat)
    requires p + l <= |T| && a + ss + 8 * l <= |b| && l < Pow2(ss)
    ensures GetInt(Overwrite(b, a, ShortBody(T, p, l, ss)), a, ss) == l
  {
    var f := ShortBody(T, p, l, ss);
    assert f[0..ss] == BitsOf(l, ss);
    ReadSmall(b, a, f, 0, l, ss, a);
  }

  /** Character i of a short body, written at position a, reads back from at. */
  lemma ShortChar(b: seq<bool>, a: nat, T: seq<uint8>, p: nat, l: nat, ss: nat, i: nat, at: nat)
    requires p + l <= |T| && a + ss + 8 * l <= |b| && i < l && at == a + ss + 8 * i
    ensures GetInt(Overwrite(b, a, ShortBody(T, p, l, ss)), at, 8) == T[p + i]
  {
    var f := ShortBody(T, p, l, ss);
    var cs := Chars(T[p..p + l]);
    var j := ss + 8 * i;
    assert f[j..j + 8] == BitsOf(T[p + i], 8) by {
      CharsAt(T[p..p + l], i);
      assert f[j..j + 8] == cs[8 * i..8 * i + 8];
    }
    ReadSmall(b, a, f, j, T[p + i], 8, at);
  }

  /** A long record reads back: type bit 1, the position and the length modulo 2^LSI_BITS. */
  lemma LongRecordFields(b: seq<bool>, pos: nat, T: seq<uint8>, n: uint64, k: uint8, p: nat, l: nat)
    requires k != 1 && l > SsLimit(n, k) && pos + RecordSize(n, k, l) <= |b|
    ensures Inserted(b, pos, T, n, k, p, l)[pos]
    ensures GetInt(Inserted(b, pos, T, n, k, p, l), pos + 1, LsiBits(n)) == p % Pow2(LsiBits(n))
    ensures GetInt(Inserted(b, pos, T, n, k, p, l), pos + 1 + LsiBits(n), LsiBits(n)) == l % Pow2(LsiBits(n))
    ensures p <= n ==> GetInt(Inserted(b, pos, T, n, k, p, l), pos + 1, LsiBits(n)) == p
    ensures l <= n ==> GetInt(Inserted(b, pos, T, n, k, p, l), pos + 1 + LsiBits(n), LsiBits(n)) == l
  {
    var w := LsiBits(n);
    var r := Inserted(b, pos, T, n, k, p, l);
    assert r == Overwrite(b, pos, LongRecord(p, l, w));
    LongFields(b, pos, p, l, w, pos + 1, pos + 1 + LsiBits(n));
    if p <= n {
      DivUnique(p, Pow2(w), 0, p);
    }
    if l <= n {
      DivUnique(l, Pow2(w), 0, l);
    }
  }

  /** The position and the length of a long record written at a read back modulo 2^w (at1, at2 are where they start). */
  lemma LongFields(b: seq<bool>, a: nat, p: nat, l: nat, w: nat, at1: nat, at2: nat)
    requires a + 1 + 2 * w <= |b| && at1 == a + 1 && at2 == a + 1 + w
    ensures Overwrite(b, a, LongRecord(p, l, w))[a]
    ensures GetInt(Overwrite(b, a, LongRecord(p, l, w)), at1, w) == p % Pow2(w)
    ensures GetInt(Overwrite(b, a, LongRecord(p, l, w)), at2, w) == l % Pow2(w)
  {
    var f := LongRecord(p, l, w);
    var j1, j2 := 1, 1 + w;
    assert f[j1..j1 + w] == BitsOf(p, w);
    assert f[j2..j2 + w] == BitsOf(l, w);
    ReadBits(b, a, f, j1, p, w, at1);
    ReadBits(b, a, f, j2, l, w, at2);
  }

  /** A bucket: the starting character c, the bit vector b of `bits` bits, its write cursor and record count. */
  class Bucket {
    const c: uint8
    const bits: nat
    var strings: nat
    var nextPosition: nat
    var b: seq<bool>

    ghost predicate Valid()
      reads this
    {
      |b| == bits
    }

    /** An empty bucket of n zero bits. */
    constructor (c: uint8, n: uint64)
      ensures this.c == c && bits == n && strings == 0 && nextPosition == 0 && b == Zeros(n) && Valid()
    {
      this.c := c;
      bits := n;
      strings := 0;
      nextPosition := 0;
      b := Zeros(n);
    }

    /**
     * `insert_substring(T, n, k, p, l)`: T[p..p+l) is written as the next
     * record, the cursor moves past it and the count grows by one. The record
     * has to fit in the bucket.
     */
    method InsertSubstring(T: seq<uint8>, n: uint64, k: uint8, p: uint64, l: uint64)
      requires Valid() && k != 1
      requires l <= SsLimit(n, k) ==> p + l <= |T|
      requires nextPosition + RecordSize(n, k, l) <= |b|
      modifies this
      ensures Valid()
      ensures b == Inserted(old(b), old(nextPosition), T, n, k, p, l)
      ensures nextPosition == old(nextPosition) + RecordSize(n, k, l)
      ensures strings == old(strings) + 1
    {
      var lsiBits, ssLimit, ssBits := RecordLimits(n, k);
      if l <= ssLimit {
        WriteShort(T, p, l, ssBits);
      } else {
        var lslBits := lsiBits;
        WriteLong(p, l, lsiBits, lslBits);
      }
      strings := strings + 1;
    }
  
    /**
     * The short branch: the type bit is skipped, then the length in ssBits
     * bits and each character in 8 bits are written at the cursor (kept in
     * locals while the record is written).
     */
    method WriteShort(T: seq<uint8>, p: nat, l: nat, ssBits: nat)
      requires Valid() && p + l <= |T| && nextPosition + 1 + ssBits + 8 * l <= |b|
      modifies this
      ensures Valid() && strings == old(strings)
      ensures b == Overwrite(old(b), old(nextPosition) + 1, ShortBody(T, p, l, ssBits))
      ensures nextPosition == old(nextPosition) + 1 + ssBits + 8 * l
    {
      var bv := WriteShortBits(b, nextPosition + 1, T, p, l, ssBits);
      b, nextPosition := bv, nextPosition + 1 + ssBits + 8 * l;
    }

    /** The long branch: type bit 1, then the position and the length. */
    method WriteLong(p: nat, l: nat, lsiBits: nat, lslBits: nat)
      requires Valid() && lslBits == lsiBits && nextPosition + 1 + 2 * lsiBits <= |b|
      modifies this
      ensures Valid() && strings == old(strings)
      ensures b == Overwrite(old(b), old(nextPosition), LongRecord(p, l, lsiBits))
      ensures nextPosition == old(nextPosition) + 1 + 2 * lsiBits
    {
      ghost var b0, pos := b, nextPosition;
      b := b[nextPosition := true];
      assert b == Overwrite(b0, pos, [true]);
      nextPosition := nextPosition + 1;
      b := SetInt(b, nextPosition, p, lsiBits);
      OverwriteAppend(b0, pos, [true], BitsOf(p, lsiBits));
      nextPosition := nextPosition + lsiBits;
      b := SetInt(b, nextPosition, l, lslBits);
      OverwriteAppend(b0, pos, [true] + BitsOf(p, lsiBits), BitsOf(l, lslBits));
      nextPosition := nextPosition + lsiBits;
    }
  }

  /**
   * The bits of the short branch, written at q0: the length in ssBits bits,
   * then each character in 8 bits.
   */
  method WriteShortBits(b0: seq<bool>, q0: nat, T: seq<uint8>, p: nat, l: nat, ssBits: nat) returns (bv: seq<bool>)
    requires p + l <= |T| && q0 + ssBits + 8 * l <= |b0|
    ensures bv == Overwrite(b0, q0, ShortBody(T, p, l, ssBits))
  {
    var b1 := SetInt(b0, q0, l, ssBits);
    bv := WriteChars(b1, q0 + ssBits, T, p, l);
    OverwriteAppend(b0, q0, BitsOf(l, ssBits), Chars(T[p..p + l]));
  }

  /** The characters T[p..p+l), 8 bits each, written at s2. */
  method WriteChars(b1: seq<bool>, s2: nat, T: seq<uint8>, p: nat, l: nat) returns (bv: seq<bool>)
    requires p + l <= |T| && s2 + 8 * l <= |b1|
    ensures bv == Overwrite(b1, s2, Chars(T[p..p + l]))
  {
    bv := b1;
    var q := s2;
    assert b1 == Overwrite(b1, s2, Chars(T[p..p]));
    var i := 0;
    while i < l
      invariant 0 <= i <= l && q == s2 + 8 * i
      invariant bv == Overwrite(b1, s2, Chars(T[p..p + i]))
    {
      ShortStep(b1, s2, T, p, i, bv, q);
      bv := SetInt(bv, q, T[p + i], 8);
      q := q + 8;
      i := i + 1;
    }
  }

  /** Writing character i at the end of the first i written characters. */
  lemma ShortStep(b1: seq<bool>, s2: nat, T: seq<uint8>, p: nat, i: nat, bv: seq<bool>, q: nat)
    requires p + i < |T| && s2 + 8 * (i + 1) <= |b1| && q == s2 + 8 * i
    requires bv == Overwrite(b1, s2, Chars(T[p..p + i]))
    ensures SetInt(bv, q, T[p + i], 8) == Overwrite(b1, s2, Chars(T[p..p + i + 1]))
  {
    OverwriteAppend(b1, s2, Chars(T[p..p + i]), BitsOf(T[p + i], 8));
    CharsStep(T, p, i);
  }

  /** One more character appended to the encoded prefix. */
  lemma CharsStep(T: seq<uint8>, p: nat, i: nat)
    requires p + i < |T|
    ensures Chars(T[p..p + i + 1]) == Chars(T[p..p + i]) + BitsOf(T[p + i], 8)
  {
    assert T[p..p + i + 1][..i] == T[p..p + i];
  }
}

/** The cases of test/bucket_test.cpp. */
module BucketExamples {
  import opened Common
  import opened BitVec
  import opened Utility
  import opened Buckets

  /** The bytes of an ASCII string. */
  function Ascii(s: string): (r: seq<uint8>)
    requires forall i :: 0 <= i < |s| ==> s[i] as int < 256
    ensures |r| == |s| && forall i :: 0 <= i < |s| ==> r[i] == s[i] as int
  {
    seq(|s|, i requires 0 <= i < |s| => s[i] as int as uint8)
  }

  /** A new bucket for 'a' of 100 bits has no strings yet. */
  method ConstructBucket() returns (c: uint8, bits: nat, strings: nat)
    ensures c == 'a' as int && bits == 100 && strings == 0
  {
    var bucket := new Bucket('a' as int as uint8, 100);
    c, bits, strings := bucket.c, bucket.bits, bucket.strings;
  }

  /** SS_LIMIT = 3 / 2 = 1 for n = 15, k = 5, so a substring of length 4 is long. */
  lemma LimitsOf15And5()
    ensures SsLimit(15, 5) == 1 && LsiBits(15) == 4
  {
    assert FloorLog2(15) == 3 by {
      assert FloorLog2(1) == 0;
      assert FloorLog2(3) == 1;
      assert FloorLog2(7) == 2;
    }
    assert FloorLog2(5) == 2 by {
      assert FloorLog2(2) == 1;
    }
    assert Quotient(1, 2) == 0;
    assert Quotient(3, 2) == 1;
  }

  /** Inserting "iipp" (p = 2, l = 4) of a 15-character text with k = 5 writes the long record 1 0100 0010. */
  method InsertLong() returns (bv: seq<bool>, strings: nat)
    ensures bv == seq(27, i => i == 0 || i == 2 || i == 7) && strings == 1
  {
    var T := Ascii("mmississiippii$");
    var bucket := new Bucket('i' as int as uint8, 27);
    LimitsOf15And5();
    bucket.InsertSubstring(T, 15, 5, 2, 4);
    LongExampleBits(T);
    bv, strings := bucket.b, bucket.strings;
  }

  lemma LongExampleBits(T: seq<uint8>)
    requires SsLimit(15, 5) == 1 && LsiBits(15) == 4
    ensures Inserted(Zeros(27), 0, T, 15, 5, 2, 4) == seq(27, i => i == 0 || i == 2 || i == 7)
  {
    assert LongRecord(2, 4, 4) == [true, false, true, false, false, false, false, true, false];
  }

  /** SS_LIMIT = 6 / 2 = 3 and SS_BITS = 2 for n = 66, k = 4. */
  lemma LimitsOf66And4()
    ensures SsLimit(66, 4) == 3 && SsBits(66, 4) == 2
  {
    assert FloorLog2(66) == 6 by {
      assert FloorLog2(1) == 0;
      assert FloorLog2(2) == 1;
      assert FloorLog2(4) == 2;
      assert FloorLog2(8) == 3;
      assert FloorLog2(16) == 4;
      assert FloorLog2(33) == 5;
    }
    assert FloorLog2(3) == 1;
    assert Quotient(0, 2) == 0;
    assert Quotient(2, 2) == 1;
    assert Quotient(4, 2) == 2;
  }

  /**
   * Inserting "asi" (p = 3, l = 3) of a 66-character text with k = 4 writes
   * the short record 0 11 10000110 11001110 10010110.
   */
  method InsertShort() returns (bv: seq<bool>, strings: nat)
    ensures bv == seq(100, i => i in {1, 2, 3, 8, 9, 11, 12, 15, 16, 17, 19, 22, 24, 25}) && strings == 1
  {
    // the 65 characters of the test's text and its terminating NUL
    var T := Ascii("issasi") + seq(58, _ => 's' as int as uint8) + [36, 0];
    var bucket := new Bucket('i' as int as uint8, 100);
    LimitsOf66And4();
    bucket.InsertSubstring(T, 66, 4, 3, 3);
    ShortExampleBits(T);
    bv, strings := bucket.b, bucket.strings;
  }

  /** 'a', 's' and 'i' in 8 bits, least significant first. */
  const BitsA: seq<bool> := [true, false, false, false, false, true, true, false]
  const BitsS: seq<bool> := [true, true, false, false, true, true, true, false]
  const BitsI: seq<bool> := [true, false, false, true, false, true, true, false]

  lemma ShortExampleChars()
    ensures Chars([97, 115, 105]) == BitsA + BitsS + BitsI
  {
    CharsSnoc([], 97);
    CharsSnoc([97], 115);
    CharsSnoc([97, 115], 105);
    ByteBits();
  }

  lemma ByteBits()
    ensures BitsOf(97, 8) == BitsA && BitsOf(115, 8) == BitsS && BitsOf(105, 8) == BitsI
  {
    ByteA();
    ByteS();
    ByteI();
  }

  lemma ByteA() ensures BitsOf(97, 8) == BitsA {}
  lemma ByteS() ensures BitsOf(115, 8) == BitsS {}
  lemma ByteI() ensures BitsOf(105, 8) == BitsI {}

  lemma CharsSnoc(s: seq<uint8>, c: uint8)
    ensures Chars(s + [c]) == Chars(s) + BitsOf(c, 8)
  {
    assert (s + [c])[..|s|] == s;
  }

  lemma ShortExampleBits(T: seq<uint8>)
    requires |T| >= 6 && T[3] == 97 && T[4] == 115 && T[5] == 105
    requires SsLimit(66, 4) == 3 && SsBits(66, 4) == 2
    ensures Inserted(Zeros(100), 0, T, 66, 4, 3, 3) == seq(100, i => i in {1, 2, 3, 8, 9, 11, 12, 15, 16, 17, 19, 22, 24, 25})
  {
    ShortInserted(T);
    ShortExampleBody(T);
    ShortImage();
  }

  lemma ShortExampleBody(T: seq<uint8>)
    requires |T| >= 6 && T[3] == 97 && T[4] == 115 && T[5] == 105
    ensures ShortBody(T, 3, 3, 2) == [true, true] + BitsA + BitsS + BitsI
  {
    assert T[3..6] == [97, 115, 105];
    ShortExampleChars();
    assert BitsOf(3, 2) == [true, true];
  }

  lemma ShortInserted(T: seq<uint8>)
    requires |T| >= 6 && SsLimit(66, 4) == 3 && SsBits(66, 4) == 2
    ensures Inserted(Zeros(100), 0, T, 66, 4, 3, 3) == [false] + ShortBody(T, 3, 3, 2) + Zeros(73)
  {
  }

  lemma ShortImage()
    ensures [false, true, true] + BitsA + BitsS + BitsI + Zeros(73)
         == seq(100, i => i in {1, 2, 3, 8, 9, 11, 12, 15, 16, 17, 19, 22, 24, 25})
  {
  }
}
