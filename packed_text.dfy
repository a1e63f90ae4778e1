/**
 * The packed text the 32- and 40-bit SA-IS engines read through `get2`
 * (src/sais32bit.cpp:9-35, src/sais40bit.cpp:9-35): element i of width d
 * occupies bits d*i .. d*i+d-1 of an array of 64-bit words, bits numbered
 * from the most significant bit of word 0, most significant bit of the
 * element first. BIT_MASK(uint64_t, w) is taken as 2^w - 1 (its definition
 * is not part of this model).
 */
module PackedText {
  import opened Common

  type bit = x: int | 0 <= x < 2

  /** Bit q of the word array, counted from the most significant bit of word 0. */
  ghost function Bit(B: seq<uint64>, q: nat): bit
    requires q < 64 * |B|
  {
    (B[q / 64] / Pow2(63 - q % 64)) % 2
  }

  /** The bits of the word array, most significant bit of word 0 first. */
  ghost function Bits(B: seq<uint64>): (r: seq<bit>)
    ensures |r| == 64 * |B|
  {
    seq(64 * |B|, q requires 0 <= q < 64 * |B| => Bit(B, q))
  }

  /** The d bits of a bit sequence starting at pos, read as a number, most significant first. */
  ghost function Field(bits: seq<bit>, pos: nat, d: nat): nat
    requires pos + d <= |bits|
  {
    if d == 0 then 0 else 2 * Field(bits, pos, d - 1) + bits[pos + d - 1]
  }

  /**
   * `get2`: element i of width d. When the element lies in one word it is
   * that word shifted right by the bits after it and masked to d bits;
   * otherwise the low bits of the word are shifted left to make room for the
   * top bits of the next word, and the two parts, which share no bit, are
   * joined by `|` (here +).
   */
  function Get2(B: seq<uint64>, i: nat, d: nat): (r: nat)
    requires 1 <= d <= 64 && d * i + d <= 64 * |B|
    ensures r == Field(Bits(B), d * i, d)
    ensures r < Pow2(d)
  {
    GetField(B, d * i, d)
  }

  /** The d-bit field at bit pos, as `get2` extracts it. */
  function GetField(B: seq<uint64>, pos: nat, d: nat): (r: nat)
    requires 1 <= d <= 64 && pos + d <= 64 * |B|
    ensures r == Field(Bits(B), pos, d)
    ensures r < Pow2(d)
  {
    var arrIndex := pos / 64;
    var bitIndex := 63 - pos % 64;
    if bitIndex + 1 >= d then
      InWord(B, pos, d, bitIndex + 1 - d)
    else
      Straddled(B, pos, bitIndex + 1, d - bitIndex - 1)
  }

  /** A field inside word pos / 64, s bits above its end: shift right by s, mask d bits. */
  function InWord(B: seq<uint64>, pos: nat, d: nat, s: nat): (r: nat)
    requires pos < 64 * |B| && pos + d <= 64 * |B| && pos % 64 + d + s == 64
    ensures r == Field(Bits(B), pos, d)
    ensures r < Pow2(d)
  {
    WordField(B, pos, d, s);
    (B[pos / 64] / Pow2(s)) % Pow2(d)
  }

  /**
   * A field whose first a bits end word pos / 64 and whose last b bits
   * start the next word: mask the a low bits, shift them left by b, and
   * join them with the next word shifted right by 64 - b.
   */
  function Straddled(B: seq<uint64>, pos: nat, a: nat, b: nat): (r: nat)
    requires pos + a + b <= 64 * |B| && 1 <= a && 1 <= b && b < 64
    requires pos % 64 + a == 64
    ensures r == Field(Bits(B), pos, a + b)
    ensures r < Pow2(a + b)
  {
    StraddleField(B, pos, a, b);
    FieldBelow(Bits(B), pos, a + b);
    (B[pos / 64] % Pow2(a)) * Pow2(b) + B[pos / 64 + 1] / Pow2(64 - b)
  }

  /** A field inside one word is that word shifted right past the s bits after it, masked to d bits. */
  lemma {:induction false} WordField(B: seq<uint64>, pos: nat, d: nat, s: nat)
    requires pos < 64 * |B| && pos + d <= 64 * |B|
    requires pos % 64 + d + s == 64
    ensures Field(Bits(B), pos, d) == (B[pos / 64] / Pow2(s)) % Pow2(d)
    decreases d
  {
    var w := B[pos / 64];
    if d > 0 {
      WordField(B, pos, d - 1, s + 1);
      var q := pos + d - 1;
      assert q / 64 == pos / 64 && 63 - q % 64 == s;
      assert Bits(B)[q] == (w / Pow2(s)) % 2;
      ShiftMaskSucc(w, s, d - 1);
    }
  }

  /** The d + 1 bits of w above its s lowest are twice the d bits above its s + 1 lowest, plus bit s. */
  lemma ShiftMaskSucc(w: nat, s: nat, d: nat)
    ensures (w / Pow2(s)) % Pow2(d + 1) == 2 * ((w / Pow2(s + 1)) % Pow2(d)) + (w / Pow2(s)) % 2
  {
    var ps := Pow2(s);
    var v := w / ps;
    DivPow2Succ(w, s);
    MixedRadix(v, 2, Pow2(d));
  }

  /** A field of d bits is below 2^d. */
  lemma {:induction false} FieldBelow(bits: seq<bit>, pos: nat, d: nat)
    requires pos + d <= |bits|
    ensures Field(bits, pos, d) < Pow2(d)
  {
    if d > 0 {
      FieldBelow(bits, pos, d - 1);
    }
  }

  /** A field of a + b bits is its first a bits followed by its last b bits. */
  lemma {:induction false} FieldConcat(bits: seq<bit>, pos: nat, a: nat, b: nat)
    requires pos + a + b <= |bits|
    ensures Field(bits, pos, a + b) == Field(bits, pos, a) * Pow2(b) + Field(bits, pos + a, b)
    decreases b
  {
    if b > 0 {
      FieldConcat(bits, pos, a, b - 1);
      var hi, lo, bit := Field(bits, pos, a), Field(bits, pos + a, b - 1), bits[pos + a + b - 1];
      assert Field(bits, pos, a + b) == 2 * Field(bits, pos, a + b - 1) + bit;
      assert Field(bits, pos + a, b) == 2 * lo + bit;
      ShiftIn(hi, lo, bit, b - 1);
    }
  }

  /** Appending a bit to the low part of hi * 2^b + lo. */
  lemma ShiftIn(hi: int, lo: int, bit: int, b: nat)
    ensures 2 * (hi * Pow2(b) + lo) + bit == hi * Pow2(b + 1) + (2 * lo + bit)
  {
    var p := Pow2(b);
    assert Pow2(b + 1) == 2 * p;
    Assoc(2, hi, p);
    Assoc(hi, 2, p);
  }

  /**
   * A field that straddles two words: its first a bits are the low a bits of
   * the first word and its last b bits the top b bits of the next one.
   */
  lemma StraddleField(B: seq<uint64>, pos: nat, a: nat, b: nat)
    requires pos + a + b <= 64 * |B| && 1 <= a && 1 <= b && b < 64
    requires pos % 64 + a == 64
    ensures pos / 64 + 1 < |B|
    ensures Field(Bits(B), pos, a + b) ==
      (B[pos / 64] % Pow2(a)) * Pow2(b) + B[pos / 64 + 1] / Pow2(64 - b)
  {
    var next := pos + a;
    assert next % 64 == 0 && next / 64 == pos / 64 + 1;
    FieldConcat(Bits(B), pos, a, b);
    LowPart(B, pos, a);
    HighPart(B, next, b);
  }

  /** The last a bits of a word are the word modulo 2^a. */
  lemma LowPart(B: seq<uint64>, pos: nat, a: nat)
    requires pos < 64 * |B| && pos % 64 + a == 64
    ensures pos + a <= 64 * |B|
    ensures Field(Bits(B), pos, a) == B[pos / 64] % Pow2(a)
  {
    WordField(B, pos, a, 0);
    DivByOne(B[pos / 64]);
  }

  /** The first b bits of a word are the word shifted right by 64 - b. */
  lemma HighPart(B: seq<uint64>, pos: nat, b: nat)
    requires pos % 64 == 0 && pos + b <= 64 * |B| && 1 <= b <= 64
    ensures Field(Bits(B), pos, b) == B[pos / 64] / Pow2(64 - b)
  {
    WordField(B, pos, b, 64 - b);
    TopBits(B[pos / 64], 64 - b, b);
  }

  lemma DivByOne(w: nat)
    ensures w / Pow2(0) == w
  {
    assert Pow2(0) == 1;
  }

  /** The bits of a 64-bit word above its l lowest need no mask. */
  lemma TopBits(w: uint64, l: nat, u: nat)
    requires l + u == 64
    ensures (w / Pow2(l)) % Pow2(u) == w / Pow2(l)
  {
    var pl, pu := Pow2(l), Pow2(u);
    Pow2Split64(l, u);
    QuotientBelow(w, pl, pu);
    var q := w / pl;
    DivUnique(q, pu, 0, q);
  }
}
