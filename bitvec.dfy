/**
 * The sdsl `bit_vector` operations the buckets, the hash table and the
 * sequence rely on, on a bit vector modelled as seq<bool>. Integers are read
 * and written least significant bit first: `set_int(idx, x, len)` puts bit j
 * of x at position idx + j, and `get_int(idx, len)` reads them back.
 * `select1` is a specification function.
 */
module BitVec {
  import opened Common

  /** The number the bits stand for, least significant bit first. */
  function Value(b: seq<bool>): (r: nat)
    ensures r < Pow2(|b|)
  {
    if b == [] then 0 else (if b[0] then 1 else 0) + 2 * Value(b[1..])
  }

  /** The len low bits of x, least significant bit first. */
  function BitsOf(x: nat, len: nat): (r: seq<bool>)
    ensures |r| == len
  {
    if len == 0 then [] else [x % 2 == 1] + BitsOf(x / 2, len - 1)
  }

  /** Writing the low len bits of x and reading them back gives x mod 2^len. */
  lemma {:induction false} ValueOfBits(x: nat, len: nat)
    ensures Value(BitsOf(x, len)) == x % Pow2(len)
  {
    if len > 0 {
      ValueOfBits(x / 2, len - 1);
      var b := BitsOf(x, len);
      assert b[1..] == BitsOf(x / 2, len - 1);
      MixedRadix(x, 2, Pow2(len - 1));
    }
  }

  /** Bit i of the encoding of x is bit i of x. */
  lemma {:induction false} BitOf(x: nat, len: nat, i: nat)
    requires i < len
    ensures BitsOf(x, len)[i] == ((x / Pow2(i)) % 2 == 1)
  {
    if i > 0 {
      BitOf(x / 2, len - 1, i - 1);
      MixedRadix(x, 2, Pow2(i - 1));
    }
  }

  /** The bits of a concatenation weigh the second part by 2^|a|. */
  lemma {:induction false} ValueAppend(a: seq<bool>, b: seq<bool>)
    ensures Value(a + b) == Value(a) + Pow2(|a|) * Value(b)
  {
    if a != [] {
      assert (a + b)[1..] == a[1..] + b;
      ValueAppend(a[1..], b);
      var t := Pow2(|a| - 1) * Value(b);
      Distrib(2, Value(a[1..]), t);
      Assoc(2, Pow2(|a| - 1), Value(b));
    } else {
      assert a + b == b;
    }
  }

  /** Every bit sequence is the encoding of its value. */
  lemma {:induction false} BitsOfValue(b: seq<bool>)
    ensures BitsOf(Value(b), |b|) == b
  {
    if b != [] {
      var x := Value(b);
      assert x % 2 == (if b[0] then 1 else 0) && x / 2 == Value(b[1..]);
      BitsOfValue(b[1..]);
    }
  }

  /** sdsl `get_int(idx, len)`: the len-bit field at position idx. */
  function GetInt(b: seq<bool>, idx: nat, len: nat): (r: nat)
    requires idx + len <= |b|
    ensures r < Pow2(len)
  {
    Value(b[idx..idx + len])
  }

  /**
   * sdsl `set_int(idx, x, len)`: the len-bit field at position idx receives
   * x mod 2^len; every other bit keeps its value.
   */
  function SetInt(b: seq<bool>, idx: nat, x: nat, len: nat): (r: seq<bool>)
    requires idx + len <= |b|
    ensures |r| == |b|
  {
    Overwrite(b, idx, BitsOf(x, len))
  }

  /** A field reads back what set_int wrote into it, modulo 2^len. */
  lemma GetIntSetInt(b: seq<bool>, idx: nat, x: nat, len: nat)
    requires idx + len <= |b|
    ensures GetInt(SetInt(b, idx, x, len), idx, len) == x % Pow2(len)
  {
    var r := SetInt(b, idx, x, len);
    assert r[idx..idx + len] == BitsOf(x, len);
    ValueOfBits(x, len);
  }

  /** A field read inside a written pattern reads the pattern. */
  lemma ReadOverwrite(b: seq<bool>, i: nat, f: seq<bool>, j: nat, len: nat)
    requires i + |f| <= |b| && j + len <= |f|
    ensures GetInt(Overwrite(b, i, f), i + j, len) == Value(f[j..j + len])
  {
    assert Overwrite(b, i, f)[i + j..i + j + len] == f[j..j + len];
  }

  /** A field of a written pattern that holds the bits of x reads x mod 2^w. */
  lemma ReadBits(b: seq<bool>, a: nat, f: seq<bool>, j: nat, x: nat, w: nat, at: nat)
    requires a + |f| <= |b| && j + w <= |f| && f[j..j + w] == BitsOf(x, w) && at == a + j
    ensures GetInt(Overwrite(b, a, f), at, w) == x % Pow2(w)
  {
    ReadOverwrite(b, a, f, j, w);
    ValueOfBits(x, w);
  }

  /** The same for x below 2^w, which reads back whole. */
  lemma ReadSmall(b: seq<bool>, a: nat, f: seq<bool>, j: nat, x: nat, w: nat, at: nat)
    requires a + |f| <= |b| && j + w <= |f| && f[j..j + w] == BitsOf(x, w) && x < Pow2(w) && at == a + j
    ensures GetInt(Overwrite(b, a, f), at, w) == x
  {
    ReadBits(b, a, f, j, x, w, at);
    DivUnique(x, Pow2(w), 0, x);
  }

  /** The bytes of s one after another, each in 8 bits least significant first. */
  function Chars(s: seq<uint8>): (r: seq<bool>)
    ensures |r| == 8 * |s|
  {
    if s == [] then [] else Chars(s[..|s| - 1]) + BitsOf(s[|s| - 1], 8)
  }

  /** Byte i of s is bits 8i .. 8i + 7 of its encoding. */
  lemma {:induction false} CharsAt(s: seq<uint8>, i: nat)
    requires i < |s|
    ensures Chars(s)[8 * i..8 * i + 8] == BitsOf(s[i], 8)
  {
    var m := |s| - 1;
    if i < m {
      CharsAt(s[..m], i);
      assert Chars(s)[..8 * m] == Chars(s[..m]);
      assert s[..m][i] == s[i];
    }
  }

  /** A byte is read back from its 8 bits. */
  lemma ValueOfByte(c: uint8)
    ensures Value(BitsOf(c, 8)) == c
  {
    ValueOfBits(c, 8);
    Pow2Byte();
  }

  /** set_int leaves every bit outside its field as it was. */
  lemma SetIntFrame(b: seq<bool>, idx: nat, x: nat, len: nat)
    requires idx + len <= |b|
    ensures forall j :: 0 <= j < |b| && !(idx <= j < idx + len) ==> SetInt(b, idx, x, len)[j] == b[j]
  {
  }

  /** A field written after another field, disjoint from it, leaves the first one readable. */
  lemma GetIntAfterSetInt(b: seq<bool>, idx: nat, x: nat, len: nat, idx2: nat, len2: nat)
    requires idx + len <= |b| && idx2 + len2 <= |b|
    requires idx2 + len2 <= idx || idx + len <= idx2
    ensures GetInt(SetInt(b, idx, x, len), idx2, len2) == GetInt(b, idx2, len2)
  {
    var r := SetInt(b, idx, x, len);
    assert r[idx2..idx2 + len2] == b[idx2..idx2 + len2];
  }

  /** The number of set bits in b. */
  function Ones(b: seq<bool>): (r: nat)
    ensures r <= |b|
  {
    if b == [] then 0 else Ones(b[..|b| - 1]) + (if b[|b| - 1] then 1 else 0)
  }

  /**
   * sdsl `select_support_mcl<1>` answering `select(j)`: the position of the
   * j-th set bit, counting from 1.
   */
  ghost predicate IsSelect1(b: seq<bool>, j: nat, pos: nat) {
    pos < |b| && b[pos] && Ones(b[..pos + 1]) == j
  }
}
