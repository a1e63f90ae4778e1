/**
 * Machine words as their bit patterns, most significant bit first, for the
 * MSB-first packed storage of src/packed_array.cpp.
 *
 * A uint32_t or uint64_t value is the sequence of its 32 or 64 bits. `x << k`
 * drops the top k bits and fills zeros at the bottom, `x >> k` the other way
 * round, and `&`, `|`, `~` act bit by bit. The image of a uint32_t array is
 * the concatenation of the bit patterns of its words, word 0 first.
 */
module BitImage {
  import opened Common

  const TWO32 := 0x1_0000_0000
  const TWO64 := 0x1_0000_0000_0000_0000

  /** The len low bits of x, most significant first. */
  function Msb(x: nat, len: nat): (r: seq<bool>)
    ensures |r| == len
  {
    if len == 0 then [] else Msb(x / 2, len - 1) + [x % 2 == 1]
  }

  /** The number a bit pattern stands for, most significant bit first. */
  function Num(b: seq<bool>): (r: nat)
    ensures r < Pow2(|b|)
  {
    if b == [] then 0 else 2 * Num(b[..|b| - 1]) + (if b[|b| - 1] then 1 else 0)
  }

  function Ones(n: nat): (r: seq<bool>)
    ensures |r| == n && forall k :: 0 <= k < n ==> r[k]
  {
    seq(n, _ => true)
  }

  /** No bit is set. */
  ghost predicate AllZero(b: seq<bool>) {
    forall k :: 0 <= k < |b| ==> !b[k]
  }

  /** `a << k` on a word of |a| bits. */
  function Shl(a: seq<bool>, k: nat): (r: seq<bool>)
    requires k <= |a|
    ensures |r| == |a|
  {
    a[k..] + Zeros(k)
  }

  /** `a >> k` on a word of |a| bits (unsigned). */
  function Shr(a: seq<bool>, k: nat): (r: seq<bool>)
    requires k <= |a|
    ensures |r| == |a|
  {
    Zeros(k) + a[..|a| - k]
  }

  /** `a | b`. */
  function Or(a: seq<bool>, b: seq<bool>): (r: seq<bool>)
    requires |a| == |b|
    ensures |r| == |a| && forall k :: 0 <= k < |a| ==> r[k] == (a[k] || b[k])
  {
    seq(|a|, k requires 0 <= k < |a| => a[k] || b[k])
  }

  /** `a & b`. */
  function And(a: seq<bool>, b: seq<bool>): (r: seq<bool>)
    requires |a| == |b|
    ensures |r| == |a| && forall k :: 0 <= k < |a| ==> r[k] == (a[k] && b[k])
  {
    seq(|a|, k requires 0 <= k < |a| => a[k] && b[k])
  }

  /** `a & ~m`. */
  function AndNot(a: seq<bool>, m: seq<bool>): (r: seq<bool>)
    requires |a| == |m|
    ensures |r| == |a| && forall k :: 0 <= k < |a| ==> r[k] == (a[k] && !m[k])
  {
    seq(|a|, k requires 0 <= k < |a| => a[k] && !m[k])
  }

  /** The low n bits of a word: the conversion to a narrower unsigned type. */
  function Low(a: seq<bool>, n: nat): (r: seq<bool>)
    requires n <= |a|
    ensures |r| == n
  {
    a[|a| - n..]
  }

  /** uint64_t addition, which wraps modulo 2^64. */
  function Add64(a: seq<bool>, b: seq<bool>): (r: seq<bool>)
    ensures |r| == 64
  {
    Msb((Num(a) + Num(b)) % TWO64, 64)
  }

  /** `(1 << k) - 1` on a 64-bit word, for k <= 64. */
  function LowMask(k: nat): (r: seq<bool>)
    requires k <= 64
    ensures |r| == 64
  {
    Zeros(64 - k) + Ones(k)
  }

  /** The bit image of a word array. */
  function Image(ws: seq<uint32>): (r: seq<bool>)
    ensures |r| == 32 * |ws|
  {
    if ws == [] then [] else Image(ws[..|ws| - 1]) + Msb(ws[|ws| - 1], 32)
  }

  /** The d-bit field at bit position p of the image, as a number. */
  function Field(ws: seq<uint32>, p: nat, d: nat): (r: nat)
    requires p + d <= 32 * |ws|
  {
    Num(Image(ws)[p..p + d])
  }

  /** Splicing into a stretch t of s is splicing into s. */
  lemma OverwriteNest(s: seq<bool>, a: nat, t: seq<bool>, i: nat, f: seq<bool>)
    requires a + |t| <= |s| && t == s[a..a + |t|] && i + |f| <= |t|
    ensures Overwrite(s, a, Overwrite(t, i, f)) == Overwrite(s, a + i, f)
  {
    var l, r := Overwrite(s, a, Overwrite(t, i, f)), Overwrite(s, a + i, f);
    assert forall k :: 0 <= k < |s| ==> l[k] == r[k];
  }

  /** A splice leaves the bits before it alone. */
  lemma OverwriteBefore(s: seq<bool>, p: nat, f: seq<bool>, a: nat, len: nat)
    requires p + |f| <= |s| && a + len <= p
    ensures Overwrite(s, p, f)[a..a + len] == s[a..a + len]
  {
    assert Overwrite(s, p, f)[..p] == s[..p];
  }

  /** A splice leaves the bits after it alone. */
  lemma OverwriteAfter(s: seq<bool>, p: nat, f: seq<bool>, a: nat, len: nat)
    requires p + |f| <= a && a + len <= |s|
    ensures Overwrite(s, p, f)[a..a + len] == s[a..a + len]
  {
    var t := Overwrite(s, p, f);
    assert forall k :: a <= k < a + len ==> t[k] == s[k];
  }

  /** A field named by the bits it covers. */
  lemma FieldOf(ws: seq<uint32>, p: nat, d: nat, s: seq<bool>)
    requires p + d <= 32 * |ws| && s == Image(ws)[p..p + d]
    ensures Field(ws, p, d) == Num(s)
  {
  }

  /** A field inside a stretch of the image whose bits are known. */
  lemma FieldOfSlice(ws: seq<uint32>, p: nat, len: nat, i: nat, d: nat, s: seq<bool>)
    requires p + len <= 32 * |ws| && i + d <= len && s == Image(ws)[p..p + len]
    ensures Field(ws, p + i, d) == Num(s[i..i + d])
  {
    InnerSlice(Image(ws), p, len, i, d, s);
  }

  lemma InnerSlice(img: seq<bool>, p: nat, len: nat, i: nat, d: nat, s: seq<bool>)
    requires p + len <= |img| && i + d <= len && s == img[p..p + len]
    ensures img[p + i..p + i + d] == s[i..i + d]
  {
    var t := s[i..i + d];
    assert forall k :: 0 <= k < d ==> t[k] == img[p + i + k];
  }

  /** Reading the len low bits of x back gives x mod 2^len. */
  lemma {:induction false} NumMsb(x: nat, len: nat)
    ensures Num(Msb(x, len)) == x % Pow2(len)
  {
    if len > 0 {
      NumMsb(x / 2, len - 1);
      var b := Msb(x, len);
      assert b[..len - 1] == Msb(x / 2, len - 1);
      MixedRadix(x, 2, Pow2(len - 1));
    }
  }

  /** A number below 2^len is read back from its len bits. */
  lemma NumMsbSmall(x: nat, len: nat)
    requires x < Pow2(len)
    ensures Num(Msb(x, len)) == x
  {
    NumMsb(x, len);
    DivUnique(x, Pow2(len), 0, x);
  }

  /** Every bit pattern is the pattern of its number. */
  lemma {:induction false} MsbNum(b: seq<bool>)
    ensures Msb(Num(b), |b|) == b
  {
    if b != [] {
      var n := |b|;
      MsbNum(b[..n - 1]);
      assert Num(b) / 2 == Num(b[..n - 1]) && (Num(b) % 2 == 1) == b[n - 1];
      assert b == b[..n - 1] + [b[n - 1]];
    }
  }

  /** The number of a concatenation weighs the first part by 2^|b|. */
  lemma {:induction false} NumAppend(a: seq<bool>, b: seq<bool>)
    ensures Num(a + b) == Num(a) * Pow2(|b|) + Num(b)
  {
    if b == [] {
      assert a + b == a;
    } else {
      var n := |b|;
      var c, bp := a + b, b[..n - 1];
      assert c[..|c| - 1] == a + bp;
      assert c[|c| - 1] == b[n - 1];
      NumAppend(a, bp);
      var A, P, B := Num(a), Pow2(n - 1), Num(bp);
      var AP := A * P;
      Assoc(A, 2, P);
      Assoc(2, A, P);
      Distrib(2, AP, B);
    }
  }

  lemma {:induction false} NumZeros(n: nat)
    ensures Num(Zeros(n)) == 0
  {
    if n > 0 {
      assert Zeros(n)[..n - 1] == Zeros(n - 1);
      NumZeros(n - 1);
    }
  }

  /** Leading zero bits do not change the number. */
  lemma NumLeadingZeros(z: seq<bool>, b: seq<bool>)
    requires AllZero(z)
    ensures Num(z + b) == Num(b)
  {
    assert z == Zeros(|z|);
    NumAppend(z, b);
    NumZeros(|z|);
  }

  /** Or-ing two patterns without a common set bit adds their numbers. */
  lemma {:induction false} NumOrDisjoint(a: seq<bool>, b: seq<bool>)
    requires |a| == |b| && forall k :: 0 <= k < |a| ==> !(a[k] && b[k])
    ensures Num(Or(a, b)) == Num(a) + Num(b)
  {
    if a != [] {
      var n := |a|;
      assert Or(a, b)[..n - 1] == Or(a[..n - 1], b[..n - 1]);
      NumOrDisjoint(a[..n - 1], b[..n - 1]);
    }
  }

  /** uint64_t addition of two patterns without a common set bit is their or. */
  lemma AddDisjoint(a: seq<bool>, b: seq<bool>)
    requires |a| == 64 && |b| == 64 && forall k :: 0 <= k < 64 ==> !(a[k] && b[k])
    ensures Add64(a, b) == Or(a, b)
  {
    var o := Or(a, b);
    NumOrDisjoint(a, b);
    Pow2Word64();
    var s := Num(a) + Num(b);
    assert s == Num(o) < TWO64;
    assert s % TWO64 == Num(o);
    MsbNum(o);
  }

  /** uint64_t addition of a high half and a low half is their concatenation. */
  lemma AddHalves(a: seq<bool>, b: seq<bool>)
    requires |a| + |b| == 64
    ensures Add64(a + Zeros(|b|), Zeros(|a|) + b) == a + b
  {
    var hi, lo := a + Zeros(|b|), Zeros(|a|) + b;
    assert forall k :: 0 <= k < 64 ==> !(hi[k] && lo[k]);
    AddDisjoint(hi, lo);
    assert Or(hi, lo) == a + b;
  }

  lemma SliceOfSlice(s: seq<bool>, a: nat, b: nat, i: nat, j: nat)
    requires a <= b <= |s| && i <= j <= b - a
    ensures s[a..b][i..j] == s[a + i..a + j]
  {
    assert forall k :: 0 <= k < j - i ==> s[a..b][i..j][k] == s[a + i + k];
  }

  lemma SliceConcat(s: seq<bool>, a: nat, b: nat, c: nat)
    requires a <= b <= c <= |s|
    ensures s[a..b] + s[b..c] == s[a..c]
  {
  }

  /** The top bits of x after the low b bits are those of hi = x / 2^b. */
  lemma {:induction false} MsbSplit(x: nat, a: nat, b: nat, hi: nat)
    requires hi == x / Pow2(b)
    ensures Msb(x, a + b) == Msb(hi, a) + Msb(x, b)
  {
    if b > 0 {
      MixedRadix(x, 2, Pow2(b - 1));
      MsbSplit(x / 2, a, b - 1, hi);
    }
  }

  lemma {:induction false} MsbZero(x: nat, len: nat)
    requires x == 0
    ensures Msb(x, len) == Zeros(len)
  {
    if len > 0 {
      MsbZero(x / 2, len - 1);
    }
  }

  /** A multiple of 2^len has len zero low bits. */
  lemma {:induction false} MsbOfMultiple(x: nat, len: nat)
    requires x % Pow2(len) == 0
    ensures Msb(x, len) == Zeros(len)
  {
    if len > 0 {
      MixedRadix(x, 2, Pow2(len - 1));
      MsbOfMultiple(x / 2, len - 1);
    }
  }

  /** A number below 2^d has only zeros above its low d bits. */
  lemma MsbSmall(x: nat, d: nat, len: nat)
    requires d <= len && x < Pow2(d)
    ensures Msb(x, len) == Zeros(len - d) + Msb(x, d)
  {
    DivUnique(x, Pow2(d), 0, x);
    MsbSplit(x, len - d, d, 0);
    MsbZero(0, len - d);
  }

  /** The image of a word array, read 32 bits at a time. */
  lemma {:induction false} ImageWord(ws: seq<uint32>, q: nat)
    requires q < |ws|
    ensures Image(ws)[32 * q..32 * q + 32] == Msb(ws[q], 32)
  {
    var n := |ws|;
    if q < n - 1 {
      ImageWord(ws[..n - 1], q);
      assert ws[..n - 1][q] == ws[q];
    }
  }

  lemma ImageTwo(ws: seq<uint32>, q: nat)
    requires q + 1 < |ws|
    ensures Image(ws)[32 * q..32 * q + 64] == Msb(ws[q], 32) + Msb(ws[q + 1], 32)
  {
    var img := Image(ws);
    ImageWord(ws, q);
    ImageWord(ws, q + 1);
    SliceConcat(img, 32 * q, 32 * q + 32, 32 * q + 64);
  }

  lemma ImageThree(ws: seq<uint32>, q: nat)
    requires q + 2 < |ws|
    ensures Image(ws)[32 * q..32 * q + 96] == Msb(ws[q], 32) + Msb(ws[q + 1], 32) + Msb(ws[q + 2], 32)
  {
    var img := Image(ws);
    ImageTwo(ws, q);
    ImageWord(ws, q + 2);
    SliceConcat(img, 32 * q, 32 * q + 64, 32 * q + 96);
  }

  /** Replacing word q replaces bits 32q .. 32q + 31 of the image. */
  lemma {:induction false} ImageUpdate(ws: seq<uint32>, q: nat, v: uint32)
    requires q < |ws|
    ensures Image(ws[q := v]) == Overwrite(Image(ws), 32 * q, Msb(v, 32))
  {
    var n := |ws|;
    var ws' := ws[q := v];
    if q == n - 1 {
      assert ws'[..n - 1] == ws[..n - 1];
    } else {
      assert ws'[..n - 1] == ws[..n - 1][q := v];
      ImageUpdate(ws[..n - 1], q, v);
    }
  }

  /** The image of an all-zero array is all zeros. */
  lemma {:induction false} ImageZeros(ws: seq<uint32>)
    requires forall j :: 0 <= j < |ws| ==> ws[j] == 0
    ensures AllZero(Image(ws))
  {
    if ws != [] {
      ImageZeros(ws[..|ws| - 1]);
      MsbZero(ws[|ws| - 1], 32);
    }
  }
}
