/**
 * The MSB-first packed array of src/packed_array.cpp: n elements of w bits,
 * element i occupying bits i*w .. i*w + w - 1 of the image of a uint32_t
 * array, counting from the most significant bit of word 0.
 *
 * The C++ masks `(1 << k) - 1` are computed in `int`. They are modelled with
 * the x86 behaviour, where the shift count is taken modulo 32 (so k = 32
 * gives the mask 0) and `(1 << 31) - 1` wraps to 0x7fffffff.
 */
module Packed {
  import opened Common
  import opened BitImage

  /** The number of data words: (n / 32) * w + ceil((n % 32) * w / 32). */
  function WordCount(n: nat, w: nat): nat {
    (n / 32) * w + ((n % 32) * w + 31) / 32
  }

  /** `(1 << k) - 1` as a C++ int on x86, widened to 64 bits. */
  function IntMask(k: nat): (r: seq<bool>)
    ensures |r| == 64
  {
    LowMask(k % 32)
  }

  /** `*b = (*b & ~m) | y` on a uint32_t word, with 64-bit m and y. */
  function Store(word: uint32, m: seq<bool>, y: seq<bool>): (r: uint32)
    requires |m| == 64 && |y| == 64
    ensures Msb(r, 32) == Low(Or(AndNot(Msb(word, 64), m), y), 32)
  {
    var bits := Low(Or(AndNot(Msb(word, 64), m), y), 32);
    Pow2Word32();
    Pow2Word64();
    MsbNum(bits);
    Num(bits)
  }

  /**
   * `set_bits` on the words ws, with the write cursor at word q, bit i, d bits
   * still to write and the uint64_t x as its 64 bits: the loop that fills the
   * rest of the current word and moves on while the field does not fit, then
   * the final store.
   */
  function SetBits(ws: seq<uint32>, q: nat, i: nat, d: nat, x: seq<bool>): (r: seq<uint32>)
    requires |x| == 64 && i < 32 && d <= 64 && q < |ws| && 32 * q + i + d <= 32 * |ws|
    ensures |r| == |ws|
    decreases d
  {
    if i + d > 32 then
      var d2 := 32 - i;
      var ws' := ws[q := Store(ws[q], IntMask(d2), Shr(x, d - d2))];
      SetBits(ws', q + 1, 0, d - d2, And(x, IntMask(d - d2)))
    else
      ws[q := Store(ws[q], IntMask(d), Shl(x, 32 - i - d))]
  }

  /** `pa_set`'s effect: x written into the w-bit field at bit position p. */
  function SetField(ws: seq<uint32>, p: nat, w: nat, x: uint64): (r: seq<uint32>)
    requires w <= 64 && p + w <= 32 * |ws| && p / 32 < |ws|
    ensures |r| == |ws|
  {
    SetBits(ws, p / 32, p % 32, w, Msb(x, 64))
  }

  /** `((uint64_t)b0 << 32) + b1`. */
  function Join2(b0: uint32, b1: uint32): (r: seq<bool>)
    ensures |r| == 64
  {
    Add64(Shl(Msb(b0, 64), 32), Msb(b1, 64))
  }

  /** `(x << 32) + b2`. */
  function Join3(x: seq<bool>, b2: uint32): (r: seq<bool>)
    requires |x| == 64
    ensures |r| == 64
  {
    Add64(Shl(x, 32), Msb(b2, 64))
  }

  /** `x <<= i; x >>= (63 - d); x >>= 1` on the two-word window x. */
  function ReadWindow(x: seq<bool>, i: nat, d: nat): (r: nat)
    requires |x| == 64 && 1 <= d <= 63 && i + d <= 64
  {
    Num(Shr(Shr(Shl(x, i), 63 - d), 1))
  }

  /**
   * The three-word read: the top half of `x << i`, then `(z << i) >> 32`
   * added in, then `>> (64 - d)`.
   */
  function ReadWindows(x: seq<bool>, z: seq<bool>, i: nat, d: nat): (r: nat)
    requires |x| == 64 && |z| == 64 && i < 32 && 1 <= d <= 63
  {
    Num(Shr(Add64(And(Shl(x, i), Shl(LowMask(32), 32)), Shr(Shl(z, i), 32)), 64 - d))
  }

  /**
   * `get_bits` on the words ws from word q, bit i: a 64-bit window of two
   * words when the field ends within it, else a window of three words whose
   * top and bottom halves are assembled separately.
   */
  function GetBits(ws: seq<uint32>, q: nat, i: nat, d: nat): (r: nat)
    requires i < 32 && 1 <= d <= 63 && q + 1 < |ws| && (i + d > 64 ==> q + 2 < |ws|)
  {
    var x := Join2(ws[q], ws[q + 1]);
    if i + d <= 64 then ReadWindow(x, i, d) else ReadWindows(x, Join3(x, ws[q + 2]), i, d)
  }

  /** The storage holds every field: n*w bits fit in the data words, with less than one word to spare. */
  lemma WordCountCovers(n: nat, w: nat)
    ensures n * w <= 32 * WordCount(n, w) < n * w + 32
  {
    var a, c := n / 32, n % 32;
    var t := (c * w + 31) / 32;
    assert n == 32 * a + c;
    assert n * w == 32 * (a * w) + c * w by {
      Distrib(w, 32 * a, c);
      Assoc(32, a, w);
    }
    assert c * w <= 32 * t < c * w + 32;
    Distrib(32, a * w, t);
  }

  /** A uint32_t word widened to 64 bits: 32 zero bits, then its own. */
  lemma Widen(v: uint32)
    ensures Msb(v, 64) == Zeros(32) + Msb(v, 32)
  {
    Pow2Word32();
    MsbSmall(v, 32, 64);
  }

  /** The first 64-bit window of get_bits is the image of two words. */
  lemma Window2(b0: uint32, b1: uint32)
    ensures Join2(b0, b1) == Msb(b0, 32) + Msb(b1, 32)
  {
    Widen(b0);
    Widen(b1);
    assert Shl(Msb(b0, 64), 32) == Msb(b0, 32) + Zeros(32);
    AddHalves(Msb(b0, 32), Msb(b1, 32));
  }

  /** The second window of the three-word read: the last 64 bits of three words. */
  lemma Window3(x: seq<bool>, b2: uint32)
    requires |x| == 64
    ensures Join3(x, b2) == x[32..] + Msb(b2, 32)
  {
    Widen(b2);
    AddHalves(x[32..], Msb(b2, 32));
  }

  lemma ReadTwo(x: seq<bool>, i: nat, d: nat)
    requires |x| == 64 && 1 <= d <= 63 && i + d <= 64
    ensures ReadWindow(x, i, d) == Num(x[i..i + d])
  {
    var s := Shr(Shr(Shl(x, i), 63 - d), 1);
    assert s == Zeros(64 - d) + x[i..i + d];
    NumLeadingZeros(Zeros(64 - d), x[i..i + d]);
  }

  lemma ReadThree(x: seq<bool>, z: seq<bool>, i: nat, d: nat)
    requires |x| == 64 && |z| == 64 && z[..32] == x[32..] && i < 32 && 64 < i + d <= 96 && d < 64
    ensures ReadWindows(x, z, i, d) == Num((x + z[32..])[i..i + d])
  {
    var hi := And(Shl(x, i), Shl(LowMask(32), 32));
    var lo := Shr(Shl(z, i), 32);
    var full := x + z[32..];
    assert hi == full[i..i + 32] + Zeros(32);
    assert lo == Zeros(32) + full[i + 32..i + 64];
    AddHalves(full[i..i + 32], full[i + 32..i + 64]);
    assert full[i..i + 32] + full[i + 32..i + 64] == full[i..i + 64];
    var s := Shr(full[i..i + 64], 64 - d);
    assert s == Zeros(64 - d) + full[i..i + d];
    NumLeadingZeros(Zeros(64 - d), full[i..i + d]);
  }

  /** `get_bits` reads the d-bit field at bit p = 32q + i of the image. */
  lemma GetBitsField(ws: seq<uint32>, q: nat, i: nat, d: nat, p: nat)
    requires i < 32 && 1 <= d <= 63 && q + 1 < |ws| && (i + d > 64 ==> q + 2 < |ws|) && p == 32 * q + i
    ensures p + d <= 32 * |ws| && GetBits(ws, q, i, d) == Field(ws, p, d)
  {
    if i + d <= 64 {
      GetBitsFieldTwo(ws, q, i, d);
    } else {
      GetBitsFieldThree(ws, q, i, d);
    }
  }

  lemma GetBitsFieldTwo(ws: seq<uint32>, q: nat, i: nat, d: nat)
    requires i < 32 && 1 <= d <= 63 && q + 1 < |ws| && i + d <= 64
    ensures GetBits(ws, q, i, d) == Field(ws, 32 * q + i, d)
  {
    var x := Join2(ws[q], ws[q + 1]);
    Window2(ws[q], ws[q + 1]);
    ReadTwo(x, i, d);
    ImageTwo(ws, q);
    FieldOfSlice(ws, 32 * q, 64, i, d, x);
  }

  lemma GetBitsFieldThree(ws: seq<uint32>, q: nat, i: nat, d: nat)
    requires i < 32 && 1 <= d <= 63 && q + 2 < |ws| && i + d > 64
    ensures GetBits(ws, q, i, d) == Field(ws, 32 * q + i, d)
  {
    var b0, b1, b2 := Msb(ws[q], 32), Msb(ws[q + 1], 32), Msb(ws[q + 2], 32);
    var x := Join2(ws[q], ws[q + 1]);
    Window2(ws[q], ws[q + 1]);
    var z := Join3(x, ws[q + 2]);
    Window3(x, ws[q + 2]);
    assert x[32..] == b1;
    ReadThree(x, z, i, d);
    assert x + z[32..] == b0 + b1 + b2;
    ImageThree(ws, q);
    FieldOfSlice(ws, 32 * q, 96, i, d, x + z[32..]);
  }

  /** The stored word, bit by bit: the old bits outside the mask, or-ed with the low 32 bits of y. */
  lemma StoreBits(word: uint32, m: seq<bool>, y: seq<bool>)
    requires |m| == 64 && |y| == 64
    ensures Msb(Store(word, m, y), 32) == Or(AndNot(Msb(word, 32), Low(m, 32)), Low(y, 32))
  {
    Widen(word);
  }

  /** The low word of `x >> k` holds the 32 - i bits of x above its low k bits, after i zeros. */
  lemma LowOfShr(x: seq<bool>, k: nat, i: nat, d: nat)
    requires |x| == 64 && i < 32 && 32 - i <= d <= 64 && k == d - (32 - i) && AllZero(x[..64 - d])
    ensures Low(Shr(x, k), 32) == Zeros(i) + x[64 - d..64 - k]
  {
    var l, r := Low(Shr(x, k), 32), Zeros(i) + x[64 - d..64 - k];
    assert forall j :: 0 <= j < 32 ==> l[j] == r[j] by {
      forall j | 0 <= j < 32
        ensures l[j] == r[j]
      {
        if 32 + j >= k && j < i {
          assert !x[..64 - d][32 + j - k];
        }
      }
    }
  }

  /** The low word of `x << (32 - i - d)` holds the low d bits of x at bit i. */
  lemma LowOfShl(x: seq<bool>, i: nat, d: nat)
    requires |x| == 64 && i + d <= 32 && AllZero(x[..64 - d])
    ensures Low(Shl(x, 32 - i - d), 32) == Zeros(i) + x[64 - d..] + Zeros(32 - i - d)
  {
    var l, r := Low(Shl(x, 32 - i - d), 32), Zeros(i) + x[64 - d..] + Zeros(32 - i - d);
    assert forall j :: 0 <= j < 32 ==> l[j] == r[j] by {
      forall j | 0 <= j < 32
        ensures l[j] == r[j]
      {
        if j < i {
          assert !x[..64 - d][64 - d - i + j];
        }
      }
    }
  }

  /**
   * `(w & ~m) | y` on 32-bit words, where y holds the field f at bit i and
   * zeros elsewhere: it is w with f spliced in, provided m keeps the bits
   * before i, clears every set bit of w inside the field and keeps the set
   * bits of w after it.
   */
  lemma Merge(w: seq<bool>, m: seq<bool>, y: seq<bool>, i: nat, f: seq<bool>)
    requires |w| == 32 && |m| == 32 && i + |f| <= 32 && y == Zeros(i) + f + Zeros(32 - i - |f|)
    requires forall j :: 0 <= j < i ==> !m[j]
    requires forall j :: i <= j < i + |f| ==> m[j] || !w[j]
    requires forall j :: i + |f| <= j < 32 ==> !(m[j] && w[j])
    ensures Or(AndNot(w, m), y) == Overwrite(w, i, f)
  {
    var l, r := Or(AndNot(w, m), y), Overwrite(w, i, f);
    assert forall j :: 0 <= j < 32 ==> l[j] == r[j];
  }

  /** A mask of at most 32 - i low bits keeps the bits before i. */
  lemma MaskBefore(k: nat, i: nat)
    requires k <= 32 && i <= 32 - k
    ensures forall j :: 0 <= j < i ==> !Low(LowMask(k), 32)[j]
  {
    LowMaskLow(k);
  }

  /** The low word of LowMask(k): its low k bits set. */
  lemma LowMaskLow(k: nat)
    requires k <= 32
    ensures Low(LowMask(k), 32) == Zeros(32 - k) + Ones(k)
  {
  }

  /** The low word of the shifted final mask: d bits set from bit i. */
  lemma ShiftedMaskLow(i: nat, d: nat)
    requires i + d <= 32
    ensures Low(Shl(LowMask(d), 32 - i - d), 32) == Zeros(i) + Ones(d) + Zeros(32 - i - d)
  {
    var l, r := Low(Shl(LowMask(d), 32 - i - d), 32), Zeros(i) + Ones(d) + Zeros(32 - i - d);
    assert forall j :: 0 <= j < 32 ==> l[j] == r[j];
  }

  /** A loop store of the corrected set_bits, into any word. */
  lemma StoreLoopFixed(word: uint32, i: nat, d: nat, k: nat, x: seq<bool>)
    requires |x| == 64 && i < 32 && 32 - i <= d <= 64 && k == d - (32 - i) && AllZero(x[..64 - d])
    ensures Msb(Store(word, LowMask(32 - i), Shr(x, k)), 32) == Overwrite(Msb(word, 32), i, x[64 - d..64 - k])
  {
    var w, f := Msb(word, 32), x[64 - d..64 - k];
    StoreBits(word, LowMask(32 - i), Shr(x, k));
    LowOfShr(x, k, i, d);
    LowMaskLow(32 - i);
    Merge(w, Low(LowMask(32 - i), 32), Low(Shr(x, k), 32), i, f);
  }

  /** The final store of the corrected set_bits, into any word. */
  lemma StoreFinalFixed(word: uint32, i: nat, d: nat, x: seq<bool>)
    requires |x| == 64 && i + d <= 32 && AllZero(x[..64 - d])
    ensures Msb(Store(word, Shl(LowMask(d), 32 - i - d), Shl(x, 32 - i - d)), 32) == Overwrite(Msb(word, 32), i, x[64 - d..])
  {
    var w, f := Msb(word, 32), x[64 - d..];
    StoreBits(word, Shl(LowMask(d), 32 - i - d), Shl(x, 32 - i - d));
    LowOfShl(x, i, d);
    ShiftedMaskLow(i, d);
    Merge(w, Low(Shl(LowMask(d), 32 - i - d), 32), Low(Shl(x, 32 - i - d), 32), i, f);
  }

  /** `x &= mask` with the low k bits of the mask set keeps the low k bits of x. */
  lemma KeepLow(x: seq<bool>, k: nat)
    requires |x| == 64 && k <= 64
    ensures And(x, LowMask(k)) == Zeros(64 - k) + x[64 - k..]
    ensures AllZero(And(x, LowMask(k))[..64 - k]) && And(x, LowMask(k))[64 - k..] == x[64 - k..]
  {
    var l, r := And(x, LowMask(k)), Zeros(64 - k) + x[64 - k..];
    assert forall j :: 0 <= j < 64 ==> l[j] == r[j];
  }

  lemma TailJoin(x: seq<bool>, a: nat, b: nat)
    requires a <= b <= |x|
    ensures x[a..b] + x[b..] == x[a..]
  {
  }

  /** Storing word q splices the stored bits into the image. */
  lemma StoreImage(ws: seq<uint32>, q: nat, i: nat, v: uint32, f: seq<bool>)
    requires q < |ws| && i + |f| <= 32 && Msb(v, 32) == Overwrite(Msb(ws[q], 32), i, f)
    ensures Image(ws[q := v]) == Overwrite(Image(ws), 32 * q + i, f)
  {
    ImageWord(ws, q);
    ImageUpdate(ws, q, v);
    OverwriteNest(Image(ws), 32 * q, Msb(ws[q], 32), i, f);
  }

  /** One pass of the corrected loop, on the image: bits 32q + i .. 32q + 31 receive the top 32 - i of the d bits. */
  lemma LoopStepFixed(ws: seq<uint32>, q: nat, i: nat, d: nat, k: nat, x: seq<bool>)
    requires |x| == 64 && i < 32 && 32 - i <= d <= 64 && k == d - (32 - i) && AllZero(x[..64 - d]) && q < |ws|
    ensures Image(ws[q := Store(ws[q], LowMask(32 - i), Shr(x, k))]) == Overwrite(Image(ws), 32 * q + i, x[64 - d..64 - k])
  {
    StoreLoopFixed(ws[q], i, d, k, x);
    StoreImage(ws, q, i, Store(ws[q], LowMask(32 - i), Shr(x, k)), x[64 - d..64 - k]);
  }

  /** The final store of the corrected set_bits, on the image: the last d bits go to bits 32q + i .. 32q + i + d - 1. */
  lemma FinalStepFixed(ws: seq<uint32>, q: nat, i: nat, d: nat, x: seq<bool>)
    requires |x| == 64 && i + d <= 32 && AllZero(x[..64 - d]) && q < |ws|
    ensures Image(ws[q := Store(ws[q], Shl(LowMask(d), 32 - i - d), Shl(x, 32 - i - d))]) == Overwrite(Image(ws), 32 * q + i, x[64 - d..])
  {
    StoreFinalFixed(ws[q], i, d, x);
    StoreImage(ws, q, i, Store(ws[q], Shl(LowMask(d), 32 - i - d), Shl(x, 32 - i - d)), x[64 - d..]);
  }

  /** Writing X[b..c] right after a splice of X[a..b] extends it to a splice of X[a..c]. */
  lemma Grow(s: seq<bool>, p: nat, pb: nat, X: seq<bool>, a: nat, b: nat, c: nat, t: seq<bool>, f: seq<bool>)
    requires a <= b <= c <= |X| && p + (c - a) <= |s| && pb == p + (b - a)
    requires t == Overwrite(s, p, X[a..b]) && f == X[b..c]
    ensures Overwrite(t, pb, f) == Overwrite(s, p, X[a..c])
  {
    OverwriteAppend(s, p, X[a..b], f);
    assert X[a..b] + f == X[a..c];
  }

  /** Writing the rest X[b..] right after a splice of X[a..b] makes a splice of X[a..]. */
  lemma GrowTail(s: seq<bool>, p: nat, pb: nat, X: seq<bool>, a: nat, b: nat, t: seq<bool>, f: seq<bool>)
    requires a <= b <= |X| && p + (|X| - a) <= |s| && pb == p + (b - a)
    requires t == Overwrite(s, p, X[a..b]) && f == X[b..]
    ensures Overwrite(t, pb, f) == Overwrite(s, p, X[a..])
  {
    OverwriteAppend(s, p, X[a..b], f);
    assert X[a..b] + f == X[a..];
  }

  /** Two sequences that agree from a on agree from any b >= a on, and on every slice from a. */
  lemma TailSlice(x: seq<bool>, y: seq<bool>, a: nat, b: nat, c: nat)
    requires a <= b <= |x| == |y| && a <= c <= |x| && x[a..] == y[a..]
    ensures x[b..] == y[b..] && x[a..c] == y[a..c]
  {
    assert forall j :: a <= j < |x| ==> x[j] == x[a..][j - a];
    assert forall j :: a <= j < |y| ==> y[j] == y[a..][j - a];
  }

  /**
   * The bookkeeping of one pass of the set_bits loop: when the image held
   * X[64 - w..64 - d] at bit P and the pass wrote the next 32 - i bits, it
   * holds X[64 - w..64 - k], and `x &= mask` leaves the k bits still to write.
   */
  lemma Advance(I0: seq<bool>, P: nat, X: seq<bool>, w: nat, before: seq<bool>, after: seq<bool>, q: nat, i: nat, d: nat, k: nat, x: seq<bool>)
    requires |X| == 64 && |x| == 64 && i < 32 && d <= w <= 64 && 32 - i <= d && k == d - (32 - i)
    requires 32 * q + i == P + (w - d) && 32 * q + i + d <= |I0|
    requires AllZero(x[..64 - d]) && x[64 - d..] == X[64 - d..]
    requires before == Overwrite(I0, P, X[64 - w..64 - d])
    requires after == Overwrite(before, 32 * q + i, x[64 - d..64 - k])
    ensures after == Overwrite(I0, P, X[64 - w..64 - k])
    ensures AllZero(And(x, LowMask(k))[..64 - k]) && And(x, LowMask(k))[64 - k..] == X[64 - k..]
  {
    var a, b, c := 64 - w, 64 - d, 64 - k;
    TailSlice(x, X, b, c, c);
    var f := x[b..c];
    assert f == X[b..c];
    Grow(I0, P, 32 * q + i, X, a, b, c, before, f);
    KeepLow(x, k);
  }

  /** The final store completes the splice of X[64 - w..] at bit P. */
  lemma Finish(I0: seq<bool>, P: nat, X: seq<bool>, w: nat, before: seq<bool>, after: seq<bool>, q: nat, i: nat, d: nat, x: seq<bool>)
    requires |X| == 64 && |x| == 64 && d <= w <= 64
    requires 32 * q + i == P + (w - d) && 32 * q + i + d <= |I0|
    requires x[64 - d..] == X[64 - d..]
    requires before == Overwrite(I0, P, X[64 - w..64 - d])
    requires after == Overwrite(before, 32 * q + i, x[64 - d..])
    ensures after == Overwrite(I0, P, X[64 - w..])
  {
    GrowTail(I0, P, 32 * q + i, X, 64 - w, 64 - d, before, x[64 - d..]);
  }

  /**
   * The start of set_bits: a value below 2^w as a uint64_t is zeros then its
   * w-bit image, and nothing of it is written yet.
   */
  lemma StartPass(I0: seq<bool>, P: nat, x: nat, w: nat, X: seq<bool>)
    requires w <= 64 && x < Pow2(w) && X == Msb(x, 64) && P <= |I0|
    ensures AllZero(X[..64 - w]) && X[64 - w..] == Msb(x, w)
    ensures I0 == Overwrite(I0, P, X[64 - w..64 - w])
  {
    MsbSmall(x, w, 64);
    assert X[64 - w..64 - w] == [];
  }

  /** The bit position of element j in a packed array of width w: j * w. */
  function Offset(j: nat, w: nat): nat {
    if j == 0 then 0 else Offset(j - 1, w) + w
  }

  lemma {:induction false} OffsetIs(j: nat, w: nat)
    ensures Offset(j, w) == j * w
  {
    if j > 0 {
      OffsetIs(j - 1, w);
      Distrib(w, j - 1, 1);
    }
  }

  /** Element j ends where element i starts or earlier, for j < i. */
  lemma {:induction false} OffsetBefore(j: nat, i: nat, w: nat)
    requires j < i
    ensures Offset(j, w) + w <= Offset(i, w)
  {
    if j < i - 1 {
      OffsetBefore(j, i - 1, w);
    }
  }

  /**
   * The n elements of width w over the words ws: element j is the w-bit
   * field at bit Offset(j, w).
   */
  function Elements(ws: seq<uint32>, n: nat, w: nat): (r: seq<nat>)
    requires Offset(n, w) <= 32 * |ws|
    ensures |r| == n
  {
    seq(n, j requires 0 <= j < n => OffsetBefore(j, n, w); Field(ws, Offset(j, w), w))
  }

  /**
   * `pa_set`/`pa_get` address element i as word (i >> 5) * w plus bit
   * (i % 32) * w, which `set_bits`/`get_bits` split again into a word and a
   * bit below 32: all of it is bit i * w of the image.
   */
  lemma ElementPosition(i: nat, w: nat)
    ensures 0 <= (i / 32) * w && 0 <= (i % 32) * w
    ensures 32 * ((i / 32) * w) + (i % 32) * w == i * w
    ensures 32 * ((i / 32) * w + ((i % 32) * w) / 32) + ((i % 32) * w) % 32 == i * w
  {
    var a, c := i / 32, i % 32;
    Distrib(w, 32 * a, c);
    Assoc(32, a, w);
  }

  /** After a splice of f at bit p, the field at p reads f. */
  lemma FieldReadBack(ws: seq<uint32>, ws2: seq<uint32>, p: nat, f: seq<bool>, d: nat)
    requires |ws2| == |ws| && d == |f| && p + d <= 32 * |ws| && Image(ws2) == Overwrite(Image(ws), p, f)
    ensures Field(ws2, p, d) == Num(f)
  {
    assert Image(ws2)[p..p + d] == f;
  }

  /** After a splice of f at bit p, a field disjoint from it reads what it read before. */
  lemma FieldUntouched(ws: seq<uint32>, ws2: seq<uint32>, p: nat, f: seq<bool>, p2: nat, d2: nat)
    requires |ws2| == |ws| && p + |f| <= 32 * |ws| && p2 + d2 <= 32 * |ws|
    requires Image(ws2) == Overwrite(Image(ws), p, f) && (p2 + d2 <= p || p + |f| <= p2)
    ensures Field(ws2, p2, d2) == Field(ws, p2, d2)
  {
    if p2 + d2 <= p {
      OverwriteBefore(Image(ws), p, f, p2, d2);
    } else {
      OverwriteAfter(Image(ws), p, f, p2, d2);
    }
  }

  /** Element j is the field at Offset(j, w). */
  lemma ElementAt(ws: seq<uint32>, n: nat, w: nat, j: nat)
    requires Offset(n, w) <= 32 * |ws| && j < n
    ensures Offset(j, w) + w <= 32 * |ws| && Elements(ws, n, w)[j] == Field(ws, Offset(j, w), w)
  {
    OffsetBefore(j, n, w);
  }

  /** Writing x into element i's field changes element i to x ... */
  lemma ElementUpdated(ws: seq<uint32>, ws2: seq<uint32>, n: nat, w: nat, i: nat, x: nat, p: nat, j: nat)
    requires |ws2| == |ws| && Offset(n, w) <= 32 * |ws| && i < n && j < n && x < Pow2(w) && p == Offset(i, w)
    requires p + w <= 32 * |ws| && Image(ws2) == Overwrite(Image(ws), p, Msb(x, w))
    ensures Elements(ws2, n, w)[j] == if j == i then x else Elements(ws, n, w)[j]
  {
    ElementAt(ws, n, w, j);
    ElementAt(ws2, n, w, j);
    var f, pj := Msb(x, w), Offset(j, w);
    if j == i {
      FieldReadBack(ws, ws2, p, f, w);
      NumMsbSmall(x, w);
    } else {
      if j < i {
        OffsetBefore(j, i, w);
      } else {
        OffsetBefore(i, j, w);
      }
      FieldUntouched(ws, ws2, p, f, pj, w);
    }
  }

  /** ... and no other element. */
  lemma UpdateElements(ws: seq<uint32>, ws2: seq<uint32>, n: nat, w: nat, i: nat, x: nat, p: nat)
    requires |ws2| == |ws| && Offset(n, w) <= 32 * |ws| && i < n && x < Pow2(w) && p == Offset(i, w)
    requires p + w <= 32 * |ws| && Image(ws2) == Overwrite(Image(ws), p, Msb(x, w))
    ensures Elements(ws2, n, w) == Elements(ws, n, w)[i := x]
  {
    var l, r := Elements(ws2, n, w), Elements(ws, n, w)[i := x];
    forall j | 0 <= j < n
      ensures l[j] == r[j]
    {
      ElementUpdated(ws, ws2, n, w, i, x, p, j);
    }
  }

  /** Every element of an all-zero word array is 0. */
  lemma ZeroElements(ws: seq<uint32>, n: nat, w: nat)
    requires Offset(n, w) <= 32 * |ws| && forall j :: 0 <= j < |ws| ==> ws[j] == 0
    ensures forall j :: 0 <= j < n ==> Elements(ws, n, w)[j] == 0
  {
    forall j | 0 <= j < n
      ensures Elements(ws, n, w)[j] == 0
    {
      OffsetBefore(j, n, w);
      FieldOfZeros(ws, Offset(j, w), w);
    }
  }

  /** Every field of an all-zero word array is 0. */
  lemma FieldOfZeros(ws: seq<uint32>, p: nat, w: nat)
    requires p + w <= 32 * |ws| && forall j :: 0 <= j < |ws| ==> ws[j] == 0
    ensures Field(ws, p, w) == 0
  {
    ImageZeros(ws);
    var f := Image(ws)[p..p + w];
    assert f == Zeros(w);
    NumZeros(w);
  }

  /**
   * set_bits as written ends with the unshifted mask `(1 << d) - 1`: with
   * w = 16, writing element 0 clears bits 16 .. 31 of the first word, which
   * hold element 1, whatever value is written.
   */
  lemma AsWrittenClearsNext(ws: seq<uint32>, x: uint64)
    requires |ws| >= 1
    ensures Field(SetField(ws, 0, 16, x), 16, 16) == 0
  {
    var X := Msb(x, 64);
    var m := IntMask(16);
    var y := Shl(X, 16);
    assert m == LowMask(16);
    var v := Store(ws[0], m, y);
    var ws' := ws[0 := v];
    assert SetField(ws, 0, 16, x) == ws';
    var word := Msb(v, 32);
    forall k | 16 <= k < 32
      ensures !word[k]
    {
      assert word[k] == Or(AndNot(Msb(ws[0], 64), m), y)[32 + k];
      assert !y[32 + k];
    }
    assert word[16..] == Zeros(16);
    ImageWord(ws', 0);
    assert Image(ws')[16..32] == word[16..32];
    NumZeros(16);
  }

  /** Writing zero bits over zeros leaves a zero word. */
  lemma StoreZero(m: seq<bool>, y: seq<bool>)
    requires |m| == 64 && |y| == 64 && AllZero(y)
    ensures Store(0, m, y) == 0
  {
    var r := Store(0, m, y);
    MsbZero(0, 64);
    assert Msb(r, 32) == Zeros(32);
    NumMsbSmall(r, 32);
    NumZeros(32);
  }

  lemma ShiftsOfZero(x: seq<bool>, k: nat, m: seq<bool>)
    requires |x| == 64 && k <= 64 && |m| == 64 && AllZero(x)
    ensures AllZero(Shr(x, k)) && AllZero(Shl(x, k)) && AllZero(And(x, m))
  {
    assert Shr(x, k) == Zeros(k) + x[..64 - k];
    assert Shl(x, k) == x[k..] + Zeros(k);
  }

  /** set_bits as written, storing zero bits into zero words, leaves them zero. */
  lemma {:induction false} AsWrittenZero(ws: seq<uint32>, q: nat, i: nat, d: nat, x: seq<bool>)
    requires |x| == 64 && i < 32 && d <= 64 && q < |ws| && 32 * q + i + d <= 32 * |ws|
    requires forall j :: 0 <= j < |ws| ==> ws[j] == 0
    requires AllZero(x)
    ensures forall j :: 0 <= j < |ws| ==> SetBits(ws, q, i, d, x)[j] == 0
    decreases d
  {
    if i + d > 32 {
      var d2 := 32 - i;
      var k := d - d2;
      ShiftsOfZero(x, k, IntMask(k));
      StoreZero(IntMask(d2), Shr(x, k));
      var ws' := ws[q := Store(ws[q], IntMask(d2), Shr(x, k))];
      AsWrittenZero(ws', q + 1, 0, k, And(x, IntMask(k)));
    } else {
      ShiftsOfZero(x, 32 - i - d, IntMask(d));
      StoreZero(IntMask(d), Shl(x, 32 - i - d));
    }
  }

  /**
   * set_bits as written masks with the int expression `(1 << d) - 1` also when
   * d >= 32: with w = 42, element 3 starts at bit 30, the loop leaves d = 40
   * and `x &= (1 << 40) - 1` keeps only the low 8 bits of x. Writing 256 into
   * a zeroed array of four elements leaves element 3 reading 0.
   */
  lemma AsWrittenDropsHighBits()
    ensures Field(SetField(seq(7, _ => 0), 126, 42, 256), 126, 42) == 0
  {
    var ws: seq<uint32> := seq(7, _ => 0);
    var X := Msb(256, 64);
    BitsOf256(X);
    var y := Shr(X, 40);
    HighZeroShr(X, 40);
    StoreZero(IntMask(2), y);
    var ws1 := ws[3 := Store(ws[3], IntMask(2), y)];
    var x1 := And(X, IntMask(40));
    assert IntMask(40) == LowMask(8);
    AsWrittenZero(ws1, 4, 0, 40, x1);
    var r := SetField(ws, 126, 42, 256);
    assert r == SetBits(ws1, 4, 0, 40, x1);
    ImageZeros(r);
    assert Image(r)[126..168] == Zeros(42);
    NumZeros(42);
  }

  /** Of the 64 bits of 256 only bit 8 is set. */
  lemma BitsOf256(X: seq<bool>)
    requires X == Msb(256, 64)
    ensures AllZero(X[..24]) && AllZero(And(X, LowMask(8)))
  {
    assert Pow2(9) == 512;
    MsbSmall(256, 9, 64);
    MsbSplit(256, 56, 8, 1);
    MsbOfMultiple(256, 8);
    assert X[56..] == Zeros(8);
    assert X[..24] == Zeros(24);
  }

  lemma HighZeroShr(x: seq<bool>, k: nat)
    requires |x| == 64 && k <= 64 && AllZero(x[..64 - k])
    ensures AllZero(Shr(x, k))
  {
    assert Shr(x, k) == Zeros(k) + x[..64 - k];
  }

  /**
   * The packed array: n fields of w bits in the uint32_t array b, field i at
   * bits i*w .. i*w + w - 1 of the image of b. The stored words are
   * WordCount(n, w) plus one spare word, which the two-word reads of the
   * last fields may touch.
   */
  class PackedArray {
    const n: nat
    const w: nat
    const b: array<uint32>

    /** The allocation made by the constructor. */
    ghost predicate Valid()
      reads this
    {
      b.Length == WordCount(n, w) + 1
    }

    /** A zeroed array of WordCount(n, w) + 1 words. */
    constructor (n: uint64, w: uint8)
      ensures this.n == n && this.w == w && Valid() && fresh(b)
      ensures forall j :: 0 <= j < b.Length ==> b[j] == 0
      ensures forall j :: 0 <= j < n ==> Contents()[j] == 0
    {
      this.n := n;
      this.w := w;
      var x := (n / 32) * w + ((n % 32) * w + 31) / 32;
      b := new uint32[x + 1](_ => 0);
      new;
      WordCountCovers(n, w);
      OffsetIs(n, w);
      ZeroElements(b[..], n, w);
    }

    /** The n elements the array holds. */
    ghost function Contents(): (r: seq<nat>)
      requires Valid()
      reads this, b
      ensures |r| == n
    {
      WordCountCovers(n, w);
      OffsetIs(n, w);
      Elements(b[..], n, w)
    }

    /**
     * `pa_set(i, x)`: element i becomes x and every other element keeps its
     * value (with set_bits as evidently intended).
     */
    method Set(i: uint64, x: uint64)
      requires Valid() && 1 <= w <= 63 && i < n && x < Pow2(w)
      modifies b
      ensures Contents() == old(Contents())[i := x]
    {
      var p0 := (i / 32) * w;
      var off := (i % 32) * w;
      ghost var p := 32 * p0 + off;
      ElementPosition(i, w);
      OffsetIs(i, w);
      OffsetBefore(i, n, w);
      OffsetIs(n, w);
      WordCountCovers(n, w);
      ghost var before := b[..];
      SetBits(p0, off, x);
      UpdateElements(before, b[..], n, w, i, x, p);
    }

    /** `pa_get(i)`: element i, read by get_bits. */
    function Get(i: uint64): (r: uint64)
      requires Valid() && 1 <= w <= 63 && i < n
      reads this, b
      ensures r == Contents()[i]
    {
      var p0 := (i / 32) * w;
      var off := (i % 32) * w;
      var q, o := p0 + off / 32, off % 32;
      ElementPosition(i, w);
      OffsetIs(i, w);
      OffsetBefore(i, n, w);
      OffsetIs(n, w);
      WordCountCovers(n, w);
      GetBitsField(b[..], q, o, w, Offset(i, w));
      Pow2Monotone(w, 64);
      Pow2Word64();
      GetBits(b[..], q, o, w)
    }

    /**
     * One pass of the set_bits loop: the rest of word q, from bit i on, receives
     * the top 32 - i of the d bits still to write, `x >> (d - (32 - i))`.
     */
    method StoreHigh(q: nat, i: nat, d: nat, k: nat, xb: seq<bool>)
      requires q < b.Length && |xb| == 64 && i < 32 && 32 - i <= d <= 64 && k == d - (32 - i)
      requires AllZero(xb[..64 - d])
      modifies b
      ensures Image(b[..]) == Overwrite(old(Image(b[..])), 32 * q + i, xb[64 - d..64 - k])
    {
      LoopStepFixed(b[..], q, i, d, k, xb);
      b[q] := Store(b[q], LowMask(32 - i), Shr(xb, k));
    }

    /** The final store of set_bits: the last d bits go to bits i .. i + d - 1 of word q. */
    method StoreLast(q: nat, i: nat, d: nat, xb: seq<bool>)
      requires q < b.Length && |xb| == 64 && i + d <= 32 && AllZero(xb[..64 - d])
      modifies b
      ensures Image(b[..]) == Overwrite(old(Image(b[..])), 32 * q + i, xb[64 - d..])
    {
      FinalStepFixed(b[..], q, i, d, xb);
      b[q] := Store(b[q], Shl(LowMask(d), 32 - i - d), Shl(xb, 32 - i - d));
    }

    /**
     * `set_bits(b + p0, off, x)` with the masks as evidently intended: the w
     * bits of x go to bits 32*p0 + off .. 32*p0 + off + w - 1 of the image of
     * b, and every other bit keeps its value.
     */
    method SetBits(p0: nat, off: nat, x: uint64)
      requires 1 <= w <= 63 && x < Pow2(w) && 32 * p0 + off + w <= 32 * b.Length
      modifies b
      ensures Image(b[..]) == Overwrite(old(Image(b[..])), 32 * p0 + off, Msb(x, w))
    {
      var q: nat, i: nat, d: nat, xb := p0 + off / 32, off % 32, w, Msb(x, 64);
      ghost var X, P, I0, W := xb, 32 * p0 + off, Image(b[..]), d;
      StartPass(I0, P, x, W, X);
      while i + d > 32
        invariant i < 32 && 1 <= d <= W && 32 * q + i == P + (W - d) && 32 * q + i + d <= 32 * b.Length
        invariant |xb| == 64 && AllZero(xb[..64 - d]) && xb[64 - d..] == X[64 - d..]
        invariant Image(b[..]) == Overwrite(I0, P, X[64 - W..64 - d])
        decreases d
      {
        var d2 := 32 - i;
        var k := d - d2;
        ghost var before := Image(b[..]);
        StoreHigh(q, i, d, k, xb);
        Advance(I0, P, X, W, before, Image(b[..]), q, i, d, k, xb);
        q, i, d := q + 1, 0, k;
        xb := And(xb, LowMask(d));
      }
      ghost var before := Image(b[..]);
      StoreLast(q, i, d, xb);
      Finish(I0, P, X, W, before, Image(b[..]), q, i, d, xb);
    }
  }

  /** test/packed_array_test.cpp, construct: the sizes are kept. */
  method Construct() returns (n: nat, w: nat)
    ensures n == 100 && w == 16
  {
    var pa := new PackedArray(100, 16);
    n, w := pa.n, pa.w;
  }

  /** With w = 32 every element is a whole word. */
  lemma WholeWord(ws: seq<uint32>)
    requires |ws| >= 1
    ensures Field(ws, 0, 32) == ws[0]
  {
    ImageWord(ws, 0);
    Pow2Word32();
    NumMsbSmall(ws[0], 32);
  }

  /** With w = 8 element 0 is the top byte of the first word. */
  lemma TopByte(ws: seq<uint32>)
    requires |ws| >= 1
    ensures Field(ws, 0, 8) == ws[0] / 0x100_0000
  {
    var v := ws[0];
    Pow2Add(16, 8);
    var hi := v / 0x100_0000;
    assert hi < 0x100;
    MsbSplit(v, 8, 24, hi);
    ImageWord(ws, 0);
    assert Image(ws)[0..8] == Msb(v, 32)[..8] == Msb(hi, 8);
    NumMsbSmall(hi, 8);
  }

  /** test/packed_array_test.cpp, pa_set_1: with w = 32, element 0 is word 0. */
  method SetWholeWord() returns (b0: uint32)
    ensures b0 == 33
  {
    var pa := new PackedArray(100, 32);
    Pow2Monotone(8, 32);
    pa.Set(0, 33);
    WordCountCovers(100, 32);
    OffsetIs(100, 32);
    ElementAt(pa.b[..], 100, 32, 0);
    WholeWord(pa.b[..]);
    b0 := pa.b[0];
  }

  /** test/packed_array_test.cpp, pa_set_2: with w = 8, element 0 is the top byte of word 0. */
  method SetTopByte() returns (b0: uint32)
    ensures b0 / 0x100_0000 == 33
  {
    var pa := new PackedArray(100, 8);
    pa.Set(0, 33);
    WordCountCovers(100, 8);
    OffsetIs(100, 8);
    ElementAt(pa.b[..], 100, 8, 0);
    TopByte(pa.b[..]);
    b0 := pa.b[0];
  }

  /** test/packed_array_test.cpp, pa_get_1 .. pa_get_3: three writes read back. */
  method ReadBack(w: uint8) returns (r0: uint64, r1: uint64, r2: uint64)
    requires w == 16 || w == 32 || w == 42
    ensures r0 == 33 && r1 == 32767 && r2 == 6699
  {
    var pa := new PackedArray(100, w);
    Pow2Half();
    Pow2Monotone(16, w);
    pa.Set(0, 33);
    pa.Set(1, 32767);
    pa.Set(2, 6699);
    r0 := pa.Get(0);
    r1 := pa.Get(1);
    r2 := pa.Get(2);
  }

  /** The input of AsWrittenDropsHighBits, with set_bits as evidently intended. */
  method WriteHighElement() returns (r: uint64)
    ensures r == 256
  {
    var pa := new PackedArray(4, 42);
    Pow2Monotone(16, 42);
    pa.Set(3, 256);
    r := pa.Get(3);
  }
}
