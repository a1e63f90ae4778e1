/**
 * Machine integer ranges, powers of two and the small arithmetic facts about
 * them that the bit-level modules share. Unsigned words are integers in
 * their range, so `x >> i` is x / 2^i and `x & (2^w - 1)` is x % 2^w.
 */
module Common {

  type uint8 = x: int | 0 <= x < 0x100
  type uint16 = x: int | 0 <= x < 0x1_0000
  type uint32 = x: int | 0 <= x < 0x1_0000_0000
  type uint64 = x: int | 0 <= x < 0x1_0000_0000_0000_0000
  type int8 = x: int | -0x80 <= x < 0x80
  type int16 = x: int | -0x8000 <= x < 0x8000
  type int32 = x: int | -0x8000_0000 <= x < 0x8000_0000
  type int64 = x: int | -0x8000_0000_0000_0000 <= x < 0x8000_0000_0000_0000

  datatype Option<T> = None | Some(value: T)

  /** Conversion of an integer to int8_t: two's complement truncation to 8 bits. */
  function ToInt8(x: int): (r: int8)
    ensures -0x80 <= x < 0x80 ==> r == x
    ensures (r - x) % 0x100 == 0
  {
    (x + 0x80) % 0x100 - 0x80
  }

  function Min(a: int, b: int): int { if a <= b then a else b }

  function Pow2(n: nat): (r: nat)
    ensures r >= 1
  {
    if n == 0 then 1 else 2 * Pow2(n - 1)
  }

  lemma {:induction false} Pow2Add(a: nat, b: nat)
    ensures Pow2(a + b) == Pow2(a) * Pow2(b)
  {
    if b > 0 {
      Pow2Add(a, b - 1);
      assert Pow2(a + b) == 2 * Pow2(a + b - 1);
    }
  }

  lemma {:induction false} Pow2Monotone(a: nat, b: nat)
    requires a <= b
    ensures Pow2(a) <= Pow2(b)
  {
    if a < b {
      Pow2Monotone(a, b - 1);
    }
  }

  lemma Pow2Byte()
    ensures Pow2(8) == 0x100
  {
    assert Pow2(4) == 16;
    Pow2Add(4, 4);
  }

  lemma Pow2Half()
    ensures Pow2(16) == 0x1_0000
  {
    Pow2Byte();
    Pow2Add(8, 8);
  }

  lemma Pow2Word32()
    ensures Pow2(32) == 0x1_0000_0000
  {
    Pow2Half();
    Pow2Add(16, 16);
  }

  lemma Pow2Word64()
    ensures Pow2(64) == 0x1_0000_0000_0000_0000
  {
    Pow2Word32();
    Pow2Add(32, 32);
  }

  lemma Pow2Top()
    ensures Pow2(63) == 0x8000_0000_0000_0000
  {
    assert Pow2(3) == 8;
    Pow2Add(4, 3);
    Pow2Byte();
    Pow2Add(8, 7);
    Pow2Half();
    Pow2Add(16, 15);
    Pow2Word32();
    Pow2Add(32, 31);
  }

  /** Shifting right by i + 1 is shifting right by i and then by one. */
  lemma DivPow2Succ(n: nat, i: nat)
    ensures n / Pow2(i + 1) == (n / Pow2(i)) / 2
  {
    MixedRadix(n, Pow2(i), 2);
  }

  /** The low i + 1 bits are the low i bits plus bit i. */
  lemma ModPow2Succ(n: nat, i: nat)
    ensures n % Pow2(i + 1) == n % Pow2(i) + Pow2(i) * ((n / Pow2(i)) % 2)
  {
    MixedRadix(n, Pow2(i), 2);
  }

  /** Digits in a mixed radix a, b: the quotient and remainder by a * b. */
  lemma MixedRadix(n: nat, a: nat, b: nat)
    requires a > 0 && b > 0
    ensures n / (a * b) == (n / a) / b
    ensures n % (a * b) == n % a + a * ((n / a) % b)
  {
    var q, r := n / a, n % a;
    var q2, r2 := q / b, q % b;
    Distrib(a, b * q2, r2);
    Assoc(a, b, q2);
    MulLe(a, r2, b - 1);
    Distrib(a, b, -1);
    DivUnique(n, a * b, q2, a * r2 + r);
  }

  /** Euclidean division is determined by its quotient-remainder equation. */
  lemma DivUnique(n: int, d: int, q: int, r: int)
    requires d > 0 && 0 <= r < d && n == d * q + r
    ensures n / d == q && n % d == r
  {
    var q0, r0 := n / d, n % d;
    assert d * q - d * q0 == r0 - r;
    assert d * (q - q0) == r0 - r;
    if q > q0 {
      MulAtLeast(d, q - q0);
    } else if q < q0 {
      MulAtLeast(d, q0 - q);
    }
  }

  lemma MulAtLeast(d: int, k: int)
    requires d > 0 && k >= 1
    ensures d * k >= d
  {
    assert d * k == d + d * (k - 1);
  }

  lemma Distrib(a: int, x: int, y: int)
    ensures a * (x + y) == a * x + a * y
  {
  }

  lemma Assoc(a: int, b: int, c: int)
    ensures a * (b * c) == (a * b) * c
  {
  }

  lemma MulLe(a: nat, x: int, y: int)
    requires x <= y
    ensures a * x <= a * y
  {
    Distrib(a, x, y - x);
  }

  /** Bit strings. */
  function Zeros(n: nat): (r: seq<bool>)
    ensures |r| == n && forall i :: 0 <= i < n ==> !r[i]
  {
    seq(n, _ => false)
  }

  /** b with the bits from i on replaced by f. */
  function Overwrite(b: seq<bool>, i: nat, f: seq<bool>): (r: seq<bool>)
    requires i + |f| <= |b|
    ensures |r| == |b|
  {
    b[..i] + f + b[i + |f|..]
  }

  /** Writing f and then g right after it is writing f + g. */
  lemma OverwriteAppend(b: seq<bool>, i: nat, f: seq<bool>, g: seq<bool>)
    requires i + |f| + |g| <= |b|
    ensures Overwrite(Overwrite(b, i, f), i + |f|, g) == Overwrite(b, i, f + g)
  {
    var r1 := Overwrite(b, i, f);
    assert r1[..i + |f|] == b[..i] + f;
    assert r1[i + |f| + |g|..] == b[i + |f| + |g|..];
  }

  /** 2^l * 2^u for exponents adding up to 64. */
  lemma Pow2Split64(l: nat, u: nat)
    requires l + u == 64
    ensures Pow2(l) * Pow2(u) == 0x1_0000_0000_0000_0000
  {
    Pow2Add(l, u);
    Pow2Word64();
  }

  /** A quotient of a natural number by a positive one is natural. */
  lemma QuotientNonneg(v: nat, d: nat)
    requires d >= 1
    ensures v / d >= 0
  {
    if v / d < 0 {
      MulLe(d, v / d, -1);
    }
  }

  /** A quotient by d of a value below d * e is below e. */
  lemma QuotientBelow(v: nat, d: nat, e: nat)
    requires d >= 1 && v < d * e
    ensures v / d < e
  {
    if v / d >= e {
      MulLe(d, e, v / d);
    }
  }
}
