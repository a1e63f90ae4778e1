/**
 * The Elias-Fano style Sequence of src/sequence.cpp. Integer number index
 * (counting from 1) is stored as two parts: its top ubits = log2_64(n) bits
 * as a unary code (bit index + top is set in the upper stream of 2n bits) and
 * its low lbits = 64 - ubits bits in field index of the lower stream, which
 * starts at bit (index - 1) * lbits + 1. A read recovers the top bits with
 * select1 on the upper stream.
 */
module Sequences {
  import opened Common
  import opened BitVec
  import opened Utility

  /** The top bits of v, `v >> lbits`. */
  function Hi(v: nat, lbits: nat): nat {
    QuotientNonneg(v, Pow2(lbits));
    v / Pow2(lbits)
  }

  /** The low lbits bits of v. */
  function Lo(v: nat, lbits: nat): nat {
    v % Pow2(lbits)
  }

  /** Where field index (from 1) of the lower stream starts. */
  function Offset(index: nat, lbits: nat): nat
    requires index >= 1
  {
    (index - 1) * lbits + 1
  }

  /**
   * The length of the lower stream: bit 0 is never used and fields 1..n of
   * lbits bits follow it.
   */
  function LowerLength(n: nat, lbits: nat): (r: nat)
    ensures n >= 1 ==> r == Offset(n, lbits) + lbits
  {
    n * lbits + 1
  }

  /**
   * The lower stream length as src/sequence.cpp:16 allocates it,
   * n * (log2_64(U / n + 1) + 1) with U = 2^64 - 1.
   */
  ghost function AsWrittenLowerLength(n: nat): (r: nat)
    requires n >= 1
  {
    n * (Log2Floor((WORD - 1) / n + 1) + 1)
  }

  /**
   * For n = 10 that allocation is 610 bits, while field 10 of the
   * 64 - log2_64(10) = 61 bits written by store_integer(10, _) ends at bit 611.
   */
  lemma AsWrittenLowerTooShort()
    ensures Log2Floor(10) == 3
    ensures AsWrittenLowerLength(10) == 610
    ensures Offset(10, 61) + 61 == 611 == LowerLength(10, 61)
  {
    var v := (WORD - 1) / 10 + 1;
    assert v == 0x1999_9999_9999_999A;
    assert Pow2(60) == 0x1000_0000_0000_0000 by {
      Pow2Word64();
      Pow2Add(60, 3);
      assert Pow2(3) == 8;
    }
    Log2Unique(v, 60, FloorLog2(v));
    assert FloorLog2(10) == 3 by {
      assert FloorLog2(5) == 2 by {
        assert FloorLog2(2) == 1;
      }
    }
  }

  /** uint64 subtraction a - b: exact when it does not go below zero, wrapped around 2^64 when it does. */
  function WordSub(a: nat, b: nat): (r: nat)
    ensures r < WORD
    ensures b <= a < b + WORD ==> r == a - b
    ensures a < b <= a + WORD ==> r == WORD - (b - a)
  {
    (a - b) % WORD
  }

  /**
   * `(hi << lbits) | lo` on 64 bits for lo below 2^lbits, as a bit image: the
   * low lbits bits are lo's and the other 64 - lbits bits are hi's low bits.
   */
  function Join(hi: nat, lo: nat, lbits: nat): (r: nat)
    requires lbits <= 64
    ensures r < 0x1_0000_0000_0000_0000
  {
    Pow2Word64();
    Value(BitsOf(lo, lbits) + BitsOf(hi, 64 - lbits))
  }

  /** Joining parts that fit reads them side by side. */
  lemma JoinParts(hi: nat, lo: nat, lbits: nat)
    requires lbits <= 64 && lo < Pow2(lbits) && hi < Pow2(64 - lbits)
    ensures Join(hi, lo, lbits) == lo + Pow2(lbits) * hi
  {
    var a, b := BitsOf(lo, lbits), BitsOf(hi, 64 - lbits);
    ValueAppend(a, b);
    ValueOfBits(lo, lbits);
    ValueOfBits(hi, 64 - lbits);
    DivUnique(lo, Pow2(lbits), 0, lo);
    DivUnique(hi, Pow2(64 - lbits), 0, hi);
  }

  /** Joining the two parts of a 64-bit value gives the value back. */
  lemma JoinSplit(v: nat, lbits: nat)
    requires lbits <= 64 && v < 0x1_0000_0000_0000_0000
    ensures Join(Hi(v, lbits), Lo(v, lbits), lbits) == v
  {
    var hi, lo := Hi(v, lbits), Lo(v, lbits);
    HiLo(v, lbits);
    Pow2Split64(lbits, 64 - lbits);
    FactorBelow(Pow2(lbits), hi, Pow2(64 - lbits), v);
    JoinParts(hi, lo, lbits);
  }

  /** v splits into its top and low bits. */
  lemma HiLo(v: nat, lbits: nat)
    ensures v == Pow2(lbits) * Hi(v, lbits) + Lo(v, lbits) && Lo(v, lbits) < Pow2(lbits)
  {
  }

  lemma FactorBelow(d: nat, q: nat, e: nat, v: nat)
    requires d >= 1 && d * q <= v < d * e
    ensures q < e
  {
    if q >= e {
      MulLe(d, e, q);
    }
  }

  /** One more bit at the end of a prefix. */
  lemma OnesSnoc(b: seq<bool>, t: nat)
    requires t < |b|
    ensures Ones(b[..t + 1]) == Ones(b[..t]) + (if b[t] then 1 else 0)
  {
    assert b[..t + 1][..t] == b[..t];
  }

  /** The set bits of a concatenation. */
  lemma {:induction false} OnesAppend(a: seq<bool>, b: seq<bool>)
    ensures Ones(a + b) == Ones(a) + Ones(b)
    decreases |b|
  {
    if b != [] {
      var c := b[..|b| - 1];
      assert (a + b)[..|a + b| - 1] == a + c;
      OnesAppend(a, c);
    } else {
      assert a + b == a;
    }
  }

  /** A segment without set bits. */
  lemma {:induction false} OnesNone(s: seq<bool>)
    requires forall t :: 0 <= t < |s| ==> !s[t]
    ensures Ones(s) == 0
  {
    if s != [] {
      OnesNone(s[..|s| - 1]);
    }
  }

  /** select1 scanning from position t, having seen `seen` set bits before t. */
  function SelectFrom(b: seq<bool>, j: nat, t: nat, seen: nat): (pos: nat)
    requires j <= Ones(b) && t < |b| && seen == Ones(b[..t]) && seen < j
    ensures t <= pos && IsSelect1(b, j, pos)
    decreases |b| - t
  {
    OnesSnoc(b, t);
    if b[t] && seen + 1 == j then t
    else SelectFrom(b, j, t + 1, seen + (if b[t] then 1 else 0))
  }

  /** sdsl `select_support_mcl<1>`: the position of the j-th set bit, j from 1. */
  function Select1(b: seq<bool>, j: nat): (pos: nat)
    requires 1 <= j <= Ones(b)
    ensures IsSelect1(b, j, pos)
  {
    SelectFrom(b, j, 0, 0)
  }

  /** The count of set bits never falls along the prefixes. */
  lemma {:induction false} OnesGrow(b: seq<bool>, s: nat, t: nat)
    requires s <= t <= |b|
    ensures Ones(b[..s]) <= Ones(b[..t])
    decreases t - s
  {
    if s < t {
      OnesSnoc(b, t - 1);
      OnesGrow(b, s, t - 1);
    }
  }

  /** Only one position is the j-th set bit. */
  lemma Select1Unique(b: seq<bool>, j: nat, p: nat, q: nat)
    requires IsSelect1(b, j, p) && IsSelect1(b, j, q)
    ensures p == q
  {
    if p < q {
      OnesGrow(b, p + 1, q);
      OnesSnoc(b, q);
    } else if q < p {
      OnesGrow(b, q + 1, p);
      OnesSnoc(b, p);
    }
  }

  /** Position of stored index i in the upper stream. */
  function Place(S: map<nat, nat>, lbits: nat, i: nat): nat
    requires i in S
  {
    i + Hi(S[i], lbits)
  }

  /**
   * The upper stream codes the stored map S: each stored value has its bit
   * at index + top bits, and every set bit is one of those.
   */
  ghost predicate UpperHolds(u: seq<bool>, S: map<nat, nat>, lbits: nat) {
    (forall i {:trigger Place(S, lbits, i)} :: i in S ==> Place(S, lbits, i) < |u| && u[Place(S, lbits, i)]) &&
    (forall t {:trigger u[t]} :: 0 <= t < |u| && u[t] ==> exists i :: i in S && t == i + Hi(S[i], lbits))
  }

  /** The lower stream holds the low bits of each stored value in its field. */
  ghost predicate LowerHolds(l: seq<bool>, S: map<nat, nat>, lbits: nat) {
    forall i :: i in S ==>
      i >= 1 && Offset(i, lbits) + lbits <= |l| && GetInt(l, Offset(i, lbits), lbits) == Lo(S[i], lbits)
  }

  /** The values grow with their index, as the sequence's integers do. */
  ghost predicate Increasing(S: map<nat, nat>) {
    forall i, j :: i in S && j in S && i < j ==> S[i] <= S[j]
  }

  /** Top bits of growing values grow. */
  lemma HiMonotone(x: nat, y: nat, lbits: nat)
    requires x <= y
    ensures Hi(x, lbits) <= Hi(y, lbits)
  {
    var d := Pow2(lbits);
    if x / d > y / d {
      MulLe(d, y / d + 1, x / d);
    }
  }

  /** Fields of different indices do not overlap. */
  lemma FieldsApart(i: nat, j: nat, lbits: nat)
    requires 1 <= i < j
    ensures Offset(i, lbits) + lbits <= Offset(j, lbits)
  {
    MulLe(lbits, i, j - 1);
  }

  /**
   * store_integer's two writes stay inside the streams: the upper bit index
   * lies below 2n and field index ends by bit n * lbits + 1.
   */
  lemma StoreFits(n: nat, ubits: nat, lbits: nat, index: nat, v: nat)
    requires 1 <= n && ubits == Log2Floor(n) && lbits + ubits == 64 && 1 <= index <= n && v < 0x1_0000_0000_0000_0000
    ensures index + Hi(v, lbits) < 2 * n
    ensures Offset(index, lbits) + lbits <= LowerLength(n, lbits)
  {
    var d, e := Pow2(lbits), Pow2(ubits);
    Pow2Split64(lbits, ubits);
    QuotientBelow(v, d, e);
    MulLe(lbits, index, n);
  }

  /**
   * Storing a value at an index not stored before keeps both streams coding
   * the stored map, now with that value added.
   */
  lemma StorePreserves(u: seq<bool>, l: seq<bool>, S: map<nat, nat>, lbits: nat, index: nat, v: nat, pos: nat, off: nat)
    requires UpperHolds(u, S, lbits) && LowerHolds(l, S, lbits) && index >= 1 && index !in S
    requires pos == index + Hi(v, lbits) && pos < |u|
    requires off == Offset(index, lbits) && off + lbits <= |l|
    ensures UpperHolds(u[pos := true], S[index := v], lbits)
    ensures LowerHolds(SetInt(l, off, v, lbits), S[index := v], lbits)
  {
    var S2, u2, l2 := S[index := v], u[pos := true], SetInt(l, off, v, lbits);
    forall i | i in S2
      ensures Place(S2, lbits, i) < |u2| && u2[Place(S2, lbits, i)]
    {
      if i != index {
        assert Place(S2, lbits, i) == Place(S, lbits, i);
      }
    }
    forall t | 0 <= t < |u2| && u2[t]
      ensures exists i :: i in S2 && t == i + Hi(S2[i], lbits)
    {
      if t == pos {
        assert index in S2 && t == index + Hi(S2[index], lbits);
      } else {
        var i: nat :| i in S && t == i + Hi(S[i], lbits);
        assert i in S2 && S2[i] == S[i];
      }
    }
    forall i | i in S2
      ensures GetInt(l2, Offset(i, lbits), lbits) == Lo(S2[i], lbits)
    {
      if i == index {
        GetIntSetInt(l, off, v, lbits);
      } else {
        if i < index {
          FieldsApart(i, index, lbits);
        } else {
          FieldsApart(index, i, lbits);
        }
        GetIntAfterSetInt(l, off, v, lbits, Offset(i, lbits), lbits);
      }
    }
  }

  /**
   * With the values growing and the indices 1..index all stored, the
   * index-th set bit of the upper stream is the one of that index, so
   * select1(index) - index is its value's top bits.
   */
  lemma UpperSelect(u: seq<bool>, S: map<nat, nat>, lbits: nat, index: nat)
    requires UpperHolds(u, S, lbits) && Increasing(S) && (forall i :: i in S ==> i >= 1)
    requires index >= 1 && forall j :: 1 <= j <= index ==> j in S
    ensures index <= Ones(u) && Select1(u, index) == index + Hi(S[index], lbits)
  {
    var p := Place(S, lbits, index);
    BelowCount(u, S, lbits, index);
    assert u[p];
    OnesSnoc(u, p);
    assert IsSelect1(u, index, p);
    OnesGrow(u, p + 1, |u|);
    assert u[..|u|] == u;
    Select1Unique(u, index, Select1(u, index), p);
  }

  /** Places grow strictly with the index. */
  lemma PlaceGrows(S: map<nat, nat>, lbits: nat, i: nat, j: nat)
    requires Increasing(S) && i in S && j in S && i < j
    ensures Place(S, lbits, i) < Place(S, lbits, j)
  {
    HiMonotone(S[i], S[j], lbits);
  }

  /** Below the place of index m there are m - 1 set bits. */
  lemma {:induction false} BelowCount(u: seq<bool>, S: map<nat, nat>, lbits: nat, m: nat)
    requires UpperHolds(u, S, lbits) && Increasing(S) && (forall i :: i in S ==> i >= 1)
    requires m >= 1 && forall j :: 1 <= j <= m ==> j in S
    ensures Place(S, lbits, m) < |u| && Ones(u[..Place(S, lbits, m)]) == m - 1
  {
    if m == 1 {
      BelowFirst(u, S, lbits);
    } else {
      BelowCount(u, S, lbits, m - 1);
      BelowNext(u, S, lbits, m);
    }
  }

  /** No set bit lies before the place of index 1. */
  lemma BelowFirst(u: seq<bool>, S: map<nat, nat>, lbits: nat)
    requires UpperHolds(u, S, lbits) && Increasing(S) && (forall i :: i in S ==> i >= 1) && 1 in S
    ensures Place(S, lbits, 1) < |u| && Ones(u[..Place(S, lbits, 1)]) == 0
  {
    var p := Place(S, lbits, 1);
    forall t | 0 <= t < p
      ensures !u[..p][t]
    {
      if u[t] {
        var i: nat :| i in S && t == i + Hi(S[i], lbits);
        if i > 1 {
          PlaceGrows(S, lbits, 1, i);
        }
      }
    }
    OnesNone(u[..p]);
  }

  /** Between the places of indices m - 1 and m no bit is set. */
  lemma BelowGap(u: seq<bool>, S: map<nat, nat>, lbits: nat, m: nat)
    requires UpperHolds(u, S, lbits) && Increasing(S) && m >= 2 && m - 1 in S && m in S
    ensures forall x :: Place(S, lbits, m - 1) < x < Place(S, lbits, m) && x < |u| ==> !u[x]
  {
    forall x | Place(S, lbits, m - 1) < x < Place(S, lbits, m) && x < |u|
      ensures !u[x]
    {
      if u[x] {
        var i: nat :| i in S && x == i + Hi(S[i], lbits);
        if i < m - 1 {
          PlaceGrows(S, lbits, i, m - 1);
        } else if i > m {
          PlaceGrows(S, lbits, m, i);
        }
      }
    }
  }

  /** From the count below the place of m - 1 to the count below the place of m. */
  lemma BelowNext(u: seq<bool>, S: map<nat, nat>, lbits: nat, m: nat)
    requires UpperHolds(u, S, lbits) && Increasing(S) && m >= 2 && m - 1 in S && m in S
    requires Place(S, lbits, m - 1) < |u| && Ones(u[..Place(S, lbits, m - 1)]) == m - 2
    ensures Place(S, lbits, m) < |u| && Ones(u[..Place(S, lbits, m)]) == m - 1
  {
    var q, p := Place(S, lbits, m - 1), Place(S, lbits, m);
    PlaceGrows(S, lbits, m - 1, m);
    BelowGap(u, S, lbits, m);
    var seg := u[q..p];
    assert u[q];
    forall t | 0 <= t < |seg| - 1
      ensures !seg[1..][t]
    {
      assert seg[1..][t] == u[q + 1 + t];
    }
    OnesNone(seg[1..]);
    assert seg == [u[q]] + seg[1..];
    OnesAppend([u[q]], seg[1..]);
    assert Ones([u[q]]) == 1 by {
      assert [u[q]][..0] == [];
    }
    assert u[..p] == u[..q] + seg;
    OnesAppend(u[..q], seg);
  }

  /**
   * Reading index back: once the indices 1..index hold growing values, the
   * top bits found by select1 and the low bits of field index join to the
   * value stored at index.
   */
  lemma ReadStored(u: seq<bool>, l: seq<bool>, S: map<nat, nat>, lbits: nat, index: nat)
    requires UpperHolds(u, S, lbits) && LowerHolds(l, S, lbits) && Increasing(S) && lbits <= 64
    requires forall i :: i in S ==> S[i] < 0x1_0000_0000_0000_0000
    requires index >= 1 && forall j :: 1 <= j <= index ==> j in S
    ensures index <= Ones(u) && Offset(index, lbits) + lbits <= |l|
    ensures Join(WordSub(Select1(u, index), index), GetInt(l, Offset(index, lbits), lbits), lbits) == S[index]
  {
    var v := S[index];
    UpperSelect(u, S, lbits, index);
    var hi, lo := WordSub(Select1(u, index), index), GetInt(l, Offset(index, lbits), lbits);
    assert hi == Hi(v, lbits) by {
      HiBelow(v, lbits);
    }
    assert lo == Lo(v, lbits);
    JoinSplit(v, lbits);
  }

  /** The top bits of a 64-bit value are a 64-bit value. */
  lemma HiBelow(v: nat, lbits: nat)
    requires v < 0x1_0000_0000_0000_0000
    ensures Hi(v, lbits) < 0x1_0000_0000_0000_0000 && Hi(v, lbits) % 0x1_0000_0000_0000_0000 == Hi(v, lbits)
  {
    HiLo(v, lbits);
    MulLe(Hi(v, lbits), 1, Pow2(lbits));
  }

  /** Where field index of the lower stream ends, for 1 <= index <= n. */
  lemma FieldFits(n: nat, lbits: nat, index: nat, at: nat)
    requires 1 <= index <= n && at == (index - 1) * lbits + 1
    ensures at + lbits <= LowerLength(n, lbits)
  {
    MulLe(lbits, index, n);
  }

  /** The sequence: n slots, the two streams, and sdsl's lazily built select support. */
  class Sequence {
    const n: nat
    const ubits: nat
    const lbits: nat
    var upper: seq<bool>
    var lower: seq<bool>
    var selectSupportEnabled: bool
    /** The upper stream as it was when the select support was last built. */
    var sls: seq<bool>
    /** The values stored so far, by index. */
    ghost var stored: map<nat, nat>

    ghost predicate Valid()
      reads this
    {
      1 <= n < 0x1_0000_0000_0000_0000 && ubits == Log2Floor(n) && ubits + lbits == 64 &&
      |upper| == 2 * n && |lower| == LowerLength(n, lbits) &&
      (selectSupportEnabled ==> sls == upper)
    }

    /** The streams code exactly the stored values. */
    ghost predicate Holds()
      reads this
    {
      Valid() && UpperHolds(upper, stored, lbits) && LowerHolds(lower, stored, lbits) &&
      forall i :: i in stored ==> i <= n && stored[i] < 0x1_0000_0000_0000_0000
    }

    /**
     * `Sequence(n)`: a zero upper stream of 2n bits, a zero lower stream for n
     * fields of lbits bits after the unused bit 0, ubits = log2_64(n) and
     * lbits = 64 - ubits; nothing is stored and select support is off.
     */
    constructor (n: uint64)
      requires n >= 1
      ensures Holds() && this.n == n && ubits == Log2Floor(n) && lbits == 64 - Log2Floor(n)
      ensures upper == Zeros(2 * n) && lower == Zeros(LowerLength(n, lbits)) && stored == map[] && !selectSupportEnabled
    {
      var log2result := Log2Word(n);
      this.n := n;
      ubits := log2result;
      lbits := 64 - log2result;
      upper := Zeros(2 * n);
      lower := Zeros(LowerLength(n, 64 - log2result as nat));
      // The C++ constructor leaves this flag indeterminate. StoreInteger clears
      // it and GetInteger reads it; a GetInteger with no StoreInteger before it
      // reads an indeterminate flag there, and here it builds the select support.
      selectSupportEnabled := false;
      sls := [];
      stored := map[];
    }

    /** `enable_select_operation()`: select support is built over the current upper stream. */
    method EnableSelectOperation()
      requires Valid()
      modifies this
      ensures Valid() && selectSupportEnabled && sls == upper
      ensures upper == old(upper) && lower == old(lower) && stored == old(stored)
    {
      selectSupportEnabled := true;
      sls := upper;
    }

    /**
     * `store_integer(index, integer)`: selects support goes off, bit index +
     * (integer >> (64 - ubits)) of the upper stream is set and the low lbits
     * bits of integer are written at (index - 1) * lbits + 1. A value stored at
     * a fresh index keeps the streams coding all values (StorePreserves).
     */
    method StoreInteger(index: uint64, integer: uint64)
      requires Valid() && ubits >= 1 && 1 <= index <= n
      modifies this
      ensures Valid() && !selectSupportEnabled && sls == old(sls)
      ensures index + Hi(integer, lbits) < |old(upper)| && upper == old(upper)[index + Hi(integer, lbits) := true]
      ensures Offset(index, lbits) + lbits <= |old(lower)| && lower == SetInt(old(lower), Offset(index, lbits), integer, lbits)
      ensures stored == old(stored)[index := integer]
      ensures old(Holds()) && index !in old(stored) ==> Holds()
    {
      ghost var holds := Holds();
      ghost var u0, l0, S0 := upper, lower, stored;
      StoreFits(n, ubits, lbits, index, integer);
      selectSupportEnabled := false;
      // 64 - ubits is lbits
      var shifted: nat := integer / Pow2(lbits);
      var usBitIndex: nat := index + shifted;
      upper := upper[usBitIndex := true];
      var lsIndex: nat := (index - 1) * lbits + 1;
      lower := SetInt(lower, lsIndex, integer, lbits);
      if holds && index !in S0 {
        StorePreserves(u0, l0, S0, lbits, index, integer, usBitIndex, lsIndex);
      }
      stored := stored[index := integer];
    }

    /**
     * `get_integer(index)`: select support is rebuilt if a store turned it
     * off; the result joins (select1(index) - index) << (64 - ubits) with
     * field index of the lower stream. Once the indices 1..index hold growing
     * values, it is the value stored at index.
     */
    method GetInteger(index: uint64) returns (r: uint64)
      requires Valid() && ubits >= 1 && 1 <= index <= n && index <= Ones(upper)
      modifies this
      ensures Valid() && selectSupportEnabled && sls == upper
      ensures upper == old(upper) && lower == old(lower) && stored == old(stored)
      ensures Offset(index, lbits) + lbits <= |lower|
      ensures r == Join(WordSub(Select1(upper, index), index), GetInt(lower, Offset(index, lbits), lbits), lbits)
      ensures Holds() && Increasing(stored) && (forall j :: 1 <= j <= index ==> j in stored) ==> r == stored[index]
    {
      if !selectSupportEnabled {
        EnableSelectOperation();
      }
      var upperBits := WordSub(Select1(sls, index), index);
      var lsIndex := Offset(index, lbits);
      FieldFits(n, lbits, index, lsIndex);
      var lowerBits := GetInt(lower, lsIndex, lbits);
      r := Join(upperBits, lowerBits, lbits);
      if Holds() && Increasing(stored) && (forall j :: 1 <= j <= index ==> j in stored) {
        ReadStored(upper, lower, stored, lbits, index);
      }
    }
  }
}

/** test/sequence_test.cpp, get_integer_1 and get_integer_2, on the model of one-argument constructor. */
module SequenceExamples {
  import opened Common
  import opened Utility
  import opened Sequences

  lemma Log2Of15()
    ensures Log2Floor(15) == 3
  {
    assert FloorLog2(15) == FloorLog2(7) + 1 == FloorLog2(3) + 2 == 3;
  }

  lemma Log2Of10()
    ensures Log2Floor(10) == 3
  {
    assert FloorLog2(10) == FloorLog2(5) + 1 == FloorLog2(2) + 2 == 3;
  }

  /** get_integer_1: with n = 15, the value 541 stored at index 1 is read back. */
  method GetIntegerOne() returns (r: uint64)
    ensures r == 541
  {
    var sequence := new Sequence(15);
    Log2Of15();
    sequence.StoreInteger(1, 541);
    ReadStored(sequence.upper, sequence.lower, sequence.stored, sequence.lbits, 1);
    r := sequence.GetInteger(1);
  }

  /** The values get_integer_2 stores, by index. */
  const TenValues: seq<uint64> := [111, 222, 333, 44444, 0xffff_ffff_ffff_ff01, 0xffff_ffff_ffff_ff02,
    0xffff_ffff_ffff_ff03, 0xffff_ffff_ffff_ff04, 0xffff_ffff_ffff_ff05, 0xffff_ffff_ffff_fffe]

  /** store_integer(index, v) of get_integer_2, with v its value for that index. */
  method StoreValue(sequence: Sequence, index: uint64)
    requires sequence.Holds() && sequence.ubits >= 1 && sequence.n == 10 && 1 <= index <= 10 && index !in sequence.stored
    modifies sequence
    ensures sequence.Holds() && sequence.stored == old(sequence.stored)[index := TenValues[index - 1]]
  {
    sequence.StoreInteger(index, TenValues[index - 1]);
  }

  /** `Sequence(10)` of get_integer_2: nothing stored yet, and fields of 3 bits in the upper stream. */
  method EmptyTen() returns (sequence: Sequence)
    ensures fresh(sequence) && sequence.Holds() && sequence.ubits >= 1 && sequence.n == 10 && sequence.stored == map[]
  {
    sequence := new Sequence(10);
    Log2Of10();
  }

  /** get_integer_2's ten stores, in its shuffled order of indices. */
  method StoreTen() returns (sequence: Sequence)
    ensures fresh(sequence) && sequence.Holds() && sequence.ubits >= 1 && sequence.n == 10
    ensures sequence.stored == StoredAfter(|StoreOrder|)
  {
    sequence := EmptyTen();
    var k := 0;
    while k < 10
      invariant 0 <= k <= 10 && sequence.Holds() && sequence.ubits >= 1 && sequence.n == 10
      invariant sequence.stored == StoredAfter(k)
    {
      OrderFresh(k);
      StoredAfterDomain(k);
      StoreValue(sequence, StoreOrder[k]);
      k := k + 1;
    }
  }

  /** After the ten stores, exactly the indices 1..10 are stored, each with its value. */
  lemma TenStored()
    ensures forall i: nat :: i in StoredAfter(|StoreOrder|) <==> 1 <= i <= 10
    ensures forall i :: 1 <= i <= 10 ==> StoredAfter(|StoreOrder|)[i] == TenValues[i - 1]
  {
    StoredAfterDomain(|StoreOrder|);
    assert StoreOrder[..10] == StoreOrder;
    StoreOrderIndices();
  }

  /** The stored map after the first k stores of get_integer_2. */
  ghost function StoredAfter(k: nat): map<nat, nat>
    requires k <= 10
  {
    if k == 0 then map[]
    else
      OrderFresh(k - 1);
      StoredAfter(k - 1)[StoreOrder[k - 1] := TenValues[StoreOrder[k - 1] - 1]]
  }

  /** After k stores, the indices stored are the first k of the order, each holding its value. */
  lemma {:induction false} StoredAfterDomain(k: nat)
    requires k <= 10
    ensures forall i: nat :: i in StoredAfter(k) <==> i in StoreOrder[..k]
    ensures forall i :: i in StoredAfter(k) ==> 1 <= i <= 10 && StoredAfter(k)[i] == TenValues[i - 1]
  {
    if k > 0 {
      StoredAfterDomain(k - 1);
      OrderFresh(k - 1);
      assert StoreOrder[..k] == StoreOrder[..k - 1] + [StoreOrder[k - 1]];
    }
  }

  /** The order in which get_integer_2 stores the indices. */
  const StoreOrder: seq<uint64> := [3, 1, 2, 4, 6, 5, 8, 9, 10, 7]

  /** Each index of the order is new when it comes. */
  lemma OrderFresh(k: nat)
    requires k < 10
    ensures 1 <= StoreOrder[k] <= 10 && StoreOrder[k] !in StoreOrder[..k]
  {
  }

  /** Every index 1..10 is stored once. */
  lemma StoreOrderIndices()
    ensures forall i: nat :: i in StoreOrder <==> 1 <= i <= 10
  {
    forall i: nat | 1 <= i <= 10
      ensures i in StoreOrder
    {
      if i == 1 { assert StoreOrder[1] == i; }
      else if i == 2 { assert StoreOrder[2] == i; }
      else if i == 3 { assert StoreOrder[0] == i; }
      else if i == 4 { assert StoreOrder[3] == i; }
      else if i == 5 { assert StoreOrder[5] == i; }
      else if i == 6 { assert StoreOrder[4] == i; }
      else if i == 7 { assert StoreOrder[9] == i; }
      else if i == 8 { assert StoreOrder[6] == i; }
      else if i == 9 { assert StoreOrder[7] == i; }
      else { assert StoreOrder[8] == i; }
    }
  }

  /** The stored values grow with the index. */
  lemma TenIncreasing(S: map<nat, nat>)
    requires forall i: nat :: i in S <==> 1 <= i <= 10
    requires forall i :: 1 <= i <= 10 ==> S[i] == TenValues[i - 1]
    ensures Increasing(S)
  {
    forall i, j | i in S && j in S && i < j
      ensures S[i] <= S[j]
    {
      assert TenValues[i - 1] <= TenValues[j - 1];
    }
  }

  /** A prefix one longer is the prefix followed by the next element. */
  lemma PrefixStep(s: seq<uint64>, i: nat)
    requires i < |s|
    ensures s[..i + 1] == s[..i] + [s[i]]
  {
  }

  /** get_integer(index) of get_integer_2, once all ten values are stored. */
  method ReadValue(sequence: Sequence, index: uint64) returns (r: uint64)
    requires sequence.Holds() && sequence.ubits >= 1 && sequence.n == 10 && 1 <= index <= 10
    requires sequence.stored == StoredAfter(|StoreOrder|)
    modifies sequence
    ensures sequence.Holds() && sequence.stored == old(sequence.stored) && r == TenValues[index - 1]
  {
    TenStored();
    TenIncreasing(sequence.stored);
    ReadStored(sequence.upper, sequence.lower, sequence.stored, sequence.lbits, index);
    r := sequence.GetInteger(index);
  }

  /**
   * get_integer_2: with n = 10, ten growing values stored in a shuffled order
   * are each read back.
   */
  method GetIntegerTen() returns (rs: seq<uint64>)
    ensures rs == TenValues
  {
    var sequence := StoreTen();
    rs := [];
    var index: uint64 := 1;
    while index <= 10
      invariant 1 <= index <= 11 && sequence.Holds() && sequence.ubits >= 1 && sequence.n == 10
      invariant sequence.stored == StoredAfter(|StoreOrder|)
      invariant rs == TenValues[..index - 1]
    {
      var r := ReadValue(sequence, index);
      PrefixStep(TenValues, index - 1);
      rs := rs + [r];
      index := index + 1;
    }
    assert TenValues[..10] == TenValues;
  }
}
