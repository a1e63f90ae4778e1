/**
 * The 40-bit SA-IS engine of src/sais40bit.cpp. Every integer array of
 * the engine (text, suffix array, counts, buckets) is split in two: the
 * low 32 bits in a uint32_t array (the _L arrays) and the bits above them
 * in an int8_t array (the _U arrays), so that a value takes five bytes. The
 * loops are those of the generic engine (module Sais); what differs is the
 * split storage, the count and bucket arithmetic on it, and how the engine
 * reads its text (`chr`).
 */
module Sais40Bit {
  import opened Common
  import opened PackedText
  import opened SaisText
  import Sais
  import SaisInduce

  const TWO32: int := 0x1_0000_0000
  const TWO39: int := 0x80_0000_0000
  const TWO64: int := 0x1_0000_0000_0000_0000

  /** The signed value the halves l and u stand for: (int64_t)u << 32 | l. */
  function Join40(l: uint32, u: int8): int
  {
    u * TWO32 + l
  }

  /** The high half of a joined value is its quotient by 2^32 and the low half its remainder; it has 40 signed bits. */
  lemma JoinParts(l: uint32, u: int8)
    ensures Join40(l, u) / TWO32 == u && Join40(l, u) % TWO32 == l
    ensures -TWO39 <= Join40(l, u) < TWO39
  {
    DivUnique(u * TWO32 + l, TWO32, u, l);
  }

  /**
   * The unsigned reading (uint64_t)u << 32 | l of get_counts and
   * get_buckets: the cast sign-extends u to 64 bits and the shift drops
   * its top 32, so u is taken modulo 2^32.
   */
  function UJoin(l: uint32, u: int8): uint64
  {
    (u % TWO32) * TWO32 + l
  }

  /**
   * The unsigned reading agrees with the signed one when the high half is
   * non-negative; a negative high half reads as a value of at least
   * 2^64 - 2^39.
   */
  lemma UJoinSigned(l: uint32, u: int8)
    ensures u >= 0 ==> UJoin(l, u) == Join40(l, u)
    ensures u < 0 ==> UJoin(l, u) >= TWO64 - 0x80 * TWO32
  {
  }

  /** A value of 40 signed bits splits into halves that join back to it. */
  lemma SplitJoin40(value: int)
    requires -TWO39 <= value < TWO39
    ensures ToInt8(value / TWO32) == value / TWO32
    ensures Join40(value % TWO32, ToInt8(value / TWO32)) == value
  {
    var q := value / TWO32;
    assert -0x80 <= q < 0x80;
  }

  /** A non-negative value of 40 signed bits also reads back unsigned. */
  lemma SplitUJoin(value: int)
    requires 0 <= value < TWO39
    ensures UJoin(value % TWO32, ToInt8(value / TWO32)) == value
  {
    SplitJoin40(value);
  }

  /**
   * `set_40bit_value`: U[index] receives value >> 32 (truncated to int8_t)
   * and L[index] receives value & 0xffffffff; nothing else changes.
   */
  method Set40BitValue(L: array<uint32>, U: array<int8>, index: nat, value: int64)
    requires index < L.Length && index < U.Length
    modifies L, U
    ensures U[..] == old(U[..])[index := ToInt8(value / TWO32)]
    ensures L[..] == old(L[..])[index := value % TWO32]
    ensures -TWO39 <= value < TWO39 ==> Get40BitValue(L, U, index) == value
  {
    U[index] := ToInt8(value / TWO32);
    L[index] := value % TWO32;
    if -TWO39 <= value < TWO39 {
      SplitJoin40(value);
    }
  }

  /** `get_40bit_value`: the stored value, whose high part is U[index] and whose low 32 bits are L[index]. */
  function Get40BitValue(L: array<uint32>, U: array<int8>, index: nat): (r: int64)
    requires index < L.Length && index < U.Length
    reads L, U
    ensures r / TWO32 == U[index] && r % TWO32 == L[index]
  {
    JoinParts(L[index], U[index]);
    Join40(L[index], U[index])
  }

  /**
   * The occupied test of the reduced-text scan (src/sais40bit.cpp:342): a
   * slot is non-zero exactly when one of its halves is.
   */
  lemma Occupied(l: uint32, u: int8)
    ensures (l != 0 || u != 0) <==> Join40(l, u) != 0
  {
    JoinParts(l, u);
  }

  /**
   * `get_counts` (src/sais40bit.cpp:42-55): C[c] becomes the number of
   * occurrences of c in the text, each increment read unsigned, done in
   * 64 bits and split back. The text has fewer than 2^39 characters, so no
   * count spills out of 40 signed bits.
   */
  method GetCounts40(X: seq<int>, L: array<uint32>, U: array<int8>, cbase: nat, k: nat)
    requires InAlphabet(X, k) && cbase + k <= L.Length == U.Length
    requires |X| < TWO39
    modifies L, U
    ensures forall t :: cbase <= t < cbase + k ==> U[t] >= 0 && Get40BitValue(L, U, t) == multiset(X)[t - cbase]
    ensures forall t :: 0 <= t < L.Length && !(cbase <= t < cbase + k) ==> L[t] == old(L[t]) && U[t] == old(U[t])
  {
    var i := 0;
    while i < k
      invariant 0 <= i <= k
      invariant forall t :: cbase <= t < cbase + i ==> L[t] == 0 && U[t] == 0
      invariant forall t :: 0 <= t < L.Length && !(cbase <= t < cbase + i) ==> L[t] == old(L[t]) && U[t] == old(U[t])
    {
      L[cbase + i] := 0;
      U[cbase + i] := 0;
      i := i + 1;
    }
    i := 0;
    while i < |X|
      invariant 0 <= i <= |X|
      invariant forall t :: cbase <= t < cbase + k ==> U[t] >= 0 && Join40(L[t], U[t]) == multiset(X[..i])[t - cbase]
      invariant forall t :: 0 <= t < L.Length && !(cbase <= t < cbase + k) ==> L[t] == old(L[t]) && U[t] == old(U[t])
    {
      var index := X[i];
      var pos := cbase + index;
      ghost var count := multiset(X[..i])[index];
      assert count <= i by {
        assert |multiset(X[..i])| == i;
      }
      UJoinSigned(L[pos], U[pos]);
      var value: uint64 := UJoin(L[pos], U[pos]) + 1;
      StoreSplit(L, U, pos, value);
      assert X[..i + 1] == X[..i] + [X[i]];
      i := i + 1;
    }
    assert X[..|X|] == X;
  }

  /**
   * C_U[i] = value >> 32; C_L[i] = value & 0xffffffff, for a 64-bit value
   * below 2^39: the halves then join back to the value and the high half
   * is non-negative.
   */
  method StoreSplit(L: array<uint32>, U: array<int8>, pos: nat, value: int)
    requires pos < L.Length == U.Length && 0 <= value < TWO39
    modifies L, U
    ensures Holds(L[pos], U[pos], value)
    ensures forall t :: 0 <= t < L.Length && t != pos ==> L[t] == old(L[t]) && U[t] == old(U[t])
  {
    U[pos] := ToInt8(value / TWO32);
    L[pos] := value % TWO32;
    SplitJoin40(value);
  }

  /** Halves l and u hold the non-negative value v. */
  predicate Holds(l: uint32, u: int8, v: int)
  {
    u >= 0 && Join40(l, u) == v
  }

  /** The counts C[cbase..cbase+k) as get_buckets reads them. */
  ghost function CountsAt(L: array<uint32>, U: array<int8>, cbase: nat, k: nat): (r: seq<int>)
    requires cbase + k <= L.Length && cbase + k <= U.Length
    reads L, U
    ensures |r| == k
    ensures forall c :: 0 <= c < k ==> r[c] == UJoin(L[cbase + c], U[cbase + c]) && r[c] >= 0
  {
    seq(k, c reads L, U requires 0 <= c < k => UJoin(L[cbase + c], U[cbase + c]))
  }

  /** The end (inclusive) or start (exclusive) bucket boundary of c: a prefix sum of the counts. */
  ghost function Boundary(C: seq<int>, c: nat, end: bool): int
    requires c < |C|
  {
    Sum(C, if end then c + 1 else c)
  }

  /** One step of the running sum: both boundaries of c are the sum so far, without or with C[c], and stay below 2^39. */
  lemma NextBoundary(C: seq<int>, c: nat, sum: int, value: int)
    requires c < |C| && forall t :: 0 <= t < |C| ==> C[t] >= 0
    requires Sum(C, |C|) < TWO39
    requires sum == Sum(C, c) && value == C[c]
    ensures Sum(C, c + 1) == sum + value
    ensures Boundary(C, c, false) == sum && Boundary(C, c, true) == sum + value
    ensures 0 <= sum <= sum + value < TWO39
  {
    SumMonotone(C, c + 1, |C|);
    SumMonotone(C, 0, c);
  }

  /**
   * `get_buckets` (src/sais40bit.cpp:60-86): B[c] becomes the sum of the
   * counts below c (end == false) or up to c (end == true), summed in
   * 64 bits and split. C and B lie in the same pair of arrays, at the same
   * base or at disjoint ranges.
   */
  method GetBuckets40(L: array<uint32>, U: array<int8>, cbase: nat, bbase: nat, k: nat, end: bool)
    requires cbase + k <= L.Length && bbase + k <= L.Length && L.Length == U.Length
    requires cbase == bbase || cbase + k <= bbase || bbase + k <= cbase
    requires Sum(CountsAt(L, U, cbase, k), k) < TWO39
    modifies L, U
    ensures forall t :: bbase <= t < bbase + k ==>
      U[t] >= 0 && Get40BitValue(L, U, t) == Boundary(old(CountsAt(L, U, cbase, k)), t - bbase, end)
    ensures forall t :: 0 <= t < L.Length && !(bbase <= t < bbase + k) ==> L[t] == old(L[t]) && U[t] == old(U[t])
  {
    ghost var C0 := CountsAt(L, U, cbase, k);
    var sum: uint64 := 0;
    var i := 0;
    while i < k
      invariant 0 <= i <= k
      invariant sum == Sum(C0, i)
      invariant forall t :: bbase <= t < bbase + i ==> Holds(L[t], U[t], Boundary(C0, t - bbase, end))
      invariant forall t :: 0 <= t < L.Length && !(bbase <= t < bbase + i) ==> L[t] == old(L[t]) && U[t] == old(U[t])
    {
      var value := UJoin(L[cbase + i], U[cbase + i]);
      assert value == C0[i];
      NextBoundary(C0, i, sum, value);
      var stored := if end then sum + value else sum;
      StoreSplit(L, U, bbase + i, stored);
      sum := sum + value;
      i := i + 1;
    }
  }

  /** Character i can be read: from the split arrays (cs == 40) or as element i + 1 of the cs-bit packed T. */
  predicate Readable(T: seq<uint64>, TL: seq<uint32>, TU: seq<int8>, cs: nat, n: nat)
  {
    if cs == 40 then n <= |TL| && n <= |TU| else 1 <= cs <= 64 && cs * (n + 1) <= 64 * |T|
  }

  lemma ReadablePrefix(T: seq<uint64>, TL: seq<uint32>, TU: seq<int8>, cs: nat, i: nat, n: nat)
    requires i <= n && Readable(T, TL, TU, cs, n)
    ensures Readable(T, TL, TU, cs, i)
  {
    if cs != 40 {
      MulLe(cs, i + 1, n + 1);
    }
  }

  /** The `chr` macro (src/sais40bit.cpp:37): character i of the text. */
  function Chr(T: seq<uint64>, TL: seq<uint32>, TU: seq<int8>, cs: nat, i: nat): (r: int)
    requires Readable(T, TL, TU, cs, i + 1)
    ensures cs == 40 ==> r == Join40(TL[i], TU[i])
    ensures cs != 40 ==> r == Field(Bits(T), cs * (i + 1), cs) && 0 <= r < Pow2(cs)
  {
    if cs == 40 then
      Join40(TL[i], TU[i])
    else
      assert cs * (i + 1) + cs == cs * (i + 2);
      Get2(T, i + 1, cs)
  }

  /** The first n characters the engine reads. */
  function Decode(T: seq<uint64>, TL: seq<uint32>, TU: seq<int8>, cs: nat, n: nat): (r: seq<int>)
    requires Readable(T, TL, TU, cs, n)
    ensures |r| == n
    ensures forall i :: 0 <= i < n ==> r[i] == Chr(T, TL, TU, cs, i)
  {
    if n == 0 then
      []
    else
      ReadablePrefix(T, TL, TU, cs, n - 1, n);
      Decode(T, TL, TU, cs, n - 1) + [Chr(T, TL, TU, cs, n - 1)]
  }

  /** The low halves of a sequence of 40-bit values. */
  function Lows(W: seq<int>): (r: seq<uint32>)
    ensures |r| == |W|
    ensures forall i :: 0 <= i < |W| ==> r[i] == W[i] % TWO32
  {
    seq(|W|, i requires 0 <= i < |W| => W[i] % TWO32)
  }

  /** The high halves of a sequence of 40-bit values. */
  function Highs(W: seq<int>): (r: seq<int8>)
    ensures |r| == |W|
    ensures forall i :: 0 <= i < |W| ==> r[i] == ToInt8(W[i] / TWO32)
  {
    seq(|W|, i requires 0 <= i < |W| => ToInt8(W[i] / TWO32))
  }

  /**
   * The reduced text of a recursive call is handed over split, with
   * cs == 40 (src/sais40bit.cpp:349): reading it back gives the values.
   */
  lemma DecodeSplit(W: seq<int>)
    requires forall i :: 0 <= i < |W| ==> -TWO39 <= W[i] < TWO39
    ensures Readable([], Lows(W), Highs(W), 40, |W|)
    ensures Decode([], Lows(W), Highs(W), 40, |W|) == W
  {
    var TL, TU := Lows(W), Highs(W);
    assert Readable([], TL, TU, 40, |W|);
    var r := Decode([], TL, TU, 40, |W|);
    forall i | 0 <= i < |W|
      ensures r[i] == W[i]
    {
      SplitJoin40(W[i]);
      assert r[i] == Chr([], TL, TU, 40, i) == Join40(TL[i], TU[i]);
    }
    assert |r| == |W|;
  }

  /**
   * `sais_40bit` (src/sais40bit.cpp:182-412): the generic engine run on the
   * characters `chr` reads. The recursion of line 349 calls the engine again
   * with cs == 40 on the split reduced text; module Sais recurses on the
   * reduced text's values, which DecodeSplit shows is the same text.
   */
  method Sais40(T: seq<uint64>, TL: seq<uint32>, TU: seq<int8>, SA: array<int>,
                fs: nat, n: nat, k: nat, cs: nat, fuel: nat)
    returns (ok: bool)
    requires Readable(T, TL, TU, cs, n) && 1 <= n && n + fs <= SA.Length
    requires InAlphabet(Decode(T, TL, TU, cs, n), k)
    modifies SA
    ensures forall t :: n + fs <= t < SA.Length ==> SA[t] == old(SA[t])
    ensures ok ==> SaisInduce.Induced(Decode(T, TL, TU, cs, n), k, SA[..])
  {
    ok := Sais.SaisMain(Decode(T, TL, TU, cs, n), SA, fs, k, fuel);
  }
}
