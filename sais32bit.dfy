/**
 * The 32-bit SA-IS engine of src/sais32bit.cpp. Its loops are those of the
 * generic engine (module Sais); what differs is how it reads its text: the
 * `chr` macro reads element i either as the i-th 32-bit word of the text
 * (cs == 32, the reduced text of a recursive call, which lives in the
 * suffix array) or as element i + 1 of a cs-bit packed array (`get2`).
 */
module Sais32Bit {
  import opened Common
  import opened PackedText
  import opened SaisText
  import Sais
  import SaisInduce

  const TWO32: int := 0x1_0000_0000

  /** Element i of the text can be read: enough 32-bit words, or enough packed bits for elements 1..i+1. */
  predicate Readable(B: seq<uint64>, cs: nat, n: nat)
  {
    if cs == 32 then n <= 2 * |B| else 1 <= cs <= 64 && cs * (n + 1) <= 64 * |B|
  }

  /** Fewer elements are readable when more are. */
  lemma ReadablePrefix(B: seq<uint64>, cs: nat, i: nat, n: nat)
    requires i <= n && Readable(B, cs, n)
    ensures Readable(B, cs, i)
  {
    if cs != 32 {
      MulLe(cs, i + 1, n + 1);
    }
  }

  /** The i-th 32-bit word of the word array, on a little-endian machine. */
  function Word32(B: seq<uint64>, i: nat): (r: uint32)
    requires i < 2 * |B|
  {
    if i % 2 == 0 then B[i / 2] % TWO32 else B[i / 2] / TWO32
  }

  /** The `chr` macro: character i of the text. */
  function Chr(B: seq<uint64>, cs: nat, i: nat): (r: nat)
    requires Readable(B, cs, i + 1)
    ensures cs == 32 ==> r == Word32(B, i)
    ensures cs != 32 ==> r == Field(Bits(B), cs * (i + 1), cs) && r < Pow2(cs)
  {
    if cs == 32 then
      Word32(B, i)
    else
      assert cs * (i + 1) + cs == cs * (i + 2);
      Get2(B, i + 1, cs)
  }

  /** The alphabet bound a character width allows. */
  function Width(cs: nat): (r: nat)
    ensures r >= 1
  {
    if cs == 32 then TWO32 else Pow2(cs)
  }

  /** The first n characters the engine reads. */
  function Decode(B: seq<uint64>, cs: nat, n: nat): (r: seq<int>)
    requires Readable(B, cs, n)
    ensures |r| == n
    ensures forall i :: 0 <= i < n ==> r[i] == Chr(B, cs, i)
    ensures InAlphabet(r, Width(cs))
  {
    if n == 0 then
      []
    else
      ReadablePrefix(B, cs, n - 1, n);
      Decode(B, cs, n - 1) + [Chr(B, cs, n - 1)]
  }

  /**
   * Two 32-bit values per 64-bit word, the first in the low half: how an
   * array of 32-bit values is laid out in memory on a little-endian machine
   * (a missing last value reads as 0).
   */
  function Pack32(W: seq<uint32>): (r: seq<uint64>)
    ensures |r| == (|W| + 1) / 2
  {
    seq((|W| + 1) / 2, j requires 0 <= j < (|W| + 1) / 2 =>
      W[2 * j] + TWO32 * (if 2 * j + 1 < |W| then W[2 * j + 1] else 0))
  }

  /** Reading 32-bit words back from their little-endian layout returns the values. */
  lemma Pack32Words(W: seq<uint32>, i: nat)
    requires i < |W|
    ensures i < 2 * |Pack32(W)|
    ensures Word32(Pack32(W), i) == W[i]
  {
    var j := i / 2;
    var lo := W[2 * j];
    var hi := if 2 * j + 1 < |W| then W[2 * j + 1] else 0;
    assert Pack32(W)[j] == lo + TWO32 * hi;
    DivUnique(lo + TWO32 * hi, TWO32, hi, lo);
  }

  /** The 32-bit view of a packed array of 32-bit values decodes to those values. */
  lemma DecodePack32(W: seq<uint32>)
    ensures Readable(Pack32(W), 32, |W|)
    ensures Decode(Pack32(W), 32, |W|) == W
  {
    var P := Pack32(W);
    assert |W| <= 2 * |P|;
    var r := Decode(P, 32, |W|);
    forall i | 0 <= i < |W|
      ensures r[i] == W[i]
    {
      Pack32Words(W, i);
      assert r[i] == Chr(P, 32, i) == Word32(P, i);
    }
    assert |r| == |W|;
  }

  /**
   * `sais_32bit` (src/sais32bit.cpp:155-353): the generic engine run on
   * the characters `chr` reads. The recursion of line 304 calls the engine
   * again with cs == 32 on the reduced text; module Sais recurses on the
   * reduced text's values, which DecodePack32 shows is the same text.
   */
  method Sais32(B: seq<uint64>, SA: array<int>, fs: nat, n: nat, k: nat, cs: nat, fuel: nat)
    returns (ok: bool)
    requires Readable(B, cs, n) && 1 <= n && n + fs <= SA.Length
    requires InAlphabet(Decode(B, cs, n), k)
    modifies SA
    ensures forall t :: n + fs <= t < SA.Length ==> SA[t] == old(SA[t])
    ensures ok ==> SaisInduce.Induced(Decode(B, cs, n), k, SA[..])
  {
    ok := Sais.SaisMain(Decode(B, cs, n), SA, fs, k, fuel);
  }
}
