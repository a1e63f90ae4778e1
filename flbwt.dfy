/**
 * The driver of src/flbwt.cpp: the argument check of `bwt_string`, the
 * right-to-left scan of `extract_LMS_strings` that cuts the text into LMS
 * substrings and fills the frequency tables, the sorting and naming of
 * `sort_LMS_strings`, the reduced text T1 of `create_shortened_string`, and
 * the byte layout that `bwt_file` writes.
 *
 * The text is T[0..n) followed by the byte T[n] (the NUL that `bwt_file`
 * stores after the input), which the last LMS substring reaches.
 */
module Flbwt {
  import opened Common

  // ---------------------------------------------------------------------
  // Types and LMS substrings, as the scan defines them
  // ---------------------------------------------------------------------

  /**
   * Position i is L-type: T[n-1] is, a position above its right neighbour is,
   * one below it is not, and one equal to it has its neighbour's type.
   */
  ghost predicate IsL(T: seq<uint8>, n: nat, i: nat)
    requires i < n <= |T|
    decreases n - i
  {
    i == n - 1 || T[i] > T[i + 1] || (T[i] == T[i + 1] && IsL(T, n, i + 1))
  }

  /** An LMS position: an S-type position whose left neighbour is L-type. */
  ghost predicate IsLms(T: seq<uint8>, n: nat, p: nat)
    requires p < n <= |T|
  {
    1 <= p && !IsL(T, n, p) && IsL(T, n, p - 1)
  }

  /** The LMS positions in [lo, n), in increasing order. */
  ghost function Positions(T: seq<uint8>, n: nat, lo: nat): (r: seq<nat>)
    requires n <= |T|
    decreases n - lo
  {
    if lo >= n then [] else (if IsLms(T, n, lo) then [lo] else []) + Positions(T, n, lo + 1)
  }

  /** T[lo..hi), or nothing when the bounds are out of order. */
  function Slice(T: seq<uint8>, lo: nat, hi: nat): seq<uint8> {
    if lo <= hi <= |T| then T[lo..hi] else []
  }

  /**
   * The substrings cut at the positions ps: each runs from its position to the
   * next one, both included, and the last one runs to q.
   */
  ghost function Subs(T: seq<uint8>, ps: seq<nat>, q: nat): (r: seq<seq<uint8>>)
    ensures |r| == |ps|
  {
    if ps == [] then [] else [Slice(T, ps[0], (if |ps| > 1 then ps[1] else q) + 1)] + Subs(T, ps[1..], q)
  }

  /** The LMS substrings of T in left-to-right order. */
  ghost function LmsSubstrings(T: seq<uint8>, n: nat): seq<seq<uint8>>
    requires n <= |T|
  {
    Subs(T, Positions(T, n, 0), n)
  }

  /** The number of positions in [lo, hi) holding c. */
  ghost function Count(T: seq<uint8>, lo: nat, hi: nat, c: nat): nat
    decreases hi - lo
  {
    if lo >= hi || hi > |T| then 0 else (if T[lo] == c then 1 else 0) + Count(T, lo + 1, hi, c)
  }

  /** The number of L-type positions in [lo, n) holding c. */
  ghost function LCount(T: seq<uint8>, n: nat, lo: nat, c: nat): nat
    decreases n - lo
  {
    if lo >= n || n > |T| then 0 else (if IsL(T, n, lo) && T[lo] == c then 1 else 0) + LCount(T, n, lo + 1, c)
  }

  /** The number of the positions ps holding c. */
  ghost function PCount(T: seq<uint8>, ps: seq<nat>, c: nat): nat {
    if ps == [] then 0 else (if ps[0] < |T| && T[ps[0]] == c then 1 else 0) + PCount(T, ps[1..], c)
  }

  /**
   * The characters that the scan counts into k once it has reached lo: those
   * of T[lo..n-1) other than 0 and T[n-1], which are marked before the scan.
   */
  ghost function Counted(T: seq<uint8>, n: nat, lo: nat): set<uint8>
    requires n <= |T|
    decreases n - lo
  {
    if lo + 1 >= n then {}
    else (if T[lo] != 0 && T[lo] != T[n - 1] then {T[lo]} else {}) + Counted(T, n, lo + 1)
  }

  ghost predicate Distinct<X>(s: seq<X>) {
    forall i, j :: 0 <= i < j < |s| ==> s[i] != s[j]
  }

  // ---------------------------------------------------------------------
  // Properties of the cut
  // ---------------------------------------------------------------------

  /** Positions(T, n, lo) is increasing, within [lo, n), and made of LMS positions. */
  lemma {:induction false} PositionsOrdered(T: seq<uint8>, n: nat, lo: nat)
    requires n <= |T|
    ensures forall k :: 0 <= k < |Positions(T, n, lo)| ==>
      lo <= Positions(T, n, lo)[k] < n && IsLms(T, n, Positions(T, n, lo)[k])
    ensures forall k, l :: 0 <= k < l < |Positions(T, n, lo)| ==> Positions(T, n, lo)[k] < Positions(T, n, lo)[l]
    decreases n - lo
  {
    if lo < n {
      PositionsOrdered(T, n, lo + 1);
    }
  }

  /** Positions(T, n, lo) holds exactly the LMS positions in [lo, n). */
  lemma {:induction false} PositionsExact(T: seq<uint8>, n: nat, lo: nat, p: nat)
    requires n <= |T|
    ensures p in Positions(T, n, lo) <==> lo <= p < n && IsLms(T, n, p)
    decreases n - lo
  {
    if lo < n {
      PositionsExact(T, n, lo + 1, p);
      var head := if IsLms(T, n, lo) then [lo] else [];
      assert Positions(T, n, lo) == head + Positions(T, n, lo + 1);
      assert p in head <==> p == lo && IsLms(T, n, lo);
    }
  }

  /**
   * Every LMS substring has at least three characters: the next cut is at
   * least two positions on, and the last LMS position is at most n - 2
   * because T[n-1] is L-type.
   */
  lemma {:induction false} SubsAtLeastThree(T: seq<uint8>, n: nat, ps: seq<nat>, k: nat)
    requires n < |T| && k < |ps|
    requires forall j :: 0 <= j < |ps| ==> ps[j] < n && IsLms(T, n, ps[j])
    requires forall j, l :: 0 <= j < l < |ps| ==> ps[j] < ps[l]
    ensures |Subs(T, ps, n)[k]| >= 3
  {
    if k == 0 {
      var p := ps[0];
      assert p != n - 1;
      if |ps| > 1 {
        assert IsLms(T, n, ps[1]) && IsLms(T, n, p);
        assert ps[1] != p + 1;
      }
    } else {
      assert Subs(T, ps, n)[k] == Subs(T, ps[1..], n)[k - 1];
      SubsAtLeastThree(T, n, ps[1..], k - 1);
    }
  }

  lemma LmsSubstringsAtLeastThree(T: seq<uint8>, n: nat)
    requires n < |T|
    ensures forall x :: x in LmsSubstrings(T, n) ==> |x| >= 3
  {
    var ps := Positions(T, n, 0);
    PositionsOrdered(T, n, 0);
    forall x | x in LmsSubstrings(T, n) ensures |x| >= 3 {
      var k :| 0 <= k < |ps| && LmsSubstrings(T, n)[k] == x;
      SubsAtLeastThree(T, n, ps, k);
    }
  }

  /** Position 0 has no left neighbour, so it is never an LMS position. */
  lemma PositionZero(T: seq<uint8>, n: nat)
    requires 0 < n <= |T|
    ensures Positions(T, n, 0) == Positions(T, n, 1)
  {
  }

  // ---------------------------------------------------------------------
  // extract_LMS_strings
  // ---------------------------------------------------------------------

  /**
   * The result of the extraction. `unique` stands for the hash table's
   * contents: the distinct substrings in the order they were inserted;
   * `names` stands for the name fields of their records.
   */
  class Container {
    const n: nat
    var k: nat
    const M: array<nat>
    const NL: array<nat>
    const C: array<nat>
    var numOfSubstrings: nat
    var numOfUniqueSubstrings: nat
    var headStringEnd: Option<nat>
    var hasHashtable: bool
    var unique: seq<seq<uint8>>
    var names: map<seq<uint8>, nat>

    constructor (n: nat)
      ensures this.n == n && k == 0 && numOfSubstrings == 0 && numOfUniqueSubstrings == 0
      ensures headStringEnd == None && !hasHashtable && unique == [] && names == map[]
      ensures fresh(M) && fresh(NL) && fresh(C) && M != NL && M != C && NL != C
      ensures M.Length == 258 && NL.Length == 258 && C.Length == 258
      ensures forall c :: 0 <= c < 258 ==> M[c] == 0 && NL[c] == 0 && C[c] == 0
    {
      this.n := n;
      k := 0;
      M := new nat[258](_ => 0);
      NL := new nat[258](_ => 0);
      C := new nat[258](_ => 0);
      numOfSubstrings := 0;
      numOfUniqueSubstrings := 0;
      headStringEnd := None;
      hasHashtable := false;
      unique := [];
      names := map[];
    }
  }

  /** What the scan has built once it has reached position i. */
  ghost predicate ScanState(T: seq<uint8>, n: nat, i: nat, prevL: bool, found: seq<nat>, q: nat,
                            unique: seq<seq<uint8>>)
    requires i < n < |T|
  {
    prevL == IsL(T, n, i) && found == Positions(T, n, i + 1) && i < q <= n &&
    q == (if found == [] then n else found[0]) && Interned(T, n, found, unique)
  }

  /** unique holds each substring cut at found exactly once. */
  ghost predicate Interned(T: seq<uint8>, n: nat, found: seq<nat>, unique: seq<seq<uint8>>) {
    Distinct(unique) && forall x :: InternedAt(T, n, found, unique, x)
  }

  ghost predicate InternedAt(T: seq<uint8>, n: nat, found: seq<nat>, unique: seq<seq<uint8>>, x: seq<uint8>) {
    x in unique <==> x in Subs(T, found, n)
  }

  /** M once the scan has reached position i: the sentinel and the byte counts of T[i..n). */
  ghost predicate MTable(T: seq<uint8>, n: nat, i: nat, M: seq<nat>)
    requires |M| == 258
  {
    M[0] == 1 && M[257] == 0 && forall c :: 0 <= c < 256 ==> MAt(T, n, i, M, c)
  }

  ghost predicate MAt(T: seq<uint8>, n: nat, i: nat, M: seq<nat>, c: nat) {
    c + 1 < |M| && M[c + 1] == Count(T, i, n, c)
  }

  /** NL once the scan has reached position i: the L-type counts of T[i..n). */
  ghost predicate NLTable(T: seq<uint8>, n: nat, i: nat, NL: seq<nat>)
    requires |NL| == 258
  {
    NL[0] == 0 && NL[257] == 0 && forall c :: 0 <= c < 256 ==> NLAt(T, n, i, NL, c)
  }

  ghost predicate NLAt(T: seq<uint8>, n: nat, i: nat, NL: seq<nat>, c: nat) {
    c + 1 < |NL| && NL[c + 1] == LCount(T, n, i, c)
  }

  /** C for the LMS positions found: the end substring and the first-byte counts. */
  ghost predicate CTable(T: seq<uint8>, found: seq<nat>, C: seq<nat>)
    requires |C| == 258
  {
    C[0] == 1 && C[257] == 0 && forall c :: 0 <= c < 256 ==> CAt(T, found, C, c)
  }

  ghost predicate CAt(T: seq<uint8>, found: seq<nat>, C: seq<nat>, c: nat) {
    c + 1 < |C| && C[c + 1] == PCount(T, found, c)
  }

  /** The alphabet marks once the scan has reached position i. */
  ghost predicate Marks(T: seq<uint8>, n: nat, i: nat, alphabet: seq<nat>)
    requires 0 < n <= |T| && |alphabet| == 256
  {
    forall x :: 0 <= x < 256 ==> MarkAt(T, n, i, alphabet, x)
  }

  ghost predicate MarkAt(T: seq<uint8>, n: nat, i: nat, alphabet: seq<nat>, x: nat)
    requires 0 < n <= |T|
  {
    x < |alphabet| && (alphabet[x] != 0 <==> x == 0 || x == T[n - 1] || x in Counted(T, n, i))
  }

  /**
   * One step of the type scan at position i, given the type of i + 1: the
   * type of i, whether i + 1 is an LMS position, and the positions found.
   */
  lemma TypeStep(T: seq<uint8>, n: nat, i: nat, i1: nat, prevL: bool)
    requires i1 == i + 1 && i1 < n <= |T| && prevL == IsL(T, n, i1)
    ensures IsL(T, n, i) == (T[i] > T[i + 1] || (T[i] == T[i + 1] && prevL))
    ensures IsLms(T, n, i + 1) == (T[i] > T[i + 1] && !prevL)
    ensures Positions(T, n, i + 1) == (if IsLms(T, n, i + 1) then [i + 1] else []) + Positions(T, n, i1 + 1)
  {
    var l := T[i] > T[i1] || (T[i] == T[i1] && prevL);
    assert IsL(T, n, i) == l;
    assert IsLms(T, n, i1) == (!prevL && l);
  }


  /** Interning the substring T[p..q] keeps every cut substring exactly once. */
  lemma InternStep(T: seq<uint8>, n: nat, found: seq<nat>, unique: seq<seq<uint8>>, p: nat, q: nat,
                   s: seq<uint8>, unique2: seq<seq<uint8>>)
    requires Interned(T, n, found, unique) && q == (if found == [] then n else found[0])
    requires p <= q < |T| && s == T[p..q + 1]
    requires unique2 == if s in unique then unique else unique + [s]
    ensures Interned(T, n, [p] + found, unique2)
  {
    assert ([p] + found)[1..] == found;
    assert Subs(T, [p] + found, n) == [s] + Subs(T, found, n);
    forall x ensures InternedAt(T, n, [p] + found, unique2, x) {
      assert InternedAt(T, n, found, unique, x);
    }
  }

  /** Counting T[i] into M: b is the slot T[i] + 1. */
  lemma MStep(T: seq<uint8>, n: nat, i: nat, i1: nat, b: nat, M: seq<nat>, M2: seq<nat>)
    requires i1 == i + 1 && i < n <= |T| && b == T[i] as int + 1 && |M| == 258
    requires MTable(T, n, i1, M) && M2 == M[b := M[b] + 1]
    ensures MTable(T, n, i, M2)
  {
    forall c | 0 <= c < 256 ensures MAt(T, n, i, M2, c) {
      assert MAt(T, n, i1, M, c);
      assert M2[c + 1] == M[c + 1] + (if c == T[i] then 1 else 0);
    }
  }


  /** NL after the L-type position i: counted into slot b = T[i] + 1. */
  lemma NLStepL(T: seq<uint8>, n: nat, i: nat, i1: nat, b: nat, NL: seq<nat>, NL2: seq<nat>)
    requires i1 == i + 1 && i < n <= |T| && b == T[i] as int + 1 && |NL| == 258
    requires NLTable(T, n, i1, NL) && IsL(T, n, i) && NL2 == NL[b := NL[b] + 1]
    ensures NLTable(T, n, i, NL2)
  {
    forall c | 0 <= c < 256 ensures NLAt(T, n, i, NL2, c) {
      assert NLAt(T, n, i1, NL, c);
      assert NL2[c + 1] == NL[c + 1] + (if c == T[i] then 1 else 0);
    }
  }


  /** NL after the S-type position i: unchanged. */
  lemma NLStepS(T: seq<uint8>, n: nat, i: nat, i1: nat, NL: seq<nat>)
    requires i1 == i + 1 && i < n <= |T| && |NL| == 258
    requires NLTable(T, n, i1, NL) && !IsL(T, n, i)
    ensures NLTable(T, n, i, NL)
  {
    forall c | 0 <= c < 256 ensures NLAt(T, n, i, NL, c) {
      assert NLAt(T, n, i1, NL, c);
    }
  }


  /** Counting the LMS position p into C: b is the slot T[p] + 1. */
  lemma CStep(T: seq<uint8>, found: seq<nat>, p: nat, b: nat, C: seq<nat>, C2: seq<nat>)
    requires p < |T| && b == T[p] as int + 1 && |C| == 258
    requires CTable(T, found, C) && C2 == C[b := C[b] + 1]
    ensures CTable(T, [p] + found, C2)
  {
    assert ([p] + found)[1..] == found;
    forall c | 0 <= c < 256 ensures CAt(T, [p] + found, C2, c) {
      assert CAt(T, found, C, c);
      assert C2[c + 1] == C[c + 1] + (if c == T[p] then 1 else 0);
    }
  }

  /** One step of the alphabet marks and of k at position i. */
  lemma MarksStep(T: seq<uint8>, n: nat, i: nat, i1: nat, v: nat, alphabet: seq<nat>, alphabet2: seq<nat>,
                   k: nat, k2: nat)
    requires i1 == i + 1 && i1 < n <= |T| && |alphabet| == 256 && v == T[i]
    requires Marks(T, n, i1, alphabet) && k == 1 + |Counted(T, n, i1)|
    requires alphabet2 == if alphabet[v] == 0 then alphabet[v := alphabet[v] + 1] else alphabet
    requires k2 == k + (if alphabet[v] == 0 then 1 else 0)
    ensures |alphabet2| == 256 && Marks(T, n, i, alphabet2) && k2 == 1 + |Counted(T, n, i)|
  {
    assert MarkAt(T, n, i1, alphabet, v);
    if alphabet[v] == 0 {
      assert Counted(T, n, i) == Counted(T, n, i1) + {T[i]};
    } else {
      assert Counted(T, n, i) == Counted(T, n, i1);
    }
    forall x | 0 <= x < 256 ensures MarkAt(T, n, i, alphabet2, x) {
      assert MarkAt(T, n, i1, alphabet, x);
    }
  }


  /** `x[j]++`, leaving the scan's other tables as they are. */
  method Bump(x: array<nat>, j: nat, ghost o1: array<nat>, ghost o2: array<nat>, ghost o3: array<nat>)
    requires j < x.Length && x != o1 && x != o2 && x != o3
    modifies x
    ensures x[..] == old(x[..])[j := old(x[..])[j] + 1]
    ensures o1[..] == old(o1[..]) && o2[..] == old(o2[..]) && o3[..] == old(o3[..])
  {
    x[j] := x[j] + 1;
  }

  /** `if (alphabet[T[i]] == 0) { alphabet[T[i]]++; k++; }`, with i1 = i + 1. */
  method MarkByte(T: seq<uint8>, n: nat, i: nat, i1: nat, alphabet: array<nat>, k: nat,
                  ghost M: array<nat>, ghost NL: array<nat>, ghost C: array<nat>) returns (k2: nat)
    requires i1 == i + 1 && i1 < n <= |T| && alphabet.Length == 256
    requires alphabet != M && alphabet != NL && alphabet != C
    requires Marks(T, n, i1, alphabet[..]) && k == 1 + |Counted(T, n, i1)|
    modifies alphabet
    ensures Marks(T, n, i, alphabet[..]) && k2 == 1 + |Counted(T, n, i)|
    ensures M[..] == old(M[..]) && NL[..] == old(NL[..]) && C[..] == old(C[..])
  {
    var val: nat := T[i];
    ghost var A0 := alphabet[..];
    k2 := k;
    if alphabet[val] == 0 {
      Bump(alphabet, val, M, NL, C);
      k2 := k2 + 1;
    }
    MarksStep(T, n, i, i1, val, A0, alphabet[..], k, k2);
  }

  /** `M[T[i] + 1]++`, with i1 = i + 1. */
  method CountByte(T: seq<uint8>, n: nat, i: nat, i1: nat, M: array<nat>,
                   ghost alphabet: array<nat>, ghost NL: array<nat>, ghost C: array<nat>)
    requires i1 == i + 1 && i < n <= |T| && M.Length == 258
    requires M != alphabet && M != NL && M != C && MTable(T, n, i1, M[..])
    modifies M
    ensures MTable(T, n, i, M[..])
    ensures alphabet[..] == old(alphabet[..]) && NL[..] == old(NL[..]) && C[..] == old(C[..])
  {
    var b: nat := T[i] as nat + 1;
    ghost var M0 := M[..];
    Bump(M, b, alphabet, NL, C);
    MStep(T, n, i, i1, b, M0, M[..]);
  }

  /** `NL[T[i] + 1]++` for the L-type position i, with i1 = i + 1. */
  method CountLType(T: seq<uint8>, n: nat, i: nat, i1: nat, NL: array<nat>,
                    ghost alphabet: array<nat>, ghost M: array<nat>, ghost C: array<nat>)
    requires i1 == i + 1 && i < n <= |T| && NL.Length == 258 && IsL(T, n, i)
    requires NL != alphabet && NL != M && NL != C && NLTable(T, n, i1, NL[..])
    modifies NL
    ensures NLTable(T, n, i, NL[..])
    ensures alphabet[..] == old(alphabet[..]) && M[..] == old(M[..]) && C[..] == old(C[..])
  {
    var b: nat := T[i] as nat + 1;
    ghost var NL0 := NL[..];
    Bump(NL, b, alphabet, M, C);
    NLStepL(T, n, i, i1, b, NL0, NL[..]);
  }

  /** `C[T[p] + 1]++` for the LMS position p. */
  method CountLms(T: seq<uint8>, ghost found: seq<nat>, p: nat, C: array<nat>,
                  ghost alphabet: array<nat>, ghost M: array<nat>, ghost NL: array<nat>)
    requires p < |T| && C.Length == 258
    requires C != alphabet && C != M && C != NL && CTable(T, found, C[..])
    modifies C
    ensures CTable(T, [p] + found, C[..])
    ensures alphabet[..] == old(alphabet[..]) && M[..] == old(M[..]) && NL[..] == old(NL[..])
  {
    var b: nat := T[p] as nat + 1;
    ghost var C0 := C[..];
    Bump(C, b, alphabet, M, NL);
    CStep(T, found, p, b, C0, C[..]);
  }

  /**
   * The start of the scan: the sentinel and T[n-1] (which is L-type) are
   * counted, and C[0] holds the end substring T[n].
   */
  method ScanStart(T: seq<uint8>, n: nat, M: array<nat>, NL: array<nat>, C: array<nat>, alphabet: array<nat>)
    returns (k: nat)
    requires 0 < n <= |T| && M.Length == 258 && NL.Length == 258 && C.Length == 258 && alphabet.Length == 256
    requires M != NL && M != C && NL != C && alphabet != M && alphabet != NL && alphabet != C
    requires forall x :: 0 <= x < 258 ==> M[x] == 0 && NL[x] == 0 && C[x] == 0
    requires forall x :: 0 <= x < 256 ==> alphabet[x] == 0
    modifies M, NL, C, alphabet
    ensures MTable(T, n, n - 1, M[..]) && NLTable(T, n, n - 1, NL[..]) && CTable(T, [], C[..])
    ensures Marks(T, n, n - 1, alphabet[..]) && k == 1 + |Counted(T, n, n - 1)|
  {
    alphabet[0] := alphabet[0] + 1;
    M[0] := M[0] + 1;
    var t: nat := T[n - 1];
    alphabet[t] := alphabet[t] + 1;
    M[t + 1] := M[t + 1] + 1;
    NL[t + 1] := NL[t + 1] + 1;
    C[0] := C[0] + 1;
    k := 1;
    var last := n - 1;
    assert IsL(T, n, last);
    forall x | 0 <= x < 256
      ensures MAt(T, n, last, M[..], x) && NLAt(T, n, last, NL[..], x) && CAt(T, [], C[..], x)
      ensures MarkAt(T, n, last, alphabet[..], x)
    {
      assert LCount(T, n, last, x) == if T[last] == x then 1 else 0;
    }
  }

  /**
   * An LMS substring T[p..q] has been closed: C counts its first byte, the
   * substring count grows by one, and the hash table's insert reports
   * whether it is new.
   */
  method CutLms(T: seq<uint8>, n: nat, ghost found: seq<nat>, p: nat, q: nat, C: array<nat>,
                num: nat, numUnique: nat, unique: seq<seq<uint8>>,
                ghost alphabet: array<nat>, ghost M: array<nat>, ghost NL: array<nat>)
    returns (num2: nat, numUnique2: nat, unique2: seq<seq<uint8>>)
    requires p <= q < |T| && C.Length == 258
    requires C != alphabet && C != M && C != NL && CTable(T, found, C[..])
    requires Interned(T, n, found, unique) && numUnique == |unique|
    requires q == (if found == [] then n else found[0])
    modifies C
    ensures CTable(T, [p] + found, C[..]) && num2 == num + 1
    ensures Interned(T, n, [p] + found, unique2) && numUnique2 == |unique2|
    ensures alphabet[..] == old(alphabet[..]) && M[..] == old(M[..]) && NL[..] == old(NL[..])
  {
    CountLms(T, found, p, C, alphabet, M, NL);
    num2 := num + 1;
    var s := T[p..q + 1];
    unique2, numUnique2 := unique, numUnique;
    if s !in unique {
      unique2 := unique + [s];
      numUnique2 := numUnique + 1;
    }
    InternStep(T, n, found, unique, p, q, s, unique2);
  }

  /**
   * The right-to-left scan of `extract_LMS_strings` for n > 2, on the
   * container's zeroed tables M, NL and C.
   */
  method Scan(T: seq<uint8>, n: nat, M: array<nat>, NL: array<nat>, C: array<nat>)
    returns (k: nat, num: nat, numUnique: nat, unique: seq<seq<uint8>>, p: Option<nat>)
    requires 2 < n < |T| && M.Length == 258 && NL.Length == 258 && C.Length == 258
    requires M != NL && M != C && NL != C
    requires forall x :: 0 <= x < 258 ==> M[x] == 0 && NL[x] == 0 && C[x] == 0
    modifies M, NL, C
    ensures MTable(T, n, 0, M[..]) && NLTable(T, n, 0, NL[..]) && CTable(T, Positions(T, n, 0), C[..])
    ensures num == |Positions(T, n, 0)| && Interned(T, n, Positions(T, n, 0), unique) && numUnique == |unique|
    ensures p == (if Positions(T, n, 0) == [] then None else Some(Positions(T, n, 0)[0]))
    ensures k == 1 + |Counted(T, n, 0)|
  {
    var prevL := true;
    var alphabet := new nat[256](_ => 0);
    p := None;
    var q := n;
    k := ScanStart(T, n, M, NL, C, alphabet);
    num, numUnique := 0, 0;
    unique := [];
    ghost var found: seq<nat> := [];

    var i := n - 1;
    while i > 0
      invariant 0 <= i < n && alphabet != M && alphabet != NL && alphabet != C
      invariant ScanState(T, n, i, prevL, found, q, unique)
      invariant MTable(T, n, i, M[..]) && NLTable(T, n, i, NL[..]) && CTable(T, found, C[..])
      invariant num == |found| && numUnique == |unique|
      invariant p == if found == [] then None else Some(found[0])
      invariant Marks(T, n, i, alphabet[..]) && k == 1 + |Counted(T, n, i)|
      decreases i
    {
      var i1 := i;
      i := i - 1;
      TypeStep(T, n, i, i1, prevL);
      k := MarkByte(T, n, i, i1, alphabet, k, M, NL, C);
      CountByte(T, n, i, i1, M, alphabet, NL, C);
      if T[i] < T[i + 1] {
        prevL := false;
        NLStepS(T, n, i, i1, NL[..]);
      } else if T[i] > T[i + 1] {
        if !prevL {
          var p1: nat := i + 1;
          num, numUnique, unique := CutLms(T, n, found, p1, q, C, num, numUnique, unique, alphabet, M, NL);
          found := [p1] + found;
          p := Some(p1);
          q := p1;
        }
        prevL := true;
        CountLType(T, n, i, i1, NL, alphabet, M, C);
      } else {
        if prevL {
          CountLType(T, n, i, i1, NL, alphabet, M, C);
        } else {
          NLStepS(T, n, i, i1, NL[..]);
        }
      }
    }
    PositionZero(T, n);
  }

  /**
   * What `extract_LMS_strings` leaves in the container for n > 2: M counts
   * the bytes (with the sentinel in M[0]), NL the L-type positions per byte,
   * C the LMS substrings per first byte (with the end substring in C[0]);
   * the substrings are counted, each distinct one is interned once, the head
   * string ends at the first LMS position, and k is one plus the number of
   * distinct bytes of T[0..n-1) other than 0 and T[n-1].
   */
  ghost predicate Extracted(T: seq<uint8>, c: Container)
    reads c`k, c`numOfSubstrings, c`numOfUniqueSubstrings, c`headStringEnd, c`hasHashtable, c`unique
    reads c.M, c.NL, c.C
  {
    2 < c.n < |T| && c.hasHashtable &&
    c.M.Length == 258 && c.NL.Length == 258 && c.C.Length == 258 &&
    MTable(T, c.n, 0, c.M[..]) && NLTable(T, c.n, 0, c.NL[..]) &&
    CTable(T, Positions(T, c.n, 0), c.C[..]) &&
    c.numOfSubstrings == |Positions(T, c.n, 0)| &&
    Interned(T, c.n, Positions(T, c.n, 0), c.unique) && c.numOfUniqueSubstrings == |c.unique| &&
    c.headStringEnd == (if Positions(T, c.n, 0) == [] then None else Some(Positions(T, c.n, 0)[0])) &&
    (c.headStringEnd.Some? ==> c.headStringEnd.value < c.n) &&
    c.k == 1 + |Counted(T, c.n, 0)|
  }

  /**
   * `extract_LMS_strings(T, n)`. For n <= 2 the container is returned as
   * created, without a hash table; otherwise the scan leaves it Extracted.
   */
  method ExtractLmsStrings(T: seq<uint8>, n: nat) returns (c: Container)
    requires n < |T|
    ensures fresh(c) && fresh(c.M) && fresh(c.NL) && fresh(c.C) && c.n == n && c.names == map[]
    ensures c.M.Length == 258 && c.NL.Length == 258 && c.C.Length == 258
    ensures n <= 2 ==>
      c.k == 0 && c.numOfSubstrings == 0 && c.numOfUniqueSubstrings == 0 && !c.hasHashtable &&
      c.unique == [] && c.headStringEnd == None &&
      forall x :: 0 <= x < 258 ==> c.M[x] == 0 && c.NL[x] == 0 && c.C[x] == 0
    ensures n > 2 ==> Extracted(T, c)
  {
    c := new Container(n);
    if n <= 2 {
      return;
    }
    c.hasHashtable := true;
    c.k, c.numOfSubstrings, c.numOfUniqueSubstrings, c.unique, c.headStringEnd := Scan(T, n, c.M, c.NL, c.C);
    if c.headStringEnd.Some? {
      PositionsExact(T, n, 0, c.headStringEnd.value);
    }
  }

  // ---------------------------------------------------------------------
  // sort_LMS_strings: the comparator
  // ---------------------------------------------------------------------

  /**
   * The order of `LMS_comparison`: byte-wise, the smaller byte first at the
   * first mismatch, and a string before every proper prefix of it.
   */
  predicate Less(a: seq<uint8>, b: seq<uint8>)
    decreases |a|
  {
    if |a| == 0 then false
    else if |b| == 0 then true
    else if a[0] != b[0] then a[0] < b[0]
    else Less(a[1..], b[1..])
  }

  lemma {:induction false} LessIrreflexive(a: seq<uint8>)
    ensures !Less(a, a)
    decreases |a|
  {
    if |a| > 0 {
      LessIrreflexive(a[1..]);
    }
  }

  lemma {:induction false} LessAsymmetric(a: seq<uint8>, b: seq<uint8>)
    ensures Less(a, b) ==> !Less(b, a)
    decreases |a|
  {
    if |a| > 0 && |b| > 0 && a[0] == b[0] {
      LessAsymmetric(a[1..], b[1..]);
    }
  }

  lemma {:induction false} LessTransitive(a: seq<uint8>, b: seq<uint8>, c: seq<uint8>)
    requires Less(a, b) && Less(b, c)
    ensures Less(a, c)
    decreases |a|
  {
    if |a| > 0 && |b| > 0 && |c| > 0 && a[0] == b[0] && b[0] == c[0] {
      LessTransitive(a[1..], b[1..], c[1..]);
    }
  }

  /** Two different strings are ordered one way or the other. */
  lemma {:induction false} LessTotal(a: seq<uint8>, b: seq<uint8>)
    requires a != b
    ensures Less(a, b) || Less(b, a)
    decreases |a|
  {
    if |a| > 0 && |b| > 0 && a[0] == b[0] {
      assert a == [a[0]] + a[1..] && b == [b[0]] + b[1..];
      LessTotal(a[1..], b[1..]);
    }
  }

  /** A string sorts before each of its proper prefixes. */
  lemma {:induction false} LessLongerFirst(a: seq<uint8>, b: seq<uint8>)
    requires |a| < |b| && a == b[..|a|]
    ensures Less(b, a) && !Less(a, b)
    decreases |a|
  {
    if |a| > 0 {
      assert a[1..] == b[1..][..|a| - 1];
      LessLongerFirst(a[1..], b[1..]);
    }
  }

  /** At the first mismatch the smaller byte decides. */
  lemma {:induction false} LessFirstMismatch(a: seq<uint8>, b: seq<uint8>, i: nat)
    requires i < |a| && i < |b| && a[..i] == b[..i] && a[i] != b[i]
    ensures Less(a, b) <==> a[i] < b[i]
    decreases i
  {
    if i > 0 {
      assert a[0] == a[..i][0] && b[0] == b[..i][0];
      assert a[1..][..i - 1] == a[..i][1..] && b[1..][..i - 1] == b[..i][1..];
      LessFirstMismatch(a[1..], b[1..], i - 1);
    }
  }

  /**
   * The comparator lambda of `sort_LMS_strings`: walk both strings while
   * the bytes agree; the one that runs out first is not less, else the
   * mismatching bytes decide.
   */
  method LmsComparison(a: seq<uint8>, b: seq<uint8>) returns (r: bool)
    ensures r == Less(a, b)
  {
    var l1: nat, l2: nat := |a|, |b|;
    var c1: uint8, c2: uint8 := 0, 0;
    var i := 0;
    while l1 > 0 && l2 > 0
      invariant i <= |a| && i <= |b| && l1 == |a| - i && l2 == |b| - i
      invariant Less(a, b) == Less(a[i..], b[i..])
    {
      c1 := a[i];
      c2 := b[i];
      i := i + 1;
      if c1 != c2 {
        break;
      }
      l1 := l1 - 1;
      l2 := l2 - 1;
    }
    if l1 == 0 {
      r := false;
    } else if l2 == 0 {
      r := true;
    } else {
      r := c1 < c2;
    }
  }

  // ---------------------------------------------------------------------
  // sort_LMS_strings: the sort and the names
  // ---------------------------------------------------------------------

  /** Every string is less than every later one. */
  ghost predicate StrictlySorted(s: seq<seq<uint8>>) {
    forall i, j :: 0 <= i < j < |s| ==> Less(s[i], s[j])
  }

  /** `x` put into the sorted `ys` after every string less than it. */
  function Insert(x: seq<uint8>, ys: seq<seq<uint8>>): seq<seq<uint8>> {
    if ys == [] then [x]
    else if Less(ys[0], x) then [ys[0]] + Insert(x, ys[1..])
    else [x] + ys
  }

  /** The sort that stands for `std::sort(s + 1, s + 1 + m, LMS_comparison)`. */
  function SortStrings(xs: seq<seq<uint8>>): seq<seq<uint8>> {
    if xs == [] then [] else Insert(xs[0], SortStrings(xs[1..]))
  }

  lemma {:induction false} InsertPermutes(x: seq<uint8>, ys: seq<seq<uint8>>)
    ensures multiset(Insert(x, ys)) == multiset(ys) + multiset{x}
  {
    if ys != [] && Less(ys[0], x) {
      InsertPermutes(x, ys[1..]);
      assert ys == [ys[0]] + ys[1..];
    }
  }

  lemma {:induction false} InsertSorted(x: seq<uint8>, ys: seq<seq<uint8>>)
    requires StrictlySorted(ys) && x !in ys
    ensures StrictlySorted(Insert(x, ys))
  {
    if ys == [] {
    } else if Less(ys[0], x) {
      var rest := Insert(x, ys[1..]);
      InsertSorted(x, ys[1..]);
      forall j | 0 <= j < |ys[1..]| ensures Less(ys[0], ys[1..][j]) {
        assert ys[1..][j] == ys[j + 1];
      }
      InsertBound(x, ys[1..], ys[0]);
      ConsSorted(ys[0], rest);
      assert Insert(x, ys) == [ys[0]] + rest;
    } else {
      LessTotal(x, ys[0]);
      forall j | 0 <= j < |ys| ensures Less(x, ys[j]) {
        if j > 0 {
          LessTransitive(x, ys[0], ys[j]);
        }
      }
      ConsSorted(x, ys);
    }
  }

  /** A bound below x and below every string of ys is below every string of Insert(x, ys). */
  lemma InsertBound(x: seq<uint8>, ys: seq<seq<uint8>>, h: seq<uint8>)
    requires Less(h, x) && forall j :: 0 <= j < |ys| ==> Less(h, ys[j])
    ensures forall j :: 0 <= j < |Insert(x, ys)| ==> Less(h, Insert(x, ys)[j])
  {
    var r := Insert(x, ys);
    InsertPermutes(x, ys);
    forall j | 0 <= j < |r| ensures Less(h, r[j]) {
      var y := r[j];
      assert y in multiset(r);
      if y != x {
        assert y in multiset(ys);
        var k :| 0 <= k < |ys| && ys[k] == y;
      }
    }
  }

  /** A string below every string of a strictly sorted sequence can go in front of it. */
  lemma ConsSorted(h: seq<uint8>, rest: seq<seq<uint8>>)
    requires StrictlySorted(rest) && forall j :: 0 <= j < |rest| ==> Less(h, rest[j])
    ensures StrictlySorted([h] + rest)
  {
    var s := [h] + rest;
    forall i, j | 0 <= i < j < |s| ensures Less(s[i], s[j]) {
      assert s[j] == rest[j - 1];
      if i > 0 {
        assert s[i] == rest[i - 1];
      }
    }
  }

  lemma {:induction false} SortPermutes(xs: seq<seq<uint8>>)
    ensures multiset(SortStrings(xs)) == multiset(xs)
  {
    if xs != [] {
      SortPermutes(xs[1..]);
      InsertPermutes(xs[0], SortStrings(xs[1..]));
      assert xs == [xs[0]] + xs[1..];
    }
  }

  /** Sorting distinct strings orders them strictly and keeps exactly them. */
  lemma {:induction false} SortSorted(xs: seq<seq<uint8>>)
    requires Distinct(xs)
    ensures StrictlySorted(SortStrings(xs)) && multiset(SortStrings(xs)) == multiset(xs)
  {
    SortPermutes(xs);
    if xs != [] {
      assert Distinct(xs[1..]) by {
        forall i, j | 0 <= i < j < |xs[1..]| ensures xs[1..][i] != xs[1..][j] {
          assert xs[i + 1] != xs[j + 1];
        }
      }
      SortSorted(xs[1..]);
      SortPermutes(xs[1..]);
      assert xs[0] !in xs[1..] by {
        forall j | 0 <= j < |xs[1..]| ensures xs[1..][j] != xs[0] {
          assert xs[j + 1] != xs[0];
        }
      }
      assert xs[0] !in multiset(SortStrings(xs[1..]));
      InsertSorted(xs[0], SortStrings(xs[1..]));
    }
  }

  /** In a strictly sorted sequence the index order is the string order. */
  lemma SortedOrder(s: seq<seq<uint8>>, i: nat, j: nat)
    requires StrictlySorted(s) && i < |s| && j < |s|
    ensures i < j <==> Less(s[i], s[j])
  {
    if j < i {
      LessAsymmetric(s[j], s[i]);
    } else if i == j {
      LessIrreflexive(s[i]);
    }
  }

  /** The records of `s`: the end substring, the m sorted names, the head string. */
  ghost predicate Named(T: seq<uint8>, c: Container, s: seq<seq<uint8>>)
    reads c
  {
    var m := c.numOfUniqueSubstrings;
    c.headStringEnd.Some? && c.headStringEnd.value < |T| &&
    |s| == m + 2 && s[0] == [0] && s[m + 1] == T[..c.headStringEnd.value + 1] &&
    StrictlySorted(s[1..m + 1]) && multiset(s[1..m + 1]) == multiset(c.unique) &&
    (forall t :: 1 <= t <= m ==> s[t] in c.names && c.names[s[t]] == t)
  }

  /**
   * `sort_LMS_strings(T, container)`: the m distinct substrings go into
   * s[1..m], are sorted under the comparator and named 1..m in that order;
   * the head string T[0..head_string_end] is s[m+1] (name m+1) and the end
   * substring, of length 1 and content 0, is s[0] (name 0).
   */
  method SortLmsStrings(T: seq<uint8>, c: Container) returns (s: array<seq<uint8>>)
    requires Extracted(T, c) && c.headStringEnd.Some?
    modifies c`names
    ensures fresh(s) && Named(T, c, s[..])
  {
    var m := c.numOfUniqueSubstrings;
    var unique := c.unique;
    var p := c.headStringEnd.value;
    s := new seq<uint8>[m + 2](_ => []);
    SortRecords(s, unique);
    SortSorted(unique);
    SetNames(c, s, m);
    ghost var mid := s[..];
    s[m + 1] := T[..p + 1];
    s[0] := [0];
    NamedRecords(T, c, m, mid, s[..]);
  }

  /** Adding the head string and the end substring around the named records. */
  lemma NamedRecords(T: seq<uint8>, c: Container, m: nat, mid: seq<seq<uint8>>, r: seq<seq<uint8>>)
    requires c.headStringEnd.Some? && c.headStringEnd.value < |T|
    requires m == c.numOfUniqueSubstrings && |mid| == m + 2
    requires StrictlySorted(mid[1..m + 1]) && multiset(mid[1..m + 1]) == multiset(c.unique)
    requires forall t :: 1 <= t <= m ==> mid[t] in c.names && c.names[mid[t]] == t
    requires r == mid[m + 1 := T[..c.headStringEnd.value + 1]][0 := [0]]
    ensures Named(T, c, r)
  {
    assert r[1..m + 1] == mid[1..m + 1];
  }

  /** The m distinct substrings put into s[1..m] and sorted there. */
  method SortRecords(s: array<seq<uint8>>, unique: seq<seq<uint8>>)
    requires s.Length == |unique| + 2
    modifies s
    ensures s[1..|unique| + 1] == SortStrings(unique)
  {
    var m := |unique|;
    CollectRecords(s, unique);
    var sorted := SortStrings(s[1..m + 1]);
    SortPermutes(s[1..m + 1]);
    assert |sorted| == |multiset(sorted)| == m;
    forall t | 1 <= t <= m {
      s[t] := sorted[t - 1];
    }
    assert s[1..m + 1] == sorted;
  }

  /** The traversal of the hash table that puts the m distinct substrings into s[1..m]. */
  method CollectRecords(s: array<seq<uint8>>, unique: seq<seq<uint8>>)
    requires s.Length == |unique| + 2
    modifies s
    ensures s[1..|unique| + 1] == unique
  {
    var j := 1;
    while j <= |unique|
      invariant 1 <= j <= |unique| + 1
      invariant forall t :: 1 <= t < j ==> s[t] == unique[t - 1]
    {
      s[j] := unique[j - 1];
      j := j + 1;
    }
  }

  /** `set_name(s[i], i)` for i = 1..m. */
  method SetNames(c: Container, s: array<seq<uint8>>, m: nat)
    requires m + 2 <= s.Length && StrictlySorted(s[1..m + 1])
    modifies c`names
    ensures forall t :: 1 <= t <= m ==> s[t] in c.names && c.names[s[t]] == t
  {
    ghost var sorted := s[1..m + 1];
    var i := 1;
    while i <= m
      invariant 1 <= i <= m + 1
      invariant forall t :: 1 <= t < i ==> s[t] in c.names && c.names[s[t]] == t
    {
      forall t | 1 <= t < i ensures s[t] != s[i] {
        assert s[t] == sorted[t - 1] && s[i] == sorted[i - 1];
        SortedOrder(sorted, t - 1, i - 1);
        LessIrreflexive(s[i]);
      }
      c.names := c.names[s[i] := i];
      i := i + 1;
    }
  }

  /** The number of distinct strings of `LS` that sort before `x`. */
  ghost function Rank(LS: seq<seq<uint8>>, x: seq<uint8>): nat {
    |set y | y in LS && Less(y, x)|
  }

  lemma {:induction false} DistinctCard(s: seq<seq<uint8>>)
    requires Distinct(s)
    ensures |set y | y in s| == |s|
  {
    if s != [] {
      var last := s[|s| - 1];
      var init := s[..|s| - 1];
      assert Distinct(init) by {
        forall a, b | 0 <= a < b < |init| ensures init[a] != init[b] {
          assert s[a] != s[b];
        }
      }
      DistinctCard(init);
      assert last !in init by {
        forall a | 0 <= a < |init| ensures init[a] != last {
          assert s[a] != s[|s| - 1];
        }
      }
      assert (set y | y in s) == (set y | y in init) + {last} by {
        assert s == init + [last];
      }
    }
  }

  /**
   * Names are ranks: the name of the t-th sorted string is one plus the
   * number of distinct LMS substrings less than it, whatever order the
   * hash table held them in.
   */
  lemma NameIsRank(sorted: seq<seq<uint8>>, LS: seq<seq<uint8>>, t: nat)
    requires StrictlySorted(sorted) && t < |sorted|
    requires forall y :: y in sorted <==> y in LS
    ensures Rank(LS, sorted[t]) == t
  {
    assert (set y | y in LS && Less(y, sorted[t])) == (set y | y in sorted[..t]) by {
      forall y | y in LS && Less(y, sorted[t]) ensures y in sorted[..t] {
        var u :| 0 <= u < |sorted| && sorted[u] == y;
        SortedOrder(sorted, u, t);
      }
      forall y | y in sorted[..t] ensures y in LS && Less(y, sorted[t]) {
        var u :| 0 <= u < t && sorted[..t][u] == y;
        assert sorted[u] == y;
      }
    }
    assert Distinct(sorted[..t]) by {
      forall a, b | 0 <= a < b < t ensures sorted[a] != sorted[b] {
        SortedOrder(sorted, a, b);
        LessIrreflexive(sorted[a]);
      }
    }
    DistinctCard(sorted[..t]);
  }

  /**
   * The names keep the comparator's order: for two interned strings, one
   * is less than the other exactly when its name is smaller, equal names
   * mean equal strings, and every name lies in 1..m.
   */
  lemma NamesOrder(T: seq<uint8>, c: Container, s: seq<seq<uint8>>, x: seq<uint8>, y: seq<uint8>)
    requires Named(T, c, s) && x in c.unique && y in c.unique
    ensures x in c.names && y in c.names
    ensures 1 <= c.names[x] <= c.numOfUniqueSubstrings
    ensures Less(x, y) <==> c.names[x] < c.names[y]
    ensures c.names[x] == c.names[y] <==> x == y
  {
    var m := c.numOfUniqueSubstrings;
    var sorted := s[1..m + 1];
    assert x in multiset(sorted) && y in multiset(sorted);
    var a :| 0 <= a < m && sorted[a] == x;
    var b :| 0 <= b < m && sorted[b] == y;
    assert s[a + 1] == x && s[b + 1] == y;
    SortedOrder(sorted, a, b);
    if a != b {
      SortedOrder(sorted, b, a);
      LessIrreflexive(x);
    }
  }

  // ---------------------------------------------------------------------
  // create_shortened_string
  // ---------------------------------------------------------------------

  /** The LMS positions from hi on are the last ones of those from lo on. */
  lemma {:induction false} PositionsSuffix(T: seq<uint8>, n: nat, lo: nat, hi: nat)
    requires lo <= hi && n <= |T|
    ensures |Positions(T, n, hi)| <= |Positions(T, n, lo)|
    ensures Positions(T, n, hi) == Positions(T, n, lo)[|Positions(T, n, lo)| - |Positions(T, n, hi)|..]
    decreases hi - lo
  {
    if lo < hi {
      PositionsSuffix(T, n, lo + 1, hi);
      if lo >= n {
        assert hi >= n;
      }
    }
  }

  /** Cutting at the last positions of ps gives the last substrings. */
  lemma {:induction false} SubsSuffix(T: seq<uint8>, ps: seq<nat>, q: nat, k: nat)
    requires k <= |ps|
    ensures Subs(T, ps, q)[k..] == Subs(T, ps[k..], q)
    decreases k
  {
    if k > 0 {
      SubsSuffix(T, ps[1..], q, k - 1);
      assert ps[1..][k - 1..] == ps[k..];
    }
  }

  /**
   * The LMS position i + 1 met by the second scan, with j slots of T1 still
   * to fill, is the j-th LMS position and cuts the j-th LMS substring.
   */
  lemma NameStep(T: seq<uint8>, n: nat, i: nat, found: seq<nat>, q: nat, j: nat)
    requires n <= |T| && Positions(T, n, i + 1) == [i + 1] + found
    requires j + |found| == |Positions(T, n, 0)| && found == Positions(T, n, 0)[j..]
    requires q == (if found == [] then n else found[0]) && i + 1 < q < |T|
    ensures 1 <= j && [i + 1] + found == Positions(T, n, 0)[j - 1..]
    ensures LmsSubstrings(T, n)[j - 1] == T[i + 1..q + 1]
  {
    NameSlot(T, n, i, found, j);
    CutAt(T, n, Positions(T, n, 0), j, i + 1, found, q);
  }

  /** The first half of NameStep: where [i + 1] + found sits among all LMS positions. */
  lemma NameSlot(T: seq<uint8>, n: nat, i: nat, found: seq<nat>, j: nat)
    requires n <= |T| && Positions(T, n, i + 1) == [i + 1] + found
    requires j + |found| == |Positions(T, n, 0)|
    ensures 1 <= j && [i + 1] + found == Positions(T, n, 0)[j - 1..]
  {
    PositionsSuffix(T, n, 0, i + 1);
    SuffixSlot(Positions(T, n, 0), Positions(T, n, i + 1), found, j, i + 1);
  }

  /** A suffix [p] + found of ps whose tail found starts at j starts at j - 1. */
  lemma SuffixSlot(ps: seq<nat>, pi: seq<nat>, found: seq<nat>, j: nat, p: nat)
    requires |pi| <= |ps| && pi == ps[|ps| - |pi|..] && pi == [p] + found && j + |found| == |ps|
    ensures 1 <= j && ps[j - 1..] == [p] + found
  {
  }

  /** The cut at the j-th position ps[j-1] = p runs to the next position q (or n). */
  lemma CutAt(T: seq<uint8>, n: nat, ps: seq<nat>, j: nat, p: nat, found: seq<nat>, q: nat)
    requires 1 <= j <= |ps| && ps[j - 1..] == [p] + found
    requires q == (if found == [] then n else found[0]) && p < q < |T|
    ensures Subs(T, ps, n)[j - 1] == T[p..q + 1]
  {
    SubsSuffix(T, ps, n, j - 1);
    var rest := ps[j - 1..];
    assert (if |rest| > 1 then rest[1] else n) == q by {
      if |rest| > 1 {
        assert rest[1] == found[0];
      }
    }
    assert Subs(T, ps, n)[j - 1] == Subs(T, rest, n)[0];
  }

  /** Slot t of T1 holds the name of the t-th LMS substring. */
  ghost predicate NameAt(T1: seq<nat>, LS: seq<seq<uint8>>, names: map<seq<uint8>, nat>, t: nat) {
    1 <= t <= |LS| && t < |T1| && LS[t - 1] in names && T1[t] == names[LS[t - 1]]
  }

  /** `T1->set_value(j, name)` for the j-th LMS substring. */
  method PutName(T1: array<nat>, j: nat, name: nat, ghost LS: seq<seq<uint8>>,
                 ghost names: map<seq<uint8>, nat>, ghost num: nat)
    requires 1 <= j <= num <= |LS| && num < T1.Length
    requires LS[j - 1] in names && name == names[LS[j - 1]]
    requires forall t :: j < t <= num ==> NameAt(T1[..], LS, names, t)
    modifies T1
    ensures T1[..] == old(T1[..])[j := name]
    ensures forall t :: j <= t <= num ==> NameAt(T1[..], LS, names, t)
  {
    ghost var before := T1[..];
    T1[j] := name;
    forall t | j <= t <= num ensures NameAt(T1[..], LS, names, t) {
      if t > j {
        assert NameAt(before, LS, names, t);
      }
    }
  }

  /**
   * `create_shortened_string(T, n, container)`: T1 has num_substrings + 2
   * slots; the last is 0 (the end substring), the first is num_unique + 1
   * (the head string), and slot t in between holds the name of the t-th
   * LMS substring from the left, written by a second right-to-left scan
   * that finds the same cuts as the first.
   */
  method CreateShortenedString(T: seq<uint8>, c: Container) returns (T1: array<nat>)
    requires Extracted(T, c) && forall x :: x in c.unique ==> x in c.names
    ensures fresh(T1) && T1.Length == c.numOfSubstrings + 2
    ensures T1[0] == c.numOfUniqueSubstrings + 1 && T1[c.numOfSubstrings + 1] == 0
    ensures forall t :: 1 <= t <= c.numOfSubstrings ==> NameAt(T1[..], LmsSubstrings(T, c.n), c.names, t)
  {
    var num := c.numOfSubstrings;
    T1 := new nat[num + 2](_ => 0);
    T1[num + 1] := 0;
    FillNames(T, c.n, T1, c.unique, c.names);
    ghost var before := T1[..];
    T1[0] := c.numOfUniqueSubstrings + 1;
    forall t | 1 <= t <= num ensures NameAt(T1[..], LmsSubstrings(T, c.n), c.names, t) {
      assert NameAt(before, LmsSubstrings(T, c.n), c.names, t);
    }
  }

  /** The second scan, which writes the names into T1[1..num] from right to left. */
  method FillNames(T: seq<uint8>, n: nat, T1: array<nat>, ghost unique: seq<seq<uint8>>,
                   names: map<seq<uint8>, nat>)
    requires 2 < n < |T| && T1.Length == |Positions(T, n, 0)| + 2
    requires Interned(T, n, Positions(T, n, 0), unique) && forall x :: x in unique ==> x in names
    modifies T1
    ensures T1[T1.Length - 1] == old(T1[T1.Length - 1])
    ensures forall t :: 1 <= t < T1.Length - 1 ==> NameAt(T1[..], LmsSubstrings(T, n), names, t)
  {
    ghost var P0 := Positions(T, n, 0);
    ghost var LS := LmsSubstrings(T, n);
    var num := T1.Length - 2;
    var prevL := true;
    var q: nat := n;
    var j: nat := num;
    ghost var found: seq<nat> := [];
    var i := n - 1;
    while i > 0
      invariant 0 <= i < n && prevL == IsL(T, n, i) && found == Positions(T, n, i + 1)
      invariant i < q <= n && q == (if found == [] then n else found[0])
      invariant j + |found| == num && found == P0[j..]
      invariant T1[num + 1] == old(T1[num + 1])
      invariant forall t :: j < t <= num ==> NameAt(T1[..], LS, names, t)
      decreases i
    {
      var i1 := i;
      i := i - 1;
      TypeStep(T, n, i, i1, prevL);
      if T[i] < T[i + 1] {
        prevL := false;
      } else if T[i] > T[i + 1] {
        if !prevL {
          var p1: nat := i + 1;
          NameStep(T, n, i, found, q, j);
          var sub := T[p1..q + 1];
          assert InternedAt(T, n, P0, unique, sub);
          var name := names[sub];
          PutName(T1, j, name, LS, names, num);
          j := j - 1;
          found := [p1] + found;
          q := p1;
        }
        prevL := true;
      }
    }
    PositionZero(T, n);
  }

  // ---------------------------------------------------------------------
  // bwt_string
  // ---------------------------------------------------------------------

  /** How `bwt_string` ends, as far as this model follows it. */
  datatype Outcome =
    | InvalidArgument
      /** The run goes on into a null hash table or an unset head string end. */
    | Undefined
      /** The reduced text T1 and the records S that the SA-IS stage starts from. */
    | Reduced(T1: seq<nat>, S: seq<seq<uint8>>)

  /**
   * The reduced problem, stated without the hash table: T1 is the end-to-end
   * sequence of the ranks (from 1) of the LMS substrings among the distinct
   * ones, framed by m + 1 and 0; S lists the end substring, the distinct LMS
   * substrings in comparator order, and the head string.
   */
  ghost predicate ReducedProblem(T: seq<uint8>, n: nat, T1: seq<nat>, S: seq<seq<uint8>>)
    requires n < |T|
  {
    var LS := LmsSubstrings(T, n);
    var m := |set x | x in LS|;
    Positions(T, n, 0) != [] && Positions(T, n, 0)[0] < n &&
    |T1| == |LS| + 2 && T1[0] == m + 1 && T1[|LS| + 1] == 0 &&
    (forall t :: 1 <= t <= |LS| ==> T1[t] == 1 + Rank(LS, LS[t - 1])) &&
    |S| == m + 2 && S[0] == [0] && S[m + 1] == T[..Positions(T, n, 0)[0] + 1] &&
    StrictlySorted(S[1..m + 1]) && (forall x :: x in S[1..m + 1] <==> x in LS)
  }

  /** The interned strings are the distinct LMS substrings, so there are m of them. */
  lemma UniqueCount(LS: seq<seq<uint8>>, unique: seq<seq<uint8>>)
    requires Distinct(unique) && forall x :: x in unique <==> x in LS
    ensures |unique| == |set x | x in LS|
  {
    DistinctCard(unique);
    assert (set x | x in LS) == (set x | x in unique);
  }

  /** The name of an LMS substring is one plus its rank. */
  lemma NamesAreRanks(T: seq<uint8>, c: Container, s: seq<seq<uint8>>, x: seq<uint8>)
    requires c.n < |T| && Named(T, c, s) && forall y :: y in c.unique <==> y in LmsSubstrings(T, c.n)
    requires x in LmsSubstrings(T, c.n)
    ensures x in c.names && c.names[x] == 1 + Rank(LmsSubstrings(T, c.n), x)
  {
    var m := c.numOfUniqueSubstrings;
    var sorted := s[1..m + 1];
    assert x in multiset(sorted);
    var u :| 0 <= u < m && sorted[u] == x;
    assert s[u + 1] == x;
    forall y ensures y in sorted <==> y in LmsSubstrings(T, c.n) {
      assert y in sorted <==> y in multiset(sorted);
    }
    NameIsRank(sorted, LmsSubstrings(T, c.n), u);
  }

  /**
   * `bwt_string(T, n, free_T)` up to the reduced problem: a missing text or
   * n == 0 is rejected before any work; for n <= 2 the sort reads the
   * container's missing hash table, and without an LMS substring the head
   * string end is never set; otherwise extraction, sorting and naming, and
   * the second scan give the reduced problem.
   */
  method BwtString(T: Option<seq<uint8>>, n: nat) returns (o: Outcome)
    requires T.Some? && n > 0 ==> n < |T.value|
    ensures o.InvalidArgument? <==> T.None? || n == 0
    ensures o.Undefined? <==> T.Some? && 0 < n && (n <= 2 || Positions(T.value, n, 0) == [])
    ensures o.Reduced? ==> T.Some? && n < |T.value| && ReducedProblem(T.value, n, o.T1, o.S)
  {
    if T.None? || n == 0 {
      return InvalidArgument;
    }
    if n <= 2 {
      return Undefined;
    }
    var text := T.value;
    var c := ExtractLmsStrings(text, n);
    if c.headStringEnd.None? {
      return Undefined;
    }
    var s := SortLmsStrings(text, c);
    forall x | x in c.unique ensures x in c.names {
      NamesOrder(text, c, s[..], x, x);
    }
    var T1 := CreateShortenedString(text, c);
    ReducedFromRecords(text, c, s[..], T1[..]);
    o := Reduced(T1[..], s[..]);
  }

  /** The records and T1 that the container yields are the reduced problem. */
  lemma ReducedFromRecords(T: seq<uint8>, c: Container, s: seq<seq<uint8>>, T1: seq<nat>)
    requires Extracted(T, c) && Named(T, c, s)
    requires |T1| == c.numOfSubstrings + 2
    requires T1[0] == c.numOfUniqueSubstrings + 1 && T1[c.numOfSubstrings + 1] == 0
    requires forall t :: 1 <= t <= c.numOfSubstrings ==> NameAt(T1, LmsSubstrings(T, c.n), c.names, t)
    ensures ReducedProblem(T, c.n, T1, s)
  {
    var n := c.n;
    var LS := LmsSubstrings(T, n);
    assert forall y :: y in c.unique <==> y in LS by {
      forall y ensures y in c.unique <==> y in LS {
        assert InternedAt(T, n, Positions(T, n, 0), c.unique, y);
      }
    }
    UniqueCount(LS, c.unique);
    forall t | 1 <= t <= |LS| ensures T1[t] == 1 + Rank(LS, LS[t - 1]) {
      assert NameAt(T1, LS, c.names, t);
      NamesAreRanks(T, c, s, LS[t - 1]);
    }
    var m := c.numOfUniqueSubstrings;
    forall x ensures x in s[1..m + 1] <==> x in LS {
      assert x in s[1..m + 1] <==> x in multiset(s[1..m + 1]);
    }
  }

  // ---------------------------------------------------------------------
  // The output layout of bwt_file
  // ---------------------------------------------------------------------

  /** The 8 bytes of x, most significant first: `(mask & last) >> shift`. */
  function BigEndian(x: uint64): (r: seq<uint8>)
    ensures |r| == 8
  {
    seq(8, i requires 0 <= i < 8 => (x / Pow2(56 - 8 * i)) % 256)
  }

  /** The number that bytes stand for, most significant first. */
  function FromBigEndian(r: seq<uint8>): nat {
    if r == [] then 0 else FromBigEndian(r[..|r| - 1]) * 256 + r[|r| - 1]
  }

  lemma {:induction false} BigEndianPrefix(x: uint64, k: nat)
    requires k <= 8
    ensures FromBigEndian(BigEndian(x)[..k]) == x / Pow2(64 - 8 * k)
  {
    if k == 0 {
      Pow2Word64();
      DivUnique(x, Pow2(64), 0, x);
    } else {
      assert Pow2(8) == 256 by {
      }
      var r := BigEndian(x);
      BigEndianPrefix(x, k - 1);
      assert r[..k][..k - 1] == r[..k - 1];
      var e := 64 - 8 * k;
      assert 64 - 8 * (k - 1) == e + 8 && 56 - 8 * (k - 1) == e;
      Pow2Add(e, 8);
      NextDigit(x, Pow2(e), FromBigEndian(r[..k - 1]), r[k - 1]);
      assert FromBigEndian(r[..k]) == FromBigEndian(r[..k - 1]) * 256 + r[k - 1];
    }
  }

  /** One more byte: the number above a, shifted by 8 bits, plus the byte at a. */
  lemma NextDigit(x: nat, a: nat, high: nat, d: nat)
    requires a > 0 && high == x / (a * 256) && d == (x / a) % 256
    ensures high * 256 + d == x / a
  {
    MixedRadix(x, a, 256);
  }

  /** The rank written first reads back as the rank. */
  lemma BigEndianRoundTrip(x: uint64)
    ensures FromBigEndian(BigEndian(x)) == x
  {
    BigEndianPrefix(x, 8);
    assert BigEndian(x)[..8] == BigEndian(x);
  }

  /**
   * What `bwt_file` writes for a BWT of n + 1 bytes whose sentinel is at
   * index `last`: the rank, then the n bytes other than the sentinel.
   */
  function OutputBytes(last: uint64, BWT: seq<uint8>, n: nat): (r: seq<uint8>)
    requires |BWT| == n + 1 && last <= n
    ensures r == BigEndian(last) + BWT[..last] + BWT[last + 1..]
    ensures |r| == n + 8
  {
    BigEndian(last) +
    if last == 0 then BWT[1..n + 1]
    else if last == n then BWT[0..n]
    else BWT[0..last] + BWT[last + 1..last + 1 + (n - last)]
  }

  /** The file gives back the rank and every byte but the sentinel, in order. */
  lemma OutputDecodes(last: uint64, BWT: seq<uint8>, n: nat)
    requires |BWT| == n + 1 && last <= n
    ensures FromBigEndian(OutputBytes(last, BWT, n)[..8]) == last
    ensures forall i :: 0 <= i < n ==>
      OutputBytes(last, BWT, n)[8 + i] == if i < last then BWT[i] else BWT[i + 1]
  {
    var r := OutputBytes(last, BWT, n);
    assert r[..8] == BigEndian(last);
    BigEndianRoundTrip(last);
  }
}
