/**
 * The text view shared by the SA-IS engines of src/sais.cpp,
 * src/sais32bit.cpp and src/sais40bit.cpp: the characters X[0..n) the
 * engine reads (T[T_base+i+1] in the generic engine, chr(i) in the 32- and
 * 40-bit ones), the S/L classification of its positions, the LMS positions,
 * and the character buckets of the suffix array.
 */
module SaisText {

  /** Every character lies in the alphabet [0, k). */
  predicate InAlphabet(X: seq<int>, k: int)
  {
    forall i :: 0 <= i < |X| ==> 0 <= X[i] < k
  }

  /**
   * Position i is S-type when its suffix is smaller than the next one:
   * X[i] < X[i+1], or X[i] == X[i+1] and i+1 is S-type. The last position
   * is L-type (its successor is the virtual sentinel).
   */
  ghost predicate SType(X: seq<int>, i: nat)
    requires i < |X|
    decreases |X| - i
  {
    i + 1 < |X| && (X[i] < X[i+1] || (X[i] == X[i+1] && SType(X, i + 1)))
  }

  /** A leftmost S-type position: S-type, with an L-type predecessor. */
  ghost predicate Lms(X: seq<int>, p: int)
  {
    0 < p < |X| && SType(X, p) && !SType(X, p - 1)
  }

  /** The number of occurrences of each character c < k. */
  ghost function Counts(X: seq<int>, k: nat): (r: seq<int>)
    ensures |r| == k
    ensures forall c :: 0 <= c < k ==> r[c] == multiset(X)[c]
  {
    seq(k, c => multiset(X)[c])
  }

  /** s[0] + ... + s[j-1]. */
  ghost function Sum(s: seq<int>, j: nat): int
    requires j <= |s|
  {
    if j == 0 then 0 else Sum(s, j - 1) + s[j - 1]
  }

  /** The first slot of the bucket of character c (an exclusive prefix sum). */
  ghost function BucketStart(X: seq<int>, k: nat, c: nat): int
    requires c < k
  {
    Sum(Counts(X, k), c)
  }

  /** One past the last slot of the bucket of character c (an inclusive prefix sum). */
  ghost function BucketEnd(X: seq<int>, k: nat, c: nat): int
    requires c < k
  {
    Sum(Counts(X, k), c + 1)
  }

  /** The number of LMS positions q >= lo whose character is c. */
  ghost function LmsFrom(X: seq<int>, lo: nat, c: int): (r: nat)
    decreases |X| - lo
  {
    if lo >= |X| then 0 else (if Lms(X, lo) && X[lo] == c then 1 else 0) + LmsFrom(X, lo + 1, c)
  }

  /**
   * The slot an LMS position is seeded into: the LMS positions of each
   * character fill the tail of its bucket, the rightmost position last.
   */
  ghost function Slot(X: seq<int>, k: nat, p: nat): (s: int)
    requires InAlphabet(X, k) && Lms(X, p)
    ensures BucketStart(X, k, X[p]) <= s < BucketEnd(X, k, X[p])
    ensures 0 <= s < |X|
  {
    LmsFromBelowCount(X, p, X[p]);
    BucketBounds(X, k, X[p]);
    BucketEnd(X, k, X[p]) - LmsFrom(X, p, X[p])
  }

  /** The leftmost LMS position after p, or n when there is none. */
  ghost function NextLms(X: seq<int>, p: nat): (r: nat)
    ensures p < r <= |X| || (p >= |X| && r == |X|)
    ensures r < |X| ==> Lms(X, r)
    ensures forall q :: p < q < r ==> !Lms(X, q)
    decreases |X| - p
  {
    if p + 1 >= |X| then |X| else if Lms(X, p + 1) then p + 1 else NextLms(X, p + 1)
  }

  /** The LMS positions at or after lo, in increasing order. */
  ghost function LmsList(X: seq<int>, lo: nat): (r: seq<nat>)
    ensures forall i :: 0 <= i < |r| ==> lo <= r[i] < |X| && Lms(X, r[i])
    ensures forall i, j :: 0 <= i < j < |r| ==> r[i] < r[j]
    decreases |X| - lo
  {
    if lo >= |X| then [] else if Lms(X, lo) then [lo] + LmsList(X, lo + 1) else LmsList(X, lo + 1)
  }

  /** Every LMS position at or after lo is in LmsList(X, lo). */
  lemma {:induction false} LmsListComplete(X: seq<int>, lo: nat, p: nat)
    requires lo <= p && Lms(X, p)
    ensures p in LmsList(X, lo)
    decreases p - lo
  {
    if lo < p {
      LmsListComplete(X, lo + 1, p);
    }
  }

  /** Summing a sequence of non-negative numbers is monotone in the length summed. */
  lemma {:induction false} SumMonotone(s: seq<int>, i: nat, j: nat)
    requires i <= j <= |s|
    requires forall t :: 0 <= t < |s| ==> s[t] >= 0
    ensures Sum(s, i) <= Sum(s, j)
    decreases j - i
  {
    if i < j {
      SumMonotone(s, i, j - 1);
    }
  }

  /** A bucket starts at or after 0, spans the count of its character and ends at or before n. */
  lemma BucketBounds(X: seq<int>, k: nat, c: nat)
    requires c < k
    ensures 0 <= BucketStart(X, k, c)
    ensures BucketStart(X, k, c) + multiset(X)[c] == BucketEnd(X, k, c)
    ensures InAlphabet(X, k) ==> BucketEnd(X, k, c) <= |X|
  {
    SumMonotone(Counts(X, k), 0, c);
    if InAlphabet(X, k) {
      SumMonotone(Counts(X, k), c + 1, k);
      CountsTotal(X, k);
    }
  }

  /** The buckets of smaller characters lie entirely before those of larger ones. */
  lemma BucketsOrdered(X: seq<int>, k: nat, c: nat, d: nat)
    requires c < d < k
    ensures BucketEnd(X, k, c) <= BucketStart(X, k, d)
  {
    SumMonotone(Counts(X, k), c + 1, d);
  }

  /** Adding 1 at index x (when x < j) raises a prefix sum by 1. */
  lemma {:induction false} SumBump(a: seq<int>, b: seq<int>, j: nat, x: int)
    requires |a| == |b| && j <= |a|
    requires forall c :: 0 <= c < |a| ==> b[c] == a[c] + (if c == x then 1 else 0)
    ensures Sum(b, j) == Sum(a, j) + (if 0 <= x < j then 1 else 0)
  {
    if j > 0 {
      SumBump(a, b, j - 1, x);
    }
  }

  /** The counts of a text over its alphabet add up to its length: the last bucket ends at n. */
  lemma {:induction false} CountsTotal(X: seq<int>, k: nat)
    requires InAlphabet(X, k)
    ensures Sum(Counts(X, k), k) == |X|
  {
    if |X| == 0 {
      ZeroSum(Counts(X, k), k);
    } else {
      var Y := X[..|X| - 1];
      var x := X[|X| - 1];
      assert X == Y + [x];
      assert InAlphabet(Y, k) by {
        forall i | 0 <= i < |Y| ensures 0 <= Y[i] < k {
          assert Y[i] == X[i];
        }
      }
      CountsTotal(Y, k);
      assert multiset(X) == multiset(Y) + multiset{x};
      SumBump(Counts(Y, k), Counts(X, k), k, x);
    }
  }

  /** A sum of zeros is zero. */
  lemma {:induction false} ZeroSum(s: seq<int>, j: nat)
    requires j <= |s|
    requires forall t :: 0 <= t < |s| ==> s[t] == 0
    ensures Sum(s, j) == 0
  {
    if j > 0 {
      ZeroSum(s, j - 1);
    }
  }

  /** The LMS positions of c at or after lo are among the occurrences of c there. */
  lemma {:induction false} LmsFromBelowCount(X: seq<int>, lo: nat, c: int)
    requires lo <= |X|
    ensures LmsFrom(X, lo, c) <= multiset(X[lo..])[c]
    ensures multiset(X[lo..])[c] <= multiset(X)[c]
    decreases |X| - lo
  {
    if lo < |X| {
      LmsFromBelowCount(X, lo + 1, c);
      assert X[lo..] == [X[lo]] + X[lo + 1..];
    } else {
      assert X[lo..] == [];
    }
    assert X == X[..lo] + X[lo..];
  }

  /** Fewer LMS positions of c lie after a later starting point. */
  lemma {:induction false} LmsFromMonotone(X: seq<int>, lo: nat, hi: nat, c: int)
    requires lo <= hi
    ensures LmsFrom(X, hi, c) <= LmsFrom(X, lo, c)
    decreases hi - lo
  {
    if lo < hi {
      LmsFromMonotone(X, lo + 1, hi, c);
    }
  }

  /** Two LMS positions are at least two apart: an LMS position is never followed by another. */
  lemma LmsGap(X: seq<int>, p: nat)
    requires Lms(X, p)
    ensures !Lms(X, p + 1)
  {
  }

  /** Distinct LMS positions are seeded into distinct slots. */
  lemma SlotsDistinct(X: seq<int>, k: nat, p: nat, q: nat)
    requires InAlphabet(X, k) && Lms(X, p) && Lms(X, q) && p < q
    ensures Slot(X, k, p) < Slot(X, k, q) || X[p] != X[q]
    ensures Slot(X, k, p) != Slot(X, k, q)
  {
    if X[p] == X[q] {
      LmsFromMonotone(X, p + 1, q, X[p]);
    } else if X[p] < X[q] {
      BucketsOrdered(X, k, X[p], X[q]);
    } else {
      BucketsOrdered(X, k, X[q], X[p]);
    }
  }

  /**
   * The classification of a run: if X[p..j) all equal X[p] and j ends the
   * run (j == n or X[j] differs), then p is S-type exactly when the run is
   * followed by a larger character.
   */
  lemma {:induction false} RunType(X: seq<int>, p: nat, j: nat)
    requires p < j <= |X|
    requires forall t :: p <= t < j ==> X[t] == X[p]
    requires j == |X| || X[j] != X[p]
    ensures SType(X, p) <==> (j < |X| && X[j] > X[p])
    decreases j - p
  {
    if p + 1 < j {
      RunType(X, p + 1, j);
    }
  }

  /**
   * The compaction test of the engine: p is LMS exactly when its predecessor
   * is larger and the first character after p's run is larger still.
   */
  lemma LmsTest(X: seq<int>, p: nat, j: nat)
    requires 0 < p < j <= |X|
    requires forall t :: p <= t < j ==> X[t] == X[p]
    requires j == |X| || X[j] != X[p]
    ensures Lms(X, p) <==> (X[p - 1] > X[p] && j < |X| && X[p] < X[j])
  {
    RunType(X, p, j);
  }

  /** Starting later leaves fewer LMS positions. */
  lemma {:induction false} LmsListShrinks(X: seq<int>, lo: nat, hi: nat)
    requires lo <= hi
    ensures |LmsList(X, hi)| <= |LmsList(X, lo)|
    decreases hi - lo
  {
    if lo < hi {
      LmsListShrinks(X, lo + 1, hi);
    }
  }
}
