/**
 * The order stage 3 of `sais_main` starts from (src/sais.cpp:321-351):
 * the LMS positions in SA[0..m) sorted by their first character. Placing
 * them right to left at the retreating ends of their buckets puts each of
 * them once into the S-type tail of its bucket, which is the seeding the
 * forward sweep of induce_SA starts from (SaisInduce.LmsSeeded).
 */
module SaisOrder {
  import opened SaisText
  import opened SaisInduce

  /** The entries of s are pairwise distinct. */
  ghost predicate Distinct(s: seq<int>)
  {
    forall t, u :: 0 <= t < u < |s| ==> s[t] != s[u]
  }

  /** ps holds every LMS position of X once and nothing else. */
  ghost predicate LmsOnce(X: seq<int>, ps: seq<int>)
  {
    Distinct(ps) && forall p :: Lms(X, p) <==> p in ps
  }

  /** ps lists positions of X in non-decreasing order of their first character. */
  ghost predicate CharSorted(X: seq<int>, ps: seq<int>)
  {
    (forall r :: 0 <= r < |ps| ==> 0 <= ps[r] < |X|) &&
    forall r, r' :: 0 <= r < r' < |ps| ==> X[ps[r]] <= X[ps[r']]
  }

  /** ps lists every LMS position of X once, sorted by first character. */
  ghost predicate SortedLms(X: seq<int>, ps: seq<int>)
  {
    LmsOnce(X, ps) && CharSorted(X, ps)
  }

  /** An induced array lists the positions in non-decreasing order of first character. */
  lemma InducedOrdered(X: seq<int>, k: nat, S: seq<int>, t: int, u: int)
    requires InAlphabet(X, k) && |X| <= |S| && Induced(X, k, S) && 0 <= t < u < |X|
    ensures X[S[t]] <= X[S[u]]
  {
    if X[S[u]] < X[S[t]] {
      BucketsOrdered(X, k, X[S[u]], X[S[t]]);
    }
  }

  /** A sequence of distinct entries has as many elements as entries. */
  lemma {:induction false} DistinctCard(s: seq<int>)
    requires Distinct(s)
    ensures |set x | x in s| == |s|
  {
    if |s| > 0 {
      var init := s[..|s| - 1];
      assert Distinct(init);
      DistinctCard(init);
      assert s == init + [s[|s| - 1]];
      assert (set x | x in s) == (set x | x in init) + {s[|s| - 1]};
    }
  }

  /** A list of every LMS position, each once, is as long as LmsList(X, 0). */
  lemma LmsCount(X: seq<int>, ps: seq<int>)
    requires LmsOnce(X, ps)
    ensures |LmsList(X, 0)| == |ps|
  {
    var L: seq<int> := LmsList(X, 0);
    forall p | p in ps ensures p in L {
      LmsListComplete(X, 0, p);
    }
    assert (set x | x in L) == (set x | x in ps);
    DistinctCard(L);
    DistinctCard(ps);
  }

  /** The number of records ps[r..] that are positions of X with character c. */
  ghost function CharsFrom(X: seq<int>, ps: seq<int>, r: nat, c: int): nat
    decreases |ps| - r
  {
    if r >= |ps| then 0
    else (if 0 <= ps[r] < |X| && X[ps[r]] == c then 1 else 0) + CharsFrom(X, ps, r + 1, c)
  }

  /** The positions among the records ps[r..] whose character is c. */
  ghost function CharSet(X: seq<int>, ps: seq<int>, r: nat, c: int): set<int>
    decreases |ps| - r
  {
    if r >= |ps| then {}
    else (if 0 <= ps[r] < |X| && X[ps[r]] == c then {ps[r]} else {}) + CharSet(X, ps, r + 1, c)
  }

  /** For distinct records, CharsFrom counts CharSet, whose members are records of character c. */
  lemma {:induction false} CharSetCard(X: seq<int>, ps: seq<int>, r: nat, c: int)
    requires Distinct(ps)
    ensures |CharSet(X, ps, r, c)| == CharsFrom(X, ps, r, c)
    ensures forall p :: p in CharSet(X, ps, r, c) ==> 0 <= p < |X| && X[p] == c && exists j :: r <= j < |ps| && ps[j] == p
    decreases |ps| - r
  {
    if r < |ps| {
      CharSetCard(X, ps, r + 1, c);
      assert ps[r] !in CharSet(X, ps, r + 1, c);
    }
  }

  /** The LMS records of character c fit the S-type tail of its bucket, which fits its occurrences. */
  lemma CharsFit(X: seq<int>, k: nat, ps: seq<int>, r: nat, c: nat)
    requires InAlphabet(X, k) && LmsOnce(X, ps) && c < k
    ensures CharsFrom(X, ps, r, c) <= |SSet(X, c)| <= multiset(X)[c]
  {
    CharSetCard(X, ps, r, c);
    forall p | p in CharSet(X, ps, r, c) ensures p in SSet(X, c) {
      assert p in ps;
    }
    SubsetCard(CharSet(X, ps, r, c), SSet(X, c));
    SubsetCard(SSet(X, c), OccFrom(X, 0, c));
    OccCard(X, 0, c);
    assert X[0..] == X;
  }

  /** The counts CharsFrom(X, ps, r, c) of the characters c < k. */
  ghost function Tally(X: seq<int>, ps: seq<int>, r: nat, k: nat): (s: seq<int>)
    ensures |s| == k && forall c :: 0 <= c < k ==> s[c] == CharsFrom(X, ps, r, c)
  {
    seq(k, c => CharsFrom(X, ps, r, c))
  }

  /** Prefix sums keep an entrywise order. */
  lemma {:induction false} SumLe(a: seq<int>, b: seq<int>, j: nat)
    requires |a| == |b| && j <= |a| && forall c :: 0 <= c < |a| ==> a[c] <= b[c]
    ensures Sum(a, j) <= Sum(b, j)
  {
    if j > 0 {
      SumLe(a, b, j - 1);
    }
  }

  /**
   * Records lo..i-1 all have characters at most X[ps[i]], so they and the
   * records of that character from i on are counted by the prefix sum of
   * the tally from lo up to and including X[ps[i]].
   */
  lemma {:induction false} PlaceRoomFrom(X: seq<int>, k: nat, ps: seq<int>, lo: nat, i: nat)
    requires InAlphabet(X, k) && CharSorted(X, ps) && lo <= i < |ps|
    ensures (i - lo) + CharsFrom(X, ps, i, X[ps[i]]) <= Sum(Tally(X, ps, lo, k), X[ps[i]] + 1)
    decreases i - lo
  {
    var c := X[ps[i]];
    if lo == i {
      SumMonotone(Tally(X, ps, lo, k), 0, c);
    } else {
      PlaceRoomFrom(X, k, ps, lo + 1, i);
      SumBump(Tally(X, ps, lo + 1, k), Tally(X, ps, lo, k), c + 1, X[ps[lo]]);
    }
  }

  /** The slot record r is placed in: the end of its bucket, lowered once per record of its character from r on. */
  ghost function SeedAt(X: seq<int>, k: nat, ps: seq<int>, r: nat): int
    requires InAlphabet(X, k) && r < |ps| && 0 <= ps[r] < |X|
  {
    BucketEnd(X, k, X[ps[r]]) - CharsFrom(X, ps, r, X[ps[r]])
  }

  /** The slot of record r lies at or after r and in the S-type tail of its bucket. */
  lemma PlaceRoom(X: seq<int>, k: nat, ps: seq<int>, r: nat)
    requires InAlphabet(X, k) && SortedLms(X, ps) && r < |ps|
    ensures r <= SeedAt(X, k, ps, r)
    ensures LEnd(X, k, X[ps[r]]) <= SeedAt(X, k, ps, r) < BucketEnd(X, k, X[ps[r]])
  {
    var c := X[ps[r]];
    PlaceRoomFrom(X, k, ps, 0, r);
    forall d | 0 <= d < k ensures Tally(X, ps, 0, k)[d] <= Counts(X, k)[d] {
      CharsFit(X, k, ps, 0, d);
    }
    SumLe(Tally(X, ps, 0, k), Counts(X, k), c + 1);
    CharsFit(X, k, ps, r, c);
    BucketSplit(X, k, c);
  }

  /** What stage 3 seeds from: the sorted LMS records ps and, in B, the end of each character's bucket. */
  ghost predicate PlaceReady(X: seq<int>, k: nat, ps: seq<int>, B: seq<int>)
  {
    SortedLms(X, ps) && |B| == k && forall c :: 0 <= c < k ==> B[c] == BucketEnd(X, k, c)
  }

  /**
   * Slot t of S, after the records i+1.. are placed, holds an LMS position
   * that is not among the records still to place, at or above the cursor of
   * its character and in the S-type tail of its bucket.
   */
  ghost predicate PlacedAt(X: seq<int>, k: nat, ps: seq<int>, S: seq<int>, cur: seq<int>, i: int, t: int)
    requires InAlphabet(X, k) && |X| <= |S| && |cur| == k && -1 <= i < |ps| && 0 <= t < |X|
  {
    0 <= S[t] < |X| && Lms(X, S[t]) && S[t] !in ps[..i + 1] &&
    cur[X[S[t]]] <= t && LEnd(X, k, X[S[t]]) <= t < BucketEnd(X, k, X[S[t]])
  }

  /**
   * The state of the stage-3 seeding loop once records i+1.. of ps are
   * placed: each cursor is its bucket's end lowered by the placed records
   * of its character; records 0..i are still in place; every non-zero slot
   * above i is a placed record at its slot SeedAt, and none is there twice.
   */
  ghost predicate PlaceInv(X: seq<int>, k: nat, ps: seq<int>, S: seq<int>, cur: seq<int>, i: int)
  {
    InAlphabet(X, k) && SortedLms(X, ps) && |ps| <= |X| <= |S| && |cur| == k && -1 <= i < |ps| &&
    (forall c :: 0 <= c < k ==> cur[c] == BucketEnd(X, k, c) - CharsFrom(X, ps, i + 1, c)) &&
    (forall t :: 0 <= t <= i ==> S[t] == ps[t]) &&
    (forall t :: i < t < |X| ==> S[t] == 0 || PlacedAt(X, k, ps, S, cur, i, t)) &&
    (forall r {:trigger SeedAt(X, k, ps, r)} :: i < r < |ps| ==> r <= SeedAt(X, k, ps, r) < |X| && S[SeedAt(X, k, ps, r)] == ps[r]) &&
    (forall t, u :: i < t < u < |X| && S[t] != 0 ==> S[t] != S[u])
  }

  /** The sorted records in SA[0..m), nothing above them and the cursors at the bucket ends start the loop. */
  lemma PlaceStart(X: seq<int>, k: nat, ps: seq<int>, S: seq<int>, B: seq<int>)
    requires InAlphabet(X, k) && SortedLms(X, ps) && |ps| <= |X| <= |S| && S[..|ps|] == ps
    requires forall t :: |ps| <= t < |X| ==> S[t] == 0
    requires |B| == k && forall c :: 0 <= c < k ==> B[c] == BucketEnd(X, k, c)
    ensures PlaceInv(X, k, ps, S, B, |ps| - 1)
  {
    assert forall t :: 0 <= t < |ps| ==> S[t] == S[..|ps|][t];
  }

  /** The slot record i goes to is free: either i itself, just cleared, or a zero slot above i. */
  lemma PlaceFree(X: seq<int>, k: nat, ps: seq<int>, S: seq<int>, cur: seq<int>, i: nat)
    requires PlaceInv(X, k, ps, S, cur, i)
    ensures 0 <= ps[i] < |X| && X[ps[i]] < k && cur[X[ps[i]]] - 1 == SeedAt(X, k, ps, i)
    ensures i <= cur[X[ps[i]]] - 1 < |X| && LEnd(X, k, X[ps[i]]) <= cur[X[ps[i]]] - 1
    ensures cur[X[ps[i]]] - 1 == i || S[cur[X[ps[i]]] - 1] == 0
  {
    var c := X[ps[i]];
    var v := cur[c] - 1;
    PlaceRoom(X, k, ps, i);
    BucketBounds(X, k, c);
    if v != i && S[v] != 0 {
      assert PlacedAt(X, k, ps, S, cur, i, v);
      BucketSplit(X, k, c);
      BucketSplit(X, k, X[S[v]]);
      SameBucket(X, k, c, X[S[v]], v);
    }
  }

  /**
   * Placing record i at its slot keeps PlaceInv, in the loop's own names:
   * j = ps[i] goes to slot value, the lowered cursor of its character index.
   */
  lemma PlaceNext(X: seq<int>, k: nat, ps: seq<int>, S: seq<int>, cur: seq<int>, i: nat, j: int, index: int, value: int)
    requires PlaceInv(X, k, ps, S, cur, i)
    requires j == ps[i] && 0 <= j < |X| && index == X[j] && 0 <= index < k && value == cur[index] - 1 && 0 <= value < |X|
    ensures PlaceInv(X, k, ps, S[i := 0][value := j], cur[index := value], i - 1)
  {
    PlaceFree(X, k, ps, S, cur, i);
    var S', cur' := S[i := 0][value := j], cur[index := value];
    assert Lms(X, j) && j !in ps[..i] by {
      assert j in ps;
      assert forall r :: 0 <= r < i ==> ps[r] != j;
    }
    PlaceStepSlots(X, k, ps, S, cur, i, S', cur');
    PlaceStepSeeds(X, k, ps, S, cur, i, S');
    PlaceStepDistinct(X, k, ps, S, cur, i, S');
  }

  /** After the placement each non-zero slot above i-1 is a placed record. */
  lemma PlaceStepSlots(X: seq<int>, k: nat, ps: seq<int>, S: seq<int>, cur: seq<int>, i: nat, S': seq<int>, cur': seq<int>)
    requires PlaceInv(X, k, ps, S, cur, i)
    requires 0 <= ps[i] < |X| && X[ps[i]] < k && i <= cur[X[ps[i]]] - 1 < |X| && LEnd(X, k, X[ps[i]]) <= cur[X[ps[i]]] - 1
    requires cur[X[ps[i]]] - 1 < BucketEnd(X, k, X[ps[i]]) && Lms(X, ps[i]) && ps[i] !in ps[..i]
    requires S' == S[i := 0][cur[X[ps[i]]] - 1 := ps[i]] && cur' == cur[X[ps[i]] := cur[X[ps[i]]] - 1]
    ensures forall t :: i - 1 < t < |X| ==> S'[t] == 0 || PlacedAt(X, k, ps, S', cur', i - 1, t)
  {
    var v := cur[X[ps[i]]] - 1;
    forall t | i - 1 < t < |X| && S'[t] != 0 ensures PlacedAt(X, k, ps, S', cur', i - 1, t) {
      if t != v {
        assert PlacedAt(X, k, ps, S, cur, i, t);
      }
    }
  }

  /** After the placement every record from i on is at its slot. */
  lemma PlaceStepSeeds(X: seq<int>, k: nat, ps: seq<int>, S: seq<int>, cur: seq<int>, i: nat, S': seq<int>)
    requires PlaceInv(X, k, ps, S, cur, i)
    requires 0 <= ps[i] < |X| && X[ps[i]] < k && cur[X[ps[i]]] - 1 == SeedAt(X, k, ps, i) && i <= cur[X[ps[i]]] - 1 < |X|
    requires cur[X[ps[i]]] - 1 == i || S[cur[X[ps[i]]] - 1] == 0
    requires S' == S[i := 0][cur[X[ps[i]]] - 1 := ps[i]]
    ensures forall r :: i - 1 < r < |ps| ==> r <= SeedAt(X, k, ps, r) < |X| && S'[SeedAt(X, k, ps, r)] == ps[r]
  {
    forall r | i - 1 < r < |ps| ensures r <= SeedAt(X, k, ps, r) < |X| && S'[SeedAt(X, k, ps, r)] == ps[r] {
      if r > i {
        assert S[SeedAt(X, k, ps, r)] == ps[r] && Lms(X, ps[r]);
      }
    }
  }

  /** After the placement no position is held twice above i-1. */
  lemma PlaceStepDistinct(X: seq<int>, k: nat, ps: seq<int>, S: seq<int>, cur: seq<int>, i: nat, S': seq<int>)
    requires PlaceInv(X, k, ps, S, cur, i)
    requires 0 <= ps[i] < |X| && X[ps[i]] < k && i <= cur[X[ps[i]]] - 1 < |X| && Lms(X, ps[i])
    requires cur[X[ps[i]]] - 1 == i || S[cur[X[ps[i]]] - 1] == 0
    requires S' == S[i := 0][cur[X[ps[i]]] - 1 := ps[i]]
    ensures forall t, u :: i - 1 < t < u < |X| && S'[t] != 0 ==> S'[t] != S'[u]
  {
    var v := cur[X[ps[i]]] - 1;
    assert ps[i] in ps[..i + 1];
    forall t, u | i - 1 < t < u < |X| && S'[t] != 0 ensures S'[t] != S'[u] {
      if t == v && S'[u] != 0 {
        assert PlacedAt(X, k, ps, S, cur, i, u);
      } else if u == v {
        assert PlacedAt(X, k, ps, S, cur, i, t);
      }
    }
  }

  /** When every record is placed, SA[0..n) is seeded as the forward sweep needs. */
  lemma PlaceEnd(X: seq<int>, k: nat, ps: seq<int>, S: seq<int>, cur: seq<int>)
    requires PlaceInv(X, k, ps, S, cur, -1)
    ensures LmsSeeded(X, k, S)
  {
    forall t | 0 <= t < |X| && S[t] != 0
      ensures 0 <= S[t] < |X| && Lms(X, S[t]) && LEnd(X, k, X[S[t]]) <= t < BucketEnd(X, k, X[S[t]])
    {
      assert PlacedAt(X, k, ps, S, cur, -1, t);
    }
    forall p | Lms(X, p) ensures p in S[..|X|] {
      var r := IndexOf(ps, p);
      assert S[..|X|][SeedAt(X, k, ps, r)] == p;
    }
  }
}
