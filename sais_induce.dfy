/**
 * The two sweeps of `induce_SA` (src/sais.cpp:45-125) described slot by
 * slot. A sweep's state is a partial map `held` from the slots of SA[0..n)
 * to the positions they hold (-1 for none), its inverse `slot`, and, per
 * character, a cursor. The values the sweeps write and read are fixed by
 * what a slot holds and by whether the sweep has read it yet.
 */
module SaisInduce {
  import opened SaisText

  /** `~j` on a signed integer. */
  function Complement(j: int): (r: int)
    ensures r < 0 <==> j >= 0
    ensures -r - 1 == j
  {
    -j - 1
  }

  /** The value the forward sweep places for position j: ~j when X[j-1] < X[j]. */
  function LeftValue(X: seq<int>, j: nat): (r: int)
    requires j < |X|
    ensures r < 0 <==> (0 < j && X[j - 1] < X[j])
    ensures r == j || r == Complement(j)
  {
    if 0 < j && X[j - 1] < X[j] then Complement(j) else j
  }

  /** The value the backward sweep places for position j: ~j when j == 0 or X[j-1] > X[j]. */
  function RightValue(X: seq<int>, j: nat): (r: int)
    requires j < |X|
    ensures r < 0 <==> (j == 0 || X[j - 1] > X[j])
    ensures r == j || r == Complement(j)
  {
    if j == 0 || X[j - 1] > X[j] then Complement(j) else j
  }

  /** For an L-type position j, LeftValue is positive exactly when j-1 is L-type too. */
  lemma LeftValueSign(X: seq<int>, j: nat)
    requires j < |X| && !SType(X, j)
    ensures LeftValue(X, j) > 0 <==> (0 < j && !SType(X, j - 1))
  {
  }

  /** For an S-type position j, RightValue is positive exactly when j-1 is S-type too. */
  lemma RightValueSign(X: seq<int>, j: nat)
    requires j < |X| && SType(X, j)
    ensures RightValue(X, j) > 0 <==> (0 < j && SType(X, j - 1))
  {
  }

  // ---------------------------------------------------------------------
  // Counting the positions of a bucket

  /** The L-type positions of character c. */
  ghost function LSet(X: seq<int>, c: int): set<int>
  {
    set q | 0 <= q < |X| && X[q] == c && !SType(X, q)
  }

  /** The S-type positions of character c. */
  ghost function SSet(X: seq<int>, c: int): set<int>
  {
    set q | 0 <= q < |X| && X[q] == c && SType(X, q)
  }

  /** The occurrences of c at or after lo. */
  ghost function OccFrom(X: seq<int>, lo: nat, c: int): set<int>
  {
    set q | lo <= q < |X| && X[q] == c
  }

  /** The LMS positions of character c at or after lo. */
  ghost function LmsSetFrom(X: seq<int>, lo: nat, c: int): set<int>
  {
    set q | lo <= q < |X| && X[q] == c && Lms(X, q)
  }

  /** The positions of P whose character is c. */
  ghost function Of(X: seq<int>, P: set<int>, c: int): set<int>
  {
    set q | q in P && 0 <= q < |X| && X[q] == c
  }

  /** One past the L-type head of bucket c: its L-type positions fill the bucket from its start. */
  ghost function LEnd(X: seq<int>, k: nat, c: nat): int
    requires c < k
  {
    BucketStart(X, k, c) + |LSet(X, c)|
  }

  /** A subset is no larger than its superset. */
  lemma SubsetCard(A: set<int>, B: set<int>)
    requires A <= B
    ensures |A| <= |B|
  {
    assert B == A + (B - A);
  }

  /** There are multiset(X[lo..])[c] occurrences of c at or after lo. */
  lemma {:induction false} OccCard(X: seq<int>, lo: nat, c: int)
    requires lo <= |X|
    ensures |OccFrom(X, lo, c)| == multiset(X[lo..])[c]
    decreases |X| - lo
  {
    if lo == |X| {
      assert OccFrom(X, lo, c) == {};
      assert X[lo..] == [];
    } else {
      OccCard(X, lo + 1, c);
      assert X[lo..] == [X[lo]] + X[lo + 1..];
      if X[lo] == c {
        assert OccFrom(X, lo, c) == {lo} + OccFrom(X, lo + 1, c);
      } else {
        assert OccFrom(X, lo, c) == OccFrom(X, lo + 1, c);
      }
    }
  }

  /** LmsFrom counts the LMS positions of c at or after lo. */
  lemma {:induction false} LmsCard(X: seq<int>, lo: nat, c: int)
    requires lo <= |X|
    ensures |LmsSetFrom(X, lo, c)| == LmsFrom(X, lo, c)
    decreases |X| - lo
  {
    if lo == |X| {
      assert LmsSetFrom(X, lo, c) == {};
    } else {
      LmsCard(X, lo + 1, c);
      if Lms(X, lo) && X[lo] == c {
        assert LmsSetFrom(X, lo, c) == {lo} + LmsSetFrom(X, lo + 1, c);
      } else {
        assert LmsSetFrom(X, lo, c) == LmsSetFrom(X, lo + 1, c);
      }
    }
  }

  /**
   * Bucket c splits into its L-type head [start, LEnd) and its S-type tail
   * [LEnd, end), and the LMS positions of c fit in the tail.
   */
  lemma BucketSplit(X: seq<int>, k: nat, c: nat)
    requires c < k
    ensures BucketStart(X, k, c) <= LEnd(X, k, c) == BucketEnd(X, k, c) - |SSet(X, c)|
    ensures LmsFrom(X, 0, c) <= |SSet(X, c)|
  {
    assert LSet(X, c) + SSet(X, c) == OccFrom(X, 0, c);
    assert LSet(X, c) * SSet(X, c) == {};
    OccCard(X, 0, c);
    assert X[0..] == X;
    BucketBounds(X, k, c);
    LmsCard(X, 0, c);
    SubsetCard(LmsSetFrom(X, 0, c), SSet(X, c));
  }

  /** A slot lies in one bucket only. */
  lemma SameBucket(X: seq<int>, k: nat, c: nat, d: nat, t: int)
    requires c < k && d < k
    requires BucketStart(X, k, c) <= t < BucketEnd(X, k, c)
    requires BucketStart(X, k, d) <= t < BucketEnd(X, k, d)
    ensures c == d
  {
    if c < d {
      BucketsOrdered(X, k, c, d);
    } else if d < c {
      BucketsOrdered(X, k, d, c);
    }
  }

  /** Adding q to P adds q to the positions of its character only. */
  lemma OfAdd(X: seq<int>, P: set<int>, q: int, c: int)
    requires 0 <= q < |X| && q !in P
    ensures Of(X, P + {q}, c) == if X[q] == c then Of(X, P, c) + {q} else Of(X, P, c)
    ensures X[q] == c ==> |Of(X, P + {q}, c)| == |Of(X, P, c)| + 1
  {
  }

  // ---------------------------------------------------------------------
  // Slots and positions

  /** held and slot are inverse partial maps between the slots and the positions of [0, n); -1 is none. */
  ghost predicate Inverse(n: nat, held: seq<int>, slot: seq<int>)
  {
    |held| == n && |slot| == n &&
    (forall t :: 0 <= t < n ==> held[t] == -1 || (0 <= held[t] < n && slot[held[t]] == t)) &&
    (forall p :: 0 <= p < n ==> slot[p] == -1 || (0 <= slot[p] < n && held[slot[p]] == p))
  }

  /** Hold q at slot b, where neither held anything. */
  lemma InverseAdd(n: nat, held: seq<int>, slot: seq<int>, b: int, q: int)
    requires Inverse(n, held, slot)
    requires 0 <= b < n && 0 <= q < n && held[b] == -1 && slot[q] == -1
    ensures Inverse(n, held[b := q], slot[q := b])
  {
  }

  // ---------------------------------------------------------------------
  // The forward sweep

  /**
   * The seeding state over the positions at or after lo: every LMS position
   * there sits in its slot, and every non-zero slot of SA[0..n) holds the
   * LMS position that belongs there.
   */
  ghost predicate Seeded(X: seq<int>, k: nat, S: seq<int>, lo: nat)
    requires InAlphabet(X, k) && |X| <= |S|
  {
    (forall p :: lo <= p < |X| ==> SeededAt(X, k, S, p)) &&
    (forall t :: 0 <= t < |X| ==> S[t] == 0 || (lo <= S[t] < |X| && Lms(X, S[t]) && Slot(X, k, S[t]) == t))
  }

  /** If p is an LMS position, it sits in its slot. */
  ghost predicate SeededAt(X: seq<int>, k: nat, S: seq<int>, p: nat)
    requires InAlphabet(X, k) && |X| <= |S|
  {
    Lms(X, p) ==> S[Slot(X, k, p)] == p
  }

  /**
   * The seeding state any seeding leaves for the forward sweep: every
   * non-zero slot of SA[0..n) holds an LMS position inside the S-type tail
   * of its bucket, no position is held twice, and every LMS position is held.
   */
  ghost predicate LmsSeeded(X: seq<int>, k: nat, S: seq<int>)
    requires InAlphabet(X, k) && |X| <= |S|
  {
    (forall t :: 0 <= t < |X| ==>
      S[t] == 0 || (0 <= S[t] < |X| && Lms(X, S[t]) && LEnd(X, k, X[S[t]]) <= t < BucketEnd(X, k, X[S[t]]))) &&
    (forall t, u :: 0 <= t < u < |X| && S[t] != 0 ==> S[t] != S[u]) &&
    (forall p :: Lms(X, p) ==> p in S[..|X|])
  }

  /** The text-order seeding of stage 1 is a seeding: each slot Slot(p) lies in the S-type tail. */
  lemma TextOrderSeeded(X: seq<int>, k: nat, S: seq<int>)
    requires InAlphabet(X, k) && |X| <= |S| && Seeded(X, k, S, 0)
    ensures LmsSeeded(X, k, S)
  {
    forall p | Lms(X, p) ensures LEnd(X, k, X[p]) <= Slot(X, k, p) {
      BucketSplit(X, k, X[p]);
      LmsFromMonotone(X, 0, p, X[p]);
    }
    forall p | Lms(X, p) ensures p in S[..|X|] {
      assert SeededAt(X, k, S, p);
      assert S[..|X|][Slot(X, k, p)] == p;
    }
  }

  /**
   * The seeds: every LMS position is held in the S-type tail of its bucket,
   * and the only S-type positions held are LMS positions.
   */
  ghost predicate SeedsHeld(X: seq<int>, k: nat, held: seq<int>, slot: seq<int>)
    requires InAlphabet(X, k) && |held| == |X| && |slot| == |X|
  {
    (forall p :: 0 <= p < |X| && Lms(X, p) ==> 0 <= slot[p] < |X| && LEnd(X, k, X[p]) <= slot[p] < BucketEnd(X, k, X[p])) &&
    (forall t :: 0 <= t < |X| && 0 <= held[t] < |X| && SType(X, held[t]) ==> Lms(X, held[t]))
  }

  /**
   * The L-type positions placed so far, P: each is held in the head of its
   * bucket, the placed positions of c fill [start, cur[c]) exactly, and no
   * other L-type position is held.
   */
  ghost predicate LHeld(X: seq<int>, k: nat, cur: seq<int>, held: seq<int>, slot: seq<int>, P: set<int>)
    requires InAlphabet(X, k) && |cur| == k && |held| == |X| && |slot| == |X|
  {
    LPlaced(X, k, cur, slot, P) && LCounts(X, k, cur, P) && LHeads(X, k, cur, held)
  }

  /** P holds L-type positions only, exactly those with a slot, each between its bucket start and cursor. */
  ghost predicate LPlaced(X: seq<int>, k: nat, cur: seq<int>, slot: seq<int>, P: set<int>)
    requires InAlphabet(X, k) && |cur| == k && |slot| == |X|
  {
    (forall p {:trigger p in P} :: p in P ==> 0 <= p < |X| && !SType(X, p)) &&
    (forall p {:trigger p in P} :: 0 <= p < |X| && !SType(X, p) ==> (p in P <==> slot[p] != -1)) &&
    (forall p {:trigger slot[p]} :: 0 <= p < |X| && !SType(X, p) && slot[p] != -1 ==>
      BucketStart(X, k, X[p]) <= slot[p] < cur[X[p]])
  }

  /** The cursor of c lies past the placed positions of c. */
  ghost predicate LCounts(X: seq<int>, k: nat, cur: seq<int>, P: set<int>)
    requires InAlphabet(X, k) && |cur| == k
  {
    forall c :: 0 <= c < k ==> cur[c] == BucketStart(X, k, c) + |Of(X, P, c)|
  }

  /** Every slot between a bucket start and its cursor holds an L-type position of that bucket. */
  ghost predicate LHeads(X: seq<int>, k: nat, cur: seq<int>, held: seq<int>)
    requires InAlphabet(X, k) && |cur| == k && |held| == |X|
  {
    forall c, t :: 0 <= c < k && 0 <= t < |X| && BucketStart(X, k, c) <= t < cur[c] ==>
      0 <= held[t] < |X| && X[held[t]] == c && !SType(X, held[t])
  }

  /** The value the forward sweep finds in a slot holding p: a seed holds p, an L-type position its LeftValue, a free slot 0. */
  ghost function FwdValue(X: seq<int>, p: int): int
  {
    if p < 0 || p >= |X| then 0 else if SType(X, p) then p else LeftValue(X, p)
  }

  /** The slots before i have been read (and complemented); the others hold their forward value. */
  ghost predicate FwdValues(X: seq<int>, S: seq<int>, i: int, held: seq<int>)
    requires |held| == |X| <= |S|
  {
    forall t :: 0 <= t < |X| ==>
      S[t] == if t < i then Complement(FwdValue(X, held[t])) else FwdValue(X, held[t])
  }

  /**
   * What the reads so far have induced: n-1 aside, every placed position
   * is the predecessor of a position held in a slot already read, and every
   * L-type position whose successor is held in a slot already read is placed.
   */
  ghost predicate FwdRead(X: seq<int>, i: int, held: seq<int>, slot: seq<int>, P: set<int>)
    requires |held| == |X| && |slot| == |X|
  {
    (forall p :: p in P ==> p == |X| - 1 || (0 <= p + 1 < |X| && 0 <= slot[p + 1] < i)) &&
    (forall p {:trigger p in P} :: 0 <= p && p + 1 < |X| && !SType(X, p) && 0 <= slot[p + 1] < i ==> p in P)
  }

  /** The state of the forward sweep of induce_SA after reading SA[0..i). */
  ghost predicate FwdInv(X: seq<int>, k: nat, S: seq<int>, cur: seq<int>, i: int, held: seq<int>, slot: seq<int>, P: set<int>)
  {
    InAlphabet(X, k) && |X| <= |S| && |cur| == k && 0 <= i <= |X| &&
    Inverse(|X|, held, slot) && SeedsHeld(X, k, held, slot) && LHeld(X, k, cur, held, slot, P) &&
    FwdValues(X, S, i, held) && FwdRead(X, i, held, slot, P)
  }

  /** The next slot of the bucket of an unplaced L-type position q is free and before the LMS tail. */
  lemma FwdRoom(X: seq<int>, k: nat, cur: seq<int>, held: seq<int>, slot: seq<int>, P: set<int>, q: int)
    requires InAlphabet(X, k) && |cur| == k && Inverse(|X|, held, slot)
    requires SeedsHeld(X, k, held, slot) && LHeld(X, k, cur, held, slot, P)
    requires 0 <= q < |X| && !SType(X, q) && q !in P
    ensures 0 <= BucketStart(X, k, X[q]) <= cur[X[q]] < |X|
    ensures held[cur[X[q]]] == -1
  {
    var c := X[q];
    SubsetCard(Of(X, P, c) + {q}, LSet(X, c));
    BucketSplit(X, k, c);
    BucketBounds(X, k, c);
    var b := cur[c];
    if held[b] != -1 {
      var p := held[b];
      var d := X[p];
      BucketBounds(X, k, d);
      if SType(X, p) {
        LmsFromMonotone(X, 0, p, d);
        BucketSplit(X, k, d);
        SameBucket(X, k, c, d, b);
      } else {
        assert slot[p] == b;
        SubsetCard(Of(X, P, d), LSet(X, d));
        BucketSplit(X, k, d);
        SameBucket(X, k, c, d, b);
      }
    }
  }

  /** A held seed or L-type position reads as positive exactly when its predecessor is L-type; it then reads as itself. */
  lemma FwdValueSign(X: seq<int>, p: int)
    requires 0 <= p < |X| && (Lms(X, p) || !SType(X, p))
    ensures FwdValue(X, p) > 0 <==> (0 < p && !SType(X, p - 1))
    ensures FwdValue(X, p) > 0 ==> FwdValue(X, p) == p
  {
    if !SType(X, p) {
      LeftValueSign(X, p);
    }
  }

  /** Holding the unplaced L-type position q at the cursor b of its bucket keeps the placed positions in the bucket heads. */
  lemma FwdPutHeads(X: seq<int>, k: nat, cur: seq<int>, held: seq<int>, slot: seq<int>, P: set<int>, q: int, b: int)
    requires InAlphabet(X, k) && |cur| == k && |held| == |X| && |slot| == |X| && LHeld(X, k, cur, held, slot, P)
    requires 0 <= q < |X| && !SType(X, q) && q !in P && b == cur[X[q]]
    requires 0 <= BucketStart(X, k, X[q]) <= b < |X| && held[b] == -1 && slot[q] == -1
    ensures LHeld(X, k, cur[X[q] := b + 1], held[b := q], slot[q := b], P + {q})
  {
    FwdPutPlaced(X, k, cur, slot, P, q, b);
    FwdPutCounts(X, k, cur, P, q, b);
    FwdPutContiguous(X, k, cur, held, q, b);
  }

  /** Placing q at b keeps every placed position an L-type one, slotted between its bucket start and cursor. */
  lemma FwdPutPlaced(X: seq<int>, k: nat, cur: seq<int>, slot: seq<int>, P: set<int>, q: int, b: int)
    requires InAlphabet(X, k) && |cur| == k && |slot| == |X| && LPlaced(X, k, cur, slot, P)
    requires 0 <= q < |X| && !SType(X, q) && q !in P && b == cur[X[q]]
    requires 0 <= BucketStart(X, k, X[q]) <= b < |X| && slot[q] == -1
    ensures LPlaced(X, k, cur[X[q] := b + 1], slot[q := b], P + {q})
  {
    var slot', cur', P' := slot[q := b], cur[X[q] := b + 1], P + {q};
    forall p | 0 <= p < |X| && !SType(X, p) ensures p in P' <==> slot'[p] != -1 {
    }
    forall p | 0 <= p < |X| && !SType(X, p) && slot'[p] != -1
      ensures BucketStart(X, k, X[p]) <= slot'[p] < cur'[X[p]]
    {
    }
  }

  /** Placing q at b advances the cursor of its bucket by one, in step with the placed positions of its character. */
  lemma FwdPutCounts(X: seq<int>, k: nat, cur: seq<int>, P: set<int>, q: int, b: int)
    requires InAlphabet(X, k) && |cur| == k && LCounts(X, k, cur, P)
    requires 0 <= q < |X| && q !in P && b == cur[X[q]]
    ensures LCounts(X, k, cur[X[q] := b + 1], P + {q})
  {
    forall d | 0 <= d < k ensures cur[X[q] := b + 1][d] == BucketStart(X, k, d) + |Of(X, P + {q}, d)| {
      OfAdd(X, P, q, d);
    }
  }

  /** Placing q at the cursor b keeps each bucket head, from its start to its cursor, filled with L-type positions of its character. */
  lemma FwdPutContiguous(X: seq<int>, k: nat, cur: seq<int>, held: seq<int>, q: int, b: int)
    requires InAlphabet(X, k) && |cur| == k && |held| == |X| && LHeads(X, k, cur, held)
    requires 0 <= q < |X| && !SType(X, q) && b == cur[X[q]] && 0 <= b < |X| && held[b] == -1
    ensures LHeads(X, k, cur[X[q] := b + 1], held[b := q])
  {
    var held', cur' := held[b := q], cur[X[q] := b + 1];
    forall d, t | 0 <= d < k && 0 <= t < |X| && BucketStart(X, k, d) <= t < cur'[d]
      ensures 0 <= held'[t] < |X| && X[held'[t]] == d && !SType(X, held'[t])
    {
      if t != b {
        assert BucketStart(X, k, d) <= t < cur[d];
      }
    }
  }

  /** Holding an L-type position keeps the seeds where they are. */
  lemma FwdPutSeeds(X: seq<int>, k: nat, held: seq<int>, slot: seq<int>, q: int, b: int)
    requires InAlphabet(X, k) && |held| == |X| && |slot| == |X| && SeedsHeld(X, k, held, slot)
    requires 0 <= q < |X| && !SType(X, q) && 0 <= b < |X|
    ensures SeedsHeld(X, k, held[b := q], slot[q := b])
  {
  }

  /** Writing LeftValue(q) to an unread slot b that now holds q keeps the forward values. */
  lemma FwdPutValues(X: seq<int>, S: seq<int>, i: int, held: seq<int>, q: int, b: int)
    requires |held| == |X| <= |S| && FwdValues(X, S, i, held)
    requires 0 <= q < |X| && !SType(X, q) && 0 <= b < |X| && i <= b
    ensures FwdValues(X, S[b := LeftValue(X, q)], i, held[b := q])
  {
    assert FwdValue(X, q) == LeftValue(X, q);
  }

  /**
   * Placing the unplaced L-type position q at the cursor b of its bucket,
   * a slot not read yet, keeps the forward state (all but what it induced).
   */
  lemma FwdPut(X: seq<int>, k: nat, S: seq<int>, cur: seq<int>, i: int, held: seq<int>, slot: seq<int>, P: set<int>, q: int, b: int)
    requires InAlphabet(X, k) && |X| <= |S| && |cur| == k && 0 <= i <= |X|
    requires Inverse(|X|, held, slot) && SeedsHeld(X, k, held, slot) && LHeld(X, k, cur, held, slot, P)
    requires FwdValues(X, S, i, held)
    requires 0 <= q < |X| && !SType(X, q) && q !in P && b == cur[X[q]] && i <= b
    ensures 0 <= b < |X| && held[b] == -1 && slot[q] == -1
    ensures Inverse(|X|, held[b := q], slot[q := b]) && SeedsHeld(X, k, held[b := q], slot[q := b])
    ensures LHeld(X, k, cur[X[q] := b + 1], held[b := q], slot[q := b], P + {q})
    ensures FwdValues(X, S[b := LeftValue(X, q)], i, held[b := q])
  {
    FwdRoom(X, k, cur, held, slot, P, q);
    InverseAdd(|X|, held, slot, b, q);
    FwdPutHeads(X, k, cur, held, slot, P, q, b);
    FwdPutSeeds(X, k, held, slot, q, b);
    FwdPutValues(X, S, i, held, q, b);
  }

  /**
   * Reading a positive entry j at slot i: j is the position held there, its
   * predecessor is an unplaced L-type position, and that one's cursor lies
   * beyond i.
   */
  lemma FwdAhead(X: seq<int>, k: nat, S: seq<int>, cur: seq<int>, i: int, held: seq<int>, slot: seq<int>, P: set<int>, q: int)
    requires FwdInv(X, k, S, cur, i, held, slot, P) && i < |X| && S[i] > 0 && q == S[i] - 1
    ensures 0 <= q && q + 1 < |X| && held[i] == q + 1 && slot[q + 1] == i && held[i] == S[i]
    ensures !SType(X, q) && q !in P && slot[q] == -1
    ensures i < cur[X[q]]
  {
    var p := held[i];
    assert S[i] == FwdValue(X, p);
    assert 0 <= p < |X|;
    FwdValueSign(X, p);
    assert p == q + 1;
    FwdAheadCursor(X, k, S, cur, i, held, slot, P, q);
  }

  /** The slot i being read lies before the cursor of the bucket of the L-type position q it induces. */
  lemma FwdAheadCursor(X: seq<int>, k: nat, S: seq<int>, cur: seq<int>, i: int, held: seq<int>, slot: seq<int>, P: set<int>, q: int)
    requires FwdInv(X, k, S, cur, i, held, slot, P) && 0 <= i < |X|
    requires 0 <= q && q + 1 < |X| && held[i] == q + 1 && slot[q + 1] == i && !SType(X, q)
    ensures i < cur[X[q]]
  {
    var p := q + 1;
    var c, c0 := X[p], X[q];
    BucketBounds(X, k, c);
    SubsetCard(Of(X, P, c), LSet(X, c));
    BucketSplit(X, k, c);
    assert BucketStart(X, k, c) <= i < BucketEnd(X, k, c);
    if c0 != c {
      assert c < c0;
      BucketsOrdered(X, k, c, c0);
    }
  }

  /** Reading slot i complements it. */
  lemma FwdValuesNext(X: seq<int>, S: seq<int>, i: int, held: seq<int>)
    requires |held| == |X| <= |S| && 0 <= i < |X| && FwdValues(X, S, i, held)
    ensures FwdValues(X, S[i := Complement(S[i])], i + 1, held)
  {
  }

  /** Reading a slot that induces nothing keeps what the reads have induced. */
  lemma FwdReadSkip(X: seq<int>, i: int, held: seq<int>, slot: seq<int>, P: set<int>)
    requires Inverse(|X|, held, slot) && 0 <= i < |X| && FwdRead(X, i, held, slot, P)
    requires !(0 < held[i] < |X| && !SType(X, held[i] - 1))
    ensures FwdRead(X, i + 1, held, slot, P)
  {
  }

  /** Reading slot i, which holds q+1, and placing q at a later slot b extends what the reads have induced. */
  lemma FwdReadPlace(X: seq<int>, i: int, held: seq<int>, slot: seq<int>, P: set<int>, q: int, b: int)
    requires Inverse(|X|, held, slot) && 0 <= i < |X| && FwdRead(X, i, held, slot, P)
    requires 0 <= q && q + 1 < |X| && held[i] == q + 1 && slot[q + 1] == i && slot[q] == -1
    requires i < b < |X|
    ensures FwdRead(X, i + 1, held[b := q], slot[q := b], P + {q})
  {
    var held', slot', P' := held[b := q], slot[q := b], P + {q};
    forall p | p in P' ensures p == |X| - 1 || (0 <= p + 1 < |X| && 0 <= slot'[p + 1] < i + 1) {
      if p != q && p != |X| - 1 {
        assert 0 <= slot[p + 1] < i;
      }
    }
    forall p | 0 <= p && p + 1 < |X| && !SType(X, p) && 0 <= slot'[p + 1] < i + 1 ensures p in P' {
      if p + 1 != q && slot[p + 1] == i {
        assert held[i] == p + 1;
      }
    }
  }

  /** Reading a non-positive entry only complements it. */
  lemma FwdSkip(X: seq<int>, k: nat, S: seq<int>, cur: seq<int>, i: int, held: seq<int>, slot: seq<int>, P: set<int>)
    requires FwdInv(X, k, S, cur, i, held, slot, P) && i < |X| && S[i] <= 0
    ensures FwdInv(X, k, S[i := Complement(S[i])], cur, i + 1, held, slot, P)
  {
    if 0 <= held[i] < |X| {
      FwdValueSign(X, held[i]);
    }
    FwdValuesNext(X, S, i, held);
    FwdReadSkip(X, i, held, slot, P);
  }

  /**
   * Reading a positive entry j at slot i complements it and places j-1 at
   * the cursor b of its bucket: the forward state moves on to slot i+1.
   */
  lemma FwdStep(X: seq<int>, k: nat, S: seq<int>, cur: seq<int>, i: int, held: seq<int>, slot: seq<int>, P: set<int>, q: int, b: int)
    requires FwdInv(X, k, S, cur, i, held, slot, P) && i < |X| && 0 < S[i] < |X|
    requires q == S[i] - 1 && b == cur[X[q]]
    ensures i < b < |X|
    ensures FwdInv(X, k, S[i := Complement(S[i])][b := LeftValue(X, q)], cur[X[q] := b + 1], i + 1,
                   held[b := q], slot[q := b], P + {q})
  {
    FwdAhead(X, k, S, cur, i, held, slot, P, q);
    FwdRoom(X, k, cur, held, slot, P, q);
    InverseAdd(|X|, held, slot, b, q);
    FwdPutHeads(X, k, cur, held, slot, P, q, b);
    FwdPutSeeds(X, k, held, slot, q, b);
    FwdValuesNext(X, S, i, held);
    FwdPutValues(X, S[i := Complement(S[i])], i + 1, held, q, b);
    FwdReadPlace(X, i, held, slot, P, q, b);
  }

  /** The seeds as the first forward state: slot t holds S[t] when it is not zero. */
  ghost function SeedHeld(X: seq<int>, S: seq<int>): (r: seq<int>)
    requires |X| <= |S|
    ensures |r| == |X|
  {
    seq(|X|, t requires 0 <= t < |X| => if S[t] == 0 then -1 else S[t])
  }

  /** A slot of s holding x. */
  ghost function IndexOf(s: seq<int>, x: int): (i: nat)
    requires x in s
    ensures i < |s| && s[i] == x
  {
    var i :| 0 <= i < |s| && s[i] == x; i
  }

  /** The slot holding each LMS position, and -1 for the other positions. */
  ghost function SeedSlot(X: seq<int>, k: nat, S: seq<int>): (r: seq<int>)
    requires InAlphabet(X, k) && |X| <= |S| && LmsSeeded(X, k, S)
    ensures |r| == |X|
    ensures forall p :: 0 <= p < |X| && Lms(X, p) ==> 0 <= r[p] < |X| && S[r[p]] == p
    ensures forall p :: 0 <= p < |X| && !Lms(X, p) ==> r[p] == -1
  {
    seq(|X|, p requires 0 <= p < |X| => if Lms(X, p) then IndexOf(S[..|X|], p) else -1)
  }

  /** The seeded array with the cursors at the bucket starts is a forward state with nothing placed. */
  lemma FwdStart(X: seq<int>, k: nat, S: seq<int>, B: seq<int>)
    requires InAlphabet(X, k) && |X| <= |S| && LmsSeeded(X, k, S)
    requires |B| == k && forall c :: 0 <= c < k ==> B[c] == BucketStart(X, k, c)
    ensures FwdInv(X, k, S, B, 0, SeedHeld(X, S), SeedSlot(X, k, S), {})
  {
    var held, slot := SeedHeld(X, S), SeedSlot(X, k, S);
    forall t | 0 <= t < |X| ensures held[t] == -1 || (0 <= held[t] < |X| && slot[held[t]] == t) {
      if held[t] != -1 {
        assert S[slot[S[t]]] == S[t];
      }
    }
    forall p | 0 <= p < |X| ensures slot[p] == -1 || (0 <= slot[p] < |X| && held[slot[p]] == p) {
    }
    forall c | 0 <= c < k ensures B[c] == BucketStart(X, k, c) + |Of(X, {}, c)| {
      assert Of(X, {}, c) == {};
    }
  }

  /** The first placement, n-1 at the start of its bucket, makes the first forward state of the loop. */
  lemma FwdInit(X: seq<int>, k: nat, S: seq<int>, B: seq<int>, q: int, b: int)
    requires InAlphabet(X, k) && 1 <= |X| <= |S| && LmsSeeded(X, k, S)
    requires |B| == k && forall c :: 0 <= c < k ==> B[c] == BucketStart(X, k, c)
    requires q == |X| - 1 && b == B[X[q]]
    ensures 0 <= b < |X|
    ensures FwdInv(X, k, S[b := LeftValue(X, q)], B[X[q] := b + 1], 0,
                   SeedHeld(X, S)[b := q], SeedSlot(X, k, S)[q := b], {q})
  {
    FwdStart(X, k, S, B);
    assert {} + {q} == {q};
    BucketBounds(X, k, X[q]);
    FwdPut(X, k, S, B, 0, SeedHeld(X, S), SeedSlot(X, k, S), {}, q, b);
  }

  /** Once every slot is read, every L-type position has been placed. */
  lemma {:induction false} FwdComplete(X: seq<int>, k: nat, cur: seq<int>, held: seq<int>, slot: seq<int>, P: set<int>, p: int)
    requires InAlphabet(X, k) && |cur| == k && Inverse(|X|, held, slot) && SeedsHeld(X, k, held, slot)
    requires LPlaced(X, k, cur, slot, P) && FwdRead(X, |X|, held, slot, P) && |X| - 1 in P
    requires 0 <= p < |X| && !SType(X, p)
    ensures p in P
    decreases |X| - p
  {
    if p < |X| - 1 {
      if SType(X, p + 1) {
        assert Lms(X, p + 1);
      } else {
        FwdComplete(X, k, cur, held, slot, P, p + 1);
      }
      assert 0 <= slot[p + 1] < |X|;
    }
  }

  /** The L-type part of a slot map: seeds and free slots hold nothing. */
  ghost function LOnly(X: seq<int>, held: seq<int>): (r: seq<int>)
    requires |held| == |X|
    ensures |r| == |X|
  {
    seq(|X|, t requires 0 <= t < |X| => if 0 <= held[t] < |X| && !SType(X, held[t]) then held[t] else -1)
  }

  /** The slots of the L-type positions; S-type positions have none. */
  ghost function LSlots(X: seq<int>, slot: seq<int>): (r: seq<int>)
    requires |slot| == |X|
    ensures |r| == |X|
  {
    seq(|X|, p requires 0 <= p < |X| => if SType(X, p) then -1 else slot[p])
  }

  /**
   * The state after the forward sweep, as the backward sweep needs it: the
   * L-type positions, and only they, are held, each in the L-type head of
   * its bucket, which they fill; a held slot reads as the complement of
   * the value placed there, and every other slot of SA[0..n) is negative.
   */
  ghost predicate FwdDone(X: seq<int>, k: nat, S: seq<int>, held: seq<int>, slot: seq<int>)
  {
    InAlphabet(X, k) && |X| <= |S| && Inverse(|X|, held, slot) &&
    LFilled(X, k, held, slot) && FwdLeft(X, S, held)
  }

  /** The L-type positions, and only they, are held, each in the L-type head of its bucket, which they fill. */
  ghost predicate LFilled(X: seq<int>, k: nat, held: seq<int>, slot: seq<int>)
    requires InAlphabet(X, k) && |held| == |X| && |slot| == |X|
  {
    (forall p {:trigger slot[p]} :: 0 <= p < |X| ==> (SType(X, p) <==> slot[p] == -1)) &&
    LFixed(X, k, held, slot)
  }

  /** The L-type positions sit in the L-type heads of their buckets, and fill them. */
  ghost predicate LFixed(X: seq<int>, k: nat, held: seq<int>, slot: seq<int>)
    requires InAlphabet(X, k) && |held| == |X| && |slot| == |X|
  {
    LSlotted(X, k, slot) && LFull(X, k, held)
  }

  /** Every L-type position has a slot in the L-type head of its bucket. */
  ghost predicate LSlotted(X: seq<int>, k: nat, slot: seq<int>)
    requires InAlphabet(X, k) && |slot| == |X|
  {
    forall p {:trigger slot[p]} :: 0 <= p < |X| && !SType(X, p) ==> BucketStart(X, k, X[p]) <= slot[p] < LEnd(X, k, X[p])
  }

  /** Every slot of an L-type head holds an L-type position of that bucket. */
  ghost predicate LFull(X: seq<int>, k: nat, held: seq<int>)
    requires InAlphabet(X, k) && |held| == |X|
  {
    forall c, t :: 0 <= c < k && 0 <= t < |X| && BucketStart(X, k, c) <= t < LEnd(X, k, c) ==>
      0 <= held[t] < |X| && X[held[t]] == c && !SType(X, held[t])
  }

  /** A held slot reads as the complement of the value placed there; every other slot is negative. */
  ghost predicate FwdLeft(X: seq<int>, S: seq<int>, held: seq<int>)
    requires |held| == |X| <= |S|
  {
    forall t :: 0 <= t < |X| ==>
      if 0 <= held[t] < |X| then S[t] == Complement(LeftValue(X, held[t])) else S[t] < 0
  }

  /** When every L-type position is placed, the placed positions of c are exactly its L-type positions. */
  lemma AllPlaced(X: seq<int>, k: nat, cur: seq<int>, slot: seq<int>, P: set<int>, c: int)
    requires InAlphabet(X, k) && |cur| == k && |slot| == |X| && LPlaced(X, k, cur, slot, P)
    requires forall p :: 0 <= p < |X| && !SType(X, p) ==> p in P
    ensures Of(X, P, c) == LSet(X, c)
  {
  }

  /** Once every slot is read, every cursor is at the end of the L-type head of its bucket. */
  lemma FwdCursors(X: seq<int>, k: nat, cur: seq<int>, held: seq<int>, slot: seq<int>, P: set<int>)
    requires InAlphabet(X, k) && |cur| == k && Inverse(|X|, held, slot) && SeedsHeld(X, k, held, slot)
    requires LPlaced(X, k, cur, slot, P) && LCounts(X, k, cur, P) && FwdRead(X, |X|, held, slot, P) && |X| - 1 in P
    ensures forall p :: 0 <= p < |X| && !SType(X, p) ==> p in P
    ensures forall c :: 0 <= c < k ==> cur[c] == LEnd(X, k, c)
  {
    forall p | 0 <= p < |X| && !SType(X, p) ensures p in P {
      FwdComplete(X, k, cur, held, slot, P, p);
    }
    forall c | 0 <= c < k ensures cur[c] == LEnd(X, k, c) {
      AllPlaced(X, k, cur, slot, P, c);
    }
  }

  /** Dropping the seeds keeps held and slot inverse. */
  lemma OnlyInverse(X: seq<int>, held: seq<int>, slot: seq<int>)
    requires Inverse(|X|, held, slot)
    ensures Inverse(|X|, LOnly(X, held), LSlots(X, slot))
  {
    var held', slot' := LOnly(X, held), LSlots(X, slot);
    forall t | 0 <= t < |X| ensures held'[t] == -1 || (0 <= held'[t] < |X| && slot'[held'[t]] == t) {
    }
    forall p | 0 <= p < |X| ensures slot'[p] == -1 || (0 <= slot'[p] < |X| && held'[slot'[p]] == p) {
    }
  }

  /** With every L-type position placed and the cursors at the head ends, the L-type positions fill the heads. */
  lemma OnlyFilled(X: seq<int>, k: nat, cur: seq<int>, held: seq<int>, slot: seq<int>, P: set<int>)
    requires InAlphabet(X, k) && |cur| == k && Inverse(|X|, held, slot)
    requires LPlaced(X, k, cur, slot, P) && LHeads(X, k, cur, held)
    requires forall p :: 0 <= p < |X| && !SType(X, p) ==> p in P
    requires forall c :: 0 <= c < k ==> cur[c] == LEnd(X, k, c)
    ensures LFilled(X, k, LOnly(X, held), LSlots(X, slot))
  {
    var held', slot' := LOnly(X, held), LSlots(X, slot);
    forall p | 0 <= p < |X| ensures SType(X, p) <==> slot'[p] == -1 {
      if !SType(X, p) {
        assert p in P;
      }
    }
    forall p | 0 <= p < |X| && !SType(X, p) ensures BucketStart(X, k, X[p]) <= slot'[p] < LEnd(X, k, X[p]) {
      assert p in P;
    }
    forall c, t | 0 <= c < k && 0 <= t < |X| && BucketStart(X, k, c) <= t < LEnd(X, k, c)
      ensures 0 <= held'[t] < |X| && X[held'[t]] == c && !SType(X, held'[t])
    {
      assert BucketStart(X, k, c) <= t < cur[c];
    }
  }

  /** Once every slot is read, a slot holding an L-type position reads as the complement of its LeftValue, any other is negative. */
  lemma OnlyLeft(X: seq<int>, S: seq<int>, held: seq<int>)
    requires |held| == |X| <= |S| && FwdValues(X, S, |X|, held)
    ensures FwdLeft(X, S, LOnly(X, held))
  {
    var held' := LOnly(X, held);
    forall t | 0 <= t < |X|
      ensures if 0 <= held'[t] < |X| then S[t] == Complement(LeftValue(X, held'[t])) else S[t] < 0
    {
      assert S[t] == Complement(FwdValue(X, held[t]));
    }
  }

  /** The forward sweep, run over every slot after placing n-1, ends in the state the backward sweep starts from. */
  lemma FwdFinish(X: seq<int>, k: nat, S: seq<int>, cur: seq<int>, held: seq<int>, slot: seq<int>, P: set<int>)
    requires FwdInv(X, k, S, cur, |X|, held, slot, P) && |X| - 1 in P
    ensures FwdDone(X, k, S, LOnly(X, held), LSlots(X, slot))
  {
    FwdCursors(X, k, cur, held, slot, P);
    OnlyInverse(X, held, slot);
    OnlyFilled(X, k, cur, held, slot, P);
    OnlyLeft(X, S, held);
  }

  // ---------------------------------------------------------------------
  // The backward sweep

  /**
   * The S-type positions placed so far, Q: each is held in the tail of its
   * bucket, the placed positions of c fill [cur[c], end) exactly, and no
   * other S-type position is held.
   */
  ghost predicate SHeld(X: seq<int>, k: nat, cur: seq<int>, held: seq<int>, slot: seq<int>, Q: set<int>)
    requires InAlphabet(X, k) && |cur| == k && |held| == |X| && |slot| == |X|
  {
    SPlaced(X, k, cur, slot, Q) && SCounts(X, k, cur, Q) && STails(X, k, cur, held)
  }

  /** Q holds S-type positions only, exactly those with a slot, each between its cursor and bucket end. */
  ghost predicate SPlaced(X: seq<int>, k: nat, cur: seq<int>, slot: seq<int>, Q: set<int>)
    requires InAlphabet(X, k) && |cur| == k && |slot| == |X|
  {
    (forall p {:trigger p in Q} :: p in Q ==> 0 <= p < |X| && SType(X, p)) &&
    (forall p {:trigger p in Q} :: 0 <= p < |X| && SType(X, p) ==> (p in Q <==> slot[p] != -1)) &&
    (forall p {:trigger slot[p]} :: 0 <= p < |X| && SType(X, p) && slot[p] != -1 ==>
      cur[X[p]] <= slot[p] < BucketEnd(X, k, X[p]))
  }

  /** The cursor of c lies before the placed positions of c. */
  ghost predicate SCounts(X: seq<int>, k: nat, cur: seq<int>, Q: set<int>)
    requires InAlphabet(X, k) && |cur| == k
  {
    forall c :: 0 <= c < k ==> cur[c] == BucketEnd(X, k, c) - |Of(X, Q, c)|
  }

  /** Every slot between a cursor and its bucket end holds an S-type position of that bucket. */
  ghost predicate STails(X: seq<int>, k: nat, cur: seq<int>, held: seq<int>)
    requires InAlphabet(X, k) && |cur| == k && |held| == |X|
  {
    forall c, t :: 0 <= c < k && 0 <= t < |X| && cur[c] <= t < BucketEnd(X, k, c) ==>
      0 <= held[t] < |X| && X[held[t]] == c && SType(X, held[t])
  }

  /** The value the backward sweep finds in a slot holding p before reading it. */
  ghost function BwdValue(X: seq<int>, p: int): int
  {
    if p < 0 || p >= |X| then 0 else if SType(X, p) then RightValue(X, p) else Complement(LeftValue(X, p))
  }

  /** The slots after i have been read and hold their position; the others hold their backward value, and a free one is negative. */
  ghost predicate BwdValues(X: seq<int>, S: seq<int>, i: int, held: seq<int>)
    requires |held| == |X| <= |S|
  {
    forall t :: 0 <= t < |X| ==>
      if t <= i then (if 0 <= held[t] < |X| then S[t] == BwdValue(X, held[t]) else S[t] < 0)
      else (if 0 <= held[t] < |X| then S[t] == held[t] else S[t] >= 0)
  }

  /**
   * What the reads so far have induced: every placed position is the
   * predecessor of a position held in a slot already read, and every S-type
   * position whose successor is held in a slot already read is placed.
   */
  ghost predicate BwdRead(X: seq<int>, i: int, held: seq<int>, slot: seq<int>, Q: set<int>)
    requires |held| == |X| && |slot| == |X|
  {
    (forall p {:trigger p in Q} :: p in Q ==> 0 <= p && p + 1 < |X| && i < slot[p + 1]) &&
    (forall p {:trigger p in Q} :: 0 <= p && p + 1 < |X| && SType(X, p) && i < slot[p + 1] ==> p in Q)
  }

  /** The state of the backward sweep of induce_SA after reading SA(i..n). */
  ghost predicate BwdInv(X: seq<int>, k: nat, S: seq<int>, cur: seq<int>, i: int, held: seq<int>, slot: seq<int>, Q: set<int>)
  {
    InAlphabet(X, k) && |X| <= |S| && |cur| == k && -1 <= i < |X| &&
    Inverse(|X|, held, slot) && LFixed(X, k, held, slot) && SHeld(X, k, cur, held, slot, Q) &&
    BwdValues(X, S, i, held) && BwdRead(X, i, held, slot, Q)
  }

  /** A held position reads as positive exactly when its predecessor is S-type; it then reads as itself, and otherwise as its complement. */
  lemma BwdValueSign(X: seq<int>, p: int)
    requires 0 <= p < |X|
    ensures BwdValue(X, p) > 0 <==> (0 < p && SType(X, p - 1))
    ensures BwdValue(X, p) > 0 ==> BwdValue(X, p) == p
    ensures BwdValue(X, p) <= 0 ==> BwdValue(X, p) == Complement(p)
  {
    if SType(X, p) {
      RightValueSign(X, p);
    }
  }

  /** The state after the forward sweep, with the cursors at the bucket ends, is a backward state with nothing placed. */
  lemma BwdStart(X: seq<int>, k: nat, S: seq<int>, E: seq<int>, held: seq<int>, slot: seq<int>)
    requires FwdDone(X, k, S, held, slot) && 1 <= |X|
    requires |E| == k && forall c :: 0 <= c < k ==> E[c] == BucketEnd(X, k, c)
    ensures BwdInv(X, k, S, E, |X| - 1, held, slot, {})
  {
    forall c | 0 <= c < k ensures E[c] == BucketEnd(X, k, c) - |Of(X, {}, c)| {
      assert Of(X, {}, c) == {};
    }
    forall t | 0 <= t < |X|
      ensures if 0 <= held[t] < |X| then S[t] == BwdValue(X, held[t]) else S[t] < 0
    {
    }
  }

  /** The slot below the cursor of the bucket of an unplaced S-type position q is free and after the L-type head. */
  lemma BwdRoom(X: seq<int>, k: nat, cur: seq<int>, held: seq<int>, slot: seq<int>, Q: set<int>, q: int)
    requires InAlphabet(X, k) && |cur| == k && Inverse(|X|, held, slot)
    requires LFixed(X, k, held, slot) && SHeld(X, k, cur, held, slot, Q)
    requires 0 <= q < |X| && SType(X, q) && q !in Q
    ensures 0 <= BucketStart(X, k, X[q]) <= LEnd(X, k, X[q]) <= cur[X[q]] - 1 < BucketEnd(X, k, X[q]) <= |X|
    ensures held[cur[X[q]] - 1] == -1
  {
    var c := X[q];
    SubsetCard(Of(X, Q, c) + {q}, SSet(X, c));
    BucketSplit(X, k, c);
    BucketBounds(X, k, c);
    var b := cur[c] - 1;
    if held[b] != -1 {
      var p := held[b];
      var d := X[p];
      BucketBounds(X, k, d);
      BucketSplit(X, k, d);
      assert slot[p] == b;
      if SType(X, p) {
        SubsetCard(Of(X, Q, d), SSet(X, d));
      }
      SameBucket(X, k, c, d, b);
    }
  }

  /**
   * Reading a positive entry j at slot i: j is the position held there, its
   * predecessor is an unplaced S-type position, and that one's cursor lies
   * at or before i.
   */
  lemma BwdAhead(X: seq<int>, k: nat, S: seq<int>, cur: seq<int>, i: int, held: seq<int>, slot: seq<int>, Q: set<int>, q: int)
    requires BwdInv(X, k, S, cur, i, held, slot, Q) && 0 <= i && S[i] > 0 && q == S[i] - 1
    ensures 0 <= q && q + 1 < |X| && held[i] == q + 1 && slot[q + 1] == i && held[i] == S[i]
    ensures SType(X, q) && q !in Q && slot[q] == -1
    ensures cur[X[q]] <= i
  {
    var p := held[i];
    assert 0 <= p < |X|;
    assert S[i] == BwdValue(X, p);
    BwdValueSign(X, p);
    assert p == q + 1;
    var c, c0 := X[p], X[q];
    BucketBounds(X, k, c);
    BucketSplit(X, k, c);
    if SType(X, p) {
      assert slot[p] == i;
      SubsetCard(Of(X, Q, c), SSet(X, c));
    }
    if c0 != c {
      assert c0 < c;
      BucketSplit(X, k, c0);
      SubsetCard(Of(X, Q, c0), SSet(X, c0));
      BucketsOrdered(X, k, c0, c);
    }
  }

  /** Placing the unplaced S-type position q at the slot b below the cursor of its bucket keeps the placement state. */
  lemma BwdPut(X: seq<int>, k: nat, cur: seq<int>, held: seq<int>, slot: seq<int>, Q: set<int>, q: int, b: int)
    requires InAlphabet(X, k) && |cur| == k && Inverse(|X|, held, slot)
    requires LFixed(X, k, held, slot) && SHeld(X, k, cur, held, slot, Q)
    requires 0 <= q < |X| && SType(X, q) && q !in Q && b == cur[X[q]] - 1
    ensures 0 <= b < |X| && held[b] == -1 && slot[q] == -1
    ensures Inverse(|X|, held[b := q], slot[q := b]) && LFixed(X, k, held[b := q], slot[q := b])
    ensures SHeld(X, k, cur[X[q] := b], held[b := q], slot[q := b], Q + {q})
  {
    BwdRoom(X, k, cur, held, slot, Q, q);
    InverseAdd(|X|, held, slot, b, q);
    BwdPutHeld(X, k, cur, held, slot, Q, q, b);
    BwdPutFixed(X, k, held, slot, q, b);
  }

  /** Holding the unplaced S-type position q at the slot b below the cursor of its bucket keeps the placed positions in the bucket tails. */
  lemma BwdPutHeld(X: seq<int>, k: nat, cur: seq<int>, held: seq<int>, slot: seq<int>, Q: set<int>, q: int, b: int)
    requires InAlphabet(X, k) && |cur| == k && |held| == |X| && |slot| == |X| && SHeld(X, k, cur, held, slot, Q)
    requires 0 <= q < |X| && SType(X, q) && q !in Q && b == cur[X[q]] - 1
    requires 0 <= b < |X| && b < BucketEnd(X, k, X[q]) && held[b] == -1 && slot[q] == -1
    ensures SHeld(X, k, cur[X[q] := b], held[b := q], slot[q := b], Q + {q})
  {
    BwdPutPlaced(X, k, cur, slot, Q, q, b);
    BwdPutCounts(X, k, cur, Q, q, b);
    BwdPutTails(X, k, cur, held, q, b);
  }

  /** Placing q at b keeps every placed position an S-type one, slotted between its cursor and its bucket end. */
  lemma BwdPutPlaced(X: seq<int>, k: nat, cur: seq<int>, slot: seq<int>, Q: set<int>, q: int, b: int)
    requires InAlphabet(X, k) && |cur| == k && |slot| == |X| && SPlaced(X, k, cur, slot, Q)
    requires 0 <= q < |X| && SType(X, q) && q !in Q && b == cur[X[q]] - 1
    requires 0 <= b < |X| && b < BucketEnd(X, k, X[q]) && slot[q] == -1
    ensures SPlaced(X, k, cur[X[q] := b], slot[q := b], Q + {q})
  {
    var slot', cur', Q' := slot[q := b], cur[X[q] := b], Q + {q};
    forall p | 0 <= p < |X| && SType(X, p) ensures p in Q' <==> slot'[p] != -1 {
    }
    forall p | 0 <= p < |X| && SType(X, p) && slot'[p] != -1
      ensures cur'[X[p]] <= slot'[p] < BucketEnd(X, k, X[p])
    {
    }
  }

  /** Placing q at b moves the cursor of its bucket down by one, in step with the placed positions of its character. */
  lemma BwdPutCounts(X: seq<int>, k: nat, cur: seq<int>, Q: set<int>, q: int, b: int)
    requires InAlphabet(X, k) && |cur| == k && SCounts(X, k, cur, Q)
    requires 0 <= q < |X| && q !in Q && b == cur[X[q]] - 1
    ensures SCounts(X, k, cur[X[q] := b], Q + {q})
  {
    forall d | 0 <= d < k ensures cur[X[q] := b][d] == BucketEnd(X, k, d) - |Of(X, Q + {q}, d)| {
      OfAdd(X, Q, q, d);
    }
  }

  /** Placing q at b keeps each bucket tail, from its cursor to its end, filled with S-type positions of its character. */
  lemma BwdPutTails(X: seq<int>, k: nat, cur: seq<int>, held: seq<int>, q: int, b: int)
    requires InAlphabet(X, k) && |cur| == k && |held| == |X| && STails(X, k, cur, held)
    requires 0 <= q < |X| && SType(X, q) && b == cur[X[q]] - 1 && 0 <= b < |X| && held[b] == -1
    ensures STails(X, k, cur[X[q] := b], held[b := q])
  {
    var held', cur' := held[b := q], cur[X[q] := b];
    forall d, t | 0 <= d < k && 0 <= t < |X| && cur'[d] <= t < BucketEnd(X, k, d)
      ensures 0 <= held'[t] < |X| && X[held'[t]] == d && SType(X, held'[t])
    {
      if t != b {
        assert cur[d] <= t < BucketEnd(X, k, d);
      }
    }
  }

  /** Holding an S-type position past the L-type head of its bucket keeps the L-type positions where they are. */
  lemma BwdPutFixed(X: seq<int>, k: nat, held: seq<int>, slot: seq<int>, q: int, b: int)
    requires InAlphabet(X, k) && |held| == |X| && |slot| == |X| && LFixed(X, k, held, slot)
    requires 0 <= q < |X| && SType(X, q) && 0 <= b < |X| && LEnd(X, k, X[q]) <= b < BucketEnd(X, k, X[q])
    ensures LFixed(X, k, held[b := q], slot[q := b])
  {
    var held' := held[b := q];
    forall c, t | 0 <= c < k && 0 <= t < |X| && BucketStart(X, k, c) <= t < LEnd(X, k, c)
      ensures 0 <= held'[t] < |X| && X[held'[t]] == c && !SType(X, held'[t])
    {
      if t == b {
        BucketSplit(X, k, c);
        BucketSplit(X, k, X[q]);
        SameBucket(X, k, c, X[q], t);
      }
    }
  }

  /** Writing RightValue(q) to a slot b not read yet that now holds q keeps the backward values. */
  lemma BwdPutValues(X: seq<int>, S: seq<int>, i: int, held: seq<int>, q: int, b: int)
    requires |held| == |X| <= |S| && BwdValues(X, S, i, held)
    requires 0 <= q < |X| && SType(X, q) && 0 <= b <= i && b < |X|
    ensures BwdValues(X, S[b := RightValue(X, q)], i, held[b := q])
  {
    assert BwdValue(X, q) == RightValue(X, q);
  }

  /** Reading a positive entry leaves it as it is: it already holds its position. */
  lemma BwdValuesKeep(X: seq<int>, S: seq<int>, i: int, held: seq<int>)
    requires |held| == |X| <= |S| && 0 <= i < |X| && BwdValues(X, S, i, held)
    requires 0 <= held[i] < |X| && S[i] == held[i]
    ensures BwdValues(X, S, i - 1, held)
  {
  }

  /** Reading a positive entry that holds its position and placing S-type q at an earlier slot b keeps the backward values. */
  lemma BwdStepValues(X: seq<int>, S: seq<int>, i: int, held: seq<int>, q: int, b: int)
    requires |held| == |X| <= |S| && 0 <= i < |X| && BwdValues(X, S, i, held)
    requires 0 <= held[i] < |X| && S[i] == held[i]
    requires 0 <= q < |X| && SType(X, q) && 0 <= b < i
    ensures BwdValues(X, S[b := RightValue(X, q)], i - 1, held[b := q])
  {
    BwdValuesKeep(X, S, i, held);
    BwdPutValues(X, S, i - 1, held, q, b);
  }

  /** Reading a non-positive entry complements it back. */
  lemma BwdValuesFlip(X: seq<int>, S: seq<int>, i: int, held: seq<int>)
    requires |held| == |X| <= |S| && 0 <= i < |X| && BwdValues(X, S, i, held) && S[i] <= 0
    ensures BwdValues(X, S[i := Complement(S[i])], i - 1, held)
  {
    if 0 <= held[i] < |X| {
      BwdValueSign(X, held[i]);
    }
  }

  /** Reading a slot that induces nothing keeps what the reads have induced. */
  lemma BwdReadSkip(X: seq<int>, i: int, held: seq<int>, slot: seq<int>, Q: set<int>)
    requires Inverse(|X|, held, slot) && 0 <= i < |X| && BwdRead(X, i, held, slot, Q)
    requires !(0 < held[i] < |X| && SType(X, held[i] - 1))
    ensures BwdRead(X, i - 1, held, slot, Q)
  {
  }

  /** Reading slot i, which holds q+1, and placing q at an earlier slot b extends what the reads have induced. */
  lemma BwdReadPlace(X: seq<int>, i: int, held: seq<int>, slot: seq<int>, Q: set<int>, q: int, b: int)
    requires Inverse(|X|, held, slot) && 0 <= i < |X| && BwdRead(X, i, held, slot, Q)
    requires 0 <= q && q + 1 < |X| && held[i] == q + 1 && slot[q + 1] == i && slot[q] == -1
    requires 0 <= b < i
    ensures BwdRead(X, i - 1, held[b := q], slot[q := b], Q + {q})
  {
    var held', slot', Q' := held[b := q], slot[q := b], Q + {q};
    forall p | p in Q' ensures 0 <= p && p + 1 < |X| && i - 1 < slot'[p + 1] {
      if p != q {
        assert i < slot[p + 1];
      }
    }
    forall p | 0 <= p && p + 1 < |X| && SType(X, p) && i - 1 < slot'[p + 1] ensures p in Q' {
      if p + 1 != q && slot[p + 1] == i {
        assert held[i] == p + 1;
      }
    }
  }

  /** Reading a non-positive entry only complements it. */
  lemma BwdSkip(X: seq<int>, k: nat, S: seq<int>, cur: seq<int>, i: int, held: seq<int>, slot: seq<int>, Q: set<int>)
    requires BwdInv(X, k, S, cur, i, held, slot, Q) && 0 <= i && S[i] <= 0
    ensures BwdInv(X, k, S[i := Complement(S[i])], cur, i - 1, held, slot, Q)
  {
    if 0 <= held[i] < |X| {
      BwdValueSign(X, held[i]);
    }
    BwdValuesFlip(X, S, i, held);
    BwdReadSkip(X, i, held, slot, Q);
  }

  /**
   * Reading a positive entry j at slot i leaves it and places j-1 at the
   * slot b below the cursor of its bucket: the backward state moves on to
   * slot i-1.
   */
  lemma BwdStep(X: seq<int>, k: nat, S: seq<int>, cur: seq<int>, i: int, held: seq<int>, slot: seq<int>, Q: set<int>, q: int, b: int)
    requires BwdInv(X, k, S, cur, i, held, slot, Q) && 0 <= i && 0 < S[i] < |X|
    requires q == S[i] - 1 && b == cur[X[q]] - 1
    ensures 0 <= b < i
    ensures BwdInv(X, k, S[b := RightValue(X, q)], cur[X[q] := b], i - 1, held[b := q], slot[q := b], Q + {q})
  {
    BwdAhead(X, k, S, cur, i, held, slot, Q, q);
    BwdPut(X, k, cur, held, slot, Q, q, b);
    assert 0 <= b < i;
    BwdReadPlace(X, i, held, slot, Q, q, b);
    BwdStepValues(X, S, i, held, q, b);
  }

  /** Once every slot is read, every S-type position has been placed. */
  lemma {:induction false} BwdComplete(X: seq<int>, k: nat, cur: seq<int>, held: seq<int>, slot: seq<int>, Q: set<int>, p: int)
    requires InAlphabet(X, k) && |cur| == k && Inverse(|X|, held, slot) && LFixed(X, k, held, slot)
    requires SPlaced(X, k, cur, slot, Q) && BwdRead(X, -1, held, slot, Q)
    requires 0 <= p < |X| && SType(X, p)
    ensures p in Q
    decreases |X| - p
  {
    if SType(X, p + 1) {
      BwdComplete(X, k, cur, held, slot, Q, p + 1);
    } else {
      BucketBounds(X, k, X[p + 1]);
    }
    assert 0 <= slot[p + 1] < |X|;
  }

  /** Every slot of SA[0..n) lies in the bucket of some character c >= c0. */
  lemma {:induction false} BucketOf(X: seq<int>, k: nat, t: int, c0: nat) returns (c: nat)
    requires InAlphabet(X, k) && 0 <= t < |X| && c0 < k && BucketStart(X, k, c0) <= t
    ensures c0 <= c < k && BucketStart(X, k, c) <= t < BucketEnd(X, k, c)
    decreases k - c0
  {
    if t < BucketEnd(X, k, c0) {
      c := c0;
    } else {
      CountsTotal(X, k);
      assert c0 + 1 < k;
      c := BucketOf(X, k, t, c0 + 1);
    }
  }

  /**
   * The outcome of both sweeps of induce_SA: SA[0..n) is a permutation of
   * the positions [0, n), each in the bucket of its character, with the
   * L-type positions of each bucket before its S-type ones.
   */
  ghost predicate Induced(X: seq<int>, k: nat, S: seq<int>)
    requires InAlphabet(X, k) && |X| <= |S|
  {
    (forall t :: 0 <= t < |X| ==>
      0 <= S[t] < |X| && BucketStart(X, k, X[S[t]]) <= t < BucketEnd(X, k, X[S[t]]) &&
      (SType(X, S[t]) <==> LEnd(X, k, X[S[t]]) <= t)) &&
    (forall t, u :: 0 <= t < u < |X| ==> S[t] != S[u]) &&
    (forall p :: 0 <= p < |X| ==> p in S[..|X|])
  }

  /** Once every slot is read, every S-type position is placed and every cursor is at the end of the L-type head of its bucket. */
  lemma BwdCursors(X: seq<int>, k: nat, cur: seq<int>, held: seq<int>, slot: seq<int>, Q: set<int>)
    requires InAlphabet(X, k) && |cur| == k && Inverse(|X|, held, slot) && LFixed(X, k, held, slot)
    requires SPlaced(X, k, cur, slot, Q) && SCounts(X, k, cur, Q) && BwdRead(X, -1, held, slot, Q)
    ensures forall p :: 0 <= p < |X| && SType(X, p) ==> p in Q
    ensures forall c :: 0 <= c < k ==> cur[c] == LEnd(X, k, c)
  {
    forall p | 0 <= p < |X| && SType(X, p) ensures p in Q {
      BwdComplete(X, k, cur, held, slot, Q, p);
    }
    forall c | 0 <= c < k ensures cur[c] == LEnd(X, k, c) {
      assert Of(X, Q, c) == SSet(X, c);
      BucketSplit(X, k, c);
    }
  }

  /** With the cursors at the head ends, every slot holds an L-type position in the head or an S-type one in the tail of its bucket. */
  lemma BwdFull(X: seq<int>, k: nat, cur: seq<int>, held: seq<int>, t: int)
    requires InAlphabet(X, k) && |cur| == k && |held| == |X| && 0 <= t < |X|
    requires LFull(X, k, held) && STails(X, k, cur, held)
    requires forall c :: 0 <= c < k ==> cur[c] == LEnd(X, k, c)
    ensures 0 <= held[t] < |X| && BucketStart(X, k, X[held[t]]) <= t < BucketEnd(X, k, X[held[t]])
    ensures SType(X, held[t]) <==> LEnd(X, k, X[held[t]]) <= t
  {
    assert 0 <= X[t] < k;
    var c := BucketOf(X, k, t, 0);
    BucketSplit(X, k, c);
  }

  /** Each read slot holds its position, so SA[0..n) lists the held positions without repeats, and every position is held. */
  lemma BwdHeldAll(X: seq<int>, k: nat, S: seq<int>, held: seq<int>, slot: seq<int>, Q: set<int>)
    requires InAlphabet(X, k) && |X| <= |S| && Inverse(|X|, held, slot) && LSlotted(X, k, slot)
    requires forall t :: 0 <= t < |X| ==> 0 <= held[t] < |X| && S[t] == held[t]
    requires forall p {:trigger p in Q} :: 0 <= p < |X| && SType(X, p) ==> p in Q && slot[p] != -1
    ensures forall t, u :: 0 <= t < u < |X| ==> S[t] != S[u]
    ensures forall p :: 0 <= p < |X| ==> p in S[..|X|]
  {
    forall t, u | 0 <= t < u < |X| ensures S[t] != S[u] {
      assert slot[held[t]] == t && slot[held[u]] == u;
    }
    forall p | 0 <= p < |X| ensures p in S[..|X|] {
      if SType(X, p) {
        assert p in Q;
      } else {
        BucketBounds(X, k, X[p]);
      }
      var t := slot[p];
      assert 0 <= t < |X| && held[t] == p;
      assert S[..|X|][t] == p;
    }
  }

  /** The backward sweep, run over every slot, leaves SA[0..n) induced. */
  lemma BwdFinish(X: seq<int>, k: nat, S: seq<int>, cur: seq<int>, held: seq<int>, slot: seq<int>, Q: set<int>)
    requires BwdInv(X, k, S, cur, -1, held, slot, Q)
    ensures Induced(X, k, S)
  {
    BwdCursors(X, k, cur, held, slot, Q);
    forall t | 0 <= t < |X|
      ensures 0 <= held[t] < |X| && S[t] == held[t]
      ensures BucketStart(X, k, X[S[t]]) <= t < BucketEnd(X, k, X[S[t]])
      ensures SType(X, S[t]) <==> LEnd(X, k, X[S[t]]) <= t
    {
      BwdFull(X, k, cur, held, t);
    }
    BwdHeldAll(X, k, S, held, slot, Q);
  }
}
