/**
 * The recursive induced-sorting engine of src/sais.cpp (Yuta Mori's SA-IS,
 * include/sais.hpp). The engine reads the text X = T[T_base+1..T_base+n]
 * and works in place on the signed array SA, whose first n + fs slots it
 * may use. A step that the source would take outside the array (a cursor
 * or a position the algorithm's own invariants keep in range, but that
 * this model does not prove in range) stops the model with ok == false.
 */
module Sais {
  import opened SaisText
  import opened SaisInduce
  import opened SaisOrder

  /** The loops that zero SA[lo..hi) (src/sais.cpp:164-165, 223-224, 339-340). */
  method ClearRange(SA: array<int>, lo: nat, hi: nat)
    requires lo <= hi <= SA.Length
    modifies SA
    ensures forall t :: 0 <= t < SA.Length ==> SA[t] == if lo <= t < hi then 0 else old(SA[t])
  {
    var i := lo;
    while i < hi
      invariant lo <= i <= hi
      invariant forall t :: 0 <= t < SA.Length ==> SA[t] == if lo <= t < i then 0 else old(SA[t])
    {
      SA[i] := 0;
      i := i + 1;
    }
  }

  /**
   * `get_counts`: C[C_base + c] becomes the number of occurrences of c in
   * the text, for every c < k; nothing else in C changes.
   */
  method GetCounts(X: seq<int>, C: array<int>, cbase: nat, k: nat)
    requires InAlphabet(X, k) && cbase + k <= C.Length
    modifies C
    ensures forall t :: cbase <= t < cbase + k ==> C[t] == Counts(X, k)[t - cbase]
    ensures forall t :: 0 <= t < C.Length && !(cbase <= t < cbase + k) ==> C[t] == old(C[t])
  {
    var i := 0;
    while i < k
      invariant 0 <= i <= k
      invariant forall t :: cbase <= t < cbase + i ==> C[t] == 0
      invariant forall t :: 0 <= t < C.Length && !(cbase <= t < cbase + i) ==> C[t] == old(C[t])
    {
      C[cbase + i] := 0;
      i := i + 1;
    }
    i := 0;
    while i < |X|
      invariant 0 <= i <= |X|
      invariant forall t :: cbase <= t < cbase + k ==> C[t] == multiset(X[..i])[t - cbase]
      invariant forall t :: 0 <= t < C.Length && !(cbase <= t < cbase + k) ==> C[t] == old(C[t])
    {
      var idx := X[i];
      C[cbase + idx] := C[cbase + idx] + 1;
      assert X[..i + 1] == X[..i] + [X[i]];
      i := i + 1;
    }
    assert X[..|X|] == X;
  }

  /**
   * `get_buckets`: B[B_base + c] becomes the inclusive (end) or exclusive
   * prefix sum of the counts C[C_base..C_base+k). C and B share one array and
   * either coincide or do not overlap; when they coincide, the sums still
   * use the counts as they were on entry.
   */
  method GetBuckets(CB: array<int>, cbase: nat, bbase: nat, k: nat, end: bool)
    requires cbase + k <= CB.Length && bbase + k <= CB.Length
    requires cbase == bbase || cbase + k <= bbase || bbase + k <= cbase
    modifies CB
    ensures forall t :: bbase <= t < bbase + k ==>
      CB[t] == Sum(old(CB[cbase..cbase + k]), if end then t - bbase + 1 else t - bbase)
    ensures forall t :: 0 <= t < CB.Length && !(bbase <= t < bbase + k) ==> CB[t] == old(CB[t])
  {
    ghost var C0 := CB[cbase..cbase + k];
    var sum := 0;
    var i := 0;
    while i < k
      invariant 0 <= i <= k
      invariant sum == Sum(C0, i)
      invariant forall t :: bbase <= t < bbase + i ==> CB[t] == Sum(C0, if end then t - bbase + 1 else t - bbase)
      invariant forall t :: cbase + i <= t < cbase + k ==> CB[t] == C0[t - cbase]
      invariant forall t :: 0 <= t < CB.Length && !(bbase <= t < bbase + i) ==> CB[t] == old(CB[t])
    {
      var val := CB[cbase + i];
      sum := sum + val;
      CB[bbase + i] := if end then sum else sum - val;
      i := i + 1;
    }
  }

  /**
   * The bucket ends of the text in B[B_base..B_base+k): `get_counts`
   * followed by `get_buckets(..., true)` (src/sais.cpp:161-162, 336-337).
   */
  method BucketEnds(X: seq<int>, CB: array<int>, cbase: nat, bbase: nat, k: nat)
    requires InAlphabet(X, k) && cbase + k <= CB.Length && bbase + k <= CB.Length
    requires cbase == bbase || cbase + k <= bbase || bbase + k <= cbase
    modifies CB
    ensures forall c :: 0 <= c < k ==> CB[bbase..bbase + k][c] == BucketEnd(X, k, c)
    ensures cbase != bbase ==> CB[cbase..cbase + k] == Counts(X, k)
  {
    GetCounts(X, CB, cbase, k);
    assert CB[cbase..cbase + k] == Counts(X, k);
    GetBuckets(CB, cbase, bbase, k, true);
    if cbase != bbase {
      assert CB[cbase..cbase + k] == Counts(X, k);
    }
  }

  /** The bucket cursors while seeding: each bucket end, less the LMS positions of its character at or after lo. */
  ghost predicate Cursors(X: seq<int>, k: nat, B: seq<int>, lo: nat)
  {
    |B| == k &&
    forall c :: 0 <= c < k ==> B[c] == BucketEnd(X, k, c) - LmsFrom(X, lo, c)
  }

  /** Seeding the LMS position lo-1 into its slot extends the seeding state to lo-1. */
  lemma SeedPlace(X: seq<int>, k: nat, S: seq<int>, lo: nat)
    requires InAlphabet(X, k) && |X| <= |S| && 1 <= lo <= |X| && Lms(X, lo - 1)
    requires Seeded(X, k, S, lo)
    ensures Seeded(X, k, S[Slot(X, k, lo - 1) := lo - 1], lo - 1)
  {
    var p := lo - 1;
    var s := Slot(X, k, p);
    var S' := S[s := p];
    forall q | lo - 1 <= q < |X| ensures SeededAt(X, k, S', q) {
      if q != p && Lms(X, q) {
        assert SeededAt(X, k, S, q);
        SlotsDistinct(X, k, p, q);
      }
    }
    forall t | 0 <= t < |X| && S'[t] != 0
      ensures lo - 1 <= S'[t] < |X| && Lms(X, S'[t]) && Slot(X, k, S'[t]) == t
    {
    }
  }

  /** A position that is not LMS extends the seeding state unchanged. */
  lemma SeedSkip(X: seq<int>, k: nat, S: seq<int>, lo: nat)
    requires InAlphabet(X, k) && |X| <= |S| && 1 <= lo && !Lms(X, lo - 1)
    requires Seeded(X, k, S, lo)
    ensures Seeded(X, k, S, lo - 1)
  {
    assert SeededAt(X, k, S, lo - 1);
  }

  /** A position that is not LMS leaves the cursors where they are. */
  lemma CursorSkip(X: seq<int>, k: nat, B: seq<int>, lo: nat)
    requires 1 <= lo && !Lms(X, lo - 1)
    requires Cursors(X, k, B, lo)
    ensures Cursors(X, k, B, lo - 1)
  {
    forall c | 0 <= c < k ensures LmsFrom(X, lo - 1, c) == LmsFrom(X, lo, c) {
    }
  }

  /** Seeding moves its bucket cursor down by one: the new cursor is the slot of lo-1. */
  lemma CursorPlace(X: seq<int>, k: nat, B: seq<int>, lo: nat)
    requires InAlphabet(X, k) && 1 <= lo <= |X| && Lms(X, lo - 1)
    requires Cursors(X, k, B, lo)
    ensures B[X[lo - 1]] - 1 == Slot(X, k, lo - 1)
    ensures Cursors(X, k, B[X[lo - 1] := B[X[lo - 1]] - 1], lo - 1)
  {
  }

  /** The classification step of the right-to-left scans, with the carried flag c of i+1. */
  lemma TypeStep(X: seq<int>, i: nat, c: int)
    requires i + 1 < |X| && c == (if SType(X, i + 1) then 1 else 0)
    ensures SType(X, i) <==> X[i] < X[i + 1] + c
    ensures Lms(X, i + 1) <==> (c != 0 && !(X[i] < X[i + 1] + c))
  {
  }

  /**
   * The seeding scan (src/sais.cpp:167-184): from right to left, each LMS
   * position i+1 is written at --B[X[i+1]]. Afterwards every LMS position
   * sits in its slot at the tail of its bucket, every other slot of SA[0..n)
   * is still zero, and each cursor has moved down by the LMS positions of
   * its character.
   */
  method SeedLms(X: seq<int>, SA: array<int>, CB: array<int>, bbase: nat, k: nat)
    requires InAlphabet(X, k) && 1 <= |X| <= SA.Length && bbase + k <= CB.Length && SA != CB
    requires forall t :: 0 <= t < |X| ==> SA[t] == 0
    requires forall c :: 0 <= c < k ==> CB[bbase..bbase + k][c] == BucketEnd(X, k, c)
    modifies SA, CB
    ensures Seeded(X, k, SA[..], 0)
    ensures Cursors(X, k, CB[bbase..bbase + k], 0)
    ensures forall t :: |X| <= t < SA.Length ==> SA[t] == old(SA[t])
    ensures forall t :: 0 <= t < CB.Length && !(bbase <= t < bbase + k) ==> CB[t] == old(CB[t])
  {
    var n := |X|;
    var c := 0;
    var c1 := X[n - 1];
    var i := n - 2;
    while 0 <= i
      invariant -1 <= i <= n - 2
      invariant c1 == X[i + 1] && c == (if SType(X, i + 1) then 1 else 0)
      invariant Seeded(X, k, SA[..], i + 2)
      invariant Cursors(X, k, CB[bbase..bbase + k], i + 2)
      invariant forall t :: n <= t < SA.Length ==> SA[t] == old(SA[t])
      invariant forall t :: 0 <= t < CB.Length && !(bbase <= t < bbase + k) ==> CB[t] == old(CB[t])
    {
      var c0 := X[i];
      TypeStep(X, i, c);
      ghost var lo := i + 2;
      if !Lms(X, i + 1) {
        SeedSkip(X, k, SA[..], lo);
        CursorSkip(X, k, CB[bbase..bbase + k], lo);
      }
      if c0 < c1 + c {
        c := 1;
      } else if c != 0 {
        ghost var B0 := CB[bbase..bbase + k];
        CursorPlace(X, k, B0, lo);
        SeedPlace(X, k, SA[..], lo);
        var index := CB[bbase + c1] - 1;
        CB[bbase + c1] := index;
        assert CB[bbase..bbase + k] == B0[c1 := index];
        SA[index] := i + 1;
        c := 0;
      }
      c1 := c0;
      i := i - 1;
    }
  }

  /**
   * `induce_SA` (src/sais.cpp:45-125). The forward sweep starts from the
   * bucket starts, puts n-1 first, then reads every slot left to right,
   * complements it and, for a positive entry j, places j-1 at the advancing
   * cursor of its bucket (complemented when its own predecessor is smaller).
   * The backward sweep starts from the bucket ends, reads every slot right to
   * left and places j-1, for a positive entry j, at the retreating cursor of
   * its bucket (complemented when it is position 0 or its predecessor is
   * larger); a non-positive entry is complemented back. The buckets are
   * recounted first when C and B share their slots. ok == false when a
   * cursor or a position leaves [0, n).
   */
  method InduceSA(X: seq<int>, SA: array<int>, CB: array<int>, cbase: nat, bbase: nat, k: nat) returns (ok: bool)
    requires InAlphabet(X, k) && 1 <= |X| <= SA.Length && SA != CB
    requires cbase + k <= CB.Length && bbase + k <= CB.Length
    requires cbase == bbase || cbase + k <= bbase || bbase + k <= cbase
    modifies SA, CB
    ensures forall t :: |X| <= t < SA.Length ==> SA[t] == old(SA[t])
    ensures LmsSeeded(X, k, old(SA[..])) && (cbase == bbase || old(CB[cbase..cbase + k]) == Counts(X, k)) ==>
      ok && Induced(X, k, SA[..])
  {
    ghost var good := LmsSeeded(X, k, SA[..]) && (cbase == bbase || CB[cbase..cbase + k] == Counts(X, k));
    ghost var S0 := SA[..];
    Rebucket(X, CB, cbase, bbase, k, false);
    if good {
      assert SA[..] == S0;
      assert FwdReady(X, k, SA[..], CB[bbase..bbase + k]);
    }
    ghost var held, slot;
    ok, held, slot := ForwardSweep(X, SA, CB, bbase, k);
    if !ok {
      return;
    }
    ghost var C1 := CB[cbase..cbase + k];
    if cbase != bbase {
      assert CB[cbase..cbase + k] == C1;
    }
    Rebucket(X, CB, cbase, bbase, k, true);
    if good {
      assert BwdReady(X, k, SA[..], CB[bbase..bbase + k], held, slot);
    }
    ok := BackwardSweep(X, SA, CB, bbase, k, held, slot);
  }

  /**
   * The bucket set-up before each sweep of `induce_SA` (src/sais.cpp:54-59,
   * 92-97): recount when C and B share their slots, then take the prefix
   * sums. When the counts are in C (always, once recounted), B holds the
   * bucket starts or ends and C still holds the counts; nothing outside C
   * and B changes.
   */
  method Rebucket(X: seq<int>, CB: array<int>, cbase: nat, bbase: nat, k: nat, end: bool)
    requires InAlphabet(X, k) && cbase + k <= CB.Length && bbase + k <= CB.Length
    requires cbase == bbase || cbase + k <= bbase || bbase + k <= cbase
    modifies CB
    ensures cbase == bbase || old(CB[cbase..cbase + k]) == Counts(X, k) ==>
      (forall c :: 0 <= c < k ==> CB[bbase..bbase + k][c] == if end then BucketEnd(X, k, c) else BucketStart(X, k, c)) &&
      (cbase != bbase ==> CB[cbase..cbase + k] == Counts(X, k))
    ensures forall t :: 0 <= t < CB.Length && !(cbase <= t < cbase + k) && !(bbase <= t < bbase + k) ==> CB[t] == old(CB[t])
  {
    if cbase == bbase {
      GetCounts(X, CB, cbase, k);
      assert CB[cbase..cbase + k] == Counts(X, k);
    }
    ghost var C0 := CB[cbase..cbase + k];
    GetBuckets(CB, cbase, bbase, k, end);
    if cbase != bbase {
      assert CB[cbase..cbase + k] == C0;
    }
  }

  /**
   * The bucket cursors of the sweeps: cur[c] is B[B_base + c], except for
   * the current bucket c1, whose cursor lives in the register b.
   */
  ghost predicate Register(CB: array<int>, bbase: nat, cur: seq<int>, c1: int, b: int)
    reads CB
  {
    bbase + |cur| <= CB.Length && 0 <= c1 < |cur| && cur[c1] == b &&
    forall c :: 0 <= c < |cur| && c != c1 ==> CB[bbase + c] == cur[c]
  }

  /**
   * Moving the register from the bucket of c1 to that of c0
   * (src/sais.cpp:79-84, 107-112): the cursor b of c1 is written back and
   * the cursor of c0 is read, so the cursors themselves stay the same.
   */
  method SwitchBucket(CB: array<int>, bbase: nat, c1: nat, b: int, c0: nat, ghost cur: seq<int>) returns (c1': nat, b': int)
    requires Register(CB, bbase, cur, c1, b) && c0 < |cur|
    modifies CB
    ensures c1' == c0 && Register(CB, bbase, cur, c1', b')
    ensures forall t :: 0 <= t < CB.Length && !(bbase <= t < bbase + |cur|) ==> CB[t] == old(CB[t])
  {
    c1', b' := c1, b;
    if c0 != c1 {
      CB[bbase + c1] := b;
      c1' := c0;
      b' := CB[bbase + c1'];
    }
  }

  /** `SA->set_value(t, v)` on the signed array. */
  method Store(SA: array<int>, t: nat, v: int)
    requires t < SA.Length
    modifies SA
    ensures SA[..] == old(SA[..])[t := v]
  {
    SA[t] := v;
  }

  /** The state the forward sweep starts from: the LMS positions seeded, the cursors at the bucket starts. */
  ghost predicate FwdReady(X: seq<int>, k: nat, S: seq<int>, B: seq<int>)
  {
    InAlphabet(X, k) && |X| <= |S| && LmsSeeded(X, k, S) &&
    |B| == k && forall c :: 0 <= c < k ==> B[c] == BucketStart(X, k, c)
  }

  /**
   * The left-to-right sweep of `induce_SA` (src/sais.cpp:61-89). From the
   * seeded array with the cursors at the bucket starts, it never fails, and
   * it ends with every L-type position, and no other, held in the L-type
   * head of its bucket, which those positions fill; `held` and `slot` say
   * which slot holds which position.
   */
  method ForwardSweep(X: seq<int>, SA: array<int>, CB: array<int>, bbase: nat, k: nat)
    returns (ok: bool, ghost held: seq<int>, ghost slot: seq<int>)
    requires InAlphabet(X, k) && 1 <= |X| <= SA.Length && SA != CB && bbase + k <= CB.Length
    modifies SA, CB
    ensures forall t :: |X| <= t < SA.Length ==> SA[t] == old(SA[t])
    ensures forall t :: 0 <= t < CB.Length && !(bbase <= t < bbase + k) ==> CB[t] == old(CB[t])
    ensures FwdReady(X, k, old(SA[..]), old(CB[bbase..bbase + k])) ==> ok && FwdDone(X, k, SA[..], held, slot)
  {
    ghost var good := FwdReady(X, k, SA[..], CB[bbase..bbase + k]);
    var n := |X|;
    var j := n - 1;
    var c1 := X[j];
    var b := CB[bbase + c1];
    ghost var S, cur, P: set<int> := SA[..], CB[bbase..bbase + k], {};
    held, slot := [], [];
    if good {
      FwdInit(X, k, S, cur, j, b);
    }
    if !(0 <= b < n) {
      return false, held, slot;
    }
    if good {
      held, slot, P := SeedHeld(X, S)[b := j], SeedSlot(X, k, S)[j := b], {j};
    }
    Store(SA, b, LeftValue(X, j));
    S, cur := S[b := LeftValue(X, j)], cur[c1 := b + 1];
    b := b + 1;
    var i := 0;
    while i < n
      invariant 0 <= i <= n
      invariant SA[..] == S && |S| == SA.Length && forall t :: n <= t < |S| ==> S[t] == old(SA[t])
      invariant |cur| == k && Register(CB, bbase, cur, c1, b)
      invariant forall t :: 0 <= t < CB.Length && !(bbase <= t < bbase + k) ==> CB[t] == old(CB[t])
      invariant good ==> FwdInv(X, k, S, cur, i, held, slot, P) && n - 1 in P
    {
      ok, c1, b, S, cur, held, slot, P := ForwardRead(X, SA, CB, bbase, k, i, c1, b, good, S, cur, held, slot, P);
      if !ok {
        return;
      }
      i := i + 1;
    }
    if good {
      FwdFinish(X, k, S, cur, held, slot, P);
      held, slot := LOnly(X, held), LSlots(X, slot);
    }
    return true, held, slot;
  }

  /**
   * One iteration of the forward sweep's loop (src/sais.cpp:70-89): slot i
   * is read and complemented, and a positive entry j places j-1 at the
   * cursor of its bucket. In a forward state, it never fails and the state
   * moves on to slot i+1.
   */
  method ForwardRead(X: seq<int>, SA: array<int>, CB: array<int>, bbase: nat, k: nat, i: nat, c1: nat, b: int,
                     ghost good: bool, ghost S: seq<int>, ghost cur: seq<int>,
                     ghost held: seq<int>, ghost slot: seq<int>, ghost P: set<int>)
    returns (ok: bool, c1': nat, b': int, ghost S': seq<int>, ghost cur': seq<int>,
             ghost held': seq<int>, ghost slot': seq<int>, ghost P': set<int>)
    requires InAlphabet(X, k) && i < |X| <= SA.Length && SA != CB
    requires SA[..] == S && |cur| == k && Register(CB, bbase, cur, c1, b)
    requires good ==> FwdInv(X, k, S, cur, i, held, slot, P) && |X| - 1 in P
    modifies SA, CB
    ensures SA[..] == S' && |S'| == |S| && forall t :: |X| <= t < |S| ==> S'[t] == S[t]
    ensures |cur'| == k && Register(CB, bbase, cur', c1', b')
    ensures forall t :: 0 <= t < CB.Length && !(bbase <= t < bbase + k) ==> CB[t] == old(CB[t])
    ensures good ==> ok && FwdInv(X, k, S', cur', i + 1, held', slot', P') && |X| - 1 in P'
  {
    var n := |X|;
    c1', b', S', cur', held', slot', P' := c1, b, S, cur, held, slot, P;
    var j := SA[i];
    Store(SA, i, Complement(j));
    if 0 < j {
      if good {
        FwdAhead(X, k, S, cur, i, held, slot, P, j - 1);
      }
      j := j - 1;
      if n <= j {
        return false, c1', b', SA[..], cur', held', slot', P';
      }
      c1', b' := SwitchBucket(CB, bbase, c1, b, X[j], cur);
      if good {
        FwdStep(X, k, S, cur, i, held, slot, P, j, b');
      }
      if !(0 <= b' < n) {
        return false, c1', b', SA[..], cur', held', slot', P';
      }
      if good {
        held', slot', P' := held[b' := j], slot[j := b'], P + {j};
      }
      Store(SA, b', LeftValue(X, j));
      S', cur' := S[i := Complement(S[i])][b' := LeftValue(X, j)], cur[c1' := b' + 1];
      b' := b' + 1;
    } else {
      if good {
        FwdSkip(X, k, S, cur, i, held, slot, P);
      }
      S' := S[i := Complement(S[i])];
    }
    ok := true;
  }

  /** The state the backward sweep starts from: the forward sweep's outcome, the cursors at the bucket ends. */
  ghost predicate BwdReady(X: seq<int>, k: nat, S: seq<int>, B: seq<int>, held: seq<int>, slot: seq<int>)
  {
    FwdDone(X, k, S, held, slot) &&
    |B| == k && forall c :: 0 <= c < k ==> B[c] == BucketEnd(X, k, c)
  }

  /**
   * The right-to-left sweep of `induce_SA` (src/sais.cpp:99-124). From the
   * forward sweep's outcome with the cursors at the bucket ends, it never
   * fails and leaves SA[0..n) induced: a permutation of the positions, each
   * in its bucket, the L-type ones of each bucket before the S-type ones.
   */
  method BackwardSweep(X: seq<int>, SA: array<int>, CB: array<int>, bbase: nat, k: nat,
                       ghost held: seq<int>, ghost slot: seq<int>) returns (ok: bool)
    requires InAlphabet(X, k) && 1 <= |X| <= SA.Length && SA != CB && bbase + k <= CB.Length
    modifies SA, CB
    ensures forall t :: |X| <= t < SA.Length ==> SA[t] == old(SA[t])
    ensures forall t :: 0 <= t < CB.Length && !(bbase <= t < bbase + k) ==> CB[t] == old(CB[t])
    ensures BwdReady(X, k, old(SA[..]), old(CB[bbase..bbase + k]), held, slot) ==> ok && Induced(X, k, SA[..])
  {
    ghost var good := BwdReady(X, k, SA[..], CB[bbase..bbase + k], held, slot);
    var n := |X|;
    assert 0 <= X[0] < k;
    var c1 := 0;
    var b := CB[bbase + c1];
    ghost var S, cur, Q: set<int> := SA[..], CB[bbase..bbase + k], {};
    ghost var held', slot' := held, slot;
    if good {
      BwdStart(X, k, S, cur, held, slot);
    }
    var i := n - 1;
    while 0 <= i
      invariant -1 <= i < n
      invariant SA[..] == S && |S| == SA.Length && forall t :: n <= t < |S| ==> S[t] == old(SA[t])
      invariant |cur| == k && Register(CB, bbase, cur, c1, b)
      invariant forall t :: 0 <= t < CB.Length && !(bbase <= t < bbase + k) ==> CB[t] == old(CB[t])
      invariant good ==> BwdInv(X, k, S, cur, i, held', slot', Q)
    {
      ok, c1, b, S, cur, held', slot', Q := BackwardRead(X, SA, CB, bbase, k, i, c1, b, good, S, cur, held', slot', Q);
      if !ok {
        return;
      }
      i := i - 1;
    }
    if good {
      BwdFinish(X, k, S, cur, held', slot', Q);
    }
    return true;
  }

  /**
   * One iteration of the backward sweep's loop (src/sais.cpp:101-123): a
   * positive entry j at slot i places j-1 at the slot below the cursor of
   * its bucket, and any other entry is complemented back. In a backward
   * state, it never fails and the state moves on to slot i-1.
   */
  method BackwardRead(X: seq<int>, SA: array<int>, CB: array<int>, bbase: nat, k: nat, i: nat, c1: nat, b: int,
                      ghost good: bool, ghost S: seq<int>, ghost cur: seq<int>,
                      ghost held: seq<int>, ghost slot: seq<int>, ghost Q: set<int>)
    returns (ok: bool, c1': nat, b': int, ghost S': seq<int>, ghost cur': seq<int>,
             ghost held': seq<int>, ghost slot': seq<int>, ghost Q': set<int>)
    requires InAlphabet(X, k) && i < |X| <= SA.Length && SA != CB
    requires SA[..] == S && |cur| == k && Register(CB, bbase, cur, c1, b)
    requires good ==> BwdInv(X, k, S, cur, i, held, slot, Q)
    modifies SA, CB
    ensures SA[..] == S' && |S'| == |S| && forall t :: |X| <= t < |S| ==> S'[t] == S[t]
    ensures |cur'| == k && Register(CB, bbase, cur', c1', b')
    ensures forall t :: 0 <= t < CB.Length && !(bbase <= t < bbase + k) ==> CB[t] == old(CB[t])
    ensures good ==> ok && BwdInv(X, k, S', cur', i - 1, held', slot', Q')
  {
    var n := |X|;
    c1', b', S', cur', held', slot', Q' := c1, b, S, cur, held, slot, Q;
    var j := SA[i];
    if 0 < j {
      if good {
        BwdAhead(X, k, S, cur, i, held, slot, Q, j - 1);
      }
      j := j - 1;
      if n <= j {
        return false, c1', b', S', cur', held', slot', Q';
      }
      var b0;
      c1', b0 := SwitchBucket(CB, bbase, c1, b, X[j], cur);
      b' := b0 - 1;
      if good {
        BwdStep(X, k, S, cur, i, held, slot, Q, j, b');
      }
      if !(0 <= b' < n) {
        return false, c1', b0, S', cur', held', slot', Q';
      }
      if good {
        held', slot', Q' := held[b' := j], slot[j := b'], Q + {j};
      }
      Store(SA, b', RightValue(X, j));
      S', cur' := S[b' := RightValue(X, j)], cur[c1' := b'];
    } else {
      if good {
        BwdSkip(X, k, S, cur, i, held, slot, Q);
      }
      Store(SA, i, Complement(j));
      S' := S[i := Complement(j)];
    }
    ok := true;
  }

  /** The entries of S that are LMS positions of X, in their order in S. */
  ghost function LmsEntries(X: seq<int>, S: seq<int>): (r: seq<int>)
    ensures |r| <= |S|
    ensures forall i :: 0 <= i < |r| ==> Lms(X, r[i])
  {
    if |S| == 0 then [] else LmsEntries(X, S[..|S| - 1]) + (if Lms(X, S[|S| - 1]) then [S[|S| - 1]] else [])
  }

  /** The kept entries are exactly the LMS positions among the entries of S. */
  lemma {:induction false} LmsEntriesMembers(X: seq<int>, S: seq<int>)
    ensures forall p :: p in LmsEntries(X, S) <==> p in S && Lms(X, p)
  {
    if |S| > 0 {
      LmsEntriesMembers(X, S[..|S| - 1]);
      assert S == S[..|S| - 1] + [S[|S| - 1]];
    }
  }

  /** Keeping some entries of a sequence of distinct entries keeps them distinct. */
  lemma {:induction false} LmsEntriesDistinct(X: seq<int>, S: seq<int>)
    requires Distinct(S)
    ensures Distinct(LmsEntries(X, S))
  {
    if |S| > 0 {
      var init := S[..|S| - 1];
      assert Distinct(init);
      LmsEntriesDistinct(X, init);
      LmsEntriesMembers(X, init);
      assert S[|S| - 1] !in init;
    }
  }

  /** Keeping the LMS entries of a list sorted by first character keeps it sorted. */
  lemma {:induction false} LmsEntriesSorted(X: seq<int>, S: seq<int>)
    requires CharSorted(X, S)
    ensures CharSorted(X, LmsEntries(X, S))
  {
    if |S| > 0 {
      var init := S[..|S| - 1];
      assert CharSorted(X, init);
      LmsEntriesSorted(X, init);
      LmsEntriesMembers(X, init);
      var E := LmsEntries(X, init);
      forall r | 0 <= r < |E| ensures X[E[r]] <= X[S[|S| - 1]] {
        assert E[r] in init;
        var t :| 0 <= t < |init| && init[t] == E[r];
      }
    }
  }

  /** Distinct LMS positions are at least two apart, so their halves p/2 differ too. */
  lemma LmsSlotsDistinct(X: seq<int>, ps: seq<int>)
    requires Distinct(ps) && forall r :: 0 <= r < |ps| ==> Lms(X, ps[r])
    ensures DistinctSlots(ps)
  {
    forall r, r' | 0 <= r < r' < |ps| ensures ps[r] / 2 != ps[r'] / 2 {
      if ps[r] < ps[r'] {
        LmsGap(X, ps[r]);
      } else {
        LmsGap(X, ps[r']);
      }
    }
  }

  /**
   * The compaction loop (src/sais.cpp:193-220): an entry p > 0 of SA[0..n)
   * is kept when X[p-1] > X[p] and the first character after the run of
   * X[p] is larger, which is exactly when p is an LMS position. The kept
   * entries move, in order, to SA[0..m); the slots from m on are untouched.
   * ok == false when some entry is n or larger (its character would lie
   * outside the text).
   */
  method Compact(X: seq<int>, SA: array<int>) returns (m: nat, ok: bool)
    requires 1 <= |X| <= SA.Length
    modifies SA
    ensures ok <==> forall t :: 0 <= t < |X| ==> old(SA[t]) < |X|
    ensures m <= |X| && forall t :: m <= t < SA.Length ==> SA[t] == old(SA[t])
    ensures ok ==> SA[..m] == LmsEntries(X, old(SA[..|X|]))
  {
    var n := |X|;
    ghost var S0 := SA[..n];
    m := 0;
    var i := 0;
    while i < n
      invariant 0 <= m <= i <= n
      invariant SA[..m] == LmsEntries(X, S0[..i])
      invariant forall t :: m <= t < SA.Length ==> SA[t] == old(SA[t])
      invariant forall t :: 0 <= t < i ==> S0[t] < n
    {
      var p := SA[i];
      assert p == S0[i];
      assert S0[..i + 1] == S0[..i] + [p];
      if 0 < p {
        if n <= p {
          return m, false;
        }
        var prev := X[p - 1];
        var c0 := X[p];
        if prev > c0 {
          var j, c1 := ScanRun(X, p);
          LmsTest(X, p, j);
          if j < n && c0 < c1 {
            SA[m] := p;
            m := m + 1;
          }
        } else {
          LmsTest(X, p, RunEnd(X, p));
        }
      }
      i := i + 1;
    }
    assert S0[..n] == S0;
    return m, true;
  }

  /** The end of the run of X[p]: the first j > p with X[j] != X[p], or n. */
  ghost function RunEnd(X: seq<int>, p: nat): (j: nat)
    requires p < |X|
    ensures p < j <= |X|
    ensures forall t :: p <= t < j ==> X[t] == X[p]
    ensures j == |X| || X[j] != X[p]
    decreases |X| - p
  {
    if p + 1 == |X| || X[p + 1] != X[p] then p + 1 else RunEnd(X, p + 1)
  }

  /**
   * The inner loop of the compaction (src/sais.cpp:206-211): j stops at the
   * first character after p that differs from X[p], or at n; c1 is that
   * character when j < n.
   */
  method ScanRun(X: seq<int>, p: nat) returns (j: nat, c1: int)
    requires p < |X|
    ensures p < j <= |X|
    ensures forall t :: p <= t < j ==> X[t] == X[p]
    ensures j == |X| || (X[j] != X[p] && c1 == X[j])
  {
    j := p + 1;
    c1 := X[p];
    while j < |X|
      invariant p < j <= |X|
      invariant forall t :: p <= t < j ==> X[t] == X[p]
    {
      c1 := X[j];
      if X[p] != c1 {
        return;
      }
      j := j + 1;
    }
  }

  /** The lengths of the LMS substrings at or after lo are in the name buffer of S. */
  ghost predicate LengthsFrom(X: seq<int>, S: seq<int>, m: nat, lo: nat)
  {
    forall p :: lo <= p ==> LengthAt(X, S, m, p)
  }

  /** If p is an LMS position, the length of its LMS substring is in its name-buffer slot. */
  ghost predicate LengthAt(X: seq<int>, S: seq<int>, m: nat, p: nat)
  {
    Lms(X, p) ==> m + p / 2 < |X| <= |S| && S[m + p / 2] == NextLms(X, p) - p
  }

  /** S differs from S0 only in name-buffer slots m + p/2 of LMS positions p. */
  ghost predicate BufferOnly(X: seq<int>, S0: seq<int>, S: seq<int>, m: nat)
  {
    |S| == |S0| &&
    forall t :: 0 <= t < |S| && S[t] != S0[t] ==> m <= t < |X| && (Lms(X, 2 * (t - m)) || Lms(X, 2 * (t - m) + 1))
  }

  /** Only name-buffer slots change, so the records SA[0..m) stay as they are. */
  lemma BufferPrefix(X: seq<int>, S0: seq<int>, S: seq<int>, m: nat)
    requires BufferOnly(X, S0, S, m) && m <= |S|
    ensures S[..m] == S0[..m]
  {
    assert forall t :: 0 <= t < m ==> S[t] == S0[t];
  }

  /**
   * The length store (src/sais.cpp:226-244): a right-to-left scan that, at
   * each LMS position p, writes the distance from p to the next LMS position
   * (or to n) into the name buffer at SA[m + p/2]. Only those slots change.
   * ok == false when some such slot lies at n or beyond.
   */
  method StoreLengths(X: seq<int>, SA: array<int>, m: nat) returns (ok: bool)
    requires 1 <= |X| <= SA.Length && m <= |X|
    modifies SA
    ensures ok <==> forall p :: Lms(X, p) ==> m + p / 2 < |X|
    ensures ok ==> LengthsFrom(X, SA[..], m, 0)
    ensures BufferOnly(X, old(SA[..]), SA[..], m)
  {
    var n := |X|;
    ghost var S0 := SA[..];
    var j := n;
    var c := 0;
    var c1 := X[n - 1];
    var i := n - 2;
    while 0 <= i
      invariant -1 <= i <= n - 2
      invariant c1 == X[i + 1] && c == (if SType(X, i + 1) then 1 else 0)
      invariant j == NextLms(X, i + 1)
      invariant LengthsFrom(X, SA[..], m, i + 2)
      invariant BufferOnly(X, S0, SA[..], m)
    {
      var c0 := X[i];
      TypeStep(X, i, c);
      if c0 < c1 + c {
        c := 1;
      } else if c != 0 {
        if n <= m + (i + 1) / 2 {
          return false;
        }
        LengthStep(X, S0, SA[..], m, i + 2, j);
        SA[m + (i + 1) / 2] := j - i - 1;
        j := i + 1;
        c := 0;
      }
      c1 := c0;
      i := i - 1;
    }
    forall p | Lms(X, p) ensures m + p / 2 < n {
      assert LengthAt(X, SA[..], m, p);
    }
    return true;
  }

  /** Writing the length of the LMS substring at lo-1 extends the length store to lo-1. */
  lemma LengthStep(X: seq<int>, S0: seq<int>, S: seq<int>, m: nat, lo: nat, j: int)
    requires 1 <= lo && Lms(X, lo - 1) && m + (lo - 1) / 2 < |X| <= |S|
    requires j == NextLms(X, lo - 1)
    requires LengthsFrom(X, S, m, lo) && BufferOnly(X, S0, S, m)
    ensures LengthsFrom(X, S[m + (lo - 1) / 2 := j - (lo - 1)], m, lo - 1)
    ensures BufferOnly(X, S0, S[m + (lo - 1) / 2 := j - (lo - 1)], m)
  {
    LengthWrite(X, S, m, lo - 1, j);
    BufferWrite(X, S0, S, m, lo - 1, j - (lo - 1));
  }

  /** The write for p keeps the lengths of the later LMS positions. */
  lemma LengthWrite(X: seq<int>, S: seq<int>, m: nat, p: nat, j: int)
    requires Lms(X, p) && m + p / 2 < |X| <= |S| && j == NextLms(X, p)
    requires LengthsFrom(X, S, m, p + 1)
    ensures LengthsFrom(X, S[m + p / 2 := j - p], m, p)
  {
    var S' := S[m + p / 2 := j - p];
    LmsGap(X, p);
    forall q | p <= q
      ensures LengthAt(X, S', m, q)
    {
      if q != p && Lms(X, q) {
        assert LengthAt(X, S, m, q);
        assert p + 2 <= q;
        assert p / 2 < q / 2;
      }
    }
  }

  /** The write for p lands in the name-buffer slot of p. */
  lemma BufferWrite(X: seq<int>, S0: seq<int>, S: seq<int>, m: nat, p: nat, v: int)
    requires Lms(X, p) && m + p / 2 < |X| <= |S|
    requires BufferOnly(X, S0, S, m)
    ensures BufferOnly(X, S0, S[m + p / 2 := v], m)
  {
    var s := m + p / 2;
    var S' := S[s := v];
    forall t | 0 <= t < |S'| && S'[t] != S0[t]
      ensures m <= t < |X| && (Lms(X, 2 * (t - m)) || Lms(X, 2 * (t - m) + 1))
    {
      if t == s {
        var e := 2 * (p / 2);
        assert e == p || e + 1 == p;
        assert 2 * (t - m) == e;
      } else {
        assert S'[t] == S[t];
      }
    }
  }

  /** The number of true entries; it reaches |s| exactly when every entry is true. */
  function CountTrue(s: seq<bool>): (r: nat)
    ensures r <= |s|
    ensures r == |s| <==> forall i :: 0 <= i < |s| ==> s[i]
  {
    if |s| == 0 then 0 else CountTrue(s[..|s| - 1]) + (if s[|s| - 1] then 1 else 0)
  }

  /**
   * After i records: each of them read its length from the original slot
   * m + p/2 and left there the count of new names so far; the slots of the
   * later records still hold their original contents.
   */
  ghost predicate NamesSoFar(ps: seq<int>, S0: seq<int>, S: seq<int>, lens: seq<int>, isNew: seq<bool>, m: nat, i: nat)
  {
    |S| == |S0| && i <= |ps| && i <= |lens| && i <= |isNew| &&
    (forall r :: 0 <= r < i ==> NameHeld(ps, S0, S, lens, isNew, m, r)) &&
    (forall r :: i <= r < |ps| && 0 <= m + ps[r] / 2 < |S| ==> S[m + ps[r] / 2] == S0[m + ps[r] / 2])
  }

  /** Record i reads its untouched slot and writes the name count there, which no other record's slot shares. */
  lemma NameWrite(ps: seq<int>, S0: seq<int>, S: seq<int>, lens: seq<int>, isNew: seq<bool>, m: nat, i: nat,
                  plen: int, diff: bool, name: nat)
    requires DistinctSlots(ps) && NamesSoFar(ps, S0, S, lens, isNew, m, i)
    requires i < |ps| && |lens| == i && |isNew| == i && 0 <= m + ps[i] / 2 < |S|
    requires plen == S[m + ps[i] / 2] && name == CountTrue(isNew + [diff])
    ensures NamesSoFar(ps, S0, S[m + ps[i] / 2 := name], lens + [plen], isNew + [diff], m, i + 1)
  {
    var S', lens', isNew' := S[m + ps[i] / 2 := name], lens + [plen], isNew + [diff];
    NameWriteDone(ps, S0, S, lens, isNew, m, i, plen, diff, name, S', lens', isNew');
    NameWriteAhead(ps, S0, S, m, i, name);
  }

  /**
   * Record r, at position p = ps[r], read its length from its slot m + p/2
   * of the original array S0 and left there, in S, the count of new names
   * among records 0..r, which is its name.
   */
  ghost predicate NameHeld(ps: seq<int>, S0: seq<int>, S: seq<int>, lens: seq<int>, isNew: seq<bool>, m: nat, r: nat)
  {
    r < |ps| && r < |lens| && r < |isNew| && 0 <= m + ps[r] / 2 < |S| <= |S0| &&
    lens[r] == S0[m + ps[r] / 2] && S[m + ps[r] / 2] == CountTrue(isNew[..r + 1])
  }

  /** After the write, records 0..i read and wrote the slots NamesSoFar says. */
  lemma NameWriteDone(ps: seq<int>, S0: seq<int>, S: seq<int>, lens: seq<int>, isNew: seq<bool>, m: nat, i: nat,
                      plen: int, diff: bool, name: nat, S': seq<int>, lens': seq<int>, isNew': seq<bool>)
    requires DistinctSlots(ps) && NamesSoFar(ps, S0, S, lens, isNew, m, i)
    requires i < |ps| && |lens| == i && |isNew| == i && 0 <= m + ps[i] / 2 < |S|
    requires plen == S[m + ps[i] / 2] && name == CountTrue(isNew + [diff])
    requires S' == S[m + ps[i] / 2 := name] && lens' == lens + [plen] && isNew' == isNew + [diff]
    ensures forall r :: 0 <= r < i + 1 ==> NameHeld(ps, S0, S', lens', isNew', m, r)
  {
    var s := m + ps[i] / 2;
    forall r | 0 <= r < i
      ensures NameHeld(ps, S0, S', lens', isNew', m, r)
    {
      assert NameHeld(ps, S0, S, lens, isNew, m, r);
      assert ps[r] / 2 != ps[i] / 2;
      assert S'[m + ps[r] / 2] == S[m + ps[r] / 2];
      assert lens'[r] == lens[r];
      assert isNew'[..r + 1] == isNew[..r + 1];
    }
    assert S[s] == S0[s] && isNew'[..i + 1] == isNew';
    assert NameHeld(ps, S0, S', lens', isNew', m, i);
  }

  /** The write for record i leaves the slots of the later records alone. */
  lemma NameWriteAhead(ps: seq<int>, S0: seq<int>, S: seq<int>, m: nat, i: nat, name: nat)
    requires DistinctSlots(ps) && i < |ps| && |S| == |S0| && 0 <= m + ps[i] / 2 < |S|
    requires forall r :: i <= r < |ps| && 0 <= m + ps[r] / 2 < |S| ==> S[m + ps[r] / 2] == S0[m + ps[r] / 2]
    ensures forall r :: i + 1 <= r < |ps| && 0 <= m + ps[r] / 2 < |S| ==>
      S[m + ps[i] / 2 := name][m + ps[r] / 2] == S0[m + ps[r] / 2]
  {
    forall r | i + 1 <= r < |ps| && 0 <= m + ps[r] / 2 < |S|
      ensures S[m + ps[i] / 2 := name][m + ps[r] / 2] == S0[m + ps[r] / 2]
    {
      assert ps[i] / 2 != ps[r] / 2;
    }
  }

  /** Slot t is no record's name-buffer slot m + p/2. */
  ghost predicate Unslotted(ps: seq<int>, m: nat, t: int)
  {
    forall r :: 0 <= r < |ps| ==> m + ps[r] / 2 != t
  }

  /** The records' name-buffer slots m + p/2 are pairwise distinct. */
  ghost predicate DistinctSlots(ps: seq<int>)
  {
    forall r, r' :: 0 <= r < r' < |ps| ==> ps[r] / 2 != ps[r'] / 2
  }

  /** X[p+t] and X[q+t] are characters of the text and equal. */
  ghost predicate SameAt(X: seq<int>, p: int, q: int, t: int)
  {
    0 <= p + t < |X| && 0 <= q + t < |X| && X[p + t] == X[q + t]
  }

  /** The len characters from p equal those from q (and len is not negative). */
  ghost predicate Matches(X: seq<int>, p: int, q: int, len: int)
  {
    0 <= len && forall t :: 0 <= t < len ==> SameAt(X, p, q, t)
  }

  /**
   * The position and length of the last record before record i that was
   * given a new name; the naming loop starts from position n and length 0.
   */
  ghost function LastNamed(ps: seq<int>, lens: seq<int>, isNew: seq<bool>, i: nat, n: int): (int, int)
    requires i <= |ps| && i <= |lens| && i <= |isNew|
  {
    if i == 0 then (n, 0)
    else if isNew[i - 1] then (ps[i - 1], lens[i - 1])
    else LastNamed(ps, lens, isNew, i - 1, n)
  }

  /**
   * Record r got a new name exactly when its substring differs from the last
   * newly named one in length or in content.
   */
  ghost predicate NamedRecord(X: seq<int>, ps: seq<int>, lens: seq<int>, isNew: seq<bool>, r: nat)
    requires r < |ps| && r < |lens| && r < |isNew|
  {
    var last := LastNamed(ps, lens, isNew, r, |X|);
    isNew[r] <==> !(lens[r] == last.1 && Matches(X, ps[r], last.0, lens[r]))
  }

  /** LastNamed(.., i, ..) depends only on the first i records. */
  lemma {:induction false} LastNamedExtend(ps: seq<int>, lens: seq<int>, isNew: seq<bool>, l: int, b: bool, i: nat, n: int)
    requires i <= |lens| == |isNew| < |ps|
    ensures LastNamed(ps, lens + [l], isNew + [b], i, n) == LastNamed(ps, lens, isNew, i, n)
  {
    if i > 0 {
      LastNamedExtend(ps, lens, isNew, l, b, i - 1, n);
    }
  }

  /**
   * The character comparison of the naming loop (src/sais.cpp:257-269): the
   * substrings of length len at p and q are the same when no character
   * differs before len. ok == false when a compared position lies outside
   * the text.
   */
  method SameSubstring(X: seq<int>, p: int, q: int, len: int) returns (same: bool, ok: bool)
    ensures ok ==> (same <==> Matches(X, p, q, len))
  {
    var j := 0;
    while j < len
      invariant 0 <= j && (0 <= len ==> j <= len)
      invariant forall t :: 0 <= t < j ==> SameAt(X, p, q, t)
    {
      if !(0 <= p + j < |X| && 0 <= q + j < |X|) {
        return false, false;
      }
      if X[p + j] != X[q + j] {
        assert !SameAt(X, p, q, j);
        return false, true;
      }
      j := j + 1;
    }
    return j == len, true;
  }

  /**
   * The naming loop (src/sais.cpp:246-279): the records SA[0..m) are read in
   * order; record p reads its length from SA[m + p/2] and is given a new
   * name when it differs from the last newly named record in length or in
   * content, and the current name is written back to SA[m + p/2]. Names
   * start at 1 and grow by one per new name, so the last name counts the
   * new names and is at most m; it is m exactly when every record is new.
   * ok == false when a slot m + p/2 lies outside the name buffer [m, n) or
   * a compared position lies outside the text.
   */
  method NameSubstrings(X: seq<int>, SA: array<int>, m: nat) returns (name: nat, ok: bool, ghost lens: seq<int>, ghost isNew: seq<bool>)
    requires 1 <= |X| <= SA.Length && m <= |X|
    modifies SA
    ensures SA[..m] == old(SA[..m])
    ensures forall t :: 0 <= t < SA.Length && !(m <= t < |X|) ==> SA[t] == old(SA[t])
    ensures ok ==> |lens| == m && |isNew| == m && name == CountTrue(isNew)
    ensures ok ==> name <= m && (name == m <==> forall r :: 0 <= r < m ==> isNew[r])
    ensures ok ==> forall r :: 0 <= r < m ==> NamedRecord(X, SA[..m], lens, isNew, r)
    ensures ok ==> forall r :: 0 <= r < m ==> m <= m + SA[r] / 2 < |X|
    ensures ok && DistinctSlots(SA[..m]) ==> forall r :: 0 <= r < m ==> NameHeld(SA[..m], old(SA[..]), SA[..], lens, isNew, m, r)
    ensures forall t :: 0 <= t < SA.Length && Unslotted(SA[..m], m, t) ==> SA[t] == old(SA[t])
  {
    var n := |X|;
    ghost var ps := SA[..m];
    ghost var S0 := SA[..];
    name := 0;
    var q := n;
    var qlen := 0;
    lens := [];
    isNew := [];
    var i := 0;
    while i < m
      invariant 0 <= i <= m
      invariant SA[..m] == ps
      invariant forall t :: 0 <= t < SA.Length && !(m <= t < n) ==> SA[t] == old(SA[t])
      invariant |lens| == i && |isNew| == i && name == CountTrue(isNew)
      invariant (q, qlen) == LastNamed(ps, lens, isNew, i, n)
      invariant forall r :: 0 <= r < i ==> NamedRecord(X, ps, lens, isNew, r)
      invariant forall r :: 0 <= r < i ==> m <= m + ps[r] / 2 < n
      invariant DistinctSlots(ps) ==> NamesSoFar(ps, S0, SA[..], lens, isNew, m, i)
      invariant forall t :: 0 <= t < SA.Length && Unslotted(ps, m, t) ==> SA[t] == old(SA[t])
    {
      ghost var before := SA[..];
      ok, name, q, qlen, lens, isNew := NameRecord(X, SA, m, i, name, q, qlen, ps, S0, lens, isNew);
      if !ok {
        return;
      }
      assert forall t :: 0 <= t < SA.Length && !(m <= t < n) ==> SA[t] == before[t];
      assert forall t :: 0 <= t < SA.Length && Unslotted(ps, m, t) ==> SA[t] == before[t];
      i := i + 1;
    }
    return name, true, lens, isNew;
  }

  /**
   * One round of the naming loop (src/sais.cpp:248-277) for record i,
   * p = SA[i]: compare its substring with the last newly named one, decide
   * whether it is new, and write the name count to SA[m + p/2], the only
   * slot that changes. ok == false, with nothing changed, when that slot
   * lies outside [m, n) or a compared position lies outside the text.
   */
  method NameRecord(X: seq<int>, SA: array<int>, m: nat, i: nat, name: nat, q: int, qlen: int,
                    ghost ps: seq<int>, ghost S0: seq<int>, ghost lens: seq<int>, ghost isNew: seq<bool>)
    returns (ok: bool, name': nat, q': int, qlen': int, ghost lens': seq<int>, ghost isNew': seq<bool>)
    requires 1 <= |X| <= SA.Length && m <= |X| && i < m && SA[..m] == ps
    requires |lens| == i && |isNew| == i && name == CountTrue(isNew)
    requires (q, qlen) == LastNamed(ps, lens, isNew, i, |X|)
    requires forall r :: 0 <= r < i ==> NamedRecord(X, ps, lens, isNew, r)
    requires DistinctSlots(ps) ==> NamesSoFar(ps, S0, SA[..], lens, isNew, m, i)
    modifies SA
    ensures !ok ==> SA[..] == old(SA[..])
    ensures ok ==> m <= m + ps[i] / 2 < |X| && SA[..] == old(SA[..])[m + ps[i] / 2 := name']
    ensures ok ==> |lens'| == i + 1 && |isNew'| == i + 1 && name' == CountTrue(isNew')
    ensures ok ==> (q', qlen') == LastNamed(ps, lens', isNew', i + 1, |X|)
    ensures ok ==> forall r :: 0 <= r < i + 1 ==> NamedRecord(X, ps, lens', isNew', r)
    ensures ok && DistinctSlots(ps) ==> NamesSoFar(ps, S0, SA[..], lens', isNew', m, i + 1)
  {
    var n := |X|;
    name', q', qlen', lens', isNew' := name, q, qlen, lens, isNew;
    var p := SA[i];
    var index := m + p / 2;
    if !(m <= index < n) {
      return false, name', q', qlen', lens', isNew';
    }
    var plen := SA[index];
    var diff := true;
    if plen == qlen {
      var same, fine := SameSubstring(X, p, q, plen);
      if !fine {
        return false, name', q', qlen', lens', isNew';
      }
      if same {
        diff := false;
      }
    }
    assert p == ps[i];
    NameStep(X, ps, lens, isNew, i, plen, diff);
    LastNamedExtend(ps, lens, isNew, plen, diff, i, n);
    assert (isNew + [diff])[..i] == isNew;
    lens' := lens + [plen];
    isNew' := isNew + [diff];
    if diff {
      name' := name + 1;
      q' := p;
      qlen' := plen;
    }
    if DistinctSlots(ps) {
      NameWrite(ps, S0, SA[..], lens, isNew, m, i, plen, diff, name');
    }
    Store(SA, index, name');
    ok := true;
  }

  /** Appending record i keeps the earlier records' naming facts and decides its own. */
  lemma NameStep(X: seq<int>, ps: seq<int>, lens: seq<int>, isNew: seq<bool>, i: nat, plen: int, diff: bool)
    requires |lens| == i && |isNew| == i && i < |ps|
    requires forall r :: 0 <= r < i ==> NamedRecord(X, ps, lens, isNew, r)
    requires var last := LastNamed(ps, lens, isNew, i, |X|);
      diff <==> !(plen == last.1 && Matches(X, ps[i], last.0, plen))
    ensures forall r :: 0 <= r <= i ==> NamedRecord(X, ps, lens + [plen], isNew + [diff], r)
  {
    var lens', isNew' := lens + [plen], isNew + [diff];
    forall r | 0 <= r <= i ensures NamedRecord(X, ps, lens', isNew', r) {
      LastNamedExtend(ps, lens, isNew, plen, diff, r, |X|);
      assert lens'[r] == (if r < i then lens[r] else plen);
      assert isNew'[r] == (if r < i then isNew[r] else diff);
      if r < i {
        assert NamedRecord(X, ps, lens, isNew, r);
      }
    }
  }

  /** The non-zero entries of s[lo..hi), each less one, in order: the reduced text kept in the name buffer. */
  ghost function Reduced(s: seq<int>, lo: nat, hi: nat): (r: seq<int>)
    requires lo <= hi <= |s|
    ensures |r| <= hi - lo
    decreases hi - lo
  {
    if lo == hi then [] else (if s[lo] != 0 then [s[lo] - 1] else []) + Reduced(s, lo + 1, hi)
  }

  /** Starting the buffer later leaves at most as many entries. */
  lemma {:induction false} ReducedShrinks(s: seq<int>, lo: nat, mid: nat, hi: nat)
    requires lo <= mid <= hi <= |s|
    ensures |Reduced(s, mid, hi)| <= |Reduced(s, lo, hi)|
    decreases mid - lo
  {
    if lo < mid {
      ReducedShrinks(s, lo + 1, mid, hi);
    }
  }

  /** Writing v just below the slice [a, b) prepends v to it. */
  lemma Prepend(before: seq<int>, after: seq<int>, a: nat, b: nat, v: int)
    requires 0 < a <= b <= |before| && after == before[a - 1 := v]
    ensures after[a - 1..b] == [v] + before[a..b]
  {
  }

  /**
   * The reduced text (src/sais.cpp:284-294): a right-to-left scan of the
   * name buffer SA[m..n) copies each non-zero entry, less one, to
   * RA[j--] with RA = n + fs - m and j from m-1; the copies therefore end at
   * SA[n+fs) and keep the order of the buffer. Only SA[m..n+fs) changes.
   * ok == false when the buffer holds more than m non-zero entries.
   */
  method ReduceText(SA: array<int>, n: nat, m: nat, fs: nat) returns (ok: bool)
    requires m <= n && n + fs <= SA.Length
    modifies SA
    ensures ok <==> |Reduced(old(SA[..]), m, n)| <= m
    ensures ok ==> SA[n + fs - |Reduced(old(SA[..]), m, n)|..n + fs] == Reduced(old(SA[..]), m, n)
    ensures forall t :: 0 <= t < SA.Length && !(m <= t < n + fs) ==> SA[t] == old(SA[t])
  {
    ghost var S0 := SA[..];
    var ra := n + fs - m;
    var i := n - 1;
    var j := m - 1;
    while m <= i
      invariant m - 1 <= i <= n - 1 && -1 <= j
      invariant m - 1 - j == |Scanned(S0, i + 1, n)| <= n - 1 - i
      invariant forall t :: 0 <= t < SA.Length ==>
        SA[t] == if ra + j + 1 <= t < n + fs then Scanned(S0, i + 1, n)[n + fs - 1 - t] else S0[t]
    {
      var value := SA[i];
      if value != 0 {
        if j < 0 {
          ScannedReversed(S0, m, n);
          ScannedReversed(S0, i, n);
          ReducedShrinks(S0, m, i, n);
          return false;
        }
        SA[ra + j] := value - 1;
        j := j - 1;
      }
      i := i - 1;
    }
    ghost var w := Reduced(S0, m, n);
    ScannedReversed(S0, m, n);
    assert SA[n + fs - |w|..n + fs] == w;
    return true;
  }

  /** The entries Reduced collects, in the order of a right-to-left scan. */
  ghost function Scanned(s: seq<int>, lo: nat, hi: nat): (r: seq<int>)
    requires lo <= hi <= |s|
    decreases hi - lo
  {
    if lo == hi then [] else Scanned(s, lo + 1, hi) + (if s[lo] != 0 then [s[lo] - 1] else [])
  }

  /** A right-to-left scan collects the reduced text back to front. */
  lemma {:induction false} ScannedReversed(s: seq<int>, lo: nat, hi: nat)
    requires lo <= hi <= |s|
    ensures |Scanned(s, lo, hi)| == |Reduced(s, lo, hi)|
    ensures forall r :: 0 <= r < |Reduced(s, lo, hi)| ==>
      Reduced(s, lo, hi)[r] == Scanned(s, lo, hi)[|Reduced(s, lo, hi)| - 1 - r]
    decreases hi - lo
  {
    if lo < hi {
      ScannedReversed(s, lo + 1, hi);
      var R, S := Reduced(s, lo + 1, hi), Scanned(s, lo + 1, hi);
      var L := |R|;
      if s[lo] != 0 {
        var x := s[lo] - 1;
        assert Reduced(s, lo, hi) == [x] + R;
        assert Scanned(s, lo, hi) == S + [x];
        forall r | 0 <= r < L + 1
          ensures ([x] + R)[r] == (S + [x])[L - r]
        {
          if r > 0 {
            assert ([x] + R)[r] == R[r - 1] == S[L - 1 - (r - 1)];
          }
        }
      } else {
        assert Reduced(s, lo, hi) == [] + R == R;
        assert Scanned(s, lo, hi) == S + [] == S;
      }
    }
  }

  /**
   * The LMS positions into RA (src/sais.cpp:298-311): a right-to-left scan
   * writes each LMS position to RA[j--] with j from m-1, so the positions
   * end in increasing order at RA[m). Only RA[0..m) changes. ok == false
   * when the text has more than m LMS positions.
   */
  method LmsInto(X: seq<int>, SA: array<int>, ra: nat, m: nat) returns (ok: bool)
    requires 1 <= |X| && ra + m <= SA.Length
    modifies SA
    ensures ok <==> |LmsList(X, 0)| <= m
    ensures ok ==> SA[ra + m - |LmsList(X, 0)|..ra + m] == LmsList(X, 0)
    ensures forall t :: 0 <= t < SA.Length && !(ra <= t < ra + m) ==> SA[t] == old(SA[t])
  {
    var n := |X|;
    var j := m - 1;
    var c := 0;
    var c1 := X[n - 1];
    var i := n - 2;
    while 0 <= i
      invariant -1 <= i <= n - 2
      invariant c1 == X[i + 1] && c == (if SType(X, i + 1) then 1 else 0)
      invariant j == m - 1 - |LmsList(X, i + 2)| && |LmsList(X, i + 2)| <= m
      invariant SA[ra + m - |LmsList(X, i + 2)|..ra + m] == LmsList(X, i + 2)
      invariant forall t :: 0 <= t < SA.Length && !(ra <= t < ra + m) ==> SA[t] == old(SA[t])
    {
      var c0 := X[i];
      TypeStep(X, i, c);
      if c0 < c1 + c {
        c := 1;
      } else if c != 0 {
        if j < 0 {
          LmsListShrinks(X, 0, i + 1);
          return false;
        }
        ghost var before := SA[..];
        SA[ra + j] := i + 1;
        Prepend(before, SA[..], ra + j + 1, ra + m, i + 1);
        j := j - 1;
        c := 0;
      }
      c1 := c0;
      i := i - 1;
    }
    assert LmsList(X, 0) == LmsList(X, 1);
    return true;
  }

  /**
   * The rank lookup (src/sais.cpp:313-318): each SA[i], i < m, is replaced by
   * RA[SA[i]]. Only SA[0..m) changes. ok == false when some SA[i] is not a
   * rank in [0, m).
   */
  method MapRanks(SA: array<int>, ra: nat, m: nat) returns (ok: bool)
    requires m <= ra && ra + m <= SA.Length
    modifies SA
    ensures ok <==> forall i :: 0 <= i < m ==> 0 <= old(SA[i]) < m
    ensures ok ==> forall i :: 0 <= i < m ==> 0 <= old(SA[i]) < m && SA[i] == old(SA[ra + SA[i]])
    ensures forall t :: m <= t < SA.Length ==> SA[t] == old(SA[t])
  {
    var i := 0;
    while i < m
      invariant 0 <= i <= m
      invariant forall t :: 0 <= t < i ==> 0 <= old(SA[t]) < m && SA[t] == old(SA[ra + SA[t]])
      invariant forall t :: i <= t < SA.Length ==> SA[t] == old(SA[t])
    {
      var index := SA[i];
      if !(0 <= index < m) {
        return false;
      }
      SA[i] := SA[ra + index];
      i := i + 1;
    }
    return true;
  }

  /**
   * Stage 2 after the recursion (src/sais.cpp:298-318): when the text has
   * exactly m LMS positions, each rank SA[i], i < m, is replaced by the LMS
   * position of that rank. Only SA[0..m) and RA[0..m) change.
   */
  method Expand(X: seq<int>, SA: array<int>, ra: nat, m: nat) returns (ok: bool)
    requires 1 <= |X| && m <= ra && ra + m <= SA.Length
    modifies SA
    ensures ok ==> |LmsList(X, 0)| <= m && forall i :: 0 <= i < m ==> 0 <= old(SA[i]) < m
    ensures ok && |LmsList(X, 0)| == m ==>
      forall i :: 0 <= i < m ==> 0 <= old(SA[i]) < m && SA[i] == LmsList(X, 0)[old(SA[i])]
    ensures forall t :: 0 <= t < SA.Length && !(0 <= t < m) && !(ra <= t < ra + m) ==> SA[t] == old(SA[t])
  {
    ok := LmsInto(X, SA, ra, m);
    if !ok {
      return;
    }
    ghost var mid := SA[..];
    assert forall i :: 0 <= i < m ==> mid[i] == old(SA[i]);
    ok := MapRanks(SA, ra, m);
    if ok && |LmsList(X, 0)| == m {
      forall i | 0 <= i < m ensures SA[i] == LmsList(X, 0)[old(SA[i])] {
        assert mid[ra..ra + m][mid[i]] == mid[ra + mid[i]];
      }
    }
  }

  /** The number of positions in ps whose character is c. */
  ghost function CharCount(X: seq<int>, ps: seq<int>, c: int): (r: nat)
    requires forall r :: 0 <= r < |ps| ==> 0 <= ps[r] < |X|
    ensures r <= |ps|
  {
    if |ps| == 0 then 0
    else CharCount(X, ps[..|ps| - 1], c) + (if X[ps[|ps| - 1]] == c then 1 else 0)
  }

  /** Nothing placed counts no character. */
  lemma ZeroCount(X: seq<int>)
    ensures forall c :: CharCount(X, [], c) == 0
  {
  }

  /**
   * Stage 3 seeding (src/sais.cpp:342-351): right to left over the sorted
   * LMS positions SA[0..m), each entry j is cleared and put at the retreating
   * end of the bucket of X[j]. placed records the entries in the order they
   * are read. The cursor of each character c ends lowered by the number of
   * placed positions of character c, and every slot of SA[0..n) ends empty
   * or holding a placed position. ok == false when an entry is not a
   * position of the text or a cursor leaves [0, n).
   */
  method PlaceLms(X: seq<int>, SA: array<int>, CB: array<int>, bbase: nat, k: nat, m: nat)
    returns (ok: bool, ghost placed: seq<int>)
    requires InAlphabet(X, k) && m <= |X| <= SA.Length && bbase + k <= CB.Length && SA != CB
    requires forall t :: m <= t < |X| ==> SA[t] == 0
    modifies SA, CB
    ensures ok ==> |placed| == m && forall r :: 0 <= r < m ==> 0 <= placed[r] < |X|
    ensures ok ==> forall t :: bbase <= t < bbase + k ==> CB[t] == old(CB[t]) - CharCount(X, placed, t - bbase)
    ensures ok ==> forall t :: 0 <= t < |X| ==> SA[t] == 0 || SA[t] in placed
    ensures forall t :: |X| <= t < SA.Length ==> SA[t] == old(SA[t])
    ensures forall t :: 0 <= t < CB.Length && !(bbase <= t < bbase + k) ==> CB[t] == old(CB[t])
    ensures PlaceReady(X, k, old(SA[..m]), old(CB[bbase..bbase + k])) ==> ok && LmsSeeded(X, k, SA[..])
  {
    ghost var ps, orig, origB := SA[..m], SA[..], CB[..];
    ghost var good := PlaceReady(X, k, ps, CB[bbase..bbase + k]);
    PlaceEntry(X, k, bbase, ps, good, orig, origB, m);
    ghost var S, C;
    ok, placed, S, C := PlaceAll(X, SA, CB, bbase, k, m, orig, origB);
    PlaceExit(X, k, bbase, ps, good, ok, placed, orig, origB, S, C, m);
  }

  /** The outcome of the placement loop: whether every round kept to the text, and SA[..] and CB[..] at the end. */
  datatype Placement = Placement(ok: bool, S: seq<int>, C: seq<int>)

  /**
   * The placement loop as a function on S = SA[..] and C = CB[..]: the rounds
   * i, i - 1, .., 0 in turn, each moving the entry j = S[i] to the lowered
   * cursor of X[j]. ok == false when a round reads no position of the text or
   * lowers a cursor out of [0, n); the state is then that of the failed round.
   */
  ghost function PlaceRun(X: seq<int>, k: nat, bbase: nat, S: seq<int>, C: seq<int>, i: int): (r: Placement)
    requires InAlphabet(X, k) && |X| <= |S| && bbase + k <= |C| && i < |X|
    ensures |r.S| == |S| && |r.C| == |C|
    decreases i + 1
  {
    if i < 0 then Placement(true, S, C)
    else
      var j := S[i];
      if !(0 <= j < |X|) then Placement(false, S[i := 0], C)
      else
        var value := C[bbase + X[j]] - 1;
        if !(0 <= value < |X|) then Placement(false, S[i := 0], C[bbase + X[j] := value])
        else PlaceRun(X, k, bbase, S[i := 0][value := j], C[bbase + X[j] := value], i - 1)
  }

  /** A round that keeps to the text hands the run on to the next round. */
  lemma PlaceRunStep(X: seq<int>, k: nat, bbase: nat, S: seq<int>, C: seq<int>, i: nat)
    requires InAlphabet(X, k) && |X| <= |S| && bbase + k <= |C| && i < |X|
    requires 0 <= S[i] < |X| && 0 <= C[bbase + X[S[i]]] - 1 < |X|
    ensures PlaceRun(X, k, bbase, S, C, i)
         == PlaceRun(X, k, bbase, S[i := 0][C[bbase + X[S[i]]] - 1 := S[i]], C[bbase + X[S[i]] := C[bbase + X[S[i]]] - 1], i - 1)
  {
  }

  /** With no round left the run keeps the state. */
  lemma PlaceRunDone(X: seq<int>, k: nat, bbase: nat, S: seq<int>, C: seq<int>, i: int)
    requires InAlphabet(X, k) && |X| <= |S| && bbase + k <= |C| && i < 0
    ensures PlaceRun(X, k, bbase, S, C, i) == Placement(true, S, C)
  {
  }

  /** From a PlaceInv state at round i every remaining round succeeds, and the run ends in PlaceInv at -1. */
  lemma {:induction false} PlaceRunInv(X: seq<int>, k: nat, bbase: nat, ps: seq<int>, S: seq<int>, C: seq<int>, i: int)
    requires bbase + k <= |C| && PlaceInv(X, k, ps, S, C[bbase..bbase + k], i)
    ensures PlaceRun(X, k, bbase, S, C, i).ok
    ensures PlaceInv(X, k, ps, PlaceRun(X, k, bbase, S, C, i).S, PlaceRun(X, k, bbase, S, C, i).C[bbase..bbase + k], -1)
    decreases i + 1
  {
    if i < 0 {
      PlaceRunDone(X, k, bbase, S, C, i);
    } else {
      PlaceRunNext(X, k, bbase, ps, S, C, i);
      PlaceRunStep(X, k, bbase, S, C, i);
      PlaceRunInv(X, k, bbase, ps, S[i := 0][C[bbase + X[S[i]]] - 1 := S[i]], C[bbase + X[S[i]] := C[bbase + X[S[i]]] - 1], i - 1);
    }
  }

  /** From a PlaceInv state round i keeps to the text and leads to PlaceInv at i - 1. */
  lemma PlaceRunNext(X: seq<int>, k: nat, bbase: nat, ps: seq<int>, S: seq<int>, C: seq<int>, i: nat)
    requires bbase + k <= |C| && PlaceInv(X, k, ps, S, C[bbase..bbase + k], i)
    ensures 0 <= S[i] < |X| && X[S[i]] < k && 0 <= C[bbase + X[S[i]]] - 1 < |X|
    ensures PlaceInv(X, k, ps, S[i := 0][C[bbase + X[S[i]]] - 1 := S[i]],
                     C[bbase + X[S[i]] := C[bbase + X[S[i]]] - 1][bbase..bbase + k], i - 1)
  {
    PlaceFree(X, k, ps, S, C[bbase..bbase + k], i);
    assert C[bbase..bbase + k][X[S[i]]] == C[bbase + X[S[i]]];
    PlaceNext(X, k, ps, S, C[bbase..bbase + k], i, S[i], X[S[i]], C[bbase + X[S[i]]] - 1);
    SliceUpdate(C, bbase, k, X[S[i]], C[bbase + X[S[i]]] - 1);
  }

  /** The untouched arrays with the sorted records in SA[0..m) start the placement loop. */
  lemma PlaceEntry(X: seq<int>, k: nat, bbase: nat, ps: seq<int>, good: bool, orig: seq<int>, origB: seq<int>, m: nat)
    requires InAlphabet(X, k) && m <= |X| <= |orig| && bbase + k <= |origB| && ps == orig[..m]
    requires forall t :: m <= t < |X| ==> orig[t] == 0
    requires good == PlaceReady(X, k, ps, origB[bbase..bbase + k])
    ensures PlaceFrame(X, k, bbase, [], orig, origB, orig, origB, m - 1)
    ensures good ==> PlaceInv(X, k, ps, orig, origB[bbase..bbase + k], m - 1)
  {
    ZeroCount(X);
    if good {
      PlaceStart(X, k, ps, orig, origB[bbase..bbase + k]);
    }
  }

  /** What the placement loop leaves: the cursors lowered, only placed positions in SA[0..n), and LmsSeeded when the records were ready. */
  lemma PlaceExit(X: seq<int>, k: nat, bbase: nat, ps: seq<int>, good: bool, ok: bool, placed: seq<int>, orig: seq<int>,
                  origB: seq<int>, S: seq<int>, C: seq<int>, m: nat)
    requires InAlphabet(X, k) && m <= |X| <= |orig| && bbase + k <= |origB|
    requires good ==> PlaceInv(X, k, ps, orig, origB[bbase..bbase + k], m - 1)
    requires ok == PlaceRun(X, k, bbase, orig, origB, m - 1).ok
    requires ok ==> S == PlaceRun(X, k, bbase, orig, origB, m - 1).S && C == PlaceRun(X, k, bbase, orig, origB, m - 1).C
    requires ok ==> |placed| == m && PlaceFrame(X, k, bbase, placed, orig, origB, S, C, -1)
    ensures ok ==> |placed| == m && forall r :: 0 <= r < m ==> 0 <= placed[r] < |X|
    ensures ok ==> forall t :: bbase <= t < bbase + k ==> C[t] == origB[t] - CharCount(X, placed, t - bbase)
    ensures ok ==> forall t :: 0 <= t < |X| ==> S[t] == 0 || S[t] in placed
    ensures good ==> ok && LmsSeeded(X, k, S)
  {
    if good {
      PlaceRunInv(X, k, bbase, ps, orig, origB, m - 1);
      PlaceEnd(X, k, ps, S, C[bbase..bbase + k]);
    }
  }

  /**
   * The placement loop of PlaceLms, from rank m - 1 down to rank 0. It ends
   * as PlaceRun from the untouched arrays says, and keeps the bookkeeping of
   * PlaceFrame on the way.
   */
  method PlaceAll(X: seq<int>, SA: array<int>, CB: array<int>, bbase: nat, k: nat, m: nat, ghost orig: seq<int>, ghost origB: seq<int>)
    returns (ok: bool, ghost placed: seq<int>, ghost S: seq<int>, ghost C: seq<int>)
    requires InAlphabet(X, k) && m <= |X| <= SA.Length && bbase + k <= CB.Length && SA != CB
    requires SA[..] == orig && CB[..] == origB && PlaceFrame(X, k, bbase, [], orig, origB, orig, origB, m - 1)
    modifies SA, CB
    ensures SA[..] == S && CB[..] == C
    ensures PlaceOutside(X, k, bbase, orig, origB, S, C)
    ensures ok == PlaceRun(X, k, bbase, orig, origB, m - 1).ok
    ensures ok ==> S == PlaceRun(X, k, bbase, orig, origB, m - 1).S && C == PlaceRun(X, k, bbase, orig, origB, m - 1).C
    ensures ok ==> |placed| == m && PlaceFrame(X, k, bbase, placed, orig, origB, S, C, -1)
  {
    placed, S, C := [], orig, origB;
    var i := m - 1;
    while 0 <= i
      invariant -1 <= i < m && |placed| == m - 1 - i
      invariant SA[..] == S && CB[..] == C
      invariant PlaceFrame(X, k, bbase, placed, orig, origB, S, C, i)
      invariant PlaceRun(X, k, bbase, S, C, i) == PlaceRun(X, k, bbase, orig, origB, m - 1)
    {
      var j;
      ok, j, S, C := PlaceOne(X, SA, CB, bbase, k, i, placed, orig, origB, S, C);
      if !ok {
        return false, placed, S, C;
      }
      placed := placed + [j];
      i := i - 1;
    }
    return true, placed, S, C;
  }

  /**
   * The bookkeeping of the placement loop over S = SA[..] and C = CB[..]:
   * the placed positions, the cursors lowered by their placements, every
   * slot of SA[0..n) 0, placed, or not yet read, and nothing else changed.
   */
  ghost predicate PlaceFrame(X: seq<int>, k: nat, bbase: nat, placed: seq<int>, orig: seq<int>, origB: seq<int>,
                             S: seq<int>, C: seq<int>, i: int)
  {
    PlaceOutside(X, k, bbase, orig, origB, S, C) &&
    (forall r :: 0 <= r < |placed| ==> 0 <= placed[r] < |X|) &&
    (forall t :: bbase <= t < bbase + k ==> C[t] == origB[t] - CharCount(X, placed, t - bbase)) &&
    (forall t :: 0 <= t < |X| ==> S[t] == 0 || S[t] in placed || (t <= i && S[t] == orig[t]))
  }

  /** Outside SA[0..n) and the cursors of C[bbase..bbase + k] the placement loop changes nothing. */
  ghost predicate PlaceOutside(X: seq<int>, k: nat, bbase: nat, orig: seq<int>, origB: seq<int>, S: seq<int>, C: seq<int>)
  {
    |X| <= |S| == |orig| && bbase + k <= |C| == |origB| &&
    (forall t :: |X| <= t < |S| ==> S[t] == orig[t]) &&
    (forall t :: 0 <= t < |C| && !(bbase <= t < bbase + k) ==> C[t] == origB[t])
  }

  /**
   * One round of the stage-3 seeding (src/sais.cpp:344-350) on S = SA[..] and
   * C = CB[..]: the entry j = SA[i] is cleared and put at the lowered cursor
   * of its character. The round does what PlaceRun's first round does, fails
   * exactly when it does, and keeps the bookkeeping of PlaceFrame.
   */
  method PlaceOne(X: seq<int>, SA: array<int>, CB: array<int>, bbase: nat, k: nat, i: nat,
                  ghost placed: seq<int>, ghost orig: seq<int>, ghost origB: seq<int>, ghost S: seq<int>, ghost C: seq<int>)
    returns (ok: bool, j: int, ghost S': seq<int>, ghost C': seq<int>)
    requires InAlphabet(X, k) && SA != CB && i < |X|
    requires SA[..] == S && CB[..] == C && PlaceFrame(X, k, bbase, placed, orig, origB, S, C, i)
    modifies SA, CB
    ensures SA[..] == S' && CB[..] == C'
    ensures PlaceOutside(X, k, bbase, orig, origB, S', C')
    ensures ok == (0 <= S[i] < |X| && 0 <= C[bbase + X[S[i]]] - 1 < |X|)
    ensures ok ==> j == S[i] && PlaceRun(X, k, bbase, S', C', i - 1) == PlaceRun(X, k, bbase, S, C, i)
    ensures !ok ==> !PlaceRun(X, k, bbase, S, C, i).ok
    ensures ok ==> PlaceFrame(X, k, bbase, placed + [j], orig, origB, S', C', i - 1)
  {
    var n := |X|;
    j := SA[i];
    SA[i] := 0;
    S', C' := S[i := 0], C;
    assert SA[..] == S';
    OutsideSlot(X, k, bbase, orig, origB, S, C, i, 0);
    if !(0 <= j < n) {
      return false, j, S', C';
    }
    var index := X[j];
    var value := CB[bbase + index] - 1;
    CB[bbase + index] := value;
    C' := C[bbase + index := value];
    assert CB[..] == C';
    OutsideCursor(X, k, bbase, orig, origB, S', C, index, value);
    if !(0 <= value < n) {
      return false, j, S', C';
    }
    SA[value] := j;
    S' := S[i := 0][value := j];
    assert SA[..] == S';
    PlaceFrameStep(X, k, bbase, placed, orig, origB, S, C, i, j, value);
    ok := true;
  }

  /** Writing a slot of the text keeps the outer frame. */
  lemma OutsideSlot(X: seq<int>, k: nat, bbase: nat, orig: seq<int>, origB: seq<int>, S: seq<int>, C: seq<int>, t: nat, v: int)
    requires PlaceOutside(X, k, bbase, orig, origB, S, C) && t < |X|
    ensures PlaceOutside(X, k, bbase, orig, origB, S[t := v], C)
  {
  }

  /** Writing a cursor keeps the outer frame. */
  lemma OutsideCursor(X: seq<int>, k: nat, bbase: nat, orig: seq<int>, origB: seq<int>, S: seq<int>, C: seq<int>, index: nat, v: int)
    requires PlaceOutside(X, k, bbase, orig, origB, S, C) && index < k
    ensures PlaceOutside(X, k, bbase, orig, origB, S, C[bbase + index := v])
  {
  }

  /** The frame of the placement loop survives placing j = S[i] at value, the lowered cursor of X[j]. */
  lemma PlaceFrameStep(X: seq<int>, k: nat, bbase: nat, placed: seq<int>, orig: seq<int>, origB: seq<int>,
                       S: seq<int>, C: seq<int>, i: nat, j: int, value: int)
    requires InAlphabet(X, k) && i < |X| && PlaceFrame(X, k, bbase, placed, orig, origB, S, C, i)
    requires 0 <= j < |X| && S[i] == j && 0 <= value < |X| && value == C[bbase + X[j]] - 1
    ensures PlaceFrame(X, k, bbase, placed + [j], orig, origB, S[i := 0][value := j], C[bbase + X[j] := value], i - 1)
  {
    var P := placed + [j];
    assert P[..|P| - 1] == placed;
    forall t | bbase <= t < bbase + k
      ensures C[bbase + X[j] := value][t] == origB[t] - CharCount(X, P, t - bbase)
    {
    }
    forall t | 0 <= t < |X|
      ensures S[i := 0][value := j][t] == 0 || S[i := 0][value := j][t] in P || (t <= i - 1 && S[i := 0][value := j][t] == orig[t])
    {
      if t != value && t != i && S[t] != 0 && S[t] in placed {
        assert S[t] in P;
      }
    }
  }

  /** Writing cursor index of the window C[bbase..bbase + k] is writing slot bbase + index of C. */
  lemma SliceUpdate(C: seq<int>, bbase: nat, k: nat, index: nat, value: int)
    requires bbase + k <= |C| && index < k
    ensures C[bbase + index := value][bbase..bbase + k] == C[bbase..bbase + k][index := value]
  {
  }

  /**
   * The bucket arrays C and B (src/sais.cpp:145-157, 326-335). The source
   * keeps them in the free slots SA[n..n+fs) when k <= fs, with B after C
   * when there is room for both (k <= fs - k) and on top of C otherwise, and
   * in a new array of k entries when k > fs. Here the free slots are a fresh
   * array of their own; the placement rule is kept.
   */
  method Workspace(fs: nat, k: nat) returns (CB: array<int>, cbase: nat, bbase: nat)
    ensures fresh(CB) && cbase + k <= CB.Length && bbase + k <= CB.Length
    ensures cbase == 0 && bbase == if k <= fs && k <= fs - k then k else 0
  {
    if k <= fs {
      CB := new int[fs];
      cbase := 0;
      bbase := if k <= fs - k then k else 0;
    } else {
      CB := new int[k];
      cbase, bbase := 0, 0;
    }
  }

  /**
   * The first part of stage 1 (src/sais.cpp:147-191): seed the LMS
   * positions at the ends of their buckets and induce. The sweeps never
   * fail from this seeding, and SA[0..n) ends up induced: a permutation of
   * the positions, each in its character's bucket, the L-type ones of each
   * bucket before the S-type ones.
   */
  method InduceLmsSubstrings(X: seq<int>, SA: array<int>, fs: nat, k: nat)
    requires InAlphabet(X, k) && 1 <= |X| <= SA.Length
    modifies SA
    ensures Induced(X, k, SA[..])
    ensures forall t :: |X| <= t < SA.Length ==> SA[t] == old(SA[t])
  {
    var n := |X|;
    var CB, cbase, bbase := Workspace(fs, k);
    BucketEnds(X, CB, cbase, bbase, k);
    ClearRange(SA, 0, n);
    ghost var C0 := CB[cbase..cbase + k];
    SeedLms(X, SA, CB, bbase, k);
    assert cbase != bbase ==> CB[cbase..cbase + k] == C0;
    TextOrderSeeded(X, k, SA[..]);
    var ok := InduceSA(X, SA, CB, cbase, bbase, k);
    assert ok;
  }

  /**
   * Compacting an induced array keeps each LMS position once and nothing
   * else, and the name-buffer slots m + p/2 of the kept positions differ.
   */
  lemma CompactedLms(X: seq<int>, k: nat, S: seq<int>, ps: seq<int>)
    requires InAlphabet(X, k) && |X| <= |S| && Induced(X, k, S)
    requires ps == LmsEntries(X, S[..|X|])
    ensures LmsOnce(X, ps) && DistinctSlots(ps)
  {
    var induced := S[..|X|];
    assert Distinct(induced);
    LmsEntriesMembers(X, induced);
    LmsEntriesDistinct(X, induced);
    LmsSlotsDistinct(X, ps);
    forall p | Lms(X, p) ensures p in ps {
      assert p in induced;
    }
  }

  /**
   * The lengths the naming loop read from the length store S are the
   * LMS-substring lengths, and each record's name is in its slot of S'.
   */
  lemma NamesRead(X: seq<int>, ps: seq<int>, S: seq<int>, S': seq<int>, lens: seq<int>, isNew: seq<bool>, m: nat)
    requires LengthsFrom(X, S, m, 0) && |lens| == |ps| && |isNew| == |ps|
    requires forall r :: 0 <= r < |ps| ==> Lms(X, ps[r])
    requires forall r :: 0 <= r < |ps| ==> NameHeld(ps, S, S', lens, isNew, m, r)
    requires forall r :: 0 <= r < |ps| ==> m + ps[r] / 2 < |X|
    ensures TrueLengths(X, ps, lens) && NamesInSlots(X, S', ps, isNew, m)
  {
    forall r | 0 <= r < |ps|
      ensures lens[r] == NextLms(X, ps[r]) - ps[r]
      ensures m <= m + ps[r] / 2 < |X| && m + ps[r] / 2 < |S'| && S'[m + ps[r] / 2] == CountTrue(isNew[..r + 1])
    {
      assert NameHeld(ps, S, S', lens, isNew, m, r);
      assert LengthAt(X, S, m, ps[r]);
    }
  }

  /**
   * Stage 1 of `sais_main` (src/sais.cpp:139-279): seed the LMS positions
   * at the ends of their buckets, induce, compact the sorted LMS substrings
   * into SA[0..m), store their lengths in the name buffer SA[m..n) and name
   * them. The induction and the compaction never fail; when the length
   * store and the naming succeed, SA[0..m) holds each LMS position once,
   * record r was compared by the true length of its LMS substring and got
   * the name CountTrue(isNew[..r+1]), written to its slot m + p/2, and
   * name <= m, with name == m exactly when all names are distinct. Slots
   * from n on are never touched.
   */
  method SortLmsSubstrings(X: seq<int>, SA: array<int>, fs: nat, k: nat)
    returns (m: nat, name: nat, ok: bool, ghost lens: seq<int>, ghost isNew: seq<bool>)
    requires InAlphabet(X, k) && 1 <= |X| <= SA.Length
    modifies SA
    ensures ok ==> m <= |X| && name <= m
    ensures forall t :: |X| <= t < SA.Length ==> SA[t] == old(SA[t])
    ensures ok ==> NamedLms(X, SA[..], m, name, lens, isNew)
    ensures ok ==> CharSorted(X, SA[..m]) && BufferClear(X, SA[..], m)
  {
    var n := |X|;
    InduceLmsSubstrings(X, SA, fs, k);
    ghost var induced := SA[..];
    assert forall t :: 0 <= t < n ==> SA[t] == induced[t] < n;
    m, ok := Compact(X, SA);
    assert ok;
    ghost var ps := SA[..m];
    CompactedLms(X, k, induced, ps);
    forall t, u | 0 <= t < u < n ensures X[induced[..n][t]] <= X[induced[..n][u]] {
      InducedOrdered(X, k, induced, t, u);
    }
    LmsEntriesSorted(X, induced[..n]);
    name, ok, lens, isNew := NameLmsSubstrings(X, SA, m, ps);
  }

  /**
   * The second part of stage 1 (src/sais.cpp:222-279), on the m compacted
   * LMS positions ps = SA[0..m): clear the name buffer SA[m..n), store the
   * length of each LMS substring at SA[m + p/2] and name the substrings in
   * order. ok == false when a slot or a compared position is out of range.
   */
  method NameLmsSubstrings(X: seq<int>, SA: array<int>, m: nat, ghost ps: seq<int>)
    returns (name: nat, ok: bool, ghost lens: seq<int>, ghost isNew: seq<bool>)
    requires 1 <= |X| <= SA.Length && m <= |X| && SA[..m] == ps
    requires LmsOnce(X, ps) && DistinctSlots(ps)
    modifies SA
    ensures forall t :: |X| <= t < SA.Length ==> SA[t] == old(SA[t])
    ensures ok ==> name <= m && NamedLms(X, SA[..], m, name, lens, isNew)
    ensures ok ==> SA[..m] == ps && BufferClear(X, SA[..], m)
  {
    var n := |X|;
    ClearRange(SA, m, n);
    assert SA[..m] == ps;
    ghost var before := SA[..];
    ok := StoreLengths(X, SA, m);
    assert forall t :: n <= t < SA.Length ==> SA[t] == SA[..][t] && before[t] == old(SA[t]);
    if !ok {
      return 0, false, [], [];
    }
    ghost var stored := SA[..];
    BufferPrefix(X, before, stored, m);
    assert SA[..m] == stored[..m];
    name, ok, lens, isNew := NameSubstrings(X, SA, m);
    if ok {
      assert SA[..m] == ps;
      assert forall t :: 0 <= t < SA.Length && Unslotted(ps, m, t) ==> SA[..][t] == stored[t];
      StageOneNamed(X, ps, before, stored, SA[..], m, name, lens, isNew);
    }
  }

  /**
   * The outcome of stage 1's naming: with the buffer cleared in S0, the
   * lengths stored in S1 and the records named in S2, S2 holds the names
   * of every LMS position in its slot and nothing else in the buffer.
   */
  lemma StageOneNamed(X: seq<int>, ps: seq<int>, S0: seq<int>, S1: seq<int>, S2: seq<int>, m: nat,
                      name: nat, lens: seq<int>, isNew: seq<bool>)
    requires m <= |X| <= |S0| && forall t :: m <= t < |X| ==> S0[t] == 0
    requires BufferOnly(X, S0, S1, m) && LengthsFrom(X, S1, m, 0) && |S2| == |S1|
    requires LmsOnce(X, ps) && DistinctSlots(ps) && S2[..m] == ps
    requires |lens| == m && |isNew| == m && name == CountTrue(isNew) && name <= m
    requires forall r :: 0 <= r < m ==> NamedRecord(X, ps, lens, isNew, r)
    requires forall r :: 0 <= r < m ==> m <= m + S2[r] / 2 < |X|
    requires forall r :: 0 <= r < m ==> NameHeld(ps, S1, S2, lens, isNew, m, r)
    requires forall t :: 0 <= t < |S2| && Unslotted(ps, m, t) ==> S2[t] == S1[t]
    ensures NamedLms(X, S2, m, name, lens, isNew) && BufferClear(X, S2, m)
  {
    forall r | 0 <= r < m ensures m <= m + ps[r] / 2 < |X| {
      assert S2[r] == ps[r];
    }
    NamesRead(X, ps, S1, S2, lens, isNew, m);
    BufferCleared(X, ps, S0, S1, S2, m);
  }

  /**
   * A buffer cleared to zero, then changed only at the slots of LMS
   * positions by the length store and only at the records' slots by the
   * naming, still holds zero at every slot of no LMS position.
   */
  lemma BufferCleared(X: seq<int>, ps: seq<int>, S0: seq<int>, S1: seq<int>, S2: seq<int>, m: nat)
    requires |X| <= |S0| && forall t :: m <= t < |X| ==> S0[t] == 0
    requires BufferOnly(X, S0, S1, m) && |S2| == |S1|
    requires LmsOnce(X, ps)
    requires forall t :: 0 <= t < |S2| && Unslotted(ps, m, t) ==> S2[t] == S1[t]
    ensures BufferClear(X, S2, m)
  {
    forall t | m <= t < |X| && t < |S2| && !Lms(X, 2 * (t - m)) && !Lms(X, 2 * (t - m) + 1) ensures S2[t] == 0 {
      forall r | 0 <= r < |ps| ensures m + ps[r] / 2 != t {
        assert ps[r] in ps;
      }
      assert Unslotted(ps, m, t);
    }
  }

  /**
   * The name-buffer slots SA[m + i], i < n - m, that belong to no LMS
   * position (neither 2i nor 2i + 1 is one) hold 0.
   */
  ghost predicate BufferClear(X: seq<int>, S: seq<int>, m: nat)
  {
    forall t :: m <= t < |X| && t < |S| && !Lms(X, 2 * (t - m)) && !Lms(X, 2 * (t - m) + 1) ==> S[t] == 0
  }

  /**
   * The outcome of stage 1 in S: SA[0..m) holds each LMS position once;
   * record r was compared by the true length of its LMS substring and named
   * as NamedRecord says; its name, the count of new names among records
   * 0..r, is in its slot m + p/2; and name counts the new names.
   */
  ghost predicate NamedLms(X: seq<int>, S: seq<int>, m: nat, name: nat, lens: seq<int>, isNew: seq<bool>)
  {
    m <= |X| <= |S| && |lens| == m && |isNew| == m && name == CountTrue(isNew) &&
    LmsOnce(X, S[..m]) && TrueLengths(X, S[..m], lens) &&
    AllNamed(X, S[..m], lens, isNew) && NamesInSlots(X, S, S[..m], isNew, m)
  }

  /** The outcome of stage 1 with the records sorted by first character and the name buffer clear outside the LMS slots. */
  ghost predicate NamedSorted(X: seq<int>, S: seq<int>, m: nat, name: nat, lens: seq<int>, isNew: seq<bool>)
  {
    NamedLms(X, S, m, name, lens, isNew) && CharSorted(X, S[..m]) && BufferClear(X, S, m)
  }

  /** Each record's length is the length of the LMS substring at its position. */
  ghost predicate TrueLengths(X: seq<int>, ps: seq<int>, lens: seq<int>)
  {
    |lens| == |ps| &&
    forall r :: 0 <= r < |ps| ==> Lms(X, ps[r]) && lens[r] == NextLms(X, ps[r]) - ps[r]
  }

  /** Every record got a new name exactly as NamedRecord says. */
  ghost predicate AllNamed(X: seq<int>, ps: seq<int>, lens: seq<int>, isNew: seq<bool>)
  {
    |lens| == |ps| && |isNew| == |ps| &&
    forall r :: 0 <= r < |ps| ==> NamedRecord(X, ps, lens, isNew, r)
  }

  /** Each record's name, the count of new names up to it, is in its slot m + p/2 of S, inside [m, n). */
  ghost predicate NamesInSlots(X: seq<int>, S: seq<int>, ps: seq<int>, isNew: seq<bool>, m: nat)
  {
    |isNew| == |ps| &&
    forall r :: 0 <= r < |ps| ==> m <= m + ps[r] / 2 < |X| && m + ps[r] / 2 < |S| && S[m + ps[r] / 2] == CountTrue(isNew[..r + 1])
  }

  /** Counting the true entries of a longer prefix never gives less; an equal count means no true entry in between. */
  lemma {:induction false} CountTrueMonotone(s: seq<bool>, a: nat, b: nat)
    requires a <= b <= |s|
    ensures CountTrue(s[..a]) <= CountTrue(s[..b])
    ensures CountTrue(s[..a]) == CountTrue(s[..b]) ==> forall r :: a <= r < b ==> !s[r]
    decreases b - a
  {
    if a < b {
      CountTrueMonotone(s, a, b - 1);
      assert s[..b][..b - 1] == s[..b - 1];
    }
  }

  /** The first record always gets a new name, name 1: nothing was named before it. */
  lemma FirstNew(X: seq<int>, ps: seq<int>, lens: seq<int>, isNew: seq<bool>)
    requires TrueLengths(X, ps, lens) && AllNamed(X, ps, lens, isNew) && 0 < |ps|
    ensures isNew[0] && CountTrue(isNew[..1]) == 1
  {
    assert NamedRecord(X, ps, lens, isNew, 0);
    assert isNew[..1][..0] == [];
  }

  /** With the first record new, the last newly named record before record i > 0 is some z < i, and none after z is new. */
  lemma {:induction false} LastNamedAt(ps: seq<int>, lens: seq<int>, isNew: seq<bool>, i: nat, n: int) returns (z: nat)
    requires 0 < i <= |ps| && i <= |lens| && i <= |isNew| && isNew[0]
    ensures z < i && isNew[z] && LastNamed(ps, lens, isNew, i, n) == (ps[z], lens[z])
    ensures forall r :: z < r < i ==> !isNew[r]
  {
    if isNew[i - 1] {
      z := i - 1;
    } else {
      z := LastNamedAt(ps, lens, isNew, i - 1, n);
    }
  }

  /**
   * Names follow first characters: when record a's name is at most record
   * b's, the first character of a's substring is at most b's. A record that
   * shares the name of an earlier one shares its substring, so its first
   * character, and the records are sorted by first character.
   */
  lemma NameOrder(X: seq<int>, ps: seq<int>, lens: seq<int>, isNew: seq<bool>, a: nat, b: nat)
    requires CharSorted(X, ps) && TrueLengths(X, ps, lens) && AllNamed(X, ps, lens, isNew)
    requires a < |ps| && b < |ps| && CountTrue(isNew[..a + 1]) <= CountTrue(isNew[..b + 1])
    ensures X[ps[a]] <= X[ps[b]]
  {
    if b < a {
      CountTrueMonotone(isNew, b + 1, a + 1);
      FirstNew(X, ps, lens, isNew);
      var z := LastNamedAt(ps, lens, isNew, a, |X|);
      assert NamedRecord(X, ps, lens, isNew, a);
      assert SameAt(X, ps[a], ps[z], 0);
    }
  }

  /** Every LMS position has its name, at least 1, in its slot inside the name buffer. */
  lemma NamesPositive(X: seq<int>, S: seq<int>, ps: seq<int>, m: nat, lens: seq<int>, isNew: seq<bool>)
    requires LmsOnce(X, ps) && TrueLengths(X, ps, lens) && AllNamed(X, ps, lens, isNew)
    requires NamesInSlots(X, S, ps, isNew, m)
    ensures forall p :: Lms(X, p) ==> m + p / 2 < |X|
    ensures forall t :: m <= t < |X| && (Lms(X, 2 * (t - m)) || Lms(X, 2 * (t - m) + 1)) ==> S[t] >= 1
  {
    forall p | Lms(X, p) ensures m + p / 2 < |X| && S[m + p / 2] >= 1 {
      assert p in ps;
      FirstNew(X, ps, lens, isNew);
      NamePositiveAt(X, S, ps, m, isNew, p);
    }
    SlotsPositive(X, S, m);
  }

  /** A slot t of the name buffer that belongs to an LMS position, 2(t - m) or 2(t - m) + 1, holds its name. */
  lemma SlotsPositive(X: seq<int>, S: seq<int>, m: nat)
    requires forall p :: Lms(X, p) ==> m + p / 2 < |X| && m + p / 2 < |S| && S[m + p / 2] >= 1
    ensures forall t :: m <= t < |X| && (Lms(X, 2 * (t - m)) || Lms(X, 2 * (t - m) + 1)) ==> S[t] >= 1
  {
    forall t | m <= t < |X| && (Lms(X, 2 * (t - m)) || Lms(X, 2 * (t - m) + 1)) ensures S[t] >= 1 {
      var u := 2 * (t - m);
      assert u / 2 == (u + 1) / 2 == t - m;
      if Lms(X, u) {
        assert S[m + u / 2] >= 1;
      } else {
        assert S[m + (u + 1) / 2] >= 1;
      }
    }
  }

  /** The LMS position p has its name, at least 1, in its slot m + p/2 inside the name buffer. */
  lemma NamePositiveAt(X: seq<int>, S: seq<int>, ps: seq<int>, m: nat, isNew: seq<bool>, p: int)
    requires NamesInSlots(X, S, ps, isNew, m) && p in ps && CountTrue(isNew[..1]) == 1
    ensures m + p / 2 < |X| && S[m + p / 2] >= 1
  {
    var r := IndexOf(ps, p);
    CountTrueMonotone(isNew, 1, r + 1);
    assert S[m + ps[r] / 2] == CountTrue(isNew[..r + 1]);
  }

  /** The names, less one, that S holds in the name-buffer slots of the positions ps. */
  ghost function NamesOf(S: seq<int>, m: nat, ps: seq<nat>): (r: seq<int>)
    requires forall i :: 0 <= i < |ps| ==> m + ps[i] / 2 < |S|
    ensures |r| == |ps| && forall i :: 0 <= i < |ps| ==> r[i] == S[m + ps[i] / 2] - 1
  {
    seq(|ps|, i requires 0 <= i < |ps| => S[m + ps[i] / 2] - 1)
  }

  /** There is no LMS position from lo on when none is at or after lo. */
  lemma {:induction false} LmsListEmpty(X: seq<int>, lo: nat)
    requires forall p :: lo <= p ==> !Lms(X, p)
    ensures LmsList(X, lo) == []
    decreases |X| - lo
  {
    if lo < |X| {
      LmsListEmpty(X, lo + 1);
    }
  }

  /**
   * The reduced text is the names, less one, of the LMS positions in text
   * order: from buffer slot t on, Reduced collects the names of the LMS
   * positions from 2(t - m) on, because slot m + i belongs to the LMS
   * position 2i or 2i + 1 (at most one of them is one) and holds 0 when
   * neither is.
   */
  lemma {:induction false} ReducedNames(X: seq<int>, S: seq<int>, m: nat, t: nat)
    requires m <= t <= |X| <= |S| && BufferClear(X, S, m)
    requires forall p :: Lms(X, p) ==> m + p / 2 < |X|
    requires forall t :: m <= t < |X| && (Lms(X, 2 * (t - m)) || Lms(X, 2 * (t - m) + 1)) ==> S[t] >= 1
    ensures Reduced(S, t, |X|) == NamesOf(S, m, LmsList(X, 2 * (t - m)))
    decreases |X| - t
  {
    var u := 2 * (t - m);
    if t == |X| {
      LmsListEmpty(X, u);
    } else {
      ReducedNames(X, S, m, t + 1);
      assert 2 * (t + 1 - m) == u + 2;
      assert (Lms(X, u) || Lms(X, u + 1)) ==> S[t] >= 1;
      assert !Lms(X, u) && !Lms(X, u + 1) ==> S[t] == 0;
      ReducedStep(X, S, m, t);
    }
  }

  /** One slot of the name buffer: slot t holds the name of LMS position 2(t - m) or 2(t - m) + 1, or is 0 when neither is one. */
  lemma ReducedStep(X: seq<int>, S: seq<int>, m: nat, t: nat)
    requires m <= t < |X| <= |S|
    requires forall p :: Lms(X, p) ==> m + p / 2 < |X|
    requires (Lms(X, 2 * (t - m)) || Lms(X, 2 * (t - m) + 1)) ==> S[t] >= 1
    requires !Lms(X, 2 * (t - m)) && !Lms(X, 2 * (t - m) + 1) ==> S[t] == 0
    requires Reduced(S, t + 1, |X|) == NamesOf(S, m, LmsList(X, 2 * (t - m) + 2))
    ensures Reduced(S, t, |X|) == NamesOf(S, m, LmsList(X, 2 * (t - m)))
  {
    var u := 2 * (t - m);
    LmsListPair(X, u);
    var L := LmsList(X, u + 2);
    if Lms(X, u) {
      ReducedCons(S, m, t, |X|, u, L);
    } else if Lms(X, u + 1) {
      ReducedCons(S, m, t, |X|, u + 1, L);
    }
  }

  /** A named slot t puts the name of its position p in front of the names held from t + 1 on. */
  lemma ReducedCons(S: seq<int>, m: nat, t: nat, hi: nat, p: nat, L: seq<nat>)
    requires m + p / 2 == t < hi <= |S| && S[t] >= 1
    requires forall i :: 0 <= i < |L| ==> m + L[i] / 2 < |S|
    requires Reduced(S, t + 1, hi) == NamesOf(S, m, L)
    ensures Reduced(S, t, hi) == NamesOf(S, m, [p] + L)
  {
    NamesCons(S, m, p, L);
  }

  /** The LMS positions from u on: u or u + 1 (at most one of them is one), then those from u + 2 on. */
  lemma LmsListPair(X: seq<int>, u: nat)
    ensures LmsList(X, u) ==
      if Lms(X, u) then [u] + LmsList(X, u + 2)
      else if Lms(X, u + 1) then [u + 1] + LmsList(X, u + 2)
      else LmsList(X, u + 2)
  {
    if Lms(X, u) {
      LmsGap(X, u);
    }
  }

  /** The names of p followed by the positions L: p's name first. */
  lemma NamesCons(S: seq<int>, m: nat, p: nat, L: seq<nat>)
    requires m + p / 2 < |S| && forall i :: 0 <= i < |L| ==> m + L[i] / 2 < |S|
    ensures NamesOf(S, m, [p] + L) == [S[m + p / 2] - 1] + NamesOf(S, m, L)
  {
  }

  /**
   * After stage 1 the reduced text Reduced(S, m, n) is the sequence of the
   * names, less one, of the LMS positions in text order, and there are m
   * of them.
   */
  lemma ReducedText(X: seq<int>, S: seq<int>, m: nat, name: nat, lens: seq<int>, isNew: seq<bool>)
    requires NamedLms(X, S, m, name, lens, isNew) && BufferClear(X, S, m)
    ensures |LmsList(X, 0)| == m && forall p :: Lms(X, p) ==> m + p / 2 < |X|
    ensures Reduced(S, m, |X|) == NamesOf(S, m, LmsList(X, 0))
  {
    NamesPositive(X, S, S[..m], m, lens, isNew);
    ReducedNames(X, S, m, m);
    LmsCount(X, S[..m]);
  }

  /**
   * Mapping back: when R induces the reduced text w, the LMS positions
   * F[i] = LmsList(X, 0)[R[i]] list every LMS position once, sorted by first
   * character, because w orders them by name and names follow first
   * characters.
   */
  lemma ExpandedSorted(X: seq<int>, S: seq<int>, ps: seq<int>, m: nat, lens: seq<int>, isNew: seq<bool>,
                       name: nat, w: seq<int>, R: seq<int>, F: seq<int>)
    requires LmsOnce(X, ps) && CharSorted(X, ps) && TrueLengths(X, ps, lens) && AllNamed(X, ps, lens, isNew)
    requires NamesInSlots(X, S, ps, isNew, m)
    requires |LmsList(X, 0)| == m && w == NamesOf(S, m, LmsList(X, 0))
    requires InAlphabet(w, name) && |w| <= |R| && Induced(w, name, R)
    requires m <= |F| && forall i :: 0 <= i < m ==> 0 <= R[i] < m && F[i] == LmsList(X, 0)[R[i]]
    ensures SortedLms(X, F[..m])
  {
    var L := LmsList(X, 0);
    var G := F[..m];
    ExpandedOnce(w, name, R, L, G);
    forall p | Lms(X, p) ensures p in G {
      LmsListComplete(X, 0, p);
      var j :| 0 <= j < m && L[j] == p;
      assert L[j] in G;
    }
    ExpandedOrdered(X, S, ps, m, lens, isNew, name, w, R, G);
  }

  /** The ranks R[0..m) are a permutation of [0, m), so G[i] = L[R[i]] lists the distinct entries of L once each. */
  lemma ExpandedOnce(w: seq<int>, name: nat, R: seq<int>, L: seq<nat>, G: seq<int>)
    requires InAlphabet(w, name) && |w| <= |R| && Induced(w, name, R) && |L| == |w| == |G|
    requires forall j, j' :: 0 <= j < j' < |L| ==> L[j] < L[j']
    requires forall i :: 0 <= i < |G| ==> 0 <= R[i] < |L| && G[i] == L[R[i]]
    ensures Distinct(G) && forall j :: 0 <= j < |L| ==> L[j] in G
  {
    forall i, i' | 0 <= i < i' < |G| ensures G[i] != G[i'] {
      assert R[i] != R[i'];
      assert L[R[i]] != L[R[i']] by {
        if R[i] < R[i'] {
          assert L[R[i]] < L[R[i']];
        } else {
          assert L[R[i']] < L[R[i]];
        }
      }
    }
    forall j | 0 <= j < |L| ensures L[j] in G {
      assert j in R[..|w|];
      var i :| 0 <= i < |w| && R[i] == j;
      assert G[i] == L[j];
    }
  }

  /** The expanded LMS positions G are sorted by first character: the ranks order them by name, and names follow first characters. */
  lemma ExpandedOrdered(X: seq<int>, S: seq<int>, ps: seq<int>, m: nat, lens: seq<int>, isNew: seq<bool>,
                        name: nat, w: seq<int>, R: seq<int>, G: seq<int>)
    requires LmsOnce(X, ps) && CharSorted(X, ps) && TrueLengths(X, ps, lens) && AllNamed(X, ps, lens, isNew)
    requires NamesInSlots(X, S, ps, isNew, m)
    requires |LmsList(X, 0)| == m && w == NamesOf(S, m, LmsList(X, 0))
    requires InAlphabet(w, name) && |w| <= |R| && Induced(w, name, R)
    requires |G| == m && forall i :: 0 <= i < m ==> 0 <= R[i] < m && G[i] == LmsList(X, 0)[R[i]]
    ensures CharSorted(X, G)
  {
    forall i | 0 <= i < m ensures 0 <= G[i] < |X| {
      assert Lms(X, LmsList(X, 0)[R[i]]);
    }
    forall i, i' | 0 <= i < i' < m ensures X[G[i]] <= X[G[i']] {
      InducedOrdered(w, name, R, i, i');
      ExpandedPair(X, S, ps, m, lens, isNew, w, R, G, i, i');
    }
  }

  /** Ranks i and i' whose characters of the reduced text are in order stand for LMS positions whose first characters are in order. */
  lemma ExpandedPair(X: seq<int>, S: seq<int>, ps: seq<int>, m: nat, lens: seq<int>, isNew: seq<bool>,
                     w: seq<int>, R: seq<int>, G: seq<int>, i: nat, i': nat)
    requires LmsOnce(X, ps) && CharSorted(X, ps) && TrueLengths(X, ps, lens) && AllNamed(X, ps, lens, isNew)
    requires NamesInSlots(X, S, ps, isNew, m)
    requires |LmsList(X, 0)| == m && w == NamesOf(S, m, LmsList(X, 0))
    requires i < m && i' < m && m <= |R| && |G| == m
    requires 0 <= R[i] < m && G[i] == LmsList(X, 0)[R[i]] && 0 <= R[i'] < m && G[i'] == LmsList(X, 0)[R[i']]
    requires w[R[i]] <= w[R[i']]
    ensures 0 <= G[i] < |X| && 0 <= G[i'] < |X| && X[G[i]] <= X[G[i']]
  {
    var a, b := RankRecords(X, S, ps, m, isNew, w, R, G, i, i');
    NameOrder(X, ps, lens, isNew, a, b);
  }

  /** The records a and b of ranks i and i': their names are in the order the reduced text gives them. */
  lemma RankRecords(X: seq<int>, S: seq<int>, ps: seq<int>, m: nat, isNew: seq<bool>,
                    w: seq<int>, R: seq<int>, G: seq<int>, i: nat, i': nat) returns (a: nat, b: nat)
    requires LmsOnce(X, ps) && NamesInSlots(X, S, ps, isNew, m)
    requires |LmsList(X, 0)| == m && w == NamesOf(S, m, LmsList(X, 0))
    requires i < m && i' < m && m <= |R| && |G| == m
    requires 0 <= R[i] < m && G[i] == LmsList(X, 0)[R[i]] && 0 <= R[i'] < m && G[i'] == LmsList(X, 0)[R[i']]
    requires w[R[i]] <= w[R[i']]
    ensures a < |ps| && b < |ps| && ps[a] == G[i] && ps[b] == G[i']
    ensures CountTrue(isNew[..a + 1]) <= CountTrue(isNew[..b + 1])
  {
    RankName(X, S, ps, m, isNew, w, R, G, i);
    RankName(X, S, ps, m, isNew, w, R, G, i');
    a := SlotRecord(X, S, ps, m, isNew, G[i]);
    b := SlotRecord(X, S, ps, m, isNew, G[i']);
  }

  /** The record a of the position x: its name, the count of new names up to it, is in x's slot. */
  lemma SlotRecord(X: seq<int>, S: seq<int>, ps: seq<int>, m: nat, isNew: seq<bool>, x: int) returns (a: nat)
    requires NamesInSlots(X, S, ps, isNew, m) && x in ps
    ensures a < |ps| && ps[a] == x && m + x / 2 < |S| && S[m + x / 2] == CountTrue(isNew[..a + 1])
  {
    a := IndexOf(ps, x);
  }

  /** Rank i of the reduced text stands for LMS position G[i], whose name, less one, is the character of the reduced text there. */
  lemma RankName(X: seq<int>, S: seq<int>, ps: seq<int>, m: nat, isNew: seq<bool>, w: seq<int>, R: seq<int>, G: seq<int>, i: nat)
    requires LmsOnce(X, ps) && NamesInSlots(X, S, ps, isNew, m)
    requires |LmsList(X, 0)| == m && w == NamesOf(S, m, LmsList(X, 0))
    requires i < m <= |R| && |G| == m && 0 <= R[i] < m && G[i] == LmsList(X, 0)[R[i]]
    ensures G[i] in ps && m + G[i] / 2 < |S| && w[R[i]] == S[m + G[i] / 2] - 1
  {
    assert Lms(X, LmsList(X, 0)[R[i]]);
  }

  /**
   * Stage 2 of `sais_main` (src/sais.cpp:281-319), entered when two LMS
   * substrings share a name: the reduced text goes to SA[n+fs-m..n+fs), is
   * solved recursively in SA[0..m) with fs + n - 2m free slots, and the
   * ranks are mapped back to LMS positions. Slots from n + fs on are never
   * touched. ok == false when the reduced text does not fit or is not over
   * [0, name), or when fuel runs out.
   */
  method SolveReduced(X: seq<int>, SA: array<int>, fs: nat, m: nat, name: nat, fuel: nat,
                      ghost lens: seq<int>, ghost isNew: seq<bool>) returns (ok: bool)
    requires 1 <= |X| && m <= |X| && |X| + fs <= SA.Length
    modifies SA
    ensures forall t :: |X| + fs <= t < SA.Length ==> SA[t] == old(SA[t])
    ensures ok && NamedSorted(X, old(SA[..]), m, name, lens, isNew) ==> SortedLms(X, SA[..m])
    decreases fuel, 0
  {
    var n := |X|;
    ghost var S1 := SA[..];
    ok := ReduceText(SA, n, m, fs);
    if !ok || n + fs < 2 * m || m == 0 || fuel == 0 {
      return false;
    }
    ghost var S2 := SA[..];
    var ra := n + fs - m;
    var reduced := SA[ra..ra + m];
    if !InAlphabet(reduced, name) {
      return false;
    }
    ok := SaisMain(reduced, SA, fs + n - 2 * m, name, fuel - 1);
    if !ok {
      return;
    }
    ghost var R := SA[..];
    ok := Expand(X, SA, ra, m);
    if ok {
      SolvedSorted(X, S1, S2, m, name, lens, isNew, n + fs, reduced, R, SA[..]);
    }
  }

  /**
   * Stage 2 end to end: from the outcome of stage 1 in S1, the reduced text
   * S2 holds, the ranks R that induce it, and the positions F they map back
   * to, F[0..m) lists every LMS position once, sorted by first character.
   */
  lemma SolvedSorted(X: seq<int>, S1: seq<int>, S2: seq<int>, m: nat, name: nat, lens: seq<int>, isNew: seq<bool>,
                     e: nat, w: seq<int>, R: seq<int>, F: seq<int>)
    requires m <= |X| <= |S1| && |X| <= e <= |S2| && m <= e - m
    requires |Reduced(S1, m, |X|)| <= m && S2[e - |Reduced(S1, m, |X|)|..e] == Reduced(S1, m, |X|)
    requires w == S2[e - m..e] && InAlphabet(w, name) && |w| <= |R| && Induced(w, name, R)
    requires |LmsList(X, 0)| == m ==> m <= |F| && forall i :: 0 <= i < m ==> 0 <= R[i] < m && F[i] == LmsList(X, 0)[R[i]]
    ensures NamedSorted(X, S1, m, name, lens, isNew) ==> m <= |F| && SortedLms(X, F[..m])
  {
    if NamedSorted(X, S1, m, name, lens, isNew) {
      ReducedText(X, S1, m, name, lens, isNew);
      ExpandedSorted(X, S1, S1[..m], m, lens, isNew, name, w, R, F);
    }
  }

  /**
   * Stage 3 of `sais_main` (src/sais.cpp:321-351): the sorted LMS positions
   * SA[0..m) go to the ends of their buckets and the suffix array is induced
   * from them. Slots from n on are never touched.
   */
  method InduceFromLms(X: seq<int>, SA: array<int>, fs: nat, k: nat, m: nat) returns (ok: bool)
    requires InAlphabet(X, k) && 1 <= |X| <= SA.Length && m <= |X|
    modifies SA
    ensures forall t :: |X| <= t < SA.Length ==> SA[t] == old(SA[t])
    ensures SortedLms(X, old(SA[..m])) ==> ok && Induced(X, k, SA[..])
  {
    ghost var ps := SA[..m];
    var CB, cbase, bbase := Workspace(fs, k);
    BucketEnds(X, CB, cbase, bbase, k);
    ClearRange(SA, m, |X|);
    assert SA[..m] == ps;
    ghost var C0 := CB[cbase..cbase + k];
    ghost var placed;
    ok, placed := PlaceLms(X, SA, CB, bbase, k, m);
    if !ok {
      return;
    }
    assert cbase != bbase ==> CB[cbase..cbase + k] == C0;
    ok := InduceSA(X, SA, CB, cbase, bbase, k);
  }

  /**
   * `sais_main` (src/sais.cpp:127-358) on the text X over the alphabet
   * [0, k), with fs free slots after SA[0..n): the three stages, the second
   * only when the names of the LMS substrings are not all distinct. Slots
   * from n + fs on are never touched. ok == false when a step leaves the
   * range this model proves (see the steps) or fuel, the recursion depth
   * allowed, runs out.
   */
  method SaisMain(X: seq<int>, SA: array<int>, fs: nat, k: nat, fuel: nat) returns (ok: bool)
    requires InAlphabet(X, k) && 1 <= |X| && |X| + fs <= SA.Length
    modifies SA
    ensures forall t :: |X| + fs <= t < SA.Length ==> SA[t] == old(SA[t])
    ensures ok ==> Induced(X, k, SA[..])
    decreases fuel, 1
  {
    var m, name;
    ghost var lens, isNew;
    m, name, ok, lens, isNew := SortLmsSubstrings(X, SA, fs, k);
    if !ok {
      return;
    }
    if name < m {
      ok := SolveReduced(X, SA, fs, m, name, fuel, lens, isNew);
      if !ok {
        return;
      }
    }
    ok := InduceFromLms(X, SA, fs, k, m);
  }
}
