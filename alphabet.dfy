/**
 * `calculate_alphabet_size` of src/utility.c: the number of distinct byte
 * values in a text, counted in a uint8_t, so that a text using all 256 values
 * yields 0.
 */
module Alphabet {
  import opened Common

  /** The byte values that occur in T. */
  ghost function Values(T: seq<uint8>): set<uint8> {
    set i | 0 <= i < |T| :: T[i]
  }

  /**
   * One pass over T with a 256-entry table of seen values; a value is counted
   * the first time its entry moves from 0 to 1. The uint8_t counter wraps.
   */
  method CalculateAlphabetSize(T: seq<uint8>) returns (size: uint8)
    ensures size == |Values(T)| % 256
  {
    var alphabet := new uint8[256](_ => 0);
    size := 0;
    var i := 0;
    ghost var seen: set<uint8> := {};
    while i < |T|
      invariant 0 <= i <= |T|
      invariant seen == Values(T[..i])
      invariant TableMarks(alphabet[..], seen)
      invariant Counted(size, seen)
    {
      var val := T[i];
      ValuesStep(T, i);
      size := Visit(alphabet, val, size, seen);
      seen := seen + {val};
      i := i + 1;
    }
    assert T[..i] == T;
  }

  /**
   * One pass of the loop: a value whose entry is 0 has the entry incremented
   * to 1 and is counted; a value already marked changes nothing.
   */
  method Visit(alphabet: array<uint8>, val: uint8, size: uint8, ghost seen: set<uint8>) returns (newSize: uint8)
    requires TableMarks(alphabet[..], seen) && Counted(size, seen) && |seen + {val}| <= 256
    modifies alphabet
    ensures TableMarks(alphabet[..], seen + {val}) && Counted(newSize, seen + {val})
  {
    newSize := size;
    if alphabet[val] == 0 {
      MarkStep(alphabet[..], seen, val);
      CountStep(size, seen, val);
      alphabet[val] := alphabet[val] + 1;
      newSize := (size + 1) % 256;
    } else {
      assert seen + {val} == seen;
    }
  }

  /** The wrapping uint8_t counter holds the number of values seen. */
  ghost predicate Counted(size: uint8, seen: set<uint8>) {
    |seen| <= 256 && size == if |seen| == 256 then 0 else |seen|
  }

  /** Entry v of the table is 1 exactly for the values seen so far, and 0 otherwise. */
  ghost predicate TableMarks(table: seq<uint8>, seen: set<uint8>) {
    |table| == 256 && forall v :: 0 <= v < 256 ==> table[v] == (if v in seen then 1 else 0)
  }

  /** One more character adds its value to the values seen, of which there are at most 256. */
  lemma ValuesStep(T: seq<uint8>, i: nat)
    requires i < |T|
    ensures Values(T[..i + 1]) == Values(T[..i]) + {T[i]}
    ensures |Values(T[..i + 1])| <= 256
  {
    assert T[..i + 1] == T[..i] + [T[i]];
    ValuesBound(T[..i + 1]);
  }

  /** Marking an unmarked entry records its value as seen, and the value was not seen before. */
  lemma MarkStep(table: seq<uint8>, seen: set<uint8>, v: uint8)
    requires TableMarks(table, seen) && table[v] == 0
    ensures v !in seen && TableMarks(table[v := 1], seen + {v})
  {
  }

  /** Counting one more value in the wrapping counter. */
  lemma CountStep(size: uint8, seen: set<uint8>, v: uint8)
    requires v !in seen && |seen + {v}| <= 256
    requires size == if |seen| == 256 then 0 else |seen|
    ensures (size + 1) % 256 == if |seen + {v}| == 256 then 0 else |seen + {v}|
  {
    assert |seen + {v}| == |seen| + 1;
  }

  /** At most 256 byte values can occur, so the count wraps only when every value occurs. */
  lemma ValuesBound(T: seq<uint8>)
    ensures |Values(T)| <= 256
  {
    RangeSize(256);
    SubsetSize(Values(T), Range(256));
  }

  lemma {:induction false} SubsetSize(A: set<int>, B: set<int>)
    requires A <= B
    ensures |A| <= |B|
  {
    if A != {} {
      if forall y :: y !in A {
        assert false;
      }
      var x :| x in A;
      SubsetSize(A - {x}, B - {x});
    }
  }

  /** The integers 0..k-1. */
  ghost function Range(k: nat): set<int> {
    if k == 0 then {} else Range(k - 1) + {k - 1}
  }

  lemma {:induction false} RangeSize(k: nat)
    ensures |Range(k)| == k
    ensures forall x :: x in Range(k) <==> 0 <= x < k
  {
    if k > 0 {
      RangeSize(k - 1);
    }
  }

  /** Repeating a text adds no new values: "ababababab" has the alphabet of "ab". */
  lemma {:induction false} ValuesOfRepetition(T: seq<uint8>, U: seq<uint8>)
    requires Values(U) <= Values(T)
    ensures Values(T + U) == Values(T)
  {
    forall x | x in Values(T + U)
      ensures x in Values(T)
    {
      var i :| 0 <= i < |T + U| && (T + U)[i] == x;
      if i >= |T| {
        assert U[i - |T|] == x;
      }
    }
    forall x | x in Values(T)
      ensures x in Values(T + U)
    {
      var i :| 0 <= i < |T| && T[i] == x;
      assert (T + U)[i] == x;
    }
  }
}
