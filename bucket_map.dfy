/**
 * The bucket map of src/bucket_map.cpp: one Bucket per starting character
 * that has any bits reserved for it, and the number of substrings inserted
 * through the map.
 */
module BucketMaps {
  import opened Common
  import opened BitVec
  import opened Utility
  import opened Buckets
  import BucketExamples

  class BucketMap {
    var buckets: map<uint8, Bucket>
    var numOfSubstrings: nat

    /** Every bucket sits under its own character, so no two keys share a bucket. */
    ghost predicate Valid()
      reads this, buckets.Values
    {
      forall c :: c in buckets ==> buckets[c].c == c && buckets[c].Valid()
    }

    /**
     * `BucketMap(bitcounts)`: a fresh, empty bucket of bitcounts[c] bits for
     * exactly the characters c whose count is not zero, and a total of 0.
     */
    constructor (bitcounts: seq<uint64>)
      requires |bitcounts| == 256
      ensures Valid() && numOfSubstrings == 0
      ensures forall c: uint8 :: c in buckets <==> bitcounts[c] != 0
      ensures forall c :: c in buckets ==> fresh(buckets[c])
      ensures forall c :: c in buckets ==>
        buckets[c].bits == bitcounts[c] && buckets[c].b == Zeros(bitcounts[c]) &&
        buckets[c].strings == 0 && buckets[c].nextPosition == 0
    {
      var m: map<uint8, Bucket> := map[];
      var i := 0;
      while i < 256
        invariant 0 <= i <= 256
        invariant forall c: uint8 :: c in m <==> c < i && bitcounts[c] != 0
        invariant forall c :: c in m ==> fresh(m[c])
        invariant forall c :: c in m ==>
          m[c].c == c && m[c].Valid() && m[c].bits == bitcounts[c] && m[c].b == Zeros(bitcounts[c]) &&
          m[c].strings == 0 && m[c].nextPosition == 0
      {
        if bitcounts[i] != 0 {
          var bucket := new Bucket(i as uint8, bitcounts[i]);
          m := m[i as uint8 := bucket];
        }
        i := i + 1;
      }
      buckets := m;
      numOfSubstrings := 0;
    }

    /** `getTotalNumberOfSubstrings()`. */
    function TotalNumberOfSubstrings(): (r: nat)
      reads this
      ensures r == numOfSubstrings
    {
      numOfSubstrings
    }

    /**
     * `insert_substring(T, n, k, p, l)`: the substring goes into the bucket of
     * its first character T[p], which must exist; the total grows by one and no
     * other bucket changes.
     */
    method InsertSubstring(T: seq<uint8>, n: uint64, k: uint8, p: uint64, l: uint64)
      requires Valid() && k != 1 && p < |T| && T[p] in buckets
      requires l <= SsLimit(n, k) ==> p + l <= |T|
      requires buckets[T[p]].nextPosition + RecordSize(n, k, l) <= |buckets[T[p]].b|
      modifies this, buckets[T[p]]
      ensures Valid() && buckets == old(buckets)
      ensures numOfSubstrings == old(numOfSubstrings) + 1
      ensures buckets[T[p]].b == Inserted(old(buckets[T[p]].b), old(buckets[T[p]].nextPosition), T, n, k, p, l)
      ensures buckets[T[p]].nextPosition == old(buckets[T[p]].nextPosition) + RecordSize(n, k, l)
      ensures buckets[T[p]].strings == old(buckets[T[p]].strings) + 1
      ensures forall c :: c in buckets && c != T[p] ==>
        buckets[c].b == old(buckets[c].b) && buckets[c].nextPosition == old(buckets[c].nextPosition) &&
        buckets[c].strings == old(buckets[c].strings)
    {
      var bucket := buckets[T[p]];
      bucket.InsertSubstring(T, n, k, p, l);
      numOfSubstrings := numOfSubstrings + 1;
    }
  }

  /** test/bucket_map_test.cpp with the counts of a text whose only bucket is 'i' (27 bits). */
  method InsertThroughMap() returns (size: nat, before: nat, after: nat)
    ensures size == 1 && before == 0 && after == 1
  {
    var counts := seq(256, c => if c == 'i' as int then 27 else 0);
    var bucketMap := new BucketMap(counts);
    assert bucketMap.buckets.Keys == {'i' as int as uint8};
    size := |bucketMap.buckets|;
    before := bucketMap.TotalNumberOfSubstrings();
    var T: seq<uint8> := [109, 109, 105, 115, 115, 105, 115, 115, 105, 105, 112, 112, 105, 105, 36];
    BucketExamples.LimitsOf15And5();
    bucketMap.InsertSubstring(T, 15, 5, 2, 4);
    after := bucketMap.TotalNumberOfSubstrings();
  }
}
