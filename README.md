# flbwt in Dafny

A model of the core of flbwt, a C++ program that builds the Burrows–Wheeler
transform of a byte string by SA-IS-style induced sorting (after Okanohara and
Sadakane), with its bit-packed storage primitives. The model covers:

- the LMS extraction, naming and reduced-string construction of `bwt_string`
  (src/flbwt.cpp), with the interner kept abstract, and the output byte layout
  of `bwt_file`;
- the recursive SA-IS engine of src/sais.cpp (Yuta Mori's sais) over an array
  of integers, and its 32-bit and 40-bit front ends (src/sais32bit.cpp,
  src/sais40bit.cpp): the packed `get2` reader, the `chr` views, and the split
  40-bit counters;
- the bit-packed stores: `PackedArray` (MSB-first words), the bit-vector
  `HashTable` interner, `Bucket`/`BucketMap` (LSB-first sdsl fields), the
  Elias–Fano style `Sequence`, and the split 40-, 48- and 56-bit integer stores;
- the arithmetic helpers `log2_64`, `position_of_msb`, `max_integer` and
  `calculate_alphabet_size`.

Objects whose fields the source updates become classes (`PackedArray`,
`Bucket`, `BucketMap`, `Sequence`, `HashTable`, `Container`); the in-place
SA-IS loops work on `array<int>`, and the packed arrays that src/flbwt.cpp
and src/sais.cpp create through a constructor and accessors that
src/packed_array.cpp does not define (T1, SA, the text and the workspace)
are plain arrays of integers, as the "## Left out" lines on the SA-IS
widths, the SA-IS workspace and Flbwt.CreateShortenedString say; bit vectors are `seq<bool>` (sdsl
`bit_vector`, least significant bit first) or sequences of 64-bit words.
Machine integers are subset types of `int` (`uint8` … `uint64`, `int8` …
`int64`, in module Common), and every wrap-around the source relies on is
written out. Modules follow the source files: one module per core file, plus
Common (integer types and arithmetic lemmas), BitVec (the sdsl bit vector),
BitImage (MSB-first word images), SaisText (the specification functions of
SA-IS: types, LMS positions, counts and buckets), SaisInduce (the proofs of
the two induction sweeps), SaisOrder (the proofs of the stage-3 placement of
the sorted LMS positions) and PackedText (`get2`). The unit tests of
the bucket, the sequence and the hash table are stated as lemmas in
BucketExamples, SequenceExamples and HashTableExamples; those of the packed
array sit in module Packed itself.

## Model

| member | source | states |
|---|---|---|
| Alphabet.CalculateAlphabetSize | src/utility.c:3-21 | the result is the number of distinct byte values of T, modulo 256 (the uint8_t counter wraps when all 256 occur); 0 for the empty text |
| Alphabet.ValuesBound | src/utility.c:13-17 | at most 256 distinct values occur, so the count wraps only when every value occurs |
| Alphabet.ValuesOfRepetition | test/utitily_test.cpp:4-18 | appending values already present adds no value to the alphabet (why "ababababab" counts 2) |
| Utility.Log2_64 | src/utility.cpp:13-22 | `log2_64` by smearing, keeping the top bit and a de Bruijn table lookup; the result is below 64 |
| Utility.Log2Correct | src/utility.cpp:13-22 | for a nonzero word, 2^r <= value < 2^(r+1) for r = log2_64(value); log2_64(0) = 63 = tab64[0] |
| Utility.SmearOfTop | src/utility.cpp:15-21 | smearing a word whose top set bit is k and keeping the top bit gives exactly 2^k |
| Utility.SmearSpreads | src/utility.cpp:15-20 | after the six or-shift steps, bit i is set exactly when some bit at or above i was set |
| Utility.TableAtBit | src/utility.cpp:3-11 | the de Bruijn slot of 2^k holds k, for every k < 64 |
| Utility.PositionOfMsb | src/utility.cpp:24-38 | for n != 0 the result r satisfies 2^(r-1) <= n < 2^r (the bit length); for n = 0 it is 1 |
| Utility.MsbIsLog2 | src/utility.cpp:13-38 | for a nonzero word, position_of_msb's result is log2_64 + 1 |
| Utility.PositionIsBitLength | src/utility.cpp:24-38 | the bracket position_of_msb ensures determines its result as the bit length |
| Utility.MaxInteger | src/utility.cpp:40-53 | the result is 2^min(n,64) - 1, and 0 for n = 0 |
| Utility.ShiftInOneStep | src/utility.cpp:49 | `(value << 1) \| 1` on w ones gives w + 1 ones, until all 64 bits are set |
| Utility.Log2Agrees | src/utility.cpp:13-22 | log2_64 equals the floor of the binary logarithm, and 63 for 0 |
| Utility.SsLimitIs | src/bucket.cpp:22 | for k != 1, log2_64(k) >= 1 and log2_64(n) / log2_64(k) is SS_LIMIT |
| Utility.RecordLimits | src/bucket.cpp:20-23 | LSI_BITS is the bit length of n, SS_LIMIT = log2_64(n)/log2_64(k), and SS_BITS is the bit length of SS_LIMIT |
| Utility.Log2Of | src/utility.cpp:13-22 | log2_64 of a word between 2^e and 2^(e+1) is e |
| Utility.FloorLog2 | src/utility.cpp:13-22 | the floor of the binary logarithm: 2^k <= value < 2^(k+1) |
| Utility.Log2Unique | src/utility.cpp:13-22 | at most one exponent brackets a value, so the logarithm is determined |
| Utility.Log2Word | src/utility.cpp:13-22 | the word-level logarithm is the floor of the binary logarithm, below 64 |
| Utility.BitLength | src/utility.cpp:24-38 | the number of bits of n: n < 2^r, and 2^(r-1) <= n for n >= 1; at least 1 |
| Utility.BitLengthAtMost | src/utility.cpp:24-38 | a value below 2^e has at most e bits |
| Utility.Quotient | src/bucket.cpp:22 | integer division by repeated subtraction, at most the dividend |
| Utility.QuotientIs | src/bucket.cpp:22 | that quotient is Dafny's a / b |
| Utility.SsLimit | src/bucket.cpp:22 | SS_LIMIT = log2_64(n) / log2_64(k) is below 64 |
| BitVec.GetIntSetInt | src/bucket.cpp:30 | `get_int` after `set_int` at the same field returns the value modulo 2^len |
| BitVec.SetIntFrame | src/bucket.cpp:30 | `set_int` changes no bit outside its field |
| BitVec.GetIntAfterSetInt | src/bucket.cpp:30 | a field read is unaffected by a `set_int` to a disjoint field |
| BitVec.ValueOfBits | src/bucket.cpp:35 | the LSB-first bits of x read back as x modulo 2^len |
| BitVec.BitsOfValue | src/bucket.cpp:35 | turning a bit sequence into a number and back gives the same bits |
| Common.OverwriteAppend | src/bucket.cpp:28-37 | writing two fields one after the other is writing their concatenation |
| BitVec.ReadOverwrite | src/bucket.cpp:30-35 | reading inside a freshly written block returns the value of that part of the block |
| Buckets.Bucket.constructor | src/bucket.cpp:4-11 | c and bits are the arguments, strings and the cursor are 0, and the bit vector is n zero bits |
| Buckets.Bucket.InsertSubstring | src/bucket.cpp:13-53 | the bit vector becomes the record image `Inserted`, the cursor advances by the record size (1 + SS_BITS + 8l short, 1 + 2 LSI_BITS long), and strings increases by one |
| Buckets.Bucket.WriteShort | src/bucket.cpp:25-38 | the type bit is skipped, then the length in SS_BITS and each character in 8 bits are written LSB-first; the cursor ends after the last character |
| Buckets.Bucket.WriteLong | src/bucket.cpp:39-50 | type bit 1, then p and l in LSI_BITS bits each; the cursor advances by 1 + 2 LSI_BITS |
| Buckets.Inserted | src/bucket.cpp:25-50 | the record image changes no bit outside the record |
| Buckets.ShortRecordFields | src/bucket.cpp:25-38 | in a short record the type bit is untouched, the length field reads l and character field i reads T[p+i] |
| Buckets.LongRecordFields | src/bucket.cpp:39-50 | in a long record the type bit is set and the two fields read p and l modulo 2^LSI_BITS (exactly, when p, l <= n) |
| BucketExamples.ConstructBucket | test/bucket_test.cpp:4-11 | a bucket for 'a' with 100 bits has c = 'a', bits = 100 and strings = 0 |
| BucketExamples.LimitsOf15And5 | test/bucket_test.cpp:13-18 | for n = 15 and k = 5, SS_LIMIT = 1 and LSI_BITS = 4 |
| BucketExamples.InsertLong | test/bucket_test.cpp:13-26 | inserting the long substring p = 2, l = 4 into 27 zero bits sets exactly bits 0, 2 and 7 |
| BucketExamples.LimitsOf66And4 | test/bucket_test.cpp:28-33 | for n = 66 and k = 4, SS_LIMIT = 3 and SS_BITS = 2 |
| BucketExamples.InsertShort | test/bucket_test.cpp:28-53 | inserting "asi" (p = 3, l = 3) sets exactly bits 1, 2, 3, 8, 9, 11, 12, 15, 16, 17, 19, 22, 24 and 25, and strings becomes 1 |
| BucketMaps.BucketMap.constructor | src/bucket_map.cpp:3-15 | a bucket exists exactly for the values c with bitcounts[c] != 0, each fresh with bitcounts[c] zero bits; the total is 0 |
| BucketMaps.BucketMap.TotalNumberOfSubstrings | src/bucket_map.cpp:22-25 | returns the running total of inserted substrings |
| BucketMaps.BucketMap.InsertSubstring | src/bucket_map.cpp:27-31 | the bucket of T[p] receives the record exactly as Bucket.InsertSubstring writes it, the total grows by one, and no other bucket changes |
| BucketMaps.InsertThroughMap | test/bucket_map_test.cpp:29-42 | a map with one bucket reports 0 substrings before an insert and 1 after |
| Packed.WordCountCovers | src/packed_array.cpp:9 | the word count (n/32)·w + ⌈(n mod 32)·w/32⌉ holds n·w bits with less than one word to spare |
| Packed.PackedArray.constructor | src/packed_array.cpp:4-13 | n and w are recorded, WordCount + 1 fresh words are all zero, and every element reads 0 |
| Packed.PackedArray.Set | src/packed_array.cpp:15-20 | (corrected `set_bits`) afterwards element i holds x and every other element is unchanged |
| Packed.PackedArray.SetBits | src/packed_array.cpp:22-47 | (corrected) the bit image becomes the old image with the w bits of x spliced in at the element's position, MSB first; no other bit changes |
| Packed.PackedArray.StoreHigh | src/packed_array.cpp:34-41 | one pass of the loop: the high bits of x that fit go into the low end of the current word |
| Packed.PackedArray.StoreLast | src/packed_array.cpp:44-46 | (corrected) the remaining bits go into the window of the last word, the final mask shifted to that window |
| Packed.PackedArray.Get | src/packed_array.cpp:49-57 | `pa_get` returns element i of the contents |
| Packed.GetBitsField | src/packed_array.cpp:59-88 | `get_bits` returns the d-bit field at bit 32q + i, from a two-word window when i + d <= 64 and from three words otherwise |
| Packed.GetBitsFieldTwo | src/packed_array.cpp:68-74 | the two-word window: shift left by i, then right by 64 - d, gives the field |
| Packed.GetBitsFieldThree | src/packed_array.cpp:75-85 | the three-word window: the masked top half plus the shifted third word gives the field |
| Packed.ElementPosition | src/packed_array.cpp:17-18 | block (i >> 5)·w plus offset (i mod 32)·w is bit i·w |
| Packed.UpdateElements | src/packed_array.cpp:15-20 | splicing the w bits of x at element i's position replaces element i by x and leaves the others |
| Packed.ZeroElements | src/packed_array.cpp:12 | zeroed words hold only zero elements |
| Packed.ElementAt | src/packed_array.cpp:49-57 | element j of the contents is the w-bit field at bit j·w, which lies inside the words |
| Packed.ElementUpdated | src/packed_array.cpp:15-20 | after splicing x in at element i, element j reads x when j = i and its old value otherwise |
| Packed.FieldReadBack | src/packed_array.cpp:22-47 | a field spliced into the image reads back as the number its bits stand for |
| Packed.FieldUntouched | src/packed_array.cpp:22-47 | a field disjoint from the splice reads as before |
| Packed.StoreBits | src/packed_array.cpp:37-46 | `b[q] = (b[q] & ~mask) \| y` keeps the word's bits outside the mask and takes y's inside it |
| Packed.StoreLoopFixed | src/packed_array.cpp:34-41 | one loop pass puts the next 32 - i bits of x at the low end of the word |
| Packed.StoreFinalFixed | src/packed_array.cpp:44-46 | (corrected) the final store with the mask shifted by 32 - i - d puts the last d bits of x at bit i and keeps the rest of the word |
| Packed.AsWrittenClearsNext | src/packed_array.cpp:44-46 | as written, the unshifted final mask `(1 << d) - 1` clears the next element: writing element 0 with w = 16 zeroes element 1 |
| Packed.AsWrittenDropsHighBits | src/packed_array.cpp:36-41 | as written, with w = 42 the loop leaves d = 40 for element 3, and the `int` mask `(1 << 40) - 1` is `(1 << 8) - 1` = 255 on x86 (the shift count is taken modulo 32), so `x &= mask` erases bit 8 of 256 and the element reads back 0 |
| Packed.Construct | test/packed_array_test.cpp:4-10 | a packed array of 100 elements of 16 bits records n = 100 and w = 16 |
| Packed.SetWholeWord | test/packed_array_test.cpp:12-18 | with w = 32, setting element 0 to 33 makes b[0] = 33 |
| Packed.SetTopByte | test/packed_array_test.cpp:20-26 | with w = 8, setting element 0 to 33 puts 33 in the top byte of b[0] |
| Packed.ReadBack | test/packed_array_test.cpp:28-58 | for w = 16, 32 and 42, writing 33, 32767 and 6699 to elements 0, 1, 2 reads them back |
| Packed.WriteHighElement | src/packed_array.cpp:22-47 | with the corrected store, writing 256 at element 3 with w = 42 reads back 256 (the input that shows the as-written defect) |
| BitImage.NumMsb | src/packed_array.cpp:45 | the MSB-first bits of x read back as x modulo 2^len |
| BitImage.MsbNum | src/packed_array.cpp:45 | turning bits into a number and back gives the same bits |
| BitImage.NumAppend | src/packed_array.cpp:70 | the value of two concatenated bit strings is the first shifted left past the second, plus the second |
| BitImage.ImageUpdate | src/packed_array.cpp:37 | replacing word q replaces exactly bits 32q .. 32q + 31 of the image |
| BitImage.AddDisjoint | src/packed_array.cpp:83 | adding two 64-bit words with no common set bit is their bitwise or |
| BitImage.ImageZeros | src/packed_array.cpp:12 | zeroed words have an all-zero image |
| Sequences.LowerLength | src/sequence.cpp:43-44 | (corrected) the lower stream ends exactly after the last field written by `store_integer(n, _)` |
| Sequences.AsWrittenLowerTooShort | src/sequence.cpp:16 | for n = 10 the allocated lower stream has 610 bits while the field of index 10 ends at bit 611 |
| Sequences.WordSub | src/sequence.cpp:55 | uint64 subtraction: exact when the difference is not negative, wrapped modulo 2^64 otherwise |
| Sequences.JoinParts | src/sequence.cpp:56-63 | `(hi << lbits) \| lo` with fields that fit is lo + 2^lbits·hi |
| Sequences.JoinSplit | src/sequence.cpp:38-63 | splitting a 64-bit value into its top bits and its low lbits bits and joining them back gives the value |
| Sequences.Select1 | src/sequence.cpp:55 | select1(j) is the position of the j-th set bit: that bit is set and exactly j set bits lie at or before it |
| Sequences.Select1Unique | src/sequence.cpp:55 | at most one position answers select1(j) |
| Sequences.StorePreserves | src/sequence.cpp:33-45 | storing a new index keeps the upper stream's unary marks and the lower stream's fields in agreement with the stored map |
| Sequences.UpperSelect | src/sequence.cpp:55 | when indices 1..index hold non-decreasing values, select1(index) is index + the top bits of the value stored at index |
| Sequences.ReadStored | src/sequence.cpp:47-66 | under the same condition, joining the wrapped difference select1(index) - index with the lower field returns the stored value |
| Sequences.StoreFits | src/sequence.cpp:38-44 | for 1 <= index <= n, the upper bit lies below 2n and the lower field lies inside the corrected lower stream |
| Sequences.Sequence.constructor | src/sequence.cpp:8-31 | the upper stream is 2n zero bits, the lower stream is zero, ubits = log2_64(n), lbits = 64 - ubits, and nothing is stored |
| Sequences.Sequence.EnableSelectOperation | src/sequence.cpp:91-96 | select support is enabled and built over the current upper stream; the streams are unchanged |
| Sequences.Sequence.StoreInteger | src/sequence.cpp:33-45 | select support is disabled, upper bit index + (v >> lbits) is set, field index of the lower stream receives the low lbits bits, and the stored map records v; a fresh index keeps the representation invariant |
| Sequences.Sequence.GetInteger | src/sequence.cpp:47-66 | select support is rebuilt when disabled; the result joins (select1(index) - index) << lbits with the lower field, and equals the stored value when indices 1..index hold non-decreasing values |
| SequenceExamples.GetIntegerOne | test/sequence_test.cpp:49-58 | with n = 15, storing 541 at index 1 reads back 541 |
| SequenceExamples.StoreTen | test/sequence_test.cpp:60-73 | the ten stores of the test, in the test's order, leave the stored map holding the ten values at indices 1..10 |
| SequenceExamples.TenIncreasing | include/sequence.hpp:7-11 | the ten test values are non-decreasing in index order |
| SequenceExamples.GetIntegerTen | test/sequence_test.cpp:60-84 | after the ten stores, every index 1..10 reads back its value, whatever the store order |
| SequenceExamples.StoreValue | test/sequence_test.cpp:60-73 | one store of the test adds its value at its index and keeps the streams in agreement with the stored map |
| SequenceExamples.OrderFresh | test/sequence_test.cpp:60-73 | the test stores each index once |
| SequenceExamples.StoreOrderIndices | test/sequence_test.cpp:60-73 | the test stores exactly the indices 1..10 |
| SequenceExamples.ReadValue | test/sequence_test.cpp:74-84 | a read after the ten stores returns the test value of its index and changes nothing |
| Sais48Bit.ToInt16 | include/sais48bit.hpp:16 | the int16_t conversion: identity in range, and congruent to its argument modulo 2^16 |
| Sais48Bit.Join | include/sais48bit.hpp:22 | `(int64_t)U << 32 \| L`: the high half is the quotient by 2^32 and the low half the remainder; the value has 48 signed bits |
| Sais48Bit.SplitJoin | include/sais48bit.hpp:14-23 | every value in [-2^47, 2^47) splits into halves that join back to it |
| Sais48Bit.Set48BitValue | include/sais48bit.hpp:14-18 | U[index] receives value >> 32 as int16_t and L[index] the low 32 bits; nothing else changes; a later get returns the value for every 48-bit signed value, `~j` markers included |
| Sais48Bit.Get48BitValue | include/sais48bit.hpp:20-23 | the result's quotient by 2^32 is U[index] and its remainder L[index] |
| Common.ToInt8 | include/sais56bit.hpp:16 | the int8_t conversion: identity in range, congruent modulo 2^8 |
| Sais56Bit.ToUint16 | include/sais56bit.hpp:17 | the uint16_t conversion: identity in range, congruent modulo 2^16 |
| Sais56Bit.Join | include/sais56bit.hpp:23 | the three parts are the quotient by 2^48, the next 16 bits and the low 32 bits of the result, a 56-bit signed value |
| Sais56Bit.SplitJoin | include/sais56bit.hpp:14-24 | every value in [-2^55, 2^55) splits into three parts that join back to it |
| Sais56Bit.Set56BitValue | include/sais56bit.hpp:14-19 | U, M and L at index receive value >> 48, the next 16 bits and the low 32 bits; nothing else changes; a later get returns the value |
| Sais56Bit.Get56BitValue | include/sais56bit.hpp:21-24 | the result's parts are U[index], M[index] and L[index] |
| Sais40Bit.JoinParts | src/sais40bit.cpp:342 | a joined value's quotient by 2^32 is its high half and its remainder the low half; it has 40 signed bits |
| Sais40Bit.UJoinSigned | src/sais40bit.cpp:47-52 | the unsigned reading `(uint64_t)U << 32 \| L` agrees with the signed one for a non-negative high half, and is at least 2^64 - 2^39 for a negative one |
| Sais40Bit.SplitJoin40 | test/sais40bit_test.cpp:4-107 | every value in [-2^39, 2^39) splits into halves that join back to it (the test values up to ±5047149423 and their complements) |
| Sais40Bit.SplitUJoin | src/sais40bit.cpp:47-52 | a non-negative 40-bit value also reads back through the unsigned reading |
| Sais40Bit.Set40BitValue | test/sais40bit_test.cpp:4-107 | U[index] receives value >> 32 as int8_t and L[index] the low 32 bits; nothing else changes; a later get returns every 40-bit signed value |
| Sais40Bit.Get40BitValue | test/sais40bit_test.cpp:12-13 | the result's quotient by 2^32 is U[index] and its remainder L[index] |
| Sais40Bit.Occupied | src/sais40bit.cpp:342 | a slot is non-zero exactly when one of its halves is |
| Sais40Bit.GetCounts40 | src/sais40bit.cpp:42-55 | every split counter C[c] is non-negative and holds the number of occurrences of c in the text; no other slot changes |
| Sais40Bit.StoreSplit | src/sais40bit.cpp:50-52 | writing value >> 32 and value & 0xffffffff into the halves stores a non-negative value below 2^39, and changes no other slot |
| Sais40Bit.NextBoundary | src/sais40bit.cpp:68-84 | the running sum before and after adding C[c] are the exclusive and inclusive boundaries of c, both below 2^39 |
| Sais40Bit.GetBuckets40 | src/sais40bit.cpp:60-86 | every split bucket slot B[c] holds the sum of the counts below c (start) or up to c (end), read from the counters as they were; slots outside B are unchanged |
| Sais40Bit.Chr | src/sais40bit.cpp:37 | character i is the join of TA_U[i] and TA_L[i] when cs = 40, and otherwise packed element i + 1 of width cs, below 2^cs |
| Sais40Bit.Decode | src/sais40bit.cpp:37 | the text the engine reads: n characters, character i as `chr` reads it |
| Sais40Bit.DecodeSplit | src/sais40bit.cpp:336-349 | a reduced text handed over split with cs = 40 reads back as the same values |
| Sais40Bit.Sais40 | src/sais40bit.cpp:182-412 | `sais_40bit` runs the engine on the text `chr` reads: when it succeeds, SA[0..n) is induced for that text; SA beyond n + fs is left unchanged |
| PackedText.Get2 | src/sais32bit.cpp:9-35 | `get2(T, i, d)` is the d-bit field at bit d·i of the word array, MSB first from word 0, below 2^d |
| PackedText.GetField | src/sais32bit.cpp:14-34 | the field at bit pos, read inside one word or across two |
| PackedText.InWord | src/sais32bit.cpp:18-23 | a field inside one word is the word shifted right past the bits after it and masked to d bits |
| PackedText.Straddled | src/sais32bit.cpp:24-33 | a straddling field is the low bits of the word shifted left, joined with the top bits of the next word |
| PackedText.WordField | src/sais32bit.cpp:18-23 | the field inside one word equals `(w >> s) & BIT_MASK(d)` |
| PackedText.FieldConcat | src/sais32bit.cpp:24-33 | a field of a + b bits reads as its first a bits shifted left by b plus its last b bits |
| PackedText.StraddleField | src/sais32bit.cpp:24-33 | a straddling field's first part ends the word and its second part starts the next word, which exists |
| PackedText.FieldBelow | src/sais32bit.cpp:9-35 | a d-bit field is below 2^d |
| PackedText.TopBits | src/sais32bit.cpp:29 | the bits of a 64-bit word above its l lowest need no mask |
| Sais32Bit.Chr | src/sais32bit.cpp:38 | character i is `((uint32_t*)T)[i]` when cs = 32, and otherwise packed element i + 1 of width cs, below 2^cs |
| Sais32Bit.Decode | src/sais32bit.cpp:38 | the text the engine reads: n characters, character i as `chr` reads it, all below the alphabet bound of the width |
| Sais32Bit.Pack32Words | src/sais32bit.cpp:294-304 | reading 32-bit words back from their little-endian layout returns the values |
| Sais32Bit.DecodePack32 | src/sais32bit.cpp:294-304 | the reduced text stored as 32-bit words and read with cs = 32 is the same text |
| Sais32Bit.Sais32 | src/sais32bit.cpp:155-353 | `sais_32bit` runs the engine on the text `chr` reads: when it succeeds, SA[0..n) is induced for that text; SA beyond n + fs is left unchanged |
| SaisText.Slot | src/sais.cpp:167-184 | the slot an LMS position is seeded into lies inside its character's bucket and inside SA[0..n) |
| SaisText.NextLms | src/sais.cpp:226-244 | the next LMS position after p (or n) is LMS and no position strictly between is |
| SaisText.LmsList | src/sais.cpp:298-311 | the LMS positions from lo, strictly increasing, each an LMS position |
| SaisText.LmsListComplete | src/sais.cpp:298-311 | every LMS position from lo is in the list |
| SaisText.LmsListShrinks | src/sais.cpp:298-311 | fewer LMS positions lie above a higher start |
| SaisText.Counts | src/sais.cpp:6-18 | entry c of the count vector is the number of occurrences of c in the text |
| SaisText.SumMonotone | src/sais.cpp:21-42 | prefix sums of non-negative counts do not decrease |
| SaisText.BucketBounds | src/sais.cpp:21-42 | a bucket starts at or above 0, holds exactly the occurrences of its character and ends within the text |
| SaisText.BucketsOrdered | src/sais.cpp:21-42 | the bucket of a smaller character ends before the bucket of a larger one starts |
| SaisText.SumBump | src/sais.cpp:12-17 | one more occurrence of x adds one to every prefix sum that covers x |
| SaisText.CountsTotal | src/sais.cpp:6-18 | the counts of a text over [0, k) add up to its length |
| SaisText.ZeroSum | src/sais.cpp:8-11 | prefix sums of cleared counters are 0 |
| SaisText.LmsFromBelowCount | src/sais.cpp:167-184 | the LMS positions of character c from lo are no more than the occurrences of c there, nor than in the whole text |
| SaisText.LmsFromMonotone | src/sais.cpp:167-184 | fewer LMS positions of c lie above a higher start |
| SaisText.LmsGap | src/sais.cpp:167-184 | two LMS positions are never adjacent |
| SaisText.SlotsDistinct | src/sais.cpp:167-184 | two LMS positions never share a slot, and of two with the same character the earlier one gets the lower slot |
| SaisText.RunType | src/sais.cpp:204-211 | the first position of a run of equal characters is S-type exactly when the run is followed by a larger character |
| SaisText.LmsTest | src/sais.cpp:199-218 | a position is LMS exactly when the character before it is larger and its run is followed by a larger character: the compaction test |
| SaisInduce.LeftValueSign | src/sais.cpp:85 | for an L-type j, the forward value is positive exactly when j-1 is L-type too |
| SaisInduce.RightValueSign | src/sais.cpp:116 | for an S-type j, the backward value is positive exactly when j-1 is S-type too |
| SaisInduce.OccCard | src/sais.cpp:6-18 | the occurrences of c at or after lo are as many as multiset counts |
| SaisInduce.LmsCard | src/sais.cpp:167-184 | the LMS positions of c at or after lo are as many as LmsFrom counts |
| SaisInduce.BucketSplit | src/sais.cpp:21-42 | the L-type head of a bucket ends where the S-type tail, as long as c's S-type positions, begins; c has no more LMS positions than S-type ones |
| SaisInduce.SameBucket | src/sais.cpp:21-42 | a slot lies in the bucket of one character only |
| SaisInduce.OfAdd | src/sais.cpp:79-86 | placing q adds q to the placed positions of its own character only |
| SaisInduce.InverseAdd | src/sais.cpp:86 | holding q at slot b, both free, keeps the slot and position maps inverse |
| SaisInduce.FwdValueSign | src/sais.cpp:72-75 | in the forward sweep a held position reads as positive exactly when its predecessor is L-type, and then as itself |
| SaisInduce.FwdRoom | src/sais.cpp:85-87 | the cursor of an unplaced L-type position's bucket is a free slot before the LMS tail |
| SaisInduce.FwdPutHeads | src/sais.cpp:85-87 | placing at the cursor keeps every bucket head filled by placed L-type positions of its character |
| SaisInduce.FwdPutPlaced | src/sais.cpp:85-87 | placing keeps every placed position L-type and between its bucket start and cursor |
| SaisInduce.FwdPutCounts | src/sais.cpp:85-87 | placing advances its cursor by one, in step with the placed positions of its character |
| SaisInduce.FwdPutContiguous | src/sais.cpp:85-87 | placing at the cursor keeps each head from start to cursor filled with L-type positions of its character |
| SaisInduce.FwdPutSeeds | src/sais.cpp:85-87 | placing an L-type position keeps the LMS seeds in their slots |
| SaisInduce.FwdPutValues | src/sais.cpp:85-86 | writing LeftValue(q) at an unread slot now holding q keeps the forward values |
| SaisInduce.FwdPut | src/sais.cpp:85-87 | placing an unplaced L-type position at its cursor keeps the placement state |
| SaisInduce.FwdAhead | src/sais.cpp:72-77 | a positive entry at slot i is the position held there; its predecessor is unplaced, L-type, and its cursor is past i |
| SaisInduce.FwdAheadCursor | src/sais.cpp:77-84 | the cursor of the induced L-type position's bucket lies beyond the slot being read |
| SaisInduce.FwdValuesNext | src/sais.cpp:73 | reading slot i complements it and moves the read boundary to i+1 |
| SaisInduce.FwdReadSkip | src/sais.cpp:73-75 | a slot that induces nothing keeps what the reads have induced |
| SaisInduce.FwdReadPlace | src/sais.cpp:75-87 | reading slot i, holding q+1, and placing q later extends what the reads have induced |
| SaisInduce.FwdSkip | src/sais.cpp:72-73 | reading a non-positive entry moves the forward state to i+1 |
| SaisInduce.FwdStep | src/sais.cpp:72-87 | reading a positive entry and placing j-1 at its cursor moves the forward state to i+1 |
| SaisInduce.FwdStart | src/sais.cpp:59-63 | the seeded array with the cursors at the bucket starts is a forward state with nothing placed |
| SaisInduce.FwdInit | src/sais.cpp:61-67 | placing n-1 at the start of its bucket gives the first forward state of the loop |
| SaisInduce.FwdComplete | src/sais.cpp:69-89 | once every slot is read, every L-type position has been placed |
| SaisInduce.AllPlaced | src/sais.cpp:69-89 | then the placed positions of each character are exactly its L-type positions |
| SaisInduce.FwdCursors | src/sais.cpp:69-89 | then every cursor is at the end of the L-type head of its bucket |
| SaisInduce.OnlyInverse | src/sais.cpp:69-89 | dropping the seeds keeps the slot and position maps inverse |
| SaisInduce.OnlyFilled | src/sais.cpp:69-89 | the L-type positions fill the bucket heads, each in its own bucket |
| SaisInduce.OnlyLeft | src/sais.cpp:69-89 | a slot holding an L-type position reads as the complement of its LeftValue; any other slot is negative |
| SaisInduce.FwdFinish | src/sais.cpp:61-89 | the forward sweep ends in the state the backward sweep starts from |
| SaisInduce.BwdValueSign | src/sais.cpp:103-105 | in the backward sweep a held position reads as positive exactly when its predecessor is S-type, then as itself, otherwise as its complement |
| SaisInduce.BwdStart | src/sais.cpp:97-100 | the forward outcome with the cursors at the bucket ends is a backward state with nothing placed |
| SaisInduce.BwdRoom | src/sais.cpp:116-118 | the slot below the cursor of an unplaced S-type position's bucket is free and after the L-type head |
| SaisInduce.BwdAhead | src/sais.cpp:103-108 | a positive entry at slot i is the position held there; its predecessor is unplaced, S-type, and its cursor is at or before i |
| SaisInduce.BwdPut | src/sais.cpp:116-118 | placing an unplaced S-type position below its cursor keeps the placement state |
| SaisInduce.BwdPutHeld | src/sais.cpp:116-118 | placing below the cursor keeps every bucket tail filled by placed S-type positions |
| SaisInduce.BwdPutPlaced | src/sais.cpp:116-118 | placing keeps every placed position S-type and between its cursor and bucket end |
| SaisInduce.BwdPutCounts | src/sais.cpp:117 | placing moves its cursor down by one, in step with the placed positions of its character |
| SaisInduce.BwdPutTails | src/sais.cpp:116-118 | placing keeps each tail from cursor to end filled with S-type positions of its character |
| SaisInduce.BwdPutFixed | src/sais.cpp:116-118 | placing an S-type position past the head keeps the L-type positions where they are |
| SaisInduce.BwdPutValues | src/sais.cpp:116-118 | writing RightValue(q) at an unread slot now holding q keeps the backward values |
| SaisInduce.BwdValuesKeep | src/sais.cpp:103-105 | a read slot whose entry already is the position it holds keeps the backward values with the boundary at i-1 |
| SaisInduce.BwdStepValues | src/sais.cpp:103-118 | reading a positive entry and placing an S-type position earlier keeps the backward values |
| SaisInduce.BwdValuesFlip | src/sais.cpp:120-123 | reading a non-positive entry complements it back |
| SaisInduce.BwdReadSkip | src/sais.cpp:103-123 | a slot that induces nothing keeps what the reads have induced |
| SaisInduce.BwdReadPlace | src/sais.cpp:105-118 | reading slot i, holding q+1, and placing q earlier extends what the reads have induced |
| SaisInduce.BwdSkip | src/sais.cpp:120-123 | reading a non-positive entry moves the backward state to i-1 |
| SaisInduce.BwdStep | src/sais.cpp:103-118 | reading a positive entry and placing j-1 below its cursor moves the backward state to i-1 |
| SaisInduce.BwdComplete | src/sais.cpp:101-124 | once every slot is read, every S-type position has been placed |
| SaisInduce.BucketOf | src/sais.cpp:21-42 | every slot of SA[0..n) lies in the bucket of some character |
| SaisInduce.BwdCursors | src/sais.cpp:101-124 | then every S-type position is placed and every cursor is at the end of its head |
| SaisInduce.BwdFull | src/sais.cpp:101-124 | then every slot holds an L-type position in the head or an S-type one in the tail of its bucket |
| SaisInduce.BwdHeldAll | src/sais.cpp:101-124 | then SA[0..n) lists every position exactly once |
| SaisInduce.BwdFinish | src/sais.cpp:99-124 | the backward sweep leaves SA[0..n) induced |
| SaisInduce.Complement | src/sais.cpp:65 | `~j` is negative exactly for non-negative j and recovers j |
| Sais.ClearRange | src/sais.cpp:164-165 | slots lo..hi-1 become 0; nothing else changes |
| Sais.GetCounts | src/sais.cpp:6-18 | C[cbase + c] holds the number of occurrences of c in the text, for every c below k; no other slot changes |
| Sais.GetBuckets | src/sais.cpp:21-42 | B[bbase + c] becomes the sum of the old counts below c (start) or up to c (end), also when B and C share their slots; no other slot changes |
| Sais.BucketEnds | src/sais.cpp:161-162 | counts followed by end buckets leave the end of each character's bucket in B and, when C and B are apart, the counts in C |
| Sais.SeedPlace | src/sais.cpp:176-180 | placing LMS position i+1 at the decremented end of its bucket keeps every LMS position from i+1 on at its slot |
| Sais.SeedSkip | src/sais.cpp:169-184 | a position that is not LMS leaves the seeding invariant intact |
| Sais.CursorSkip | src/sais.cpp:169-184 | a position that is not LMS leaves the bucket cursors as they are |
| Sais.CursorPlace | src/sais.cpp:177-178 | the decremented bucket cursor is the slot of the LMS position, and the cursors stay in step |
| Sais.TypeStep | src/sais.cpp:171-180 | the test `c0 < c1 + c` decides S-type exactly, and taking the `else if (c != 0)` branch means position i+1 is LMS |
| Sais.SeedLms | src/sais.cpp:167-184 | every LMS position sits at its slot (the end of its bucket, later positions higher), every other slot of SA[0..n) is 0, and the cursors are the bucket ends less the seeded positions; SA from n and CB outside B unchanged |
| Sais.InduceSA | src/sais.cpp:45-125 | from any seeding (LmsSeeded: every LMS position once in the S-type tail of its bucket, every other slot of SA[0..n) 0), with the counts in C when C and B are apart, both sweeps succeed and SA[0..n) ends induced: every position exactly once, each inside its character's bucket, the L-type ones of a bucket before its S-type ones; SA from n on unchanged |
| Sais.Rebucket | src/sais.cpp:54-59 | whenever the counts are in C or C and B share slots (then it recounts), B ends with the bucket starts (or ends) and C with the counts; nothing outside C and B changes |
| Sais.SwitchBucket | src/sais.cpp:79-84 | the register's cursor goes back to B and the new bucket's cursor is loaded: the cursor vector is unchanged, with c1 the new bucket; CB outside B unchanged |
| SaisInduce.LeftValue | src/sais.cpp:65-85 | the value stored in the forward sweep is negative exactly when the suffix before j is smaller (S-type), and is j or ~j |
| SaisInduce.RightValue | src/sais.cpp:116 | the value stored in the backward sweep is negative exactly when j is 0 or the character before j is larger, and is j or ~j |
| Sais.ForwardSweep | src/sais.cpp:59-89 | from the seeded array with the cursors at the bucket starts it never fails, and ends with every L-type position, and no other, filling the L-type head of its character's bucket, each slot there reading as the complement of its LeftValue and every other slot negative; only SA[0..n) and B change |
| Sais.ForwardRead | src/sais.cpp:70-89 | reading slot i from a forward state succeeds and gives the forward state at i+1 (slot i complemented, and j-1 placed at its cursor for a positive j) |
| Sais.BackwardRead | src/sais.cpp:101-123 | reading slot i from a backward state succeeds and gives the backward state at i-1 (j-1 placed below its cursor for a positive j, a non-positive entry complemented back) |
| Sais.BackwardSweep | src/sais.cpp:97-124 | from the forward sweep's outcome with the cursors at the bucket ends it never fails and leaves SA[0..n) induced: every position once, in its bucket, L-type ones before S-type ones; only SA[0..n) and B change |
| Sais.LmsEntries | src/sais.cpp:193-220 | the kept entries are LMS positions, no more than scanned |
| Sais.LmsEntriesMembers | src/sais.cpp:193-220 | a value is kept exactly when it is scanned and is an LMS position |
| Sais.LmsEntriesDistinct | src/sais.cpp:193-220 | compacting distinct entries keeps them distinct |
| Sais.LmsSlotsDistinct | src/sais.cpp:240 | distinct LMS positions p have distinct name-buffer slots m + p/2 |
| Sais.CompactedLms | src/sais.cpp:193-220 | compacting an induced SA[0..n) keeps every LMS position exactly once and nothing else, with distinct name-buffer slots |
| Sais.Compact | src/sais.cpp:193-220 | SA[0..m) becomes the LMS entries of the sorted SA[0..n) in their order, m no more than n, slots from m on untouched; ok exactly when every scanned entry is below n |
| Sais.RunEnd | src/sais.cpp:206-211 | the end of the run of equal characters starting at p: all equal before it, a different character or the end at it |
| Sais.ScanRun | src/sais.cpp:206-211 | the inner scan stops at the end of the run of X[p], with c1 the character there |
| Sais.StoreLengths | src/sais.cpp:226-244 | for every LMS position p, SA[m + p/2] holds the distance to the next LMS position (or to n); only those buffer slots change; ok exactly when every such slot is below n |
| Sais.LengthStep | src/sais.cpp:238-242 | storing the length of LMS position i+1 extends the stored lengths down to i+1 and changes only a buffer slot |
| Sais.LengthWrite | src/sais.cpp:240 | the new length lands at its slot without disturbing the lengths stored for later LMS positions |
| Sais.BufferWrite | src/sais.cpp:240 | a write at m + p/2 for an LMS p changes only a name-buffer slot |
| Sais.BufferPrefix | src/sais.cpp:226-244 | the length store leaves the records SA[0..m) as they are |
| Sais.CountTrue | src/sais.cpp:271-276 | the number of new names is at most the number of substrings, and equals it exactly when every one is new |
| Sais.LastNamedExtend | src/sais.cpp:271-276 | the last named substring before record i does not depend on later records |
| Sais.SameSubstring | src/sais.cpp:257-269 | the character comparison reports same exactly when the two substrings agree on their len characters |
| Sais.NameSubstrings | src/sais.cpp:246-279 | record r gets a new name exactly when its length or characters differ from the last newly named substring; name counts the new names, is at most m, and equals m exactly when all are new; every slot m + p/2 read lies in [m, n); when those slots are distinct, record r read its length from its original slot and left there its name, the count of new names among records 0..r; SA[0..m), slots outside the buffer and buffer slots of no record unchanged |
| Sais.NameRecord | src/sais.cpp:248-277 | one round decides and names record i, so the naming facts extend to i+1, and its slot m + p/2 is the only change; on failure nothing changes |
| Sais.NameWrite | src/sais.cpp:276 | writing record i's name at its slot keeps what every earlier record read and wrote, and the later records' slots untouched |
| Sais.NameWriteDone | src/sais.cpp:253-276 | after the write, records 0..i each read their original slot and hold their name there |
| Sais.NameWriteAhead | src/sais.cpp:276 | the write for record i misses the slots of the later records |
| Sais.NameStep | src/sais.cpp:255-278 | naming record i from diff keeps every earlier record's naming invariant and establishes record i's |
| Sais.Reduced | src/sais.cpp:285-294 | the nonzero names of the buffer, decremented, no longer than the buffer |
| Sais.ReducedShrinks | src/sais.cpp:285-294 | a shorter suffix of the buffer yields no more names |
| Sais.Prepend | src/sais.cpp:291-292 | writing below a filled stretch extends it by one value at its front |
| Sais.ScannedReversed | src/sais.cpp:285-294 | the right-to-left scan collects the reduced names in reverse order |
| Sais.ReduceText | src/sais.cpp:284-294 | the names of SA[m..n), less one, in text order, end at slot n + fs; slots outside m..n+fs-1 unchanged; ok exactly when they fit into m slots |
| Sais.LmsInto | src/sais.cpp:298-311 | the LMS positions, in increasing order, end at slot ra + m; only slots ra..ra+m-1 change; ok exactly when they fit |
| Sais.MapRanks | src/sais.cpp:313-318 | SA[i] becomes the entry of the stored slot at ra + SA[i]; SA from m on unchanged; ok exactly when every SA[i] is a rank below m |
| Sais.Expand | src/sais.cpp:298-318 | when there are m LMS positions, SA[i] becomes the LMS position of rank SA[i]; only SA[0..m) and SA[ra..ra+m) change |
| Sais.CharCount | src/sais.cpp:342-351 | the placements of character c are at most the placed positions |
| Sais.PlaceLms | src/sais.cpp:342-351 | m positions are placed, each below n; every bucket end drops by the placements of its character; SA[0..n) holds 0 or a placed position; SA from n and CB outside B unchanged; when SA[0..m) lists every LMS position once sorted by first character and B holds the bucket ends, it succeeds and leaves SA[0..n) seeded (LmsSeeded) |
| Sais.Workspace | src/sais.cpp:148-159 | C starts the free space and B follows it when the free space holds both, shares C's slots otherwise |
| Sais.InduceLmsSubstrings | src/sais.cpp:147-186 | seeding and induction never fail and leave SA[0..n) induced; SA from n on unchanged |
| Sais.NamesRead | src/sais.cpp:246-256 | the lengths the naming loop read are the true LMS-substring lengths, and each name sits in its slot m + p/2 inside [m, n) |
| Sais.NameLmsSubstrings | src/sais.cpp:222-279 | on the compacted LMS positions, when ok: name <= m and NamedLms holds (each record compared by its true LMS-substring length, named as NamedRecord says, its name in its slot), SA[0..m) still lists the positions, and every buffer slot that belongs to no LMS position is 0; SA from n on unchanged |
| Sais.SortLmsSubstrings | src/sais.cpp:147-279 | the induction and compaction never fail; when ok, SA[0..m) holds every LMS position exactly once, sorted by first character, each record was compared by its true LMS-substring length and named as NamedRecord says, its name, the count of new names up to it, is in slot m + p/2, the other buffer slots are 0, and name <= m <= n; SA from n on unchanged |
| SaisInduce.TextOrderSeeded | src/sais.cpp:167-184 | the text-order seeding of stage 1 is a seeding (LmsSeeded): each LMS position's slot lies in the S-type tail of its bucket |
| SaisOrder.InducedOrdered | src/sais.cpp:21-42 | in an induced SA, earlier slots hold positions with no larger first characters |
| SaisOrder.LmsCount | src/sais.cpp:167-220 | a list of every LMS position once is exactly as long as the LMS positions in text order |
| SaisOrder.CharSetCard | src/sais.cpp:342-351 | the distinct sorted positions of character c from rank r on are as many as CharsFrom counts, and are positions of c in the list |
| SaisOrder.CharsFit | src/sais.cpp:342-351 | the listed positions of character c from rank r on are no more than its S-type positions, which are no more than its occurrences |
| SaisOrder.PlaceRoomFrom | src/sais.cpp:342-351 | the ranks lo..i-1 plus the listed positions of i's character from i on are no more than the listed positions from lo whose character is at most i's |
| SaisOrder.PlaceRoom | src/sais.cpp:342-351 | the slot of the r-th sorted LMS position (its bucket end less the later positions of its character) is at or after r and inside the S-type tail of its bucket |
| SaisOrder.PlaceStart | src/sais.cpp:339-342 | sorted LMS positions in SA[0..m), zeros above and B at the bucket ends start the placement invariant |
| SaisOrder.PlaceFree | src/sais.cpp:344-350 | the slot the next placement writes is its position's slot, at or after i, in the S-type tail, and free or i itself |
| SaisOrder.PlaceNext | src/sais.cpp:344-350 | clearing SA[i] and writing j = ps[i] at value, the decremented end of its bucket, keeps the placement invariant one rank lower |
| SaisOrder.PlaceStepSlots | src/sais.cpp:344-350 | the step keeps every slot above i either 0 or a placed LMS position in its bucket tail, with the cursors in step |
| SaisOrder.PlaceStepSeeds | src/sais.cpp:344-350 | the step keeps the still unplaced positions below i at their slots |
| SaisOrder.PlaceStepDistinct | src/sais.cpp:344-350 | the step keeps the entries above i distinct |
| SaisOrder.PlaceEnd | src/sais.cpp:342-351 | once every rank is placed, SA[0..n) is seeded (LmsSeeded) |
| Sais.PlaceOne | src/sais.cpp:344-350 | one placement: reads j, clears SA[i], writes j at the decremented bucket end, and keeps the placement invariant and the placed list |
| Sais.LmsEntriesSorted | src/sais.cpp:193-220 | compacting entries ordered by first character keeps them ordered |
| Sais.StageOneNamed | src/sais.cpp:222-279 | clearing, storing the lengths and naming leave NamedLms and a clear buffer outside the LMS slots |
| Sais.BufferCleared | src/sais.cpp:222-244 | a buffer slot of no LMS position is 0 after clearing and the length store, and naming leaves it so |
| Sais.CountTrueMonotone | src/sais.cpp:271-276 | the name count never drops along the records, and stays level only over records that got no new name |
| Sais.FirstNew | src/sais.cpp:271-276 | the first record always gets a new name, name 1 |
| Sais.LastNamedAt | src/sais.cpp:257-276 | the last newly named record before i is some z < i, and no record between them is new |
| Sais.NameOrder | src/sais.cpp:246-279 | names follow first characters: a name no larger than another's belongs to a substring whose first character is no larger |
| Sais.NamesPositive | src/sais.cpp:276-294 | every LMS position's name, at least 1, is in its slot in [m, n) |
| Sais.SlotsPositive | src/sais.cpp:285-294 | each buffer slot of an LMS position, 2(t - m) or 2(t - m) + 1, holds at least 1 |
| Sais.NamePositiveAt | src/sais.cpp:276 | the slot of LMS position p holds a name of at least 1 |
| Sais.NamesOf | src/sais.cpp:285-294 | the names, less one, in the slots of the given positions, one per position |
| Sais.ReducedNames | src/sais.cpp:285-294 | the non-zero buffer slots from t on, less one, are the names of the LMS positions from 2(t - m) on, in text order |
| Sais.ReducedStep | src/sais.cpp:285-294 | one slot of the scan: it adds the name of the LMS position 2(t - m) or 2(t - m) + 1, or nothing when neither is one |
| Sais.ReducedCons | src/sais.cpp:288-292 | a named slot puts its position's name in front of the later names |
| Sais.LmsListPair | src/sais.cpp:285-294 | of the positions u and u + 1 at most one is LMS, then come the LMS positions from u + 2 |
| Sais.NamesCons | src/sais.cpp:288-292 | the names of p followed by L are p's name followed by L's |
| Sais.ReducedText | src/sais.cpp:283-294 | after stage 1 the reduced text is the names, less one, of the LMS positions in text order, one per position |
| Sais.ExpandedSorted | src/sais.cpp:296-318 | the positions the recursion's ranks map back to list every LMS position once, sorted by first character |
| Sais.ExpandedOnce | src/sais.cpp:313-318 | ranks that are a permutation map distinct LMS positions to a list of each once |
| Sais.ExpandedOrdered | src/sais.cpp:313-318 | the mapped-back positions are ordered by first character |
| Sais.ExpandedPair | src/sais.cpp:313-318 | two ranks in reduced-text order stand for positions in first-character order |
| Sais.RankRecords | src/sais.cpp:313-318 | the records of two ranks have their name counts in the reduced text's order |
| Sais.SlotRecord | src/sais.cpp:276 | the record of position x holds its name count in x's slot |
| Sais.RankName | src/sais.cpp:296-318 | rank i stands for an LMS position whose name, less one, is the reduced text's character there |
| Sais.SolvedSorted | src/sais.cpp:281-319 | from stage 1's outcome, stage 2's reduced text, the recursion's induced ranks and the mapping back, SA[0..m) lists every LMS position once, sorted by first character |
| Sais.SolveReduced | src/sais.cpp:281-319 | when it succeeds on the outcome of stage 1 (NamedSorted), SA[0..m) lists every LMS position once, sorted by first character: the positions of the ranks the recursion returns; SA from n + fs on unchanged |
| Sais.InduceFromLms | src/sais.cpp:321-358 | from SA[0..m) listing every LMS position once, sorted by first character, it succeeds and SA[0..n) ends induced; SA from n on unchanged |
| Sais.SaisMain | src/sais.cpp:127-360 | when it succeeds, SA[0..n) is induced: every position exactly once, inside its character's bucket, the L-type ones of a bucket before its S-type ones; SA from n + fs on unchanged |
| HashTables.RecordSize | src/hashtable.cpp:173-183 | a short record of length l spans sentinel, type bit, SS_BITS, 8·l character bits and the name; a long one sentinel, type bit, position, length and name |
| HashTables.GetLength | src/hashtable.cpp:158-166 | the short length field after the type bit when the type bit is 0, the long length field after the position otherwise |
| HashTables.GetPointer | src/hashtable.cpp:168-171 | the 64-bit pointer after the short length field, below 2^64 |
| HashTables.SkipString | src/hashtable.cpp:173-183 | the record after idx starts exactly one record size (of the stored length) later |
| HashTables.GetPosition | src/hashtable.cpp:203-206 | the LSI_BITS-bit position field, below 2^LSI_BITS |
| HashTables.NameOffset | src/hashtable.cpp:215-222 | the name follows the characters of a short record (length taken as uint8_t) and the length field of a long one |
| HashTables.GetName | src/hashtable.cpp:225-234 | the NAME_BITS-bit name field, below 2^NAME_BITS |
| HashTables.GetNthCharacter | src/hashtable.cpp:236-245 | character n of a record: the n-th stored byte of a short record, T[position + n] for a long one |
| HashTables.PutLength | src/hashtable.cpp:185-196 | `set_length` keeps the buffer size |
| HashTables.PutPointer | src/hashtable.cpp:198-201 | `set_pointer` keeps the buffer size |
| HashTables.PutPosition | src/hashtable.cpp:208-211 | `set_position` keeps the buffer size |
| HashTables.PutName | src/hashtable.cpp:213-223 | `set_name` keeps the buffer size |
| HashTables.Outside | src/hashtable.cpp:185-223 | a field write leaves every bit outside the field as it was |
| HashTables.ShortLengthRoundTrip | src/hashtable.cpp:185-191 | a length up to SS_LIMIT is written short and reads back |
| HashTables.LongLengthRoundTrip | src/hashtable.cpp:194-195 | a length above SS_LIMIT is written long and reads back |
| HashTables.LengthRoundTrip | test/hashtable_test.cpp:98-118 | get_length after set_length returns the length, and the record is short exactly when the length is at most SS_LIMIT |
| HashTables.GetIntSame | src/hashtable.cpp:158-245 | a field reads the same from two buffers that agree on its bits |
| HashTables.LengthFrame | src/hashtable.cpp:185-196 | set_length changes only the type bit and the length field it writes |
| HashTables.PointerRoundTrip | test/hashtable_test.cpp:120-130 | get_pointer after set_pointer returns the pointer; only the pointer field changes |
| HashTables.PositionRoundTrip | test/hashtable_test.cpp:145-156 | get_position after set_position returns the position modulo 2^LSI_BITS; only the position field changes |
| HashTables.NameRoundTrip | test/hashtable_test.cpp:188-199 | get_name after set_name returns the name modulo 2^NAME_BITS, and type, length and name offset are kept |
| HashTables.ValueOfCleared | src/hashtable.cpp:140 | cleared bits read as 0 |
| HashTables.Pow101 | src/hashtable.cpp:145-156 | powers of the hash factor are positive |
| HashTables.WeightedSnoc | src/hashtable.cpp:149-153 | one more character multiplies the hash accumulator by 101 and adds the character |
| HashTables.HornerMod | src/hashtable.cpp:151-152 | reducing the accumulator modulo 2^64 each round gives the same result as reducing once |
| HashTables.HashOf | src/hashtable.cpp:145-156 | the bucket of a string is below HTSIZE |
| HashTables.Strings | src/hashtable.cpp:34-83 | the strings a chain holds are no more than its records |
| HashTables.LengthAgree | src/hashtable.cpp:158-166 | two buffers that agree on a record's header bits give it the same type and length |
| HashTables.CharsAgree | src/hashtable.cpp:60-64 | two buffers that agree on a short record's bytes give the same characters |
| HashTables.ContentAgree | src/hashtable.cpp:57-76 | a record's contents survive any change outside it |
| HashTables.ParseAgree | src/hashtable.cpp:37-83 | a record parses the same in a buffer that agrees on its span |
| HashTables.RecFrame | src/hashtable.cpp:85-140 | a record of one chain survives writes to space owned by something else |
| HashTables.TermFrame | src/hashtable.cpp:85-140 | a chain end and its spare room survive writes to space owned by something else |
| HashTables.ChainFrame | src/hashtable.cpp:85-140 | a chain survives writes to another chain's spare room |
| HashTables.FrameTrans | src/hashtable.cpp:118-140 | two writes within a range together change only that range |
| HashTables.ClearStep | src/hashtable.cpp:140 | `set_int(q, 0, 64)` clears the 64 bits at q and nothing else |
| HashTables.CharWritten | src/hashtable.cpp:125 | a byte written at a character slot reads back |
| HashTables.WriteChars | src/hashtable.cpp:123-126 | the loop stores T[p..p+m) byte by byte at the character slots and changes nothing outside them |
| HashTables.CharStep | src/hashtable.cpp:123-126 | one more character keeps the loop's frame and the characters written so far |
| HashTables.CharsKept | src/hashtable.cpp:125 | writing a character slot keeps the earlier ones |
| HashTables.ShortHeader | src/hashtable.cpp:120-122 | the header writes of a short record keep the buffer size |
| HashTables.LongStart | src/hashtable.cpp:132-134 | the header writes of a long record keep the buffer size |
| HashTables.ShortHeaderStep | src/hashtable.cpp:120-122 | after length, sentinel T[p]+1 and type 0 the record reads as short with length m, and only its header changed |
| HashTables.LongStartStep | src/hashtable.cpp:132-134 | after length, sentinel and type 1 the record reads as long with length m, and only its header changed |
| HashTables.PositionStep | src/hashtable.cpp:135 | writing the position keeps type, length and sentinel and sets the position |
| HashTables.ShortRecordStays | src/hashtable.cpp:118-140 | a short record stays parseable after the terminator is cleared after it |
| HashTables.LongRecordStays | src/hashtable.cpp:130-140 | a long record stays parseable after the terminator is cleared after it |
| HashTables.WriteRecord | src/hashtable.cpp:118-140 | writing a record at q parses as the record of T[p..p+m), ends at q plus its size with 64 cleared bits after it, and changes nothing outside |
| HashTables.WriteShortRecord | src/hashtable.cpp:118-129 | the short branch: as WriteRecord |
| HashTables.WriteLongRecord | src/hashtable.cpp:130-140 | the long branch: as WriteRecord (the source's second LSI_BITS is LSL_BITS, which equals it) |
| HashTables.PutLink | src/hashtable.cpp:111-112 | a link record keeps the buffer size |
| HashTables.LinkStep | src/hashtable.cpp:111-112 | a link reads as short, length 1, pointing to q2, and touches only its own bits |
| HashTables.LimitsOf3And4 | src/hashtable.cpp:14-17 | for n = 3 and k = 4: SS_LIMIT = 0, LSI_BITS = 2, SS_BITS = 1 |
| HashTables.AsWrittenLinkReadsAsEnd | src/hashtable.cpp:111-112 | with SS_LIMIT = 0, `set_length(pp, 1)` writes a long record whose length field is overwritten by the pointer: the link reads as a chain end |
| HashTables.TermLength | src/hashtable.cpp:38-41 | 64 cleared bits read as a short record of length 0, the end of a chain |
| HashTables.RecLength | src/hashtable.cpp:38-55 | a link reads as length 1 and a string record as its length, at least 2 |
| HashTables.StringsMember | src/hashtable.cpp:34-83 | a string is in a chain exactly when a non-link record holds it |
| HashTables.StringsSnoc | src/hashtable.cpp:118-140 | appending a record adds its string, appending a link adds none |
| HashTables.Compare | src/hashtable.cpp:57-78 | the comparison reaches m exactly when the record holds T[p..p+m) |
| HashTables.CompareShort | src/hashtable.cpp:57-65 | the byte-by-byte comparison with a short record reaches m exactly when they agree |
| HashTables.CompareLong | src/hashtable.cpp:66-76 | the comparison with T at a long record's position reaches m exactly when they agree |
| HashTables.Passed | src/hashtable.cpp:50-82 | a record passed over does not hold the string |
| HashTables.Walk | src/hashtable.cpp:34-83 | the walk finds the string exactly when the chain holds it, after as many records as precede it; otherwise it has walked the whole chain and stops at its end (0 for an empty chain) |
| HashTables.Claim | src/hashtable.cpp:118-140 | bits lo..hi-1 get the new owner, others keep theirs |
| HashTables.Grown | src/hashtable.cpp:92-98 | a resize adds bits owned by the chain's spare room, the first one unused |
| HashTables.ReplaceChain | src/hashtable.cpp:22-143 | replacing one chain by a valid one that keeps the other hashes' keys keeps the table valid |
| HashTables.UntouchedTrans | src/hashtable.cpp:85-140 | two writes that leave other owners alone together leave them alone |
| HashTables.ClaimSpare | src/hashtable.cpp:118-140 | writing inside a chain's spare room and claiming part of it leaves every other owner alone |
| HashTables.RecsKept | src/hashtable.cpp:118-140 | a chain's earlier records stay valid after a record is appended at its end |
| HashTables.ChainSnoc | src/hashtable.cpp:118-140 | a chain extended by a valid record followed by a valid end is valid |
| HashTables.ChainKeys | src/hashtable.cpp:34 | in a valid table every chain is valid and holds exactly the keys of its hash |
| HashTables.TermRoom | src/hashtable.cpp:90-101 | a non-empty chain's end has room for a link inside the buffer |
| HashTables.KeysAdd | src/hashtable.cpp:142 | adding a new string of hash h keeps the keys per hash, and changes no other hash's keys |
| HashTables.NewBlock | src/hashtable.cpp:92-98 | a grown buffer gives the chain a fresh end with the new room |
| HashTables.HeadTransition | src/hashtable.cpp:105-108 | the first block of an empty chain keeps the table valid |
| HashTables.LinkChain | src/hashtable.cpp:109-113 | linking the chain end to a new block keeps the chain valid, with one more link record |
| HashTables.LinkTransition | src/hashtable.cpp:109-113 | linking keeps the table valid |
| HashTables.AppendTerm | src/hashtable.cpp:127-140 | after a record the chain end moves past it and the room shrinks by its size |
| HashTables.AppendChain | src/hashtable.cpp:118-140 | appending a written record keeps the chain valid, with the record at its end |
| HashTables.AppendTransition | src/hashtable.cpp:118-142 | appending a new string keeps the table valid with the key added |
| HashTables.HashTable.constructor | src/hashtable.cpp:4-20 | empty chains, an empty buffer, HBSIZE = 4096, and widths from n and k |
| HashTables.HashTable.SetLength | src/hashtable.cpp:185-196 | the buffer after `set_length` |
| HashTables.HashTable.SetPointer | src/hashtable.cpp:198-201 | the buffer after `set_pointer` |
| HashTables.HashTable.SetPosition | src/hashtable.cpp:208-211 | the buffer after `set_position` |
| HashTables.HashTable.SetName | src/hashtable.cpp:213-223 | the buffer after `set_name` |
| HashTables.HashTable.HashFunction | src/hashtable.cpp:145-156 | the loop computes the polynomial hash of T[p..p+m) modulo HTSIZE |
| HashTables.HashTable.InsertString | src/hashtable.cpp:22-143 | returns 0 exactly when the string was already interned, and then changes only the collision count; otherwise 1, the string is added to the chain of its hash, collisions grow by the chain's records; the table stays valid and other chains are unchanged |
| HashTables.HashTable.Grow | src/hashtable.cpp:85-116 | a full or missing block is replaced by a new one of HBSIZE plus the record's size, keeping every chain's strings |
| HashTables.HashTable.GrowHead | src/hashtable.cpp:105-108 | the new block becomes the head of an empty chain |
| HashTables.HashTable.GrowLink | src/hashtable.cpp:109-113 | the old chain end becomes a link to the new block |
| HashTables.HashTable.Append | src/hashtable.cpp:118-140 | the record goes at the chain end and the key is added; the room shrinks by the record size |
| HashTableExamples.Construct | test/hashtable_test.cpp:4-18 | HTSIZE 100, LSI/LSL_BITS 4, SS_LIMIT 1, SS_BITS 1, empty arrays and buffer for n = 15, k = 5 |
| HashTableExamples.WeightedIsHorner | src/hashtable.cpp:149-153 | the hash accumulator is Horner's rule in base 101 |
| HashTableExamples.Hashes | test/hashtable_test.cpp:20-33 | "issi" at 2 and at 5 hash to 40, "iippii$" at 8 to 80 |
| HashTableExamples.IssiHash | test/hashtable_test.cpp:26-31 | "issi" hashes to 40 in a table of 100 |
| HashTableExamples.IippiiHash | test/hashtable_test.cpp:28-30 | "iippii$" hashes to 80 in a table of 100 |
| HashTableExamples.LimitsOf16And2 | test/hashtable_test.cpp:35-58 | for n = 16 and k = 2: SS_LIMIT = 4, SS_BITS = 3, LSI_BITS = 5 |
| HashTableExamples.SkipStrings | test/hashtable_test.cpp:73-96 | records of length 4 (short) and 15 (long) at 0 are skipped to 49 and 24 |
| HashTableExamples.ShortLength | test/hashtable_test.cpp:35-45 | length 4 at bit 9 reads back as a short length 4 |
| HashTableExamples.LongLength | test/hashtable_test.cpp:47-58 | type bit 1 and 15 at bit 14 read back as a long length 15 |
| Flbwt.Subs | src/flbwt.cpp:223-231 | one substring per LMS position |
| Flbwt.PositionsOrdered | src/flbwt.cpp:201-245 | the LMS positions the scan finds lie in [lo, n) and increase |
| Flbwt.PositionsExact | src/flbwt.cpp:212-236 | p is found exactly when lo <= p < n and p is LMS (S-type, L-type left neighbour) |
| Flbwt.SubsAtLeastThree | src/flbwt.cpp:223-231 | every LMS substring T[p..q] has at least three characters |
| Flbwt.LmsSubstringsAtLeastThree | src/flbwt.cpp:228 | every string handed to `insert_string` has length q - p + 1 >= 3 |
| Flbwt.PositionZero | src/flbwt.cpp:188-245 | position 0 is never LMS |
| Flbwt.Container.constructor | src/flbwt.cpp:172-174 | a container for n with k = 0, no substrings, no head string end, no hash table, and zeroed M, NL and C of 258 entries |
| Flbwt.TypeStep | src/flbwt.cpp:212-241 | the type of i follows from comparing T[i] with T[i+1] and the previous type, and i + 1 is LMS exactly when T[i] > T[i+1] and i + 1 is S-type |
| Flbwt.InternStep | src/flbwt.cpp:223-231 | inserting T[p..q] when it is new, and not otherwise, keeps the interned strings the distinct LMS substrings seen so far |
| Flbwt.MStep | src/flbwt.cpp:210 | M[T[i]+1]++ keeps M the count of each byte from i on (plus the sentinel) |
| Flbwt.NLStepL | src/flbwt.cpp:235-240 | NL[T[i]+1]++ for an L-type i keeps NL the count of L-type positions per byte |
| Flbwt.NLStepS | src/flbwt.cpp:212-241 | an S-type i leaves NL as it is |
| Flbwt.CStep | src/flbwt.cpp:224 | C counts the first characters of the LMS substrings found |
| Flbwt.MarksStep | src/flbwt.cpp:204-209 | marking a byte the first time it is seen counts the distinct bytes from i on |
| Flbwt.Bump | src/flbwt.cpp:210-235 | one counter goes up by one; the other tables are unchanged |
| Flbwt.MarkByte | src/flbwt.cpp:204-209 | the alphabet count k covers position i; no frequency table changes |
| Flbwt.CountByte | src/flbwt.cpp:210 | M covers position i; the other tables are unchanged |
| Flbwt.CountLType | src/flbwt.cpp:235-240 | NL covers L-type position i; the other tables are unchanged |
| Flbwt.CountLms | src/flbwt.cpp:224 | C covers the new LMS position; the other tables are unchanged |
| Flbwt.ScanStart | src/flbwt.cpp:188-198 | before the loop M, NL and C count the sentinel and T[n-1], the alphabet holds 0 and T[n-1], and k counts them |
| Flbwt.CutLms | src/flbwt.cpp:223-231 | cutting T[p..q] counts its first character, adds one substring, and interns it |
| Flbwt.Scan | src/flbwt.cpp:188-248 | after the scan M counts every byte, NL every L-type position per byte, C every LMS first character; the substring count is the number of LMS positions, the interned strings are the distinct LMS substrings, k is one plus the distinct bytes, and the head string end is the first LMS position |
| Flbwt.ExtractLmsStrings | src/flbwt.cpp:169-252 | a fresh container for n; for n <= 2 nothing is counted and there is no hash table; otherwise the container describes the text as Scan states |
| Flbwt.LessIrreflexive | src/flbwt.cpp:297-326 | the comparator is irreflexive |
| Flbwt.LessAsymmetric | src/flbwt.cpp:297-326 | the comparator is asymmetric |
| Flbwt.LessTransitive | src/flbwt.cpp:297-326 | the comparator is transitive |
| Flbwt.LessTotal | src/flbwt.cpp:297-326 | of two distinct strings one is less: the comparator is a strict total order, as `std::sort` needs |
| Flbwt.LessLongerFirst | src/flbwt.cpp:321-324 | a string sorts before its proper prefixes |
| Flbwt.LessFirstMismatch | src/flbwt.cpp:308-325 | at the first mismatch the smaller character sorts first |
| Flbwt.LmsComparison | src/flbwt.cpp:297-326 | the comparator's loop returns exactly the order Less |
| Flbwt.InsertPermutes | src/flbwt.cpp:328 | insertion adds the string and loses none |
| Flbwt.InsertSorted | src/flbwt.cpp:328 | inserting a new string into a sorted list keeps it sorted |
| Flbwt.SortPermutes | src/flbwt.cpp:328 | the sorted list is a permutation of the input |
| Flbwt.SortSorted | src/flbwt.cpp:328 | distinct strings sort into a strictly increasing permutation |
| Flbwt.SortedOrder | src/flbwt.cpp:328-335 | in a sorted list, position order and string order agree |
| Flbwt.SortLmsStrings | src/flbwt.cpp:254-344 | the records are the end substring, the distinct LMS substrings in comparator order, and the head string, and names are positions in that order |
| Flbwt.NamedRecords | src/flbwt.cpp:331-352 | names 1..m in sorted order with the head string and end substring around them describe the named records |
| Flbwt.SortRecords | src/flbwt.cpp:328 | s[1..m] becomes the sorted interned strings |
| Flbwt.CollectRecords | src/flbwt.cpp:273-294 | s[1..m] holds every interned string, one per record |
| Flbwt.SetNames | src/flbwt.cpp:331-335 | s[i] gets name i, for every i in 1..m |
| Flbwt.DistinctCard | src/flbwt.cpp:331-335 | distinct strings are as many as their set |
| Flbwt.NameIsRank | src/flbwt.cpp:331-335 | the name of the t-th sorted string is its rank among the LMS substrings |
| Flbwt.NamesOrder | src/flbwt.cpp:328-335 | names lie in 1..m and preserve the comparator order and equality in both directions |
| Flbwt.PositionsSuffix | src/flbwt.cpp:401-431 | the LMS positions from hi are a suffix of those from lo |
| Flbwt.SubsSuffix | src/flbwt.cpp:401-431 | the substrings of a suffix of the positions are the suffix of the substrings |
| Flbwt.NameStep | src/flbwt.cpp:412-423 | the LMS substring found at i + 1 is the one T1 names at slot j |
| Flbwt.CutAt | src/flbwt.cpp:414-423 | the substring at position p ends at the next LMS position, or at n |
| Flbwt.PutName | src/flbwt.cpp:417-421 | T1[j] gets the name of the j-th LMS substring; the later slots keep theirs |
| Flbwt.CreateShortenedString | src/flbwt.cpp:382-436 | T1 has num + 2 slots, m + 1 first and 0 last, and slot t holds the name of the t-th LMS substring |
| Flbwt.FillNames | src/flbwt.cpp:392-431 | the second scan names every LMS substring in T1[1..num] in text order; the last slot is kept |
| Flbwt.UniqueCount | src/flbwt.cpp:228-229 | the number of unique substrings is the number of distinct LMS substrings |
| Flbwt.NamesAreRanks | src/flbwt.cpp:328-335 | the name of an LMS substring is one plus its rank |
| Flbwt.BwtString | src/flbwt.cpp:97-132 | an invalid argument exactly for a missing text or n = 0; undefined exactly for n <= 2 or a text without an LMS position; otherwise the reduced problem: T1 is m + 1, the ranks of the LMS substrings in text order, 0; S lists the end substring, the sorted distinct substrings and the head string |
| Flbwt.ReducedFromRecords | src/flbwt.cpp:110-119 | the named records and T1 are the reduced problem |
| Flbwt.BigEndian | src/flbwt.cpp:59-67 | the rank becomes 8 bytes |
| Flbwt.BigEndianPrefix | src/flbwt.cpp:60-67 | the first k bytes stand for the rank shifted right by 64 - 8k |
| Flbwt.NextDigit | src/flbwt.cpp:60-67 | one more byte extends the prefix by 8 bits |
| Flbwt.BigEndianRoundTrip | src/flbwt.cpp:59-68 | the 8 bytes read back, most significant first, as the rank |
| Flbwt.OutputBytes | src/flbwt.cpp:56-84 | the file is the 8-byte rank followed by the BWT without the byte at `last`, n + 8 bytes in all, in every one of the three branches |
| Flbwt.OutputDecodes | src/flbwt.cpp:56-84 | reading the file back gives the rank and, in order, every BWT byte but the sentinel |

## Left out

- Sais.InduceSA: states that SA[0..n) ends induced from any seeding, not the order of the suffixes inside a bucket; that order is the suffix sortedness of SA-IS, which this model does not prove.
- Sais.ForwardSweep: states where the L-type positions end up and how they read, not their order inside the head of a bucket.
- Sais.BackwardSweep: states that SA[0..n) ends induced, not the order inside a bucket.
- Sais.SaisMain: states that SA[0..n) ends induced (every position once, in its bucket, L-type before S-type), not that each bucket is in suffix order (see Sais.InduceSA). It does not prove ok == true: see Sais.NameLmsSubstrings, the engine faults and the fuel bound below.
- Sais.SortLmsSubstrings: states that SA[0..m) is ordered by first character, not that the LMS substrings are fully sorted, because the order inside a bucket is not proved; it does not prove that the length store and the naming succeed, so when they fail (ok == false) it states only the frame.
- Sais.NameSubstrings: the facts about what each record reads and writes at its slot m + p/2 hold when those slots are distinct; NameSubstrings does not require it, because the source does not, and Sais.NameLmsSubstrings derives it from the compacted LMS positions (Sais.LmsSlotsDistinct).
- Sais.NameLmsSubstrings: ok == true is not proved. The length store fails exactly when some slot m + p/2 reaches n, and ruling that out needs the bound of at most n/2 LMS positions, which the model does not prove; the comparisons fail when they read past the text. On failure only the frame is stated.
- Sais.SolveReduced: states that the mapped-back LMS positions are ordered by first character, not that they are in LMS-suffix order, since Sais.SaisMain does not state the recursion's SA sorted; ok == true is not proved (the reduced text may not fit, or fuel may run out).
- Sais.InduceFromLms: from LMS positions ordered by first character it states SA[0..n) induced; the order inside a bucket is not proved, as at Sais.InduceSA.
- Sais32Bit.Sais32: states what Sais.SaisMain states, on the decoded text, with the same limits; Sais32Bit.Decode states the decoding.
- Sais40Bit.Sais40: states what Sais.SaisMain states, on the decoded text, with the same limits; Sais40Bit.Decode and the 40-bit counts and buckets state their own results.
- Buckets.Bucket.InsertSubstring: requires k != 1, because the small-substring limit at src/bucket.cpp:22 divides by log2_64(k), which is 0 for k = 1.
- Buckets.Bucket.InsertSubstring: requires nextPosition + RecordSize <= |b|, because sdsl's set_int past the end of the bit vector is undefined.
- BucketMaps.BucketMap.InsertSubstring: requires k != 1 and room for the record in the bucket of T[p], for the reasons given at Buckets.Bucket.InsertSubstring.
- BucketMaps.BucketMap.InsertSubstring: requires T[p] in buckets, because `(*buckets)[T[p]]` at src/bucket_map.cpp:29 default-inserts a null Bucket* for a missing key and then calls through it.
- Packed.PackedArray.Set: requires x < Pow2(w), because the source masks nothing, and a wider x spills into the neighbouring element.
- Packed.PackedArray.Set: requires w <= 63, because at w = 64 the first branch of get_bits shifts by 2·32 - 1 - 64 = -1 at src/packed_array.cpp:72, which C++ leaves undefined.
- SA-IS engine faults: where the source would read or write out of range (a name buffer slot beyond n, a reduced text that does not fit, ranks out of range), the model returns ok = false instead of modelling the fault.
- SA-IS recursion depth: SaisMain and SolveReduced carry a fuel parameter bounding the recursion depth; a run that would recurse deeper returns ok = false.
- SA-IS workspace: the C and B vectors live in a fresh array of their own (Sais.Workspace) instead of the free slots SA[n..n+fs); the placement rule (B after C when 2k <= fs, shared otherwise) is kept. The fresh C = B array of k entries when k > fs, and its release, are therefore not distinguished.
- SA-IS text: the text is a sequence value; in the source the reduced text is a region of SA that the recursive call reads while it writes SA. The model copies that region before the call. The bases T_base, and the +1 offset of `T->get_value(T_base + i + 1)`, are folded into the decoded text.
- SA-IS widths: SA is an array of unbounded integers. The PackedArray SA of src/sais.cpp, the int32_t SA of src/sais32bit.cpp and the split SA_L/SA_U of src/sais40bit.cpp are not modelled as storage; the split 40-bit store is modelled on its own (Sais40Bit.Set40BitValue, Get40BitValue) and for the counts and buckets.
- src/sais32bit.cpp and src/sais40bit.cpp: their counting, bucket, seeding, induction, compaction and naming loops are the loops of src/sais.cpp over the characters `chr` reads, and are modelled by module Sais on the decoded text (Sais32Bit.Decode, Sais40Bit.Decode); only the 40-bit split counts and buckets are modelled separately.
- Sais32Bit.Word32: the `(uint32_t*)` view assumes a little-endian machine.
- Sais40Bit.GetCounts40: requires a text shorter than 2^39, so that no count leaves the 40-bit signed range.
- Sais40Bit.GetBuckets40: requires counts totalling less than 2^39; the 64-bit wrap-around of the running sum is not modelled.
- include/sais40bit.hpp is not part of this model: `set_40bit_value` and `get_40bit_value` follow their use in src/sais40bit.cpp and test/sais40bit_test.cpp (the high half is `value >> 32` as int8_t, the low half the low 32 bits).
- PackedText: `BIT_MASK(uint64_t, w)` is taken to be 2^w - 1; its definition is not part of this model.
- Instrumentation: `increase_memory_allocation` and `decrease_memory_allocation` are left out.
- I/O: `bwt_file` opening, reading and writing files, and bwt.cpp with its command line, are left out; only the output byte layout is modelled (Flbwt.OutputBytes).
- bwt_is after the reduced text: the call of `sais_main` on T1, the pointer arithmetic on `bwp_base`, `min_ptr` and `max_ptr`, and `induce_bwt` are left out; src/induce.cpp is unfinished and src/queue.cpp holds only a constructor.
- Flbwt interner: `extract_LMS_strings` uses the byte-record hash table API, which src/hashtable.cpp does not implement; the interner is modelled as the sequence of distinct substrings with a map from content to name. The record bytes that `sort_LMS_strings` writes for the head and end substrings are modelled as the strings themselves.
- Flbwt.BwtString: n <= 2 and a text without an LMS position are reported as Undefined, since the source then reads a missing hash table or an uninitialised `p`.
- Flbwt.Scan: the alphabet size k counts the sentinel and T[n-1] together as one, and the loop adds the other distinct bytes of T[0..n-1) that are not 0 or T[n-1], as the source does.
- Flbwt.Container.constructor: src/container.cpp does not match include/container.hpp; the model starts M, NL and C at zero.
- Flbwt.CreateShortenedString: T1 is an `array<nat>`. The source's `new PackedArray(total_substring_count, max_name, false)` at src/flbwt.cpp:390 and its `set_value` calls at lines 397, 420 and 433 are not declared in include/packed_array.hpp, which offers only `PackedArray(n, w)` with `pa_set`/`pa_get`. So the packed store of T1 is not modelled, and neither is whether the `set_bits` defect of the first Findings row would reach it: as written, the right-to-left writes of Flbwt.FillNames could clear names already stored in the same word.
- std::sort: replaced by an insertion sort with the same postcondition (sorted under the comparator, a permutation of the input).
- HashTables: the setters do not re-establish the table invariant alone; InsertString does, for the whole insert.
- HashTables.HashTable.constructor: requires k != 1, since `log2_64(n) / log2_64(k)` at src/hashtable.cpp:16 divides by log2_64(1) = 0.
- HashTables.HashTable.constructor: requires hashTableSize >= 1; the source builds a table of size 0, but the hash `x %= HTSIZE` at src/hashtable.cpp:155 then divides by zero, so the model's table invariant asks for at least one bucket.
- HashTables.HashTable.InsertString: requires m >= 2 (lengths 0 and 1 mark chain ends and links, so shorter strings cannot be stored) and a buffer that stays below 2^64 bits.
- HashTables.HashTable.InsertString: the link record is written in the short layout (PutLink), as evidently intended; see Findings.
- sdsl: `bit_vector` is a sequence of booleans with least-significant-bit-first `get_int`/`set_int`, and `select1` is a specification function (Sequences.Select1); `select_support_mcl` itself is not modelled.
- Sequences.Sequence.constructor: the universe U is taken as 2^64 - 1, the largest value a uint64 can hold; `Sequence::U` is used at src/sequence.cpp:16 but declared neither there nor in include/sequence.hpp.
- Sequences.Sequence.StoreInteger: the lower stream is allocated at its corrected length; see Findings.
- Sequences.Sequence.StoreInteger: requires ubits >= 1, which leaves out n = 1; there ubits = 0 and `integer >> (64 - ubits)` at src/sequence.cpp:38 shifts a 64-bit word by 64, which C++ leaves undefined.
- Sequences.Sequence.GetInteger: requires ubits >= 1, which leaves out n = 1; there `upper_bits << (64 - ubits)` at src/sequence.cpp:56 shifts by 64, which C++ leaves undefined.
- Packed.PackedArray.SetBits: models `set_bits` as evidently intended (the final mask shifted into the window, 64-bit masks); the as-written store is kept for the Findings.
- Packed.PackedArray.Set: holds for the corrected store only. As written, the final store of src/packed_array.cpp:44-46 clears the low d bits of the word instead of the element's own window and ORs x in without clearing that window, so it can zero a later element of the same word (Packed.AsWrittenClearsNext); and for w > 32 the `int` masks of lines 36-41 drop the high bits of x (Packed.AsWrittenDropsHighBits). See the first two Findings rows.
- Nothing in the core is concurrent and none of it uses floating point.

## Findings

| source | as written | input that shows it | evidently intended | confidence | as-written member | corrected member |
|---|---|---|---|---|---|---|
| src/packed_array.cpp:44-46 | the last part of `set_bits` clears the word with the unshifted mask `(1 << d) - 1` | w = 16: writing element 0 clears bits 16..31 of word 0, so element 1 reads 0 whatever it held | the mask shifted left by 32 - i - d, so that only the element's own bits are cleared | not executed | Packed.AsWrittenClearsNext | Packed.StoreFinalFixed |
| src/packed_array.cpp:36-41 | the masks `(1 << d2) - 1` and `(1 << d) - 1` are `int` shifts, which overflow once the shift reaches 32 | w = 42, four zeroed elements: writing 256 at element 3 leaves d = 40 after the first word, and element 3 reads 0 | 64-bit masks `(1ULL << d) - 1` | not executed | Packed.AsWrittenDropsHighBits | Packed.WriteHighElement |
| src/sequence.cpp:16 | the lower stream gets n·(log2_64(U / n + 1) + 1) bits | n = 10: 610 bits are allocated, while `store_integer(10, _)` writes a 61-bit field ending at bit 611 | n·lbits + 1 bits, room for the unused bit 0 and n fields of lbits = 64 - log2_64(n) bits | not executed | Sequences.AsWrittenLowerTooShort | Sequences.LowerLength |
| src/hashtable.cpp:111-112 | a full block is linked with `set_length(pp, 1)`, which writes a long record when the length limit of short records is 0 | n = 3, k = 4 (widths with SS_LIMIT = 0): after linking at bit 1 to bit 200, the pointer overwrites the length field and the record reads as length 0, the end of the chain | a link record that always reads as a short record of length 1 | not executed | HashTables.AsWrittenLinkReadsAsEnd | HashTables.LinkStep |
