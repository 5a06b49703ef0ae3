# hashgen in Dafny

`hashgen.c` builds a file of 16-byte records. Each record holds a 6-byte
random nonce and the first 10 bytes of the BLAKE3 hash of that nonce. The
records are sorted by hash. The file is processed in buckets sized by a memory
budget, and each bucket runs three phases:
- hash threads fill the bucket's records;
- sort threads `qsort` their slices;
- write threads append the bucket to the file.

At the end the program reads the file back and sorts all of it once more.

This project models the computational core of that program and proves its
properties:
- `Records`: the record layout and the byte-wise hash comparator. The
  comparator is proved to implement lexicographic order on the 10 hash bytes,
  to ignore the nonce, and to be a total preorder.
- `Sizing`: the sizing arithmetic of `main`, which covers the argument check,
  `num_records`, `num_buckets` and the per-bucket split.
- `SizeArith`: the unsigned `size_t` arithmetic these use.
  - Sums wrap modulo 2^64.
  - Products, quotients and remainders are recursive functions.
  - Lemmas prove that these recursive functions agree with `*`, `/` and `%`.
- `Partition`: the start/end/count formula every phase applies to its threads.
  It is computed modulo 2^64. The module proves:
  - the exact ranges;
  - that the ranges are ordered and contiguous;
  - exactly which indices of a bucket a phase covers.
- `Generation`: the hash thread's loop over its inclusive range, as a method
  on the record array proved against a function on sequences. It also models
  a hash phase of several threads.
- `Sorting`: a thread's slice sort, done in place on the array and proved to
  sort the slice and permute it, leaving everything else unchanged. This
  module also covers the sort phase and the final sort of the whole array.
- `Buckets`: one bucket's hash and sort phases, and the bucket loop. It proves
  that every record is either generated or still as allocated. When the
  sizes divide evenly, it also proves that every sort slice ends up sorted and
  every record is generated.

BLAKE3 is the function parameter `digest: Nonce -> Hash`. `rand()` is the
parameter `rand`: it gives the value of a thread's `c`-th call in a given
bucket. The threads of a phase run one after another, in thread order. When
the ranges of a phase are ordered and disjoint, each index afterwards holds
the record of the one thread whose range contains it (`AfterHashPhaseAt`).

In the code (`hashgen.c:379-396`), every bucket adds `num_records % num_buckets` to its
last thread, and every phase drops `num_records_per_bucket % threads` records
at the end of each bucket. So a phase covers exactly one bucket only when those
two amounts are equal (`PhaseCoversBucketIff`). Otherwise ranges run into the
next bucket (`OverlapExample`) or leave gaps (`GapExample`). When the chunk is 0
in bucket 0 (where the start index is 0), the end index of every thread but
the last wraps to 2^64 - 1, and the last thread's too when the remainder is 0
(`EmptyChunkWraps`). The model
follows the code. The claims about sorted buckets and generated records are
therefore stated under conditions where no phase's ranges leave their bucket.

## Model

| member | source | states |
|---|---|---|
| Records.CompareFrom | hashgen.c:81-91 | comparing the hash bytes from byte `i` on returns -1, 0 or 1 |
| Records.Compare | hashgen.c:76-94 | the comparator returns -1, 0 or 1 |
| Records.CompareFromSpec | hashgen.c:81-91 | comparing from byte `i` gives 0 exactly when the hash suffixes are equal; otherwise some byte at or after `i` is the first to differ |
| Records.CompareSpec | hashgen.c:76-94 | the comparator returns 0 iff the two hashes are equal; otherwise it returns -1 iff, at the first differing byte, the first hash's byte is smaller |
| Records.HashValuesComparison | hashgen.c:76-94 | the loop over the 10 hash bytes returns what the comparator function does |
| Records.FirstDifferenceDecides | hashgen.c:81-90 | the first differing byte alone decides the sign of the result |
| Records.LastByteDecides | hashgen.c:81-93 | when only the last hash byte differs, that byte decides the order |
| Records.CompareIgnoresNonce | hashgen.c:76-94 | replacing either record's nonce does not change the comparison |
| Records.CompareFromAntisymmetric | hashgen.c:81-91 | swapping the operands negates the result from every start byte |
| Records.CompareFromTransitive | hashgen.c:81-91 | "at most" on hash suffixes is transitive |
| Records.CompareReflexive | hashgen.c:76-94 | every record compares equal to itself |
| Records.CompareAntisymmetric | hashgen.c:76-94 | compare(a, b) = -compare(b, a) |
| Records.LeTransitive | hashgen.c:76-94 | the order `qsort` is given is transitive |
| Records.LessTransitive | hashgen.c:76-94 | strictly below then at most gives strictly below |
| Records.LeTotal | hashgen.c:76-94 | any two records compare one way or the other, so the order is a total preorder |
| Sizing.NumRecords | hashgen.c:344-353 | at least one record and fewer than 2^64; for a positive size, the records fill the file's bytes exactly; size 0 gives 1 |
| Sizing.RecordsPerGigabyte | hashgen.c:344-345 | one gigabyte is exactly 2^26 records of 16 bytes |
| Sizing.NumBuckets | hashgen.c:368 | the bucket count is the C quotient; it has the floor-division bracket of whole budgets within the megabytes, and it is 0 iff the budget exceeds the file size |
| Sizing.SplitBuckets | hashgen.c:379-380 | buckets times per-bucket plus the remainder is all records, and the remainder is below the bucket count |
| Sizing.SplitBucketsIsDivision | hashgen.c:379-380 | the per-bucket count and the remainder are C's `/` and `%` of `num_records` by `num_buckets` |
| Sizing.MakePlan | hashgen.c:338-368 | succeeds iff the options pass the argument check; then the records fill the file exactly, number between 2^26 and 2^64, and the buckets are the whole budgets that fit |
| Sizing.OversizedInvalidRejected | hashgen.c:338-342 | options failing the argument check are rejected even when `FILE_SIZE_GB * 1024` would overflow an `int`, since the check comes before that product |
| Sizing.OneGigabyteScenario | hashgen.c:344-380 | 1 GB with a 256 MB budget gives 2^26 records in 4 buckets of 2^24, with no remainder |
| SizeArith.Wrap | hashgen.c:391-392 | reduction to `size_t` lies below 2^64 and leaves values in range unchanged |
| SizeArith.WrapAdd | hashgen.c:392-395 | helper for `WrapSpan` and `WrapSpanExtended`: wrapping an intermediate sum does not change the wrapped total |
| SizeArith.WrapSpan | hashgen.c:392-403 | `end - start + 1` with `end = start + q - 1`, all wrapped, is `q` wrapped |
| SizeArith.WrapSpanExtended | hashgen.c:392-403 | the same after the remainder is added to the end |
| SizeArith.MulIsProduct | hashgen.c:391 | the recursive product is multiplication |
| SizeArith.MulCommutes | hashgen.c:379-380 | helper for `SplitBuckets`: the product's operands commute |
| SizeArith.MulMonotone | hashgen.c:391 | helper for `QuotientUnique` and the range bounds: more copies give a product at least as large |
| SizeArith.DivMod | hashgen.c:379-380 | quotient times divisor plus remainder is the dividend, and the remainder is below the divisor |
| SizeArith.QuotientUnique | hashgen.c:379-380 | helper for `DivIsQuotient`: quotient and remainder are determined by the dividend and the divisor |
| SizeArith.DivIsQuotient | hashgen.c:379-380 | the recursive quotient and remainder equal `/` and `%` |
| SizeArith.DivPositive | hashgen.c:391-392 | a thread's chunk `num_records_per_bucket / threads` is at least 1 exactly when the per-bucket count reaches the thread count |
| Partition.ThreadRangeFormula | hashgen.c:391-403 | the model's range is the source's start, end and count formula, computed modulo 2^64 |
| Partition.BoundsCount | hashgen.c:392-403 | a thread's `num_records` is its chunk, plus the remainder for the last thread, modulo 2^64 |
| Partition.ThreadRangeCount | hashgen.c:391-404 | every range carries its bucket index, and its count is the chunk length it is meant to get, modulo 2^64 |
| Partition.ChunksFit | hashgen.c:391-392 | the first `i + 1` chunks fit in a bucket |
| Partition.ThreadRangeExact | hashgen.c:391-403 | without wrap-around, thread `i` starts `i` chunks into its bucket, spans its chunk length, and its count is its length |
| Partition.ThreadRangesContiguous | hashgen.c:391-396 | each range ends right before the next thread's starts |
| Partition.RangesApart | hashgen.c:391-396 | a lower thread's range ends before any higher thread's starts |
| Partition.PhasePlanOrdered | hashgen.c:389-405 | a phase's ranges are in increasing order, disjoint and non-empty, and each `num_records` is the range's length |
| Partition.LastRangeEnd | hashgen.c:394-396 | the last thread's range ends at the phase limit: bucket start + per-bucket - per-bucket % threads + remainder |
| Partition.RangeBeforeLast | hashgen.c:391-396 | no range of a phase ends after the last thread's |
| Partition.RangeWithinLimit | hashgen.c:391-396 | every range lies between the bucket's first index and the phase limit |
| Partition.Owner | hashgen.c:389-405 | every index from the bucket start up to the phase limit lies in some thread's range |
| Partition.PhaseCoverage | hashgen.c:389-405 | an index is covered by a phase iff it lies between the bucket start and the phase limit |
| Partition.PhaseCoversBucketIff | hashgen.c:379-405 | a phase covers exactly its bucket's records iff the records it drops (`per-bucket % threads`) equal the remainder it adds |
| Partition.OverlapExample | hashgen.c:391-396 | 10 per bucket, 3 threads, remainder 2: bucket 0's last range overlaps bucket 1's first |
| Partition.GapExample | hashgen.c:391-396 | 11 per bucket, 3 threads, no remainder: bucket 0's last range ends at 8 and bucket 1's first starts at 11, so indices 9 and 10 are covered by no thread of the phase |
| Partition.EmptyChunkWraps | hashgen.c:391-403 | when there are more threads than records per bucket, the first thread of bucket 0 (where the start index is 0) gets an end index that wraps to 2^64 - 1 and a count of 0 |
| Partition.FillArgs | hashgen.c:389-422 | the loop filling a phase's argument array leaves it equal to the phase's plan |
| Generation.DrawNonce | hashgen.c:52-55 | the six-byte loop draws the record's nonce from the thread's next six `rand()` calls |
| Generation.GenerateRecord | hashgen.c:52-60 | one iteration replaces record `i` by a fresh nonce and its digest, and nothing else |
| Generation.GeneratedSpec | hashgen.c:50-61 | after a hash thread, every index of its inclusive range holds a record whose hash is the digest of its nonce, and every other index is unchanged |
| Generation.GeneratedBelowStep | hashgen.c:50-61 | each iteration of the loop extends the generated prefix of the range by one index |
| Generation.HashThreadGenerate | hashgen.c:50-61 | the hash thread's loop leaves the array equal to the generated sequence of its range |
| Generation.AfterHashPhaseAt | hashgen.c:440-446 | with ordered ranges, when the threads run in thread order, every index of thread `i`'s range holds thread `i`'s record for it, and every uncovered index is unchanged |
| Generation.HashPhaseDerives | hashgen.c:440-446 | every index some hash thread covers holds a generated record afterwards |
| Generation.HashPhase | hashgen.c:440-446 | running a phase's hash threads leaves the array as the phase's generated sequence |
| Sorting.NoDescentPrefix | hashgen.c:107 | with no adjacent descent, every earlier record is at most a later one |
| Sorting.SortedIffNoDescent | hashgen.c:107 | sorted under the comparator iff no adjacent pair compares as 1 |
| Sorting.SwapInSlice | hashgen.c:107 | swapping two records of a slice keeps the slice's multiset |
| Sorting.SwapPermutes | hashgen.c:107 | swapping neighbours inside `[lo, hi)` permutes only that slice |
| Sorting.PermutedWithinTrans | hashgen.c:107 | permutations within a slice compose |
| Sorting.InsertingSwap | hashgen.c:107 | swapping the inserted record down past a greater one keeps an insertion in progress |
| Sorting.InsertingDone | hashgen.c:107 | once the inserted record meets no greater neighbour, the slice up to it is sorted |
| Sorting.InsertStep | hashgen.c:107 | inserting one more record extends the sorted prefix of the slice and only permutes the slice |
| Sorting.SortSlice | hashgen.c:107 | the slice `lo .. lo+n` is sorted, holds the same records, and nothing outside it changes |
| Sorting.SliceUntouched | hashgen.c:107 | a permutation inside one slice leaves a slice lying apart from it unchanged |
| Sorting.OutsideStep | hashgen.c:448-455 | after one more sort thread, the indices outside the sorted slices still hold their original records |
| Sorting.CurrentSliceStep | hashgen.c:448-455 | the slice a sort thread sorts holds the records it held before the phase |
| Sorting.SlicesSortedStep | hashgen.c:448-455 | one more sort thread keeps the earlier slices sorted and adds its own |
| Sorting.SlicesPermutedStep | hashgen.c:448-455 | one more sort thread keeps every slice a permutation of its original and leaves the rest unchanged |
| Sorting.SortedUpToStep | hashgen.c:448-455 | both of the above together |
| Sorting.SortPhase | hashgen.c:448-455 | after a sort phase, every thread's slice is sorted and a permutation of what it held, and every other index is unchanged |
| Sorting.FinalSort | hashgen.c:474 | the read-back array ends sorted, and is a permutation of what it held |
| Buckets.FitsPlan | hashgen.c:389-421 | the ranges of a phase that fits the array are in bounds, ordered, valid disjoint `qsort` slices, and within the bucket up to the phase limit |
| Buckets.BucketFits | hashgen.c:379-396 | every bucket fits the record array with its remainder, provided each thread gets at least one record |
| Buckets.ZeroChunkSortSlice | hashgen.c:407-421 | when a sort thread's chunk is 0, its `qsort` slice starts at the bucket's first index and has length 0, or the bucket remainder for the last thread, and lies inside the array |
| Buckets.RangesInBounds | hashgen.c:375-421 | every index given to any thread of any bucket lies inside the `num_records` array, provided each thread gets at least one record |
| Buckets.DrawFrom | hashgen.c:107 | a record of a permuted sequence comes from some index of the original |
| Buckets.DrawFromSlice | hashgen.c:107 | a record of a sorted slice comes from the same slice |
| Buckets.SortPhaseDraws | hashgen.c:448-455 | after a sort phase each record comes from its own index or from an index of the same slice |
| Buckets.HashPhaseKeepsOrigin | hashgen.c:440-446 | the hash phase keeps every record either generated or as allocated |
| Buckets.SortPhaseKeepsOrigin | hashgen.c:448-455 | the sort phase keeps every record either generated or as allocated |
| Buckets.PassKeepsOrigin | hashgen.c:440-455 | one bucket's hash and sort phases keep every record either generated or as allocated |
| Buckets.ExactPhaseInBucket | hashgen.c:391-396 | with no bucket remainder, a phase stays inside its bucket |
| Buckets.ExactSlicesInBucket | hashgen.c:407-421 | with no bucket remainder, every sort slice lies inside its bucket |
| Buckets.SliceKept | hashgen.c:448-455 | a slice below an unchanged prefix is unchanged |
| Buckets.ExactBucketKeepsBelow | hashgen.c:440-455 | with no bucket remainder, a bucket's phases leave every earlier bucket's records unchanged |
| Buckets.SortKeepsDerivedWithin | hashgen.c:448-455 | sorting slices within a region of generated records keeps them generated |
| Buckets.ExactHashPhaseDerived | hashgen.c:440-446 | when the hash threads tile the bucket, every record of the bucket is generated |
| Buckets.ExactBucketDerived | hashgen.c:440-455 | the same holds after the bucket's sort phase |
| Buckets.EarlierBucketBelow | hashgen.c:391 | an earlier bucket ends before a later one starts |
| Buckets.ExactSliceEnd | hashgen.c:407-413 | with no remainder, a sort slice ends inside its bucket |
| Buckets.EarlierBucketKept | hashgen.c:375-465 | a bucket whose records are unchanged stays sorted slice by slice |
| Buckets.EarlierBucketsKept | hashgen.c:375-465 | all earlier buckets stay sorted when the records below the current bucket are unchanged |
| Buckets.BucketsSortedStep | hashgen.c:375-465 | the earlier sorted buckets plus the current one give one more sorted bucket |
| Buckets.SortPhaseSortsBucket | hashgen.c:448-455 | with no remainder, after the sort phase every slice of the bucket is sorted |
| Buckets.ExactBucketSortedStep | hashgen.c:375-465 | with no remainder, one more pass of the loop adds one more bucket to the sorted ones |
| Buckets.ExactBucketDerivedStep | hashgen.c:375-465 | when the phases tile the buckets, one more pass of the loop extends the generated prefix by a bucket |
| Buckets.BucketPass | hashgen.c:375-465 | one pass keeps the origin invariant and, when the sizes divide, extends both the sorted buckets and the generated prefix by one bucket |
| Buckets.ProcessBucket | hashgen.c:389-456 | one bucket's arguments equal the phase plans, and the records are the hash phase's output with every sort slice sorted and permuted |
| Buckets.RunBucket | hashgen.c:376-465 | one pass of the loop (the split, then the bucket's hash and sort phases) leaves both argument arrays equal to the bucket's phase plans and the records equal to the hash phase's output with every sort slice sorted and permuted; it keeps every record generated or as allocated, keeps the next bucket's start inside the array, and, when the sizes divide, adds the bucket to the sorted buckets and to the generated prefix |
| Buckets.RunBuckets | hashgen.c:375-465 | no buckets leave the array unchanged; every record is generated or as allocated; with no bucket remainder every sort slice of every bucket is sorted; if the hash threads also divide a bucket evenly, every record is generated |

## Left out

- Threads, `pthread_create`/`pthread_join` and the barrier (`hashgen.c:158-168`, `200-210`, `364-365`, `442-464`): each phase's threads run one after another. The ranges are disjoint, so the result is the same.
- The write phase and its arguments (`hashgen.c:121-153`, `424-439`, `458-464`): they only copy records to the file and change no record.
- File I/O (`hashgen.c:172-196`, `472`, `476-490`): the final sort takes the array read back from the file as its input, because what the file holds is not part of this model.
- The final write at `hashgen.c:483`: it writes the `records` buffer freed at `hashgen.c:470`, not the sorted `all_records`. No claim is made about the file's final contents.
- Timing, throughput figures and `printf` (`hashgen.c:45-48`, `63-68`, `102-114`, `370-373`, `449`, `493-504`): they have no effect on the records.
- Command-line parsing, help text, `print_configuration` and `freopen` (`hashgen.c:215-336`): the model starts from the parsed `Options`.
- BLAKE3 (`hashgen.c:57-60`): it is the parameter `digest`.
- `rand` and `srand` (`hashgen.c:42`, `54`): `rand()` is the parameter `rand`, which gives its value by bucket, thread and call number.
- Sizing.MakePlan: requires, for valid options only, `FILE_SIZE_GB * 1024` to fit in an `int`, because `hashgen.c:368` computes it in `int` and a larger size is undefined behaviour in C.
- Buckets.RunBuckets: requires each hash thread to get at least one record, because with a zero chunk the first thread of bucket 0 gets the end index 2^64 - 1 (see `Partition.EmptyChunkWraps`), and its loop would index far outside the array.
- Buckets.RunBuckets: also requires each sort thread to get at least one record. This is a simplification, not a limit of the source: with a zero chunk, the source's `qsort` gets a count of 0, or the bucket remainder for the last thread, and stays in bounds (see `Buckets.ZeroChunkSortSlice`). The model does not cover runs with more sort threads than records per bucket.
- Buckets.RunBuckets: states sortedness only when there is no bucket remainder. With a remainder above `num_records_per_bucket % sort_threads`, a bucket's last sort slice runs into the next bucket (see `Partition.OverlapExample`), and the next bucket's hash phase rewrites the overlap with fresh records before its sort reorders it. With a nonzero remainder of at most that amount the slices stay within their buckets and stay sorted; that case is true of the source but not claimed.
- Buckets.RunBuckets: states that every record is generated only when there is no bucket remainder and `num_records_per_bucket % hash_threads` is 0. The second condition is needed: otherwise the hash threads skip the end of each bucket (see `Partition.GapExample`), and the last such gap, at the end of the array, is never filled. The first is not: with a remainder, bucket `b`'s hash threads still cover its records plus the remainder, so every index is generated. That case is true of the source but not claimed.
- No claim of full coverage across buckets is made: the ranges do not tile the array in general.
- Generation.HashThreadGenerate: requires the range to end inside the array. The loop `i <= end_index` never ends when `end_index` is `SIZE_MAX`, which the requirement excludes.
- Allocation failures (`hashgen.c:243-252`, `356-361`, `382-386`): the record and argument arrays are assumed allocated.
- Sorting.SortSlice, Sorting.FinalSort: an insertion sort stands in for `qsort` (`hashgen.c:107`, `474`). Only its result counts: sorted under the comparator and a permutation. `qsort` is not stable, and with equal hashes it may order records differently.
- The plotting scripts under `plotscripts/`: they are not part of this model.
