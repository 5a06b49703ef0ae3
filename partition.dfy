/**
 * The range formula that hashgen's bucket loop applies to each phase: thread
 * `i` of `threads` in bucket `bucket` gets the inclusive index range
 * `[startIndex, endIndex]` of the record array, every thread the same chunk
 * `perBucket / threads`, and the last thread also the bucket remainder.
 * The indices are `size_t`, so the formula is computed modulo 2^64.
 */
module Partition {
  import opened SizeArith

  /** The fields of `ThreadArgs` that the formula fills in. */
  datatype ThreadArgs = ThreadArgs(startIndex: nat, endIndex: nat, numRecords: nat, bucketIndex: nat)

  /** The length thread `i` is meant to get: the chunk, plus the remainder for the last. */
  function ChunkLength(i: nat, threads: nat, perBucket: nat, remaining: nat): (r: nat)
    requires i < threads
  {
    Div(perBucket, threads) + (if i == threads - 1 then remaining else 0)
  }

  /**
   * The end index and `num_records` the loop derives from a start index: the
   * end `q - 1` past the start, the remainder added for the last thread.
   */
  function Bounds(start: nat, q: nat, last: bool, remaining: nat, bucket: nat): (r: ThreadArgs) {
    var end := Wrap(start + q - 1);
    var end' := if last then Wrap(end + remaining) else end;
    ThreadArgs(start, end', Wrap(end' - start + 1), bucket)
  }

  /**
   * The arguments of thread `i`, exactly as the bucket loop computes them in
   * `size_t`. `Mul` and `Div` stand for the source's `*` and `/`;
   * `ThreadRangeFormula` restates the result with `*` and `/` as written.
   */
  function ThreadRange(bucket: nat, i: nat, threads: nat, perBucket: nat, remaining: nat): (r: ThreadArgs)
    requires i < threads
  {
    var q := Div(perBucket, threads);
    Bounds(Wrap(Mul(i, q) + Mul(bucket, perBucket)), q, i == threads - 1, remaining, bucket)
  }

  /** Even where the end index wraps around, `num_records` is the intended length modulo 2^64. */
  lemma BoundsCount(start: nat, q: nat, last: bool, remaining: nat, bucket: nat)
    requires start < SIZE_MOD
    ensures Bounds(start, q, last, remaining, bucket).numRecords == Wrap(q + if last then remaining else 0)
  {
    if last {
      WrapSpanExtended(start, q, remaining);
    } else {
      WrapSpan(start, q);
    }
  }

  /**
   * Even where `endIndex` wraps around, the `num_records` field is the
   * intended length modulo 2^64, and the bucket index is the bucket's.
   */
  lemma ThreadRangeCount(bucket: nat, i: nat, threads: nat, perBucket: nat, remaining: nat)
    requires i < threads
    ensures ThreadRange(bucket, i, threads, perBucket, remaining).bucketIndex == bucket
    ensures ThreadRange(bucket, i, threads, perBucket, remaining).numRecords == Wrap(ChunkLength(i, threads, perBucket, remaining))
  {
    var q := Div(perBucket, threads);
    BoundsCount(Wrap(Mul(i, q) + Mul(bucket, perBucket)), q, i == threads - 1, remaining, bucket);
  }

  /** The argument array of one phase of one bucket. */
  function PhasePlan(bucket: nat, threads: nat, perBucket: nat, remaining: nat): (p: seq<ThreadArgs>)
  {
    seq(threads, i requires 0 <= i < threads => ThreadRange(bucket, i, threads, perBucket, remaining))
  }

  /** Index `k` lies in a thread's inclusive range. */
  ghost predicate InRange(t: ThreadArgs, k: int) {
    t.startIndex <= k <= t.endIndex
  }

  /** Ranges of a phase come in increasing order and do not overlap. */
  ghost predicate Ordered(p: seq<ThreadArgs>) {
    forall i, j :: 0 <= i < j < |p| ==> p[i].endIndex < p[j].startIndex
  }

  /** Every range is non-empty and its `num_records` field is its length. */
  ghost predicate Counted(p: seq<ThreadArgs>) {
    forall i :: 0 <= i < |p| ==> p[i].startIndex <= p[i].endIndex && p[i].numRecords == p[i].endIndex - p[i].startIndex + 1
  }

  /** Some thread of the phase covers index `k`. */
  ghost predicate Covered(bucket: nat, threads: nat, perBucket: nat, remaining: nat, k: int) {
    exists i :: 0 <= i < threads && InRange(ThreadRange(bucket, i, threads, perBucket, remaining), k)
  }

  /**
   * The bucket lies inside a `size_t`-indexed array and each thread gets at
   * least one record: the conditions under which nothing wraps.
   */
  ghost predicate NoWrap(bucket: nat, threads: nat, perBucket: nat, remaining: nat) {
    threads > 0 && Div(perBucket, threads) >= 1 && Mul(bucket, perBucket) + perBucket + remaining < SIZE_MOD
  }

  /** One past the last index the phase covers in this bucket. */
  function PhaseLimit(bucket: nat, threads: nat, perBucket: nat, remaining: nat): (r: int)
    requires threads > 0
  {
    Mul(bucket, perBucket) + perBucket - Mod(perBucket, threads) + remaining
  }

  /** The range formula is the source's, with `*` and `/` on `size_t` operands. */
  lemma ThreadRangeFormula(bucket: nat, i: nat, threads: nat, perBucket: nat, remaining: nat)
    requires i < threads
    ensures var r := ThreadRange(bucket, i, threads, perBucket, remaining);
      var end := Wrap(r.startIndex + perBucket / threads - 1);
      && r.startIndex == Wrap(i * (perBucket / threads) + bucket * perBucket)
      && r.endIndex == (if i == threads - 1 then Wrap(end + remaining) else end)
      && r.numRecords == Wrap(r.endIndex - r.startIndex + 1)
  {
    DivIsQuotient(perBucket, threads);
    MulIsProduct(i, Div(perBucket, threads));
    MulIsProduct(bucket, perBucket);
  }

  /** All chunks but the remainder fit in the bucket: `(i + 1) * q <= perBucket`. */
  lemma ChunksFit(i: nat, threads: nat, perBucket: nat)
    requires i < threads
    ensures Mul(i, Div(perBucket, threads)) + Div(perBucket, threads) <= perBucket
  {
    var q := Div(perBucket, threads);
    DivMod(perBucket, threads);
    MulCommutes(q, threads);
    MulMonotone(i + 1, threads, q);
  }

  /**
   * Without wrap-around, thread `i` starts `i` chunks into the bucket, ends
   * after its chunk length, and `num_records` is that length.
   */
  lemma ThreadRangeExact(bucket: nat, i: nat, threads: nat, perBucket: nat, remaining: nat)
    requires i < threads && NoWrap(bucket, threads, perBucket, remaining)
    ensures var r := ThreadRange(bucket, i, threads, perBucket, remaining);
      && r.startIndex == Mul(bucket, perBucket) + Mul(i, Div(perBucket, threads))
      && r.endIndex == r.startIndex + ChunkLength(i, threads, perBucket, remaining) - 1
      && r.numRecords == ChunkLength(i, threads, perBucket, remaining) == r.endIndex - r.startIndex + 1
  {
    var q := Div(perBucket, threads);
    var iq := Mul(i, q);
    var base := Mul(bucket, perBucket);
    ChunksFit(i, threads, perBucket);
    var start := iq + base;
    assert Wrap(start) == start;
    var extra := if i == threads - 1 then remaining else 0;
    assert start + q - 1 + extra < SIZE_MOD;
    assert Wrap(start + q - 1) == start + q - 1;
    assert Wrap(start + q - 1 + extra) == start + q - 1 + extra;
    assert Wrap(q + extra) == q + extra;
  }

  /** Consecutive threads get adjacent ranges: one ends right before the next starts. */
  lemma ThreadRangesContiguous(bucket: nat, i: nat, threads: nat, perBucket: nat, remaining: nat)
    requires i + 1 < threads && NoWrap(bucket, threads, perBucket, remaining)
    ensures ThreadRange(bucket, i, threads, perBucket, remaining).endIndex + 1
         == ThreadRange(bucket, i + 1, threads, perBucket, remaining).startIndex
  {
    ThreadRangeExact(bucket, i, threads, perBucket, remaining);
    ThreadRangeExact(bucket, i + 1, threads, perBucket, remaining);
  }

  /** Thread `i`'s range ends before thread `j`'s starts. */
  lemma RangesApart(bucket: nat, i: nat, j: nat, threads: nat, perBucket: nat, remaining: nat)
    requires i < j < threads && NoWrap(bucket, threads, perBucket, remaining)
    ensures ThreadRange(bucket, i, threads, perBucket, remaining).endIndex
          < ThreadRange(bucket, j, threads, perBucket, remaining).startIndex
  {
    ThreadRangeExact(bucket, i, threads, perBucket, remaining);
    ThreadRangeExact(bucket, j, threads, perBucket, remaining);
    MulMonotone(i + 1, j, Div(perBucket, threads));
  }

  /** The ranges of one phase are ordered, pairwise disjoint and counted correctly. */
  lemma PhasePlanOrdered(bucket: nat, threads: nat, perBucket: nat, remaining: nat)
    requires NoWrap(bucket, threads, perBucket, remaining)
    ensures Ordered(PhasePlan(bucket, threads, perBucket, remaining))
    ensures Counted(PhasePlan(bucket, threads, perBucket, remaining))
  {
    var p := PhasePlan(bucket, threads, perBucket, remaining);
    forall i, j | 0 <= i < j < threads ensures p[i].endIndex < p[j].startIndex {
      RangesApart(bucket, i, j, threads, perBucket, remaining);
    }
    forall i | 0 <= i < threads
      ensures p[i].startIndex <= p[i].endIndex && p[i].numRecords == p[i].endIndex - p[i].startIndex + 1
    {
      ThreadRangeExact(bucket, i, threads, perBucket, remaining);
    }
  }

  /** The last thread's range ends right before `PhaseLimit`. */
  lemma LastRangeEnd(bucket: nat, threads: nat, perBucket: nat, remaining: nat)
    requires NoWrap(bucket, threads, perBucket, remaining)
    ensures ThreadRange(bucket, threads - 1, threads, perBucket, remaining).endIndex + 1
         == PhaseLimit(bucket, threads, perBucket, remaining)
  {
    var q := Div(perBucket, threads);
    DivMod(perBucket, threads);
    MulCommutes(q, threads);
    ThreadRangeExact(bucket, threads - 1, threads, perBucket, remaining);
    assert Mul(threads, q) == Mul(threads - 1, q) + q;
  }

  /** Every range of a phase ends no later than its last range. */
  lemma RangeBeforeLast(bucket: nat, threads: nat, perBucket: nat, remaining: nat, i: nat)
    requires NoWrap(bucket, threads, perBucket, remaining) && i < threads
    ensures ThreadRange(bucket, i, threads, perBucket, remaining).endIndex
         <= ThreadRange(bucket, threads - 1, threads, perBucket, remaining).endIndex
  {
    if i < threads - 1 {
      var r, last := ThreadRange(bucket, i, threads, perBucket, remaining), ThreadRange(bucket, threads - 1, threads, perBucket, remaining);
      RangesApart(bucket, i, threads - 1, threads, perBucket, remaining);
      assert r.endIndex < last.startIndex;
      ThreadRangeExact(bucket, threads - 1, threads, perBucket, remaining);
      assert last.startIndex <= last.endIndex;
    }
  }

  /** Each thread's range lies between the bucket's first record and `PhaseLimit`. */
  lemma RangeWithinLimit(bucket: nat, threads: nat, perBucket: nat, remaining: nat, i: nat)
    requires NoWrap(bucket, threads, perBucket, remaining) && i < threads
    ensures Mul(bucket, perBucket) <= ThreadRange(bucket, i, threads, perBucket, remaining).startIndex
    ensures ThreadRange(bucket, i, threads, perBucket, remaining).endIndex < PhaseLimit(bucket, threads, perBucket, remaining)
  {
    ThreadRangeExact(bucket, i, threads, perBucket, remaining);
    LastRangeEnd(bucket, threads, perBucket, remaining);
    RangeBeforeLast(bucket, threads, perBucket, remaining, i);
  }

  /** The thread that owns index `k` of the phase's extent: the chunk `k` falls in, or the last thread. */
  lemma Owner(bucket: nat, threads: nat, perBucket: nat, remaining: nat, k: int) returns (i: nat)
    requires NoWrap(bucket, threads, perBucket, remaining)
    requires Mul(bucket, perBucket) <= k < PhaseLimit(bucket, threads, perBucket, remaining)
    ensures i < threads && InRange(ThreadRange(bucket, i, threads, perBucket, remaining), k)
  {
    var q := Div(perBucket, threads);
    var off := k - Mul(bucket, perBucket);
    var d := Div(off, q);
    DivMod(off, q);
    var last := threads - 1;
    LastRangeEnd(bucket, threads, perBucket, remaining);
    if d < last {
      i := d;
      ThreadRangeExact(bucket, d, threads, perBucket, remaining);
    } else {
      i := last;
      ThreadRangeExact(bucket, last, threads, perBucket, remaining);
      MulMonotone(last, d, q);
    }
  }

  /**
   * Within a bucket, the threads of a phase cover exactly the indices from the
   * bucket's first record up to (not including) `PhaseLimit`: the bucket's
   * records less `perBucket % threads`, plus the bucket remainder.
   */
  lemma PhaseCoverage(bucket: nat, threads: nat, perBucket: nat, remaining: nat, k: int)
    requires NoWrap(bucket, threads, perBucket, remaining)
    ensures Covered(bucket, threads, perBucket, remaining, k)
        <==> Mul(bucket, perBucket) <= k < PhaseLimit(bucket, threads, perBucket, remaining)
  {
    if Covered(bucket, threads, perBucket, remaining, k) {
      var i :| 0 <= i < threads && InRange(ThreadRange(bucket, i, threads, perBucket, remaining), k);
      RangeWithinLimit(bucket, threads, perBucket, remaining, i);
    }
    if Mul(bucket, perBucket) <= k < PhaseLimit(bucket, threads, perBucket, remaining) {
      var i := Owner(bucket, threads, perBucket, remaining, k);
    }
  }

  /**
   * A phase covers precisely its own bucket's records, from `bucket *
   * perBucket` up to the next bucket's first, if and only if the records it
   * drops, `perBucket % threads`, equal the remainder it adds.
   */
  lemma PhaseCoversBucketIff(bucket: nat, threads: nat, perBucket: nat, remaining: nat)
    requires NoWrap(bucket, threads, perBucket, remaining)
    ensures (forall k :: Covered(bucket, threads, perBucket, remaining, k)
                     <==> Mul(bucket, perBucket) <= k < Mul(bucket, perBucket) + perBucket)
        <==> Mod(perBucket, threads) == remaining
  {
    var base := Mul(bucket, perBucket);
    var limit := PhaseLimit(bucket, threads, perBucket, remaining);
    if Mod(perBucket, threads) == remaining {
      forall k ensures Covered(bucket, threads, perBucket, remaining, k) <==> base <= k < base + perBucket {
        PhaseCoverage(bucket, threads, perBucket, remaining, k);
      }
    } else {
      DivMod(perBucket, threads);
      var k := if Mod(perBucket, threads) < remaining then base + perBucket else base + perBucket - 1;
      PhaseCoverage(bucket, threads, perBucket, remaining, k);
      assert !(Covered(bucket, threads, perBucket, remaining, k) <==> base <= k < base + perBucket);
    }
  }

  /** Ten records per bucket, three threads, remainder 2: bucket 0's last range runs into bucket 1. */
  lemma OverlapExample()
    ensures ThreadRange(0, 2, 3, 10, 2) == ThreadArgs(6, 10, 5, 0)
    ensures ThreadRange(1, 0, 3, 10, 2) == ThreadArgs(10, 12, 3, 1)
  {
  }

  /** Eleven records per bucket, three threads, no remainder: indices 9 and 10 are never assigned. */
  lemma GapExample()
    ensures ThreadRange(0, 2, 3, 11, 0) == ThreadArgs(6, 8, 3, 0)
    ensures ThreadRange(1, 0, 3, 11, 0) == ThreadArgs(11, 13, 3, 1)
    ensures !Covered(0, 3, 11, 0, 9) && !Covered(0, 3, 11, 0, 10)
  {
    PhaseCoverage(0, 3, 11, 0, 9);
    PhaseCoverage(0, 3, 11, 0, 10);
  }

  /** With no records per thread, thread 0 of bucket 0 gets an `endIndex` that wraps to `SIZE_MAX`. */
  lemma EmptyChunkWraps(threads: nat, perBucket: nat)
    requires 1 < threads && perBucket < threads
    ensures ThreadRange(0, 0, threads, perBucket, 0).endIndex == SIZE_MOD - 1
    ensures ThreadRange(0, 0, threads, perBucket, 0).numRecords == 0
  {
  }

  /** The loop of `main` that fills one phase's argument array, thread by thread. */
  method FillArgs(args: array<ThreadArgs>, bucket: nat, perBucket: nat, remaining: nat)
    modifies args
    ensures args[..] == PhasePlan(bucket, args.Length, perBucket, remaining)
  {
    for i := 0 to args.Length
      invariant forall t :: 0 <= t < i ==> args[t] == ThreadRange(bucket, t, args.Length, perBucket, remaining)
    {
      args[i] := ThreadRange(bucket, i, args.Length, perBucket, remaining);
    }
  }
}
