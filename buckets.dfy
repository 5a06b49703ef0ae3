/**
 * The bucket loop of hashgen's `main`: for every bucket, the argument arrays
 * of the hash and sort threads are filled with their ranges, the hash threads
 * generate the bucket's records and the sort threads sort their slices. The
 * threads of a phase are run one after the other, in thread order; since
 * their ranges are disjoint, each index ends up holding the record of the one
 * thread whose range contains it.
 */
module Buckets {
  import opened SizeArith
  import opened Records
  import opened Sizing
  import opened Partition
  import opened Generation
  import opened Sorting

  /**
   * A phase of `threads` threads over bucket `bucket` fits a record array of
   * `n` records: each thread gets at least one record and the bucket with its
   * remainder ends inside the array, whose indices fit a `size_t`.
   */
  ghost predicate Fits(bucket: nat, threads: nat, perBucket: nat, remaining: nat, n: nat) {
    threads > 0 && Div(perBucket, threads) >= 1 && Mul(bucket, perBucket) + perBucket + remaining <= n < SIZE_MOD
  }

  /** The ranges of a phase that fits are in bounds, ordered, and usable as `qsort` slices. */
  lemma FitsPlan(bucket: nat, threads: nat, perBucket: nat, remaining: nat, n: nat)
    requires Fits(bucket, threads, perBucket, remaining, n)
    ensures InBounds(PhasePlan(bucket, threads, perBucket, remaining), n)
    ensures Ordered(PhasePlan(bucket, threads, perBucket, remaining))
    ensures SlicesDisjoint(PhasePlan(bucket, threads, perBucket, remaining), n)
    ensures forall i, k :: 0 <= i < threads && InSlice(PhasePlan(bucket, threads, perBucket, remaining)[i], k) ==>
      Mul(bucket, perBucket) <= k < PhaseLimit(bucket, threads, perBucket, remaining)
  {
    var p := PhasePlan(bucket, threads, perBucket, remaining);
    PhasePlanOrdered(bucket, threads, perBucket, remaining);
    forall i | 0 <= i < threads
      ensures Mul(bucket, perBucket) <= p[i].startIndex
      ensures p[i].endIndex < PhaseLimit(bucket, threads, perBucket, remaining)
    {
      RangeWithinLimit(bucket, threads, perBucket, remaining, i);
    }
    assert PhaseLimit(bucket, threads, perBucket, remaining) <= n;
  }

  /**
   * After a sort phase, each record comes from the state before it: from the
   * same index, or from an index of the same slice.
   */
  lemma SortPhaseDraws(s: seq<Record>, s': seq<Record>, plan: seq<ThreadArgs>, k: nat) returns (k': nat)
    requires |s| == |s'| && SlicesDisjoint(plan, |s|) && SlicesPermuted(s, s', plan, |plan|)
    requires k < |s|
    ensures k' < |s| && s'[k] == s[k']
    ensures k' == k || exists t :: 0 <= t < |plan| && InSlice(plan[t], k) && InSlice(plan[t], k')
  {
    if t :| 0 <= t < |plan| && InSlice(plan[t], k) {
      k' := DrawFromSlice(s, s', plan[t], k);
    } else {
      k' := k;
    }
  }

  /** A record of a slice that holds the same records as before comes from that slice. */
  lemma DrawFromSlice(s: seq<Record>, s': seq<Record>, t: ThreadArgs, k: nat) returns (k': nat)
    requires |s| == |s'| && t.startIndex + t.numRecords <= |s| && InSlice(t, k)
    requires multiset(Slice(s', t)) == multiset(Slice(s, t))
    ensures InSlice(t, k') && s'[k] == s[k']
  {
    var j := DrawFrom(Slice(s', t), Slice(s, t), k - t.startIndex);
    k' := t.startIndex + j;
  }

  /** An element of a sequence can be found in any sequence with the same multiset. */
  lemma DrawFrom(a: seq<Record>, b: seq<Record>, j: nat) returns (i: nat)
    requires multiset(a) == multiset(b) && j < |a|
    ensures i < |b| && b[i] == a[j]
  {
    assert a[j] in multiset(b);
    i :| 0 <= i < |b| && b[i] == a[j];
  }

  /** Records are generated ones, or are still what the record array was allocated with. */
  ghost predicate FromGeneratorOrInitial(s: seq<Record>, s0: seq<Record>, digest: Nonce -> Hash) {
    forall k :: 0 <= k < |s| ==> Derived(s[k], digest) || s[k] in s0
  }

  /** The hash phase keeps `FromGeneratorOrInitial`. */
  lemma HashPhaseKeepsOrigin(s0: seq<Record>, s: seq<Record>, plan: seq<ThreadArgs>, rand: RandomSource, digest: Nonce -> Hash)
    requires InBounds(plan, |s|) && Ordered(plan)
    requires FromGeneratorOrInitial(s, s0, digest)
    ensures FromGeneratorOrInitial(AfterHashPhase(s, plan, rand, digest), s0, digest)
  {
    AfterHashPhaseAt(s, plan, rand, digest);
  }

  /** The sort phase keeps `FromGeneratorOrInitial`. */
  lemma SortPhaseKeepsOrigin(s0: seq<Record>, s: seq<Record>, s': seq<Record>, plan: seq<ThreadArgs>, digest: Nonce -> Hash)
    requires |s| == |s'| && SlicesDisjoint(plan, |s|) && SlicesPermuted(s, s', plan, |plan|)
    requires FromGeneratorOrInitial(s, s0, digest)
    ensures FromGeneratorOrInitial(s', s0, digest)
  {
    forall k | 0 <= k < |s'| ensures Derived(s'[k], digest) || s'[k] in s0 {
      var k' := SortPhaseDraws(s, s', plan, k);
    }
  }

  /** A pass of the bucket loop keeps `FromGeneratorOrInitial`. */
  lemma PassKeepsOrigin(s0: seq<Record>, s: seq<Record>, s': seq<Record>, hashPlan: seq<ThreadArgs>, sortPlan: seq<ThreadArgs>,
                        rand: RandomSource, digest: Nonce -> Hash)
    requires |s| == |s'| && InBounds(hashPlan, |s|) && Ordered(hashPlan) && SlicesDisjoint(sortPlan, |s|)
    requires SortedUpTo(AfterHashPhase(s, hashPlan, rand, digest), s', sortPlan, |sortPlan|)
    requires FromGeneratorOrInitial(s, s0, digest)
    ensures FromGeneratorOrInitial(s', s0, digest)
  {
    HashPhaseKeepsOrigin(s0, s, hashPlan, rand, digest);
    SortPhaseKeepsOrigin(s0, AfterHashPhase(s, hashPlan, rand, digest), s', sortPlan, digest);
  }

  /**
   * With no bucket remainder a phase stays inside its bucket: the hash phase
   * writes only there and the sort phase permutes only there.
   */
  lemma ExactPhaseInBucket(bucket: nat, threads: nat, perBucket: nat)
    requires threads > 0
    ensures PhaseLimit(bucket, threads, perBucket, 0) <= Mul(bucket, perBucket) + perBucket
  {
  }

  /** With no bucket remainder, every slice of a phase lies inside its bucket. */
  lemma ExactSlicesInBucket(bucket: nat, threads: nat, perBucket: nat, n: nat)
    requires Fits(bucket, threads, perBucket, 0, n)
    ensures forall t, k :: 0 <= t < threads && InSlice(PhasePlan(bucket, threads, perBucket, 0)[t], k) ==>
      Mul(bucket, perBucket) <= k < Mul(bucket, perBucket) + perBucket
  {
    FitsPlan(bucket, threads, perBucket, 0, n);
    ExactPhaseInBucket(bucket, threads, perBucket);
  }

  /** Indices below `m` that no phase reaches keep their records, and so do the slices there. */
  lemma SliceKept(s: seq<Record>, s': seq<Record>, m: nat, t: ThreadArgs)
    requires |s| == |s'| && m <= |s|
    requires forall k :: 0 <= k < m ==> s'[k] == s[k]
    requires t.startIndex + t.numRecords <= m
    ensures Slice(s', t) == Slice(s, t)
  {
    assert forall j :: 0 <= j < t.numRecords ==> Slice(s', t)[j] == s'[t.startIndex + j];
  }

  /** One bucket with no remainder leaves every record below the bucket as it was. */
  lemma ExactBucketKeepsBelow(s: seq<Record>, s': seq<Record>, hashPlan: seq<ThreadArgs>, sortPlan: seq<ThreadArgs>,
                              bucket: nat, perBucket: nat, rand: RandomSource, digest: Nonce -> Hash)
    requires Fits(bucket, |hashPlan|, perBucket, 0, |s|) && Fits(bucket, |sortPlan|, perBucket, 0, |s|)
    requires hashPlan == PhasePlan(bucket, |hashPlan|, perBucket, 0)
    requires sortPlan == PhasePlan(bucket, |sortPlan|, perBucket, 0)
    requires |s'| == |s| && InBounds(hashPlan, |s|) && SlicesDisjoint(sortPlan, |s|)
    requires SlicesPermuted(AfterHashPhase(s, hashPlan, rand, digest), s', sortPlan, |sortPlan|)
    ensures forall k :: 0 <= k < Mul(bucket, perBucket) ==> s'[k] == s[k]
  {
    FitsPlan(bucket, |hashPlan|, perBucket, 0, |s|);
    FitsPlan(bucket, |sortPlan|, perBucket, 0, |s|);
    var h := AfterHashPhase(s, hashPlan, rand, digest);
    AfterHashPhaseAt(s, hashPlan, rand, digest);
    forall k | 0 <= k < Mul(bucket, perBucket) ensures s'[k] == s[k] {
      forall i | 0 <= i < |hashPlan| ensures !InRange(hashPlan[i], k) {
        RangeWithinLimit(bucket, |hashPlan|, perBucket, 0, i);
      }
      assert h[k] == s[k];
      assert forall t :: 0 <= t < |sortPlan| ==> !InSlice(sortPlan[t], k);
    }
  }

  /** A sort phase whose slices lie in `[lo, hi)` keeps every record there generated. */
  lemma SortKeepsDerivedWithin(s: seq<Record>, s': seq<Record>, plan: seq<ThreadArgs>, lo: nat, hi: nat, digest: Nonce -> Hash)
    requires |s| == |s'| && hi <= |s| && SlicesDisjoint(plan, |s|) && SlicesPermuted(s, s', plan, |plan|)
    requires forall t, k :: 0 <= t < |plan| && InSlice(plan[t], k) ==> lo <= k < hi
    requires forall k :: lo <= k < hi ==> Derived(s[k], digest)
    ensures forall k :: lo <= k < hi ==> Derived(s'[k], digest)
  {
    forall k | lo <= k < hi ensures Derived(s'[k], digest) {
      var k' := SortPhaseDraws(s, s', plan, k);
    }
  }

  /** A hash phase over a bucket with no remainder, split evenly, generates the whole bucket. */
  lemma ExactHashPhaseDerived(s: seq<Record>, hashPlan: seq<ThreadArgs>, bucket: nat, perBucket: nat, rand: RandomSource, digest: Nonce -> Hash)
    requires Fits(bucket, |hashPlan|, perBucket, 0, |s|) && Mod(perBucket, |hashPlan|) == 0
    requires hashPlan == PhasePlan(bucket, |hashPlan|, perBucket, 0)
    requires InBounds(hashPlan, |s|)
    ensures forall k :: Mul(bucket, perBucket) <= k < Mul(bucket, perBucket) + perBucket ==>
      Derived(AfterHashPhase(s, hashPlan, rand, digest)[k], digest)
  {
    FitsPlan(bucket, |hashPlan|, perBucket, 0, |s|);
    assert PhaseLimit(bucket, |hashPlan|, perBucket, 0) == Mul(bucket, perBucket) + perBucket;
    forall k | Mul(bucket, perBucket) <= k < Mul(bucket, perBucket) + perBucket
      ensures Derived(AfterHashPhase(s, hashPlan, rand, digest)[k], digest)
    {
      var i := Owner(bucket, |hashPlan|, perBucket, 0, k);
      assert hashPlan[i] == ThreadRange(bucket, i, |hashPlan|, perBucket, 0);
      HashPhaseDerives(s, hashPlan, rand, digest, k);
    }
  }

  /**
   * One bucket with no remainder, whose hash threads divide it evenly, leaves
   * every record of the bucket generated.
   */
  lemma ExactBucketDerived(s: seq<Record>, s': seq<Record>, hashPlan: seq<ThreadArgs>, sortPlan: seq<ThreadArgs>,
                           bucket: nat, perBucket: nat, rand: RandomSource, digest: Nonce -> Hash)
    requires Fits(bucket, |hashPlan|, perBucket, 0, |s|) && Fits(bucket, |sortPlan|, perBucket, 0, |s|)
    requires Mod(perBucket, |hashPlan|) == 0
    requires hashPlan == PhasePlan(bucket, |hashPlan|, perBucket, 0)
    requires sortPlan == PhasePlan(bucket, |sortPlan|, perBucket, 0)
    requires |s'| == |s| && InBounds(hashPlan, |s|) && SlicesDisjoint(sortPlan, |s|)
    requires SlicesPermuted(AfterHashPhase(s, hashPlan, rand, digest), s', sortPlan, |sortPlan|)
    ensures forall k :: Mul(bucket, perBucket) <= k < Mul(bucket, perBucket) + perBucket ==> Derived(s'[k], digest)
  {
    ExactHashPhaseDerived(s, hashPlan, bucket, perBucket, rand, digest);
    ExactSlicesInBucket(bucket, |sortPlan|, perBucket, |s|);
    SortKeepsDerivedWithin(AfterHashPhase(s, hashPlan, rand, digest), s', sortPlan,
                           Mul(bucket, perBucket), Mul(bucket, perBucket) + perBucket, digest);
  }

  /** Every sort slice of bucket `bucket` lies in `s` and is sorted. */
  ghost predicate BucketSorted(s: seq<Record>, bucket: nat, threads: nat, perBucket: nat) {
    forall t :: 0 <= t < threads ==>
      var r := ThreadRange(bucket, t, threads, perBucket, 0);
      r.startIndex + r.numRecords <= |s| && Sorted(Slice(s, r))
  }

  /** Buckets before `bucket` lie below it. */
  lemma EarlierBucketBelow(earlier: nat, bucket: nat, perBucket: nat)
    requires earlier < bucket
    ensures Mul(earlier, perBucket) + perBucket <= Mul(bucket, perBucket)
  {
    MulMonotone(earlier + 1, bucket, perBucket);
  }

  /** With no bucket remainder, a thread's slice ends inside its bucket. */
  lemma ExactSliceEnd(bucket: nat, t: nat, threads: nat, perBucket: nat)
    requires t < threads && NoWrap(bucket, threads, perBucket, 0)
    ensures var r := ThreadRange(bucket, t, threads, perBucket, 0);
      r.startIndex + r.numRecords <= Mul(bucket, perBucket) + perBucket
  {
    RangeWithinLimit(bucket, threads, perBucket, 0, t);
    ThreadRangeExact(bucket, t, threads, perBucket, 0);
    ExactPhaseInBucket(bucket, threads, perBucket);
  }

  /** A bucket below `m` whose records are kept stays sorted. */
  lemma EarlierBucketKept(s: seq<Record>, s': seq<Record>, m: nat, b: nat, threads: nat, perBucket: nat)
    requires |s| == |s'| && m <= |s| < SIZE_MOD && Mul(b, perBucket) + perBucket <= m
    requires threads > 0 && Div(perBucket, threads) >= 1
    requires forall k :: 0 <= k < m ==> s'[k] == s[k]
    requires BucketSorted(s, b, threads, perBucket)
    ensures BucketSorted(s', b, threads, perBucket)
  {
    forall t | 0 <= t < threads
      ensures var r := ThreadRange(b, t, threads, perBucket, 0);
              r.startIndex + r.numRecords <= |s'| && Sorted(Slice(s', r))
    {
      var r := ThreadRange(b, t, threads, perBucket, 0);
      ExactSliceEnd(b, t, threads, perBucket);
      SliceKept(s, s', m, r);
    }
  }

  /** Buckets below `bucket` whose records are kept stay sorted. */
  lemma EarlierBucketsKept(s: seq<Record>, s': seq<Record>, bucket: nat, threads: nat, perBucket: nat)
    requires |s| == |s'| && threads > 0 && Div(perBucket, threads) >= 1 && Mul(bucket, perBucket) <= |s| < SIZE_MOD
    requires forall k :: 0 <= k < Mul(bucket, perBucket) ==> s'[k] == s[k]
    requires forall b :: 0 <= b < bucket ==> BucketSorted(s, b, threads, perBucket)
    ensures forall b :: 0 <= b < bucket ==> BucketSorted(s', b, threads, perBucket)
  {
    forall b | 0 <= b < bucket ensures BucketSorted(s', b, threads, perBucket) {
      EarlierBucketBelow(b, bucket, perBucket);
      EarlierBucketKept(s, s', Mul(bucket, perBucket), b, threads, perBucket);
    }
  }

  /** Kept buckets below `bucket` and a sorted bucket `bucket` make all buckets up to it sorted. */
  lemma BucketsSortedStep(s: seq<Record>, s': seq<Record>, bucket: nat, threads: nat, perBucket: nat)
    requires |s| == |s'| && threads > 0 && Div(perBucket, threads) >= 1 && Mul(bucket, perBucket) <= |s| < SIZE_MOD
    requires forall k :: 0 <= k < Mul(bucket, perBucket) ==> s'[k] == s[k]
    requires forall b :: 0 <= b < bucket ==> BucketSorted(s, b, threads, perBucket)
    requires BucketSorted(s', bucket, threads, perBucket)
    ensures forall b :: 0 <= b < bucket + 1 ==> BucketSorted(s', b, threads, perBucket)
  {
    EarlierBucketsKept(s, s', bucket, threads, perBucket);
  }

  /** The sorted slices of a sort phase over bucket `bucket` make the bucket sorted. */
  lemma SortPhaseSortsBucket(s0: seq<Record>, s: seq<Record>, plan: seq<ThreadArgs>, bucket: nat, perBucket: nat)
    requires |s| == |s0| && SlicesDisjoint(plan, |s|) && SortedUpTo(s0, s, plan, |plan|)
    requires plan == PhasePlan(bucket, |plan|, perBucket, 0)
    ensures BucketSorted(s, bucket, |plan|, perBucket)
  {
    forall t | 0 <= t < |plan|
      ensures var r := ThreadRange(bucket, t, |plan|, perBucket, 0);
              r.startIndex + r.numRecords <= |s| && Sorted(Slice(s, r))
    {
      assert plan[t] == ThreadRange(bucket, t, |plan|, perBucket, 0);
      assert Sorted(Slice(s, plan[t]));
    }
  }

  /**
   * One pass of the bucket loop with no bucket remainder: the earlier buckets
   * stay sorted and this one becomes sorted.
   */
  lemma ExactBucketSortedStep(s: seq<Record>, s': seq<Record>, hashPlan: seq<ThreadArgs>, sortPlan: seq<ThreadArgs>,
                              bucket: nat, perBucket: nat, rand: RandomSource, digest: Nonce -> Hash)
    requires Fits(bucket, |hashPlan|, perBucket, 0, |s|) && Fits(bucket, |sortPlan|, perBucket, 0, |s|)
    requires hashPlan == PhasePlan(bucket, |hashPlan|, perBucket, 0)
    requires sortPlan == PhasePlan(bucket, |sortPlan|, perBucket, 0)
    requires |s'| == |s| && InBounds(hashPlan, |s|) && SlicesDisjoint(sortPlan, |s|)
    requires SortedUpTo(AfterHashPhase(s, hashPlan, rand, digest), s', sortPlan, |sortPlan|)
    requires forall b :: 0 <= b < bucket ==> BucketSorted(s, b, |sortPlan|, perBucket)
    ensures forall b :: 0 <= b < bucket + 1 ==> BucketSorted(s', b, |sortPlan|, perBucket)
  {
    assert forall k :: 0 <= k < Mul(bucket, perBucket) ==> s'[k] == s[k] by {
      ExactBucketKeepsBelow(s, s', hashPlan, sortPlan, bucket, perBucket, rand, digest);
    }
    assert BucketSorted(s', bucket, |sortPlan|, perBucket) by {
      SortPhaseSortsBucket(AfterHashPhase(s, hashPlan, rand, digest), s', sortPlan, bucket, perBucket);
    }
    BucketsSortedStep(s, s', bucket, |sortPlan|, perBucket);
  }

  /**
   * One pass of the bucket loop with no bucket remainder and hash threads
   * that divide the bucket evenly: every record up to the end of this bucket
   * is generated.
   */
  lemma ExactBucketDerivedStep(s: seq<Record>, s': seq<Record>, hashPlan: seq<ThreadArgs>, sortPlan: seq<ThreadArgs>,
                               bucket: nat, perBucket: nat, rand: RandomSource, digest: Nonce -> Hash)
    requires Fits(bucket, |hashPlan|, perBucket, 0, |s|) && Fits(bucket, |sortPlan|, perBucket, 0, |s|)
    requires Mod(perBucket, |hashPlan|) == 0
    requires hashPlan == PhasePlan(bucket, |hashPlan|, perBucket, 0)
    requires sortPlan == PhasePlan(bucket, |sortPlan|, perBucket, 0)
    requires |s'| == |s| && InBounds(hashPlan, |s|) && SlicesDisjoint(sortPlan, |s|)
    requires SlicesPermuted(AfterHashPhase(s, hashPlan, rand, digest), s', sortPlan, |sortPlan|)
    requires DerivedBelow(s, Mul(bucket, perBucket), digest)
    ensures DerivedBelow(s', Mul(bucket, perBucket) + perBucket, digest)
  {
    var lo := Mul(bucket, perBucket);
    var hi := lo + perBucket;
    ExactBucketKeepsBelow(s, s', hashPlan, sortPlan, bucket, perBucket, rand, digest);
    ExactBucketDerived(s, s', hashPlan, sortPlan, bucket, perBucket, rand, digest);
    forall k | 0 <= k < hi ensures Derived(s'[k], digest) {
      if k < lo {
        assert s'[k] == s[k];
      }
    }
  }

  /** Every record below index `m` is generated. */
  ghost predicate DerivedBelow(s: seq<Record>, m: nat, digest: Nonce -> Hash) {
    forall k :: 0 <= k < m && k < |s| ==> Derived(s[k], digest)
  }

  /** A bucket before the last one, with the remainder after it, fits the record array. */
  lemma BucketFits(bucket: nat, numBuckets: nat, threads: nat, split: BucketSplit, n: nat)
    requires bucket < numBuckets && Mul(numBuckets, split.perBucket) + split.remaining == n < SIZE_MOD
    requires threads > 0 && Div(split.perBucket, threads) >= 1
    ensures Fits(bucket, threads, split.perBucket, split.remaining, n)
  {
    MulMonotone(bucket + 1, numBuckets, split.perBucket);
  }

  /**
   * Every index that a thread of any phase of a bucket is given lies inside
   * the record array, provided each thread gets at least one record.
   */
  lemma RangesInBounds(numRecords: nat, numBuckets: nat, bucket: nat, threads: nat, i: nat, k: int)
    requires bucket < numBuckets && numRecords < SIZE_MOD && i < threads
    requires Div(Div(numRecords, numBuckets), threads) >= 1
    ensures var split := SplitBuckets(numRecords, numBuckets);
      InRange(ThreadRange(bucket, i, threads, split.perBucket, split.remaining), k) ==> 0 <= k < numRecords
  {
    var split := SplitBuckets(numRecords, numBuckets);
    BucketFits(bucket, numBuckets, threads, split, numRecords);
    FitsPlan(bucket, threads, split.perBucket, split.remaining, numRecords);
    assert PhasePlan(bucket, threads, split.perBucket, split.remaining)[i] == ThreadRange(bucket, i, threads, split.perBucket, split.remaining);
  }

  /**
   * What one pass of the bucket loop keeps: every record generated or initial;
   * with no bucket remainder, the buckets up to this one sorted; and if the
   * hash threads also divide the bucket evenly, every record up to the end of
   * this bucket generated.
   */
  lemma BucketPass(s0: seq<Record>, s: seq<Record>, s': seq<Record>, hashPlan: seq<ThreadArgs>, sortPlan: seq<ThreadArgs>,
                   bucket: nat, perBucket: nat, remaining: nat, rand: RandomSource, digest: Nonce -> Hash)
    requires Fits(bucket, |hashPlan|, perBucket, remaining, |s|) && Fits(bucket, |sortPlan|, perBucket, remaining, |s|)
    requires hashPlan == PhasePlan(bucket, |hashPlan|, perBucket, remaining)
    requires sortPlan == PhasePlan(bucket, |sortPlan|, perBucket, remaining)
    requires |s'| == |s| && InBounds(hashPlan, |s|) && Ordered(hashPlan) && SlicesDisjoint(sortPlan, |s|)
    requires SortedUpTo(AfterHashPhase(s, hashPlan, rand, digest), s', sortPlan, |sortPlan|)
    requires FromGeneratorOrInitial(s, s0, digest)
    ensures FromGeneratorOrInitial(s', s0, digest)
    ensures remaining == 0 && (forall b :: 0 <= b < bucket ==> BucketSorted(s, b, |sortPlan|, perBucket)) ==>
      forall b :: 0 <= b < bucket + 1 ==> BucketSorted(s', b, |sortPlan|, perBucket)
    ensures remaining == 0 && Mod(perBucket, |hashPlan|) == 0 && DerivedBelow(s, Mul(bucket, perBucket), digest) ==>
      DerivedBelow(s', Mul(bucket + 1, perBucket), digest)
  {
    PassKeepsOrigin(s0, s, s', hashPlan, sortPlan, rand, digest);
    if remaining == 0 {
      if forall b :: 0 <= b < bucket ==> BucketSorted(s, b, |sortPlan|, perBucket) {
        ExactBucketSortedStep(s, s', hashPlan, sortPlan, bucket, perBucket, rand, digest);
      }
      if Mod(perBucket, |hashPlan|) == 0 && DerivedBelow(s, Mul(bucket, perBucket), digest) {
        ExactBucketDerivedStep(s, s', hashPlan, sortPlan, bucket, perBucket, rand, digest);
        assert Mul(bucket + 1, perBucket) == Mul(bucket, perBucket) + perBucket;
      }
    }
  }

  /**
   * One pass of the bucket loop: fill the hash and sort threads' arguments,
   * run the hash threads, then the sort threads.
   */
  method ProcessBucket(records: array<Record>, hashArgs: array<ThreadArgs>, sortArgs: array<ThreadArgs>,
                       bucket: nat, perBucket: nat, remaining: nat, rand: RandomSource, digest: Nonce -> Hash)
    requires hashArgs != sortArgs
    requires Fits(bucket, hashArgs.Length, perBucket, remaining, records.Length)
    requires Fits(bucket, sortArgs.Length, perBucket, remaining, records.Length)
    modifies records, hashArgs, sortArgs
    ensures hashArgs[..] == PhasePlan(bucket, hashArgs.Length, perBucket, remaining)
    ensures sortArgs[..] == PhasePlan(bucket, sortArgs.Length, perBucket, remaining)
    ensures InBounds(hashArgs[..], records.Length) && Ordered(hashArgs[..]) && SlicesDisjoint(sortArgs[..], records.Length)
    ensures SortedUpTo(AfterHashPhase(old(records[..]), hashArgs[..], rand, digest), records[..], sortArgs[..], sortArgs.Length)
  {
    FillArgs(hashArgs, bucket, perBucket, remaining);
    FillArgs(sortArgs, bucket, perBucket, remaining);
    FitsPlan(bucket, hashArgs.Length, perBucket, remaining, records.Length);
    FitsPlan(bucket, sortArgs.Length, perBucket, remaining, records.Length);
    HashPhase(records, hashArgs, rand, digest);
    SortPhase(records, sortArgs);
  }

  /**
   * A sort thread whose chunk is 0 still stays inside the record array: its
   * `qsort` gets the bucket's first index and a count of 0, or the bucket
   * remainder for the last thread.
   */
  lemma ZeroChunkSortSlice(numRecords: nat, numBuckets: nat, bucket: nat, threads: nat, i: nat)
    requires bucket < numBuckets && numRecords < SIZE_MOD && i < threads
    requires Div(Div(numRecords, numBuckets), threads) == 0
    ensures var split := SplitBuckets(numRecords, numBuckets);
      var r := ThreadRange(bucket, i, threads, split.perBucket, split.remaining);
      && r.startIndex == Mul(bucket, split.perBucket)
      && r.numRecords == (if i == threads - 1 then split.remaining else 0)
      && r.startIndex + r.numRecords <= numRecords
  {
    var split := SplitBuckets(numRecords, numBuckets);
    var base := Mul(bucket, split.perBucket);
    MulIsProduct(i, 0);
    MulMonotone(bucket + 1, numBuckets, split.perBucket);
    assert base + split.perBucket + split.remaining <= numRecords;
    BoundsCount(base, 0, i == threads - 1, split.remaining, bucket);
  }

  /**
   * One pass of the bucket loop of `main`: the bucket split, then bucket
   * `bucket`'s hash and sort phases. It keeps every record generated or as
   * allocated and, when the sizes divide evenly, adds one bucket to the sorted
   * buckets and to the generated prefix.
   */
  method RunBucket(records: array<Record>, hashArgs: array<ThreadArgs>, sortArgs: array<ThreadArgs>,
                   bucket: nat, numBuckets: nat, rand: RandomSource, digest: Nonce -> Hash, ghost s0: seq<Record>)
    requires hashArgs != sortArgs && hashArgs.Length > 0 && sortArgs.Length > 0
    requires bucket < numBuckets && records.Length < SIZE_MOD
    requires Div(Div(records.Length, numBuckets), hashArgs.Length) >= 1
    requires Div(Div(records.Length, numBuckets), sortArgs.Length) >= 1
    requires FromGeneratorOrInitial(records[..], s0, digest)
    modifies records, hashArgs, sortArgs
    ensures var split := SplitBuckets(records.Length, numBuckets);
      && hashArgs[..] == PhasePlan(bucket, hashArgs.Length, split.perBucket, split.remaining)
      && sortArgs[..] == PhasePlan(bucket, sortArgs.Length, split.perBucket, split.remaining)
      && InBounds(hashArgs[..], records.Length) && SlicesDisjoint(sortArgs[..], records.Length)
      && SortedUpTo(AfterHashPhase(old(records[..]), hashArgs[..], rand, digest), records[..], sortArgs[..], sortArgs.Length)
    ensures FromGeneratorOrInitial(records[..], s0, digest)
    ensures Mul(bucket + 1, Div(records.Length, numBuckets)) <= records.Length
    ensures (Mod(records.Length, numBuckets) == 0 &&
             forall b :: 0 <= b < bucket ==> BucketSorted(old(records[..]), b, sortArgs.Length, Div(records.Length, numBuckets))) ==>
      forall b :: 0 <= b < bucket + 1 ==> BucketSorted(records[..], b, sortArgs.Length, Div(records.Length, numBuckets))
    ensures (Mod(records.Length, numBuckets) == 0 && Mod(Div(records.Length, numBuckets), hashArgs.Length) == 0 &&
             DerivedBelow(old(records[..]), Mul(bucket, Div(records.Length, numBuckets)), digest)) ==>
      DerivedBelow(records[..], Mul(bucket + 1, Div(records.Length, numBuckets)), digest)
  {
    var split := SplitBuckets(records.Length, numBuckets);
    BucketFits(bucket, numBuckets, hashArgs.Length, split, records.Length);
    BucketFits(bucket, numBuckets, sortArgs.Length, split, records.Length);
    ghost var before := records[..];
    ProcessBucket(records, hashArgs, sortArgs, bucket, split.perBucket, split.remaining, rand, digest);
    BucketPass(s0, before, records[..], hashArgs[..], sortArgs[..], bucket, split.perBucket, split.remaining, rand, digest);
  }

  /**
   * The bucket loop of `main` over a record array of `num_records` records.
   * Every record is either generated from its nonce or still what the array
   * was allocated with. With no bucket remainder every sort slice of every
   * bucket ends up sorted, and if moreover the hash threads divide a bucket
   * evenly every record is generated.
   */
  method RunBuckets(records: array<Record>, hashThreads: nat, sortThreads: nat, numBuckets: nat,
                    rand: RandomSource, digest: Nonce -> Hash)
    requires hashThreads > 0 && sortThreads > 0 && records.Length < SIZE_MOD
    requires numBuckets > 0 ==> Div(Div(records.Length, numBuckets), hashThreads) >= 1 && Div(Div(records.Length, numBuckets), sortThreads) >= 1
    modifies records
    ensures numBuckets == 0 ==> records[..] == old(records[..])
    ensures FromGeneratorOrInitial(records[..], old(records[..]), digest)
    ensures numBuckets > 0 && Mod(records.Length, numBuckets) == 0 ==>
      forall b :: 0 <= b < numBuckets ==> BucketSorted(records[..], b, sortThreads, Div(records.Length, numBuckets))
    ensures numBuckets > 0 && Mod(records.Length, numBuckets) == 0 && Mod(Div(records.Length, numBuckets), hashThreads) == 0 ==>
      forall k :: 0 <= k < records.Length ==> Derived(records[k], digest)
  {
    var hashArgs := new ThreadArgs[hashThreads];
    var sortArgs := new ThreadArgs[sortThreads];
    ghost var s0 := records[..];
    ghost var perBucket := if numBuckets > 0 then Div(records.Length, numBuckets) else 0;
    ghost var exact := numBuckets > 0 && Mod(records.Length, numBuckets) == 0;
    ghost var exactHash := exact && Mod(perBucket, hashThreads) == 0;
    for bucket := 0 to numBuckets
      invariant numBuckets == 0 ==> records[..] == s0
      invariant FromGeneratorOrInitial(records[..], s0, digest)
      invariant exact ==> forall b :: 0 <= b < bucket ==> BucketSorted(records[..], b, sortThreads, perBucket)
      invariant numBuckets > 0 ==> Mul(bucket, perBucket) <= records.Length
      invariant exactHash ==> DerivedBelow(records[..], Mul(bucket, perBucket), digest)
    {
      RunBucket(records, hashArgs, sortArgs, bucket, numBuckets, rand, digest, s0);
    }
    if exact {
      ghost var split := SplitBuckets(records.Length, numBuckets);
      assert records.Length == Mul(numBuckets, perBucket);
      if exactHash {
        assert DerivedBelow(records[..], records.Length, digest);
        assert forall k :: 0 <= k < records.Length ==> records[k] == records[..][k];
      }
    }
  }
}
