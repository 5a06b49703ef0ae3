/**
 * The `qsort` calls of hashgen: each sort thread sorts its own slice of the
 * record array in place, and the final pass sorts all records read back from
 * the file. Any in-place comparison sort meets the same contract; the model
 * uses insertion sort with the record comparator.
 */
module Sorting {
  import opened Records
  import opened Partition

  /** Non-decreasing under the comparator. */
  ghost predicate Sorted(s: seq<Record>) {
    forall i, j :: 0 <= i < j < |s| ==> Le(s[i], s[j])
  }

  /** No adjacent pair compares as 1. */
  ghost predicate NoDescent(s: seq<Record>) {
    forall i :: 0 <= i < |s| - 1 ==> Compare(s[i], s[i + 1]) != 1
  }

  lemma {:induction false} NoDescentPrefix(s: seq<Record>, j: nat)
    requires NoDescent(s) && 0 < j < |s|
    ensures forall i :: 0 <= i < j ==> Le(s[i], s[j])
    decreases j
  {
    assert Le(s[j - 1], s[j]);
    if j > 1 {
      NoDescentPrefix(s, j - 1);
      forall i | 0 <= i < j - 1 ensures Le(s[i], s[j]) {
        LeTransitive(s[i], s[j - 1], s[j]);
      }
    }
  }

  /** Sorted in the pairwise sense exactly when no neighbour comes out of order. */
  lemma SortedIffNoDescent(s: seq<Record>)
    ensures Sorted(s) <==> NoDescent(s)
  {
    if NoDescent(s) {
      forall i, j | 0 <= i < j < |s| ensures Le(s[i], s[j]) {
        NoDescentPrefix(s, j);
      }
    }
  }

  /** Swapping two elements of a slice keeps the slice's multiset and everything outside it. */
  lemma SwapInSlice(s: seq<Record>, t: seq<Record>, lo: nat, hi: nat, i: nat, j: nat)
    requires lo <= i < hi <= |s| && lo <= j < hi && t == s[i := s[j]][j := s[i]]
    ensures multiset(t[lo..hi]) == multiset(s[lo..hi])
  {
    assert t[lo..hi] == s[lo..hi][i - lo := s[j]][j - lo := s[i]];
  }

  /** The records of `s` from `lo` up to `hi` are in order. */
  ghost predicate SortedBetween(s: seq<Record>, lo: nat, hi: nat)
    requires lo <= hi <= |s|
  {
    forall p, q :: lo <= p < q < hi ==> Le(s[p], s[q])
  }

  /** Only the slice `[lo, hi)` differs between `s` and `t`, and it holds the same records. */
  ghost predicate PermutedWithin(s: seq<Record>, t: seq<Record>, lo: nat, hi: nat)
    requires lo <= hi <= |s| == |t|
  {
    && multiset(t[lo..hi]) == multiset(s[lo..hi])
    && (forall k :: 0 <= k < |s| && !(lo <= k < hi) ==> t[k] == s[k])
  }

  /** Exchanging two neighbours inside the slice is such a permutation. */
  lemma SwapPermutes(s: seq<Record>, lo: nat, hi: nat, j: nat)
    requires lo < j < hi <= |s|
    ensures PermutedWithin(s, s[j - 1 := s[j]][j := s[j - 1]], lo, hi)
  {
    SwapInSlice(s, s[j - 1 := s[j]][j := s[j - 1]], lo, hi, j - 1, j);
  }

  /** Permutations within a slice compose. */
  lemma PermutedWithinTrans(s: seq<Record>, t: seq<Record>, u: seq<Record>, lo: nat, hi: nat)
    requires lo <= hi <= |s| == |t| == |u|
    requires PermutedWithin(s, t, lo, hi) && PermutedWithin(t, u, lo, hi)
    ensures PermutedWithin(s, u, lo, hi)
  {
  }

  /**
   * While record `j` moves down through `[lo, i]`: the other records there are
   * in order, and record `j` is no greater than any record above it.
   */
  ghost predicate Inserting(s: seq<Record>, lo: nat, i: nat, j: nat)
    requires lo <= j <= i < |s|
  {
    && (forall p, q :: lo <= p < q <= i && p != j && q != j ==> Le(s[p], s[q]))
    && (forall q :: j < q <= i ==> Le(s[j], s[q]))
  }

  /** Exchanging record `j` with a greater left neighbour moves it down one place. */
  lemma InsertingSwap(s: seq<Record>, lo: nat, i: nat, j: nat)
    requires lo < j <= i < |s| && Inserting(s, lo, i, j) && Compare(s[j - 1], s[j]) > 0
    ensures Inserting(s[j - 1 := s[j]][j := s[j - 1]], lo, i, j - 1)
  {
    CompareAntisymmetric(s[j - 1], s[j]);
  }

  /** Record `j` stops at the bottom or above a record no greater: `[lo, i]` is in order. */
  lemma InsertingDone(s: seq<Record>, lo: nat, i: nat, j: nat)
    requires lo <= j <= i < |s| && Inserting(s, lo, i, j)
    requires j == lo || Compare(s[j - 1], s[j]) <= 0
    ensures SortedBetween(s, lo, i + 1)
  {
    forall p, q | lo <= p < q <= i ensures Le(s[p], s[q]) {
      if q == j && p < j - 1 {
        LeTransitive(s[p], s[j - 1], s[j]);
      }
    }
  }

  /**
   * One step of insertion sort: with `[lo, i)` in order, move `a[i]` down past
   * every record that compares greater, leaving `[lo, i]` in order.
   */
  method InsertStep(a: array<Record>, lo: nat, hi: nat, i: nat)
    requires lo <= i < hi <= a.Length
    requires SortedBetween(a[..], lo, i)
    modifies a
    ensures SortedBetween(a[..], lo, i + 1)
    ensures PermutedWithin(old(a[..]), a[..], lo, hi)
  {
    ghost var s0 := a[..];
    var j := i;
    while j > lo && Compare(a[j - 1], a[j]) > 0
      invariant lo <= j <= i
      invariant Inserting(a[..], lo, i, j)
      invariant PermutedWithin(s0, a[..], lo, hi)
      decreases j
    {
      ghost var before := a[..];
      a[j - 1], a[j] := a[j], a[j - 1];
      assert a[..] == before[j - 1 := before[j]][j := before[j - 1]];
      InsertingSwap(before, lo, i, j);
      SwapPermutes(before, lo, hi, j);
      PermutedWithinTrans(s0, before, a[..], lo, hi);
      j := j - 1;
    }
    InsertingDone(a[..], lo, i, j);
  }

  /**
   * `qsort(records + lo, n, ...)`: afterwards the slice `[lo, lo + n)` is sorted
   * and a permutation of what it held, and nothing else has changed.
   */
  method SortSlice(a: array<Record>, lo: nat, n: nat)
    requires lo + n <= a.Length
    modifies a
    ensures Sorted(a[lo..lo + n])
    ensures PermutedWithin(old(a[..]), a[..], lo, lo + n)
  {
    var hi := lo + n;
    var i := lo;
    while i < hi
      invariant lo <= i <= hi
      invariant SortedBetween(a[..], lo, i)
      invariant PermutedWithin(old(a[..]), a[..], lo, hi)
    {
      ghost var before := a[..];
      InsertStep(a, lo, hi, i);
      PermutedWithinTrans(old(a[..]), before, a[..], lo, hi);
      i := i + 1;
    }
    assert SortedBetween(a[..], lo, hi);
  }

  /** A thread's slice, as `qsort` sees it: from `startIndex`, `numRecords` long. */
  function Slice(s: seq<Record>, t: ThreadArgs): (r: seq<Record>)
    requires t.startIndex + t.numRecords <= |s|
  {
    s[t.startIndex..t.startIndex + t.numRecords]
  }

  /** Index `k` lies in the slice a thread sorts. */
  ghost predicate InSlice(t: ThreadArgs, k: int) {
    t.startIndex <= k < t.startIndex + t.numRecords
  }

  /** The slices of a phase lie in an array of length `n`, in order and without overlap. */
  ghost predicate SlicesDisjoint(plan: seq<ThreadArgs>, n: nat) {
    && (forall i :: 0 <= i < |plan| ==> plan[i].startIndex + plan[i].numRecords <= n)
    && (forall i, j :: 0 <= i < j < |plan| ==> plan[i].startIndex + plan[i].numRecords <= plan[j].startIndex)
  }

  /** A slice that lies apart from `[lo, hi)` is untouched by a permutation within it. */
  lemma SliceUntouched(s: seq<Record>, t: seq<Record>, lo: nat, hi: nat, args: ThreadArgs)
    requires lo <= hi <= |s| == |t| && PermutedWithin(s, t, lo, hi)
    requires args.startIndex + args.numRecords <= |s|
    requires args.startIndex + args.numRecords <= lo || hi <= args.startIndex
    ensures Slice(t, args) == Slice(s, args)
  {
    assert forall k :: 0 <= k < args.numRecords ==> Slice(t, args)[k] == t[args.startIndex + k];
  }

  /** The first `i` slices of the plan are sorted in `s`. */
  ghost predicate SlicesSorted(s: seq<Record>, plan: seq<ThreadArgs>, i: nat)
    requires i <= |plan| && SlicesDisjoint(plan, |s|)
  {
    forall t :: 0 <= t < i ==> Sorted(Slice(s, plan[t]))
  }

  /**
   * The first `i` slices of `s` hold the records they held in `s0`, and every
   * index outside them holds the record it held in `s0`.
   */
  ghost predicate SlicesPermuted(s0: seq<Record>, s: seq<Record>, plan: seq<ThreadArgs>, i: nat)
    requires |s| == |s0| && i <= |plan| && SlicesDisjoint(plan, |s|)
  {
    && (forall t :: 0 <= t < i ==> multiset(Slice(s, plan[t])) == multiset(Slice(s0, plan[t])))
    && (forall k :: 0 <= k < |s| && (forall t :: 0 <= t < i ==> !InSlice(plan[t], k)) ==> s[k] == s0[k])
  }

  /** After the first `i` sort threads: their slices sorted and permuted, everything else as in `s0`. */
  ghost predicate SortedUpTo(s0: seq<Record>, s: seq<Record>, plan: seq<ThreadArgs>, i: nat)
    requires |s| == |s0| && i <= |plan| && SlicesDisjoint(plan, |s|)
  {
    SlicesSorted(s, plan, i) && SlicesPermuted(s0, s, plan, i)
  }

  /** Sorting slice `i` leaves the indices outside the first `i + 1` slices as in `s0`. */
  lemma OutsideStep(s0: seq<Record>, s: seq<Record>, s': seq<Record>, plan: seq<ThreadArgs>, i: nat)
    requires |s| == |s0| == |s'| && i < |plan| && SlicesDisjoint(plan, |s|)
    requires forall k :: 0 <= k < |s| && (forall t :: 0 <= t < i ==> !InSlice(plan[t], k)) ==> s[k] == s0[k]
    requires PermutedWithin(s, s', plan[i].startIndex, plan[i].startIndex + plan[i].numRecords)
    ensures forall k :: 0 <= k < |s| && (forall t :: 0 <= t < i + 1 ==> !InSlice(plan[t], k)) ==> s'[k] == s0[k]
  {
    forall k | 0 <= k < |s| && (forall t :: 0 <= t < i + 1 ==> !InSlice(plan[t], k))
      ensures s'[k] == s0[k]
    {
      assert !InSlice(plan[i], k);
    }
  }

  /** Sorting slice `i` permutes what it held in `s0`, since no earlier slice reaches it. */
  lemma CurrentSliceStep(s0: seq<Record>, s: seq<Record>, s': seq<Record>, plan: seq<ThreadArgs>, i: nat)
    requires |s| == |s0| == |s'| && i < |plan| && SlicesDisjoint(plan, |s|)
    requires forall k :: 0 <= k < |s| && (forall t :: 0 <= t < i ==> !InSlice(plan[t], k)) ==> s[k] == s0[k]
    requires PermutedWithin(s, s', plan[i].startIndex, plan[i].startIndex + plan[i].numRecords)
    ensures multiset(Slice(s', plan[i])) == multiset(Slice(s0, plan[i]))
  {
    var lo, hi := plan[i].startIndex, plan[i].startIndex + plan[i].numRecords;
    forall k | lo <= k < hi ensures s[k] == s0[k] {
      forall t | 0 <= t < i ensures !InSlice(plan[t], k) {
        assert plan[t].startIndex + plan[t].numRecords <= plan[i].startIndex;
      }
    }
    assert s[lo..hi] == s0[lo..hi];
  }

  /** Sorting slice `i` leaves the first `i` slices sorted and adds slice `i`. */
  lemma SlicesSortedStep(s: seq<Record>, s': seq<Record>, plan: seq<ThreadArgs>, i: nat)
    requires |s| == |s'| && i < |plan| && SlicesDisjoint(plan, |s|)
    requires SlicesSorted(s, plan, i) && Sorted(Slice(s', plan[i]))
    requires PermutedWithin(s, s', plan[i].startIndex, plan[i].startIndex + plan[i].numRecords)
    ensures SlicesSorted(s', plan, i + 1)
  {
    var lo, hi := plan[i].startIndex, plan[i].startIndex + plan[i].numRecords;
    forall t | 0 <= t < i + 1 ensures Sorted(Slice(s', plan[t])) {
      if t < i {
        SliceUntouched(s, s', lo, hi, plan[t]);
      }
    }
  }

  /** Sorting slice `i` keeps the first `i` slices' records and permutes slice `i`'s. */
  lemma SlicesPermutedStep(s0: seq<Record>, s: seq<Record>, s': seq<Record>, plan: seq<ThreadArgs>, i: nat)
    requires |s| == |s0| == |s'| && i < |plan| && SlicesDisjoint(plan, |s|)
    requires SlicesPermuted(s0, s, plan, i)
    requires PermutedWithin(s, s', plan[i].startIndex, plan[i].startIndex + plan[i].numRecords)
    ensures SlicesPermuted(s0, s', plan, i + 1)
  {
    var lo, hi := plan[i].startIndex, plan[i].startIndex + plan[i].numRecords;
    CurrentSliceStep(s0, s, s', plan, i);
    forall t | 0 <= t < i + 1 ensures multiset(Slice(s', plan[t])) == multiset(Slice(s0, plan[t])) {
      if t < i {
        SliceUntouched(s, s', lo, hi, plan[t]);
      }
    }
    OutsideStep(s0, s, s', plan, i);
  }

  /** Sorting slice `i` extends the first `i` threads' work to `i + 1`. */
  lemma SortedUpToStep(s0: seq<Record>, s: seq<Record>, s': seq<Record>, plan: seq<ThreadArgs>, i: nat)
    requires |s| == |s0| == |s'| && i < |plan| && SlicesDisjoint(plan, |s|)
    requires SortedUpTo(s0, s, plan, i)
    requires Sorted(Slice(s', plan[i]))
    requires PermutedWithin(s, s', plan[i].startIndex, plan[i].startIndex + plan[i].numRecords)
    ensures SortedUpTo(s0, s', plan, i + 1)
  {
    SlicesSortedStep(s, s', plan, i);
    SlicesPermutedStep(s0, s, s', plan, i);
  }

  /**
   * The sort threads of one bucket, run one after the other: every thread's
   * slice ends up sorted and a permutation of what it held, and every record
   * outside all slices is unchanged. Nothing is merged across slices.
   */
  method SortPhase(records: array<Record>, args: array<ThreadArgs>)
    requires SlicesDisjoint(args[..], records.Length)
    modifies records
    ensures SortedUpTo(old(records[..]), records[..], args[..], args.Length)
  {
    ghost var plan := args[..];
    for i := 0 to args.Length
      invariant SortedUpTo(old(records[..]), records[..], plan, i)
    {
      ghost var before := records[..];
      var lo, n := args[i].startIndex, args[i].numRecords;
      assert plan[i] == args[i];
      SortSlice(records, lo, n);
      assert Slice(records[..], plan[i]) == records[lo..lo + n];
      SortedUpToStep(old(records[..]), before, records[..], plan, i);
    }
  }

  /**
   * The final pass: `qsort` over every record read back from the file. The
   * result is sorted and a permutation of what was read.
   */
  method FinalSort(allRecords: array<Record>)
    modifies allRecords
    ensures Sorted(allRecords[..]) && NoDescent(allRecords[..])
    ensures multiset(allRecords[..]) == multiset(old(allRecords[..]))
  {
    SortSlice(allRecords, 0, allRecords.Length);
    assert allRecords[0..allRecords.Length] == allRecords[..];
    assert old(allRecords[0..allRecords.Length]) == old(allRecords[..]);
    SortedIffNoDescent(allRecords[..]);
  }
}
