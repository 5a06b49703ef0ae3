/**
 * The generation phase: each hash thread fills the records of its range with
 * a random nonce and the truncated BLAKE3 hash of that nonce. The hash
 * function is a parameter `digest`; `rand()` is a parameter `rand` giving the
 * value of each call, by bucket, thread and call number.
 */
module Generation {
  import opened Records
  import opened Partition

  /** The value returned by the `call`-th `rand()` of thread `thread` in bucket `bucket`. */
  type RandomSource = (nat, nat, nat) -> nat

  /** `rand() % 256` stored in a `uint8_t`. */
  function ByteOf(v: nat): (b: Byte)
  {
    v % 256
  }

  /** The nonce of the `m`-th record that a thread generates: its calls `6m` to `6m + 5`. */
  function NonceAt(rand: RandomSource, bucket: nat, thread: nat, m: nat): (r: Nonce) {
    var c := NONCE_SIZE * m;
    [ ByteOf(rand(bucket, thread, c)), ByteOf(rand(bucket, thread, c + 1)), ByteOf(rand(bucket, thread, c + 2)),
      ByteOf(rand(bucket, thread, c + 3)), ByteOf(rand(bucket, thread, c + 4)), ByteOf(rand(bucket, thread, c + 5)) ]
  }

  /** The `m`-th record a thread generates. */
  function FreshRecord(rand: RandomSource, digest: Nonce -> Hash, bucket: nat, thread: nat, m: nat): (r: Record) {
    var n := NonceAt(rand, bucket, thread, m);
    Record(digest(n), n)
  }

  /** The invariant of every generated record: its hash is the digest of its nonce. */
  predicate Derived(r: Record, digest: Nonce -> Hash) {
    r.hash == digest(r.nonce)
  }

  /** The records after one hash thread has run over the range of `args`. */
  function Generated(s: seq<Record>, args: ThreadArgs, thread: nat, rand: RandomSource, digest: Nonce -> Hash): (r: seq<Record>)
    requires args.endIndex < |s|
    ensures |r| == |s|
  {
    seq(|s|, k requires 0 <= k < |s| =>
      if args.startIndex <= k <= args.endIndex
      then FreshRecord(rand, digest, args.bucketIndex, thread, k - args.startIndex)
      else s[k])
  }

  /**
   * After one hash thread, every index of its inclusive range holds a record
   * whose hash is the digest of its nonce, and every other index is unchanged.
   */
  lemma GeneratedSpec(s: seq<Record>, args: ThreadArgs, thread: nat, rand: RandomSource, digest: Nonce -> Hash, k: nat)
    requires args.endIndex < |s| && k < |s|
    ensures InRange(args, k) ==> Derived(Generated(s, args, thread, rand, digest)[k], digest)
    ensures !InRange(args, k) ==> Generated(s, args, thread, rand, digest)[k] == s[k]
  {
    if InRange(args, k) {
      var r := FreshRecord(rand, digest, args.bucketIndex, thread, k - args.startIndex);
      assert Generated(s, args, thread, rand, digest)[k] == r;
      assert r.hash == digest(r.nonce);
    }
  }

  /** Every range of the plan lies inside a record array of length `n`. */
  ghost predicate InBounds(plan: seq<ThreadArgs>, n: nat) {
    forall i :: 0 <= i < |plan| ==> plan[i].endIndex < n
  }

  /** The records after the hash threads of `plan` have run, one after the other. */
  function AfterHashPhase(s: seq<Record>, plan: seq<ThreadArgs>, rand: RandomSource, digest: Nonce -> Hash): (r: seq<Record>)
    requires InBounds(plan, |s|)
    ensures |r| == |s|
  {
    if plan == [] then s
    else
      var n := |plan| - 1;
      Generated(AfterHashPhase(s, plan[..n], rand, digest), plan[n], n, rand, digest)
  }

  /**
   * When the ranges are ordered and disjoint and the threads run in thread
   * order, every index of thread `i`'s range holds that thread's record for
   * it, and every index outside all ranges is unchanged.
   */
  lemma {:induction false} AfterHashPhaseAt(s: seq<Record>, plan: seq<ThreadArgs>, rand: RandomSource, digest: Nonce -> Hash)
    requires InBounds(plan, |s|) && Ordered(plan)
    ensures forall i, k :: 0 <= i < |plan| && InRange(plan[i], k) ==>
      AfterHashPhase(s, plan, rand, digest)[k] == FreshRecord(rand, digest, plan[i].bucketIndex, i, k - plan[i].startIndex)
    ensures forall k :: 0 <= k < |s| && (forall i :: 0 <= i < |plan| ==> !InRange(plan[i], k)) ==>
      AfterHashPhase(s, plan, rand, digest)[k] == s[k]
  {
    if plan != [] {
      var n := |plan| - 1;
      var prefix := plan[..n];
      assert Ordered(prefix);
      AfterHashPhaseAt(s, prefix, rand, digest);
      var r := AfterHashPhase(s, plan, rand, digest);
      forall i, k | 0 <= i < |plan| && InRange(plan[i], k)
        ensures r[k] == FreshRecord(rand, digest, plan[i].bucketIndex, i, k - plan[i].startIndex)
      {
        var prev := AfterHashPhase(s, prefix, rand, digest);
        if i < n {
          assert plan[i] == prefix[i];
          assert plan[i].endIndex < plan[n].startIndex;
          assert r[k] == prev[k];
          assert InRange(prefix[i], k);
        }
      }
      forall k | 0 <= k < |s| && (forall i :: 0 <= i < |plan| ==> !InRange(plan[i], k))
        ensures r[k] == s[k]
      {
        assert !InRange(plan[n], k);
        forall i | 0 <= i < |prefix| ensures !InRange(prefix[i], k) {
          assert prefix[i] == plan[i];
        }
      }
    }
  }

  /** After the hash phase, every record inside a range is derived from its nonce. */
  lemma HashPhaseDerives(s: seq<Record>, plan: seq<ThreadArgs>, rand: RandomSource, digest: Nonce -> Hash, k: nat)
    requires InBounds(plan, |s|) && Ordered(plan)
    requires exists i :: 0 <= i < |plan| && InRange(plan[i], k)
    ensures k < |s| && Derived(AfterHashPhase(s, plan, rand, digest)[k], digest)
  {
    AfterHashPhaseAt(s, plan, rand, digest);
  }

  /** The inner loop of `hash_thread_generate`: six `rand() % 256` bytes, from call `6m` on. */
  method DrawNonce(rand: RandomSource, bucket: nat, thread: nat, m: nat) returns (nonce: Nonce)
    ensures nonce == NonceAt(rand, bucket, thread, m)
  {
    var calls := NONCE_SIZE * m;
    var bytes: seq<Byte> := [];
    for j := 0 to NONCE_SIZE
      invariant |bytes| == j
      invariant forall t :: 0 <= t < j ==> bytes[t] == ByteOf(rand(bucket, thread, calls + t))
    {
      bytes := bytes + [ByteOf(rand(bucket, thread, calls + j))];
    }
    nonce := bytes;
  }

  /** The records once a hash thread has filled the indices from `startIndex` up to `i`. */
  function GeneratedBelow(s: seq<Record>, args: ThreadArgs, thread: nat, rand: RandomSource, digest: Nonce -> Hash, i: nat): (r: seq<Record>)
    ensures |r| == |s|
  {
    seq(|s|, k requires 0 <= k < |s| =>
      if args.startIndex <= k < i
      then FreshRecord(rand, digest, args.bucketIndex, thread, k - args.startIndex)
      else s[k])
  }

  /** One pass of the outer loop: a fresh nonce into `records[i]`, then its digest into the hash. */
  method GenerateRecord(records: array<Record>, i: nat, rand: RandomSource, digest: Nonce -> Hash, bucket: nat, thread: nat, m: nat)
    requires i < records.Length
    modifies records
    ensures records[..] == old(records[..])[i := FreshRecord(rand, digest, bucket, thread, m)]
  {
    var nonce := DrawNonce(rand, bucket, thread, m);
    records[i] := Record(digest(nonce), nonce);
  }

  /** Before the first pass nothing is filled. */
  lemma GeneratedBelowStart(s: seq<Record>, args: ThreadArgs, thread: nat, rand: RandomSource, digest: Nonce -> Hash)
    ensures GeneratedBelow(s, args, thread, rand, digest, args.startIndex) == s
  {
  }

  /** Filling index `i` extends the filled part by one. */
  lemma GeneratedBelowStep(s: seq<Record>, args: ThreadArgs, thread: nat, rand: RandomSource, digest: Nonce -> Hash, i: nat)
    requires args.startIndex <= i < |s|
    ensures GeneratedBelow(s, args, thread, rand, digest, i + 1)
         == GeneratedBelow(s, args, thread, rand, digest, i)[i := FreshRecord(rand, digest, args.bucketIndex, thread, i - args.startIndex)]
  {
  }

  /** Once the filled part has reached past `endIndex`, or the range is empty, the thread is done. */
  lemma GeneratedBelowEnd(s: seq<Record>, args: ThreadArgs, thread: nat, rand: RandomSource, digest: Nonce -> Hash, i: nat)
    requires args.endIndex < |s|
    requires i == args.endIndex + 1 || (i == args.startIndex && args.endIndex < i)
    ensures GeneratedBelow(s, args, thread, rand, digest, i) == Generated(s, args, thread, rand, digest)
  {
  }

  /**
   * The loop of `hash_thread_generate`: for each index of the inclusive range,
   * a fresh nonce, then the digest of the nonce into the hash.
   */
  method HashThreadGenerate(records: array<Record>, args: ThreadArgs, thread: nat, rand: RandomSource, digest: Nonce -> Hash)
    requires args.endIndex < records.Length
    modifies records
    ensures records[..] == Generated(old(records[..]), args, thread, rand, digest)
  {
    ghost var s0 := records[..];
    GeneratedBelowStart(s0, args, thread, rand, digest);
    if args.startIndex <= args.endIndex {
      for i := args.startIndex to args.endIndex + 1
        invariant records[..] == GeneratedBelow(s0, args, thread, rand, digest, i)
      {
        GenerateRecord(records, i, rand, digest, args.bucketIndex, thread, i - args.startIndex);
        GeneratedBelowStep(s0, args, thread, rand, digest, i);
      }
      GeneratedBelowEnd(s0, args, thread, rand, digest, args.endIndex + 1);
    } else {
      GeneratedBelowEnd(s0, args, thread, rand, digest, args.startIndex);
    }
  }

  /** The hash threads of one bucket, run one after the other over the argument array. */
  method HashPhase(records: array<Record>, args: array<ThreadArgs>, rand: RandomSource, digest: Nonce -> Hash)
    requires InBounds(args[..], records.Length)
    modifies records
    ensures records[..] == AfterHashPhase(old(records[..]), args[..], rand, digest)
  {
    for i := 0 to args.Length
      invariant records[..] == AfterHashPhase(old(records[..]), args[..i], rand, digest)
    {
      assert args[..i + 1][..i] == args[..i];
      HashThreadGenerate(records, args[i], i, rand, digest);
    }
    assert args[..args.Length] == args[..];
  }
}
