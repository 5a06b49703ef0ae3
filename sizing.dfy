/**
 * The sizing arithmetic at the start of hashgen's `main`: how many records
 * the output file holds, how many buckets the memory budget splits it into,
 * and how many records each bucket gets.
 */
module Sizing {
  import opened Wrappers
  import opened Records
  import opened SizeArith

  const INT32_MAX: int := 0x7fff_ffff

  /** A C `int`. */
  type Int32 = x: int | -0x8000_0000 <= x <= INT32_MAX

  const BYTES_IN_GB: nat := 1024 * 1024 * 1024
  const MB_IN_GB: nat := 1024

  /** The parsed command line: `-t`, `-o`, `-i`, `-f`, `-m`, `-s`. */
  datatype Options = Options(
    hashThreads: Int32,
    sortThreads: Int32,
    writeThreads: Int32,
    filename: Option<string>,
    maxMemoryMB: Int32,
    fileSizeGB: Int32)

  datatype ConfigError = InvalidArguments

  /** What the bucket loop is driven by. */
  datatype Plan = Plan(numRecords: nat, numBuckets: nat)

  /** The records of one bucket and the bucket remainder. */
  datatype BucketSplit = BucketSplit(perBucket: nat, remaining: nat)

  /** The argument check in `main`: a filename and positive numbers. */
  predicate ValidOptions(o: Options) {
    && o.filename.Some?
    && o.hashThreads > 0 && o.sortThreads > 0 && o.writeThreads > 0
    && o.maxMemoryMB > 0 && o.fileSizeGB > 0
  }

  /**
   * `num_records`: the file size in bytes divided by the record size, at
   * least 1. For any positive size the records fill the file exactly.
   */
  function NumRecords(fileSizeGB: nat): (n: nat)
    requires fileSizeGB <= INT32_MAX
    ensures n >= 1 && n < SIZE_MOD
    ensures fileSizeGB > 0 ==> n * RECORD_SIZE == fileSizeGB * BYTES_IN_GB
    ensures fileSizeGB == 0 ==> n == 1
  {
    var bytes := fileSizeGB * BYTES_IN_GB;
    var n := bytes / RECORD_SIZE;
    RecordsPerGigabyte(fileSizeGB);
    if n == 0 then 1 else n
  }

  /** A gigabyte holds 2^26 records exactly. */
  lemma RecordsPerGigabyte(fileSizeGB: nat)
    ensures fileSizeGB * BYTES_IN_GB == (fileSizeGB * 67108864) * RECORD_SIZE
    ensures (fileSizeGB * BYTES_IN_GB) / RECORD_SIZE == fileSizeGB * 67108864
  {
    assert BYTES_IN_GB == 67108864 * 16 && RECORD_SIZE == 16;
  }

  /**
   * `num_buckets`: the largest number of whole memory budgets that fit in the
   * file size, both counted in megabytes. It is 0 when the budget exceeds the
   * file size.
   */
  function NumBuckets(fileSizeGB: nat, maxMemoryMB: nat): (nb: nat)
    requires maxMemoryMB > 0
    ensures Mul(nb, maxMemoryMB) <= fileSizeGB * MB_IN_GB < Mul(nb + 1, maxMemoryMB)
    ensures nb == 0 <==> fileSizeGB * MB_IN_GB < maxMemoryMB
    ensures nb == (fileSizeGB * MB_IN_GB) / maxMemoryMB
  {
    var megabytes := fileSizeGB * MB_IN_GB;
    DivMod(megabytes, maxMemoryMB);
    DivIsQuotient(megabytes, maxMemoryMB);
    Div(megabytes, maxMemoryMB)
  }

  /**
   * `num_records_per_bucket` and `remaining_records`: the buckets' equal
   * shares add up to all records but fewer than `numBuckets`.
   */
  function SplitBuckets(numRecords: nat, numBuckets: nat): (s: BucketSplit)
    requires numBuckets > 0
    ensures Mul(numBuckets, s.perBucket) + s.remaining == numRecords
    ensures s.remaining < numBuckets
  {
    DivMod(numRecords, numBuckets);
    MulCommutes(Div(numRecords, numBuckets), numBuckets);
    BucketSplit(Div(numRecords, numBuckets), Mod(numRecords, numBuckets))
  }

  /** The split is C's `/` and `%` of the record count by the bucket count. */
  lemma SplitBucketsIsDivision(numRecords: nat, numBuckets: nat)
    requires numBuckets > 0
    ensures SplitBuckets(numRecords, numBuckets) == BucketSplit(numRecords / numBuckets, numRecords % numBuckets)
  {
    DivIsQuotient(numRecords, numBuckets);
  }

  /**
   * The argument validation and sizing of `main` up to the bucket loop: invalid options are
   * rejected; otherwise the file size is a whole number of records (so the
   * clamp to 1 never fires) and the buckets are the whole budgets that fit.
   * `fileSizeGB * 1024` is computed in `int`, so larger sizes overflow it.
   */
  function MakePlan(o: Options): (r: Result<Plan, ConfigError>)
    requires ValidOptions(o) ==> o.fileSizeGB * MB_IN_GB <= INT32_MAX
    ensures r.Ok? <==> ValidOptions(o)
    ensures r.Ok? ==> r.value.numRecords * RECORD_SIZE == o.fileSizeGB * BYTES_IN_GB
    ensures r.Ok? ==> 67108864 <= r.value.numRecords < SIZE_MOD
    ensures r.Ok? ==> Mul(r.value.numBuckets, o.maxMemoryMB) <= o.fileSizeGB * MB_IN_GB < Mul(r.value.numBuckets + 1, o.maxMemoryMB)
  {
    if !ValidOptions(o) then Err(InvalidArguments)
    else Ok(Plan(NumRecords(o.fileSizeGB), NumBuckets(o.fileSizeGB, o.maxMemoryMB)))
  }

  /**
   * Invalid options are rejected before any size is computed, even a file size
   * whose megabyte count would overflow an `int`.
   */
  lemma OversizedInvalidRejected(o: Options)
    requires o == Options(0, 1, 1, Some("f"), 1, 3000000)
    ensures MakePlan(o) == Err(InvalidArguments)
    ensures o.fileSizeGB * MB_IN_GB > INT32_MAX
  {
  }

  /** One gigabyte with a 256 MB budget: four buckets of 2^24 records. */
  lemma OneGigabyteScenario(o: Options)
    requires ValidOptions(o) && o.fileSizeGB == 1 && o.maxMemoryMB == 256
    ensures MakePlan(o) == Ok(Plan(67108864, 4))
    ensures SplitBuckets(67108864, 4) == BucketSplit(16777216, 0)
  {
    DivIsQuotient(1024, 256);
    DivIsQuotient(67108864, 4);
  }
}
