/**
 * The record layout of hashgen and its comparator: a record is a 10-byte
 * hash followed by a 6-byte nonce, and records are ordered by their hash
 * bytes alone, most significant byte first.
 */
module Records {

  const NONCE_SIZE: nat := 6
  const HASH_SIZE: nat := 10
  const RECORD_SIZE: nat := HASH_SIZE + NONCE_SIZE

  /** A `uint8_t`. */
  type Byte = x: int | 0 <= x < 256

  type Hash = s: seq<Byte> | |s| == HASH_SIZE witness [0, 0, 0, 0, 0, 0, 0, 0, 0, 0]

  type Nonce = s: seq<Byte> | |s| == NONCE_SIZE witness [0, 0, 0, 0, 0, 0]

  /** The C struct `Record`: the hash bytes first, then the nonce bytes. */
  datatype Record = Record(hash: Hash, nonce: Nonce)

  /** `x` and `y` agree on every byte before `k` and differ at `k`. */
  ghost predicate FirstDifference(x: Hash, y: Hash, k: nat) {
    k < HASH_SIZE && x[..k] == y[..k] && x[k] != y[k]
  }

  /** The comparison loop of `hash_values_comparision`, started at byte `i`. */
  function CompareFrom(x: Hash, y: Hash, i: nat): (r: int)
    requires i <= HASH_SIZE
    ensures r == -1 || r == 0 || r == 1
    decreases HASH_SIZE - i
  {
    if i == HASH_SIZE then 0
    else if x[i] < y[i] then -1
    else if x[i] > y[i] then 1
    else CompareFrom(x, y, i + 1)
  }

  /** `hash_values_comparision`: -1, 0 or 1 by the hash bytes, most significant first. */
  function Compare(a: Record, b: Record): (r: int)
    ensures r == -1 || r == 0 || r == 1
  {
    CompareFrom(a.hash, b.hash, 0)
  }

  /**
   * From byte `i` on: 0 exactly when the hashes agree to the end; otherwise
   * the sign given by the first byte from `i` where they differ.
   */
  lemma {:induction false} CompareFromSpec(x: Hash, y: Hash, i: nat)
    requires i <= HASH_SIZE
    ensures CompareFrom(x, y, i) == 0 <==> x[i..] == y[i..]
    ensures CompareFrom(x, y, i) != 0 ==> exists k :: i <= k < HASH_SIZE && x[i..k] == y[i..k] && x[k] != y[k]
                                                     && (CompareFrom(x, y, i) == -1 <==> x[k] < y[k])
    decreases HASH_SIZE - i
  {
    if i < HASH_SIZE {
      assert x[i..] == [x[i]] + x[i + 1..] && y[i..] == [y[i]] + y[i + 1..];
      if x[i] == y[i] {
        CompareFromSpec(x, y, i + 1);
        if CompareFrom(x, y, i) != 0 {
          var k :| i + 1 <= k < HASH_SIZE && x[i + 1..k] == y[i + 1..k] && x[k] != y[k]
                   && (CompareFrom(x, y, i + 1) == -1 <==> x[k] < y[k]);
          assert x[i..k] == [x[i]] + x[i + 1..k] && y[i..k] == [y[i]] + y[i + 1..k];
        }
      } else {
        assert x[i..i] == y[i..i];
      }
    }
  }

  /**
   * The comparator returns 0 exactly when the two hashes are equal, and
   * otherwise the sign given by the first hash byte where they differ. The
   * nonces play no part.
   */
  lemma CompareSpec(a: Record, b: Record)
    ensures Compare(a, b) == 0 <==> a.hash == b.hash
    ensures Compare(a, b) != 0 ==> exists k: nat :: FirstDifference(a.hash, b.hash, k) && (Compare(a, b) == -1 <==> a.hash[k] < b.hash[k])
  {
    CompareFromSpec(a.hash, b.hash, 0);
    assert a.hash[0..] == a.hash && b.hash[0..] == b.hash;
    if Compare(a, b) != 0 {
      var k :| 0 <= k < HASH_SIZE && a.hash[0..k] == b.hash[0..k] && a.hash[k] != b.hash[k]
               && (Compare(a, b) == -1 <==> a.hash[k] < b.hash[k]);
      assert a.hash[0..k] == a.hash[..k] && b.hash[0..k] == b.hash[..k];
      assert FirstDifference(a.hash, b.hash, k);
    }
  }

  /** The comparison loop itself, with its early returns. */
  method HashValuesComparison(a: Record, b: Record) returns (r: int)
    ensures r == Compare(a, b)
  {
    var i := 0;
    while i < HASH_SIZE
      invariant 0 <= i <= HASH_SIZE
      invariant CompareFrom(a.hash, b.hash, i) == Compare(a, b)
    {
      if a.hash[i] < b.hash[i] {
        return -1;
      } else if a.hash[i] > b.hash[i] {
        return 1;
      }
      i := i + 1;
    }
    return 0;
  }

  /** "Sorts no later than": the ordering `qsort` is given. */
  predicate Le(a: Record, b: Record) {
    Compare(a, b) <= 0
  }

  /** The byte where two hashes first differ decides the comparison. */
  lemma FirstDifferenceDecides(a: Record, b: Record, k: nat)
    requires FirstDifference(a.hash, b.hash, k)
    ensures Compare(a, b) == if a.hash[k] < b.hash[k] then -1 else 1
  {
    CompareSpec(a, b);
    var r := Compare(a, b);
    var k': nat :| FirstDifference(a.hash, b.hash, k') && (r == -1 <==> a.hash[k'] < b.hash[k']);
  }

  /** Two hashes equal on their first nine bytes compare by the tenth. */
  lemma LastByteDecides(a: Record, b: Record)
    requires a.hash[..HASH_SIZE - 1] == b.hash[..HASH_SIZE - 1]
    requires a.hash[HASH_SIZE - 1] != b.hash[HASH_SIZE - 1]
    ensures Compare(a, b) == if a.hash[HASH_SIZE - 1] < b.hash[HASH_SIZE - 1] then -1 else 1
  {
    FirstDifferenceDecides(a, b, HASH_SIZE - 1);
  }

  /** Replacing the nonces never changes the comparison. */
  lemma CompareIgnoresNonce(a: Record, b: Record, n: Nonce, m: Nonce)
    ensures Compare(a.(nonce := n), b.(nonce := m)) == Compare(a, b)
  {
  }

  lemma {:induction false} CompareFromAntisymmetric(x: Hash, y: Hash, i: nat)
    requires i <= HASH_SIZE
    ensures CompareFrom(x, y, i) == -CompareFrom(y, x, i)
    decreases HASH_SIZE - i
  {
    if i < HASH_SIZE && x[i] == y[i] {
      CompareFromAntisymmetric(x, y, i + 1);
    }
  }

  lemma {:induction false} CompareFromTransitive(x: Hash, y: Hash, z: Hash, i: nat)
    requires i <= HASH_SIZE
    requires CompareFrom(x, y, i) <= 0 && CompareFrom(y, z, i) <= 0
    ensures CompareFrom(x, z, i) <= 0
    decreases HASH_SIZE - i
  {
    if i < HASH_SIZE && x[i] == y[i] == z[i] {
      CompareFromTransitive(x, y, z, i + 1);
    }
  }

  /** Every record compares equal to itself. */
  lemma CompareReflexive(a: Record)
    ensures Compare(a, a) == 0
  {
    CompareSpec(a, a);
  }

  /** Swapping the arguments negates the result. */
  lemma CompareAntisymmetric(a: Record, b: Record)
    ensures Compare(a, b) == -Compare(b, a)
  {
    CompareFromAntisymmetric(a.hash, b.hash, 0);
  }

  /** `Le` is transitive. */
  lemma LeTransitive(a: Record, b: Record, c: Record)
    requires Le(a, b) && Le(b, c)
    ensures Le(a, c)
  {
    CompareFromTransitive(a.hash, b.hash, c.hash, 0);
  }

  /** Strictly-less followed by no-greater is strictly less. */
  lemma LessTransitive(a: Record, b: Record, c: Record)
    requires Compare(a, b) < 0 && Compare(b, c) <= 0
    ensures Compare(a, c) < 0
  {
    LeTransitive(a, b, c);
    CompareAntisymmetric(a, b);
    CompareSpec(a, c);
  }

  /** Any two records are related by `Le` one way or the other. */
  lemma LeTotal(a: Record, b: Record)
    ensures Le(a, b) || Le(b, a)
  {
    CompareAntisymmetric(a, b);
  }
}
