/**
  The bucket-count sequence of the chained hash table and the density rule
  that walks it (hashtable.c `_primes`, `DENSITY_THRESHOLD_*`, `_adjust_by_density`).
*/
module Levels {

  /** The 27 ascending primes that give the bucket count of each level. */
  const Primes: seq<nat> := [
    37,       79,       181,      359,      743,       1511,      3023,      6037,       12073,
    24001,    48017,    96001,    192007,   384001,    768013,    1536011,   3072001,    6144001,
    12288011, 24576001, 49152001, 98304053, 196608007, 393216007, 786432001, 1572864001, 3145728023
  ]

  /** The highest level: `ARRAY_SIZE(_primes) - 1`. */
  const MaxLevel: nat := 26

  /** The bucket count of `level` (hashtable.c `ht_buckets`). */
  function BucketCount(level: nat): (p: nat)
    requires level <= MaxLevel
    ensures p >= 37
    ensures p < 0x1_0000_0000
  {
    Primes[level]
  }

  /** The level the density rule moves to from `level` when the table holds `count` entries.
      The C code compares the double `count / p` with 0.25 and 2.0; with both operands exact
      as doubles that is the integer test below (see `ShrinkTestIsExact`, `GrowTestIsExact`). */
  function TargetLevel(count: nat, level: nat): (l: nat)
    requires level <= MaxLevel
    ensures l <= MaxLevel
    ensures level - 1 <= l <= level + 1
    ensures l < level ==> 4 * count <= BucketCount(level)
    ensures l > level ==> count >= 2 * BucketCount(level)
    ensures l == level <==> InBand(count, level)
  {
    if level > 0 && 4 * count <= BucketCount(level) then level - 1
    else if level < MaxLevel && count >= 2 * BucketCount(level) then level + 1
    else level
  }

  /** The load-factor band: density in [0.25, 2.0), except that the lowest level may be
      sparser and the highest level denser. */
  predicate InBand(count: nat, level: nat)
    requires level <= MaxLevel
  {
    && (level == 0 || 4 * count > BucketCount(level))
    && (level == MaxLevel || count < 2 * BucketCount(level))
  }

  /** The sequence climbs by less than a factor of eight and by more than three per level. */
  lemma PrimesSpacing(level: nat)
    requires 0 < level <= MaxLevel
    ensures Primes[level - 1] + 3 < Primes[level] < 8 * Primes[level - 1]
  {
  }

  /** The C shrink test `(double) n / p <= 0.25` is, over the reals, the integer test. */
  lemma ShrinkTestIsExact(count: nat, level: nat)
    requires level <= MaxLevel
    ensures 4 * count <= BucketCount(level) <==> (count as real) / (BucketCount(level) as real) <= 0.25
  {
  }

  /** The C grow test `(double) n / p >= 2.0` is, over the reals, the integer test. */
  lemma GrowTestIsExact(count: nat, level: nat)
    requires level <= MaxLevel
    ensures count >= 2 * BucketCount(level) <==> (count as real) / (BucketCount(level) as real) >= 2.0
  {
  }

  /** Inserting one entry into a table in the band and then applying the density rule
      leaves the table in the band. */
  lemma InsertKeepsBand(count: nat, level: nat)
    requires level <= MaxLevel
    requires InBand(count, level)
    ensures InBand(count + 1, TargetLevel(count + 1, level))
  {
    var l := TargetLevel(count + 1, level);
    if l > level {
      PrimesSpacing(l);
    }
  }

  /** Removing one entry from a table in the band and then applying the density rule
      leaves the table in the band. */
  lemma RemoveKeepsBand(count: nat, level: nat)
    requires level <= MaxLevel
    requires count > 0
    requires InBand(count, level)
    ensures InBand(count - 1, TargetLevel(count - 1, level))
  {
    var l := TargetLevel(count - 1, level);
    if l < level {
      PrimesSpacing(level);
    }
  }
}
