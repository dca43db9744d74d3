/**
  The integer-key helpers a caller hands to `ht_alloc` (hashtable.c:272-284): a 64-bit
  xor-shift-multiply mix as the hash and a signed difference as the comparator.
*/
module IntKeys {
  import opened Wrappers
  import opened Chains
  import HashTable
  import Ownership
  import opened Arith

  // ---------------------------------------------------------------- integer mix

  /** The three xor-shift rounds of `ht_int_hash` and the single xor-shifts that undo them
      (each shift is at least a third of the word, so one more shift reaches past the top). */
  function Mix31(x: Word): Word { x ^ (x >> 31) ^ (x >> 62) }
  function Unmix31(y: Word): Word { y ^ (y >> 31) }
  function Mix27(x: Word): Word { x ^ (x >> 27) ^ (x >> 54) }
  function Unmix27(y: Word): Word { y ^ (y >> 27) }
  function Mix30(x: Word): Word { x ^ (x >> 30) ^ (x >> 60) }
  function Unmix30(y: Word): Word { y ^ (y >> 30) }

  /** The two multiplications of `ht_int_hash` and their inverses modulo 2^64. */
  function Scale1(x: Word): Word { x * 0x319642b2d24d8ec3 }
  function Unscale1(y: Word): Word { y * 0x94d049bb133111eb }
  function Scale2(x: Word): Word { x * 0x96de1b173f119089 }
  function Unscale2(y: Word): Word { y * 0xbf58476d1ce4e5b9 }

  /** `ht_int_hash`: the key's bits through two xor-shift-multiply rounds and a final xor-shift.
      No information is lost: `IntUnhash` recovers the key. */
  function IntHash(x: Word): (h: Word)
    ensures IntUnhash(h) == x
  {
    var a := Mix31(x);
    var b := Scale1(a);
    var c := Mix27(b);
    var d := Scale2(c);
    Mix31Inverts(x); Scale1Inverts(a); Mix27Inverts(b); Scale2Inverts(c); Mix30Inverts(d);
    Mix30(d)
  }

  /** Runs the rounds of `IntHash` backwards. */
  function IntUnhash(y: Word): Word {
    Unmix31(Unscale1(Unmix27(Unscale2(Unmix30(y)))))
  }

  lemma Round31(x: Word)
    ensures Unmix31(x ^ (x >> 31) ^ (x >> 62)) == x && Mix31(x ^ (x >> 31)) == x
  {
  }

  lemma Round27(x: Word)
    ensures Unmix27(x ^ (x >> 27) ^ (x >> 54)) == x && Mix27(x ^ (x >> 27)) == x
  {
  }

  lemma Round30(x: Word)
    ensures Unmix30(x ^ (x >> 30) ^ (x >> 60)) == x && Mix30(x ^ (x >> 30)) == x
  {
  }

  lemma Mix31Inverts(x: Word)
    ensures Unmix31(Mix31(x)) == x && Mix31(Unmix31(x)) == x
  {
    Round31(x);
    assert Mix31(x) == x ^ (x >> 31) ^ (x >> 62);
    assert Unmix31(x) == x ^ (x >> 31);
  }

  lemma Mix27Inverts(x: Word)
    ensures Unmix27(Mix27(x)) == x && Mix27(Unmix27(x)) == x
  {
    Round27(x);
    assert Mix27(x) == x ^ (x >> 27) ^ (x >> 54);
    assert Unmix27(x) == x ^ (x >> 27);
  }

  lemma Mix30Inverts(x: Word)
    ensures Unmix30(Mix30(x)) == x && Mix30(Unmix30(x)) == x
  {
    Round30(x);
    assert Mix30(x) == x ^ (x >> 30) ^ (x >> 60);
    assert Unmix30(x) == x ^ (x >> 30);
  }

  lemma Scale1Inverts(x: Word)
    ensures Unscale1(Scale1(x)) == x && Scale1(Unscale1(x)) == x
  {
    assert (x * 0x319642b2d24d8ec3) * 0x94d049bb133111eb == x * (0x319642b2d24d8ec3 * 0x94d049bb133111eb);
    assert (x * 0x94d049bb133111eb) * 0x319642b2d24d8ec3 == x * (0x319642b2d24d8ec3 * 0x94d049bb133111eb);
    assert Scale1(x) == x * 0x319642b2d24d8ec3;
    assert Unscale1(x) == x * 0x94d049bb133111eb;
  }

  lemma Scale2Inverts(x: Word)
    ensures Unscale2(Scale2(x)) == x && Scale2(Unscale2(x)) == x
  {
    assert (x * 0x96de1b173f119089) * 0xbf58476d1ce4e5b9 == x * (0x96de1b173f119089 * 0xbf58476d1ce4e5b9);
    assert (x * 0xbf58476d1ce4e5b9) * 0x96de1b173f119089 == x * (0x96de1b173f119089 * 0xbf58476d1ce4e5b9);
    assert Scale2(x) == x * 0x96de1b173f119089;
    assert Unscale2(x) == x * 0xbf58476d1ce4e5b9;
  }

  /** `ht_int_hash` is a bijection on 64-bit words: `IntUnhash` undoes it from either side. */
  lemma IntHashBijective(x: Word)
    ensures IntUnhash(IntHash(x)) == x
    ensures IntHash(IntUnhash(x)) == x
  {
    var a' := Unmix30(x);
    var b' := Unscale2(a');
    var c' := Unmix27(b');
    var d' := Unscale1(c');
    Mix30Inverts(x); Scale2Inverts(a'); Mix27Inverts(b'); Scale1Inverts(c'); Mix31Inverts(d');
  }

  /** `ht_int_hash` where `size_t` is 32 bits, as on the Cyclone V HPS the program targets:
      the mix is computed at 64 bits and only its low half is returned. */
  function IntHash32(x: Word): (h: Word)
    ensures h < 0x1_0000_0000
    ensures h == IntHash(x) % 0x1_0000_0000
  {
    IntHash(x) & 0xFFFF_FFFF
  }

  /** Truncated to 32 bits the hash is no longer injective: two small keys collide. */
  lemma IntHash32Collides()
    ensures IntHash32(17275) == IntHash32(153923)
  {
  }

  /** The 64-bit mix never maps distinct integer keys to the same word. */
  lemma IntHashInjective(a: Word, b: Word)
    ensures IntHash(a) == IntHash(b) <==> a == b
  {
    IntHashBijective(a);
    IntHashBijective(b);
  }

  /** The `int64_t` reading of a 64-bit word (two's complement). */
  function Signed(w: Word): (r: int)
    ensures -0x8000_0000_0000_0000 <= r < 0x8000_0000_0000_0000
    ensures r == 0 <==> w == 0
  {
    if w < 0x8000_0000_0000_0000 then w as int else w as int - 0x1_0000_0000_0000_0000
  }

  /** `ht_int_cmp`: the second key minus the first, as a signed 64-bit difference. */
  function IntCmp(a: Word, b: Word): (r: int)
    ensures r == 0 <==> a == b
  {
    SubZero(a, b);
    Signed(b - a)
  }

  /** A 64-bit difference is zero exactly when the operands are equal. */
  lemma SubZero(a: Word, b: Word)
    ensures b - a == 0 <==> a == b
  {
  }

  /** The integer comparator meets the table's requirement that a comparison gives 0 exactly
      for equal keys. */
  lemma IntCmpIsEquality()
    ensures CmpIsEquality(IntCmp)
  {
  }

  /** A table keyed by integers through `ht_int_hash` and `ht_int_cmp` can be built, and
      starts empty at the smallest level. */
  lemma IntTableAllocates()
    ensures var r := HashTable.Alloc(true, Some((x: Word) => IntHash(x) as nat), Some((a: Word, b: Word) => IntCmp(a, b)),
                                     Ownership.Policy(0, false, false), Ownership.Policy(0, false, false), true);
      r.Success? && HashTable.Contents<Word, Word>(r.value) == map[] && r.value.level == 0
  {
  }
}
