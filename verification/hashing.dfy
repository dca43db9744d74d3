/**
  The string and byte-buffer helpers a caller hands to `ht_alloc` (hashtable.c:286-332):
  djb2 hashes, `strcmp`/`memcmp` comparators and the string copy. Hashes are computed at
  64 bits, the width of `ht_str_hash`'s accumulator; `ht_arb_hash_util` accumulates in a
  `size_t`, which is 64 bits only on a 64-bit target (README, "Left out"). Bytes are unsigned.
*/
module Hashing {
  import opened Wrappers
  import opened Chains
  import HashTable
  import opened Arith

  type Byte = bv8

  /** A C string's contents: the bytes before the terminating NUL. */
  predicate NulFree(s: seq<Byte>) {
    forall i :: 0 <= i < |s| ==> s[i] != 0
  }

  /** What a C string can hold: bytes without a NUL. */
  type CString = s: seq<Byte> | NulFree(s) witness []

  /** A buffer that a `char *` may point to: a NUL occurs somewhere in it. */
  predicate Terminated(buf: seq<Byte>) {
    exists i :: 0 <= i < |buf| && buf[i] == 0
  }

  /** The string a terminated buffer holds: its bytes before the first NUL. */
  function StringOf(buf: seq<Byte>): (s: CString)
    requires Terminated(buf)
    ensures |s| < |buf| && buf[|s|] == 0 && s == buf[..|s|]
    decreases |buf|
  {
    if buf[0] == 0 then []
    else
      var i :| 0 <= i < |buf| && buf[i] == 0;
      assert 0 <= i - 1 < |buf[1..]| && buf[1..][i - 1] == 0;
      var s := [buf[0]] + StringOf(buf[1..]);
      assert s == buf[..|s|];
      s
  }

  /** The first NUL is unique: a NUL at `len` with none before it is where `StringOf` stops. */
  lemma FirstNul(buf: seq<Byte>, len: nat)
    requires len < |buf| && buf[len] == 0 && NulFree(buf[..len])
    ensures Terminated(buf) && buf[..len] == StringOf(buf)
  {
    var s := StringOf(buf);
    assert forall i :: 0 <= i < len ==> buf[i] == buf[..len][i];
    assert forall i :: 0 <= i < |s| ==> buf[i] == s[i];
  }

  // ---------------------------------------------------------------- djb2 hashes

  const Djb2Seed: Word := 5381

  /** One step of `ht_str_hash`: multiply by 33, then add the byte. The source multiplies with
      a shift and an add, `(h << 5) + h`, which `ShiftAddIsTimes33` shows is the same product. */
  function StrStep(h: Word, c: Byte): Word
  {
    h * 33 + c as Word
  }

  /** One step of `ht_arb_hash_util`: multiply by 33 (again written as a shift and an add),
      then xor in the byte. */
  function ArbStep(h: Word, c: Byte): Word
  {
    (h * 33) ^ c as Word
  }

  /** The shift-and-add of the source is multiplication by 33 modulo 2^64. */
  lemma ShiftAddIsTimes33(h: Word)
    ensures (h << 5) + h == h * 33
  {
  }

  /** djb2 over a string, first byte to last. */
  function StrHash(s: seq<Byte>): Word
  {
    if |s| == 0 then Djb2Seed else StrStep(StrHash(s[..|s| - 1]), s[|s| - 1])
  }

  /** The xor variant of djb2 over a byte buffer. */
  function ArbHash(s: seq<Byte>): Word
  {
    if |s| == 0 then Djb2Seed else ArbStep(ArbHash(s[..|s| - 1]), s[|s| - 1])
  }

  /** `ht_str_hash` on a NUL-terminated buffer: scans to the first NUL and hashes the bytes
      before it; `len` is the length of the string it found. */
  method StrHashScan(buf: seq<Byte>) returns (h: Word, len: nat)
    requires Terminated(buf)
    ensures len < |buf| && buf[len] == 0 && NulFree(buf[..len])
    ensures h == StrHash(buf[..len])
  {
    h := Djb2Seed;
    len := 0;
    while buf[len] != 0
      invariant len < |buf|
      invariant NulFree(buf[..len])
      invariant exists i :: len <= i < |buf| && buf[i] == 0
      invariant h == StrHash(buf[..len])
      decreases |buf| - len
    {
      assert buf[..len + 1][..len] == buf[..len];
      h := StrStep(h, buf[len]);
      len := len + 1;
    }
  }

  /** `ht_arb_hash_util`: hashes the first `size` bytes of `data`, whatever their values. */
  method ArbHashScan(data: seq<Byte>, size: nat) returns (h: Word)
    requires size <= |data|
    ensures h == ArbHash(data[..size])
  {
    h := Djb2Seed;
    var i := 0;
    while i < size
      invariant 0 <= i <= size
      invariant h == ArbHash(data[..i])
    {
      assert data[..i + 1][..i] == data[..i];
      h := ArbStep(h, data[i]);
      i := i + 1;
    }
  }

  // ---------------------------------------------------------------- comparators

  /** Lexicographic order on bytes read as unsigned, a proper prefix first: `strcmp` on the
      contents of two C strings, and `memcmp` on two buffers of one length. C promises only
      the sign of the result; -1, 0 and 1 stand for it. */
  function Lex(a: seq<Byte>, b: seq<Byte>): (r: int)
    ensures -1 <= r <= 1
    ensures r == 0 <==> a == b
  {
    if |a| == 0 || |b| == 0 then
      (if |a| == |b| then 0 else if |a| == 0 then -1 else 1)
    else if a[0] < b[0] then -1
    else if a[0] > b[0] then 1
    else
      assert a == [a[0]] + a[1..] && b == [b[0]] + b[1..];
      Lex(a[1..], b[1..])
  }

  /** `ht_str_cmp` on the contents of two C strings: `strcmp` stops at the first NUL, so
      what it compares is the bytes before it. */
  function StrCmp(a: CString, b: CString): (r: int)
    ensures r == 0 <==> a == b
  {
    Lex(a, b)
  }

  /** `ht_arb_cmp_util`: compares the first `size` bytes, so keys of that length are equal
      exactly when the comparison gives 0. */
  function ArbCmp(a: seq<Byte>, b: seq<Byte>, size: nat): (r: int)
    requires size <= |a| && size <= |b|
    ensures r == 0 <==> a[..size] == b[..size]
    ensures |a| == size && |b| == size ==> (r == 0 <==> a == b)
  {
    assert a[..|a|] == a && b[..|b|] == b;
    Lex(a[..size], b[..size])
  }

  /** Swapping the operands of `Lex` flips the sign. */
  lemma {:induction false} LexAntisymmetric(a: seq<Byte>, b: seq<Byte>)
    ensures Lex(a, b) == -Lex(b, a)
  {
    if |a| > 0 && |b| > 0 && a[0] == b[0] {
      LexAntisymmetric(a[1..], b[1..]);
    }
  }

  /** A proper prefix sorts before the longer string. */
  lemma {:induction false} LexPrefixFirst(a: seq<Byte>, b: seq<Byte>)
    requires |a| < |b| && a == b[..|a|]
    ensures Lex(a, b) == -1
  {
    if |a| > 0 {
      assert a[1..] == b[1..][..|a| - 1];
      LexPrefixFirst(a[1..], b[1..]);
    }
  }

  /** The string comparator meets the table's requirement that a comparison gives 0 exactly
      for equal keys. */
  lemma StrCmpIsEquality()
    ensures CmpIsEquality((a: CString, b: CString) => StrCmp(a, b))
  {
  }

  // ---------------------------------------------------------------- copy

  /** `ht_str_copy`: a NULL key copies to NULL; otherwise `strdup` copies the bytes up to the
      first NUL of the key's buffer, and a failed duplication is an error. */
  function StrCopy(key: Option<seq<Byte>>, allocOk: bool): (r: Result<Option<CString>, HashTable.Error>)
    requires key.Some? ==> Terminated(key.value)
    ensures key.None? ==> r == Success(None)
    ensures key.Some? && allocOk ==> r.Success? && r.value.Some?
    ensures key.Some? && allocOk ==> var c := r.value.value;
      |c| < |key.value| && key.value[|c|] == 0 && c == key.value[..|c|]
    ensures key.Some? && !allocOk ==> r == Failure(HashTable.AllocationFailure)
  {
    if key.None? then Success(None)
    else if allocOk then Success(Some(StringOf(key.value)))
    else Failure(HashTable.AllocationFailure)
  }

  /** The stored copy stands for the caller's key: it hashes to what `ht_str_hash` computes on
      the caller's buffer, and `ht_str_cmp` finds the two equal, so a later lookup with the
      original buffer reaches the copy. */
  lemma {:induction false} CopyActsAsKey(buf: seq<Byte>, h: Word, len: nat)
    requires len < |buf| && buf[len] == 0 && NulFree(buf[..len]) && h == StrHash(buf[..len])
    ensures Terminated(buf)
    ensures var c := StrCopy(Some(buf), true).value.value;
      StrHash(c) == h && StrCmp(c, buf[..len]) == 0
  {
    FirstNul(buf, len);
    var c := StrCopy(Some(buf), true).value.value;
    FirstNul(buf, |c|);
  }
}
