/**
  The decoding side of `mu_virt_to_phys` and `mu_is_continuous` (memory_utils.c:18-82).
  A `/proc/<pid>/pagemap` entry is a 64-bit word: bit 63 says the page is present in RAM,
  bit 62 that it is swapped out, bits 0-54 hold the page frame number, and bits 55-61 are
  flags these functions ignore. Reading the entry for a virtual page is an oracle `read`
  (`None` is a failed read), and the page size from `sysconf` is the parameter `ps`.
*/
module Pagemap {
  import opened Wrappers
  import opened Arith

  const Two64: nat := 0x1_0000_0000_0000_0000
  type U64 = x: int | 0 <= x < 0x1_0000_0000_0000_0000

  const Bit63: nat := 0x8000_0000_0000_0000
  const Bit62: nat := 0x4000_0000_0000_0000
  const Bit55: nat := 0x80_0000_0000_0000

  /** Why a translation or a contiguity check gives up. */
  datatype Error = NullDestination | ReadFailed | NotPresent | SwappedOut | EmptyRange

  /** Bit 63 of an entry. The source's test macros ignore their argument and read whatever
      local is called `pagemap_entry`; both callers name their entry that, so the intended bit
      test on the entry itself is what is modelled. */
  predicate IsPresent(e: U64) { (e / Bit63) % 2 == 1 }

  /** Bit 62 of an entry. */
  predicate IsSwapped(e: U64) { (e / Bit62) % 2 == 1 }

  /** Bits 0-54 of an entry: `e & ((1 << 55) - 1)`. */
  function FrameNumber(e: U64): (f: nat)
    ensures f < Bit55
  {
    e % Bit55
  }

  /** A page the translation accepts: present and not swapped. */
  predicate Mapped(e: U64) { IsPresent(e) && !IsSwapped(e) }

  /** The entry the kernel writes for a page with the given bits. */
  function EncodeEntry(present: bool, swapped: bool, flags: nat, pfn: nat): U64
    requires flags < 0x80 && pfn < Bit55
  {
    (if present then Bit63 else 0) + (if swapped then Bit62 else 0) + flags * Bit55 + pfn
  }

  /** Decoding an entry recovers the present bit, the swapped bit and the frame number, and
      the flag bits between them do not leak into the frame number. */
  lemma DecodeEncode(present: bool, swapped: bool, flags: nat, pfn: nat)
    requires flags < 0x80 && pfn < Bit55
    ensures var e := EncodeEntry(present, swapped, flags, pfn);
      IsPresent(e) == present && IsSwapped(e) == swapped && FrameNumber(e) == pfn
  {
    var e := EncodeEntry(present, swapped, flags, pfn);
    var low := flags * Bit55 + pfn;
    assert low < Bit62;
    var s := if swapped then 1 else 0;
    var p := if present then 1 else 0;
    DivMod(2 * p + s, Bit62, low);
    assert e == (2 * p + s) * Bit62 + low;
    assert e / Bit62 == 2 * p + s;
    DivMod(p, Bit63, s * Bit62 + low);
    assert e == p * Bit63 + (s * Bit62 + low);
    DivMod(2 * 0x80 * p + 0x80 * s + flags, Bit55, pfn);
    assert e == (2 * 0x80 * p + 0x80 * s + flags) * Bit55 + pfn;
  }

  /** `mu_virt_to_phys`: rejects a NULL destination, propagates a failed read, rejects a page
      that is not present or is swapped, and otherwise puts the frame number in place of the
      virtual page number, in 64-bit arithmetic. */
  function VirtToPhys(hasDst: bool, va: U64, ps: nat, read: nat -> Option<U64>): (r: Result<U64, Error>)
    requires ps > 0
    ensures !hasDst ==> r == Failure(NullDestination)
    ensures hasDst && read(va / ps).None? ==> r == Failure(ReadFailed)
    ensures hasDst && read(va / ps).Some? && !IsPresent(read(va / ps).value) ==> r == Failure(NotPresent)
    ensures hasDst && read(va / ps).Some? && IsPresent(read(va / ps).value) && IsSwapped(read(va / ps).value) ==>
      r == Failure(SwappedOut)
    ensures r.Success? <==> hasDst && read(va / ps).Some? && Mapped(read(va / ps).value)
    ensures r.Success? && (FrameNumber(read(va / ps).value) + 1) * ps <= Two64 ==>
      r.value / ps == FrameNumber(read(va / ps).value) && r.value % ps == va % ps
  {
    if !hasDst then Failure(NullDestination)
    else match read(va / ps)
      case None => Failure(ReadFailed)
      case Some(e) =>
        if !IsPresent(e) then Failure(NotPresent)
        else if IsSwapped(e) then Failure(SwappedOut)
        else Success(Splice(FrameNumber(e), ps, va))
  }

  /** The physical address `(frame * ps) + (va % ps)`, truncated to 64 bits: when the frame's
      page lies below 2^64 nothing is truncated, and the address splits back into the frame
      and the offset within the page. */
  function Splice(f: nat, ps: nat, va: U64): (r: U64)
    requires ps > 0
    ensures (f + 1) * ps <= Two64 ==> r / ps == f && r % ps == va % ps
  {
    DivMod(f, ps, va % ps);
    assert f * ps + va % ps < (f + 1) * ps;
    (f * ps + va % ps) % Two64
  }

  /** Page `i` of a walk that started at page `first` passes `mu_is_continuous`: its entry
      lookups, is mapped, and (after the first page) its frame follows the previous page's. */
  predicate PageFits(read: nat -> Option<U64>, first: nat, i: nat) {
    && read(i).Some?
    && Mapped(read(i).value)
    && (i > first ==> read(i - 1).Some? && FrameNumber(read(i).value) == FrameNumber(read(i - 1).value) + 1)
  }

  /** Every page in `[first, end)` passes. */
  predicate FitsUpTo(read: nat -> Option<U64>, first: nat, end: nat) {
    forall i :: first <= i < end ==> PageFits(read, first, i)
  }

  /** Virtual pages `first..last`, inclusive, are mapped to consecutive page frames. */
  predicate Contiguous(read: nat -> Option<U64>, first: nat, last: nat) {
    FitsUpTo(read, first, last + 1)
  }

  /** `mu_is_continuous`: rejects `a >= b` before any read; otherwise reads the pages of `a`
      through `b` in order and answers false at the first page that is not mapped or whose
      frame does not follow the previous one, propagating a failed read. `lookups` counts the
      entries it asked for. */
  method IsContinuous(a: U64, b: U64, ps: nat, read: nat -> Option<U64>) returns (r: Result<bool, Error>, lookups: nat)
    requires ps > 0
    ensures a >= b ==> r == Failure(EmptyRange) && lookups == 0
    ensures a < b ==> 1 <= lookups <= b / ps - a / ps + 1
    ensures a < b ==> (r == Success(true) <==> Contiguous(read, a / ps, b / ps))
    ensures a < b && r == Success(true) ==> lookups == b / ps - a / ps + 1
    ensures a < b && r == Success(false) ==>
      var p := a / ps + lookups - 1;
      FitsUpTo(read, a / ps, p) && read(p).Some? && !PageFits(read, a / ps, p)
    ensures a < b && r.Failure? ==>
      var p := a / ps + lookups - 1;
      r.error == ReadFailed && FitsUpTo(read, a / ps, p) && read(p).None?
    ensures a < b && a / ps == b / ps ==>
      (r == Success(true) <==> read(a / ps).Some? && Mapped(read(a / ps).value))
  {
    if a >= b {
      return Failure(EmptyRange), 0;
    }
    var first := a / ps;
    var last := b / ps;
    assert first <= last by {
      DivMonotone(a, b, ps);
    }
    var prev: nat := 0;
    var i := first;
    lookups := 0;
    while i <= last
      invariant first <= i <= last + 1
      invariant lookups == i - first
      invariant FitsUpTo(read, first, i)
      invariant i > first ==> read(i - 1).Some? && prev == FrameNumber(read(i - 1).value)
    {
      var entry := read(i);
      lookups := lookups + 1;
      if entry.None? {
        assert !PageFits(read, first, i);
        return Failure(ReadFailed), lookups;
      }
      var e := entry.value;
      if !Mapped(e) {
        assert !PageFits(read, first, i);
        return Success(false), lookups;
      }
      var f := FrameNumber(e);
      if i != first && prev + 1 != f {
        assert !PageFits(read, first, i);
        return Success(false), lookups;
      }
      assert PageFits(read, first, i);
      prev := f;
      i := i + 1;
    }
    assert PageFits(read, first, first);
    return Success(true), lookups;
  }

  /** Over a contiguous run, each page's frame is the first page's frame plus its distance. */
  lemma {:induction false} FramesAdvance(read: nat -> Option<U64>, first: nat, last: nat, p: nat)
    requires Contiguous(read, first, last)
    requires first <= p <= last
    ensures read(p).Some? && read(first).Some?
    ensures FrameNumber(read(p).value) == FrameNumber(read(first).value) + (p - first)
    decreases p
  {
    assert PageFits(read, first, p);
    if p > first {
      FramesAdvance(read, first, last, p - 1);
    }
  }

  /** The translation of a mapped page whose frames stay below the top of the 64-bit space:
      the frame number in place of the page number, the offset kept. */
  lemma Translated(va: U64, ps: nat, read: nat -> Option<U64>)
    requires ps > 0 && read(va / ps).Some? && Mapped(read(va / ps).value)
    requires (FrameNumber(read(va / ps).value) + 1) * ps <= Two64
    ensures VirtToPhys(true, va, ps, read) == Success(FrameNumber(read(va / ps).value) * ps + va % ps)
  {
    var r := VirtToPhys(true, va, ps, read).value;
    assert r == r / ps * ps + r % ps;
  }

  /** What contiguity buys: when `mu_is_continuous` holds for `[a, b]` and the frames stay
      below the top of the 64-bit space, every address in the range translates to the start's
      physical address plus its distance from the start. */
  lemma {:induction false} ContiguousTranslates(a: U64, b: U64, ps: nat, read: nat -> Option<U64>, x: U64)
    requires ps > 0 && a <= x <= b
    requires Contiguous(read, a / ps, b / ps)
    requires read(b / ps).Some? && (FrameNumber(read(b / ps).value) + 1) * ps <= Two64
    ensures VirtToPhys(true, a, ps, read).Success? && VirtToPhys(true, x, ps, read).Success?
    ensures VirtToPhys(true, x, ps, read).value - VirtToPhys(true, a, ps, read).value == x - a
  {
    Recompose(a, ps);
    Recompose(b, ps);
    Recompose(x, ps);
    var first: nat, last: nat, px: nat := a / ps, b / ps, x / ps;
    DivMonotone(a, x, ps);
    DivMonotone(x, b, ps);
    FramesAdvance(read, first, last, px);
    FramesAdvance(read, first, last, last);
    MulMono(FrameNumber(read(px).value) + 1, FrameNumber(read(last).value) + 1, ps);
    assert PageFits(read, first, first) && PageFits(read, first, px);
    TranslatePair(a, x, ps, read);
  }

  /** Two mapped addresses whose frames are as far apart as their pages translate to
      addresses as far apart as the addresses themselves. */
  lemma TranslatePair(a: U64, x: U64, ps: nat, read: nat -> Option<U64>)
    requires ps > 0 && a <= x
    requires read(a / ps).Some? && Mapped(read(a / ps).value)
    requires read(x / ps).Some? && Mapped(read(x / ps).value)
    requires a / ps <= x / ps
    requires FrameNumber(read(x / ps).value) == FrameNumber(read(a / ps).value) + (x / ps - a / ps)
    requires (FrameNumber(read(x / ps).value) + 1) * ps <= Two64
    ensures VirtToPhys(true, a, ps, read).Success? && VirtToPhys(true, x, ps, read).Success?
    ensures VirtToPhys(true, x, ps, read).value - VirtToPhys(true, a, ps, read).value == x - a
  {
    Recompose(a, ps);
    Recompose(x, ps);
    var pa: nat, px: nat := a / ps, x / ps;
    var f0 := FrameNumber(read(pa).value);
    var fx := FrameNumber(read(px).value);
    MulMono(f0 + 1, fx + 1, ps);
    Translated(a, ps, read);
    Translated(x, ps, read);
    var ra := VirtToPhys(true, a, ps, read).value;
    var rx := VirtToPhys(true, x, ps, read).value;
    assert ra == f0 * ps + a % ps;
    assert rx == fx * ps + x % ps;
    var k := px - pa;
    assert fx == f0 + k;
    SameDistance(f0, pa, k, ps, a % ps, x % ps);
  }

  /** Moving `k` pages from the same offset pair covers the same distance from any start page. */
  lemma SameDistance(f: int, g: int, k: int, ps: int, ra: int, rx: int)
    ensures ((f + k) * ps + rx) - (f * ps + ra) == ((g + k) * ps + rx) - (g * ps + ra)
  {
    Distrib(f + k, f, ps);
    Distrib(g + k, g, ps);
  }
}
