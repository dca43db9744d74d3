/**
  The u-dma-buf side of memory_utils.c: the id check and attribute order of `mu_get_udmabuf`
  (memory_utils.c:171-182), the sync word `mu_udmabuf_sync_for_cpu` and
  `mu_udmabuf_sync_for_device` pack (memory_utils.c:184-204), and its rendering as
  `0x%08X%08X` (memory_utils.c:152). The sysfs and device files are not opened: each access is
  recorded, and what a read returns or whether a step fails is a parameter.
*/
module Udmabuf {
  import opened Wrappers
  import opened Arith

  type Word32 = bv32

  /** `MU_SYNC_DIRECTION_DMA_BIDIRECTIONAL` (memory_utils.h:17), the only direction used. */
  const Bidirectional: Word32 := 0
  /** `MU_SYNC_MODE_CACHE_ENABLE2` (memory_utils.h:7), written to `sync_mode` in decimal on open. */
  const CacheEnable2: nat := 0
  /** Buffers `udmabuf0` through `udmabuf7` exist. */
  const BufferCount: int := 8

  /** Which way a sync hands the buffer over. */
  datatype SyncTarget = ForCpu | ForDevice

  /** The sysfs attribute a sync writes. */
  function AttributeOf(t: SyncTarget): string {
    match t
    case ForCpu => "sync_for_cpu"
    case ForDevice => "sync_for_device"
  }

  // ---------------------------------------------------------------- sync word

  /** The two 32-bit halves of a sync request: the offset, and the size with its low four bits
      replaced by the direction (bits 2-3) and the enable bit (bit 0). */
  function SyncWords(offset: Word32, size: Word32): (r: (Word32, Word32))
    ensures r.0 == offset
    ensures SizeField(r.1) == size & 0xFFFFFFF0
    ensures DirectionField(r.1) == Bidirectional
    ensures EnableBit(r.1) == 1
  {
    DecodeLower(size);
    (offset & 0xFFFFFFFF, (size & 0xFFFFFFF0) | (Bidirectional << 2) | 1)
  }

  /** The fields the driver reads back out of the lower word. */
  function SizeField(lower: Word32): Word32 { lower & 0xFFFFFFF0 }
  function DirectionField(lower: Word32): Word32 { (lower >> 2) & 3 }
  function EnableBit(lower: Word32): Word32 { lower & 1 }

  /** The lower word is bit 1 clear, and decodes to the size rounded down to a multiple of 16,
      the bidirectional direction and the enable bit set. */
  lemma DecodeLower(size: Word32)
    ensures var lower := (size & 0xFFFFFFF0) | (Bidirectional << 2) | 1;
      && SizeField(lower) == size & 0xFFFFFFF0
      && DirectionField(lower) == Bidirectional
      && EnableBit(lower) == 1
      && (lower >> 1) & 1 == 0
  {
  }

  /** The size survives the packing exactly when it is a multiple of 16. */
  lemma SizeKeptIffAligned(size: Word32)
    ensures size & 0xFFFFFFF0 == size <==> size & 0xF == 0
  {
  }

  // ---------------------------------------------------------------- hex rendering

  function Pow16(w: nat): (p: nat)
    ensures p > 0
  {
    if w == 0 then 1 else 16 * Pow16(w - 1)
  }

  predicate IsUpperHex(c: char) {
    '0' <= c <= '9' || 'A' <= c <= 'F'
  }

  /** The `%X` digit for a value below 16. */
  function HexDigit(d: nat): (c: char)
    requires d < 16
    ensures IsUpperHex(c)
  {
    if d < 10 then (48 + d) as char else (55 + d) as char
  }

  /** The value of a hex digit of either case, or `None` for any other character. */
  function DigitValue(c: char): (r: Option<nat>)
    ensures r.Some? ==> r.value < 16
  {
    if '0' <= c <= '9' then Some(c as nat - 48)
    else if 'A' <= c <= 'F' then Some(c as nat - 55)
    else if 'a' <= c <= 'f' then Some(c as nat - 87)
    else None
  }

  /** `%0wX`: the low `width` hex digits of `n`, most significant first, zero-padded. */
  function Hex(n: nat, width: nat): (s: seq<char>)
    ensures |s| == width
    ensures forall i :: 0 <= i < |s| ==> IsUpperHex(s[i])
  {
    if width == 0 then [] else Hex(n / 16, width - 1) + [HexDigit(n % 16)]
  }

  /** Reads a string of hex digits as a number; `None` if any character is not a digit. */
  function ParseHex(s: seq<char>): (r: Option<nat>)
    ensures r.Some? ==> r.value < Pow16(|s|)
  {
    if |s| == 0 then Some(0)
    else
      match (ParseHex(s[..|s| - 1]), DigitValue(s[|s| - 1]))
      case (Some(p), Some(d)) =>
        MulMono(p + 1, Pow16(|s| - 1), 16);
        Some(p * 16 + d)
      case _ => None
  }

  /** Parsing `Hex(n, width)` gives back `n` modulo `16^width`, that is, all of `n` when it fits. */
  lemma {:induction false} HexRoundTrip(n: nat, width: nat)
    ensures ParseHex(Hex(n, width)) == Some(n % Pow16(width))
  {
    if width > 0 {
      var s := Hex(n, width);
      assert s[..|s| - 1] == Hex(n / 16, width - 1);
      HexRoundTrip(n / 16, width - 1);
      DigitRoundTrip(n % 16);
      ModSplit16(n, Pow16(width - 1));
    }
  }

  lemma DigitRoundTrip(d: nat)
    requires d < 16
    ensures DigitValue(HexDigit(d)) == Some(d)
  {
  }

  /** `%08X` of a 32-bit word. */
  function Hex8(w: Word32): (s: seq<char>)
    ensures |s| == 8 && forall i :: 0 <= i < |s| ==> IsUpperHex(s[i])
  {
    Hex(Nat32(w), 8)
  }

  /** The value of a word, kept behind a function so that proofs about digits need not
      reason about the bit-vector conversion. */
  function Nat32(w: Word32): nat { w as nat }

  /** The text `_write_sync_for` writes: `0x`, then the upper and lower words as eight
      uppercase hex digits each. */
  function RenderSync(upper: Word32, lower: Word32): (s: string)
    ensures |s| == 18 && s[..2] == "0x"
    ensures forall i :: 2 <= i < 18 ==> IsUpperHex(s[i])
  {
    var a := Hex8(upper);
    var b := Hex8(lower);
    PrefixedHex(a, b);
    "0x" + a + b
  }

  /** `0x` followed by two runs of eight hex digits is 18 characters, all digits after the prefix. */
  lemma PrefixedHex(a: seq<char>, b: seq<char>)
    requires |a| == 8 && |b| == 8
    requires forall i :: 0 <= i < |a| ==> IsUpperHex(a[i])
    requires forall i :: 0 <= i < |b| ==> IsUpperHex(b[i])
    ensures var s := "0x" + a + b;
      |s| == 18 && s[..2] == "0x" && forall i :: 2 <= i < 18 ==> IsUpperHex(s[i])
  {
    var s := "0x" + a + b;
    assert s[..2] == "0x";
    assert forall i :: 2 <= i < 10 ==> s[i] == a[i - 2];
    assert forall i :: 10 <= i < 18 ==> s[i] == b[i - 10];
  }

  /** Reads a rendered sync word back: exactly 18 characters, `0x`, and sixteen hex digits. */
  function ParseSync(s: string): Option<(Word32, Word32)>
  {
    if |s| != 18 || s[..2] != "0x" then None
    else
      match (ParseHex(s[2..10]), ParseHex(s[10..18]))
      case (Some(u), Some(l)) =>
        EightDigits();
        Some((u as Word32, l as Word32))
      case _ => None
  }

  /** The rendering is read back to the words it came from. */
  lemma {:induction false} RenderParses(upper: Word32, lower: Word32)
    ensures ParseSync(RenderSync(upper, lower)) == Some((upper, lower))
  {
    var s := RenderSync(upper, lower);
    assert s[2..10] == Hex8(upper) == Hex(upper as nat, 8);
    assert s[10..18] == Hex8(lower) == Hex(lower as nat, 8);
    HexOfWord(upper);
    HexOfWord(lower);
    ParseSyncHalves(s, upper, lower);
  }

  /** Eight hex digits hold a 32-bit word exactly. */
  lemma HexOfWord(w: Word32)
    ensures ParseHex(Hex(w as nat, 8)) == Some(w as nat)
  {
    var n: nat := w as nat;
    WordNat(w);
    HexRoundTrip(n, 8);
    EightDigits();
    DivMod(0, Pow16(8), n);
  }

  lemma WordNat(w: Word32)
    ensures w as nat < 0x1_0000_0000 && (w as nat) as Word32 == w
  {
  }

  lemma EightDigits()
    ensures Pow16(8) == 0x1_0000_0000
  {
  }

  /** `ParseSync` of well-formed text is the pair of its two parsed halves. */
  lemma ParseSyncHalves(s: string, upper: Word32, lower: Word32)
    requires |s| == 18 && s[..2] == "0x"
    requires ParseHex(s[2..10]) == Some(upper as nat) && ParseHex(s[10..18]) == Some(lower as nat)
    ensures ParseSync(s) == Some((upper, lower))
  {
    WordNat(upper);
    WordNat(lower);
  }

  /** Because the width is fixed, distinct word pairs never render to the same text. */
  lemma RenderInjective(u1: Word32, l1: Word32, u2: Word32, l2: Word32)
    ensures RenderSync(u1, l1) == RenderSync(u2, l2) <==> u1 == u2 && l1 == l2
  {
    RenderParses(u1, l1);
    RenderParses(u2, l2);
  }

  // ---------------------------------------------------------------- device access

  /** One file access, in the order the source makes them. */
  datatype Access =
    | ReadAttribute(id: int, name: string)
    | WriteAttribute(id: int, name: string, text: string)
    | OpenDevice(id: int)

  /** Why opening or syncing a buffer fails: an id out of range, or a failed file access. */
  datatype Error = BadId | AccessFailed

  /** An opened buffer: its id, its size and physical address as read from sysfs, and the
      device descriptor. */
  datatype Buffer = Buffer(id: int, size: Word32, physAddr: Word32, fd: int)

  /** The accesses `mu_get_udmabuf` makes, in order, for a valid id. */
  function OpenSequence(id: int): seq<Access> {
    [ReadAttribute(id, "size"), ReadAttribute(id, "phys_addr"),
     WriteAttribute(id, "sync_mode", [('0' as int + CacheEnable2) as char]), OpenDevice(id)]
  }

  /** `mu_get_udmabuf`: rejects an id outside [0, 8) before touching any file; otherwise reads
      `size` and `phys_addr`, writes `sync_mode`, opens the device, and stops at the first step
      that fails. `size` and `phys` are what the reads return (`None`: the read failed),
      `modeOk` whether the write worked, `fd` what the open returned (`None`: it failed). */
  function GetUdmabuf(id: int, size: Option<Word32>, phys: Option<Word32>, modeOk: bool, fd: Option<int>)
    : (r: (Result<Buffer, Error>, seq<Access>))
    ensures !(0 <= id < BufferCount) ==> r.0 == Failure(BadId) && r.1 == []
    ensures 0 <= id < BufferCount ==> 0 < |r.1| <= 4 && r.1 == OpenSequence(id)[..|r.1|]
    ensures r.0.Success? <==> 0 <= id < BufferCount && size.Some? && phys.Some? && modeOk && fd.Some?
    ensures r.0.Success? ==> r.0.value == Buffer(id, size.value, phys.value, fd.value) && r.1 == OpenSequence(id)
    ensures r.0.Failure? && 0 <= id < BufferCount ==> r.0.error == AccessFailed
  {
    var log := OpenSequence(id);
    if !(0 <= id < BufferCount) then (Failure(BadId), [])
    else if size.None? then (Failure(AccessFailed), log[..1])
    else if phys.None? then (Failure(AccessFailed), log[..2])
    else if !modeOk then (Failure(AccessFailed), log[..3])
    else if fd.None? then (Failure(AccessFailed), log)
    else (Success(Buffer(id, size.value, phys.value, fd.value)), log)
  }

  /** `mu_udmabuf_sync_for_cpu` and `mu_udmabuf_sync_for_device`: one write of the rendered
      sync word to the target's attribute; `writeOk` says whether the write worked. */
  function SyncFor(buf: Buffer, target: SyncTarget, offset: Word32, size: Word32, writeOk: bool)
    : (r: (Result<(), Error>, Access))
    ensures r.0.Success? <==> writeOk
    ensures r.1.WriteAttribute? && r.1.id == buf.id && r.1.name == AttributeOf(target)
    ensures ParseSync(r.1.text) == Some(SyncWords(offset, size))
  {
    var (upper, lower) := SyncWords(offset, size);
    RenderParses(upper, lower);
    (if writeOk then Success(()) else Failure(AccessFailed),
     WriteAttribute(buf.id, AttributeOf(target), RenderSync(upper, lower)))
  }

  /** The cpu and device syncs write the same text and differ only in the attribute. */
  lemma SyncTargetsDifferOnlyInName(buf: Buffer, offset: Word32, size: Word32, writeOk: bool)
    ensures SyncFor(buf, ForCpu, offset, size, writeOk).1.text == SyncFor(buf, ForDevice, offset, size, writeOk).1.text
    ensures SyncFor(buf, ForCpu, offset, size, writeOk).1.name != SyncFor(buf, ForDevice, offset, size, writeOk).1.name
  {
  }
}
