/** CRC32C: the bitwise loop, the instruction-based path and the segmented forms. */
module Crc32c {
  import opened ByteStreams

  /** The reflected Castagnoli polynomial (section 12.1 of RFC 3720). */
  const POLY: bv32 := 0x82F6_3B78
  const ALL_ONES: bv32 := 0xFFFF_FFFF

  // --- The checksum as a function -------------------------------------------------------------

  /** One step of the reflected shift register. */
  function BitStep(c: bv32): bv32 {
    (c >> 1) ^ (POLY & (0 - (c & 1)))
  }

  function Shift(c: bv32, n: nat): bv32
    decreases n
  {
    if n == 0 then c else Shift(BitStep(c), n - 1)
  }

  function ByteStep(c: bv32, b: byte): bv32 {
    Shift(c ^ (b as bv32), 8)
  }

  /** The register after `data`, starting from `c`. */
  function Update(c: bv32, data: seq<byte>): bv32
    decreases |data|
  {
    if data == [] then c else Update(ByteStep(c, data[0]), data[1..])
  }

  function Checksum(data: seq<byte>): bv32 {
    Update(ALL_ONES, data) ^ ALL_ONES
  }

  lemma {:induction false} UpdateConcat(c: bv32, a: seq<byte>, b: seq<byte>)
    ensures Update(c, a + b) == Update(Update(c, a), b)
    decreases |a|
  {
    hide ByteStep;
    if a == [] {
      assert a + b == b;
    } else {
      assert (a + b)[1..] == a[1..] + b;
      UpdateConcat(ByteStep(c, a[0]), a[1..], b);
    }
  }

  lemma UpdateSnoc(c: bv32, data: seq<byte>, i: nat)
    requires i < |data|
    ensures Update(c, data[..i + 1]) == ByteStep(Update(c, data[..i]), data[i])
  {
    assert data[..i + 1] == data[..i] + [data[i]];
    UpdateConcat(c, data[..i], [data[i]]);
    assert [data[i]][1..] == [];
  }

  // --- Feeding single bits: the common refinement of every word width ---------------------------

  /** Feeds one message bit into the register. */
  function Feed(c: bv32, b: bool): bv32 {
    if b then BitStep(c ^ 1) else BitStep(c)
  }

  function FeedAll(c: bv32, bits: seq<bool>): bv32
    decreases |bits|
  {
    if bits == [] then c else FeedAll(Feed(c, bits[0]), bits[1..])
  }

  function LowBit(w: bv64): bool {
    w & 1 == 1
  }

  function Half(w: bv64): bv64 {
    w >> 1
  }

  /** The low `n` bits of a word, least significant first. */
  function WordBits(w: bv64, n: nat): (bits: seq<bool>)
    ensures |bits| == n
    decreases n
  {
    if n == 0 then [] else [LowBit(w)] + WordBits(Half(w), n - 1)
  }

  /** The word with its low `n` bits dropped. */
  function Drop(w: bv64, n: nat): bv64
    decreases n
  {
    if n == 0 then w else Drop(Half(w), n - 1)
  }

  function ByteBits(b: byte): seq<bool> {
    WordBits(b as bv64, 8)
  }

  /** A message as its bits in transmission order. */
  function BitsOf(data: seq<byte>): (bits: seq<bool>)
    ensures |bits| == 8 * |data|
  {
    if data == [] then [] else ByteBits(data[0]) + BitsOf(data[1..])
  }

  lemma {:induction false} FeedAllConcat(c: bv32, a: seq<bool>, b: seq<bool>)
    ensures FeedAll(c, a + b) == FeedAll(FeedAll(c, a), b)
    decreases |a|
  {
    hide Feed;
    if a == [] {
      assert a + b == b;
    } else {
      assert (a + b)[1..] == a[1..] + b;
      FeedAllConcat(Feed(c, a[0]), a[1..], b);
    }
  }

  // --- The 64-bit register of the CRC instructions ----------------------------------------------

  function BitStep64(r: bv64): bv64 {
    (r >> 1) ^ ((POLY as bv64) & (0 - (r & 1)))
  }

  function Shift64(r: bv64, n: nat): bv64
    decreases n
  {
    if n == 0 then r else Shift64(BitStep64(r), n - 1)
  }

  function Mix64(r: bv64, w: bv64): bv64 {
    r ^ w
  }

  /** The register holding the CRC with a message word xor-ed in. */
  function Inject(c: bv32, w: bv64): bv64 {
    (c as bv64) ^ w
  }

  function Wide(c: bv32): bv64 {
    c as bv64
  }

  function Narrow(r: bv64): bv32 {
    (r & 0xFFFF_FFFF) as bv32
  }

  /** `_mm_crc32_u8`, `_mm_crc32_u32`, `_mm_crc32_u64`: xor the whole word in, then shift it out. */
  function CrcU8(c: bv32, v: byte): bv32 {
    Narrow(Shift64(Inject(c, v as bv64), 8))
  }

  function CrcU32(c: bv32, v: bv64): bv32 {
    Narrow(Shift64(Inject(c, v), 32))
  }

  function CrcU64(c: bv64, v: bv64): bv64 {
    Shift64(Mix64(c, v), 64)
  }

  lemma PeelOdd(c: bv32, w: bv64)
    requires w & 1 == 1
    ensures BitStep64((c as bv64) ^ w) == Inject(BitStep(c ^ 1), w >> 1)
  {
  }

  lemma PeelEven(c: bv32, w: bv64)
    requires w & 1 == 0
    ensures BitStep64((c as bv64) ^ w) == Inject(BitStep(c), w >> 1)
  {
  }

  /** Shifting out one bit of a word xor-ed in is feeding that bit. */
  lemma Peel(c: bv32, w: bv64)
    ensures BitStep64(Inject(c, w)) == Inject(Feed(c, LowBit(w)), Half(w))
  {
    assert Inject(c, w) == (c as bv64) ^ w;
    hide BitStep64, BitStep, Inject;
    if w & 1 == 1 {
      PeelOdd(c, w);
    } else {
      assert w & 1 == 0;
      PeelEven(c, w);
    }
  }

  lemma {:induction false} ShiftFeeds(c: bv32, w: bv64, n: nat)
    ensures Shift64(Inject(c, w), n) == Inject(FeedAll(c, WordBits(w, n)), Drop(w, n))
    decreases n
  {
    hide BitStep64, Feed, Inject, LowBit, Half;
    if n > 0 {
      Peel(c, w);
      var bits := WordBits(w, n);
      assert bits[0] == LowBit(w) && bits[1..] == WordBits(Half(w), n - 1);
      ShiftFeeds(Feed(c, bits[0]), Half(w), n - 1);
    }
  }

  // --- Words are their bytes, least significant first -------------------------------------------

  function LowByte(w: bv64): byte {
    (w & 0xFF) as byte
  }

  function HighBytes(w: bv64): bv64 {
    w >> 8
  }

  lemma EightHalves(w: bv64)
    ensures Half(Half(Half(Half(Half(Half(Half(Half(w)))))))) == HighBytes(w)
  {
  }

  lemma SplitByte(w: bv64, n: nat)
    ensures Drop(w, 8 + n) == Drop(HighBytes(w), n)
    ensures WordBits(w, 8 + n) == WordBits(w, 8) + WordBits(HighBytes(w), n)
  {
    EightHalves(w);
    hide Half, HighBytes, LowBit;
    SplitBits(w, 8, n);
  }

  /** The word after dropping `m` bits one at a time, the rest following. */
  lemma {:induction false} SplitBits(w: bv64, m: nat, n: nat)
    ensures Drop(w, m + n) == Drop(Drop(w, m), n)
    ensures WordBits(w, m + n) == WordBits(w, m) + WordBits(Drop(w, m), n)
    decreases m
  {
    hide Half, LowBit;
    if m > 0 {
      SplitBits(Half(w), m - 1, n);
      var rest := WordBits(Half(w), m - 1);
      assert WordBits(w, m) == [LowBit(w)] + rest;
      assert WordBits(w, m + n) == [LowBit(w)] + WordBits(Half(w), m - 1 + n);
    }
  }

  /** Two words with the same low byte have the same first eight bits. */
  lemma LowByteBits(w: bv64)
    ensures WordBits(w, 8) == ByteBits(LowByte(w))
  {
    var v := LowByte(w) as bv64;
    assert w & 1 == v & 1;
    assert (w >> 1) & 1 == (v >> 1) & 1;
  }

  /** `w` is the little-endian word of the bytes `s`. */
  predicate IsWordOf(w: bv64, s: seq<byte>)
    decreases |s|
  {
    if s == [] then w == 0 else LowByte(w) == s[0] && IsWordOf(HighBytes(w), s[1..])
  }

  lemma {:induction false} WordIsBytes(w: bv64, s: seq<byte>)
    requires IsWordOf(w, s)
    ensures WordBits(w, 8 * |s|) == BitsOf(s)
    ensures Drop(w, 8 * |s|) == 0
    decreases |s|
  {
    if s != [] {
      LowByteBits(w);
      hide LowByte, HighBytes, ByteBits, LowBit, Half;
      SplitByte(w, 8 * |s[1..]|);
      WordIsBytes(HighBytes(w), s[1..]);
      assert 8 * |s| == 8 + 8 * |s[1..]|;
    }
  }

  lemma Widen(c: bv32, r: bv64)
    requires r == c as bv64
    ensures BitStep64(r) == BitStep(c) as bv64
  {
    WidenWord(c);
    hide BitStep, BitStep64;
  }

  lemma WidenWord(c: bv32)
    ensures BitStep64(c as bv64) == BitStep(c) as bv64
  {
  }

  /** The 32-bit register is the 64-bit one with an empty upper half. */
  lemma {:induction false} WidenShift(c: bv32, r: bv64, n: nat)
    requires r == c as bv64
    ensures Shift64(r, n) == Wide(Shift(c, n))
    decreases n
  {
    if n > 0 {
      Widen(c, r);
      var c', r' := BitStep(c), BitStep64(r);
      assert r' == c' as bv64;
      hide BitStep, BitStep64;
      WidenShift(c', r', n - 1);
    }
  }

  lemma InjectZero(c: bv32)
    ensures Inject(c, 0) == Wide(c)
  {
  }

  /** Xor-ing a word of message bytes in and shifting it out is feeding the bytes' bits. */
  lemma WordFeeds(c: bv32, w: bv64, s: seq<byte>)
    requires IsWordOf(w, s)
    ensures Shift64(Inject(c, w), 8 * |s|) == Wide(FeedAll(c, BitsOf(s)))
  {
    hide Inject, Wide, Feed, BitStep64;
    ShiftFeeds(c, w, 8 * |s|);
    WordIsBytes(w, s);
    InjectZero(FeedAll(c, BitsOf(s)));
  }

  lemma WordFeeds32(c: bv32, v: bv32, s: seq<byte>)
    requires IsWordOf(v as bv64, s)
    ensures Shift(c ^ v, 8 * |s|) == FeedAll(c, BitsOf(s))
  {
    var r := Inject(c, v as bv64);
    assert r == (c ^ v) as bv64;
    hide Inject, Feed, BitStep64, BitStep, IsWordOf;
    WordFeeds(c, v as bv64, s);
    WidenShift(c ^ v, r, 8 * |s|);
    NarrowWide(Shift(c ^ v, 8 * |s|));
    NarrowWide(FeedAll(c, BitsOf(s)));
    hide Wide, Narrow;
  }

  lemma ByteIsWord(b: byte)
    ensures IsWordOf((b as bv32) as bv64, [b])
  {
    assert HighBytes((b as bv32) as bv64) == 0;
    assert IsWordOf(0, [b][1..]);
  }

  lemma ByteFeeds(c: bv32, b: byte)
    ensures ByteStep(c, b) == FeedAll(c, ByteBits(b))
  {
    hide Feed, BitStep, ByteBits, IsWordOf, Shift;
    assert BitsOf([b]) == ByteBits(b);
    ByteIsWord(b);
    WordFeeds32(c, b as bv32, [b]);
  }

  /** The byte-wise update is the bit-wise one: message bits enter least significant first. */
  lemma {:induction false} UpdateFeeds(c: bv32, data: seq<byte>)
    ensures Update(c, data) == FeedAll(c, BitsOf(data))
    decreases |data|
  {
    hide ByteStep, ByteBits, Feed;
    if data != [] {
      ByteFeeds(c, data[0]);
      FeedAllConcat(c, ByteBits(data[0]), BitsOf(data[1..]));
      UpdateFeeds(ByteStep(c, data[0]), data[1..]);
    }
  }

  function PushByte(b: byte, w: bv64): bv64 {
    (b as bv64) | (w << 8)
  }

  /** What `memcpy` of `s` into a machine word yields on a little-endian machine. */
  function Load(s: seq<byte>): bv64
    requires |s| <= 8
  {
    if s == [] then 0 else PushByte(s[0], Load(s[1..]))
  }

  /** The bits above the low `n` bytes. */
  function AboveBytes(n: nat): bv64 {
    if n == 0 then 0xFFFF_FFFF_FFFF_FFFF else AboveBytes(n - 1) << 8
  }

  /** `w` fits in its low `n` bytes. */
  predicate Fits(w: bv64, n: nat) {
    Masked(w, AboveBytes(n)) == 0
  }

  function Masked(w: bv64, mask: bv64): bv64 {
    w & mask
  }

  lemma AboveBytesTop(n: nat)
    requires n <= 7
    ensures AboveBytes(n) & 0xFF00_0000_0000_0000 == 0xFF00_0000_0000_0000
  {
    assert AboveBytes(1) == 0xFFFF_FFFF_FFFF_FF00;
    assert AboveBytes(2) == 0xFFFF_FFFF_FFFF_0000;
    assert AboveBytes(3) == 0xFFFF_FFFF_FF00_0000;
    assert AboveBytes(4) == 0xFFFF_FFFF_0000_0000;
    assert AboveBytes(5) == 0xFFFF_FF00_0000_0000;
    assert AboveBytes(6) == 0xFFFF_0000_0000_0000;
    assert AboveBytes(7) == 0xFF00_0000_0000_0000;
  }

  lemma PushWord(b: byte, w: bv64)
    requires w & 0xFF00_0000_0000_0000 == 0
    ensures LowByte(PushByte(b, w)) == b && HighBytes(PushByte(b, w)) == w
  {
  }

  lemma PushMask(b: byte, w: bv64, above: bv64)
    requires w & above == 0
    ensures Masked(PushByte(b, w), above << 8) == 0
  {
  }

  lemma MaskPart(w: bv64, mask: bv64, part: bv64)
    requires w & mask == 0 && mask & part == part
    ensures w & part == 0
  {
  }

  lemma FitsTop(w: bv64, n: nat)
    requires n <= 7 && Fits(w, n)
    ensures w & 0xFF00_0000_0000_0000 == 0
  {
    AboveBytesTop(n);
    MaskPart(w, AboveBytes(n), 0xFF00_0000_0000_0000);
    hide AboveBytes;
  }

  lemma PushFits(b: byte, w: bv64, n: nat)
    requires n <= 7 && Fits(w, n)
    ensures Fits(PushByte(b, w), n + 1)
  {
    var above := AboveBytes(n);
    assert AboveBytes(n + 1) == above << 8;
    assert w & above == 0;
    hide PushByte, AboveBytes, Masked;
    PushMask(b, w, above);
  }

  lemma {:induction false} LoadIsWord(s: seq<byte>)
    requires |s| <= 8
    ensures IsWordOf(Load(s), s) && Fits(Load(s), |s|)
    decreases |s|
  {
    if s != [] {
      hide LowByte, HighBytes, PushByte, Fits;
      LoadIsWord(s[1..]);
      FitsTop(Load(s[1..]), |s| - 1);
      PushWord(s[0], Load(s[1..]));
      PushFits(s[0], Load(s[1..]), |s| - 1);
    }
  }

  lemma NarrowWide(c: bv32)
    ensures Narrow(Wide(c)) == c
  {
  }

  lemma CrcU8IsUpdate(c: bv32, b: byte)
    ensures CrcU8(c, b) == ByteStep(c, b)
  {
    assert (b as bv32) as bv64 == b as bv64;
    ByteIsWord(b);
    hide Narrow, Wide, IsWordOf, Shift64, BitStep64, Feed, Inject, BitsOf, ByteStep;
    WordFeeds(c, b as bv64, [b]);
    UpdateFeeds(c, [b]);
    NarrowWide(Update(c, [b]));
    assert Update(c, [b]) == ByteStep(c, b);
  }

  lemma CrcU32IsUpdate(c: bv32, s: seq<byte>)
    requires |s| == 4
    ensures CrcU32(c, Load(s)) == Update(c, s)
  {
    hide Load, Narrow, Wide, IsWordOf, Shift64, BitStep64, Feed, Inject, BitsOf;
    LoadIsWord(s);
    WordFeeds(c, Load(s), s);
    UpdateFeeds(c, s);
    NarrowWide(Update(c, s));
  }

  lemma MixIsInject(c: bv32, w: bv64)
    ensures Mix64(Wide(c), w) == Inject(c, w)
  {
  }

  lemma CrcU64IsUpdate(c: bv32, s: seq<byte>)
    requires |s| == 8
    ensures CrcU64(Wide(c), Load(s)) == Wide(Update(c, s))
  {
    hide Load, Wide, IsWordOf, Shift64, BitStep64, Feed, Mix64, Inject, BitsOf;
    LoadIsWord(s);
    MixIsInject(c, Load(s));
    WordFeeds(c, Load(s), s);
    UpdateFeeds(c, s);
  }

  // --- The implementations ----------------------------------------------------------------------

  lemma MaskedStep(c: bv32, mask: bv32, next: bv32)
    requires mask == 0 - (c & 1) && next == (c >> 1) ^ (POLY & mask)
    ensures next == BitStep(c)
  {
  }

  /** The portable loop. */
  method Software(crc: bv32, data: seq<byte>) returns (c: bv32)
    ensures c == Update(crc, data)
  {
    hide BitStep;
    c := crc;
    assert data[..0] == [];
    for k := 0 to |data|
      invariant c == Update(crc, data[..k])
    {
      ghost var start := c;
      c := c ^ (data[k] as bv32);
      for i := 0 to 8
        invariant Shift(c, 8 - i) == ByteStep(start, data[k])
      {
        var mask := 0 - (c & 1);
        MaskedStep(c, mask, (c >> 1) ^ (POLY & mask));
        c := (c >> 1) ^ (POLY & mask);
      }
      UpdateSnoc(crc, data, k);
    }
    assert data[..|data|] == data;
  }

  lemma StepU8(crc: bv32, data: seq<byte>, ptr: nat)
    requires ptr < |data|
    ensures CrcU8(Update(crc, data[..ptr]), data[ptr]) == Update(crc, data[..ptr + 1])
  {
    hide CrcU8, ByteStep, Update;
    CrcU8IsUpdate(Update(crc, data[..ptr]), data[ptr]);
    UpdateSnoc(crc, data, ptr);
  }

  lemma StepU32(crc: bv32, data: seq<byte>, ptr: nat)
    requires ptr + 4 <= |data|
    ensures CrcU32(Update(crc, data[..ptr]), Load(data[ptr..ptr + 4])) == Update(crc, data[..ptr + 4])
  {
    hide CrcU32, Load, Update;
    CrcU32IsUpdate(Update(crc, data[..ptr]), data[ptr..ptr + 4]);
    UpdateConcat(crc, data[..ptr], data[ptr..ptr + 4]);
    assert data[..ptr + 4] == data[..ptr] + data[ptr..ptr + 4];
  }

  lemma StepU64(crc: bv32, data: seq<byte>, ptr: nat)
    requires ptr + 8 <= |data|
    ensures CrcU64(Wide(Update(crc, data[..ptr])), Load(data[ptr..ptr + 8])) == Wide(Update(crc, data[..ptr + 8]))
  {
    hide CrcU64, Wide, Load, Update;
    CrcU64IsUpdate(Update(crc, data[..ptr]), data[ptr..ptr + 8]);
    UpdateConcat(crc, data[..ptr], data[ptr..ptr + 8]);
    assert data[..ptr + 8] == data[..ptr] + data[ptr..ptr + 8];
  }

  /** The 64-bit part of the hardware path: bytes up to an 8-byte boundary, then whole words. */
  method HardwareWords(crc: bv32, data: seq<byte>, address: nat) returns (c: bv32, ptr: nat)
    ensures ptr <= |data| && |data| - ptr < 8 && c == Update(crc, data[..ptr])
  {
    c, ptr := crc, 0;
    assert c == Update(crc, data[..0]);
    hide CrcU8, CrcU64, Load, Wide, Narrow, Update;
    while ptr != |data| && (address + ptr) % 8 != 0
      invariant ptr <= |data| && c == Update(crc, data[..ptr])
    {
      StepU8(crc, data, ptr);
      c := CrcU8(c, data[ptr]);
      ptr := ptr + 1;
    }
    var c64 := Wide(c);
    while |data| - ptr >= 8
      invariant ptr <= |data| && c64 == Wide(Update(crc, data[..ptr]))
    {
      StepU64(crc, data, ptr);
      c64 := CrcU64(c64, Load(data[ptr..ptr + 8]));
      ptr := ptr + 8;
    }
    NarrowWide(Update(crc, data[..ptr]));
    c := Narrow(c64);
  }

  /** The path over the CRC instructions; `address` is where the data starts in memory. */
  method Hardware(crc: bv32, data: seq<byte>, address: nat, is64Bit: bool) returns (c: bv32)
    ensures c == Update(crc, data)
  {
    c := crc;
    assert c == Update(crc, data[..0]);
    hide CrcU8, CrcU32, Load, Update;
    var ptr: nat := 0;
    if is64Bit {
      c, ptr := HardwareWords(crc, data, address);
    }
    while |data| - ptr >= 4
      invariant ptr <= |data| && c == Update(crc, data[..ptr])
    {
      StepU32(crc, data, ptr);
      c := CrcU32(c, Load(data[ptr..ptr + 4]));
      ptr := ptr + 4;
    }
    while ptr != |data|
      invariant ptr <= |data| && c == Update(crc, data[..ptr])
    {
      StepU8(crc, data, ptr);
      c := CrcU8(c, data[ptr]);
      ptr := ptr + 1;
    }
    assert data[..ptr] == data;
  }

  /** A span of memory: its start address and its bytes. */
  datatype Span = Span(address: nat, data: seq<byte>)

  /** The checksum of one span, whichever path the processor allows. */
  method OfSpan(span: Span, sse4: bool, is64Bit: bool) returns (c: bv32)
    ensures c == Checksum(span.data)
  {
    if sse4 {
      c := Hardware(ALL_ONES, span.data, span.address, is64Bit);
    } else {
      c := Software(ALL_ONES, span.data);
    }
    c := c ^ ALL_ONES;
  }

  function Datas(spans: seq<Span>): (datas: seq<seq<byte>>)
  {
    seq(|spans|, i requires 0 <= i < |spans| => spans[i].data)
  }

  /** The checksum of a list of spans is that of their concatenation. */
  method OfSpans(spans: seq<Span>, sse4: bool, is64Bit: bool) returns (c: bv32)
    ensures c == Checksum(Concat(Datas(spans)))
  {
    hide ByteStep;
    c := ALL_ONES;
    for k := 0 to |spans|
      invariant c == Update(ALL_ONES, Concat(Datas(spans[..k])))
    {
      UpdateConcat(ALL_ONES, Concat(Datas(spans[..k])), spans[k].data);
      assert Datas(spans[..k + 1]) == Datas(spans[..k]) + [spans[k].data];
      ConcatSnoc(Datas(spans[..k]), spans[k].data);
      if sse4 {
        c := Hardware(c, spans[k].data, spans[k].address, is64Bit);
      } else {
        c := Software(c, spans[k].data);
      }
    }
    assert spans[..|spans|] == spans;
    c := c ^ ALL_ONES;
  }

  /** The checksum of a gather list over `mem`. */
  method OfIoVecs(mem: seq<byte>, iov: seq<IoVec>, sse4: bool, is64Bit: bool) returns (c: bv32)
    requires InBounds(mem, iov)
    ensures c == Checksum(Gather(mem, iov))
  {
    var tmp: seq<Span> := [];
    for k := 0 to |iov|
      invariant Concat(Datas(tmp)) == Gather(mem, iov[..k])
    {
      var part := mem[iov[k].base..iov[k].base + iov[k].len];
      GatherSnoc(mem, iov[..k], iov[k]);
      assert iov[..k + 1] == iov[..k] + [iov[k]];
      assert Datas(tmp + [Span(iov[k].base, part)]) == Datas(tmp) + [part];
      ConcatSnoc(Datas(tmp), part);
      tmp := tmp + [Span(iov[k].base, part)];
    }
    assert iov[..|iov|] == iov;
    c := OfSpans(tmp, sse4, is64Bit);
  }
}
