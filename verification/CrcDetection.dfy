/** Which corruptions the checksum always detects: the algebra of the bit step. */
module CrcDetection {
  import opened ByteStreams
  import opened Crc32c

  // --- Linearity and invertibility --------------------------------------------------------------

  function Xor(a: bv32, b: bv32): bv32 {
    a ^ b
  }

  lemma BitStepLinear(a: bv32, b: bv32)
    ensures BitStep(a ^ b) == Xor(BitStep(a), BitStep(b))
  {
    if a & 1 == 0 {
      if b & 1 == 0 { assert (a ^ b) & 1 == 0; } else { assert (a ^ b) & 1 == 1; }
    } else {
      assert a & 1 == 1;
      if b & 1 == 0 { assert (a ^ b) & 1 == 1; } else { assert b & 1 == 1; assert (a ^ b) & 1 == 0; }
    }
  }

  lemma BitStepInjective(a: bv32, b: bv32)
    requires BitStep(a) == BitStep(b)
    ensures a == b
  {
  }

  lemma BitStepZero()
    ensures BitStep(0) == 0
  {
  }

  lemma XorIs(c: bv32, d: bv32)
    ensures Xor(c, d) == c ^ d
  {
  }

  lemma FeedNeither(c: bv32, d: bv32)
    ensures Feed(c ^ d, false) == Xor(Feed(c, false), Feed(d, false))
  {
    hide Xor, BitStep;
    BitStepLinear(c, d);
  }

  lemma FeedLeft(c: bv32, d: bv32)
    ensures Feed(c ^ d, true) == Xor(Feed(c, true), Feed(d, false))
  {
    hide Xor, BitStep;
    BitStepLinear(c ^ 1, d);
  }

  lemma FeedRight(c: bv32, d: bv32)
    ensures Feed(c ^ d, true) == Xor(Feed(c, false), Feed(d, true))
  {
    hide Xor, BitStep;
    BitStepLinear(c, d ^ 1);
  }

  lemma FeedBoth(c: bv32, d: bv32)
    ensures Feed(c ^ d, false) == Xor(Feed(c, true), Feed(d, true))
  {
    hide Xor, BitStep;
    BitStepLinear(c ^ 1, d ^ 1);
  }

  lemma FeedLinear(c: bv32, d: bv32, cd: bv32, a: bool, b: bool)
    requires cd == Xor(c, d)
    ensures Feed(cd, a != b) == Xor(Feed(c, a), Feed(d, b))
  {
    hide BitStep, Xor, Feed;
    XorIs(c, d);
    if a {
      if b { FeedBoth(c, d); } else { FeedLeft(c, d); }
    } else {
      if b { FeedRight(c, d); } else { FeedNeither(c, d); }
    }
  }

  lemma FeedZero(c: bv32)
    ensures Feed(c, false) == 0 <==> c == 0
  {
    BitStepZero();
    hide BitStep;
    if Feed(c, false) == 0 {
      BitStepInjective(c, 0);
    }
  }

  /** Where two bit strings differ. */
  function Difference(x: seq<bool>, y: seq<bool>): (d: seq<bool>)
    requires |x| == |y|
  {
    seq(|x|, i requires 0 <= i < |x| => x[i] != y[i])
  }

  /** The register is linear in its start value and its message together. */
  lemma {:induction false} FeedAllLinear(c: bv32, d: bv32, cd: bv32, x: seq<bool>, y: seq<bool>)
    requires |x| == |y| && cd == Xor(c, d)
    ensures FeedAll(cd, Difference(x, y)) == Xor(FeedAll(c, x), FeedAll(d, y))
    decreases |x|
  {
    hide Xor, Feed, Difference;
    DifferenceCons(x, y);
    if x != [] {
      FeedLinear(c, d, cd, x[0], y[0]);
      FeedAllLinear(Feed(c, x[0]), Feed(d, y[0]), Feed(cd, x[0] != y[0]), x[1..], y[1..]);
    }
  }

  lemma DifferenceCons(x: seq<bool>, y: seq<bool>)
    requires |x| == |y|
    ensures |Difference(x, y)| == |x|
    ensures x != [] ==> Difference(x, y)[0] == (x[0] != y[0])
    ensures x != [] ==> Difference(x, y)[1..] == Difference(x[1..], y[1..])
  {
  }

  predicate AllClear(bits: seq<bool>) {
    forall i | 0 <= i < |bits| :: !bits[i]
  }

  /** Feeding zeros neither creates nor erases a difference. */
  lemma {:induction false} FeedZeros(c: bv32, zeros: seq<bool>)
    requires AllClear(zeros)
    ensures FeedAll(c, zeros) == 0 <==> c == 0
    decreases |zeros|
  {
    hide Feed;
    if zeros != [] {
      FeedZero(c);
      FeedZeros(Feed(c, false), zeros[1..]);
    }
  }

  // --- At most 32 bits determine the register they produce --------------------------------------

  function Twice(w: bv32): bv32 {
    w << 1
  }

  function PushBit(b: bool, w: bv32): bv32 {
    if b then (w << 1) | 1 else w << 1
  }

  function Pack(bits: seq<bool>): bv32 {
    if bits == [] then 0 else PushBit(bits[0], Pack(bits[1..]))
  }

  /** The bits above the low `n`. */
  function AboveBits(n: nat): bv32 {
    if n == 0 then 0xFFFF_FFFF else Twice(AboveBits(n - 1))
  }

  function MaskedBits(w: bv32, mask: bv32): bv32 {
    w & mask
  }

  /** `w` fits in its low `n` bits. */
  predicate FitsBits(w: bv32, n: nat) {
    MaskedBits(w, AboveBits(n)) == 0
  }

  predicate Inside(a: bv32, b: bv32) {
    a & b == b
  }

  lemma InsideTwice(a: bv32)
    requires Inside(a, Twice(a))
    ensures Inside(Twice(a), Twice(Twice(a)))
  {
  }

  lemma InsideTrans(a: bv32, b: bv32, c: bv32)
    requires Inside(a, b) && Inside(b, c)
    ensures Inside(a, c)
  {
  }

  lemma InsideFull(a: bv32)
    ensures Inside(0xFFFF_FFFF, a) && Inside(a, a)
  {
  }

  lemma {:induction false} AboveStep(n: nat)
    ensures Inside(AboveBits(n), AboveBits(n + 1))
  {
    hide Inside, Twice;
    if n == 0 {
      InsideFull(AboveBits(1));
    } else {
      AboveStep(n - 1);
      InsideTwice(AboveBits(n - 1));
    }
  }

  lemma {:induction false} AboveNested(n: nat, m: nat)
    requires n <= m
    ensures Inside(AboveBits(n), AboveBits(m))
    decreases m - n
  {
    hide Inside, Twice;
    if n == m {
      InsideFull(AboveBits(n));
    } else {
      AboveNested(n, m - 1);
      AboveStep(m - 1);
      InsideTrans(AboveBits(n), AboveBits(m - 1), AboveBits(m));
    }
  }

  lemma AboveTop()
    ensures AboveBits(31) == 0x8000_0000
  {
    assert AboveBits(8) == 0xFFFF_FF00;
    assert AboveBits(16) == 0xFFFF_0000;
    assert AboveBits(24) == 0xFF00_0000;
  }

  lemma TopPart(w: bv32, mask: bv32)
    requires MaskedBits(w, mask) == 0 && Inside(mask, 0x8000_0000)
    ensures w & 0x8000_0000 == 0
  {
  }

  lemma FitsBitsTop(w: bv32, n: nat)
    requires n <= 31 && FitsBits(w, n)
    ensures w & 0x8000_0000 == 0
  {
    hide Inside, MaskedBits, Twice;
    AboveNested(n, 31);
    AboveTop();
    TopPart(w, AboveBits(n));
  }

  lemma PushSetMask(w: bv32, mask: bv32)
    requires MaskedBits(w, mask) == 0
    ensures MaskedBits((w << 1) | 1, Twice(mask)) == 0
  {
  }

  lemma PushClearMask(w: bv32, mask: bv32)
    requires MaskedBits(w, mask) == 0
    ensures MaskedBits(w << 1, Twice(mask)) == 0
  {
  }

  lemma PushBitFits(b: bool, w: bv32, n: nat)
    requires FitsBits(w, n)
    ensures FitsBits(PushBit(b, w), n + 1)
  {
    hide MaskedBits, Twice;
    if b {
      PushSetMask(w, AboveBits(n));
    } else {
      PushClearMask(w, AboveBits(n));
    }
  }

  lemma {:induction false} PackFits(bits: seq<bool>)
    ensures FitsBits(Pack(bits), |bits|)
    decreases |bits|
  {
    if bits == [] {
    } else {
      hide PushBit, FitsBits;
      PackFits(bits[1..]);
      PushBitFits(bits[0], Pack(bits[1..]), |bits| - 1);
    }
  }

  // The only register that a step takes to `w`, when `w` has its top bit clear.

  lemma OddStep(c: bv32)
    requires c & 1 == 1
    ensures BitStep(c) & 0x8000_0000 == 0x8000_0000
  {
  }

  lemma EvenStep(c: bv32, w: bv32)
    requires c & 1 == 0 && BitStep(c) == w
    ensures w << 1 == c
  {
  }

  lemma Unstep(c: bv32, w: bv32)
    requires BitStep(c) == w && w & 0x8000_0000 == 0
    ensures w << 1 == c
  {
    if c & 1 == 1 {
      OddStep(c);
      assert false;
    }
    assert c & 1 == 0;
    hide BitStep;
    EvenStep(c, w);
  }

  function Flip(c: bv32): bv32 {
    c ^ 1
  }

  lemma FlipTwice(c: bv32)
    ensures Flip(Flip(c)) == c
  {
  }

  lemma FlipDoubled(w: bv32)
    ensures Flip(w << 1) == (w << 1) | 1
  {
  }

  lemma UnstepFlipped(c: bv32, w: bv32)
    requires BitStep(Flip(c)) == w && w & 0x8000_0000 == 0
    ensures c == (w << 1) | 1
  {
    hide BitStep, Flip;
    Unstep(Flip(c), w);
    FlipTwice(c);
    FlipDoubled(w);
  }

  lemma Unfeed(c: bv32, b: bool, w: bv32)
    requires Feed(c, b) == w && w & 0x8000_0000 == 0
    ensures c == PushBit(b, w)
  {
    hide BitStep;
    if b {
      UnstepFlipped(c, w);
    } else {
      Unstep(c, w);
    }
  }

  lemma PushBitZero(b: bool, w: bv32)
    requires PushBit(b, w) == 0 && w & 0x8000_0000 == 0
    ensures !b && w == 0
  {
  }

  /** Running the register backwards from zero spells out the bits that were fed. */
  lemma {:induction false} RunBack(c: bv32, bits: seq<bool>)
    requires |bits| <= 32 && FeedAll(c, bits) == 0
    ensures c == Pack(bits)
    decreases |bits|
  {
    hide Feed, PushBit, FitsBits;
    if bits != [] {
      RunBack(Feed(c, bits[0]), bits[1..]);
      PackFits(bits[1..]);
      FitsBitsTop(Pack(bits[1..]), |bits| - 1);
      Unfeed(c, bits[0], Pack(bits[1..]));
    }
  }

  lemma {:induction false} PackZero(bits: seq<bool>)
    requires |bits| <= 32 && Pack(bits) == 0
    ensures AllClear(bits)
    decreases |bits|
  {
    hide PushBit, FitsBits;
    if bits != [] {
      PackFits(bits[1..]);
      FitsBitsTop(Pack(bits[1..]), |bits| - 1);
      PushBitZero(bits[0], Pack(bits[1..]));
      PackZero(bits[1..]);
      assert forall i | 0 < i < |bits| :: bits[i] == bits[1..][i - 1];
    }
  }

  /** No non-zero string of at most 32 bits takes the zero register to zero. */
  lemma ShortStringDetected(bits: seq<bool>)
    requires |bits| <= 32 && !AllClear(bits)
    ensures FeedAll(0, bits) != 0
  {
    if FeedAll(0, bits) == 0 {
      hide Feed, PushBit;
      RunBack(0, bits);
      PackZero(bits);
    }
  }

  // --- Bursts -----------------------------------------------------------------------------------

  /** `x` and `y` differ, and only within the 32 bits from position `start`. */
  predicate BurstApart(x: seq<bool>, y: seq<bool>, start: nat) {
    && |x| == |y|
    && x != y
    && forall i | 0 <= i < |x| :: x[i] != y[i] ==> start <= i < start + 32
  }

  lemma DifferenceDetected(c: bv32, x: seq<bool>, y: seq<bool>)
    requires |x| == |y| && FeedAll(0, Difference(x, y)) != 0
    ensures FeedAll(c, x) != FeedAll(c, y)
  {
    XorSelf(c);
    FeedAllLinear(c, c, 0, x, y);
    if FeedAll(c, x) == FeedAll(c, y) {
      XorSelf(FeedAll(c, x));
    }
  }

  lemma XorSelf(c: bv32)
    ensures Xor(c, c) == 0
  {
  }

  lemma WindowDetected(before: seq<bool>, window: seq<bool>, after: seq<bool>)
    requires AllClear(before) && AllClear(after) && !AllClear(window) && |window| <= 32
    ensures FeedAll(0, before + (window + after)) != 0
  {
    hide Feed, AllClear;
    FeedAllConcat(0, before, window + after);
    FeedZeros(0, before);
    FeedAllConcat(0, window, after);
    ShortStringDetected(window);
    FeedZeros(FeedAll(0, window), after);
  }

  lemma BurstWindow(x: seq<bool>, y: seq<bool>, start: nat) returns (end: nat)
    requires BurstApart(x, y, start)
    ensures start <= end <= |x| && end - start <= 32
    ensures AllClear(Difference(x, y)[..start]) && AllClear(Difference(x, y)[end..])
    ensures !AllClear(Difference(x, y)[start..end])
  {
    var d := Difference(x, y);
    var k :| 0 <= k < |x| && x[k] != y[k];
    assert d[k];
    end := if start + 32 <= |x| then start + 32 else |x|;
    assert d[start..end][k - start];
  }

  /** Every burst of at most 32 consecutive message bits changes the register. */
  lemma BurstDetected(c: bv32, x: seq<bool>, y: seq<bool>, start: nat)
    requires BurstApart(x, y, start)
    ensures FeedAll(c, x) != FeedAll(c, y)
  {
    var end := BurstWindow(x, y, start);
    hide FeedAll, BurstApart, AllClear;
    var d := Difference(x, y);
    Cut(d, start, end);
    WindowDetected(d[..start], d[start..end], d[end..]);
    DifferenceDetected(c, x, y);
  }

  lemma Cut(d: seq<bool>, start: nat, end: nat)
    requires start <= end <= |d|
    ensures d == d[..start] + (d[start..end] + d[end..])
  {
  }

  // --- Errors of odd weight ---------------------------------------------------------------------

  function Weight(bits: seq<bool>): nat {
    if bits == [] then 0 else (if bits[0] then 1 else 0) + Weight(bits[1..])
  }

  /** Whether the low `n` bits of a word hold an odd number of ones. */
  function Parity(w: bv64, n: nat): bool
    decreases n
  {
    if n == 0 then false else LowBit(w) != Parity(Half(w), n - 1)
  }

  lemma LowMix(a: bv64, b: bv64)
    ensures LowBit(a ^ b) == (LowBit(a) != LowBit(b))
  {
    if a & 1 == 1 {
      if b & 1 == 1 { assert (a ^ b) & 1 == 0; } else { assert b & 1 == 0; assert (a ^ b) & 1 == 1; }
    } else {
      assert a & 1 == 0;
      if b & 1 == 1 { assert (a ^ b) & 1 == 1; } else { assert b & 1 == 0; assert (a ^ b) & 1 == 0; }
    }
  }

  lemma MixIs(a: bv64, b: bv64)
    ensures Mix64(a, b) == a ^ b
  {
  }

  lemma ShiftMix(a: bv64, b: bv64, h: bv64, k: bv64)
    requires h == a >> 1 && k == b >> 1
    ensures (a ^ b) >> 1 == Mix64(h, k)
  {
  }

  lemma HalvesMix(a: bv64, b: bv64, h: bv64, k: bv64)
    requires h == Half(a) && k == Half(b)
    ensures (a ^ b) >> 1 == Mix64(h, k)
  {
    hide Mix64;
    ShiftMix(a, b, h, k);
  }

  lemma HalfMix(a: bv64, b: bv64)
    ensures Half(a ^ b) == Mix64(Half(a), Half(b))
  {
    hide Mix64;
    HalvesMix(a, b, Half(a), Half(b));
  }

  lemma MixStep(a: bv64, b: bv64, ab: bv64)
    requires ab == Mix64(a, b)
    ensures LowBit(ab) == (LowBit(a) != LowBit(b))
    ensures Half(ab) == Mix64(Half(a), Half(b))
  {
    MixIs(a, b);
    hide Half, LowBit, Mix64;
    LowMix(a, b);
    HalfMix(a, b);
  }

  lemma {:induction false} ParityMix(a: bv64, b: bv64, ab: bv64, n: nat)
    requires ab == Mix64(a, b)
    ensures Parity(ab, n) == (Parity(a, n) != Parity(b, n))
    decreases n
  {
    hide Mix64, Half, LowBit;
    if n > 0 {
      MixStep(a, b, ab);
      ParityMix(Half(a), Half(b), Half(ab), n - 1);
    }
  }

  lemma {:induction false} ParitySplit(w: bv64, m: nat, n: nat)
    ensures Parity(w, m + n) == (Parity(w, m) != Parity(Drop(w, m), n))
    decreases m
  {
    hide Half, LowBit;
    if m > 0 {
      ParitySplit(Half(w), m - 1, n);
    }
  }

  /** A register of 32 bits, halved, loses exactly its low bit. */
  lemma ParityHalf(w: bv64)
    requires Drop(w, 32) == 0
    ensures Parity(Half(w), 32) == (Parity(w, 32) != LowBit(w))
  {
    assert !LowBit(0);
    hide Half, LowBit;
    ParitySplit(w, 32, 1);
    assert Parity(w, 33) == (LowBit(w) != Parity(Half(w), 32));
    assert Parity(0, 1) == LowBit(0);
  }

  lemma HighOnce(w: bv64)
    requires w < 0x1_0000_0000
    ensures HighBytes(w) < 0x100_0000
  {
  }

  lemma HighTwice(w: bv64)
    requires w < 0x100_0000
    ensures HighBytes(w) < 0x1_0000
  {
  }

  lemma HighThrice(w: bv64)
    requires w < 0x1_0000
    ensures HighBytes(w) < 0x100
  {
  }

  lemma HighGone(w: bv64)
    requires w < 0x100
    ensures HighBytes(w) == 0
  {
  }

  lemma DropWord(w: bv64)
    requires w < 0x1_0000_0000
    ensures Drop(w, 32) == 0
  {
    var w1 := HighBytes(w);
    var w2 := HighBytes(w1);
    var w3 := HighBytes(w2);
    HighOnce(w);
    HighTwice(w1);
    HighThrice(w2);
    HighGone(w3);
    hide HighBytes, Drop;
    SplitByte(w, 24);
    SplitByte(w1, 16);
    SplitByte(w2, 8);
    SplitByte(w3, 0);
    DropNone(0);
  }

  lemma DropNone(w: bv64)
    ensures Drop(w, 0) == w
  {
  }

  /** The feedback polynomial has an odd number of taps below its leading term. */
  lemma PolynomialParity()
    ensures Parity(0x82F6_3B78, 32)
  {
    assert !Parity(0x82, 8);
    assert !Parity(0x82F6, 16);
    assert Parity(0x82_F63B, 24);
  }

  lemma OddStep64(r: bv64)
    requires LowBit(r)
    ensures BitStep64(r) == Mix64(Half(r), 0x82F6_3B78)
  {
    StepSet(r);
    hide BitStep64, Mix64;
  }

  lemma StepSet(r: bv64)
    requires r & 1 == 1
    ensures BitStep64(r) == Mix64(r >> 1, 0x82F6_3B78)
  {
  }

  lemma EvenStep64(r: bv64)
    requires !LowBit(r)
    ensures BitStep64(r) == Half(r)
  {
    assert r & 1 == 0;
  }

  /** The bit step keeps the parity of the register. */
  lemma StepKeepsParity(c: bv32)
    ensures Parity(Wide(BitStep(c)), 32) == Parity(Wide(c), 32)
  {
    var w := Wide(c);
    Widen(c, w);
    assert w < 0x1_0000_0000;
    DropWord(w);
    hide Wide, BitStep, BitStep64, Half, LowBit, Mix64, Parity;
    ParityHalf(w);
    if LowBit(w) {
      OddStep64(w);
      PolynomialParity();
      ParityMix(Half(w), 0x82F6_3B78, BitStep64(w), 32);
    } else {
      EvenStep64(w);
    }
  }

  lemma FlipParity(c: bv32)
    ensures Parity(Wide(c ^ 1), 32) == !Parity(Wide(c), 32)
  {
    FlipLow(c);
    FlipHalf(c);
    hide LowBit, Half, Wide;
    assert Parity(Wide(c), 32) == (LowBit(Wide(c)) != Parity(Half(Wide(c)), 31));
    assert Parity(Wide(c ^ 1), 32) == (LowBit(Wide(c ^ 1)) != Parity(Half(Wide(c ^ 1)), 31));
  }

  lemma FlipLow(c: bv32)
    ensures LowBit(Wide(c ^ 1)) == !LowBit(Wide(c))
  {
  }

  lemma FlipHalf(c: bv32)
    ensures Half(Wide(c ^ 1)) == Half(Wide(c))
  {
    var h := Half(Wide(c));
    assert h == (c as bv64) >> 1;
    hide Half;
    FlipHalfWord(c, h);
  }

  lemma FlipHalfWord(c: bv32, h: bv64)
    requires h == (c as bv64) >> 1
    ensures Half(Wide(c ^ 1)) == h
  {
    FlipHalfRaw(c, h);
  }

  lemma FlipHalfRaw(c: bv32, h: bv64)
    requires h == (c as bv64) >> 1
    ensures ((c ^ 1) as bv64) >> 1 == h
  {
  }

  /** The parity of the register counts the message's ones. */
  lemma {:induction false} FeedAllParity(c: bv32, bits: seq<bool>)
    ensures Parity(Wide(FeedAll(c, bits)), 32) == (Parity(Wide(c), 32) != (Weight(bits) % 2 == 1))
    decreases |bits|
  {
    hide Parity, Wide, BitStep;
    if bits != [] {
      FeedAllParity(Feed(c, bits[0]), bits[1..]);
      if bits[0] {
        FlipParity(c);
        StepKeepsParity(c ^ 1);
      } else {
        StepKeepsParity(c);
      }
    }
  }

  /** Every error in an odd number of message bits changes the register. */
  lemma OddWeightDetected(c: bv32, x: seq<bool>, y: seq<bool>)
    requires |x| == |y| && Weight(Difference(x, y)) % 2 == 1
    ensures FeedAll(c, x) != FeedAll(c, y)
  {
    FeedAllParity(0, Difference(x, y));
    hide FeedAll;
    DifferenceDetected(c, x, y);
  }

  // --- What this means for payloads -------------------------------------------------------------

  lemma ChecksumsDiffer(a: seq<byte>, b: seq<byte>)
    requires FeedAll(ALL_ONES, BitsOf(a)) != FeedAll(ALL_ONES, BitsOf(b))
    ensures Checksum(a) != Checksum(b)
  {
    hide FeedAll, Update;
    UpdateFeeds(ALL_ONES, a);
    UpdateFeeds(ALL_ONES, b);
    NegationInjective(Update(ALL_ONES, a), Update(ALL_ONES, b));
  }

  lemma NegationInjective(c: bv32, d: bv32)
    requires c != d
    ensures c ^ ALL_ONES != d ^ ALL_ONES
  {
  }

  /** Bit errors confined to 32 consecutive bits of a payload always change its checksum. */
  lemma ChecksumDetectsBurst(a: seq<byte>, b: seq<byte>, start: nat)
    requires BurstApart(BitsOf(a), BitsOf(b), start)
    ensures Checksum(a) != Checksum(b)
  {
    BurstDetected(ALL_ONES, BitsOf(a), BitsOf(b), start);
    ChecksumsDiffer(a, b);
  }

  /** An odd number of bit errors anywhere in a payload always changes its checksum. */
  lemma ChecksumDetectsOddWeight(a: seq<byte>, b: seq<byte>)
    requires |a| == |b| && Weight(Difference(BitsOf(a), BitsOf(b))) % 2 == 1
    ensures Checksum(a) != Checksum(b)
  {
    OddWeightDetected(ALL_ONES, BitsOf(a), BitsOf(b));
    ChecksumsDiffer(a, b);
  }

  lemma {:induction false} BitsOfConcat(a: seq<byte>, b: seq<byte>)
    ensures BitsOf(a + b) == BitsOf(a) + BitsOf(b)
  {
    hide ByteBits;
    if a == [] {
      assert a + b == b;
    } else {
      assert (a + b)[1..] == a[1..] + b;
      BitsOfConcat(a[1..], b);
    }
  }

  lemma HalvesDetermine(w: bv64, v: bv64)
    requires LowBit(w) == LowBit(v) && Half(w) == Half(v)
    ensures w == v
  {
    LowDetermines(w, v);
    hide LowBit;
    HalvesJoin(w, v);
  }

  lemma LowDetermines(w: bv64, v: bv64)
    requires LowBit(w) == LowBit(v)
    ensures w & 1 == v & 1
  {
    if w & 1 != 1 { assert w & 1 == 0; }
    if v & 1 != 1 { assert v & 1 == 0; }
  }

  lemma HalvesJoin(w: bv64, v: bv64)
    requires w & 1 == v & 1 && Half(w) == Half(v)
    ensures w == v
  {
  }

  lemma {:induction false} WordBitsInjective(w: bv64, v: bv64, n: nat)
    requires WordBits(w, n) == WordBits(v, n) && Drop(w, n) == Drop(v, n)
    ensures w == v
    decreases n
  {
    hide LowBit, Half;
    if n > 0 {
      assert WordBits(w, n)[0] == LowBit(w) && WordBits(v, n)[0] == LowBit(v);
      assert WordBits(w, n)[1..] == WordBits(Half(w), n - 1);
      assert WordBits(v, n)[1..] == WordBits(Half(v), n - 1);
      WordBitsInjective(Half(w), Half(v), n - 1);
      HalvesDetermine(w, v);
    }
  }

  lemma ByteBitsInjective(a: byte, b: byte)
    requires ByteBits(a) == ByteBits(b)
    ensures a == b
  {
    ByteDrop(a);
    ByteDrop(b);
    hide WordBits, Drop;
    WordBitsInjective(a as bv64, b as bv64, 8);
  }

  lemma ByteDrop(b: byte)
    ensures Drop(b as bv64, 8) == 0
  {
    HighGone(b as bv64);
    SplitByte(b as bv64, 0);
    DropNone(0);
  }

  lemma {:induction false} BitsOfInjective(a: seq<byte>, b: seq<byte>)
    requires BitsOf(a) == BitsOf(b)
    ensures a == b
    decreases |a|
  {
    hide ByteBits;
    assert |a| == |b|;
    if a != [] {
      assert ByteBits(a[0]) == BitsOf(a)[..8] && ByteBits(b[0]) == BitsOf(b)[..8];
      assert BitsOf(a[1..]) == BitsOf(a)[8..] && BitsOf(b[1..]) == BitsOf(b)[8..];
      ByteBitsInjective(a[0], b[0]);
      BitsOfInjective(a[1..], b[1..]);
      assert a == [a[0]] + a[1..] && b == [b[0]] + b[1..];
    }
  }

  /** Replacing at most four consecutive payload bytes by others always changes the checksum. */
  lemma ChecksumDetectsWindow(before: seq<byte>, u: seq<byte>, v: seq<byte>, after: seq<byte>)
    requires |u| == |v| <= 4 && u != v
    ensures Checksum(before + u + after) != Checksum(before + v + after)
  {
    hide Checksum;
    var x, y := BitsOf(before + u + after), BitsOf(before + v + after);
    BitsOfConcat(before + u, after);
    BitsOfConcat(before, u);
    BitsOfConcat(before + v, after);
    BitsOfConcat(before, v);
    if BitsOf(u) == BitsOf(v) {
      BitsOfInjective(u, v);
    }
    WindowApart(BitsOf(before), BitsOf(u), BitsOf(v), BitsOf(after));
    ChecksumDetectsBurst(before + u + after, before + v + after, |BitsOf(before)|);
  }

  lemma WindowApart(before: seq<bool>, u: seq<bool>, v: seq<bool>, after: seq<bool>)
    requires |u| == |v| <= 32 && u != v
    ensures BurstApart(before + u + after, before + v + after, |before|)
  {
    var x, y := before + u + after, before + v + after;
    assert x[|before|..|before| + |u|] == u && y[|before|..|before| + |v|] == v;
  }

  // --- How far detection goes -------------------------------------------------------------------

  lemma ChecksumsAgree(a: seq<byte>, b: seq<byte>)
    ensures Checksum(a) == Checksum(b) <==> FeedAll(ALL_ONES, BitsOf(a)) == FeedAll(ALL_ONES, BitsOf(b))
  {
    if FeedAll(ALL_ONES, BitsOf(a)) != FeedAll(ALL_ONES, BitsOf(b)) {
      ChecksumsDiffer(a, b);
    } else {
      hide FeedAll, Update;
      UpdateFeeds(ALL_ONES, a);
      UpdateFeeds(ALL_ONES, b);
    }
  }

  /**
   * Exactly when two payloads of equal length share their checksum: feeding their difference to an empty register
   * leaves it empty.
   */
  lemma SameChecksumIff(a: seq<byte>, b: seq<byte>)
    requires |a| == |b|
    ensures Checksum(a) == Checksum(b) <==> FeedAll(0, Difference(BitsOf(a), BitsOf(b))) == 0
  {
    hide FeedAll, Checksum, Difference, Xor;
    var x, y := BitsOf(a), BitsOf(b);
    ChecksumsAgree(a, b);
    XorSelf(ALL_ONES);
    FeedAllLinear(ALL_ONES, ALL_ONES, 0, x, y);
    XorZero(FeedAll(ALL_ONES, x), FeedAll(ALL_ONES, y));
  }

  lemma XorZero(c: bv32, d: bv32)
    ensures Xor(c, d) == 0 <==> c == d
  {
  }

  function Step8(c: bv32): bv32 {
    BitStep(BitStep(BitStep(BitStep(BitStep(BitStep(BitStep(BitStep(c))))))))
  }

  lemma Shift8(c: bv32)
    ensures Shift(c, 8) == Step8(c)
  {
    hide BitStep;
    var d := BitStep(BitStep(BitStep(BitStep(c))));
    assert Shift(c, 8) == Shift(BitStep(BitStep(c)), 6);
    assert Shift(BitStep(BitStep(c)), 6) == Shift(d, 4);
    assert Shift(d, 4) == Shift(BitStep(BitStep(d)), 2);
    assert Shift(BitStep(BitStep(d)), 2) == Shift(Step8(c), 0);
  }

  lemma StepsTo(c: bv32, b: byte, r: bv32)
    requires Step8(c ^ (b as bv32)) == r
    ensures ByteStep(c, b) == r
  {
    hide Step8, BitStep;
    Shift8(c ^ (b as bv32));
  }

  lemma FirstEscape()
    ensures Update(ALL_ONES, [0x00, 0x00, 0x00, 0x00, 0x00]) == 0xBA8D_89CA
  {
    StepsTo(ALL_ONES, 0x00, 0xAD82_ACAE);
    StepsTo(0xAD82_ACAE, 0x00, 0x0E9E_882D);
    StepsTo(0x0E9E_882D, 0x00, 0x9F9B_5C85);
    StepsTo(0x9F9B_5C85, 0x00, 0xB798_B438);
    StepsTo(0xB798_B438, 0x00, 0xBA8D_89CA);
    hide ByteStep;
  }

  lemma SecondEscape()
    ensures Update(ALL_ONES, [0xF1, 0x76, 0xEC, 0x05, 0x01]) == 0xBA8D_89CA
  {
    StepsTo(ALL_ONES, 0xF1, 0xAC87_40D8);
    StepsTo(0xAC87_40D8, 0x76, 0x0E9F_8DC1);
    StepsTo(0x0E9F_8DC1, 0xEC, 0x9F9B_5D80);
    StepsTo(0x9F9B_5D80, 0x05, 0xB798_B439);
    StepsTo(0xB798_B439, 0x01, 0xBA8D_89CA);
    hide ByteStep;
  }

  // --- The value of the checksum ----------------------------------------------------------------

  /** The bytes of a word, least significant first. */
  function LittleEndian(w: bv32): (s: seq<byte>)
    ensures |s| == 4
  {
    [(w & 0xFF) as byte, ((w >> 8) & 0xFF) as byte, ((w >> 16) & 0xFF) as byte, (w >> 24) as byte]
  }

  lemma WordParts(w: bv32, v: bv64)
    requires v == w as bv64
    ensures LowByte(v) == (w & 0xFF) as byte && LowByte(v >> 8) == ((w >> 8) & 0xFF) as byte
    ensures LowByte(v >> 16) == ((w >> 16) & 0xFF) as byte && LowByte(v >> 24) == (w >> 24) as byte
    ensures v >> 32 == 0
  {
  }

  lemma HighParts(v: bv64)
    ensures HighBytes(v) == v >> 8 && HighBytes(v >> 8) == v >> 16
    ensures HighBytes(v >> 16) == v >> 24 && HighBytes(v >> 24) == v >> 32
  {
  }

  lemma LittleEndianIsWord(w: bv32)
    ensures IsWordOf(w as bv64, LittleEndian(w))
  {
    var v, s := w as bv64, LittleEndian(w);
    WordParts(w, v);
    HighParts(v);
    hide LowByte, HighBytes;
    assert s[1..] == [s[1], s[2], s[3]] && s[1..][1..] == [s[2], s[3]] && s[1..][1..][1..] == [s[3]];
    assert IsWordOf(v >> 32, []) && IsWordOf(v >> 24, [s[3]]) && IsWordOf(v >> 16, [s[2], s[3]]);
  }

  /** Four bytes shift out what is left of the register after mixing them in. */
  lemma FourBytes(c: bv32, w: bv32)
    ensures Update(c, LittleEndian(w)) == Shift(Xor(c, w), 32)
  {
    hide Xor, LittleEndian, BitStep, Feed, Update, IsWordOf;
    LittleEndianIsWord(w);
    XorIs(c, w);
    WordFeeds32(c, w, LittleEndian(w));
    UpdateFeeds(c, LittleEndian(w));
  }

  lemma {:induction false} ShiftInjective(a: bv32, b: bv32, n: nat)
    requires Shift(a, n) == Shift(b, n)
    ensures a == b
    decreases n
  {
    hide BitStep;
    if n > 0 {
      ShiftInjective(BitStep(a), BitStep(b), n - 1);
      BitStepInjective(a, b);
    }
  }

  lemma XorCancels(r: bv32, w: bv32)
    ensures Xor(r, Xor(r, w)) == w
  {
  }

  lemma ChecksumIs(data: seq<byte>)
    ensures Checksum(data) == Xor(Update(ALL_ONES, data), ALL_ONES)
  {
    hide Update;
  }

  /** What a message followed by its own checksum leaves in the register. */
  const RESIDUE: bv32 := 0xB798_B438

  lemma ResidueOfOnes()
    ensures Shift(ALL_ONES, 32) == RESIDUE
  {
    StepsTo(ALL_ONES, 0x00, 0xAD82_ACAE);
    StepsTo(0xAD82_ACAE, 0x00, 0x0E9E_882D);
    StepsTo(0x0E9E_882D, 0x00, 0x9F9B_5C85);
    StepsTo(0x9F9B_5C85, 0x00, 0xB798_B438);
    hide ByteStep, Shift;
    assert LittleEndian(0) == [0x00, 0x00, 0x00, 0x00];
    assert Update(ALL_ONES, [0x00, 0x00, 0x00, 0x00]) == RESIDUE;
    FourBytes(ALL_ONES, 0);
    assert Xor(ALL_ONES, 0) == ALL_ONES;
  }

  /**
   * The checksum is the only word that, appended least significant byte first, leaves the residue: this fixes its
   * value for every message.
   */
  lemma ChecksumIff(data: seq<byte>, w: bv32)
    ensures Update(ALL_ONES, data + LittleEndian(w)) == RESIDUE <==> w == Checksum(data)
  {
    hide Update, Checksum, LittleEndian, Xor, Shift;
    var r := Update(ALL_ONES, data);
    ChecksumIs(data);
    UpdateConcat(ALL_ONES, data, LittleEndian(w));
    FourBytes(r, w);
    ResidueOfOnes();
    XorCancels(r, w);
    XorCancels(r, ALL_ONES);
    if Shift(Xor(r, w), 32) == Shift(ALL_ONES, 32) {
      ShiftInjective(Xor(r, w), ALL_ONES, 32);
    }
  }

  /** The checksums of nothing and of five zero bytes. */
  lemma KnownChecksums()
    ensures Checksum([]) == 0 && Checksum([0x00, 0x00, 0x00, 0x00, 0x00]) == 0x4572_7635
  {
    hide ByteStep;
    FirstEscape();
    hide Update;
    EmptyUpdate();
  }

  lemma EmptyUpdate()
    ensures Update(ALL_ONES, []) == ALL_ONES
  {
  }

  // --- Where detection ends ---------------------------------------------------------------------

  /** Four bytes is the limit: two five-byte windows that differ in 33 consecutive bits share their checksum. */
  lemma FiveBytesCanEscape(after: seq<byte>)
    ensures Checksum([0x00, 0x00, 0x00, 0x00, 0x00] + after) == Checksum([0xF1, 0x76, 0xEC, 0x05, 0x01] + after)
  {
    hide Update;
    FirstEscape();
    SecondEscape();
    UpdateConcat(ALL_ONES, [0x00, 0x00, 0x00, 0x00, 0x00], after);
    UpdateConcat(ALL_ONES, [0xF1, 0x76, 0xEC, 0x05, 0x01], after);
  }
}
