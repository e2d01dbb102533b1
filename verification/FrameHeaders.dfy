/** The 16-byte frame header: big-endian 32-bit fields. */
module FrameHeaders {
  import opened ByteStreams
  import opened Numbers

  const MAGIC: nat := 0x5A50_5254
  const WIRE_SIZE: nat := 16
  const U32_LIMIT: nat := 0x1_0000_0000

  const MAGIC_AT: nat := 0
  const SIZE_AT: nat := 8
  const CRC_AT: nat := 12

  /** The bytes of a 32-bit word, most significant first. */
  function WordBytes(w: bv32): (s: seq<byte>)
    ensures |s| == 4
  {
    [(w >> 24) as byte, ((w >> 16) & 0xFF) as byte, ((w >> 8) & 0xFF) as byte, (w & 0xFF) as byte]
  }

  /** The value of a 32-bit word as a number. */
  function WordValue(w: bv32): (n: nat)
    ensures n < U32_LIMIT
  {
    BigEndianBound(WordBytes(w));
    WordPower();
    BigEndian(WordBytes(w))
  }

  /** Four bytes, most significant first, as a sum. */
  function Sum4(b0: byte, b1: byte, b2: byte, b3: byte): nat {
    0x100_0000 * ValueOf(b0) + 0x1_0000 * ValueOf(b1) + 0x100 * ValueOf(b2) + ValueOf(b3)
  }

  lemma JoinedSum(b0: byte, b1: byte, b2: byte, b3: byte, w: bv32)
    requires w == ((b0 as bv32) << 24) | ((b1 as bv32) << 16) | ((b2 as bv32) << 8) | (b3 as bv32)
    ensures w as int == 0x100_0000 * (b0 as int) + 0x1_0000 * (b1 as int) + 0x100 * (b2 as int) + (b3 as int)
  {
  }

  /** The four bytes of a word sum up to it. */
  lemma WordSum(w: bv32, b0: byte, b1: byte, b2: byte, b3: byte)
    requires b0 == (w >> 24) as byte && b1 == ((w >> 16) & 0xFF) as byte
    requires b2 == ((w >> 8) & 0xFF) as byte && b3 == (w & 0xFF) as byte
    ensures w as int == 0x100_0000 * (b0 as int) + 0x1_0000 * (b1 as int) + 0x100 * (b2 as int) + (b3 as int)
  {
    JoinedSum(b0, b1, b2, b3, w);
  }

  lemma BigEndianSum(s: seq<byte>)
    requires |s| == 4
    ensures BigEndian(s) == Sum4(s[0], s[1], s[2], s[3])
  {
    hide ValueOf;
    assert s[..3][..2] == s[..2] && s[..3][..2][..1] == s[..1] && s[..1][..0] == [];
    assert BigEndian(s[..1]) == ValueOf(s[0]);
    assert BigEndian(s[..2]) == 0x100 * ValueOf(s[0]) + ValueOf(s[1]);
  }

  /** The value of a word is its value: the bytes are in order. */
  lemma WordValueIs(w: bv32)
    ensures WordValue(w) == w as int
  {
    hide BigEndian;
    var s := WordBytes(w);
    WordSum(w, s[0], s[1], s[2], s[3]);
    hide WordBytes;
    BigEndianSum(s);
  }

  lemma WordBytesInjective(v: bv32, w: bv32)
    requires WordBytes(v) == WordBytes(w)
    ensures v == w
  {
    var s, t := WordBytes(v), WordBytes(w);
    assert s[0] == t[0] && s[1] == t[1] && s[2] == t[2] && s[3] == t[3];
  }

  lemma WordValueInjective(v: bv32, w: bv32)
    requires WordValue(v) == WordValue(w)
    ensures v == w
  {
    hide WordBytes;
    BigEndianInjective(WordBytes(v), WordBytes(w));
    WordBytesInjective(v, w);
  }

  /** A number as four bytes, most significant first. */
  function PutU32(v: nat): (s: seq<byte>)
    requires v < U32_LIMIT
    ensures |s| == 4
  {
    PutBigEndian(v, 4)
  }

  /** The big-endian number at `at`. */
  function GetU32(s: seq<byte>, at: nat): (v: nat)
    requires at + 4 <= |s|
    ensures v < U32_LIMIT
  {
    BigEndianBound(s[at..at + 4]);
    WordPower();
    BigEndian(s[at..at + 4])
  }

  lemma GetPut(v: nat, s: seq<byte>, at: nat)
    requires v < U32_LIMIT && at + 4 <= |s| && s[at..at + 4] == PutU32(v)
    ensures GetU32(s, at) == v
  {
    WordPower();
    PutReads(v, 4);
  }

  /** A new header object: the magic, and zeros. */
  const BLANK_HEADER: seq<byte> := [0x5A, 0x50, 0x52, 0x54, 0, 0, 0, 0, 0, 0, 0, 0, 0, 0, 0, 0]

  /** The header the transmitter sends: magic, no flags, size, checksum. */
  function Encode(size: nat, crc: nat): (h: seq<byte>)
    requires size < U32_LIMIT && crc < U32_LIMIT
    ensures |h| == WIRE_SIZE
  {
    BLANK_HEADER[..SIZE_AT] + PutU32(size) + PutU32(crc)
  }

  lemma ByteLiterals()
    ensures ByteOf(0x5A) == 0x5A && ByteOf(0x50) == 0x50 && ByteOf(0x52) == 0x52 && ByteOf(0x54) == 0x54
  {
  }

  /** The four digits of a 32-bit number. */
  lemma PutDigits(v: nat)
    requires v < U32_LIMIT
    ensures PutU32(v) == [ByteOf(v / 0x100 / 0x100 / 0x100 % 0x100), ByteOf(v / 0x100 / 0x100 % 0x100),
                          ByteOf(v / 0x100 % 0x100), ByteOf(v % 0x100)]
  {
    hide ByteOf;
    assert PutBigEndian(v, 4) == PutBigEndian(v / 0x100, 3) + [ByteOf(v % 0x100)];
    assert PutBigEndian(v / 0x100, 3) == PutBigEndian(v / 0x100 / 0x100, 2) + [ByteOf(v / 0x100 % 0x100)];
    assert PutBigEndian(v / 0x100 / 0x100 / 0x100, 1) == [ByteOf(v / 0x100 / 0x100 / 0x100 % 0x100)];
  }

  lemma MagicBytes()
    ensures PutU32(MAGIC) == [0x5A, 0x50, 0x52, 0x54]
  {
    hide ByteOf;
    ByteLiterals();
    PutDigits(MAGIC);
    hide PutU32;
  }

  predicate MagicValid(h: seq<byte>)
    requires |h| == WIRE_SIZE
  {
    GetU32(h, MAGIC_AT) == MAGIC
  }

  function SizeOf(h: seq<byte>): nat
    requires |h| == WIRE_SIZE
  {
    GetU32(h, SIZE_AT)
  }

  function CrcOf(h: seq<byte>): nat
    requires |h| == WIRE_SIZE
  {
    GetU32(h, CRC_AT)
  }

  /** Every field survives the trip through the wire format. */
  lemma EncodeDecodes(size: nat, crc: nat)
    requires size < U32_LIMIT && crc < U32_LIMIT
    ensures MagicValid(Encode(size, crc))
    ensures SizeOf(Encode(size, crc)) == size && CrcOf(Encode(size, crc)) == crc
  {
    var h := Encode(size, crc);
    hide PutU32, GetU32;
    MagicBytes();
    assert h[0..4] == PutU32(MAGIC) && h[8..12] == PutU32(size) && h[12..16] == PutU32(crc);
    GetPut(MAGIC, h, MAGIC_AT);
    GetPut(size, h, SIZE_AT);
    GetPut(crc, h, CRC_AT);
  }

  /** A magic number is valid exactly if it is the first four bytes. */
  lemma MagicValidIff(h: seq<byte>)
    requires |h| == WIRE_SIZE
    ensures MagicValid(h) <==> h[..4] == [0x5A, 0x50, 0x52, 0x54]
  {
    MagicBytes();
    WordPower();
    PutReads(MAGIC, 4);
    assert h[0..4] == h[..4] && |PutU32(MAGIC)| == 4;
    hide BigEndian, PutBigEndian;
    if MagicValid(h) {
      BigEndianInjective(h[..4], PutU32(MAGIC));
    }
  }

  /** Size and checksum are the numbers at 8 and at 12, most significant byte first; no other byte matters to them. */
  lemma FieldsAre(h: seq<byte>)
    requires |h| == WIRE_SIZE
    ensures SizeOf(h) == Sum4(h[8], h[9], h[10], h[11])
    ensures CrcOf(h) == Sum4(h[12], h[13], h[14], h[15])
  {
    hide BigEndian, Sum4;
    BigEndianSum(h[8..12]);
    BigEndianSum(h[12..16]);
  }

  /** A word goes out most significant byte first. */
  lemma PutWord(w: bv32)
    ensures PutU32(WordValue(w)) == [(w >> 24) as byte, ((w >> 16) & 0xFF) as byte, ((w >> 8) & 0xFF) as byte,
                                     (w & 0xFF) as byte]
  {
    WordPower();
    PutReads(WordValue(w), 4);
    assert WordBytes(w) == [(w >> 24) as byte, ((w >> 16) & 0xFF) as byte, ((w >> 8) & 0xFF) as byte,
                            (w & 0xFF) as byte];
    hide BigEndian, PutBigEndian, WordBytes;
    BigEndianInjective(PutU32(WordValue(w)), WordBytes(w));
  }

  /** The header object: sixteen bytes edited in place. */
  class FrameHeader {
    const data: array<byte>

    ghost predicate Valid()
      reads this
    {
      data.Length == WIRE_SIZE
    }

    constructor ()
      ensures Valid() && fresh(data)
      ensures data[..] == BLANK_HEADER
    {
      data := new byte[WIRE_SIZE](_ => 0);
      new;
      SetU32(MAGIC_AT, MAGIC);
      MagicBytes();
    }

    method SetU32(at: nat, value: nat)
      requires Valid() && at + 4 <= WIRE_SIZE && value < U32_LIMIT
      modifies data
      ensures data[..] == old(data[..])[..at] + PutU32(value) + old(data[..])[at + 4..]
    {
      var bytes := PutU32(value);
      data[at] := bytes[0];
      data[at + 1] := bytes[1];
      data[at + 2] := bytes[2];
      data[at + 3] := bytes[3];
    }

    function Bytes(): (h: seq<byte>)
      requires Valid()
      reads this, data
      ensures |h| == WIRE_SIZE
    {
      data[..]
    }

    method SetSize(size: nat)
      requires Valid() && size < U32_LIMIT
      modifies data
      ensures data[..] == old(data[..])[..SIZE_AT] + PutU32(size) + old(data[..])[CRC_AT..]
    {
      SetU32(SIZE_AT, size);
    }

    method SetCrc(crc: nat)
      requires Valid() && crc < U32_LIMIT
      modifies data
      ensures data[..] == old(data[..])[..CRC_AT] + PutU32(crc)
    {
      SetU32(CRC_AT, crc);
    }
  }
}
