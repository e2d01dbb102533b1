/** CIDR blocks: the byte and bit loops against arithmetic on whole addresses. */
module Cidrs {
  import opened ByteStreams
  import opened Outcomes
  import opened Addresses
  import opened Numbers

  /** An address and a prefix length. */
  datatype Cidr = Cidr(address: SockAddress, prefix: nat)

  /** What the default constructor makes. */
  const INVALID_CIDR: Cidr := Cidr(Unspecified, 0)

  predicate IsIp(a: SockAddress) {
    a.Ip4? || a.Ip6?
  }

  /** The bytes of an IP address, most significant first. */
  function IpBytes(a: SockAddress): seq<byte> {
    match a
    case Ip4(b, _) => b
    case Ip6(b, _) => b
    case _ => []
  }

  function Width(a: SockAddress): nat {
    8 * |IpBytes(a)|
  }

  // --- Masks ------------------------------------------------------------------------------------

  /** The byte with its `keep` high bits set. */
  function HighBits(keep: nat): byte
    requires keep <= 8
  {
    match keep
    case 0 => 0x00
    case 1 => 0x80
    case 2 => 0xC0
    case 3 => 0xE0
    case 4 => 0xF0
    case 5 => 0xF8
    case 6 => 0xFC
    case 7 => 0xFE
    case _ => 0xFF
  }

  function And8(y: byte, m: byte): byte {
    y & m
  }

  /** The byte with all but its `keep` high bits cleared. */
  function Keep(y: byte, keep: nat): byte
    requires keep <= 8
  {
    And8(y, HighBits(keep))
  }

  /** How many bits of byte `i` a prefix covers. */
  function Covered(prefix: nat, i: nat): (n: nat)
    ensures n <= 8
  {
    if prefix <= 8 * i then 0 else if prefix >= 8 * i + 8 then 8 else prefix - 8 * i
  }

  /** The address with everything behind the prefix cleared. */
  function Masked(b: seq<byte>, prefix: nat): (m: seq<byte>)
    ensures |m| == |b|
  {
    seq(|b|, i requires 0 <= i < |b| => Keep(b[i], Covered(prefix, i)))
  }

  // --- Masking is rounding down -----------------------------------------------------------------

  function RoundDown(v: nat, k: nat): nat
    requires k > 0
  {
    v / k * k
  }

  lemma Keep1(y: byte)
    ensures ValueOf(Keep(y, 1)) == RoundDown(ValueOf(y), 128)
  {
  }

  lemma Keep2(y: byte)
    ensures ValueOf(Keep(y, 2)) == RoundDown(ValueOf(y), 64)
  {
  }

  lemma Keep3(y: byte)
    ensures ValueOf(Keep(y, 3)) == RoundDown(ValueOf(y), 32)
  {
  }

  lemma Keep4(y: byte)
    ensures ValueOf(Keep(y, 4)) == RoundDown(ValueOf(y), 16)
  {
  }

  lemma Keep5(y: byte)
    ensures ValueOf(Keep(y, 5)) == RoundDown(ValueOf(y), 8)
  {
  }

  lemma Keep6(y: byte)
    ensures ValueOf(Keep(y, 6)) == RoundDown(ValueOf(y), 4)
  {
  }

  lemma Keep7(y: byte)
    ensures ValueOf(Keep(y, 7)) == RoundDown(ValueOf(y), 2)
  {
  }

  lemma KeepAllOrNothing(y: byte)
    ensures Keep(y, 8) == y && Keep(y, 0) == 0 && ValueOf(Keep(y, 0)) == 0
  {
  }

  /** Within one byte, masking rounds down to a multiple of a power of two. */
  lemma ByteRounds(y: byte, keep: nat)
    requires keep <= 8
    ensures ValueOf(Keep(y, keep)) == RoundDown(ValueOf(y), Pow2(8 - keep))
  {
    hide ValueOf, Pow2, Keep, RoundDown;
    SmallPowers();
    match keep {
      case 0 => KeepAllOrNothing(y); RoundToNothing(ValueOf(y), 256);
      case 1 => Keep1(y);
      case 2 => Keep2(y);
      case 3 => Keep3(y);
      case 4 => Keep4(y);
      case 5 => Keep5(y);
      case 6 => Keep6(y);
      case 7 => Keep7(y);
      case _ => KeepAllOrNothing(y); RoundByOne(ValueOf(y));
    }
  }

  lemma RoundByOne(v: nat)
    ensures RoundDown(v, 1) == v
  {
  }

  lemma Products(a: nat, c: nat, q: nat, k: nat)
    ensures a * (c * k) == (a * c) * k && (a * c + q) * k == (a * c) * k + q * k
  {
  }

  /** Rounding down a number whose high part is a multiple of the step. */
  lemma RoundLow(a: nat, c: nat, k: nat, v: nat)
    requires k > 0
    ensures RoundDown(a * (c * k) + v, k) == a * (c * k) + RoundDown(v, k)
  {
    var q, r := v / k, v % k;
    assert v == q * k + r;
    Products(a, c, q, k);
    QuotientOf(a * c + q, k, r);
  }

  /** Rounding down to a multiple of `s * m` ignores what is below `m`. */
  lemma RoundHigh(a: nat, s: nat, m: nat, v: nat)
    requires s > 0 && m > 0 && v < m
    ensures s * m > 0 && RoundDown(a * m + v, s * m) == RoundDown(a, s) * m
  {
    var q, r := a / s, a % s;
    assert a == q * s + r;
    assert a * m + v == q * (s * m) + (r * m + v);
    assert r * m + v < s * m by { assert (r + 1) * m <= s * m; }
    QuotientOf(q, s * m, r * m + v);
    assert q * (s * m) == q * s * m;
  }

  lemma MaskedRest(b: seq<byte>, prefix: nat)
    requires b != []
    ensures Masked(b, prefix)[1..] == Masked(b[1..], if prefix >= 8 then prefix - 8 else 0)
    ensures Masked(b, prefix)[0] == Keep(b[0], if prefix >= 8 then 8 else prefix)
  {
    hide Keep;
  }

  /** Masking an address rounds it down to a multiple of 2 to the power of (width - prefix). */
  lemma {:induction false} MaskedRounds(b: seq<byte>, prefix: nat)
    requires prefix <= 8 * |b|
    ensures BigEndian(Masked(b, prefix)) == RoundDown(BigEndian(b), Pow2(8 * |b| - prefix))
    decreases |b|
  {
    hide ValueOf, Keep, Masked, Pow2, RoundDown, BigEndian;
    if b == [] {
      NoneRounds();
    } else {
      var rest, n := b[1..], 8 * (|b| - 1);
      MaskedRest(b, prefix);
      BigEndianHead(b);
      BigEndianHead(Masked(b, prefix));
      if prefix >= 8 {
        var k := 8 * |b| - prefix;
        MaskedRounds(rest, prefix - 8);
        Pow2Sum(n - k, k);
        KeepAllOrNothing(b[0]);
        RoundLow(ValueOf(b[0]), Pow2(n - k), Pow2(k), BigEndian(rest));
      } else {
        MaskedRounds(rest, 0);
        ByteRounds(b[0], prefix);
        BigEndianBound(rest);
        Pow2Sum(8 - prefix, n);
        RoundHigh(ValueOf(b[0]), Pow2(8 - prefix), Pow2(n), BigEndian(rest));
        RoundToNothing(BigEndian(rest), Pow2(n));
      }
    }
  }

  lemma NoneRounds()
    ensures Masked([], 0) == [] && BigEndian([]) == 0 && RoundDown(0, Pow2(0)) == 0
  {
  }

  lemma RoundToNothing(v: nat, m: nat)
    requires v < m
    ensures RoundDown(v, m) == 0
  {
  }

  // --- Blocks -----------------------------------------------------------------------------------

  /** The constructor, which refuses other families and prefixes that are too long. */
  function Make(address: SockAddress, prefix: nat): (r: Result<Cidr>)
    ensures r.Ok? <==> Acceptable(Cidr(address, prefix))
    ensures r.Ok? <==> (address.Ip4? && prefix <= 32) || (address.Ip6? && prefix <= 128)
    ensures r.Ok? ==> r.value == Cidr(address, prefix)
  {
    if address.Ip4? then
      if prefix > 32 then Fail(InvalidArgument) else Ok(Cidr(address, prefix))
    else if address.Ip6? then
      if prefix > 128 then Fail(InvalidArgument) else Ok(Cidr(address, prefix))
    else Fail(InvalidArgument)
  }

  predicate Acceptable(c: Cidr) {
    IsIp(c.address) && c.prefix <= Width(c.address)
  }

  /** The same socket address with other address bytes. */
  function WithBytes(a: SockAddress, b: seq<byte>): SockAddress
    requires |b| == |IpBytes(a)|
  {
    match a
    case Ip4(_, port) => Ip4(b, port)
    case Ip6(_, port) => Ip6(b, port)
    case _ => a
  }

  /** The network a block belongs to. */
  function Network(c: Cidr): Cidr {
    if Acceptable(c) then Cidr(WithBytes(c.address, Masked(IpBytes(c.address), c.prefix)), c.prefix) else INVALID_CIDR
  }

  predicate SameFamily(a: SockAddress, b: SockAddress) {
    (a.Ip4? && b.Ip4?) || (a.Ip6? && b.Ip6?)
  }

  /** Membership: both addresses agree on the prefix. */
  predicate Contains(c: Cidr, a: SockAddress) {
    Acceptable(c) && SameFamily(c.address, a) && Masked(IpBytes(c.address), c.prefix) == Masked(IpBytes(a), c.prefix)
  }

  /** The number of addresses of a block. */
  function BlockSize(c: Cidr): (n: nat)
    requires Acceptable(c)
    ensures n > 0
  {
    Pow2(Width(c.address) - c.prefix)
  }

  /** The network address is the address rounded down to a multiple of the block size; nothing else changes. */
  lemma NetworkRounds(c: Cidr)
    requires Acceptable(c)
    ensures BigEndian(IpBytes(Network(c).address)) == RoundDown(BigEndian(IpBytes(c.address)), BlockSize(c))
    ensures SameFamily(Network(c).address, c.address) && Network(c).address.port == c.address.port
    ensures Network(c).prefix == c.prefix && Acceptable(Network(c))
  {
    MaskedRounds(IpBytes(c.address), c.prefix);
  }

  lemma KeepTwice(y: byte, keep: nat)
    requires keep <= 8
    ensures Keep(Keep(y, keep), keep) == Keep(y, keep)
  {
    hide HighBits, And8;
    AndTwice(y, HighBits(keep));
  }

  lemma AndTwice(y: byte, m: byte)
    ensures And8(And8(y, m), m) == And8(y, m)
  {
  }

  lemma MaskedTwice(b: seq<byte>, prefix: nat)
    ensures Masked(Masked(b, prefix), prefix) == Masked(b, prefix)
  {
    hide Keep;
    forall i | 0 <= i < |b| ensures Masked(Masked(b, prefix), prefix)[i] == Masked(b, prefix)[i] {
      KeepTwice(b[i], Covered(prefix, i));
    }
  }

  /** A network is its own network, and has the members the block has. */
  lemma NetworkIdempotent(c: Cidr, a: SockAddress)
    ensures Network(Network(c)) == Network(c)
    ensures Contains(Network(c), a) <==> Contains(c, a)
  {
    hide Masked;
    if Acceptable(c) {
      MaskedTwice(IpBytes(c.address), c.prefix);
    }
  }

  lemma SameQuotient(v: nat, w: nat, k: nat)
    requires k > 0
    ensures RoundDown(v, k) == RoundDown(w, k) <==> v / k == w / k
  {
    if v / k * k == w / k * k {
      QuotientUnique(v / k, w / k, k, 0, 0);
    }
  }

  /** An address belongs to a block exactly if dividing by the block size gives what the block's address gives. */
  lemma ContainsIff(c: Cidr, a: SockAddress)
    requires Acceptable(c) && SameFamily(c.address, a)
    ensures Contains(c, a) <==> BigEndian(IpBytes(a)) / BlockSize(c) == BigEndian(IpBytes(c.address)) / BlockSize(c)
  {
    var x, y := IpBytes(c.address), IpBytes(a);
    MaskedRounds(x, c.prefix);
    MaskedRounds(y, c.prefix);
    hide Masked, BigEndian, RoundDown, Pow2;
    SameQuotient(BigEndian(x), BigEndian(y), BlockSize(c));
    if BigEndian(Masked(x, c.prefix)) == BigEndian(Masked(y, c.prefix)) {
      BigEndianInjective(Masked(x, c.prefix), Masked(y, c.prefix));
    }
  }

  /** A block is the interval of `BlockSize` addresses that starts at its network address. */
  lemma BlockIsInterval(c: Cidr, a: SockAddress)
    requires Acceptable(c) && SameFamily(c.address, a)
    ensures var first := BigEndian(IpBytes(Network(c).address));
      Contains(c, a) <==> first <= BigEndian(IpBytes(a)) < first + BlockSize(c)
  {
    hide BigEndian, Contains, BlockSize, Acceptable, Network;
    ContainsIff(c, a);
    NetworkRounds(c);
    var v, w, k := BigEndian(IpBytes(a)), BigEndian(IpBytes(c.address)), BlockSize(c);
    assert v == v / k * k + v % k;
    if w / k * k <= v < w / k * k + k {
      QuotientOf(w / k, k, v - w / k * k);
    }
  }

  /** For a fixed prefix, belonging to the block of another address is an equivalence. */
  lemma MembershipIsEquivalence(a: SockAddress, b: SockAddress, d: SockAddress, prefix: nat)
    requires Acceptable(Cidr(a, prefix))
    ensures Contains(Cidr(a, prefix), a)
    ensures Contains(Cidr(a, prefix), b) ==> Contains(Cidr(b, prefix), a)
    ensures Contains(Cidr(a, prefix), b) && Contains(Cidr(b, prefix), d) ==> Contains(Cidr(a, prefix), d)
  {
    hide Masked;
  }

  lemma KeepFewer(y: byte, z: byte, less: nat, keep: nat)
    requires less <= keep <= 8 && Keep(y, keep) == Keep(z, keep)
    ensures Keep(y, less) == Keep(z, less)
  {
    hide HighBits, And8;
    Nested(less, keep);
    AndNested(y, z, HighBits(less), HighBits(keep));
  }

  lemma Nested(less: nat, keep: nat)
    requires less <= keep <= 8
    ensures And8(HighBits(keep), HighBits(less)) == HighBits(less)
  {
    assert keep in {0, 1, 2, 3, 4, 5, 6, 7, 8} && less in {0, 1, 2, 3, 4, 5, 6, 7, 8};
  }

  lemma AndNested(y: byte, z: byte, m: byte, n: byte)
    requires And8(n, m) == m && And8(y, n) == And8(z, n)
    ensures And8(y, m) == And8(z, m)
  {
  }

  /** Longer prefixes nest inside shorter ones. */
  lemma LongerPrefixNests(x: SockAddress, a: SockAddress, shorter: nat, longer: nat)
    requires shorter <= longer && Contains(Cidr(x, longer), a)
    ensures Contains(Cidr(x, shorter), a)
  {
    hide Keep;
    var b, d := IpBytes(x), IpBytes(a);
    forall i | 0 <= i < |b| ensures Masked(b, shorter)[i] == Masked(d, shorter)[i] {
      assert Masked(b, longer)[i] == Masked(d, longer)[i];
      KeepFewer(b[i], d[i], Covered(shorter, i), Covered(longer, i));
    }
  }

  // --- The loops --------------------------------------------------------------------------------

  function Join(b0: byte, b1: byte, b2: byte, b3: byte): bv32 {
    ((b0 as bv32) << 24) | ((b1 as bv32) << 16) | ((b2 as bv32) << 8) | (b3 as bv32)
  }

  /** The 32-bit value of four bytes in network order, and back. */
  function HostOrder(b: Bytes4): bv32 {
    Join(b[0], b[1], b[2], b[3])
  }

  function NetworkOrder(h: bv32): Bytes4 {
    [ByteAt(h, 0), ByteAt(h, 1), ByteAt(h, 2), ByteAt(h, 3)]
  }

  /** Byte `i` of a 32-bit value, counted from the most significant one. */
  function ByteAt(h: bv32, i: nat): byte
    requires i < 4
  {
    match i
    case 0 => (h >> 24) as byte
    case 1 => ((h >> 16) & 0xFF) as byte
    case 2 => ((h >> 8) & 0xFF) as byte
    case _ => (h & 0xFF) as byte
  }

  function And32(h: bv32, m: bv32): bv32 {
    h & m
  }

  function Mask32(prefix: nat): bv32
    requires prefix <= 32
  {
    if prefix == 0 then 0 else 0xFFFF_FFFF << (32 - prefix)
  }

  lemma Mask32Parts(prefix: nat)
    requires prefix <= 32
    ensures Mask32(prefix) >> 24 == HighBits(Covered(prefix, 0)) as bv32
    ensures (Mask32(prefix) >> 16) & 0xFF == HighBits(Covered(prefix, 1)) as bv32
    ensures (Mask32(prefix) >> 8) & 0xFF == HighBits(Covered(prefix, 2)) as bv32
    ensures Mask32(prefix) & 0xFF == HighBits(Covered(prefix, 3)) as bv32
  {
    assert prefix in {0, 1, 2, 3, 4, 5, 6, 7, 8, 9, 10, 11, 12, 13, 14, 15, 16,
                      17, 18, 19, 20, 21, 22, 23, 24, 25, 26, 27, 28, 29, 30, 31, 32};
  }

  lemma PartsAreBytes(h: bv32, y0: byte, y1: byte, y2: byte, y3: byte)
    requires h >> 24 == y0 as bv32 && (h >> 16) & 0xFF == y1 as bv32
    requires (h >> 8) & 0xFF == y2 as bv32 && h & 0xFF == y3 as bv32
    ensures ByteAt(h, 0) == y0 && ByteAt(h, 1) == y1 && ByteAt(h, 2) == y2 && ByteAt(h, 3) == y3
  {
  }

  lemma Mask32Bytes(prefix: nat)
    requires prefix <= 32
    ensures ByteAt(Mask32(prefix), 0) == HighBits(Covered(prefix, 0))
    ensures ByteAt(Mask32(prefix), 1) == HighBits(Covered(prefix, 1))
    ensures ByteAt(Mask32(prefix), 2) == HighBits(Covered(prefix, 2))
    ensures ByteAt(Mask32(prefix), 3) == HighBits(Covered(prefix, 3))
  {
    hide Mask32, HighBits, Covered, ByteAt;
    Mask32Parts(prefix);
    PartsAreBytes(Mask32(prefix), HighBits(Covered(prefix, 0)), HighBits(Covered(prefix, 1)),
                  HighBits(Covered(prefix, 2)), HighBits(Covered(prefix, 3)));
  }

  lemma AndBytes(b0: byte, b1: byte, b2: byte, b3: byte, m: bv32)
    ensures ByteAt(And32(Join(b0, b1, b2, b3), m), 0) == And8(b0, ByteAt(m, 0))
    ensures ByteAt(And32(Join(b0, b1, b2, b3), m), 1) == And8(b1, ByteAt(m, 1))
    ensures ByteAt(And32(Join(b0, b1, b2, b3), m), 2) == And8(b2, ByteAt(m, 2))
    ensures ByteAt(And32(Join(b0, b1, b2, b3), m), 3) == And8(b3, ByteAt(m, 3))
  {
  }

  /** Masking the 32-bit value masks the bytes. */
  lemma HostMasked(b: Bytes4, prefix: nat)
    requires prefix <= 32
    ensures NetworkOrder(And32(HostOrder(b), Mask32(prefix))) == Masked(b, prefix)
  {
    hide Join, Mask32, HighBits, ByteAt, And32, And8;
    Mask32Bytes(prefix);
    AndBytes(b[0], b[1], b[2], b[3], Mask32(prefix));
  }

  lemma NetworkOrderInjective(g: bv32, h: bv32)
    requires NetworkOrder(g) == NetworkOrder(h)
    ensures g == h
  {
    var x, y := NetworkOrder(g), NetworkOrder(h);
    assert x[0] == y[0] && x[1] == y[1] && x[2] == y[2] && x[3] == y[3];
  }

  /** The mask of a partly covered byte, as the code shifts it. */
  lemma ShiftedMask(rem: nat)
    requires 0 < rem < 8
    ensures (0xFF as byte) << (8 - rem) == HighBits(rem)
  {
    assert rem in {1, 2, 3, 4, 5, 6, 7};
  }

  /** Clears, in place, everything behind the prefix of a 16-byte address. */
  method MaskInPlace(b: array<byte>, prefix: nat)
    requires b.Length == 16 && prefix <= 128
    modifies b
    ensures b[..] == Masked(old(b[..]), prefix)
  {
    hide HighBits;
    ghost var was := b[..];
    var fullBytes, remBits := prefix / 8, prefix % 8;
    var from := fullBytes + if remBits != 0 then 1 else 0;
    for i := from to 16
      invariant forall k | 0 <= k < 16 :: b[k] == if from <= k < i then 0 else was[k]
    {
      b[i] := 0;
    }
    if remBits != 0 && fullBytes < 16 {
      ShiftedMask(remBits);
      var m: byte := 0xFF << (8 - remBits);
      b[fullBytes] := And8(b[fullBytes], m);
    }
    forall i | 0 <= i < 16 ensures b[i] == Keep(was[i], Covered(prefix, i)) {
      KeepAllOrNothing(was[i]);
    }
    hide Keep;
  }

  method GetNetwork(c: Cidr) returns (r: Cidr)
    ensures r == Network(c)
    ensures !IsIp(c.address) || c.prefix > (if c.address.Ip4? then 32 else 128) ==> r == Cidr(Unspecified, 0)
  {
    hide Masked, HostOrder, NetworkOrder, Mask32, And32;
    if !IsIp(c.address) {
      return INVALID_CIDR;
    }
    if c.address.Ip4? {
      if c.prefix > 32 {
        return INVALID_CIDR;
      }
      var host := And32(HostOrder(c.address.addr4), Mask32(c.prefix));
      HostMasked(c.address.addr4, c.prefix);
      return Cidr(Ip4(NetworkOrder(host), c.address.port), c.prefix);
    }
    if c.prefix > 128 {
      return INVALID_CIDR;
    }
    var b := new byte[16](i requires 0 <= i < 16 => c.address.addr6[i]);
    assert b[..] == c.address.addr6;
    MaskInPlace(b, c.prefix);
    return Cidr(Ip6(b[..], c.address.port), c.prefix);
  }

  /** Compares the parts of two 16-byte addresses the prefix covers. */
  method SamePrefix(nb: Bytes16, ab: Bytes16, prefix: nat) returns (same: bool)
    requires prefix <= 128
    ensures same <==> Masked(nb, prefix) == Masked(ab, prefix)
  {
    hide HighBits, And8;
    var fullBytes, remBits := prefix / 8, prefix % 8;
    for i := 0 to fullBytes
      invariant forall k | 0 <= k < i :: nb[k] == ab[k]
    {
      if nb[i] != ab[i] {
        KeepAllOrNothing(nb[i]);
        KeepAllOrNothing(ab[i]);
        assert Masked(nb, prefix)[i] == nb[i] && Masked(ab, prefix)[i] == ab[i];
        return false;
      }
    }
    if remBits != 0 && fullBytes < 16 {
      ShiftedMask(remBits);
      var m: byte := 0xFF << (8 - remBits);
      if And8(nb[fullBytes], m) != And8(ab[fullBytes], m) {
        assert Masked(nb, prefix)[fullBytes] != Masked(ab, prefix)[fullBytes];
        return false;
      }
    }
    forall i | 0 <= i < 16 ensures Masked(nb, prefix)[i] == Masked(ab, prefix)[i] {
      KeepAllOrNothing(nb[i]);
      KeepAllOrNothing(ab[i]);
    }
    return true;
  }

  /** Compares the parts of two IPv4 addresses the prefix covers. */
  method SamePrefix4(net: Bytes4, addr: Bytes4, prefix: nat) returns (same: bool)
    requires prefix <= 32
    ensures same <==> Masked(net, prefix) == Masked(addr, prefix)
  {
    hide Masked, HostOrder, NetworkOrder, Mask32, And32;
    var netHost, addrHost, mask := HostOrder(net), HostOrder(addr), Mask32(prefix);
    same := And32(netHost, mask) == And32(addrHost, mask);
    HostMasked(net, prefix);
    HostMasked(addr, prefix);
    if NetworkOrder(And32(netHost, mask)) == NetworkOrder(And32(addrHost, mask)) {
      NetworkOrderInjective(And32(netHost, mask), And32(addrHost, mask));
    }
  }

  method IsInNetwork(c: Cidr, a: SockAddress) returns (inside: bool)
    ensures inside == Contains(c, a)
    ensures inside ==> (c.address.Ip4? && a.Ip4? && c.prefix <= 32) || (c.address.Ip6? && a.Ip6? && c.prefix <= 128)
  {
    hide Masked;
    if !IsIp(c.address) || !IsIp(a) {
      return false;
    }
    if !SameFamily(c.address, a) {
      return false;
    }
    if c.address.Ip4? {
      if c.prefix > 32 {
        return false;
      }
      inside := SamePrefix4(c.address.addr4, a.addr4, c.prefix);
    } else {
      if c.prefix > 128 {
        return false;
      }
      inside := SamePrefix(c.address.addr6, a.addr6, c.prefix);
    }
  }
}
