/** Bytes as numbers, and big-endian numbers of any length. */
module Numbers {
  import opened ByteStreams

  function ByteOf(n: nat): byte
    requires n < 0x100
  {
    n as byte
  }

  function ValueOf(b: byte): (n: nat)
    ensures n < 0x100
  {
    b as nat
  }

  lemma ByteValue(n: nat)
    requires n < 0x100
    ensures ValueOf(ByteOf(n)) == n
  {
    hide ValueOf;
    NarrowByte(n);
  }

  lemma NarrowByte(n: nat)
    requires n < 0x100
    ensures ValueOf(n as byte) == n
  {
  }

  lemma ByteInjective(a: byte, b: byte)
    requires ValueOf(a) == ValueOf(b)
    ensures a == b
  {
  }

  // --- Powers and quotients ---------------------------------------------------------------------

  function Pow2(n: nat): (p: nat)
    ensures p > 0
  {
    if n == 0 then 1 else 2 * Pow2(n - 1)
  }

  lemma {:induction false} Pow2Sum(m: nat, n: nat)
    ensures Pow2(m + n) == Pow2(m) * Pow2(n)
  {
    if m > 0 {
      Pow2Sum(m - 1, n);
      assert Pow2(m) * Pow2(n) == 2 * (Pow2(m - 1) * Pow2(n));
    }
  }

  lemma SmallPowers()
    ensures Pow2(0) == 1 && Pow2(1) == 2 && Pow2(2) == 4 && Pow2(3) == 8 && Pow2(4) == 16
    ensures Pow2(5) == 32 && Pow2(6) == 64 && Pow2(7) == 128 && Pow2(8) == 256
  {
    assert Pow2(2) == 4;
    assert Pow2(4) == 16;
    assert Pow2(6) == 64;
  }

  lemma BytePower(n: nat)
    ensures Pow2(8 * (n + 1)) == 0x100 * Pow2(8 * n)
  {
    SmallPowers();
    Pow2Sum(8, 8 * n);
  }

  lemma WordPower()
    ensures Pow2(8 * 2) == 0x1_0000 && Pow2(8 * 4) == 0x1_0000_0000
  {
    hide Pow2;
    SmallPowers();
    BytePower(1);
    BytePower(2);
    BytePower(3);
  }

  lemma QuotientOf(q: nat, k: nat, r: nat)
    requires r < k
    ensures (q * k + r) / k == q
  {
    var n := q * k + r;
    assert n / k * k + n % k == n;
    QuotientUnique(n / k, q, k, n % k, r);
  }

  lemma QuotientUnique(d: int, q: int, k: int, m: int, r: int)
    requires d * k + m == q * k + r && 0 <= m < k && 0 <= r < k
    ensures d == q
  {
    if d > q {
      Gap(d, q, k);
    } else if d < q {
      Gap(q, d, k);
    }
  }

  lemma Gap(a: int, b: int, k: int)
    requires a > b && k > 0
    ensures a * k >= b * k + k
  {
    assert (a - b - 1) * k >= 0;
  }

  // --- Big-endian numbers -----------------------------------------------------------------------

  /** The number bytes denote, most significant first. */
  function BigEndian(s: seq<byte>): nat {
    if s == [] then 0 else BigEndian(s[..|s| - 1]) * 0x100 + ValueOf(s[|s| - 1])
  }

  /** The last `n` bytes of a number, most significant first. */
  function PutBigEndian(v: nat, n: nat): (s: seq<byte>)
    ensures |s| == n
    decreases n
  {
    if n == 0 then [] else PutBigEndian(v / 0x100, n - 1) + [ByteOf(v % 0x100)]
  }

  /** A number that fits reads back as it was written. */
  lemma {:induction false} PutReads(v: nat, n: nat)
    requires v < Pow2(8 * n)
    ensures BigEndian(PutBigEndian(v, n)) == v
    decreases n
  {
    hide ByteOf, ValueOf, Pow2;
    SmallPowers();
    if n > 0 {
      BytePower(n - 1);
      PutReads(v / 0x100, n - 1);
      ByteValue(v % 0x100);
      var s := PutBigEndian(v, n);
      assert s[..n - 1] == PutBigEndian(v / 0x100, n - 1) && s[n - 1] == ByteOf(v % 0x100);
    }
  }

  lemma {:induction false} BigEndianBound(s: seq<byte>)
    ensures BigEndian(s) < Pow2(8 * |s|)
    decreases |s|
  {
    hide ValueOf, Pow2;
    SmallPowers();
    if s != [] {
      BigEndianBound(s[..|s| - 1]);
      BytePower(|s| - 1);
    }
  }

  /** The most significant byte counts as many times as there are numbers behind it. */
  lemma {:induction false} BigEndianHead(s: seq<byte>)
    requires s != []
    ensures BigEndian(s) == ValueOf(s[0]) * Pow2(8 * (|s| - 1)) + BigEndian(s[1..])
    decreases |s|
  {
    hide ValueOf, Pow2;
    SmallPowers();
    if |s| > 1 {
      var init := s[..|s| - 1];
      BigEndianHead(init);
      BytePower(|s| - 2);
      assert s[1..][..|s| - 2] == init[1..];
      Scale(ValueOf(s[0]), Pow2(8 * (|s| - 2)), BigEndian(init[1..]));
    } else {
      assert s[..0] == [] && s[1..] == [];
    }
  }

  lemma Scale(v: nat, p: nat, r: nat)
    ensures (v * p + r) * 0x100 == v * (0x100 * p) + r * 0x100
  {
  }

  /** Bytes are determined by their number. */
  lemma {:induction false} BigEndianInjective(a: seq<byte>, b: seq<byte>)
    requires |a| == |b| && BigEndian(a) == BigEndian(b)
    ensures a == b
    decreases |a|
  {
    hide ValueOf;
    if a != [] {
      var n := |a| - 1;
      QuotientUnique(BigEndian(a[..n]), BigEndian(b[..n]), 0x100, ValueOf(a[n]), ValueOf(b[n]));
      BigEndianInjective(a[..n], b[..n]);
      ByteInjective(a[n], b[n]);
      assert a == a[..n] + [a[n]] && b == b[..n] + [b[n]];
    }
  }
}
