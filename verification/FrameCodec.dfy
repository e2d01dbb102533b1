/** The framing protocol as functions on whole byte streams. */
module FrameCodec {
  import opened ByteStreams
  import opened Outcomes
  import Crc32c
  import CrcDetection
  import opened FrameHeaders

  type Packet = seq<byte>

  function CrcField(p: Packet): (crc: nat)
    ensures crc < U32_LIMIT
  {
    WordValue(Crc32c.Checksum(p))
  }

  /** One frame on the wire. */
  function EncodeFrame(p: Packet): seq<byte>
    requires |p| < U32_LIMIT
  {
    Encode(|p|, CrcField(p)) + p
  }

  /** What the peer may be sent: packets of 1 to `mtu` bytes. */
  predicate Sendable(mtu: nat, p: Packet) {
    1 <= |p| <= mtu && |p| < U32_LIMIT
  }

  predicate AllSendable(mtu: nat, ps: seq<Packet>) {
    forall i | 0 <= i < |ps| :: Sendable(mtu, ps[i])
  }

  predicate AllEncodable(ps: seq<Packet>) {
    forall i | 0 <= i < |ps| :: |ps[i]| < U32_LIMIT
  }

  function EncodeAll(ps: seq<Packet>): seq<byte>
    requires AllEncodable(ps)
  {
    if ps == [] then [] else EncodeFrame(ps[0]) + EncodeAll(ps[1..])
  }

  /** How a stream ends: in the middle of a frame still to come, or at a frame that is refused. */
  datatype Ending = Waiting(rest: seq<byte>) | Broken(error: ErrorCode)

  datatype Decoded = Decoded(packets: seq<Packet>, ending: Ending)

  predicate HeaderOk(mtu: nat, h: seq<byte>)
    requires |h| == WIRE_SIZE
  {
    MagicValid(h) && SizeOf(h) != 0 && SizeOf(h) <= mtu
  }

  function HeaderError(mtu: nat, h: seq<byte>): ErrorCode
    requires |h| == WIRE_SIZE && !HeaderOk(mtu, h)
  {
    if !MagicValid(h) then InvalidMagic else InvalidSize
  }

  /** The whole-stream decoder. */
  function Decode(mtu: nat, s: seq<byte>): Decoded
    decreases |s|
  {
    if |s| < WIRE_SIZE then Decoded([], Waiting(s)) else
    var h := s[..WIRE_SIZE];
    if !HeaderOk(mtu, h) then Decoded([], Broken(HeaderError(mtu, h))) else
    var end := WIRE_SIZE + SizeOf(h);
    if |s| < end then Decoded([], Waiting(s)) else
    var p := s[WIRE_SIZE..end];
    if CrcOf(h) != CrcField(p) then Decoded([], Broken(FrameCrcMismatch)) else
    var d := Decode(mtu, s[end..]);
    Decoded([p] + d.packets, d.ending)
  }

  // --- Chunk independence -----------------------------------------------------------------------

  /** What decoding `more` adds to what was decoded so far. */
  function Resume(mtu: nat, d: Decoded, more: seq<byte>): Decoded {
    match d.ending
    case Broken(_) => d
    case Waiting(rest) =>
      var e := Decode(mtu, rest + more);
      Decoded(d.packets + e.packets, e.ending)
  }

  /** Stopping anywhere and resuming on the saved rest is decoding the stream in one go. */
  lemma {:induction false} DecodeResumes(mtu: nat, a: seq<byte>, b: seq<byte>)
    ensures Decode(mtu, a + b) == Resume(mtu, Decode(mtu, a), b)
    decreases |a|
  {
    hide CrcField, HeaderOk, SizeOf, CrcOf, HeaderError;
    if |a| >= WIRE_SIZE {
      var h := a[..WIRE_SIZE];
      assert (a + b)[..WIRE_SIZE] == h;
      if HeaderOk(mtu, h) {
        var end := WIRE_SIZE + SizeOf(h);
        if |a| >= end {
          assert (a + b)[WIRE_SIZE..end] == a[WIRE_SIZE..end];
          assert (a + b)[end..] == a[end..] + b;
          DecodeResumes(mtu, a[end..], b);
          ResumeCons(mtu, a[WIRE_SIZE..end], Decode(mtu, a[end..]), b);
        }
      }
    }
  }

  lemma ResumeCons(mtu: nat, p: Packet, d: Decoded, b: seq<byte>)
    ensures var e := Resume(mtu, d, b);
      Resume(mtu, Decoded([p] + d.packets, d.ending), b) == Decoded([p] + e.packets, e.ending)
  {
    hide Decode;
    if d.ending.Waiting? {
      var e := Decode(mtu, d.ending.rest + b);
      assert [p] + d.packets + e.packets == [p] + (d.packets + e.packets);
    }
  }

  /** Decoding chunk by chunk, keeping only the undecoded rest between chunks. */
  function DecodeChunks(mtu: nat, d: Decoded, chunks: seq<seq<byte>>): Decoded
    decreases |chunks|
  {
    if chunks == [] then d else DecodeChunks(mtu, Resume(mtu, d, chunks[0]), chunks[1..])
  }

  /** Any split of a stream into chunks decodes to the same packets and the same ending. */
  lemma {:induction false} ChunkIndependence(mtu: nat, s: seq<byte>, chunks: seq<seq<byte>>)
    ensures DecodeChunks(mtu, Decode(mtu, s), chunks) == Decode(mtu, s + Concat(chunks))
    decreases |chunks|
  {
    hide Decode, Resume;
    if chunks == [] {
      assert s + Concat(chunks) == s;
    } else {
      DecodeResumes(mtu, s, chunks[0]);
      ChunkIndependence(mtu, s + chunks[0], chunks[1..]);
      assert s + chunks[0] + Concat(chunks[1..]) == s + Concat(chunks);
    }
  }

  /** The saved rest holds no complete frame. */
  lemma {:induction false} RestWaits(mtu: nat, s: seq<byte>)
    requires Decode(mtu, s).ending.Waiting?
    ensures Decode(mtu, Decode(mtu, s).ending.rest) == Decoded([], Decode(mtu, s).ending)
    decreases |s|
  {
    hide CrcField, HeaderOk, SizeOf, CrcOf, HeaderError;
    if |s| >= WIRE_SIZE && |s| >= WIRE_SIZE + SizeOf(s[..WIRE_SIZE]) {
      RestWaits(mtu, s[WIRE_SIZE + SizeOf(s[..WIRE_SIZE])..]);
    }
  }

  // --- The wire format --------------------------------------------------------------------------

  /** A frame on the wire: magic, no flags, size and checksum with the most significant byte first, and the packet. */
  lemma FrameOnWire(p: Packet)
    requires |p| < U32_LIMIT
    ensures var f, crc := EncodeFrame(p), Crc32c.Checksum(p);
      && |f| == WIRE_SIZE + |p| && f[..8] == [0x5A, 0x50, 0x52, 0x54, 0, 0, 0, 0]
      && Sum4(f[8], f[9], f[10], f[11]) == |p|
      && f[12..16] == [(crc >> 24) as byte, ((crc >> 16) & 0xFF) as byte, ((crc >> 8) & 0xFF) as byte,
                       (crc & 0xFF) as byte]
      && f[16..] == p
  {
    hide Crc32c.Checksum, Sum4, PutU32, SizeOf, CrcOf, WordValue;
    EncodeDecodes(|p|, CrcField(p));
    FieldsAre(Encode(|p|, CrcField(p)));
    PutWord(Crc32c.Checksum(p));
  }

  /** A header that starts with any other four bytes breaks the stream. */
  lemma WrongMagicRefused(mtu: nat, s: seq<byte>)
    requires |s| >= WIRE_SIZE && s[..4] != [0x5A, 0x50, 0x52, 0x54]
    ensures Decode(mtu, s) == Decoded([], Broken(InvalidMagic))
  {
    hide MagicValid, SizeOf, CrcField;
    MagicValidIff(s[..WIRE_SIZE]);
    assert s[..WIRE_SIZE][..4] == s[..4];
  }

  // --- Round trips ------------------------------------------------------------------------------

  lemma DecodeFrame(mtu: nat, p: Packet, tail: seq<byte>)
    requires Sendable(mtu, p)
    ensures var d := Decode(mtu, tail);
      Decode(mtu, EncodeFrame(p) + tail) == Decoded([p] + d.packets, d.ending)
  {
    hide CrcField, Encode, MagicValid, SizeOf, CrcOf, HeaderError;
    var s := EncodeFrame(p) + tail;
    var h := Encode(|p|, CrcField(p));
    EncodeDecodes(|p|, CrcField(p));
    assert s[..WIRE_SIZE] == h;
    assert s[WIRE_SIZE..WIRE_SIZE + |p|] == p;
    assert s[WIRE_SIZE + |p|..] == tail;
  }

  /** A stream of encoded packets decodes to those packets, whatever follows. */
  lemma {:induction false} DecodeEncodeAll(mtu: nat, ps: seq<Packet>, tail: seq<byte>)
    requires AllSendable(mtu, ps)
    ensures var d := Decode(mtu, tail);
      Decode(mtu, EncodeAll(ps) + tail) == Decoded(ps + d.packets, d.ending)
    decreases |ps|
  {
    hide Decode, EncodeFrame;
    if ps == [] {
      assert EncodeAll(ps) + tail == tail;
      assert ps + Decode(mtu, tail).packets == Decode(mtu, tail).packets;
    } else {
      DecodeEncodeAll(mtu, ps[1..], tail);
      DecodeFrame(mtu, ps[0], EncodeAll(ps[1..]) + tail);
      assert EncodeAll(ps) + tail == EncodeFrame(ps[0]) + (EncodeAll(ps[1..]) + tail);
      assert [ps[0]] + (ps[1..] + Decode(mtu, tail).packets) == ps + Decode(mtu, tail).packets;
    }
  }

  // --- What the receiver makes of packets it refuses --------------------------------------------

  /** How many packets come before the first one that the receiver refuses. */
  function Leading(mtu: nat, ps: seq<Packet>): (k: nat)
    ensures k <= |ps| && AllSendable(mtu, ps[..k])
    ensures k < |ps| ==> !Sendable(mtu, ps[k])
    ensures k == |ps| <==> AllSendable(mtu, ps)
  {
    if ps == [] || !Sendable(mtu, ps[0]) then 0
    else
      assert forall i | 0 <= i < |ps| - 1 :: ps[1..][i] == ps[i + 1];
      1 + Leading(mtu, ps[1..])
  }

  /** The first `n` bytes of the encoded packets hold the whole header of one that the receiver refuses. */
  predicate Refused(mtu: nat, ps: seq<Packet>, n: nat)
    requires AllEncodable(ps)
  {
    var k := Leading(mtu, ps);
    k < |ps| && n >= |EncodeAll(ps[..k])| + WIRE_SIZE
  }

  /** The header of such a packet breaks the stream, whatever of the packet follows. */
  lemma DecodeRefused(mtu: nat, p: Packet, s: seq<byte>)
    requires |p| < U32_LIMIT && !Sendable(mtu, p) && |s| >= WIRE_SIZE && s[..WIRE_SIZE] == EncodeFrame(p)[..WIRE_SIZE]
    ensures Decode(mtu, s) == Decoded([], Broken(InvalidSize))
  {
    hide CrcField, Encode, MagicValid, SizeOf, CrcOf;
    EncodeDecodes(|p|, CrcField(p));
    assert s[..WIRE_SIZE] == Encode(|p|, CrcField(p));
  }

  lemma DecodeNothingYet(mtu: nat, s: seq<byte>)
    requires |s| < WIRE_SIZE
    ensures Decode(mtu, s) == Decoded([], Waiting(s))
  {
  }

  /**
   * Whatever part of an encoded stream has arrived, and whatever the packets are: the packets decoded are an initial
   * part of those before the first one that the receiver refuses, and the stream breaks exactly with the last header
   * byte of that one.
   */
  lemma DecodePrefix(mtu: nat, ps: seq<Packet>, s: seq<byte>)
    requires AllEncodable(ps) && s <= EncodeAll(ps)
    ensures Decode(mtu, s).packets <= ps[..Leading(mtu, ps)]
    ensures Decode(mtu, s).ending.Waiting? <==> !Refused(mtu, ps, |s|)
    ensures Refused(mtu, ps, |s|) ==> Decode(mtu, s) == Decoded(ps[..Leading(mtu, ps)], Broken(InvalidSize))
  {
    hide Decode, EncodeAll, Leading, Sendable, Refused;
    var good, bad := ps[..Leading(mtu, ps)], ps[Leading(mtu, ps)..];
    SplitEncoded(mtu, ps, |s|);
    SplitPrefix(s, EncodeAll(good), EncodeAll(bad));
    if |s| <= |EncodeAll(good)| {
      PrefixBefore(mtu, good, s);
    } else {
      PrefixBehind(mtu, good, bad, s[|EncodeAll(good)|..]);
    }
  }

  lemma SplitPrefix<T>(s: seq<T>, head: seq<T>, tail: seq<T>)
    requires s <= head + tail
    ensures |s| <= |head| ==> s <= head
    ensures |s| > |head| ==> s == head + s[|head|..] && s[|head|..] <= tail
  {
  }

  lemma SplitEncoded(mtu: nat, ps: seq<Packet>, n: nat)
    requires AllEncodable(ps)
    ensures var good, bad := ps[..Leading(mtu, ps)], ps[Leading(mtu, ps)..];
      && AllEncodable(good) && AllEncodable(bad) && EncodeAll(ps) == EncodeAll(good) + EncodeAll(bad)
      && (if bad == [] then EncodeAll(bad) == [] else !Sendable(mtu, bad[0]))
      && (Refused(mtu, ps, n) <==> bad != [] && n >= |EncodeAll(good)| + WIRE_SIZE)
  {
    var k := Leading(mtu, ps);
    hide EncodeFrame, Leading, Sendable;
    assert ps == ps[..k] + ps[k..];
    EncodeAllConcat(ps[..k], ps[k..]);
  }

  /** As long as only packets that the receiver may be sent have arrived. */
  lemma PrefixBefore(mtu: nat, ps: seq<Packet>, s: seq<byte>)
    requires AllSendable(mtu, ps) && s <= EncodeAll(ps)
    ensures Decode(mtu, s).packets <= ps && Decode(mtu, s).ending.Waiting?
  {
    assert AllEncodable(ps);
    hide Decode, EncodeAll, Sendable;
    var tail := EncodeAll(ps)[|s|..];
    DecodeResumes(mtu, s, tail);
    assert s + tail == EncodeAll(ps);
    DecodeEncodeAll(mtu, ps, []);
    DecodeNothingYet(mtu, []);
    assert EncodeAll(ps) + [] == EncodeAll(ps) && ps + [] == ps;
  }

  /** Once bytes of a refused packet have arrived behind `ps`. */
  lemma PrefixBehind(mtu: nat, ps: seq<Packet>, more: seq<Packet>, t: seq<byte>)
    requires AllSendable(mtu, ps) && AllEncodable(more) && more != [] && !Sendable(mtu, more[0])
    requires t <= EncodeAll(more)
    ensures Decode(mtu, EncodeAll(ps) + t) == Decoded(ps, if |t| < WIRE_SIZE then Waiting(t) else Broken(InvalidSize))
  {
    var frame, behind := EncodeFrame(more[0]), EncodeAll(more[1..]);
    assert |frame| >= WIRE_SIZE && EncodeAll(more) == frame + behind;
    hide Decode, EncodeFrame, Sendable, EncodeAll;
    DecodeEncodeAll(mtu, ps, t);
    if |t| < WIRE_SIZE {
      DecodeNothingYet(mtu, t);
    } else {
      assert t[..WIRE_SIZE] == (frame + behind)[..WIRE_SIZE] == frame[..WIRE_SIZE];
      DecodeRefused(mtu, more[0], t);
    }
    assert ps + [] == ps;
  }

  /** Exactly the streams of packets that the receiver may be sent decode to the end. */
  lemma DecodesIff(mtu: nat, ps: seq<Packet>)
    requires AllEncodable(ps)
    ensures Decode(mtu, EncodeAll(ps)).ending.Waiting? <==> forall i | 0 <= i < |ps| :: 1 <= |ps[i]| <= mtu
    ensures AllSendable(mtu, ps) ==> Decode(mtu, EncodeAll(ps)) == Decoded(ps, Waiting([]))
  {
    assert AllSendable(mtu, ps) <==> forall i | 0 <= i < |ps| :: 1 <= |ps[i]| <= mtu;
    hide Decode, EncodeFrame, Leading, Sendable;
    DecodePrefix(mtu, ps, EncodeAll(ps));
    var k := Leading(mtu, ps);
    if k == |ps| {
      DecodeEncodeAll(mtu, ps, []);
      DecodeNothingYet(mtu, []);
      assert EncodeAll(ps) + [] == EncodeAll(ps) && ps + [] == ps;
    } else {
      HoldsHeader(ps, k);
    }
  }

  lemma HoldsHeader(ps: seq<Packet>, k: nat)
    requires AllEncodable(ps) && k < |ps|
    ensures |EncodeAll(ps)| >= |EncodeAll(ps[..k])| + WIRE_SIZE
  {
    assert ps == ps[..k] + ps[k..];
    EncodeAllConcat(ps[..k], ps[k..]);
  }

  lemma {:induction false} EncodeAllSnoc(ps: seq<Packet>, p: Packet)
    requires AllEncodable(ps) && |p| < U32_LIMIT
    ensures EncodeAll(ps + [p]) == EncodeAll(ps) + EncodeFrame(p)
    decreases |ps|
  {
    hide EncodeFrame;
    if ps == [] {
      assert ps + [p] == [p];
      assert EncodeAll([p][1..]) == [];
    } else {
      assert (ps + [p])[1..] == ps[1..] + [p];
      EncodeAllSnoc(ps[1..], p);
    }
  }

  lemma {:induction false} EncodeAllConcat(ps: seq<Packet>, qs: seq<Packet>)
    requires AllEncodable(ps) && AllEncodable(qs)
    ensures EncodeAll(ps + qs) == EncodeAll(ps) + EncodeAll(qs)
    decreases |ps|
  {
    hide EncodeFrame;
    if ps == [] {
      assert ps + qs == qs;
    } else {
      assert (ps + qs)[1..] == ps[1..] + qs;
      EncodeAllConcat(ps[1..], qs);
    }
  }

  // --- The decoder accepts exactly the framed streams -------------------------------------------

  /** `s` is the frames `hs[i] ++ ps[i]`, each acceptable, followed by `rest`. */
  ghost predicate Framed(mtu: nat, s: seq<byte>, hs: seq<seq<byte>>, ps: seq<Packet>, rest: seq<byte>)
    decreases |ps|
  {
    if ps == [] then hs == [] && s == rest else
      && hs != []
      && |hs[0]| == WIRE_SIZE
      && HeaderOk(mtu, hs[0]) && SizeOf(hs[0]) == |ps[0]| && CrcOf(hs[0]) == CrcField(ps[0])
      && hs[0] + ps[0] <= s
      && Framed(mtu, s[WIRE_SIZE + |ps[0]|..], hs[1..], ps[1..], rest)
  }

  lemma {:induction false} FramedDecodes(mtu: nat, s: seq<byte>, hs: seq<seq<byte>>, ps: seq<Packet>, rest: seq<byte>)
    requires Framed(mtu, s, hs, ps, rest)
    ensures var d := Decode(mtu, rest);
      Decode(mtu, s) == Decoded(ps + d.packets, d.ending)
    decreases |ps|
  {
    hide CrcField, HeaderOk, SizeOf, CrcOf, HeaderError;
    if ps == [] {
      assert ps + Decode(mtu, rest).packets == Decode(mtu, rest).packets;
    } else {
      var end := WIRE_SIZE + |ps[0]|;
      assert s[..WIRE_SIZE] == hs[0] && s[WIRE_SIZE..end] == ps[0];
      FramedDecodes(mtu, s[end..], hs[1..], ps[1..], rest);
      assert [ps[0]] + (ps[1..] + Decode(mtu, rest).packets) == ps + Decode(mtu, rest).packets;
    }
  }

  lemma {:induction false} DecodedFramed(mtu: nat, s: seq<byte>) returns (hs: seq<seq<byte>>, rest: seq<byte>)
    ensures Framed(mtu, s, hs, Decode(mtu, s).packets, rest)
    ensures Decode(mtu, rest) == Decoded([], Decode(mtu, s).ending)
    decreases |s|
  {
    hide CrcField, HeaderOk, SizeOf, CrcOf, HeaderError;
    hs, rest := [], s;
    if Decode(mtu, s).packets != [] {
      var h := s[..WIRE_SIZE];
      var end := WIRE_SIZE + SizeOf(h);
      var hs' ;
      hs', rest := DecodedFramed(mtu, s[end..]);
      hs := [h] + hs';
      assert hs[1..] == hs' && Decode(mtu, s).packets[1..] == Decode(mtu, s[end..]).packets;
      assert h + s[WIRE_SIZE..end] == s[..end];
    }
  }

  // --- Corruption -------------------------------------------------------------------------------

  lemma CrcFieldInjective(p: Packet, q: Packet)
    requires CrcField(p) == CrcField(q)
    ensures Crc32c.Checksum(p) == Crc32c.Checksum(q)
  {
    hide Crc32c.Checksum, WordValue;
    WordValueInjective(Crc32c.Checksum(p), Crc32c.Checksum(q));
  }

  /** A frame whose payload arrives as another of the same length with another checksum is refused. */
  lemma ForgedPayload(mtu: nat, p: Packet, q: Packet, tail: seq<byte>)
    requires Sendable(mtu, p) && |q| == |p| && Crc32c.Checksum(p) != Crc32c.Checksum(q)
    ensures Decode(mtu, Encode(|p|, CrcField(p)) + q + tail) == Decoded([], Broken(FrameCrcMismatch))
  {
    hide Crc32c.Checksum, CrcField, Encode, MagicValid, SizeOf, CrcOf, HeaderError;
    var h := Encode(|p|, CrcField(p));
    var s := h + q + tail;
    EncodeDecodes(|p|, CrcField(p));
    if CrcField(p) == CrcField(q) {
      CrcFieldInjective(p, q);
    }
    assert s[..WIRE_SIZE] == h;
    assert s[WIRE_SIZE..WIRE_SIZE + |p|] == q;
  }

  /** Errors within 32 consecutive payload bits never get past the receiver. */
  lemma BurstRefused(mtu: nat, p: Packet, q: Packet, start: nat, tail: seq<byte>)
    requires Sendable(mtu, p) && |q| == |p|
    requires CrcDetection.BurstApart(Crc32c.BitsOf(p), Crc32c.BitsOf(q), start)
    ensures Decode(mtu, Encode(|p|, CrcField(p)) + q + tail) == Decoded([], Broken(FrameCrcMismatch))
  {
    hide Decode, Crc32c.Checksum;
    CrcDetection.ChecksumDetectsBurst(p, q, start);
    ForgedPayload(mtu, p, q, tail);
  }

  /** Neither does an odd number of flipped payload bits. */
  lemma OddErrorsRefused(mtu: nat, p: Packet, q: Packet, tail: seq<byte>)
    requires Sendable(mtu, p) && |q| == |p|
    requires CrcDetection.Weight(CrcDetection.Difference(Crc32c.BitsOf(p), Crc32c.BitsOf(q))) % 2 == 1
    ensures Decode(mtu, Encode(|p|, CrcField(p)) + q + tail) == Decoded([], Broken(FrameCrcMismatch))
  {
    hide Decode, Crc32c.Checksum;
    CrcDetection.ChecksumDetectsOddWeight(p, q);
    ForgedPayload(mtu, p, q, tail);
  }
}
