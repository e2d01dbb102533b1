/** The SOCKS5 handshake through a chain of proxies, over a socket that reads and writes as little as it likes. */
module Socks5 {
  import opened ByteStreams
  import opened Outcomes
  import opened Addresses
  import opened Numbers

  // --- The socket -------------------------------------------------------------------------------

  /**
   * A connected stream socket. `input` is everything the peer has sent or will send and nobody has received yet;
   * `sent` is everything the kernel took for the peer, and `last` is what the last call returned.
   */
  class Socket {
    var open: bool
    var input: seq<byte>
    var sent: seq<byte>
    var last: int

    constructor (input: seq<byte>)
      ensures open && this.input == input && sent == []
    {
      open, this.input, sent, last := true, input, [], 0;
    }

    /** Receives any number of bytes up to `limit`, or nothing because the peer closed the stream, or fails. */
    method Recv(limit: nat) returns (n: int, bytes: seq<byte>)
      requires open && limit > 0
      modifies this`input, this`last
      ensures n <= limit && n <= |old(input)| && last == n
      ensures n > 0 ==> bytes == old(input)[..n] && input == old(input)[n..]
      ensures n <= 0 ==> input == old(input)
    {
      n := *;
      bytes := [];
      n := if n > limit then limit else n;
      n := if n > |input| then |input| else n;
      if n > 0 {
        bytes, input := input[..n], input[n..];
      }
      last := n;
    }

    /** Takes any number of the bytes offered, or none, or fails. */
    method Send(bytes: seq<byte>) returns (n: int)
      requires open && bytes != []
      modifies this`sent, this`last
      ensures n <= |bytes| && last == n
      ensures sent == if n > 0 then old(sent) + bytes[..n] else old(sent)
    {
      n := *;
      n := if n > |bytes| then |bytes| else n;
      if n > 0 {
        sent := sent + bytes[..n];
      }
      last := n;
    }

    method Close()
      modifies this`open
      ensures !open
    {
      open := false;
    }
  }

  /** `s` is `whole` with some first bytes taken off. */
  predicate Suffix(s: seq<byte>, whole: seq<byte>) {
    |s| <= |whole| && s == whole[|whole| - |s|..]
  }

  /** Receives exactly `size` bytes, however they are split. */
  method SocketRecv(socket: Socket, data: array<byte>, size: nat) returns (r: Outcome)
    requires size <= data.Length
    modifies socket`input, socket`open, socket`last, data
    ensures r.Done? ==>
              && size <= |old(socket.input)|
              && data[..size] == old(socket.input)[..size] && socket.input == old(socket.input)[size..]
              && socket.open == old(socket.open)
    ensures r.Failed? ==> r.error in {InvalidSocket, PeerClosed, RecvFailed} && Suffix(socket.input, old(socket.input))
    ensures r == Failed(InvalidSocket) <==> size > 0 && !old(socket.open)
    ensures r == Failed(PeerClosed) <==> old(socket.open) && !socket.open
    ensures r == Failed(PeerClosed) ==> socket.last == 0
    ensures r == Failed(RecvFailed) ==> socket.last < 0
    ensures forall k | size <= k < data.Length :: data[k] == old(data[k])
  {
    if size == 0 {
      return Done;
    }
    if !socket.open {
      return Failed(InvalidSocket);
    }
    var processed := 0;
    ghost var whole := socket.input;
    while processed < size
      invariant processed <= size && processed <= |whole| && socket.open
      invariant data[..processed] == whole[..processed] && socket.input == whole[processed..]
      invariant forall k | size <= k < data.Length :: data[k] == old(data[k])
      decreases size - processed
    {
      var n, bytes := socket.Recv(size - processed);
      if n == 0 {
        socket.Close();
        return Failed(PeerClosed);
      }
      if n < 0 {
        return Failed(RecvFailed);
      }
      StoreAt(data, processed, bytes);
      assert whole[..processed] + whole[processed..][..n] == whole[..processed + n];
      processed := processed + n;
    }
    return Done;
  }

  /** Stores bytes in a buffer. */
  method StoreAt(data: array<byte>, at: nat, bytes: seq<byte>)
    requires at + |bytes| <= data.Length
    modifies data
    ensures data[..at + |bytes|] == old(data[..at]) + bytes
    ensures forall k | at + |bytes| <= k < data.Length :: data[k] == old(data[k])
  {
    for i := 0 to |bytes|
      invariant data[..at] == old(data[..at]) && data[at..at + i] == bytes[..i]
      invariant forall k | at + |bytes| <= k < data.Length :: data[k] == old(data[k])
    {
      data[at + i] := bytes[i];
    }
    assert bytes[..|bytes|] == bytes;
    assert data[..at + |bytes|] == data[..at] + data[at..at + |bytes|];
  }

  /** Sends all of `data`, however the kernel splits it. */
  method SocketSend(socket: Socket, data: seq<byte>) returns (r: Outcome)
    modifies socket`sent, socket`last
    ensures r.Done? ==> socket.sent == old(socket.sent) + data
    ensures r.Failed? ==>
              && r.error in {InvalidSocket, SendReturnedZero, SendFailed}
              && old(socket.sent) <= socket.sent <= old(socket.sent) + data
    ensures r == Failed(InvalidSocket) <==> data != [] && !socket.open
    ensures r == Failed(SendReturnedZero) ==> socket.last == 0
    ensures r == Failed(SendFailed) ==> socket.last < 0
  {
    if data == [] {
      return Done;
    }
    if !socket.open {
      return Failed(InvalidSocket);
    }
    var processed := 0;
    while processed < |data|
      invariant processed <= |data| && socket.sent == old(socket.sent) + data[..processed]
      decreases |data| - processed
    {
      var n := socket.Send(data[processed..]);
      if n == 0 {
        return Failed(SendReturnedZero);
      }
      if n < 0 {
        return Failed(SendFailed);
      }
      assert data[..processed] + data[processed..][..n] == data[..processed + n];
      processed := processed + n;
    }
    assert data[..processed] == data;
    return Done;
  }

  // --- What is asked ----------------------------------------------------------------------------

  const METHOD_REQUEST: seq<byte> := [0x05, 0x01, 0x00]

  function PortBytes(port: Port): (b: seq<byte>)
    ensures |b| == 2
  {
    PutBigEndian(port, 2)
  }

  predicate Reachable(a: Address) {
    match a
    case Host(name, _) => |name| <= 255
    case Sock(sa) => sa.Ip4? || sa.Ip6?
  }

  /** An address as both requests and replies carry it (section 5 of RFC 1928): its type, its bytes and its port. */
  function AddressBytes(a: Address): (s: seq<byte>)
    requires Reachable(a)
    ensures |s| <= 259
  {
    match a
    case Host(name, port) => [0x03, ByteOf(|name|)] + name + PortBytes(port)
    case Sock(Ip4(b, port)) => [0x01] + b + PortBytes(port)
    case Sock(Ip6(b, port)) => [0x04] + b + PortBytes(port)
  }

  /** The CONNECT request of section 4 of RFC 1928. */
  function Request(a: Address): (s: seq<byte>)
    requires Reachable(a)
    ensures |s| <= 262
  {
    [0x05, 0x01, 0x00] + AddressBytes(a)
  }

  /** A request, part by part. */
  lemma RequestParts(a: Address)
    requires Reachable(a)
    ensures a.Host? ==>
              Request(a) == [0x05, 0x01, 0x00, 0x03, ByteOf(|a.hostname|)] + a.hostname + PortBytes(a.hostPort)
    ensures a.Sock? && a.sa.Ip4? ==> Request(a) == [0x05, 0x01, 0x00, 0x01] + a.sa.addr4 + PortBytes(a.sa.port)
    ensures a.Sock? && a.sa.Ip6? ==> Request(a) == [0x05, 0x01, 0x00, 0x04] + a.sa.addr6 + PortBytes(a.sa.port)
  {
    hide ByteOf, PortBytes;
    match a {
      case Host(name, port) => Prepend([0x03, ByteOf(|name|)], name, PortBytes(port));
      case Sock(Ip4(b, port)) => Prepend([0x01], b, PortBytes(port));
      case Sock(Ip6(b, port)) => Prepend([0x04], b, PortBytes(port));
    }
  }

  lemma Prepend(kind: seq<byte>, body: seq<byte>, port: seq<byte>)
    ensures [0x05, 0x01, 0x00] + (kind + body + port) == [0x05, 0x01, 0x00] + kind + body + port
    ensures |kind| == 1 ==> [0x05, 0x01, 0x00] + kind == [0x05, 0x01, 0x00, kind[0]]
    ensures |kind| == 2 ==> [0x05, 0x01, 0x00] + kind == [0x05, 0x01, 0x00, kind[0], kind[1]]
  {
  }

  /** A port goes out most significant byte first. */
  lemma PortOnWire(port: Port)
    ensures PortBytes(port) == [ByteOf(port / 0x100), ByteOf(port % 0x100)]
    ensures ValueOf(ByteOf(port / 0x100)) == port / 0x100 && ValueOf(ByteOf(port % 0x100)) == port % 0x100
  {
    ByteValue(port / 0x100);
    ByteValue(port % 0x100);
    hide ByteOf, ValueOf;
    assert PutBigEndian(port / 0x100, 1) == [ByteOf(port / 0x100)];
  }

  /** What a proxy does with the bytes of a CONNECT request: the target and the bytes behind the request. */
  function ParseRequest(s: seq<byte>): Option<(Address, seq<byte>)> {
    if |s| < 5 || s[0] != 0x05 || s[1] != 0x01 || s[2] != 0x00 then None
    else if s[3] == 0x01 && |s| >= 10 then
      Some((Sock(Ip4(s[4..8], PortAt(s, 8))), s[10..]))
    else if s[3] == 0x04 && |s| >= 22 then
      Some((Sock(Ip6(s[4..20], PortAt(s, 20))), s[22..]))
    else if s[3] == 0x03 && |s| >= 5 + ValueOf(s[4]) + 2 then
      var end := 5 + ValueOf(s[4]);
      Some((Host(s[5..end], PortAt(s, end)), s[end + 2..]))
    else None
  }

  function PortAt(s: seq<byte>, at: nat): Port
    requires at + 2 <= |s|
  {
    BigEndianBound(s[at..at + 2]);
    WordPower();
    BigEndian(s[at..at + 2])
  }

  lemma PortParses(s: seq<byte>, at: nat, port: Port)
    requires at + 2 <= |s| && s[at..at + 2] == PortBytes(port)
    ensures PortAt(s, at) == port
  {
    WordPower();
    PutReads(port, 2);
  }

  /** Where the parts of a request lie. */
  lemma Layout(head: seq<byte>, body: seq<byte>, port: seq<byte>, tail: seq<byte>)
    requires |port| == 2
    ensures var s, n, end := head + body + port + tail, |head|, |head| + |body|;
      && s[..n] == head && s[n..end] == body && s[end..end + 2] == port && s[end + 2..] == tail
      && |s| >= end + 2
  {
  }

  lemma HostParses(name: seq<byte>, port: Port, tail: seq<byte>)
    requires |name| <= 255
    ensures ParseRequest([0x05, 0x01, 0x00, 0x03, ByteOf(|name|)] + name + PortBytes(port) + tail)
         == Some((Host(name, port), tail))
  {
    hide ByteOf, ValueOf, PortBytes, PortAt;
    var head := [0x05, 0x01, 0x00, 0x03, ByteOf(|name|)];
    var s := head + name + PortBytes(port) + tail;
    Layout(head, name, PortBytes(port), tail);
    assert s[0] == s[..5][0] && s[1] == s[..5][1] && s[2] == s[..5][2] && s[3] == s[..5][3] && s[4] == s[..5][4];
    ByteValue(|name|);
    PortParses(s, 5 + |name|, port);
  }

  lemma Ip4Parses(b: Bytes4, port: Port, tail: seq<byte>)
    ensures ParseRequest([0x05, 0x01, 0x00, 0x01] + b + PortBytes(port) + tail) == Some((Sock(Ip4(b, port)), tail))
  {
    hide ByteOf, ValueOf, PortBytes, PortAt;
    var s := [0x05, 0x01, 0x00, 0x01] + b + PortBytes(port) + tail;
    Layout([0x05, 0x01, 0x00, 0x01], b, PortBytes(port), tail);
    assert s[0] == s[..4][0] && s[1] == s[..4][1] && s[2] == s[..4][2] && s[3] == s[..4][3];
    PortParses(s, 8, port);
  }

  lemma Ip6Parses(b: Bytes16, port: Port, tail: seq<byte>)
    ensures ParseRequest([0x05, 0x01, 0x00, 0x04] + b + PortBytes(port) + tail) == Some((Sock(Ip6(b, port)), tail))
  {
    hide ByteOf, ValueOf, PortBytes, PortAt;
    var s := [0x05, 0x01, 0x00, 0x04] + b + PortBytes(port) + tail;
    Layout([0x05, 0x01, 0x00, 0x04], b, PortBytes(port), tail);
    assert s[0] == s[..4][0] && s[1] == s[..4][1] && s[2] == s[..4][2] && s[3] == s[..4][3];
    PortParses(s, 20, port);
  }

  /** A proxy reads back exactly the target that was asked for, and not one byte more. */
  lemma RequestParses(a: Address, tail: seq<byte>)
    requires Reachable(a)
    ensures ParseRequest(Request(a) + tail) == Some((a, tail))
  {
    hide ByteOf, PortBytes, ParseRequest, Request;
    RequestParts(a);
    match a {
      case Host(name, port) => HostParses(name, port, tail);
      case Sock(Ip4(b, port)) => Ip4Parses(b, port, tail);
      case Sock(Ip6(b, port)) => Ip6Parses(b, port, tail);
    }
  }

  /** The bytes one hop of the chain sends: the method offer, then the request for the next hop. */
  function HopBytes(a: Address): seq<byte>
    requires Reachable(a)
  {
    METHOD_REQUEST + Request(a)
  }

  predicate AllReachable(hops: seq<Address>) {
    forall i | 0 <= i < |hops| :: Reachable(hops[i])
  }

  function ChainBytes(hops: seq<Address>): seq<byte>
    requires AllReachable(hops)
  {
    if hops == [] then [] else HopBytes(hops[0]) + ChainBytes(hops[1..])
  }

  /** The targets asked for in what a chain of proxies is sent. */
  function ParseChain(s: seq<byte>): Option<seq<Address>>
    decreases |s|
  {
    if s == [] then Some([])
    else if |s| < 3 || s[0] != 0x05 || s[1] != 0x01 || s[2] != 0x00 then None
    else match ParseRequest(s[3..])
      case None => None
      case Some(parsed) =>
        if |parsed.1| >= |s| then None else
        match ParseChain(parsed.1)
        case None => None
        case Some(rest) => Some([parsed.0] + rest)
  }

  /** The requests of a chain read back as its hops, in order. */
  lemma {:induction false} ChainParses(hops: seq<Address>)
    requires AllReachable(hops)
    ensures ParseChain(ChainBytes(hops)) == Some(hops)
    decreases |hops|
  {
    hide Request, ParseRequest;
    if hops != [] {
      var tail := ChainBytes(hops[1..]);
      var s := ChainBytes(hops);
      ChainParses(hops[1..]);
      RequestParses(hops[0], tail);
      assert s[..3] == METHOD_REQUEST && s[3..] == Request(hops[0]) + tail;
      assert [hops[0]] + hops[1..] == hops;
    }
  }

  lemma {:induction false} ChainSnoc(hops: seq<Address>, a: Address)
    requires AllReachable(hops) && Reachable(a)
    ensures ChainBytes(hops + [a]) == ChainBytes(hops) + HopBytes(a)
    decreases |hops|
  {
    hide HopBytes;
    if hops == [] {
      assert hops + [a] == [a];
      assert ChainBytes([a][1..]) == [];
    } else {
      assert (hops + [a])[1..] == hops[1..] + [a];
      ChainSnoc(hops[1..], a);
    }
  }

  // --- What is answered -------------------------------------------------------------------------

  /** What a proxy's stream holds: a complete success and the bytes behind it, a refusal, or too little to tell. */
  datatype Answer = Accepted(rest: seq<byte>) | Refused(error: ErrorCode) | Short

  /** The length of the bound address in a command reply, once its type byte (and length byte) are known. */
  function BoundLength(t: seq<byte>): Option<nat>
    requires |t| >= 4
  {
    if t[3] == 0x01 then Some(6)
    else if t[3] == 0x04 then Some(18)
    else if t[3] == 0x03 && |t| >= 5 then Some(1 + ValueOf(t[4]) + 2)
    else None
  }

  /** The command reply of section 6 of RFC 1928. */
  function ParseReply(t: seq<byte>): Answer {
    if |t| < 4 then Short
    else if t[1] != 0x00 then Refused(SocksConnectFailed)
    else if t[3] != 0x01 && t[3] != 0x04 && t[3] != 0x03 then Refused(SocksUnsupportedTargetFamily)
    else match BoundLength(t)
      case None => Short
      case Some(n) => if |t| < 4 + n then Short else Accepted(t[4 + n..])
  }

  /** The method reply of section 3 of RFC 1928, then the command reply. */
  function ParseAnswer(s: seq<byte>): Answer {
    if |s| < 2 then Short
    else if s[1] != 0x00 then Refused(SocksAuthMethodUnsupported)
    else ParseReply(s[2..])
  }

  /** What a proxy replies: its version, a code, a reserved byte, and the address it is bound to. */
  function Reply(version: byte, code: byte, reserved: byte, bound: Address): seq<byte>
    requires Reachable(bound)
  {
    [version, code, reserved] + AddressBytes(bound)
  }

  /** A reply is a success exactly if its code is 0, and then all of it is consumed and no more. */
  lemma ReplyParses(version: byte, code: byte, reserved: byte, bound: Address, rest: seq<byte>)
    requires Reachable(bound)
    ensures ParseReply(Reply(version, code, reserved, bound) + rest)
         == if code == 0x00 then Accepted(rest) else Refused(SocksConnectFailed)
  {
    hide ByteOf, ValueOf, PortBytes;
    var reply := Reply(version, code, reserved, bound);
    assert (reply + rest)[|reply|..] == rest;
    if bound.Host? {
      ByteValue(|bound.hostname|);
      assert (reply + rest)[4] == ByteOf(|bound.hostname|);
    }
  }

  /** As long as a byte of a successful reply is missing, there is no telling. */
  lemma ReplyWaits(version: byte, reserved: byte, bound: Address, n: nat)
    requires Reachable(bound) && n < |Reply(version, 0x00, reserved, bound)|
    ensures ParseReply(Reply(version, 0x00, reserved, bound)[..n]) == Short
  {
    hide ByteOf, ValueOf, PortBytes;
    var t := Reply(version, 0x00, reserved, bound)[..n];
    if bound.Host? && n >= 5 {
      ByteValue(|bound.hostname|);
      assert t[4] == ByteOf(|bound.hostname|);
    }
  }

  /** A successful reply with an address of any other type is refused. */
  lemma OtherTypeRefused(t: seq<byte>)
    requires |t| >= 4 && t[1] == 0x00 && t[3] !in {0x01, 0x03, 0x04}
    ensures ParseReply(t) == Refused(SocksUnsupportedTargetFamily)
  {
  }

  /** With the reply to the method offer in front: the proxy must have chosen method 0. */
  lemma AnswerParses(first: byte, chosen: byte, version: byte, code: byte, reserved: byte, bound: Address,
                     rest: seq<byte>)
    requires Reachable(bound)
    ensures ParseAnswer([first, chosen] + Reply(version, code, reserved, bound) + rest)
         == if chosen != 0x00 then Refused(SocksAuthMethodUnsupported)
            else if code != 0x00 then Refused(SocksConnectFailed)
            else Accepted(rest)
  {
    hide ParseReply, AddressBytes;
    var reply := Reply(version, code, reserved, bound);
    ReplyParses(version, code, reserved, bound, rest);
    assert ([first, chosen] + reply + rest)[2..] == reply + rest;
  }

  /** What is left once `n` proxies have answered with success. */
  function AfterAnswers(s: seq<byte>, n: nat): Answer {
    if n == 0 then Accepted(s)
    else match ParseAnswer(s)
      case Accepted(rest) => AfterAnswers(rest, n - 1)
      case other => other
  }

  lemma {:induction false} AnswersSnoc(s: seq<byte>, n: nat)
    ensures AfterAnswers(s, n + 1) ==
              match AfterAnswers(s, n)
              case Accepted(rest) => ParseAnswer(rest)
              case other => other
    decreases n
  {
    hide ParseAnswer;
    if n == 0 {
      if ParseAnswer(s).Accepted? {
        assert AfterAnswers(ParseAnswer(s).rest, 0) == ParseAnswer(s);
      }
    } else if ParseAnswer(s).Accepted? {
      AnswersSnoc(ParseAnswer(s).rest, n - 1);
    }
  }

  // --- The handshake ----------------------------------------------------------------------------

  /** Fills the request buffer; the result is how much of it is used. */
  method FillRequest(buffer: array<byte>, a: Address) returns (r: Result<nat>)
    requires buffer.Length == 262 && (a.Host? ==> |a.hostname| <= 255)
    modifies buffer
    ensures r.Ok? <==> Reachable(a)
    ensures r.Ok? ==> r.value <= 262 && buffer[..r.value] == Request(a)
    ensures r.Fail? ==> r.error == SocksUnsupportedTargetFamily
  {
    hide PortBytes, ByteOf, Request, AddressBytes;
    if Reachable(a) {
      RequestParts(a);
    }
    buffer[0], buffer[1], buffer[2] := 0x05, 0x01, 0x00;
    match a {
      case Host(name, port) =>
        buffer[3] := 0x03;
        buffer[4] := ByteOf(|name|);
        assert buffer[..5] == [0x05, 0x01, 0x00, 0x03, ByteOf(|name|)];
        FillTail(buffer, 5, name, port);
        return Ok(7 + |name|);
      case Sock(Ip4(b, port)) =>
        buffer[3] := 0x01;
        assert buffer[..4] == [0x05, 0x01, 0x00, 0x01];
        FillTail(buffer, 4, b, port);
        return Ok(10);
      case Sock(Ip6(b, port)) =>
        buffer[3] := 0x04;
        assert buffer[..4] == [0x05, 0x01, 0x00, 0x04];
        FillTail(buffer, 4, b, port);
        return Ok(22);
      case _ =>
        return Fail(SocksUnsupportedTargetFamily);
    }
  }

  /** Stores an address and a port behind the header of a request. */
  method FillTail(buffer: array<byte>, at: nat, body: seq<byte>, port: Port)
    requires at + |body| + 2 <= buffer.Length
    modifies buffer
    ensures buffer[..at + |body| + 2] == old(buffer[..at]) + body + PortBytes(port)
  {
    hide PortBytes;
    StoreAt(buffer, at, body);
    StoreAt(buffer, at + |body|, PortBytes(port));
  }

  /** The method offer and its reply. */
  method Negotiate(socket: Socket) returns (r: Outcome)
    modifies socket
    ensures r.Done? ==>
              && socket.sent == old(socket.sent) + METHOD_REQUEST
              && |old(socket.input)| >= 2 && old(socket.input)[1] == 0x00 && socket.input == old(socket.input)[2..]
    ensures r == Failed(SocksAuthMethodUnsupported) ==> |old(socket.input)| >= 2 && old(socket.input)[1] != 0x00
    ensures r.Failed? ==> r.error in {InvalidSocket, PeerClosed, RecvFailed, SendReturnedZero, SendFailed,
                                      SocksAuthMethodUnsupported}
  {
    r := SocketSend(socket, METHOD_REQUEST);
    if r.Failed? {
      return r;
    }
    var response := new byte[2];
    r := SocketRecv(socket, response, 2);
    if r.Failed? {
      return r;
    }
    assert response[1] == response[..2][1];
    if response[1] == 0xFF {
      return Failed(SocksAuthMethodUnsupported);
    }
    if response[1] != 0x00 {
      return Failed(SocksAuthMethodUnsupported);
    }
    return Done;
  }

  /** How many bytes of the bound address are still to come; a host name's own length byte is consumed first. */
  method ReadBoundLength(socket: Socket, kind: byte) returns (r: Outcome, length: nat)
    modifies socket`input, socket`open, socket`last
    ensures r.Done? ==>
              if kind == 0x01 then length == 6 && socket.input == old(socket.input)
              else if kind == 0x04 then length == 18 && socket.input == old(socket.input)
              else && kind == 0x03 && old(socket.input) != [] && length == ValueOf(old(socket.input)[0]) + 2
                   && socket.input == old(socket.input)[1..]
    ensures r.Done? ==> length <= 258
    ensures r == Failed(SocksUnsupportedTargetFamily) <==> kind !in {0x01, 0x03, 0x04}
    ensures r.Failed? ==> r.error in {InvalidSocket, PeerClosed, RecvFailed, SocksUnsupportedTargetFamily}
  {
    hide ValueOf;
    r, length := Done, 0;
    if kind == 0x01 {
      length := 4 + 2;
    } else if kind == 0x04 {
      length := 16 + 2;
    } else if kind == 0x03 {
      var len := new byte[1];
      r := SocketRecv(socket, len, 1);
      if r.Failed? {
        return r, 0;
      }
      assert len[0] == len[..1][0];
      length := ValueOf(len[0]) + 2;
    } else {
      r := Failed(SocksUnsupportedTargetFamily);
    }
  }

  /** Consumes the command reply: four bytes, then as many as its address type calls for. */
  method ConsumeReply(socket: Socket) returns (r: Outcome)
    modifies socket`input, socket`open, socket`last
    ensures r.Done? ==> ParseReply(old(socket.input)) == Accepted(socket.input)
    ensures r.Failed? && r.error in {SocksConnectFailed, SocksUnsupportedTargetFamily} ==>
              ParseReply(old(socket.input)) == Refused(r.error)
    ensures r.Failed? ==> r.error in {InvalidSocket, PeerClosed, RecvFailed, SocksConnectFailed,
                                      SocksUnsupportedTargetFamily}
  {
    hide ValueOf;
    ghost var t := socket.input;
    var response := new byte[4];
    r := SocketRecv(socket, response, 4);
    if r.Failed? {
      return r;
    }
    assert response[..4] == t[..4];
    assert response[1] == t[..4][1] == t[1] && response[3] == t[..4][3] == t[3];
    if response[1] != 0x00 {
      return Failed(SocksConnectFailed);
    }
    var length: nat;
    r, length := ReadBoundLength(socket, response[3]);
    if r.Failed? {
      return r;
    }
    var hole := new byte[258];
    r := SocketRecv(socket, hole, length);
  }

  /**
   * One hop: on success the proxy was sent the method offer and the request for `address`, and exactly its two
   * replies were consumed, whatever the split of reads and writes.
   */
  method Socks5Connect(socket: Socket, address: Address) returns (r: Outcome)
    modifies socket
    ensures address.Host? && |address.hostname| > 255 ==>
              r == Failed(SocksHostnameTooLong) && socket.sent == old(socket.sent) && socket.input == old(socket.input)
    ensures r == Failed(SocksHostnameTooLong) ==> address.Host? && |address.hostname| > 255
    ensures r.Done? ==>
              && Reachable(address)
              && socket.sent == old(socket.sent) + HopBytes(address)
              && ParseAnswer(old(socket.input)) == Accepted(socket.input)
    ensures r.Failed? && r.error in {SocksAuthMethodUnsupported, SocksConnectFailed} ==>
              ParseAnswer(old(socket.input)) == Refused(r.error)
    ensures r == Failed(SocksUnsupportedTargetFamily) ==>
              !Reachable(address) || ParseAnswer(old(socket.input)) == Refused(r.error)
  {
    hide Request, ParseReply;
    if address.Host? && |address.hostname| > 255 {
      return Failed(SocksHostnameTooLong);
    }
    r := Negotiate(socket);
    if r.Failed? {
      return r;
    }
    var request := new byte[262];
    var length := FillRequest(request, address);
    if length.Fail? {
      return Failed(length.error);
    }
    r := SocketSend(socket, request[..length.value]);
    if r.Failed? {
      return r;
    }
    Associative(old(socket.sent), METHOD_REQUEST, Request(address));
    r := ConsumeReply(socket);
  }

  // --- The chain --------------------------------------------------------------------------------

  /** Where the handshakes lead: each proxy is asked for the next one, the last for the target. */
  function Hops(target: Address, proxies: seq<Address>): (hops: seq<Address>)
    ensures |hops| == |proxies|
    ensures forall i | 0 <= i < |proxies| :: hops[i] == if i + 1 < |proxies| then proxies[i + 1] else target
  {
    if proxies == [] then [] else proxies[1..] + [target]
  }

  /** The peer the socket is connected to directly: the first proxy, or else the target. */
  function First(target: Address, proxies: seq<Address>): (first: Address)
    ensures proxies != [] ==> first == proxies[0]
    ensures proxies == [] ==> first == target
  {
    if proxies == [] then target else proxies[0]
  }

  /** What the error of a chain says about its hops and about the proxies' answers `s`. */
  predicate ChainRefused(hops: seq<Address>, s: seq<byte>, e: ErrorCode) {
    match e
    case SocksHostnameTooLong => exists i | 0 <= i < |hops| :: hops[i].Host? && |hops[i].hostname| > 255
    case SocksUnsupportedTargetFamily =>
      || (exists i | 0 <= i < |hops| :: !Reachable(hops[i]))
      || (exists n | 0 < n <= |hops| :: AfterAnswers(s, n) == Refused(e))
    case SocksAuthMethodUnsupported => exists n | 0 < n <= |hops| :: AfterAnswers(s, n) == Refused(e)
    case SocksConnectFailed => exists n | 0 < n <= |hops| :: AfterAnswers(s, n) == Refused(e)
    case _ => true
  }

  /** The error of one hop is the chain's, once the proxies before it have answered. */
  lemma HopRefused(hops: seq<Address>, i: nat, s: seq<byte>, rest: seq<byte>, e: ErrorCode)
    requires i < |hops| && AfterAnswers(s, i) == Accepted(rest)
    requires e == SocksHostnameTooLong ==> hops[i].Host? && |hops[i].hostname| > 255
    requires e in {SocksAuthMethodUnsupported, SocksConnectFailed} ==> ParseAnswer(rest) == Refused(e)
    requires e == SocksUnsupportedTargetFamily ==> !Reachable(hops[i]) || ParseAnswer(rest) == Refused(e)
    ensures ChainRefused(hops, s, e)
  {
    hide ParseAnswer, Reachable, AfterAnswers;
    AnswersSnoc(s, i);
    assert ParseAnswer(rest) == Refused(e) ==> AfterAnswers(s, i + 1) == Refused(e);
  }

  /** The handshakes with all the proxies, each asked for the next one and the last for the target. */
  method Handshakes(socket: Socket, target: Address, proxies: seq<Address>) returns (r: Outcome)
    requires socket.sent == []
    modifies socket
    ensures r.Done? ==>
              && AllReachable(Hops(target, proxies))
              && socket.sent == ChainBytes(Hops(target, proxies))
              && AfterAnswers(old(socket.input), |proxies|) == Accepted(socket.input)
    ensures r.Failed? ==> ChainRefused(Hops(target, proxies), old(socket.input), r.error)
  {
    hide HopBytes, ParseAnswer, ChainRefused, Reachable;
    ghost var hops := Hops(target, proxies);
    for i := 0 to |proxies|
      invariant AllReachable(hops[..i]) && socket.sent == ChainBytes(hops[..i])
      invariant AfterAnswers(old(socket.input), i) == Accepted(socket.input)
    {
      var next := if i + 1 == |proxies| then target else proxies[i + 1];
      assert next == hops[i];
      AnswersSnoc(old(socket.input), i);
      ghost var rest := socket.input;
      r := Socks5Connect(socket, next);
      if r.Failed? {
        HopRefused(hops, i, old(socket.input), rest, r.error);
        return r;
      }
      assert hops[..i + 1] == hops[..i] + [next];
      ChainSnoc(hops[..i], next);
    }
    assert hops[..|proxies|] == hops;
    return Done;
  }

  lemma NoHops()
    ensures AllReachable([]) && ChainBytes([]) == [] && ParseChain([]) == Some([])
  {
  }

  /**
   * Through the whole chain: `dial` holds the sockets that resolving and connecting to a peer yields, and any other
   * peer fails with `failure`. Only the first peer is dialed. On success every proxy was asked for the next hop and
   * each one's replies were consumed exactly, so the tunnel starts at its first byte. A refusal is either a proxy's
   * own, or is due to a hop that cannot be asked for.
   */
  method ConnectTo(target: Address, proxies: seq<Address>, dial: map<Address, Socket>, failure: ErrorCode)
    returns (r: Result<Socket>)
    requires forall a | a in dial :: dial[a].sent == []
    modifies if First(target, proxies) in dial then {dial[First(target, proxies)]} else {}
    ensures proxies != [] && proxies[0] !in dial ==> r == Fail(failure)
    ensures proxies == [] && target !in dial ==> r == Fail(failure)
    ensures r.Ok? && proxies != [] ==> proxies[0] in dial && r.value == dial[proxies[0]]
    ensures proxies == [] && target in dial ==> r == Ok(dial[target]) && dial[target].sent == []
    ensures First(target, proxies) in dial && r.Fail? ==>
              ChainRefused(Hops(target, proxies), old(dial[First(target, proxies)].input), r.error)
    ensures r.Ok? ==>
              && AllReachable(Hops(target, proxies))
              && r.value.sent == ChainBytes(Hops(target, proxies))
              && ParseChain(r.value.sent) == Some(Hops(target, proxies))
              && AfterAnswers(old(r.value.input), |proxies|) == Accepted(r.value.input)
  {
    hide ParseAnswer, ParseChain, ChainBytes, ChainRefused, AllReachable;
    if First(target, proxies) !in dial {
      return Fail(failure);
    }
    var socket := dial[First(target, proxies)];
    if proxies == [] {
      NoHops();
      return Ok(socket);
    }
    var done := Handshakes(socket, target, proxies);
    if done.Failed? {
      return Fail(done.error);
    }
    ChainParses(Hops(target, proxies));
    return Ok(socket);
  }
}
