/** Socket addresses, as far as CIDR blocks and the SOCKS5 handshake look into them. */
module Addresses {
  import opened ByteStreams

  /** IP addresses in network byte order. */
  type Bytes4 = s: seq<byte> | |s| == 4 witness [0, 0, 0, 0]
  type Bytes16 = s: seq<byte> | |s| == 16 witness seq(16, _ => 0)
  type Port = n: nat | n < 0x1_0000

  datatype SockAddress =
    | Unspecified
    | Ip4(addr4: Bytes4, port: Port)
    | Ip6(addr6: Bytes16, port: Port)
    | UnixPath

  /** A socket address, or a host name for the peer to resolve. */
  datatype Address = Sock(sa: SockAddress) | Host(hostname: seq<byte>, hostPort: Port)
}
