/** The datagram header of section 7 of RFC 1928 (socks5_udp.rs): encoders and decoder fit each other both ways. */
module SocksUdp {
  import opened MachineInts
  import opened Wrappers
  import opened Socks5
  import opened SocksRequest

  const UNSPECIFIED: Octets4 := [0, 0, 0, 0]

  /** The growable output buffer of the encoders. */
  class Buffer {
    var bytes: Bytes

    constructor ()
      ensures bytes == []
    {
      bytes := [];
    }
  }

  function UdpRequest(dst: SocketAddr, payload: Bytes): Bytes {
    [0, 0, 0] + AddressText(dst) + payload
  }

  function UdpDomainRequest(host: Bytes, port: u16, payload: Bytes): Bytes
    requires |host| <= 255
  {
    [0, 0, 0, ATYP_DOMAIN, |host|] + host + Be16(port) + payload
  }

  /** `encode_udp_request_into` */
  method EncodeUdpRequestInto(out: Buffer, dst: SocketAddr, payload: Bytes)
    modifies out
    ensures out.bytes == UdpRequest(dst, payload)
  {
    out.bytes := [];
    out.bytes := out.bytes + [0, 0, 0];
    match dst {
      case V4(octets, _) =>
        out.bytes := out.bytes + [ATYP_IPV4];
        out.bytes := out.bytes + octets;
      case V6(octets, _, _, _) =>
        out.bytes := out.bytes + [ATYP_IPV6];
        out.bytes := out.bytes + octets;
    }
    out.bytes := out.bytes + Be16(dst.port);
    assert out.bytes == [0, 0, 0] + AddressText(dst);
    out.bytes := out.bytes + payload;
  }

  /** `encode_udp_request_domain_into`; a refused host leaves the buffer as it was. */
  method EncodeUdpRequestDomainInto(out: Buffer, host: Bytes, dstPort: u16, payload: Bytes)
    returns (r: Result<Unit, Error>)
    modifies out
    ensures if 1 <= |host| <= 255 then r == Ok(Unit) && out.bytes == UdpDomainRequest(host, dstPort, payload)
            else r == Err(HostTooLong(|host|)) && out.bytes == old(out.bytes)
  {
    if host == [] || |host| > 255 {
      return Err(HostTooLong(|host|));
    }
    out.bytes := [];
    out.bytes := out.bytes + [0, 0, 0, ATYP_DOMAIN];
    out.bytes := out.bytes + [|host|];
    assert out.bytes == [0, 0, 0, ATYP_DOMAIN, |host|];
    out.bytes := out.bytes + host;
    out.bytes := out.bytes + Be16(dstPort);
    out.bytes := out.bytes + payload;
    return Ok(Unit);
  }

  /** `decode_udp_reply`: the address, and where the payload starts. */
  function DecodeUdpReply(buf: Bytes): (r: Result<(SocketAddr, nat), Error>)
    ensures r.Ok? ==> r.value.1 <= |buf|
  {
    if |buf| < 4 then Err(Proto("udp reply too short"))
    else if buf[0] != 0 || buf[1] != 0 then Err(Proto("udp reply RSV != 0"))
    else if buf[2] != 0 then Err(Proto("udp reply fragmented"))
    else if buf[3] == ATYP_IPV4 then
      if |buf| < 4 + 4 + 2 then Err(Proto("ipv4 udp reply truncated"))
      else Ok((V4(buf[4..8], FromBe16(buf[8], buf[9])), 10))
    else if buf[3] == ATYP_IPV6 then
      if |buf| < 4 + 16 + 2 then Err(Proto("ipv6 udp reply truncated"))
      else Ok((V6(buf[4..20], FromBe16(buf[20], buf[21]), 0, 0), 22))
    else if buf[3] == ATYP_DOMAIN then
      if |buf| < 5 then Err(Proto("domain udp reply truncated"))
      else
        var n: nat := buf[4];
        var end := 5 + n;
        if |buf| < end + 2 then Err(Proto("domain udp reply truncated"))
        else Ok((V4(UNSPECIFIED, FromBe16(buf[end], buf[end + 1])), end + 2))
    else Err(Proto("unknown ATYP in udp reply"))
  }

  /** An encoded datagram decodes to its address, less the IPv6 fields without a place in it, and to its payload. */
  lemma AddressDatagram(dst: SocketAddr, payload: Bytes)
    ensures var buf := UdpRequest(dst, payload);
            var r := DecodeUdpReply(buf);
            r.Ok? && r.value.0 == dst.Plain() && buf[r.value.1..] == payload
  {
    var ip := if dst.V4? then dst.ip4 else dst.ip6;
    var buf := UdpRequest(dst, payload);
    Be16RoundTrip(dst.port);
    assert buf == [0, 0, 0, if dst.V4? then ATYP_IPV4 else ATYP_IPV6] + ip + Be16(dst.port) + payload;
    assert buf[4..4 + |ip|] == ip && buf[4 + |ip| + 2..] == payload;
    assert buf[4 + |ip|] == Be16(dst.port)[0] && buf[4 + |ip| + 1] == Be16(dst.port)[1];
  }

  /** A datagram for a host name keeps its port and its payload; the name is not looked at. */
  lemma DomainDatagram(host: Bytes, port: u16, payload: Bytes)
    requires |host| <= 255
    ensures var buf := UdpDomainRequest(host, port, payload);
            var r := DecodeUdpReply(buf);
            r.Ok? && r.value.0 == V4([0, 0, 0, 0], port) && buf[r.value.1..] == payload
  {
    var buf := UdpDomainRequest(host, port, payload);
    Be16RoundTrip(port);
    assert buf[5 + |host|] == Be16(port)[0] && buf[5 + |host| + 1] == Be16(port)[1];
    assert buf[5 + |host| + 2..] == payload;
  }

  lemma FromBe16RoundTrip(hi: byte, lo: byte)
    ensures Be16(FromBe16(hi, lo)) == [hi, lo]
  {
  }

  /** What the decoder accepts is laid out as the encoders lay it out. That includes datagrams for a host of no
      bytes, which `encode_udp_request_domain_into` refuses to write. */
  lemma AcceptedIsEncoded(buf: Bytes)
    requires DecodeUdpReply(buf).Ok?
    ensures var (a, at) := DecodeUdpReply(buf).value;
            if buf[3] == ATYP_DOMAIN
            then 7 <= at <= 7 + 255 && buf == UdpDomainRequest(buf[5..at - 2], a.port, buf[at..])
            else buf == UdpRequest(a, buf[at..])
  {
    var (a, at) := DecodeUdpReply(buf).value;
    FromBe16RoundTrip(buf[at - 2], buf[at - 1]);
    assert buf[at - 2..at] == Be16(a.port);
    if buf[3] == ATYP_DOMAIN {
      assert buf[..5] == [0, 0, 0, ATYP_DOMAIN, at - 7];
      assert buf == buf[..5] + buf[5..at - 2] + buf[at - 2..at] + buf[at..];
    } else {
      assert buf[..4] == [0, 0, 0, buf[3]];
      assert buf == buf[..4] + buf[4..at - 2] + buf[at - 2..at] + buf[at..];
      assert UdpRequest(a, buf[at..]) == [0, 0, 0, buf[3]] + buf[4..at - 2] + Be16(a.port) + buf[at..];
    }
  }

  /** Every way a datagram is refused, in the order of the checks. */
  lemma DatagramRefuses(buf: Bytes)
    ensures var r, n := DecodeUdpReply(buf), |buf|;
            && (n < 4 ==> r == Err(Proto("udp reply too short")))
            && (n >= 4 && !([0, 0] <= buf) ==> r == Err(Proto("udp reply RSV != 0")))
            && (n >= 4 && [0, 0] <= buf && buf[2] != 0 ==> r == Err(Proto("udp reply fragmented")))
            && ([0, 0, 0, 1] <= buf && n < 10 ==> r == Err(Proto("ipv4 udp reply truncated")))
            && ([0, 0, 0, 4] <= buf && n < 22 ==> r == Err(Proto("ipv6 udp reply truncated")))
            && ([0, 0, 0, 3] <= buf && (n < 5 || n < 7 + buf[4] as int) ==>
                  r == Err(Proto("domain udp reply truncated")))
            && (n >= 4 && [0, 0, 0] <= buf && buf[3] !in {1, 3, 4} ==> r == Err(Proto("unknown ATYP in udp reply")))
  {
  }
}
