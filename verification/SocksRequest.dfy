/** SOCKS5 requests and replies (sections 4 to 6 of RFC 1928): the client in socks5.rs and socks5_udp.rs, the server in
    server.rs. What one side writes, the other reads back. */
module SocksRequest {
  import opened MachineInts
  import opened Wrappers
  import opened Socks5
  import Utf8

  const CMD_CONNECT: byte := 1
  const CMD_UDP_ASSOCIATE: byte := 3
  const REP_SUCCEEDED: byte := 0
  const ATYP_IPV4: byte := 1
  const ATYP_DOMAIN: byte := 3
  const ATYP_IPV6: byte := 4
  const CONNECT_MAX_LEN: nat := 3 + 1 + 1 + 255 + 2

  type Octets4 = s: Bytes | |s| == 4 witness [0, 0, 0, 0]
  type Octets16 = s: Bytes | |s| == 16 witness [0, 0, 0, 0, 0, 0, 0, 0, 0, 0, 0, 0, 0, 0, 0, 0]

  datatype SocketAddr = V4(ip4: Octets4, port: u16) | V6(ip6: Octets16, port: u16, flowinfo: u32, scope: u32) {
    /** The part of it that goes over the wire. */
    function Plain(): SocketAddr {
      if V4? then this else V6(ip6, port, 0, 0)
    }
  }

  datatype Command = Connect | UdpAssociate | OtherCommand(code: byte)

  datatype Destination = Address(addr: SocketAddr) | Domain(host: Bytes, port: u16)

  /** How many bytes a reader takes, and what it makes of them. */
  datatype Parsed<+T> = Parsed(used: nat, result: Result<T, Error>)

  /** The input ends before its first n bytes. */
  function Short<T>(input: Bytes, n: nat): Parsed<T>
    requires |input| < n
  {
    Parsed(|input|, Err(Eof(n - |input|)))
  }

  function AddressText(a: SocketAddr): Bytes {
    (if a.V4? then [ATYP_IPV4] + a.ip4 else [ATYP_IPV6] + a.ip6) + Be16(a.port)
  }

  /** `Ipv4Addr` and a port from six bytes, `Ipv6Addr` and a port from eighteen. */
  function AddressOf(b: Bytes): SocketAddr
    requires |b| == 6 || |b| == 18
  {
    if |b| == 6 then V4(b[..4], FromBe16(b[4], b[5])) else V6(b[..16], FromBe16(b[16], b[17]), 0, 0)
  }

  lemma AddressIsRead(a: SocketAddr)
    ensures |AddressText(a)| == if a.V4? then 7 else 19
    ensures AddressText(a)[0] == if a.V4? then ATYP_IPV4 else ATYP_IPV6
    ensures AddressOf(AddressText(a)[1..]) == a.Plain()
  {
    var ip := if a.V4? then a.ip4 else a.ip6;
    Be16RoundTrip(a.port);
    assert AddressText(a)[1..] == ip + Be16(a.port);
    assert (ip + Be16(a.port))[..|ip|] == ip;
  }

  // ---------------------------------------------------------------- requests

  /** The request for a destination; None when the host name does not fit. */
  function ConnectRequest(dst: SocketAddr, host: Option<Bytes>): Option<Bytes> {
    match host
    case Some(h) =>
      if h == [] || |h| > 255 then None
      else Some([VER, CMD_CONNECT, 0, ATYP_DOMAIN, |h|] + h + Be16(dst.port))
    case None => Some([VER, CMD_CONNECT, 0] + AddressText(dst))
  }

  /** `encode_connect_into`: what it puts at the front of the buffer, and how long that is. */
  method EncodeConnectInto(buf: array<byte>, dst: SocketAddr, host: Option<Bytes>) returns (r: Result<nat, Error>)
    requires buf.Length >= CONNECT_MAX_LEN
    modifies buf
    ensures match ConnectRequest(dst, host)
            case Some(text) => r == Ok(|text|) && |text| <= CONNECT_MAX_LEN
                               && buf[..|text|] == text
                               && forall i :: |text| <= i < buf.Length ==> buf[i] == old(buf[i])
            case None => host.Some? && r == Err(HostTooLong(|host.value|))
                         && forall i :: 3 <= i < buf.Length ==> buf[i] == old(buf[i])
  {
    CopyInto(buf, 0, [VER, CMD_CONNECT, 0]);
    assert buf[..3] == [VER, CMD_CONNECT, 0];
    var n: nat;
    match host {
      case Some(h) =>
        if h == [] || |h| > 255 {
          return Err(HostTooLong(|h|));
        }
        n := PutDomain(buf, h, dst.port);
        assert [VER, CMD_CONNECT, 0] + [ATYP_DOMAIN, |h|] == [VER, CMD_CONNECT, 0, ATYP_DOMAIN, |h|];
      case None =>
        n := PutAddress(buf, 3, dst);
    }
    return Ok(n + 2);
  }

  /** A host name behind the first three bytes of a buffer. */
  method PutDomain(buf: array<byte>, h: Bytes, port: u16) returns (n: nat)
    requires 1 <= |h| <= 255 && buf.Length >= CONNECT_MAX_LEN
    modifies buf
    ensures n == 5 + |h|
    ensures buf[..n + 2] == old(buf[..3]) + [ATYP_DOMAIN, |h|] + h + Be16(port)
    ensures forall i :: n + 2 <= i < buf.Length ==> buf[i] == old(buf[i])
  {
    CopyInto(buf, 3, [ATYP_DOMAIN, |h|]);
    CopyInto(buf, 5, h);
    n := 5 + |h|;
    CopyInto(buf, n, Be16(port));
  }

  /** An address behind the first `at` bytes of a buffer; n is where the port starts. */
  method PutAddress(buf: array<byte>, at: nat, a: SocketAddr) returns (n: nat)
    requires at + 1 + 16 + 2 <= buf.Length
    modifies buf
    ensures n + 2 == at + |AddressText(a)| <= buf.Length
    ensures buf[..n + 2] == old(buf[..at]) + AddressText(a)
    ensures forall i :: n + 2 <= i < buf.Length ==> buf[i] == old(buf[i])
  {
    ghost var front := buf[..at];
    var ip: Bytes;
    match a {
      case V4(octets, _) =>
        CopyInto(buf, at, [ATYP_IPV4]);
        ip := octets;
      case V6(octets, _, _, _) =>
        CopyInto(buf, at, [ATYP_IPV6]);
        ip := octets;
    }
    CopyInto(buf, at + 1, ip);
    n := at + 1 + |ip|;
    CopyInto(buf, n, Be16(a.port));
    Joined(front, [if a.V4? then ATYP_IPV4 else ATYP_IPV6], ip, Be16(a.port));
  }

  lemma Joined(a: Bytes, b: Bytes, c: Bytes, d: Bytes)
    ensures a + b + c + d == a + (b + c + d)
  {
  }

  function CommandOf(code: byte): Command {
    if code == CMD_CONNECT then Connect
    else if code == CMD_UDP_ASSOCIATE then UdpAssociate
    else OtherCommand(code)
  }

  function Request(input: Bytes): Parsed<(Command, Destination)> {
    if |input| < 4 then Short(input, 4)
    else if input[0] != VER then Parsed(4, Err(Proto("bad version in request")))
    else
      var dest := RequestDestination(input[3], input[4..]);
      Parsed(4 + dest.used,
             if dest.result.Ok? then Ok((CommandOf(input[1]), dest.result.value)) else Err(dest.result.error))
  }

  /** The destination of a request, behind its first four bytes. */
  function RequestDestination(atyp: byte, d: Bytes): Parsed<Destination> {
    if atyp == ATYP_IPV4 then
      if |d| < 6 then Short(d, 6) else Parsed(6, Ok(Address(AddressOf(d[..6]))))
    else if atyp == ATYP_IPV6 then
      if |d| < 18 then Short(d, 18) else Parsed(18, Ok(Address(AddressOf(d[..18]))))
    else if atyp == ATYP_DOMAIN then
      if |d| < 1 then Short(d, 1)
      else if d[0] == 0 then Parsed(1, Err(Proto("empty domain in request")))
      else
        var len: nat := d[0];
        if |d| < len + 3 then Short(d, len + 3)
        else Parsed(len + 3, DomainOf(d[1..len + 3]))
    else Parsed(0, Err(Proto("unknown ATYP in request")))
  }

  function DomainOf(b: Bytes): Result<Destination, Error>
    requires |b| >= 2
  {
    var len := |b| - 2;
    if Utf8.Decode(b[..len]).None? then Err(Proto("non-utf8 domain"))
    else Ok(Domain(b[..len], FromBe16(b[len], b[len + 1])))
  }

  /** `read_request` */
  method ReadRequest(stream: Stream) returns (r: Result<(Command, Destination), Error>)
    modifies stream
    ensures stream.output == old(stream.output)
    ensures var p := Request(old(stream.input));
            p.used <= |old(stream.input)| && stream.input == old(stream.input)[p.used..] && r == p.result
  {
    hide AddressOf, DomainOf, CommandOf, RequestDestination;
    ghost var input := stream.input;
    var head :- stream.ReadExact(4);
    if head[0] != VER {
      return Err(Proto("bad version in request"));
    }
    var cmd := CommandOf(head[1]);
    ghost var p := RequestDestination(head[3], input[4..]);
    var dest :- ReadDestination(stream, head[3]);
    Ahead(input, 4, p.used);
    return Ok((cmd, dest));
  }

  method ReadDestination(stream: Stream, atyp: byte) returns (r: Result<Destination, Error>)
    modifies stream
    ensures stream.output == old(stream.output)
    ensures var p := RequestDestination(atyp, old(stream.input));
            p.used <= |old(stream.input)| && stream.input == old(stream.input)[p.used..] && r == p.result
  {
    hide AddressOf, DomainOf;
    ghost var d := stream.input;
    if atyp == ATYP_IPV4 {
      var b :- stream.ReadExact(6);
      return Ok(Address(AddressOf(b)));
    } else if atyp == ATYP_IPV6 {
      var b :- stream.ReadExact(18);
      return Ok(Address(AddressOf(b)));
    } else if atyp == ATYP_DOMAIN {
      var n :- stream.ReadExact(1);
      var len: nat := n[0];
      if len == 0 {
        return Err(Proto("empty domain in request"));
      }
      Ahead(d, 1, len + 2);
      var buf :- stream.ReadExact(len + 2);
      assert buf == d[1..len + 3];
      return DomainOf(buf);
    } else {
      return Err(Proto("unknown ATYP in request"));
    }
  }

  /** The server reads any request of the client back: an address up to the IPv6 fields that have no place on the
      wire, a domain exactly if it is UTF-8; whatever follows stays unread. */
  lemma ConnectIsRead(dst: SocketAddr, host: Option<Bytes>, rest: Bytes)
    requires ConnectRequest(dst, host).Some?
    ensures var text := ConnectRequest(dst, host).value;
            var p := Request(text + rest);
            && p.used == |text|
            && (host.None? ==> p.result == Ok((Connect, Address(dst.Plain()))))
            && (host.Some? && Utf8.Decode(host.value).Some? ==>
                  p.result == Ok((Connect, Domain(host.value, dst.port))))
            && (host.Some? && Utf8.Decode(host.value).None? ==> p.result == Err(Proto("non-utf8 domain")))
  {
    hide Utf8.Decode, AddressText, AddressOf, RequestDestination;
    var text := ConnectRequest(dst, host).value;
    match host
    case None =>
      AddressIsRead(dst);
      var a := AddressText(dst);
      assert text + rest == [VER, CMD_CONNECT, 0] + a + rest;
      assert (text + rest)[4..] == a[1..] + rest;
      AddressDestination(a, rest);
    case Some(h) =>
      assert (text + rest)[4..] == [|h|] + (h + Be16(dst.port)) + rest;
      DomainDestination(h, dst.port, rest);
  }

  lemma AddressDestination(a: Bytes, rest: Bytes)
    requires (|a| == 7 && a[0] == ATYP_IPV4) || (|a| == 19 && a[0] == ATYP_IPV6)
    ensures RequestDestination(a[0], a[1..] + rest) == Parsed(|a| - 1, Ok(Address(AddressOf(a[1..]))))
  {
    assert (a[1..] + rest)[..|a| - 1] == a[1..];
  }

  lemma DomainDestination(h: Bytes, port: u16, rest: Bytes)
    requires 1 <= |h| <= 255
    ensures RequestDestination(ATYP_DOMAIN, [|h|] + (h + Be16(port)) + rest) ==
            Parsed(|h| + 3, if Utf8.Decode(h).Some? then Ok(Domain(h, port)) else Err(Proto("non-utf8 domain")))
  {
    hide Utf8.Decode;
    var b := h + Be16(port);
    var d := [|h|] + b + rest;
    Be16RoundTrip(port);
    assert d[1..|h| + 3] == b && b[..|h|] == h;
  }

  // ---------------------------------------------------------------- replies

  function Reply(rep: byte, bnd: SocketAddr): Bytes {
    [VER, rep, 0] + AddressText(bnd)
  }

  /** `write_reply` */
  method WriteReply(stream: Stream, rep: byte, bnd: SocketAddr)
    modifies stream
    ensures stream.input == old(stream.input) && stream.output == old(stream.output) + Reply(rep, bnd)
  {
    var buf := new byte[22](_ => 0);
    CopyInto(buf, 0, [VER, rep, 0]);
    assert buf[..3] == [VER, rep, 0];
    var n := PutAddress(buf, 3, bnd);
    stream.WriteAll(buf[..n + 2]);
  }

  /** The checks both reply readers begin with, naming the reply in their messages. */
  function ReplyHead(input: Bytes, kind: string): Parsed<byte> {
    if |input| < 4 then Short(input, 4)
    else Parsed(4, if input[0] != VER then Err(Proto("bad version in " + kind + " reply"))
                   else if input[1] != REP_SUCCEEDED then Err(Rejected(input[1]))
                   else if input[2] != 0 then Err(Proto("RSV != 0 in " + kind + " reply"))
                   else Ok(input[3]))
  }

  function AfterHead<T>(body: Parsed<T>): Parsed<T> {
    body.(used := 4 + body.used)
  }

  function ConnectReply(input: Bytes): Parsed<Unit> {
    var head := ReplyHead(input, "connect");
    if head.result.Err? then Parsed(head.used, Err(head.result.error))
    else AfterHead(ConnectReplyBody(head.result.value, input[4..]))
  }

  /** The bound address, which is skipped. */
  function ConnectReplyBody(atyp: byte, d: Bytes): Parsed<Unit> {
    if atyp == ATYP_IPV4 then if |d| < 6 then Short(d, 6) else Parsed(6, Ok(Unit))
    else if atyp == ATYP_IPV6 then if |d| < 18 then Short(d, 18) else Parsed(18, Ok(Unit))
    else if atyp == ATYP_DOMAIN then
      if |d| < 1 then Short(d, 1)
      else
        var len: nat := d[0];
        if |d| < len + 3 then Short(d, len + 3) else Parsed(len + 3, Ok(Unit))
    else Parsed(0, Err(Proto("unknown ATYP in reply")))
  }

  function AssociateReply(input: Bytes): Parsed<SocketAddr> {
    var head := ReplyHead(input, "associate");
    if head.result.Err? then Parsed(head.used, Err(head.result.error))
    else AfterHead(AssociateReplyBody(head.result.value, input[4..]))
  }

  /** The relay's address, which the client will send datagrams to. */
  function AssociateReplyBody(atyp: byte, d: Bytes): Parsed<SocketAddr> {
    if atyp == ATYP_IPV4 then AddressAndPort(4, d)
    else if atyp == ATYP_IPV6 then AddressAndPort(16, d)
    else if atyp == ATYP_DOMAIN then
      if |d| < 1 then Short(d, 1)
      else
        var len: nat := d[0];
        if |d| < len + 3 then Short(d, len + 3)
        else Parsed(len + 3, Err(Proto("ASSOCIATE reply with domain not supported")))
    else Parsed(0, Err(Proto("unknown ATYP in associate reply")))
  }

  function AddressAndPort(octets: nat, d: Bytes): Parsed<SocketAddr>
    requires octets == 4 || octets == 16
  {
    if |d| < octets then Short(d, octets)
    else if |d| < octets + 2 then Short(d, octets + 2)
    else Parsed(octets + 2, Ok(AddressOf(d[..octets + 2])))
  }

  method ReadReplyHead(stream: Stream, kind: string) returns (r: Result<byte, Error>)
    modifies stream
    ensures stream.output == old(stream.output)
    ensures var p := ReplyHead(old(stream.input), kind);
            p.used <= |old(stream.input)| && stream.input == old(stream.input)[p.used..] && r == p.result
  {
    var head :- stream.ReadExact(4);
    if head[0] != VER {
      return Err(Proto("bad version in " + kind + " reply"));
    }
    if head[1] != REP_SUCCEEDED {
      return Err(Rejected(head[1]));
    }
    if head[2] != 0 {
      return Err(Proto("RSV != 0 in " + kind + " reply"));
    }
    return Ok(head[3]);
  }

  /** `read_connect_reply` */
  method ReadConnectReply(stream: Stream) returns (r: Result<Unit, Error>)
    modifies stream
    ensures stream.output == old(stream.output)
    ensures var p := ConnectReply(old(stream.input));
            p.used <= |old(stream.input)| && stream.input == old(stream.input)[p.used..] && r == p.result
  {
    hide ConnectReplyBody;
    ghost var input := stream.input;
    var atyp :- ReadReplyHead(stream, "connect");
    ghost var body := ConnectReplyBody(atyp, input[4..]);
    r := SkipBoundAddress(stream, atyp);
    Ahead(input, 4, body.used);
  }

  method SkipBoundAddress(stream: Stream, atyp: byte) returns (r: Result<Unit, Error>)
    modifies stream
    ensures stream.output == old(stream.output)
    ensures var p := ConnectReplyBody(atyp, old(stream.input));
            p.used <= |old(stream.input)| && stream.input == old(stream.input)[p.used..] && r == p.result
  {
    ghost var d := stream.input;
    if atyp == ATYP_IPV4 {
      var _ :- stream.ReadExact(6);
    } else if atyp == ATYP_IPV6 {
      var _ :- stream.ReadExact(18);
    } else if atyp == ATYP_DOMAIN {
      var n :- stream.ReadExact(1);
      var len: nat := n[0];
      Ahead(d, 1, len + 2);
      var _ :- stream.ReadExact(len + 2);
    } else {
      return Err(Proto("unknown ATYP in reply"));
    }
    return Ok(Unit);
  }

  /** `read_associate_reply` */
  method ReadAssociateReply(stream: Stream) returns (r: Result<SocketAddr, Error>)
    modifies stream
    ensures stream.output == old(stream.output)
    ensures var p := AssociateReply(old(stream.input));
            p.used <= |old(stream.input)| && stream.input == old(stream.input)[p.used..] && r == p.result
  {
    hide AssociateReplyBody;
    ghost var input := stream.input;
    var atyp :- ReadReplyHead(stream, "associate");
    ghost var body := AssociateReplyBody(atyp, input[4..]);
    r := ReadBoundAddress(stream, atyp);
    Ahead(input, 4, body.used);
  }

  /** The address and the port are read separately. */
  method ReadBoundAddress(stream: Stream, atyp: byte) returns (r: Result<SocketAddr, Error>)
    modifies stream
    ensures stream.output == old(stream.output)
    ensures var p := AssociateReplyBody(atyp, old(stream.input));
            p.used <= |old(stream.input)| && stream.input == old(stream.input)[p.used..] && r == p.result
  {
    hide AddressOf;
    ghost var d := stream.input;
    var octets: nat;
    if atyp == ATYP_IPV4 {
      octets := 4;
    } else if atyp == ATYP_IPV6 {
      octets := 16;
    } else if atyp == ATYP_DOMAIN {
      var n :- stream.ReadExact(1);
      var len: nat := n[0];
      Ahead(d, 1, len + 2);
      var _ :- stream.ReadExact(len + 2);
      return Err(Proto("ASSOCIATE reply with domain not supported"));
    } else {
      return Err(Proto("unknown ATYP in associate reply"));
    }
    var ip :- stream.ReadExact(octets);
    Ahead(d, octets, 2);
    var port :- stream.ReadExact(2);
    assert ip + port == d[..octets + 2];
    return Ok(AddressOf(ip + port));
  }

  /** The client reads any reply of the server back: success leaves exactly what follows the reply and, to an
      associate request, gives the bound address; any other code is the error. */
  lemma ReplyIsRead(rep: byte, bnd: SocketAddr, rest: Bytes)
    ensures var text := Reply(rep, bnd);
            if rep == REP_SUCCEEDED
            then && ConnectReply(text + rest) == Parsed(|text|, Ok(Unit))
                 && AssociateReply(text + rest) == Parsed(|text|, Ok(bnd.Plain()))
            else && ConnectReply(text + rest) == Parsed(4, Err(Rejected(rep)))
                 && AssociateReply(text + rest) == Parsed(4, Err(Rejected(rep)))
  {
    hide AddressText, AddressOf;
    AddressIsRead(bnd);
    var a := AddressText(bnd);
    var input := Reply(rep, bnd) + rest;
    assert input == [VER, rep, 0] + a + rest;
    assert input[4..] == a[1..] + rest && (a[1..] + rest)[..|a| - 1] == a[1..];
    assert input[3] == a[0];
  }

  /** A reply as section 6 of RFC 1928 allows it, with a bound address or host name of any kind. */
  datatype Bound = BoundV4(ip4: Octets4) | BoundV6(ip6: Octets16) | BoundHost(host: Bytes) {
    predicate Fits() {
      BoundHost? ==> |host| <= 255
    }

    function Kind(): byte {
      match this
      case BoundV4(_) => 1
      case BoundV6(_) => 4
      case BoundHost(_) => 3
    }

    function Data(): Bytes
      requires Fits()
    {
      match this
      case BoundV4(ip) => ip
      case BoundV6(ip) => ip
      case BoundHost(h) => [|h|] + h
    }
  }

  function AnyReply(rep: byte, bound: Bound, port: u16): Bytes
    requires bound.Fits()
  {
    [5, rep, 0, bound.Kind()] + Rest(bound, port)
  }

  /** The reply behind its first four bytes. */
  function Rest(bound: Bound, port: u16): Bytes
    requires bound.Fits()
  {
    bound.Data() + [port / 256, port % 256]
  }

  lemma BoundIsRead(bound: Bound, port: u16, rest: Bytes)
    requires bound.Fits()
    ensures var atyp, d := bound.Kind(), Rest(bound, port);
            && ConnectReplyBody(atyp, d + rest) == Parsed(|d|, Ok(Unit))
            && AssociateReplyBody(atyp, d + rest) ==
               Parsed(|d|, match bound
                           case BoundV4(ip) => Ok(V4(ip, port))
                           case BoundV6(ip) => Ok(V6(ip, port, 0, 0))
                           case BoundHost(_) => Err(Proto("ASSOCIATE reply with domain not supported")))
  {
    var d := Rest(bound, port);
    assert (d + rest)[..|d|] == d;
    match bound
    case BoundV4(ip) => assert d[..4] == ip;
    case BoundV6(ip) => assert d[..16] == ip;
    case BoundHost(h) => assert d[0] == |h| && |d| == |h| + 3;
  }

  /** Both readers on any such reply: success takes all of it and nothing behind it, and an associate reply gives the
      address or refuses a host; any other code is the error, after four bytes. */
  lemma AnyReplyIsRead(rep: byte, bound: Bound, port: u16, rest: Bytes)
    requires bound.Fits()
    ensures var text := AnyReply(rep, bound, port);
            if rep == 0
            then && ConnectReply(text + rest) == Parsed(|text|, Ok(Unit))
                 && AssociateReply(text + rest) ==
                    Parsed(|text|, match bound
                                   case BoundV4(ip) => Ok(V4(ip, port))
                                   case BoundV6(ip) => Ok(V6(ip, port, 0, 0))
                                   case BoundHost(_) => Err(Proto("ASSOCIATE reply with domain not supported")))
            else && ConnectReply(text + rest) == Parsed(4, Err(Rejected(rep)))
                 && AssociateReply(text + rest) == Parsed(4, Err(Rejected(rep)))
  {
    hide ConnectReplyBody, AssociateReplyBody, Rest;
    var text := AnyReply(rep, bound, port);
    var input := text + rest;
    assert input == [5, rep, 0, bound.Kind()] + (Rest(bound, port) + rest);
    assert input[4..] == Rest(bound, port) + rest;
    BoundIsRead(bound, port, rest);
  }

  /** And they wait on every proper part of it, unless it is refused, for no more than what is missing. */
  lemma PartOfAnyReply(rep: byte, bound: Bound, port: u16, d: Bytes)
    requires bound.Fits() && d < AnyReply(rep, bound, port) && (rep != 0 ==> |d| < 4)
    ensures Waiting(ConnectReply(d), |d|, |AnyReply(rep, bound, port)|)
    ensures Waiting(AssociateReply(d), |d|, |AnyReply(rep, bound, port)|)
  {
    var text := AnyReply(rep, bound, port);
    if |d| >= 4 {
      assert d[0] == text[0] && d[1] == text[1] && d[2] == text[2] && d[3] == text[3];
      if |d| >= 5 {
        assert d[4] == text[4] && d[4..][0] == d[4];
      }
    }
  }

  /** All n bytes are taken and more are asked for, but not beyond the first `size`. */
  predicate Waiting<T>(p: Parsed<T>, n: nat, size: nat) {
    p.used == n && p.result.Err? && p.result.error.Eof? && 0 < p.result.error.missing <= size - n
  }

  // ---------------------------------------------------------------- byte by byte

  function BoundOf(a: SocketAddr): Bound {
    if a.V4? then BoundV4(a.ip4) else BoundV6(a.ip6)
  }

  /** The server's replies and the client's requests have the layout of sections 4 and 6 of RFC 1928. */
  lemma WrittenByteByByte(rep: byte, a: SocketAddr, host: Bytes)
    ensures Reply(rep, a) == AnyReply(rep, BoundOf(a), a.port)
    ensures ConnectRequest(a, None) == Some([5, 1, 0, BoundOf(a).Kind()] + Rest(BoundOf(a), a.port))
    ensures ConnectRequest(a, Some(host)) ==
            if 1 <= |host| <= 255 then Some([5, 1, 0, 3] + Rest(BoundHost(host), a.port)) else None
  {
    var ip := if a.V4? then a.ip4 else a.ip6;
    assert AddressText(a) == [BoundOf(a).Kind()] + Rest(BoundOf(a), a.port);
    assert [5, rep, 0] + ([BoundOf(a).Kind()] + Rest(BoundOf(a), a.port))
        == [5, rep, 0, BoundOf(a).Kind()] + Rest(BoundOf(a), a.port);
    assert [5, 1, 0] + ([BoundOf(a).Kind()] + Rest(BoundOf(a), a.port))
        == [5, 1, 0, BoundOf(a).Kind()] + Rest(BoundOf(a), a.port);
    if 1 <= |host| <= 255 {
      assert [5, 1, 0, 3, |host|] + host + Be16(a.port) == [5, 1, 0, 3] + Rest(BoundHost(host), a.port);
    }
  }

  /** A request with any command, destination and reserved byte. */
  function AnyRequest(code: byte, reserved: byte, bound: Bound, port: u16): Bytes
    requires bound.Fits()
  {
    [5, code, reserved, bound.Kind()] + Rest(bound, port)
  }

  ghost function Wanted(bound: Bound, port: u16): Result<Destination, Error> {
    match bound
    case BoundV4(ip) => Ok(Address(V4(ip, port)))
    case BoundV6(ip) => Ok(Address(V6(ip, port, 0, 0)))
    case BoundHost(h) =>
      if h == [] then Err(Proto("empty domain in request"))
      else if Utf8.IsText(h) then Ok(Domain(h, port)) else Err(Proto("non-utf8 domain"))
  }

  lemma WantedIsRead(bound: Bound, port: u16, rest: Bytes)
    requires bound.Fits()
    ensures var p, d := RequestDestination(bound.Kind(), Rest(bound, port) + rest), Rest(bound, port);
            p.result == Wanted(bound, port) && p.used == if p.result == Err(Proto("empty domain in request")) then 1
                                                         else |d|
  {
    hide Utf8.Decode, Utf8.IsText, DomainOf;
    var d := Rest(bound, port);
    match bound
    case BoundV4(ip) => assert (d + rest)[..6] == d && d[..4] == ip;
    case BoundV6(ip) => assert (d + rest)[..18] == d && d[..16] == ip;
    case BoundHost(h) =>
      assert d[0] == |h| && |d| == |h| + 3;
      if h != [] {
        assert (d + rest)[1..|h| + 3] == h + [port / 256, port % 256];
        HostIsRead(h, port);
      }
  }

  lemma HostIsRead(h: Bytes, port: u16)
    ensures DomainOf(h + [port / 256, port % 256]) ==
            if Utf8.Decode(h).Some? then Ok(Domain(h, port)) else Err(Proto("non-utf8 domain"))
    ensures Utf8.Decode(h).Some? <==> Utf8.IsText(h)
  {
    hide Utf8.Decode, Utf8.IsText;
    Utf8.DecodesExactly(h);
    assert (h + [port / 256, port % 256])[..|h|] == h;
  }

  /** The server reads any client's request: 1 is connect, 3 is associate, other codes are kept; a host must be text. */
  lemma AnyRequestIsRead(code: byte, reserved: byte, bound: Bound, port: u16, rest: Bytes)
    requires bound.Fits()
    ensures var text := AnyRequest(code, reserved, bound, port);
            var p, wanted := Request(text + rest), Wanted(bound, port);
            && (wanted.Ok? ==> p == Parsed(|text|, Ok((if code == 1 then Connect else if code == 3 then UdpAssociate
                                                       else OtherCommand(code), wanted.value))))
            && (wanted.Err? ==> p.result == Err(wanted.error))
  {
    hide RequestDestination, Wanted, Rest;
    var text := AnyRequest(code, reserved, bound, port);
    assert text + rest == [5, code, reserved, bound.Kind()] + (Rest(bound, port) + rest);
    assert (text + rest)[4..] == Rest(bound, port) + rest;
    WantedIsRead(bound, port, rest);
  }

  lemma RestIsRead(atyp: byte, d: Bytes) returns (bound: Bound, port: u16)
    requires RequestDestination(atyp, d).result.Ok? || ConnectReplyBody(atyp, d).result.Ok?
    ensures bound.Fits() && bound.Kind() == atyp && Rest(bound, port) <= d
  {
    hide Rest;
    var n := DataLength(atyp, d);
    bound := if atyp == 1 then BoundV4(d[..4]) else if atyp == 4 then BoundV6(d[..16]) else BoundHost(d[1..n]);
    port := FromBe16(d[n], d[n + 1]);
    assert atyp == 3 ==> d[..n] == [d[0]] + d[1..n];
    DataAndPort(d, n, bound, port);
  }

  lemma DataLength(atyp: byte, d: Bytes) returns (n: nat)
    requires RequestDestination(atyp, d).result.Ok? || ConnectReplyBody(atyp, d).result.Ok?
    ensures atyp == 1 || atyp == 3 || atyp == 4
    ensures |d| > 0 && n == if atyp == 1 then 4 else if atyp == 4 then 16 else 1 + d[0] as int
    ensures n + 2 <= |d|
  {
    hide Utf8.Decode;
    n := if atyp == 1 then 4 else if atyp == 4 then 16 else 1 + d[0] as int;
  }

  lemma DataAndPort(d: Bytes, n: nat, bound: Bound, port: u16)
    requires n + 2 <= |d| && bound.Fits() && bound.Data() == d[..n] && port == FromBe16(d[n], d[n + 1])
    ensures Rest(bound, port) <= d
  {
    assert [port / 256, port % 256] == [d[n], d[n + 1]];
    assert d[..n] + [d[n], d[n + 1]] == d[..n + 2];
  }

  /** And it accepts nothing else; nor does the client accept anything but a reply of success. */
  lemma OnlyRequestsAreRead(input: Bytes) returns (reserved: byte, bound: Bound, port: u16)
    requires Request(input).result.Ok?
    ensures bound.Fits() && AnyRequest(input[1], reserved, bound, port) <= input
  {
    hide RequestDestination, Rest;
    bound, port := RestIsRead(input[3], input[4..]);
    reserved := input[2];
    assert input == [5, input[1], reserved, bound.Kind()] + input[4..];
  }

  lemma OnlyRepliesAreRead(input: Bytes) returns (bound: Bound, port: u16)
    requires ConnectReply(input).result.Ok?
    ensures bound.Fits() && AnyReply(0, bound, port) <= input
  {
    hide ConnectReplyBody, Rest;
    bound, port := RestIsRead(input[3], input[4..]);
    assert input == [5, 0, 0, bound.Kind()] + input[4..];
  }

  // ---------------------------------------------------------------- how they refuse

  lemma RequestRefuses(input: Bytes)
    requires |input| >= 4
    ensures input[0] != 5 ==> Request(input) == Parsed(4, Err(Proto("bad version in request")))
    ensures input[0] == 5 && input[3] !in {1, 3, 4} ==>
              Request(input) == Parsed(4, Err(Proto("unknown ATYP in request")))
  {
  }

  lemma ReplyRefuses(input: Bytes)
    requires |input| >= 4
    ensures var c, a := ConnectReply(input), AssociateReply(input);
            && (input[0] != 5 ==> c == Parsed(4, Err(Proto("bad version in connect reply")))
                                  && a == Parsed(4, Err(Proto("bad version in associate reply"))))
            && (input[0] == 5 && input[1] != 0 ==>
                  c == Parsed(4, Err(Rejected(input[1]))) && a == Parsed(4, Err(Rejected(input[1]))))
            && ([5, 0] <= input && input[2] != 0 ==>
                  c == Parsed(4, Err(Proto("RSV != 0 in connect reply")))
                  && a == Parsed(4, Err(Proto("RSV != 0 in associate reply"))))
            && ([5, 0, 0] <= input && input[3] !in {1, 3, 4} ==>
                  c == Parsed(4, Err(Proto("unknown ATYP in reply")))
                  && a == Parsed(4, Err(Proto("unknown ATYP in associate reply"))))
  {
    assert "bad version in " + "connect" + " reply" == "bad version in connect reply";
    assert "bad version in " + "associate" + " reply" == "bad version in associate reply";
    assert "RSV != 0 in " + "connect" + " reply" == "RSV != 0 in connect reply";
    assert "RSV != 0 in " + "associate" + " reply" == "RSV != 0 in associate reply";
  }

  /** How many bytes a request that is cut short still lacks: to the end of its address, or to the length of its host
      and then to its end. */
  lemma RequestWaits(input: Bytes)
    ensures var r, n := Request(input).result, |input|;
            && (n < 4 ==> r == Err(Eof(4 - n)))
            && (n >= 4 && input[0] == 5 && input[3] == 1 && n < 10 ==> r == Err(Eof(10 - n)))
            && (n >= 4 && input[0] == 5 && input[3] == 4 && n < 22 ==> r == Err(Eof(22 - n)))
            && (n == 4 && input[0] == 5 && input[3] == 3 ==> r == Err(Eof(1)))
            && (n >= 5 && input[0] == 5 && input[3] == 3 && input[4] > 0 && n < 7 + input[4] as int ==>
                  r == Err(Eof(7 + input[4] as int - n)))
  {
    hide Utf8.Decode, AddressOf, DomainOf;
    if |input| >= 5 {
      assert input[4..][0] == input[4];
    }
  }

  /** The same for a reply of success; the associate reader asks for an address and its port one after the other. */
  lemma ReplyWaits(input: Bytes)
    ensures var c, a, n := ConnectReply(input).result, AssociateReply(input).result, |input|;
            && (n < 4 ==> c == Err(Eof(4 - n)) && a == Err(Eof(4 - n)))
            && ([5, 0, 0, 1] <= input && n < 10 ==>
                  c == Err(Eof(10 - n)) && a == Err(Eof(if n < 8 then 8 - n else 10 - n)))
            && ([5, 0, 0, 4] <= input && n < 22 ==>
                  c == Err(Eof(22 - n)) && a == Err(Eof(if n < 20 then 20 - n else 22 - n)))
            && (input == [5, 0, 0, 3] ==> c == Err(Eof(1)) && a == Err(Eof(1)))
            && ([5, 0, 0, 3] < input && n < 7 + input[4] as int ==>
                  c == Err(Eof(7 + input[4] as int - n)) && a == Err(Eof(7 + input[4] as int - n)))
  {
    hide AddressOf;
    if |input| >= 5 {
      assert input[4..][0] == input[4];
    }
  }
}
