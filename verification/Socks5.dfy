/** The two sides of the SOCKS5 method negotiation (sections 3 and 4 of RFC 1928, section 2 of RFC 1929): the client in
    socks5.rs and the server in server.rs. */
module Socks5 {
  import opened MachineInts
  import opened Wrappers

  const VER: byte := 5
  const METHOD_NO_AUTH: byte := 0
  const METHOD_USERPASS: byte := 2
  const METHOD_NONE: byte := 255
  const AUTH_VER: byte := 1

  /** `Eof` also says how many bytes the unfinished read still lacked. */
  datatype Error = Eof(missing: nat) | Proto(message: string) | HostTooLong(length: nat) | Rejected(code: byte)

  datatype Unit = Unit

  datatype Credentials = Credentials(user: Bytes, pass: Bytes) {
    /** Each part fits its one-byte length. */
    predicate Short() {
      |user| <= 255 && |pass| <= 255
    }
  }

  /** One end of a connection: what is still to be read, and everything written. */
  class Stream {
    var input: Bytes
    var output: Bytes

    constructor (input: Bytes)
      ensures this.input == input && output == []
    {
      this.input, output := input, [];
    }

    method ReadExact(n: nat) returns (r: Result<Bytes, Error>)
      modifies this
      ensures output == old(output)
      ensures if n <= |old(input)| then r == Ok(old(input)[..n]) && input == old(input)[n..]
              else r == Err(Eof(n - |old(input)|)) && input == []
    {
      if n <= |input| {
        r := Ok(input[..n]);
        input := input[n..];
      } else {
        r := Err(Eof(n - |input|));
        input := [];
      }
    }

    method WriteAll(bytes: Bytes)
      modifies this
      ensures input == old(input) && output == old(output) + bytes
    {
      output := output + bytes;
    }
  }

  /** What one side does on an input: everything it writes, how much it reads, and how it ends. `Err(Eof(n))` means
      that it is still waiting for n bytes when the input is used up. */
  datatype Run = Run(out: Bytes, used: nat, result: Result<Unit, Error>)

  /** From a stream with this input and output, a method did what the run says. */
  ghost predicate Performed(s: Stream, input: Bytes, output: Bytes, run: Run, r: Result<Unit, Error>)
    reads s
  {
    run.used <= |input| && s.input == input[run.used..] && s.output == output + run.out && r == run.result
  }

  // ---------------------------------------------------------------- client

  function MethodReply(input: Bytes): Result<byte, Error> {
    if |input| < 2 then Err(Eof(2 - |input|))
    else if input[0] != VER then Err(Proto("bad version in method reply"))
    else if input[1] == METHOD_NONE then Err(Proto("server rejected all methods"))
    else Ok(input[1])
  }

  /** The message of section 2 of RFC 1929. */
  function UserpassRequest(c: Credentials): Bytes
    requires c.Short()
  {
    [AUTH_VER, |c.user|] + c.user + [|c.pass|] + c.pass
  }

  /** The username/password exchange, on the input after the method reply. */
  function Userpass(c: Credentials, input: Bytes): Run {
    if |c.user| > 255 then Run([], 0, Err(HostTooLong(|c.user|)))
    else if |c.pass| > 255 then Run([], 0, Err(HostTooLong(|c.pass|)))
    else if |input| < 2 then Run(UserpassRequest(c), |input|, Err(Eof(2 - |input|)))
    else Run(UserpassRequest(c), 2,
             if input[0] != AUTH_VER then Err(Proto("bad auth subnegotiation version"))
             else if input[1] != 0 then Err(Proto("user/pass auth rejected by upstream"))
             else Ok(Unit))
  }

  function Greeting(auth: Option<Credentials>): Bytes {
    if auth.Some? then [VER, 2, METHOD_NO_AUTH, METHOD_USERPASS] else [VER, 1, METHOD_NO_AUTH]
  }

  function Client(auth: Option<Credentials>, input: Bytes): (run: Run)
    ensures run.used <= |input|
    ensures run.result.Err? && run.result.error.Eof? ==> run.used == |input| && run.result.error.missing > 0
  {
    var reply := MethodReply(input);
    if reply.Err? then Run(Greeting(auth), Min(|input|, 2), Err(reply.error))
    else if reply.value == METHOD_NO_AUTH then Run(Greeting(auth), 2, Ok(Unit))
    else if reply.value == METHOD_USERPASS && auth.Some? then
      var sub := Userpass(auth.value, input[2..]);
      Run(Greeting(auth) + sub.out, 2 + sub.used, sub.result)
    else Run(Greeting(auth), 2, Err(Proto("server chose unsupported method")))
  }

  /** `handshake` */
  method Handshake(stream: Stream, auth: Option<Credentials>) returns (r: Result<Unit, Error>)
    modifies stream
    ensures Performed(stream, old(stream.input), old(stream.output), Client(auth, old(stream.input)), r)
  {
    hide Userpass;
    ghost var input, output := stream.input, stream.output;
    match auth
    case Some(c) =>
      stream.WriteAll([VER, 2, METHOD_NO_AUTH, METHOD_USERPASS]);
      var chosen := ReadMethodReply(stream);
      if chosen.Err? {
        return Err(chosen.error);
      }
      if chosen.value == METHOD_NO_AUTH {
        return Ok(Unit);
      } else if chosen.value == METHOD_USERPASS {
        r := SendUserpass(stream, c);
        ghost var sub := Userpass(c, input[2..]);
        assert stream.input == input[2 + sub.used..];
        assert stream.output == output + (Greeting(auth) + sub.out);
      } else {
        return Err(Proto("server chose unsupported method"));
      }
    case None =>
      stream.WriteAll([VER, 1, METHOD_NO_AUTH]);
      var chosen := ReadMethodReply(stream);
      if chosen.Err? {
        return Err(chosen.error);
      }
      return if chosen.value == METHOD_NO_AUTH then Ok(Unit) else Err(Proto("server chose unsupported method"));
  }

  method ReadMethodReply(stream: Stream) returns (r: Result<byte, Error>)
    modifies stream
    ensures r == MethodReply(old(stream.input))
    ensures stream.input == old(stream.input)[Min(|old(stream.input)|, 2)..] && stream.output == old(stream.output)
  {
    var buf :- stream.ReadExact(2);
    if buf[0] != VER {
      return Err(Proto("bad version in method reply"));
    }
    if buf[1] == METHOD_NONE {
      return Err(Proto("server rejected all methods"));
    }
    return Ok(buf[1]);
  }

  /** `copy_from_slice` into part of a buffer. */
  method CopyInto(buf: array<byte>, at: nat, bytes: Bytes)
    requires at + |bytes| <= buf.Length
    modifies buf
    ensures buf[..at + |bytes|] == old(buf[..at]) + bytes
    ensures forall i :: at + |bytes| <= i < buf.Length ==> buf[i] == old(buf[i])
  {
    forall i | 0 <= i < |bytes| {
      buf[at + i] := bytes[i];
    }
  }

  method FillUserpass(req: array<byte>, c: Credentials) returns (n: nat)
    requires c.Short() && req.Length >= 1 + 1 + 255 + 1 + 255
    modifies req
    ensures n <= req.Length && req[..n] == UserpassRequest(c)
  {
    CopyInto(req, 0, [AUTH_VER, |c.user|]);
    assert req[..2] == [AUTH_VER, |c.user|];
    n := 2;
    CopyInto(req, n, c.user);
    n := n + |c.user|;
    CopyInto(req, n, [|c.pass|]);
    n := n + 1;
    CopyInto(req, n, c.pass);
    n := n + |c.pass|;
  }

  method SendUserpass(stream: Stream, c: Credentials) returns (r: Result<Unit, Error>)
    modifies stream
    ensures Performed(stream, old(stream.input), old(stream.output), Userpass(c, old(stream.input)), r)
  {
    if |c.user| > 255 {
      return Err(HostTooLong(|c.user|));
    }
    if |c.pass| > 255 {
      return Err(HostTooLong(|c.pass|));
    }
    var req := new byte[1 + 1 + 255 + 1 + 255](_ => 0);
    var n := FillUserpass(req, c);
    stream.WriteAll(req[..n]);
    var rep :- stream.ReadExact(2);
    if rep[0] != AUTH_VER {
      return Err(Proto("bad auth subnegotiation version"));
    }
    if rep[1] != 0 {
      return Err(Proto("user/pass auth rejected by upstream"));
    }
    return Ok(Unit);
  }

  // ---------------------------------------------------------------- server

  /** The username/password check, on the input after the greeting. */
  function Verify(c: Credentials, v: Bytes): (run: Run)
    ensures run.used <= |v|
    ensures run.result.Err? && run.result.error.Eof? ==> run.used == |v| && run.result.error.missing > 0
  {
    if |v| < 2 then Run([], |v|, Err(Eof(2 - |v|)))
    else if v[0] != AUTH_VER then Run([], 2, Err(Proto("bad auth subnegotiation version")))
    else
      var ulen: nat := v[1];
      var passAt: nat := 3 + ulen;
      if |v| < passAt - 1 then Run([], |v|, Err(Eof(passAt - 1 - |v|)))
      else if |v| < passAt then Run([], |v|, Err(Eof(1)))
      else
        var plen: nat := v[passAt - 1];
        var end: nat := passAt + plen;
        if |v| < end then Run([], |v|, Err(Eof(end - |v|)))
        else if v[2..passAt - 1] == c.user && v[passAt..end] == c.pass then Run([AUTH_VER, 0], end, Ok(Unit))
        else Run([AUTH_VER, 1], end, Err(Proto("user/pass auth failed")))
  }

  /** The server's choice among the offered methods, and the exchange it leads to. */
  function Choice(auth: Option<Credentials>, offered: Bytes, input: Bytes): (run: Run)
    ensures run.used <= |input|
    ensures run.result.Err? && run.result.error.Eof? ==> run.used == |input| && run.result.error.missing > 0
  {
    match auth
    case Some(c) =>
      if METHOD_USERPASS !in offered then
        Run([VER, METHOD_NONE], 0, Err(Proto("client did not offer user/pass auth")))
      else
        var sub := Verify(c, input);
        Run([VER, METHOD_USERPASS] + sub.out, sub.used, sub.result)
    case None =>
      if METHOD_NO_AUTH !in offered then Run([VER, METHOD_NONE], 0, Err(Proto("client did not offer no-auth")))
      else Run([VER, METHOD_NO_AUTH], 0, Ok(Unit))
  }

  function Server(auth: Option<Credentials>, input: Bytes): (run: Run)
    ensures run.used <= |input|
    ensures run.result.Err? && run.result.error.Eof? ==> run.used == |input| && run.result.error.missing > 0
  {
    if |input| < 2 then Run([], |input|, Err(Eof(2 - |input|)))
    else if input[0] != VER then Run([], 2, Err(Proto("bad version in client greeting")))
    else if input[1] == 0 then Run([], 2, Err(Proto("client offered zero methods")))
    else
      var nmethods: nat := input[1];
      var end: nat := 2 + nmethods;
      if |input| < end then Run([], |input|, Err(Eof(end - |input|)))
      else
        var sub := Choice(auth, input[2..end], input[end..]);
        Run(sub.out, end + sub.used, sub.result)
  }

  /** `negotiate_method` */
  method NegotiateMethod(stream: Stream, requireAuth: Option<Credentials>) returns (r: Result<Unit, Error>)
    modifies stream
    ensures Performed(stream, old(stream.input), old(stream.output), Server(requireAuth, old(stream.input)), r)
  {
    hide Choice;
    ghost var input := stream.input;
    var head :- stream.ReadExact(2);
    if head[0] != VER {
      return Err(Proto("bad version in client greeting"));
    }
    var nmethods: nat := head[1];
    if nmethods == 0 {
      return Err(Proto("client offered zero methods"));
    }
    Ahead(input, 2, nmethods);
    var offered :- stream.ReadExact(nmethods);
    ghost var sub := Choice(requireAuth, offered, input[2 + nmethods..]);
    r := ChooseMethod(stream, requireAuth, offered);
    Ahead(input, 2 + nmethods, sub.used);
  }

  /** The answer of `negotiate_method` to the methods offered. */
  method ChooseMethod(stream: Stream, requireAuth: Option<Credentials>, offered: Bytes)
    returns (r: Result<Unit, Error>)
    modifies stream
    ensures Performed(stream, old(stream.input), old(stream.output),
                      Choice(requireAuth, offered, old(stream.input)), r)
  {
    hide Verify;
    ghost var input, output := stream.input, stream.output;
    match requireAuth
    case Some(c) =>
      if METHOD_USERPASS !in offered {
        stream.WriteAll([VER, METHOD_NONE]);
        return Err(Proto("client did not offer user/pass auth"));
      }
      stream.WriteAll([VER, METHOD_USERPASS]);
      r := VerifyUserpass(stream, c);
      assert stream.output == output + ([VER, METHOD_USERPASS] + Verify(c, input).out);
    case None =>
      if METHOD_NO_AUTH !in offered {
        stream.WriteAll([VER, METHOD_NONE]);
        return Err(Proto("client did not offer no-auth"));
      }
      stream.WriteAll([VER, METHOD_NO_AUTH]);
      return Ok(Unit);
  }

  lemma Ahead(v: Bytes, at: nat, n: nat)
    requires at <= |v|
    ensures at + n <= |v| ==> v[at..][..n] == v[at..at + n] && v[at..][n..] == v[at + n..]
  {
  }

  /** How the check goes once its lengths are read. */
  lemma VerifyMeans(c: Credentials, v: Bytes)
    requires |v| >= 2 && v[0] == AUTH_VER
    ensures var ulen: nat := v[1];
            && (|v| < 2 + ulen ==> Verify(c, v) == Run([], |v|, Err(Eof(2 + ulen - |v|))))
            && (|v| == 2 + ulen ==> Verify(c, v) == Run([], |v|, Err(Eof(1))))
            && (|v| > 2 + ulen ==>
                  var plen: nat := v[2 + ulen];
                  var end := 3 + ulen + plen;
                  && (|v| < end ==> Verify(c, v) == Run([], |v|, Err(Eof(end - |v|))))
                  && (|v| >= end ==>
                        Verify(c, v) == if v[2..2 + ulen] == c.user && v[3 + ulen..end] == c.pass
                                        then Run([AUTH_VER, 0], end, Ok(Unit))
                                        else Run([AUTH_VER, 1], end, Err(Proto("user/pass auth failed")))))
  {
  }

  /** `verify_userpass` */
  method VerifyUserpass(stream: Stream, c: Credentials) returns (r: Result<Unit, Error>)
    modifies stream
    ensures Performed(stream, old(stream.input), old(stream.output), Verify(c, old(stream.input)), r)
  {
    ghost var v := stream.input;
    var head :- stream.ReadExact(2);
    if head[0] != AUTH_VER {
      return Err(Proto("bad auth subnegotiation version"));
    }
    r := CompareUserpass(stream, c, head[1], v);
  }

  /** The rest of it, from the user name's length on; v is what the stream held before. */
  method CompareUserpass(stream: Stream, c: Credentials, ulen: nat, ghost v: Bytes) returns (r: Result<Unit, Error>)
    requires |v| >= 2 && v[0] == AUTH_VER && v[1] == ulen && stream.input == v[2..]
    modifies stream
    ensures Performed(stream, v, old(stream.output), Verify(c, v), r)
  {
    hide Verify;
    VerifyMeans(c, v);
    Ahead(v, 2, ulen);
    var ubuf :- stream.ReadExact(ulen);
    Ahead(v, 2 + ulen, 1);
    var plenB :- stream.ReadExact(1);
    var plen: nat := plenB[0];
    assert plen == v[2 + ulen];
    Ahead(v, 3 + ulen, plen);
    var pbuf :- stream.ReadExact(plen);
    if ubuf == c.user && pbuf == c.pass {
      stream.WriteAll([AUTH_VER, 0]);
      return Ok(Unit);
    } else {
      stream.WriteAll([AUTH_VER, 1]);
      return Err(Proto("user/pass auth failed"));
    }
  }

  // ---------------------------------------------------------------- whom each side accepts

  /** The client is through exactly if the server picks "no authentication", or picks user name and password, which
      were offered, and confirms them; it has taken no more than that. */
  lemma ClientAccepts(auth: Option<Credentials>, input: Bytes)
    ensures var run := Client(auth, input);
            && (run.result.Ok? <==> [5, 0] <= input || (auth.Some? && auth.value.Short() && [5, 2, 1, 0] <= input))
            && (run.result.Ok? ==> run.used == if [5, 0] <= input then 2 else 4)
            && [5] <= run.out
  {
    if |input| >= 4 {
      assert input[2..][0] == input[2] && input[2..][1] == input[3];
    }
  }

  /** What the client writes, byte by byte: its offer, and the credentials exactly if the server asks for them. */
  lemma ClientWrites(auth: Option<Credentials>, input: Bytes)
    ensures Client(auth, input).out ==
            (if auth.None? then [5, 1, 0] else [5, 2, 0, 2])
            + if auth.Some? && auth.value.Short() && [5, 2] <= input
              then var (u, p) := (auth.value.user, auth.value.pass); [1, |u|] + u + [|p|] + p
              else []
  {
  }

  /** A client's greeting with these methods, and its credentials. */
  function Offer(methods: Bytes): Bytes
    requires 1 <= |methods| <= 255
  {
    [5, |methods|] + methods
  }

  function Login(user: Bytes, pass: Bytes): Bytes
    requires |user| <= 255 && |pass| <= 255
  {
    [1, |user|] + (user + ([|pass|] + pass))
  }

  /** The check accepts exactly the configured pair. */
  lemma VerifyAccepts(c: Credentials, v: Bytes)
    ensures Verify(c, v).result.Ok? <==> c.Short() && Login(c.user, c.pass) <= v
    ensures Verify(c, v).result.Ok? ==>
              Verify(c, v).used == |Login(c.user, c.pass)| && Verify(c, v).out == [1, 0]
    ensures Verify(c, v).out in {[], [1, 0], [1, 1]}
  {
    hide Verify;
    if |v| < 2 || v[0] != AUTH_VER {
      VerifyRefuses(c, v);
    } else {
      VerifyMeans(c, v);
      if Verify(c, v).result.Ok? {
        var end := 3 + v[1] as int + v[2 + v[1] as int] as int;
        LoginParts(c, v, end);
      }
      if c.Short() && Login(c.user, c.pass) <= v {
        var text, ulen := Login(c.user, c.pass), |c.user|;
        assert v[..|text|] == text;
        assert text[1] == ulen && text[2 + ulen] == |c.pass|;
        assert text[2..2 + ulen] == c.user && text[3 + ulen..] == c.pass;
        assert v[1] == text[1] && v[2 + ulen] == text[2 + ulen];
        assert v[2..2 + ulen] == text[2..2 + ulen] && v[3 + ulen..|text|] == text[3 + ulen..];
      }
    }
  }

  lemma VerifyRefuses(c: Credentials, v: Bytes)
    requires |v| < 2 || v[0] != AUTH_VER
    ensures Verify(c, v).result.Err? && Verify(c, v).out == []
  {
  }

  lemma LoginParts(c: Credentials, v: Bytes, end: nat)
    requires |v| >= 2 && v[0] == 1 && |v| > 2 + v[1] as int
    requires end == 3 + v[1] as int + v[2 + v[1] as int] as int && end <= |v|
    requires v[2..2 + v[1] as int] == c.user && v[3 + v[1] as int..end] == c.pass
    ensures c.Short() && |Login(c.user, c.pass)| == end && v[..end] == Login(c.user, c.pass)
  {
    var ulen: nat := v[1];
    assert v[..end] == [v[0], v[1]] + (v[2..2 + ulen] + ([v[2 + ulen]] + v[3 + ulen..end]));
  }

  /** The server accepts exactly a greeting that offers what it asks for, followed by the configured credentials if it
      asks for them; and then it has written its choice, and the confirmation, and taken no more than that. */
  lemma ServerAccepts(auth: Option<Credentials>, input: Bytes)
    ensures var run := Server(auth, input);
            && (run.result.Ok? ==> Greeted(auth, input) && run.out == if auth.None? then [5, 0] else [5, 2, 1, 0])
            && (Greeted(auth, input) ==> run.result.Ok?)
  {
    hide Server, Greeted;
    if Greeted(auth, input) {
      GreetedIsAccepted(auth, input);
    }
    if Server(auth, input).result.Ok? {
      AcceptedIsGreeted(auth, input);
    }
  }

  lemma GreetedIsAccepted(auth: Option<Credentials>, input: Bytes)
    requires Greeted(auth, input)
    ensures Server(auth, input).result.Ok?
  {
    hide Verify, Login, Offer;
    var ms: Bytes, more :| 1 <= |ms| <= 255 && input == Offer(ms) + more && Satisfies(auth, ms, more);
    OfferParts(ms, more);
    if auth.Some? {
      VerifyAccepts(auth.value, more);
    }
  }

  lemma AcceptedIsGreeted(auth: Option<Credentials>, input: Bytes)
    requires Server(auth, input).result.Ok?
    ensures Greeted(auth, input) && Server(auth, input).out == if auth.None? then [5, 0] else [5, 2, 1, 0]
  {
    hide Verify, Login;
    var n: nat := input[1];
    var methods, rest := input[2..2 + n], input[2 + n..];
    assert input == Offer(methods) + rest;
    if auth.Some? {
      VerifyAccepts(auth.value, rest);
    }
    assert Satisfies(auth, methods, rest);
  }

  ghost predicate Greeted(auth: Option<Credentials>, input: Bytes) {
    exists ms: Bytes, more ::
      1 <= |ms| <= 255 && input == Offer(ms) + more && Satisfies(auth, ms, more)
  }

  predicate Satisfies(auth: Option<Credentials>, methods: Bytes, rest: Bytes) {
    match auth
    case None => 0 in methods
    case Some(c) => 2 in methods && c.Short() && Login(c.user, c.pass) <= rest
  }

  lemma OfferParts(methods: Bytes, rest: Bytes)
    requires 1 <= |methods| <= 255
    ensures var s := Offer(methods) + rest;
            && |s| == 2 + |methods| + |rest| && s[0] == 5 && s[1] == |methods|
            && s[2..2 + |methods|] == methods && s[2 + |methods|..] == rest
  {
  }

  // ---------------------------------------------------------------- how they refuse

  /** Every way the client fails, in the order of its checks. */
  lemma ClientRefuses(auth: Option<Credentials>, input: Bytes)
    ensures var r, n := Client(auth, input).result, |input|;
            && (n < 2 ==> r == Err(Eof(2 - n)))
            && (n >= 2 && input[0] != 5 ==> r == Err(Proto("bad version in method reply")))
            && ([5, 255] <= input ==> r == Err(Proto("server rejected all methods")))
            && (n >= 2 && input[0] == 5 && input[1] !in {0, 255} && !(input[1] == 2 && auth.Some?) ==>
                  r == Err(Proto("server chose unsupported method")))
            && ([5, 2] <= input && auth.Some? ==>
                  var u, p := |auth.value.user|, |auth.value.pass|;
                  if u > 255 then r == Err(HostTooLong(u))
                  else if p > 255 then r == Err(HostTooLong(p))
                  else if n < 4 then r == Err(Eof(4 - n))
                  else if input[2] != 1 then r == Err(Proto("bad auth subnegotiation version"))
                  else input[3] != 0 ==> r == Err(Proto("user/pass auth rejected by upstream")))
  {
    if |input| >= 4 {
      assert input[2..][0] == input[2] && input[2..][1] == input[3];
    }
  }

  /** Every way the server fails on a greeting, and what it says to that. */
  lemma ServerRefuses(auth: Option<Credentials>, input: Bytes)
    ensures var run, n := Server(auth, input), |input|;
            && (n < 2 ==> run == Run([], n, Err(Eof(2 - n))))
            && (n >= 2 && input[0] != 5 ==> run == Run([], 2, Err(Proto("bad version in client greeting"))))
            && ([5, 0] <= input ==> run == Run([], 2, Err(Proto("client offered zero methods"))))
            && (n >= 2 && input[0] == 5 && n < 2 + input[1] as int ==>
                  run == Run([], n, Err(Eof(2 + input[1] as int - n))))
  {
  }

  lemma OfferRefused(auth: Option<Credentials>, methods: Bytes, rest: Bytes)
    requires 1 <= |methods| <= 255 && (if auth.Some? then 2 else 0) !in methods
    ensures Server(auth, Offer(methods) + rest) ==
            Run([5, 255], 2 + |methods|, Err(Proto(if auth.Some? then "client did not offer user/pass auth"
                                                   else "client did not offer no-auth")))
  {
    OfferParts(methods, rest);
  }

  /** A wrong pair, and a wrong version. */
  lemma LoginRefused(c: Credentials, user: Bytes, pass: Bytes, rest: Bytes)
    requires |user| <= 255 && |pass| <= 255 && (user != c.user || pass != c.pass)
    ensures Verify(c, Login(user, pass) + rest) ==
            Run([1, 1], |Login(user, pass)|, Err(Proto("user/pass auth failed")))
    ensures forall v: Bytes :: |v| >= 2 && v[0] != 1 ==>
              Verify(c, v) == Run([], 2, Err(Proto("bad auth subnegotiation version")))
  {
    var v, text, ulen := Login(user, pass) + rest, Login(user, pass), |user|;
    assert v[..|text|] == text;
    assert text[0] == 1 && text[1] == ulen && text[2 + ulen] == |pass|;
    assert text[2..2 + ulen] == user && text[3 + ulen..] == pass;
    assert v[0] == text[0] && v[1] == text[1] && v[2 + ulen] == text[2 + ulen];
    assert v[2..2 + ulen] == text[2..2 + ulen] && v[3 + ulen..|text|] == text[3 + ulen..];
    VerifyMeans(c, v);
  }
}
