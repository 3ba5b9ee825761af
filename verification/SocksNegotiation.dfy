/** The SOCKS5 negotiation between the two sides: what each may ever write, and what it does on any part of what the
    other may write. */
module SocksNegotiation {
  import opened MachineInts
  import opened Wrappers
  import opened Socks5

  /** The credentials each side was configured with. */
  datatype Setup = Setup(client: Option<Credentials>, server: Option<Credentials>)

  /** The condition for success. */
  predicate Agree(cfg: Setup) {
    cfg.server.None? || (cfg.client == cfg.server && cfg.server.value.Short())
  }

  datatype Role = ClientRole | ServerRole {
    function Peer(): Role {
      if ClientRole? then ServerRole else ClientRole
    }
  }

  function NegotiationOf(cfg: Setup, role: Role, got: Bytes): Run {
    if role.ClientRole? then Client(cfg.client, got) else Server(cfg.server, got)
  }

  predicate Waits(run: Run) {
    run.result.Err? && run.result.error.Eof?
  }

  // ---------------------------------------------------------------- everything each side may ever write

  function Script(cfg: Setup, role: Role): Bytes {
    var asks := cfg.server.Some? && cfg.client.Some? && cfg.client.value.Short();
    if role.ClientRole? then
      Greeting(cfg.client) + if asks then UserpassRequest(cfg.client.value) else []
    else if cfg.server.None? then [VER, METHOD_NO_AUTH]
    else if cfg.client.None? then [VER, METHOD_NONE]
    else [VER, METHOD_USERPASS] + if asks then [AUTH_VER, if cfg.client == cfg.server then 0 else 1] else []
  }

  /** What a side does after reading part of what its peer may write. */
  ghost predicate OnScript(cfg: Setup, role: Role, got: Bytes) {
    var run := NegotiationOf(cfg, role, got);
    && run.used == |got| && run.out <= Script(cfg, role)
    && (run.result.Ok? ==> Agree(cfg) && got == Script(cfg, role.Peer()) && run.out == Script(cfg, role))
    && (run.result.Err? && !Waits(run) ==> !Agree(cfg))
  }

  lemma ClientOnScript(cfg: Setup, got: Bytes)
    requires got <= Script(cfg, ServerRole)
    ensures OnScript(cfg, ClientRole, got)
    ensures |got| < 2 ==> Waits(Client(cfg.client, got)) && Client(cfg.client, got).out == Greeting(cfg.client)
    ensures |got| >= 2 && cfg.server.Some? && cfg.client.Some? && cfg.client.value.Short() ==>
              Client(cfg.client, got).out == Script(cfg, ClientRole) && (Waits(Client(cfg.client, got)) <==> |got| < 4)
    ensures |got| >= 2 && (cfg.server.None? || cfg.client.None? || !cfg.client.value.Short()) ==>
              !Waits(Client(cfg.client, got)) && Client(cfg.client, got).out == Script(cfg, ClientRole)
  {
    hide UserpassRequest;
    var script := Script(cfg, ServerRole);
    if |got| >= 2 {
      assert got[0] == script[0] && got[1] == script[1];
      if |got| >= 3 {
        assert got[2] == script[2] && got[2..][0] == got[2];
      }
      if |got| >= 4 {
        assert got[3] == script[3] && got[2..][1] == got[3];
      }
    }
  }

  /** The check on part of a request, and on a whole one. */
  lemma VerifyOnRequest(c: Credentials, d: Credentials, v: Bytes)
    requires d.Short() && v <= UserpassRequest(d)
    ensures var run := Verify(c, v);
            && run.used == |v|
            && (v == UserpassRequest(d) ==>
                  run == if c == d then Run([AUTH_VER, 0], |v|, Ok(Unit))
                         else Run([AUTH_VER, 1], |v|, Err(Proto("user/pass auth failed"))))
            && (v != UserpassRequest(d) ==> Waits(run) && run.out == [])
  {
    hide Verify;
    var req := UserpassRequest(d);
    var ulen := |d.user|;
    assert req[0] == AUTH_VER && req[1] == ulen && req[2 + ulen] == |d.pass|;
    assert req[2..2 + ulen] == d.user && req[3 + ulen..] == d.pass;
    if |v| < 2 {
      assert Waits(Verify(c, v)) && Verify(c, v).out == [] && Verify(c, v).used == |v| by {
        VerifyShort(c, v);
      }
    } else {
      assert v[0] == req[0] && v[1] == req[1];
      VerifyMeans(c, v);
      if |v| > 2 + ulen {
        assert v[2 + ulen] == req[2 + ulen];
        if |v| == |req| {
          assert v == req && v[3 + ulen..|v|] == d.pass;
        }
      }
    }
  }

  lemma VerifyShort(c: Credentials, v: Bytes)
    requires |v| < 2
    ensures Verify(c, v) == Run([], |v|, Err(Eof(2 - |v|)))
  {
  }

  /** The server on part of the client's script. */
  lemma ServerOnScript(cfg: Setup, got: Bytes)
    requires got <= Script(cfg, ClientRole)
    ensures OnScript(cfg, ServerRole, got)
    ensures var run, g := Server(cfg.server, got), |Greeting(cfg.client)|;
            && (|got| < g ==> Waits(run) && run.out == [])
            && (g <= |got| < |Script(cfg, ClientRole)| ==> Waits(run) && run.out == [VER, METHOD_USERPASS])
            && (|got| == |Script(cfg, ClientRole)| ==> run.out == Script(cfg, ServerRole))
            && (|got| == |Script(cfg, ClientRole)| && (cfg.server.None? || cfg.client.None? || cfg.client.value.Short())
                ==> !Waits(run))
  {
    hide Verify, UserpassRequest;
    var script, greeting := Script(cfg, ClientRole), Greeting(cfg.client);
    assert script[..|greeting|] == greeting;
    if 2 <= |got| < |greeting| {
      assert got[0] == VER && got[1] == greeting[1];
    } else if |got| >= |greeting| {
      assert got[..|greeting|] == greeting;
      assert got[2..|greeting|] == greeting[2..];
      ServerGreeted(cfg, got);
      if cfg.server.Some? && cfg.client.Some? {
        if cfg.client.value.Short() {
          var v, req := got[|greeting|..], UserpassRequest(cfg.client.value);
          assert script[|greeting|..] == req;
          VerifyOnRequest(cfg.server.value, cfg.client.value, v);
          assert |got| == |script| ==> v == req;
        } else {
          assert got == greeting;
          VerifyShort(cfg.server.value, []);
        }
      }
    }
  }

  /** Once the greeting is there. */
  lemma ServerGreeted(cfg: Setup, got: Bytes)
    requires Greeting(cfg.client) <= got
    ensures var run, g := Server(cfg.server, got), |Greeting(cfg.client)|;
            if cfg.server.None? then run == Run([VER, METHOD_NO_AUTH], g, Ok(Unit))
            else if cfg.client.None?
            then run == Run([VER, METHOD_NONE], g, Err(Proto("client did not offer user/pass auth")))
            else var sub := Verify(cfg.server.value, got[g..]);
                 run == Run([VER, METHOD_USERPASS] + sub.out, g + sub.used, sub.result)
  {
    hide Verify;
    var greeting := Greeting(cfg.client);
    assert got[..|greeting|] == greeting;
    assert got[0] == greeting[0] && got[1] == greeting[1];
    assert got[2..|greeting|] == greeting[2..];
    assert greeting[2] in greeting[2..];
    if cfg.client.Some? {
      assert greeting[2..] == [METHOD_NO_AUTH, METHOD_USERPASS];
    } else {
      assert greeting[2..] == [METHOD_NO_AUTH];
    }
  }

  lemma ScriptLengths(cfg: Setup)
    ensures |Script(cfg, ClientRole)| >= |Greeting(cfg.client)| >= 3
    ensures Script(cfg, ClientRole)[..|Greeting(cfg.client)|] == Greeting(cfg.client)
    ensures |Script(cfg, ServerRole)| ==
            if cfg.server.Some? && cfg.client.Some? && cfg.client.value.Short() then 4 else 2
    ensures [VER, METHOD_USERPASS] <= Script(cfg, ServerRole) || cfg.server.None? || cfg.client.None?
  {
  }

  /** Reading more never takes back what was written. */
  lemma OutputGrows(cfg: Setup, role: Role, a: Bytes, b: Bytes)
    requires a <= b <= Script(cfg, role.Peer())
    ensures NegotiationOf(cfg, role, a).out <= NegotiationOf(cfg, role, b).out
  {
    hide Client, Server, Script;
    ScriptLengths(cfg);
    if role.ClientRole? {
      ClientOnScript(cfg, a);
      ClientOnScript(cfg, b);
    } else {
      ServerOnScript(cfg, a);
      ServerOnScript(cfg, b);
      if |a| >= |Greeting(cfg.client)| {
        ServerGreeted(cfg, a);
      }
    }
  }

  /** When everything written has been read, the client is not waiting: so the sides never both wait for good. */
  lemma NoDeadlock(cfg: Setup, c: Bytes, s: Bytes)
    requires c <= Script(cfg, ServerRole) && s <= Script(cfg, ClientRole)
    requires s == NegotiationOf(cfg, ClientRole, c).out && c == NegotiationOf(cfg, ServerRole, s).out
    ensures !Waits(NegotiationOf(cfg, ClientRole, c))
  {
    hide Client, Server, Script;
    ScriptLengths(cfg);
    ClientOnScript(cfg, c);
    ServerOnScript(cfg, s);
  }

  // ---------------------------------------------------------------- nothing behind the end of it is looked at

  lemma ClientStable(auth: Option<Credentials>, a: Bytes, b: Bytes)
    requires !Waits(Client(auth, a))
    ensures Client(auth, a + b) == Client(auth, a)
  {
    if |a| >= 2 {
      assert (a + b)[2..] == a[2..] + b;
    }
  }

  lemma VerifyStable(c: Credentials, a: Bytes, b: Bytes)
    requires !Waits(Verify(c, a))
    ensures Verify(c, a + b) == Verify(c, a)
  {
    if |a| < 2 {
      VerifyShort(c, a);
    } else if a[0] == AUTH_VER {
      var ulen: nat := a[1];
      VerifyMeans(c, a);
      VerifyMeans(c, a + b);
      if |a| > 2 + ulen {
        var plen: nat := a[2 + ulen];
        var end := 3 + ulen + plen;
        if |a| >= end {
          assert (a + b)[2..2 + ulen] == a[2..2 + ulen] && (a + b)[3 + ulen..end] == a[3 + ulen..end];
        }
      }
    }
  }

  lemma ServerStable(auth: Option<Credentials>, a: Bytes, b: Bytes)
    requires !Waits(Server(auth, a))
    ensures Server(auth, a + b) == Server(auth, a)
  {
    hide Verify;
    if |a| >= 2 && a[0] == VER && a[1] > 0 {
      var n: nat := a[1];
      var end := 2 + n;
      if |a| >= end {
        assert (a + b)[2..end] == a[2..end] && (a + b)[end..] == a[end..] + b;
        if auth.Some? && METHOD_USERPASS in a[2..end] {
          VerifyStable(auth.value, a[end..], b);
        }
      }
    }
  }

  /** If the sides agree, both are through after each other's script, and look at nothing behind it. */
  lemma Negotiated(cfg: Setup, rest: Bytes)
    requires Agree(cfg)
    ensures Client(cfg.client, Script(cfg, ServerRole) + rest) ==
            Run(Script(cfg, ClientRole), |Script(cfg, ServerRole)|, Ok(Unit))
    ensures Server(cfg.server, Script(cfg, ClientRole) + rest) ==
            Run(Script(cfg, ServerRole), |Script(cfg, ClientRole)|, Ok(Unit))
  {
    hide Client, Server, Script;
    ScriptLengths(cfg);
    var c, s := Script(cfg, ClientRole), Script(cfg, ServerRole);
    ClientOnScript(cfg, s);
    ServerOnScript(cfg, c);
    var client, server := Client(cfg.client, s), Server(cfg.server, c);
    assert OnScript(cfg, ClientRole, s) && OnScript(cfg, ServerRole, c);
    assert client.result.Ok? && server.result.Ok?;
    assert client.result.value == Unit && server.result.value == Unit;
    ClientStable(cfg.client, s, rest);
    ServerStable(cfg.server, c, rest);
  }

  /** A waiting client lacks no more than its peer's script still holds. */
  lemma ClientLacks(cfg: Setup, got: Bytes)
    requires got <= Script(cfg, ServerRole) && Waits(Client(cfg.client, got))
    ensures |got| + Client(cfg.client, got).result.error.missing <= |Script(cfg, ServerRole)|
  {
    ClientOnScript(cfg, got);
  }

  /** The negotiation of the two sides byte by byte (sections 3 and 4 of RFC 1928, section 2 of RFC 1929). */
  lemma ScriptsAre(cfg: Setup)
    ensures Script(cfg, ClientRole) ==
            if cfg.client.None? then [5, 1, 0]
            else if cfg.server.None? || !cfg.client.value.Short() then [5, 2, 0, 2]
            else [5, 2, 0, 2] + ([1, |cfg.client.value.user|] + cfg.client.value.user
                                 + [|cfg.client.value.pass|] + cfg.client.value.pass)
    ensures Script(cfg, ServerRole) ==
            if cfg.server.None? then [5, 0]
            else if cfg.client.None? then [5, 255]
            else if !cfg.client.value.Short() then [5, 2]
            else [5, 2, 1, if cfg.client == cfg.server then 0 else 1]
  {
    assert [5, 2, 0, 2] + [] == [5, 2, 0, 2];
  }
}
