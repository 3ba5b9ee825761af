/** A whole SOCKS5 conversation up to the reply, as the client (`send_connect` of socks5.rs, `udp_associate_auth` of
    socks5_udp.rs) and the server (inbound_proxy.rs) lead it: the negotiation, one request, one reply; and what each
    side does on any part of what the other may write. */
module SocksDialogue {
  import opened MachineInts
  import opened Wrappers
  import opened Socks5
  import opened SocksNegotiation
  import opened SocksRequest
  import Utf8

  // ---------------------------------------------------------------- the two sides

  /** What the client wants. */
  datatype Ask = ToConnect(dst: SocketAddr, host: Option<Bytes>) | ToAssociate(hint: SocketAddr) {
    /** The request, unless the host name does not fit. */
    function Question(): Option<Bytes> {
      match this
      case ToConnect(dst, host) => ConnectRequest(dst, host)
      case ToAssociate(hint) => Some([VER, CMD_UDP_ASSOCIATE, 0] + AddressText(hint))
    }

    /** What the server makes of it. */
    function Meaning(): (Command, Destination) {
      match this
      case ToConnect(dst, Some(h)) => (Connect, Domain(h, dst.port))
      case ToConnect(dst, None) => (Connect, Address(dst.Plain()))
      case ToAssociate(hint) => (UdpAssociate, Address(hint.Plain()))
    }

    predicate Understood() {
      ToConnect? && host.Some? ==> Utf8.Decode(host.value).Some?
    }
  }

  /** How the server replies to a request: a code and an address, or by closing the connection. */
  type Answers = (Command, Destination) -> Option<(byte, SocketAddr)>

  function Dropped<T>(p: Parsed<T>): Parsed<Unit> {
    Parsed(p.used, if p.result.Ok? then Ok(Unit) else Err(p.result.error))
  }

  function ReplyRead(ask: Ask, d: Bytes): Parsed<Unit> {
    if ask.ToConnect? then ConnectReply(d) else Dropped(AssociateReply(d))
  }

  /** The client, once it is through the negotiation. */
  function AskRun(ask: Ask, d: Bytes): Run {
    match ask.Question()
    case None => Run([], 0, Err(HostTooLong(|ask.host.value|)))
    case Some(text) =>
      var p := ReplyRead(ask, d);
      Run(text, p.used, p.result)
  }

  /** The server, once it is through the negotiation. */
  function AnswerRun(answers: Answers, d: Bytes): Run {
    var p := Request(d);
    if p.result.Err? then Run([], p.used, Err(p.result.error))
    else match answers(p.result.value.0, p.result.value.1)
      case None => Run([], p.used, Err(Proto("closed")))
      case Some(a) => Run(Reply(a.0, a.1), p.used, if a.0 == REP_SUCCEEDED then Ok(Unit) else Err(Rejected(a.0)))
  }

  function Then(run: Run, next: Run): Run {
    Run(run.out + next.out, run.used + next.used, next.result)
  }

  function FullClient(auth: Option<Credentials>, ask: Ask, input: Bytes): Run {
    var run := Client(auth, input);
    if run.result.Err? then run else Then(run, AskRun(ask, input[run.used..]))
  }

  function FullServer(auth: Option<Credentials>, answers: Answers, input: Bytes): Run {
    var run := Server(auth, input);
    if run.result.Err? then run else Then(run, AnswerRun(answers, input[run.used..]))
  }

  /** `send_connect` */
  method SendConnect(stream: Stream, dst: SocketAddr, host: Option<Bytes>) returns (r: Result<Unit, Error>)
    modifies stream
    ensures Performed(stream, old(stream.input), old(stream.output), AskRun(ToConnect(dst, host), old(stream.input)), r)
  {
    hide ConnectReply;
    var buf := new byte[CONNECT_MAX_LEN](_ => 0);
    var n :- EncodeConnectInto(buf, dst, host);
    stream.WriteAll(buf[..n]);
    r := ReadConnectReply(stream);
  }

  /** A dialled connection and one request on it: `handshake`, then `send_connect`. */
  method ConnectThrough(stream: Stream, auth: Option<Credentials>, dst: SocketAddr, host: Option<Bytes>)
    returns (r: Result<Unit, Error>)
    modifies stream
    ensures Performed(stream, old(stream.input), old(stream.output),
                      FullClient(auth, ToConnect(dst, host), old(stream.input)), r)
  {
    hide Client, AskRun;
    ghost var input, output := stream.input, stream.output;
    ghost var run := Client(auth, input);
    r := Handshake(stream, auth);
    if r.Err? {
      return;
    }
    ghost var next := AskRun(ToConnect(dst, host), input[run.used..]);
    r := SendConnect(stream, dst, host);
    assert output + run.out + next.out == output + (run.out + next.out);
  }

  /** The request of `udp_associate_auth`, and its reply. */
  method SendAssociate(stream: Stream, hint: SocketAddr) returns (r: Result<SocketAddr, Error>)
    modifies stream
    ensures Performed(stream, old(stream.input), old(stream.output), AskRun(ToAssociate(hint), old(stream.input)),
                      if r.Ok? then Ok(Unit) else Err(r.error))
    ensures r == AssociateReply(old(stream.input)).result
  {
    hide AssociateReply, AddressText;
    var req := new byte[22](_ => 0);
    CopyInto(req, 0, [VER, CMD_UDP_ASSOCIATE, 0]);
    assert req[..3] == [VER, CMD_UDP_ASSOCIATE, 0];
    var n := PutAddress(req, 3, hint);
    stream.WriteAll(req[..n + 2]);
    r := ReadAssociateReply(stream);
  }

  /** `udp_associate_auth` */
  method UdpAssociateAuth(stream: Stream, hint: SocketAddr, auth: Option<Credentials>)
    returns (r: Result<SocketAddr, Error>)
    modifies stream
    ensures Performed(stream, old(stream.input), old(stream.output),
                      FullClient(auth, ToAssociate(hint), old(stream.input)),
                      if r.Ok? then Ok(Unit) else Err(r.error))
    ensures r.Ok? ==>
              r == AssociateReply(old(stream.input)[Client(auth, old(stream.input)).used..]).result
  {
    hide Client, AssociateReply, AskRun;
    ghost var input, output := stream.input, stream.output;
    ghost var run := Client(auth, input);
    var done := Handshake(stream, auth);
    if done.Err? {
      return Err(done.error);
    }
    ghost var next := AskRun(ToAssociate(hint), input[run.used..]);
    r := SendAssociate(stream, hint);
    assert output + run.out + next.out == output + (run.out + next.out);
  }

  /** `read_request`, and the reply the caller decides on. */
  method AnswerRequest(stream: Stream, answers: Answers) returns (r: Result<Unit, Error>)
    modifies stream
    ensures Performed(stream, old(stream.input), old(stream.output), AnswerRun(answers, old(stream.input)), r)
  {
    hide Request, Reply;
    ghost var output := stream.output;
    assert output + [] == output;
    var request :- ReadRequest(stream);
    match answers(request.0, request.1)
    case None => return Err(Proto("closed"));
    case Some(a) =>
      WriteReply(stream, a.0, a.1);
      return if a.0 == REP_SUCCEEDED then Ok(Unit) else Err(Rejected(a.0));
  }

  /** The server's side of it: `negotiate_method`, then one request. */
  method Serve(stream: Stream, auth: Option<Credentials>, answers: Answers) returns (r: Result<Unit, Error>)
    modifies stream
    ensures Performed(stream, old(stream.input), old(stream.output),
                      FullServer(auth, answers, old(stream.input)), r)
  {
    hide Server, AnswerRun;
    ghost var input, output := stream.input, stream.output;
    ghost var run := Server(auth, input);
    r := NegotiateMethod(stream, auth);
    if r.Err? {
      return;
    }
    ghost var next := AnswerRun(answers, input[run.used..]);
    r := AnswerRequest(stream, answers);
    assert output + run.out + next.out == output + (run.out + next.out);
  }

  // ---------------------------------------------------------------- parts of a reply

  /** Part of a reply, in so far as its reader takes it: the first four bytes if it is a refusal. */
  lemma ReplyOnPart(ask: Ask, rep: byte, bnd: SocketAddr, d: Bytes)
    requires d <= Reply(rep, bnd) && (rep != REP_SUCCEEDED ==> |d| <= 4)
    ensures var p, size := ReplyRead(ask, d), |Reply(rep, bnd)|;
            && p.used == |d| && size > 4
            && (|d| < 4 ==> p.result == Err(Eof(4 - |d|)))
            && (rep == REP_SUCCEEDED && 4 <= |d| < size ==> p.result.Err? && p.result.error.Eof?)
            && (d == Reply(rep, bnd) ==> p.result == Ok(Unit))
            && (rep != REP_SUCCEEDED && |d| == 4 ==> p.result == Err(Rejected(rep)))
  {
    hide AddressText, AddressOf;
    AddressIsRead(bnd);
    var a, text := AddressText(bnd), Reply(rep, bnd);
    if |d| >= 4 {
      assert d[0] == text[0] && d[1] == text[1] && d[2] == text[2] && d[3] == text[3];
    }
  }

  lemma NoReplyYet(ask: Ask)
    ensures ReplyRead(ask, []) == Parsed(0, Err(Eof(4)))
  {
  }

  // ---------------------------------------------------------------- parts of a request

  lemma AssociateIsRead(hint: SocketAddr)
    ensures var text := [VER, CMD_UDP_ASSOCIATE, 0] + AddressText(hint);
            Request(text) == Parsed(|text|, Ok((UdpAssociate, Address(hint.Plain()))))
  {
    hide AddressText, AddressOf, RequestDestination;
    AddressIsRead(hint);
    var a := AddressText(hint);
    var text := [VER, CMD_UDP_ASSOCIATE, 0] + a;
    assert text[4..] == a[1..] + [];
    AddressDestination(a, []);
  }

  lemma WholeRequest(ask: Ask)
    requires ask.Question().Some?
    ensures var text := ask.Question().value;
            Request(text) == Parsed(|text|, if ask.Understood() then Ok(ask.Meaning())
                                            else Err(Proto("non-utf8 domain")))
  {
    hide Request, Utf8.Decode, ConnectRequest, AddressText;
    match ask
    case ToConnect(dst, host) =>
      var text := ask.Question().value;
      assert text + [] == text;
      ConnectIsRead(dst, host, []);
    case ToAssociate(hint) => AssociateIsRead(hint);
  }

  /** A request is waited for to its end. */
  lemma PartOfRequest(ask: Ask, d: Bytes)
    requires ask.Question().Some? && d <= ask.Question().value && d != ask.Question().value
    ensures var p := Request(d); p.used == |d| && p.result.Err? && p.result.error.Eof?
  {
    hide Utf8.Decode, AddressText, AddressOf, DomainOf;
    var text := ask.Question().value;
    if ask.ToAssociate? {
      AddressIsRead(ask.hint);
    } else if ask.host.None? {
      AddressIsRead(ask.dst);
    }
    if |d| >= 4 {
      assert d[0] == text[0] && d[3] == text[3];
      if |d| >= 5 {
        assert d[4] == text[4] && d[4..][0] == d[4];
      }
    }
  }

  // ---------------------------------------------------------------- everything each side may ever write

  datatype Talk = Talk(ask: Ask, answers: Answers)

  /** The credentials, and the request the client makes after the negotiation, if it makes one. */
  datatype Session = Session(setup: Setup, talk: Option<Talk>) {
    function RunOf(role: Role, got: Bytes): Run {
      if talk.None? then NegotiationOf(setup, role, got)
      else if role.ClientRole? then FullClient(setup.client, talk.value.ask, got)
      else FullServer(setup.server, talk.value.answers, got)
    }

    function Asked(): Bytes {
      if talk.Some? && Agree(setup) && talk.value.ask.Question().Some? then talk.value.ask.Question().value else []
    }

    /** What the server will reply. */
    function Answer(): Option<(byte, SocketAddr)> {
      if talk.Some? && Agree(setup) && talk.value.ask.Question().Some? && talk.value.ask.Understood() then
        var (command, destination) := talk.value.ask.Meaning();
        talk.value.answers(command, destination)
      else None
    }

    function Answered(): Bytes {
      match Answer()
      case Some(a) => Reply(a.0, a.1)
      case None => []
    }

    predicate Refused() {
      Answer().Some? && Answer().value.0 != REP_SUCCEEDED
    }

    /** Everything a side may ever write. */
    function Lines(role: Role): Bytes {
      Script(setup, role) + if role.ClientRole? then Asked() else Answered()
    }

    /** The part of its peer's lines that a side may ever read: of a refusal its first four bytes. */
    function Intake(role: Role): Bytes {
      Script(setup, role.Peer())
      + if role.ServerRole? then Asked() else if Refused() then Answered()[..Min(4, |Answered()|)] else Answered()
    }

    /** The condition for success: the credentials agree, and the request, if there is one, fits, is understood, and
        is granted. */
    predicate Served() {
      Agree(setup) && (talk.Some? ==> Answer().Some? && !Refused())
    }
  }

  /** What a side does after reading part of what its peer may write. */
  ghost predicate OnLines(ss: Session, role: Role, got: Bytes) {
    var run := ss.RunOf(role, got);
    && run.used == |got| && run.out <= ss.Lines(role)
    && (run.result.Ok? ==> ss.Served() && got == ss.Lines(role.Peer()) && run.out == ss.Lines(role))
    && (run.result.Err? && !Waits(run) ==> !ss.Served())
    && (ss.Served() && got == ss.Lines(role.Peer()) ==> run.result.Ok?)
  }

  /** Before the negotiation is over, or if it fails, nothing else is to be seen. */
  lemma BeforeTheEnd(ss: Session, role: Role, got: Bytes)
    requires got <= Script(ss.setup, role.Peer()) && (got != Script(ss.setup, role.Peer()) || !Agree(ss.setup))
    ensures ss.RunOf(role, got) == NegotiationOf(ss.setup, role, got)
    ensures OnScript(ss.setup, role, got)
  {
    hide Client, Server, Script;
    if role.ClientRole? {
      ClientOnScript(ss.setup, got);
    } else {
      ServerOnScript(ss.setup, got);
    }
  }

  /** After it. */
  lemma AfterTheEnd(ss: Session, role: Role, d: Bytes)
    requires Agree(ss.setup)
    ensures var peer := Script(ss.setup, role.Peer());
            var run := Run(Script(ss.setup, role), |peer|, Ok(Unit));
            && (ss.talk.None? ==> ss.RunOf(role, peer + d) == run)
            && (ss.talk.Some? ==>
                  ss.RunOf(role, peer + d) ==
                  Then(run, if role.ClientRole? then AskRun(ss.talk.value.ask, d)
                            else AnswerRun(ss.talk.value.answers, d)))
  {
    hide Client, Server, Script, AskRun, AnswerRun;
    Negotiated(ss.setup, d);
    assert (Script(ss.setup, role.Peer()) + d)[|Script(ss.setup, role.Peer())|..] == d;
  }

  /** The client on part of what it may read behind the negotiation. */
  lemma AskOnPart(ss: Session, d: Bytes)
    requires Agree(ss.setup) && ss.talk.Some?
    requires d <= if ss.Refused() then ss.Answered()[..Min(4, |ss.Answered()|)] else ss.Answered()
    ensures var run := AskRun(ss.talk.value.ask, d);
            && run.used == |d| && run.out == ss.Asked()
            && (run.result.Ok? ==> ss.Served() && d == ss.Answered())
            && (run.result.Err? && !Waits(run) ==> !ss.Served())
            && (ss.Served() && d == ss.Answered() ==> run.result.Ok?)
            && (ss.Refused() && Waits(run) ==> |d| + run.result.error.missing <= 4)
  {
    hide ReplyRead, Reply, Ask.Question, Ask.Meaning, Ask.Understood;
    var ask := ss.talk.value.ask;
    match ss.Answer()
    case Some(a) => ReplyOnPart(ask, a.0, a.1, d);
    case None => NoReplyYet(ask);
  }

  /** The server on part of what it may read behind the negotiation. */
  lemma AnswerOnPart(ss: Session, d: Bytes)
    requires Agree(ss.setup) && ss.talk.Some? && d <= ss.Asked()
    ensures var run := AnswerRun(ss.talk.value.answers, d);
            && run.used == |d| && run.out <= ss.Answered()
            && (run.out != [] ==> d == ss.Asked() && run.out == ss.Answered())
            && (run.result.Ok? ==> ss.Served() && d == ss.Asked() && run.out == ss.Answered())
            && (run.result.Err? && !Waits(run) ==> !ss.Served())
            && (ss.talk.value.ask.Question().Some? && d == ss.Asked() ==> !Waits(run))
            && (ss.Served() && d == ss.Asked() ==> run.result.Ok?)
  {
    hide Request, Reply, Ask.Question, Ask.Meaning, Ask.Understood;
    var ask := ss.talk.value.ask;
    if ask.Question().None? {
      NothingRequested();
    } else if d == ss.Asked() {
      WholeRequest(ask);
    } else {
      PartOfRequest(ask, d);
    }
  }

  lemma NothingRequested()
    ensures Request([]) == Parsed(0, Err(Eof(4)))
  {
  }

  /** What a side may read, behind the negotiation or not yet there. */
  lemma IntakeParts(ss: Session, role: Role, got: Bytes) returns (d: Bytes)
    requires got <= ss.Intake(role)
    ensures var peer := Script(ss.setup, role.Peer());
            if |got| < |peer| || !Agree(ss.setup) then got <= peer && (got != peer || !Agree(ss.setup))
            else got == peer + d && d <= ss.Intake(role)[|peer|..]
  {
    hide Script, Reply;
    var peer := Script(ss.setup, role.Peer());
    d := if |got| < |peer| then [] else got[|peer|..];
    if |got| >= |peer| {
      assert got[..|peer|] == ss.Intake(role)[..|peer|] == peer;
      assert got == peer + d;
    } else {
      assert got == ss.Intake(role)[..|got|] == peer[..|got|];
    }
  }

  lemma IntakeTail(ss: Session, role: Role)
    ensures ss.Intake(role)[|Script(ss.setup, role.Peer())|..] ==
            if role.ServerRole? then ss.Asked()
            else if ss.Refused() then ss.Answered()[..Min(4, |ss.Answered()|)] else ss.Answered()
    ensures ss.Intake(role) <= ss.Lines(role.Peer())
    ensures role.ServerRole? || !ss.Refused() ==> ss.Intake(role) == ss.Lines(role.Peer())
    ensures !Agree(ss.setup) ==>
              ss.Lines(role) == Script(ss.setup, role) && ss.Intake(role) == Script(ss.setup, role.Peer())
  {
    hide Script, Reply;
    assert Script(ss.setup, role) + [] == Script(ss.setup, role);
    assert Script(ss.setup, role.Peer()) + [] == Script(ss.setup, role.Peer());
  }

  lemma KeepsToLines(ss: Session, role: Role, got: Bytes)
    requires got <= ss.Intake(role)
    ensures OnLines(ss, role, got)
    ensures Agree(ss.setup) && |got| >= |Script(ss.setup, role.Peer())| ==>
              Script(ss.setup, role) <= ss.RunOf(role, got).out
    ensures Agree(ss.setup) && |got| >= |Script(ss.setup, role.Peer())| && role.ClientRole? ==>
              ss.RunOf(role, got).out == ss.Lines(role)
  {
    hide Script, AskRun, AnswerRun, Session.RunOf, Session.Asked, Session.Answer, Session.Answered, Session.Refused,
      Session.Intake, NegotiationOf;
    var peer := Script(ss.setup, role.Peer());
    var d := IntakeParts(ss, role, got);
    IntakeTail(ss, role);
    if |got| < |peer| || !Agree(ss.setup) {
      BeforeTheEnd(ss, role, got);
    } else {
      AfterTheEnd(ss, role, d);
      if ss.talk.None? {
        NothingAsked(ss);
      } else if role.ClientRole? {
        AskOnPart(ss, d);
      } else {
        AnswerOnPart(ss, d);
      }
    }
  }

  lemma NothingAsked(ss: Session)
    requires ss.talk.None?
    ensures ss.Asked() == [] && ss.Answered() == [] && !ss.Refused()
  {
  }

  /** Reading more never takes back what was written. */
  lemma LinesGrow(ss: Session, role: Role, a: Bytes, b: Bytes)
    requires a <= b <= ss.Intake(role)
    ensures ss.RunOf(role, a).out <= ss.RunOf(role, b).out
  {
    hide Script, AskRun, AnswerRun, Session.RunOf, Session.Intake, Session.Asked, Session.Answered, Session.Refused,
      NegotiationOf, OnLines, OnScript;
    var peer := Script(ss.setup, role.Peer());
    assert a <= ss.Intake(role) by { PrefixOfPrefix(a, b, ss.Intake(role)); }
    var d := IntakeParts(ss, role, a);
    var e := IntakeParts(ss, role, b);
    KeepsToLines(ss, role, b);
    if |b| < |peer| || !Agree(ss.setup) {
      BeforeTheEnd(ss, role, a);
      BeforeTheEnd(ss, role, b);
      OutputGrows(ss.setup, role, a, b);
    } else if |a| < |peer| {
      BeforeTheEnd(ss, role, a);
      ScriptBounds(ss.setup, role, a);
      PrefixOfPrefix(ss.RunOf(role, a).out, Script(ss.setup, role), ss.RunOf(role, b).out);
    } else {
      KeepsToLines(ss, role, a);
      if role.ServerRole? && ss.talk.Some? {
        AnswersGrow(ss, d, e);
      } else if ss.talk.None? {
        AfterTheEnd(ss, role, d);
        AfterTheEnd(ss, role, e);
      }
    }
  }

  lemma PrefixOfPrefix(a: Bytes, b: Bytes, c: Bytes)
    requires a <= b <= c
    ensures a <= c
  {
    assert a == b[..|a|] == c[..|a|];
  }

  lemma ScriptBounds(cfg: Setup, role: Role, got: Bytes)
    requires OnScript(cfg, role, got)
    ensures NegotiationOf(cfg, role, got).out <= Script(cfg, role)
  {
  }

  lemma AnswersGrow(ss: Session, d: Bytes, e: Bytes)
    requires Agree(ss.setup) && ss.talk.Some? && Script(ss.setup, ClientRole) + d <= Script(ss.setup, ClientRole) + e
    requires e <= ss.Intake(ServerRole)[|Script(ss.setup, ClientRole)|..]
    ensures ss.RunOf(ServerRole, Script(ss.setup, ClientRole) + d).out <=
            ss.RunOf(ServerRole, Script(ss.setup, ClientRole) + e).out
  {
    hide Script, AnswerRun, Session.RunOf, Session.Intake, Session.Asked, Session.Answered, Agree;
    var peer, answers := Script(ss.setup, ClientRole), ss.talk.value.answers;
    IntakeTail(ss, ServerRole);
    assert d <= e by {
      assert (peer + d)[|peer|..] == d && (peer + e)[|peer|..] == e;
      assert (peer + d)[|peer|..] == (peer + e)[..|peer + d|][|peer|..] == (peer + e)[|peer|..][..|d|];
    }
    PrefixOfPrefix(d, e, ss.Asked());
    AnswerOnPart(ss, d);
    AnswerOnPart(ss, e);
    AfterTheEnd(ss, ServerRole, d);
    AfterTheEnd(ss, ServerRole, e);
    var mine := Script(ss.setup, ServerRole);
    if AnswerRun(answers, d).out == [] {
      assert mine + [] == mine;
    } else {
      assert e == d;
    }
  }

  /** A waiting side never lacks more than it may read, if its peer keeps to its lines. */
  lemma IntakeHolds(ss: Session, role: Role, got: Bytes, more: Bytes)
    requires got <= ss.Intake(role) && Waits(ss.RunOf(role, got))
    requires |more| <= ss.RunOf(role, got).result.error.missing && got + more <= ss.Lines(role.Peer())
    ensures got + more <= ss.Intake(role)
  {
    hide Script, AskRun, AnswerRun, Session.RunOf, Session.Intake, Session.Asked, Session.Answered, Client, Reply;
    IntakeTail(ss, role);
    if role.ClientRole? && ss.Refused() {
      var peer := Script(ss.setup, ServerRole);
      var d := IntakeParts(ss, role, got);
      RefusalIsLong(ss);
      if |got| < |peer| {
        BeforeTheEnd(ss, role, got);
        ClientLacks(ss.setup, got);
      } else {
        AfterTheEnd(ss, role, d);
        AskOnPart(ss, d);
      }
      assert |got + more| <= |peer| + 4 <= |ss.Intake(role)|;
      assert got + more == ss.Lines(ServerRole)[..|got + more|] == ss.Intake(role)[..|got + more|];
    }
  }

  lemma RefusalIsLong(ss: Session)
    requires ss.Refused()
    ensures Agree(ss.setup) && ss.talk.Some? && |ss.Answered()| > 4
    ensures |ss.Intake(ClientRole)| == |Script(ss.setup, ServerRole)| + 4
  {
    hide Script, AddressText;
    AddressIsRead(ss.Answer().value.1);
  }

  /** When everything written has been read, not both sides are waiting. */
  lemma NotBothWait(ss: Session, c: Bytes, s: Bytes)
    requires c <= ss.Intake(ClientRole) && s <= ss.Intake(ServerRole)
    requires s == ss.RunOf(ClientRole, c).out && c == ss.RunOf(ServerRole, s).out
    ensures !Waits(ss.RunOf(ClientRole, c)) || !Waits(ss.RunOf(ServerRole, s))
  {
    hide Script, AskRun, AnswerRun, Session.RunOf, Session.Intake, Session.Asked, Session.Answered, Session.Refused,
      Client, Server, OnScript;
    var up, down := Script(ss.setup, ClientRole), Script(ss.setup, ServerRole);
    var d := IntakeParts(ss, ClientRole, c);
    var e := IntakeParts(ss, ServerRole, s);
    KeepsToLines(ss, ClientRole, c);
    KeepsToLines(ss, ServerRole, s);
    IntakeTail(ss, ClientRole);
    IntakeTail(ss, ServerRole);
    if !Agree(ss.setup) || (|c| < |down| && |s| < |up|) {
      BeforeTheEnd(ss, ClientRole, c);
      BeforeTheEnd(ss, ServerRole, s);
      NoDeadlock(ss.setup, c, s);
    } else if |c| >= |down| {
      AfterTheEnd(ss, ClientRole, d);
      if ss.talk.Some? {
        assert s == ss.Lines(ClientRole);
        AfterTheEnd(ss, ServerRole, ss.Asked());
        AskOnPart(ss, d);
        AnswerOnPart(ss, ss.Asked());
        if ss.talk.value.ask.Question().None? {
          HostRefused(ss.talk.value.ask, d);
        }
      }
    } else {
      assert false;
    }
  }

  lemma HostRefused(ask: Ask, d: Bytes)
    requires ask.Question().None?
    ensures !Waits(AskRun(ask, d))
  {
  }

  /** Whoever waits lacks something. */
  lemma WaitingLacks(ss: Session, role: Role, got: Bytes)
    ensures Waits(ss.RunOf(role, got)) ==> ss.RunOf(role, got).result.error.missing > 0
  {
    hide ReplyRead, Request, Client, Server, Reply, ConnectRequest;
    if ss.talk.Some? {
      if role.ClientRole? {
        ReplyLacks(ss.talk.value.ask, got[Client(ss.setup.client, got).used..]);
      } else {
        RequestLacks(got[Server(ss.setup.server, got).used..]);
      }
    }
  }

  lemma ReplyLacks(ask: Ask, d: Bytes)
    ensures var r := ReplyRead(ask, d).result; r.Err? && r.error.Eof? ==> r.error.missing > 0
  {
    hide AddressOf;
  }

  lemma RequestLacks(d: Bytes)
    ensures var r := Request(d).result; r.Err? && r.error.Eof? ==> r.error.missing > 0
  {
    hide AddressOf, Utf8.Decode;
  }
}
