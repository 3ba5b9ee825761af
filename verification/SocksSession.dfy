/** Client and server of one SOCKS5 connection run against each other, their reads and writes interleaved and cut in
    every possible way: the conversation always ends, both sides agree on how, and nothing is left over. */
module SocksSession {
  import opened MachineInts
  import opened Wrappers
  import opened Socks5
  import opened SocksNegotiation
  import opened SocksDialogue

  // ---------------------------------------------------------------- the two sides and the wire between them

  /** A side that ends without success closes its connection. */
  datatype Phase = Running | Ended(ok: bool)

  /** Bytes read so far, and bytes decided on but not yet written. */
  datatype Side = Side(got: Bytes, unsent: Bytes, phase: Phase)

  /** The sides, and what is on its way from client to server and back. */
  datatype World = World(client: Side, server: Side, up: Bytes, down: Bytes) {
    function Of(role: Role): Side {
      if role.ClientRole? then client else server
    }

    /** On its way to this side. */
    function Inbox(role: Role): Bytes {
      if role.ClientRole? then down else up
    }

    function With(role: Role, me: Side, inbox: Bytes, outbox: Bytes): World {
      if role.ClientRole? then World(me, server, outbox, inbox) else World(client, me, inbox, outbox)
    }
  }

  function Start(ss: Session): World {
    World(Side([], Greeting(ss.setup.client), Running), Side([], [], Running), [], [])
  }

  /** Write or read k bytes; end as the code does; see the peer's close instead of data; fail to write to it. */
  datatype Move = Send(k: nat) | Read(k: nat) | Finish | Cut | Break

  /** What a longer output adds to a shorter one. */
  function Added(before: Bytes, after: Bytes): Bytes {
    if |before| <= |after| then after[|before|..] else []
  }

  /** A move of one side, if it can make it. A closed peer may cost the side what was still on its way. */
  function Step(ss: Session, w: World, role: Role, move: Move): Option<World> {
    var me, peer := w.Of(role), w.Of(role.Peer());
    var inbox, outbox := w.Inbox(role), w.Inbox(role.Peer());
    var run := ss.RunOf(role, me.got);
    if me.phase != Running then None
    else match move
      case Send(k) =>
        if 1 <= k <= |me.unsent|
        then Some(w.With(role, me.(unsent := me.unsent[k..]), inbox, outbox + me.unsent[..k]))
        else None
      case Read(k) =>
        if me.unsent == [] && Waits(run) && 1 <= k <= run.result.error.missing && k <= |inbox|
        then var got := me.got + inbox[..k];
             var more := Added(run.out, ss.RunOf(role, got).out);
             Some(w.With(role, Side(got, more, Running), inbox[k..], outbox))
        else None
      case Finish =>
        if me.unsent == [] && !Waits(run) then Some(w.With(role, me.(phase := Ended(run.result.Ok?)), inbox, outbox))
        else None
      case Cut =>
        if me.unsent == [] && Waits(run) && peer.phase == Ended(false)
        then Some(w.With(role, me.(phase := Ended(false)), inbox, outbox))
        else None
      case Break =>
        if me.unsent != [] && peer.phase == Ended(false)
        then Some(w.With(role, me.(phase := Ended(false)), inbox, outbox))
        else None
  }

  /** A run of the system; None if a move was not possible. */
  function Play(ss: Session, w: World, moves: seq<(Role, Move)>): Option<World>
    decreases |moves|
  {
    if moves == [] then Some(w)
    else match Step(ss, w, moves[0].0, moves[0].1)
      case Some(w') => Play(ss, w', moves[1..])
      case None => None
  }

  ghost predicate Stuck(ss: Session, w: World) {
    forall role, move :: Step(ss, w, role, move).None?
  }

  // ---------------------------------------------------------------- every reachable state

  /** What a side has written is what its peer has read, what is on its way, and nothing else. */
  ghost predicate Kept(ss: Session, w: World, role: Role) {
    var me, peer := w.Of(role), w.Of(role.Peer());
    && peer.got + w.Inbox(role.Peer()) + me.unsent == ss.RunOf(role, me.got).out
    && me.got <= ss.Intake(role)
    && (me.phase == Ended(true) ==> me.unsent == [] && ss.RunOf(role, me.got).result.Ok?)
    && (me.phase == Ended(false) ==> !ss.Served())
  }

  ghost predicate Invariant(ss: Session, w: World) {
    Kept(ss, w, ClientRole) && Kept(ss, w, ServerRole)
  }

  lemma StartKept(ss: Session)
    ensures Invariant(ss, Start(ss))
  {
    var w := Start(ss);
    assert [] + [] + w.client.unsent == w.client.unsent;
  }

  lemma SendKeeps(ss: Session, w: World, role: Role, k: nat)
    requires Invariant(ss, w) && Step(ss, w, role, Send(k)).Some?
    ensures Invariant(ss, Step(ss, w, role, Send(k)).value)
  {
    hide Session.RunOf, Session.Lines, Session.Served, Session.Intake;
    var me, peer := w.Of(role), w.Of(role.Peer());
    var outbox := w.Inbox(role.Peer());
    assert me.unsent == me.unsent[..k] + me.unsent[k..];
    assert peer.got + (outbox + me.unsent[..k]) + me.unsent[k..] == peer.got + outbox + me.unsent;
    var w' := Step(ss, w, role, Send(k)).value;
    assert Kept(ss, w', role) && Kept(ss, w', role.Peer());
  }

  /** Moving the front of what is on its way to what was read changes nothing in all of it. */
  lemma FrontRead(got: Bytes, inbox: Bytes, unsent: Bytes, k: nat)
    requires k <= |inbox|
    ensures got + inbox[..k] + inbox[k..] + unsent == got + inbox + unsent
  {
    assert inbox == inbox[..k] + inbox[k..];
  }

  lemma MoreToSend(written: Bytes, before: Bytes, after: Bytes)
    requires written == before && before <= after
    ensures written + Added(before, after) == after
  {
  }

  lemma NothingMore(a: Bytes)
    ensures a + [] == a
  {
  }

  lemma ReadKeeps(ss: Session, w: World, role: Role, k: nat)
    requires Invariant(ss, w) && Step(ss, w, role, Read(k)).Some?
    ensures Invariant(ss, Step(ss, w, role, Read(k)).value)
  {
    hide Session.RunOf, Session.Lines, Session.Served, Session.Intake, Added;
    var me, peer := w.Of(role), w.Of(role.Peer());
    var inbox, outbox := w.Inbox(role), w.Inbox(role.Peer());
    var got := me.got + inbox[..k];
    assert Kept(ss, w, role) && Kept(ss, w, role.Peer());
    var all, script := ss.RunOf(role.Peer(), peer.got).out, ss.Lines(role.Peer());
    KeepsToLines(ss, role.Peer(), peer.got);
    FrontRead(me.got, inbox, peer.unsent, k);
    PrefixTwice(got, inbox[k..], peer.unsent, all, script);
    IntakeHolds(ss, role, me.got, inbox[..k]);
    LinesGrow(ss, role, me.got, got);
    var before, after := ss.RunOf(role, me.got).out, ss.RunOf(role, got).out;
    NothingMore(peer.got + outbox);
    MoreToSend(peer.got + outbox, before, after);
    var w' := Step(ss, w, role, Read(k)).value;
    assert Kept(ss, w', role) && Kept(ss, w', role.Peer());
  }

  lemma PrefixTwice(a: Bytes, b: Bytes, c: Bytes, all: Bytes, script: Bytes)
    requires a + b + c == all && all <= script
    ensures a <= script
  {
    assert a == all[..|a|] == script[..|a|];
  }

  lemma StepKeeps(ss: Session, w: World, role: Role, move: Move)
    requires Invariant(ss, w) && Step(ss, w, role, move).Some?
    ensures Invariant(ss, Step(ss, w, role, move).value)
  {
    match move
    case Send(k) => SendKeeps(ss, w, role, k);
    case Read(k) => ReadKeeps(ss, w, role, k);
    case _ => EndKeeps(ss, w, role, move);
  }

  lemma EndKeeps(ss: Session, w: World, role: Role, move: Move)
    requires Invariant(ss, w) && Step(ss, w, role, move).Some? && (move.Finish? || move.Cut? || move.Break?)
    ensures Invariant(ss, Step(ss, w, role, move).value)
  {
    hide Session.RunOf, Session.Lines, Session.Served, Session.Intake;
    assert Kept(ss, w, role) && Kept(ss, w, role.Peer());
    KeepsToLines(ss, role, w.Of(role).got);
    var w' := Step(ss, w, role, move).value;
    assert Kept(ss, w', role) && Kept(ss, w', role.Peer());
  }

  // ---------------------------------------------------------------- every run

  /** Moves a side can still make before it has written and read everything and ended. */
  function Left(ss: Session, w: World, role: Role): int {
    var me := w.Of(role);
    |ss.Lines(role)| - |w.Of(role.Peer()).got| - |w.Inbox(role.Peer())|
    + |ss.Lines(role.Peer())| - |me.got|
    + if me.phase == Running then 1 else 0
  }

  function Budget(ss: Session): nat {
    2 * (|ss.Lines(ClientRole)| + |ss.Lines(ServerRole)|) + 2
  }

  lemma LeftIsBounded(ss: Session, w: World, role: Role)
    requires Invariant(ss, w)
    ensures 0 <= Left(ss, w, role)
  {
    hide Session.RunOf, Session.Lines, Session.Served, Session.Intake;
    assert Kept(ss, w, role);
    var me := w.Of(role);
    KeepsToLines(ss, role, me.got);
    IntakeFits(ss, role);
    assert |ss.RunOf(role, me.got).out| <= |ss.Lines(role)|;
  }

  lemma IntakeFits(ss: Session, role: Role)
    ensures |ss.Intake(role)| <= |ss.Lines(role.Peer())|
  {
    hide Script, Session.Answered, Session.Asked;
  }

  lemma StepsAreFew(ss: Session, w: World, role: Role, move: Move)
    requires Step(ss, w, role, move).Some?
    ensures var w' := Step(ss, w, role, move).value;
            Left(ss, w', ClientRole) + Left(ss, w', ServerRole) <
            Left(ss, w, ClientRole) + Left(ss, w, ServerRole)
  {
    hide Session.RunOf, Session.Lines, Session.Intake;
  }

  lemma {:induction false} RunKeeps(ss: Session, w: World, moves: seq<(Role, Move)>)
    requires Invariant(ss, w) && Play(ss, w, moves).Some?
    ensures Invariant(ss, Play(ss, w, moves).value)
    ensures |moves| <= Left(ss, w, ClientRole) + Left(ss, w, ServerRole)
    decreases |moves|
  {
    hide Step, Left, Invariant;
    if moves == [] {
      LeftIsBounded(ss, w, ClientRole);
      LeftIsBounded(ss, w, ServerRole);
    } else {
      StepKeeps(ss, w, moves[0].0, moves[0].1);
      StepsAreFew(ss, w, moves[0].0, moves[0].1);
      RunKeeps(ss, Step(ss, w, moves[0].0, moves[0].1).value, moves[1..]);
    }
  }

  /** A side that cannot move has ended, or waits with nothing on its way and a peer that did not fail. */
  lemma CannotMove(ss: Session, w: World, role: Role)
    requires Stuck(ss, w) && w.Of(role).phase == Running
    ensures w.Of(role).unsent == [] && Waits(ss.RunOf(role, w.Of(role).got)) && w.Inbox(role) == []
    ensures w.Of(role.Peer()).phase != Ended(false)
  {
    hide Session.RunOf, Session.Intake;
    assert Step(ss, w, role, Send(1)).None?;
    assert Step(ss, w, role, Finish).None?;
    WaitingLacks(ss, role, w.Of(role).got);
    assert Step(ss, w, role, Read(1)).None?;
    assert Step(ss, w, role, Cut).None?;
  }

  lemma NobodyIsLeftWaiting(ss: Session, w: World, role: Role)
    requires Invariant(ss, w) && Stuck(ss, w)
    ensures w.Of(role).phase != Running
  {
    hide Session.RunOf, Session.Lines, Session.Served, Session.Intake, Step, Stuck;
    if w.Of(role).phase == Running {
      CannotMove(ss, w, role);
      var me, peer := w.Of(role), w.Of(role.Peer());
      assert Kept(ss, w, role) && Kept(ss, w, role.Peer());
      KeepsToLines(ss, role, me.got);
      KeepsToLines(ss, role.Peer(), peer.got);
      assert peer.unsent == [] ==> me.got + [] + [] == me.got;
      if peer.phase == Running {
        CannotMove(ss, w, role.Peer());
        assert peer.got + [] + [] == peer.got;
        NotBothWait(ss, w.client.got, w.server.got);
        assert false;
      } else {
        assert false;
      }
    }
  }

  /** After success everything written has been read. */
  lemma NothingIsLeftOver(ss: Session, w: World, role: Role)
    requires Invariant(ss, w) && w.Of(role).phase == Ended(true) && w.Of(role.Peer()).phase == Ended(true)
    ensures ss.Served() && w.Inbox(role) == [] && w.Of(role).unsent == []
  {
    hide Session.RunOf, Session.Lines, Session.Served, Session.Intake;
    assert Kept(ss, w, role) && Kept(ss, w, role.Peer());
    KeepsToLines(ss, role, w.Of(role).got);
    KeepsToLines(ss, role.Peer(), w.Of(role.Peer()).got);
  }

  /** However reads and writes interleave and are cut: the conversation takes a bounded number of moves, and when no
      move is left both sides have ended, both with success exactly if the server asks for no credentials or the
      client has the same ones, short enough to send, and the request, if there is one, fits, is understood and is
      granted; after success nothing written is still unread. */
  lemma SidesAgree(ss: Session, moves: seq<(Role, Move)>)
    requires Play(ss, Start(ss), moves).Some?
    ensures var w := Play(ss, Start(ss), moves).value;
            && |moves| <= Budget(ss)
            && (Stuck(ss, w) ==> w.client.phase == Ended(ss.Served()) && w.server.phase == Ended(ss.Served()))
            && (Stuck(ss, w) && ss.Served() ==>
                  w.up == [] && w.down == [] && w.client.unsent == [] && w.server.unsent == [])
  {
    hide Step, Invariant, Stuck, Session.Lines, Session.Served, Session.RunOf;
    StartKept(ss);
    RunKeeps(ss, Start(ss), moves);
    var w := Play(ss, Start(ss), moves).value;
    if Stuck(ss, w) {
      NobodyIsLeftWaiting(ss, w, ClientRole);
      NobodyIsLeftWaiting(ss, w, ServerRole);
      SameEnd(ss, w);
    }
  }

  lemma SameEnd(ss: Session, w: World)
    requires Invariant(ss, w) && w.client.phase != Running && w.server.phase != Running
    ensures w.client.phase == Ended(ss.Served()) && w.server.phase == Ended(ss.Served())
    ensures ss.Served() ==> w.up == [] && w.down == [] && w.client.unsent == [] && w.server.unsent == []
  {
    hide Session.RunOf, Session.Lines, Session.Served, Session.Intake;
    assert Kept(ss, w, ClientRole) && Kept(ss, w, ServerRole);
    KeepsToLines(ss, ClientRole, w.client.got);
    KeepsToLines(ss, ServerRole, w.server.got);
    if ss.Served() {
      NothingIsLeftOver(ss, w, ClientRole);
      NothingIsLeftOver(ss, w, ServerRole);
    }
  }
}
