/** The incremental sniffer of QUIC packets (quic.rs, `IncrementalSniffer`): its byte accounting and its reassembly of
    the CRYPTO stream. Packet protection is left out: a packet is its decrypted payload, or the error of reading it. */
module QuicSniffer {
  import opened MachineInts
  import opened Wrappers
  import opened TlsRecords
  import opened TlsHello
  import opened QuicFrames

  const MAX_TOTAL_CRYPTO: nat := 65536
  const MAX_PIECES: nat := 64
  const MAX_FEED_ATTEMPTS: nat := 16

  type Pieces = map<nat, Bytes>

  datatype State = State(pieces: Pieces, total: nat, done: bool, feeds: nat, echOuter: bool)

  const FRESH := State(map[], 0, false, 0, false)

  const LIMIT := Malformed("quic crypto buffer limit")

  // ---------------------------------------------------------------- byte accounting

  /** Sum of the lengths of all pieces. */
  ghost function Size(m: Pieces): nat
    decreases |m|
  {
    if m == map[] then 0
    else
      var k :| k in m;
      RemoveSmaller(m, k);
      |m[k]| + Size(m - {k})
  }

  lemma RemoveSmaller(m: Pieces, k: nat)
    requires k in m
    ensures |m - {k}| == |m| - 1
  {
    assert (m - {k}).Keys == m.Keys - {k};
    assert |(m - {k}).Keys| == |m.Keys| - 1;
  }

  lemma {:induction false} SizeRemove(m: Pieces, k: nat)
    requires k in m
    ensures Size(m) == |m[k]| + Size(m - {k})
    decreases |m|
  {
    var j :| j in m && Size(m) == |m[j]| + Size(m - {j});
    if j != k {
      RemoveSmaller(m, j);
      SizeRemove(m - {j}, k);
      RemoveSmaller(m, k);
      SizeRemove(m - {k}, j);
      assert m - {j} - {k} == m - {k} - {j};
    }
  }

  lemma SizeInsert(m: Pieces, k: nat, data: Bytes)
    ensures Size(m[k := data]) == Size(m) - (if k in m then |m[k]| else 0) + |data|
  {
    SizeRemove(m[k := data], k);
    if k in m {
      SizeRemove(m, k);
      assert m[k := data] - {k} == m - {k};
    } else {
      assert m[k := data] - {k} == m;
    }
  }

  /** A packet after decryption. */
  type Packet = Result<Bytes, ParseErr>

  /** `ingest_piece` on values: the state after it and how it ended. */
  function Ingested(s: State, off: nat, data: Bytes): (State, Result<(), ParseErr>) {
    var oldLen := if off in s.pieces then |s.pieces[off]| else 0;
    if off in s.pieces && oldLen == |data| then (s, Ok(()))
    else
      var projected := (if s.total >= oldLen then s.total - oldLen else 0) + |data|;
      if (off !in s.pieces && |s.pieces| >= MAX_PIECES) || projected > MAX_TOTAL_CRYPTO then
        (s.(pieces := map[], total := 0, done := true), Err(LIMIT))
      else (s.(total := projected, pieces := s.pieces[off := data]), Ok(()))
  }

  ghost predicate Accounted(s: State) {
    s.total == Size(s.pieces) <= 65536 && |s.pieces| <= 64
  }

  lemma IngestKeepsAccount(s: State, off: nat, data: Bytes)
    requires Accounted(s)
    ensures Accounted(Ingested(s, off, data).0)
  {
    SizeInsert(s.pieces, off, data);
    if off in s.pieces {
      SizeRemove(s.pieces, off);
      assert s.pieces[off := data].Keys == s.pieces.Keys;
    }
    assert Size(map[]) == 0;
  }

  /** All pieces of one payload, up to the first that is refused. */
  function IngestedAll(s: State, ps: seq<Piece>): (State, Result<(), ParseErr>)
    decreases |ps|
  {
    if ps == [] then (s, Ok(()))
    else
      var (s', r) := Ingested(s, ps[0].off, ps[0].data);
      if r.Ok? then IngestedAll(s', ps[1..]) else (s', r)
  }

  /** `feed` */
  function Fed(s: State, packet: Packet): (State, Result<(), ParseErr>) {
    if s.done then (s, Ok(()))
    else
      var s' := s.(feeds := s.feeds + 1);
      if s'.feeds > MAX_FEED_ATTEMPTS then (s'.(pieces := map[], total := 0, done := true), Ok(()))
      else match packet
        case Err(e) => (s', Err(e))
        case Ok(plaintext) =>
          match PiecesFrom(plaintext, 0)
          case Err(e) => (s', Err(e))
          case Ok(ps) => IngestedAll(s', ps)
  }

  lemma {:induction false} IngestAllKeepsAccount(s: State, ps: seq<Piece>)
    requires Accounted(s)
    ensures Accounted(IngestedAll(s, ps).0)
    decreases |ps|
  {
    hide Ingested, Accounted;
    if ps != [] {
      IngestKeepsAccount(s, ps[0].off, ps[0].data);
      if Ingested(s, ps[0].off, ps[0].data).1.Ok? {
        IngestAllKeepsAccount(Ingested(s, ps[0].off, ps[0].data).0, ps[1..]);
      }
    }
  }

  // ---------------------------------------------------------------- reassembly

  ghost predicate IsFirst(m: Pieces, off: nat) {
    off in m && forall k :: k in m ==> off <= k
  }

  lemma FirstExists(m: Pieces) returns (off: nat)
    requires m != map[]
    ensures IsFirst(m, off)
    decreases |m|
  {
    var k :| k in m;
    RemoveSmaller(m, k);
    var rest := m - {k};
    if rest == map[] {
      assert m.Keys == {k};
      off := k;
    } else {
      var j := FirstExists(rest);
      off := if j < k then j else k;
      forall x | x in m ensures off <= x {
        assert x == k || x in rest;
      }
    }
  }

  /** The bytes of the pieces in offset order, if each starts where the one before ends. */
  ghost function Contiguous(m: Pieces, expected: nat): Option<Bytes>
    decreases |m|
  {
    if m == map[] then Some([])
    else if !IsFirst(m, expected) then None
    else
      RemoveSmaller(m, expected);
      match Contiguous(m - {expected}, expected + |m[expected]|)
      case Some(rest) => Some(m[expected] + rest)
      case None => None
  }

  /** `try_reassemble_handshake_record`: the stream as one record, once it holds a whole handshake message. */
  ghost function Reassembled(m: Pieces): Option<Bytes> {
    match Contiguous(m, 0)
    case None => None
    case Some(hs) => if |hs| < 4 || |hs| < Need(hs) then None else Some(Wrapped(hs))
  }

  /** `try_take_sni`: the state after it and the name, if the record at hand has one. */
  ghost function TakenSni(s: State): (State, Option<Bytes>) {
    match Reassembled(s.pieces)
    case None => (s, None)
    case Some(record) =>
      match ParsedClientHello(record)
      case Err(_) => (s, None)
      case Ok(h) =>
        var s' := s.(echOuter := h.echOuter);
        if h.sni.Some? then (s'.(pieces := map[], total := 0, done := true), h.sni) else (s', None)
  }

  /** The calls that change a sniffer. */
  datatype Call = FeedCall(packet: Packet) | TakeCall

  ghost function AfterCalls(calls: seq<Call>): State
    decreases |calls|
  {
    if calls == [] then FRESH
    else
      var s := AfterCalls(calls[..|calls| - 1]);
      match calls[|calls| - 1]
      case FeedCall(packet) => Fed(s, packet).0
      case TakeCall => TakenSni(s).0
  }

  lemma FedKeepsAccount(s: State, packet: Packet)
    requires Accounted(s)
    ensures Accounted(Fed(s, packet).0)
  {
    hide PiecesFrom, IngestedAll;
    EmptySize();
    if packet.Ok? && PiecesFrom(packet.value, 0).Ok? {
      IngestAllKeepsAccount(s.(feeds := s.feeds + 1), PiecesFrom(packet.value, 0).value);
    }
  }

  lemma EmptySize()
    ensures Size(map[]) == 0
  {
  }

  /** In every reachable state the byte count is the sum of the piece lengths and both limits hold. */
  lemma {:induction false} ReachableIsAccounted(calls: seq<Call>)
    ensures Accounted(AfterCalls(calls))
    decreases |calls|
  {
    hide Fed, Size, Reassembled, ParsedClientHello;
    EmptySize();
    if calls != [] {
      var s := AfterCalls(calls[..|calls| - 1]);
      ReachableIsAccounted(calls[..|calls| - 1]);
      if calls[|calls| - 1].FeedCall? {
        FedKeepsAccount(s, calls[|calls| - 1].packet);
      }
    }
  }

  /** What is over the limits is refused, and ends it: nothing is held or found from then on. */
  lemma OverTheLimits(s: State, off: nat, data: Bytes)
    requires Accounted(s) && !s.done
    requires off !in s.pieces || |s.pieces[off]| != |data|
    ensures var (s', r), grown := Ingested(s, off, data), s.pieces[off := data];
            if |grown| > 64 || Size(grown) > 65536
            then r == Err(Malformed("quic crypto buffer limit")) && s'.done && s'.pieces == map[] && s'.total == 0
            else r == Ok(()) && s' == s.(pieces := grown, total := Size(grown))
  {
    SizeInsert(s.pieces, off, data);
    if off in s.pieces {
      SizeRemove(s.pieces, off);
      assert s.pieces[off := data].Keys == s.pieces.Keys;
    } else {
      assert s.pieces[off := data].Keys == s.pieces.Keys + {off};
    }
  }

  lemma FinishedStays(s: State, packet: Packet)
    requires s.done && s.pieces == map[]
    ensures Fed(s, packet) == (s, Ok(())) && TakenSni(s) == (s, None)
  {
  }

  class IncrementalSniffer {
    var pieces: Pieces
    var total: nat
    var done: bool
    var feeds: nat
    var echOuter: bool

    ghost function Abs(): State
      reads this
    {
      State(pieces, total, done, feeds, echOuter)
    }

    constructor ()
      ensures Abs() == FRESH && pieces == map[] && total == 0 && !done && feeds == 0 && !echOuter
    {
      pieces, total, done, feeds, echOuter := map[], 0, false, 0, false;
    }

    method IngestPiece(off: nat, data: Bytes) returns (r: Result<(), ParseErr>)
      modifies this
      ensures (Abs(), r) == Ingested(old(Abs()), off, data)
    {
      var oldLen := if off in pieces then Some(|pieces[off]|) else None;
      if oldLen == Some(|data|) {
        return Ok(());
      }
      var isNewOffset := oldLen.None?;
      var gone := if oldLen.Some? then oldLen.value else 0;
      var projected := (if total >= gone then total - gone else 0) + |data|;
      if (isNewOffset && |pieces| >= MAX_PIECES) || projected > MAX_TOTAL_CRYPTO {
        pieces, total, done := map[], 0, true;
        return Err(LIMIT);
      }
      total := projected;
      pieces := pieces[off := data];
      return Ok(());
    }

    method Feed(packet: Packet) returns (r: Result<(), ParseErr>)
      modifies this
      ensures (Abs(), r) == Fed(old(Abs()), packet)
    {
      hide Ingested, PiecesFrom;
      if done {
        return Ok(());
      }
      feeds := feeds + 1;
      if feeds > MAX_FEED_ATTEMPTS {
        pieces, total, done := map[], 0, true;
        return Ok(());
      }
      if packet.Err? {
        return Err(packet.error);
      }
      var found := ExtractCryptoFrames(packet.value);
      if found.Err? {
        return Err(found.error);
      }
      ghost var start := Abs();
      var ps := found.value;
      assert ps[0..] == ps;
      for i := 0 to |ps|
        invariant IngestedAll(start, ps) == IngestedAll(Abs(), ps[i..])
      {
        assert ps[i..][1..] == ps[i + 1..];
        r := IngestPiece(ps[i].off, ps[i].data);
        if r.Err? {
          return r;
        }
      }
      return Ok(());
    }

    method TryTakeSni() returns (sni: Option<Bytes>)
      modifies this
      ensures (Abs(), sni) == TakenSni(old(Abs()))
    {
      hide Reassembled, ParsedClientHello;
      var ch := TryReassemble();
      if ch.None? {
        return None;
      }
      var parsed := ParseClientHello(ch.value);
      if parsed.Err? {
        return None;
      }
      echOuter := parsed.value.echOuter;
      sni := parsed.value.sni;
      if sni.Some? {
        pieces, total, done := map[], 0, true;
      }
    }

    method TryReassemble() returns (r: Option<Bytes>)
      ensures r == Reassembled(pieces)
    {
      hide Need, Wrapped, IsFirst;
      var hs: Bytes := [];
      var expected: nat := 0;
      var left := pieces;
      if Contiguous(pieces, 0).Some? {
        assert [] + Contiguous(pieces, 0).value == Contiguous(pieces, 0).value;
      }
      while left != map[]
        invariant Contiguous(pieces, 0) ==
                  match Contiguous(left, expected) case Some(rest) => Some(hs + rest) case None => None
        decreases |left|
      {
        var off := FirstOffset(left);
        RemoveSmaller(left, off);
        FirstIsUnique(left, off, expected);
        if off != expected {
          return None;
        }
        ghost var was, data := hs, left[off];
        expected := expected + |left[off]|;
        hs := hs + left[off];
        left := left - {off};
        if Contiguous(left, expected).Some? {
          assert was + (data + Contiguous(left, expected).value) == was + data + Contiguous(left, expected).value;
        }
      }
      assert hs + [] == hs;
      if |hs| < 4 {
        return None;
      }
      if |hs| < Need(hs) {
        return None;
      }
      return Some(Wrapped(hs));
    }
  }

  /** The next key in order, as the ordered map iterates. */
  method FirstOffset(m: Pieces) returns (off: nat)
    requires m != map[]
    ensures IsFirst(m, off)
  {
    ghost var w := FirstExists(m);
    off :| off in m && forall k :: k in m ==> off <= k;
  }

  lemma FirstIsUnique(m: Pieces, a: nat, b: nat)
    requires IsFirst(m, a)
    ensures IsFirst(m, b) <==> a == b
    ensures a in m
  {
  }
}
