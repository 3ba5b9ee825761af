/** When the sniffer has a record, for pieces that come from one stream in whatever cuttings (quic.rs): a sender may cut
    its data anew when it sends it again. */
module QuicTiling {
  import opened MachineInts
  import opened Wrappers
  import opened TlsRecords
  import opened TlsHello
  import opened QuicFrames
  import opened QuicSniffer
  import opened QuicReassembly

  /** Every piece is what the stream has at its offset. */
  ghost predicate CutFrom(stream: Bytes, m: Pieces) {
    forall k :: k in m ==> k + |m[k]| <= |stream| && m[k] == stream[k..k + |m[k]|]
  }

  ghost predicate Covered(m: Pieces, x: nat) {
    exists k :: k in m && k <= x < k + |m[k]|
  }

  /** The pieces cover the stretch from base to n without overlap, and nothing else; at most the end holds a piece of
      no bytes. */
  ghost predicate Tiles(m: Pieces, base: nat, n: nat) {
    && base <= n
    && (forall k :: k in m ==> base <= k && k + |m[k]| <= n && (m[k] == [] ==> k == n))
    && (forall x :: base <= x < n ==> Covered(m, x))
    && forall j, k :: j in m && k in m && j < k ==> j + |m[j]| <= k
  }

  lemma TileFront(m: Pieces, base: nat, n: nat)
    requires Tiles(m, base, n) && m != map[]
    ensures IsFirst(m, base) && Tiles(m - {base}, base + |m[base]|, n)
  {
    var first := FirstExists(m);
    if base < n {
      assert Covered(m, base);
    }
    assert first == base;
    var next := base + |m[base]|;
    forall x | next <= x < n ensures Covered(m - {base}, x) {
      assert Covered(m, x);
      var k :| k in m && k <= x < k + |m[k]|;
      assert k in m - {base};
    }
  }

  lemma FrontTiled(m: Pieces, base: nat, n: nat)
    requires IsFirst(m, base) && Tiles(m - {base}, base + |m[base]|, n) && (m[base] == [] ==> m - {base} == map[])
    ensures Tiles(m, base, n)
  {
    var rest, next := m - {base}, base + |m[base]|;
    forall x | base <= x < n ensures Covered(m, x) {
      if x >= next {
        assert Covered(rest, x);
        var k :| k in rest && k <= x < k + |rest[k]|;
        assert k in m && m[k] == rest[k];
      }
    }
    forall k | k in m ensures base <= k && k + |m[k]| <= n && (m[k] == [] ==> k == n) {
      if k == base {
        if m[k] == [] {
          TilesNothing(base, n);
        }
      } else {
        assert k in rest;
      }
    }
    forall j, k | j in m && k in m && j < k ensures j + |m[j]| <= k {
      assert k in rest;
      if j != base {
        assert j in rest;
      }
    }
  }

  /** Pieces that tile a stretch of their stream read as that stretch. */
  lemma {:induction false} TilesRead(stream: Bytes, m: Pieces, base: nat, n: nat)
    requires CutFrom(stream, m) && Tiles(m, base, n) && base <= |stream|
    ensures n <= |stream| && Contiguous(m, base) == Some(stream[base..n])
    decreases |m|
  {
    hide Tiles, IsFirst, Contiguous, CutFrom;
    if m == map[] {
      TilesNothing(base, n);
      NothingTiles(base);
    } else {
      TileFront(m, base, n);
      CutFront(stream, m, base);
      var rest, next := m - {base}, base + |m[base]|;
      TilesRead(stream, rest, next, n);
      TilesForward(rest, next, n);
      ReadFront(m, base, stream[next..n]);
      assert stream[base..next] + stream[next..n] == stream[base..n];
    }
  }

  lemma CutFront(stream: Bytes, m: Pieces, base: nat)
    requires CutFrom(stream, m) && IsFirst(m, base)
    ensures base in m && |m - {base}| < |m| && CutFrom(stream, m - {base})
    ensures base + |m[base]| <= |stream| && m[base] == stream[base..base + |m[base]|]
  {
    RemoveSmaller(m, base);
  }

  lemma ReadFront(m: Pieces, base: nat, rest: Bytes)
    requires IsFirst(m, base) && base in m && Contiguous(m - {base}, base + |m[base]|) == Some(rest)
    ensures Contiguous(m, base) == Some(m[base] + rest)
  {
  }

  lemma TilesForward(m: Pieces, base: nat, n: nat)
    requires Tiles(m, base, n)
    ensures base <= n
  {
  }

  lemma TilesNothing(base: nat, n: nat)
    requires Tiles(map[], base, n)
    ensures n == base
  {
    assert !Covered(map[], base);
  }

  /** Pieces that follow each other tile what they read. */
  lemma {:induction false} ReadTiles(m: Pieces, base: nat)
    requires Contiguous(m, base).Some?
    ensures Tiles(m, base, base + |Contiguous(m, base).value|)
    decreases |m|
  {
    hide Tiles, Contiguous, IsFirst, Covered;
    if m == map[] {
      NothingTiles(base);
    } else {
      FirstIsThere(m, base);
      ReadsFromFirst(m, base);
      var rest, next := m - {base}, base + |m[base]|;
      ReadTiles(rest, next);
      FrontTiled(m, base, next + |Contiguous(rest, next).value|);
    }
  }

  lemma NothingTiles(base: nat)
    ensures Contiguous(map[], base) == Some([]) && Tiles(map[], base, base)
  {
  }

  lemma ReadsFromFirst(m: Pieces, base: nat)
    requires m != map[] && Contiguous(m, base).Some?
    ensures IsFirst(m, base) && (m[base] == [] ==> m - {base} == map[])
  {
    FirstIsThere(m, base);
    if m - {base} != map[] && m[base] == [] {
      FirstIsThere(m - {base}, base);
      assert false;
    }
  }

  /** There is a record exactly if the pieces held tile a start of their stream that completes its message, and it is
      the record around that start. */
  lemma RecordOfTiles(stream: Bytes, m: Pieces)
    requires CutFrom(stream, m)
    ensures Reassembled(m).Some? <==> exists n: nat :: Tiles(m, 0, n) && n <= |stream| && Completes(stream[..n])
    ensures forall n: nat :: Tiles(m, 0, n) ==>
              n <= |stream|
              && Reassembled(m) == if Completes(stream[..n]) then Some(Wrapped(stream[..n])) else None
  {
    hide Tiles, CutFrom, Contiguous, Wrapped;
    forall n: nat | Tiles(m, 0, n)
      ensures n <= |stream|
      ensures Reassembled(m) == if Completes(stream[..n]) then Some(Wrapped(stream[..n])) else None
    {
      TilesRead(stream, m, 0, n);
      assert stream[0..n] == stream[..n];
    }
    if Reassembled(m).Some? {
      ReadTiles(m, 0);
    }
  }

  // ---------------------------------------------------------------- what the sniffer holds of one stream

  ghost predicate AllCutFrom(stream: Bytes, ps: seq<Piece>) {
    forall i :: 0 <= i < |ps| ==>
      ps[i].off + |ps[i].data| <= |stream| && ps[i].data == stream[ps[i].off..ps[i].off + |ps[i].data|]
  }

  /** Whatever CRYPTO data a packet carries comes from the stream. */
  ghost predicate Carries(stream: Bytes, packet: Packet) {
    packet.Ok? && PiecesFrom(packet.value, 0).Ok? ==> AllCutFrom(stream, PiecesFrom(packet.value, 0).value)
  }

  lemma {:induction false} IngestKeepsCut(stream: Bytes, s: State, ps: seq<Piece>)
    requires CutFrom(stream, s.pieces) && AllCutFrom(stream, ps)
    ensures CutFrom(stream, IngestedAll(s, ps).0.pieces)
    decreases |ps|
  {
    if ps != [] && Ingested(s, ps[0].off, ps[0].data).1.Ok? {
      IngestKeepsCut(stream, Ingested(s, ps[0].off, ps[0].data).0, ps[1..]);
    }
  }

  lemma {:induction false} HeldIsCut(stream: Bytes, calls: seq<Call>)
    requires forall i :: 0 <= i < |calls| && calls[i].FeedCall? ==> Carries(stream, calls[i].packet)
    ensures CutFrom(stream, AfterCalls(calls).pieces)
    decreases |calls|
  {
    hide PiecesFrom, Reassembled, ParsedClientHello, IngestedAll;
    if calls != [] {
      var before, last := calls[..|calls| - 1], calls[|calls| - 1];
      HeldIsCut(stream, before);
      var s := AfterCalls(before);
      if last.FeedCall? && last.packet.Ok? && PiecesFrom(last.packet.value, 0).Ok? {
        assert Carries(stream, last.packet);
        IngestKeepsCut(stream, s.(feeds := s.feeds + 1), PiecesFrom(last.packet.value, 0).value);
      }
    }
  }

  /** In every reachable state, whatever cuttings of one stream the packets carried: there is a record exactly if the
      pieces held tile a start of the stream that completes its message. */
  lemma ReachableRecord(stream: Bytes, calls: seq<Call>)
    requires forall i :: 0 <= i < |calls| && calls[i].FeedCall? ==> Carries(stream, calls[i].packet)
    ensures var m := AfterCalls(calls).pieces;
            Reassembled(m).Some? <==> exists n: nat :: Tiles(m, 0, n) && n <= |stream| && Completes(stream[..n])
  {
    hide Carries, CutFrom, AfterCalls, Reassembled, Tiles, Completes;
    HeldIsCut(stream, calls);
    RecordOfTiles(stream, AfterCalls(calls).pieces);
  }

  /** A message already held in one piece is lost when a shorter start of it is sent again. */
  lemma ShorterRepeatLoses(message: Bytes, s: State, k: nat)
    requires 4 <= |message| <= 65536 && Need(message) == |message| && 0 < k < |message|
    requires s.pieces == map[0 := message] && s.total == |message|
    ensures Reassembled(s.pieces) == Some(Wrapped(message))
    ensures Reassembled(Ingested(s, 0, message[..k]).0.pieces) == None
  {
    hide Wrapped, Reassembled;
    var m, m' := s.pieces, map[0 := message[..k]];
    assert Ingested(s, 0, message[..k]).0.pieces == m';
    OnePiece(message, |message|);
    OnePiece(message, k);
    assert message[..|message|] == message;
    RecordOfTiles(message, m);
    RecordOfTiles(message, m');
    if k >= 4 {
      assert Need(message[..k]) == Need(message);
    }
  }

  lemma OnePiece(message: Bytes, k: nat)
    requires 0 < k <= |message|
    ensures var m := map[0 := message[..k]]; CutFrom(message, m) && Tiles(m, 0, k)
  {
    var m := map[0 := message[..k]];
    forall x | 0 <= x < k ensures Covered(m, x) {
      assert 0 in m;
    }
  }
}
