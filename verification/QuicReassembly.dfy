/** What the sniffer makes of a stream cut into fragments (quic.rs): when it has a record, whatever order the fragments
    arrive in, and the server name from packets to the end. */
module QuicReassembly {
  import opened MachineInts
  import opened Wrappers
  import opened TlsRecords
  import opened TlsHello
  import opened QuicFrames
  import opened QuicSniffer
  import Utf8

  // ---------------------------------------------------------------- fragments of a stream

  predicate Fragments(parts: seq<Bytes>) {
    |parts| <= 64 && forall i :: 0 <= i < |parts| ==> parts[i] != []
  }

  /** The stream the fragments were cut from. */
  function Stream(parts: seq<Bytes>): Bytes {
    if parts == [] then [] else parts[0] + Stream(parts[1..])
  }

  /** Where the i-th fragment starts. */
  function Offset(parts: seq<Bytes>, i: nat): nat
    requires i <= |parts|
  {
    |Stream(parts[..i])|
  }

  /** All fragments from position `base` on, by offset. */
  function AllPieces(parts: seq<Bytes>, base: nat): Pieces {
    if parts == [] then map[] else AllPieces(parts[1..], base + |parts[0]|)[base := parts[0]]
  }

  lemma {:induction false} KeysFrom(parts: seq<Bytes>, base: nat)
    requires forall i :: 0 <= i < |parts| ==> parts[i] != []
    ensures forall k :: k in AllPieces(parts, base) ==> base <= k
    decreases |parts|
  {
    if parts != [] {
      KeysFrom(parts[1..], base + |parts[0]|);
    }
  }

  /** Behind the first fragment come later offsets only. */
  lemma TailAfter(parts: seq<Bytes>, base: nat)
    requires parts != [] && forall i :: 0 <= i < |parts| ==> parts[i] != []
    ensures var rest := AllPieces(parts[1..], base + |parts[0]|);
            && base !in rest
            && AllPieces(parts, base) == rest[base := parts[0]]
            && AllPieces(parts, base) - {base} == rest
            && IsFirst(AllPieces(parts, base), base)
  {
    KeysFrom(parts[1..], base + |parts[0]|);
  }

  lemma {:induction false} PiecesAddUp(parts: seq<Bytes>, base: nat)
    requires forall i :: 0 <= i < |parts| ==> parts[i] != []
    ensures Size(AllPieces(parts, base)) == |Stream(parts)| && |AllPieces(parts, base)| == |parts|
    decreases |parts|
  {
    hide Size, IsFirst;
    if parts == [] {
      EmptySize();
    } else {
      var rest := AllPieces(parts[1..], base + |parts[0]|);
      PiecesAddUp(parts[1..], base + |parts[0]|);
      TailAfter(parts, base);
      SizeInsert(rest, base, parts[0]);
    }
  }

  lemma {:induction false} PiecesFollow(parts: seq<Bytes>, base: nat)
    requires forall i :: 0 <= i < |parts| ==> parts[i] != []
    ensures Contiguous(AllPieces(parts, base), base) == Some(Stream(parts))
    decreases |parts|
  {
    hide IsFirst;
    if parts != [] {
      PiecesFollow(parts[1..], base + |parts[0]|);
      TailAfter(parts, base);
      RemoveSmaller(AllPieces(parts, base), base);
    }
  }

  lemma AllPiecesFacts(parts: seq<Bytes>, base: nat)
    requires forall i :: 0 <= i < |parts| ==> parts[i] != []
    ensures Size(AllPieces(parts, base)) == |Stream(parts)| && |AllPieces(parts, base)| == |parts|
    ensures Contiguous(AllPieces(parts, base), base) == Some(Stream(parts))
  {
    PiecesAddUp(parts, base);
    PiecesFollow(parts, base);
  }

  lemma {:induction false} PieceAtOffset(parts: seq<Bytes>, base: nat, i: nat)
    requires i < |parts| && forall j :: 0 <= j < |parts| ==> parts[j] != []
    ensures var off := base + Offset(parts, i);
            off in AllPieces(parts, base) && AllPieces(parts, base)[off] == parts[i]
    decreases |parts|
  {
    if i > 0 {
      PieceAtOffset(parts[1..], base + |parts[0]|, i - 1);
      assert parts[..i][1..] == parts[1..][..i - 1];
      TailAfter(parts, base);
    } else {
      assert Stream(parts[..0]) == [];
    }
  }

  lemma {:induction false} OffsetOfPiece(parts: seq<Bytes>, base: nat, k: nat) returns (i: nat)
    requires k in AllPieces(parts, base)
    ensures i < |parts| && k == base + Offset(parts, i)
    decreases |parts|
  {
    if k == base {
      i := 0;
      assert Stream(parts[..0]) == [];
    } else {
      var j := OffsetOfPiece(parts[1..], base + |parts[0]|, k);
      i := j + 1;
      assert parts[..i][1..] == parts[1..][..j];
    }
  }

  ghost predicate SubMap(a: Pieces, b: Pieces) {
    forall k :: k in a ==> k in b && a[k] == b[k]
  }

  lemma {:induction false} SubMapSize(a: Pieces, b: Pieces)
    requires SubMap(a, b)
    ensures Size(a) <= Size(b) && |a| <= |b|
    decreases |a|
  {
    if a != map[] {
      var k :| k in a;
      RemoveSmaller(a, k);
      RemoveSmaller(b, k);
      SizeRemove(a, k);
      SizeRemove(b, k);
      SubMapSize(a - {k}, b - {k});
    } else {
      assert Size(a) == 0;
    }
  }

  lemma {:induction false} OffsetsGrow(parts: seq<Bytes>, i: nat, j: nat)
    requires i < j <= |parts| && forall x :: 0 <= x < |parts| ==> parts[x] != []
    ensures Offset(parts, i) < Offset(parts, j)
    decreases j - i
  {
    StreamSnoc(parts[..j - 1], parts[j - 1]);
    assert parts[..j] == parts[..j - 1] + [parts[j - 1]];
    if i < j - 1 {
      OffsetsGrow(parts, i, j - 1);
    }
  }

  lemma {:induction false} StreamSnoc(parts: seq<Bytes>, part: Bytes)
    ensures Stream(parts + [part]) == Stream(parts) + part
    decreases |parts|
  {
    if parts == [] {
      assert [part][1..] == [];
    } else {
      StreamSnoc(parts[1..], part);
      assert (parts + [part])[1..] == parts[1..] + [part];
    }
  }

  lemma OffsetsDiffer(parts: seq<Bytes>, i: nat, j: nat)
    requires i < |parts| && j < |parts| && i != j && forall x :: 0 <= x < |parts| ==> parts[x] != []
    ensures Offset(parts, i) != Offset(parts, j)
  {
    if i < j {
      OffsetsGrow(parts, i, j);
    } else {
      OffsetsGrow(parts, j, i);
    }
  }

  // ---------------------------------------------------------------- what is held

  /** The pieces of some of the fragments. */
  ghost function Picked(parts: seq<Bytes>, held: set<nat>): Pieces {
    map k | k in AllPieces(parts, 0) && (exists i :: i in held && 0 <= i < |parts| && k == Offset(parts, i)) ::
      AllPieces(parts, 0)[k]
  }

  /** The sniffer holds exactly these fragments. */
  ghost predicate Holds(parts: seq<Bytes>, held: set<nat>, s: State) {
    s.pieces == Picked(parts, held) && s.total == Size(s.pieces) && !s.done
  }

  lemma HoldsNothing(parts: seq<Bytes>, s: State)
    requires s.pieces == map[] && s.total == 0 && !s.done
    ensures Holds(parts, {}, s)
  {
    EmptySize();
  }

  lemma PickedMore(parts: seq<Bytes>, held: set<nat>, i: nat)
    requires i < |parts| && forall j :: 0 <= j < |parts| ==> parts[j] != []
    ensures Picked(parts, held + {i}) == Picked(parts, held)[Offset(parts, i) := parts[i]]
  {
    hide Offset, AllPieces;
    PieceAtOffset(parts, 0, i);
  }

  /** A piece that fits the limits is taken. */
  lemma PieceFits(s: State, off: nat, data: Bytes)
    requires s.total == Size(s.pieces) && (off in s.pieces ==> s.pieces[off] == data)
    requires var grown := s.pieces[off := data]; Size(grown) <= 65536 && |grown| <= MAX_PIECES
    ensures var grown := s.pieces[off := data];
            Ingested(s, off, data) == (s.(pieces := grown, total := Size(grown)), Ok(()))
  {
    hide Size;
    var grown := s.pieces[off := data];
    SizeInsert(s.pieces, off, data);
    if off in s.pieces {
      assert grown == s.pieces;
    } else {
      assert grown.Keys == s.pieces.Keys + {off};
    }
  }

  /** Taking another fragment, or one again. */
  lemma IngestOne(parts: seq<Bytes>, held: set<nat>, s: State, i: nat)
    requires Fragments(parts) && |Stream(parts)| <= 65536 && i < |parts| && Holds(parts, held, s)
    ensures var (s', r) := Ingested(s, Offset(parts, i), parts[i]);
            && r.Ok? && Holds(parts, held + {i}, s') && s'.feeds == s.feeds && s'.echOuter == s.echOuter
  {
    hide Size, AllPieces, Stream, Ingested, Offset, Picked;
    var off, all := Offset(parts, i), AllPieces(parts, 0);
    PieceAtOffset(parts, 0, i);
    AllPiecesFacts(parts, 0);
    PickedMore(parts, held, i);
    PickedIsPart(parts, held);
    PickedIsPart(parts, held + {i});
    var grown := s.pieces[off := parts[i]];
    SubMapSize(grown, all);
    PieceFits(s, off, parts[i]);
  }

  lemma PickedIsPart(parts: seq<Bytes>, held: set<nat>)
    ensures SubMap(Picked(parts, held), AllPieces(parts, 0))
  {
  }

  /** A fragment is held exactly if its offset is. */
  lemma PickedOffset(parts: seq<Bytes>, held: set<nat>, i: nat)
    requires i < |parts| && forall j :: 0 <= j < |parts| ==> parts[j] != []
    ensures Offset(parts, i) in Picked(parts, held) <==> i in held
  {
    hide Offset, AllPieces;
    PieceAtOffset(parts, 0, i);
    forall j | j in held && 0 <= j < |parts| && j != i ensures Offset(parts, j) != Offset(parts, i) {
      OffsetsDiffer(parts, i, j);
    }
  }

  // ---------------------------------------------------------------- exactly when there is a record

  /** Contiguous pieces are the first so many fragments. */
  lemma {:induction false} ContiguousIsPrefix(m: Pieces, parts: seq<Bytes>, base: nat) returns (k: nat)
    requires forall i :: 0 <= i < |parts| ==> parts[i] != []
    requires SubMap(m, AllPieces(parts, base)) && Contiguous(m, base).Some?
    ensures k <= |parts| && m == AllPieces(parts[..k], base) && Contiguous(m, base) == Some(Stream(parts[..k]))
    decreases |parts|
  {
    hide Contiguous, AllPieces, SubMap;
    if m == map[] {
      k := 0;
      NothingContiguous(base);
      assert parts[..0] == [];
    } else {
      FirstIsThere(m, base);
      PartOfTail(m, parts, base);
      var n := ContiguousIsPrefix(m - {base}, parts[1..], base + |parts[0]|);
      k := n + 1;
      assert parts[..k][1..] == parts[1..][..n] && parts[..k][0] == parts[0];
      TailAfter(parts[..k], base);
      assert m == (m - {base})[base := parts[0]];
    }
  }

  lemma NothingContiguous(base: nat)
    ensures Contiguous(map[], base) == Some([]) && AllPieces([], base) == map[]
  {
  }

  lemma PartOfTail(m: Pieces, parts: seq<Bytes>, base: nat)
    requires (forall i :: 0 <= i < |parts| ==> parts[i] != []) && SubMap(m, AllPieces(parts, base)) && base in m
    ensures parts != [] && m[base] == parts[0]
    ensures SubMap(m - {base}, AllPieces(parts[1..], base + |parts[0]|))
  {
    if parts != [] {
      TailAfter(parts, base);
    }
  }

  lemma FirstIsThere(m: Pieces, base: nat)
    requires m != map[] && Contiguous(m, base).Some?
    ensures base in m && |m - {base}| < |m|
    ensures Contiguous(m - {base}, base + |m[base]|).Some?
    ensures Contiguous(m, base).value == m[base] + Contiguous(m - {base}, base + |m[base]|).value
  {
    RemoveSmaller(m, base);
  }

  /** The fragments held are the first k, and no other. */
  ghost predicate HeldFirst(parts: seq<Bytes>, held: set<nat>, k: nat) {
    k <= |parts| && forall i :: 0 <= i < |parts| ==> (i in held <==> i < k)
  }

  /** A start of the stream completes its message. */
  predicate Completes(hs: Bytes) {
    |hs| >= 4 && Need(hs) <= |hs|
  }

  lemma {:induction false} FirstPieces(parts: seq<Bytes>, base: nat, k: nat, x: nat)
    requires k <= |parts| && forall j :: 0 <= j < |parts| ==> parts[j] != []
    ensures x in AllPieces(parts[..k], base) <==> x in AllPieces(parts, base) && x < base + |Stream(parts[..k])|
    ensures x in AllPieces(parts[..k], base) ==> AllPieces(parts[..k], base)[x] == AllPieces(parts, base)[x]
    decreases |parts|
  {
    KeysFrom(parts, base);
    if k > 0 {
      assert parts[..k][1..] == parts[1..][..k - 1];
      FirstPieces(parts[1..], base + |parts[0]|, k - 1, x);
    }
  }

  lemma PickedFirst(parts: seq<Bytes>, held: set<nat>, k: nat)
    requires HeldFirst(parts, held, k) && forall j :: 0 <= j < |parts| ==> parts[j] != []
    ensures Picked(parts, held) == AllPieces(parts[..k], 0)
  {
    hide AllPieces;
    var first, all := AllPieces(parts[..k], 0), AllPieces(parts, 0);
    forall x ensures x in Picked(parts, held) <==> x in first {
      FirstPieces(parts, 0, k, x);
      if x in all {
        var i := OffsetOfPiece(parts, 0, x);
        PickedOffset(parts, held, i);
        BeforeOffset(parts, i, k);
      }
    }
    forall x | x in first ensures first[x] == all[x] {
      FirstPieces(parts, 0, k, x);
    }
  }

  lemma BeforeOffset(parts: seq<Bytes>, i: nat, k: nat)
    requires i < |parts| && k <= |parts| && forall j :: 0 <= j < |parts| ==> parts[j] != []
    ensures Offset(parts, i) < Offset(parts, k) <==> i < k
  {
    if i < k {
      OffsetsGrow(parts, i, k);
    } else if k < i {
      OffsetsGrow(parts, k, i);
    }
  }

  /** If the first k fragments are held there is a record exactly if they complete the message, and it wraps them. */
  lemma FirstFragments(parts: seq<Bytes>, held: set<nat>, s: State, k: nat)
    requires Fragments(parts) && Holds(parts, held, s) && HeldFirst(parts, held, k)
    ensures Reassembled(s.pieces) ==
            if Completes(Stream(parts[..k])) then Some(Wrapped(Stream(parts[..k]))) else None
  {
    hide Need, Wrapped, Size, Contiguous, AllPieces, Stream, Picked;
    PickedFirst(parts, held, k);
    AllPiecesFacts(parts[..k], 0);
  }

  lemma ContiguousMeansFirst(parts: seq<Bytes>, held: set<nat>, s: State) returns (k: nat)
    requires Fragments(parts) && Holds(parts, held, s) && Contiguous(s.pieces, 0).Some?
    ensures HeldFirst(parts, held, k)
  {
    hide Size, Contiguous, AllPieces, Stream, Picked, Offset;
    PickedIsPart(parts, held);
    k := ContiguousIsPrefix(s.pieces, parts, 0);
    forall i | 0 <= i < |parts| ensures i in held <==> i < k {
      PickedOffset(parts, held, i);
      PieceAtOffset(parts, 0, i);
      FirstPieces(parts, 0, k, Offset(parts, i));
      OffsetLength(parts, k);
      BeforeOffset(parts, i, k);
    }
  }

  /** If they are not the first so many there is none. */
  lemma GapIsNoRecord(parts: seq<Bytes>, held: set<nat>, s: State)
    requires Fragments(parts) && Holds(parts, held, s) && forall k: nat :: !HeldFirst(parts, held, k)
    ensures Reassembled(s.pieces) == None
  {
    hide Need, Wrapped, Contiguous, Holds;
    if Contiguous(s.pieces, 0).Some? {
      var k := ContiguousMeansFirst(parts, held, s);
    }
  }

  lemma OffsetLength(parts: seq<Bytes>, k: nat)
    requires k <= |parts|
    ensures Offset(parts, k) == |Stream(parts[..k])|
  {
  }

  /** There is a record exactly when the fragments held are the first so many of the stream and these complete its
      message; in particular a later fragment beyond a gap holds back a message that is complete. */
  lemma RecordExactly(parts: seq<Bytes>, held: set<nat>, s: State)
    requires Fragments(parts) && Holds(parts, held, s)
    ensures Reassembled(s.pieces).Some? <==>
            exists k: nat :: HeldFirst(parts, held, k) && Completes(Stream(parts[..k]))
    ensures forall k: nat :: HeldFirst(parts, held, k) && Completes(Stream(parts[..k])) ==>
              Reassembled(s.pieces) == Some(Wrapped(Stream(parts[..k])))
  {
    hide Holds, Reassembled, Completes, Stream, Wrapped;
    if k: nat :| HeldFirst(parts, held, k) {
      FirstFragments(parts, held, s, k);
      forall j: nat | HeldFirst(parts, held, j) ensures j == k {
        SamePrefix(parts, held, j, k);
      }
    } else {
      GapIsNoRecord(parts, held, s);
    }
  }

  lemma SamePrefix(parts: seq<Bytes>, held: set<nat>, j: nat, k: nat)
    requires HeldFirst(parts, held, j) && HeldFirst(parts, held, k)
    ensures j == k
  {
    var jHeld, kHeld := j in held, k in held;
  }

  // ---------------------------------------------------------------- any order, any repeats

  /** Ingesting fragments by index, in the order given. */
  function IngestedIndices(parts: seq<Bytes>, order: seq<nat>): (State, Result<(), ParseErr>)
    requires forall i :: 0 <= i < |order| ==> order[i] < |parts|
    decreases |order|
  {
    if order == [] then (FRESH, Ok(()))
    else
      var (s, r) := IngestedIndices(parts, order[..|order| - 1]);
      var i := order[|order| - 1];
      if r.Ok? then Ingested(s, Offset(parts, i), parts[i]) else (s, r)
  }

  function Indices(order: seq<nat>): set<nat> {
    set i | i in order
  }

  lemma {:induction false} IngestInOrder(parts: seq<Bytes>, order: seq<nat>)
    requires Fragments(parts) && |Stream(parts)| <= 65536
    requires forall i :: 0 <= i < |order| ==> order[i] < |parts|
    ensures var (s, r) := IngestedIndices(parts, order); r.Ok? && Holds(parts, Indices(order), s)
    decreases |order|
  {
    hide Ingested, Offset, Holds;
    if order == [] {
      HoldsNothing(parts, FRESH);
      assert Indices([]) == {};
    } else {
      var before, last := order[..|order| - 1], order[|order| - 1];
      IngestInOrder(parts, before);
      IngestOne(parts, Indices(before), IngestedIndices(parts, before).0, last);
      assert order == before + [last];
      assert Indices(order) == Indices(before) + {last};
    }
  }

  /** A stream of at most 65536 bytes that holds a complete handshake message, cut into at most 64 non-empty
      fragments and ingested in any order with any repeats, is reassembled to one record around the stream. */
  lemma ReassemblyIsOrderFree(parts: seq<Bytes>, order: seq<nat>)
    requires Fragments(parts) && 4 <= |Stream(parts)| <= 65536 && Need(Stream(parts)) <= |Stream(parts)|
    requires forall i :: 0 <= i < |order| ==> order[i] < |parts|
    requires forall j :: 0 <= j < |parts| ==> j in order
    ensures var (s, r) := IngestedIndices(parts, order);
            r.Ok? && Reassembled(s.pieces) == Some(Wrapped(Stream(parts)))
  {
    hide IngestedIndices, Holds, Reassembled, Stream, Wrapped, Need;
    IngestInOrder(parts, order);
    assert parts[..|parts|] == parts;
    assert HeldFirst(parts, Indices(order), |parts|);
    RecordExactly(parts, Indices(order), IngestedIndices(parts, order).0);
  }

  /** While a fragment is missing there is a record only if everything that arrived lies before it and completes the
      message on its own. */
  lemma MissingFragmentIsNoRecord(parts: seq<Bytes>, order: seq<nat>, missing: nat)
    requires Fragments(parts) && |Stream(parts)| <= 65536
    requires forall i :: 0 <= i < |order| ==> order[i] < |parts| && order[i] != missing
    requires missing < |parts|
    ensures Reassembled(IngestedIndices(parts, order).0.pieces).Some? ==>
              && (forall i :: 0 <= i < |order| ==> order[i] < missing)
              && exists k :: 0 <= k <= missing && Completes(Stream(parts[..k]))
  {
    hide IngestedIndices, Holds, Reassembled, Stream, Completes;
    IngestInOrder(parts, order);
    var held, s := Indices(order), IngestedIndices(parts, order).0;
    RecordExactly(parts, held, s);
    if Reassembled(s.pieces).Some? {
      var k: nat :| HeldFirst(parts, held, k) && Completes(Stream(parts[..k]));
      assert missing !in held;
      forall i | 0 <= i < |order| ensures order[i] < missing {
        assert order[i] in held;
      }
    }
  }

  // ---------------------------------------------------------------- from packets to the server name

  /** The loop of the caller: feed each packet and ask for the name, until there is one or the sniffer gives up. */
  ghost function Sniffed(s: State, packets: seq<Packet>): Option<Bytes>
    decreases |packets|
  {
    if packets == [] then None
    else
      var (s', sni) := TakenSni(Fed(s, packets[0]).0);
      if sni.Some? then sni else if s'.done then None else Sniffed(s', packets[1..])
  }

  /** A packet as it arrives: unreadable, or frames and then nothing or a frame of another type. */
  datatype Delivery = Unreadable(error: ParseErr) | Readable(frames: seq<Frame>, other: Bytes) {
    predicate Valid() {
      Readable? ==> && (forall i :: 0 <= i < |frames| ==> frames[i].Valid())
                    && (other == [] || other[0] !in {0, 1, 2, 3, 6})
    }

    function Decrypted(): Packet
      requires Valid()
    {
      match this
      case Unreadable(e) => Err(e)
      case Readable(fs, other) => Ok(PayloadWire(fs) + other)
    }

    /** The CRYPTO pieces in it. */
    function Pieces(): seq<Piece> {
      if Readable? then QuicFrames.AllPieces(frames) else []
    }
  }

  function Decrypted(ds: seq<Delivery>): seq<Packet>
    requires forall i :: 0 <= i < |ds| ==> ds[i].Valid()
  {
    if ds == [] then [] else [ds[0].Decrypted()] + Decrypted(ds[1..])
  }

  /** The piece that carries a fragment. */
  function PieceOf(parts: seq<Bytes>, i: nat): Piece
    requires i < |parts|
  {
    Piece(Offset(parts, i), parts[i])
  }

  /** Nothing but fragments of this stream. */
  ghost predicate FragmentsOf(parts: seq<Bytes>, ps: seq<Piece>) {
    forall p :: p in ps ==> exists i :: 0 <= i < |parts| && p == PieceOf(parts, i)
  }

  /** The fragments among some pieces. */
  ghost function Carried(parts: seq<Bytes>, ps: seq<Piece>): set<nat> {
    set i | 0 <= i < |parts| && PieceOf(parts, i) in ps
  }

  lemma {:induction false} IngestFragments(parts: seq<Bytes>, held: set<nat>, s: State, ps: seq<Piece>)
    requires Fragments(parts) && |Stream(parts)| <= 65536 && Holds(parts, held, s)
    requires FragmentsOf(parts, ps)
    ensures var (s', r) := IngestedAll(s, ps);
            && r.Ok? && Holds(parts, held + Carried(parts, ps), s') && s'.feeds == s.feeds
    decreases |ps|
  {
    hide Ingested, Holds, Offset;
    if ps == [] {
      assert held + Carried(parts, ps) == held;
    } else {
      var p := ps[0];
      assert p in ps && forall q :: q in ps[1..] ==> q in ps;
      var i :| 0 <= i < |parts| && p == PieceOf(parts, i);
      IngestOne(parts, held, s, i);
      IngestFragments(parts, held + {i}, Ingested(s, p.off, p.data).0, ps[1..]);
      CarriedCons(parts, i, ps);
      assert held + {i} + Carried(parts, ps[1..]) == held + Carried(parts, ps);
    }
  }

  lemma CarriedCons(parts: seq<Bytes>, i: nat, ps: seq<Piece>)
    requires ps != [] && i < |parts| && ps[0] == PieceOf(parts, i) && forall x :: 0 <= x < |parts| ==> parts[x] != []
    ensures Carried(parts, ps) == {i} + Carried(parts, ps[1..])
  {
    hide Offset;
    forall j | 0 <= j < |parts| && PieceOf(parts, j) == ps[0] ensures j == i {
      if j != i {
        OffsetsDiffer(parts, i, j);
      }
    }
  }

  /** Feeding one delivery adds the fragments it carries. */
  lemma FeedDelivery(parts: seq<Bytes>, held: set<nat>, s: State, d: Delivery)
    requires Fragments(parts) && |Stream(parts)| <= 65536 && Holds(parts, held, s)
    requires d.Valid() && FragmentsOf(parts, d.Pieces()) && s.feeds < MAX_FEED_ATTEMPTS
    ensures var s' := Fed(s, d.Decrypted()).0;
            Holds(parts, held + Carried(parts, d.Pieces()), s') && s'.feeds == s.feeds + 1
  {
    hide PiecesFrom, IngestedAll, PayloadWire, Carried;
    var s1 := s.(feeds := s.feeds + 1);
    match d
    case Unreadable(_) =>
      NothingCarried(parts);
      assert held + {} == held;
    case Readable(fs, other) =>
      var payload := PayloadWire(fs) + other;
      assert payload[0..] == payload;
      PayloadPieces(payload, 0, fs, other);
      IngestFragments(parts, held, s1, d.Pieces());
  }

  lemma NothingCarried(parts: seq<Bytes>)
    ensures Carried(parts, []) == {}
  {
  }

  /** The stream starts with a hello. */
  ghost predicate StartsWith(m: Message, stream: Bytes) {
    m.Valid() && |m.Body()| < TWO_16 && |stream| < TWO_16 && m.Encode() <= stream
  }

  /** Any start of the stream that completes its message reads as the hello. */
  lemma RecordIsHello(m: Message, stream: Bytes, hs: Bytes)
    requires StartsWith(m, stream) && hs <= stream && Completes(hs)
    ensures ParsedClientHello(Wrapped(hs)) == Ok(m.Meaning())
  {
    hide Message.Body, Message.Valid, Message.Meaning, ParsedClientHello, ParsedHandshake, Wrapped, Message.Encode,
      Need;
    EncodedSize(m);
    assert stream == m.Encode() + stream[|m.Encode()|..];
    HelloRoundTrip(m, stream[|m.Encode()|..]);
    NeedIsStable(hs, stream);
    assert hs[..|m.Encode()|] == m.Encode();
    assert hs == m.Encode() + hs[|m.Encode()|..];
    HelloRoundTrip(m, hs[|m.Encode()|..]);
    RecordReadsExactly(hs);
  }

  lemma HelloCompletes(m: Message, stream: Bytes)
    requires StartsWith(m, stream)
    ensures Completes(stream)
  {
    hide Message.Body, Message.Valid, Message.Encode;
    EncodedSize(m);
    assert stream == m.Encode() + stream[|m.Encode()|..];
    HelloRoundTrip(m, stream[|m.Encode()|..]);
  }

  /** Asking for the name gives that of the hello as soon as there is a record, and otherwise changes nothing that
      matters. */
  lemma TakeFromFragments(m: Message, parts: seq<Bytes>, held: set<nat>, s: State)
    requires Fragments(parts) && |Stream(parts)| <= 65536 && Holds(parts, held, s)
    requires StartsWith(m, Stream(parts))
    ensures var (s', sni) := TakenSni(s);
            && (sni.Some? ==> sni == m.Meaning().sni)
            && (sni.None? ==> Holds(parts, held, s') && s'.feeds == s.feeds)
            && (HeldFirst(parts, held, |parts|) ==> sni == m.Meaning().sni)
            && s'.echOuter == (if Reassembled(s.pieces).Some? then m.Meaning().echOuter else s.echOuter)
            && (sni.Some? ==> s'.done && s'.pieces == map[] && s'.total == 0)
  {
    hide Reassembled, ParsedClientHello, Wrapped, Message.Meaning, Message.Encode, StartsWith, Completes, Stream,
      Picked;
    RecordExactly(parts, held, s);
    if Reassembled(s.pieces).Some? {
      var k: nat :| HeldFirst(parts, held, k) && Completes(Stream(parts[..k]));
      StreamSplit(parts, k);
      RecordIsHello(m, Stream(parts), Stream(parts[..k]));
    }
    if HeldFirst(parts, held, |parts|) {
      HelloCompletes(m, Stream(parts));
      assert parts[..|parts|] == parts;
      assert Completes(Stream(parts[..|parts|]));
      assert Reassembled(s.pieces).Some?;
    }
  }

  lemma {:induction false} StreamSplit(parts: seq<Bytes>, k: nat)
    requires k <= |parts|
    ensures Stream(parts) == Stream(parts[..k]) + Stream(parts[k..])
    decreases k
  {
    if k == 0 {
      assert parts[..0] == [] && parts[0..] == parts;
      assert [] + Stream(parts) == Stream(parts);
    } else {
      StreamSplit(parts[1..], k - 1);
      assert parts[..k][1..] == parts[1..][..k - 1] && parts[1..][k - 1..] == parts[k..];
      Concat3(parts[0], Stream(parts[1..][..k - 1]), Stream(parts[k..]));
    }
  }

  /** Every fragment is in one of the deliveries, or held already. */
  ghost predicate AllArrive(parts: seq<Bytes>, held: set<nat>, ds: seq<Delivery>) {
    forall i :: 0 <= i < |parts| ==> i in held || exists j :: 0 <= j < |ds| && i in Carried(parts, ds[j].Pieces())
  }

  lemma {:induction false} SniffOn(m: Message, parts: seq<Bytes>, held: set<nat>, s: State, ds: seq<Delivery>)
    requires Fragments(parts) && |Stream(parts)| <= 65536 && Holds(parts, held, s)
    requires StartsWith(m, Stream(parts)) && s.feeds + |ds| <= 16
    requires forall i :: 0 <= i < |ds| ==> ds[i].Valid() && FragmentsOf(parts, ds[i].Pieces())
    requires AllArrive(parts, held, ds)
    ensures Sniffed(s, Decrypted(ds)) == m.Meaning().sni || (ds == [] && HeldFirst(parts, held, |parts|))
    decreases |ds|
  {
    hide Fed, TakenSni, Stream, Message.Meaning, Message.Encode, StartsWith, FragmentsOf, Carried, Delivery.Valid,
      Holds;
    if ds != [] {
      FeedDelivery(parts, held, s, ds[0]);
      var more := held + Carried(parts, ds[0].Pieces());
      var fed := Fed(s, ds[0].Decrypted()).0;
      TakeFromFragments(m, parts, more, fed);
      ArriveLater(parts, held, ds);
      var (s', sni) := TakenSni(fed);
      assert Decrypted(ds)[0] == ds[0].Decrypted() && Decrypted(ds)[1..] == Decrypted(ds[1..]);
      if sni.None? {
        HoldsOn(parts, more, s');
        SniffOn(m, parts, more, s', ds[1..]);
      }
    }
  }

  lemma HoldsOn(parts: seq<Bytes>, held: set<nat>, s: State)
    requires Holds(parts, held, s)
    ensures !s.done
  {
  }

  lemma ArriveLater(parts: seq<Bytes>, held: set<nat>, ds: seq<Delivery>)
    requires ds != [] && AllArrive(parts, held, ds)
    ensures AllArrive(parts, held + Carried(parts, ds[0].Pieces()), ds[1..])
  {
    hide Carried;
    var more := held + Carried(parts, ds[0].Pieces());
    forall i | 0 <= i < |parts| && i !in more
      ensures exists j :: 0 <= j < |ds[1..]| && i in Carried(parts, ds[1..][j].Pieces())
    {
      var j :| 0 <= j < |ds| && i in Carried(parts, ds[j].Pieces());
      assert ds[1..][j - 1] == ds[j];
    }
  }

  /** From packets to the server name: a stream that starts with any hello, cut into at most 64 fragments that arrive
      in at most 16 packets, in any order, with any repeats, among other frames and unreadable packets, is sniffed to
      the name in the hello, if it has one. */
  lemma NameIsSniffed(m: Message, parts: seq<Bytes>, ds: seq<Delivery>)
    requires Fragments(parts) && StartsWith(m, Stream(parts)) && |ds| <= 16
    requires forall i :: 0 <= i < |ds| ==> ds[i].Valid() && FragmentsOf(parts, ds[i].Pieces())
    requires AllArrive(parts, {}, ds)
    ensures Sniffed(FRESH, Decrypted(ds)) == m.Meaning().sni
  {
    hide Stream, StartsWith, Sniffed, Message.Meaning, Holds, Carried, Delivery.Valid, FragmentsOf;
    HoldsNothing(parts, FRESH);
    StreamNotEmpty(m, parts);
    NothingIsNotAll(parts);
    SniffOn(m, parts, {}, FRESH, ds);
  }

  /** So the caller gets the host that the hello names. */
  lemma HostIsSniffed(m: Message, name: Bytes, parts: seq<Bytes>, ds: seq<Delivery>)
    requires Names(m, name) && Utf8.IsText(name)
    requires Fragments(parts) && StartsWith(m, Stream(parts)) && |ds| <= 16
    requires forall i :: 0 <= i < |ds| ==> ds[i].Valid() && FragmentsOf(parts, ds[i].Pieces())
    requires AllArrive(parts, {}, ds)
    ensures Sniffed(FRESH, Decrypted(ds)) == Some(name)
  {
    hide Names, StartsWith, Sniffed, Message.Meaning;
    NameIsSniffed(m, parts, ds);
    NamedHost(m, name);
  }

  lemma NothingIsNotAll(parts: seq<Bytes>)
    requires |parts| > 0
    ensures !HeldFirst(parts, {}, |parts|)
  {
    var held: set<nat> := {};
    assert 0 !in held;
  }

  lemma StreamNotEmpty(m: Message, parts: seq<Bytes>)
    requires StartsWith(m, Stream(parts))
    ensures |parts| > 0 && |Stream(parts)| < TWO_16
  {
    EncodedSize(m);
  }

  /** Nothing behind the 16th packet matters: the 17th ends it without a name. */
  lemma OnlySixteenCount(packets: seq<Packet>)
    requires |packets| > 16
    ensures Sniffed(FRESH, packets) == Sniffed(FRESH, packets[..16])
  {
    hide Sniffed;
    OnlySomeCount(FRESH, packets, 16);
  }

  lemma {:induction false} OnlySomeCount(s: State, packets: seq<Packet>, k: nat)
    requires !s.done && s.feeds + k == MAX_FEED_ATTEMPTS && k < |packets|
    ensures Sniffed(s, packets) == Sniffed(s, packets[..k])
    decreases k
  {
    hide Fed, TakenSni;
    if k == 0 {
      GivesUp(s, packets[0]);
    } else {
      var fed := Fed(s, packets[0]).0;
      var (s', sni) := TakenSni(fed);
      FeedCounts(s, packets[0]);
      if sni.None? && !s'.done {
        OnlySomeCount(s', packets[1..], k - 1);
        assert packets[..k][1..] == packets[1..][..k - 1];
      }
    }
  }

  lemma GivesUp(s: State, packet: Packet)
    requires !s.done && s.feeds >= MAX_FEED_ATTEMPTS
    ensures var (s', sni) := TakenSni(Fed(s, packet).0); s'.done && sni.None?
  {
  }

  lemma FeedCounts(s: State, packet: Packet)
    requires !s.done && s.feeds < MAX_FEED_ATTEMPTS
    ensures TakenSni(Fed(s, packet).0).0.feeds == s.feeds + 1
  {
    hide PiecesFrom, IngestedAll, Reassembled, ParsedClientHello;
    if packet.Ok? && PiecesFrom(packet.value, 0).Ok? {
      IngestKeepsFeeds(s.(feeds := s.feeds + 1), PiecesFrom(packet.value, 0).value);
    }
  }

  lemma {:induction false} IngestKeepsFeeds(s: State, ps: seq<Piece>)
    ensures IngestedAll(s, ps).0.feeds == s.feeds
    decreases |ps|
  {
    if ps != [] && Ingested(s, ps[0].off, ps[0].data).1.Ok? {
      IngestKeepsFeeds(Ingested(s, ps[0].off, ps[0].data).0, ps[1..]);
    }
  }

  /** A fragment behind a gap blocks a hello that is complete: here the hello is the first of three fragments, and the
      first and the third have arrived. */
  lemma GapBlocksHello(m: Message, s: State)
    requires m.Valid() && |m.Body()| < TWO_16 - 6 && Holds([m.Encode(), [0], [0]], {0, 2}, s)
    ensures Completes(Stream([m.Encode()])) && Reassembled(s.pieces) == None
  {
    hide Message.Encode, Message.Body, Message.Valid, Stream, Reassembled, Holds;
    var parts, held := [m.Encode(), [0], [0]], {0, 2};
    EncodedSize(m);
    OneFragment(m.Encode());
    HelloCompletes(m, m.Encode());
    assert !(1 in held) && 2 in held;
    GapIsNoRecord(parts, held, s);
  }

  lemma OneFragment(part: Bytes)
    ensures Stream([part]) == part
  {
    assert [part][1..] == [];
  }

  // ---------------------------------------------------------------- the record

  /** The reassembled record reads as the stream's handshake message exactly up to 65535 bytes: one byte more and
      the 16-bit length field of the wrapping comes out as zero. */
  lemma RecordReadsExactly(hs: Bytes)
    requires 4 <= |hs| <= 65536
    ensures ParsedClientHello(Wrapped(hs)) == if |hs| < TWO_16 then ParsedHandshake(hs) else Err(Short(1, 0))
  {
    if |hs| < TWO_16 {
      WrappedIsRead(hs, []);
    } else {
      LengthLost(hs);
      EmptyHandshake();
    }
  }

  /** So a hello at the start of a stream of 65536 bytes is read where it stands, and not found by the sniffer. */
  lemma LargestStreamIsLost(m: Message, parts: seq<Bytes>, order: seq<nat>)
    requires Fragments(parts) && |Stream(parts)| == 65536
    requires m.Valid() && |m.Body()| < TWO_16 && m.Encode() <= Stream(parts)
    requires forall i :: 0 <= i < |order| ==> order[i] < |parts|
    requires forall j :: 0 <= j < |parts| ==> j in order
    ensures ParsedHandshake(Stream(parts)) == Ok(m.Meaning())
    ensures TakenSni(IngestedIndices(parts, order).0).1 == None
  {
    hide Stream, Message.Meaning, Message.Body, Message.Valid, ParsedClientHello, ParsedHandshake, Wrapped,
      IngestedIndices, Message.Encode, Need, Reassembled;
    var hs := Stream(parts);
    assert hs == m.Encode() + hs[|m.Encode()|..];
    HelloRoundTrip(m, hs[|m.Encode()|..]);
    ReassemblyIsOrderFree(parts, order);
    RecordReadsExactly(hs);
  }

  lemma LengthLost(hs: Bytes)
    requires |hs| == TWO_16
    ensures ParsedClientHello(Wrapped(hs)) == ParsedHandshake([])
  {
    hide ReadU16, ReadSlice, ParsedHandshake;
    var buf := Wrapped(hs);
    assert buf[3..] == Be16(0) + hs && buf[5..5] == [];
    assert buf[1..] == Be16(0x0301) + buf[3..];
    U16Reads(buf, 1, 0x0301, buf[3..]);
    U16Reads(buf, 3, 0, hs);
    assert hs == [] + hs;
    SliceReads(buf, 5, [], hs);
  }

  lemma EmptyHandshake()
    ensures ParsedHandshake([]) == Err(Short(1, 0))
  {
  }

  /** Any hello that fits, followed by anything in its stream, cut into fragments that arrive in any order, parses to
      its meaning. */
  lemma HelloOutOfOrder(m: Message, parts: seq<Bytes>, order: seq<nat>)
    requires Fragments(parts) && StartsWith(m, Stream(parts))
    requires forall i :: 0 <= i < |order| ==> order[i] < |parts|
    requires forall j :: 0 <= j < |parts| ==> j in order
    ensures var r := Reassembled(IngestedIndices(parts, order).0.pieces);
            r.Some? && ParsedClientHello(r.value) == Ok(m.Meaning())
  {
    hide Stream, Message.Meaning, ParsedClientHello, Wrapped, IngestedIndices, Message.Encode;
    HelloCompletes(m, Stream(parts));
    ReassemblyIsOrderFree(parts, order);
    RecordIsHello(m, Stream(parts), Stream(parts));
  }

  lemma EncodedSize(m: Message)
    requires m.Valid() && |m.Body()| < 0x100_0000
    ensures |m.Encode()| == 4 + |m.Body()|
  {
  }
}
