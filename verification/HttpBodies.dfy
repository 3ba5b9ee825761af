/** Whole bodies (`relay_body` of http.rs, `consume_body` of server.rs): what is taken is exactly the framed body, and
    what is relayed of a chunked one decodes to its data. */
module HttpBodies {
  import opened MachineInts
  import opened Wrappers
  import opened ChunkSyntax
  import opened HttpFraming
  import opened Utf8
  import opened ChunkOverflow
  import ChunkDecoder

  /** `relay_body`, to the end of the stream when nothing frames the body. */
  method RelayBody(src: Source, dst: Bytes, framing: Framing, prefix: Bytes)
    returns (r: Result<Bytes, IoError>, out: Bytes)
    modifies src
    ensures var all := prefix + old(src.rest);
            match framing
            case NoBody => r == Ok(prefix) && out == dst && src.rest == old(src.rest)
            case Length(n) => && (r.Ok? <==> n <= |all|)
                              && (r.Ok? ==> out == dst + all[..n] && r.value + src.rest == all[n..])
                              && (r.Err? ==> r.error == UnexpectedEof && out == dst + all && src.rest == [])
            case Eof => r == Ok([]) && out == dst + all && src.rest == []
            case Chunked => && (r.Ok? <==> BodyLength(all).Ok?)
                            && (r.Ok? ==> var n := BodyLength(all).value;
                                          out == dst + all[..n] && r.value + src.rest == all[n..])
                            && (r.Err? ==> BodyLength(all) == Err(r.error) && dst <= out <= dst + all)
  {
    match framing
    case NoBody => return Ok(prefix), dst;
    case Length(n) => r, out := RelayCounted(src, dst, n, prefix);
    case Chunked => r, out := RelayChunked(src, dst, prefix);
    case Eof =>
      out := dst + prefix;
      while true
        invariant out + src.rest == dst + (prefix + old(src.rest))
        decreases |src.rest|
      {
        var before := out;
        var chunk := src.Read(8192);
        if chunk == [] {
          return Ok([]), out;
        }
        assert before + (chunk + src.rest) == before + chunk + src.rest;
        out := out + chunk;
      }
  }

  /** How a chunked body ends as far as a reader limited to MAX_DRAIN_BODY bytes of the stream can see. */
  function Visible(prefix: Bytes, rest: Bytes): Result<nat, IoError> {
    BodyLength(prefix + rest[..Min(|rest|, MAX_DRAIN_BODY)])
  }

  /** Skips a chunked body through a reader that sees no more than the next MAX_DRAIN_BODY bytes of the stream. */
  method DrainChunked(src: Source, prefix: Bytes) returns (r: Result<Bytes, IoError>)
    modifies src
    ensures var all := prefix + old(src.rest);
            && (r.Ok? <==> BodyLength(all).Ok? && BodyLength(all).value <= |prefix| + MAX_DRAIN_BODY)
            && (r.Ok? ==> r.value + src.rest == all[BodyLength(all).value..])
            && (r.Err? ==> Visible(prefix, old(src.rest)) == Err(r.error))
  {
    hide BodyLength;
    ghost var all := prefix + src.rest;
    var seen := Min(|src.rest|, MAX_DRAIN_BODY);
    var beyond := src.rest[seen..];
    var bounded := new Source(src.rest[..seen]);
    BodyInWindow(all, |prefix| + seen);
    ghost var window := prefix + bounded.rest;
    assert all[..|prefix| + seen] == window && all == window + beyond;
    var sunk;
    r, sunk := RelayBody(bounded, [], Chunked, prefix);
    src.rest := bounded.rest + beyond;
    if r.Ok? {
      Suffix(window, beyond, BodyLength(all).value, r.value, bounded.rest);
    }
  }

  lemma Suffix(a: Bytes, b: Bytes, n: nat, left: Bytes, unread: Bytes)
    requires n <= |a| && left + unread == a[n..]
    ensures left + (unread + b) == (a + b)[n..]
  {
    assert (a + b)[n..] == a[n..] + b;
    assert left + (unread + b) == left + unread + b;
  }

  /** `consume_body`: skips a request body nobody wants and gives back what was read beyond it. */
  method ConsumeBody(src: Source, framing: Framing, prefix: Bytes) returns (r: Result<Bytes, IoError>)
    modifies src
    ensures var all := prefix + old(src.rest);
            match framing
            case NoBody => r.Ok? && r.value + src.rest == all
            case Length(n) => && (r.Ok? <==> n <= MAX_DRAIN_BODY && n <= |all|)
                              && (r.Ok? ==> r.value + src.rest == all[n..])
                              && (r.Err? ==> r.error == if n > MAX_DRAIN_BODY then InvalidData else UnexpectedEof)
            case Eof => r == Ok([]) && src.rest == old(src.rest)
            case Chunked => && (r.Ok? <==> BodyLength(all).Ok? && BodyLength(all).value <= |prefix| + MAX_DRAIN_BODY)
                            && (r.Ok? ==> r.value + src.rest == all[BodyLength(all).value..])
                            && (r.Err? ==> Visible(prefix, old(src.rest)) == Err(r.error))
  {
    match framing
    case NoBody => return Ok(prefix);
    case Length(n) => r := DrainCounted(src, n, prefix);
    case Eof => return Ok([]);
    case Chunked => r := DrainChunked(src, prefix);
  }

  // ---------------------------------------------------------------- a body does not depend on what follows it

  lemma LineInWindow(t: Bytes, k: nat)
    requires k <= |t|
    ensures LineLength(t[..k]) == if LineLength(t).Some? && LineLength(t).value <= k then LineLength(t) else None
  {
    if LineLength(t).Some? && LineLength(t).value <= k {
      var n := LineLength(t).value;
      assert t[..k][..n - 1] == t[..n - 1];
      LineEndsAt(t[..k], n - 1);
    }
  }

  lemma {:induction false} TrailerInWindow(t: Bytes, k: nat)
    requires k <= |t|
    ensures TrailerLength(t[..k]) ==
            if TrailerLength(t).Some? && TrailerLength(t).value <= k then TrailerLength(t) else None
    decreases |t|
  {
    hide LineLength, Stripped, TrailerLength;
    LineInWindow(t, k);
    TrailerStep(t);
    TrailerStep(t[..k]);
    if LineLength(t).Some? && LineLength(t).value <= k {
      var n := LineLength(t).value;
      assert t[..k][..n - 1] == t[..n - 1] && t[..k][n..] == t[n..][..k - n];
      TrailerInWindow(t[n..], k - n);
    }
  }

  lemma TurnInWindow(t: Bytes, k: nat)
    requires k <= |t|
    ensures NextTurn(t).Bad? || NextTurn(t).n > k ==> NextTurn(t[..k]).Bad?
    ensures !NextTurn(t).Bad? && NextTurn(t).n <= k ==> NextTurn(t[..k]) == NextTurn(t)
  {
    hide LineLength, Stripped, TrailerLength, ChunkSize;
    LineInWindow(t, k);
    if LineLength(t).Some? && LineLength(t).value <= k {
      var n := LineLength(t).value;
      assert t[..k][..n - 1] == t[..n - 1] && t[..k][n..] == t[n..][..k - n];
      TrailerInWindow(t[n..], k - n);
    }
  }

  /** A chunked body is complete in a prefix of the stream exactly if it ends there. */
  lemma {:induction false} BodyInWindow(t: Bytes, k: nat)
    requires k <= |t|
    ensures BodyLength(t[..k]).Ok? <==> BodyLength(t).Ok? && BodyLength(t).value <= k
    ensures BodyLength(t[..k]).Ok? ==> BodyLength(t[..k]) == BodyLength(t)
    decreases |t|
  {
    hide NextTurn;
    TurnInWindow(t, k);
    if NextTurn(t).More? && NextTurn(t).n <= k {
      var n := NextTurn(t).n;
      assert t[..k][n..] == t[n..][..k - n];
      BodyInWindow(t[n..], k - n);
    }
  }

  // ---------------------------------------------------------------- well-formed bodies

  /** A chunked body of section 7.1 of RFC 9112: chunks, the closing chunk, trailer fields, an empty line. */
  datatype Body = Body(chunks: seq<Chunk>, last: LastChunk, trailers: seq<Bytes>) {
    predicate Valid() {
      && AllValid(chunks) && last.Valid()
      && (forall i :: 0 <= i < |trailers| ==> trailers[i] != [] && NoLineEnd(trailers[i]))
    }

    function Text(): Bytes {
      Wire(chunks) + (last.Line() + CRLF + TrailerText(trailers))
    }
  }

  function TrailerText(lines: seq<Bytes>): Bytes {
    if lines == [] then CRLF else lines[0] + CRLF + TrailerText(lines[1..])
  }

  lemma LineRead(line: Bytes, rest: Bytes)
    requires NoLineEnd(line)
    ensures var t := line + CRLF + rest;
            && LineLength(t) == Some(|line| + 2) && Stripped(t[..|line| + 1]) == line && t[|line| + 2..] == rest
  {
    var t := line + CRLF + rest;
    assert t[..|line| + 1] == line + [CR];
    LineEndsAt(t, |line| + 1);
    assert (line + [CR])[..|line|] == line;
    assert Stripped(line + [CR]) == Stripped(line);
    assert line != [] ==> line[|line| - 1] in line;
  }

  lemma {:induction false} TrailersRead(lines: seq<Bytes>, rest: Bytes)
    requires forall i :: 0 <= i < |lines| ==> lines[i] != [] && NoLineEnd(lines[i])
    ensures TrailerLength(TrailerText(lines) + rest) == Some(|TrailerText(lines)|)
  {
    hide LineLength, Stripped, TrailerLength;
    var t := TrailerText(lines) + rest;
    TrailerStep(t);
    if lines == [] {
      assert t == [] + CRLF + rest;
      LineRead([], rest);
    } else {
      assert t == lines[0] + CRLF + (TrailerText(lines[1..]) + rest);
      LineRead(lines[0], TrailerText(lines[1..]) + rest);
      TrailersRead(lines[1..], rest);
    }
  }

  /** No chunk so long that its size plus two leaves 64 bits. */
  predicate SizesFit(cs: seq<Chunk>) {
    forall i :: 0 <= i < |cs| ==> |cs[i].data| + 2 < TWO_64
  }

  /** The turn at a chunk. */
  lemma ChunkTurn(c: Chunk, rest: Bytes)
    requires c.Valid()
    ensures var text := c.Line() + CRLF + c.data + CRLF;
            && ExactTurn(text + rest) == More(|text|) && (text + rest)[|text|..] == rest
            && DeclaredSize(text + rest) == Some(|c.data|)
  {
    hide LineLength, Stripped, ChunkSize, TrailerLength, NoLineEnd, Extension.Valid, Extension.Text, HexValue;
    var tail := c.data + CRLF + rest;
    assert c.Line() + CRLF + c.data + CRLF + rest == c.Line() + CRLF + tail;
    LineHasNoEnd(c.size, c.ext);
    LineRead(c.Line(), tail);
    SizeIsRead(c.size, c.ext);
  }

  lemma LastTurn(b: Body, rest: Bytes)
    requires b.Valid()
    ensures var text := b.last.Line() + CRLF + TrailerText(b.trailers);
            ExactTurn(text + rest) == Last(|text|) && DeclaredSize(text + rest) == Some(0)
  {
    hide LineLength, Stripped, ChunkSize, TrailerLength, NoLineEnd, Extension.Valid, Extension.Text, HexValue,
      TrailerText;
    var tail := TrailerText(b.trailers) + rest;
    assert b.last.Line() + CRLF + TrailerText(b.trailers) + rest == b.last.Line() + CRLF + tail;
    LineHasNoEnd(b.last.size, b.last.ext);
    LineRead(b.last.Line(), tail);
    SizeIsRead(b.last.size, b.last.ext);
    TrailersRead(b.trailers, rest);
  }

  /** Whatever follows it, a well-formed chunked body is framed whole and alone; the first size that overflows, if
      any, is that of a chunk of at least 2^64 - 2 bytes. */
  lemma {:induction false} BodyIsFramed(b: Body, rest: Bytes)
    requires b.Valid()
    ensures ExactLength(b.Text() + rest) == Ok(|b.Text()|)
    ensures FirstOverflow(b.Text() + rest).None? <==> SizesFit(b.chunks)
    decreases |b.chunks|
  {
    hide ExactTurn, DeclaredSize, Chunk.Valid, LastChunk.Valid, Chunk.Line, LastChunk.Line, TrailerText;
    if b.chunks == [] {
      assert b.Text() == b.last.Line() + CRLF + TrailerText(b.trailers);
      LastTurn(b, rest);
    } else {
      var c, later := b.chunks[0], b.(chunks := b.chunks[1..]);
      var text := c.Line() + CRLF + c.data + CRLF;
      assert b.Text() == text + later.Text();
      assert b.Text() + rest == text + (later.Text() + rest);
      ChunkTurn(c, later.Text() + rest);
      BodyIsFramed(later, rest);
      SizesFitTail(b.chunks);
    }
  }

  lemma SizesFitTail(cs: seq<Chunk>)
    requires cs != []
    ensures SizesFit(cs) <==> |cs[0].data| + 2 < TWO_64 && SizesFit(cs[1..])
  {
    assert forall i :: 1 <= i < |cs| ==> cs[i] == cs[1..][i - 1];
  }

  lemma {:induction false} ShortBodiesFit(cs: seq<Chunk>, i: nat)
    requires i < |cs|
    ensures |cs[i].data| + 4 <= |Wire(cs)|
  {
    if i > 0 {
      ShortBodiesFit(cs[1..], i - 1);
    }
  }

  /** Whatever follows it, a well-formed chunked body is taken whole and alone, if it is shorter than 2^64 bytes or at
      least none of its chunks is that long. */
  lemma BodyIsTaken(b: Body, rest: Bytes)
    requires b.Valid()
    ensures |b.Text()| < TWO_64 ==> SizesFit(b.chunks)
    ensures SizesFit(b.chunks) ==> BodyLength(b.Text() + rest) == Ok(|b.Text()|)
  {
    forall i | 0 <= i < |b.chunks| ensures |b.chunks[i].data| + 4 <= |b.Text()| {
      ShortBodiesFit(b.chunks, i);
    }
    BodyIsFramed(b, rest);
    FramesUntilOverflow(b.Text() + rest);
  }

  /** What the relay passes on of a well-formed chunked body decodes, in any pieces, to the body's data, exactly if it
      reaches the end of the closing chunk's size line; and that it does if the sizes fit. */
  lemma RelayedDecodes(b: Body, rest: Bytes, pieces: seq<Bytes>)
    requires b.Valid() && pieces != [] && BodyLength(b.Text() + rest).Ok?
    requires ChunkDecoder.Joined(pieces) == (b.Text() + rest)[..BodyLength(b.Text() + rest).value]
    ensures var fed, n := ChunkDecoder.FeedAll(ChunkDecoder.FRESH, pieces), BodyLength(b.Text() + rest).value;
            && (fed.ok && fed.out == Data(b.chunks) && fed.dec.done <==>
                n >= |Wire(b.chunks) + (b.last.Line() + CRLF)|)
            && (SizesFit(b.chunks) ==> n >= |Wire(b.chunks) + (b.last.Line() + CRLF)|)
  {
    hide ChunkDecoder.Drive, ChunkDecoder.FeedAll, ChunkDecoder.AfterFeed, Body.Valid, BodyLength, Wire, LastChunk.Line,
      TrailerText, SizesFit;
    BodyIsTaken(b, rest);
    var n := BodyLength(b.Text() + rest).value;
    var needed, trailers := Wire(b.chunks) + (b.last.Line() + CRLF), TrailerText(b.trailers);
    assert b.Text() + rest == needed + (trailers + rest);
    assert |b.Text()| >= |needed|;
    CutInTwo(needed, trailers + rest, n);
    ChunkDecoder.CutsDoNotMatter(ChunkDecoder.FRESH, pieces);
    if n >= |needed| {
      DoneFrom(b, (trailers + rest)[..n - |needed|]);
    } else {
      NotDoneBefore(b, n);
    }
  }

  /** The decoder is not done before the closing chunk's size line is complete. */
  lemma NotDoneBefore(b: Body, n: nat)
    requires b.Valid() && n < |Wire(b.chunks) + (b.last.Line() + CRLF)|
    ensures var input := (Wire(b.chunks) + (b.last.Line() + CRLF))[..n];
            var fed := ChunkDecoder.AfterFeed(ChunkDecoder.FRESH, input);
            !(fed.ok && fed.dec.done)
  {
    hide ChunkDecoder.Drive;
    var needed := Wire(b.chunks) + (b.last.Line() + CRLF);
    var more := needed[n..];
    assert needed[..n] + more == needed;
    ChunkDecoder.FeedTwice(ChunkDecoder.FRESH, needed[..n], more);
    assert needed == Wire(b.chunks) + (b.last.Line() + CRLF + []);
    ChunkDecoder.DriveBody(b.chunks, b.last, []);
    var first := ChunkDecoder.AfterFeed(ChunkDecoder.FRESH, needed[..n]);
    assert |first.dec.buf + more| > 0;
    if first.ok && first.dec.done {
      ChunkDecoder.DriveDone(first.dec.With(more));
    }
  }

  /** From there on it is. */
  lemma DoneFrom(b: Body, after: Bytes)
    requires b.Valid()
    ensures var input := Wire(b.chunks) + (b.last.Line() + CRLF) + after;
            var fed := ChunkDecoder.AfterFeed(ChunkDecoder.FRESH, input);
            fed.ok && fed.dec.done && fed.out == Data(b.chunks)
  {
    hide ChunkDecoder.Drive, Chunk.Valid, LastChunk.Valid, Wire, LastChunk.Line;
    assert Wire(b.chunks) + (b.last.Line() + CRLF) + after == Wire(b.chunks) + (b.last.Line() + CRLF + after);
    ChunkDecoder.DriveBody(b.chunks, b.last, after);
  }

  lemma CutInTwo(a: Bytes, b: Bytes, n: nat)
    requires n <= |a + b|
    ensures n < |a| ==> (a + b)[..n] == a[..n]
    ensures n >= |a| ==> (a + b)[..n] == a + b[..n - |a|]
  {
  }

  // ---------------------------------------------------------------- a body whose declared chunk is absent

  const F_DIGIT: byte := 70
  const E_DIGIT: byte := 69

  function Fs(k: nat): (s: Bytes)
    ensures |s| == k && forall i :: 0 <= i < k ==> s[i] == F_DIGIT
  {
    seq(k, _ => F_DIGIT)
  }

  lemma {:induction false} ValueOfFs(k: nat)
    ensures HexValue(Widen(Fs(k))) == Some(Pow16(k) - 1) && Pow16(k) >= 1
  {
    var w := Widen(Fs(k));
    if k == 0 {
      assert w == [];
    } else {
      assert w[..k - 1] == Widen(Fs(k - 1));
      ValueOfFs(k - 1);
    }
  }

  /** FFFFFFFFFFFFFFFE */
  const LARGE_SIZE: Bytes := Fs(15) + [E_DIGIT]

  lemma LargeSize()
    ensures IsHex(LARGE_SIZE) && HexValue(Widen(LARGE_SIZE)) == Some(TWO_64 - 2)
  {
    var w := Widen(LARGE_SIZE);
    ValueOfFs(15);
    assert w[..15] == Widen(Fs(15));
    Pow16Steps(15);
  }

  lemma Pow16Steps(k: nat)
    requires k == 15
    ensures 16 * Pow16(k) == TWO_64
  {
    assert Pow16(5) == 0x10_0000 by { assert Pow16(3) == 0x1000; }
    assert Pow16(10) == 0x100_0000_0000 by { assert Pow16(8) == 0x1_0000_0000 by { assert Pow16(7) == 0x1000_0000; } }
    assert Pow16(13) == 0x10_0000_0000_0000;
  }

  /** The turn at that size line takes the line and nothing else. */
  lemma LargeTurn(tail: Bytes)
    ensures var t := LARGE_SIZE + CRLF + tail;
            && NextTurn(t) == More(|LARGE_SIZE| + 2) && t[|LARGE_SIZE| + 2..] == tail
            && Overflows(DeclaredSize(t))
  {
    hide LineLength, Stripped, ChunkSize, TrailerLength, NoLineEnd, HexValue, IsHex, Fs;
    var none := Extension([], []);
    assert LARGE_SIZE + none.Text() == LARGE_SIZE;
    LargeSize();
    LineHasNoEnd(LARGE_SIZE, none);
    LineRead(LARGE_SIZE, tail);
    SizeIsRead(LARGE_SIZE, none);
    DivUnique(TWO_64, 1, TWO_64, 0);
  }

  /** Behind the size line of a chunk of 2^64 - 2 bytes the code takes whatever body follows, as if the chunk had been
      there; by the framing the stream ends too early. */
  lemma AbsentChunkIsAccepted(b: Body, rest: Bytes)
    requires b.Valid() && SizesFit(b.chunks)
    ensures var line := LARGE_SIZE + CRLF;
            var t := line + b.Text() + rest;
            && BodyLength(t) == Ok(|line + b.Text()|)
            && (|t| < TWO_64 ==> ExactLength(t) == Err(UnexpectedEof))
  {
    hide NextTurn, DeclaredSize, Overflows, BodyLength, ExactLength, Fs, SizesFit, Body.Text;
    var tail := b.Text() + rest;
    var t := LARGE_SIZE + CRLF + tail;
    Concat3(LARGE_SIZE + CRLF, b.Text(), rest);
    LargeTurn(tail);
    NothingCopied(t, |LARGE_SIZE| + 2);
    BodyIsTaken(b, rest);
    FramesUntilOverflow(t);
  }

  lemma NothingCopied(t: Bytes, n: nat)
    requires NextTurn(t) == More(n)
    ensures BodyLength(t) == Shifted(n, BodyLength(t[n..]))
  {
  }
}
