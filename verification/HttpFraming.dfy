/** HTTP/1.1 framing (http.rs and `consume_body` of server.rs): however the peer's bytes are cut into reads, heads
    end where they end, bodies are taken exactly, and no byte is lost or repeated. */
module HttpFraming {
  import opened MachineInts
  import opened Wrappers
  import opened ChunkSyntax
  import ChunkDecoder

  datatype IoError = UnexpectedEof | InvalidData

  datatype Framing = Length(n: u64) | Chunked | Eof | NoBody

  const MAX_HEAD: nat := 65536
  const HEAD_READ: nat := 8192
  const MAX_DRAIN_BODY: nat := 1024 * 1024

  /** A byte stream whose reads return any non-empty part of what is asked for and still to come. */
  class Source {
    var rest: Bytes

    constructor (bytes: Bytes)
      ensures rest == bytes
    {
      rest := bytes;
    }

    method Read(max: nat) returns (chunk: Bytes)
      modifies this
      ensures |chunk| <= max && old(rest) == chunk + rest
      ensures max > 0 && old(rest) != [] ==> chunk != []
    {
      var n :| 0 <= n <= max && n <= |rest| && (max > 0 && rest != [] ==> n > 0);
      chunk := rest[..n];
      rest := rest[n..];
    }
  }

  // ---------------------------------------------------------------- heads

  predicate EndsHead(b: Bytes, i: nat) {
    i + 4 <= |b| && b[i] == CR && b[i + 1] == LF && b[i + 2] == CR && b[i + 3] == LF
  }

  /** Where the first blank line ends: `find_head_end`. */
  function FindHeadEnd(b: Bytes): (r: Option<nat>)
    ensures r.Some? ==> 4 <= r.value <= |b| && EndsHead(b, r.value - 4)
    ensures r.Some? ==> forall i :: 0 <= i < r.value - 4 ==> !EndsHead(b, i)
    ensures r.None? ==> forall i :: 0 <= i ==> !EndsHead(b, i)
  {
    if |b| < 4 then None
    else if EndsHead(b, 0) then Some(4)
    else
      assert forall i :: 1 <= i ==> EndsHead(b, i) == EndsHead(b[1..], i - 1);
      match FindHeadEnd(b[1..])
      case Some(e) => Some(e + 1)
      case None => None
  }

  predicate BlankLineAt(b: Bytes, i: nat) {
    i + 4 <= |b| && b[i..i + 4] == [13, 10, 13, 10]
  }

  /** A head ends behind the first CR LF CR LF. */
  lemma HeadEndsAt(b: Bytes, i: nat)
    requires BlankLineAt(b, i) && forall j :: 0 <= j < i ==> !BlankLineAt(b, j)
    ensures FindHeadEnd(b) == Some(i + 4)
  {
    hide FindHeadEnd;
    forall j: nat ensures EndsHead(b, j) <==> BlankLineAt(b, j) {
      if j + 4 <= |b| {
        var s := b[j..j + 4];
        assert s[0] == b[j] && s[1] == b[j + 1] && s[2] == b[j + 2] && s[3] == b[j + 3];
      }
    }
    FirstEnd(b, i + 4);
  }

  /** Searching from a point before which no head ends gives the first end. */
  lemma SearchFrom(b: Bytes, from: nat)
    requires from <= |b| && forall i :: 0 <= i < from ==> !EndsHead(b, i)
    ensures FindHeadEnd(b) == match FindHeadEnd(b[from..]) case Some(e) => Some(from + e) case None => None
  {
    hide FindHeadEnd;
    assert forall i :: from <= i ==> EndsHead(b, i) == EndsHead(b[from..], i - from);
    match FindHeadEnd(b[from..])
    case Some(e) => FirstEnd(b, from + e);
    case None =>
  }

  lemma FirstEnd(b: Bytes, e: nat)
    requires 4 <= e && EndsHead(b, e - 4) && forall i :: 0 <= i < e - 4 ==> !EndsHead(b, i)
    ensures FindHeadEnd(b) == Some(e)
  {
  }

  /** A head that ends within a prefix ends there in the whole. */
  lemma HeadInPrefix(b: Bytes, more: Bytes)
    requires FindHeadEnd(b).Some?
    ensures FindHeadEnd(b + more) == FindHeadEnd(b)
  {
    assert forall i :: 0 <= i && i + 4 <= |b| ==> EndsHead(b + more, i) == EndsHead(b, i);
  }

  /** `read_head`: `out` is the buffer after the call. */
  method ReadHead(r: Source, buf: Bytes) returns (end: Result<nat, IoError>, out: Bytes)
    modifies r
    ensures buf <= out && out + r.rest == buf + old(r.rest)
    ensures end.Ok? ==> Some(end.value) == FindHeadEnd(buf + old(r.rest)) && end.value <= |out|
    ensures var whole := FindHeadEnd(buf + old(r.rest));
            && (whole.Some? && whole.value <= 65536 ==> end.Ok?)
            && (whole.None? ==> end.Err?)
    ensures |out| < 65536 + 8192 || out == buf
    ensures end.Err? ==> FindHeadEnd(out).None? && (|out| >= 65536 || r.rest == [])
                         && end.error == if out == [] then UnexpectedEof else InvalidData
  {
    hide EndsHead, FindHeadEnd;
    ghost var all := buf + r.rest;
    out := buf;
    var searchFrom: nat := 0;
    while true
      invariant searchFrom <= |out| && buf <= out && out + r.rest == all
      invariant forall i :: 0 <= i < searchFrom ==> !EndsHead(out, i)
      invariant |out| < MAX_HEAD + HEAD_READ || out == buf
      decreases |r.rest|
    {
      SearchFrom(out, searchFrom);
      var found := FindHeadEnd(out[searchFrom..]);
      if found.Some? {
        HeadInPrefix(out, r.rest);
        return Ok(searchFrom + found.value), out;
      }
      searchFrom := if |out| >= 3 then |out| - 3 else 0;
      LateHead(out, r.rest);
      if |out| >= MAX_HEAD {
        return Err(InvalidData), out;
      }
      var tmp := r.Read(HEAD_READ);
      if tmp == [] {
        assert all == out;
        return Err(if out == [] then UnexpectedEof else InvalidData), out;
      }
      NoHeadYet(out, tmp);
      Concat3(out, tmp, r.rest);
      out := out + tmp;
    }
  }

  /** More bytes cannot end a head more than three bytes back. */
  lemma NoHeadYet(out: Bytes, tmp: Bytes)
    requires FindHeadEnd(out).None?
    ensures forall i :: 0 <= i < |out| - 3 ==> !EndsHead(out + tmp, i)
  {
    forall i | 0 <= i < |out| - 3 ensures !EndsHead(out + tmp, i) {
      assert !EndsHead(out, i);
    }
  }

  /** If no head ends in a prefix, the first one ends behind it. */
  lemma LateHead(b: Bytes, more: Bytes)
    requires FindHeadEnd(b).None?
    ensures FindHeadEnd(b + more).Some? ==> FindHeadEnd(b + more).value > |b|
  {
    assert forall i :: 0 <= i && i + 4 <= |b| ==> EndsHead(b + more, i) == EndsHead(b, i);
  }

  // ---------------------------------------------------------------- bodies by length

  /** `read_exact` of n bytes. */
  method ReadExact(src: Source, n: nat) returns (r: Result<Bytes, IoError>)
    modifies src
    ensures r.Ok? <==> n <= |old(src.rest)|
    ensures r.Ok? ==> r.value == old(src.rest)[..n] && src.rest == old(src.rest)[n..]
    ensures r.Err? ==> r.error == UnexpectedEof && src.rest == []
  {
    var got: Bytes := [];
    while |got| < n
      invariant |got| <= n && got + src.rest == old(src.rest)
      decreases n - |got|
    {
      var chunk := src.Read(n - |got|);
      if chunk == [] {
        return Err(UnexpectedEof);
      }
      got := got + chunk;
    }
    assert old(src.rest)[..n] == got;
    return Ok(got);
  }

  /** A request body of known length is taken exactly, and only when it is small enough and all there. */
  method ReadBodyBounded(src: Source, framing: Framing, prefix: Bytes, limit: nat)
    returns (r: Result<(Bytes, Bytes), IoError>)
    modifies src
    ensures var all := prefix + old(src.rest);
            var n := match framing case NoBody => 0 case Length(n) => n case _ => 0;
            && (r.Ok? <==> framing == NoBody || (framing.Length? && framing.n <= limit && framing.n <= |all|))
            && (r.Ok? ==> n <= |all| && r.value.0 == all[..n] && r.value.1 + src.rest == all[n..])
            && (r.Err? ==> r.error == if framing.Length? && framing.n <= limit then UnexpectedEof else InvalidData)
  {
    match framing
    case NoBody =>
      assert prefix + src.rest == (prefix + src.rest)[0..];
      return Ok(([], prefix));
    case Length(n) =>
      if n > limit {
        return Err(InvalidData);
      }
      if |prefix| >= n {
        assert (prefix + src.rest)[..n] == prefix[..n] && (prefix + src.rest)[n..] == prefix[n..] + src.rest;
        return Ok((prefix[..n], prefix[n..]));
      }
      var have := |prefix|;
      var more := ReadExact(src, n - have);
      if more.Err? {
        return Err(more.error);
      }
      assert (prefix + old(src.rest))[..n] == prefix + more.value;
      assert (prefix + old(src.rest))[n..] == [] + src.rest;
      return Ok((prefix + more.value, []));
    case Chunked => return Err(InvalidData);
    case Eof => return Err(InvalidData);
  }

  /** Relays a body of known length byte for byte; `out` is what the destination holds afterwards. */
  method RelayCounted(src: Source, dst: Bytes, total: nat, prefix: Bytes)
    returns (r: Result<Bytes, IoError>, out: Bytes)
    modifies src
    ensures var all := prefix + old(src.rest);
            && (r.Ok? <==> total <= |all|)
            && (r.Ok? ==> out == dst + all[..total] && r.value + src.rest == all[total..])
            && (r.Err? ==> r.error == UnexpectedEof && out == dst + all && src.rest == [])
  {
    ghost var all := prefix + src.rest;
    out := dst;
    var remaining: nat := total;
    var take := Min(|prefix|, remaining);
    if take > 0 {
      out := out + prefix[..take];
      remaining := remaining - take;
    }
    ghost var sent := prefix[..take];
    assert remaining > 0 ==> sent == prefix && sent + src.rest == all;
    while remaining > 0
      invariant out == dst + sent && |sent| + remaining == total
      invariant take < |prefix| ==> remaining == 0 && sent == prefix[..take] && src.rest == old(src.rest)
      invariant take == |prefix| ==> sent + src.rest == all
      decreases remaining
    {
      var want := Min(remaining, 16 * 1024);
      var chunk := src.Read(want);
      if chunk == [] {
        return Err(UnexpectedEof), out;
      }
      ghost var was := sent;
      out := out + chunk;
      sent := sent + chunk;
      assert was + (chunk + src.rest) == sent + src.rest;
      remaining := remaining - |chunk|;
    }
    if take < |prefix| {
      assert all[..total] == sent && all[total..] == prefix[take..] + src.rest;
    } else {
      assert all == sent + src.rest && |sent| == total && prefix[take..] == [];
    }
    return Ok(prefix[take..]), out;
  }

  /** `consume_body` for a declared length: skips the rest of a body nobody wants. */
  method DrainCounted(src: Source, n: nat, prefix: Bytes) returns (r: Result<Bytes, IoError>)
    modifies src
    ensures var all := prefix + old(src.rest);
            && (r.Ok? <==> n <= 0x10_0000 && n <= |all|)
            && (r.Ok? ==> r.value + src.rest == all[n..])
            && (r.Err? ==> r.error == if n > 0x10_0000 then InvalidData else UnexpectedEof)
  {
    ghost var all := prefix + src.rest;
    if n > MAX_DRAIN_BODY {
      return Err(InvalidData);
    }
    if |prefix| >= n {
      assert all[n..] == prefix[n..] + src.rest;
      return Ok(prefix[n..]);
    }
    var need: nat := n - |prefix|;
    assert all[n - need..] == src.rest;
    while need > 0
      invariant need <= n && n - need <= |all| && all[n - need..] == src.rest
      decreases need
    {
      ghost var was := src.rest;
      var chunk := src.Read(Min(need, 8192));
      if chunk == [] {
        return Err(UnexpectedEof);
      }
      assert was[|chunk|..] == src.rest;
      need := need - |chunk|;
    }
    return Ok([]);
  }

  // ---------------------------------------------------------------- chunked bodies

  /** Bytes up to and including the first LF. */
  function LineLength(t: Bytes): (r: Option<nat>)
    ensures r.Some? ==> 1 <= r.value <= |t| && t[r.value - 1] == LF && LF !in t[..r.value - 1]
    ensures r.None? ==> LF !in t
  {
    if t == [] then None
    else if t[0] == LF then Some(1)
    else match LineLength(t[1..])
      case Some(n) => Some(n + 1)
      case None => None
  }

  /** A line without its LF and the CRs before it. */
  function Stripped(line: Bytes): Bytes {
    if line != [] && (line[|line| - 1] == CR || line[|line| - 1] == LF) then Stripped(line[..|line| - 1]) else line
  }

  predicate LineBreak(b: byte) {
    b == 13 || b == 10
  }

  /** What is left of a line does not end in a CR or LF, and only those are taken off its end. */
  lemma {:induction false} StrippedExactly(line: Bytes) returns (k: nat)
    ensures k <= |line| && Stripped(line) == line[..k] && forall i :: k <= i < |line| ==> LineBreak(line[i])
    ensures k > 0 ==> !LineBreak(line[k - 1])
    decreases |line|
  {
    if line != [] && LineBreak(line[|line| - 1]) {
      k := StrippedExactly(line[..|line| - 1]);
    } else {
      k := |line|;
    }
  }

  /** How many bytes the trailer section at the front takes, with the empty line that closes it. */
  function TrailerLength(t: Bytes): (r: Option<nat>)
    ensures r.Some? ==> r.value <= |t|
    decreases |t|
  {
    match LineLength(t)
    case None => None
    case Some(n) =>
      if Stripped(t[..n - 1]) == [] then Some(n)
      else Later(n, TrailerLength(t[n..]))
  }

  function Later(n: nat, r: Option<nat>): (s: Option<nat>)
    ensures s.Some? <==> r.Some?
    ensures s.Some? ==> s.value == n + r.value
  {
    match r
    case Some(m) => Some(n + m)
    case None => None
  }

  /** One turn of the chunked loop: a chunk taken, the closing chunk with its trailers taken, or a failure. */
  datatype Turn = More(n: nat) | Last(n: nat) | Bad(error: IoError)

  /** What the next turn takes. */
  function NextTurn(t: Bytes): (r: Turn)
    ensures !r.Bad? ==> 1 <= r.n <= |t|
  {
    match LineLength(t)
    case None => Bad(UnexpectedEof)
    case Some(n) => SizedTurn(n, ChunkSize(Stripped(t[..n - 1])), t[n..])
  }

  /** The turn once its size line, n bytes long, is read. `copy_exact` is asked for the chunk size plus two in 64-bit
      arithmetic. */
  function SizedTurn(n: nat, size: Option<nat>, rest: Bytes): (r: Turn)
    ensures !r.Bad? ==> n <= r.n <= n + |rest|
  {
    match size
    case None => Bad(InvalidData)
    case Some(size) =>
      if size == 0 then
        match TrailerLength(rest)
        case Some(m) => Last(n + m)
        case None => Bad(UnexpectedEof)
      else
        var count := (size + 2) % TWO_64;
        if count > |rest| then Bad(UnexpectedEof) else More(n + count)
  }

  /** How many bytes of the stream a chunked body takes, or how reading it fails. */
  function BodyLength(t: Bytes): (r: Result<nat, IoError>)
    ensures r.Ok? ==> r.value <= |t|
    decreases |t|
  {
    match NextTurn(t)
    case Bad(e) => Err(e)
    case Last(n) => Ok(n)
    case More(n) => Shifted(n, BodyLength(t[n..]))
  }

  function Shifted(n: nat, r: Result<nat, IoError>): (s: Result<nat, IoError>)
    ensures s.Ok? <==> r.Ok?
    ensures s.Ok? ==> s.value == n + r.value
    ensures s.Err? ==> s == r
  {
    match r
    case Ok(m) => Ok(n + m)
    case Err(e) => Err(e)
  }

  /** `done` bytes of t have been copied behind `dst`; the rest is still to come. */
  ghost predicate Copied(dst: Bytes, out: Bytes, t: Bytes, done: nat, left: Bytes) {
    done <= |t| && out == dst + t[..done] && left == t[done..]
  }

  lemma CopiedMore(dst: Bytes, out: Bytes, t: Bytes, done: nat, left: Bytes, n: nat)
    requires Copied(dst, out, t, done, left) && n <= |left|
    ensures Copied(dst, out + left[..n], t, done + n, left[n..])
    ensures n == |left| ==> out + left == dst + t && left[n..] == []
  {
    assert t[..done] + t[done..][..n] == t[..done + n];
    if n == |left| {
      assert t[..done] + t[done..] == t;
    }
  }

  lemma CopiedNothing(dst: Bytes, t: Bytes)
    ensures Copied(dst, dst, t, 0, t)
  {
  }

  lemma CopiedMeans(dst: Bytes, out: Bytes, t: Bytes, done: nat, left: Bytes)
    requires Copied(dst, out, t, done, left)
    ensures done <= |t| && out == dst + t[..done] && left == t[done..] && |left| == |t| - done
    ensures dst <= out <= dst + t
  {
  }

  /** Reads a prefix first and the source after it. */
  class PrefixedReader {
    const src: Source
    const prefix: Bytes
    var pos: nat

    ghost predicate Valid()
      reads this
    {
      pos <= |prefix|
    }

    /** Everything still to come. */
    ghost function Left(): Bytes
      reads this, src
      requires Valid()
    {
      prefix[pos..] + src.rest
    }

    constructor (src: Source, prefix: Bytes)
      ensures Valid() && Left() == prefix + src.rest
      ensures this.src == src && this.prefix == prefix && pos == 0
    {
      this.src, this.prefix, pos := src, prefix, 0;
    }

    method ReadByte() returns (b: Result<byte, IoError>)
      requires Valid()
      modifies this, src
      ensures Valid()
      ensures if old(Left()) == [] then b == Err(UnexpectedEof) && Left() == []
              else b == Ok(old(Left())[0]) && Left() == old(Left())[1..]
    {
      if pos < |prefix| {
        var v := prefix[pos];
        pos := pos + 1;
        assert Left() == old(Left())[1..];
        return Ok(v);
      }
      var one := src.Read(1);
      if one == [] {
        return Err(UnexpectedEof);
      }
      assert Left() == old(Left())[1..];
      return Ok(one[0]);
    }

    /** One line, copied to the destination as it is read. */
    method ReadLine(dst: Bytes) returns (line: Result<Bytes, IoError>, out: Bytes)
      requires Valid()
      modifies this, src
      ensures Valid()
      ensures match LineLength(old(Left()))
              case None => line == Err(UnexpectedEof) && out == dst + old(Left()) && Left() == []
              case Some(n) => line == Ok(Stripped(old(Left())[..n - 1])) && out == dst + old(Left())[..n]
                              && Left() == old(Left())[n..]
    {
      hide LineLength, Stripped, ReadSoFar;
      ghost var t := Left();
      var raw: Bytes := [];
      out := dst;
      assert ReadSoFar(t, raw, Left(), dst, out) by { NothingRead(t, dst); }
      while true
        invariant Valid() && ReadSoFar(t, raw, Left(), dst, out)
        decreases |Left()|
      {
        LineAhead(t, raw, Left(), dst, out);
        var b := ReadByte();
        if b.Err? {
          return Err(b.error), out;
        }
        out := out + [b.value];
        if b.value == LF {
          var stripped := StripLine(raw);
          return Ok(stripped), out;
        }
        raw := raw + [b.value];
      }
    }

    /** The trimming loop at the end of a line. */
    static method StripLine(raw: Bytes) returns (line: Bytes)
      ensures line == Stripped(raw)
    {
      line := raw;
      while line != [] && (line[|line| - 1] == CR || line[|line| - 1] == LF)
        invariant Stripped(raw) == Stripped(line)
      {
        line := line[..|line| - 1];
      }
    }

    /** The first loop of `copy_exact`, over the prefix; n is what is left to copy. */
    method CopyFromPrefix(dst: Bytes, count: nat) returns (n: nat, out: Bytes)
      requires Valid()
      modifies this
      ensures Valid() && n <= count && (n > 0 ==> pos == |prefix|)
      ensures var t := old(Left());
              count - n <= |t| && out == dst + t[..count - n] && Left() == t[count - n..]
    {
      hide Copied;
      ghost var t := Left();
      n, out := count, dst;
      CopiedNothing(dst, t);
      while n > 0 && pos < |prefix|
        invariant Valid() && n <= count && count - n <= |t|
        invariant Copied(dst, out, t, count - n, Left())
        decreases n
      {
        var take := Min(|prefix| - pos, n);
        CopiedMore(dst, out, t, count - n, Left(), take);
        PrefixPart(prefix, pos, take, src.rest);
        out := out + prefix[pos..pos + take];
        pos := pos + take;
        n := n - take;
      }
      CopiedMeans(dst, out, t, count - n, Left());
    }

    method CopyExact(dst: Bytes, count: nat) returns (ok: bool, out: Bytes)
      requires Valid()
      modifies this, src
      ensures Valid()
      ensures ok <==> count <= |old(Left())|
      ensures ok ==> out == dst + old(Left())[..count] && Left() == old(Left())[count..]
      ensures !ok ==> out == dst + old(Left()) && Left() == []
    {
      ghost var t := Left();
      var n;
      n, out := CopyFromPrefix(dst, count);
      if n == 0 {
        return true, out;
      }
      ghost var done := count - n;
      assert src.rest == t[done..];
      CopiedTwice(dst, t, done, if n <= |src.rest| then n else |src.rest|);
      ok, out := CopyFromSource(src, out, n);
      assert Left() == src.rest;
    }
  }

  lemma PrefixPart(prefix: Bytes, pos: nat, take: nat, rest: Bytes)
    requires pos + take <= |prefix|
    ensures (prefix[pos..] + rest)[..take] == prefix[pos..pos + take]
    ensures (prefix[pos..] + rest)[take..] == prefix[pos + take..] + rest
  {
  }

  /** The second loop of `copy_exact`, once the prefix is used up. */
  method CopyFromSource(src: Source, dst: Bytes, count: nat) returns (ok: bool, out: Bytes)
    modifies src
    ensures ok <==> count <= |old(src.rest)|
    ensures ok ==> out == dst + old(src.rest)[..count] && src.rest == old(src.rest)[count..]
    ensures !ok ==> out == dst + old(src.rest) && src.rest == []
  {
    hide Copied;
    ghost var t := src.rest;
    ghost var done: nat := 0;
    var n := count;
    out := dst;
    CopiedNothing(dst, t);
    CopiedMeans(dst, out, t, 0, t);
    while n > 0
      invariant 0 <= n <= count && done == count - n <= |t|
      invariant Copied(dst, out, t, done, src.rest)
      decreases n
    {
      ghost var left := src.rest;
      var chunk := src.Read(Min(n, 16 * 1024));
      CopiedMore(dst, out, t, done, left, |chunk|);
      assert left[..|chunk|] == chunk && left[|chunk|..] == src.rest;
      CopiedMeans(dst, out, t, done, left);
      if chunk == [] {
        CopiedMore(dst, out, t, done, left, |left|);
        assert out + left == out;
        return false, out;
      }
      out := out + chunk;
      n := n - |chunk|;
      done := done + |chunk|;
      CopiedMeans(dst, out, t, done, src.rest);
    }
    CopiedMeans(dst, out, t, done, src.rest);
    return true, out;
  }

  /** An unfinished line has been read and copied. */
  ghost predicate ReadSoFar(t: Bytes, raw: Bytes, left: Bytes, dst: Bytes, out: Bytes) {
    raw <= t && left == t[|raw|..] && LF !in raw && out == dst + raw
  }

  lemma NothingRead(t: Bytes, dst: Bytes)
    ensures ReadSoFar(t, [], t, dst, dst)
  {
  }

  /** The next byte decides where the line ends. */
  lemma LineAhead(t: Bytes, raw: Bytes, left: Bytes, dst: Bytes, out: Bytes)
    requires ReadSoFar(t, raw, left, dst, out)
    ensures left == [] ==> LineLength(t) == None && out == dst + t
    ensures left != [] && left[0] == LF ==>
              LineLength(t) == Some(|raw| + 1) && |raw| < |t| && raw == t[..|raw|]
              && out + [LF] == dst + t[..|raw| + 1] && left[1..] == t[|raw| + 1..]
    ensures left != [] && left[0] != LF ==> ReadSoFar(t, raw + [left[0]], left[1..], dst, out + [left[0]])
  {
    hide LineLength;
    if left == [] {
      assert raw == t;
    } else {
      assert left[0] == t[|raw|] && raw == t[..|raw|];
      Appended(dst, raw, left[0]);
      if left[0] == LF {
        assert t[..|raw| + 1] == raw + [LF];
        LineEndsAt(t, |raw|);
      }
    }
  }

  lemma Appended(dst: Bytes, raw: Bytes, b: byte)
    ensures dst + raw + [b] == dst + (raw + [b])
  {
  }

  lemma {:induction false} LineEndsAt(t: Bytes, k: nat)
    requires k < |t| && t[k] == LF && LF !in t[..k]
    ensures LineLength(t) == Some(k + 1)
  {
    if k > 0 {
      assert t[..k][0] == t[0] && t[1..][..k - 1] == t[..k][1..];
      LineEndsAt(t[1..], k - 1);
    }
  }

  /** Reads and copies lines until an empty one. */
  method RelayTrailers(rdr: PrefixedReader, dst: Bytes) returns (ok: bool, out: Bytes)
    requires rdr.Valid()
    modifies rdr, rdr.src
    ensures rdr.Valid()
    ensures var t := old(rdr.Left());
            match TrailerLength(t)
            case Some(n) => ok && out == dst + t[..n] && rdr.Left() == t[n..]
            case None => !ok && out == dst + t && rdr.Left() == []
  {
    hide LineLength, Stripped, TrailerLength, Copied;
    ghost var t := rdr.Left();
    ghost var done: nat := 0;
    out := dst;
    CopiedNothing(dst, t);
    while true
      invariant rdr.Valid() && done <= |t|
      invariant Copied(dst, out, t, done, rdr.Left())
      invariant TrailerLength(t) == Later(done, TrailerLength(rdr.Left()))
      decreases |rdr.Left()|
    {
      ghost var left := rdr.Left();
      TrailerStep(left);
      CopiedMore(dst, out, t, done, left, |left|);
      ghost var before := out;
      var line;
      line, out := rdr.ReadLine(out);
      if line.Err? {
        return false, out;
      }
      ghost var n := LineLength(left).value;
      CopiedMore(dst, before, t, done, left, n);
      done := done + n;
      CopiedMeans(dst, out, t, done, rdr.Left());
      if line.value == [] {
        return true, out;
      }
    }
  }

  lemma TrailerStep(t: Bytes)
    ensures LineLength(t).None? ==> TrailerLength(t) == None
    ensures LineLength(t).Some? ==>
              var n := LineLength(t).value;
              && 1 <= n <= |t|
              && TrailerLength(t) == if Stripped(t[..n - 1]) == [] then Some(n)
                                     else Later(n, TrailerLength(t[n..]))
  {
  }

  lemma ShiftedTwice(a: nat, b: nat, r: Result<nat, IoError>)
    ensures Shifted(a, Shifted(b, r)) == Shifted(a + b, r)
  {
  }

  lemma ShiftedByNothing(r: Result<nat, IoError>)
    ensures Shifted(0, r) == r
  {
  }

  /** The rest of a turn whose size line was n bytes long. */
  method RelaySized(rdr: PrefixedReader, dst: Bytes, size: Option<nat>, ghost n: nat)
    returns (last: Result<bool, IoError>, out: Bytes)
    requires rdr.Valid()
    modifies rdr, rdr.src
    ensures rdr.Valid()
    ensures last == Outcome(SizedTurn(n, size, old(rdr.Left())))
    ensures last.Ok? ==> var taken := SizedTurn(n, size, old(rdr.Left())).n - n;
                         out == dst + old(rdr.Left())[..taken] && rdr.Left() == old(rdr.Left())[taken..]
    ensures last.Err? ==> out == dst || out == dst + old(rdr.Left())
  {
    hide TrailerLength;
    var ok;
    if size.None? {
      last, out := Err(InvalidData), dst;
    } else if size.value == 0 {
      ok, out := RelayTrailers(rdr, dst);
      last := if ok then Ok(true) else Err(UnexpectedEof);
    } else {
      ok, out := rdr.CopyExact(dst, (size.value + 2) % TWO_64);
      last := if ok then Ok(false) else Err(UnexpectedEof);
    }
  }

  /** Whether a turn was the last one. */
  function Outcome(turn: Turn): Result<bool, IoError> {
    match turn
    case Bad(e) => Err(e)
    case Last(_) => Ok(true)
    case More(_) => Ok(false)
  }

  /** Nothing but what the stream holds next has been copied, in order. */
  ghost predicate Between(dst: Bytes, out: Bytes, t: Bytes) {
    dst <= out <= dst + t
  }

  lemma CopiedPart(dst: Bytes, t: Bytes, n: nat)
    requires n <= |t|
    ensures Between(dst, dst + t[..n], t)
    ensures n == |t| ==> dst + t[..n] == dst + t
  {
    assert dst + t == dst + t[..n] + t[n..];
  }

  /** Copying n bytes and then more of what is left. */
  lemma CopiedTwice(dst: Bytes, t: Bytes, n: nat, taken: nat)
    requires n + taken <= |t|
    ensures dst + t[..n] + t[n..][..taken] == dst + t[..n + taken] && t[n..][taken..] == t[n + taken..]
    ensures dst + t[..n] + t[n..] == dst + t
  {
    assert t[..n] + t[n..][..taken] == t[..n + taken];
    assert t[..n] + t[n..] == t;
  }

  /** Reads and copies one chunk, or the closing one. */
  method RelayTurn(rdr: PrefixedReader, dst: Bytes) returns (last: Result<bool, IoError>, out: Bytes, ghost turn: Turn)
    requires rdr.Valid()
    modifies rdr, rdr.src
    ensures rdr.Valid() && turn == NextTurn(old(rdr.Left())) && last == Outcome(turn)
    ensures !turn.Bad? ==> out == dst + old(rdr.Left())[..turn.n] && rdr.Left() == old(rdr.Left())[turn.n..]
    ensures Between(dst, out, old(rdr.Left()))
  {
    hide LineLength, Stripped, ChunkSize, TrailerLength, SizedTurn, Between;
    ghost var t := rdr.Left();
    turn := NextTurn(t);
    CopiedPart(dst, t, |t|);
    var line;
    line, out := rdr.ReadLine(dst);
    if line.Err? {
      return Err(line.error), out, turn;
    }
    ghost var n := LineLength(t).value;
    CopiedPart(dst, t, n);
    if !turn.Bad? {
      CopiedPart(dst, t, turn.n);
    }
    CopiedTwice(dst, t, n, if turn.Bad? then 0 else turn.n - n);
    last, out := RelaySized(rdr, out, ChunkSize(line.value), n);
  }

  /** Relays a chunked body byte for byte, size lines and trailers included; `out` never holds anything but what the
      stream held, in order. */
  method RelayChunked(src: Source, dst: Bytes, prefix: Bytes) returns (r: Result<Bytes, IoError>, out: Bytes)
    modifies src
    ensures var all := prefix + old(src.rest);
            match BodyLength(all)
            case Ok(n) => r.Ok? && out == dst + all[..n] && r.value + src.rest == all[n..]
            case Err(e) => r == Err(e)
    ensures dst <= out <= dst + (prefix + old(src.rest))
  {
    hide NextTurn, Copied, Shifted;
    ghost var all := prefix + src.rest;
    var rdr := new PrefixedReader(src, prefix);
    out := dst;
    ghost var done: nat := 0;
    CopiedNothing(dst, all);
    ShiftedByNothing(BodyLength(all));
    while true
      invariant rdr.Valid() && rdr.src == src && rdr.prefix == prefix && fresh(rdr)
      invariant done <= |all| && Copied(dst, out, all, done, rdr.Left())
      invariant BodyLength(all) == Shifted(done, BodyLength(rdr.Left()))
      decreases |rdr.Left()|
    {
      ghost var t, before := rdr.Left(), out;
      CopiedMeans(dst, out, all, done, t);
      CopiedMore(dst, out, all, done, t, |t|);
      var last;
      ghost var turn;
      last, out, turn := RelayTurn(rdr, out);
      if last.Err? {
        return Err(last.error), out;
      }
      CopiedMore(dst, before, all, done, t, turn.n);
      CopiedMeans(dst, out, all, done + turn.n, rdr.Left());
      if last.value {
        return Ok(prefix[rdr.pos..]), out;
      }
      ShiftedTwice(done, turn.n, BodyLength(rdr.Left()));
      done := done + turn.n;
    }
  }
}
