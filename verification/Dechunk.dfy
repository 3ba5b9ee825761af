/** The one-shot chunk decoder (clash.rs, `dechunk`) against the streaming one: they agree on a well-formed body
    exactly when every chunk's size line is UTF-8, because only this one validates the whole line. */
module Dechunk {
  import opened MachineInts
  import opened Wrappers
  import opened Utf8
  import opened ChunkSyntax
  import opened ChunkDecoder

  /** The size this decoder reads off a line; anything unreadable counts as 0 and ends the body. */
  function LineSize(line: Bytes): nat {
    var cs := match Decode(line) case Some(cs) => cs case None => [];
    match FromHex(Trim(BeforeSemicolon<nat>(cs, SEMICOLON)))
    case Some(n) => n
    case None => 0
  }

  /** What is appended from offset i on; `None` when an end offset leaves 64 bits. */
  function From(data: Bytes, i: nat): Option<Bytes>
    decreases |data| - i
  {
    if i >= |data| then Some([])
    else match FindCrlf(data[i..])
      case None => Some([])
      case Some(rel) =>
        var size, start := LineSize(data[i..i + rel]), i + rel + 2;
        if size == 0 then Some([])
        else if start + size >= TWO_64 then None
        else if start + size > |data| then Some([])
        else Prefixed(data[start..start + size], From(data, start + size + 2))
  }

  method Dechunk(data: Bytes) returns (r: Option<Bytes>)
    ensures r == From(data, 0)
  {
    hide LineSize, FindCrlf, Prefixed;
    var out: Bytes := [];
    var i: nat := 0;
    PrefixedTwice([], [], From(data, 0));
    while i < |data|
      invariant From(data, 0) == Prefixed(out, From(data, i))
      decreases |data| - i
    {
      PrefixedTwice(out, [], None);
      var found := FindCrlf(data[i..]);
      if found.None? {
        break;
      }
      var nl := i + found.value;
      var size := LineSize(data[i..nl]);
      ghost var soFar := out;
      i := nl + 2;
      if size == 0 {
        return Some(out);
      }
      if i + size >= TWO_64 {
        return None;
      }
      if i + size > |data| {
        return Some(out);
      }
      out := out + data[i..i + size];
      i := i + size + 2;
      PrefixedTwice(soFar, data[nl + 2..nl + 2 + size], From(data, i));
    }
    PrefixedTwice(out, [], None);
    return Some(out);
  }

  predicate Utf8Line(c: Chunk) {
    Decode(c.Line()).Some?
  }

  /** The chunks before the first whose size line is not UTF-8. */
  function Readable(cs: seq<Chunk>): seq<Chunk> {
    if cs == [] || !Utf8Line(cs[0]) then [] else [cs[0]] + Readable(cs[1..])
  }

  /** On a well-formed size line the two readings coincide when the line is UTF-8. */
  lemma SizesAgree(size: Bytes, ext: Extension)
    requires IsHex(size) && ext.Valid() && HexValue(Widen(size)).Some? && HexValue(Widen(size)).value < TWO_64
    ensures LineSize(size + ext.Text()) ==
            if Decode(size + ext.Text()).Some? then HexValue(Widen(size)).value else 0
  {
    hide Decode, Trim, FromHex, HexValue, IsHex;
    var line, digits := size + ext.Text(), size + ext.blanks;
    HexIsPlain(size);
    SizeIsRead(size, ext);
    assert line == digits + ext.text;
    DecodeAscii(digits);
    SemicolonSplit(digits, ext.text);
    DecodeConcat(digits, ext.text);
    if Decode(line).Some? {
      TextDecodes(ext.text);
      WideSplit(Widen(digits), Decode(ext.text).value);
    } else {
      NothingToRead();
    }
  }

  lemma NothingToRead()
    ensures FromHex(Trim(BeforeSemicolon<nat>([], SEMICOLON))) == None
  {
  }

  lemma TextDecodes(text: Bytes)
    requires Decode(text).Some? && (text == [] || text[0] == SEMICOLON)
    ensures var cs := Decode(text).value; cs == [] || cs[0] == SEMICOLON
  {
  }

  lemma {:induction false} WideSplit(a: seq<nat>, b: seq<nat>)
    requires SEMICOLON !in a && (b == [] || b[0] == SEMICOLON)
    ensures BeforeSemicolon<nat>(a + b, SEMICOLON) == a
  {
    if a == [] {
      assert a + b == b;
    } else {
      assert (a + b)[1..] == a[1..] + b;
      WideSplit(a[1..], b);
    }
  }

  lemma LineAt(data: Bytes, i: nat, line: Bytes, rest: Bytes)
    requires i <= |data| && NoLineEnd(line) && data[i..] == line + CRLF + rest
    ensures FindCrlf(data[i..]) == Some(|line|) && i + |line| + 2 <= |data|
    ensures data[i..i + |line|] == line && data[i + |line| + 2..] == rest
  {
    LineEnd(line, rest);
    assert data[i..][..|line|] == data[i..i + |line|];
    assert data[i..][|line| + 2..] == data[i + |line| + 2..];
  }

  lemma DataAt(data: Bytes, i: nat, chunk: Bytes, rest: Bytes)
    requires i <= |data| && data[i..] == chunk + CRLF + rest
    ensures i + |chunk| + 2 <= |data|
    ensures data[i..i + |chunk|] == chunk && data[i + |chunk| + 2..] == rest
  {
    assert data[i..][..|chunk|] == data[i..i + |chunk|];
    assert data[i..][|chunk| + 2..] == data[i + |chunk| + 2..];
  }

  /** One turn of the loop at a size line. */
  lemma FromLine(data: Bytes, i: nat, line: Bytes, rest: Bytes)
    requires i <= |data| < TWO_64 && NoLineEnd(line) && data[i..] == line + CRLF + rest
    ensures var start, size := i + |line| + 2, LineSize(line);
            start <= |data| &&
            From(data, i) ==
            if size == 0 || (start + size > |data| && start + size < TWO_64) then Some([])
            else if start + size >= TWO_64 then None
            else Prefixed(data[start..start + size], From(data, start + size + 2))
  {
    hide LineSize, FindCrlf;
    LineAt(data, i, line, rest);
  }

  /** One turn of the loop at a whole chunk. */
  lemma FromChunk(data: Bytes, i: nat, c: Chunk, after: Bytes)
    requires i <= |data| < TWO_64 && c.Valid()
    requires data[i..] == c.Line() + CRLF + c.data + CRLF + after
    ensures var next := i + |c.Line()| + 2 + |c.data| + 2;
            && next <= |data| && data[next..] == after
            && From(data, i) == if Utf8Line(c) then Prefixed(c.data, From(data, next)) else Some([])
  {
    hide LineSize, From, Decode, IsHex, HexValue, NoLineEnd, Extension.Text, Extension.Valid, FindCrlf;
    var tail := c.data + CRLF + after;
    assert c.Line() + CRLF + c.data + CRLF + after == c.Line() + CRLF + tail;
    LineHasNoEnd(c.size, c.ext);
    FromLine(data, i, c.Line(), tail);
    LineAt(data, i, c.Line(), tail);
    SizesAgree(c.size, c.ext);
    DataAt(data, i + |c.Line()| + 2, c.data, after);
  }

  lemma {:induction false} BodyFrom(data: Bytes, i: nat, cs: seq<Chunk>, last: LastChunk, rest: Bytes)
    requires |data| < TWO_64 && i <= |data|
    requires AllValid(cs) && last.Valid() && data[i..] == Wire(cs) + (last.Line() + CRLF + rest)
    ensures From(data, i) == Some(Data(Readable(cs)))
    decreases |cs|
  {
    hide LineSize, From, Decode, IsHex, HexValue, NoLineEnd, Extension.Text, Extension.Valid, Utf8Line,
      Chunk.Valid, Chunk.Line;
    var end := last.Line() + CRLF + rest;
    if cs == [] {
      assert [] + end == end;
      LineHasNoEnd(last.size, last.ext);
      FromLine(data, i, last.Line(), rest);
      SizesAgree(last.size, last.ext);
    } else {
      var c, after := cs[0], Wire(cs[1..]) + end;
      ChunkDecoder.WireFront(cs, end);
      FromChunk(data, i, c, after);
      if Utf8Line(c) {
        BodyFrom(data, i + |c.Line()| + 2 + |c.data| + 2, cs[1..], last, rest);
      }
    }
  }

  lemma {:induction false} ReadableAll(cs: seq<Chunk>)
    requires AllValid(cs)
    ensures |Data(Readable(cs))| <= |Data(cs)|
    ensures Data(Readable(cs)) == Data(cs) <==> forall i :: 0 <= i < |cs| ==> Utf8Line(cs[i])
    decreases |cs|
  {
    if cs != [] {
      ReadableAll(cs[1..]);
      if Utf8Line(cs[0]) {
        assert Readable(cs)[1..] == Readable(cs[1..]);
        assert forall i :: 1 <= i < |cs| ==> cs[i] == cs[1..][i - 1];
        if Data(Readable(cs)) == Data(cs) {
          assert Data(Readable(cs))[|cs[0].data|..] == Data(Readable(cs[1..]));
          assert Data(cs)[|cs[0].data|..] == Data(cs[1..]);
        }
      } else {
        assert cs[0].Valid();
      }
    }
  }

  /** Exactly when the one-shot decoder returns what the streaming decoder returns on a well-formed body: when every
      data chunk's size line is UTF-8. Otherwise it returns the data before the first line that is not. */
  lemma DecodersAgreeExactly(cs: seq<Chunk>, last: LastChunk, rest: Bytes)
    requires AllValid(cs) && last.Valid()
    requires |Wire(cs) + (last.Line() + CRLF + rest)| < TWO_64
    ensures var body := Wire(cs) + (last.Line() + CRLF + rest);
            && From(body, 0) == Some(Data(Readable(cs)))
            && (From(body, 0) == Some(AfterFeed(FRESH, body).out) <==>
                forall i :: 0 <= i < |cs| ==> Utf8Line(cs[i]))
  {
    var body := Wire(cs) + (last.Line() + CRLF + rest);
    assert body[0..] == body;
    BodyFrom(body, 0, cs, last, rest);
    DriveBody(cs, last, rest);
    ReadableAll(cs);
  }

  lemma OneDigit(c: byte, d: nat)
    requires HexDigit(c) == Some(d)
    ensures IsHex([c]) && HexValue(Widen([c])) == Some(d)
  {
    var w := Widen([c]);
    assert w[..0] == [] && HexValue([]) == Some(0);
  }

  /** ASCII bytes in front do not make a bad byte decode. */
  lemma BadTail(a: Bytes, b: Bytes)
    requires Ascii(a) && Decode(b) == None
    ensures Decode(a + b) == None
  {
    DecodeAscii(a);
    DecodeConcat(a, b);
  }

  /** A body on which they differ: one chunk of a single A whose extension holds the byte FF. The streaming decoder
      gives the A, this one nothing. */
  lemma NonUtf8ExtensionDiffers()
    ensures var c := Chunk([49], Extension([], [SEMICOLON, 0xFF]), [65]);
            var body := Wire([c]) + (LastChunk([48], Extension([], [])).Line() + CRLF + CRLF);
            && c.Valid() && body == [49, 59, 0xFF, 13, 10, 65, 13, 10, 48, 13, 10, 13, 10]
            && AfterFeed(FRESH, body).out == [65]
            && From(body, 0) == Some([])
  {
    hide Decode, HexValue, IsHex, AfterFeed, From;
    var c := Chunk([49], Extension([], [SEMICOLON, 0xFF]), [65]);
    var last := LastChunk([48], Extension([], []));
    OneDigit(49, 1);
    OneDigit(48, 0);
    hide Utf8Line;
    BadExtension(c);
    OneChunk(c);
    FirstLineStops(c, last, CRLF);
  }

  lemma OneChunk(c: Chunk)
    ensures Wire([c]) == c.Line() + CRLF + c.data + CRLF && Data([c]) == c.data
  {
    assert [c][1..] == [];
  }

  /** A single chunk whose line is not UTF-8 is all the streaming decoder gives, and none of it given here. */
  lemma FirstLineStops(c: Chunk, last: LastChunk, rest: Bytes)
    requires c.Valid() && last.Valid() && !Utf8Line(c)
    requires |Wire([c]) + (last.Line() + CRLF + rest)| < TWO_64
    ensures var body := Wire([c]) + (last.Line() + CRLF + rest);
            AfterFeed(FRESH, body).out == c.data && From(body, 0) == Some([])
  {
    hide Decode, HexValue, IsHex, Drive, Dec.With, From, Utf8Line, Chunk.Valid, LastChunk.Valid, Chunk.Line,
      LastChunk.Line;
    OneChunk(c);
    DecodersAgreeExactly([c], last, rest);
    DriveBody([c], last, rest);
  }

  lemma BadExtension(c: Chunk)
    requires c.size == [49] && c.ext == Extension([], [SEMICOLON, 0xFF])
    ensures !Utf8Line(c)
  {
    hide Decode;
    assert c.Line() == [49, SEMICOLON] + [0xFF];
    assert Decode([0xFF]) == None by { LoneByte(); }
    BadTail([49, SEMICOLON], [0xFF]);
  }

  lemma LoneByte()
    ensures Decode([0xFF]) == None
  {
  }
}
