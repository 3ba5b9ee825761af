/** The chunked transfer coding (section 7.1 of RFC 9112) and the size line as the decoders read it. */
module ChunkSyntax {
  import opened MachineInts
  import opened Wrappers
  import opened Utf8

  const CR: byte := 13
  const LF: byte := 10
  const SEMICOLON: byte := 59
  const CRLF: Bytes := [CR, LF]

  /** The part of a line before its first semicolon: `split(';').next()`. */
  function BeforeSemicolon<T(==)>(line: seq<T>, semicolon: T): (p: seq<T>)
    ensures |p| <= |line| && p == line[..|p|] && semicolon !in p
    ensures p == line || line[|p|] == semicolon
  {
    if line == [] || line[0] == semicolon then []
    else [line[0]] + BeforeSemicolon(line[1..], semicolon)
  }

  /** The size the streaming decoders read off a line: bytes up to a semicolon, as trimmed hexadecimal text. */
  function ChunkSize(line: Bytes): Option<nat> {
    match Decode(BeforeSemicolon(line, SEMICOLON))
    case Some(cs) => FromHex(Trim(cs))
    case None => None
  }

  // ---------------------------------------------------------------- well-formed bodies

  predicate IsHex(s: Bytes) {
    s != [] && forall i :: 0 <= i < |s| ==> HexDigit(s[i]).Some?
  }

  /** What may follow the size digits on a size line: blanks, then nothing or a semicolon and an extension. */
  datatype Extension = Extension(blanks: Bytes, text: Bytes) {
    predicate Valid() {
      && (forall i :: 0 <= i < |blanks| ==> blanks[i] == 32 || blanks[i] == 9)
      && (text == [] || text[0] == SEMICOLON)
      && CR !in text && LF !in text
    }

    function Text(): Bytes {
      blanks + text
    }
  }

  datatype Chunk = Chunk(size: Bytes, ext: Extension, data: Bytes) {
    predicate Valid() {
      IsHex(size) && ext.Valid() && data != [] && HexValue(Widen(size)) == Some(|data|) && |data| < TWO_64
    }

    function Line(): Bytes {
      size + ext.Text()
    }
  }

  predicate AllValid(cs: seq<Chunk>) {
    forall i :: 0 <= i < |cs| ==> cs[i].Valid()
  }

  /** The chunks of a body on the wire. */
  function Wire(cs: seq<Chunk>): Bytes {
    if cs == [] then [] else cs[0].Line() + CRLF + cs[0].data + CRLF + Wire(cs[1..])
  }

  function Data(cs: seq<Chunk>): Bytes {
    if cs == [] then [] else cs[0].data + Data(cs[1..])
  }

  /** The closing chunk: a size of zero. */
  datatype LastChunk = LastChunk(size: Bytes, ext: Extension) {
    predicate Valid() {
      IsHex(size) && ext.Valid() && HexValue(Widen(size)) == Some(0)
    }

    function Line(): Bytes {
      size + ext.Text()
    }
  }

  predicate NoLineEnd(s: Bytes) {
    CR !in s && LF !in s
  }

  lemma LineHasNoEnd(size: Bytes, ext: Extension)
    requires IsHex(size) && ext.Valid()
    ensures NoLineEnd(size + ext.Text())
  {
    forall i | 0 <= i < |size| ensures size[i] != CR && size[i] != LF {
      assert HexDigit(size[i]).Some?;
    }
  }

  lemma {:induction false} SemicolonSplit(a: Bytes, b: Bytes)
    requires SEMICOLON !in a && (b == [] || b[0] == SEMICOLON)
    ensures BeforeSemicolon(a + b, SEMICOLON) == a
  {
    if a == [] {
      assert a + b == b;
    } else {
      assert (a + b)[1..] == a[1..] + b;
      SemicolonSplit(a[1..], b);
    }
  }

  lemma {:induction false} TrimBlanks(cs: seq<nat>, blanks: seq<nat>)
    requires cs != [] && !IsWhitespace(cs[0]) && !IsWhitespace(cs[|cs| - 1])
    requires forall i :: 0 <= i < |blanks| ==> IsWhitespace(blanks[i])
    ensures Trim(cs + blanks) == cs
  {
    assert TrimStart(cs + blanks) == cs + blanks;
    TrimEndBlanks(cs, blanks);
  }

  lemma {:induction false} TrimEndBlanks(cs: seq<nat>, blanks: seq<nat>)
    requires cs != [] && !IsWhitespace(cs[|cs| - 1])
    requires forall i :: 0 <= i < |blanks| ==> IsWhitespace(blanks[i])
    ensures TrimEnd(cs + blanks) == cs
    decreases |blanks|
  {
    if blanks == [] {
      assert cs + blanks == cs;
    } else {
      var n := |blanks| - 1;
      assert (cs + blanks)[..|cs + blanks| - 1] == cs + blanks[..n];
      TrimEndBlanks(cs, blanks[..n]);
    }
  }

  /** Every well-formed size line is read as the size it denotes, or refused if that is 2^64 or more. */
  lemma SizeIsRead(size: Bytes, ext: Extension)
    requires IsHex(size) && ext.Valid() && HexValue(Widen(size)).Some?
    ensures ChunkSize(size + ext.Text()) ==
            if HexValue(Widen(size)).value < 0x1_0000_0000_0000_0000 then HexValue(Widen(size)) else None
  {
    hide Decode, Trim, HexValue, BeforeSemicolon, IsHex, HexDigit;
    var digits := size + ext.blanks;
    HexIsPlain(size);
    assert size + ext.Text() == digits + ext.text;
    SemicolonSplit(digits, ext.text);
    DecodeAscii(digits);
    assert Widen(digits) == Widen(size) + Widen(ext.blanks);
    TrimBlanks(Widen(size), Widen(ext.blanks));
  }

  lemma HexIsPlain(size: Bytes)
    requires IsHex(size)
    ensures size != [] && Ascii(size) && SEMICOLON !in size
    ensures !IsWhitespace(size[0]) && !IsWhitespace(size[|size| - 1]) && size[0] != 43
  {
    forall i | 0 <= i < |size|
      ensures size[i] < 128 && size[i] != SEMICOLON && !IsWhitespace(size[i]) && size[i] != 43
    {
      assert HexDigit(size[i]).Some?;
    }
  }

  /** A size line in full: any number in hexadecimal digits of either case, blanks and an extension. */
  lemma NumberIsRead(n: nat, upper: nat -> bool, len: nat, digits: Bytes, ext: Extension)
    requires len > 0 && n < Pow16(len) && ext.Valid() && Widen(digits) == HexText(n, upper, len)
    ensures ChunkSize(digits + ext.Text()) == if n < 0x1_0000_0000_0000_0000 then Some(n) else None
  {
    hide HexDigit, HexValue;
    HexTextIsRead(n, upper, len);
    ValuedIsHex(digits);
    SizeIsRead(digits, ext);
  }

  lemma {:induction false} ValuedIsHex(digits: Bytes)
    requires digits != [] && HexValue(Widen(digits)).Some?
    ensures IsHex(digits)
    decreases |digits|
  {
    var init := digits[..|digits| - 1];
    assert Widen(digits)[..|digits| - 1] == Widen(init);
    if init != [] {
      ValuedIsHex(init);
    }
  }

  /** What is not a number between blanks is refused. */
  lemma OnlyNumbersAreRead(line: Bytes) returns (cs: seq<nat>, pre: seq<nat>, post: seq<nat>)
    requires ChunkSize(line).Some?
    ensures Decode(BeforeSemicolon(line, SEMICOLON)) == Some(pre + cs + post) && AllBlank(pre) && AllBlank(post)
    ensures HexValue(if |cs| > 1 && cs[0] == 43 then cs[1..] else cs) == ChunkSize(line) && cs != []
    ensures ChunkSize(line).value < 0x1_0000_0000_0000_0000
  {
    hide HexValue, HexDigit, Trim;
    var all := Decode(BeforeSemicolon(line, SEMICOLON)).value;
    cs := Trim(all);
    pre, post := TrimExactly(all);
  }
}
