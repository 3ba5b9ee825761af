/** `str::from_utf8`, Unicode white space, and `uN::from_str_radix(_, 16)` for 64-bit unsigned sizes. */
module Utf8 {
  import opened MachineInts
  import opened Wrappers

  predicate Continuation(b: byte) {
    0x80 <= b < 0xC0
  }

  /** Length of the well-formed sequence at the front (table 3-7 of the Unicode standard), 0 if there is none. */
  function SequenceLength(s: Bytes): (n: nat)
    ensures n <= |s| && n <= 4
    ensures s != [] && s[0] < 128 ==> n == 1
  {
    if s == [] then 0
    else if s[0] < 0x80 then 1
    else if 0xC2 <= s[0] < 0xE0 then
      if |s| >= 2 && Continuation(s[1]) then 2 else 0
    else if 0xE0 <= s[0] < 0xF0 then
      if |s| >= 3 && Continuation(s[1]) && Continuation(s[2])
         && (s[0] == 0xE0 ==> s[1] >= 0xA0) && (s[0] == 0xED ==> s[1] < 0xA0) then 3 else 0
    else if 0xF0 <= s[0] < 0xF5 then
      if |s| >= 4 && Continuation(s[1]) && Continuation(s[2]) && Continuation(s[3])
         && (s[0] == 0xF0 ==> s[1] >= 0x90) && (s[0] == 0xF4 ==> s[1] < 0x90) then 4 else 0
    else 0
  }

  function CodePoint(s: Bytes): nat
    requires s != []
  {
    var a: int := s[0];
    var n := SequenceLength(s);
    if n == 2 then (a - 0xC0) * 64 + Low6(s[1])
    else if n == 3 then (a - 0xE0) * 4096 + Low6(s[1]) * 64 + Low6(s[2])
    else if n == 4 then (a - 0xF0) * 262144 + Low6(s[1]) * 4096 + Low6(s[2]) * 64 + Low6(s[3])
    else a
  }

  function Low6(b: byte): nat {
    b % 64
  }

  /** The characters of a well-formed string. */
  function Decode(s: Bytes): Option<seq<nat>> {
    if s == [] then Some([])
    else
      var n := SequenceLength(s);
      if n == 0 then None
      else match Decode(s[n..])
        case None => None
        case Some(cs) => Some([CodePoint(s)] + cs)
  }

  /** `char::is_whitespace` */
  predicate IsWhitespace(c: nat) {
    || 9 <= c <= 13 || c == 32 || c == 0x85 || c == 0xA0 || c == 0x1680 || 0x2000 <= c <= 0x200A
    || c == 0x2028 || c == 0x2029 || c == 0x202F || c == 0x205F || c == 0x3000
  }

  function TrimStart(cs: seq<nat>): seq<nat> {
    if cs != [] && IsWhitespace(cs[0]) then TrimStart(cs[1..]) else cs
  }

  function TrimEnd(cs: seq<nat>): seq<nat> {
    if cs != [] && IsWhitespace(cs[|cs| - 1]) then TrimEnd(cs[..|cs| - 1]) else cs
  }

  function Trim(cs: seq<nat>): seq<nat> {
    TrimEnd(TrimStart(cs))
  }

  function HexDigit(c: nat): (d: Option<nat>)
    ensures d.Some? ==> d.value < 16
  {
    if 48 <= c <= 57 then Some(c - 48)
    else if 65 <= c <= 70 then Some(c - 55)
    else if 97 <= c <= 102 then Some(c - 87)
    else None
  }

  function HexValue(cs: seq<nat>): Option<nat> {
    if cs == [] then Some(0)
    else match (HexValue(cs[..|cs| - 1]), HexDigit(cs[|cs| - 1]))
      case (Some(v), Some(d)) => Some(v * 16 + d)
      case _ => None
  }

  /** `u64::from_str_radix(_, 16)`: an optional plus sign, at least one digit, no overflow. */
  function FromHex(cs: seq<nat>): Option<nat> {
    var digits := if |cs| > 1 && cs[0] == 43 then cs[1..] else cs;
    if digits == [] then None
    else match HexValue(digits)
      case Some(v) => if v < TWO_64 then Some(v) else None
      case None => None
  }

  function Widen(s: Bytes): (cs: seq<nat>)
    ensures |cs| == |s| && forall i :: 0 <= i < |s| ==> cs[i] == s[i]
  {
    seq(|s|, i requires 0 <= i < |s| => s[i])
  }

  lemma {:induction false} DecodeAscii(s: Bytes)
    requires Ascii(s)
    ensures Decode(s) == Some(Widen(s))
  {
    if s != [] {
      assert s[0] < 128;
      DecodeAscii(s[1..]);
      assert Widen(s) == [CodePoint(s)] + Widen(s[1..]);
    }
  }

  lemma FirstCharacter(a: Bytes, b: Bytes)
    requires a != [] && SequenceLength(a) > 0
    ensures SequenceLength(a + b) == SequenceLength(a) && CodePoint(a + b) == CodePoint(a)
  {
  }

  lemma DecodeFront(s: Bytes)
    requires s != []
    ensures var n := SequenceLength(s);
            Decode(s) == if n == 0 then None
                         else match Decode(s[n..]) case None => None case Some(cs) => Some([CodePoint(s)] + cs)
  {
    hide SequenceLength, CodePoint;
  }

  lemma DecodeNothing()
    ensures Decode([]) == Some([])
  {
  }

  lemma Prepend3(c: nat, a: seq<nat>, b: seq<nat>)
    ensures [c] + (a + b) == [c] + a + b
  {
  }

  /** Decoding stops and resumes at any point behind whole characters. */
  lemma {:induction false} DecodeConcat(a: Bytes, b: Bytes)
    requires Decode(a).Some?
    ensures Decode(a + b) == match Decode(b) case Some(cs) => Some(Decode(a).value + cs) case None => None
    decreases |a|
  {
    hide SequenceLength, CodePoint, Decode;
    if a == [] {
      assert a + b == b;
      DecodeNothing();
      if Decode(b).Some? {
        assert [] + Decode(b).value == Decode(b).value;
      }
    } else {
      var n := SequenceLength(a);
      DecodeFront(a);
      FirstCharacter(a, b);
      DecodeFront(a + b);
      assert (a + b)[n..] == a[n..] + b;
      DecodeConcat(a[n..], b);
      if Decode(b).Some? {
        Prepend3(CodePoint(a), Decode(a[n..]).value, Decode(b).value);
      }
    }
  }

  // ---------------------------------------------------------------- against the encoding

  /** A Unicode scalar value: a code point that is no surrogate. */
  predicate Scalar(c: nat) {
    c < 0xD800 || 0xE000 <= c < 0x11_0000
  }

  /** The encoding of one character (section 3 of RFC 3629). */
  function Encoded(c: nat): (s: Bytes)
    requires Scalar(c)
    ensures s != []
  {
    if c < 0x80 then [c]
    else if c < 0x800 then [0xC0 + c / 64, 0x80 + c % 64]
    else if c < 0x1_0000 then [0xE0 + c / 64 / 64, 0x80 + c / 64 % 64, 0x80 + c % 64]
    else [0xF0 + c / 64 / 64 / 64, 0x80 + c / 64 / 64 % 64, 0x80 + c / 64 % 64, 0x80 + c % 64]
  }

  predicate Scalars(cs: seq<nat>) {
    forall i :: 0 <= i < |cs| ==> Scalar(cs[i])
  }

  function EncodedAll(cs: seq<nat>): Bytes
    requires Scalars(cs)
  {
    if cs == [] then [] else Encoded(cs[0]) + EncodedAll(cs[1..])
  }

  lemma Low6Of(b: byte, x: nat)
    requires x < 64 && b == 0x80 + x
    ensures Low6(b) == x && Continuation(b)
  {
  }

  lemma CharacterDecodes(c: nat, rest: Bytes)
    requires Scalar(c)
    ensures SequenceLength(Encoded(c) + rest) == |Encoded(c)| && CodePoint(Encoded(c) + rest) == c
    ensures (Encoded(c) + rest)[|Encoded(c)|..] == rest
  {
    hide Low6;
    var e := Encoded(c);
    var s := e + rest;
    if c >= 0x80 {
      Low6Of(e[|e| - 1], c % 64);
      assert s[0] == e[0] && s[1] == e[1];
      if c >= 0x800 {
        Low6Of(e[|e| - 2], c / 64 % 64);
        assert s[2] == e[2];
        if c >= 0x1_0000 {
          Low6Of(e[1], c / 64 / 64 % 64);
          assert s[3] == e[3];
        }
      }
    }
  }

  lemma Sextets(c: nat, hi: nat, b: byte)
    requires Continuation(b) && c == hi * 64 + Low6(b)
    ensures c / 64 == hi && 0x80 + c % 64 == b
  {
    DivUnique(c, hi, 64, Low6(b));
  }

  lemma CharacterEncodes(s: Bytes)
    requires s != [] && SequenceLength(s) > 0
    ensures Scalar(CodePoint(s)) && Encoded(CodePoint(s)) == s[..SequenceLength(s)]
  {
    hide Low6, Continuation;
    var c, n, a := CodePoint(s), SequenceLength(s), s[0] as int;
    if n == 2 {
      Sextets(c, a - 0xC0, s[1]);
    } else if n == 3 {
      Sextets(c, (a - 0xE0) * 64 + Low6(s[1]), s[2]);
      Sextets(c / 64, a - 0xE0, s[1]);
      Bounds3(s);
    } else if n == 4 {
      Sextets(c, ((a - 0xF0) * 64 + Low6(s[1])) * 64 + Low6(s[2]), s[3]);
      Sextets(c / 64, (a - 0xF0) * 64 + Low6(s[1]), s[2]);
      Sextets(c / 64 / 64, a - 0xF0, s[1]);
      Bounds4(s);
    }
  }

  lemma Bounds3(s: Bytes)
    requires SequenceLength(s) == 3
    ensures 0x800 <= CodePoint(s) < 0x1_0000 && Scalar(CodePoint(s))
  {
  }

  lemma Bounds4(s: Bytes)
    requires SequenceLength(s) == 4
    ensures 0x1_0000 <= CodePoint(s) < 0x11_0000
  {
  }

  /** Every text decodes from its encoding. */
  lemma {:induction false} TextDecodes(cs: seq<nat>)
    requires Scalars(cs)
    ensures Decode(EncodedAll(cs)) == Some(cs)
    decreases |cs|
  {
    hide Encoded, SequenceLength, CodePoint, Scalar;
    if cs != [] {
      CharacterDecodes(cs[0], EncodedAll(cs[1..]));
      TextDecodes(cs[1..]);
      DecodeFront(EncodedAll(cs));
      assert [cs[0]] + cs[1..] == cs;
    }
  }

  /** And whatever decodes is the encoding of what it decodes to. */
  lemma {:induction false} DecodedIsText(s: Bytes)
    requires Decode(s).Some?
    ensures Scalars(Decode(s).value) && EncodedAll(Decode(s).value) == s
    decreases |s|
  {
    hide Encoded, SequenceLength, CodePoint, Scalar;
    if s != [] {
      CharacterEncodes(s);
      DecodedIsText(s[SequenceLength(s)..]);
      assert s == s[..SequenceLength(s)] + s[SequenceLength(s)..];
      assert Decode(s).value[1..] == Decode(s[SequenceLength(s)..]).value;
    }
  }

  /** Some text is encoded as these bytes. */
  ghost predicate IsText(s: Bytes) {
    exists cs :: Scalars(cs) && EncodedAll(cs) == s
  }

  lemma DecodesExactly(s: Bytes)
    ensures Decode(s).Some? <==> IsText(s)
  {
    if Decode(s).Some? {
      DecodedIsText(s);
    }
    if IsText(s) {
      var cs :| Scalars(cs) && EncodedAll(cs) == s;
      TextDecodes(cs);
    }
  }

  // ---------------------------------------------------------------- numerals and blanks

  /** 0 to 9 and a to f, and 0 to 9 and A to F. */
  const LOWER_DIGITS: seq<nat> := [48, 49, 50, 51, 52, 53, 54, 55, 56, 57, 97, 98, 99, 100, 101, 102]
  const UPPER_DIGITS: seq<nat> := [48, 49, 50, 51, 52, 53, 54, 55, 56, 57, 65, 66, 67, 68, 69, 70]

  /** Sixteen digits, each in either case, and nothing else. */
  lemma HexDigitExactly(c: nat, d: nat)
    ensures HexDigit(c) == Some(d) <==> d < 16 && (c == LOWER_DIGITS[d] || c == UPPER_DIGITS[d])
  {
  }

  /** The digits of a number, most significant first, each in either case. */
  function HexText(n: nat, upper: nat -> bool, len: nat): (cs: seq<nat>)
    ensures |cs| == len
  {
    if len == 0 then []
    else HexText(n / 16, upper, len - 1) + [if upper(len) then UPPER_DIGITS[n % 16] else LOWER_DIGITS[n % 16]]
  }

  function Pow16(k: nat): nat {
    if k == 0 then 1 else 16 * Pow16(k - 1)
  }

  /** Every number reads back from its digits, leading zeros included. */
  lemma {:induction false} HexTextIsRead(n: nat, upper: nat -> bool, len: nat)
    requires n < Pow16(len)
    ensures HexValue(HexText(n, upper, len)) == Some(n)
    decreases len
  {
    hide HexDigit;
    if len > 0 {
      var cs := HexText(n, upper, len);
      HexTextIsRead(n / 16, upper, len - 1);
      HexDigitExactly(cs[len - 1], n % 16);
      assert cs[..len - 1] == HexText(n / 16, upper, len - 1);
    }
  }

  /** The 25 characters with the Unicode property White_Space. */
  lemma WhiteSpaceExactly(c: nat)
    ensures IsWhitespace(c) <==>
            c in {0x9, 0xA, 0xB, 0xC, 0xD, 0x20, 0x85, 0xA0, 0x1680, 0x2000, 0x2001, 0x2002, 0x2003, 0x2004, 0x2005,
                  0x2006, 0x2007, 0x2008, 0x2009, 0x200A, 0x2028, 0x2029, 0x202F, 0x205F, 0x3000}
  {
  }

  predicate AllBlank(cs: seq<nat>) {
    forall i :: 0 <= i < |cs| ==> IsWhitespace(cs[i])
  }

  /** Trimming takes white space off both ends and nothing else, and leaves none there. */
  lemma TrimExactly(cs: seq<nat>) returns (pre: seq<nat>, post: seq<nat>)
    ensures cs == pre + Trim(cs) + post && AllBlank(pre) && AllBlank(post)
    ensures Trim(cs) != [] ==> !IsWhitespace(Trim(cs)[0]) && !IsWhitespace(Trim(cs)[|Trim(cs)| - 1])
  {
    hide IsWhitespace;
    pre := TrimStartTakes(cs);
    post := TrimEndTakes(TrimStart(cs));
    assert cs == pre + (Trim(cs) + post);
    if Trim(cs) != [] {
      assert Trim(cs)[0] == TrimStart(cs)[0];
    }
  }

  lemma {:induction false} TrimStartTakes(cs: seq<nat>) returns (pre: seq<nat>)
    ensures cs == pre + TrimStart(cs) && AllBlank(pre)
    ensures TrimStart(cs) != [] ==> !IsWhitespace(TrimStart(cs)[0])
    decreases |cs|
  {
    hide IsWhitespace, AllBlank;
    if cs != [] && IsWhitespace(cs[0]) {
      var p := TrimStartTakes(cs[1..]);
      pre := [cs[0]] + p;
      BlankCons(cs[0], p);
      assert cs == [cs[0]] + (p + TrimStart(cs[1..]));
    } else {
      pre := [];
      NoBlank();
    }
  }

  lemma {:induction false} TrimEndTakes(cs: seq<nat>) returns (post: seq<nat>)
    ensures cs == TrimEnd(cs) + post && AllBlank(post)
    ensures TrimEnd(cs) != [] ==> !IsWhitespace(TrimEnd(cs)[|TrimEnd(cs)| - 1])
    decreases |cs|
  {
    hide IsWhitespace, AllBlank;
    if cs != [] && IsWhitespace(cs[|cs| - 1]) {
      var init, last := cs[..|cs| - 1], cs[|cs| - 1];
      var p := TrimEndTakes(init);
      post := p + [last];
      BlankSnoc(p, last);
      assert cs == init + [last] == TrimEnd(init) + p + [last];
    } else {
      post := [];
      NoBlank();
    }
  }

  lemma NoBlank()
    ensures AllBlank([])
  {
  }

  lemma BlankCons(c: nat, cs: seq<nat>)
    requires IsWhitespace(c) && AllBlank(cs)
    ensures AllBlank([c] + cs)
  {
  }

  lemma BlankSnoc(cs: seq<nat>, c: nat)
    requires AllBlank(cs) && IsWhitespace(c)
    ensures AllBlank(cs + [c])
  {
  }

  /** A text is read as a number exactly if it is that number's digits, perhaps behind a plus sign, and the number is
      below 2^64. */
  lemma FromHexExactly(cs: seq<nat>, n: nat)
    ensures FromHex(cs) == Some(n) <==>
            n < 0x1_0000_0000_0000_0000 &&
            ((cs != [] && cs != [43] && HexValue(cs) == Some(n))
             || (|cs| > 1 && cs[0] == 43 && HexValue(cs[1..]) == Some(n)))
  {
    hide HexDigit;
    if |cs| > 0 && cs[0] == 43 {
      PlusIsNoDigit(cs);
    }
  }

  lemma {:induction false} PlusIsNoDigit(cs: seq<nat>)
    requires cs != [] && cs[0] == 43
    ensures HexValue(cs) == None
    decreases |cs|
  {
    HexDigitExactly(43, 0);
    if |cs| > 1 {
      PlusIsNoDigit(cs[..|cs| - 1]);
    }
  }
}
