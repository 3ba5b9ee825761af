/** QUIC plaintext frames (quic.rs, `read_varint` and `extract_crypto_frames`; sections 16 and 19 of RFC 9000). */
module QuicFrames {
  import opened MachineInts
  import opened Wrappers
  import opened TlsRecords

  // ---------------------------------------------------------------- variable-length integers

  function LengthOf(prefix: nat): nat
    requires prefix < 4
  {
    if prefix == 0 then 1 else if prefix == 1 then 2 else if prefix == 2 then 4 else 8
  }

  function BigEndian(s: Bytes): nat {
    if s == [] then 0 else BigEndian(s[..|s| - 1]) * 256 + s[|s| - 1]
  }

  /** Value and length of the integer at the front. */
  function Varint(buf: Bytes): (r: Result<(nat, nat), ParseErr>)
    ensures r.Ok? ==> 1 <= r.value.1 <= |buf|
  {
    if buf == [] then Err(Short(1, 0))
    else
      var n := LengthOf(buf[0] / 64);
      if |buf| < n then Err(Short(n, |buf|))
      else Ok((BigEndian([buf[0] % 64] + buf[1..n]), n))
  }

  method ReadVarint(buf: Bytes) returns (r: Result<(nat, nat), ParseErr>)
    ensures r == Varint(buf)
  {
    if buf == [] {
      return Err(Short(1, 0));
    }
    var n := LengthOf(buf[0] / 64);
    if |buf| < n {
      return Err(Short(n, |buf|));
    }
    var v: nat := buf[0] % 64;
    ghost var digits := [buf[0] % 64] + buf[1..n];
    assert digits[..1][..0] == [] && BigEndian(digits[..1]) == v;
    for i := 1 to n
      invariant v == BigEndian(digits[..i])
    {
      assert digits[..i + 1][..i] == digits[..i] && digits[i] == buf[i];
      v := v * 256 + buf[i];
    }
    assert digits[..n] == digits;
    return Ok((v, n));
  }

  function ToBigEndian(n: nat, len: nat): (s: Bytes)
    ensures |s| == len
  {
    if len == 0 then [] else ToBigEndian(n / 256, len - 1) + [n % 256]
  }

  function Pow256(k: nat): (r: nat)
    ensures r > 0
  {
    if k == 0 then 1 else 256 * Pow256(k - 1)
  }

  lemma {:induction false} BigEndianRoundTrip(n: nat, len: nat)
    requires n < Pow256(len)
    ensures BigEndian(ToBigEndian(n, len)) == n
  {
    if len > 0 {
      BigEndianRoundTrip(n / 256, len - 1);
      assert ToBigEndian(n, len)[..len - 1] == ToBigEndian(n / 256, len - 1);
    }
  }

  lemma {:induction false} FirstDigit(n: nat, len: nat)
    requires len >= 1 && n < 64 * Pow256(len - 1)
    ensures ToBigEndian(n, len)[0] < 64
    ensures n < Pow256(len)
  {
    if len > 1 {
      FirstDigit(n / 256, len - 1);
      assert ToBigEndian(n, len)[0] == ToBigEndian(n / 256, len - 1)[0];
    }
  }

  /** An integer and the width it is written in; any width that holds it is allowed. */
  datatype Number = Number(value: nat, prefix: nat) {
    predicate Valid() {
      prefix < 4 && value < 64 * Pow256(LengthOf(prefix) - 1)
    }

    function Wire(): (w: Bytes)
      requires Valid()
      ensures |w| == LengthOf(prefix)
    {
      FirstDigit(value, LengthOf(prefix));
      var digits := ToBigEndian(value, LengthOf(prefix));
      [digits[0] + 64 * prefix] + digits[1..]
    }
  }

  /** Every width reads back to the same value. */
  lemma VarintRoundTrip(x: Number, rest: Bytes)
    requires x.Valid()
    ensures Varint(x.Wire() + rest) == Ok((x.value, LengthOf(x.prefix)))
    ensures (x.Wire() + rest)[LengthOf(x.prefix)..] == rest
  {
    var n := LengthOf(x.prefix);
    var digits, buf := ToBigEndian(x.value, n), x.Wire() + rest;
    FirstDigit(x.value, n);
    BigEndianRoundTrip(x.value, n);
    assert buf[0] / 64 == x.prefix && buf[0] % 64 == digits[0];
    assert [buf[0] % 64] + buf[1..n] == digits;
  }

  /** The widths of section 16 of RFC 9000, and the samples of its appendix A.1. */
  lemma SampleVarints()
    ensures LengthOf(0) == 1 && LengthOf(1) == 2 && LengthOf(2) == 4 && LengthOf(3) == 8
    ensures Varint([0xC2, 0x19, 0x7C, 0x5E, 0xFF, 0x14, 0xE8, 0x8C]) == Ok((151288809941952652, 8))
    ensures Varint([0x9D, 0x7F, 0x3E, 0x7D]) == Ok((494878333, 4))
    ensures Varint([0x7B, 0xBD]) == Ok((15293, 2))
    ensures Varint([0x25]) == Ok((37, 1)) && Varint([0x40, 0x25]) == Ok((37, 2))
  {
    hide Varint, Appended;
    LongSample();
    var four, two, one, wide := [0x9D, 0x7F, 0x3E, 0x7D], [0x7B, 0xBD], [0x25], [0x40, 0x25];
    VarintIs(four);
    assert four[1..] == [0x7F, 0x3E, 0x7D];
    ThreeDigits(0x1D, 0x7F, 0x3E, 0x7D, []);
    NoDigit(494878333);
    VarintIs(two);
    assert two[1..] == [0xBD] + [];
    NextDigit(0x3B, 0xBD, []);
    NoDigit(15293);
    VarintIs(one);
    assert one[1..] == [];
    VarintIs(wide);
    assert wide[1..] == [0x25] + [];
    NextDigit(0, 0x25, []);
    NoDigit(37);
  }

  lemma LongSample()
    ensures Varint([0xC2, 0x19, 0x7C, 0x5E, 0xFF, 0x14, 0xE8, 0x8C]) == Ok((151288809941952652, 8))
  {
    hide Varint, Appended;
    var eight := [0xC2, 0x19, 0x7C, 0x5E, 0xFF, 0x14, 0xE8, 0x8C];
    VarintIs(eight);
    assert eight[1..] == [0x19, 0x7C, 0x5E] + ([0xFF, 0x14, 0xE8] + ([0x8C] + []));
    ThreeDigits(2, 0x19, 0x7C, 0x5E, [0xFF, 0x14, 0xE8] + ([0x8C] + []));
    ThreeDigits(0x2197C5E, 0xFF, 0x14, 0xE8, [0x8C] + []);
    NextDigit(0x2197C5EFF14E8, 0x8C, []);
    NoDigit(0x2197C5EFF14E88C);
  }

  lemma VarintIs(buf: Bytes)
    requires buf != [] && |buf| == LengthOf(buf[0] / 64)
    ensures Varint(buf) == Ok((Appended(buf[0] % 64, buf[1..]), |buf|))
  {
    Digits([buf[0] % 64], buf[1..]);
    OneDigit(buf[0] % 64);
    assert buf[1..|buf|] == buf[1..];
  }

  lemma ThreeDigits(v: nat, a: byte, b: byte, c: byte, s: Bytes)
    ensures Appended(v, [a, b, c] + s) == Appended(((v * 256 + a) * 256 + b) * 256 + c, s)
    ensures [a, b, c] + [] == [a, b, c]
  {
    hide Appended;
    NextDigit(v, a, [b, c] + s);
    NextDigit(v * 256 + a, b, [c] + s);
    NextDigit((v * 256 + a) * 256 + b, c, s);
    assert [a] + ([b, c] + s) == [a, b, c] + s && [b] + ([c] + s) == [b, c] + s;
  }

  lemma NextDigit(v: nat, b: byte, s: Bytes)
    ensures Appended(v, [b] + s) == Appended(v * 256 + b, s)
  {
    assert ([b] + s)[1..] == s;
  }

  lemma NoDigit(v: nat)
    ensures Appended(v, []) == v
  {
  }

  lemma OneDigit(b: byte)
    ensures BigEndian([b]) == b
  {
    assert [b][..0] == [] && BigEndian([]) == 0;
  }

  /** An integer cut short: how many bytes it has and how many there are. */
  lemma CutVarints(x: Number, k: nat)
    requires x.Valid() && k < |x.Wire()|
    ensures Varint(x.Wire()[..k]) == Err(Short(if k == 0 then 1 else |x.Wire()|, k))
  {
    VarintRoundTrip(x, []);
    FirstDigit(x.value, LengthOf(x.prefix));
  }

  /** The value of further digits. */
  function Appended(v: nat, s: Bytes): nat
    decreases |s|
  {
    if s == [] then v else Appended(v * 256 + s[0], s[1..])
  }

  lemma {:induction false} Digits(a: Bytes, s: Bytes)
    ensures BigEndian(a + s) == Appended(BigEndian(a), s)
    decreases |s|
  {
    if s == [] {
      assert a + s == a;
    } else {
      var a' := a + [s[0]];
      assert a'[..|a|] == a && a' + s[1..] == a + s;
      Digits(a', s[1..]);
    }
  }

  // ---------------------------------------------------------------- frames

  datatype Piece = Piece(off: nat, data: Bytes)

  /** Skips some integers in a row. */
  function SkipVarints(buf: Bytes, p: nat, n: nat): (r: Result<nat, ParseErr>)
    requires p <= |buf|
    ensures r.Ok? ==> p <= r.value <= |buf|
    decreases n
  {
    if n == 0 then Ok(p)
    else
      var (_, len) :- Varint(buf[p..]);
      SkipVarints(buf, p + len, n - 1)
  }

  /** An ACK frame after its type byte: three integers around a count, a pair per range, three more with ECN. */
  function SkipAck(buf: Bytes, p: nat, ecn: bool): (r: Result<nat, ParseErr>)
    requires p <= |buf|
    ensures r.Ok? ==> p <= r.value <= |buf|
  {
    var p2 :- SkipVarints(buf, p, 2);
    var (ranges, n) :- Varint(buf[p2..]);
    SkipRangesAndEcn(buf, p2 + n, ranges, ecn)
  }

  function SkipRangesAndEcn(buf: Bytes, p: nat, ranges: nat, ecn: bool): (r: Result<nat, ParseErr>)
    requires p <= |buf|
    ensures r.Ok? ==> p <= r.value <= |buf|
  {
    var p4 :- SkipVarints(buf, p, 1);
    var p5 :- SkipVarints(buf, p4, 2 * ranges);
    SkipVarints(buf, p5, if ecn then 3 else 0)
  }

  /** The pieces the loop of `extract_crypto_frames` finds from p on. */
  function PiecesFrom(buf: Bytes, p: nat): Result<seq<Piece>, ParseErr>
    requires p <= |buf|
    decreases |buf| - p
  {
    if p == |buf| then Ok([])
    else if buf[p] == 0 || buf[p] == 1 then PiecesFrom(buf, p + 1)
    else if buf[p] == 2 || buf[p] == 3 then
      var next :- SkipAck(buf, p + 1, buf[p] == 3);
      PiecesFrom(buf, next)
    else if buf[p] == 6 then
      var (off, n) :- Varint(buf[p + 1..]);
      var (len, m) :- Varint(buf[p + 1 + n..]);
      var start: nat := p + 1 + n + m;
      if start + len > |buf| then Err(Malformed("crypto frame truncated"))
      else Prepended([Piece(off, buf[start..start + len])], PiecesFrom(buf, start + len))
    else Ok([])
  }

  method SkipNumbers(buf: Bytes, start: nat, n: nat) returns (r: Result<nat, ParseErr>)
    requires start <= |buf|
    ensures r == SkipVarints(buf, start, n)
  {
    var p: nat := start;
    for i := 0 to n
      invariant p <= |buf|
      invariant SkipVarints(buf, start, n) == SkipVarints(buf, p, n - i)
    {
      var v :- ReadVarint(buf[p..]);
      p := p + v.1;
    }
    return Ok(p);
  }

  method SkipAckFrame(buf: Bytes, start: nat, ecn: bool) returns (r: Result<nat, ParseErr>)
    requires start <= |buf|
    ensures r == SkipAck(buf, start, ecn)
  {
    hide Varint, SkipVarints;
    var p :- SkipNumbers(buf, start, 2);
    var count :- ReadVarint(buf[p..]);
    p := p + count.1;
    p :- SkipNumbers(buf, p, 1);
    p :- SkipNumbers(buf, p, 2 * count.0);
    r := SkipNumbers(buf, p, if ecn then 3 else 0);
  }

  method ExtractCryptoFrames(plaintext: Bytes) returns (r: Result<seq<Piece>, ParseErr>)
    ensures r == PiecesFrom(plaintext, 0)
  {
    hide Varint, SkipAck, Prepended;
    var out: seq<Piece> := [];
    var p: nat := 0;
    PrependedTwice([], [], PiecesFrom(plaintext, 0));
    while p < |plaintext|
      invariant p <= |plaintext|
      invariant PiecesFrom(plaintext, 0) == Prepended(out, PiecesFrom(plaintext, p))
      decreases |plaintext| - p
    {
      PrependedTwice(out, [], PiecesFrom(plaintext, p));
      var t := plaintext[p];
      p := p + 1;
      if t == 0 || t == 1 {
      } else if t == 2 || t == 3 {
        p :- SkipAckFrame(plaintext, p, t == 3);
      } else if t == 6 {
        var off :- ReadVarint(plaintext[p..]);
        p := p + off.1;
        var len :- ReadVarint(plaintext[p..]);
        p := p + len.1;
        if p + len.0 > |plaintext| {
          return Err(Malformed("crypto frame truncated"));
        }
        var piece := Piece(off.0, plaintext[p..p + len.0]);
        p := p + len.0;
        PrependedTwice(out, [piece], PiecesFrom(plaintext, p));
        out := out + [piece];
      } else {
        break;
      }
    }
    PrependedTwice<Piece, ParseErr>(out, [], Ok([]));
    return Ok(out);
  }

  // ---------------------------------------------------------------- every well-formed payload

  datatype Frame =
    | Padding
    | Ping
    | Ack(largest: Number, delay: Number, first: Number, ranges: seq<(Number, Number)>, count: Number,
          ecn: Option<(Number, Number, Number)>)
    | Crypto(off: Number, len: Number, data: Bytes)
  {
    predicate Valid() {
      match this
      case Padding => true
      case Ping => true
      case Ack(largest, delay, first, ranges, count, ecn) =>
        && largest.Valid() && delay.Valid() && first.Valid()
        && count.Valid() && count.value == |ranges|
        && (forall i :: 0 <= i < |ranges| ==> ranges[i].0.Valid() && ranges[i].1.Valid())
        && (ecn.Some? ==> ecn.value.0.Valid() && ecn.value.1.Valid() && ecn.value.2.Valid())
      case Crypto(off, len, data) => off.Valid() && len.Valid() && len.value == |data|
    }

    function Wire(): Bytes
      requires Valid()
    {
      match this
      case Padding => [0]
      case Ping => [1]
      case Ack(largest, delay, first, ranges, count, ecn) =>
        [if ecn.Some? then 3 else 2] + (largest.Wire() + (delay.Wire() + (count.Wire() + (first.Wire()
        + (RangesWire(ranges)
        + if ecn.Some? then ecn.value.0.Wire() + (ecn.value.1.Wire() + ecn.value.2.Wire()) else [])))))
      case Crypto(off, len, data) => [6] + (off.Wire() + (len.Wire() + data))
    }

    function Pieces(): seq<Piece> {
      if Crypto? then [Piece(off.value, data)] else []
    }
  }

  function RangesWire(rs: seq<(Number, Number)>): Bytes
    requires forall i :: 0 <= i < |rs| ==> rs[i].0.Valid() && rs[i].1.Valid()
  {
    if rs == [] then [] else rs[0].0.Wire() + (rs[0].1.Wire() + RangesWire(rs[1..]))
  }

  function PayloadWire(fs: seq<Frame>): Bytes
    requires forall i :: 0 <= i < |fs| ==> fs[i].Valid()
  {
    if fs == [] then [] else fs[0].Wire() + PayloadWire(fs[1..])
  }

  function AllPieces(fs: seq<Frame>): seq<Piece> {
    if fs == [] then [] else fs[0].Pieces() + AllPieces(fs[1..])
  }

  /** One integer skipped at p. */
  lemma SkipOne(buf: Bytes, p: nat, x: Number, rest: Bytes, n: nat)
    requires x.Valid() && p <= |buf| && buf[p..] == x.Wire() + rest && n >= 1
    ensures p + |x.Wire()| <= |buf| && buf[p + |x.Wire()|..] == rest
    ensures Varint(buf[p..]) == Ok((x.value, |x.Wire()|))
    ensures SkipVarints(buf, p, n) == SkipVarints(buf, p + |x.Wire()|, n - 1)
  {
    hide Varint, Number.Valid, Number.Wire;
    VarintRoundTrip(x, rest);
    assert buf[p..][|x.Wire()|..] == buf[p + |x.Wire()|..];
  }

  lemma {:induction false} SkipRanges(buf: Bytes, p: nat, rs: seq<(Number, Number)>, rest: Bytes)
    requires forall i :: 0 <= i < |rs| ==> rs[i].0.Valid() && rs[i].1.Valid()
    requires p <= |buf| && buf[p..] == RangesWire(rs) + rest
    ensures p + |RangesWire(rs)| <= |buf| && buf[p + |RangesWire(rs)|..] == rest
    ensures SkipVarints(buf, p, 2 * |rs|) == Ok(p + |RangesWire(rs)|)
    decreases |rs|
  {
    hide Varint, Number.Valid, Number.Wire;
    if rs == [] {
      assert [] + rest == rest;
      SkipNone(buf, p);
    } else {
      var a, b, more := rs[0].0, rs[0].1, RangesWire(rs[1..]) + rest;
      assert buf[p..] == a.Wire() + (b.Wire() + more);
      SkipOne(buf, p, a, b.Wire() + more, 2 * |rs|);
      SkipOne(buf, p + |a.Wire()|, b, more, 2 * |rs| - 1);
      SkipRanges(buf, p + |a.Wire()| + |b.Wire()|, rs[1..], rest);
    }
  }

  lemma SkipNone(buf: Bytes, p: nat)
    requires p <= |buf|
    ensures SkipVarints(buf, p, 0) == Ok(p)
  {
  }

  /** An ACK frame is skipped exactly. */
  lemma AckIsSkipped(buf: Bytes, p: nat, f: Frame, rest: Bytes)
    requires f.Valid() && f.Ack? && p < |buf| && buf[p..] == f.Wire() + rest
    ensures buf[p] == (if f.ecn.Some? then 3 else 2)
    ensures p + |f.Wire()| <= |buf| && buf[p + |f.Wire()|..] == rest
    ensures SkipAck(buf, p + 1, f.ecn.Some?) == Ok(p + |f.Wire()|)
  {
    hide Varint, SkipVarints, SkipAck, SkipRangesAndEcn, Number.Valid, Number.Wire, RangesWire, Frame.Wire;
    var ecn := if f.ecn.Some? then f.ecn.value.0.Wire() + (f.ecn.value.1.Wire() + f.ecn.value.2.Wire()) else [];
    var r5 := ecn + rest;
    var r4 := RangesWire(f.ranges) + r5;
    var r3 := f.first.Wire() + r4;
    var r2 := f.count.Wire() + r3;
    var r1 := f.delay.Wire() + r2;
    AckLayout(f, rest);
    assert buf[p..][1..] == buf[p + 1..] && buf[p] == buf[p..][0];
    assert buf[p + 1..] == f.largest.Wire() + r1;
    var p0 := p + 1;
    SkipOne(buf, p0, f.largest, r1, 2);
    var p1 := p0 + |f.largest.Wire()|;
    SkipOne(buf, p1, f.delay, r2, 1);
    var p2 := p1 + |f.delay.Wire()|;
    SkipNone(buf, p2);
    SkipOne(buf, p2, f.count, r3, 1);
    var p3 := p2 + |f.count.Wire()|;
    SkipOne(buf, p3, f.first, r4, 1);
    var p4 := p3 + |f.first.Wire()|;
    SkipNone(buf, p4);
    SkipRanges(buf, p4, f.ranges, r5);
    EcnIsSkipped(buf, p4 + |RangesWire(f.ranges)|, f, rest);
    RangesSteps(buf, p3, f.count.value, p4, p4 + |RangesWire(f.ranges)|, f.ecn.Some?);
    CountStep(buf, p0, p2, f.count.value, |f.count.Wire()|, f.ecn.Some?);
  }

  lemma RangesSteps(buf: Bytes, p: nat, ranges: nat, p4: nat, p5: nat, ecn: bool)
    requires p <= |buf| && SkipVarints(buf, p, 1) == Ok(p4)
    requires p4 <= |buf| && SkipVarints(buf, p4, 2 * ranges) == Ok(p5) && p5 <= |buf|
    ensures SkipRangesAndEcn(buf, p, ranges, ecn) == SkipVarints(buf, p5, if ecn then 3 else 0)
  {
    hide SkipVarints;
  }

  lemma CountStep(buf: Bytes, p: nat, p2: nat, ranges: nat, n: nat, ecn: bool)
    requires p <= |buf| && SkipVarints(buf, p, 2) == Ok(p2)
    requires p2 <= |buf| && Varint(buf[p2..]) == Ok((ranges, n)) && p2 + n <= |buf|
    ensures SkipAck(buf, p, ecn) == SkipRangesAndEcn(buf, p2 + n, ranges, ecn)
  {
    hide Varint, SkipVarints, SkipRangesAndEcn;
  }

  lemma EcnIsSkipped(buf: Bytes, p: nat, f: Frame, rest: Bytes)
    requires f.Valid() && f.Ack?
    requires var ecn :=
               if f.ecn.Some? then f.ecn.value.0.Wire() + (f.ecn.value.1.Wire() + f.ecn.value.2.Wire()) else [];
             p <= |buf| && buf[p..] == ecn + rest
    ensures var ecn := if f.ecn.Some? then f.ecn.value.0.Wire() + (f.ecn.value.1.Wire() + f.ecn.value.2.Wire()) else [];
            && p + |ecn| <= |buf| && buf[p + |ecn|..] == rest
            && SkipVarints(buf, p, if f.ecn.Some? then 3 else 0) == Ok(p + |ecn|)
  {
    hide Varint, Number.Valid, Number.Wire;
    if f.ecn.Some? {
      var (a, b, c) := f.ecn.value;
      assert buf[p..] == a.Wire() + (b.Wire() + (c.Wire() + rest));
      SkipOne(buf, p, a, b.Wire() + (c.Wire() + rest), 3);
      SkipOne(buf, p + |a.Wire()|, b, c.Wire() + rest, 2);
      SkipOne(buf, p + |a.Wire()| + |b.Wire()|, c, rest, 1);
      SkipNone(buf, p + |a.Wire()| + |b.Wire()| + |c.Wire()|);
    } else {
      assert [] + rest == rest;
      SkipNone(buf, p);
    }
  }

  lemma AckLayout(f: Frame, rest: Bytes)
    requires f.Valid() && f.Ack?
    ensures var ecn := if f.ecn.Some? then f.ecn.value.0.Wire() + (f.ecn.value.1.Wire() + f.ecn.value.2.Wire()) else [];
            && f.Wire() + rest == [if f.ecn.Some? then 3 else 2] + (f.largest.Wire() + (f.delay.Wire() + (f.count.Wire()
               + (f.first.Wire() + (RangesWire(f.ranges) + (ecn + rest))))))
            && |f.Wire()| == 1 + |f.largest.Wire()| + |f.delay.Wire()| + |f.count.Wire()| + |f.first.Wire()|
               + |RangesWire(f.ranges)| + |ecn|
  {
  }

  lemma CryptoStep(buf: Bytes, p: nat, off: nat, n: nat, len: nat, m: nat)
    requires p < |buf| && buf[p] == 6 && Varint(buf[p + 1..]) == Ok((off, n))
    requires p + 1 + n <= |buf| && Varint(buf[p + 1 + n..]) == Ok((len, m))
    requires p + 1 + n + m + len <= |buf|
    ensures var start := p + 1 + n + m;
            PiecesFrom(buf, p) == Prepended([Piece(off, buf[start..start + len])], PiecesFrom(buf, start + len))
  {
    hide Varint, Prepended;
  }

  lemma CryptoLayout(f: Frame, rest: Bytes)
    requires f.Valid() && f.Crypto?
    ensures f.Wire() + rest == [6] + (f.off.Wire() + (f.len.Wire() + (f.data + rest)))
    ensures |f.Wire()| == 1 + |f.off.Wire()| + |f.len.Wire()| + |f.data|
  {
    hide Number.Valid, Number.Wire;
  }

  lemma CryptoIsFound(buf: Bytes, p: nat, f: Frame, rest: Bytes)
    requires f.Valid() && f.Crypto? && p < |buf| && buf[p..] == f.Wire() + rest
    ensures p + |f.Wire()| <= |buf| && buf[p + |f.Wire()|..] == rest
    ensures PiecesFrom(buf, p) == Prepended(f.Pieces(), PiecesFrom(buf, p + |f.Wire()|))
  {
    hide Varint, Number.Valid, Number.Wire, Prepended, PiecesFrom, SkipVarints, Frame.Wire;
    var r2 := f.data + rest;
    var r1 := f.len.Wire() + r2;
    CryptoLayout(f, rest);
    assert buf[p..][1..] == buf[p + 1..] && buf[p] == buf[p..][0];
    SkipOne(buf, p + 1, f.off, r1, 1);
    var p1 := p + 1 + |f.off.Wire()|;
    SkipOne(buf, p1, f.len, r2, 1);
    var p2 := p1 + |f.len.Wire()|;
    assert buf[p2..][..|f.data|] == buf[p2..p2 + |f.data|] && buf[p2..][|f.data|..] == buf[p2 + |f.data|..];
    CryptoStep(buf, p, f.off.value, |f.off.Wire()|, f.len.value, |f.len.Wire()|);
  }

  lemma QuietStep(buf: Bytes, p: nat)
    requires p < |buf| && buf[p] <= 1
    ensures PiecesFrom(buf, p) == PiecesFrom(buf, p + 1)
  {
    hide Varint, SkipAck;
  }

  lemma AckStep(buf: Bytes, p: nat, next: nat)
    requires p < |buf| && (buf[p] == 2 || buf[p] == 3) && SkipAck(buf, p + 1, buf[p] == 3) == Ok(next)
    ensures next <= |buf| && PiecesFrom(buf, p) == PiecesFrom(buf, next)
  {
    hide Varint, SkipAck;
  }

  lemma QuietIsSkipped(buf: Bytes, p: nat, f: Frame, rest: Bytes)
    requires (f == Padding || f == Ping) && p < |buf| && buf[p..] == f.Wire() + rest
    ensures |f.Wire()| == 1 && buf[p + 1..] == rest && PiecesFrom(buf, p) == PiecesFrom(buf, p + 1)
  {
    hide PiecesFrom;
    assert buf[p] == buf[p..][0] && buf[p..][1..] == buf[p + 1..];
    QuietStep(buf, p);
  }

  /** Any other known frame is stepped over. */
  lemma OtherIsSkipped(buf: Bytes, p: nat, f: Frame, rest: Bytes)
    requires f.Valid() && !f.Crypto? && p < |buf| && buf[p..] == f.Wire() + rest
    ensures p + |f.Wire()| <= |buf| && buf[p + |f.Wire()|..] == rest
    ensures PiecesFrom(buf, p) == PiecesFrom(buf, p + |f.Wire()|)
  {
    hide Frame.Valid, Frame.Wire, PiecesFrom, SkipAck, Varint, SkipVarints, Number.Valid, Number.Wire, RangesWire;
    if f.Ack? {
      AckIsSkipped(buf, p, f, rest);
      AckStep(buf, p, p + |f.Wire()|);
    } else {
      QuietIsSkipped(buf, p, f, rest);
    }
  }

  lemma NoMorePieces(buf: Bytes, p: nat)
    requires p <= |buf| && (p == |buf| || buf[p] !in {0, 1, 2, 3, 6})
    ensures PiecesFrom(buf, p) == Ok([])
  {
  }

  /** Extraction finds exactly the CRYPTO pieces of any well-formed payload, in order, up to its end or the first
      frame of another type. */
  lemma {:induction false} PayloadPieces(buf: Bytes, p: nat, fs: seq<Frame>, rest: Bytes)
    requires forall i :: 0 <= i < |fs| ==> fs[i].Valid()
    requires p <= |buf| && buf[p..] == PayloadWire(fs) + rest
    requires rest == [] || rest[0] !in {0, 1, 2, 3, 6}
    ensures PiecesFrom(buf, p) == Ok(AllPieces(fs))
    decreases |fs|
  {
    hide PiecesFrom, Frame.Valid, Frame.Wire, Varint;
    if fs == [] {
      assert [] + rest == rest;
      assert rest != [] ==> buf[p] == buf[p..][0];
      NoMorePieces(buf, p);
    } else {
      var f, more := fs[0], PayloadWire(fs[1..]) + rest;
      assert buf[p..] == f.Wire() + more;
      FrameNotEmpty(f);
      if f.Crypto? {
        CryptoIsFound(buf, p, f, more);
      } else {
        OtherIsSkipped(buf, p, f, more);
        assert [] + AllPieces(fs[1..]) == AllPieces(fs[1..]);
      }
      PayloadPieces(buf, p + |f.Wire()|, fs[1..], rest);
    }
  }

  lemma FrameNotEmpty(f: Frame)
    requires f.Valid()
    ensures |f.Wire()| > 0
  {
  }

  /** A CRYPTO frame whose data is cut short. */
  lemma CutCryptoIsMalformed(off: Number, len: Number, data: Bytes)
    requires off.Valid() && len.Valid() && |data| < len.value
    ensures PiecesFrom([6] + off.Wire() + len.Wire() + data, 0) == Err(Malformed("crypto frame truncated"))
  {
    hide Varint, Number.Wire, Number.Valid, PiecesFrom, LengthOf;
    var o, l := off.Wire(), len.Wire();
    var buf := [6] + o + l + data;
    VarintRoundTrip(off, l + data);
    VarintRoundTrip(len, data);
    assert buf[1..] == o + (l + data);
    assert buf[1 + |o|..] == l + data;
    CryptoBehindTheEnd(buf, 0, off.value, |o|, len.value, |l|);
  }

  lemma CryptoBehindTheEnd(buf: Bytes, p: nat, off: nat, n: nat, len: nat, m: nat)
    requires p < |buf| && buf[p] == 6 && Varint(buf[p + 1..]) == Ok((off, n))
    requires p + 1 + n <= |buf| && Varint(buf[p + 1 + n..]) == Ok((len, m))
    requires p + 1 + n + m + len > |buf|
    ensures PiecesFrom(buf, p) == Err(Malformed("crypto frame truncated"))
  {
    hide Varint, Prepended, SkipAck;
  }
}
