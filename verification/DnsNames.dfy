/** Domain names on the wire (message.rs): the three independent walkers and the label grammar they agree on
    (section 4.1.2 of RFC 1035; compression pointers as in its section 4.1.4). */
module DnsNames {
  import opened MachineInts
  import opened Wrappers

  datatype DnsError = Truncated | NotAQuery | NoQuestion | CompressionInQuestion | NameTooLong

  const DOT: byte := 46
  const MAX_NAME: nat := 255
  const SKIP_STEPS: nat := 256
  const MAX_HOPS: nat := 8

  // ---------------------------------------------------------------- the label grammar

  predicate IsLabel(l: Bytes) {
    1 <= |l| <= 63
  }

  predicate AreLabels(ls: seq<Bytes>) {
    forall i :: 0 <= i < |ls| ==> IsLabel(ls[i])
  }

  /** Labels on the wire, each after its length, closed by the empty root label. */
  function Wire(ls: seq<Bytes>): (w: Bytes)
    requires AreLabels(ls)
    ensures |w| > |ls|
  {
    if ls == [] then [0] else [|ls[0]|] + ls[0] + Wire(ls[1..])
  }

  /** A label's text after a name read so far. */
  function Joined(name: Bytes, text: Bytes): Bytes {
    if name == [] then text else name + [DOT] + text
  }

  /** One label byte as the query parser stores it: lower-cased, as the UTF-8 of that Latin-1 character. */
  function LowerLatin(b: byte): Bytes {
    if b < 128 then [Lower(b)] else [0xC0 + b / 64, 0x80 + b % 64]
  }

  function LowerText(lab: Bytes): (t: Bytes)
    ensures |t| >= |lab|
  {
    if lab == [] then [] else LowerLatin(lab[0]) + LowerText(lab[1..])
  }

  /** The dotted name the query parser makes of these labels, after what it has read so far. */
  function Spelled(name: Bytes, ls: seq<Bytes>): (r: Bytes)
    requires AreLabels(ls)
    ensures |r| >= |name| + |ls|
    decreases |ls|
  {
    if ls == [] then name else Spelled(Joined(name, LowerText(ls[0])), ls[1..])
  }

  /** Texts dotted as they stand, after what has been read so far. */
  function Dotted(name: Bytes, ls: seq<Bytes>): (r: Bytes)
    ensures |r| >= |name|
    decreases |ls|
  {
    if ls == [] then name else Dotted(Joined(name, ls[0]), ls[1..])
  }

  /** Some bytes of `buf` at `pos`. */
  predicate At(buf: Bytes, pos: nat, s: Bytes) {
    pos + |s| <= |buf| && buf[pos..pos + |s|] == s
  }

  lemma AtSplit(buf: Bytes, pos: nat, a: Bytes, b: Bytes)
    ensures At(buf, pos, a + b) <==> At(buf, pos, a) && At(buf, pos + |a|, b)
  {
    if pos + |a| + |b| <= |buf| {
      assert buf[pos..pos + |a + b|] == buf[pos..pos + |a|] + buf[pos + |a|..pos + |a| + |b|];
      if At(buf, pos, a + b) {
        assert (a + b)[..|a|] == a && (a + b)[|a|..] == b;
      }
    }
  }

  lemma AtMeans(buf: Bytes, pos: nat, s: Bytes)
    ensures At(buf, pos, s) <==> pos + |s| <= |buf| && buf[pos..pos + |s|] == s
  {
  }

  lemma AtByte(buf: Bytes, pos: nat, b: byte)
    ensures At(buf, pos, [b]) <==> pos < |buf| && buf[pos] == b
  {
    if pos < |buf| {
      assert buf[pos..pos + 1] == [buf[pos]];
    }
  }

  /** Wire labels found one at a time. */
  lemma WireStep(buf: Bytes, pos: nat, ls: seq<Bytes>)
    requires AreLabels(ls) && ls != []
    ensures At(buf, pos, Wire(ls)) <==>
            && pos + 1 + |ls[0]| <= |buf|
            && buf[pos] == |ls[0]| && buf[pos + 1..pos + 1 + |ls[0]|] == ls[0]
            && At(buf, pos + 1 + |ls[0]|, Wire(ls[1..]))
  {
    hide At;
    var lab := ls[0];
    AtSplit(buf, pos, [|lab|] + lab, Wire(ls[1..]));
    AtSplit(buf, pos, [|lab|], lab);
    AtByte(buf, pos, |lab|);
    AtMeans(buf, pos + 1, lab);
    AtMeans(buf, pos + 1 + |lab|, Wire(ls[1..]));
  }

  lemma WireEnd(buf: Bytes, pos: nat)
    ensures At(buf, pos, Wire([])) <==> pos < |buf| && buf[pos] == 0
  {
    AtByte(buf, pos, 0);
  }

  // ---------------------------------------------------------------- parse_name

  /** What the loop of `parse_name` computes from `pos` with `name` read so far. */
  function ParseNameFrom(buf: Bytes, pos: nat, name: Bytes): (r: Result<(Bytes, nat), DnsError>)
    ensures r.Ok? ==> pos < r.value.1 <= |buf|
    decreases |buf| - pos
  {
    if pos >= |buf| then Err(Truncated)
    else if buf[pos] == 0 then Ok((name, pos + 1))
    else if buf[pos] >= 64 then Err(CompressionInQuestion)
    else
      var end := pos + 1 + buf[pos];
      if end > |buf| then Err(Truncated)
      else
        var name' := Joined(name, LowerText(buf[pos + 1..end]));
        if |name'| > MAX_NAME then Err(NameTooLong) else ParseNameFrom(buf, end, name')
  }

  /** The outcome at the next byte. */
  lemma ParseNameStep(buf: Bytes, pos: nat, name: Bytes)
    ensures pos >= |buf| ==> ParseNameFrom(buf, pos, name) == Err(Truncated)
    ensures pos < |buf| && buf[pos] == 0 ==> ParseNameFrom(buf, pos, name) == Ok((name, pos + 1))
    ensures pos < |buf| && buf[pos] >= 64 ==> ParseNameFrom(buf, pos, name) == Err(CompressionInQuestion)
    ensures pos < |buf| && 0 < buf[pos] < 64 ==>
              var end: nat := pos + 1 + buf[pos];
              && (end > |buf| ==> ParseNameFrom(buf, pos, name) == Err(Truncated))
              && (end <= |buf| ==>
                    var name' := Joined(name, LowerText(buf[pos + 1..end]));
                    ParseNameFrom(buf, pos, name) == if |name'| > MAX_NAME then Err(NameTooLong)
                                                     else ParseNameFrom(buf, end, name'))
  {
    hide LowerText, Joined;
  }

  lemma LowerTextSnoc(lab: Bytes, b: byte)
    ensures LowerText(lab + [b]) == LowerText(lab) + LowerLatin(b)
  {
    if lab == [] {
      assert LowerText([b]) == LowerLatin(b) + LowerText([]);
      assert lab + [b] == [b];
    } else {
      assert (lab + [b])[1..] == lab[1..] + [b];
      LowerTextSnoc(lab[1..], b);
    }
  }

  method PushLowered(prefix: Bytes, lab: Bytes) returns (name: Bytes)
    ensures name == prefix + LowerText(lab)
  {
    name := prefix;
    for i := 0 to |lab|
      invariant name == prefix + LowerText(lab[..i])
    {
      LowerTextSnoc(lab[..i], lab[i]);
      assert lab[..i + 1] == lab[..i] + [lab[i]];
      name := name + LowerLatin(lab[i]);
    }
    assert lab[..|lab|] == lab;
  }

  method ParseName(buf: Bytes, start: nat) returns (r: Result<(Bytes, nat), DnsError>)
    ensures r == ParseNameFrom(buf, start, [])
  {
    hide LowerText, ParseNameFrom;
    var name: Bytes := [];
    var pos: nat := start;
    while true
      invariant ParseNameFrom(buf, start, []) == ParseNameFrom(buf, pos, name)
      decreases |buf| - pos
    {
      ParseNameStep(buf, pos, name);
      if pos >= |buf| {
        return Err(Truncated);
      }
      var len := buf[pos];
      if len == 0 {
        pos := pos + 1;
        break;
      }
      if len >= 64 {
        return Err(CompressionInQuestion);
      }
      pos := pos + 1;
      if pos + len > |buf| {
        return Err(Truncated);
      }
      var lab := buf[pos..pos + len];
      ghost var read := name;
      if name != [] {
        name := name + [DOT];
      }
      name := PushLowered(name, lab);
      assert name == Joined(read, LowerText(lab));
      pos := pos + len;
      if |name| > MAX_NAME {
        return Err(NameTooLong);
      }
    }
    return Ok((name, pos));
  }

  /** Whatever `parse_name` accepts is a sequence of wire labels, and the name is their spelling. */
  lemma {:induction false} ParsedIsWire(buf: Bytes, pos: nat, name: Bytes) returns (ls: seq<Bytes>)
    requires ParseNameFrom(buf, pos, name).Ok?
    ensures AreLabels(ls) && At(buf, pos, Wire(ls))
    ensures ParseNameFrom(buf, pos, name).value == (Spelled(name, ls), pos + |Wire(ls)|)
    ensures ls != [] ==> |Spelled(name, ls)| <= MAX_NAME
    decreases |buf| - pos
  {
    hide At, LowerText, Joined;
    if buf[pos] == 0 {
      ls := [];
      WireEnd(buf, pos);
    } else {
      var end := pos + 1 + buf[pos];
      var lab := buf[pos + 1..end];
      var name' := Joined(name, LowerText(lab));
      var rest := ParsedIsWire(buf, end, name');
      ls := [lab] + rest;
      assert ls[1..] == rest;
      WireStep(buf, pos, ls);
    }
  }

  /** And every sequence of wire labels is accepted, ending right after it, exactly if it spells at most 255 bytes. */
  lemma {:induction false} WireIsParsed(buf: Bytes, pos: nat, name: Bytes, ls: seq<Bytes>)
    requires AreLabels(ls) && At(buf, pos, Wire(ls)) && |name| <= MAX_NAME
    ensures ParseNameFrom(buf, pos, name) ==
            if |Spelled(name, ls)| <= 255 then Ok((Spelled(name, ls), pos + |Wire(ls)|)) else Err(NameTooLong)
    decreases |ls|
  {
    hide At, LowerText, Joined;
    if ls != [] {
      var name' := Joined(name, LowerText(ls[0]));
      WireStep(buf, pos, ls);
      assert Spelled(name, ls) == Spelled(name', ls[1..]);
      if |name'| <= MAX_NAME {
        WireIsParsed(buf, pos + 1 + |ls[0]|, name', ls[1..]);
      }
    } else {
      WireEnd(buf, pos);
    }
  }

  // ---------------------------------------------------------------- skip_name

  /** What the loop of `skip_name` computes from `pos` with this many steps left. */
  function SkipNameFrom(buf: Bytes, pos: nat, steps: nat): (r: Result<nat, DnsError>)
    ensures r.Ok? ==> pos < r.value <= |buf|
    decreases steps
  {
    if steps == 0 then Err(NameTooLong)
    else if pos >= |buf| then Err(Truncated)
    else if buf[pos] == 0 then Ok(pos + 1)
    else if buf[pos] >= 192 then
      if pos + 2 > |buf| then Err(Truncated) else Ok(pos + 2)
    else if buf[pos] >= 64 then Err(CompressionInQuestion)
    else if pos + 1 + buf[pos] > |buf| then Err(Truncated)
    else SkipNameFrom(buf, pos + 1 + buf[pos], steps - 1)
  }

  method SkipName(buf: Bytes, start: nat) returns (r: Result<nat, DnsError>)
    ensures r == SkipNameFrom(buf, start, SKIP_STEPS)
  {
    var pos: nat := start;
    for i := 0 to SKIP_STEPS
      invariant SkipNameFrom(buf, start, SKIP_STEPS) == SkipNameFrom(buf, pos, SKIP_STEPS - i)
    {
      if pos >= |buf| {
        return Err(Truncated);
      }
      var len := buf[pos];
      if len == 0 {
        return Ok(pos + 1);
      }
      if len >= 192 {
        if pos + 2 > |buf| {
          return Err(Truncated);
        }
        return Ok(pos + 2);
      }
      if len >= 64 {
        return Err(CompressionInQuestion);
      }
      if pos + 1 + len > |buf| {
        return Err(Truncated);
      }
      pos := pos + 1 + len;
    }
    return Err(NameTooLong);
  }

  lemma {:induction false} WireIsSkipped(buf: Bytes, pos: nat, ls: seq<Bytes>, steps: nat)
    requires AreLabels(ls) && At(buf, pos, Wire(ls)) && |ls| < steps
    ensures SkipNameFrom(buf, pos, steps) == Ok(pos + |Wire(ls)|)
    decreases |ls|
  {
    if ls != [] {
      var lab := ls[0];
      WireStep(buf, pos, ls);
      WireIsSkipped(buf, pos + 1 + |lab|, ls[1..], steps - 1);
    } else {
      WireEnd(buf, pos);
    }
  }

  // ---------------------------------------------------------------- read_name

  /** The 14-bit offset of a compression pointer. */
  function PointerTarget(hi: byte, lo: byte): nat {
    var top: int := hi % 64;
    top * 256 + lo
  }

  /** What the loop of `read_name` computes; `lossy` is `String::from_utf8_lossy`. Termination under cyclic
      pointers: each pointer spends a hop, each label consumes bytes. */
  function ReadNameFrom(lossy: Bytes -> Bytes, buf: Bytes, pos: nat, hops: nat, out: Bytes): Option<Bytes>
    requires hops <= MAX_HOPS
    decreases MAX_HOPS - hops, |buf| - pos
  {
    if pos >= |buf| then None
    else if buf[pos] == 0 then Some(out)
    else if buf[pos] >= 192 then
      if pos + 1 >= |buf| then None
      else
        var target := PointerTarget(buf[pos], buf[pos + 1]);
        if hops + 1 > MAX_HOPS || target >= |buf| then None
        else ReadNameFrom(lossy, buf, target, hops + 1, out)
    else if buf[pos] >= 64 then None
    else
      var end := pos + 1 + buf[pos];
      if end > |buf| then None
      else
        var out' := Joined(out, lossy(buf[pos + 1..end]));
        if |out'| > MAX_NAME then None else ReadNameFrom(lossy, buf, end, hops, out')
  }

  method ReadName(lossy: Bytes -> Bytes, buf: Bytes, start: nat) returns (r: Option<Bytes>)
    ensures r == ReadNameFrom(lossy, buf, start, 0, [])
  {
    var out: Bytes := [];
    var hops: nat := 0;
    var pos: nat := start;
    while true
      invariant hops <= MAX_HOPS
      invariant ReadNameFrom(lossy, buf, start, 0, []) == ReadNameFrom(lossy, buf, pos, hops, out)
      decreases MAX_HOPS - hops, |buf| - pos
    {
      if pos >= |buf| {
        return None;
      }
      var len := buf[pos];
      if len == 0 {
        return Some(out);
      }
      if len >= 192 {
        if pos + 1 >= |buf| {
          return None;
        }
        var target := PointerTarget(len, buf[pos + 1]);
        hops := hops + 1;
        if hops > MAX_HOPS || target >= |buf| {
          return None;
        }
        pos := target;
        continue;
      }
      if len >= 64 {
        return None;
      }
      var end := pos + 1 + len;
      if end > |buf| {
        return None;
      }
      ghost var read := out;
      if out != [] {
        out := out + [DOT];
      }
      out := out + lossy(buf[pos + 1..end]);
      assert out == Joined(read, lossy(buf[pos + 1..end]));
      if |out| > MAX_NAME {
        return None;
      }
      pos := end;
    }
  }

  ghost predicate KeepsAscii(lossy: Bytes -> Bytes) {
    forall s :: Ascii(s) ==> lossy(s) == s
  }

  ghost predicate AsciiLabels(ls: seq<Bytes>) {
    forall i :: 0 <= i < |ls| ==> Ascii(ls[i])
  }

  lemma {:induction false} WireIsRead(lossy: Bytes -> Bytes, buf: Bytes, pos: nat, hops: nat, out: Bytes,
                                      ls: seq<Bytes>)
    requires KeepsAscii(lossy) && AreLabels(ls) && AsciiLabels(ls) && hops <= MAX_HOPS
    requires At(buf, pos, Wire(ls)) && |Dotted(out, ls)| <= MAX_NAME
    ensures ReadNameFrom(lossy, buf, pos, hops, out) == Some(Dotted(out, ls))
    decreases |ls|
  {
    hide At, LowerText, Joined;
    if ls != [] {
      var lab := ls[0];
      WireStep(buf, pos, ls);
      assert Ascii(lab);
      WireIsRead(lossy, buf, pos + 1 + |lab|, hops, Joined(out, lab), ls[1..]);
    } else {
      WireEnd(buf, pos);
    }
  }

  lemma AsciiLowerText(lab: Bytes)
    requires Ascii(lab)
    ensures LowerText(lab) == LowerAll(lab)
  {
    if lab != [] {
      AsciiLowerText(lab[1..]);
      assert LowerAll(lab) == [Lower(lab[0])] + LowerAll(lab[1..]);
    }
  }

  lemma LowerJoined(a: Bytes, b: Bytes)
    ensures LowerAll(Joined(a, b)) == Joined(LowerAll(a), LowerAll(b))
  {
  }

  /** For ASCII labels the two spellings differ in case only. */
  lemma {:induction false} SpelledIsLowerDotted(name: Bytes, ls: seq<Bytes>)
    requires AreLabels(ls) && AsciiLabels(ls)
    ensures Spelled(LowerAll(name), ls) == LowerAll(Dotted(name, ls))
    decreases |ls|
  {
    if ls != [] {
      AsciiLowerText(ls[0]);
      LowerJoined(name, ls[0]);
      SpelledIsLowerDotted(Joined(name, ls[0]), ls[1..]);
    }
  }

  /** On any buffer: where `parse_name` succeeds, `skip_name` stops at the same place within its 256 steps, and if
      the bytes are ASCII `read_name` returns the same name up to letter case. */
  lemma WalkersAgree(lossy: Bytes -> Bytes, buf: Bytes, pos: nat)
    requires KeepsAscii(lossy) && ParseNameFrom(buf, pos, []).Ok?
    ensures var (name, end) := ParseNameFrom(buf, pos, []).value;
            && SkipNameFrom(buf, pos, SKIP_STEPS) == Ok(end)
            && (Ascii(buf[pos..end]) ==>
                  var r := ReadNameFrom(lossy, buf, pos, 0, []);
                  r.Some? && LowerAll(r.value) == name)
  {
    hide ParseNameFrom, SkipNameFrom, ReadNameFrom, Ascii;
    var ls := ParsedIsWire(buf, pos, []);
    var (name, end) := ParseNameFrom(buf, pos, []).value;
    assert |ls| <= MAX_NAME;
    WireIsSkipped(buf, pos, ls, SKIP_STEPS);
    if Ascii(buf[pos..end]) {
      WireAscii(ls);
      SpelledIsLowerDotted([], ls);
      assert LowerAll([]) == [];
      WireIsRead(lossy, buf, pos, 0, [], ls);
    }
  }

  lemma {:induction false} WireAscii(ls: seq<Bytes>)
    requires AreLabels(ls) && Ascii(Wire(ls))
    ensures AsciiLabels(ls)
    decreases |ls|
  {
    if ls != [] {
      var head, tail := [|ls[0]|] + ls[0], Wire(ls[1..]);
      forall i | 0 <= i < |tail| ensures tail[i] < 128 {
        assert Wire(ls)[|head| + i] == tail[i];
      }
      forall i | 0 <= i < |ls[0]| ensures ls[0][i] < 128 {
        assert Wire(ls)[1 + i] == ls[0][i];
      }
      WireAscii(ls[1..]);
    }
  }
}
