/** The ClientHello parser (tls.rs, `Reader`, `parse_client_hello`, `parse_handshake`) against an encoder for every
    well-formed hello (section 4.1.2 of RFC 8446, extensions as in RFC 6066 and RFC 7301). */
module TlsHello {
  import opened MachineInts
  import opened Wrappers
  import opened TlsRecords
  import Utf8

  // ---------------------------------------------------------------- cursor reads

  function ReadU8(buf: Bytes, pos: nat): Result<byte, ParseErr>
    requires pos <= |buf|
  {
    if |buf| - pos < 1 then Err(Short(1, |buf| - pos)) else Ok(buf[pos])
  }

  function ReadU16(buf: Bytes, pos: nat): Result<u16, ParseErr>
    requires pos <= |buf|
  {
    if |buf| - pos < 2 then Err(Short(2, |buf| - pos)) else Ok(FromBe16(buf[pos], buf[pos + 1]))
  }

  function ReadU24(buf: Bytes, pos: nat): Result<nat, ParseErr>
    requires pos <= |buf|
  {
    if |buf| - pos < 3 then Err(Short(3, |buf| - pos)) else Ok(FromBe24(buf[pos], buf[pos + 1], buf[pos + 2]))
  }

  function FromBe24(a: byte, b: byte, c: byte): nat {
    var hi: int := a;
    hi * 65536 + FromBe16(b, c)
  }

  function ReadSlice(buf: Bytes, pos: nat, n: nat): (r: Result<Bytes, ParseErr>)
    requires pos <= |buf|
    ensures r.Ok? ==> pos + n <= |buf| && |r.value| == n
  {
    if |buf| - pos < n then Err(Short(n, |buf| - pos)) else Ok(buf[pos..pos + n])
  }

  /** The source's cursor: every read either fails and stays, or returns bytes and moves past them. */
  class Reader {
    const buf: Bytes
    var pos: nat

    ghost predicate Valid()
      reads this
    {
      pos <= |buf|
    }

    constructor (buf: Bytes)
      ensures Valid() && this.buf == buf && pos == 0
    {
      this.buf, pos := buf, 0;
    }

    method Need(n: nat) returns (r: Result<(), ParseErr>)
      requires Valid()
      ensures r == if |buf| - pos < n then Err(Short(n, |buf| - pos)) else Ok(())
    {
      if |buf| - pos < n {
        return Err(Short(n, |buf| - pos));
      }
      return Ok(());
    }

    method U8() returns (r: Result<byte, ParseErr>)
      requires Valid()
      modifies this
      ensures Valid() && r == ReadU8(buf, old(pos)) && pos == old(pos) + if r.Ok? then 1 else 0
    {
      var enough := Need(1);
      if enough.Err? {
        return Err(enough.error);
      }
      var v := buf[pos];
      pos := pos + 1;
      return Ok(v);
    }

    method U16() returns (r: Result<u16, ParseErr>)
      requires Valid()
      modifies this
      ensures Valid() && r == ReadU16(buf, old(pos)) && pos == old(pos) + if r.Ok? then 2 else 0
    {
      var enough := Need(2);
      if enough.Err? {
        return Err(enough.error);
      }
      var v := FromBe16(buf[pos], buf[pos + 1]);
      pos := pos + 2;
      return Ok(v);
    }

    method U24() returns (r: Result<nat, ParseErr>)
      requires Valid()
      modifies this
      ensures Valid() && r == ReadU24(buf, old(pos)) && pos == old(pos) + if r.Ok? then 3 else 0
    {
      var enough := Need(3);
      if enough.Err? {
        return Err(enough.error);
      }
      var v := FromBe24(buf[pos], buf[pos + 1], buf[pos + 2]);
      pos := pos + 3;
      return Ok(v);
    }

    method Slice(n: nat) returns (r: Result<Bytes, ParseErr>)
      requires Valid()
      modifies this
      ensures Valid() && r == ReadSlice(buf, old(pos), n) && pos == old(pos) + if r.Ok? then n else 0
    {
      var enough := Need(n);
      if enough.Err? {
        return Err(enough.error);
      }
      var s := buf[pos..pos + n];
      pos := pos + n;
      return Ok(s);
    }
  }

  // ---------------------------------------------------------------- what the parser computes

  datatype Hello = Hello(version: u16, sni: Option<Bytes>, alpns: seq<Bytes>, echOuter: bool)

  /** `str::from_utf8(name).ok()` */
  function TextOf(name: Bytes): Option<Bytes> {
    if Utf8.Decode(name).Some? then Some(name) else None
  }

  function SniFrom(list: Bytes, pos: nat): Result<Option<Bytes>, ParseErr>
    requires pos <= |list|
    decreases |list| - pos
  {
    if pos == |list| then Ok(None)
    else
      var kind :- ReadU8(list, pos);
      var len :- ReadU16(list, pos + 1);
      var name :- ReadSlice(list, pos + 3, len);
      if kind == 0 then Ok(TextOf(name)) else SniFrom(list, pos + 3 + len)
  }

  function ParsedSni(body: Bytes): Result<Option<Bytes>, ParseErr> {
    var len :- ReadU16(body, 0);
    var list :- ReadSlice(body, 2, len);
    SniFrom(list, 0)
  }

  function AlpnFrom(list: Bytes, pos: nat): Result<seq<Bytes>, ParseErr>
    requires pos <= |list|
    decreases |list| - pos
  {
    if pos == |list| then Ok([])
    else
      var n :- ReadU8(list, pos);
      var p :- ReadSlice(list, pos + 1, n);
      var rest :- AlpnFrom(list, pos + 1 + n);
      Ok([p] + rest)
  }

  function ParsedAlpn(body: Bytes): Result<seq<Bytes>, ParseErr> {
    var len :- ReadU16(body, 0);
    var list :- ReadSlice(body, 2, len);
    AlpnFrom(list, 0)
  }

  const EXT_SNI: u16 := 0x0000
  const EXT_ALPN: u16 := 0x0010
  const EXT_ECH: u16 := 0xfe0d

  /** What one extension adds to the result. */
  function WithExtension(out: Hello, kind: u16, body: Bytes): Result<Hello, ParseErr> {
    if kind == EXT_SNI then
      var sni :- ParsedSni(body);
      Ok(if sni.Some? then out.(sni := sni) else out)
    else if kind == EXT_ALPN then
      var alpns :- ParsedAlpn(body);
      Ok(out.(alpns := alpns))
    else if kind == EXT_ECH then Ok(out.(echOuter := body != [] && body[0] == 0))
    else Ok(out)
  }

  function ExtensionsFrom(exts: Bytes, pos: nat, out: Hello): Result<Hello, ParseErr>
    requires pos <= |exts|
    decreases |exts| - pos
  {
    if pos == |exts| then Ok(out)
    else
      var kind :- ReadU16(exts, pos);
      var len :- ReadU16(exts, pos + 2);
      var body :- ReadSlice(exts, pos + 4, len);
      var out' :- WithExtension(out, kind, body);
      ExtensionsFrom(exts, pos + 4 + len, out')
  }

  /** The hello without its handshake header. */
  function ParsedBody(body: Bytes): Result<Hello, ParseErr> {
    var version :- ReadU16(body, 0);
    var random :- ReadSlice(body, 2, 32);
    var sidLen :- ReadU8(body, 34);
    var sid :- ReadSlice(body, 35, sidLen);
    var p1: nat := 35 + sidLen as int;
    var csLen :- ReadU16(body, p1);
    var cs :- ReadSlice(body, p1 + 2, csLen);
    var p2: nat := p1 + 2 + csLen;
    var cmLen :- ReadU8(body, p2);
    var cm :- ReadSlice(body, p2 + 1, cmLen);
    var p3: nat := p2 + 1 + cmLen;
    var out := Hello(version, None, [], false);
    if p3 == |body| then Ok(out)
    else
      var extLen :- ReadU16(body, p3);
      var exts :- ReadSlice(body, p3 + 2, extLen);
      ExtensionsFrom(exts, 0, out)
  }

  function ParsedHandshake(hs: Bytes): Result<Hello, ParseErr> {
    var kind :- ReadU8(hs, 0);
    if kind != 1 then Err(NotClientHello)
    else
      var len :- ReadU24(hs, 1);
      var body :- ReadSlice(hs, 4, len);
      ParsedBody(body)
  }

  function ParsedClientHello(buf: Bytes): Result<Hello, ParseErr> {
    var ct :- ReadU8(buf, 0);
    if ct != HANDSHAKE then Err(NotHandshake)
    else
      var version :- ReadU16(buf, 1);
      var len :- ReadU16(buf, 3);
      var rec :- ReadSlice(buf, 5, len);
      ParsedHandshake(rec)
  }

  // ---------------------------------------------------------------- the parser

  method ParseSni(body: Bytes) returns (r: Result<Option<Bytes>, ParseErr>)
    ensures r == ParsedSni(body)
  {
    var reader := new Reader(body);
    var len :- reader.U16();
    var list :- reader.Slice(len);
    var lr := new Reader(list);
    while lr.pos < |lr.buf|
      invariant lr.Valid() && lr.buf == list
      invariant ParsedSni(body) == SniFrom(list, lr.pos)
      decreases |lr.buf| - lr.pos
    {
      var read := lr.U8();
      var kind := read.value;
      var n :- lr.U16();
      var name :- lr.Slice(n);
      if kind == 0 {
        return Ok(TextOf(name));
      }
    }
    return Ok(None);
  }

  method ParseAlpn(body: Bytes) returns (r: Result<seq<Bytes>, ParseErr>)
    ensures r == ParsedAlpn(body)
  {
    var reader := new Reader(body);
    var len :- reader.U16();
    var list :- reader.Slice(len);
    var lr := new Reader(list);
    var out: seq<Bytes> := [];
    PrependedTwice([], [], ParsedAlpn(body));
    while lr.pos < |lr.buf|
      invariant lr.Valid() && lr.buf == list
      invariant ParsedAlpn(body) == Prepended(out, AlpnFrom(list, lr.pos))
      decreases |lr.buf| - lr.pos
    {
      ghost var was := out;
      var read := lr.U8();
      var n := read.value;
      var p :- lr.Slice(n);
      out := out + [p];
      PrependedTwice(was, [p], AlpnFrom(list, lr.pos));
    }
    PrependedTwice<Bytes, ParseErr>(out, [], Ok([]));
    return Ok(out);
  }

  method ParseExtension(out: Hello, kind: u16, body: Bytes) returns (r: Result<Hello, ParseErr>)
    ensures r == WithExtension(out, kind, body)
  {
    if kind == EXT_SNI {
      var sni :- ParseSni(body);
      if sni.Some? {
        return Ok(out.(sni := sni));
      }
    } else if kind == EXT_ALPN {
      var alpns :- ParseAlpn(body);
      return Ok(out.(alpns := alpns));
    } else if kind == EXT_ECH {
      return Ok(out.(echOuter := body != [] && body[0] == 0));
    }
    return Ok(out);
  }

  /** The loop over the extensions. */
  method ParseExtensions(exts: Bytes, start: Hello) returns (r: Result<Hello, ParseErr>)
    ensures r == ExtensionsFrom(exts, 0, start)
  {
    hide ReadU16, ReadSlice, WithExtension;
    var out := start;
    var er := new Reader(exts);
    while er.pos < |er.buf|
      invariant er.Valid() && er.buf == exts
      invariant ExtensionsFrom(exts, 0, start) == ExtensionsFrom(exts, er.pos, out)
      decreases |er.buf| - er.pos
    {
      var kind :- er.U16();
      var len :- er.U16();
      var ext :- er.Slice(len);
      var next :- ParseExtension(out, kind, ext);
      out := next;
    }
    return Ok(out);
  }

  method ParseBody(body: Bytes) returns (r: Result<Hello, ParseErr>)
    ensures r == ParsedBody(body)
  {
    hide ReadU8, ReadU16, ReadSlice, ExtensionsFrom;
    var br := new Reader(body);
    var version :- br.U16();
    var random :- br.Slice(32);
    var sidLen :- br.U8();
    var sid :- br.Slice(sidLen);
    var csLen :- br.U16();
    var cs :- br.Slice(csLen);
    var cmLen :- br.U8();
    var cm :- br.Slice(cmLen);
    var out := Hello(version, None, [], false);
    if br.pos >= |br.buf| {
      return Ok(out);
    }
    var extLen :- br.U16();
    var exts :- br.Slice(extLen);
    r := ParseExtensions(exts, out);
  }

  method ParseHandshake(hs: Bytes) returns (r: Result<Hello, ParseErr>)
    ensures r == ParsedHandshake(hs)
  {
    var rr := new Reader(hs);
    var kind :- rr.U8();
    if kind != 1 {
      return Err(NotClientHello);
    }
    var len :- rr.U24();
    var body :- rr.Slice(len);
    r := ParseBody(body);
  }

  method ParseClientHello(buf: Bytes) returns (r: Result<Hello, ParseErr>)
    ensures r == ParsedClientHello(buf)
  {
    var reader := new Reader(buf);
    var ct :- reader.U8();
    if ct != HANDSHAKE {
      return Err(NotHandshake);
    }
    var version :- reader.U16();
    var len :- reader.U16();
    var rec :- reader.Slice(len);
    r := ParseHandshake(rec);
  }

  // ---------------------------------------------------------------- every well-formed hello

  datatype NameEntry = NameEntry(kind: byte, name: Bytes)

  datatype Extension =
    | ServerNames(names: seq<NameEntry>)
    | Protocols(protos: seq<Bytes>)
    | Other(kind: u16, data: Bytes)

  function NamesWire(ns: seq<NameEntry>): Bytes
    requires forall i :: 0 <= i < |ns| ==> |ns[i].name| < TWO_16
  {
    if ns == [] then [] else [ns[0].kind] + Be16(|ns[0].name|) + ns[0].name + NamesWire(ns[1..])
  }

  function ProtosWire(ps: seq<Bytes>): Bytes
    requires forall i :: 0 <= i < |ps| ==> |ps[i]| < 256
  {
    if ps == [] then [] else [|ps[0]|] + ps[0] + ProtosWire(ps[1..])
  }

  predicate ValidExtension(e: Extension) {
    match e
    case ServerNames(ns) => (forall i :: 0 <= i < |ns| ==> |ns[i].name| < TWO_16) && |NamesWire(ns)| < TWO_16 - 2
    case Protocols(ps) => (forall i :: 0 <= i < |ps| ==> |ps[i]| < 256) && |ProtosWire(ps)| < TWO_16 - 2
    case Other(kind, data) => kind != 0 && kind != 16 && |data| < TWO_16
  }

  function KindOf(e: Extension): u16 {
    match e
    case ServerNames(_) => 0
    case Protocols(_) => 16
    case Other(kind, _) => kind
  }

  function DataOf(e: Extension): (d: Bytes)
    requires ValidExtension(e)
    ensures |d| < TWO_16
  {
    match e
    case ServerNames(ns) => Be16(|NamesWire(ns)|) + NamesWire(ns)
    case Protocols(ps) => Be16(|ProtosWire(ps)|) + ProtosWire(ps)
    case Other(_, data) => data
  }

  /** The name a server-name list asks for: its first host name, if that is text. */
  function HostName(ns: seq<NameEntry>): Option<Bytes> {
    if ns == [] then None
    else if ns[0].kind == 0 then TextOf(ns[0].name)
    else HostName(ns[1..])
  }

  /** What an extension means for the result. */
  function Meaning(out: Hello, e: Extension): Hello {
    match e
    case ServerNames(ns) => if HostName(ns).Some? then out.(sni := HostName(ns)) else out
    case Protocols(ps) => out.(alpns := ps)
    case Other(kind, data) => if kind == 0xfe0d then out.(echOuter := data != [] && data[0] == 0) else out
  }

  function MeaningOfAll(out: Hello, es: seq<Extension>): Hello
    decreases |es|
  {
    if es == [] then out else MeaningOfAll(Meaning(out, es[0]), es[1..])
  }

  function ExtensionsWire(es: seq<Extension>): Bytes
    requires forall i :: 0 <= i < |es| ==> ValidExtension(es[i])
  {
    if es == [] then []
    else Be16(KindOf(es[0])) + Be16(|DataOf(es[0])|) + DataOf(es[0]) + ExtensionsWire(es[1..])
  }

  datatype Message = Message(version: u16, random: Bytes, sessionId: Bytes, suites: Bytes, compression: Bytes,
                             extensions: Option<seq<Extension>>)
  {
    predicate Valid() {
      && |random| == 32 && |sessionId| < 256 && |suites| < TWO_16 && |compression| < 256
      && (extensions.Some? ==>
            && (forall i :: 0 <= i < |extensions.value| ==> ValidExtension(extensions.value[i]))
            && |ExtensionsWire(extensions.value)| < TWO_16)
    }

    function Tail(): Bytes
      requires Valid()
    {
      match extensions
      case None => []
      case Some(es) => Be16(|ExtensionsWire(es)|) + ExtensionsWire(es)
    }

    function Body(): Bytes
      requires Valid()
    {
      Be16(version) + (random + ([|sessionId|] + (sessionId + (Be16(|suites|) + (suites
      + ([|compression|] + (compression + Tail())))))))
    }

    function Meaning(): Hello {
      var out := Hello(version, None, [], false);
      match extensions
      case None => out
      case Some(es) => MeaningOfAll(out, es)
    }

    /** The whole handshake message. */
    function Encode(): Bytes
      requires Valid() && |Body()| < 0x100_0000
    {
      [1, |Body()| / 65536] + Be16(|Body()| % 65536) + Body()
    }
  }

  lemma SliceReads(buf: Bytes, pos: nat, s: Bytes, rest: Bytes)
    requires pos <= |buf| && buf[pos..] == s + rest
    ensures ReadSlice(buf, pos, |s|) == Ok(s)
    ensures pos + |s| <= |buf| && buf[pos + |s|..] == rest
  {
    assert buf[pos..][..|s|] == buf[pos..pos + |s|];
    assert buf[pos..][|s|..] == buf[pos + |s|..];
  }

  lemma U8Reads(buf: Bytes, pos: nat, b: byte, rest: Bytes)
    requires pos <= |buf| && buf[pos..] == [b] + rest
    ensures ReadU8(buf, pos) == Ok(b)
    ensures pos + 1 <= |buf| && buf[pos + 1..] == rest
  {
    SliceReads(buf, pos, [b], rest);
    assert buf[pos] == buf[pos..][0];
  }

  lemma U16Reads(buf: Bytes, pos: nat, n: u16, rest: Bytes)
    requires pos <= |buf| && buf[pos..] == Be16(n) + rest
    ensures ReadU16(buf, pos) == Ok(n)
    ensures pos + 2 <= |buf| && buf[pos + 2..] == rest
  {
    SliceReads(buf, pos, Be16(n), rest);
    Be16RoundTrip(n);
    assert buf[pos] == buf[pos..][0] && buf[pos + 1] == buf[pos..][1];
  }

  lemma {:induction false} NamesAreRead(list: Bytes, pos: nat, ns: seq<NameEntry>)
    requires forall i :: 0 <= i < |ns| ==> |ns[i].name| < TWO_16
    requires pos <= |list| && list[pos..] == NamesWire(ns)
    ensures SniFrom(list, pos) == Ok(HostName(ns))
    decreases |ns|
  {
    hide ReadU8, ReadU16, ReadSlice, TextOf;
    if ns != [] {
      var n, rest := ns[0], NamesWire(ns[1..]);
      assert list[pos..] == [n.kind] + (Be16(|n.name|) + (n.name + rest));
      U8Reads(list, pos, n.kind, Be16(|n.name|) + (n.name + rest));
      U16Reads(list, pos + 1, |n.name|, n.name + rest);
      SliceReads(list, pos + 3, n.name, rest);
      NamesAreRead(list, pos + 3 + |n.name|, ns[1..]);
    }
  }

  lemma {:induction false} ProtosAreRead(list: Bytes, pos: nat, ps: seq<Bytes>)
    requires forall i :: 0 <= i < |ps| ==> |ps[i]| < 256
    requires pos <= |list| && list[pos..] == ProtosWire(ps)
    ensures AlpnFrom(list, pos) == Ok(ps)
    decreases |ps|
  {
    hide ReadU8, ReadSlice;
    if ps != [] {
      var p, rest := ps[0], ProtosWire(ps[1..]);
      assert list[pos..] == [|p|] + (p + rest);
      U8Reads(list, pos, |p|, p + rest);
      SliceReads(list, pos + 1, p, rest);
      ProtosAreRead(list, pos + 1 + |p|, ps[1..]);
      assert ps == [p] + ps[1..];
    }
  }

  /** A length-prefixed list that fills its extension. */
  lemma ListIsRead(list: Bytes)
    requires |list| < TWO_16
    ensures ReadU16(Be16(|list|) + list, 0) == Ok(|list|)
    ensures ReadSlice(Be16(|list|) + list, 2, |list|) == Ok(list)
  {
    var body := Be16(|list|) + list;
    assert body[0..] == body && list + [] == list;
    U16Reads(body, 0, |list|, list);
    SliceReads(body, 2, list, []);
  }

  lemma ExtensionMeans(out: Hello, e: Extension)
    requires ValidExtension(e)
    ensures WithExtension(out, KindOf(e), DataOf(e)) == Ok(Meaning(out, e))
  {
    hide ReadU16, ReadSlice, SniFrom, AlpnFrom;
    match e
    case ServerNames(ns) =>
      ListIsRead(NamesWire(ns));
      assert NamesWire(ns)[0..] == NamesWire(ns);
      NamesAreRead(NamesWire(ns), 0, ns);
    case Protocols(ps) =>
      ListIsRead(ProtosWire(ps));
      assert ProtosWire(ps)[0..] == ProtosWire(ps);
      ProtosAreRead(ProtosWire(ps), 0, ps);
    case Other(_, _) =>
  }

  lemma {:induction false} ExtensionsAreRead(exts: Bytes, pos: nat, out: Hello, es: seq<Extension>)
    requires forall i :: 0 <= i < |es| ==> ValidExtension(es[i])
    requires pos <= |exts| && exts[pos..] == ExtensionsWire(es)
    ensures ExtensionsFrom(exts, pos, out) == Ok(MeaningOfAll(out, es))
    decreases |es|
  {
    hide ReadU16, ReadSlice, WithExtension, Meaning, DataOf, KindOf, ValidExtension;
    if es != [] {
      var e, rest := es[0], ExtensionsWire(es[1..]);
      var d := DataOf(e);
      assert exts[pos..] == Be16(KindOf(e)) + (Be16(|d|) + (d + rest));
      U16Reads(exts, pos, KindOf(e), Be16(|d|) + (d + rest));
      U16Reads(exts, pos + 2, |d|, d + rest);
      SliceReads(exts, pos + 4, d, rest);
      ExtensionMeans(out, e);
      ExtensionsAreRead(exts, pos + 4 + |d|, Meaning(out, e), es[1..]);
    }
  }

  /** The fixed part of the body up to the session id, field by field. */
  lemma BodyFrontIsRead(m: Message)
    requires m.Valid()
    ensures var body, p1 := m.Body(), 35 + |m.sessionId|;
            && ReadU16(body, 0) == Ok(m.version) && ReadSlice(body, 2, 32) == Ok(m.random)
            && ReadU8(body, 34) == Ok(|m.sessionId|) && ReadSlice(body, 35, |m.sessionId|) == Ok(m.sessionId)
            && p1 <= |body|
            && body[p1..] == Be16(|m.suites|) + (m.suites + ([|m.compression|] + (m.compression + m.Tail())))
  {
    hide ReadU8, ReadU16, ReadSlice, ExtensionsWire, Be16, Message.Tail;
    var body := m.Body();
    var r3 := Be16(|m.suites|) + (m.suites + ([|m.compression|] + (m.compression + m.Tail())));
    var r2 := m.sessionId + r3;
    var r1 := [|m.sessionId|] + r2;
    assert body[0..] == body;
    U16Reads(body, 0, m.version, m.random + r1);
    SliceReads(body, 2, m.random, r1);
    U8Reads(body, 34, |m.sessionId|, r2);
    SliceReads(body, 35, m.sessionId, r3);
  }

  /** And the rest of it. */
  lemma BodyHeadIsRead(m: Message)
    requires m.Valid()
    ensures var body, p1 := m.Body(), 35 + |m.sessionId|;
            var p2 := p1 + 2 + |m.suites|;
            var p3 := p2 + 1 + |m.compression|;
            && ReadU16(body, p1) == Ok(|m.suites|) && ReadSlice(body, p1 + 2, |m.suites|) == Ok(m.suites)
            && ReadU8(body, p2) == Ok(|m.compression|)
            && ReadSlice(body, p2 + 1, |m.compression|) == Ok(m.compression)
            && p3 <= |body| && body[p3..] == m.Tail()
  {
    hide ReadU8, ReadU16, ReadSlice, ExtensionsWire, Be16, Message.Body, Message.Tail;
    BodyFrontIsRead(m);
    TwoListsAreRead(m.Body(), 35 + |m.sessionId|, m.suites, m.compression, m.Tail());
  }

  lemma TwoListsAreRead(body: Bytes, p1: nat, suites: Bytes, compression: Bytes, tail: Bytes)
    requires p1 <= |body| && |suites| < TWO_16 && |compression| < 256
    requires body[p1..] == Be16(|suites|) + (suites + ([|compression|] + (compression + tail)))
    ensures var p2 := p1 + 2 + |suites|;
            var p3 := p2 + 1 + |compression|;
            && p3 <= |body| && body[p3..] == tail
            && ReadU16(body, p1) == Ok(|suites|) && ReadSlice(body, p1 + 2, |suites|) == Ok(suites)
            && ReadU8(body, p2) == Ok(|compression|) && ReadSlice(body, p2 + 1, |compression|) == Ok(compression)
  {
    hide ReadU8, ReadU16, ReadSlice, Be16;
    var r6 := compression + tail;
    var r5 := [|compression|] + r6;
    U16Reads(body, p1, |suites|, suites + r5);
    SliceReads(body, p1 + 2, suites, r5);
    var p2 := p1 + 2 + |suites|;
    U8Reads(body, p2, |compression|, r6);
    SliceReads(body, p2 + 1, compression, tail);
  }

  lemma BodyIsRead(m: Message)
    requires m.Valid()
    ensures ParsedBody(m.Body()) == Ok(m.Meaning())
  {
    hide ReadU8, ReadU16, ReadSlice, ExtensionsFrom, MeaningOfAll, ExtensionsWire, Message.Body;
    var body := m.Body();
    BodyFrontIsRead(m);
    BodyHeadIsRead(m);
    if m.extensions.Some? {
      var x, p3 := ExtensionsWire(m.extensions.value), 35 + |m.sessionId| + 2 + |m.suites| + 1 + |m.compression|;
      U16Reads(body, p3, |x|, x);
      assert x + [] == x && x[0..] == x;
      SliceReads(body, p3 + 2, x, []);
      ExtensionsAreRead(x, 0, Hello(m.version, None, [], false), m.extensions.value);
    }
  }

  lemma HeaderIsRead(n: nat, rest: Bytes)
    requires n < 0x100_0000
    ensures var hs := [1, n / 65536] + Be16(n % 65536) + rest;
            && ReadU8(hs, 0) == Ok(1) && ReadU24(hs, 1) == Ok(n) && hs[4..] == rest
            && |hs| == 4 + |rest| && Need(hs) == 4 + n
  {
    Be16RoundTrip(n % 65536);
  }

  /** Parsing any encoded hello, whatever follows it, gives what its extensions mean: the last server-name list with a
      textual host name decides the name, the last protocol list the protocols, the last ECH extension the ECH flag. */
  lemma HelloRoundTrip(m: Message, rest: Bytes)
    requires m.Valid() && |m.Body()| < 0x100_0000
    ensures ParsedHandshake(m.Encode() + rest) == Ok(m.Meaning())
    ensures Need(m.Encode() + rest) == |m.Encode()|
  {
    hide Message.Body, Message.Meaning, ParsedBody, Message.Valid, ReadU8, ReadU24, ReadSlice, Need;
    var hs, body := m.Encode() + rest, m.Body();
    HeaderIsRead(|body|, body + rest);
    assert hs == [1, |body| / 65536] + Be16(|body| % 65536) + (body + rest);
    SliceReads(hs, 4, body, rest);
    BodyIsRead(m);
  }

  /** The single-record wrapping used on the QUIC path. */
  function Wrapped(hs: Bytes): Bytes {
    [HANDSHAKE, 0x03, 0x01] + Be16(|hs| % TWO_16) + hs
  }

  /** Both entry points read the same hello: off a wrapped message, and off the message collected from any cutting
      of it into records. */
  lemma PathsAgree(rs: seq<Record>, rest: Bytes)
    requires AllValid(rs) && Complete(Bodies(rs)) && Need(Bodies(rs)) == |Bodies(rs)| < TWO_16
    ensures Collected(Wire(rs) + rest) == Ok(Bodies(rs))
    ensures ParsedClientHello(Wrapped(Bodies(rs))) == ParsedHandshake(Bodies(rs))
  {
    FragmentsCollect(rs, rest);
    assert Bodies(rs)[..|Bodies(rs)|] == Bodies(rs);
    WrappedIsRead(Bodies(rs), []);
  }

  lemma WrappedIsRead(hs: Bytes, rest: Bytes)
    requires |hs| < TWO_16
    ensures ParsedClientHello(Wrapped(hs) + rest) == ParsedHandshake(hs)
    ensures Wrapped(hs) + [] == Wrapped(hs) && Wrapped(hs) == Encode(Record(0x0301, hs))
  {
    hide ReadU16, ReadSlice, ParsedHandshake;
    assert [HANDSHAKE, 0x03, 0x01] + Be16(|hs|) + hs == [22] + Be16(0x0301) + Be16(|hs|) + hs;
    var buf := Wrapped(hs) + rest;
    assert buf[3..] == Be16(|hs|) + (hs + rest);
    U16Reads(buf, 3, |hs|, hs + rest);
    SliceReads(buf, 5, hs, rest);
    assert buf[1..] == Be16(0x0301) + buf[3..];
    U16Reads(buf, 1, 0x0301, buf[3..]);
  }

  /** For any hello of at most 65536 bytes, cut into any records: collecting and parsing gives its meaning. */
  lemma HelloAcrossRecords(m: Message, rs: seq<Record>, rest: Bytes)
    requires m.Valid() && |m.Body()| <= MAX_HANDSHAKE - 4
    requires AllValid(rs) && Bodies(rs) == m.Encode()
    ensures Collected(Wire(rs) + rest) == Ok(m.Encode())
    ensures ParsedHandshake(m.Encode()) == Ok(m.Meaning())
  {
    HelloRoundTrip(m, []);
    assert m.Encode() + [] == m.Encode();
    FragmentsCollect(rs, rest);
    assert m.Encode()[..|m.Encode()|] == m.Encode();
  }

  /** Messages and records of another type are refused. */
  lemma OtherTypesAreRefused(buf: Bytes)
    ensures ParsedHandshake(buf).Ok? ==> buf[0] == 1
    ensures |buf| > 0 && buf[0] != 1 ==> ParsedHandshake(buf) == Err(NotClientHello)
    ensures ParsedClientHello(buf).Ok? ==> buf[0] == 22
    ensures |buf| > 0 && buf[0] != 22 ==> ParsedClientHello(buf) == Err(NotHandshake)
  {
    hide ParsedBody;
  }

  /** A hello cut short is reported as such. */
  lemma CutHelloIsShort(m: Message, k: nat)
    requires m.Valid() && |m.Body()| < 0x100_0000 && k < |m.Encode()|
    ensures var r := ParsedHandshake(m.Encode()[..k]); r.Err? && r.error.Short?
  {
    hide ParsedBody, Message.Body, Message.Valid;
    var hs, cut := m.Encode(), m.Encode()[..k];
    HeaderIsRead(|m.Body()|, m.Body());
    if k >= 4 {
      assert cut[0] == hs[0] && cut[1] == hs[1] && cut[2] == hs[2] && cut[3] == hs[3];
    } else if k >= 1 {
      assert cut[0] == hs[0];
    }
  }

  // ---------------------------------------------------------------- hellos that name a host

  /** A server-name list gives its first host name exactly if that is the encoding of some text, as ASCII is; entries
      of other kinds in front of it do not count. */
  lemma FirstHostName(name: Bytes, ns: seq<NameEntry>)
    ensures HostName([NameEntry(0, name)] + ns) == if Utf8.IsText(name) then Some(name) else None
    ensures Ascii(name) ==> Utf8.IsText(name)
    ensures forall kind: byte :: kind != 0 ==> HostName([NameEntry(kind, name)] + ns) == HostName(ns)
    ensures HostName([]) == None && HostName([NameEntry(0, [0xFF])] + ns) == None
  {
    Utf8.DecodesExactly(name);
    if Ascii(name) {
      Utf8.DecodeAscii(name);
    }
    forall kind: byte | kind != 0 ensures HostName([NameEntry(kind, name)] + ns) == HostName(ns) {
      assert ([NameEntry(kind, name)] + ns)[1..] == ns;
    }
    LoneFF();
  }

  lemma LoneFF()
    ensures TextOf([0xFF]) == None
  {
  }

  /** A hello with this server-name list, the last of its kind. */
  ghost predicate Names(m: Message, name: Bytes) {
    m.extensions.Some? &&
    exists pre: seq<Extension>, ns: seq<NameEntry>, post: seq<Extension> ::
      && m.extensions.value == pre + [ServerNames([NameEntry(0, name)] + ns)] + post
      && forall i :: 0 <= i < |post| ==> !post[i].ServerNames?
  }

  lemma {:induction false} LaterExtensions(out: Hello, es: seq<Extension>)
    requires forall i :: 0 <= i < |es| ==> !es[i].ServerNames?
    ensures MeaningOfAll(out, es).sni == out.sni
    decreases |es|
  {
    if es != [] {
      LaterExtensions(Meaning(out, es[0]), es[1..]);
    }
  }

  lemma {:induction false} MeaningInParts(out: Hello, a: seq<Extension>, b: seq<Extension>)
    ensures MeaningOfAll(out, a + b) == MeaningOfAll(MeaningOfAll(out, a), b)
    decreases |a|
  {
    if a == [] {
      assert a + b == b;
    } else {
      assert (a + b)[1..] == a[1..] + b;
      MeaningInParts(Meaning(out, a[0]), a[1..], b);
    }
  }

  /** Such a hello means the host it names. */
  lemma NamedHost(m: Message, name: Bytes)
    requires Names(m, name) && Utf8.IsText(name)
    ensures m.Meaning().sni == Some(name)
  {
    hide HostName;
    var pre: seq<Extension>, ns: seq<NameEntry>, post: seq<Extension> :|
      && m.extensions.value == pre + [ServerNames([NameEntry(0, name)] + ns)] + post
      && forall i :: 0 <= i < |post| ==> !post[i].ServerNames?;
    var e, out := ServerNames([NameEntry(0, name)] + ns), Hello(m.version, None, [], false);
    FirstHostName(name, ns);
    MeaningInParts(out, pre + [e], post);
    MeaningInParts(out, pre, [e]);
    var before := MeaningOfAll(out, pre);
    assert [e][1..] == [];
    assert MeaningOfAll(before, [e]) == Meaning(before, e);
    LaterExtensions(Meaning(before, e), post);
  }

  /** In any records, such a hello parses to the host it names. */
  lemma HostAcrossRecords(m: Message, name: Bytes, rs: seq<Record>, rest: Bytes)
    requires m.Valid() && |m.Body()| <= MAX_HANDSHAKE - 4 && Names(m, name) && Utf8.IsText(name)
    requires AllValid(rs) && Bodies(rs) == m.Encode()
    ensures var hs := Collected(Wire(rs) + rest);
            && hs.Ok? && ParsedHandshake(hs.value).Ok? && ParsedHandshake(hs.value).value.sni == Some(name)
  {
    hide Message.Meaning, ParsedHandshake, Names;
    HelloAcrossRecords(m, rs, rest);
    NamedHost(m, name);
  }

  /** A read behind the end says how much was asked for and how much there was. */
  lemma ShortReads(buf: Bytes, pos: nat, n: nat)
    requires pos <= |buf|
    ensures |buf| == pos ==> ReadU8(buf, pos) == Err(Short(1, 0))
    ensures |buf| < pos + 2 ==> ReadU16(buf, pos) == Err(Short(2, |buf| - pos))
    ensures |buf| < pos + 3 ==> ReadU24(buf, pos) == Err(Short(3, |buf| - pos))
    ensures |buf| < pos + n ==> ReadSlice(buf, pos, n) == Err(Short(n, |buf| - pos))
  {
  }
}
