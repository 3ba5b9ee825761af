/** DNS messages (message.rs): the query parser, the response writers, the query builder and the response parser. */
module DnsMessage {
  import opened MachineInts
  import opened Wrappers
  import opened DnsNames

  const TYPE_A: u16 := 1
  const TYPE_MX: u16 := 15
  const TYPE_TXT: u16 := 16
  const TYPE_AAAA: u16 := 28
  const TYPE_SRV: u16 := 33
  const CLASS_IN: u16 := 1

  const RCODE_NOERROR: byte := 0
  const RCODE_FORMERR: byte := 1
  const RCODE_NXDOMAIN: byte := 3
  const RCODE_NOTIMP: byte := 4

  const HEADER_LEN: nat := 12

  datatype Query = Query(id: u16, rd: bool, name: Bytes, qtype: u16, qclass: u16, questionEnd: nat, raw: Bytes) {
    predicate Valid() {
      HEADER_LEN < questionEnd <= |raw|
    }
  }

  function Word(buf: Bytes, pos: nat): u16
    requires pos + 2 <= |buf|
  {
    FromBe16(buf[pos], buf[pos + 1])
  }

  function Long(buf: Bytes, pos: nat): u32
    requires pos + 4 <= |buf|
  {
    FromBe32(buf[pos], buf[pos + 1], buf[pos + 2], buf[pos + 3])
  }

  /** `parse_query`; the flag tests read bit 7 and bit 0 of the third byte. */
  function ParsedQuery(buf: Bytes): (r: Result<Query, DnsError>)
    ensures r.Ok? ==> r.value.Valid() && r.value.raw == buf
  {
    if |buf| < HEADER_LEN then Err(Truncated)
    else if buf[2] >= 128 then Err(NotAQuery)
    else if Word(buf, 4) == 0 then Err(NoQuestion)
    else
      var (name, pos) :- ParseNameFrom(buf, HEADER_LEN, []);
      if pos + 4 > |buf| then Err(Truncated)
      else Ok(Query(Word(buf, 0), buf[2] % 2 == 1, name, Word(buf, pos), Word(buf, pos + 2), pos + 4, buf))
  }

  method ParseQuery(buf: Bytes) returns (r: Result<Query, DnsError>)
    ensures r == ParsedQuery(buf)
  {
    if |buf| < HEADER_LEN {
      return Err(Truncated);
    }
    var id := Word(buf, 0);
    if buf[2] >= 128 {
      return Err(NotAQuery);
    }
    var rd := buf[2] % 2 == 1;
    var qdcount := Word(buf, 4);
    if qdcount == 0 {
      return Err(NoQuestion);
    }
    var parsed := ParseName(buf, HEADER_LEN);
    if parsed.Err? {
      return Err(parsed.error);
    }
    var (name, pos) := parsed.value;
    if pos + 4 > |buf| {
      return Err(Truncated);
    }
    return Ok(Query(id, rd, name, Word(buf, pos), Word(buf, pos + 2), pos + 4, buf));
  }

  // ---------------------------------------------------------------- writers

  /** A message whose header has become a response's. */
  function WithResponseHeader(msg: Bytes, rd: bool, rcode: byte, ancount: u16): (r: Bytes)
    requires |msg| >= HEADER_LEN
    ensures |r| == |msg| && r[HEADER_LEN..] == msg[HEADER_LEN..]
  {
    msg[..2] + [if rd then 0x81 else 0x80, 0x80 + rcode % 16] + msg[4..6]
    + Be16(ancount) + [0, 0, 0, 0] + msg[HEADER_LEN..]
  }

  method WriteResponseHeader(out: array<byte>, rd: bool, rcode: byte, ancount: u16)
    requires out.Length >= HEADER_LEN
    modifies out
    ensures out[..] == WithResponseHeader(old(out[..]), rd, rcode, ancount)
  {
    out[2] := if rd then 0x81 else 0x80;
    out[3] := 0x80 + rcode % 16;
    out[6], out[7] := Be16(ancount)[0], Be16(ancount)[1];
    out[8], out[9] := Be16(0)[0], Be16(0)[1];
    out[10], out[11] := Be16(0)[0], Be16(0)[1];
  }

  function AnswerRecord(ip: u32, ttl: u32): (r: Bytes)
    ensures |r| == 16
  {
    [0xC0, 0x0C] + Be16(TYPE_A) + Be16(CLASS_IN) + Be32(ttl) + Be16(4) + Be32(ip)
  }

  /** The echoed header and question of a query, turned into a response. */
  function Echo(q: Query, rcode: byte, ancount: u16): Bytes
    requires q.Valid()
  {
    WithResponseHeader(q.raw[..q.questionEnd], q.rd, rcode, ancount)
  }

  method EchoPrefix(q: Query, rcode: byte, ancount: u16) returns (out: Bytes)
    requires q.Valid()
    ensures out == Echo(q, rcode, ancount)
  {
    var prefix := q.raw[..q.questionEnd];
    var buf := new byte[|prefix|](i requires 0 <= i < |prefix| => prefix[i]);
    assert buf[..] == prefix;
    WriteResponseHeader(buf, q.rd, rcode, ancount);
    out := buf[..];
  }

  method AnswerA(q: Query, ip: u32, ttl: u32) returns (out: Bytes)
    requires q.Valid()
    ensures out == Echo(q, RCODE_NOERROR, 1) + AnswerRecord(ip, ttl)
  {
    out := EchoPrefix(q, RCODE_NOERROR, 1);
    ghost var head := out;
    out := out + [0xC0, 0x0C];
    out := out + Be16(TYPE_A);
    out := out + Be16(CLASS_IN);
    out := out + Be32(ttl);
    out := out + Be16(4);
    out := out + Be32(ip);
    assert out == head + AnswerRecord(ip, ttl);
  }

  /** `error_response`: a bare header with the query's id, if it has one. */
  function ErrorResponse(buf: Bytes, rcode: byte): Bytes {
    (if |buf| >= 2 then buf[..2] else [0, 0]) + [0x80, 0x80 + rcode % 16, 0, 0, 0, 0, 0, 0, 0, 0]
  }

  method WriteErrorResponse(query: Bytes, rcode: byte) returns (r: Bytes)
    ensures r == ErrorResponse(query, rcode)
  {
    var id := if |query| >= 2 then Word(query, 0) else 0;
    var out := new byte[HEADER_LEN](_ => 0);
    if |query| >= 2 {
      Be16OfWord(query[0], query[1]);
    }
    out[0], out[1] := Be16(id)[0], Be16(id)[1];
    WriteResponseHeader(out, false, rcode, 0);
    out[4], out[5] := Be16(0)[0], Be16(0)[1];
    r := out[..];
  }

  lemma Be16OfWord(hi: byte, lo: byte)
    ensures Be16(FromBe16(hi, lo)) == [hi, lo]
  {
  }

  // ---------------------------------------------------------------- build_query

  /** `str::split('.')` */
  function SplitDots(name: Bytes): (ls: seq<Bytes>)
    ensures |ls| > 0
  {
    if name == [] then [[]]
    else
      var rest := SplitDots(name[1..]);
      if name[0] == DOT then [[]] + rest else [[name[0]] + rest[0]] + rest[1..]
  }

  function NameLabels(name: Bytes): seq<Bytes> {
    if name == [] then [] else SplitDots(name)
  }

  /** `build_query_with` */
  function BuiltQuery(id: u16, name: Bytes, qtype: u16, rd: bool): Result<Bytes, DnsError> {
    var ls := NameLabels(name);
    if !AreLabels(ls) || |Wire(ls)| > MAX_NAME then Err(NameTooLong)
    else Ok(QueryHeader(id, rd) + Wire(ls) + Be16(qtype) + Be16(CLASS_IN))
  }

  function QueryHeader(id: u16, rd: bool): (h: Bytes)
    ensures |h| == HEADER_LEN
  {
    Be16(id) + Be16(if rd then 0x0100 else 0) + Be16(1) + [0, 0, 0, 0, 0, 0]
  }

  /** Wire labels without the closing root label. */
  function OpenWire(ls: seq<Bytes>): Bytes
    requires AreLabels(ls)
  {
    if ls == [] then [] else [|ls[0]|] + ls[0] + OpenWire(ls[1..])
  }

  lemma {:induction false} OpenWireSnoc(ls: seq<Bytes>, l: Bytes)
    requires AreLabels(ls) && IsLabel(l)
    ensures AreLabels(ls + [l]) && OpenWire(ls + [l]) == OpenWire(ls) + ([|l|] + l)
    decreases |ls|
  {
    if ls == [] {
      assert [l][1..] == [];
    } else {
      OpenWireSnoc(ls[1..], l);
      assert (ls + [l])[1..] == ls[1..] + [l];
    }
  }

  lemma {:induction false} WireIsClosed(ls: seq<Bytes>)
    requires AreLabels(ls)
    ensures Wire(ls) == OpenWire(ls) + [0]
    decreases |ls|
  {
    if ls != [] {
      WireIsClosed(ls[1..]);
    }
  }

  method BuildQueryWith(id: u16, name: Bytes, qtype: u16, rd: bool) returns (r: Result<Bytes, DnsError>)
    ensures r == BuiltQuery(id, name, qtype, rd)
  {
    var out: Bytes := Be16(id);
    out := out + Be16(if rd then 0x0100 else 0);
    out := out + Be16(1);
    out := out + [0, 0, 0, 0, 0, 0];
    assert out == QueryHeader(id, rd);
    var ls := NameLabels(name);
    for i := 0 to |ls|
      invariant AreLabels(ls[..i])
      invariant out == QueryHeader(id, rd) + OpenWire(ls[..i])
    {
      var l := ls[i];
      if l == [] || |l| > 63 {
        return Err(NameTooLong);
      }
      OpenWireSnoc(ls[..i], l);
      assert ls[..i + 1] == ls[..i] + [l];
      out := out + [|l|];
      out := out + l;
      assert out == QueryHeader(id, rd) + (OpenWire(ls[..i]) + ([|l|] + l));
    }
    assert ls[..|ls|] == ls;
    WireIsClosed(ls);
    out := out + [0];
    assert out == QueryHeader(id, rd) + Wire(ls);
    if |out| - HEADER_LEN > 255 {
      return Err(NameTooLong);
    }
    out := out + Be16(qtype);
    out := out + Be16(CLASS_IN);
    return Ok(out);
  }
}
