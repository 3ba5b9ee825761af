/** The FakeIP name server (dns_server.rs): one query in, one reply out, the pool as its only state; and what a
    client that builds a query and parses the reply ends up with. */
module DnsServer {
  import opened MachineInts
  import opened Wrappers
  import opened Hashing
  import opened PoolLayout
  import opened PoolState
  import opened DnsNames
  import opened DnsMessage
  import opened DnsReply
  import opened FakeIpPool

  /** The reply to a query and the pool state after it; `valid` is the domain filter. */
  function Handled(hs: Hashes, l: Layout, valid: Bytes -> bool, st: State, buf: Bytes): (State, Bytes)
    requires Invariant(hs, l, st)
  {
    match ParsedQuery(buf)
    case Err(_) => (st, ErrorResponse(buf, RCODE_FORMERR))
    case Ok(q) =>
      if q.qclass != CLASS_IN then (st, Echo(q, RCODE_NOTIMP, 0))
      else if q.qtype != TYPE_A then (st, Echo(q, RCODE_NOERROR, 0))
      else if !valid(q.name) then (st, Echo(q, RCODE_NXDOMAIN, 0))
      else (AfterIntern(hs, l, st, q.name),
            Echo(q, RCODE_NOERROR, 1) + AnswerRecord(AddressOf(hs, l, st, q.name), l.ttl))
  }

  method HandleQuery(pool: Pool, valid: Bytes -> bool, buf: Bytes) returns (reply: Bytes)
    requires pool.Valid()
    modifies pool.shards
    ensures pool.Valid()
    ensures (pool.Abs(), reply) == Handled(pool.hs, pool.layout, valid, old(pool.Abs()), buf)
  {
    hide ParsedQuery, Echo, AnswerRecord, Invariant, Layout.Valid, AfterIntern, AddressOf;
    var parsed := ParseQuery(buf);
    if parsed.Err? {
      reply := WriteErrorResponse(buf, RCODE_FORMERR);
      return;
    }
    var q := parsed.value;
    if q.qclass != CLASS_IN {
      reply := EchoPrefix(q, RCODE_NOTIMP, 0);
      return;
    }
    if q.qtype == TYPE_A {
      if !valid(q.name) {
        reply := EchoPrefix(q, RCODE_NXDOMAIN, 0);
        return;
      }
      var ip := pool.Intern(q.name);
      reply := AnswerA(q, ip, pool.layout.ttl);
    } else {
      reply := EchoPrefix(q, RCODE_NOERROR, 0);
    }
  }

  // ---------------------------------------------------------------- the query builder against the query parser

  function JoinDots(ls: seq<Bytes>): Bytes
    requires |ls| > 0
    decreases |ls|
  {
    if |ls| == 1 then ls[0] else ls[0] + ([DOT] + JoinDots(ls[1..]))
  }

  lemma {:induction false} JoinAfterSplit(name: Bytes)
    ensures JoinDots(SplitDots(name)) == name
  {
    hide JoinDots;
    if name == [] {
      JoinOne([]);
    } else {
      JoinAfterSplit(name[1..]);
      var rest := SplitDots(name[1..]);
      if name[0] == DOT {
        JoinDotted(rest);
        assert [DOT] + name[1..] == name;
      } else {
        JoinGrows(name[0], rest);
        assert [name[0]] + name[1..] == name;
      }
    }
  }

  lemma JoinOne(l: Bytes)
    ensures JoinDots([l]) == l
  {
  }

  lemma JoinDotted(ls: seq<Bytes>)
    requires |ls| > 0
    ensures JoinDots([[]] + ls) == [DOT] + JoinDots(ls)
  {
    assert ([[]] + ls)[1..] == ls;
    assert [] + ([DOT] + JoinDots(ls)) == [DOT] + JoinDots(ls);
  }

  lemma JoinGrows(b: byte, ls: seq<Bytes>)
    requires |ls| > 0
    ensures JoinDots([[b] + ls[0]] + ls[1..]) == [b] + JoinDots(ls)
  {
    var ls' := [[b] + ls[0]] + ls[1..];
    assert ls'[1..] == ls[1..];
    if |ls| > 1 {
      Concat3([b], ls[0], [DOT] + JoinDots(ls[1..]));
    }
  }

  lemma {:induction false} LowerTextConcat(a: Bytes, b: Bytes)
    ensures LowerText(a + b) == LowerText(a) + LowerText(b)
    decreases |a|
  {
    hide LowerLatin;
    if a == [] {
      assert a + b == b;
    } else {
      assert (a + b)[1..] == a[1..] + b;
      LowerTextConcat(a[1..], b);
    }
  }

  lemma LowerDot(b: Bytes)
    ensures LowerText([DOT] + b) == [DOT] + LowerText(b)
  {
    assert ([DOT] + b)[1..] == b;
  }

  /** Labels spell what their dotted text spells. */
  lemma {:induction false} SpelledIsJoined(name: Bytes, ls: seq<Bytes>)
    requires AreLabels(ls) && ls != []
    ensures Spelled(name, ls) == Joined(name, LowerText(JoinDots(ls)))
    ensures |Wire(ls)| == |JoinDots(ls)| + 2
    decreases |ls|
  {
    hide LowerText, Joined;
    if |ls| == 1 {
      assert ls[1..] == [];
    } else {
      var first, rest := LowerText(ls[0]), JoinDots(ls[1..]);
      SpelledIsJoined(Joined(name, first), ls[1..]);
      JoinedTwice(name, first, LowerText(rest));
      LowerTextConcat(ls[0], [DOT] + rest);
      LowerDot(rest);
    }
  }

  lemma JoinedTwice(name: Bytes, a: Bytes, b: Bytes)
    requires a != []
    ensures Joined(Joined(name, a), b) == Joined(name, a + ([DOT] + b))
  {
    assert name + [DOT] + a + [DOT] + b == name + [DOT] + (a + ([DOT] + b));
    assert a + [DOT] + b == a + ([DOT] + b);
  }

  /** The labels of a name spell its bytes one by one, lower-cased. */
  lemma LabelsSpellName(name: Bytes)
    requires AreLabels(NameLabels(name))
    ensures Spelled([], NameLabels(name)) == LowerText(name)
    ensures |name| < |Wire(NameLabels(name))|
  {
    hide LowerText;
    if name != [] {
      JoinAfterSplit(name);
      SpelledIsJoined([], NameLabels(name));
    } else {
      NothingSpelled();
    }
  }

  lemma NothingSpelled()
    ensures LowerText([]) == []
  {
  }

  /** Each byte that is not ASCII becomes two; otherwise only letter case changes. */
  lemma {:induction false} LowerTextExactly(name: Bytes)
    ensures Ascii(name) ==> LowerText(name) == LowerAll(name)
    ensures !Ascii(name) ==> |LowerText(name)| > |name|
    ensures LowerAll(LowerText(name)) == LowerText(name)
    decreases |name|
  {
    if name != [] {
      var rest := name[1..];
      LowerTextExactly(rest);
      assert Ascii(name) <==> name[0] < 128 && Ascii(rest);
      assert LowerText(name) == LowerLatin(name[0]) + LowerText(rest);
      assert LowerAll(name) == [Lower(name[0])] + LowerAll(rest);
      LowerAllConcat(LowerLatin(name[0]), LowerText(rest));
      assert LowerAll(LowerLatin(name[0])) == LowerLatin(name[0]);
    }
  }

  lemma LowerAllConcat(a: Bytes, b: Bytes)
    ensures LowerAll(a + b) == LowerAll(a) + LowerAll(b)
  {
  }

  /** What the parser makes of a built query for any name: its id, flag, type, and the name's bytes lower-cased and
      taken for Latin-1 characters, unless that makes the name too long. So the name comes back exactly if it is
      ASCII. */
  lemma QueryRoundTrip(id: u16, name: Bytes, qtype: u16, rd: bool)
    requires BuiltQuery(id, name, qtype, rd).Ok?
    ensures var buf, text := BuiltQuery(id, name, qtype, rd).value, LowerText(name);
            && ParsedQuery(buf) == (if |text| <= 255
                                    then Ok(Query(id, rd, text, qtype, CLASS_IN, |buf|, buf)) else Err(NameTooLong))
            && |buf| >= HEADER_LEN && Word(buf, 4) == 1 && Word(buf, 0) == id
            && (ParsedQuery(buf).Ok? && ParsedQuery(buf).value.name == LowerAll(name) <==> Ascii(name))
  {
    hide At, Spelled, Word, LowerText, ParsedQuery, QueryHeader, Wire, ParseNameFrom, LowerAll, Ascii;
    var buf, w := BuiltQuery(id, name, qtype, rd).value, Wire(NameLabels(name));
    LabelsSpellName(name);
    LowerTextExactly(name);
    BuiltBytes(id, qtype, rd, w);
    WireIsParsed(buf, HEADER_LEN, [], NameLabels(name));
    QueryParts(buf, HEADER_LEN + |w|);
  }

  /** A query from its parts. */
  lemma QueryParts(buf: Bytes, end: nat)
    requires |buf| == end + 4 && end > HEADER_LEN && buf[2] < 128 && Word(buf, 4) == 1
    ensures var parsed := ParseNameFrom(buf, HEADER_LEN, []);
            && (parsed.Err? ==> ParsedQuery(buf) == Err(parsed.error))
            && (parsed.Ok? && parsed.value.1 == end ==>
                  ParsedQuery(buf) == Ok(Query(Word(buf, 0), buf[2] % 2 == 1, parsed.value.0, Word(buf, end),
                                               Word(buf, end + 2), |buf|, buf)))
  {
    hide Word, ParseNameFrom;
  }

  /** Where a built query keeps its parts. */
  lemma BuiltBytes(id: u16, qtype: u16, rd: bool, w: Bytes)
    ensures var buf := QueryHeader(id, rd) + w + Be16(qtype) + Be16(CLASS_IN);
            var end := HEADER_LEN + |w|;
            && |buf| == end + 4
            && At(buf, HEADER_LEN, w)
            && Word(buf, 0) == id && buf[2] == (if rd then 1 else 0) && Word(buf, 4) == 1
            && Word(buf, end) == qtype && Word(buf, end + 2) == CLASS_IN
  {
    var buf := QueryHeader(id, rd) + w + Be16(qtype) + Be16(CLASS_IN);
    assert buf == QueryHeader(id, rd) + (w + (Be16(qtype) + Be16(CLASS_IN)));
    Be16RoundTrip(id);
    Be16RoundTrip(qtype);
  }

  // ---------------------------------------------------------------- end to end

  /** A client that builds an A query for a name the filter accepts and parses the server's reply gets its own id, no
      error, exactly one address with the pool's ttl (the maximal ttl reads as 0), and that address looks back to the
      name as the server spells it, which for an ASCII name is the name lower-cased. */
  lemma ResolvedEndToEnd(hs: Hashes, l: Layout, valid: Bytes -> bool, lossy: Bytes -> Bytes, st: State,
                         id: u16, name: Bytes, rd: bool)
    requires Invariant(hs, l, st) && BuiltQuery(id, name, TYPE_A, rd).Ok?
    requires |LowerText(name)| <= 255 && valid(LowerText(name))
    ensures var (st', reply) := Handled(hs, l, valid, st, BuiltQuery(id, name, TYPE_A, rd).value);
            var ip := AddressOf(hs, l, st, LowerText(name));
            && ParsedResponse(lossy, reply) ==
               Ok(DnsResponse(id, RCODE_NOERROR, [ip], [], [], [], [], if l.ttl == U32_MAX then 0 else l.ttl))
            && |st'| == l.nShards
            && NameOf(l, st', ip) == Some(LowerText(name))
            && (Ascii(name) ==> ip == AddressOf(hs, l, st, name) && NameOf(l, st', ip) == Some(LowerAll(name)))
  {
    hide LowerText, Word, ParsedResponse, BuiltQuery, ParsedQuery, Echo, AnswerRecord;
    var buf, text := BuiltQuery(id, name, TYPE_A, rd).value, LowerText(name);
    QueryRoundTrip(id, name, TYPE_A, rd);
    LowerTextExactly(name);
    AnswerReadsBack(lossy, buf, AddressOf(hs, l, st, text), l.ttl);
    InternThenLookback(hs, l, st, text);
  }

  /** A name the filter refuses reads back as NXDOMAIN without addresses, and the pool stays as it was. */
  lemma RefusedEndToEnd(hs: Hashes, l: Layout, valid: Bytes -> bool, lossy: Bytes -> Bytes, st: State,
                        id: u16, name: Bytes, rd: bool)
    requires Invariant(hs, l, st) && BuiltQuery(id, name, TYPE_A, rd).Ok?
    requires |LowerText(name)| <= 255 && !valid(LowerText(name))
    ensures var (st', reply) := Handled(hs, l, valid, st, BuiltQuery(id, name, TYPE_A, rd).value);
            && ParsedResponse(lossy, reply) == Ok(DnsResponse(id, RCODE_NXDOMAIN, [], [], [], [], [], 0))
            && st' == st
  {
    hide LowerText, Word, ParsedResponse, BuiltQuery, ParsedQuery, Echo, AnswerRecord;
    QueryRoundTrip(id, name, TYPE_A, rd);
    EmptyReplyReadsBack(lossy, BuiltQuery(id, name, TYPE_A, rd).value, RCODE_NXDOMAIN);
  }

  /** Any other record type gets an empty answer and never touches the pool. */
  lemma OtherTypesEndToEnd(hs: Hashes, l: Layout, valid: Bytes -> bool, lossy: Bytes -> Bytes, st: State,
                           id: u16, name: Bytes, qtype: u16, rd: bool)
    requires Invariant(hs, l, st) && qtype != TYPE_A && BuiltQuery(id, name, qtype, rd).Ok?
    requires |LowerText(name)| <= 255
    ensures var (st', reply) := Handled(hs, l, valid, st, BuiltQuery(id, name, qtype, rd).value);
            && ParsedResponse(lossy, reply) == Ok(DnsResponse(id, RCODE_NOERROR, [], [], [], [], [], 0))
            && st' == st
  {
    hide LowerText, Word, ParsedResponse, BuiltQuery, ParsedQuery, Echo, AnswerRecord;
    QueryRoundTrip(id, name, qtype, rd);
    EmptyReplyReadsBack(lossy, BuiltQuery(id, name, qtype, rd).value, RCODE_NOERROR);
  }

  /** A name whose spelling is too long reads back as a format error, whatever was asked about it. */
  lemma TooLongEndToEnd(hs: Hashes, l: Layout, valid: Bytes -> bool, lossy: Bytes -> Bytes, st: State,
                        id: u16, name: Bytes, qtype: u16, rd: bool)
    requires Invariant(hs, l, st) && BuiltQuery(id, name, qtype, rd).Ok? && |LowerText(name)| > 255
    ensures var (st', reply) := Handled(hs, l, valid, st, BuiltQuery(id, name, qtype, rd).value);
            && ParsedResponse(lossy, reply) == Ok(DnsResponse(id, RCODE_FORMERR, [], [], [], [], [], 0))
            && st' == st
  {
    hide LowerText, Word, ParsedResponse, BuiltQuery, ParsedQuery, ErrorResponse;
    QueryRoundTrip(id, name, qtype, rd);
    ErrorReadsBack(lossy, BuiltQuery(id, name, qtype, rd).value, RCODE_FORMERR);
  }

  lemma ErrorReadsBack(lossy: Bytes -> Bytes, buf: Bytes, rcode: byte)
    requires |buf| >= 2 && rcode < 16
    ensures ParsedResponse(lossy, ErrorResponse(buf, rcode)) ==
            Ok(DnsResponse(Word(buf, 0), rcode, [], [], [], [], [], 0))
  {
    var reply := ErrorResponse(buf, rcode);
    assert reply[0] == buf[0] && reply[1] == buf[1] && reply[3] == 0x80 + rcode;
    assert reply[4] == 0 && reply[5] == 0 && reply[6] == 0 && reply[7] == 0;
  }
}
