/** What the server's replies are to any resolver, beside this repository's own parser (section 4.1 of RFC 1035):
    responses with the query's id and recursion bit, and answers about the name that was asked for. */
module DnsWire {
  import opened MachineInts
  import opened Wrappers
  import opened Hashing
  import opened PoolLayout
  import opened PoolState
  import opened DnsNames
  import opened DnsMessage
  import opened DnsReply
  import opened DnsRecords
  import opened DnsServer

  /** The header of section 4.1.1, flag by flag. */
  datatype Header = Header(id: u16, qr: bool, opcode: nat, aa: bool, tc: bool, rd: bool, ra: bool, z: nat, rcode: nat,
                           questions: u16, answers: u16, authorities: u16, additional: u16)

  /** Whether a byte has the bit that is worth `bit`. */
  predicate Bit(b: byte, bit: nat)
    requires bit > 0
  {
    b / bit % 2 == 1
  }

  function HeaderOf(m: Bytes): Header
    requires |m| >= 12
  {
    Header(Word(m, 0), Bit(m[2], 128), m[2] / 8 % 16, Bit(m[2], 4), Bit(m[2], 2), Bit(m[2], 1), Bit(m[3], 128),
           m[3] / 16 % 8, m[3] % 16, Word(m, 4), Word(m, 6), Word(m, 8), Word(m, 10))
  }

  /** A response to a standard query, not authoritative, not truncated, recursion available. */
  function Response(id: u16, rd: bool, rcode: nat, questions: u16, answers: u16): Header {
    Header(id, true, 0, false, false, rd, true, 0, rcode, questions, answers, 0, 0)
  }

  lemma EchoHeader(q: Query, rcode: byte, ancount: u16, rest: Bytes)
    requires q.Valid() && rcode < 16
    ensures var m := Echo(q, rcode, ancount) + rest;
            && |m| >= 12
            && HeaderOf(m) == Response(Word(q.raw, 0), q.rd, rcode, Word(q.raw, 4), ancount)
  {
    hide FromBe16;
    var m := Echo(q, rcode, ancount) + rest;
    Be16RoundTrip(ancount);
    assert m[0] == q.raw[0] && m[1] == q.raw[1] && m[4] == q.raw[4] && m[5] == q.raw[5];
    assert m[2] == (if q.rd then 0x81 else 0x80) && m[3] == 0x80 + rcode;
    assert m[6] == Be16(ancount)[0] && m[7] == Be16(ancount)[1];
    assert m[8] == 0 && m[9] == 0 && m[10] == 0 && m[11] == 0;
    assert FromBe16(0, 0) == 0 by { Be16RoundTrip(0); }
  }

  lemma ErrorHeader(buf: Bytes, rcode: byte)
    requires rcode < 16
    ensures var m := ErrorResponse(buf, rcode);
            && |m| == 12
            && HeaderOf(m) == Response(if |buf| >= 2 then Word(buf, 0) else 0, false, rcode, 0, 0)
  {
  }

  /** Whatever arrives: the reply is a response under the id that arrived, with no more than one answer; a query that
      can be read gets its recursion bit and its question count back. */
  lemma ReplyIsAResponse(hs: Hashes, l: Layout, valid: Bytes -> bool, st: State, buf: Bytes)
    requires Invariant(hs, l, st)
    ensures var reply := Handled(hs, l, valid, st, buf).1;
            && |reply| >= 12 && ParsedQuery(reply) == Err(NotAQuery)
            && match ParsedQuery(buf)
               case Err(_) => |reply| == 12
                              && HeaderOf(reply) == Response(if |buf| >= 2 then Word(buf, 0) else 0, false, 1, 0, 0)
               case Ok(q) =>
                 HeaderOf(reply) ==
                 if q.qclass != 1 then Response(Word(buf, 0), Bit(buf[2], 1), 4, Word(buf, 4), 0)
                 else if q.qtype != 1 then Response(Word(buf, 0), Bit(buf[2], 1), 0, Word(buf, 4), 0)
                 else if !valid(q.name) then Response(Word(buf, 0), Bit(buf[2], 1), 3, Word(buf, 4), 0)
                 else Response(Word(buf, 0), Bit(buf[2], 1), 0, Word(buf, 4), 1)
  {
    hide Echo, ErrorResponse, AnswerRecord, AfterIntern, AddressOf, Word, Invariant, ParsedQuery, HeaderOf;
    var reply := Handled(hs, l, valid, st, buf).1;
    match ParsedQuery(buf)
    case Err(_) =>
      ErrorHeader(buf, 1);
      ResponseIsNoQuery(reply);
    case Ok(q) =>
      QueryFlags(buf);
      var (rcode, ancount, rest) :=
        if q.qclass != 1 then (4, 0, [])
        else if q.qtype != 1 then (0, 0, [])
        else if !valid(q.name) then (3, 0, [])
        else (0, 1, AnswerRecord(AddressOf(hs, l, st, q.name), l.ttl));
      assert Echo(q, rcode, ancount) + [] == Echo(q, rcode, ancount);
      assert reply == Echo(q, rcode, ancount) + rest;
      EchoHeader(q, rcode, ancount, rest);
      ResponseIsNoQuery(reply);
  }

  lemma QueryFlags(buf: Bytes)
    requires ParsedQuery(buf).Ok?
    ensures |buf| >= 12 && ParsedQuery(buf).value.rd == Bit(buf[2], 1) && ParsedQuery(buf).value.raw == buf
  {
  }

  lemma ResponseIsNoQuery(m: Bytes)
    requires |m| >= 12 && HeaderOf(m).qr
    ensures ParsedQuery(m) == Err(NotAQuery)
  {
  }

  /** Where the parts of an answer record stand. */
  lemma AnswerParts(m: Bytes, end: nat, ip: u32, ttl: u32)
    requires end + 16 == |m| && m[end..] == AnswerRecord(ip, ttl)
    ensures At(m, end, [192, 12])
    ensures Word(m, end + 2) == 1 && Word(m, end + 4) == 1 && Long(m, end + 6) == ttl
    ensures Word(m, end + 10) == 4 && Long(m, end + 12) == ip
  {
    hide Word, Long, Be32, Be16;
    var fixed := Be16(TYPE_A) + Be16(CLASS_IN) + Be32(ttl) + Be16(4);
    assert m[end..end + 16] == AnswerRecord(ip, ttl) == [192, 12] + fixed + Be32(ip);
    AtSplit(m, end, [192, 12] + fixed, Be32(ip));
    AtSplit(m, end, [192, 12], fixed);
    AtSplit(m, end + 2, Be16(TYPE_A) + Be16(CLASS_IN) + Be32(ttl), Be16(4));
    AtSplit(m, end + 2, Be16(TYPE_A) + Be16(CLASS_IN), Be32(ttl));
    AtSplit(m, end + 2, Be16(TYPE_A), Be16(CLASS_IN));
    WordAt(m, end + 2, TYPE_A);
    WordAt(m, end + 4, CLASS_IN);
    LongAt(m, end + 6, ttl);
    WordAt(m, end + 10, 4);
    LongAt(m, end + 12, ip);
  }

  /** A question's labels, written the way they are read. */
  lemma {:induction false} WireIsName(ls: seq<Bytes>)
    requires AreLabels(ls)
    ensures Wire(ls) == Whole(ls).Text()
  {
    WireIsClosed(ls);
  }

  /** The record of an answer is about the name in the question: read at either place, by a reader that follows
      pointers, the two are the same, and of type A and class IN, with the address, and the ttl. */
  lemma AnswerIsAboutTheQuestion(lossy: Bytes -> Bytes, buf: Bytes, ip: u32, ttl: u32)
    requires ParsedQuery(buf).Ok?
    ensures var q := ParsedQuery(buf).value;
            var m, end := Echo(q, RCODE_NOERROR, 1) + AnswerRecord(ip, ttl), q.questionEnd;
            && |m| == end + 16
            && ReadNameFrom(lossy, m, end, 0, []) == ReadNameFrom(lossy, buf, 12, 0, [])
            && Word(m, end + 2) == 1 && Word(m, end + 4) == 1 && Long(m, end + 6) == ttl
            && Word(m, end + 10) == 4 && Long(m, end + 12) == ip
  {
    hide Echo, AnswerRecord, At, Word, Long, ReadNameFrom, ParsedQuery, Wire;
    var q := ParsedQuery(buf).value;
    var m, end := Echo(q, RCODE_NOERROR, 1) + AnswerRecord(ip, ttl), q.questionEnd;
    var ls := QuestionLabels(buf);
    EchoBytes(q, RCODE_NOERROR, 1);
    AnswerParts(m, end, ip, ttl);
    WireIsName(ls);
    AtMeans(buf, 12, Wire(ls));
    EchoedLabels(buf, m, ls);
    var link := Linked([], 12, Whole(ls));
    assert link.Text() == [192, 12];
    NameIsRead(lossy, buf, 12, 0, [], Whole(ls));
    NameIsRead(lossy, m, end, 0, [], link);
    assert [] + ls == ls;
  }

  lemma QuestionLabels(buf: Bytes) returns (ls: seq<Bytes>)
    requires ParsedQuery(buf).Ok?
    ensures |buf| >= 12 && ParsedQuery(buf).value.raw == buf
    ensures AreLabels(ls) && At(buf, 12, Wire(ls)) && 12 + |Wire(ls)| + 4 == ParsedQuery(buf).value.questionEnd
  {
    hide At, Wire, Spelled;
    ls := ParsedIsWire(buf, 12, []);
  }

  lemma EchoedLabels(buf: Bytes, m: Bytes, ls: seq<Bytes>)
    requires ParsedQuery(buf).Ok? && AreLabels(ls) && At(buf, 12, Wire(ls))
    requires 12 + |Wire(ls)| + 4 == ParsedQuery(buf).value.questionEnd <= |m|
    requires forall i :: 12 <= i < ParsedQuery(buf).value.questionEnd ==> m[i] == buf[i]
    ensures At(m, 12, Wire(ls))
  {
    hide Wire, ParsedQuery;
    AtPrefix(buf, m, 12, Wire(ls));
  }

  // ---------------------------------------------------------------- queries

  /** A built query is a standard query with one question. */
  lemma QueryIsAQuery(id: u16, name: Bytes, qtype: u16, rd: bool)
    requires BuiltQuery(id, name, qtype, rd).Ok?
    ensures var m := BuiltQuery(id, name, qtype, rd).value;
            && |m| >= 12
            && HeaderOf(m) == Header(id, false, 0, false, false, rd, false, 0, 0, 1, 0, 0, 0)
            && Word(m, |m| - 4) == qtype && Word(m, |m| - 2) == 1
  {
    hide Wire;
    var m, w := BuiltQuery(id, name, qtype, rd).value, Wire(NameLabels(name));
    Be16RoundTrip(id);
    Be16RoundTrip(qtype);
    assert m == QueryHeader(id, rd) + (w + (Be16(qtype) + Be16(CLASS_IN)));
    assert m[0] == Be16(id)[0] && m[1] == Be16(id)[1];
    assert m[2] == (if rd then 1 else 0) && m[3] == 0 && m[4] == 0 && m[5] == 1;
    assert m[6] == 0 && m[7] == 0 && m[8] == 0 && m[9] == 0 && m[10] == 0 && m[11] == 0;
  }

  /** The query for a.bc, byte by byte, and the name it is read as. */
  lemma SampleQuery()
    ensures BuiltQuery(0x1234, [97, 46, 98, 99], 28, true) ==
            Ok([0x12, 0x34, 1, 0, 0, 1, 0, 0, 0, 0, 0, 0, 1, 97, 2, 98, 99, 0, 0, 28, 0, 1])
    ensures Spelled([], [[97], [98, 99]]) == [97, 46, 98, 99]
    ensures Dotted([], [[97], [98, 99]]) == [97, 46, 98, 99]
  {
    hide Wire, NameLabels, QueryHeader, Spelled, Dotted;
    SampleLabels();
    SampleWire();
    SampleHeader();
    assert [0x12, 0x34, 1, 0, 0, 1, 0, 0, 0, 0, 0, 0] + [1, 97, 2, 98, 99, 0] + [0, 28] + [0, 1]
        == [0x12, 0x34, 1, 0, 0, 1, 0, 0, 0, 0, 0, 0, 1, 97, 2, 98, 99, 0, 0, 28, 0, 1];
    SampleSpelling();
  }

  lemma SampleWire()
    ensures AreLabels([[97], [98, 99]]) && Wire([[97], [98, 99]]) == [1, 97, 2, 98, 99, 0]
  {
    var ls := [[97], [98, 99]];
    assert ls[1..] == [[98, 99]] && [[98, 99]][1..] == [];
    assert Wire([]) == [0];
    assert Wire([[98, 99]]) == [2, 98, 99, 0];
  }

  lemma SampleHeader()
    ensures QueryHeader(0x1234, true) == [0x12, 0x34, 1, 0, 0, 1, 0, 0, 0, 0, 0, 0]
    ensures Be16(28) == [0, 28] && Be16(CLASS_IN) == [0, 1]
  {
  }

  lemma SampleSpelling()
    ensures Spelled([], [[97], [98, 99]]) == [97, 46, 98, 99]
    ensures Dotted([], [[97], [98, 99]]) == [97, 46, 98, 99]
  {
    var ls := [[97], [98, 99]];
    assert ls[1..] == [[98, 99]] && [[98, 99]][1..] == [];
    SampleTexts();
    assert Spelled([97], [[98, 99]]) == Spelled([97, 46, 98, 99], []);
    assert Dotted([97], [[98, 99]]) == Dotted([97, 46, 98, 99], []);
  }

  lemma SampleLabels()
    ensures NameLabels([97, 46, 98, 99]) == [[97], [98, 99]]
  {
    hide SplitDots;
    SplitNothing();
    var nothing: seq<Bytes> := [[]];
    assert nothing == [[]] + [] && [99] + [] == [99];
    SplitPlain(99, [], [], [], [99], [[99]]);
    assert [[99]] == [[99]] + [];
    SplitPlain(98, [99], [99], [], [98, 99], [[98, 99]]);
    SplitDot([98, 99]);
    assert [46] + [98, 99] == [46, 98, 99] && [97] + [] == [97];
    assert [[97]] + [[98, 99]] == [[97], [98, 99]];
    SplitPlain(97, [46, 98, 99], [], [[98, 99]], [97, 46, 98, 99], [[97], [98, 99]]);
  }

  lemma SplitNothing()
    ensures SplitDots([]) == [[]]
  {
  }

  lemma SplitDot(s: Bytes)
    ensures SplitDots([46] + s) == [[]] + SplitDots(s)
  {
    assert ([46] + s)[1..] == s;
  }

  lemma SplitPlain(b: byte, s: Bytes, first: Bytes, others: seq<Bytes>, name: Bytes, ls: seq<Bytes>)
    requires b != 46 && SplitDots(s) == [first] + others
    requires name == [b] + s && ls == [[b] + first] + others
    ensures SplitDots(name) == ls
  {
    assert name[1..] == s;
    assert SplitDots(s)[1..] == others;
  }

  lemma SampleTexts()
    ensures LowerText([97]) == [97] && LowerText([98, 99]) == [98, 99]
  {
    assert [97][1..] == [] && [98, 99][1..] == [99] && [99][1..] == [];
    assert LowerText([]) == [] && LowerText([99]) == [99];
  }

  // ---------------------------------------------------------------- names that are refused

  /** Labels that may still go on, up to `end`. */
  ghost predicate LabelsUpTo(buf: Bytes, pos: nat, ls: seq<Bytes>, end: nat) {
    AreLabels(ls) && At(buf, pos, OpenWire(ls)) && end == pos + |OpenWire(ls)|
  }

  lemma {:induction false} ParseBehind(buf: Bytes, pos: nat, name: Bytes, ls: seq<Bytes>, end: nat)
    requires LabelsUpTo(buf, pos, ls, end) && |Spelled(name, ls)| <= 255
    ensures ParseNameFrom(buf, pos, name) == ParseNameFrom(buf, end, Spelled(name, ls))
    decreases |ls|
  {
    hide At, LowerText, Joined, ParseNameFrom;
    if ls != [] {
      assert OpenWire(ls) + [] == OpenWire(ls) && OpenWire(ls[1..]) + [] == OpenWire(ls[1..]);
      OpenStep(buf, pos, ls, []);
      ParseNameStep(buf, pos, name);
      var name' := Joined(name, LowerText(ls[0]));
      assert Spelled(name, ls) == Spelled(name', ls[1..]);
      ParseBehind(buf, pos + 1 + |ls[0]|, name', ls[1..], end);
    }
  }

  lemma {:induction false} SkipBehind(buf: Bytes, pos: nat, ls: seq<Bytes>, end: nat, steps: nat)
    requires LabelsUpTo(buf, pos, ls, end) && |ls| <= steps
    ensures SkipNameFrom(buf, pos, steps) == SkipNameFrom(buf, end, steps - |ls|)
    decreases |ls|
  {
    hide At;
    if ls != [] {
      assert OpenWire(ls) + [] == OpenWire(ls) && OpenWire(ls[1..]) + [] == OpenWire(ls[1..]);
      OpenStep(buf, pos, ls, []);
      SkipBehind(buf, pos + 1 + |ls[0]|, ls[1..], end, steps - 1);
    }
  }

  /** How a name fails behind labels: a pointer or a reserved byte, the end of the message, or a label that passes it. A
      question may hold no pointer; an answer may, but not be cut in it; and after 256 labels skipping gives up. */
  lemma BadNames(buf: Bytes, pos: nat, ls: seq<Bytes>, end: nat)
    requires LabelsUpTo(buf, pos, ls, end) && |Spelled([], ls)| <= 255
    ensures var parsed := ParseNameFrom(buf, pos, []);
            && (end >= |buf| ==> parsed == Err(Truncated))
            && (end < |buf| && buf[end] >= 64 ==> parsed == Err(CompressionInQuestion))
            && (end < |buf| && 1 <= buf[end] <= 63 && end + 1 + buf[end] as int > |buf| ==> parsed == Err(Truncated))
    ensures var skipped := SkipNameFrom(buf, pos, 256);
            && |ls| <= 255
            && (end >= |buf| ==> skipped == Err(Truncated))
            && (end < |buf| && 64 <= buf[end] <= 191 ==> skipped == Err(CompressionInQuestion))
            && (end + 1 < |buf| && buf[end] >= 192 ==> skipped == Ok(end + 2))
            && (end + 1 == |buf| && buf[end] >= 192 ==> skipped == Err(Truncated))
            && (end < |buf| && 1 <= buf[end] <= 63 && end + 1 + buf[end] as int > |buf| ==> skipped == Err(Truncated))
  {
    hide ParseNameFrom, At, LowerText, Joined;
    ParseBehind(buf, pos, [], ls, end);
    ParseNameStep(buf, end, Spelled([], ls));
    SkipBehind(buf, pos, ls, end, 256);
  }

  lemma TooManyLabels(buf: Bytes, pos: nat, ls: seq<Bytes>, end: nat)
    requires LabelsUpTo(buf, pos, ls, end) && |ls| == 256
    ensures SkipNameFrom(buf, pos, 256) == Err(NameTooLong)
  {
    SkipBehind(buf, pos, ls, end, 256);
  }
}
