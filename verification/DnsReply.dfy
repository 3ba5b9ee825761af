/** The response parser (message.rs, `parse_response`) and what it reads back from the server's own replies. */
module DnsReply {
  import opened MachineInts
  import opened Wrappers
  import opened DnsNames
  import opened DnsMessage

  /** `min_ttl` is tracked from `u32::MAX` down; the parser reports 0 if no address record lowered it. */
  datatype DnsResponse = DnsResponse(id: u16, rcode: byte, v4: seq<u32>, v6: seq<Bytes>, txt: seq<Bytes>,
                                     mx: seq<Bytes>, srv: seq<(Bytes, u16)>, minTtl: u32)

  function SkippedQuestions(buf: Bytes, pos: nat, n: nat): (r: Result<nat, DnsError>)
    ensures r.Ok? && n > 0 ==> pos + 5 <= r.value <= |buf|
    ensures r.Ok? && n == 0 ==> r.value == pos
    decreases n
  {
    if n == 0 then Ok(pos)
    else
      var end :- SkipNameFrom(buf, pos, SKIP_STEPS);
      if end + 4 > |buf| then Err(Truncated) else SkippedQuestions(buf, end + 4, n - 1)
  }

  /** The character strings of a TXT record, up to the first that would run past the record. */
  function TxtFrom(lossy: Bytes -> Bytes, buf: Bytes, p: nat, end: nat): seq<Bytes>
    requires end <= |buf|
    decreases end - p
  {
    if p >= end || p + 1 + buf[p] > end then []
    else [lossy(buf[p + 1..p + 1 + buf[p]])] + TxtFrom(lossy, buf, p + 1 + buf[p], end)
  }

  method ReadTxt(lossy: Bytes -> Bytes, buf: Bytes, start: nat, end: nat) returns (txt: seq<Bytes>)
    requires end <= |buf|
    ensures txt == TxtFrom(lossy, buf, start, end)
  {
    txt := [];
    var p: nat := start;
    while p < end
      invariant TxtFrom(lossy, buf, start, end) == txt + TxtFrom(lossy, buf, p, end)
      decreases end - p
    {
      var next := p + 1 + buf[p];
      if next > end {
        break;
      }
      txt := txt + [lossy(buf[p + 1..next])];
      p := next;
    }
  }

  /** What one record's data adds to the response. */
  function WithRecord(lossy: Bytes -> Bytes, buf: Bytes, acc: DnsResponse, rtype: u16, ttl: u32,
                      pos: nat, rdlen: nat): DnsResponse
    requires pos + rdlen <= |buf|
  {
    if rtype == TYPE_A && rdlen == 4 then
      acc.(v4 := acc.v4 + [Long(buf, pos)], minTtl := Min(acc.minTtl, ttl))
    else if rtype == TYPE_AAAA && rdlen == 16 then
      acc.(v6 := acc.v6 + [buf[pos..pos + 16]], minTtl := Min(acc.minTtl, ttl))
    else if rtype == TYPE_TXT then acc.(txt := acc.txt + TxtFrom(lossy, buf, pos, pos + rdlen))
    else if rtype == TYPE_MX && rdlen > 2 then
      match ReadNameFrom(lossy, buf, pos + 2, 0, [])
      case Some(name) => acc.(mx := acc.mx + [name])
      case None => acc
    else if rtype == TYPE_SRV && rdlen > 6 then
      match ReadNameFrom(lossy, buf, pos + 6, 0, [])
      case Some(name) => acc.(srv := acc.srv + [(name, Word(buf, pos + 4))])
      case None => acc
    else acc
  }

  function AnswersFrom(lossy: Bytes -> Bytes, buf: Bytes, pos: nat, n: nat, acc: DnsResponse)
    : Result<DnsResponse, DnsError>
    decreases n
  {
    if n == 0 then Ok(acc)
    else
      var p :- SkipNameFrom(buf, pos, SKIP_STEPS);
      if p + 10 > |buf| then Err(Truncated)
      else
        var rdlen: int := Word(buf, p + 8);
        if p + 10 + rdlen > |buf| then Err(Truncated)
        else AnswersFrom(lossy, buf, p + 10 + rdlen, n - 1,
                         WithRecord(lossy, buf, acc, Word(buf, p), Long(buf, p + 4), p + 10, rdlen))
  }

  function Blank(buf: Bytes): DnsResponse
    requires |buf| >= HEADER_LEN
  {
    DnsResponse(Word(buf, 0), buf[3] % 16, [], [], [], [], [], U32_MAX)
  }

  function ParsedResponse(lossy: Bytes -> Bytes, buf: Bytes): Result<DnsResponse, DnsError> {
    if |buf| < HEADER_LEN then Err(Truncated)
    else
      var pos :- SkippedQuestions(buf, HEADER_LEN, Word(buf, 4));
      var r :- AnswersFrom(lossy, buf, pos, Word(buf, 6), Blank(buf));
      Ok(r.(minTtl := if r.minTtl == U32_MAX then 0 else r.minTtl))
  }

  method ParseResponse(lossy: Bytes -> Bytes, buf: Bytes) returns (r: Result<DnsResponse, DnsError>)
    ensures r == ParsedResponse(lossy, buf)
  {
    hide SkipNameFrom, WithRecord, Word, Long;
    if |buf| < HEADER_LEN {
      return Err(Truncated);
    }
    var qdcount, ancount := Word(buf, 4), Word(buf, 6);
    var pos: nat := HEADER_LEN;
    for i := 0 to qdcount
      invariant SkippedQuestions(buf, HEADER_LEN, qdcount) == SkippedQuestions(buf, pos, qdcount - i)
    {
      var skipped := SkipName(buf, pos);
      if skipped.Err? {
        return Err(skipped.error);
      }
      pos := skipped.value + 4;
      if pos > |buf| {
        return Err(Truncated);
      }
    }
    ghost var start := pos;
    var out := Blank(buf);
    for i := 0 to ancount
      invariant AnswersFrom(lossy, buf, start, ancount, Blank(buf)) == AnswersFrom(lossy, buf, pos, ancount - i, out)
    {
      var skipped := SkipName(buf, pos);
      if skipped.Err? {
        return Err(skipped.error);
      }
      pos := skipped.value;
      if pos + 10 > |buf| {
        return Err(Truncated);
      }
      var rtype, ttl := Word(buf, pos), Long(buf, pos + 4);
      var rdlen: int := Word(buf, pos + 8);
      pos := pos + 10;
      var rdataEnd := pos + rdlen;
      if rdataEnd > |buf| {
        return Err(Truncated);
      }
      out := ReadRecord(lossy, buf, out, rtype, ttl, pos, rdlen);
      pos := rdataEnd;
    }
    return Ok(out.(minTtl := if out.minTtl == U32_MAX then 0 else out.minTtl));
  }

  /** The record switch of `parse_response`. */
  method ReadRecord(lossy: Bytes -> Bytes, buf: Bytes, acc: DnsResponse, rtype: u16, ttl: u32, pos: nat, rdlen: nat)
    returns (out: DnsResponse)
    requires pos + rdlen <= |buf|
    ensures out == WithRecord(lossy, buf, acc, rtype, ttl, pos, rdlen)
  {
    out := acc;
    if rtype == TYPE_A && rdlen == 4 {
      out := out.(v4 := out.v4 + [Long(buf, pos)], minTtl := Min(out.minTtl, ttl));
    } else if rtype == TYPE_AAAA && rdlen == 16 {
      out := out.(v6 := out.v6 + [buf[pos..pos + 16]], minTtl := Min(out.minTtl, ttl));
    } else if rtype == TYPE_TXT {
      var txt := ReadTxt(lossy, buf, pos, pos + rdlen);
      out := out.(txt := out.txt + txt);
    } else if rtype == TYPE_MX && rdlen > 2 {
      var name := ReadName(lossy, buf, pos + 2);
      if name.Some? {
        out := out.(mx := out.mx + [name.value]);
      }
    } else if rtype == TYPE_SRV && rdlen > 6 {
      var port := Word(buf, pos + 4);
      var name := ReadName(lossy, buf, pos + 6);
      if name.Some? {
        out := out.(srv := out.srv + [(name.value, port)]);
      }
    }
  }

  // ---------------------------------------------------------------- reading the server's own replies

  lemma AtPrefix(a: Bytes, b: Bytes, pos: nat, s: Bytes)
    requires At(a, pos, s) && pos + |s| <= |b| && forall i :: pos <= i < pos + |s| ==> b[i] == a[i]
    ensures At(b, pos, s)
  {
  }

  /** The bytes of an echoed message. */
  lemma EchoBytes(q: Query, rcode: byte, ancount: u16)
    requires q.Valid() && rcode < 16
    ensures var e := Echo(q, rcode, ancount);
            && |e| == q.questionEnd
            && Word(e, 0) == Word(q.raw, 0) && e[3] % 16 == rcode
            && Word(e, 4) == Word(q.raw, 4) && Word(e, 6) == ancount
            && forall i :: HEADER_LEN <= i < q.questionEnd ==> e[i] == q.raw[i]
  {
    var e := Echo(q, rcode, ancount);
    Be16RoundTrip(ancount);
    forall i | HEADER_LEN <= i < q.questionEnd ensures e[i] == q.raw[i] {
      assert e[HEADER_LEN..][i - HEADER_LEN] == q.raw[..q.questionEnd][HEADER_LEN..][i - HEADER_LEN];
    }
  }

  /** An echoed question is skipped exactly, whatever follows it. */
  lemma EchoedQuestion(buf: Bytes, rcode: byte, ancount: u16, rest: Bytes)
    requires ParsedQuery(buf).Ok? && rcode < 16
    ensures var q := ParsedQuery(buf).value;
            var out := Echo(q, rcode, ancount) + rest;
            && |out| == q.questionEnd + |rest|
            && out[q.questionEnd..] == rest
            && SkippedQuestions(out, HEADER_LEN, 1) == Ok(q.questionEnd)
            && Word(out, 0) == q.id && out[3] % 16 == rcode
            && Word(out, 4) == Word(buf, 4) && Word(out, 6) == ancount
  {
    hide Echo, At, Spelled, Wire, Word, SkipNameFrom, ParseNameFrom, LowerText, Joined, FromBe16;
    var q := ParsedQuery(buf).value;
    var e := Echo(q, rcode, ancount);
    var out := e + rest;
    EchoBytes(q, rcode, ancount);
    WordInPrefix(e, rest, 0);
    WordInPrefix(e, rest, 4);
    WordInPrefix(e, rest, 6);
    var ls := ParsedIsWire(buf, HEADER_LEN, []);
    assert |ls| <= MAX_NAME;
    EchoedName(buf, out, q, ls);
    assert SkippedQuestions(out, q.questionEnd, 0) == Ok(q.questionEnd);
  }

  lemma WordInPrefix(a: Bytes, b: Bytes, pos: nat)
    requires pos + 2 <= |a|
    ensures Word(a + b, pos) == Word(a, pos)
  {
  }

  lemma EchoedName(buf: Bytes, out: Bytes, q: Query, ls: seq<Bytes>)
    requires q.questionEnd <= |out| && q.questionEnd <= |buf| && AreLabels(ls) && |ls| <= MAX_NAME
    requires At(buf, HEADER_LEN, Wire(ls)) && HEADER_LEN + |Wire(ls)| + 4 == q.questionEnd
    requires forall i :: HEADER_LEN <= i < q.questionEnd ==> out[i] == buf[i]
    ensures SkipNameFrom(out, HEADER_LEN, SKIP_STEPS) == Ok(q.questionEnd - 4)
  {
    AtPrefix(buf, out, HEADER_LEN, Wire(ls));
    WireIsSkipped(out, HEADER_LEN, ls, SKIP_STEPS);
  }

  /** The client's view of an A answer to any accepted query: the query's id, no error, exactly the one address and
      its ttl (the maximal ttl reads as 0) exactly when the query carried one question; otherwise an error,
      because the reply repeats the question count but echoes one question only. */
  lemma AnswerReadsBack(lossy: Bytes -> Bytes, buf: Bytes, ip: u32, ttl: u32)
    requires ParsedQuery(buf).Ok?
    ensures var q := ParsedQuery(buf).value;
            var reply := Echo(q, RCODE_NOERROR, 1) + AnswerRecord(ip, ttl);
            if Word(buf, 4) == 1
            then ParsedResponse(lossy, reply) ==
                 Ok(DnsResponse(q.id, RCODE_NOERROR, [ip], [], [], [], [], if ttl == U32_MAX then 0 else ttl))
            else ParsedResponse(lossy, reply).Err?
  {
    hide Echo, AnswerRecord, ParsedQuery, AnswersFrom, SkippedQuestions, Long;
    var q, rr := ParsedQuery(buf).value, AnswerRecord(ip, ttl);
    var reply := Echo(q, RCODE_NOERROR, 1) + rr;
    var end, more := q.questionEnd, Word(buf, 4) - 1;
    QueryCounts(buf);
    EchoedQuestion(buf, RCODE_NOERROR, 1, rr);
    SkippedInParts(reply, HEADER_LEN, 1, more);
    SkipNone(reply, end);
    if more == 0 {
      RecordReadsBack(lossy, reply, end, ip, ttl, Blank(reply));
      assert Blank(reply).v4 + [ip] == [ip];
      assert AnswersFrom(lossy, reply, end, Word(reply, 6), Blank(reply)).Ok?;
    } else {
      PointerAsQuestion(reply, end, ip, ttl);
      SkippedInParts(reply, end, 1, more - 1);
      TailTooShort(lossy, reply, end + 6, more - 1, Blank(reply));
    }
  }

  lemma QueryCounts(buf: Bytes)
    requires ParsedQuery(buf).Ok?
    ensures |buf| >= HEADER_LEN && Word(buf, 4) >= 1 && ParsedQuery(buf).value.id == Word(buf, 0)
    ensures ParsedQuery(buf).value.raw == buf
  {
  }

  lemma SkipNone(buf: Bytes, pos: nat)
    ensures SkippedQuestions(buf, pos, 0) == Ok(pos)
  {
  }

  /** Taken for a question, the answer record loses its pointer and the four bytes after it. */
  lemma PointerAsQuestion(buf: Bytes, pos: nat, ip: u32, ttl: u32)
    requires pos + 16 == |buf| && buf[pos..] == AnswerRecord(ip, ttl)
    ensures SkippedQuestions(buf, pos, 1) == Ok(pos + 6)
  {
    assert buf[pos] == buf[pos..][0];
    assert SkipNameFrom(buf, pos, SKIP_STEPS) == Ok(pos + 2);
    SkipNone(buf, pos + 6);
  }

  lemma RecordReadsBack(lossy: Bytes -> Bytes, buf: Bytes, pos: nat, ip: u32, ttl: u32, acc: DnsResponse)
    requires pos + 16 == |buf| && buf[pos..] == AnswerRecord(ip, ttl)
    ensures AnswersFrom(lossy, buf, pos, 1, acc) == Ok(acc.(v4 := acc.v4 + [ip], minTtl := Min(acc.minTtl, ttl)))
  {
    var rr := AnswerRecord(ip, ttl);
    forall i | 0 <= i < 16 ensures buf[pos + i] == rr[i] {
      assert buf[pos..][i] == rr[i];
    }
    Be32RoundTrip(ttl);
    Be32RoundTrip(ip);
    assert rr[6..10] == Be32(ttl) && rr[12..16] == Be32(ip);
  }

  lemma {:induction false} SkippedInParts(buf: Bytes, pos: nat, m: nat, n: nat)
    requires SkippedQuestions(buf, pos, m).Ok?
    ensures SkippedQuestions(buf, pos, m + n) == SkippedQuestions(buf, SkippedQuestions(buf, pos, m).value, n)
    decreases m
  {
    if m > 0 {
      var end := SkipNameFrom(buf, pos, SKIP_STEPS).value;
      SkippedInParts(buf, end + 4, m - 1, n);
    }
  }

  /** With ten bytes left there is no room for another question and a record. */
  lemma TailTooShort(lossy: Bytes -> Bytes, buf: Bytes, pos: nat, n: nat, acc: DnsResponse)
    requires pos + 10 == |buf|
    ensures var skipped := SkippedQuestions(buf, pos, n);
            skipped.Ok? ==> AnswersFrom(lossy, buf, skipped.value, 1, acc).Err?
  {
  }

  /** The client's view of a reply without answers, under the same condition. */
  lemma EmptyReplyReadsBack(lossy: Bytes -> Bytes, buf: Bytes, rcode: byte)
    requires ParsedQuery(buf).Ok? && rcode < 16
    ensures var q := ParsedQuery(buf).value;
            var reply := Echo(q, rcode, 0);
            if Word(buf, 4) == 1
            then ParsedResponse(lossy, reply) == Ok(DnsResponse(q.id, rcode, [], [], [], [], [], 0))
            else ParsedResponse(lossy, reply).Err?
  {
    hide Echo, ParsedQuery, SkippedQuestions, Long;
    var q := ParsedQuery(buf).value;
    var reply := Echo(q, rcode, 0);
    var end, more := q.questionEnd, Word(buf, 4) - 1;
    QueryCounts(buf);
    EchoedQuestion(buf, rcode, 0, []);
    assert Echo(q, rcode, 0) + [] == reply;
    SkippedInParts(reply, HEADER_LEN, 1, more);
    SkipNone(reply, end);
    if more > 0 {
      NothingToSkip(reply, more);
    }
  }

  lemma NothingToSkip(buf: Bytes, n: nat)
    requires n > 0
    ensures SkippedQuestions(buf, |buf|, n) == Err(Truncated)
  {
  }

  /** A query for `a` that asks twice, which is accepted as one query and cannot be answered readably. */
  const ASKED_TWICE: Bytes := [0, 7, 1, 0, 0, 2, 0, 0, 0, 0, 0, 0, 1, 97, 0, 0, 1, 0, 1, 0xC0, 12, 0, 28, 0, 1]

  lemma TwoQuestionsUnreadable(lossy: Bytes -> Bytes, ip: u32, ttl: u32)
    ensures ParsedQuery(ASKED_TWICE) == Ok(Query(7, true, [97], TYPE_A, CLASS_IN, 19, ASKED_TWICE))
    ensures var q := ParsedQuery(ASKED_TWICE).value;
            && ParsedResponse(lossy, Echo(q, RCODE_NOERROR, 1) + AnswerRecord(ip, ttl)).Err?
            && ParsedResponse(lossy, Echo(q, RCODE_NXDOMAIN, 0)).Err?
  {
    hide ParsedQuery, Word, ParseNameFrom, Echo, ParsedResponse, AnswerRecord;
    AskedTwiceParses();
    AskedTwiceWords();
    AnswerReadsBack(lossy, ASKED_TWICE, ip, ttl);
    EmptyReplyReadsBack(lossy, ASKED_TWICE, RCODE_NXDOMAIN);
  }

  lemma AskedTwiceWords()
    ensures |ASKED_TWICE| == 25 && ASKED_TWICE[2] == 1
    ensures Word(ASKED_TWICE, 0) == 7 && Word(ASKED_TWICE, 4) == 2
    ensures Word(ASKED_TWICE, 15) == TYPE_A && Word(ASKED_TWICE, 17) == CLASS_IN
  {
    var buf := ASKED_TWICE;
    assert buf[0] == 0 && buf[1] == 7 && buf[4] == 0 && buf[5] == 2;
    assert buf[15] == 0 && buf[16] == 1 && buf[17] == 0 && buf[18] == 1;
  }

  lemma AskedTwiceParses()
    ensures ParsedQuery(ASKED_TWICE) == Ok(Query(7, true, [97], TYPE_A, CLASS_IN, 19, ASKED_TWICE))
  {
    hide Word, ParseNameFrom;
    AskedTwiceWords();
    AskedForA();
  }

  lemma AskedForA()
    ensures ParseNameFrom(ASKED_TWICE, HEADER_LEN, []) == Ok(([97], 15))
  {
    var buf := ASKED_TWICE;
    assert buf[13..14] == [97];
    assert LowerText([97]) == [97] by {
      assert LowerText([]) == [];
    }
    ParseNameStep(buf, 12, []);
    ParseNameStep(buf, 14, [97]);
  }
}
