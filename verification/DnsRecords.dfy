/** What the response parser (message.rs, `parse_response`) reads from a response with any questions and records,
    names compressed in any way (sections 3.2, 3.3 and 4.1 of RFC 1035, section 2 of RFC 3596, RFC 2782). */
module DnsRecords {
  import opened MachineInts
  import opened Wrappers
  import opened DnsNames
  import opened DnsMessage
  import opened DnsReply

  // ---------------------------------------------------------------- names

  /** A name on the wire: labels, then the root, a pointer to where the rest of the name stands, or a pointer that
      leads nowhere. */
  datatype Name =
    | Whole(ls: seq<Bytes>)
    | Linked(ls: seq<Bytes>, target: nat, rest: Name)
    | Astray(ls: seq<Bytes>, target: nat)
  {
    predicate Valid() {
      AreLabels(ls) && (!Whole? ==> target < 0x4000) && (Linked? ==> rest.Valid())
    }

    function Ending(): Bytes
      requires Valid()
    {
      if Whole? then [0] else [192 + target / 256, target % 256]
    }

    function Text(): (t: Bytes)
      requires Valid()
    {
      OpenWire(ls) + Ending()
    }

    /** All labels, the pointers followed. */
    function Labels(): seq<Bytes> {
      if Linked? then ls + rest.Labels() else ls
    }

    function Links(): nat {
      if Linked? then 1 + rest.Links() else 0
    }

    predicate Ends() {
      if Linked? then rest.Ends() else Whole?
    }

    /** What the pointers lead to is there; only a pointer out of the message, or behind so many others that it is
        one too many, may lead nowhere. The unfolding of any cycle of pointers is such a name. */
    predicate LinksHold(buf: Bytes, hops: nat)
      requires Valid()
    {
      match this
      case Whole(_) => true
      case Linked(_, _, _) => At(buf, target, rest.Text()) && rest.LinksHold(buf, hops + 1)
      case Astray(_, _) => target >= |buf| || hops >= 8
    }
  }

  function Shown(lossy: Bytes -> Bytes, ls: seq<Bytes>): seq<Bytes> {
    seq(|ls|, i requires 0 <= i < |ls| => lossy(ls[i]))
  }

  /** A name's text as the parser gives it: none if it does not end, follows more than eight pointers or takes more
      than 255 bytes. */
  function Given(lossy: Bytes -> Bytes, n: Name): Option<Bytes> {
    var d := Dotted([], Shown(lossy, n.Labels()));
    if n.Ends() && n.Links() <= 8 && |d| <= 255 then Some(d) else None
  }

  /** Labels found one at a time. */
  lemma OpenStep(buf: Bytes, pos: nat, ls: seq<Bytes>, e: Bytes)
    requires AreLabels(ls) && ls != [] && At(buf, pos, OpenWire(ls) + e)
    ensures pos + 1 + |ls[0]| <= |buf|
    ensures buf[pos] == |ls[0]| && buf[pos + 1..pos + 1 + |ls[0]|] == ls[0]
    ensures At(buf, pos + 1 + |ls[0]|, OpenWire(ls[1..]) + e)
  {
    hide At;
    var lab, tail := ls[0], OpenWire(ls[1..]) + e;
    assert OpenWire(ls) + e == ([|lab|] + lab) + tail;
    AtSplit(buf, pos, [|lab|] + lab, tail);
    AtSplit(buf, pos, [|lab|], lab);
    AtByte(buf, pos, |lab|);
    AtMeans(buf, pos + 1, lab);
    AtMeans(buf, pos + 1 + |lab|, tail);
  }

  lemma EndingAt(buf: Bytes, pos: nat, n: Name)
    requires n.Valid() && At(buf, pos, n.Ending())
    ensures pos + |n.Ending()| <= |buf|
    ensures n.Whole? ==> buf[pos] == 0
    ensures !n.Whole? ==> buf[pos] >= 192 && PointerTarget(buf[pos], buf[pos + 1]) == n.target
  {
    var e := buf[pos..pos + |n.Ending()|];
    assert e[0] == buf[pos];
    if !n.Whole? {
      assert e[1] == buf[pos + 1];
    }
  }

  /** Skipping looks at a name where it stands only. */
  lemma {:induction false} NameIsSkipped(buf: Bytes, pos: nat, n: Name, ls: seq<Bytes>, steps: nat)
    requires n.Valid() && AreLabels(ls) && |ls| < steps && At(buf, pos, OpenWire(ls) + n.Ending())
    ensures SkipNameFrom(buf, pos, steps) == Ok(pos + |OpenWire(ls)| + |n.Ending()|)
    decreases |ls|
  {
    hide At, Name.Ending;
    if ls == [] {
      assert OpenWire(ls) + n.Ending() == n.Ending();
      EndingAt(buf, pos, n);
      EndingSize(n);
    } else {
      OpenStep(buf, pos, ls, n.Ending());
      NameIsSkipped(buf, pos + 1 + |ls[0]|, n, ls[1..], steps - 1);
    }
  }

  lemma EndingSize(n: Name)
    requires n.Valid()
    ensures |n.Ending()| == if n.Whole? then 1 else 2
  {
  }

  /** Labels are appended until the text is too long. */
  lemma {:induction false} LabelsAreRead(lossy: Bytes -> Bytes, buf: Bytes, pos: nat, hops: nat, out: Bytes,
                                         ls: seq<Bytes>, e: Bytes)
    requires AreLabels(ls) && At(buf, pos, OpenWire(ls) + e) && hops <= MAX_HOPS && |out| <= MAX_NAME
    ensures ReadNameFrom(lossy, buf, pos, hops, out) ==
            var d := Dotted(out, Shown(lossy, ls));
            if |d| <= MAX_NAME then ReadNameFrom(lossy, buf, pos + |OpenWire(ls)|, hops, d) else None
    decreases |ls|
  {
    hide At, Joined;
    if ls != [] {
      OpenStep(buf, pos, ls, e);
      var shown := Shown(lossy, ls);
      assert shown[1..] == Shown(lossy, ls[1..]);
      var out' := Joined(out, shown[0]);
      assert Dotted(out, shown) == Dotted(out', shown[1..]);
      if |out'| <= MAX_NAME {
        LabelsAreRead(lossy, buf, pos + 1 + |ls[0]|, hops, out', ls[1..], e);
      }
    }
  }

  lemma {:induction false} DottedConcat(out: Bytes, a: seq<Bytes>, b: seq<Bytes>)
    ensures Dotted(out, a + b) == Dotted(Dotted(out, a), b)
    decreases |a|
  {
    if a == [] {
      assert a + b == b;
    } else {
      assert (a + b)[1..] == a[1..] + b;
      DottedConcat(Joined(out, a[0]), a[1..], b);
    }
  }

  lemma ShownConcat(lossy: Bytes -> Bytes, a: seq<Bytes>, b: seq<Bytes>)
    ensures Shown(lossy, a + b) == Shown(lossy, a) + Shown(lossy, b)
  {
  }

  /** Reading follows the pointers: exactly the whole name, if it ends and takes at most eight of them and 255 bytes. */
  lemma {:induction false} NameIsRead(lossy: Bytes -> Bytes, buf: Bytes, pos: nat, hops: nat, out: Bytes, n: Name)
    requires n.Valid() && At(buf, pos, n.Text()) && n.LinksHold(buf, hops) && hops <= MAX_HOPS && |out| <= MAX_NAME
    ensures ReadNameFrom(lossy, buf, pos, hops, out) ==
            var d := Dotted(out, Shown(lossy, n.Labels()));
            if n.Ends() && hops + n.Links() <= 8 && |d| <= 255 then Some(d) else None
    decreases n
  {
    hide At, Joined, Name.Ending, OpenWire, Dotted, Shown;
    var d, p := Dotted(out, Shown(lossy, n.ls)), pos + |OpenWire(n.ls)|;
    LabelsAreRead(lossy, buf, pos, hops, out, n.ls, n.Ending());
    AtSplit(buf, pos, OpenWire(n.ls), n.Ending());
    EndingAt(buf, p, n);
    EndingSize(n);
    if n.Linked? {
      ShownConcat(lossy, n.ls, n.rest.Labels());
      DottedConcat(out, Shown(lossy, n.ls), Shown(lossy, n.rest.Labels()));
      AtMeans(buf, n.target, n.rest.Text());
      if |d| <= MAX_NAME && hops < MAX_HOPS {
        NameIsRead(lossy, buf, n.target, hops + 1, d, n.rest);
      }
    }
  }

  /** A pointer to itself, followed k times. */
  function Unfolded(p: nat, k: nat): Name {
    if k == 0 then Astray([], p) else Linked([], p, Unfolded(p, k - 1))
  }

  lemma {:induction false} UnfoldedStands(buf: Bytes, p: nat, k: nat)
    requires p < 0x4000 && k <= MAX_HOPS && At(buf, p, [192 + p / 256, p % 256])
    ensures var n := Unfolded(p, k);
            n.Valid() && n.Text() == [192 + p / 256, p % 256] && n.LinksHold(buf, MAX_HOPS - k) && !n.Ends()
  {
    hide At;
    assert OpenWire([]) + [192 + p / 256, p % 256] == [192 + p / 256, p % 256];
    if k > 0 {
      UnfoldedStands(buf, p, k - 1);
    }
  }

  /** A pointer to itself gives no name. */
  lemma SelfPointerIsDropped(lossy: Bytes -> Bytes, buf: Bytes, p: nat)
    requires p < 0x4000 && At(buf, p, [192 + p / 256, p % 256])
    ensures ReadNameFrom(lossy, buf, p, 0, []) == None
  {
    hide At, ReadNameFrom, Dotted, Shown;
    UnfoldedStands(buf, p, MAX_HOPS);
    NameIsRead(lossy, buf, p, 0, [], Unfolded(p, MAX_HOPS));
  }

  // ---------------------------------------------------------------- records

  datatype Data =
    | Address4(ip4: u32)
    | Address6(ip6: Bytes)
    | Strings(texts: seq<Bytes>)
    | Mail(preference: u16, exchange: Name)
    | Service(priority: u16, weight: u16, port: u16, host: Name)
    | Other(rtype: u16, bytes: Bytes)
  {
    predicate Valid() {
      match this
      case Address4(_) => true
      case Address6(ip) => |ip| == 16
      case Strings(texts) => forall i :: 0 <= i < |texts| ==> |texts[i]| < 256
      case Mail(_, name) => name.Valid()
      case Service(_, _, _, name) => name.Valid()
      case Other(t, bytes) => Ignored(t, |bytes|)
    }

    function Type(): u16 {
      match this
      case Address4(_) => 1
      case Address6(_) => 28
      case Strings(_) => 16
      case Mail(_, _) => 15
      case Service(_, _, _, _) => 33
      case Other(t, _) => t
    }

    function Text(): Bytes
      requires Valid()
    {
      match this
      case Address4(ip) => Be32(ip)
      case Address6(ip) => ip
      case Strings(texts) => Packed(texts)
      case Mail(preference, name) => Be16(preference) + name.Text()
      case Service(priority, weight, port, name) => Be16(priority) + Be16(weight) + Be16(port) + name.Text()
      case Other(_, bytes) => bytes
    }

    predicate LinksHold(buf: Bytes)
      requires Valid()
    {
      (Mail? ==> exchange.LinksHold(buf, 0)) && (Service? ==> host.LinksHold(buf, 0))
    }
  }

  /** Records that add nothing: of other types, or too short or long for theirs. */
  predicate Ignored(rtype: u16, size: nat) {
    && (rtype == 1 ==> size != 4)
    && (rtype == 28 ==> size != 16)
    && rtype != 16
    && (rtype == 15 ==> size <= 2)
    && (rtype == 33 ==> size <= 6)
  }

  /** Character strings, each after its length. */
  function Packed(texts: seq<Bytes>): Bytes
    requires forall i :: 0 <= i < |texts| ==> |texts[i]| < 256
  {
    if texts == [] then [] else [|texts[0]|] + texts[0] + Packed(texts[1..])
  }

  datatype Record = Record(owner: Name, class_: u16, ttl: u32, data: Data) {
    predicate Valid() {
      owner.Valid() && |owner.ls| < 256 && data.Valid() && |data.Text()| < TWO_16
    }

    function Fixed(): (f: Bytes)
      requires Valid()
      ensures |f| == 10
    {
      Be16(data.Type()) + Be16(class_) + Be32(ttl) + Be16(|data.Text()|)
    }

    function Text(): Bytes
      requires Valid()
    {
      owner.Text() + Fixed() + data.Text()
    }
  }

  datatype Question = Question(name: Name, qtype: u16, qclass: u16) {
    predicate Valid() {
      name.Valid() && |name.ls| < 256
    }

    function Text(): Bytes
      requires Valid()
    {
      name.Text() + Be16(qtype) + Be16(qclass)
    }
  }

  predicate AllValid(rs: seq<Record>) {
    forall i :: 0 <= i < |rs| ==> rs[i].Valid()
  }

  function Records(rs: seq<Record>): Bytes
    requires AllValid(rs)
  {
    if rs == [] then [] else rs[0].Text() + Records(rs[1..])
  }

  predicate AllAsked(qs: seq<Question>) {
    forall i :: 0 <= i < |qs| ==> qs[i].Valid()
  }

  function Questions(qs: seq<Question>): Bytes
    requires AllAsked(qs)
  {
    if qs == [] then [] else qs[0].Text() + Questions(qs[1..])
  }

  // ---------------------------------------------------------------- what the records say

  function V4(r: Record): seq<u32> {
    if r.data.Address4? then [r.data.ip4] else []
  }

  function V6(r: Record): seq<Bytes> {
    if r.data.Address6? then [r.data.ip6] else []
  }

  function Txt(lossy: Bytes -> Bytes): Record -> seq<Bytes> {
    (r: Record) => if r.data.Strings? then Shown(lossy, r.data.texts) else []
  }

  function Mx(lossy: Bytes -> Bytes): Record -> seq<Bytes> {
    (r: Record) => if !r.data.Mail? then []
                   else match Given(lossy, r.data.exchange) case Some(name) => [name] case None => []
  }

  function Srv(lossy: Bytes -> Bytes): Record -> seq<(Bytes, u16)> {
    (r: Record) => if !r.data.Service? then []
                   else match Given(lossy, r.data.host) case Some(name) => [(name, r.data.port)] case None => []
  }

  /** What all records say, in their order. */
  function Each<T>(rs: seq<Record>, says: Record -> seq<T>): seq<T> {
    if rs == [] then [] else says(rs[0]) + Each(rs[1..], says)
  }

  predicate IsAddress(r: Record) {
    r.data.Address4? || r.data.Address6?
  }

  function LeastFrom(ttl: u32, rs: seq<Record>): u32 {
    if rs == [] then ttl
    else LeastFrom(if IsAddress(rs[0]) then Min(ttl, rs[0].ttl) else ttl, rs[1..])
  }

  /** t is the least ttl of the address records, or 0 if none of them has a ttl below the maximum. */
  ghost predicate ReportsLeast(t: u32, rs: seq<Record>) {
    if exists i :: 0 <= i < |rs| && IsAddress(rs[i]) && rs[i].ttl < U32_MAX
    then (exists i :: 0 <= i < |rs| && IsAddress(rs[i]) && rs[i].ttl == t)
         && forall i :: 0 <= i < |rs| && IsAddress(rs[i]) ==> t <= rs[i].ttl
    else t == 0
  }

  lemma {:induction false} LeastIsLeast(ttl: u32, rs: seq<Record>)
    ensures var t := LeastFrom(ttl, rs);
            && t <= ttl && (forall i :: 0 <= i < |rs| && IsAddress(rs[i]) ==> t <= rs[i].ttl)
            && (t == ttl || exists i :: 0 <= i < |rs| && IsAddress(rs[i]) && rs[i].ttl == t)
    decreases |rs|
  {
    if rs != [] {
      var next := if IsAddress(rs[0]) then Min(ttl, rs[0].ttl) else ttl;
      LeastIsLeast(next, rs[1..]);
      var t := LeastFrom(next, rs[1..]);
      forall i | 0 <= i < |rs| && IsAddress(rs[i]) ensures t <= rs[i].ttl {
        assert i > 0 ==> rs[i] == rs[1..][i - 1];
      }
      if t != next {
        var i :| 0 <= i < |rs[1..]| && IsAddress(rs[1..][i]) && rs[1..][i].ttl == t;
        assert rs[i + 1].ttl == t;
      }
    }
  }

  /** The response after further records. */
  function Extended(lossy: Bytes -> Bytes, acc: DnsResponse, rs: seq<Record>): DnsResponse {
    DnsResponse(acc.id, acc.rcode, acc.v4 + Each(rs, V4), acc.v6 + Each(rs, V6), acc.txt + Each(rs, Txt(lossy)),
                acc.mx + Each(rs, Mx(lossy)), acc.srv + Each(rs, Srv(lossy)), LeastFrom(acc.minTtl, rs))
  }

  // ---------------------------------------------------------------- reading them back

  lemma WordAt(buf: Bytes, pos: nat, n: u16)
    requires At(buf, pos, Be16(n))
    ensures pos + 2 <= |buf| && Word(buf, pos) == n
  {
    Be16RoundTrip(n);
    assert buf[pos..pos + 2][0] == buf[pos] && buf[pos..pos + 2][1] == buf[pos + 1];
  }

  lemma LongAt(buf: Bytes, pos: nat, n: u32)
    requires At(buf, pos, Be32(n))
    ensures pos + 4 <= |buf| && Long(buf, pos) == n
  {
    Be32RoundTrip(n);
    var s := buf[pos..pos + 4];
    assert s[0] == buf[pos] && s[1] == buf[pos + 1] && s[2] == buf[pos + 2] && s[3] == buf[pos + 3];
  }

  lemma {:induction false} StringsAreRead(lossy: Bytes -> Bytes, buf: Bytes, pos: nat, texts: seq<Bytes>)
    requires forall i :: 0 <= i < |texts| ==> |texts[i]| < 256
    requires At(buf, pos, Packed(texts))
    ensures pos + |Packed(texts)| <= |buf|
    ensures TxtFrom(lossy, buf, pos, pos + |Packed(texts)|) == Shown(lossy, texts)
    decreases |texts|
  {
    hide At;
    AtMeans(buf, pos, Packed(texts));
    if texts != [] {
      var t, tail := texts[0], Packed(texts[1..]);
      AtSplit(buf, pos, [|t|] + t, tail);
      AtSplit(buf, pos, [|t|], t);
      AtByte(buf, pos, |t|);
      AtMeans(buf, pos + 1, t);
      StringsAreRead(lossy, buf, pos + 1 + |t|, texts[1..]);
      assert Shown(lossy, texts) == [lossy(t)] + Shown(lossy, texts[1..]);
    }
  }

  /** One record's data adds what it says. */
  lemma DataIsRead(lossy: Bytes -> Bytes, buf: Bytes, acc: DnsResponse, pos: nat, r: Record)
    requires r.Valid() && r.data.LinksHold(buf) && At(buf, pos, r.data.Text())
    ensures pos + |r.data.Text()| <= |buf|
    ensures WithRecord(lossy, buf, acc, r.data.Type(), r.ttl, pos, |r.data.Text()|) == Extended(lossy, acc, [r])
  {
    hide At, Name.Text, Name.Valid, Name.LinksHold, ReadNameFrom, TxtFrom, Long, Word, Extended, Each, Packed,
      Shown, Given;
    AtMeans(buf, pos, r.data.Text());
    ExtendedOne(lossy, acc, r);
    match r.data {
      case Address4(ip) => LongAt(buf, pos, ip);
      case Address6(_) =>
      case Strings(texts) => StringsAreRead(lossy, buf, pos, texts);
      case Mail(preference, name) =>
        TextIsLong(name);
        AtSplit(buf, pos, Be16(preference), name.Text());
        NameIsGiven(lossy, buf, pos + 2, name);
      case Service(priority, weight, port, name) =>
        TextIsLong(name);
        AtSplit(buf, pos, Be16(priority) + Be16(weight) + Be16(port), name.Text());
        AtSplit(buf, pos, Be16(priority) + Be16(weight), Be16(port));
        WordAt(buf, pos + 4, port);
        NameIsGiven(lossy, buf, pos + 6, name);
      case Other(_, _) =>
    }
  }

  lemma NameIsGiven(lossy: Bytes -> Bytes, buf: Bytes, pos: nat, n: Name)
    requires n.Valid() && At(buf, pos, n.Text()) && n.LinksHold(buf, 0)
    ensures ReadNameFrom(lossy, buf, pos, 0, []) == Given(lossy, n)
  {
    hide At, Name.Text, Name.Valid, Name.LinksHold, ReadNameFrom, Shown, Dotted;
    NameIsRead(lossy, buf, pos, 0, [], n);
  }

  lemma TextIsLong(n: Name)
    requires n.Valid()
    ensures |n.Text()| > 0
  {
  }

  lemma EachOne<T>(r: Record, says: Record -> seq<T>)
    ensures Each([r], says) == says(r)
  {
    assert [r][1..] == [];
  }

  lemma ExtendedOne(lossy: Bytes -> Bytes, acc: DnsResponse, r: Record)
    ensures Extended(lossy, acc, [r]) ==
            DnsResponse(acc.id, acc.rcode, acc.v4 + V4(r), acc.v6 + V6(r), acc.txt + Txt(lossy)(r),
                        acc.mx + Mx(lossy)(r), acc.srv + Srv(lossy)(r),
                        if IsAddress(r) then Min(acc.minTtl, r.ttl) else acc.minTtl)
  {
    hide Given, Shown, Each;
    EachOne(r, V4);
    EachOne(r, V6);
    EachOne(r, Txt(lossy));
    EachOne(r, Mx(lossy));
    EachOne(r, Srv(lossy));
    LeastOfOne(acc.minTtl, r);
  }

  lemma LeastOfOne(ttl: u32, r: Record)
    ensures LeastFrom(ttl, [r]) == if IsAddress(r) then Min(ttl, r.ttl) else ttl
  {
    assert [r][1..] == [];
  }

  lemma EachMore<T>(before: seq<T>, rs: seq<Record>, says: Record -> seq<T>)
    requires rs != []
    ensures before + says(rs[0]) + Each(rs[1..], says) == before + Each(rs, says)
  {
  }

  lemma ExtendedMore(lossy: Bytes -> Bytes, acc: DnsResponse, rs: seq<Record>)
    requires rs != []
    ensures Extended(lossy, Extended(lossy, acc, [rs[0]]), rs[1..]) == Extended(lossy, acc, rs)
  {
    hide V4, V6, Txt, Mx, Srv, Each;
    ExtendedOne(lossy, acc, rs[0]);
    EachMore(acc.v4, rs, V4);
    EachMore(acc.v6, rs, V6);
    EachMore(acc.txt, rs, Txt(lossy));
    EachMore(acc.mx, rs, Mx(lossy));
    EachMore(acc.srv, rs, Srv(lossy));
  }

  /** The fixed part of a record, behind its owner. */
  lemma FixedIsRead(buf: Bytes, pos: nat, r: Record)
    requires r.Valid() && At(buf, pos, r.Fixed())
    ensures pos + 10 <= |buf|
    ensures Word(buf, pos) == r.data.Type() && Long(buf, pos + 4) == r.ttl && Word(buf, pos + 8) == |r.data.Text()|
  {
    hide At, Data.Text, Word, Long;
    var (t, c, l, n) := (Be16(r.data.Type()), Be16(r.class_), Be32(r.ttl), Be16(|r.data.Text()|));
    AtMeans(buf, pos, r.Fixed());
    AtSplit(buf, pos, t + c + l, n);
    AtSplit(buf, pos, t + c, l);
    AtSplit(buf, pos, t, c);
    WordAt(buf, pos, r.data.Type());
    LongAt(buf, pos + 4, r.ttl);
    WordAt(buf, pos + 8, |r.data.Text()|);
  }

  /** Where the parts of a record stand. */
  lemma RecordParts(buf: Bytes, pos: nat, r: Record)
    requires r.Valid() && At(buf, pos, r.Text())
    ensures SkipNameFrom(buf, pos, SKIP_STEPS) == Ok(pos + |r.owner.Text()|)
    ensures At(buf, pos + |r.owner.Text()|, r.Fixed())
    ensures At(buf, pos + |r.owner.Text()| + 10, r.data.Text())
  {
    hide At, Data.Text, Record.Fixed, SkipNameFrom;
    AtSplit(buf, pos, r.owner.Text() + r.Fixed(), r.data.Text());
    AtSplit(buf, pos, r.owner.Text(), r.Fixed());
    NameIsSkipped(buf, pos, r.owner, r.owner.ls, SKIP_STEPS);
  }

  ghost predicate AllLinksHold(rs: seq<Record>, buf: Bytes)
    requires AllValid(rs)
  {
    forall i :: 0 <= i < |rs| ==> rs[i].data.LinksHold(buf)
  }

  lemma {:induction false} RecordsAreRead(lossy: Bytes -> Bytes, buf: Bytes, pos: nat, rs: seq<Record>,
                                          acc: DnsResponse)
    requires AllValid(rs) && AllLinksHold(rs, buf) && At(buf, pos, Records(rs))
    ensures AnswersFrom(lossy, buf, pos, |rs|, acc) == Ok(Extended(lossy, acc, rs))
    decreases |rs|
  {
    hide At, Record.Text, Record.Fixed, Data.Text, Data.LinksHold, Data.Valid, Data.Type, Name.Text, Name.Valid,
      SkipNameFrom, WithRecord, Word, Long, Extended;
    if rs == [] {
      ExtendedNone(lossy, acc);
    } else {
      var r, p := rs[0], pos + |rs[0].owner.Text()|;
      RecordSize(r);
      AtSplit(buf, pos, r.Text(), Records(rs[1..]));
      RecordParts(buf, pos, r);
      FixedIsRead(buf, p, r);
      DataIsRead(lossy, buf, acc, p + 10, r);
      ExtendedMore(lossy, acc, rs);
      RecordsAreRead(lossy, buf, p + 10 + |r.data.Text()|, rs[1..], Extended(lossy, acc, [r]));
    }
  }

  lemma RecordSize(r: Record)
    requires r.Valid()
    ensures |r.Text()| == |r.owner.Text()| + 10 + |r.data.Text()|
  {
  }

  lemma ExtendedNone(lossy: Bytes -> Bytes, acc: DnsResponse)
    ensures Extended(lossy, acc, []) == acc
  {
  }

  lemma {:induction false} QuestionsAreSkipped(buf: Bytes, pos: nat, qs: seq<Question>)
    requires AllAsked(qs) && At(buf, pos, Questions(qs))
    ensures SkippedQuestions(buf, pos, |qs|) == Ok(pos + |Questions(qs)|)
    decreases |qs|
  {
    hide At, SkipNameFrom;
    if qs != [] {
      var q := qs[0];
      var kind := Be16(q.qtype) + Be16(q.qclass);
      assert q.Text() == q.name.Text() + kind;
      AtSplit(buf, pos, q.Text(), Questions(qs[1..]));
      AtSplit(buf, pos, q.name.Text(), kind);
      AtMeans(buf, pos + |q.name.Text()|, kind);
      NameIsSkipped(buf, pos, q.name, q.name.ls, SKIP_STEPS);
      QuestionsAreSkipped(buf, pos + |q.Text()|, qs[1..]);
    }
  }

  /** A response on the wire: any header announcing these counts, and anything behind the answers. */
  ghost predicate Encodes(buf: Bytes, qs: seq<Question>, rs: seq<Record>, behind: Bytes)
    requires AllAsked(qs) && AllValid(rs)
  {
    && |buf| >= HEADER_LEN && buf[HEADER_LEN..] == Questions(qs) + Records(rs) + behind
    && Word(buf, 4) == |qs| && Word(buf, 6) == |rs|
  }

  /** The questions are skipped and the records read one after the other. */
  lemma PartsAreRead(lossy: Bytes -> Bytes, buf: Bytes, qs: seq<Question>, rs: seq<Record>, behind: Bytes)
    requires AllAsked(qs) && AllValid(rs) && Encodes(buf, qs, rs, behind) && AllLinksHold(rs, buf)
    ensures var end := HEADER_LEN + |Questions(qs)|;
            && SkippedQuestions(buf, HEADER_LEN, Word(buf, 4)) == Ok(end)
            && AnswersFrom(lossy, buf, end, Word(buf, 6), Blank(buf)) == Ok(Extended(lossy, Blank(buf), rs))
  {
    hide At, Word, SkippedQuestions, AnswersFrom, AllLinksHold, Extended, Questions, Records;
    AtMeans(buf, HEADER_LEN, buf[HEADER_LEN..]);
    AtSplit(buf, HEADER_LEN, Questions(qs) + Records(rs), behind);
    AtSplit(buf, HEADER_LEN, Questions(qs), Records(rs));
    QuestionsAreSkipped(buf, HEADER_LEN, qs);
    RecordsAreRead(lossy, buf, HEADER_LEN + |Questions(qs)|, rs, Blank(buf));
  }

  lemma LeastIsReported(rs: seq<Record>)
    ensures var t := LeastFrom(U32_MAX, rs); ReportsLeast(if t == U32_MAX then 0 else t, rs)
  {
    LeastIsLeast(U32_MAX, rs);
  }

  /** Every encoded response reads back: id and code of the header, every address, every string, every exchange and
      every service whose name can be given, each in order of the records, and the least ttl of the addresses. */
  lemma ResponseReadsBack(lossy: Bytes -> Bytes, buf: Bytes, qs: seq<Question>, rs: seq<Record>, behind: Bytes)
    requires AllAsked(qs) && AllValid(rs) && Encodes(buf, qs, rs, behind) && AllLinksHold(rs, buf)
    ensures var r := ParsedResponse(lossy, buf);
            && r.Ok? && r.value.id == Word(buf, 0) && r.value.rcode == buf[3] % 16
            && r.value.v4 == Each(rs, V4) && r.value.v6 == Each(rs, V6) && r.value.txt == Each(rs, Txt(lossy))
            && r.value.mx == Each(rs, Mx(lossy)) && r.value.srv == Each(rs, Srv(lossy))
            && ReportsLeast(r.value.minTtl, rs)
  {
    hide At, Word, SkippedQuestions, AnswersFrom, AllLinksHold, Each, LeastFrom, ReportsLeast,
      Questions, Records;
    PartsAreRead(lossy, buf, qs, rs, behind);
    LeastIsReported(rs);
    assert buf[3] % 16 == Blank(buf).rcode;
  }
}
