/** Handshake reassembly across TLS records (tls.rs, `record_at` and `collect_handshake`): how a message is cut into
    records (section 5.1 of RFC 8446) never changes what is collected. */
module TlsRecords {
  import opened MachineInts
  import opened Wrappers

  datatype ParseErr = Short(need: nat, have: nat) | NotHandshake | NotClientHello | Malformed(what: string)

  const MAX_HANDSHAKE: nat := 65536
  const HANDSHAKE: byte := 0x16
  const TOO_LARGE := Malformed("tls handshake too large")

  /** The body of the record at an offset, and where the next one starts. */
  function RecordAt(buf: Bytes, off: nat): (r: Result<(Bytes, nat), ParseErr>)
    ensures r.Ok? ==> off + 5 <= r.value.1 <= |buf| && |r.value.0| == r.value.1 - off - 5
  {
    if off + 5 > |buf| then Err(Short(off + 5, |buf|))
    else if buf[off] != HANDSHAKE then Err(NotHandshake)
    else
      var end: nat := off + 5 + FromBe16(buf[off + 3], buf[off + 4]);
      if end > |buf| then Err(Short(end, |buf|)) else Ok((buf[off + 5..end], end))
  }

  /** Total length of the handshake message at the front, from its 24-bit length field. */
  function Need(hs: Bytes): nat
    requires |hs| >= 4
  {
    var hi: int := hs[1];
    4 + hi * 65536 + FromBe16(hs[2], hs[3])
  }

  /** The loop of `collect_handshake` with `out` collected and the next record at `next`. */
  function CollectFrom(buf: Bytes, out: Bytes, next: nat): (r: Result<Bytes, ParseErr>)
    decreases |buf| - next
  {
    if |out| >= 4 && Need(out) > MAX_HANDSHAKE then Err(TOO_LARGE)
    else if |out| >= 4 && |out| >= Need(out) then Ok(out[..Need(out)])
    else match RecordAt(buf, next)
      case Err(e) => Err(e)
      case Ok((body, n)) =>
        if |out| + |body| > MAX_HANDSHAKE then Err(TOO_LARGE) else CollectFrom(buf, out + body, n)
  }

  function Collected(buf: Bytes): Result<Bytes, ParseErr> {
    match RecordAt(buf, 0)
    case Err(e) => Err(e)
    case Ok((first, next)) => CollectFrom(buf, first, next)
  }

  method CollectHandshake(buf: Bytes) returns (r: Result<Bytes, ParseErr>)
    ensures r == Collected(buf)
  {
    hide RecordAt, Need;
    var start := RecordAt(buf, 0);
    if start.Err? {
      return Err(start.error);
    }
    var (first, next) := start.value;
    if |first| >= 4 {
      var need := Need(first);
      if need > MAX_HANDSHAKE {
        return Err(TOO_LARGE);
      }
      if |first| >= need {
        return Ok(first[..need]);
      }
    }
    var out := first;
    while true
      invariant Collected(buf) == CollectFrom(buf, out, next)
      decreases |buf| - next
    {
      if |out| >= 4 {
        var need := Need(out);
        if need > MAX_HANDSHAKE {
          return Err(TOO_LARGE);
        }
        if |out| >= need {
          out := out[..need];
          return Ok(out);
        }
      }
      var record := RecordAt(buf, next);
      if record.Err? {
        return Err(record.error);
      }
      var (body, n) := record.value;
      next := n;
      if |out| + |body| > MAX_HANDSHAKE {
        return Err(TOO_LARGE);
      }
      out := out + body;
    }
  }

  // ---------------------------------------------------------------- record streams

  datatype Record = Record(version: u16, body: Bytes) {
    predicate Valid() {
      |body| < TWO_16
    }
  }

  predicate AllValid(rs: seq<Record>) {
    forall i :: 0 <= i < |rs| ==> rs[i].Valid()
  }

  function Encode(r: Record): (w: Bytes)
    requires r.Valid()
    ensures |w| == 5 + |r.body|
  {
    [22] + Be16(r.version) + Be16(|r.body|) + r.body
  }

  function Wire(rs: seq<Record>): Bytes
    requires AllValid(rs)
  {
    if rs == [] then [] else Encode(rs[0]) + Wire(rs[1..])
  }

  function Bodies(rs: seq<Record>): Bytes {
    if rs == [] then [] else rs[0].body + Bodies(rs[1..])
  }

  lemma RecordIsRead(buf: Bytes, off: nat, r: Record, rest: Bytes)
    requires r.Valid() && off <= |buf| && buf[off..] == Encode(r) + rest
    ensures RecordAt(buf, off) == Ok((r.body, off + 5 + |r.body|))
    ensures buf[off + 5 + |r.body|..] == rest
  {
    var w := Encode(r) + rest;
    forall i | 0 <= i < 5 + |r.body| ensures buf[off + i] == Encode(r)[i] {
      assert buf[off..][i] == w[i];
    }
    Be16RoundTrip(|r.body|);
    assert buf[off + 5..off + 5 + |r.body|] == r.body;
    assert buf[off + 5 + |r.body|..] == buf[off..][5 + |r.body|..];
  }

  /** A message that a prefix of the collected bytes does not yet complete. */
  lemma NeedIsStable(out: Bytes, all: Bytes)
    requires |out| >= 4 && out <= all
    ensures Need(all) == Need(out)
  {
  }

  ghost predicate Complete(all: Bytes) {
    4 <= |all| <= 65536 && Need(all) <= |all|
  }

  lemma {:induction false} CollectRecords(buf: Bytes, out: Bytes, next: nat, rs: seq<Record>, rest: Bytes)
    requires AllValid(rs) && next <= |buf| && buf[next..] == Wire(rs) + rest
    requires Complete(out + Bodies(rs))
    ensures CollectFrom(buf, out, next) == Ok((out + Bodies(rs))[..Need(out + Bodies(rs))])
    decreases |rs|
  {
    hide RecordAt, Encode, Need;
    var all := out + Bodies(rs);
    assert rs == [] ==> all == out;
    if |out| >= 4 {
      NeedIsStable(out, all);
    }
    if |out| >= 4 && |out| >= Need(out) {
      assert all[..Need(out)] == out[..Need(out)];
    } else if rs != [] {
      var r := rs[0];
      assert buf[next..] == Encode(r) + (Wire(rs[1..]) + rest);
      RecordIsRead(buf, next, r, Wire(rs[1..]) + rest);
      assert out + r.body + Bodies(rs[1..]) == all;
      CollectRecords(buf, out + r.body, next + 5 + |r.body|, rs[1..], rest);
    }
  }

  /** Any cutting of a message of at most 65536 bytes into records, empty ones included, with further bytes of the
      same records behind it and anything after them, collects back to exactly the message. */
  lemma FragmentsCollect(rs: seq<Record>, rest: Bytes)
    requires AllValid(rs) && Complete(Bodies(rs))
    ensures Collected(Wire(rs) + rest) == Ok(Bodies(rs)[..Need(Bodies(rs))])
  {
    hide RecordAt, Encode, Need;
    var buf := Wire(rs) + rest;
    var r := rs[0];
    assert buf[0..] == Encode(r) + (Wire(rs[1..]) + rest);
    RecordIsRead(buf, 0, r, Wire(rs[1..]) + rest);
    CollectRecords(buf, r.body, 5 + |r.body|, rs[1..], rest);
  }

  // ---------------------------------------------------------------- partial and extended input

  lemma RecordExtends(buf: Bytes, more: Bytes, off: nat)
    requires !(RecordAt(buf, off).Err? && RecordAt(buf, off).error.Short?)
    ensures RecordAt(buf + more, off) == RecordAt(buf, off)
  {
    var all := buf + more;
    assert forall i :: 0 <= i < |buf| ==> all[i] == buf[i];
    if RecordAt(buf, off).Ok? {
      var end := RecordAt(buf, off).value.1;
      assert all[off + 5..end] == buf[off + 5..end];
    }
  }

  lemma {:induction false} CollectExtends(buf: Bytes, more: Bytes, out: Bytes, next: nat)
    requires !(CollectFrom(buf, out, next).Err? && CollectFrom(buf, out, next).error.Short?)
    ensures CollectFrom(buf + more, out, next) == CollectFrom(buf, out, next)
    decreases |buf| - next
  {
    hide RecordAt, Need;
    if !(|out| >= 4 && Need(out) > MAX_HANDSHAKE) && !(|out| >= 4 && |out| >= Need(out)) {
      RecordExtends(buf, more, next);
      if RecordAt(buf, next).Ok? {
        var (body, n) := RecordAt(buf, next).value;
        if |out| + |body| <= MAX_HANDSHAKE {
          CollectExtends(buf, more, out + body, n);
        }
      }
    }
  }

  /** Once the outcome is anything but "too short", more bytes do not change it. */
  lemma OutcomeIsStable(buf: Bytes, more: Bytes)
    requires !(Collected(buf).Err? && Collected(buf).error.Short?)
    ensures Collected(buf + more) == Collected(buf)
  {
    hide RecordAt;
    RecordExtends(buf, more, 0);
    if RecordAt(buf, 0).Ok? {
      var (first, next) := RecordAt(buf, 0).value;
      CollectExtends(buf, more, first, next);
    }
  }

  /** A record cut short is reported as such. */
  lemma CutRecordIsShort(buf: Bytes, off: nat, r: Record)
    requires r.Valid() && off <= |buf| && buf[off..] < Encode(r)
    ensures RecordAt(buf, off).Err? && RecordAt(buf, off).error.Short?
  {
    var part, whole := buf[off..], Encode(r);
    Be16RoundTrip(|r.body|);
    if |part| >= 5 {
      assert forall i :: 0 <= i < 5 ==> buf[off + i] == part[i] && part[i] == whole[i];
    }
  }

  lemma PrefixOfConcat(p: Bytes, a: Bytes, b: Bytes)
    requires p < a + b
    ensures p < a || (a <= p && p[|a|..] < b)
  {
    if |p| < |a| {
      assert p == (a + b)[..|p|] == a[..|p|];
    } else {
      assert p == (a + b)[..|p|] && (a + b)[..|a|] == a;
      assert p[|a|..] == b[..|p| - |a|];
    }
  }

  lemma {:induction false} CutStreamIsShort(buf: Bytes, out: Bytes, next: nat, rs: seq<Record>)
    requires AllValid(rs) && rs != [] && rs[|rs| - 1].body != []
    requires next <= |buf| && buf[next..] < Wire(rs)
    requires Complete(out + Bodies(rs)) && Need(out + Bodies(rs)) == |out + Bodies(rs)|
    ensures CollectFrom(buf, out, next).Err? && CollectFrom(buf, out, next).error.Short?
    decreases |rs|
  {
    hide RecordAt, Encode, Need;
    var all, r := out + Bodies(rs), rs[0];
    BodiesNotEmpty(rs);
    if |out| >= 4 {
      NeedIsStable(out, all);
    }
    PrefixOfConcat(buf[next..], Encode(r), Wire(rs[1..]));
    if buf[next..] < Encode(r) {
      CutRecordIsShort(buf, next, r);
    } else {
      var tail := buf[next..][|Encode(r)|..];
      assert buf[next..] == Encode(r) + tail;
      RecordIsRead(buf, next, r, tail);
      assert rs[1..] != [] by {
        assert Wire([]) == [];
      }
      assert out + r.body + Bodies(rs[1..]) == all;
      CutStreamIsShort(buf, out + r.body, next + 5 + |r.body|, rs[1..]);
    }
  }

  lemma {:induction false} BodiesNotEmpty(rs: seq<Record>)
    requires rs != [] && rs[|rs| - 1].body != []
    ensures |Bodies(rs)| > 0
    decreases |rs|
  {
    if |rs| > 1 {
      BodiesNotEmpty(rs[1..]);
    }
  }

  /** Every proper prefix of a record stream that ends with the last bytes of its message is too short. */
  lemma PrefixIsShort(rs: seq<Record>, prefix: Bytes)
    requires AllValid(rs) && rs != [] && rs[|rs| - 1].body != []
    requires Complete(Bodies(rs)) && Need(Bodies(rs)) == |Bodies(rs)|
    requires prefix < Wire(rs)
    ensures Collected(prefix).Err? && Collected(prefix).error.Short?
  {
    hide RecordAt, Encode, Need;
    var r := rs[0];
    assert prefix[0..] == prefix;
    PrefixOfConcat(prefix, Encode(r), Wire(rs[1..]));
    if prefix < Encode(r) {
      CutRecordIsShort(prefix, 0, r);
    } else {
      var tail := prefix[|Encode(r)|..];
      assert prefix == Encode(r) + tail;
      RecordIsRead(prefix, 0, r, tail);
      assert rs[1..] != [] by {
        assert Wire([]) == [];
      }
      CutStreamIsShort(prefix, r.body, 5 + |r.body|, rs[1..]);
    }
  }

  // ---------------------------------------------------------------- what is refused, and nothing but records accepted

  lemma {:induction false} CollectTooLarge(buf: Bytes, out: Bytes, next: nat, rs: seq<Record>, rest: Bytes)
    requires AllValid(rs) && next <= |buf| && buf[next..] == Wire(rs) + rest
    requires |out + Bodies(rs)| >= 4 && Need(out + Bodies(rs)) > 65536
    ensures CollectFrom(buf, out, next) == Err(TOO_LARGE)
    decreases |rs|
  {
    hide RecordAt, Encode, Need;
    var all := out + Bodies(rs);
    assert rs == [] ==> all == out;
    if |out| >= 4 {
      NeedIsStable(out, all);
    } else {
      var r := rs[0];
      assert buf[next..] == Encode(r) + (Wire(rs[1..]) + rest);
      RecordIsRead(buf, next, r, Wire(rs[1..]) + rest);
      assert out + r.body + Bodies(rs[1..]) == all;
      CollectTooLarge(buf, out + r.body, next + 5 + |r.body|, rs[1..], rest);
    }
  }

  /** A message that announces more than 65536 bytes is refused as soon as its length is there. */
  lemma AnnouncedTooLarge(rs: seq<Record>, rest: Bytes)
    requires AllValid(rs) && |Bodies(rs)| >= 4 && Need(Bodies(rs)) > 65536
    ensures Collected(Wire(rs) + rest) == Err(Malformed("tls handshake too large"))
  {
    hide RecordAt, Encode, Need;
    var buf := Wire(rs) + rest;
    var r := rs[0];
    assert buf[0..] == Encode(r) + (Wire(rs[1..]) + rest);
    RecordIsRead(buf, 0, r, Wire(rs[1..]) + rest);
    CollectTooLarge(buf, r.body, 5 + |r.body|, rs[1..], rest);
  }

  /** More bytes are needed, and may still come. */
  predicate Incomplete(all: Bytes) {
    |all| <= 65536 && (|all| < 4 || |all| < Need(all) <= 65536)
  }

  lemma {:induction false} CollectWrongType(buf: Bytes, out: Bytes, next: nat, rs: seq<Record>, bad: Bytes)
    requires AllValid(rs) && next <= |buf| && buf[next..] == Wire(rs) + bad
    requires Incomplete(out + Bodies(rs)) && |bad| >= 5 && bad[0] != 22
    ensures CollectFrom(buf, out, next) == Err(NotHandshake)
    decreases |rs|
  {
    hide RecordAt, Encode, Need;
    var all := out + Bodies(rs);
    if |out| >= 4 {
      NeedIsStable(out, all);
    }
    if rs == [] {
      assert all == out && buf[next..] == bad;
      OtherRecord(buf, next);
    } else {
      var r := rs[0];
      assert buf[next..] == Encode(r) + (Wire(rs[1..]) + bad);
      RecordIsRead(buf, next, r, Wire(rs[1..]) + bad);
      assert out + r.body + Bodies(rs[1..]) == all;
      CollectWrongType(buf, out + r.body, next + 5 + |r.body|, rs[1..], bad);
    }
  }

  lemma OtherRecord(buf: Bytes, off: nat)
    requires off + 5 <= |buf| && buf[off..][0] != 22
    ensures RecordAt(buf, off) == Err(NotHandshake)
  {
  }

  /** A record of another type before the message is complete is refused. */
  lemma WrongTypeIsRefused(rs: seq<Record>, bad: Bytes)
    requires AllValid(rs) && Incomplete(Bodies(rs)) && |bad| >= 5 && bad[0] != 22
    ensures Collected(Wire(rs) + bad) == Err(NotHandshake)
  {
    hide Encode, Need, CollectFrom;
    var buf := Wire(rs) + bad;
    if rs == [] {
      assert buf == bad;
    } else {
      var r := rs[0];
      assert buf[0..] == Encode(r) + (Wire(rs[1..]) + bad);
      RecordIsRead(buf, 0, r, Wire(rs[1..]) + bad);
      CollectWrongType(buf, r.body, 5 + |r.body|, rs[1..], bad);
    }
  }

  lemma RecordIsEncoded(buf: Bytes, off: nat) returns (r: Record)
    requires RecordAt(buf, off).Ok?
    ensures r.Valid() && r.body == RecordAt(buf, off).value.0
    ensures off <= |buf| && buf[off..] == Encode(r) + buf[RecordAt(buf, off).value.1..]
  {
    var end := RecordAt(buf, off).value.1;
    r := Record(FromBe16(buf[off + 1], buf[off + 2]), buf[off + 5..end]);
    assert Encode(r) == buf[off..end];
    assert buf[off..] == buf[off..end] + buf[end..];
  }

  lemma {:induction false} CollectIsRecords(buf: Bytes, out: Bytes, next: nat) returns (rs: seq<Record>, rest: Bytes)
    requires next <= |buf| && |out| <= 65536 && CollectFrom(buf, out, next).Ok?
    ensures AllValid(rs) && buf[next..] == Wire(rs) + rest && Complete(out + Bodies(rs))
    ensures CollectFrom(buf, out, next).value == (out + Bodies(rs))[..Need(out + Bodies(rs))]
    decreases |buf| - next
  {
    hide RecordAt, Encode, Need;
    if |out| >= 4 && |out| >= Need(out) {
      rs, rest := [], buf[next..];
      assert out + Bodies(rs) == out;
    } else {
      var (body, n) := RecordAt(buf, next).value;
      var r := RecordIsEncoded(buf, next);
      var more;
      more, rest := CollectIsRecords(buf, out + body, n);
      rs := [r] + more;
      assert rs[1..] == more && out + body + Bodies(more) == out + Bodies(rs);
      assert buf[next..] == Wire(rs) + rest;
    }
  }

  /** Whatever is collected is the message at the front of a sequence of handshake records. */
  lemma CollectedIsRecords(buf: Bytes) returns (rs: seq<Record>, rest: Bytes)
    requires Collected(buf).Ok?
    ensures AllValid(rs) && buf == Wire(rs) + rest && Complete(Bodies(rs))
    ensures Collected(buf).value == Bodies(rs)[..Need(Bodies(rs))]
  {
    hide RecordAt, Encode, Need, CollectFrom;
    var (first, next) := RecordAt(buf, 0).value;
    var r := RecordIsEncoded(buf, 0);
    var more;
    more, rest := CollectIsRecords(buf, first, next);
    rs := [r] + more;
    assert rs[1..] == more && buf[0..] == buf;
    assert first + Bodies(more) == Bodies(rs);
    assert buf == Wire(rs) + rest;
  }
}
