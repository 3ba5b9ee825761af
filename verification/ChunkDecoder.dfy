/** The streaming chunk decoder (clash_logs.rs): cutting its input anywhere never changes what it decodes. */
module ChunkDecoder {
  import opened MachineInts
  import opened Wrappers
  import opened ChunkSyntax
  import opened Utf8

  /** The decoder's fields. */
  datatype Dec = Dec(buf: Bytes, remaining: nat, inData: bool, done: bool) {
    function With(input: Bytes): Dec {
      this.(buf := buf + input)
    }
  }

  const FRESH := Dec([], 0, false, false)

  /** State after a call, what it appended to the output, and whether it succeeded. */
  datatype Fed = Fed(dec: Dec, out: Bytes, ok: bool)

  /** Position of the first CRLF: `find_crlf`. */
  function FindCrlf(b: Bytes): (r: Option<nat>)
    ensures r.Some? ==> r.value + 2 <= |b| && b[r.value] == CR && b[r.value + 1] == LF
    ensures r.Some? ==> forall i :: 0 <= i < r.value ==> !(b[i] == CR && b[i + 1] == LF)
    ensures r.None? ==> forall i :: 0 <= i < |b| - 1 ==> !(b[i] == CR && b[i + 1] == LF)
  {
    if |b| < 2 then None
    else if b[0] == CR && b[1] == LF then Some(0)
    else match FindCrlf(b[1..])
      case Some(p) => Some(p + 1)
      case None => None
  }

  /** The loop of `feed`, from a state whose buffer already holds the input. */
  function Drive(d: Dec): Fed
    decreases |d.buf|
  {
    if d.done then Fed(d, [], true)
    else if d.inData then
      var take := Min(d.remaining, |d.buf|);
      var out := d.buf[..take];
      var d' := d.(buf := d.buf[take..], remaining := d.remaining - take);
      var rest := if d'.remaining > 0 || |d'.buf| < 2 then Fed(d', [], true)
                  else Drive(d'.(buf := d'.buf[2..], inData := false));
      rest.(out := out + rest.out)
    else
      match FindCrlf(d.buf)
      case None => Fed(d, [], true)
      case Some(pos) =>
        var line, d' := d.buf[..pos], d.(buf := d.buf[pos + 2..]);
        match ChunkSize(line)
        case None => Fed(d', [], false)
        case Some(0) => Fed(d'.(done := true), [], true)
        case Some(size) => Drive(d'.(remaining := size, inData := true))
  }

  /** One call of `feed`. */
  function AfterFeed(d: Dec, input: Bytes): Fed {
    Drive(d.With(input))
  }

  /** The rest of the loop once the data at hand is taken. */
  function AfterTake(d: Dec): Fed
    requires d.inData && !d.done
  {
    if d.remaining > 0 || |d.buf| < 2 then Fed(d, [], true)
    else Drive(d.(buf := d.buf[2..], inData := false))
  }

  lemma DriveData(d: Dec)
    requires !d.done && d.inData
    ensures var take := Min(d.remaining, |d.buf|);
            var rest := AfterTake(d.(buf := d.buf[take..], remaining := d.remaining - take));
            Drive(d) == Fed(rest.dec, d.buf[..take] + rest.out, rest.ok)
  {
  }

  lemma DriveDone(d: Dec)
    requires d.done
    ensures Drive(d) == Fed(d, [], true)
  {
  }

  lemma DriveLine(d: Dec)
    requires !d.done && !d.inData
    ensures match FindCrlf(d.buf)
            case None => Drive(d) == Fed(d, [], true)
            case Some(pos) =>
              var d', size := d.(buf := d.buf[pos + 2..]), ChunkSize(d.buf[..pos]);
              Drive(d) == if size == None then Fed(d', [], false)
                          else if size == Some(0) then Fed(d'.(done := true), [], true)
                          else Drive(d'.(remaining := size.value, inData := true))
  {
  }

  class Decoder {
    var buf: Bytes
    var remaining: nat
    var inData: bool
    var done: bool

    function State(): Dec
      reads this
    {
      Dec(buf, remaining, inData, done)
    }

    constructor ()
      ensures State() == FRESH
    {
      buf, remaining, inData, done := [], 0, false, false;
    }

    /** `feed`: appends the decoded bytes to `out`; `ok` is false for a bad chunk size. */
    method Feed(input: Bytes, before: Bytes) returns (out: Bytes, ok: bool)
      modifies this
      ensures var fed := AfterFeed(old(State()), input);
              && State() == fed.dec && out == before + fed.out && ok == fed.ok
    {
      hide ChunkSize, FindCrlf, Drive;
      buf := buf + input;
      out := before;
      ghost var all := Drive(State());
      while true
        invariant Drive(State()).dec == all.dec && Drive(State()).ok == all.ok
        invariant before + all.out == out + Drive(State()).out
        decreases |buf|
      {
        ghost var start, soFar := State(), out;
        if done {
          DriveDone(start);
          return out, true;
        }
        if inData {
          ghost var taken := start.buf[..Min(start.remaining, |start.buf|)];
          DriveData(start);
          if remaining > 0 {
            var take := Min(remaining, |buf|);
            out := out + buf[..take];
            buf := buf[take..];
            remaining := remaining - take;
            if remaining > 0 {
              return out, true;
            }
          }
          assert out == soFar + taken;
          Concat3(soFar, taken, AfterTake(State()).out);
          if |buf| < 2 {
            return out, true;
          }
          buf := buf[2..];
          inData := false;
        } else {
          DriveLine(start);
          var found := FindCrlf(buf);
          if found.None? {
            return out, true;
          }
          var pos := found.value;
          var sizeLine := buf[..pos];
          buf := buf[pos + 2..];
          var size := ChunkSize(sizeLine);
          if size.None? {
            return out, false;
          }
          if size.value == 0 {
            done := true;
            return out, true;
          }
          remaining := size.value;
          inData := true;
        }
      }
    }
  }

  // ---------------------------------------------------------------- segmentation

  lemma {:induction false} FindCrlfExtends(a: Bytes, b: Bytes)
    requires FindCrlf(a).Some?
    ensures FindCrlf(a + b) == FindCrlf(a)
  {
    if !(a[0] == CR && a[1] == LF) {
      assert (a + b)[1..] == a[1..] + b;
      FindCrlfExtends(a[1..], b);
    }
  }

  /** Inside chunk data that the buffer does not complete. */
  lemma ShortDataExtends(d: Dec, more: Bytes)
    requires !d.done && d.inData && d.remaining > |d.buf|
    ensures var waiting := d.(buf := [], remaining := d.remaining - |d.buf|);
            && Drive(d) == Fed(waiting, d.buf, true)
            && var second := Drive(waiting.With(more));
               Drive(d.With(more)) == Fed(second.dec, d.buf + second.out, second.ok)
  {
    hide Drive;
    var waiting := d.(buf := [], remaining := d.remaining - |d.buf|);
    var both := d.buf + more;
    var take := Min(d.remaining - |d.buf|, |more|);
    assert both[..|d.buf| + take] == d.buf + more[..take];
    assert both[|d.buf| + take..] == more[take..];
    assert [] + more == more && d.buf[..|d.buf|] == d.buf && d.buf + [] == d.buf && d.buf[|d.buf|..] == [];
    DriveData(d);
    DriveData(waiting.With(more));
    DriveData(d.With(more));
    Concat3(d.buf, more[..take], AfterTake(d.(buf := more[take..], remaining := d.remaining - |d.buf| - take)).out);
  }

  /** Chunk data that the buffer does complete. */
  lemma FullDataExtends(d: Dec, more: Bytes)
    requires !d.done && d.inData && d.remaining <= |d.buf|
    ensures var d' := d.(buf := d.buf[d.remaining..], remaining := 0);
            && Drive(d) == AfterTake(d').(out := d.buf[..d.remaining] + AfterTake(d').out)
            && Drive(d.With(more)) ==
               AfterTake(d'.With(more)).(out := d.buf[..d.remaining] + AfterTake(d'.With(more)).out)
  {
    hide Drive;
    var both := d.buf + more;
    assert both[..d.remaining] == d.buf[..d.remaining];
    assert both[d.remaining..] == d.buf[d.remaining..] + more;
    DriveData(d);
    DriveData(d.With(more));
  }

  /** What the loop leaves unread it would have met again. */
  lemma {:induction false} DriveExtends(d: Dec, more: Bytes)
    ensures var first := Drive(d);
            if first.ok
            then var second := Drive(first.dec.With(more));
                 Drive(d.With(more)) == Fed(second.dec, first.out + second.out, second.ok)
            else Drive(d.With(more)) == Fed(first.dec.With(more), first.out, false)
    decreases |d.buf|
  {
    hide ChunkSize, FindCrlf, Drive;
    if d.done {
      DriveDone(d);
      DriveDone(d.With(more));
    } else if d.inData {
      if d.remaining > |d.buf| {
        ShortDataExtends(d, more);
      } else {
        var d', out := d.(buf := d.buf[d.remaining..], remaining := 0), d.buf[..d.remaining];
        FullDataExtends(d, more);
        if |d'.buf| < 2 {
          var again := Drive(d'.With(more));
          assert AfterTake(d') == Fed(d', [], true);
          DriveData(d'.With(more));
          assert (d'.buf + more)[..0] == [] && (d'.buf + more)[0..] == d'.buf + more;
          assert out + [] == out && [] + again.out == again.out;
        } else {
          var next := d'.(buf := d'.buf[2..], inData := false);
          assert (d'.buf + more)[2..] == next.buf + more;
          DriveExtends(next, more);
          Concat3(out, Drive(next).out, Drive(Drive(next).dec.With(more)).out);
        }
      }
    } else {
      LineExtends(d, more);
      DriveLine(d);
      match FindCrlf(d.buf)
      case None =>
      case Some(pos) =>
        match ChunkSize(d.buf[..pos])
        case None =>
        case Some(size) =>
          if size == 0 {
            DriveDone(d.(buf := d.buf[pos + 2..], done := true).With(more));
          } else {
            DriveExtends(d.(buf := d.buf[pos + 2..], remaining := size, inData := true), more);
          }
    }
  }

  /** At a size line: once it is complete, more input does not change how it is read. */
  lemma LineExtends(d: Dec, more: Bytes)
    requires !d.done && !d.inData
    ensures FindCrlf(d.buf) == None ==> Fed(d, [], true) == Drive(d)
    ensures FindCrlf(d.buf).Some? ==>
              var pos := FindCrlf(d.buf).value;
              var d', size := d.(buf := d.buf[pos + 2..]).With(more), ChunkSize(d.buf[..pos]);
              Drive(d.With(more)) == if size == None then Fed(d', [], false)
                                     else if size == Some(0) then Fed(d'.(done := true), [], true)
                                     else Drive(d'.(remaining := size.value, inData := true))
  {
    hide Drive, ChunkSize, FindCrlf;
    DriveLine(d);
    if FindCrlf(d.buf).Some? {
      var pos := FindCrlf(d.buf).value;
      FindCrlfExtends(d.buf, more);
      assert (d.buf + more)[..pos] == d.buf[..pos];
      assert (d.buf + more)[pos + 2..] == d.buf[pos + 2..] + more;
      DriveLine(d.With(more));
    }
  }

  /** Successive calls of `feed`, given up at the first error. */
  function FeedAll(d: Dec, pieces: seq<Bytes>): Fed
    decreases |pieces|
  {
    if pieces == [] then Fed(d, [], true)
    else
      var first := AfterFeed(d, pieces[0]);
      if !first.ok then first
      else
        var rest := FeedAll(first.dec, pieces[1..]);
        rest.(out := first.out + rest.out)
  }

  function Joined(pieces: seq<Bytes>): Bytes {
    if pieces == [] then [] else pieces[0] + Joined(pieces[1..])
  }

  /** Two calls in a row act like one call on the joined input; after an error only unread input differs. */
  lemma FeedTwice(d: Dec, a: Bytes, b: Bytes)
    ensures var first := AfterFeed(d, a);
            if first.ok
            then var second := AfterFeed(first.dec, b);
                 AfterFeed(d, a + b) == Fed(second.dec, first.out + second.out, second.ok)
            else AfterFeed(d, a + b) == Fed(first.dec.With(b), first.out, false)
  {
    hide Drive;
    DriveExtends(d.With(a), b);
    assert d.With(a).With(b) == d.With(a + b) by {
      assert d.buf + a + b == d.buf + (a + b);
    }
  }

  /** However the input is cut, the output and the outcome are those of one call on all of it, and so is the state
      if nothing failed. */
  lemma {:induction false} CutsDoNotMatter(d: Dec, pieces: seq<Bytes>)
    requires pieces != []
    ensures var cut, whole := FeedAll(d, pieces), AfterFeed(d, Joined(pieces));
            cut.out == whole.out && cut.ok == whole.ok && (cut.ok ==> cut.dec == whole.dec)
    decreases |pieces|
  {
    var first := AfterFeed(d, pieces[0]);
    if |pieces| == 1 {
      assert Joined(pieces[1..]) == [] && pieces[0] + [] == pieces[0];
      assert first.out + [] == first.out;
    } else {
      FeedTwice(d, pieces[0], Joined(pieces[1..]));
      if first.ok {
        CutsDoNotMatter(first.dec, pieces[1..]);
      }
    }
  }

  // ---------------------------------------------------------------- well-formed bodies

  /** A line without CR or LF ends at the first CRLF after it. */
  lemma {:induction false} LineEnd(line: Bytes, rest: Bytes)
    requires NoLineEnd(line)
    ensures FindCrlf(line + CRLF + rest) == Some(|line|)
    ensures (line + CRLF + rest)[..|line|] == line && (line + CRLF + rest)[|line| + 2..] == rest
  {
    var all := line + CRLF + rest;
    if line != [] {
      assert all[0] == line[0] != CR;
      assert all[1..] == line[1..] + CRLF + rest;
      assert NoLineEnd(line[1..]);
      LineEnd(line[1..], rest);
    }
  }

  lemma DriveChunk(c: Chunk, rest: Bytes)
    requires c.Valid()
    ensures Drive(FRESH.With(c.Line() + CRLF + c.data + CRLF + rest)) ==
            var r := Drive(FRESH.With(rest)); r.(out := c.data + r.out)
  {
    hide Drive, ChunkSize, FindCrlf, IsHex, NoLineEnd, Extension.Valid, Extension.Text;
    var tail := c.data + CRLF + rest;
    var d := FRESH.With(c.Line() + CRLF + tail);
    assert c.Line() + CRLF + c.data + CRLF + rest == c.Line() + CRLF + tail;
    FreshLine(c.size, c.ext, tail);
    var inData := Dec(tail, |c.data|, true, false);
    DriveData(inData);
    DataLayout(c.data, rest);
  }

  lemma DataLayout(data: Bytes, rest: Bytes)
    ensures var tail := data + CRLF + rest;
            tail[..|data|] == data && tail[|data|..] == CRLF + rest && (CRLF + rest)[2..] == rest && [] + rest == rest
  {
  }

  /** A fresh decoder at a well-formed size line. */
  lemma FreshLine(size: Bytes, ext: Extension, tail: Bytes)
    requires IsHex(size) && ext.Valid() && HexValue(Widen(size)).Some? && HexValue(Widen(size)).value < TWO_64
    ensures Drive(FRESH.With(size + ext.Text() + CRLF + tail)) ==
            var n := HexValue(Widen(size)).value;
            if n == 0 then Fed(Dec(tail, 0, false, true), [], true) else Drive(Dec(tail, n, true, false))
  {
    hide Drive, ChunkSize, FindCrlf, IsHex, NoLineEnd, Extension.Valid, Extension.Text, HexValue;
    var line := size + ext.Text();
    LineHasNoEnd(size, ext);
    LineEnd(line, tail);
    SizeIsRead(size, ext);
    FreshWith(line + CRLF + tail);
    DriveLine(Dec(line + CRLF + tail, 0, false, false));
  }

  lemma FreshWith(input: Bytes)
    ensures FRESH.With(input) == Dec(input, 0, false, false)
  {
    assert [] + input == input;
  }

  lemma DriveLast(last: LastChunk, rest: Bytes)
    requires last.Valid()
    ensures Drive(FRESH.With(last.Line() + CRLF + rest)) == Fed(Dec(rest, 0, false, true), [], true)
  {
    FreshLine(last.size, last.ext, rest);
  }

  lemma WireFront(cs: seq<Chunk>, end: Bytes)
    requires cs != []
    ensures Wire(cs) + end == cs[0].Line() + CRLF + cs[0].data + CRLF + (Wire(cs[1..]) + end)
  {
    hide Chunk.Line;
    var front := cs[0].Line() + CRLF + cs[0].data + CRLF;
    assert Wire(cs) == front + Wire(cs[1..]);
    assert front + Wire(cs[1..]) + end == front + (Wire(cs[1..]) + end);
  }

  lemma {:induction false} DriveBody(cs: seq<Chunk>, last: LastChunk, rest: Bytes)
    requires AllValid(cs) && last.Valid()
    ensures Drive(FRESH.With(Wire(cs) + (last.Line() + CRLF + rest))) ==
            Fed(Dec(rest, 0, false, true), Data(cs), true)
    decreases |cs|
  {
    hide Drive, Chunk.Valid, Chunk.Line, LastChunk.Valid, LastChunk.Line, Dec.With;
    var end := last.Line() + CRLF + rest;
    if cs == [] {
      assert [] + end == end;
      DriveLast(last, rest);
    } else {
      WireFront(cs, end);
      DriveChunk(cs[0], Wire(cs[1..]) + end);
      DriveBody(cs[1..], last, rest);
    }
  }

  /** Every well-formed body, cut into any pieces, decodes to its data and leaves the decoder done. */
  lemma WellFormedDecodes(cs: seq<Chunk>, last: LastChunk, rest: Bytes, pieces: seq<Bytes>)
    requires AllValid(cs) && last.Valid()
    requires pieces != [] && Joined(pieces) == Wire(cs) + (last.Line() + CRLF + rest)
    ensures FeedAll(FRESH, pieces) == Fed(Dec(rest, 0, false, true), Data(cs), true)
  {
    CutsDoNotMatter(FRESH, pieces);
    DriveBody(cs, last, rest);
  }
}
