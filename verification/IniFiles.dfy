/** Whole ini files (inienv.rs, `scan`): what each kind of line adds, which assignment wins, and which error is reported
    where. */
module IniFiles {
  import opened Wrappers
  import opened SortedPairs
  import opened Utf8
  import opened IniEnv
  import opened IniValues

  // ---------------------------------------------------------------- lines

  /** Letters, digits and the underscore. */
  predicate InName(c: char) {
    var n := c as int;
    97 <= n <= 122 || 65 <= n <= 90 || 48 <= n <= 57 || n == 95
  }

  predicate IsName(k: string) {
    k != [] && forall i :: 0 <= i < |k| ==> InName(k[i])
  }

  predicate IsIndent(s: string) {
    forall i :: 0 <= i < |s| ==> IsSpace(s[i])
  }

  /** No name and equals sign behind the indentation. */
  ghost predicate IsRemark(text: string) {
    forall indent, key, value | IsIndent(indent) && IsName(key) :: text != indent + (key + ("=" + value))
  }

  /** An assignment with a word and what follows it, an assignment without, and anything else. */
  datatype Line =
    | Assign(indent: string, key: string, parts: seq<Part>, tail: string)
    | Unclosed(indent: string, key: string, value: string)
    | Remark(text: string)
  {
    ghost predicate Valid() {
      match this
      case Assign(indent, key, parts, tail) =>
        IsIndent(indent) && IsName(key) && IsWord(parts) && (tail == [] || IsSpace(tail[0]))
      case Unclosed(indent, key, value) => IsIndent(indent) && IsName(key) && !StartsWithWord(value)
      case Remark(text) => IsRemark(text)
    }

    function Text(): string {
      match this
      case Assign(indent, key, parts, tail) => indent + (key + ("=" + (WordText(parts) + tail)))
      case Unclosed(indent, key, value) => indent + (key + ("=" + value))
      case Remark(text) => text
    }
  }

  lemma NameIsKey(k: string)
    ensures IsName(k) <==> IsKey(k)
  {
    assert forall c :: InName(c) <==> IsKeyChar(c);
  }

  lemma {:induction false} IndentGoes(indent: string, rest: string)
    requires IsIndent(indent) && rest != [] && !IsSpace(rest[0])
    ensures TrimLeft(indent + rest) == rest
    decreases |indent|
  {
    if indent == [] {
      assert indent + rest == rest;
    } else {
      assert (indent + rest)[1..] == indent[1..] + rest;
      IndentGoes(indent[1..], rest);
    }
  }

  lemma {:induction false} TrimLeftTakes(line: string) returns (indent: string)
    ensures IsIndent(indent) && line == indent + TrimLeft(line)
    decreases |line|
  {
    if line != [] && IsSpace(line[0]) {
      var i := TrimLeftTakes(line[1..]);
      indent := [line[0]] + i;
      assert line == [line[0]] + line[1..];
    } else {
      indent := [];
    }
  }

  /** The key and the value of an assignment are found, whatever the indentation. */
  lemma AssignmentIsSplit(indent: string, key: string, value: string)
    requires IsIndent(indent) && IsName(key)
    ensures SplitAssignment(TrimLeft(indent + (key + ("=" + value)))) == Some((key, value))
  {
    NameIsKey(key);
    var rest := key + ("=" + value);
    assert rest == key + "=" + value;
    assert IsKeyChar(key[0]) && rest[0] == key[0];
    IndentGoes(indent, rest);
    assert '=' !in key by {
      assert forall i :: 0 <= i < |key| ==> IsKeyChar(key[i]);
    }
    EqualsAfter(key, value);
    assert rest[..|key|] == key && rest[|key| + 1..] == value;
  }

  lemma SplitIsAssignment(text: string) returns (indent: string)
    requires SplitAssignment(TrimLeft(text)).Some?
    ensures var (key, value) := SplitAssignment(TrimLeft(text)).value;
            IsIndent(indent) && IsName(key) && text == indent + (key + ("=" + value))
  {
    indent := TrimLeftTakes(text);
    var (key, value) := SplitAssignment(TrimLeft(text)).value;
    NameIsKey(key);
    assert TrimLeft(text) == key + ("=" + value);
  }

  lemma RemarkIsNotSplit(text: string)
    requires IsRemark(text)
    ensures SplitAssignment(TrimLeft(text)) == None
  {
    if SplitAssignment(TrimLeft(text)).Some? {
      var indent := SplitIsAssignment(text);
      assert false;
    }
  }

  /** What a line does to what was read so far. */
  function Read(ini: Ini, line: Line, n: nat, strict: bool): Result<Ini, IniError> {
    match line
    case Assign(_, key, parts, _) => Ok(ini.(map' := Insert(ini.map', key, WordMeaning(parts))))
    case Unclosed(_, key, _) => if strict then Err(UnclosedQuote(n, key)) else Ok(ini.(skipped := ini.skipped + 1))
    case Remark(_) => Ok(ini)
  }

  lemma LineIsRead(ini: Ini, line: Line, n: nat, strict: bool)
    requires line.Valid()
    ensures ScanLine(ini, line.Text(), n, strict) == Read(ini, line, n, strict)
  {
    hide Plain, WordText, WordMeaning, TrimLeft, SplitAssignment, StartsWithWord, IsRemark, IsName, IsIndent, IsWord;
    match line
    case Assign(indent, key, parts, tail) =>
      AssignmentIsSplit(indent, key, WordText(parts) + tail);
      WordIsScanned(parts, tail);
    case Unclosed(indent, key, value) =>
      AssignmentIsSplit(indent, key, value);
      ScannedExactly(value);
    case Remark(text) => RemarkIsNotSplit(text);
  }

  /** Every text is one of these lines. */
  lemma EveryLineIsOne(text: string) returns (line: Line)
    ensures line.Valid() && line.Text() == text
  {
    hide StartsWithWord, WordText, IsName, IsIndent;
    if IsRemark(text) {
      line := Remark(text);
    } else {
      var indent, key, value :| IsIndent(indent) && IsName(key) && text == indent + (key + ("=" + value));
      if StartsWithWord(value) {
        ScannedExactly(value);
        var parts, tail := ScannedIsWord(value);
        line := Assign(indent, key, parts, tail);
      } else {
        line := Unclosed(indent, key, value);
      }
    }
  }

  // ---------------------------------------------------------------- files

  ghost predicate AllValid(lines: seq<Line>) {
    forall i :: 0 <= i < |lines| ==> lines[i].Valid()
  }

  /** What the assignments say, in order. */
  function Assigned(lines: seq<Line>): Pairs {
    if lines == [] then []
    else (if lines[0].Assign? then [(lines[0].key, WordMeaning(lines[0].parts))] else []) + Assigned(lines[1..])
  }

  function UnclosedCount(lines: seq<Line>): nat {
    if lines == [] then 0 else (if lines[0].Unclosed? then 1 else 0) + UnclosedCount(lines[1..])
  }

  function Texts(lines: seq<Line>): seq<string> {
    seq(|lines|, i requires 0 <= i < |lines| => lines[i].Text())
  }

  lemma {:induction false} LenientIsRead(ini: Ini, lines: seq<Line>, n: nat)
    requires AllValid(lines)
    ensures ScanLines(ini, Texts(lines), n, false) ==
            Ok(Ini(InsertAll(ini.map', Assigned(lines)), ini.skipped + UnclosedCount(lines)))
    decreases |lines|
  {
    hide Line.Valid, Line.Text, ScanLine, Insert, WordMeaning;
    if lines != [] {
      var line := lines[0];
      LineIsRead(ini, line, n, false);
      assert Texts(lines)[1..] == Texts(lines[1..]);
      LenientIsRead(Read(ini, line, n, false).value, lines[1..], n + 1);
      if line.Assign? {
        assert Assigned(lines)[0] == (line.key, WordMeaning(line.parts));
        assert Assigned(lines)[1..] == Assigned(lines[1..]);
      } else {
        assert Assigned(lines) == Assigned(lines[1..]);
      }
    }
  }

  /** The first line without its closing quote. */
  ghost predicate FirstUnclosed(lines: seq<Line>, i: nat) {
    i < |lines| && lines[i].Unclosed? && forall j :: 0 <= j < i ==> !lines[j].Unclosed?
  }

  lemma {:induction false} StrictIsRead(ini: Ini, lines: seq<Line>, n: nat)
    requires AllValid(lines)
    ensures UnclosedCount(lines) == 0 ==>
              ScanLines(ini, Texts(lines), n, true) == ScanLines(ini, Texts(lines), n, false)
    ensures forall i: nat :: FirstUnclosed(lines, i) ==>
              ScanLines(ini, Texts(lines), n, true) == Err(UnclosedQuote(n + i, lines[i].key))
    decreases |lines|
  {
    hide Line.Valid, Line.Text, ScanLine, Insert, WordMeaning;
    if lines != [] {
      var line := lines[0];
      LineIsRead(ini, line, n, true);
      LineIsRead(ini, line, n, false);
      assert Texts(lines)[1..] == Texts(lines[1..]);
      if !line.Unclosed? {
        StrictIsRead(Read(ini, line, n, true).value, lines[1..], n + 1);
        forall i: nat | FirstUnclosed(lines, i)
          ensures ScanLines(ini, Texts(lines), n, true) == Err(UnclosedQuote(n + i, lines[i].key))
        {
          assert FirstUnclosed(lines[1..], i - 1);
        }
      }
    }
  }

  /** Lines, each but the last with its line end: LF or CR. */
  function FileText(lines: seq<Line>, ends: seq<char>): string
    requires |lines| == |ends| + 1
  {
    if ends == [] then lines[0].Text() else lines[0].Text() + ([ends[0]] + FileText(lines[1..], ends[1..]))
  }

  predicate LineEnds(ends: seq<char>) {
    forall i :: 0 <= i < |ends| ==> ends[i] == '\n' || ends[i] == '\r'
  }

  lemma {:induction false} FileIsSplit(lines: seq<Line>, ends: seq<char>)
    requires |lines| == |ends| + 1 && LineEnds(ends) && forall i :: 0 <= i < |lines| ==> OneLine(lines[i].Text())
    ensures Lines(CrToLf(FileText(lines, ends))) == Texts(lines)
    decreases |lines|
  {
    hide Line.Text;
    var line := lines[0].Text();
    CrToLfKeeps(line);
    if ends == [] {
      LastLine(line);
      assert Texts(lines) == [line];
    } else {
      var rest := FileText(lines[1..], ends[1..]);
      FileIsSplit(lines[1..], ends[1..]);
      assert CrToLf(line + ([ends[0]] + rest)) == line + "\n" + CrToLf(rest);
      FirstLine(line, CrToLf(rest));
      assert Texts(lines) == [line] + Texts(lines[1..]);
    }
  }

  lemma CrToLfKeeps(line: string)
    requires OneLine(line)
    ensures CrToLf(line) == line
  {
  }

  lemma {:induction false} LastLine(line: string)
    requires '\n' !in line
    ensures Lines(line) == [line]
    decreases |line|
  {
    if line != [] {
      LastLine(line[1..]);
      assert [line[1..]][1..] == [];
      assert [line[0]] + line[1..] == line;
    }
  }

  /** Any file: read leniently, it gives what its assignments say and the number of those that are not closed; read
      strictly it gives the same, or the first of those with its key and its number, in which a CR and an LF count as a
      line end each. */
  lemma FileIsScanned(lines: seq<Line>, ends: seq<char>)
    requires |lines| == |ends| + 1 && LineEnds(ends) && AllValid(lines)
    requires forall i :: 0 <= i < |lines| ==> OneLine(lines[i].Text())
    ensures var text := FileText(lines, ends);
            && Scanned(text, false) == Ok(Ini(InsertAll([], Assigned(lines)), UnclosedCount(lines)))
            && (UnclosedCount(lines) == 0 ==> Scanned(text, true) == Scanned(text, false))
            && forall i: nat :: FirstUnclosed(lines, i) ==>
                 Scanned(text, true) == Err(UnclosedQuote(i + 1, lines[i].key))
  {
    hide Line.Valid, Line.Text, ScanLine;
    FileIsSplit(lines, ends);
    LenientIsRead(EMPTY, lines, 1);
    StrictIsRead(EMPTY, lines, 1);
  }

  /** Of several assignments to a key the last one wins. */
  lemma {:induction false} LastAssignmentWins(m: Pairs, ps: Pairs, k: string, v: string, later: Pairs)
    requires Sorted(m) && forall p :: p in later ==> p.0 != k
    ensures Lookup(InsertAll(m, ps + [(k, v)] + later), k) == Some(v)
    decreases |ps|
  {
    if ps == [] {
      var all := [(k, v)] + later;
      assert ps + [(k, v)] + later == all && all[1..] == later;
      InsertSorted(m, k, v);
      LookupAfterInsert(m, k, v, k);
      LookupAll(Insert(m, k, v), later, k, v);
    } else {
      var all := ps + [(k, v)] + later;
      assert all[0] == ps[0] && all[1..] == ps[1..] + [(k, v)] + later;
      InsertSorted(m, ps[0].0, ps[0].1);
      LastAssignmentWins(Insert(m, ps[0].0, ps[0].1), ps[1..], k, v, later);
    }
  }

  // ---------------------------------------------------------------- CR LF

  /** The same lines with a CR and an LF behind each: an empty line more for each. */
  function Spaced(lines: seq<Line>): (r: seq<Line>)
    ensures |r| == 2 * |lines|
  {
    if lines == [] then [] else [lines[0], Remark("")] + Spaced(lines[1..])
  }

  lemma {:induction false} SpacedAt(lines: seq<Line>, i: nat)
    requires i < |lines|
    ensures |Spaced(lines)| == 2 * |lines| && Spaced(lines)[2 * i] == lines[i] && Spaced(lines)[2 * i + 1] == Remark("")
    decreases |lines|
  {
    if lines != [] {
      if i > 0 {
        SpacedAt(lines[1..], i - 1);
      } else if |lines| > 1 {
        SpacedAt(lines[1..], 0);
      }
    }
  }

  /** So in a file with CR LF line ends the (i + 1)-th line is reported as number 2 i + 1. */
  lemma CrLfCountsTwice(lines: seq<Line>, i: nat)
    requires FirstUnclosed(lines, i)
    ensures FirstUnclosed(Spaced(lines), 2 * i) && Spaced(lines)[2 * i].key == lines[i].key
  {
    SpacedAt(lines, i);
    forall j | 0 <= j < 2 * i ensures !Spaced(lines)[j].Unclosed? {
      SpacedAt(lines, j / 2);
    }
  }

  function CrLfEnds(n: nat): seq<char> {
    seq(2 * n, k => if k % 2 == 0 then '\r' else '\n')
  }

  /** And that is its text. */
  lemma {:induction false} SpacedText(lines: seq<Line>, last: Line)
    ensures |CrLfEnds(|lines|)| == 2 * |lines|
    ensures FileText(Spaced(lines) + [last], CrLfEnds(|lines|)) == CrLfText(lines) + last.Text()
    decreases |lines|
  {
    hide Line.Text, FileText;
    if lines == [] {
      OneLineFile(last);
      assert Spaced(lines) + [last] == [last];
      assert CrLfText(lines) + last.Text() == last.Text();
    } else {
      var more, rest := Spaced(lines[1..]) + [last], CrLfEnds(|lines| - 1);
      SpacedText(lines[1..], last);
      assert CrLfEnds(|lines|) == ['\r', '\n'] + rest;
      assert Spaced(lines) + [last] == [lines[0], Remark("")] + more;
      EmptyText();
      TwoLineEnds(lines[0], Remark(""), more, rest);
      Glued(lines[0].Text(), CrLfText(lines[1..]), last.Text());
    }
  }

  /** So in a file with CR LF line ends the error names the right key under the wrong number. */
  lemma CrLfFile(lines: seq<Line>, last: Line, i: nat)
    requires AllValid(lines + [last]) && FirstUnclosed(lines, i)
    requires forall j :: 0 <= j < |lines + [last]| ==> OneLine((lines + [last])[j].Text())
    ensures Scanned(CrLfText(lines) + last.Text(), true) == Err(UnclosedQuote(2 * i + 1, lines[i].key))
  {
    hide Line.Valid, Line.Text, FileText, Scanned, Spaced, CrLfEnds, CrLfText, OneLine;
    SpacedKeepLines(lines, last);
    SpacedText(lines, last);
    SpacedFirst(lines, last, i);
    FileIsScanned(Spaced(lines) + [last], CrLfEnds(|lines|));
  }

  lemma SpacedFirst(lines: seq<Line>, last: Line, i: nat)
    requires FirstUnclosed(lines, i)
    ensures FirstUnclosed(Spaced(lines) + [last], 2 * i) && (Spaced(lines) + [last])[2 * i].key == lines[i].key
    ensures LineEnds(CrLfEnds(|lines|))
  {
    CrLfCountsTwice(lines, i);
    var few, all := Spaced(lines), Spaced(lines) + [last];
    assert all[2 * i] == few[2 * i];
    forall j | 0 <= j < 2 * i ensures !all[j].Unclosed? {
      assert all[j] == few[j];
    }
  }

  lemma SpacedKeepLines(lines: seq<Line>, last: Line)
    requires AllValid(lines + [last])
    requires forall j :: 0 <= j < |lines + [last]| ==> OneLine((lines + [last])[j].Text())
    ensures AllValid(Spaced(lines) + [last])
    ensures forall j :: 0 <= j < |Spaced(lines) + [last]| ==> OneLine((Spaced(lines) + [last])[j].Text())
  {
    hide Line.Valid, Line.Text;
    EmptyText();
    EmptyIsRemark();
    var all := Spaced(lines) + [last];
    forall j | 0 <= j < |all| ensures all[j].Valid() && OneLine(all[j].Text()) {
      if j < 2 * |lines| {
        SpacedAt(lines, j / 2);
        assert (lines + [last])[j / 2] == lines[j / 2];
      } else {
        assert (lines + [last])[|lines|] == last;
      }
    }
  }

  lemma EmptyIsRemark()
    ensures Remark("").Valid()
  {
  }

  lemma OneLineFile(line: Line)
    ensures FileText([line], []) == line.Text()
  {
  }

  lemma TwoLineEnds(a: Line, b: Line, more: seq<Line>, ends: seq<char>)
    requires |more| == |ends| + 1
    ensures FileText([a, b] + more, ['\r', '\n'] + ends) ==
            a.Text() + (['\r'] + (b.Text() + (['\n'] + FileText(more, ends))))
  {
    assert ([a, b] + more)[1..] == [b] + more && ([b] + more)[1..] == more;
    assert (['\r', '\n'] + ends)[1..] == ['\n'] + ends && (['\n'] + ends)[1..] == ends;
  }

  lemma Glued(a: string, b: string, c: string)
    ensures a + (['\r'] + ("" + (['\n'] + (b + c)))) == a + "\r\n" + b + c
  {
  }

  lemma EmptyText()
    ensures Remark("").Text() == ""
  {
  }

  function CrLfText(lines: seq<Line>): string {
    if lines == [] then [] else lines[0].Text() + "\r\n" + CrLfText(lines[1..])
  }

  // ---------------------------------------------------------------- settings

  /** The i-th table entry is the first for its key. */
  ghost predicate FirstSpec(keys: seq<KeySpec>, k: string, i: nat) {
    i < |keys| && keys[i].name == k && forall j :: 0 <= j < i ==> keys[j].name != k
  }

  lemma {:induction false} DefaultIsFirst(keys: seq<KeySpec>, k: string)
    ensures forall i: nat :: FirstSpec(keys, k, i) ==> DefaultOf(keys, k) == Some(keys[i].default)
    ensures (forall i :: 0 <= i < |keys| ==> keys[i].name != k) ==> DefaultOf(keys, k) == None
    decreases |keys|
  {
    if keys != [] && keys[0].name != k {
      DefaultIsFirst(keys[1..], k);
      forall i: nat | FirstSpec(keys, k, i) ensures DefaultOf(keys, k) == Some(keys[i].default) {
        assert FirstSpec(keys[1..], k, i - 1);
      }
    }
  }

  /** A setting is what the file assigns to it last, if that is not empty; else the default of the first table entry for
      it, or nothing. */
  lemma SettingIsLastAssignment(keys: seq<KeySpec>, ps: Pairs, k: string, v: string, later: Pairs)
    requires forall p :: p in later ==> p.0 != k
    ensures var m := InsertAll([], ps + [(k, v)] + later);
            && (v != "" ==> Effective(keys, m, k) == v)
            && (v == "" ==> forall i: nat :: FirstSpec(keys, k, i) ==> Effective(keys, m, k) == keys[i].default)
            && (v == "" && (forall i :: 0 <= i < |keys| ==> keys[i].name != k) ==> Effective(keys, m, k) == "")
  {
    hide InsertAll, FirstSpec;
    LastAssignmentWins([], ps, k, v, later);
    DefaultIsFirst(keys, k);
  }

  lemma UnsetIsDefault(keys: seq<KeySpec>, ps: Pairs, k: string)
    requires forall p :: p in ps ==> p.0 != k
    ensures var m := InsertAll([], ps);
            && (forall i: nat :: FirstSpec(keys, k, i) ==> Effective(keys, m, k) == keys[i].default)
            && ((forall i :: 0 <= i < |keys| ==> keys[i].name != k) ==> Effective(keys, m, k) == "")
  {
    hide FirstSpec;
    LookupAll([], ps, k, "");
    DefaultIsFirst(keys, k);
  }

  /** What is written for a key: its setting, and for `cf_proxy` that or "yes". */
  lemma WrittenValue(keys: seq<KeySpec>, m: Pairs, k: string)
    ensures var v, w := Effective(keys, m, k), Exported(keys, m, k);
            if k != "cf_proxy" then w == v
            else w in {"yes", "no", "both"} && (v in {"yes", "no", "both"} ==> w == v)
                 && (v !in {"yes", "no", "both"} ==> w == "yes")
    ensures AssignmentLine((k, "a'b c")) == k + "='a'\\''b c'"
  {
    hide Effective;
    SampleQuote();
    assert k + "=" + "'a'\\''b c'" == k + "='a'\\''b c'";
  }

  lemma SampleQuote()
    ensures Quoted("a'b c") == "'a'\\''b c'"
  {
    hide Escaped;
    EscapedNothing();
    EscapedCons('c', "");
    EscapedCons(' ', "c");
    EscapedCons('b', " c");
    EscapedCons('\'', "b c");
    EscapedCons('a', "'b c");
    assert ['c'] + "" == "c" && [' '] + "c" == " c" && ['b'] + " c" == "b c" && ['\''] + "b c" == "'b c";
    assert ['a'] + "'b c" == "a'b c";
    assert ['a'] + ("'\\''" + "b c") == "a'\\''b c";
    assert "'" + "a'\\''b c" + "'" == "'a'\\''b c'";
  }

  lemma EscapedNothing()
    ensures Escaped("") == ""
  {
  }

  lemma EscapedCons(c: char, v: string)
    ensures Escaped([c] + v) == (if c == '\'' then "'\\''" else [c]) + Escaped(v)
  {
    assert ([c] + v)[1..] == v;
  }
}
