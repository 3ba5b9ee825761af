/** The gateway's ini file (inienv.rs): the line scanner, the shell-quoting exporter, and what survives a trip
    through both. The table of known keys is a parameter, so the results hold of any table of plain keys. */
module IniEnv {
  import opened Wrappers
  import opened SortedPairs
  import opened Utf8

  datatype KeySpec = KeySpec(name: string, default: string)

  datatype IniError = UnclosedQuote(line: nat, key: string)

  // ---------------------------------------------------------------- values

  predicate IsSpace(c: char) {
    IsWhitespace(c as int)
  }

  function Cons(c: char, r: Option<string>): Option<string> {
    match r
    case Some(s) => Some([c] + s)
    case None => None
  }

  /** `scan_value`: outside quotes, inside single quotes, inside double quotes. `None` is an unclosed quote. */
  function Plain(s: string): Option<string>
    decreases |s|, 1
  {
    if s == [] then Some([])
    else if s[0] == '\'' then Single(s[1..])
    else if s[0] == '"' then Double(s[1..])
    else if s[0] == '\\' then if |s| < 2 then None else Cons(s[1], Plain(s[2..]))
    else if IsSpace(s[0]) then Some([])
    else Cons(s[0], Plain(s[1..]))
  }

  function Single(s: string): Option<string>
    decreases |s|, 0
  {
    if s == [] then None
    else if s[0] == '\'' then Plain(s[1..])
    else Cons(s[0], Single(s[1..]))
  }

  predicate Escapable(c: char) {
    c == '"' || c == '\\' || c == '$' || c == '`'
  }

  function Double(s: string): Option<string>
    decreases |s|, 0
  {
    if s == [] then None
    else if s[0] == '"' then Plain(s[1..])
    else if s[0] == '\\' then
      if |s| < 2 then None
      else if Escapable(s[1]) then Cons(s[1], Double(s[2..]))
      else Cons('\\', Cons(s[1], Double(s[2..])))
    else Cons(s[0], Double(s[1..]))
  }

  lemma PrefixedCons(out: string, c: char, r: Option<string>)
    ensures Prefixed(out, Cons(c, r)) == Prefixed(out + [c], r)
    ensures Prefixed([], r) == r && Prefixed(out, Some([])) == Some(out) && Prefixed(out, None) == None
  {
    if r.Some? {
      assert out + ([c] + r.value) == out + [c] + r.value;
      assert [] + r.value == r.value;
    }
    assert out + [] == out;
  }

  method ScanSingle(s: string, start: nat, before: string) returns (ok: bool, pos: nat, out: string)
    requires start <= |s|
    ensures pos <= |s| && (ok ==> start < pos)
    ensures Prefixed(before, Single(s[start..])) == if ok then Prefixed(out, Plain(s[pos..])) else None
  {
    hide Cons, Prefixed, Plain;
    pos, out := start, before;
    while pos < |s|
      invariant start <= pos <= |s|
      invariant Prefixed(before, Single(s[start..])) == Prefixed(out, Single(s[pos..]))
    {
      var c := s[pos];
      ghost var rest := s[pos..];
      pos := pos + 1;
      assert rest[1..] == s[pos..];
      if c == '\'' {
        return true, pos, out;
      }
      PrefixedCons(out, c, Single(s[pos..]));
      out := out + [c];
    }
    PrefixedCons(out, ' ', None);
    return false, pos, out;
  }

  method ScanDouble(s: string, start: nat, before: string) returns (ok: bool, pos: nat, out: string)
    requires start <= |s|
    ensures pos <= |s| && (ok ==> start < pos)
    ensures Prefixed(before, Double(s[start..])) == if ok then Prefixed(out, Plain(s[pos..])) else None
  {
    hide Cons, Prefixed, Plain, Escapable;
    pos, out := start, before;
    while pos < |s|
      invariant start <= pos <= |s|
      invariant Prefixed(before, Double(s[start..])) == Prefixed(out, Double(s[pos..]))
    {
      var c := s[pos];
      ghost var rest := s[pos..];
      pos := pos + 1;
      assert rest[1..] == s[pos..];
      if c == '"' {
        return true, pos, out;
      }
      if c == '\\' {
        if pos == |s| {
          PrefixedCons(out, ' ', None);
          return false, pos, out;
        }
        var n := s[pos];
        pos := pos + 1;
        assert rest[1] == n && rest[2..] == s[pos..];
        if !Escapable(n) {
          PrefixedCons(out, '\\', Cons(n, Double(s[pos..])));
          out := out + ['\\'];
        }
        PrefixedCons(out, n, Double(s[pos..]));
        out := out + [n];
      } else {
        PrefixedCons(out, c, Double(s[pos..]));
        out := out + [c];
      }
    }
    PrefixedCons(out, ' ', None);
    return false, pos, out;
  }

  method ScanValue(s: string) returns (r: Option<string>)
    ensures r == Plain(s)
  {
    hide Cons, Prefixed, Single, Double;
    var out: string := [];
    var pos: nat := 0;
    PrefixedCons([], ' ', Plain(s));
    assert s[0..] == s;
    while pos < |s|
      invariant pos <= |s|
      invariant Plain(s) == Prefixed(out, Plain(s[pos..]))
      decreases |s| - pos
    {
      var c := s[pos];
      ghost var rest := s[pos..];
      pos := pos + 1;
      assert rest[1..] == s[pos..];
      var ok := true;
      if c == '\'' {
        ok, pos, out := ScanSingle(s, pos, out);
        if !ok {
          return None;
        }
      } else if c == '"' {
        ok, pos, out := ScanDouble(s, pos, out);
        if !ok {
          return None;
        }
      } else if c == '\\' {
        if pos == |s| {
          PrefixedCons(out, ' ', None);
          return None;
        }
        var n := s[pos];
        pos := pos + 1;
        assert rest[1] == n && rest[2..] == s[pos..];
        PrefixedCons(out, n, Plain(s[pos..]));
        out := out + [n];
      } else if IsSpace(c) {
        PrefixedCons(out, ' ', None);
        return Some(out);
      } else {
        PrefixedCons(out, c, Plain(s[pos..]));
        out := out + [c];
      }
    }
    PrefixedCons(out, ' ', None);
    return Some(out);
  }

  /** The quoted form of each character. */
  function Escaped(v: string): string {
    if v == [] then [] else (if v[0] == '\'' then "'\\''" else [v[0]]) + Escaped(v[1..])
  }

  function Quoted(v: string): string {
    "'" + Escaped(v) + "'"
  }

  lemma {:induction false} EscapedSnoc(v: string, c: char)
    ensures Escaped(v + [c]) == Escaped(v) + if c == '\'' then "'\\''" else [c]
  {
    if v == [] {
      assert [c][1..] == [];
    } else {
      assert (v + [c])[1..] == v[1..] + [c];
      EscapedSnoc(v[1..], c);
    }
  }

  method ShellQuote(v: string) returns (out: string)
    ensures out == Quoted(v)
  {
    out := "'";
    for i := 0 to |v|
      invariant out == "'" + Escaped(v[..i])
    {
      EscapedSnoc(v[..i], v[i]);
      assert v[..i + 1] == v[..i] + [v[i]];
      if v[i] == '\'' {
        out := out + "'\\''";
      } else {
        out := out + [v[i]];
      }
    }
    assert v[..|v|] == v;
    out := out + "'";
  }

  lemma {:induction false} SingleReadsEscaped(v: string)
    ensures Single(Escaped(v) + "'") == Some(v)
  {
    if v == [] {
      assert Escaped(v) + "'" == "'" && "'"[1..] == [];
    } else {
      SingleReadsEscaped(v[1..]);
      var rest := Escaped(v[1..]) + "'";
      if v[0] == '\'' {
        QuoteQuoted(rest);
        assert Escaped(v) + "'" == "'\\''" + rest;
      } else {
        assert Escaped(v) + "'" == [v[0]] + rest;
        assert ([v[0]] + rest)[1..] == rest;
      }
      assert v == [v[0]] + v[1..];
    }
  }

  lemma QuoteQuoted(rest: string)
    ensures Single("'\\''" + rest) == Cons('\'', Single(rest))
  {
    hide Plain, Single, IsSpace;
    QuoteCloses("\\''" + rest);
    PlainEscape('\'', "'" + rest);
    QuoteOpens(rest);
    assert "'\\''" + rest == "'" + ("\\''" + rest);
    assert "\\''" + rest == "\\" + ['\''] + ("'" + rest);
  }

  lemma QuoteCloses(rest: string)
    ensures Single("'" + rest) == Plain(rest)
  {
    assert ("'" + rest)[1..] == rest;
  }

  lemma QuoteOpens(rest: string)
    ensures Plain("'" + rest) == Single(rest)
  {
    assert ("'" + rest)[1..] == rest;
  }

  lemma PlainEscape(c: char, rest: string)
    ensures Plain("\\" + [c] + rest) == Cons(c, Plain(rest))
  {
    assert ("\\" + [c] + rest)[2..] == rest;
  }

  /** Any value whatever survives quoting and scanning. */
  lemma ScanAfterQuote(v: string)
    ensures Plain(Quoted(v)) == Some(v)
  {
    assert Quoted(v)[1..] == Escaped(v) + "'";
    SingleReadsEscaped(v);
  }

  // ---------------------------------------------------------------- lines

  /** `replace('\r', "\n")` */
  function CrToLf(text: string): (r: string)
    ensures |r| == |text|
    ensures forall i :: 0 <= i < |text| ==> r[i] == if text[i] == '\r' then '\n' else text[i]
  {
    seq(|text|, i requires 0 <= i < |text| => if text[i] == '\r' then '\n' else text[i])
  }

  /** `split('\n')` */
  function Lines(text: string): (ls: seq<string>)
    ensures |ls| > 0
  {
    if text == [] then [[]]
    else
      var rest := Lines(text[1..]);
      if text[0] == '\n' then [[]] + rest else [[text[0]] + rest[0]] + rest[1..]
  }

  function TrimLeft(line: string): string {
    if line != [] && IsSpace(line[0]) then TrimLeft(line[1..]) else line
  }

  predicate IsKeyChar(c: char) {
    'a' <= c <= 'z' || 'A' <= c <= 'Z' || '0' <= c <= '9' || c == '_'
  }

  predicate IsKey(k: string) {
    k != [] && forall i :: 0 <= i < |k| ==> IsKeyChar(k[i])
  }

  function FindEquals(line: string): (r: Option<nat>)
    ensures r.Some? ==> r.value < |line| && line[r.value] == '=' && '=' !in line[..r.value]
    ensures r.None? ==> '=' !in line
  {
    if line == [] then None
    else if line[0] == '=' then Some(0)
    else match FindEquals(line[1..])
      case Some(n) => Some(n + 1)
      case None => None
  }

  /** `split_assignment`: the key and the text after the first equals sign. */
  function SplitAssignment(line: string): Option<(string, string)> {
    match FindEquals(line)
    case None => None
    case Some(eq) => if IsKey(line[..eq]) then Some((line[..eq], line[eq + 1..])) else None
  }

  datatype Ini = Ini(map': Pairs, skipped: nat)

  /** One line of `scan`, the n-th of the text. */
  function ScanLine(ini: Ini, raw: string, n: nat, strict: bool): Result<Ini, IniError> {
    match SplitAssignment(TrimLeft(raw))
    case None => Ok(ini)
    case Some((key, rest)) =>
      match Plain(rest)
      case Some(v) => Ok(ini.(map' := Insert(ini.map', key, v)))
      case None => if strict then Err(UnclosedQuote(n, key)) else Ok(ini.(skipped := ini.skipped + 1))
  }

  function ScanLines(ini: Ini, lines: seq<string>, n: nat, strict: bool): Result<Ini, IniError>
    decreases |lines|
  {
    if lines == [] then Ok(ini)
    else match ScanLine(ini, lines[0], n, strict)
      case Err(e) => Err(e)
      case Ok(ini') => ScanLines(ini', lines[1..], n + 1, strict)
  }

  const EMPTY := Ini([], 0)

  function Scanned(text: string, strict: bool): Result<Ini, IniError> {
    ScanLines(EMPTY, Lines(CrToLf(text)), 1, strict)
  }

  method Scan(text: string, strict: bool) returns (r: Result<Ini, IniError>)
    ensures r == Scanned(text, strict)
  {
    var lines := Lines(CrToLf(text));
    var ini := EMPTY;
    assert lines[0..] == lines;
    for idx := 0 to |lines|
      invariant Scanned(text, strict) == ScanLines(ini, lines[idx..], idx + 1, strict)
    {
      assert lines[idx..][1..] == lines[idx + 1..];
      var line := TrimLeft(lines[idx]);
      var assignment := SplitAssignment(line);
      if assignment.None? {
        continue;
      }
      var (key, rest) := assignment.value;
      var v := ScanValue(rest);
      if v.Some? {
        ini := ini.(map' := Insert(ini.map', key, v.value));
      } else {
        if strict {
          return Err(UnclosedQuote(idx + 1, key));
        }
        ini := ini.(skipped := ini.skipped + 1);
      }
    }
    return Ok(ini);
  }

  // ---------------------------------------------------------------- settings

  function DefaultOf(keys: seq<KeySpec>, key: string): Option<string> {
    if keys == [] then None
    else if keys[0].name == key then Some(keys[0].default)
    else DefaultOf(keys[1..], key)
  }

  /** `effective`: the value if there is a non-empty one, or else the default, or else nothing. */
  function Effective(keys: seq<KeySpec>, m: Pairs, key: string): string {
    match Lookup(m, key)
    case Some(v) => if v != [] then v else Default(keys, key)
    case None => Default(keys, key)
  }

  function Default(keys: seq<KeySpec>, key: string): string {
    match DefaultOf(keys, key)
    case Some(d) => d
    case None => []
  }

  const CF_PROXY := "cf_proxy"

  function ClampCfProxy(v: string): string {
    if v == "yes" || v == "no" || v == "both" then v else "yes"
  }

  /** The value the exporter writes for a known key. */
  function Exported(keys: seq<KeySpec>, m: Pairs, key: string): string {
    if key == CF_PROXY then ClampCfProxy(Effective(keys, m, key)) else Effective(keys, m, key)
  }

  /** The entries under unknown keys, in key order. */
  function Extras(keys: seq<KeySpec>, m: Pairs): Pairs {
    if m == [] then []
    else (if DefaultOf(keys, m[0].0).None? then [m[0]] else []) + Extras(keys, m[1..])
  }

  const BANNER := "# generated by " + "`ppgw -ini-" + "export`; every " + "key is always " + "assigned"

  /** What the exporter assigns: every known key in table order, then the unknown ones. */
  function Assignments(keys: seq<KeySpec>, m: Pairs): Pairs {
    seq(|keys|, i requires 0 <= i < |keys| => (keys[i].name, Exported(keys, m, keys[i].name))) + Extras(keys, m)
  }

  function AssignmentLine(p: (string, string)): string {
    p.0 + "=" + Quoted(p.1)
  }

  function Written(ps: Pairs): string {
    if ps == [] then [] else AssignmentLine(ps[0]) + "\n" + Written(ps[1..])
  }

  function ExportText(keys: seq<KeySpec>, m: Pairs): string {
    BANNER + "\n" + Written(Assignments(keys, m))
  }

  lemma {:induction false} WrittenSnoc(ps: Pairs, p: (string, string))
    ensures Written(ps + [p]) == Written(ps) + AssignmentLine(p) + "\n"
  {
    if ps == [] {
      assert [p][1..] == [];
    } else {
      WrittenSnoc(ps[1..], p);
      assert (ps + [p])[1..] == ps[1..] + [p];
    }
  }

  lemma WrittenNothing(head: string)
    ensures head + Written([]) == head
  {
  }

  lemma WrittenMore(head: string, ps: Pairs, p: (string, string))
    ensures head + Written(ps + [p]) == head + Written(ps) + (p.0 + "=" + Quoted(p.1) + "\n")
  {
    WrittenSnoc(ps, p);
    assert head + (Written(ps) + AssignmentLine(p) + "\n") == head + Written(ps) + (AssignmentLine(p) + "\n");
  }

  method Export(keys: seq<KeySpec>, m: Pairs) returns (out: string)
    ensures out == ExportText(keys, m)
  {
    hide Exported, Quoted, Extras, Written, BANNER;
    ghost var all := Assignments(keys, m);
    out := BANNER + "\n";
    WrittenNothing(out);
    for i := 0 to |keys|
      invariant out == BANNER + "\n" + Written(all[..i])
    {
      var name := keys[i].name;
      var quoted := ShellQuote(Exported(keys, m, name));
      WrittenMore(BANNER + "\n", all[..i], all[i]);
      assert all[..i + 1] == all[..i] + [all[i]];
      out := out + (name + "=" + quoted + "\n");
    }
    var extras := Extras(keys, m);
    assert all[..|keys|] + extras == all;
    for i := 0 to |extras|
      invariant out == BANNER + "\n" + Written(all[..|keys| + i])
    {
      var (name, val) := extras[i];
      var quoted := ShellQuote(val);
      WrittenMore(BANNER + "\n", all[..|keys| + i], all[|keys| + i]);
      assert all[..|keys| + i + 1] == all[..|keys| + i] + [all[|keys| + i]];
      out := out + (name + "=" + quoted + "\n");
    }
    assert all[..|keys| + |extras|] == all;
  }

  // ---------------------------------------------------------------- round trips

  predicate OneLine(s: string) {
    '\n' !in s && '\r' !in s
  }

  predicate PlainTable(keys: seq<KeySpec>) {
    forall i :: 0 <= i < |keys| ==> IsKey(keys[i].name) && OneLine(keys[i].default)
  }

  /** What every parsed file satisfies. */
  ghost predicate WellFormed(m: Pairs) {
    Sorted(m) && forall p :: p in m ==> IsKey(p.0) && OneLine(p.1)
  }

  lemma {:induction false} LinesAreLines(text: string)
    ensures forall l :: l in Lines(text) ==> '\n' !in l && forall c :: c in l ==> c in text
  {
    if text != [] {
      LinesAreLines(text[1..]);
      var rest := Lines(text[1..]);
      forall l | l in Lines(text) ensures '\n' !in l && forall c :: c in l ==> c in text {
        if text[0] != '\n' && l == [text[0]] + rest[0] {
          assert rest[0] in rest;
        } else {
          assert l == [] || l in rest;
        }
      }
    }
  }

  lemma {:induction false} TrimKeeps(line: string)
    ensures forall c :: c in TrimLeft(line) ==> c in line
  {
    if line != [] && IsSpace(line[0]) {
      TrimKeeps(line[1..]);
    }
  }

  /** Scanning a value invents no characters. */
  lemma {:induction false} ValueKeeps(s: string)
    ensures Plain(s).Some? ==> forall c :: c in Plain(s).value ==> c in s
    ensures Single(s).Some? ==> forall c :: c in Single(s).value ==> c in s
    ensures Double(s).Some? ==> forall c :: c in Double(s).value ==> c in s
    decreases |s|
  {
    hide IsSpace;
    if s != [] {
      ValueKeeps(s[1..]);
    }
    if |s| >= 2 {
      ValueKeeps(s[2..]);
    }
  }

  lemma ScanLineKeeps(ini: Ini, raw: string, n: nat, strict: bool)
    requires WellFormed(ini.map') && OneLine(raw) && ScanLine(ini, raw, n, strict).Ok?
    ensures WellFormed(ScanLine(ini, raw, n, strict).value.map')
  {
    hide Plain, IsKey;
    var line := TrimLeft(raw);
    TrimKeeps(raw);
    if SplitAssignment(line).Some? {
      var (key, rest) := SplitAssignment(line).value;
      ValueKeeps(rest);
      if Plain(rest).Some? {
        InsertSorted(ini.map', key, Plain(rest).value);
      }
    }
  }

  lemma {:induction false} ScanLinesKeeps(ini: Ini, lines: seq<string>, n: nat, strict: bool)
    requires WellFormed(ini.map') && (forall l :: l in lines ==> OneLine(l)) && ScanLines(ini, lines, n, strict).Ok?
    ensures WellFormed(ScanLines(ini, lines, n, strict).value.map')
    decreases |lines|
  {
    hide ScanLine, WellFormed;
    if lines != [] {
      assert OneLine(lines[0]);
      ScanLineKeeps(ini, lines[0], n, strict);
      ScanLinesKeeps(ScanLine(ini, lines[0], n, strict).value, lines[1..], n + 1, strict);
    }
  }

  lemma ParsedIsWellFormed(text: string, strict: bool)
    requires Scanned(text, strict).Ok?
    ensures WellFormed(Scanned(text, strict).value.map')
  {
    var t := CrToLf(text);
    LinesAreLines(t);
    forall l | l in Lines(t) ensures OneLine(l) {
      assert '\r' !in t;
    }
    ScanLinesKeeps(EMPTY, Lines(t), 1, strict);
  }

  function InsertAll(m: Pairs, ps: Pairs): Pairs
    decreases |ps|
  {
    if ps == [] then m else InsertAll(Insert(m, ps[0].0, ps[0].1), ps[1..])
  }

  lemma {:induction false} LookupAll(m: Pairs, ps: Pairs, k: string, v: string)
    requires Sorted(m) && forall p :: p in ps && p.0 == k ==> p.1 == v
    ensures Sorted(InsertAll(m, ps))
    ensures Lookup(InsertAll(m, ps), k) == if exists p :: p in ps && p.0 == k then Some(v) else Lookup(m, k)
    decreases |ps|
  {
    if ps != [] {
      var first := ps[0];
      InsertSorted(m, first.0, first.1);
      LookupAfterInsert(m, first.0, first.1, k);
      LookupAll(Insert(m, first.0, first.1), ps[1..], k, v);
      assert first in ps && forall p :: p in ps <==> p == first || p in ps[1..];
    }
  }

  lemma {:induction false} FirstLine(line: string, rest: string)
    requires '\n' !in line
    ensures Lines(line + "\n" + rest) == [line] + Lines(rest)
  {
    var text := line + "\n" + rest;
    if line == [] {
      assert text[0] == '\n' && text[1..] == rest;
    } else {
      assert text[1..] == line[1..] + "\n" + rest;
      FirstLine(line[1..], rest);
      assert text[0] == line[0] && line == [line[0]] + line[1..];
      assert ([line[1..]] + Lines(rest))[1..] == Lines(rest);
    }
  }

  lemma {:induction false} EscapedKeeps(v: string)
    ensures forall c :: c in Escaped(v) ==> c in v || c == '\'' || c == '\\'
  {
    if v != [] {
      EscapedKeeps(v[1..]);
    }
  }

  lemma AssignmentIsOneLine(p: (string, string))
    requires IsKey(p.0) && OneLine(p.1)
    ensures OneLine(AssignmentLine(p))
  {
    EscapedKeeps(p.1);
    forall c | c in p.0 ensures c != '\n' && c != '\r' {
      var i :| 0 <= i < |p.0| && p.0[i] == c;
      assert IsKeyChar(p.0[i]);
    }
  }

  lemma {:induction false} EqualsAfter(key: string, rest: string)
    requires '=' !in key
    ensures FindEquals(key + "=" + rest) == Some(|key|)
  {
    if key != [] {
      assert (key + "=" + rest)[1..] == key[1..] + "=" + rest;
      EqualsAfter(key[1..], rest);
    }
  }

  /** Scanning an exported line assigns exactly what was exported. */
  lemma AssignmentIsScanned(ini: Ini, p: (string, string), n: nat, strict: bool)
    requires IsKey(p.0)
    ensures ScanLine(ini, AssignmentLine(p), n, strict) == Ok(ini.(map' := Insert(ini.map', p.0, p.1)))
  {
    hide Plain, Quoted;
    var line := AssignmentLine(p);
    assert IsKeyChar(p.0[0]) && line[0] == p.0[0];
    assert TrimLeft(line) == line;
    assert '=' !in p.0 by {
      assert forall i :: 0 <= i < |p.0| ==> IsKeyChar(p.0[i]);
    }
    EqualsAfter(p.0, Quoted(p.1));
    assert line[..|p.0|] == p.0 && line[|p.0| + 1..] == Quoted(p.1);
    ScanAfterQuote(p.1);
  }

  lemma {:induction false} WrittenIsScanned(ini: Ini, ps: Pairs, n: nat, strict: bool)
    requires forall p :: p in ps ==> IsKey(p.0) && OneLine(p.1)
    ensures ScanLines(ini, Lines(Written(ps)), n, strict) == Ok(ini.(map' := InsertAll(ini.map', ps)))
    ensures '\r' !in Written(ps)
    decreases |ps|
  {
    hide ScanLine, IsKey, OneLine, AssignmentLine, Insert;
    if ps == [] {
      EmptyLineIsSkipped(ini, n, strict);
      assert [""][1..] == [];
    } else {
      var line := AssignmentLine(ps[0]);
      assert ps[0] in ps;
      AssignmentIsOneLine(ps[0]);
      OneLineMeans(line);
      FirstLine(line, Written(ps[1..]));
      AssignmentIsScanned(ini, ps[0], n, strict);
      WrittenIsScanned(ini.(map' := Insert(ini.map', ps[0].0, ps[0].1)), ps[1..], n + 1, strict);
      assert ([line] + Lines(Written(ps[1..])))[1..] == Lines(Written(ps[1..]));
    }
  }

  lemma OneLineMeans(s: string)
    requires OneLine(s)
    ensures '\n' !in s && '\r' !in s
  {
  }

  lemma EmptyLineIsSkipped(ini: Ini, n: nat, strict: bool)
    ensures ScanLine(ini, "", n, strict) == Ok(ini)
  {
  }

  lemma BannerIsSkipped(ini: Ini, n: nat, strict: bool)
    ensures OneLine(BANNER) && ScanLine(ini, BANNER, n, strict) == Ok(ini)
  {
    hide BANNER;
    BannerText();
    assert TrimLeft(BANNER) == BANNER;
  }

  predicate Bland(s: string) {
    '=' !in s && '\n' !in s && '\r' !in s
  }

  lemma BlandConcat(a: string, b: string)
    requires Bland(a) && Bland(b)
    ensures Bland(a + b)
  {
  }

  lemma BannerFront()
    ensures Bland("# generated by " + "`ppgw -ini-" + "export`; every ")
  {
    var a, b, c := "# generated by ", "`ppgw -ini-", "export`; every ";
    assert Bland(a) && Bland(b) && Bland(c);
    BlandConcat(a, b);
    BlandConcat(a + b, c);
  }

  lemma BannerBack()
    ensures Bland("key is always " + "assigned")
  {
    var d, e := "key is always ", "assigned";
    assert Bland(d) && Bland(e);
    BlandConcat(d, e);
  }

  lemma BannerText()
    ensures OneLine(BANNER) && '=' !in BANNER && |BANNER| > 0 && BANNER[0] == '#'
  {
    BannerFront();
    BannerBack();
    var front, back := "# generated by " + "`ppgw -ini-" + "export`; every ", "key is always " + "assigned";
    BlandConcat(front, back);
    assert BANNER == front + back;
  }

  lemma NoReturns(text: string)
    requires '\r' !in text
    ensures CrToLf(text) == text
  {
  }

  /** An export parses back, strictly or not, to exactly its assignments. */
  lemma ExportIsScanned(keys: seq<KeySpec>, m: Pairs, strict: bool)
    requires forall p :: p in Assignments(keys, m) ==> IsKey(p.0) && OneLine(p.1)
    ensures Scanned(ExportText(keys, m), strict) == Ok(Ini(InsertAll([], Assignments(keys, m)), 0))
  {
    hide BANNER, Assignments, ScanLine, CrToLf;
    var ps := Assignments(keys, m);
    BannerIsSkipped(EMPTY, 1, strict);
    WrittenIsScanned(EMPTY, ps, 2, strict);
    FirstLine(BANNER, Written(ps));
    assert ([BANNER] + Lines(Written(ps)))[1..] == Lines(Written(ps));
    NoReturns(ExportText(keys, m));
  }

  // ---------------------------------------------------------------- what a trip preserves

  lemma {:induction false} ExtrasSorted(keys: seq<KeySpec>, m: Pairs)
    requires Sorted(m)
    ensures Sorted(Extras(keys, m)) && forall p :: p in Extras(keys, m) ==> p in m && DefaultOf(keys, p.0).None?
    decreases |m|
  {
    hide DefaultOf, Less;
    if m != [] {
      ExtrasSorted(keys, m[1..]);
      SortedTail(m);
      var rest := Extras(keys, m[1..]);
      forall j | 0 <= j < |rest| ensures Less(m[0].0, rest[j].0) {
        assert rest[j] in rest;
      }
    }
  }

  lemma {:induction false} ExtrasLookup(keys: seq<KeySpec>, m: Pairs, k: string)
    ensures Lookup(Extras(keys, m), k) == if DefaultOf(keys, k).None? then Lookup(m, k) else None
    decreases |m|
  {
    hide DefaultOf;
    if m != [] {
      ExtrasLookup(keys, m[1..], k);
      var rest := Extras(keys, m[1..]);
      assert [] + rest == rest && ([m[0]] + rest)[1..] == rest;
    }
  }

  lemma ExtrasOf(keys: seq<KeySpec>, m: Pairs, k: string)
    requires Sorted(m)
    ensures Sorted(Extras(keys, m)) && forall p :: p in Extras(keys, m) ==> p in m && DefaultOf(keys, p.0).None?
    ensures Lookup(Extras(keys, m), k) == if DefaultOf(keys, k).None? then Lookup(m, k) else None
  {
    ExtrasSorted(keys, m);
    ExtrasLookup(keys, m, k);
  }

  lemma {:induction false} KnownKey(keys: seq<KeySpec>, k: string)
    ensures DefaultOf(keys, k).Some? <==> exists i :: 0 <= i < |keys| && keys[i].name == k
    ensures PlainTable(keys) && DefaultOf(keys, k).Some? ==> OneLine(DefaultOf(keys, k).value)
  {
    if keys != [] {
      KnownKey(keys[1..], k);
      if keys[0].name != k {
        assert forall i :: 0 <= i < |keys[1..]| ==> keys[1..][i] == keys[i + 1];
        if exists i :: 0 <= i < |keys| && keys[i].name == k {
          var i :| 0 <= i < |keys| && keys[i].name == k;
          assert keys[1..][i - 1].name == k;
        }
      }
    }
  }

  lemma ExportedIsOneLine(keys: seq<KeySpec>, m: Pairs, k: string)
    requires PlainTable(keys) && WellFormed(m)
    ensures OneLine(Exported(keys, m, k))
  {
    KnownKey(keys, k);
    LookupIn(m, k);
    assert OneLine("yes");
  }

  lemma AssignmentsAreWritable(keys: seq<KeySpec>, m: Pairs)
    requires PlainTable(keys) && WellFormed(m)
    ensures forall p :: p in Assignments(keys, m) ==> IsKey(p.0) && OneLine(p.1)
  {
    hide Exported, IsKey, OneLine;
    ExtrasOf(keys, m, "");
    forall p | p in Assignments(keys, m) ensures IsKey(p.0) && OneLine(p.1) {
      if p !in Extras(keys, m) {
        var i :| 0 <= i < |keys| && p == (keys[i].name, Exported(keys, m, keys[i].name));
        ExportedIsOneLine(keys, m, keys[i].name);
      }
    }
  }

  /** The entries after a trip: known keys hold what was exported for them, unknown ones what they held. */
  lemma Reassigned(keys: seq<KeySpec>, m: Pairs, k: string)
    requires PlainTable(keys) && WellFormed(m)
    ensures var m' := InsertAll([], Assignments(keys, m));
            && Sorted(m')
            && Lookup(m', k) == if DefaultOf(keys, k).Some? then Some(Exported(keys, m, k)) else Lookup(m, k)
  {
    hide Exported, IsKey, OneLine;
    var ps := Assignments(keys, m);
    ExtrasOf(keys, m, k);
    KnownKey(keys, k);
    LookupIn(Extras(keys, m), k);
    if DefaultOf(keys, k).Some? {
      forall p | p in ps && p.0 == k ensures p.1 == Exported(keys, m, k) {
        assert p in Extras(keys, m) ==> DefaultOf(keys, p.0).None?;
      }
      var i :| 0 <= i < |keys| && keys[i].name == k;
      assert ps[i] == (k, Exported(keys, m, k)) && ps[i] in ps;
      LookupAll([], ps, k, Exported(keys, m, k));
    } else {
      UnknownAssignments(keys, m, k);
      LookupAll([], ps, k, match Lookup(m, k) case Some(v) => v case None => "");
    }
  }

  lemma UnknownAssignments(keys: seq<KeySpec>, m: Pairs, k: string)
    requires Sorted(m) && DefaultOf(keys, k).None?
    ensures forall p :: p in Assignments(keys, m) && p.0 == k ==> Lookup(m, k) == Some(p.1)
    ensures Lookup(m, k).Some? ==> (k, Lookup(m, k).value) in Assignments(keys, m)
  {
    hide Exported;
    ExtrasOf(keys, m, k);
    KnownKey(keys, k);
    LookupIn(Extras(keys, m), k);
    forall p | p in Assignments(keys, m) && p.0 == k ensures Lookup(m, k) == Some(p.1) {
      assert p in Extras(keys, m);
      LookupUnique(Extras(keys, m), p);
    }
  }

  lemma {:induction false} LookupUnique(m: Pairs, p: (string, string))
    requires Sorted(m) && p in m
    ensures Lookup(m, p.0) == Some(p.1)
    decreases |m|
  {
    if m[0] != p {
      SortedTail(m);
      LookupUnique(m[1..], p);
      LessTotal(m[0].0, p.0);
    }
  }

  /** Reading an export back preserves every effective setting, `cf_proxy` up to its clamp, and exporting again
      writes the same text: for any file the parser accepts. */
  lemma ExportRoundTrip(keys: seq<KeySpec>, text: string, strict: bool)
    requires PlainTable(keys) && Scanned(text, strict).Ok?
    ensures var m := Scanned(text, strict).value.map';
            var back := Scanned(ExportText(keys, m), true);
            && back.Ok? && back.value.skipped == 0
            && (forall k :: Effective(keys, back.value.map', k) ==
                            if k == CF_PROXY && DefaultOf(keys, k).Some?
                            then ClampCfProxy(Effective(keys, m, k)) else Effective(keys, m, k))
            && ExportText(keys, back.value.map') == ExportText(keys, m)
  {
    hide Scanned, ExportText, ClampCfProxy;
    ParsedIsWellFormed(text, strict);
    var m := Scanned(text, strict).value.map';
    AssignmentsAreWritable(keys, m);
    ExportIsScanned(keys, m, true);
    var m' := InsertAll([], Assignments(keys, m));
    forall k ensures Effective(keys, m', k) == if k == CF_PROXY && DefaultOf(keys, k).Some?
                                               then ClampCfProxy(Effective(keys, m, k)) else Effective(keys, m, k) {
      EffectiveBack(keys, m, k);
    }
    ExportAgain(keys, m);
  }

  lemma EffectiveBack(keys: seq<KeySpec>, m: Pairs, k: string)
    requires PlainTable(keys) && WellFormed(m)
    ensures var m' := InsertAll([], Assignments(keys, m));
            Effective(keys, m', k) == if DefaultOf(keys, k).Some? then Exported(keys, m, k) else Effective(keys, m, k)
  {
    hide InsertAll, Assignments;
    Reassigned(keys, m, k);
  }

  lemma ExportAgain(keys: seq<KeySpec>, m: Pairs)
    requires PlainTable(keys) && WellFormed(m)
    ensures ExportText(keys, InsertAll([], Assignments(keys, m))) == ExportText(keys, m)
  {
    hide InsertAll, ClampCfProxy;
    var m' := InsertAll([], Assignments(keys, m));
    forall i | 0 <= i < |keys| ensures Exported(keys, m', keys[i].name) == Exported(keys, m, keys[i].name) {
      KnownKey(keys, keys[i].name);
      EffectiveBack(keys, m, keys[i].name);
      ClampTwice(Effective(keys, m, keys[i].name));
    }
    Reassigned(keys, m, "");
    forall k ensures Lookup(Extras(keys, m'), k) == Lookup(Extras(keys, m), k) {
      Reassigned(keys, m, k);
      ExtrasOf(keys, m, k);
      ExtrasOf(keys, m', k);
    }
    ExtrasOf(keys, m, "");
    ExtrasOf(keys, m', "");
    Extensional(Extras(keys, m'), Extras(keys, m));
    assert Assignments(keys, m') == Assignments(keys, m);
  }

  lemma ClampTwice(v: string)
    ensures ClampCfProxy(ClampCfProxy(v)) == ClampCfProxy(v)
  {
  }
}
