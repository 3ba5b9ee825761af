/** What the value scanner of the gateway's ini file (inienv.rs, `scan_value`) accepts, and what it makes of it: words
    of bare, escaped, single-quoted and double-quoted parts, up to the first white space outside quotes. */
module IniValues {
  import opened Wrappers
  import opened Utf8
  import opened IniEnv

  // ---------------------------------------------------------------- words

  /** One character between double quotes: as it is, behind a backslash that goes, or behind one that stays. */
  datatype Item = Raw(c: char) | Freed(c: char) | Kept(c: char) {
    predicate Valid() {
      match this
      case Raw(c) => c != '"' && c != '\\'
      case Freed(c) => c in "\"\\$`"
      case Kept(c) => c !in "\"\\$`"
    }

    function Text(): string {
      if Raw? then [c] else ['\\', c]
    }

    function Meaning(): string {
      if Kept? then ['\\', c] else [c]
    }
  }

  datatype Part = Bare(c: char) | Escape(c: char) | InSingle(text: string) | InDouble(items: seq<Item>) {
    predicate Valid() {
      match this
      case Bare(c) => c !in "'\"\\" && !IsSpace(c)
      case Escape(_) => true
      case InSingle(text) => '\'' !in text
      case InDouble(items) => forall i :: 0 <= i < |items| ==> items[i].Valid()
    }

    function Text(): string {
      match this
      case Bare(c) => [c]
      case Escape(c) => ['\\', c]
      case InSingle(text) => "'" + text + "'"
      case InDouble(items) => "\"" + ItemsText(items) + "\""
    }

    function Meaning(): string {
      match this
      case Bare(c) => [c]
      case Escape(c) => [c]
      case InSingle(text) => text
      case InDouble(items) => ItemsMeaning(items)
    }
  }

  function ItemsText(items: seq<Item>): string {
    if items == [] then [] else items[0].Text() + ItemsText(items[1..])
  }

  function ItemsMeaning(items: seq<Item>): string {
    if items == [] then [] else items[0].Meaning() + ItemsMeaning(items[1..])
  }

  predicate IsWord(parts: seq<Part>) {
    forall i :: 0 <= i < |parts| ==> parts[i].Valid()
  }

  function WordText(parts: seq<Part>): string {
    if parts == [] then [] else parts[0].Text() + WordText(parts[1..])
  }

  function WordMeaning(parts: seq<Part>): string {
    if parts == [] then [] else parts[0].Meaning() + WordMeaning(parts[1..])
  }

  // ---------------------------------------------------------------- every word is read

  lemma PrefixedOne(c: char, r: Option<string>)
    ensures Cons(c, r) == Prefixed([c], r)
  {
  }

  lemma PrefixedMore(a: string, b: string, r: Option<string>)
    ensures Prefixed(a, Prefixed(b, r)) == Prefixed(a + b, r) && Prefixed([], r) == r
  {
    if r.Some? {
      assert a + (b + r.value) == a + b + r.value && [] + r.value == r.value;
    }
  }

  lemma {:induction false} SingleIsRead(text: string, rest: string)
    requires '\'' !in text
    ensures Single(text + "'" + rest) == Prefixed(text, Plain(rest))
    decreases |text|
  {
    hide Prefixed, Plain;
    if text == [] {
      PrefixedMore([], [], Plain(rest));
      assert ("'" + rest)[1..] == rest && text + "'" + rest == "'" + rest;
    } else {
      SingleIsRead(text[1..], rest);
      assert (text + "'" + rest)[1..] == text[1..] + "'" + rest;
      PrefixedOne(text[0], Prefixed(text[1..], Plain(rest)));
      PrefixedMore([text[0]], text[1..], Plain(rest));
      assert [text[0]] + text[1..] == text;
    }
  }

  lemma ItemIsRead(item: Item, rest: string)
    requires item.Valid()
    ensures Double(item.Text() + rest) == Prefixed(item.Meaning(), Double(rest))
  {
    hide Plain, Prefixed, Cons;
    var s, r := item.Text() + rest, Double(rest);
    assert s[0] == item.Text()[0] && s[|item.Text()|..] == rest;
    PrefixedOne(item.c, r);
    if !item.Raw? {
      assert s[1] == item.c;
      PrefixedOne('\\', Prefixed([item.c], r));
      PrefixedMore(['\\'], [item.c], r);
      assert ['\\'] + [item.c] == ['\\', item.c];
    }
  }

  lemma {:induction false} ItemsAreRead(items: seq<Item>, rest: string)
    requires forall i :: 0 <= i < |items| ==> items[i].Valid()
    ensures Double(ItemsText(items) + "\"" + rest) == Prefixed(ItemsMeaning(items), Plain(rest))
    decreases |items|
  {
    hide Prefixed, Plain, Item.Text, Item.Meaning;
    if items == [] {
      PrefixedMore([], [], Plain(rest));
      assert ("\"" + rest)[1..] == rest && ItemsText(items) + "\"" + rest == "\"" + rest;
    } else {
      var after := ItemsText(items[1..]) + "\"" + rest;
      assert ItemsText(items) + "\"" + rest == items[0].Text() + after;
      ItemIsRead(items[0], after);
      ItemsAreRead(items[1..], rest);
      PrefixedMore(items[0].Meaning(), ItemsMeaning(items[1..]), Plain(rest));
    }
  }

  lemma PartIsRead(part: Part, rest: string)
    requires part.Valid()
    ensures Plain(part.Text() + rest) == Prefixed(part.Meaning(), Plain(rest))
  {
    hide Prefixed, Single, Double, ItemsText, ItemsMeaning;
    var s := part.Text() + rest;
    match part
    case Bare(c) =>
      assert s[0] == c && s[1..] == rest;
      PrefixedOne(c, Plain(rest));
    case Escape(c) =>
      assert s[0] == '\\' && s[1] == c && s[2..] == rest;
      PrefixedOne(c, Plain(rest));
    case InSingle(text) =>
      assert s[0] == '\'' && s[1..] == text + "'" + rest;
      SingleIsRead(text, rest);
    case InDouble(items) =>
      assert s[0] == '"' && s[1..] == ItemsText(items) + "\"" + rest;
      ItemsAreRead(items, rest);
  }

  /** Any word scans to its meaning, at the end of the text or in front of white space; what follows is dropped. */
  lemma {:induction false} WordIsScanned(parts: seq<Part>, rest: string)
    requires IsWord(parts) && (rest == [] || IsSpace(rest[0]))
    ensures Plain(WordText(parts) + rest) == Some(WordMeaning(parts))
    decreases |parts|
  {
    hide Prefixed, Part.Text, Part.Meaning, Part.Valid;
    if parts == [] {
      assert WordText(parts) + rest == rest;
      SpaceEnds(rest);
    } else {
      var after := WordText(parts[1..]) + rest;
      assert WordText(parts) + rest == parts[0].Text() + after;
      PartIsRead(parts[0], after);
      WordIsScanned(parts[1..], rest);
      PrefixedSome(parts[0].Meaning(), WordMeaning(parts[1..]));
    }
  }

  lemma PrefixedSome(a: string, b: string)
    ensures Prefixed(a, Some(b)) == Some(a + b)
  {
  }

  lemma SpaceEnds(rest: string)
    requires rest == [] || IsSpace(rest[0])
    ensures Plain(rest) == Some([])
  {
  }

  // ---------------------------------------------------------------- and nothing else

  lemma {:induction false} SingleIsClosed(s: string) returns (text: string, rest: string)
    requires Single(s).Some?
    ensures '\'' !in text && s == text + "'" + rest && |rest| < |s|
    ensures Plain(rest).Some? && Single(s).value == text + Plain(rest).value
    decreases |s|
  {
    hide Plain;
    if s[0] == '\'' {
      text, rest := [], s[1..];
      assert s == [s[0]] + s[1..];
    } else {
      var t;
      t, rest := SingleIsClosed(s[1..]);
      text := [s[0]] + t;
      assert s == [s[0]] + s[1..];
    }
  }

  lemma ItemOf(s: string) returns (item: Item)
    requires Double(s).Some? && s[0] != '"'
    ensures item.Valid() && item.Text() <= s && |item.Text()| > 0
  {
    hide Plain, Cons;
    item := if s[0] != '\\' then Raw(s[0]) else if s[1] in "\"\\$`" then Freed(s[1]) else Kept(s[1]);
  }

  lemma {:induction false} DoubleIsClosed(s: string) returns (items: seq<Item>, rest: string)
    requires Double(s).Some?
    ensures (forall i :: 0 <= i < |items| ==> items[i].Valid()) && s == ItemsText(items) + "\"" + rest
    ensures |rest| < |s|
    ensures Plain(rest).Some? && Double(s).value == ItemsMeaning(items) + Plain(rest).value
    decreases |s|
  {
    hide Plain, ItemsText, ItemsMeaning, Item.Text, Item.Meaning, Item.Valid, Prefixed;
    if s[0] == '"' {
      items, rest := [], s[1..];
      NoItems();
      assert s == [s[0]] + s[1..];
      assert [] + Plain(rest).value == Plain(rest).value;
    } else {
      var item := ItemOf(s);
      var after := s[|item.Text()|..];
      assert s == item.Text() + after;
      ItemIsRead(item, after);
      PrefixedSplits(item.Meaning(), Double(after));
      var more;
      more, rest := DoubleIsClosed(after);
      items := [item] + more;
      MoreItems(item, more);
    }
  }

  lemma NoItems()
    ensures ItemsText([]) == [] && ItemsMeaning([]) == []
  {
  }

  lemma MoreItems(item: Item, more: seq<Item>)
    ensures ItemsText([item] + more) == item.Text() + ItemsText(more) && |item.Text()| > 0
    ensures ItemsMeaning([item] + more) == item.Meaning() + ItemsMeaning(more)
  {
    assert ([item] + more)[1..] == more;
  }

  /** Whatever is scanned is a word, up to the end of the text or white space. */
  lemma {:induction false} ScannedIsWord(s: string) returns (parts: seq<Part>, rest: string)
    requires Plain(s).Some?
    ensures IsWord(parts) && s == WordText(parts) + rest && (rest == [] || IsSpace(rest[0]))
    ensures Plain(s).value == WordMeaning(parts)
    decreases |s|
  {
    hide Plain, WordText, WordMeaning, Part.Text, Part.Meaning, Part.Valid, Prefixed;
    if s == [] || IsSpace(s[0]) {
      parts, rest := [], s;
      NoParts();
      SpaceEnds(s);
      assert [] + s == s;
    } else {
      var part, after := PartOf(s);
      PartIsRead(part, after);
      PrefixedSplits(part.Meaning(), Plain(after));
      var more;
      more, rest := ScannedIsWord(after);
      parts := [part] + more;
      MoreParts(part, more);
      assert s == part.Text() + (WordText(more) + rest) == WordText(parts) + rest;
    }
  }

  lemma NoParts()
    ensures WordText([]) == [] && WordMeaning([]) == []
  {
  }

  lemma MoreParts(part: Part, more: seq<Part>)
    ensures WordText([part] + more) == part.Text() + WordText(more)
    ensures WordMeaning([part] + more) == part.Meaning() + WordMeaning(more)
  {
    assert ([part] + more)[1..] == more;
  }

  lemma PrefixedSplits(a: string, r: Option<string>)
    requires Prefixed(a, r).Some?
    ensures r.Some? && Prefixed(a, r).value == a + r.value
  {
  }

  lemma PartOf(s: string) returns (part: Part, rest: string)
    requires Plain(s).Some? && s != [] && !IsSpace(s[0])
    ensures part.Valid() && s == part.Text() + rest && |rest| < |s|
  {
    hide Single, Double;
    if s[0] == '\'' {
      var text, after := SingleIsClosed(s[1..]);
      part, rest := InSingle(text), after;
      assert s == [s[0]] + s[1..];
    } else if s[0] == '"' {
      var items, after := DoubleIsClosed(s[1..]);
      part, rest := InDouble(items), after;
      assert s == [s[0]] + s[1..];
    } else if s[0] == '\\' {
      part, rest := Escape(s[1]), s[2..];
      assert s == [s[0], s[1]] + s[2..];
    } else {
      part, rest := Bare(s[0]), s[1..];
      assert s == [s[0]] + s[1..];
    }
  }

  /** So a value is refused as unclosed exactly if it does not start with a word that ends there. */
  ghost predicate StartsWithWord(s: string) {
    exists parts :: IsWord(parts) && WordText(parts) <= s
                    && (WordText(parts) == s || IsSpace(s[|WordText(parts)|]))
  }

  lemma ScannedExactly(s: string)
    ensures Plain(s).Some? <==> StartsWithWord(s)
  {
    hide Plain, WordText, WordMeaning, IsWord, IsSpace;
    if Plain(s).Some? {
      var parts, rest := ScannedIsWord(s);
      assert IsWord(parts) && WordText(parts) <= s;
    }
    if StartsWithWord(s) {
      var parts :| IsWord(parts) && WordText(parts) <= s
                   && (WordText(parts) == s || IsSpace(s[|WordText(parts)|]));
      var rest := s[|WordText(parts)|..];
      assert s == WordText(parts) + rest;
      WordIsScanned(parts, rest);
    }
  }

  // ---------------------------------------------------------------- double quotes

  /** A value between double quotes, with a backslash before each character that needs one. */
  function DoubleQuoted(v: string): string {
    "\"" + Slashed(v) + "\""
  }

  function Slashed(v: string): string {
    if v == [] then [] else (if v[0] in "\"\\$`" then ['\\', v[0]] else [v[0]]) + Slashed(v[1..])
  }

  lemma {:induction false} SlashedItems(v: string) returns (items: seq<Item>)
    ensures forall i :: 0 <= i < |items| ==> items[i].Valid()
    ensures ItemsText(items) == Slashed(v) && ItemsMeaning(items) == v
    decreases |v|
  {
    if v == [] {
      items := [];
    } else {
      var more := SlashedItems(v[1..]);
      var item := if v[0] in "\"\\$`" then Freed(v[0]) else Raw(v[0]);
      items := [item] + more;
      assert items[1..] == more && v == [v[0]] + v[1..];
    }
  }

  /** Any value whatever survives double quoting, too. */
  lemma ScanAfterDoubleQuote(v: string)
    ensures Plain(DoubleQuoted(v)) == Some(v)
  {
    hide Plain, ItemsText, ItemsMeaning, Slashed;
    var items := SlashedItems(v);
    var part := InDouble(items);
    assert part.Valid() && part.Text() == DoubleQuoted(v) && part.Meaning() == v;
    PartIsRead(part, []);
    assert part.Text() + [] == part.Text();
    SpaceEnds([]);
    PrefixedSome(v, []);
    assert v + [] == v;
  }
}
