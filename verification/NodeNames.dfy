/** Names for resolved proxy nodes (yamltx.rs): a bijective base-26 suffix, the search for an unused name, and the
    list `dns_burn` writes back. */
module NodeNames {
  import opened Wrappers

  // ---------------------------------------------------------------- suffixes

  predicate IsLetter(c: char) {
    'A' <= c <= 'Z'
  }

  predicate IsSuffix(s: string) {
    s != [] && forall i :: 0 <= i < |s| ==> IsLetter(s[i])
  }

  function Letter(d: nat): (c: char)
    requires d < 26
    ensures IsLetter(c) && c as int == 65 + d
  {
    (65 + d) as char
  }

  function Suffix(n: nat): (s: string)
    ensures IsSuffix(s)
  {
    if n < 26 then [Letter(n)] else Suffix(n / 26 - 1) + [Letter(n % 26)]
  }

  method GenerateSuffix(n: nat) returns (s: string)
    ensures s == Suffix(n)
  {
    s := "";
    var left: int := n;
    while true
      invariant left >= 0
      invariant Suffix(n) == Suffix(left) + s
      decreases left
    {
      var rem := left % 26;
      ghost var was := left;
      s := [Letter(rem)] + s;
      left := left / 26 - 1;
      if left < 0 {
        break;
      }
    }
  }

  /** The number a suffix stands for. */
  function Rank(s: string): nat
    requires IsSuffix(s)
  {
    var last := s[|s| - 1] as int - 65;
    if |s| == 1 then last
    else (assert IsSuffix(s[..|s| - 1]); (Rank(s[..|s| - 1]) + 1) * 26 + last)
  }

  lemma {:induction false} RankOfSuffix(n: nat)
    ensures Rank(Suffix(n)) == n
  {
    if n >= 26 {
      var init := Suffix(n / 26 - 1);
      RankOfSuffix(n / 26 - 1);
      assert Suffix(n)[..|Suffix(n)| - 1] == init;
    }
  }

  lemma {:induction false} SuffixOfRank(s: string)
    requires IsSuffix(s)
    ensures Suffix(Rank(s)) == s
    decreases |s|
  {
    var init, last := s[..|s| - 1], s[|s| - 1];
    assert s == init + [last] && Letter(last as int - 65) == last;
    if |s| > 1 {
      assert IsSuffix(init);
      SuffixOfRank(init);
      assert Rank(s) / 26 - 1 == Rank(init) && Rank(s) % 26 == last as int - 65;
    }
  }

  /** Suffixes are a bijection between the naturals and the non-empty strings over A to Z. */
  lemma SuffixIsBijective(m: nat, n: nat, s: string)
    ensures Suffix(m) == Suffix(n) <==> m == n
    ensures IsSuffix(s) <==> exists k: nat :: Suffix(k) == s
  {
    RankOfSuffix(m);
    RankOfSuffix(n);
    if IsSuffix(s) {
      SuffixOfRank(s);
    }
  }

  // ---------------------------------------------------------------- the search for a name

  function Tried(candidate: string, n: nat): (names: set<string>)
    ensures forall i :: 0 <= i < n ==> candidate + Suffix(i) in names
  {
    if n == 0 then {} else Tried(candidate, n - 1) + {candidate + Suffix(n - 1)}
  }

  lemma {:induction false} TriedMember(candidate: string, n: nat, x: string) returns (i: nat)
    requires x in Tried(candidate, n)
    ensures i < n && x == candidate + Suffix(i)
  {
    if x == candidate + Suffix(n - 1) {
      i := n - 1;
    } else {
      i := TriedMember(candidate, n - 1, x);
    }
  }

  lemma {:induction false} TriedSize(candidate: string, n: nat)
    ensures |Tried(candidate, n)| == n && candidate !in Tried(candidate, n)
  {
    if n > 0 {
      TriedSize(candidate, n - 1);
      var name := candidate + Suffix(n - 1);
      if name in Tried(candidate, n - 1) {
        var i := TriedMember(candidate, n - 1, name);
        assert name[|candidate|..] == Suffix(n - 1) && name[|candidate|..] == Suffix(i);
        RankOfSuffix(i);
        RankOfSuffix(n - 1);
      }
      assert |name| > |candidate|;
    }
  }

  /** Taken candidates are distinct members of `used`, so there are fewer of them than that. */
  lemma TakenAreFew(candidate: string, used: set<string>, n: nat)
    requires candidate in used && forall i :: 0 <= i < n ==> candidate + Suffix(i) in used
    ensures n < |used|
  {
    TriedSize(candidate, n);
    var taken := Tried(candidate, n) + {candidate};
    forall x | x in Tried(candidate, n) ensures x in used {
      var i := TriedMember(candidate, n, x);
    }
    assert used == taken + (used - taken);
  }

  /** The first counter from c on whose name is free. */
  function FirstFree(candidate: string, used: set<string>, c: nat): (r: nat)
    requires candidate in used && forall i :: 0 <= i < c ==> candidate + Suffix(i) in used
    ensures c <= r < |used|
    ensures candidate + Suffix(r) !in used
    decreases |used| - c
  {
    TakenAreFew(candidate, used, c);
    if candidate + Suffix(c) !in used then c else FirstFree(candidate, used, c + 1)
  }

  function Filter(s: string, drop: char): string {
    if s == [] then [] else (if s[0] == drop then [] else [s[0]]) + Filter(s[1..], drop)
  }

  /** The part after the last dot: `rsplit('.').next()`. */
  function AfterLastDot(s: string): string {
    if s == [] || s[|s| - 1] == '.' then [] else AfterLastDot(s[..|s| - 1]) + [s[|s| - 1]]
  }

  /** The tail of an address that marks a node: the last four hex digits of IPv6, the last octet of IPv4. */
  function AddressTail(ip: string): string {
    if ':' in ip then
      var clean := Filter(ip, ':');
      if |clean| > 4 then clean[|clean| - 4..] else clean
    else AfterLastDot(ip)
  }

  function Candidate(base: string, ip: string, prefix: string): string {
    base + "@" + prefix + AddressTail(ip)
  }

  /** The generated name: the candidate, or the candidate with the first suffix that makes it unused. */
  function NodeName(base: string, ip: string, used: set<string>, prefix: string): (name: string)
    ensures name !in used
  {
    var candidate := Candidate(base, ip, prefix);
    if candidate !in used then candidate else candidate + Suffix(FirstFree(candidate, used, 0))
  }

  method GenerateNodeName(base: string, ip: string, used: set<string>, prefix: string)
    returns (name: string, tries: nat)
    ensures name == NodeName(base, ip, used, prefix)
    ensures name !in used
    ensures tries <= |used| + 1
  {
    var candidate := base + "@" + prefix + AddressTail(ip);
    tries := 1;
    if candidate !in used {
      return candidate, tries;
    }
    var counter: nat := 0;
    while true
      invariant forall i :: 0 <= i < counter ==> candidate + Suffix(i) in used
      invariant FirstFree(candidate, used, 0) == FirstFree(candidate, used, counter)
      invariant tries == counter + 1 <= |used|
      decreases |used| - counter
    {
      TakenAreFew(candidate, used, counter);
      var suffix := GenerateSuffix(counter);
      name := candidate + suffix;
      tries := tries + 1;
      if name !in used {
        return;
      }
      TakenAreFew(candidate, used, counter + 1);
      counter := counter + 1;
    }
  }

  // ---------------------------------------------------------------- dns_burn

  /** A proxy entry: its name and server if they are strings, and everything else it holds. */
  datatype Node = Node(name: Option<string>, server: Option<string>, other: seq<(string, string)>)

  /** What the resolvers found, and which servers are addresses already. */
  datatype Resolved = Resolved(isIp: string -> bool, ex: string -> seq<string>, sub: string -> seq<string>)

  function NamesOf(nodes: seq<Node>): set<string> {
    set i | 0 <= i < |nodes| && nodes[i].name.Some? :: nodes[i].name.value
  }

  predicate Eligible(rs: Resolved, p: Node) {
    p.server.Some? && !rs.isIp(p.server.value)
  }

  function BaseName(p: Node): string {
    if p.name.Some? then p.name.value else ""
  }

  /** A copy of p for every address, each under a fresh name, and the names used after that. */
  function Copies(p: Node, ips: seq<string>, prefix: string, used: set<string>): (seq<Node>, set<string>)
    decreases |ips|
  {
    if ips == [] then ([], used)
    else
      var (nodes, used') := Copies(p, ips[..|ips| - 1], prefix, used);
      var ip := ips[|ips| - 1];
      var name := NodeName(BaseName(p), ip, used', prefix);
      (nodes + [p.(name := Some(name), server := Some(ip))], used' + {name})
  }

  datatype Burn = Burn(ex: seq<Node>, sub: seq<Node>, used: set<string>)

  function BurnOne(rs: Resolved, p: Node, b: Burn): Burn {
    if !Eligible(rs, p) then b
    else
      var (ex, used1) := Copies(p, rs.ex(p.server.value), "", b.used);
      var (sub, used2) := Copies(p, rs.sub(p.server.value), "subdns", used1);
      Burn(b.ex + ex, b.sub + sub, used2)
  }

  function BurnAll(rs: Resolved, proxies: seq<Node>, b: Burn): Burn
    decreases |proxies|
  {
    if proxies == [] then b else BurnOne(rs, proxies[|proxies| - 1], BurnAll(rs, proxies[..|proxies| - 1], b))
  }

  method MakeCopies(p: Node, ips: seq<string>, prefix: string, used: set<string>)
    returns (nodes: seq<Node>, used': set<string>)
    ensures (nodes, used') == Copies(p, ips, prefix, used)
  {
    nodes, used' := [], used;
    for i := 0 to |ips|
      invariant (nodes, used') == Copies(p, ips[..i], prefix, used)
    {
      var uniq, _ := GenerateNodeName(BaseName(p), ips[i], used', prefix);
      used' := used' + {uniq};
      nodes := nodes + [p.(name := Some(uniq), server := Some(ips[i]))];
      assert ips[..i + 1][..i] == ips[..i];
    }
    assert ips[..|ips|] == ips;
  }

  method DnsBurn(rs: Resolved, proxies: seq<Node>) returns (all: seq<Node>, added: nat)
    ensures var b := BurnAll(rs, proxies, Burn([], [], NamesOf(proxies)));
            all == b.sub + proxies + b.ex && added == |b.ex| + |b.sub|
  {
    var used := NamesOf(proxies);
    var ex, sub := [], [];
    ghost var start := Burn([], [], used);
    for i := 0 to |proxies|
      invariant Burn(ex, sub, used) == BurnAll(rs, proxies[..i], start)
    {
      assert proxies[..i + 1][..i] == proxies[..i];
      var p := proxies[i];
      if p.server.None? || rs.isIp(p.server.value) {
        continue;
      }
      var more, used1 := MakeCopies(p, rs.ex(p.server.value), "", used);
      ex := ex + more;
      more, used := MakeCopies(p, rs.sub(p.server.value), "subdns", used1);
      sub := sub + more;
    }
    assert proxies[..|proxies|] == proxies;
    added := |ex| + |sub|;
    all := sub + proxies + ex;
  }

  /** Every node is named, and no name repeats. */
  ghost predicate NamesDistinct(nodes: seq<Node>) {
    && (forall i :: 0 <= i < |nodes| ==> nodes[i].name.Some?)
    && forall i, j :: 0 <= i < j < |nodes| ==> nodes[i].name.value != nodes[j].name.value
  }

  lemma {:induction false} CopiesAreFresh(p: Node, ips: seq<string>, prefix: string, used: set<string>)
    ensures var (nodes, used') := Copies(p, ips, prefix, used);
            && NamesDistinct(nodes) && NamesOf(nodes) !! used && used' == used + NamesOf(nodes)
    decreases |ips|
  {
    hide NodeName, NamesOf, NamesDistinct;
    if ips == [] {
      NoNames();
    } else {
      var (nodes, used') := Copies(p, ips[..|ips| - 1], prefix, used);
      CopiesAreFresh(p, ips[..|ips| - 1], prefix, used);
      var name := NodeName(BaseName(p), ips[|ips| - 1], used', prefix);
      NamesSnoc(nodes, p.(name := Some(name), server := Some(ips[|ips| - 1])));
    }
  }

  lemma NamesSnoc(nodes: seq<Node>, n: Node)
    requires n.name.Some?
    ensures NamesOf(nodes + [n]) == NamesOf(nodes) + {n.name.value}
    ensures NamesDistinct(nodes) && n.name.value !in NamesOf(nodes) ==> NamesDistinct(nodes + [n])
  {
    NamesConcat(nodes, [n]);
    assert NamesOf([n]) == {n.name.value} by {
      assert [n][0] == n;
    }
  }

  lemma NoNames()
    ensures NamesOf([]) == {} && NamesDistinct([])
  {
  }

  lemma NamesConcat(a: seq<Node>, b: seq<Node>)
    ensures NamesOf(a + b) == NamesOf(a) + NamesOf(b)
    ensures NamesDistinct(a) && NamesDistinct(b) && NamesOf(a) !! NamesOf(b) ==> NamesDistinct(a + b)
  {
    var all := a + b;
    forall i | 0 <= i < |a| ensures all[i] == a[i] {}
    forall i | 0 <= i < |b| ensures all[|a| + i] == b[i] {}
    if NamesDistinct(a) && NamesDistinct(b) && NamesOf(a) !! NamesOf(b) {
      forall i, j | 0 <= i < j < |all| ensures all[i].name.value != all[j].name.value {
        if i < |a| <= j {
          assert all[i].name.value in NamesOf(a) && b[j - |a|].name.value in NamesOf(b);
        }
      }
    }
  }

  ghost predicate BurnOk(b: Burn, originals: set<string>) {
    && NamesDistinct(b.ex) && NamesDistinct(b.sub)
    && NamesOf(b.ex) !! NamesOf(b.sub)
    && NamesOf(b.ex) !! originals && NamesOf(b.sub) !! originals
    && b.used == originals + NamesOf(b.ex) + NamesOf(b.sub)
  }

  lemma BurnOneOk(rs: Resolved, p: Node, b: Burn, originals: set<string>)
    requires BurnOk(b, originals)
    ensures BurnOk(BurnOne(rs, p, b), originals)
  {
    if Eligible(rs, p) {
      var (ex, used1) := Copies(p, rs.ex(p.server.value), "", b.used);
      var (sub, used2) := Copies(p, rs.sub(p.server.value), "subdns", used1);
      CopiesAreFresh(p, rs.ex(p.server.value), "", b.used);
      CopiesAreFresh(p, rs.sub(p.server.value), "subdns", used1);
      NamesConcat(b.ex, ex);
      NamesConcat(b.sub, sub);
    }
  }

  lemma {:induction false} BurnAllOk(rs: Resolved, proxies: seq<Node>, b: Burn, originals: set<string>)
    requires BurnOk(b, originals)
    ensures BurnOk(BurnAll(rs, proxies, b), originals)
    decreases |proxies|
  {
    if proxies != [] {
      BurnAllOk(rs, proxies[..|proxies| - 1], b, originals);
      BurnOneOk(rs, proxies[|proxies| - 1], BurnAll(rs, proxies[..|proxies| - 1], b), originals);
    }
  }

  // ---------------------------------------------------------------- what each new node is for

  /** An original and an address its server resolved to. */
  datatype Origin = Origin(node: Node, ip: string)

  /** Every original whose server is a name, with each of its addresses, in order. */
  function Origins(isIp: string -> bool, found: string -> seq<string>, proxies: seq<Node>): seq<Origin>
    decreases |proxies|
  {
    if proxies == [] then []
    else
      var p := proxies[|proxies| - 1];
      Origins(isIp, found, proxies[..|proxies| - 1])
      + if p.server.Some? && !isIp(p.server.value) then OriginsOf(p, found(p.server.value)) else []
  }

  function OriginsOf(p: Node, ips: seq<string>): seq<Origin> {
    seq(|ips|, i requires 0 <= i < |ips| => Origin(p, ips[i]))
  }

  /** n stands for the original at that address: the same entry but for the server, under the name the two give it
      and at most one suffix. */
  ghost predicate StandsFor(n: Node, o: Origin, prefix: string) {
    var candidate := Candidate(BaseName(o.node), o.ip, prefix);
    && n.server == Some(o.ip) && n.other == o.node.other
    && n.name.Some? && (n.name.value == candidate || exists k: nat :: n.name.value == candidate + Suffix(k))
  }

  ghost predicate StandFor(nodes: seq<Node>, os: seq<Origin>, prefix: string) {
    |nodes| == |os| && forall i :: 0 <= i < |nodes| ==> StandsFor(nodes[i], os[i], prefix)
  }

  lemma StandForConcat(a: seq<Node>, b: seq<Node>, os: seq<Origin>, ps: seq<Origin>, prefix: string)
    requires StandFor(a, os, prefix) && StandFor(b, ps, prefix)
    ensures StandFor(a + b, os + ps, prefix)
  {
    hide StandsFor;
    forall i | 0 <= i < |a + b| ensures StandsFor((a + b)[i], (os + ps)[i], prefix) {
      if i >= |a| {
        assert StandsFor(b[i - |a|], ps[i - |a|], prefix);
      }
    }
  }

  lemma {:induction false} CopiesStandFor(p: Node, ips: seq<string>, prefix: string, used: set<string>)
    ensures StandFor(Copies(p, ips, prefix, used).0, OriginsOf(p, ips), prefix)
    decreases |ips|
  {
    hide Candidate, Suffix, FirstFree;
    if ips != [] {
      var before, ip := ips[..|ips| - 1], ips[|ips| - 1];
      CopiesStandFor(p, before, prefix, used);
      var (nodes, used') := Copies(p, before, prefix, used);
      var n := p.(name := Some(NodeName(BaseName(p), ip, used', prefix)), server := Some(ip));
      assert StandsFor(n, Origin(p, ip), prefix);
      StandForConcat(nodes, [n], OriginsOf(p, before), [Origin(p, ip)], prefix);
      assert OriginsOf(p, ips) == OriginsOf(p, before) + [Origin(p, ip)];
    }
  }

  lemma {:induction false} BurnStandsFor(rs: Resolved, proxies: seq<Node>, used: set<string>)
    ensures var b := BurnAll(rs, proxies, Burn([], [], used));
            && StandFor(b.ex, Origins(rs.isIp, rs.ex, proxies), "")
            && StandFor(b.sub, Origins(rs.isIp, rs.sub, proxies), "subdns")
    decreases |proxies|
  {
    hide Copies, StandFor, OriginsOf;
    if proxies == [] {
      assert StandFor([], [], "") && StandFor([], [], "subdns") by { NothingStands(); }
    } else {
      var before, p := proxies[..|proxies| - 1], proxies[|proxies| - 1];
      BurnStandsFor(rs, before, used);
      var b := BurnAll(rs, before, Burn([], [], used));
      if Eligible(rs, p) {
        var (ex, used1) := Copies(p, rs.ex(p.server.value), "", b.used);
        var (sub, used2) := Copies(p, rs.sub(p.server.value), "subdns", used1);
        CopiesStandFor(p, rs.ex(p.server.value), "", b.used);
        CopiesStandFor(p, rs.sub(p.server.value), "subdns", used1);
        StandForConcat(b.ex, ex, Origins(rs.isIp, rs.ex, before), OriginsOf(p, rs.ex(p.server.value)), "");
        StandForConcat(b.sub, sub, Origins(rs.isIp, rs.sub, before), OriginsOf(p, rs.sub(p.server.value)), "subdns");
      } else {
        assert Origins(rs.isIp, rs.ex, proxies) == Origins(rs.isIp, rs.ex, before);
        assert Origins(rs.isIp, rs.sub, proxies) == Origins(rs.isIp, rs.sub, before);
      }
    }
  }

  lemma NothingStands()
    ensures StandFor([], [], "") && StandFor([], [], "subdns")
  {
  }

  /** The written list: exactly one new node for every original whose server is a name and every address found for
      it, in order, the same entry but for server and name; all new names distinct from each other and from every
      original name; and the originals untouched, in order, between the two groups of new nodes. */
  lemma BurnedList(rs: Resolved, proxies: seq<Node>)
    ensures var b := BurnAll(rs, proxies, Burn([], [], NamesOf(proxies)));
            var all := b.sub + proxies + b.ex;
            && StandFor(b.sub, Origins(rs.isIp, rs.sub, proxies), "subdns")
            && StandFor(b.ex, Origins(rs.isIp, rs.ex, proxies), "")
            && NamesDistinct(b.sub + b.ex)
            && NamesOf(b.sub + b.ex) !! NamesOf(proxies)
            && all[|b.sub|..|b.sub| + |proxies|] == proxies
  {
    hide StandFor, Origins, BurnAll;
    var start := Burn([], [], NamesOf(proxies));
    assert NamesOf([]) == {};
    BurnAllOk(rs, proxies, start, NamesOf(proxies));
    var b := BurnAll(rs, proxies, start);
    NamesConcat(b.sub, b.ex);
    BurnStandsFor(rs, proxies, NamesOf(proxies));
  }

  // ---------------------------------------------------------------- the names, letter by letter

  lemma {:induction false} AfterLastDotOf(a: string, b: string)
    requires '.' !in b
    ensures AfterLastDot(a + "." + b) == b && AfterLastDot(b) == b
    decreases |b|
  {
    if b == [] {
      assert a + "." + b == a + ".";
    } else {
      var init, last := b[..|b| - 1], b[|b| - 1];
      AfterLastDotOf(a, init);
      assert (a + "." + b)[..|a + "." + b| - 1] == a + "." + init;
      assert b == init + [last] && last in b;
    }
  }

  /** Text without one character, which goes wherever it stands. */
  lemma {:induction false} FilterConcat(a: string, b: string, drop: char)
    ensures Filter(a + b, drop) == Filter(a, drop) + Filter(b, drop)
    decreases |a|
  {
    if a == [] {
      assert a + b == b;
    } else {
      assert (a + b)[1..] == a[1..] + b;
      FilterConcat(a[1..], b, drop);
    }
  }

  lemma {:induction false} FilterKeeps(a: string, drop: char)
    ensures drop !in a ==> Filter(a, drop) == a
    ensures drop !in Filter(a, drop)
    ensures Filter([drop], drop) == ""
    decreases |a|
  {
    assert [drop][1..] == "" && Filter("", drop) == "";
    if a != [] {
      assert a == [a[0]] + a[1..];
      FilterKeeps(a[1..], drop);
    }
  }

  /** An IPv4 address is marked by its last octet. */
  lemma OctetTail(a: string, b: string)
    requires ':' !in a && ':' !in b && '.' !in b
    ensures AddressTail(a + "." + b) == b && AddressTail(b) == b
  {
    AfterLastDotOf(a, b);
  }

  lemma DigitsOf(a: string, b: string)
    requires ':' !in b
    ensures Filter(a + ":" + b, ':') == Filter(a, ':') + b
  {
    hide Filter;
    FilterConcat(a + ":", b, ':');
    FilterConcat(a, ":", ':');
    FilterKeeps(b, ':');
    assert [':'] == ":" && Filter(a, ':') + "" == Filter(a, ':');
  }

  /** An IPv6 address is marked by the last four of its digits, colons not counted, or by all of them if there are
      fewer. */
  lemma DigitsTail(a: string, b: string)
    requires ':' !in b
    ensures |b| == 4 ==> AddressTail(a + ":" + b) == b
    ensures |b| < 4 && ':' !in a ==>
              AddressTail(a + ":" + b) == (if |a| + |b| > 4 then a[|a| + |b| - 4..] else a) + b
  {
    hide Filter;
    DigitsOf(a, b);
    FilterKeeps(a, ':');
    assert (a + ":" + b)[|a|] == ':';
    var clean := Filter(a, ':') + b;
    assert |b| == 4 ==> clean[|clean| - 4..] == b;
    if ':' !in a && |b| < 4 && |a| + |b| > 4 {
      assert clean[|clean| - 4..] == a[|a| + |b| - 4..] + b;
    }
  }

  /** The name is the base, an at sign, "subdns" for the sub-resolvers, and the tail; and if that is used, the first of
      A, B, C and so on behind it that is not. */
  lemma NodeNameIs(base: string, ip: string, used: set<string>, prefix: string)
    ensures Candidate(base, ip, prefix) == base + "@" + prefix + AddressTail(ip)
    ensures var c, name := base + "@" + prefix + AddressTail(ip), NodeName(base, ip, used, prefix);
            && (c !in used ==> name == c)
            && (c in used ==>
                  exists n: nat :: name == c + Suffix(n) && c + Suffix(n) !in used
                                   && forall i :: 0 <= i < n ==> c + Suffix(i) in used)
  {
    var c := base + "@" + prefix + AddressTail(ip);
    if c in used {
      FreeIsFirst(c, used, 0);
      var n := FirstFree(c, used, 0);
      assert NodeName(base, ip, used, prefix) == c + Suffix(n);
    }
  }

  lemma {:induction false} FreeIsFirst(c: string, used: set<string>, from: nat)
    requires c in used && forall i :: 0 <= i < from ==> c + Suffix(i) in used
    ensures forall i :: 0 <= i < FirstFree(c, used, from) ==> c + Suffix(i) in used
    decreases |used| - from
  {
    TakenAreFew(c, used, from);
    if c + Suffix(from) in used {
      TakenAreFew(c, used, from + 1);
      FreeIsFirst(c, used, from + 1);
    }
  }

  /** Suffixes are counted off by length and then like words: A to Z, AA to AZ, BA. */
  lemma SuffixesInOrder(m: nat, n: nat)
    ensures m < n <==> ShortLexLess(Suffix(m), Suffix(n))
  {
    RankOfSuffix(m);
    RankOfSuffix(n);
    ShortLexIsRank(Suffix(m), Suffix(n));
  }

  /** Shorter, or as long and earlier at the last place where they differ from the left. */
  predicate ShortLexLess(a: string, b: string)
    decreases |a|
  {
    |a| < |b| || (|a| == |b| && a != [] &&
                  (ShortLexLess(a[..|a| - 1], b[..|b| - 1])
                   || (a[..|a| - 1] == b[..|b| - 1] && a[|a| - 1] < b[|b| - 1])))
  }

  lemma {:induction false} RankByLength(a: string, b: string)
    requires IsSuffix(a) && IsSuffix(b) && |a| < |b|
    ensures Rank(a) < Rank(b)
    decreases |b|
  {
    var init := b[..|b| - 1];
    assert IsSuffix(init);
    if |a| > 1 {
      assert IsSuffix(a[..|a| - 1]);
      RankByLength(a[..|a| - 1], init);
    }
  }

  lemma {:induction false} ShortLexIsRank(a: string, b: string)
    requires IsSuffix(a) && IsSuffix(b)
    ensures ShortLexLess(a, b) <==> Rank(a) < Rank(b)
    decreases |a|
  {
    if |a| < |b| {
      RankByLength(a, b);
    } else if |b| < |a| {
      RankByLength(b, a);
    } else if |a| > 1 {
      var x, y := a[..|a| - 1], b[..|b| - 1];
      assert IsSuffix(x) && IsSuffix(y);
      ShortLexIsRank(x, y);
      ShortLexIsRank(y, x);
      SuffixOfRank(x);
      SuffixOfRank(y);
      assert IsLetter(a[|a| - 1]) && IsLetter(b[|b| - 1]);
    } else {
      assert a[..0] == b[..0] == [];
      assert !ShortLexLess(a[..0], b[..0]);
    }
  }

  lemma FirstSuffixes()
    ensures Suffix(0) == "A" && Suffix(25) == "Z" && Suffix(26) == "AA" && Suffix(51) == "AZ" && Suffix(52) == "BA"
  {
  }
}
