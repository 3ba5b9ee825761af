/** A string-keyed ordered map (`BTreeMap<String, String>`) as its entries in key order. */
module SortedPairs {
  import opened Wrappers

  type Pairs = seq<(string, string)>

  /** Lexicographic order on characters, which is the byte order of the UTF-8 encodings. */
  predicate Less(a: string, b: string) {
    b != [] && (a == [] || a[0] < b[0] || (a[0] == b[0] && Less(a[1..], b[1..])))
  }

  lemma {:induction false} LessTransitive(a: string, b: string, c: string)
    requires Less(a, b) && Less(b, c)
    ensures Less(a, c)
  {
    if a != [] && a[0] == b[0] == c[0] {
      LessTransitive(a[1..], b[1..], c[1..]);
    }
  }

  lemma {:induction false} LessTotal(a: string, b: string)
    ensures !(Less(a, b) && Less(b, a)) && !Less(a, a)
    ensures Less(a, b) || Less(b, a) || a == b
  {
    if a != [] {
      LessTotal(a[1..], a[1..]);
      if b != [] && a[0] == b[0] {
        LessTotal(a[1..], b[1..]);
        assert a == [a[0]] + a[1..] && b == [b[0]] + b[1..];
      }
    }
  }

  ghost predicate Sorted(m: Pairs) {
    forall i, j :: 0 <= i < j < |m| ==> Less(m[i].0, m[j].0)
  }

  function Lookup(m: Pairs, k: string): Option<string> {
    if m == [] then None else if m[0].0 == k then Some(m[0].1) else Lookup(m[1..], k)
  }

  function Insert(m: Pairs, k: string, v: string): Pairs {
    if m == [] || Less(k, m[0].0) then [(k, v)] + m
    else if m[0].0 == k then [(k, v)] + m[1..]
    else [m[0]] + Insert(m[1..], k, v)
  }

  lemma {:induction false} InsertSorted(m: Pairs, k: string, v: string)
    requires Sorted(m)
    ensures Sorted(Insert(m, k, v))
    ensures forall p :: p in Insert(m, k, v) ==> p in m || p == (k, v)
    decreases |m|
  {
    if m == [] {
    } else if Less(k, m[0].0) {
      forall j | 0 <= j < |m| ensures Less(k, m[j].0) {
        if j > 0 {
          LessTransitive(k, m[0].0, m[j].0);
        }
      }
    } else if m[0].0 == k {
    } else {
      InsertSorted(m[1..], k, v);
      LessTotal(m[0].0, k);
      var r := Insert(m[1..], k, v);
      forall j | 0 <= j < |r| ensures Less(m[0].0, r[j].0) {
        assert r[j] in r;
      }
    }
  }

  lemma {:induction false} LookupAfterInsert(m: Pairs, k: string, v: string, x: string)
    requires Sorted(m)
    ensures Lookup(Insert(m, k, v), x) == if x == k then Some(v) else Lookup(m, x)
    decreases |m|
  {
    if m != [] && !Less(k, m[0].0) && m[0].0 != k {
      LookupAfterInsert(m[1..], k, v, x);
    }
  }

  lemma {:induction false} LookupIn(m: Pairs, k: string)
    ensures Lookup(m, k).Some? ==> (k, Lookup(m, k).value) in m
    ensures Lookup(m, k).None? ==> forall p :: p in m ==> p.0 != k
  {
    if m != [] && m[0].0 != k {
      LookupIn(m[1..], k);
    }
  }

  lemma SortedTail(m: Pairs)
    requires Sorted(m) && m != []
    ensures Sorted(m[1..]) && forall p :: p in m[1..] ==> Less(m[0].0, p.0)
  {
  }

  /** An ordered map is determined by what it looks up. */
  lemma {:induction false} Extensional(a: Pairs, b: Pairs)
    requires Sorted(a) && Sorted(b) && forall k :: Lookup(a, k) == Lookup(b, k)
    ensures a == b
    decreases |a|
  {
    assert a != [] ==> Lookup(a, a[0].0) == Lookup(b, a[0].0);
    assert b != [] ==> Lookup(a, b[0].0) == Lookup(b, b[0].0);
    if a != [] && b != [] {
      SortedTail(a);
      SortedTail(b);
      SameFirst(a, b);
      forall k ensures Lookup(a[1..], k) == Lookup(b[1..], k) {
        assert Lookup(a, k) == Lookup(b, k);
        LookupIn(a[1..], k);
        LookupIn(b[1..], k);
        LessTotal(a[0].0, k);
      }
      Extensional(a[1..], b[1..]);
    }
  }

  lemma SameFirst(a: Pairs, b: Pairs)
    requires Sorted(a) && Sorted(b) && a != [] && b != [] && forall k :: Lookup(a, k) == Lookup(b, k)
    ensures a[0] == b[0]
  {
    SortedTail(a);
    SortedTail(b);
    LookupIn(a[1..], b[0].0);
    LookupIn(b[1..], a[0].0);
    LessTotal(a[0].0, b[0].0);
    assert Lookup(a, a[0].0) == Lookup(b, a[0].0);
    assert Lookup(a, b[0].0) == Lookup(b, b[0].0);
  }
}
