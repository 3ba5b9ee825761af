/** The least-recently-used policy measured against the history of a shard: which domains survive any run of
    interns and look-ups is decided by how many other domains were touched since. */
module RecencyHistory {
  import opened MachineInts
  import opened Wrappers
  import opened Hashing
  import opened RecencyList

  datatype Op = InternOp(domain: Domain, hash: bv64) | LookbackOp(ip: u32)

  function Apply(hs: Hashes, sl: Slice, es: seq<Entry>, op: Op): (r: seq<Entry>)
    requires WellFormed(sl, es)
    ensures WellFormed(sl, r)
  {
    match op
    case InternOp(d, h) => InternedWellFormed(hs, sl, es, d, h); Interned(hs, sl, es, d, h)
    case LookbackOp(ip) => LookedBackWellFormed(sl, es, ip); LookedBack(es, ip)
  }

  /** The shard after a run of operations on an empty shard. */
  function Run(hs: Hashes, sl: Slice, ops: seq<Op>): (r: seq<Entry>)
    requires sl.Valid()
    ensures WellFormed(sl, r)
  {
    if ops == [] then []
    else Apply(hs, sl, Run(hs, sl, ops[..|ops| - 1]), ops[|ops| - 1])
  }

  /** The domain an operation touches: the one interned, or the one whose live address was looked up. */
  function Touched(es: seq<Entry>, op: Op): Option<Domain> {
    match op
    case InternOp(d, _) => Some(d)
    case LookbackOp(ip) => Owner(es, ip)
  }

  /** All touches of a run, oldest first. */
  function Touches(hs: Hashes, sl: Slice, ops: seq<Op>): seq<Domain>
    requires sl.Valid()
  {
    if ops == [] then []
    else
      var before := ops[..|ops| - 1];
      match Touched(Run(hs, sl, before), ops[|ops| - 1])
      case Some(d) => Touches(hs, sl, before) + [d]
      case None => Touches(hs, sl, before)
  }

  function Domains(es: seq<Entry>): (ds: seq<Domain>)
    ensures |ds| == |es|
    ensures forall i :: 0 <= i < |es| ==> ds[i] == es[i].domain
  {
    seq(|es|, i requires 0 <= i < |es| => es[i].domain)
  }

  ghost predicate NoDuplicates(ds: seq<Domain>) {
    forall i, j :: 0 <= i < j < |ds| ==> ds[i] != ds[j]
  }

  function IndexOf(ds: seq<Domain>, d: Domain): (r: Option<nat>)
    ensures r.Some? ==> r.value < |ds| && ds[r.value] == d
    ensures r.None? ==> d !in ds
  {
    if ds == [] then None
    else if ds[0] == d then Some(0)
    else match IndexOf(ds[1..], d)
      case None => None
      case Some(k) => Some(k + 1)
  }

  function Remove(ds: seq<Domain>, d: Domain): seq<Domain> {
    match IndexOf(ds, d)
    case Some(k) => Without(ds, k)
    case None => ds
  }

  /** The distinct domains of a touch log, the one touched last first: an LRU list of unbounded capacity. */
  function Recent(log: seq<Domain>): seq<Domain> {
    if log == [] then []
    else [log[|log| - 1]] + Remove(Recent(log[..|log| - 1]), log[|log| - 1])
  }

  function Truncate(ds: seq<Domain>, cap: nat): seq<Domain> {
    ds[..Min(|ds|, cap)]
  }

  lemma {:induction false} RecentNoDuplicates(log: seq<Domain>)
    ensures NoDuplicates(Recent(log))
    ensures forall d :: d in Recent(log) ==> d in log
  {
    if log != [] {
      var init, d := log[..|log| - 1], log[|log| - 1];
      RecentNoDuplicates(init);
      RemoveIsOut(Recent(init), d);
    }
  }

  lemma RemoveIsOut(ds: seq<Domain>, d: Domain)
    requires NoDuplicates(ds)
    ensures NoDuplicates(Remove(ds, d)) && d !in Remove(ds, d)
    ensures forall x :: x in Remove(ds, d) ==> x in ds
  {
    match IndexOf(ds, d)
    case None =>
    case Some(k) =>
      forall x | x in Remove(ds, d) ensures x in ds && x != d {
        var i :| 0 <= i < |Without(ds, k)| && Without(ds, k)[i] == x;
      }
  }

  /** What one touch does to a bounded recency list. */
  function TouchBounded(ds: seq<Domain>, d: Domain, cap: nat): seq<Domain>
    requires cap > 0
  {
    [d] + if d in ds then Remove(ds, d) else if |ds| >= cap then ds[..|ds| - 1] else ds
  }

  /** Bounding the list commutes with touching. */
  lemma TruncateTouch(ds: seq<Domain>, d: Domain, cap: nat)
    requires NoDuplicates(ds) && cap > 0
    ensures Truncate([d] + Remove(ds, d), cap) == TouchBounded(Truncate(ds, cap), d, cap)
  {
    var t := Truncate(ds, cap);
    match IndexOf(ds, d)
    case None =>
      assert d !in t;
      assert Truncate([d] + ds, cap) == [d] + ds[..Min(|ds|, cap - 1)];
    case Some(p) =>
      var l, r := ds[..p], ds[p + 1..];
      assert [d] + Remove(ds, d) == [d] + (l + r);
      if p < |t| {
        FirstPosition(t, d, p);
        assert Without(t, p) == l + r[..|t| - p - 1];
        assert ([d] + (l + r))[..|t|] == [d] + (l + r[..|t| - p - 1]);
      } else {
        assert d !in t;
        assert ([d] + (l + r))[..cap] == [d] + ds[..cap - 1];
      }
  }

  lemma DistinctDomains(es: seq<Entry>, k: nat)
    requires Distinct(es) && k < |es|
    ensures NoDuplicates(Domains(es))
    ensures IndexOf(Domains(es), es[k].domain) == Some(k)
    ensures Domains(ToFront(es, k)) == [es[k].domain] + Remove(Domains(es), es[k].domain)
  {
    assert Domains(es)[k] == es[k].domain;
    var j := IndexOf(Domains(es), es[k].domain).value;
    assert Domains(es)[j] == es[j].domain;
  }

  lemma ApplyTouches(hs: Hashes, sl: Slice, es: seq<Entry>, op: Op)
    requires WellFormed(sl, es)
    ensures Domains(Apply(hs, sl, es, op)) ==
            match Touched(es, op) case None => Domains(es) case Some(d) => TouchBounded(Domains(es), d, sl.cap)
  {
    match op
    case InternOp(d, h) => InternTouches(hs, sl, es, d, h);
    case LookbackOp(ip) =>
      match FindIp(es, ip) {
        case Some(k) => DistinctDomains(es, k);
        case None =>
      }
  }

  lemma InternTouches(hs: Hashes, sl: Slice, es: seq<Entry>, d: Domain, h: bv64)
    requires WellFormed(sl, es)
    ensures Domains(Interned(hs, sl, es, d, h)) == TouchBounded(Domains(es), d, sl.cap)
  {
    match FindDomain(es, d)
    case Some(k) => DistinctDomains(es, k);
    case None =>
      assert forall i :: 0 <= i < |es| ==> Domains(es)[i] == es[i].domain;
      RoomForOne(hs, sl, es, h);
      assert Domains(MakeRoom(sl, es)) == if |es| >= sl.cap then Domains(es)[..|es| - 1] else Domains(es);
      assert Domains(Interned(hs, sl, es, d, h)) == [d] + Domains(MakeRoom(sl, es));
  }

  /** The live domains of a shard, in order, are the first `cap` of the unbounded recency list. */
  lemma {:induction false} LruIsTruncatedRecency(hs: Hashes, sl: Slice, ops: seq<Op>)
    requires sl.Valid()
    ensures Domains(Run(hs, sl, ops)) == Truncate(Recent(Touches(hs, sl, ops)), sl.cap)
  {
    if ops == [] {
    } else {
      var before, op := ops[..|ops| - 1], ops[|ops| - 1];
      var log := Touches(hs, sl, before);
      LruIsTruncatedRecency(hs, sl, before);
      ApplyTouches(hs, sl, Run(hs, sl, before), op);
      match Touched(Run(hs, sl, before), op)
      case None =>
      case Some(d) =>
        RecentNoDuplicates(log);
        TruncateTouch(Recent(log), d, sl.cap);
        assert (log + [d])[..|log|] == log;
    }
  }

  ghost function Elements(log: seq<Domain>): set<Domain> {
    set x | x in log
  }

  /** Where d stands after another domain moved to the front. */
  function ShiftedBy(ds: seq<Domain>, x: Domain, p: nat): nat {
    match IndexOf(ds, x)
    case None => p + 1
    case Some(q) => if q < p then p else p + 1
  }

  lemma FrontPosition(ds: seq<Domain>, x: Domain, p: nat)
    requires NoDuplicates(ds) && p < |ds| && ds[p] != x
    ensures IndexOf([x] + Remove(ds, x), ds[p]) == Some(ShiftedBy(ds, x, p))
  {
    RemoveIsOut(ds, x);
    FirstPosition([x] + Remove(ds, x), ds[p], ShiftedBy(ds, x, p));
  }

  lemma FrontElements(ds: seq<Domain>, x: Domain, p: nat)
    requires p < |ds| && ds[p] != x
    ensures ShiftedBy(ds, x, p) <= |[x] + Remove(ds, x)|
    ensures Elements(([x] + Remove(ds, x))[..ShiftedBy(ds, x, p)]) == Elements(ds[..p]) + {x}
  {
    match IndexOf(ds, x)
    case None =>
      assert ([x] + ds)[..p + 1] == [x] + ds[..p];
      ElementsConcat([x], ds[..p]);
    case Some(q) =>
      if q < p {
        var l, r := ds[..q], ds[q + 1..p];
        assert ([x] + Without(ds, q))[..p] == [x] + (l + r);
        assert ds[..p] == l + ([x] + r);
        ElementsConcat([x], l + r);
        ElementsConcat(l, r);
        ElementsConcat(l, [x] + r);
        ElementsConcat([x], r);
      } else {
        assert ([x] + Without(ds, q))[..p + 1] == [x] + ds[..p];
        ElementsConcat([x], ds[..p]);
      }
  }

  lemma ElementsConcat(a: seq<Domain>, b: seq<Domain>)
    ensures Elements(a + b) == Elements(a) + Elements(b)
  {
  }

  /** Moving another domain to the front puts it, and nothing else, before d. */
  lemma FrontBefore(ds: seq<Domain>, x: Domain, d: Domain)
    requires NoDuplicates(ds) && d in ds && x != d
    ensures var ds', p := [x] + Remove(ds, x), IndexOf(ds, d).value;
            && d in ds'
            && Elements(ds'[..IndexOf(ds', d).value]) == Elements(ds[..p]) + {x}
  {
    var p := IndexOf(ds, d).value;
    FrontPosition(ds, x, p);
    FrontElements(ds, x, p);
  }

  lemma FirstPosition(ds: seq<Domain>, d: Domain, p: nat)
    requires NoDuplicates(ds) && p < |ds| && ds[p] == d
    ensures IndexOf(ds, d) == Some(p)
  {
  }

  /** In the unbounded list, exactly the domains touched after a domain's last touch stand before it. */
  lemma {:induction false} BeforeInRecency(log: seq<Domain>, i: nat)
    requires i < |log| && log[i] !in log[i + 1..]
    ensures var p := IndexOf(Recent(log), log[i]);
            && p.Some?
            && Elements(Recent(log)[..p.value]) == Elements(log[i + 1..])
  {
    var init, x, d := log[..|log| - 1], log[|log| - 1], log[i];
    if i < |log| - 1 {
      assert log[i + 1..] == init[i + 1..] + [x];
      BeforeInRecency(init, i);
      RecentNoDuplicates(init);
      FrontBefore(Recent(init), x, d);
    }
  }

  lemma ElementsSize(ds: seq<Domain>)
    requires NoDuplicates(ds)
    ensures |Elements(ds)| == |ds|
  {
    if ds != [] {
      var init := ds[..|ds| - 1];
      ElementsSize(init);
      assert Elements(ds) == Elements(init) + {ds[|ds| - 1]};
    }
  }

  /** A domain last touched at position i of a shard's history is live exactly when fewer than `cap` other
      domains were touched since. */
  lemma LiveIffRecentlyTouched(hs: Hashes, sl: Slice, ops: seq<Op>, i: nat)
    requires sl.Valid()
    requires var log := Touches(hs, sl, ops); i < |log| && log[i] !in log[i + 1..]
    ensures var log := Touches(hs, sl, ops);
            FindDomain(Run(hs, sl, ops), log[i]).Some? <==> |Elements(log[i + 1..])| < sl.cap
  {
    hide Touches, Run, Recent, Elements;
    var log, es := Touches(hs, sl, ops), Run(hs, sl, ops);
    var rec, d := Recent(log), log[i];
    LruIsTruncatedRecency(hs, sl, ops);
    RecentNoDuplicates(log);
    BeforeInRecency(log, i);
    var p := IndexOf(rec, d).value;
    ElementsSize(rec[..p]);
    assert rec[p] == d;
    if p < sl.cap {
      assert Domains(es)[p] == es[p].domain == d;
    } else {
      forall k | 0 <= k < |es| ensures es[k].domain != d {
        assert Domains(es)[k] == rec[k];
      }
    }
  }

  /** A domain no operation touched is not live. */
  lemma UntouchedIsNotLive(hs: Hashes, sl: Slice, ops: seq<Op>, d: Domain)
    requires sl.Valid() && d !in Touches(hs, sl, ops)
    ensures FindDomain(Run(hs, sl, ops), d).None?
  {
    var es := Run(hs, sl, ops);
    LruIsTruncatedRecency(hs, sl, ops);
    RecentNoDuplicates(Touches(hs, sl, ops));
    forall k | 0 <= k < |es| ensures es[k].domain != d {
      assert Domains(es)[k] == Recent(Touches(hs, sl, ops))[k];
    }
  }
}
