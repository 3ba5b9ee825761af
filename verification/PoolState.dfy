/** The FakeIP pool as a value: one recency list per shard, and every property of its runs. */
module PoolState {
  import opened MachineInts
  import opened Wrappers
  import opened Hashing
  import opened RecencyList
  import opened PoolLayout

  type State = seq<seq<Entry>>

  datatype PoolOp = Intern(name: Domain) | Lookback(ip: u32)

  function ShardOf(hs: Hashes, l: Layout, d: Domain): (s: u32)
    requires l.Valid()
    ensures s < l.nShards
  {
    FastRange(hs.rapid(d), l.nShards)
  }

  function PlaceHash(hs: Hashes, d: Domain): bv64 {
    hs.fmix(hs.rapid(d))
  }

  /** Each shard is well formed in its own slice and holds only lower-cased names that hash to it. */
  ghost predicate Invariant(hs: Hashes, l: Layout, st: State) {
    && l.Valid()
    && |st| == l.nShards
    && (forall s :: 0 <= s < |st| ==> WellFormed(l.SliceOf(s), st[s]))
    && (forall s, k :: 0 <= s < |st| && 0 <= k < |st[s]| ==> BelongsTo(hs, l, st[s][k].domain, s))
  }

  predicate BelongsTo(hs: Hashes, l: Layout, d: Domain, s: nat)
    requires l.Valid()
  {
    LowerAll(d) == d && ShardOf(hs, l, d) == s
  }

  function Empty(l: Layout): State {
    seq(l.nShards, _ => [])
  }

  function AfterIntern(hs: Hashes, l: Layout, st: State, name: Domain): State
    requires Invariant(hs, l, st)
  {
    var d := LowerAll(name);
    var s := ShardOf(hs, l, d);
    st[s := Interned(hs, l.SliceOf(s), st[s], d, PlaceHash(hs, d))]
  }

  /** The address `intern` returns. */
  function AddressOf(hs: Hashes, l: Layout, st: State, name: Domain): u32
    requires Invariant(hs, l, st)
  {
    var s := ShardOf(hs, l, LowerAll(name));
    AfterIntern(hs, l, st, name)[s][0].ip
  }

  /** The shard a reverse look-up goes to. */
  function Route(l: Layout, ip: u32): (r: Option<nat>)
    requires l.Valid()
    ensures r.Some? ==> r.value < l.nShards
  {
    if ip < l.lo then None
    else
      DivNonNegative(ip - l.lo, l.span);
      var idx := (ip - l.lo) / l.span;
      if idx >= l.nShards then None else Some(idx)
  }

  function AfterLookback(l: Layout, st: State, ip: u32): State
    requires l.Valid() && |st| == l.nShards
  {
    match Route(l, ip)
    case Some(s) => st[s := LookedBack(st[s], ip)]
    case None => st
  }

  /** The name `lookback` returns. */
  function NameOf(l: Layout, st: State, ip: u32): Option<Domain>
    requires l.Valid() && |st| == l.nShards
  {
    match Route(l, ip)
    case Some(s) => Owner(st[s], ip)
    case None => None
  }

  function After(hs: Hashes, l: Layout, st: State, op: PoolOp): State
    requires Invariant(hs, l, st)
  {
    match op
    case Intern(name) => AfterIntern(hs, l, st, name)
    case Lookback(ip) => AfterLookback(l, st, ip)
  }

  lemma LowerTwice(name: Domain)
    ensures LowerAll(LowerAll(name)) == LowerAll(name)
  {
  }

  /** The same letter in either case: A to Z are 65 to 90, a to z 32 more. */
  predicate SameLetter(a: byte, b: byte) {
    a == b || (65 <= a <= 90 && b == a + 32) || (65 <= b <= 90 && a == b + 32)
  }

  /** Two names are one to the pool exactly if they differ in the case of ASCII letters only; and what it keeps has no
      upper-case letter. */
  lemma SpellingsOfOneName(a: Domain, b: Domain)
    ensures LowerAll(a) == LowerAll(b) <==> |a| == |b| && forall i :: 0 <= i < |a| ==> SameLetter(a[i], b[i])
    ensures forall i :: 0 <= i < |a| ==> !(65 <= LowerAll(a)[i] <= 90)
  {
    if |a| == |b| && LowerAll(a) != LowerAll(b) {
      assert exists i :: 0 <= i < |a| && LowerAll(a)[i] != LowerAll(b)[i];
    }
    if LowerAll(a) == LowerAll(b) {
      forall i | 0 <= i < |a| ensures SameLetter(a[i], b[i]) {
        assert LowerAll(a)[i] == LowerAll(b)[i];
      }
    }
  }

  lemma AfterKeepsInvariant(hs: Hashes, l: Layout, st: State, op: PoolOp)
    requires Invariant(hs, l, st)
    ensures Invariant(hs, l, After(hs, l, st, op))
  {
    match op
    case Intern(name) =>
      var d := LowerAll(name);
      var s := ShardOf(hs, l, d);
      LowerTwice(name);
      InternedWellFormed(hs, l.SliceOf(s), st[s], d, PlaceHash(hs, d));
      InternedNames(hs, l.SliceOf(s), st[s], d, PlaceHash(hs, d));
    case Lookback(ip) =>
      match Route(l, ip) {
        case Some(s) =>
          LookedBackWellFormed(l.SliceOf(s), st[s], ip);
          LookedBackNames(st[s], ip);
        case None =>
      }
  }

  lemma InternedNames(hs: Hashes, sl: Slice, es: seq<Entry>, d: Domain, h: bv64)
    requires WellFormed(sl, es)
    ensures var r := Interned(hs, sl, es, d, h);
            forall k :: 0 <= k < |r| ==> r[k].domain == d || exists j :: 0 <= j < |es| && es[j] == r[k]
  {
  }

  lemma LookedBackNames(es: seq<Entry>, ip: u32)
    ensures var r := LookedBack(es, ip);
            forall k :: 0 <= k < |r| ==> exists j :: 0 <= j < |es| && es[j] == r[k]
  {
  }

  /** The pool after a run of operations on a new pool. */
  ghost function Run(hs: Hashes, l: Layout, ops: seq<PoolOp>): (st: State)
    requires l.Valid()
    ensures Invariant(hs, l, st)
  {
    if ops == [] then Empty(l)
    else
      var st := Run(hs, l, ops[..|ops| - 1]);
      AfterKeepsInvariant(hs, l, st, ops[|ops| - 1]);
      After(hs, l, st, ops[|ops| - 1])
  }

  /** The pool after further operations. */
  ghost function Ran(hs: Hashes, l: Layout, st: State, ops: seq<PoolOp>): (r: State)
    requires Invariant(hs, l, st)
    ensures Invariant(hs, l, r)
    decreases |ops|
  {
    if ops == [] then st
    else
      var before := Ran(hs, l, st, ops[..|ops| - 1]);
      AfterKeepsInvariant(hs, l, before, ops[|ops| - 1]);
      After(hs, l, before, ops[|ops| - 1])
  }

  lemma RanNothing(hs: Hashes, l: Layout, st: State)
    requires Invariant(hs, l, st)
    ensures Ran(hs, l, st, []) == st
  {
  }

  lemma {:induction false} RanInParts(hs: Hashes, l: Layout, st: State, a: seq<PoolOp>, b: seq<PoolOp>)
    requires Invariant(hs, l, st)
    ensures Ran(hs, l, st, a + b) == Ran(hs, l, Ran(hs, l, st, a), b)
    decreases |b|
  {
    hide After, Invariant;
    if b == [] {
      assert a + b == a;
    } else {
      assert (a + b)[..|a + b| - 1] == a + b[..|b| - 1];
      RanInParts(hs, l, st, a, b[..|b| - 1]);
    }
  }

  /** Every shard holds at least as many entries in b. */
  ghost predicate Grown(a: State, b: State) {
    |a| == |b| && forall s :: 0 <= s < |a| ==> |a[s]| <= |b[s]|
  }

  /** Shards only grow: what is evicted makes room for one entry. */
  lemma AfterGrows(hs: Hashes, l: Layout, st: State, op: PoolOp)
    requires Invariant(hs, l, st)
    ensures Grown(st, After(hs, l, st, op))
  {
    match op
    case Intern(name) =>
      var s := ShardOf(hs, l, LowerAll(name));
      assert WellFormed(l.SliceOf(s), st[s]);
    case Lookback(_) =>
  }

  lemma {:induction false} RanGrows(hs: Hashes, l: Layout, st: State, ops: seq<PoolOp>)
    requires Invariant(hs, l, st)
    ensures Grown(st, Ran(hs, l, st, ops))
    decreases |ops|
  {
    hide After, Invariant;
    if ops != [] {
      var before := ops[..|ops| - 1];
      RanGrows(hs, l, st, before);
      AfterGrows(hs, l, Ran(hs, l, st, before), ops[|ops| - 1]);
    }
  }

  lemma {:induction false} GrownTotal(a: State, b: State)
    requires Grown(a, b)
    ensures Total(a) <= Total(b)
    decreases |a|
  {
    if a != [] {
      GrownTotal(a[1..], b[1..]);
    }
  }

  function Total(st: State): nat {
    if st == [] then 0 else |st[0]| + Total(st[1..])
  }

  lemma {:induction false} TotalBound(st: State, cap: nat)
    requires forall s :: 0 <= s < |st| ==> |st[s]| <= cap
    ensures Total(st) <= |st| * cap
  {
    if st != [] {
      assert forall s :: 0 <= s < |st[1..]| ==> st[1..][s] == st[s + 1];
      TotalBound(st[1..], cap);
      assert |st| * cap == |st[1..]| * cap + cap;
    }
  }

  /** A live domain's address looks back to that domain. */
  lemma LiveLooksBack(hs: Hashes, l: Layout, st: State, s: nat, k: nat)
    requires Invariant(hs, l, st) && s < |st| && k < |st[s]|
    ensures Route(l, st[s][k].ip) == Some(s)
    ensures NameOf(l, st, st[s][k].ip) == Some(st[s][k].domain)
  {
    assert WellFormed(l.SliceOf(s), st[s]);
    OwningSlice(l, s, st[s][k].ip);
  }

  /** Whatever a reverse look-up returns is a live, lower-cased domain holding that address. */
  lemma LookbackIsLive(hs: Hashes, l: Layout, st: State, ip: u32) returns (s: nat, k: nat)
    requires Invariant(hs, l, st) && NameOf(l, st, ip).Some?
    ensures s < |st| && k < |st[s]| && st[s][k] == Entry(NameOf(l, st, ip).value, ip)
    ensures LowerAll(st[s][k].domain) == st[s][k].domain
  {
    s := Route(l, ip).value;
    k := FindIp(st[s], ip).value;
    assert BelongsTo(hs, l, st[s][k].domain, s);
  }

  /** No two live domains share an address and none is live twice, within a shard or across shards. */
  lemma AddressesAreUnique(hs: Hashes, l: Layout, st: State, s: nat, k: nat, s': nat, k': nat)
    requires Invariant(hs, l, st) && s < |st| && k < |st[s]| && s' < |st| && k' < |st[s']|
    requires st[s][k].ip == st[s'][k'].ip || st[s][k].domain == st[s'][k'].domain
    ensures s == s' && k == k'
  {
    LiveLooksBack(hs, l, st, s, k);
    LiveLooksBack(hs, l, st, s', k');
    assert BelongsTo(hs, l, st[s][k].domain, s) && BelongsTo(hs, l, st[s'][k'].domain, s');
    assert WellFormed(l.SliceOf(s), st[s]);
  }

  /** Run-level safety of every accepted configuration. */
  lemma PoolSafety(hs: Hashes, cfg: Config, ops: seq<PoolOp>)
    requires Plan(cfg).Ok?
    ensures var l := Plan(cfg).value;
            l.Valid() &&
            var st := Run(hs, l, ops);
            && Total(st) <= Broadcast(cfg.cidr) - Network(cfg.cidr) - 4
            && Total(st) < Wanted(cfg.maxEntries) + l.nShards
            && forall s, k :: 0 <= s < |st| && 0 <= k < |st[s]| ==>
                 && Network(cfg.cidr) + 4 <= st[s][k].ip < Broadcast(cfg.cidr)
                 && NameOf(l, st, st[s][k].ip) == Some(st[s][k].domain)
                 && LowerAll(st[s][k].domain) == st[s][k].domain
  {
    PlanIsSound(cfg);
    var l := Plan(cfg).value;
    var st := Run(hs, l, ops);
    forall s | 0 <= s < |st| ensures |st[s]| <= l.cap {
      assert WellFormed(l.SliceOf(s), st[s]);
    }
    TotalBound(st, l.cap);
    forall s, k | 0 <= s < |st| && 0 <= k < |st[s]|
      ensures Network(cfg.cidr) + 4 <= st[s][k].ip < Broadcast(cfg.cidr)
      ensures NameOf(l, st, st[s][k].ip) == Some(st[s][k].domain)
      ensures LowerAll(st[s][k].domain) == st[s][k].domain
    {
      LiveLooksBack(hs, l, st, s, k);
      assert WellFormed(l.SliceOf(s), st[s]);
      SliceFits(l, s);
      assert BelongsTo(hs, l, st[s][k].domain, s);
    }
  }

  /** What `intern` returns looks back to the lower-cased name it was given, and any spelling of that name gets
      the same address for as long as it stays live. */
  lemma InternThenLookback(hs: Hashes, l: Layout, st: State, name: Domain)
    requires Invariant(hs, l, st)
    ensures NameOf(l, AfterIntern(hs, l, st, name), AddressOf(hs, l, st, name)) == Some(LowerAll(name))
  {
    AfterKeepsInvariant(hs, l, st, Intern(name));
    LiveLooksBack(hs, l, AfterIntern(hs, l, st, name), ShardOf(hs, l, LowerAll(name)), 0);
  }

  lemma LiveKeepsAddress(hs: Hashes, l: Layout, st: State, s: nat, k: nat, name: Domain)
    requires Invariant(hs, l, st) && s < |st| && k < |st[s]| && LowerAll(name) == st[s][k].domain
    ensures AddressOf(hs, l, st, name) == st[s][k].ip
  {
    assert BelongsTo(hs, l, st[s][k].domain, s);
    assert WellFormed(l.SliceOf(s), st[s]);
  }

  /** An operation removes at most the least recent entry of the one shard it works on, and no live entry ever
      changes its address. */
  lemma OnlyTheTailLeaves(hs: Hashes, l: Layout, st: State, op: PoolOp, s: nat, k: nat)
    requires Invariant(hs, l, st) && s < |st| && k < |st[s]|
    ensures |After(hs, l, st, op)| == |st|
    ensures st[s][k] in After(hs, l, st, op)[s] ||
            (op.Intern? && s == ShardOf(hs, l, LowerAll(op.name)) && k == |st[s]| - 1 && |st[s]| == l.cap)
  {
    assert WellFormed(l.SliceOf(s), st[s]);
    match op
    case Intern(name) =>
      var d := LowerAll(name);
      if s == ShardOf(hs, l, d) {
        InternedKeeps(hs, l.SliceOf(s), st[s], d, PlaceHash(hs, d), k);
      }
    case Lookback(ip) =>
      match Route(l, ip) {
        case Some(t) =>
          if t == s { LookedBackKeeps(st[s], ip, k); }
        case None =>
      }
  }

  lemma ToFrontKeeps(es: seq<Entry>, j: nat, k: nat)
    requires j < |es| && k < |es|
    ensures es[k] in ToFront(es, j)
  {
    var r := ToFront(es, j);
    assert r[if k == j then 0 else if k < j then k + 1 else k] == es[k];
  }

  lemma InternedKeeps(hs: Hashes, sl: Slice, es: seq<Entry>, d: Domain, h: bv64, k: nat)
    requires WellFormed(sl, es) && k < |es|
    ensures es[k] in Interned(hs, sl, es, d, h) || (k == |es| - 1 && |es| == sl.cap)
  {
    match FindDomain(es, d)
    case Some(j) => ToFrontKeeps(es, j, k);
    case None =>
      RoomForOne(hs, sl, es, h);
      var kept := MakeRoom(sl, es);
      if k < |kept| {
        assert Interned(hs, sl, es, d, h)[k + 1] == kept[k] == es[k];
      }
  }

  lemma LookedBackKeeps(es: seq<Entry>, ip: u32, k: nat)
    requires k < |es|
    ensures es[k] in LookedBack(es, ip)
  {
    match FindIp(es, ip)
    case Some(j) => ToFrontKeeps(es, j, k);
    case None =>
  }
}
