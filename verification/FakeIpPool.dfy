/** The sharded pool object (pool.rs): every call locks one shard, so a concurrent history is some sequence of the
    atomic operations below, each proved equal to its counterpart on `PoolState`. */
module FakeIpPool {
  import opened MachineInts
  import opened Wrappers
  import opened Hashing
  import opened RecencyList
  import opened PoolLayout
  import opened PoolState
  import opened FakeIpShard

  /** `str::to_ascii_lowercase`, skipped when there is nothing to lower. */
  function Lowered(name: Domain): (d: Domain)
    ensures d == LowerAll(name)
  {
    if exists i :: 0 <= i < |name| && 65 <= name[i] <= 90 then LowerAll(name)
    else (assert forall i :: 0 <= i < |name| ==> LowerAll(name)[i] == name[i]; name)
  }

  class Pool {
    const shards: seq<Shard>
    const layout: Layout
    const hs: Hashes

    ghost predicate Valid()
      reads this, shards
    {
      && layout.Valid()
      && |shards| == layout.nShards
      && (forall i, j :: 0 <= i < j < |shards| ==> shards[i] != shards[j])
      && (forall s :: 0 <= s < |shards| ==>
            shards[s].Valid() && shards[s].slice == layout.SliceOf(s) && shards[s].hs == hs)
      && Invariant(hs, layout, Abs())
    }

    /** The abstract value: the recency list of every shard. */
    ghost function Abs(): (st: State)
      reads this, shards
      requires forall s :: 0 <= s < |shards| ==> shards[s].Valid()
      ensures |st| == |shards| && forall s :: 0 <= s < |st| ==> st[s] == shards[s].Entries()
    {
      seq(|shards|, s requires 0 <= s < |shards| && shards[s].Valid() reads this, shards => shards[s].Entries())
    }

    constructor FromParts(hs: Hashes, layout: Layout, shards: seq<Shard>)
      requires layout.Valid() && |shards| == layout.nShards
      requires forall i, j :: 0 <= i < j < |shards| ==> shards[i] != shards[j]
      requires forall s :: 0 <= s < |shards| ==>
                 && shards[s].Valid() && shards[s].slice == layout.SliceOf(s)
                 && shards[s].hs == hs && shards[s].Entries() == []
      ensures this.layout == layout && this.hs == hs && this.shards == shards
      ensures Valid() && Abs() == Empty(layout)
    {
      this.hs, this.layout, this.shards := hs, layout, shards;
    }

    /** `FakeIpPool::new` */
    static method New(hs: Hashes, cfg: Config) returns (r: Result<Pool, FakeIpError>)
      ensures Plan(cfg).Err? ==> r == Err(Plan(cfg).error)
      ensures Plan(cfg).Ok? ==>
                && r.Ok? && fresh(r.value) && fresh(r.value.shards)
                && r.value.Valid() && r.value.layout == Plan(cfg).value && r.value.hs == hs
                && r.value.Abs() == Run(hs, Plan(cfg).value, [])
    {
      hide Plan;
      if Plan(cfg).Err? {
        return Err(Plan(cfg).error);
      }
      var l := Plan(cfg).value;
      PlanIsSound(cfg);
      var shards := NewShards(hs, l);
      var pool := new Pool.FromParts(hs, l, shards);
      return Ok(pool);
    }

    /** One empty shard per slice. */
    static method NewShards(hs: Hashes, l: Layout) returns (shards: seq<Shard>)
      requires l.Valid()
      ensures |shards| == l.nShards && fresh(shards)
      ensures forall i, j :: 0 <= i < j < |shards| ==> shards[i] != shards[j]
      ensures forall i :: 0 <= i < |shards| ==>
                && shards[i].Valid() && shards[i].slice == l.SliceOf(i)
                && shards[i].hs == hs && shards[i].Entries() == []
    {
      hide Layout.SliceOf, Stored, Linked;
      shards := [];
      for s := 0 to l.nShards
        invariant |shards| == s
        invariant fresh(shards)
        invariant forall i, j :: 0 <= i < j < |shards| ==> shards[i] != shards[j]
        invariant forall i :: 0 <= i < |shards| ==>
                    && shards[i].Valid() && shards[i].slice == l.SliceOf(i)
                    && shards[i].hs == hs && shards[i].Entries() == []
      {
        var shard := new Shard(hs, l.SliceOf(s));
        shards := shards + [shard];
      }
    }

    method Intern(name: Domain) returns (ip: u32)
      requires Valid()
      modifies shards
      ensures Valid()
      ensures Abs() == AfterIntern(hs, layout, old(Abs()), name)
      ensures ip == AddressOf(hs, layout, old(Abs()), name)
    {
      var d := Lowered(name);
      var h := hs.rapid(d);
      var shardIdx := FastRange(h, layout.nShards);
      var placeHash := hs.fmix(h);
      AfterKeepsInvariant(hs, layout, Abs(), PoolOp.Intern(name));
      ip := shards[shardIdx].Intern(d, placeHash);
      assert Abs() == AfterIntern(hs, layout, old(Abs()), name);
    }

    method Lookback(ip: u32) returns (r: Option<Domain>)
      requires Valid()
      modifies shards
      ensures Valid()
      ensures Abs() == AfterLookback(layout, old(Abs()), ip)
      ensures r == NameOf(layout, old(Abs()), ip)
    {
      hide LookedBack, Owner, Invariant, Layout.Valid, Layout.SliceOf, Route, Stored, Linked;
      ghost var st := Abs();
      RouteSteps(layout, ip);
      if ip < layout.lo {
        return None;
      }
      var idx := (ip - layout.lo) / layout.span;
      if idx >= |shards| {
        return None;
      }
      AfterKeepsInvariant(hs, layout, st, PoolOp.Lookback(ip));
      r := shards[idx].Lookback(ip);
      assert Abs() == AfterLookback(layout, st, ip);
    }

    /** One call of another task. */
    method Perform(op: PoolOp)
      requires Valid()
      modifies shards
      ensures Valid() && Abs() == After(hs, layout, old(Abs()), op)
    {
      match op
      case Intern(name) => var _ := Intern(name);
      case Lookback(ip) => var _ := Lookback(ip);
    }

    method Others(ops: seq<PoolOp>)
      requires Valid()
      modifies shards
      ensures Valid() && Abs() == Ran(hs, layout, old(Abs()), ops)
    {
      hide After, Invariant;
      RanNothing(hs, layout, Abs());
      for i := 0 to |ops|
        invariant Valid() && Abs() == Ran(hs, layout, old(Abs()), ops[..i])
      {
        assert ops[..i + 1][..i] == ops[..i];
        Perform(ops[i]);
      }
      assert ops[..|ops|] == ops;
    }

    /** `len`: adds up the counters, one shard locked at a time; before the lock of shard s other tasks do env(s). The
        sum lies between the live entries at the start and at the end. */
    method Len(env: nat -> seq<PoolOp>) returns (n: nat, ghost history: seq<PoolOp>)
      requires Valid()
      modifies shards
      ensures Valid() && Abs() == Ran(hs, layout, old(Abs()), history)
      ensures Total(old(Abs())) <= n <= Total(Abs())
      ensures (forall s :: env(s) == []) ==> history == []
    {
      hide WellFormed, Layout.Valid, Layout.SliceOf, Invariant, Stored, Linked, Ran, After, Total, Grown;
      n, history := 0, [];
      ghost var st := Abs();
      RanNothing(hs, layout, st);
      NothingCounted(st);
      for s := 0 to |shards|
        invariant Valid() && Abs() == Ran(hs, layout, st, history) && |st| == |shards|
        invariant Total(st[..s]) <= n <= Total(Abs()[..s]) && Grown(st, Abs())
        invariant (forall i :: env(i) == []) ==> history == []
      {
        ghost var before := Abs();
        Others(env(s));
        RanInParts(hs, layout, st, history, env(s));
        RanGrows(hs, layout, before, env(s));
        history := history + env(s);
        CountOne(st, before, Abs(), s, n);
        shards[s].CountIsLive();
        n := n + shards[s].count;
      }
      assert st[..|shards|] == st && Abs()[..|shards|] == Abs();
    }
  }

  lemma NothingCounted(st: State)
    ensures Total(st[..0]) == 0 && Grown(st, st)
  {
  }

  /** Counting one more shard while all of them grow. */
  lemma CountOne(st: State, before: State, now: State, s: nat, n: nat)
    requires s < |st| && Grown(st, before) && Grown(before, now) && Total(st[..s]) <= n <= Total(before[..s])
    ensures Grown(st, now) && Total(st[..s + 1]) <= n + |now[s]| <= Total(now[..s + 1])
  {
    GrownTotal(before[..s], now[..s]);
    TotalSnoc(st[..s], st[s]);
    TotalSnoc(now[..s], now[s]);
    assert st[..s + 1] == st[..s] + [st[s]] && now[..s + 1] == now[..s] + [now[s]];
  }

  lemma RouteSteps(l: Layout, ip: u32)
    requires l.Valid()
    ensures l.span > 0
    ensures ip < l.lo ==> Route(l, ip) == None
    ensures ip >= l.lo ==>
              && (ip - l.lo) / l.span >= 0
              && Route(l, ip) == if (ip - l.lo) / l.span >= l.nShards then None else Some((ip - l.lo) / l.span)
  {
    if ip >= l.lo {
      DivNonNegative(ip - l.lo, l.span);
    }
  }

  lemma {:induction false} TotalSnoc(st: State, es: seq<Entry>)
    ensures Total(st + [es]) == Total(st) + |es|
  {
    if st == [] {
      assert st + [es] == [es];
      assert Total([es]) == |es| + Total([]);
    } else {
      TotalSnoc(st[1..], es);
      assert (st + [es])[1..] == st[1..] + [es];
    }
  }
}
