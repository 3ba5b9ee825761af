/** When a name's address depends on nothing but its hash: the restart-stability claim of pool.rs, with the exact
    condition under which it holds. */
module Placement {
  import opened MachineInts
  import opened Wrappers
  import opened Hashing
  import opened RecencyList
  import opened PoolLayout
  import opened PoolState

  /** The address a name gets when nothing stands in its way. */
  function IdealAddress(hs: Hashes, l: Layout, d: Domain): u32
    requires l.Valid()
  {
    var sl := l.SliceOf(ShardOf(hs, l, d));
    sl.lo + FastRange(PlaceHash(hs, d), sl.usable)
  }

  ghost predicate Within(names: set<Domain>, ops: seq<PoolOp>) {
    forall i :: 0 <= i < |ops| && ops[i].Intern? ==> LowerAll(ops[i].name) in names
  }

  /** Whatever two pools of one layout were asked before, within these names, in whatever order, with repeats,
      re-spellings and reverse look-ups in between: both give each of the names the same address. */
  ghost predicate OrderIndependent(hs: Hashes, l: Layout, names: set<Domain>)
    requires l.Valid()
  {
    forall ops, ops', name :: Within(names, ops) && Within(names, ops') && LowerAll(name) in names ==>
      AddressOf(hs, l, Run(hs, l, ops), name) == AddressOf(hs, l, Run(hs, l, ops'), name)
  }

  /** And that address is the ideal one. */
  ghost predicate AlwaysIdeal(hs: Hashes, l: Layout, names: set<Domain>)
    requires l.Valid()
  {
    forall ops, name :: Within(names, ops) && LowerAll(name) in names ==>
      AddressOf(hs, l, Run(hs, l, ops), name) == IdealAddress(hs, l, LowerAll(name))
  }

  /** A fresh pool gives every name its ideal address. */
  lemma FreshIsIdeal(hs: Hashes, l: Layout, name: Domain)
    requires l.Valid()
    ensures Run(hs, l, []) == Empty(l)
    ensures AddressOf(hs, l, Run(hs, l, []), name) == IdealAddress(hs, l, LowerAll(name))
  {
    var d := LowerAll(name);
    var sl := l.SliceOf(ShardOf(hs, l, d));
    assert Addresses(MakeRoom(sl, [])) == {};
    IdealSlotWins(hs, sl, {}, PlaceHash(hs, d));
  }

  /** If the addresses agree between any two pools, they are the ideal ones. */
  lemma IndependentMeansIdeal(hs: Hashes, l: Layout, names: set<Domain>)
    requires l.Valid()
    ensures OrderIndependent(hs, l, names) <==> AlwaysIdeal(hs, l, names)
  {
    hide AddressOf, IdealAddress;
    if OrderIndependent(hs, l, names) {
      forall ops, name | Within(names, ops) && LowerAll(name) in names
        ensures AddressOf(hs, l, Run(hs, l, ops), name) == IdealAddress(hs, l, LowerAll(name))
      {
        assert Within(names, []);
        FreshIsIdeal(hs, l, name);
      }
    }
  }

  ghost predicate NoCollision(hs: Hashes, l: Layout, names: set<Domain>)
    requires l.Valid()
  {
    forall d, d' :: d in names && d' in names && d != d' ==> IdealAddress(hs, l, d) != IdealAddress(hs, l, d')
  }

  ghost predicate AllIdeal(hs: Hashes, l: Layout, names: set<Domain>, st: State)
    requires l.Valid()
  {
    forall s, k :: 0 <= s < |st| && 0 <= k < |st[s]| ==>
      st[s][k].domain in names && st[s][k].ip == IdealAddress(hs, l, st[s][k].domain)
  }

  /** With no collision, or room for a single entry, the ideal slot of an absent name is free. */
  lemma IdealSlotIsFree(hs: Hashes, l: Layout, names: set<Domain>, st: State, d: Domain)
    requires Invariant(hs, l, st) && AllIdeal(hs, l, names, st) && d in names && LowerAll(d) == d
    requires l.cap == 1 || NoCollision(hs, l, names)
    requires FindDomain(st[ShardOf(hs, l, d)], d).None?
    ensures var s := ShardOf(hs, l, d);
            WellFormed(l.SliceOf(s), st[s]) &&
            IdealAddress(hs, l, d) !in Addresses(MakeRoom(l.SliceOf(s), st[s]))
  {
    var s := ShardOf(hs, l, d);
    var kept := MakeRoom(l.SliceOf(s), st[s]);
    forall k | 0 <= k < |kept| ensures kept[k].ip != IdealAddress(hs, l, d) {
      assert kept[k] == st[s][k];
    }
  }

  lemma InternKeepsIdeal(hs: Hashes, l: Layout, names: set<Domain>, st: State, name: Domain)
    requires Invariant(hs, l, st) && AllIdeal(hs, l, names, st) && LowerAll(name) in names
    requires l.cap == 1 || NoCollision(hs, l, names)
    ensures AllIdeal(hs, l, names, AfterIntern(hs, l, st, name))
    ensures AddressOf(hs, l, st, name) == IdealAddress(hs, l, LowerAll(name))
  {
    var d := LowerAll(name);
    var s := ShardOf(hs, l, d);
    var sl := l.SliceOf(s);
    LowerTwice(name);
    if FindDomain(st[s], d).None? {
      IdealSlotIsFree(hs, l, names, st, d);
      IdealSlotWins(hs, sl, Addresses(MakeRoom(sl, st[s])), PlaceHash(hs, d));
      RoomForOne(hs, sl, st[s], PlaceHash(hs, d));
    }
    InternedNames(hs, sl, st[s], d, PlaceHash(hs, d));
    forall k | 0 <= k < |Interned(hs, sl, st[s], d, PlaceHash(hs, d))|
      ensures var e := Interned(hs, sl, st[s], d, PlaceHash(hs, d))[k];
              e.domain in names && e.ip == IdealAddress(hs, l, e.domain)
    {
    }
  }

  lemma {:induction false} RunKeepsIdeal(hs: Hashes, l: Layout, names: set<Domain>, ops: seq<PoolOp>)
    requires l.Valid() && Within(names, ops)
    requires l.cap == 1 || NoCollision(hs, l, names)
    ensures AllIdeal(hs, l, names, Run(hs, l, ops))
  {
    if ops != [] {
      var before, op := ops[..|ops| - 1], ops[|ops| - 1];
      RunKeepsIdeal(hs, l, names, before);
      var st := Run(hs, l, before);
      match op
      case Intern(name) => InternKeepsIdeal(hs, l, names, st, name);
      case Lookback(ip) =>
        match Route(l, ip) {
          case Some(s) => LookedBackNames(st[s], ip);
          case None =>
        }
    }
  }

  /** Two names that share an ideal address: the first keeps it and the second gets another. */
  lemma SecondIsDisplaced(hs: Hashes, l: Layout, d: Domain, d': Domain)
    requires l.Valid() && l.cap >= 2 && d != d' && LowerAll(d) == d && LowerAll(d') == d'
    requires IdealAddress(hs, l, d) == IdealAddress(hs, l, d')
    ensures var s, st := ShardOf(hs, l, d), Run(hs, l, [Intern(d)]);
            && ShardOf(hs, l, d') == s && st[s] == [Entry(d, IdealAddress(hs, l, d))]
            && AddressOf(hs, l, st, d') != IdealAddress(hs, l, d')
  {
    var s, s' := ShardOf(hs, l, d), ShardOf(hs, l, d');
    OwningSlice(l, s, IdealAddress(hs, l, d));
    OwningSlice(l, s', IdealAddress(hs, l, d'));
    assert s == s';
    var sl := l.SliceOf(s);
    var ops := [Intern(d)];
    assert ops[..0] == [];
    var st := Run(hs, l, ops);
    FreshIsIdeal(hs, l, d);
    var first := Entry(d, IdealAddress(hs, l, d));
    assert st[s] == [first];
    RoomForOne(hs, sl, st[s], PlaceHash(hs, d'));
    assert MakeRoom(sl, st[s]) == [first] && [first][0].ip in Addresses([first]);
  }

  /** The restart test on two such names: one pool is asked for d and then d', the other the other way round, and they
      disagree on d'. */
  lemma RestartTestFails(hs: Hashes, l: Layout, d: Domain, d': Domain)
    requires l.Valid() && l.cap >= 2 && d != d' && LowerAll(d) == d && LowerAll(d') == d'
    requires IdealAddress(hs, l, d) == IdealAddress(hs, l, d')
    ensures AddressOf(hs, l, Run(hs, l, [Intern(d)]), d') !=
            AddressOf(hs, l, Run(hs, l, [Intern(d'), Intern(d)]), d')
  {
    hide AddressOf, IdealAddress;
    SecondIsDisplaced(hs, l, d, d');
    SecondIsDisplaced(hs, l, d', d);
    FirstIsKept(hs, l, d', d);
  }

  lemma FirstIsKept(hs: Hashes, l: Layout, d: Domain, d': Domain)
    requires l.Valid() && l.cap >= 2 && d != d' && LowerAll(d) == d && LowerAll(d') == d'
    requires IdealAddress(hs, l, d) == IdealAddress(hs, l, d')
    ensures AddressOf(hs, l, Run(hs, l, [Intern(d), Intern(d')]), d) == IdealAddress(hs, l, d)
  {
    SecondIsDisplaced(hs, l, d, d');
    var s, ops := ShardOf(hs, l, d), [Intern(d), Intern(d')];
    assert ops[..1] == [Intern(d)];
    var st, st' := Run(hs, l, [Intern(d)]), Run(hs, l, ops);
    RoomForOne(hs, l.SliceOf(s), st[s], PlaceHash(hs, d'));
    assert st'[s][1] == st[s][0];
    LiveKeepsAddress(hs, l, st', s, 1, d);
  }

  lemma {:induction false} CollisionBreaksOrder(hs: Hashes, l: Layout, names: set<Domain>, d: Domain, d': Domain)
    requires l.Valid() && l.cap >= 2 && d in names && d' in names && d != d'
    requires LowerAll(d) == d && LowerAll(d') == d' && IdealAddress(hs, l, d) == IdealAddress(hs, l, d')
    ensures !OrderIndependent(hs, l, names)
  {
    hide AddressOf, IdealAddress, Run;
    SecondIsDisplaced(hs, l, d, d');
    assert Within(names, [Intern(d)]);
    IndependentMeansIdeal(hs, l, names);
  }

  /** A set of lower-cased names gets order-independent addresses exactly when no two of them share an ideal
      address, or shards hold one entry only. */
  lemma OrderIndependenceExactly(hs: Hashes, l: Layout, names: set<Domain>)
    requires l.Valid() && forall d :: d in names ==> LowerAll(d) == d
    ensures OrderIndependent(hs, l, names) <==> (l.cap == 1 || NoCollision(hs, l, names))
  {
    IndependentMeansIdeal(hs, l, names);
    if l.cap == 1 || NoCollision(hs, l, names) {
      forall ops, name | Within(names, ops) && LowerAll(name) in names
        ensures AddressOf(hs, l, Run(hs, l, ops), name) == IdealAddress(hs, l, LowerAll(name))
      {
        RunKeepsIdeal(hs, l, names, ops);
        InternKeepsIdeal(hs, l, names, Run(hs, l, ops), name);
      }
    } else {
      var d, d' :| d in names && d' in names && d != d' && IdealAddress(hs, l, d) == IdealAddress(hs, l, d');
      CollisionBreaksOrder(hs, l, names, d, d');
    }
  }

  // ---------------------------------------------------------------- names that always collide

  /** Every ideal address lies in the pool's block. */
  lemma IdealInBlock(hs: Hashes, l: Layout, d: Domain)
    requires l.Valid()
    ensures l.lo <= IdealAddress(hs, l, d) < l.lo + l.nShards * l.span
  {
    SliceFits(l, ShardOf(hs, l, d));
  }

  lemma {:induction false} IdealAddresses(hs: Hashes, l: Layout, names: set<Domain>) returns (ips: set<nat>)
    requires l.Valid() && NoCollision(hs, l, names)
    ensures |ips| == |names| && forall ip :: ip in ips <==> exists d :: d in names && ip == IdealAddress(hs, l, d)
    decreases |names|
  {
    hide IdealAddress;
    ips := {};
    if names != {} {
      var d :| d in names;
      var rest := IdealAddresses(hs, l, names - {d});
      ips := rest + {IdealAddress(hs, l, d)};
    }
  }

  /** Whatever the hash: more names than the block has addresses are never placed independently of their order. */
  lemma TooManyNames(hs: Hashes, l: Layout, names: set<Domain>)
    requires l.Valid() && l.cap >= 2 && (forall d :: d in names ==> LowerAll(d) == d)
    requires |names| > l.nShards * l.span
    ensures !OrderIndependent(hs, l, names)
  {
    hide OrderIndependent, IdealAddress;
    OrderIndependenceExactly(hs, l, names);
    if NoCollision(hs, l, names) {
      var ips := IdealAddresses(hs, l, names);
      SliceFits(l, 0);
      var block := Interval(l.lo, l.nShards * l.span);
      forall ip | ip in ips ensures ip in block {
        var d :| d in names && ip == IdealAddress(hs, l, d);
        IdealInBlock(hs, l, d);
      }
      SubsetSize(ips, block);
    }
  }

  /** Such names exist: a, aa, aaa and so on. */
  lemma {:induction false} ManyNames(n: nat) returns (names: set<Domain>)
    ensures |names| == n
    ensures forall d :: d in names ==> LowerAll(d) == d && 1 <= |d| <= n
  {
    names := {};
    if n > 0 {
      names := ManyNames(n - 1);
      var d := seq(n, _ => 97);
      assert LowerAll(d) == d;
      names := names + {d};
    }
  }

  /** So for every hash and every layout with room for two there are two names on which the restart test fails. */
  lemma SomeNamesDependOnOrder(hs: Hashes, l: Layout) returns (d: Domain, d': Domain)
    requires l.Valid() && l.cap >= 2
    ensures d != d' && LowerAll(d) == d && LowerAll(d') == d'
    ensures AddressOf(hs, l, Run(hs, l, [Intern(d)]), d') !=
            AddressOf(hs, l, Run(hs, l, [Intern(d'), Intern(d)]), d')
  {
    hide OrderIndependent, AddressOf, IdealAddress, Run;
    SliceFits(l, 0);
    var names := ManyNames(l.nShards * l.span + 1);
    TooManyNames(hs, l, names);
    OrderIndependenceExactly(hs, l, names);
    d, d' :| d in names && d' in names && d != d' && IdealAddress(hs, l, d) == IdealAddress(hs, l, d');
    RestartTestFails(hs, l, d, d');
  }

  function Share(hs: Hashes, l: Layout, names: set<Domain>, s: nat): set<Domain>
    requires l.Valid()
  {
    set d | d in names && ShardOf(hs, l, d) == s
  }

  ghost predicate AllNamed(names: set<Domain>, st: State) {
    forall s, k :: 0 <= s < |st| && 0 <= k < |st[s]| ==> st[s][k].domain in names
  }

  lemma {:induction false} RunKeepsNamed(hs: Hashes, l: Layout, names: set<Domain>, ops: seq<PoolOp>)
    requires l.Valid() && Within(names, ops)
    ensures AllNamed(names, Run(hs, l, ops))
  {
    if ops != [] {
      var before, op := ops[..|ops| - 1], ops[|ops| - 1];
      RunKeepsNamed(hs, l, names, before);
      var st := Run(hs, l, before);
      match op
      case Intern(name) =>
        var d := LowerAll(name);
        var s := ShardOf(hs, l, d);
        InternedNames(hs, l.SliceOf(s), st[s], d, PlaceHash(hs, d));
      case Lookback(ip) =>
        match Route(l, ip) {
          case Some(s) => LookedBackNames(st[s], ip);
          case None =>
        }
    }
  }

  lemma DistinctCount(es: seq<Entry>) returns (ds: set<Domain>)
    requires Distinct(es)
    ensures ds == (set i | 0 <= i < |es| :: es[i].domain) && |ds| == |es|
  {
    ds := {};
    var n := 0;
    while n < |es|
      invariant n <= |es|
      invariant ds == set i | 0 <= i < n :: es[i].domain
      invariant |ds| == n
    {
      ds := ds + {es[n].domain};
      n := n + 1;
    }
  }

  /** When every shard's share of the names fits its capacity, nothing is ever evicted: whatever is live stays live
      with its address through any further operation on those names. */
  lemma NothingIsEvicted(hs: Hashes, l: Layout, names: set<Domain>, ops: seq<PoolOp>, op: PoolOp, s: nat, k: nat)
    requires l.Valid() && Within(names, ops + [op])
    requires forall t :: 0 <= t < l.nShards ==> |Share(hs, l, names, t)| <= l.cap
    requires s < l.nShards && k < |Run(hs, l, ops)[s]|
    ensures Run(hs, l, ops)[s][k] in Run(hs, l, ops + [op])[s]
  {
    var st := Run(hs, l, ops);
    assert (ops + [op])[..|ops|] == ops;
    assert Within(names, ops) && (op.Intern? ==> LowerAll((ops + [op])[|ops|].name) in names);
    RunKeepsNamed(hs, l, names, ops);
    OnlyTheTailLeaves(hs, l, st, op, s, k);
    if st[s][k] !in After(hs, l, st, op)[s] {
      var d := LowerAll(op.name);
      var sl := l.SliceOf(s);
      assert WellFormed(sl, st[s]);
      if FindDomain(st[s], d).Some? {
        InternedLive(hs, sl, st[s], d, PlaceHash(hs, d), k);
        assert false;
      }
      var ds := DistinctCount(st[s]);
      forall x | x in ds + {d} ensures x in Share(hs, l, names, s) {
        LowerTwice(op.name);
        if x in ds {
          var i :| 0 <= i < |st[s]| && st[s][i].domain == x;
          assert BelongsTo(hs, l, st[s][i].domain, s);
        }
      }
      SubsetSize(ds + {d}, Share(hs, l, names, s));
      assert false;
    }
  }

  lemma InternedLive(hs: Hashes, sl: Slice, es: seq<Entry>, d: Domain, h: bv64, k: nat)
    requires WellFormed(sl, es) && k < |es| && FindDomain(es, d).Some?
    ensures es[k] in Interned(hs, sl, es, d, h)
  {
    ToFrontKeeps(es, FindDomain(es, d).value, k);
  }
}
