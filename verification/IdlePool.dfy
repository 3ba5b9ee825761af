/** The pool of idle upstream connections (pool.rs of sb-outbound): what its queue keeps whatever the tasks sharing it
    do, what `acquire` hands out, and how one refill round ends. */
module IdlePool {
  import opened MachineInts
  import opened Wrappers

  /** A connection, by its identity. */
  type Stream = nat

  datatype Idle = Idle(stream: Stream, putAt: nat)

  datatype Config = Config(min: nat, max: nat, idleTimeout: nat)

  /** `now.duration_since(put_at) >= idle_timeout`; the difference is never negative. */
  predicate Stale(e: Idle, now: nat, timeout: nat) {
    (if now >= e.putAt then now - e.putAt else 0) >= timeout
  }

  /** Drops entries off the front while they are stale. */
  function DropStale(q: seq<Idle>, now: nat, timeout: nat): (r: seq<Idle>)
    ensures |r| <= |q|
  {
    if q != [] && Stale(q[0], now, timeout) then DropStale(q[1..], now, timeout) else q
  }

  /** Whether there is a stale entry to drop. */
  predicate Drops(q: seq<Idle>, now: nat, timeout: nat) {
    |DropStale(q, now, timeout)| < |q|
  }

  /** There is exactly if the first entry was put in the timeout or longer ago. */
  lemma DropsExactly(q: seq<Idle>, now: nat, timeout: nat)
    requires q != [] ==> q[0].putAt <= now
    ensures Drops(q, now, timeout) <==> q != [] && now >= q[0].putAt + timeout
  {
  }

  lemma {:induction false} DropStaleIsSuffix(q: seq<Idle>, now: nat, timeout: nat)
    ensures var r := DropStale(q, now, timeout);
            r == q[|q| - |r|..] && (r != [] ==> !Stale(r[0], now, timeout))
  {
    hide Stale;
    if q != [] && Stale(q[0], now, timeout) {
      DropStaleIsSuffix(q[1..], now, timeout);
    }
  }

  /** All entries that are not stale. */
  function Fresh(q: seq<Idle>, now: nat, timeout: nat): seq<Idle> {
    if q == [] then []
    else (if Stale(q[0], now, timeout) then [] else [q[0]]) + Fresh(q[1..], now, timeout)
  }

  // ---------------------------------------------------------------- the queue under any interleaving

  /** The queue, the time, and every configuration so far, the current one last. */
  datatype World = World(idle: seq<Idle>, clock: nat, seen: seq<Config>)

  /** What happens to the queue in one piece: the sections that hold its lock, time passing, a new configuration.
      A section may work with a configuration and a time that were read earlier. */
  datatype Event =
    | Tick(elapsed: nat)
    | Resize(cfg: Config)
    | Flush
    | Release(stream: Stream, cfg: Config)
    | Evict(now: nat, timeout: nat)
    | Take(now: nat, timeout: nat)

  predicate Possible(w: World, e: Event) {
    match e
    case Release(_, cfg) => cfg in w.seen
    case Evict(now, _) => now <= w.clock
    case Take(now, _) => now <= w.clock
    case _ => true
  }

  function Apply(w: World, e: Event): World {
    match e
    case Tick(elapsed) => w.(clock := w.clock + elapsed)
    case Resize(cfg) => w.(seen := w.seen + [cfg])
    case Flush => w.(idle := [])
    case Release(s, cfg) => if |w.idle| >= cfg.max then w else w.(idle := w.idle + [Idle(s, w.clock)])
    case Evict(now, timeout) => w.(idle := DropStale(w.idle, now, timeout))
    case Take(now, timeout) =>
      var q := DropStale(w.idle, now, timeout);
      w.(idle := if q == [] then [] else q[1..])
  }

  /** The entry an event hands out. */
  function Taken(w: World, e: Event): seq<Idle> {
    if e.Take? then DropStale(w.idle, e.now, e.timeout)[..Min(1, |DropStale(w.idle, e.now, e.timeout)|)] else []
  }

  predicate AllPossible(w: World, es: seq<Event>)
    decreases |es|
  {
    es == [] || (Possible(w, es[0]) && AllPossible(Apply(w, es[0]), es[1..]))
  }

  function Run(w: World, es: seq<Event>): World
    decreases |es|
  {
    if es == [] then w else Run(Apply(w, es[0]), es[1..])
  }

  function Start(cfg: Config, now: nat): World {
    World([], now, [cfg])
  }

  predicate Sorted(q: seq<Idle>) {
    forall i, j :: 0 <= i < j < |q| ==> q[i].putAt <= q[j].putAt
  }

  /** The queue is in order of arrival, and no longer than some configured maximum. */
  ghost predicate Invariant(w: World) {
    && Sorted(w.idle)
    && (forall i :: 0 <= i < |w.idle| ==> w.idle[i].putAt <= w.clock)
    && w.seen != []
    && (exists i :: 0 <= i < |w.seen| && |w.idle| <= w.seen[i].max)
  }

  lemma StartKept(cfg: Config, now: nat)
    ensures Invariant(Start(cfg, now))
  {
    assert |Start(cfg, now).idle| <= Start(cfg, now).seen[0].max;
  }

  lemma SuffixKeeps(w: World, q: seq<Idle>)
    requires Invariant(w) && |q| <= |w.idle| && q == w.idle[|w.idle| - |q|..]
    ensures Invariant(w.(idle := q))
  {
    var k := |w.idle| - |q|;
    assert forall i :: 0 <= i < |q| ==> q[i] == w.idle[k + i];
    var i :| 0 <= i < |w.seen| && |w.idle| <= w.seen[i].max;
    assert |q| <= w.(idle := q).seen[i].max;
  }

  lemma DroppingKeeps(w: World, now: nat, timeout: nat)
    requires Invariant(w)
    ensures Invariant(Apply(w, Evict(now, timeout))) && Invariant(Apply(w, Take(now, timeout)))
  {
    hide Invariant, DropStale;
    var q := DropStale(w.idle, now, timeout);
    DropStaleIsSuffix(w.idle, now, timeout);
    SuffixKeeps(w, q);
    if q != [] {
      assert q[1..] == w.idle[|w.idle| - |q[1..]|..];
      SuffixKeeps(w, q[1..]);
    }
  }

  lemma ApplyKeeps(w: World, e: Event)
    requires Invariant(w) && Possible(w, e)
    ensures Invariant(Apply(w, e))
  {
    hide DropStale;
    var w' := Apply(w, e);
    var i :| 0 <= i < |w.seen| && |w.idle| <= w.seen[i].max;
    match e
    case Tick(_) => assert |w'.idle| <= w'.seen[i].max;
    case Resize(_) => assert |w'.idle| <= w'.seen[i].max;
    case Flush => assert |w'.idle| <= w'.seen[i].max;
    case Release(_, cfg) =>
      var k :| 0 <= k < |w.seen| && w.seen[k] == cfg;
      assert |w'.idle| <= w'.seen[if |w.idle| >= cfg.max then i else k].max;
    case Evict(now, timeout) => DroppingKeeps(w, now, timeout);
    case Take(now, timeout) => DroppingKeeps(w, now, timeout);
  }

  lemma {:induction false} RunKeeps(w: World, es: seq<Event>)
    requires Invariant(w) && AllPossible(w, es)
    ensures Invariant(Run(w, es))
    decreases |es|
  {
    if es != [] {
      ApplyKeeps(w, es[0]);
      RunKeeps(Apply(w, es[0]), es[1..]);
    }
  }

  lemma SortedParts(q: seq<Idle>, now: nat, timeout: nat)
    requires Sorted(q) && q != []
    ensures Sorted(q[1..])
    ensures !Stale(q[0], now, timeout) ==> forall i :: 0 <= i < |q| ==> !Stale(q[i], now, timeout)
  {
    forall i | 0 <= i < |q| && !Stale(q[0], now, timeout) ensures !Stale(q[i], now, timeout) {
      assert i > 0 ==> q[0].putAt <= q[i].putAt;
    }
  }

  /** In a queue in order of arrival, the stale entries are exactly a prefix. */
  lemma {:induction false} DroppingIsFiltering(q: seq<Idle>, now: nat, timeout: nat)
    requires Sorted(q)
    ensures DropStale(q, now, timeout) == Fresh(q, now, timeout)
  {
    hide Sorted, Stale;
    if q != [] {
      SortedParts(q, now, timeout);
      if Stale(q[0], now, timeout) {
        DroppingIsFiltering(q[1..], now, timeout);
        assert [] + Fresh(q[1..], now, timeout) == Fresh(q[1..], now, timeout);
      } else {
        AllFresh(q, now, timeout);
      }
    }
  }

  lemma {:induction false} AllFresh(q: seq<Idle>, now: nat, timeout: nat)
    requires forall i :: 0 <= i < |q| ==> !Stale(q[i], now, timeout)
    ensures Fresh(q, now, timeout) == q
  {
    if q != [] {
      AllFresh(q[1..], now, timeout);
    }
  }

  lemma {:induction false} FreshIsFresh(q: seq<Idle>, now: nat, timeout: nat)
    ensures forall e :: e in Fresh(q, now, timeout) <==> e in q && !Stale(e, now, timeout)
  {
    if q != [] {
      FreshIsFresh(q[1..], now, timeout);
      assert q == [q[0]] + q[1..];
    }
  }

  /** In every state tasks can bring about: the queue is in order of arrival and within some configured maximum, and
      dropping the stale prefix drops every stale entry, so what a taker gets is not stale at its own time, and it is
      the oldest such entry. */
  lemma QueueSafety(cfg: Config, start: nat, es: seq<Event>, now: nat, timeout: nat)
    requires AllPossible(Start(cfg, start), es)
    ensures var w := Run(Start(cfg, start), es);
            && Sorted(w.idle)
            && (exists c :: c in w.seen && |w.idle| <= c.max)
            && (forall e :: e in DropStale(w.idle, now, timeout) <==> e in w.idle && !Stale(e, now, timeout))
            && (Taken(w, Take(now, timeout)) == [] <==> forall e :: e in w.idle ==> Stale(e, now, timeout))
            && (forall e, f :: e in Taken(w, Take(now, timeout)) && f in w.idle && !Stale(f, now, timeout) ==>
                  !Stale(e, now, timeout) && e.putAt <= f.putAt)
  {
    hide Run, AllPossible, DropStale, Fresh, Stale, Invariant, Sorted;
    StartKept(cfg, start);
    RunKeeps(Start(cfg, start), es);
    var w := Run(Start(cfg, start), es);
    InvariantMeans(w);
    DroppingIsFiltering(w.idle, now, timeout);
    FreshIsFresh(w.idle, now, timeout);
    var q := DropStale(w.idle, now, timeout);
    DropStaleIsSuffix(w.idle, now, timeout);
    assert Taken(w, Take(now, timeout)) == if q == [] then [] else [q[0]];
    if q != [] {
      assert q[0] in q;
      forall f | f in q ensures q[0].putAt <= f.putAt {
        SuffixKeeps(w, q);
        FirstIsOldest(q, f);
      }
    }
  }

  lemma FirstIsOldest(q: seq<Idle>, f: Idle)
    requires Sorted(q) && f in q
    ensures q[0].putAt <= f.putAt
  {
  }

  lemma InvariantMeans(w: World)
    requires Invariant(w)
    ensures Sorted(w.idle) && exists c :: c in w.seen && |w.idle| <= c.max
  {
    var i :| 0 <= i < |w.seen| && |w.idle| <= w.seen[i].max;
    assert w.seen[i] in w.seen;
  }

  /** With one configuration throughout, its maximum bounds the queue. */
  lemma {:induction false} ConfigStays(w: World, es: seq<Event>)
    requires forall e :: e in es ==> !e.Resize?
    ensures Run(w, es).seen == w.seen
    decreases |es|
  {
    if es != [] {
      assert es[0] in es && forall e :: e in es[1..] ==> e in es;
      ConfigStays(Apply(w, es[0]), es[1..]);
    }
  }

  lemma FixedConfigBounds(cfg: Config, start: nat, es: seq<Event>)
    requires AllPossible(Start(cfg, start), es) && forall e :: e in es ==> !e.Resize?
    ensures |Run(Start(cfg, start), es).idle| <= cfg.max
  {
    StartKept(cfg, start);
    RunKeeps(Start(cfg, start), es);
    ConfigStays(Start(cfg, start), es);
  }

  // ---------------------------------------------------------------- connections are not handed out twice

  function Streams(q: seq<Idle>): multiset<Stream> {
    if q == [] then multiset{} else multiset{q[0].stream} + Streams(q[1..])
  }

  function Released(es: seq<Event>): multiset<Stream> {
    if es == [] then multiset{}
    else (if es[0].Release? then multiset{es[0].stream} else multiset{}) + Released(es[1..])
  }

  /** Every connection handed out during a run. */
  function HandedOut(w: World, es: seq<Event>): multiset<Stream>
    decreases |es|
  {
    if es == [] then multiset{} else Streams(Taken(w, es[0])) + HandedOut(Apply(w, es[0]), es[1..])
  }

  lemma {:induction false} StreamsConcat(a: seq<Idle>, b: seq<Idle>)
    ensures Streams(a + b) == Streams(a) + Streams(b)
  {
    if a == [] {
      assert a + b == b;
    } else {
      assert (a + b)[1..] == a[1..] + b;
      StreamsConcat(a[1..], b);
    }
  }

  lemma SuffixStreams(q: seq<Idle>, k: nat)
    requires k <= |q|
    ensures Streams(q) == Streams(q[..k]) + Streams(q[k..])
  {
    assert q == q[..k] + q[k..];
    StreamsConcat(q[..k], q[k..]);
  }

  lemma ApplyConserves(w: World, e: Event)
    ensures Streams(Taken(w, e)) + Streams(Apply(w, e).idle) <=
            Streams(w.idle) + (if e.Release? then multiset{e.stream} else multiset{})
  {
    hide DropStale, Streams;
    NoStreams();
    match e
    case Tick(_) =>
    case Resize(_) =>
    case Flush =>
    case Release(s, cfg) =>
      StreamsConcat(w.idle, [Idle(s, w.clock)]);
      OneStream(Idle(s, w.clock));
    case Evict(now, timeout) => EvictConserves(w, now, timeout);
    case Take(now, timeout) => TakeConserves(w, now, timeout);
  }

  lemma OneStream(e: Idle)
    ensures Streams([e]) == multiset{e.stream}
  {
  }

  lemma EvictConserves(w: World, now: nat, timeout: nat)
    ensures Streams(Apply(w, Evict(now, timeout)).idle) <= Streams(w.idle)
  {
    hide DropStale, Streams;
    DropStaleIsSuffix(w.idle, now, timeout);
    SuffixStreams(w.idle, |w.idle| - |DropStale(w.idle, now, timeout)|);
  }

  lemma TakeConserves(w: World, now: nat, timeout: nat)
    ensures var e := Take(now, timeout);
            Streams(Taken(w, e)) + Streams(Apply(w, e).idle) <= Streams(w.idle)
  {
    hide DropStale, Streams;
    var q := DropStale(w.idle, now, timeout);
    DropStaleIsSuffix(w.idle, now, timeout);
    SuffixStreams(w.idle, |w.idle| - |q|);
    SuffixStreams(q, Min(1, |q|));
    assert q == [] ==> q[..0] == q && q[0..] == q;
    assert Streams([]) == multiset{} by { NoStreams(); }
  }

  lemma NoStreams()
    ensures Streams([]) == multiset{}
  {
  }

  lemma Chained(t: multiset<Stream>, i0: multiset<Stream>, i1: multiset<Stream>, i2: multiset<Stream>,
                r: multiset<Stream>, h: multiset<Stream>, more: multiset<Stream>)
    requires t + i1 <= i0 + r && h + i2 <= i1 + more
    ensures t + h + i2 <= i0 + (r + more)
  {
    forall x | x in t + h + i2 ensures (t + h + i2)[x] <= (i0 + (r + more))[x] {
      assert (t + i1)[x] <= (i0 + r)[x] && (h + i2)[x] <= (i1 + more)[x];
    }
  }

  /** A connection is handed out, over any run, at most as often as it was put in. */
  lemma {:induction false} HandedOutOnce(w: World, es: seq<Event>)
    ensures HandedOut(w, es) + Streams(Run(w, es).idle) <= Streams(w.idle) + Released(es)
    decreases |es|
  {
    hide Apply, Taken, Streams;
    if es != [] {
      var w' := Apply(w, es[0]);
      ApplyConserves(w, es[0]);
      HandedOutOnce(w', es[1..]);
      Chained(Streams(Taken(w, es[0])), Streams(w.idle), Streams(w'.idle), Streams(Run(w, es).idle),
              if es[0].Release? then multiset{es[0].stream} else multiset{}, HandedOut(w', es[1..]), Released(es[1..]));
    }
  }

  /** A connection released into an empty queue with room is handed out to whoever asks before its timeout has passed,
      and to nobody later. */
  lemma ReleasedIsHandedOut(w: World, s: Stream, cfg: Config, elapsed: nat, timeout: nat)
    requires w.idle == [] && cfg.max > 0
    ensures var w' := Run(w, [Release(s, cfg), Tick(elapsed)]);
            && w'.idle == [Idle(s, w.clock)] && w'.clock == w.clock + elapsed
            && Taken(w', Take(w'.clock, timeout)) == (if elapsed < timeout then [Idle(s, w.clock)] else [])
            && Apply(w', Take(w'.clock, timeout)).idle == []
            && Apply(w', Evict(w'.clock, timeout)).idle == if elapsed < timeout then [Idle(s, w.clock)] else []
  {
    var es := [Release(s, cfg), Tick(elapsed)];
    assert es[1..] == [Tick(elapsed)] && es[1..][1..] == [];
    var w1 := Apply(w, es[0]);
    assert w1.idle == [Idle(s, w.clock)];
    assert Run(w1, es[1..]) == Run(Apply(w1, Tick(elapsed)), []);
    var q := [Idle(s, w.clock)];
    assert q[1..] == [];
    assert q[..1] == q;
  }

  /** A full queue takes nothing more, and one with room takes it behind the others. */
  lemma ReleaseExactly(w: World, s: Stream, cfg: Config)
    ensures Apply(w, Release(s, cfg)).idle ==
            if |w.idle| < cfg.max then w.idle + [Idle(s, w.clock)] else w.idle
  {
  }

  /** What the i-th event of a run hands out. */
  function TakenAt(w: World, es: seq<Event>, i: nat): seq<Idle>
    requires i < |es|
  {
    Taken(Run(w, es[..i]), es[i])
  }

  lemma {:induction false} HandedOutInParts(w: World, a: seq<Event>, b: seq<Event>)
    ensures Run(w, a + b) == Run(Run(w, a), b)
    ensures HandedOut(w, a + b) == HandedOut(w, a) + HandedOut(Run(w, a), b)
    decreases |a|
  {
    hide Apply, Taken, Streams;
    if a == [] {
      assert a + b == b;
    } else {
      assert (a + b)[0] == a[0] && (a + b)[1..] == a[1..] + b;
      HandedOutInParts(Apply(w, a[0]), a[1..], b);
    }
  }

  lemma HandedOutAt(w: World, es: seq<Event>, i: nat)
    requires i < |es|
    ensures HandedOut(w, es) ==
            HandedOut(w, es[..i]) + Streams(TakenAt(w, es, i)) + HandedOut(Run(w, es[..i + 1]), es[i + 1..])
  {
    hide Apply, Taken, Streams;
    assert es == es[..i] + es[i..] && es[i..][0] == es[i] && es[i..][1..] == es[i + 1..];
    assert es[..i + 1] == es[..i] + [es[i]];
    HandedOutInParts(w, es[..i], es[i..]);
    HandedOutInParts(w, es[..i], [es[i]]);
    OneEvent(Run(w, es[..i]), es[i]);
  }

  /** If two sections of a run take the same connection, it was put in twice. */
  lemma TakenOnce(cfg: Config, start: nat, es: seq<Event>, i: nat, j: nat, a: Idle, b: Idle)
    requires i < j < |es| && a.stream == b.stream
    requires TakenAt(Start(cfg, start), es, i) == [a] && TakenAt(Start(cfg, start), es, j) == [b]
    ensures Released(es)[a.stream] >= 2
  {
    hide Apply, Taken, Streams, HandedOut, Released;
    var w := Start(cfg, start);
    HandedOutAt(w, es, j);
    HandedOutAt(w, es[..j], i);
    assert es[..j][..i] == es[..i];
    OneStream(a);
    OneStream(b);
    HandedOutOnce(w, es);
    NoStreams();
    assert HandedOut(w, es)[a.stream] >= 2;
    assert (HandedOut(w, es) + Streams(Run(w, es).idle))[a.stream] <= (Streams(w.idle) + Released(es))[a.stream];
  }

  // ---------------------------------------------------------------- the pool

  const MAX_CONSECUTIVE_FAIL: nat := 3
  const WARM_PARALLEL: nat := 8

  datatype Acquired = Pooled(entry: Idle) | Dialled(s: Stream) | DialFailed

  class SocksPool {
    var idle: seq<Idle>
    var clock: nat
    var coldPending: u64
    /** Every configuration stored so far, the current one last; a task may still hold an earlier one. */
    var seen: seq<Config>

    function State(): World
      reads this
    {
      World(idle, clock, seen)
    }

    ghost predicate Valid()
      reads this
    {
      Invariant(State())
    }

    function Cfg(): Config
      requires Valid()
      reads this
    {
      seen[|seen| - 1]
    }

    constructor (cfg: Config, now: nat)
      ensures Valid() && State() == Start(cfg, now) && coldPending == 0
    {
      idle, clock, coldPending := [], now, 0;
      seen := [cfg];
      new;
      StartKept(cfg, now);
    }

    /** The loop that drops stale entries, at a time and with a timeout read before. */
    method DropStaleFront(now: nat, timeout: nat) returns (dropped: bool)
      modifies this`idle
      ensures idle == DropStale(old(idle), now, timeout) && dropped == Drops(old(idle), now, timeout)
    {
      dropped := false;
      while idle != [] && Stale(idle[0], now, timeout)
        invariant DropStale(idle, now, timeout) == DropStale(old(idle), now, timeout)
        invariant |idle| <= |old(idle)| && dropped == (|idle| < |old(idle)|)
      {
        idle := idle[1..];
        dropped := true;
      }
    }

    ghost function Unstale(): seq<Idle>
      requires Valid()
      reads this
    {
      DropStale(idle, clock, Cfg().idleTimeout)
    }

    /** `evict_stale` */
    method EvictStale()
      requires Valid()
      modifies this`idle
      ensures Valid() && State() == Apply(old(State()), Evict(clock, Cfg().idleTimeout)) && idle == old(Unstale())
    {
      hide DropStale;
      ApplyKeeps(State(), Evict(clock, Cfg().idleTimeout));
      var _ := DropStaleFront(clock, Cfg().idleTimeout);
    }

    /** `release_clean`, with the configuration it read. */
    method ReleaseClean(stream: Stream, cfg: Config)
      requires Valid() && cfg in seen
      modifies this`idle
      ensures Valid() && State() == Apply(old(State()), Release(stream, cfg))
    {
      ApplyKeeps(State(), Release(stream, cfg));
      if |idle| >= cfg.max {
        return;
      }
      idle := idle + [Idle(stream, clock)];
    }

    /** `flush_idle`; it always notifies the refill task. */
    method FlushIdle() returns (n: nat, wakes: bool)
      requires Valid()
      modifies this`idle
      ensures Valid() && State() == Apply(old(State()), Flush) && n == |old(idle)| && idle == [] && wakes
    {
      ApplyKeeps(State(), Flush);
      n := |idle|;
      idle := [];
      wakes := true;
    }

    /** The section of `acquire` that holds the lock. */
    method TakeFront(now: nat, timeout: nat) returns (cand: Option<Idle>, left: nat, dropped: bool)
      requires Valid() && now <= clock
      modifies this`idle
      ensures Valid() && State() == Apply(old(State()), Take(now, timeout)) && left == |idle|
      ensures Taken(old(State()), Take(now, timeout)) == if cand.Some? then [cand.value] else []
      ensures |idle| <= |old(idle)| && (cand.Some? ==> |idle| < |old(idle)|)
      ensures dropped == Drops(old(idle), now, timeout)
    {
      hide DropStale, Apply, Taken, Drops;
      ApplyKeeps(State(), Take(now, timeout));
      TakeMeans(State(), now, timeout);
      dropped := DropStaleFront(now, timeout);
      if idle == [] {
        cand := None;
      } else {
        cand := Some(idle[0]);
        idle := idle[1..];
      }
      left := |idle|;
    }

    /** One event of another task. */
    method Perform(e: Event)
      requires Valid() && Possible(State(), e)
      modifies this`idle, this`clock, this`seen
      ensures Valid() && State() == Apply(old(State()), e)
    {
      hide Invariant, DropStale;
      ApplyKeeps(State(), e);
      match e {
        case Tick(elapsed) => clock := clock + elapsed;
        case Resize(next) => seen := seen + [next];
        case Flush => var _, _ := FlushIdle();
        case Release(s, c) => ReleaseClean(s, c);
        case Evict(now, timeout) => var _ := DropStaleFront(now, timeout);
        case Take(now, timeout) => var _, _, _ := TakeFront(now, timeout);
      }
    }

    /** What other tasks do while this one does not hold the lock. */
    method Others(es: seq<Event>)
      requires Valid() && AllPossible(State(), es)
      modifies this`idle, this`clock, this`seen
      ensures Valid() && State() == Run(old(State()), es) && old(clock) <= clock
    {
      hide Invariant, Apply, Possible;
      var i := 0;
      assert es[0..] == es;
      while i < |es|
        invariant 0 <= i <= |es| && Valid() && old(clock) <= clock
        invariant AllPossible(State(), es[i..]) && Run(State(), es[i..]) == Run(old(State()), es)
      {
        assert es[i..][0] == es[i] && es[i..][1..] == es[i + 1..];
        TimeGoesOn(State(), es[i]);
        Perform(es[i]);
        i := i + 1;
      }
    }

    /** One round of `acquire`: the other tasks, then the section that holds the lock. The ghost arguments are the state
        the call began in and all that happened since. */
    method NextCandidate(es: seq<Event>, now: nat, timeout: nat, ghost begun: World, ghost history: seq<Event>)
      returns (cand: Option<Idle>, left: nat, dropped: bool, ghost longer: seq<Event>)
      requires Valid() && now <= clock && AllPossible(State(), es) && Leads(begun, history, State())
      modifies this`idle, this`clock, this`seen
      ensures Valid() && now <= clock && left == |idle| && Leads(begun, longer, State())
      ensures cand.Some? ==> !Stale(cand.value, now, timeout)
      ensures TookLast(begun, longer, now, timeout, cand) && history < longer
      ensures dropped == DroppedAt(begun, longer, |longer| - 1, now, timeout)
      ensures cand.None? ==> idle == []
      ensures es == [] && cand.Some? ==> |idle| < |old(idle)|
    {
      hide Apply, AllPossible, Run, HandedOut, Stale, Taken, SocksPool.Valid;
      RunNothing(State());
      RunFurther(begun, history, es);
      Others(es);
      ghost var take := Take(now, timeout);
      RunOne(begun, history + es, take);
      TakenIsFresh(State(), now, timeout);
      cand, left, dropped := TakeFront(now, timeout);
      longer := history + es + [take];
      assert longer[..|longer| - 1] == history + es;
      TookLastMeans(begun, history + es, now, timeout, cand);
    }

    /** `acquire`. Before its i-th locked section other tasks do env(i, state), from some point on nothing; alive(i)
        is the outcome of its i-th probe, `dial` that of dialling anew. `history` is all that happened to the queue,
        `own` where in that its own locked sections are, `dead` the number of connections thrown away, `wakes` whether
        the refill task was notified. */
    method Acquire(env: (nat, World) -> seq<Event>, quiet: nat, alive: nat -> bool, dial: Option<Stream>)
      returns (r: Acquired, dead: nat, wakes: bool, ghost history: seq<Event>, ghost own: seq<nat>)
      requires Valid()
      requires forall i: nat, w :: AllPossible(w, env(i, w)) && (i >= quiet ==> env(i, w) == [])
      modifies this
      ensures Valid() && Leads(old(State()), history, State())
      ensures TookLast(old(State()), history, old(clock), old(Cfg()).idleTimeout,
                       if r.Pooled? then Some(r.entry) else None)
      ensures r.Pooled? ==> !Stale(r.entry, old(clock), old(Cfg()).idleTimeout) && alive(dead)
      ensures !r.Pooled? ==> idle == [] && r == (if dial.Some? then Dialled(dial.value) else DialFailed)
      ensures forall i :: 0 <= i < dead ==> !alive(i)
      ensures coldPending == if r.Pooled? then old(coldPending) else (old(coldPending) + 1) % TWO_64
      ensures OwnSections(history, own, old(clock), old(Cfg()).idleTimeout) && |own| == dead + 1
      ensures own[dead] == |history| - 1
      ensures wakes <==> dead > 0 || !r.Pooled? || |idle| < old(Cfg()).min
                         || AnyDropped(old(State()), history, own, old(clock), old(Cfg()).idleTimeout)
    {
      hide Apply, AllPossible, Run, HandedOut, Stale, Taken, Leads, TookLast, SocksPool.Valid, OwnSections, DroppedAt,
        AnyDropped;
      var now, cfg := clock, Cfg();
      var section: nat := 0;
      dead, wakes, history, own := 0, false, [], [];
      LeadsNowhere(State());
      NoSections(State(), now, cfg.idleTimeout);
      while true
        invariant Valid() && now <= clock && coldPending == old(coldPending)
        invariant Leads(old(State()), history, State())
        invariant forall i :: 0 <= i < dead ==> !alive(i)
        invariant OwnSections(history, own, now, cfg.idleTimeout) && |own| == dead
        invariant wakes <==> dead > 0 || AnyDropped(old(State()), history, own, now, cfg.idleTimeout)
        decreases if section < quiet then quiet - section else 0, |idle|
      {
        var cand, left, dropped;
        ghost var before := history;
        cand, left, dropped, history :=
          NextCandidate(env(section, State()), now, cfg.idleTimeout, old(State()), history);
        section := section + 1;
        wakes := wakes || dropped;
        own := MoreSections(old(State()), before, history, own, now, cfg.idleTimeout, cand);
        if cand.None? {
          var _ := SwapPending((coldPending + 1) % TWO_64);
          r, wakes := if dial.Some? then Dialled(dial.value) else DialFailed, true;
          return;
        }
        if alive(dead) {
          r, wakes := Pooled(cand.value), wakes || left < cfg.min;
          return;
        }
        dead, wakes := dead + 1, true;
      }
    }

    /** Exchanges the counter of dials that the refill has not yet answered. */
    method SwapPending(value: u64) returns (before: u64)
      requires Valid()
      modifies this`coldPending
      ensures Valid() && coldPending == value && before == old(coldPending)
    {
      before := coldPending;
      coldPending := value;
    }

    /** What becomes of a dial: its connection joins the queue, if it has one and there is room. */
    method Settle(answer: Option<Stream>, wait: nat)
      requires Valid()
      modifies this`idle, this`clock
      ensures Valid() && clock == old(clock) + wait
      ensures idle == if answer.Some? && |old(idle)| < Cfg().max
                      then old(idle) + [Idle(answer.value, clock)] else old(idle)
    {
      ApplyKeeps(State(), Tick(wait));
      clock := clock + wait;
      if answer.Some? {
        ReleaseClean(answer.value, Cfg());
      }
    }

    /** `warm_once` with no other task at work: the i-th dial to be joined ends as joined(i) after wait(i) ticks.
        `failed` counts the failures since the last success, `dials` all dials begun; `lanes` is the largest number of
        them ever in flight, `most` the largest queue length with the dials in flight. */
    method WarmOnce(joined: nat -> Option<Stream>, wait: nat -> nat)
      returns (failed: nat, dials: nat, ghost lanes: nat, ghost most: nat)
      requires Valid()
      modifies this
      ensures Valid() && seen == old(seen)
      ensures |old(Unstale())| >= old(Cfg()).min ==>
                idle == old(Unstale()) && dials == 0 && coldPending == old(coldPending)
      ensures |old(Unstale())| < old(Cfg()).min ==>
                && coldPending == 0
                && Refilled(old(Unstale()), idle, Target(old(Cfg()), old(coldPending)), failed, dials, lanes, most,
                            joined)
    {
      failed, dials, lanes, most := 0, 0, 0, 0;
      hide DropStale, Apply, SocksPool.Valid, Refilled, Target, SocksPool.Unstale, SocksPool.State;
      var cfg := Cfg();
      EvictStale();
      if |idle| >= cfg.min {
        return;
      }
      var pending := SwapPending(0);
      TargetInMax(cfg, pending);
      failed, dials, lanes, most := Refill(cfg, Target(cfg, pending), joined, wait);
    }

    /** The loop of `warm_once`. */
    method Refill(cfg: Config, target: nat, joined: nat -> Option<Stream>, wait: nat -> nat)
      returns (failed: nat, dials: nat, ghost lanes: nat, ghost most: nat)
      requires Valid() && cfg == Cfg() && target <= cfg.max
      modifies this`idle, this`clock
      ensures Valid()
      ensures Refilled(old(idle), idle, target, failed, dials, lanes, most, joined)
    {
      hide SocksPool.Valid, Answers, Filled;
      failed, dials, lanes, most := 0, 0, 0, |idle|;
      var allowed: nat, inFlight: nat, joins: nat := 1, 0, 0;
      FilledNothing(idle, joined);
      while true
        invariant Valid() && Filled(old(idle), idle, joined, joins)
        invariant failed <= joins && forall i :: joins - failed <= i < joins ==> joined(i).None?
        invariant old(idle) <= idle && Bounded(|idle|, inFlight, target, |old(idle)|, most)
        invariant 1 <= allowed <= WARM_PARALLEL && inFlight <= allowed && lanes <= allowed
        invariant dials == joins + inFlight
        invariant (forall i :: joined(i).None?) && |old(idle)| < target ==>
                    Probing(|idle|, |old(idle)|, inFlight, failed, joins, allowed, lanes)
        decreases if |idle| <= target then target - |idle| else 0,
                  if failed <= MAX_CONSECUTIVE_FAIL then MAX_CONSECUTIVE_FAIL - failed else 0, inFlight
      {
        var begun := Spawn(failed, allowed, |idle|, target, inFlight);
        inFlight := inFlight + begun;
        dials := dials + begun;
        lanes := if inFlight > lanes then inFlight else lanes;
        most := if |idle| + inFlight > most then |idle| + inFlight else most;
        if inFlight == 0 {
          return;
        }
        var answer := joined(joins);
        ghost var before := idle;
        Settle(answer, wait(joins));
        FilledMore(old(idle), before, joined, joins, clock, idle);
        joins := joins + 1;
        inFlight := inFlight - 1;
        if answer.Some? {
          failed := 0;
          allowed := WARM_PARALLEL;
        } else {
          failed := failed + 1;
        }
      }
    }
  }

  /** How many connections a refill aims for: the minimum, raised by recent misses up to twice, within the maximum. */
  function Target(cfg: Config, pending: nat): nat {
    Min(cfg.min + Min(pending, cfg.min), cfg.max)
  }

  lemma TargetInMax(cfg: Config, pending: nat)
    ensures Target(cfg, pending) <= cfg.max
    ensures cfg.min <= cfg.max ==> cfg.min <= Target(cfg, pending) <= 2 * cfg.min
  {
  }

  /** Each recent miss raises the aim by one, up to twice the minimum and to the maximum. */
  lemma TargetRises(cfg: Config, pending: nat)
    ensures Target(cfg, 0) == if cfg.min <= cfg.max then cfg.min else cfg.max
    ensures Target(cfg, pending + 1) ==
            Target(cfg, pending) + if pending < cfg.min && Target(cfg, pending) < cfg.max then 1 else 0
  {
  }

  /** The queue is what was there and the connections of the dials joined. */
  ghost predicate Filled(before: seq<Idle>, q: seq<Idle>, joined: nat -> Option<Stream>, n: nat) {
    before <= q && Names(q[|before|..]) == Answers(joined, n)
  }

  lemma FilledMore(before: seq<Idle>, q: seq<Idle>, joined: nat -> Option<Stream>, n: nat, now: nat, q': seq<Idle>)
    requires Filled(before, q, joined, n)
    requires q' == if joined(n).Some? then q + [Idle(joined(n).value, now)] else q
    ensures Filled(before, q', joined, n + 1)
  {
    if joined(n).Some? {
      assert q'[|before|..] == q[|before|..] + [Idle(joined(n).value, now)];
    }
  }

  lemma FilledNothing(q: seq<Idle>, joined: nat -> Option<Stream>)
    ensures Filled(q, q, joined, 0)
  {
  }

  /** The connections among the first n dials joined, in order. */
  function Answers(joined: nat -> Option<Stream>, n: nat): seq<Stream> {
    if n == 0 then []
    else Answers(joined, n - 1) + if joined(n - 1).Some? then [joined(n - 1).value] else []
  }

  function Names(q: seq<Idle>): (s: seq<Stream>)
    ensures |s| == |q| && forall i :: 0 <= i < |q| ==> s[i] == q[i].stream
  {
    seq(|q|, i requires 0 <= i < |q| => q[i].stream)
  }

  /** A refill from `before` to `after`: every connection that was dialled joined the queue, behind what was there and
      in the order of the answers; with the dials in flight it never passed the target; it ended at the target or
      after three failures in a row; and an upstream that never answered was dialled exactly three times, one after
      the other. */
  ghost predicate Refilled(before: seq<Idle>, after: seq<Idle>, target: nat, failed: nat, dials: nat, lanes: nat,
                           most: nat, joined: nat -> Option<Stream>) {
    && Filled(before, after, joined, dials)
    && |after| <= most && (most <= target || most == |before|)
    && (|after| >= target || failed >= 3)
    && failed <= dials && (forall i :: dials - failed <= i < dials ==> joined(i).None?)
    && lanes <= 8
    && ((forall i :: joined(i).None?) && |before| < target ==>
          after == before && dials == 3 && lanes == 1)
  }

  /** Queue and dials in flight stay within the target, or the queue is as it was found. */
  predicate Bounded(length: nat, inFlight: nat, target: nat, before: nat, most: nat) {
    && length + inFlight <= most && (most <= target || most == before)
    && (inFlight > 0 ==> length + inFlight <= target)
    && (length == before || length + inFlight <= target)
  }

  /** While nothing has answered, one dial at a time. */
  predicate Probing(length: nat, before: nat, inFlight: nat, failed: nat, joins: nat, allowed: nat, lanes: nat) {
    && length == before && failed == joins <= MAX_CONSECUTIVE_FAIL && allowed == 1 && inFlight == 0
    && lanes == if joins == 0 then 0 else 1
  }

  /** The loop that begins dials. */
  method Spawn(failed: nat, allowed: nat, length: nat, target: nat, inFlight: nat) returns (begun: nat)
    requires inFlight <= allowed && (inFlight > 0 ==> length + inFlight <= target)
    ensures begun == if failed >= MAX_CONSECUTIVE_FAIL || length + inFlight >= target then 0
                     else Min(allowed, target - length) - inFlight
  {
    begun := 0;
    while failed < MAX_CONSECUTIVE_FAIL && inFlight + begun < allowed && length + inFlight + begun < target
      invariant inFlight + begun <= allowed
      invariant begun > 0 ==> failed < MAX_CONSECUTIVE_FAIL && length + inFlight + begun <= target
    {
      begun := begun + 1;
    }
  }

  /** A possible sequence of events from one state to another. */
  ghost predicate Leads(from: World, es: seq<Event>, to: World) {
    AllPossible(from, es) && Run(from, es) == to
  }

  /** The last event is the caller's own locked section, and it took this entry or found none. */
  ghost predicate TookLast(from: World, es: seq<Event>, now: nat, timeout: nat, cand: Option<Idle>) {
    && es != [] && es[|es| - 1] == Take(now, timeout)
    && TakenAt(from, es, |es| - 1) == if cand.Some? then [cand.value] else []
  }

  /** What the section at i found was partly stale, and it dropped that. */
  ghost predicate DroppedAt(from: World, es: seq<Event>, i: nat, now: nat, timeout: nat)
    requires i < |es|
  {
    Drops(Run(from, es[..i]).idle, now, timeout)
  }

  /** Where among the events a call's own locked sections are. */
  ghost predicate OwnSections(es: seq<Event>, own: seq<nat>, now: nat, timeout: nat) {
    && (forall i :: 0 <= i < |own| ==> own[i] < |es| && es[own[i]] == Take(now, timeout))
    && forall i, j :: 0 <= i < j < |own| ==> own[i] < own[j]
  }

  ghost predicate AnyDropped(from: World, es: seq<Event>, own: seq<nat>, now: nat, timeout: nat)
    requires OwnSections(es, own, now, timeout)
  {
    exists i :: 0 <= i < |own| && DroppedAt(from, es, own[i], now, timeout)
  }

  lemma NoSections(from: World, now: nat, timeout: nat)
    ensures OwnSections([], [], now, timeout) && !AnyDropped(from, [], [], now, timeout)
  {
  }

  lemma MoreSections(from: World, es: seq<Event>, longer: seq<Event>, own: seq<nat>, now: nat, timeout: nat,
                     cand: Option<Idle>) returns (more: seq<nat>)
    requires OwnSections(es, own, now, timeout) && es < longer && TookLast(from, longer, now, timeout, cand)
    ensures OwnSections(longer, more, now, timeout) && |more| == |own| + 1 && more[|own|] == |longer| - 1
    ensures AnyDropped(from, longer, more, now, timeout) <==>
            AnyDropped(from, es, own, now, timeout) || DroppedAt(from, longer, |longer| - 1, now, timeout)
  {
    hide Taken, Run, Drops;
    more := own + [|longer| - 1];
    forall i | 0 <= i < |own|
      ensures DroppedAt(from, longer, own[i], now, timeout) == DroppedAt(from, es, own[i], now, timeout)
    {
      assert longer[..own[i]] == es[..own[i]];
    }
    if AnyDropped(from, es, own, now, timeout) {
      var i :| 0 <= i < |own| && DroppedAt(from, es, own[i], now, timeout);
      assert more[i] == own[i];
    }
    assert more[|own|] == |longer| - 1;
  }

  lemma TookLastMeans(from: World, before: seq<Event>, now: nat, timeout: nat, cand: Option<Idle>)
    requires Taken(Run(from, before), Take(now, timeout)) == if cand.Some? then [cand.value] else []
    ensures TookLast(from, before + [Take(now, timeout)], now, timeout, cand)
  {
    hide Taken, Run;
    assert (before + [Take(now, timeout)])[..|before|] == before;
  }

  /** A call of `acquire` within a run of all tasks: the stretch of the run from its first event to its own last
      section, and the entry it returned. Stretches of different calls may overlap. */
  datatype Call = Call(begin: nat, end: nat, now: nat, timeout: nat, entry: Idle)

  /** The contract of `acquire` for that stretch. */
  ghost predicate Returned(w: World, es: seq<Event>, c: Call) {
    && c.begin < c.end <= |es|
    && TookLast(Run(w, es[..c.begin]), es[c.begin..c.end], c.now, c.timeout, Some(c.entry))
  }

  lemma ReturnedIsTaken(w: World, es: seq<Event>, c: Call)
    requires Returned(w, es, c)
    ensures TakenAt(w, es, c.end - 1) == [c.entry]
  {
    hide Taken, Run;
    var before, window := es[..c.begin], es[c.begin..c.end];
    var last := |window| - 1;
    assert window[last] == es[c.end - 1];
    assert before + window[..last] == es[..c.end - 1];
    HandedOutInParts(w, before, window[..last]);
  }

  /** No two calls of `acquire` return the same connection, unless it was put in twice. */
  lemma ReturnedOnce(cfg: Config, start: nat, es: seq<Event>, c: Call, d: Call)
    requires Returned(Start(cfg, start), es, c) && Returned(Start(cfg, start), es, d) && c.end < d.end
    requires c.entry.stream == d.entry.stream
    ensures Released(es)[c.entry.stream] >= 2
  {
    hide TookLast, TakenAt, Released;
    ReturnedIsTaken(Start(cfg, start), es, c);
    ReturnedIsTaken(Start(cfg, start), es, d);
    TakenOnce(cfg, start, es, c.end - 1, d.end - 1, c.entry, d.entry);
  }

  lemma LeadsNowhere(w: World)
    ensures Leads(w, [], w)
  {
  }

  lemma RunNothing(w: World)
    ensures AllPossible(w, []) && Run(w, []) == w
  {
  }

  lemma {:induction false} PossibleInParts(w: World, a: seq<Event>, b: seq<Event>)
    requires AllPossible(w, a) && AllPossible(Run(w, a), b)
    ensures AllPossible(w, a + b)
    decreases |a|
  {
    hide Apply, Taken, Streams, Possible;
    if a == [] {
      assert a + b == b;
    } else {
      assert (a + b)[0] == a[0] && (a + b)[1..] == a[1..] + b;
      PossibleInParts(Apply(w, a[0]), a[1..], b);
    }
  }

  lemma RunFurther(w: World, a: seq<Event>, b: seq<Event>)
    requires AllPossible(w, a) && AllPossible(Run(w, a), b)
    ensures AllPossible(w, a + b) && Run(w, a + b) == Run(Run(w, a), b)
  {
    PossibleInParts(w, a, b);
    HandedOutInParts(w, a, b);
  }

  lemma RunOne(w: World, a: seq<Event>, e: Event)
    requires AllPossible(w, a) && Possible(Run(w, a), e)
    ensures AllPossible(w, a + [e]) && Run(w, a + [e]) == Apply(Run(w, a), e)
  {
    hide Apply, Taken, Streams, Possible;
    OneEvent(Run(w, a), e);
    RunFurther(w, a, [e]);
  }

  lemma OneEvent(w: World, e: Event)
    ensures AllPossible(w, [e]) == Possible(w, e) && Run(w, [e]) == Apply(w, e)
    ensures HandedOut(w, [e]) == Streams(Taken(w, e))
  {
    hide Apply, Taken, Streams, Possible;
    assert [e][1..] == [];
  }

  lemma TakenIsFresh(w: World, now: nat, timeout: nat)
    ensures var q := Taken(w, Take(now, timeout));
            && (q != [] ==> !Stale(q[0], now, timeout) && q[0].stream in Streams(q))
            && (q == [] ==> Apply(w, Take(now, timeout)).idle == [])
  {
    hide Stale, DropStale;
    TakeMeans(w, now, timeout);
    DropStaleIsSuffix(w.idle, now, timeout);
  }

  lemma TakeMeans(w: World, now: nat, timeout: nat)
    ensures var q := DropStale(w.idle, now, timeout);
            && Apply(w, Take(now, timeout)) == w.(idle := if q == [] then [] else q[1..])
            && Taken(w, Take(now, timeout)) == if q == [] then [] else [q[0]]
  {
    hide DropStale;
  }

  lemma TimeGoesOn(w: World, e: Event)
    ensures w.clock <= Apply(w, e).clock
  {
  }
}
