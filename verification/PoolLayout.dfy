/** How a FakeIP pool carves its CIDR block into equal slices (pool.rs, `cidr_geometry` and `new`). */
module PoolLayout {
  import opened MachineInts
  import opened Wrappers
  import opened RecencyList

  const FIRST_OFFSET: u32 := 4
  const MIN_USABLE: u32 := 16
  const MIN_SHARD_USABLE: u32 := 16

  /** An IPv4 network as configured; host bits of `addr` may be set. */
  datatype Net = Net(addr: u32, prefix: nat)

  type Cidr = n: Net | n.prefix <= 32 witness Net(0, 0)

  datatype Config = Config(cidr: Cidr, maxEntries: nat, ttl: u32, shards: u32)

  datatype FakeIpError = CidrTooSmall(prefix: nat, usable: u32, min: u32)

  datatype Layout = Layout(lo: u32, span: u32, nShards: u32, cap: nat, ttl: u32) {
    predicate Valid() {
      && FIRST_OFFSET <= lo
      && 1 <= nShards
      && 1 <= cap <= span
      && lo + nShards * span < TWO_32
    }

    function SliceOf(s: nat): (r: Slice)
      requires Valid() && s < nShards
      ensures r.Valid()
    {
      SliceFits(this, s);
      Slice(lo + s * span, span, cap)
    }
  }

  lemma SliceFits(l: Layout, s: nat)
    requires l.Valid() && s < l.nShards
    ensures 0 <= s * l.span && s * l.span + l.span <= l.nShards * l.span
  {
    MulMonotone(0, s, l.span);
    MulMonotone(s + 1, l.nShards, l.span);
    assert (s + 1) * l.span == s * l.span + l.span;
  }

  function Pow2(k: nat): (r: nat)
    ensures r > 0
  {
    if k == 0 then 1 else 2 * Pow2(k - 1)
  }

  lemma DoubleProduct(x: nat, y: nat)
    ensures 2 * (x * y) == (2 * x) * y
  {
  }

  lemma Pow2Split(a: nat, b: nat)
    ensures Pow2(a + b) == Pow2(a) * Pow2(b)
  {
    if a > 0 {
      Pow2Split(a - 1, b);
      DoubleProduct(Pow2(a - 1), Pow2(b));
    }
  }

  lemma Pow2Of32()
    ensures Pow2(32) == TWO_32
  {
    assert Pow2(8) == 256;
    Pow2Split(8, 8);
    Pow2Split(16, 16);
  }

  /** The size-aligned block around an address stays inside a range of whole blocks. */
  lemma AlignedBlock(addr: nat, size: nat, blocks: nat)
    requires size > 0 && addr < blocks * size
    ensures 0 <= addr - addr % size && addr - addr % size + size <= blocks * size
  {
    var q := addr / size;
    assert addr == q * size + addr % size;
    DivBelow(addr, size, blocks);
    MulMonotone(0, q, size);
    MulMonotone(q + 1, blocks, size);
    assert (q + 1) * size == q * size + size;
  }

  lemma BlockFits(c: Cidr)
    ensures c.addr - c.addr % Pow2(32 - c.prefix) + Pow2(32 - c.prefix) <= TWO_32
    ensures 0 <= c.addr - c.addr % Pow2(32 - c.prefix)
  {
    hide Pow2;
    Pow2Split(c.prefix, 32 - c.prefix);
    Pow2Of32();
    AlignedBlock(c.addr, Pow2(32 - c.prefix), Pow2(c.prefix));
  }

  function Network(c: Cidr): u32 {
    BlockFits(c);
    c.addr - c.addr % Pow2(32 - c.prefix)
  }

  function Broadcast(c: Cidr): (r: u32)
    ensures Network(c) <= r
  {
    BlockFits(c);
    Network(c) + Pow2(32 - c.prefix) - 1
  }

  /** The block is the size-aligned stretch of 2^(32 - prefix) addresses around the configured one. */
  lemma BlockIsAligned(c: Cidr)
    ensures Broadcast(c) - Network(c) + 1 == Pow2(32 - c.prefix) && Network(c) % Pow2(32 - c.prefix) == 0
    ensures Network(c) <= c.addr <= Broadcast(c)
    ensures Pow2(32 - c.prefix) * Pow2(c.prefix) == 0x1_0000_0000
  {
    hide Pow2;
    var size := Pow2(32 - c.prefix);
    assert c.addr == c.addr / size * size + c.addr % size;
    DivUnique(Network(c), c.addr / size, size, 0);
    Pow2Split(32 - c.prefix, c.prefix);
    Pow2Of32();
  }

  /** First assignable address and the number of assignable ones, with the source's saturating arithmetic. */
  function CidrGeometry(c: Cidr): (u32, u32) {
    var lo := Min(Network(c) + FIRST_OFFSET, U32_MAX);
    (lo, if Broadcast(c) >= lo then Broadcast(c) - lo else 0)
  }

  function Clamp(x: int, lo: int, hi: int): (r: int)
    requires lo <= hi
    ensures lo <= r <= hi
  {
    if x < lo then lo else if x > hi then hi else x
  }

  function DivCeil(a: nat, b: nat): nat
    requires b > 0
  {
    if a % b == 0 then a / b else a / b + 1
  }

  function ShardCount(usable: u32, requested: u32): (n: u32)
    requires usable >= MIN_USABLE
    ensures n >= 1
  {
    var maxShards := if usable / MIN_SHARD_USABLE >= 1 then usable / MIN_SHARD_USABLE else 1;
    Min(if requested >= 1 then requested else 1, maxShards)
  }

  lemma SpanPositive(usable: u32, requested: u32)
    requires usable >= MIN_USABLE
    ensures usable / ShardCount(usable, requested) >= 1
  {
    var n := ShardCount(usable, requested);
    assert n <= usable;
    assert usable == usable / n * n + usable % n;
  }

  /** The layout `FakeIpPool::new` computes, or its error. */
  function Plan(cfg: Config): Result<Layout, FakeIpError> {
    var (lo, usable) := CidrGeometry(cfg.cidr);
    if usable < MIN_USABLE then Err(CidrTooSmall(cfg.cidr.prefix, usable, MIN_USABLE))
    else
      var n := ShardCount(usable, cfg.shards);
      var span := usable / n;
      SpanPositive(usable, cfg.shards);
      var totalCap := Clamp(cfg.maxEntries, 1, usable);
      Ok(Layout(lo, span, n, Clamp(DivCeil(totalCap, n), 1, span), cfg.ttl))
  }

  lemma DivCeilBound(a: nat, n: nat)
    requires n > 0
    ensures a <= n * DivCeil(a, n) < a + n
  {
    assert a == a / n * n + a % n;
    assert n * (a / n + 1) == a / n * n + n;
  }

  /** What was asked for, but at least one entry. */
  function Wanted(maxEntries: nat): nat {
    if maxEntries >= 1 then maxEntries else 1
  }

  /** Every accepted configuration gives slices that lie side by side in [network + 4, broadcast) and leave less than
      one address per shard over; as many shards as asked for, but at least one and with 16 addresses each; and
      capacities that add up to what was asked for as far as the slices hold it, and to less than one entry per shard
      over the request. */
  lemma PlanIsSound(cfg: Config)
    requires Plan(cfg).Ok?
    ensures var l, usable := Plan(cfg).value, Broadcast(cfg.cidr) - Network(cfg.cidr) - 4;
            && l.Valid() && l.ttl == cfg.ttl
            && l.lo == Network(cfg.cidr) + 4
            && l.lo + l.nShards * l.span <= Broadcast(cfg.cidr) < l.lo + l.nShards * l.span + l.nShards
            && 1 <= l.nShards && (l.nShards == 1 || 16 * l.nShards <= usable)
            && (l.nShards == Wanted(cfg.shards) || (l.nShards < cfg.shards && usable < 16 * (l.nShards + 1)))
            && Min(Wanted(cfg.maxEntries), l.nShards * l.span) <= l.nShards * l.cap <= l.nShards * l.span
            && l.nShards * l.cap < Wanted(cfg.maxEntries) + l.nShards
  {
    var (lo, usable) := CidrGeometry(cfg.cidr);
    var n := ShardCount(usable, cfg.shards);
    SpanPositive(usable, cfg.shards);
    CapacityBound(usable, n, cfg.maxEntries);
    ShareFits(usable, n);
  }

  lemma ShareFits(usable: nat, n: nat)
    requires n >= 1
    ensures 0 <= n * (usable / n) <= usable < n * (usable / n) + n
  {
    assert usable == usable / n * n + usable % n;
  }

  lemma CapacityBound(usable: nat, n: nat, maxEntries: nat)
    requires usable >= 1 && n >= 1 && usable / n >= 1
    ensures var totalCap := Clamp(maxEntries, 1, usable);
            var cap := Clamp(DivCeil(totalCap, n), 1, usable / n);
            && 0 <= n * (usable / n) <= usable
            && Min(Wanted(maxEntries), n * (usable / n)) <= n * cap <= n * (usable / n)
            && n * cap < Wanted(maxEntries) + n
  {
    var totalCap := Clamp(maxEntries, 1, usable);
    var cap := Clamp(DivCeil(totalCap, n), 1, usable / n);
    ShareFits(usable, n);
    MulMonotone(cap, usable / n, n);
    DivCeilBound(totalCap, n);
    if cap > 1 {
      MulMonotone(cap, DivCeil(totalCap, n), n);
    }
  }

  /** A configuration is refused exactly when its block has fewer than 21 addresses, and the error says how many of
      them could be assigned. */
  lemma RefusedIffTiny(cfg: Config)
    ensures var size := Broadcast(cfg.cidr) - Network(cfg.cidr);
            && (Plan(cfg).Err? <==> size < 20)
            && (size < 20 ==> Plan(cfg).error == CidrTooSmall(cfg.cidr.prefix, if size > 4 then size - 4 else 0, 16))
  {
  }

  /** Dividing by the span recovers the slice an address lies in. */
  lemma OwningSlice(l: Layout, s: nat, ip: u32)
    requires l.Valid() && s < l.nShards && l.SliceOf(s).Owns(ip)
    ensures l.lo <= ip && (ip - l.lo) / l.span == s
  {
    SliceFits(l, s);
    DivUnique(ip - l.lo, s, l.span, ip - l.lo - s * l.span);
  }
}
