/** One shard of the FakeIP pool (pool.rs): an index-linked recency list, a free list and two indexes, all updated
    in place. Every operation is proved equal to its counterpart on the abstract list of `RecencyList`. */
module FakeIpShard {
  import opened MachineInts
  import opened Wrappers
  import opened Hashing
  import opened RecencyList

  const NIL: u32 := U32_MAX

  datatype Node = Node(ip: u32, domain: Domain, older: u32, newer: u32)

  ghost predicate InRange(nodes: seq<Node>, order: seq<u32>) {
    forall k :: 0 <= k < |order| ==> order[k] < |nodes|
  }

  ghost predicate NoRepeats(s: seq<u32>) {
    forall i, j :: 0 <= i < j < |s| ==> s[i] != s[j]
  }

  /** Forward and backward links, `head` and `tail` all spell out the same order, most recent first. */
  ghost predicate Linked(nodes: seq<Node>, order: seq<u32>, head: u32, tail: u32) {
    && |nodes| <= NIL
    && InRange(nodes, order)
    && NoRepeats(order)
    && head == (if order == [] then NIL else order[0])
    && tail == (if order == [] then NIL else order[|order| - 1])
    && (forall k :: 0 <= k < |order| ==> LinkedAt(nodes, order, k))
  }

  lemma LinkedEnd(nodes: seq<Node>, order: seq<u32>, head: u32, tail: u32)
    requires Linked(nodes, order, head, tail) && order != []
    ensures tail == order[|order| - 1] && tail < |nodes|
  {
  }

  /** Links only speak of live nodes. */
  lemma LinkedFrame(a: seq<Node>, b: seq<Node>, order: seq<u32>, head: u32, tail: u32)
    requires Linked(a, order, head, tail) && |a| <= |b| <= NIL
    requires forall i :: 0 <= i < |a| && i in order ==> b[i].older == a[i].older && b[i].newer == a[i].newer
    ensures Linked(b, order, head, tail)
  {
    forall k | 0 <= k < |order| ensures LinkedAt(b, order, k) {
      assert LinkedAt(a, order, k);
    }
  }

  ghost predicate LinkedAt(nodes: seq<Node>, order: seq<u32>, k: nat)
    requires InRange(nodes, order) && k < |order|
  {
    && nodes[order[k]].older == (if k + 1 < |order| then order[k + 1] else NIL)
    && nodes[order[k]].newer == (if k > 0 then order[k - 1] else NIL)
  }

  ghost function Members(s: seq<u32>): set<u32> {
    set x | x in s
  }

  /** The two indexes are exact views of the live nodes. */
  ghost predicate Indexed(nodes: seq<Node>, live: set<u32>, byDomain: map<Domain, u32>, byIp: map<u32, u32>)
    requires forall i :: i in live ==> i < |nodes|
  {
    && (forall i :: i in live ==> nodes[i].domain in byDomain && byDomain[nodes[i].domain] == i)
    && (forall i :: i in live ==> nodes[i].ip in byIp && byIp[nodes[i].ip] == i)
    && (forall d :: d in byDomain ==> byDomain[d] in live && nodes[byDomain[d]].domain == d)
    && (forall ip :: ip in byIp ==> byIp[ip] in live && nodes[byIp[ip]].ip == ip)
  }

  ghost function EntriesOf(nodes: seq<Node>, order: seq<u32>): (es: seq<Entry>)
    requires InRange(nodes, order)
    ensures |es| == |order|
    ensures forall k :: 0 <= k < |es| ==> es[k] == Entry(nodes[order[k]].domain, nodes[order[k]].ip)
  {
    seq(|order|, k requires 0 <= k < |order| => Entry(nodes[order[k]].domain, nodes[order[k]].ip))
  }

  /** Live and free positions partition the node vector. */
  ghost predicate Partitioned(nodes: seq<Node>, order: seq<u32>, free: seq<u32>) {
    && NoRepeats(order) && InRange(nodes, order)
    && NoRepeats(free) && InRange(nodes, free)
    && Members(order) !! Members(free)
    && |order| + |free| == |nodes|
  }

  /** What linking and unlinking leave alone. */
  ghost predicate SamePayload(a: seq<Node>, b: seq<Node>) {
    && |a| == |b|
    && forall i :: 0 <= i < |a| ==> a[i].ip == b[i].ip && a[i].domain == b[i].domain
  }

  /** After unlinking position k, the node at j points past it and is otherwise as it was. */
  ghost predicate Bypassed(a: seq<Node>, b: seq<Node>, order: seq<u32>, k: nat, j: nat)
    requires InRange(a, order) && |b| == |a| && k < |order| && j < |order|
  {
    && b[order[j]].older == (if j + 1 == k then a[order[k]].older else a[order[j]].older)
    && b[order[j]].newer == (if j == k + 1 then a[order[k]].newer else a[order[j]].newer)
  }

  lemma BypassKeepsLinked(a: seq<Node>, b: seq<Node>, order: seq<u32>, k: nat, head: u32, tail: u32)
    requires Linked(a, order, head, tail) && |b| == |a| && k < |order|
    requires forall j :: 0 <= j < |order| && j != k ==> Bypassed(a, b, order, k, j)
    ensures Linked(b, Without(order, k),
              if k == 0 then a[order[k]].older else head, if k + 1 == |order| then a[order[k]].newer else tail)
  {
    var rest := Without(order, k);
    WithoutNoRepeats(order, k);
    assert LinkedAt(a, order, k);
    forall i | 0 <= i < |rest| ensures LinkedAt(b, rest, i) {
      var j := if i < k then i else i + 1;
      assert rest[i] == order[j] && LinkedAt(a, order, j) && Bypassed(a, b, order, k, j);
    }
  }

  /** Every node but idx keeps its address and domain. */
  ghost predicate SameExcept(a: seq<Node>, b: seq<Node>, idx: u32) {
    && |a| <= |b|
    && forall i :: 0 <= i < |a| && i != idx ==> b[i].ip == a[i].ip && b[i].domain == a[i].domain
  }

  lemma MembersSnoc(s: seq<u32>, x: u32)
    ensures Members(s + [x]) == Members(s) + {x}
  {
  }

  /** The least recent live position joins the free list. */
  lemma RetiredPartition(a: seq<Node>, b: seq<Node>, order: seq<u32>, free: seq<u32>)
    requires order != [] && Partitioned(a, order, free) && |b| == |a|
    ensures Partitioned(b, order[..|order| - 1], free + [order[|order| - 1]])
    ensures Members(order) == Members(order[..|order| - 1]) + {order[|order| - 1]}
  {
    var kept, idx := order[..|order| - 1], order[|order| - 1];
    assert order == kept + [idx];
    MembersSnoc(kept, idx);
    MembersSnoc(free, idx);
    assert idx in Members(order);
  }

  lemma RetiredIndexed(a: seq<Node>, b: seq<Node>, live: set<u32>, idx: u32,
                       byDomain: map<Domain, u32>, byIp: map<u32, u32>)
    requires forall i :: i in live ==> i < |a|
    requires idx in live && SameExcept(a, b, idx) && Indexed(a, live, byDomain, byIp)
    ensures Indexed(b, live - {idx}, byDomain - {a[idx].domain}, byIp - {a[idx].ip})
  {
  }

  /** Dropping the least recent position, its two index entries and its domain. */
  lemma EvictedStored(sl: Slice, a: seq<Node>, b: seq<Node>, order: seq<u32>, free: seq<u32>,
                      byDomain: map<Domain, u32>, byIp: map<u32, u32>)
    requires order != [] && Stored(sl, a, order, free, byDomain, byIp)
    requires |b| == |a| && SameExcept(a, b, order[|order| - 1])
    ensures var last := |order| - 1;
            var idx := order[last];
            && Stored(sl, b, order[..last], free + [idx], byDomain - {a[idx].domain}, byIp - {a[idx].ip})
            && EntriesOf(b, order[..last]) == EntriesOf(a, order)[..last]
  {
    hide Indexed, Partitioned;
    var last := |order| - 1;
    RetiredPartition(a, b, order, free);
    LiveInRange(a, order, free);
    RetiredIndexed(a, b, Members(order), order[last], byDomain, byIp);
    LastIsOut(order, free, a);
    assert Members(order[..last]) == Members(order) - {order[last]};
    LiveInRange(b, order[..last], free + [order[last]]);
    RetiredEntries(a, b, order);
    PrefixWellFormed(sl, EntriesOf(a, order), last);
  }

  lemma LiveInRange(nodes: seq<Node>, order: seq<u32>, free: seq<u32>)
    requires Partitioned(nodes, order, free)
    ensures InRange(nodes, order) && forall i :: i in Members(order) ==> i < |nodes|
  {
  }

  lemma LastIsOut(order: seq<u32>, free: seq<u32>, nodes: seq<Node>)
    requires order != [] && Partitioned(nodes, order, free)
    ensures order[|order| - 1] !in Members(order[..|order| - 1])
    ensures order[|order| - 1] in Members(order)
  {
  }

  lemma RetiredEntries(a: seq<Node>, b: seq<Node>, order: seq<u32>)
    requires order != [] && NoRepeats(order) && InRange(a, order) && SameExcept(a, b, order[|order| - 1])
    ensures InRange(b, order[..|order| - 1])
    ensures EntriesOf(b, order[..|order| - 1]) == EntriesOf(a, order)[..|order| - 1]
  {
  }

  lemma PrefixWellFormed(sl: Slice, es: seq<Entry>, n: nat)
    requires n <= |es| && WellFormed(sl, es)
    ensures WellFormed(sl, es[..n])
  {
  }

  /** Node idx is taken from the free list, or else appended, and holds (ip, d); other nodes are untouched. */
  ghost predicate Allocated(a: seq<Node>, b: seq<Node>, free: seq<u32>, free': seq<u32>, idx: u32, ip: u32, d: Domain)
  {
    && SameExcept(a, b, idx)
    && idx < |b|
    && b[idx].ip == ip && b[idx].domain == d
    && (if free == [] then free' == [] && idx == |a| && |b| == |a| + 1
        else free == free' + [idx] && |b| == |a|)
  }

  lemma AllocatedPartition(a: seq<Node>, b: seq<Node>, order: seq<u32>, free: seq<u32>, free': seq<u32>, idx: u32)
    requires Partitioned(a, order, free)
    requires if free == [] then free' == [] && idx == |a| && |b| == |a| + 1
             else free == free' + [idx] && |b| == |a|
    ensures Partitioned(b, [idx] + order, free') && idx !in order
    ensures Members([idx] + order) == {idx} + Members(order)
  {
    MembersCons(order, idx);
    if free != [] {
      MembersSnoc(free', idx);
      assert idx == free[|free| - 1] && idx in Members(free);
      assert forall k :: 0 <= k < |free'| ==> free'[k] == free[k];
    }
    assert forall k :: 0 <= k < |order| ==> order[k] in Members(order);
  }

  lemma MembersCons(s: seq<u32>, x: u32)
    ensures Members([x] + s) == {x} + Members(s)
  {
  }

  lemma AllocatedIndexed(a: seq<Node>, b: seq<Node>, live: set<u32>, idx: u32,
                         byDomain: map<Domain, u32>, byIp: map<u32, u32>)
    requires forall i :: i in live ==> i < |a|
    requires idx !in live && idx < |b| && SameExcept(a, b, idx) && Indexed(a, live, byDomain, byIp)
    requires b[idx].domain !in byDomain && b[idx].ip !in byIp
    ensures Indexed(b, {idx} + live, byDomain[b[idx].domain := idx], byIp[b[idx].ip := idx])
  {
  }

  lemma ConsWellFormed(sl: Slice, es: seq<Entry>, e: Entry)
    requires WellFormed(sl, es) && |es| < sl.cap && sl.Owns(e.ip)
    requires forall i :: 0 <= i < |es| ==> es[i].domain != e.domain && es[i].ip != e.ip
    ensures WellFormed(sl, [e] + es)
  {
  }

  lemma AllocatedStored(sl: Slice, a: seq<Node>, b: seq<Node>, order: seq<u32>, free: seq<u32>, free': seq<u32>,
                        byDomain: map<Domain, u32>, byIp: map<u32, u32>, idx: u32, ip: u32, d: Domain)
    requires Stored(sl, a, order, free, byDomain, byIp) && |order| < sl.cap
    requires Allocated(a, b, free, free', idx, ip, d)
    requires d !in byDomain && ip !in byIp && sl.Owns(ip)
    ensures idx !in order
    ensures Stored(sl, b, [idx] + order, free', byDomain[d := idx], byIp[ip := idx])
    ensures EntriesOf(b, [idx] + order) == [Entry(d, ip)] + EntriesOf(a, order)
  {
    hide Partitioned, Indexed;
    AllocatedPartition(a, b, order, free, free', idx);
    AllocatedSize(a, b, order, free, free');
    LiveInRange(a, order, free);
    AllocatedIndexed(a, b, Members(order), idx, byDomain, byIp);
    LiveInRange(b, [idx] + order, free');
    LiveNames(a, order, byDomain, byIp);
    ConsWellFormed(sl, EntriesOf(a, order), Entry(d, ip));
    assert EntriesOf(b, [idx] + order) == [Entry(d, ip)] + EntriesOf(a, order);
  }

  lemma AllocatedSize(a: seq<Node>, b: seq<Node>, order: seq<u32>, free: seq<u32>, free': seq<u32>)
    requires Partitioned(a, order, free) && |b| == if free == [] then |a| + 1 else |a|
    ensures |b| <= |a| || |b| == |order| + 1
  {
  }

  /** What is live is indexed. */
  lemma LiveNames(nodes: seq<Node>, order: seq<u32>, byDomain: map<Domain, u32>, byIp: map<u32, u32>)
    requires InRange(nodes, order) && Indexed(nodes, Members(order), byDomain, byIp)
    ensures forall k :: 0 <= k < |order| ==>
              && EntriesOf(nodes, order)[k].domain in byDomain
              && byDomain[EntriesOf(nodes, order)[k].domain] == order[k]
              && EntriesOf(nodes, order)[k].ip in byIp
              && byIp[EntriesOf(nodes, order)[k].ip] == order[k]
  {
    assert forall k :: 0 <= k < |order| ==> order[k] in Members(order);
  }

  lemma PayloadStored(sl: Slice, a: seq<Node>, b: seq<Node>, order: seq<u32>, free: seq<u32>,
                      byDomain: map<Domain, u32>, byIp: map<u32, u32>)
    requires SamePayload(a, b) && Stored(sl, a, order, free, byDomain, byIp)
    ensures Stored(sl, b, order, free, byDomain, byIp)
    ensures EntriesOf(b, order) == EntriesOf(a, order)
  {
  }

  /** Whatever is indexed has an entry, and the other way round. */
  lemma IndexedHasEntry(nodes: seq<Node>, order: seq<u32>, byDomain: map<Domain, u32>, byIp: map<u32, u32>)
    requires InRange(nodes, order) && Indexed(nodes, Members(order), byDomain, byIp)
    ensures forall d :: d in byDomain <==>
                        exists k :: 0 <= k < |order| && EntriesOf(nodes, order)[k].domain == d
    ensures forall ip :: ip in byIp <==> exists k :: 0 <= k < |order| && EntriesOf(nodes, order)[k].ip == ip
  {
    var es := EntriesOf(nodes, order);
    LiveNames(nodes, order, byDomain, byIp);
    forall d | d in byDomain ensures exists k :: 0 <= k < |order| && es[k].domain == d {
      var k :| 0 <= k < |order| && order[k] == byDomain[d];
      assert es[k].domain == d;
    }
    forall ip | ip in byIp ensures exists k :: 0 <= k < |order| && es[k].ip == ip {
      var k :| 0 <= k < |order| && order[k] == byIp[ip];
      assert es[k].ip == ip;
    }
  }

  /** The indexes answer exactly what the abstract list answers. */
  lemma StoredViews(sl: Slice, nodes: seq<Node>, order: seq<u32>, free: seq<u32>,
                    byDomain: map<Domain, u32>, byIp: map<u32, u32>)
    requires Stored(sl, nodes, order, free, byDomain, byIp)
    ensures InRange(nodes, order) && InRange(nodes, free) && |nodes| <= sl.cap
    ensures WellFormed(sl, EntriesOf(nodes, order))
    ensures forall d :: d in byDomain <==> FindDomain(EntriesOf(nodes, order), d).Some?
    ensures forall ip :: ip in byIp <==> FindIp(EntriesOf(nodes, order), ip).Some?
    ensures byIp.Keys == Addresses(EntriesOf(nodes, order))
  {
    hide Indexed, WellFormed, EntriesOf;
    IndexedHasEntry(nodes, order, byDomain, byIp);
  }

  /** The index entry of a live domain is its place in the list. */
  lemma LivePosition(sl: Slice, nodes: seq<Node>, order: seq<u32>, free: seq<u32>,
                     byDomain: map<Domain, u32>, byIp: map<u32, u32>, d: Domain) returns (k: nat)
    requires Stored(sl, nodes, order, free, byDomain, byIp) && d in byDomain
    ensures FindDomain(EntriesOf(nodes, order), d) == Some(k) && k < |order| && order[k] == byDomain[d]
    ensures byDomain[d] < |nodes|
  {
    StoredViews(sl, nodes, order, free, byDomain, byIp);
    LiveNames(nodes, order, byDomain, byIp);
    k := FindDomain(EntriesOf(nodes, order), d).value;
  }

  lemma LivePositionOfIp(sl: Slice, nodes: seq<Node>, order: seq<u32>, free: seq<u32>,
                         byDomain: map<Domain, u32>, byIp: map<u32, u32>, ip: u32) returns (k: nat)
    requires Stored(sl, nodes, order, free, byDomain, byIp) && ip in byIp
    ensures FindIp(EntriesOf(nodes, order), ip) == Some(k) && k < |order| && order[k] == byIp[ip]
    ensures byIp[ip] < |nodes|
  {
    StoredViews(sl, nodes, order, free, byDomain, byIp);
    LiveNames(nodes, order, byDomain, byIp);
    k := FindIp(EntriesOf(nodes, order), ip).value;
  }

  lemma WithoutNoRepeats(s: seq<u32>, k: nat)
    requires NoRepeats(s) && k < |s|
    ensures NoRepeats(Without(s, k)) && s[k] !in Without(s, k)
  {
  }

  lemma ToFrontMembers(order: seq<u32>, k: nat)
    requires k < |order|
    ensures Members(ToFront(order, k)) == Members(order)
  {
    var order' := ToFront(order, k);
    forall x | x in order ensures x in order' {
      var i :| 0 <= i < |order| && order[i] == x;
      assert i < k ==> order'[i + 1] == x;
      assert i > k ==> order'[i] == x;
    }
  }

  /** Everything the representation promises besides the links. */
  ghost predicate Stored(sl: Slice, nodes: seq<Node>, order: seq<u32>, free: seq<u32>,
                         byDomain: map<Domain, u32>, byIp: map<u32, u32>)
  {
    && |nodes| <= sl.cap
    && Partitioned(nodes, order, free)
    && Indexed(nodes, Members(order), byDomain, byIp)
    && WellFormed(sl, EntriesOf(nodes, order))
  }

  lemma ToFrontStored(sl: Slice, a: seq<Node>, b: seq<Node>, order: seq<u32>, k: nat, free: seq<u32>,
                      byDomain: map<Domain, u32>, byIp: map<u32, u32>)
    requires k < |order| && SamePayload(a, b) && Stored(sl, a, order, free, byDomain, byIp)
    requires NoRepeats(ToFront(order, k))
    ensures Stored(sl, b, ToFront(order, k), free, byDomain, byIp)
    ensures EntriesOf(b, ToFront(order, k)) == ToFront(EntriesOf(a, order), k)
  {
    ToFrontMembers(order, k);
    ToFrontEntries(a, b, order, k);
    ToFrontWellFormed(sl, EntriesOf(a, order), k);
  }

  lemma ToFrontEntries(a: seq<Node>, b: seq<Node>, order: seq<u32>, k: nat)
    requires k < |order| && SamePayload(a, b) && InRange(a, order)
    ensures InRange(b, ToFront(order, k))
    ensures EntriesOf(b, ToFront(order, k)) == ToFront(EntriesOf(a, order), k)
  {
  }

  class Shard {
    var nodes: seq<Node>
    var free: seq<u32>
    var byDomain: map<Domain, u32>
    var byIp: map<u32, u32>
    var head: u32
    var tail: u32
    var count: nat
    const slice: Slice
    const hs: Hashes
    ghost var order: seq<u32>

    ghost predicate Valid()
      reads this
    {
      && slice.Valid()
      && Linked(nodes, order, head, tail)
      && Stored(slice, nodes, order, free, byDomain, byIp)
      && count == |order|
    }

    /** The abstract value: live entries, most recent first. */
    ghost function Entries(): seq<Entry>
      reads this
      requires Valid()
    {
      EntriesOf(nodes, order)
    }

    constructor (hs: Hashes, slice: Slice)
      requires slice.Valid()
      ensures Valid() && Entries() == [] && this.slice == slice && this.hs == hs
    {
      nodes, free, byDomain, byIp := [], [], map[], map[];
      head, tail, count, order := NIL, NIL, 0, [];
      this.slice, this.hs := slice, hs;
    }

    lemma CountIsLive()
      requires Valid()
      ensures count == |Entries()|
    {
    }

    method Unlink(idx: u32, ghost k: nat)
      requires Linked(nodes, order, head, tail)
      requires k < |order| && order[k] == idx
      modifies `nodes, `head, `tail, `order
      ensures Linked(nodes, order, head, tail)
      ensures order == Without(old(order), k)
      ensures SamePayload(nodes, old(nodes))
    {
      ghost var was := order;
      var older, newer := nodes[idx].older, nodes[idx].newer;
      assert LinkedAt(nodes, order, k);
      if newer != NIL {
        nodes := nodes[newer := nodes[newer].(older := older)];
      } else {
        head := older;
      }
      if older != NIL {
        nodes := nodes[older := nodes[older].(newer := newer)];
      } else {
        tail := newer;
      }
      nodes := nodes[idx := nodes[idx].(older := NIL, newer := NIL)];
      order := Without(order, k);
      forall j | 0 <= j < |was| && j != k ensures Bypassed(old(nodes), nodes, was, k, j) {
        assert was[j] != idx;
      }
      BypassKeepsLinked(old(nodes), nodes, was, k, old(head), old(tail));
    }

    method PushFront(idx: u32)
      requires Linked(nodes, order, head, tail)
      requires idx < |nodes| && idx !in order
      modifies `nodes, `head, `tail, `order
      ensures Linked(nodes, order, head, tail)
      ensures order == [idx] + old(order)
      ensures SamePayload(nodes, old(nodes))
    {
      var oldHead := head;
      nodes := nodes[idx := nodes[idx].(older := oldHead)];
      nodes := nodes[idx := nodes[idx].(newer := NIL)];
      if oldHead != NIL {
        nodes := nodes[oldHead := nodes[oldHead].(newer := idx)];
      }
      head := idx;
      if tail == NIL {
        tail := idx;
      }
      ghost var was := order;
      order := [idx] + order;
      forall i | 0 <= i < |order| ensures LinkedAt(nodes, order, i) {
        assert i > 0 ==> order[i] == was[i - 1] && LinkedAt(old(nodes), was, i - 1);
      }
    }

    method Promote(idx: u32, ghost k: nat)
      requires Valid()
      requires k < |order| && order[k] == idx
      modifies `nodes, `head, `tail, `order
      ensures Valid()
      ensures Entries() == ToFront(old(Entries()), k)
      ensures idx < |nodes| && Entries()[0] == Entry(nodes[idx].domain, nodes[idx].ip)
    {
      hide Stored;
      if head == idx {
        assert k == 0;
        assert Entries() == ToFront(Entries(), 0);
        return;
      }
      ghost var was := order;
      Unlink(idx, k);
      WithoutNoRepeats(was, k);
      PushFront(idx);
      ToFrontStored(slice, old(nodes), nodes, was, k, free, byDomain, byIp);
    }

    method FindFreeIp(h: bv64) returns (ip: u32)
      requires slice.Valid() && |byIp.Keys| < slice.usable
      ensures Some(ip) == FirstFree(hs, slice, byIp.Keys, h, 0)
    {
      hide Slot, FastRange, ProbeStep;
      var n := slice.usable;
      ghost var all := FirstFree(hs, slice, byIp.Keys, h, 0);
      var idx0 := FastRange(h, n);
      IdealSlotFirst(hs, h, n);
      var ip0 := slice.lo + idx0;
      if ip0 !in byIp {
        return ip0;
      }
      var step := ProbeStep(hs, h, n);
      var s := idx0;
      for i := 0 to PROBE_LIMIT
        invariant s == Slot(hs, h, n, i)
        invariant all == FirstFree(hs, slice, byIp.Keys, h, i + 1)
      {
        NextProbe(hs, h, n, i);
        s := (s as u64 + step as u64) % n;
        assert s == Slot(hs, h, n, i + 1);
        ip := slice.lo + s;
        if ip !in byIp {
          return;
        }
      }
      s := idx0;
      for i := 0 to n
        invariant i > 0 ==> s == Slot(hs, h, n, PROBE_LIMIT + i)
        invariant i == 0 ==> s == idx0
        invariant all == FirstFree(hs, slice, byIp.Keys, h, PROBE_LIMIT + i + 1)
      {
        NextScan(hs, h, n, PROBE_LIMIT + i);
        s := if s + 1 == n then 0 else s + 1;
        assert s == Slot(hs, h, n, PROBE_LIMIT + i + 1);
        ip := slice.lo + s;
        if ip !in byIp {
          return;
        }
      }
      FreeAddressExists(hs, slice, byIp.Keys, h);
      assert false;
    }

    method AllocNode(ip: u32, domain: Domain) returns (idx: u32)
      requires |nodes| < NIL && InRange(nodes, free)
      modifies `nodes, `free, `count
      ensures count == old(count) + 1
      ensures Allocated(old(nodes), nodes, old(free), free, idx, ip, domain)
      ensures forall i :: 0 <= i < old(|nodes|) && i != idx ==> nodes[i] == old(nodes[i])
      ensures old(Partitioned(nodes, order, free)) ==> Partitioned(nodes, [idx] + order, free) && idx !in order
    {
      hide Partitioned;
      count := count + 1;
      if free != [] {
        idx := free[|free| - 1];
        free := free[..|free| - 1];
        nodes := nodes[idx := Node(ip, domain, NIL, NIL)];
      } else {
        idx := |nodes|;
        nodes := nodes + [Node(ip, domain, NIL, NIL)];
      }
      if old(Partitioned(nodes, order, free)) {
        AllocatedPartition(old(nodes), nodes, order, old(free), free, idx);
      }
    }

    method EvictTail()
      requires Valid() && order != []
      modifies this
      ensures Valid()
      ensures Entries() == old(Entries())[..|old(Entries())| - 1]
    {
      hide Stored, Linked;
      ghost var k := |order| - 1;
      var idx := tail;
      LinkedEnd(nodes, order, head, tail);
      var ip, dom := nodes[idx].ip, nodes[idx].domain;
      Unlink(idx, k);
      assert order == old(order)[..k];
      ghost var unlinked := nodes;
      byIp := byIp - {ip};
      byDomain := byDomain - {dom};
      nodes := nodes[idx := nodes[idx].(domain := [])];
      free := free + [idx];
      count := count - 1;
      LinkedFrame(unlinked, nodes, order, head, tail);
      EvictedStored(slice, old(nodes), nodes, old(order), old(free), old(byDomain), old(byIp));
    }

    /** The last part of `intern`: a node for (ip, domain), both index entries, and the front of the list. */
    method Insert(ip: u32, domain: Domain)
      requires Valid() && |Entries()| < slice.cap && slice.Owns(ip)
      requires domain !in byDomain && ip !in byIp
      modifies this
      ensures Valid()
      ensures Entries() == [Entry(domain, ip)] + old(Entries())
    {
      hide Stored, Linked, Indexed, WellFormed, FirstFree, SameExcept;
      StoredViews(slice, nodes, order, free, byDomain, byIp);
      var idx := AllocNode(ip, domain);
      AllocatedStored(slice, old(nodes), nodes, order, old(free), free, byDomain, byIp, idx, ip, domain);
      byDomain := byDomain[domain := idx];
      byIp := byIp[ip := idx];
      LinkedFrame(old(nodes), nodes, order, head, tail);
      ghost var linked := nodes;
      PushFront(idx);
      PayloadStored(slice, linked, nodes, order, free, byDomain, byIp);
    }

    method Intern(domain: Domain, placeHash: bv64) returns (ip: u32)
      requires Valid()
      modifies this
      ensures Valid()
      ensures Entries() == Interned(hs, slice, old(Entries()), domain, placeHash)
      ensures ip == Entries()[0].ip
    {
      hide Stored, Linked, Indexed, WellFormed, FirstFree, SameExcept;
      StoredViews(slice, nodes, order, free, byDomain, byIp);
      if domain in byDomain {
        var idx := byDomain[domain];
        ghost var k := LivePosition(slice, nodes, order, free, byDomain, byIp, domain);
        Promote(idx, k);
        return nodes[idx].ip;
      }
      RoomForOne(hs, slice, Entries(), placeHash);
      if count >= slice.cap {
        EvictTail();
      }
      assert Entries() == MakeRoom(slice, old(Entries()));
      StoredViews(slice, nodes, order, free, byDomain, byIp);
      ip := FindFreeIp(placeHash);
      Insert(ip, domain);
    }

    method Lookback(ip: u32) returns (r: Option<Domain>)
      requires Valid()
      modifies this
      ensures Valid()
      ensures Entries() == LookedBack(old(Entries()), ip)
      ensures r == Owner(old(Entries()), ip)
    {
      hide Stored, Linked, Indexed;
      StoredViews(slice, nodes, order, free, byDomain, byIp);
      if ip !in byIp {
        return None;
      }
      var idx := byIp[ip];
      ghost var k := LivePositionOfIp(slice, nodes, order, free, byDomain, byIp, ip);
      Promote(idx, k);
      return Some(nodes[idx].domain);
    }
  }
}
