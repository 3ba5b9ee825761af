/** The abstract shard of the FakeIP allocator: a most-recent-first list of (domain, address) entries, with the
    address search and the least-recently-used policy stated on values. `Shard.dfy` refines it in place. */
module RecencyList {
  import opened MachineInts
  import opened Wrappers
  import opened Hashing

  type Domain = Bytes

  datatype Entry = Entry(domain: Domain, ip: u32)

  /** The slice of addresses one shard owns and how many entries it may hold. */
  datatype Slice = Slice(lo: u32, usable: u32, cap: nat) {
    predicate Valid() {
      1 <= cap <= usable < U32_MAX && lo + usable < TWO_32
    }

    predicate Owns(ip: u32) {
      lo <= ip < lo + usable
    }
  }

  const PROBE_LIMIT: nat := 32

  predicate Distinct(es: seq<Entry>) {
    forall i, j :: 0 <= i < j < |es| ==> es[i].domain != es[j].domain && es[i].ip != es[j].ip
  }

  predicate WellFormed(sl: Slice, es: seq<Entry>) {
    && sl.Valid()
    && |es| <= sl.cap
    && Distinct(es)
    && forall i :: 0 <= i < |es| ==> sl.Owns(es[i].ip)
  }

  function Addresses(es: seq<Entry>): set<u32> {
    set i | 0 <= i < |es| :: es[i].ip
  }

  // ---------------------------------------------------------------- address search

  /** The k-th slot the search looks at: the ideal one, then 32 double-hash probes, then every slot in turn. */
  function Slot(hs: Hashes, h: bv64, n: u32, k: nat): (s: u32)
    requires n > 0
    ensures s < n
  {
    if k <= PROBE_LIMIT then (FastRange(h, n) + k * ProbeStep(hs, h, n)) % n
    else (FastRange(h, n) + (k - PROBE_LIMIT)) % n
  }

  /** The first candidate from the k-th on that is not taken; `None` stands for the `unreachable!` panic. */
  function FirstFree(hs: Hashes, sl: Slice, used: set<u32>, h: bv64, k: nat): (r: Option<u32>)
    requires sl.Valid()
    ensures r.Some? ==> r.value !in used && sl.Owns(r.value)
    decreases PROBE_LIMIT + sl.usable + 1 - k
  {
    if k > PROBE_LIMIT + sl.usable then None
    else
      var ip := sl.lo + Slot(hs, h, sl.usable, k);
      if ip !in used then Some(ip) else FirstFree(hs, sl, used, h, k + 1)
  }

  lemma {:induction false} NoneMeansAllTaken(hs: Hashes, sl: Slice, used: set<u32>, h: bv64, k: nat, j: nat)
    requires sl.Valid() && FirstFree(hs, sl, used, h, k) == None && k <= j <= PROBE_LIMIT + sl.usable
    ensures sl.lo + Slot(hs, h, sl.usable, j) in used
    decreases j - k
  {
    if k < j {
      NoneMeansAllTaken(hs, sl, used, h, k + 1, j);
    }
  }

  /** The final scan visits every slot of the slice. */
  lemma ScanVisits(hs: Hashes, h: bv64, n: u32, s: u32) returns (k: nat)
    requires s < n
    ensures PROBE_LIMIT < k <= PROBE_LIMIT + n && Slot(hs, h, n, k) == s
  {
    var i := FastRange(h, n);
    var d := if s > i then s - i else s - i + n;
    k := PROBE_LIMIT + d;
    DivUnique(i + d, if s > i then 0 else 1, n, s);
  }

  function Interval(lo: nat, n: nat): (s: set<nat>)
    ensures |s| == n
    ensures forall x :: x in s <==> lo <= x < lo + n
  {
    if n == 0 then {} else Interval(lo, n - 1) + {lo + n - 1}
  }

  lemma SubsetSize<T>(a: set<T>, b: set<T>)
    requires a <= b
    ensures |a| <= |b|
  {
    assert b == a + (b - a);
  }

  /** The search never panics while fewer addresses are taken than the slice has, whatever the hash. */
  lemma FreeAddressExists(hs: Hashes, sl: Slice, used: set<u32>, h: bv64)
    requires sl.Valid() && |used| < sl.usable
    ensures FirstFree(hs, sl, used, h, 0).Some?
  {
    if FirstFree(hs, sl, used, h, 0) == None {
      var all := Interval(sl.lo, sl.usable);
      forall x | x in all ensures x in used {
        var k := ScanVisits(hs, h, sl.usable, x - sl.lo);
        NoneMeansAllTaken(hs, sl, used, h, 0, k);
      }
      var usedNat: set<nat> := set x | x in used :: x;
      assert usedNat == used;
      SubsetSize(all, usedNat);
    }
  }

  lemma IdealSlotFirst(hs: Hashes, h: bv64, n: u32)
    requires n > 0
    ensures Slot(hs, h, n, 0) == FastRange(h, n)
  {
    var step := ProbeStep(hs, h, n);
    assert 0 * step == 0;
    DivUnique(FastRange(h, n), 0, n, FastRange(h, n));
  }

  lemma NextProbe(hs: Hashes, h: bv64, n: u32, k: nat)
    requires n > 0 && k < PROBE_LIMIT
    ensures Slot(hs, h, n, k + 1) == (Slot(hs, h, n, k) + ProbeStep(hs, h, n)) % n
  {
    hide FastRange, ProbeStep, Slot;
    ProbeSlot(hs, h, n, k);
    ProbeSlot(hs, h, n, k + 1);
    OneStepOn(FastRange(h, n), k, ProbeStep(hs, h, n), n, Slot(hs, h, n, k), Slot(hs, h, n, k + 1));
  }

  lemma OneStepOn(x: nat, k: nat, step: nat, n: nat, s: nat, t: nat)
    requires n > 0 && s == (x + k * step) % n && t == (x + (k + 1) * step) % n
    ensures t == (s + step) % n
  {
    ModStep(x, k, step, n);
  }

  lemma ProbeSlot(hs: Hashes, h: bv64, n: u32, k: nat)
    requires n > 0 && k <= PROBE_LIMIT
    ensures Slot(hs, h, n, k) == (FastRange(h, n) + k * ProbeStep(hs, h, n)) % n
  {
  }

  lemma NextScan(hs: Hashes, h: bv64, n: u32, k: nat)
    requires n > 0 && k >= PROBE_LIMIT
    ensures Slot(hs, h, n, k + 1) ==
            var s := if k == PROBE_LIMIT then FastRange(h, n) else Slot(hs, h, n, k);
            if s + 1 == n then 0 else s + 1
  {
    var s := if k == PROBE_LIMIT then FastRange(h, n) else Slot(hs, h, n, k);
    ModAdd(FastRange(h, n) + (k - PROBE_LIMIT), 1, n);
    DivUnique(FastRange(h, n), 0, n, FastRange(h, n));
    if s + 1 == n {
      DivUnique(s + 1, 1, n, 0);
    } else {
      DivUnique(s + 1, 0, n, s + 1);
    }
  }

  /** An ideal slot that nobody holds is always chosen. */
  lemma IdealSlotWins(hs: Hashes, sl: Slice, used: set<u32>, h: bv64)
    requires sl.Valid() && sl.lo + FastRange(h, sl.usable) !in used
    ensures FirstFree(hs, sl, used, h, 0) == Some(sl.lo + FastRange(h, sl.usable))
  {
    IdealSlotFirst(hs, h, sl.usable);
  }

  // ---------------------------------------------------------------- recency order

  /** Position of a domain in the list, if it is live. */
  function FindDomain(es: seq<Entry>, d: Domain): (r: Option<nat>)
    ensures r.Some? ==> r.value < |es| && es[r.value].domain == d
    ensures r.None? ==> forall i :: 0 <= i < |es| ==> es[i].domain != d
  {
    if es == [] then None
    else if es[0].domain == d then Some(0)
    else match FindDomain(es[1..], d)
      case None => (assert forall i :: 1 <= i < |es| ==> es[i] == es[1..][i - 1]; None)
      case Some(k) => Some(k + 1)
  }

  /** Position of an address in the list, if it is live. */
  function FindIp(es: seq<Entry>, ip: u32): (r: Option<nat>)
    ensures r.Some? ==> r.value < |es| && es[r.value].ip == ip
    ensures r.None? ==> forall i :: 0 <= i < |es| ==> es[i].ip != ip
  {
    if es == [] then None
    else if es[0].ip == ip then Some(0)
    else match FindIp(es[1..], ip)
      case None => (assert forall i :: 1 <= i < |es| ==> es[i] == es[1..][i - 1]; None)
      case Some(k) => Some(k + 1)
  }

  function Without<T>(s: seq<T>, k: nat): (r: seq<T>)
    requires k < |s|
    ensures |r| == |s| - 1
    ensures forall i :: 0 <= i < |r| ==> r[i] == if i < k then s[i] else s[i + 1]
  {
    s[..k] + s[k + 1..]
  }

  function ToFront<T>(s: seq<T>, k: nat): seq<T>
    requires k < |s|
  {
    [s[k]] + Without(s, k)
  }

  /** What is left after making room for one more entry: only the least recent entry ever goes. */
  function MakeRoom(sl: Slice, es: seq<Entry>): seq<Entry>
    requires WellFormed(sl, es)
  {
    if |es| >= sl.cap then es[..|es| - 1] else es
  }

  lemma AddressesSize(es: seq<Entry>)
    ensures |Addresses(es)| <= |es|
  {
    if es == [] {
      assert Addresses(es) == {};
    } else {
      var init, last := es[..|es| - 1], es[|es| - 1].ip;
      assert Addresses(es) == Addresses(init) + {last} by {
        forall x | x in Addresses(es) ensures x in Addresses(init) + {last} {
          var i :| 0 <= i < |es| && es[i].ip == x;
          assert i < |init| ==> init[i].ip == x;
        }
        forall x | x in Addresses(init) ensures x in Addresses(es) {
          var i :| 0 <= i < |init| && init[i].ip == x;
          assert es[i].ip == x;
        }
      }
      AddressesSize(init);
    }
  }

  lemma RoomForOne(hs: Hashes, sl: Slice, es: seq<Entry>, h: bv64)
    requires WellFormed(sl, es)
    ensures |MakeRoom(sl, es)| < sl.cap && |Addresses(MakeRoom(sl, es))| < sl.usable
    ensures FirstFree(hs, sl, Addresses(MakeRoom(sl, es)), h, 0).Some?
  {
    AddressesSize(MakeRoom(sl, es));
    FreeAddressExists(hs, sl, Addresses(MakeRoom(sl, es)), h);
  }

  /** The list after `intern(d)` with placement hash h. */
  function Interned(hs: Hashes, sl: Slice, es: seq<Entry>, d: Domain, h: bv64): (r: seq<Entry>)
    requires WellFormed(sl, es)
    ensures r != [] && r[0].domain == d
  {
    match FindDomain(es, d)
    case Some(k) => ToFront(es, k)
    case None =>
      RoomForOne(hs, sl, es, h);
      var kept := MakeRoom(sl, es);
      [Entry(d, FirstFree(hs, sl, Addresses(kept), h, 0).value)] + kept
  }

  /** The list after `lookback(ip)`, and the domain it returns. */
  function LookedBack(es: seq<Entry>, ip: u32): seq<Entry> {
    match FindIp(es, ip)
    case Some(k) => ToFront(es, k)
    case None => es
  }

  function Owner(es: seq<Entry>, ip: u32): Option<Domain> {
    match FindIp(es, ip)
    case Some(k) => Some(es[k].domain)
    case None => None
  }

  lemma ToFrontWellFormed(sl: Slice, es: seq<Entry>, k: nat)
    requires k < |es| && WellFormed(sl, es)
    ensures WellFormed(sl, ToFront(es, k))
  {
  }

  lemma InternedWellFormed(hs: Hashes, sl: Slice, es: seq<Entry>, d: Domain, h: bv64)
    requires WellFormed(sl, es)
    ensures WellFormed(sl, Interned(hs, sl, es, d, h))
  {
    match FindDomain(es, d)
    case Some(k) => ToFrontWellFormed(sl, es, k);
    case None =>
      RoomForOne(hs, sl, es, h);
      var kept := MakeRoom(sl, es);
      var ip := FirstFree(hs, sl, Addresses(kept), h, 0).value;
      forall i | 0 <= i < |kept| ensures kept[i].ip != ip {
        assert kept[i].ip in Addresses(kept);
      }
  }

  lemma LookedBackWellFormed(sl: Slice, es: seq<Entry>, ip: u32)
    requires WellFormed(sl, es)
    ensures WellFormed(sl, LookedBack(es, ip))
  {
    match FindIp(es, ip)
    case Some(k) => ToFrontWellFormed(sl, es, k);
    case None =>
  }
}
