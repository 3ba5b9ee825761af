/** Which address a new name gets, in the terms of hash.rs and pool.rs alone: of the ideal slot, 32 strides from it, and
    every slot after it in turn, the first that nobody holds. */
module AddressChoice {
  import opened MachineInts
  import opened Wrappers
  import opened Hashing
  import opened RecencyList
  import opened PoolLayout
  import opened PoolState

  /** r is the high word of h * n. */
  predicate HighOf(r: nat, h: bv64, n: nat) {
    r * 0x1_0000_0000_0000_0000 <= (h as int) * n < (r + 1) * 0x1_0000_0000_0000_0000
  }

  /** The stride of a hash in n slots: one and the high word of the mixed hash on n - 1. */
  predicate StrideOf(d: nat, hs: Hashes, h: bv64, n: nat) {
    if n <= 1 then d == 1 else d >= 1 && HighOf(d - 1, hs.fmix(h ^ 0x9e3779b97f4a7c15), n - 1)
  }

  /** s is the k-th slot to look at: k strides from the ideal slot, around the end, or for k beyond 32 so many single
      steps. */
  ghost predicate Candidate(hs: Hashes, h: bv64, n: nat, k: nat, s: nat)
    requires n > 0
  {
    exists ideal: nat, d: nat ::
      HighOf(ideal, h, n) && StrideOf(d, hs, h, n) && s == (ideal + if k <= 32 then k * d else k - 32) % n
  }

  lemma HighIsUnique(a: nat, b: nat, h: bv64, n: nat)
    requires HighOf(a, h, n) && HighOf(b, h, n)
    ensures a == b
  {
  }

  lemma HighOfFastRange(h: bv64, n: u32)
    ensures HighOf(FastRange(h, n), h, n)
  {
    FastRangeIsHighWord(h, n);
  }

  lemma StrideOfProbeStep(hs: Hashes, h: bv64, n: u32)
    ensures StrideOf(ProbeStep(hs, h, n), hs, h, n)
  {
    if n >= 2 {
      HighOfFastRange(hs.fmix(h ^ PROBE_SALT), n - 1);
    }
  }

  lemma StrideIsUnique(a: nat, b: nat, hs: Hashes, h: bv64, n: nat)
    requires StrideOf(a, hs, h, n) && StrideOf(b, hs, h, n)
    ensures a == b
  {
    hide HighOf;
    if n >= 2 {
      HighIsUnique(a - 1, b - 1, hs.fmix(h ^ 0x9e3779b97f4a7c15), n - 1);
    }
  }

  /** The search looks at exactly these slots, in this order. */
  lemma SlotIsCandidate(hs: Hashes, h: bv64, n: u32, k: nat, s: nat)
    requires n > 0
    ensures Candidate(hs, h, n, k, s) <==> s == Slot(hs, h, n, k)
  {
    hide FastRange, ProbeStep, HighOf, StrideOf;
    var ideal, d := FastRange(h, n), ProbeStep(hs, h, n);
    HighOfFastRange(h, n);
    StrideOfProbeStep(hs, h, n);
    if Candidate(hs, h, n, k, s) {
      var i: nat, e: nat :| HighOf(i, h, n) && StrideOf(e, hs, h, n)
                            && s == (i + if k <= 32 then k * e else k - 32) % n;
      HighIsUnique(i, ideal, h, n);
      StrideIsUnique(e, d, hs, h, n);
    }
  }

  /** The address found is the first of them that is not taken. */
  lemma {:induction false} SearchIsInOrder(hs: Hashes, sl: Slice, used: set<u32>, h: bv64, from: nat) returns (k: nat)
    requires sl.Valid() && FirstFree(hs, sl, used, h, from).Some?
    ensures from <= k <= 32 + sl.usable
    ensures FirstFree(hs, sl, used, h, from) == Some(sl.lo + Slot(hs, h, sl.usable, k))
    ensures forall j :: from <= j < k ==> sl.lo + Slot(hs, h, sl.usable, j) in used
    decreases 32 + sl.usable + 1 - from
  {
    hide Slot;
    if sl.lo + Slot(hs, h, sl.usable, from) !in used {
      k := from;
    } else {
      k := SearchIsInOrder(hs, sl, used, h, from + 1);
    }
  }

  ghost predicate FirstChoice(hs: Hashes, h: bv64, sl: Slice, used: set<u32>, ip: nat)
    requires sl.Valid()
  {
    && ip !in used
    && exists k: nat, s: nat ::
         && k <= 32 + sl.usable && Candidate(hs, h, sl.usable, k, s) && ip == sl.lo + s
         && forall j: nat, t: nat :: j < k && Candidate(hs, h, sl.usable, j, t) ==> sl.lo + t in used
  }

  lemma FoundIsFirstChoice(hs: Hashes, sl: Slice, used: set<u32>, h: bv64)
    requires sl.Valid() && FirstFree(hs, sl, used, h, 0).Some?
    ensures FirstChoice(hs, h, sl, used, FirstFree(hs, sl, used, h, 0).value)
  {
    hide Slot, Candidate;
    var k := SearchIsInOrder(hs, sl, used, h, 0);
    var ip := FirstFree(hs, sl, used, h, 0).value;
    SlotIsCandidate(hs, h, sl.usable, k, ip - sl.lo);
    forall j: nat, t: nat | j < k && Candidate(hs, h, sl.usable, j, t) ensures sl.lo + t in used {
      SlotIsCandidate(hs, h, sl.usable, j, t);
    }
  }

  /** A name that is not live goes to the shard its hash selects, and there to the first choice of its mixed hash among
      the addresses that are left when the least recent entry of a full shard has gone. */
  lemma WhereANewNameGoes(hs: Hashes, l: Layout, st: State, name: Domain)
    requires Invariant(hs, l, st)
    requires forall s, k :: 0 <= s < |st| && 0 <= k < |st[s]| ==> st[s][k].domain != LowerAll(name)
    ensures var d, ip := LowerAll(name), AddressOf(hs, l, st, name);
            exists s: nat ::
              && s < l.nShards && HighOf(s, hs.rapid(d), l.nShards)
              && var left := if |st[s]| < l.cap then st[s] else st[s][..|st[s]| - 1];
              && AfterIntern(hs, l, st, name)[s] == [Entry(d, ip)] + left
              && FirstChoice(hs, hs.fmix(hs.rapid(d)), Slice(l.lo + s * l.span, l.span, l.cap), Addresses(left), ip)
  {
    hide FirstChoice, HighOf, FirstFree, FastRange;
    var d := LowerAll(name);
    var s, h := ShardOf(hs, l, d), PlaceHash(hs, d);
    var sl := l.SliceOf(s);
    HighOfFastRange(hs.rapid(d), l.nShards);
    assert WellFormed(sl, st[s]);
    RoomForOne(hs, sl, st[s], h);
    FoundIsFirstChoice(hs, sl, Addresses(MakeRoom(sl, st[s])), h);
    assert FindDomain(st[s], d).None?;
  }
}
