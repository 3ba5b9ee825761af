/** For which configurations the negative cache (neg_cache.rs) answers by history whatever happens, and for which
    collecting garbage never shows; with the histories on which it goes wrong for all others. */
module NegCacheLimits {
  import opened MachineInts
  import opened Wrappers
  import opened NegCache

  // ---------------------------------------------------------------- configurations that cannot go wrong

  /** What every reachable table keeps: no count above the threshold. */
  lemma {:induction false} CountsStayLow(cfg: Config, h: seq<Event>, k: Key)
    requires cfg.Valid() && k in TableAfter(cfg, h)
    ensures TableAfter(cfg, h)[k].fails <= cfg.threshold
  {
    var before, e := h[..|h| - 1], h[|h| - 1];
    if k in TableAfter(cfg, before) {
      CountsStayLow(cfg, before, k);
    }
  }

  /** With a threshold of one every failure counts as the first; with a ttl of at most one clock tick what a failure
      writes is gone when its own entry is. */
  lemma NothingHarms(cfg: Config, h: seq<Event>)
    requires cfg.Valid() && (cfg.threshold == 1 || cfg.ttl <= 1)
    ensures AllHarmless(cfg, h)
  {
    hide TableAfter;
    forall i | 0 <= i < |h| ensures Harmless(cfg, TableAfter(cfg, h[..i]), h[i]) {
      if h[i].Failure? && h[i].key in TableAfter(cfg, h[..i]) {
        CountsStayLow(cfg, h[..i], h[i].key);
      }
    }
  }

  lemma {:induction false} ZeroTtlExpires(cfg: Config, h: seq<Event>, key: Key, now: int)
    requires cfg.ttl == 0 && Timed(h) && Until(h, now) && key in TableAfter(cfg, h)
    ensures TableAfter(cfg, h)[key].expires <= now
    decreases |h|
  {
    var before, e := h[..|h| - 1], h[|h| - 1];
    assert Start(e) <= Clock(e) <= now;
    if key in TableAfter(cfg, before) {
      ZeroTtlExpires(cfg, before, key, now);
    }
  }

  lemma {:induction false} OutcomesArePast(h: seq<Event>, key: Key, now: int)
    requires Timed(h) && Until(h, now)
    ensures forall i :: 0 <= i < |Outcomes(h, key)| ==> Outcomes(h, key)[i].at <= now
    decreases |h|
  {
    if h != [] {
      assert Start(h[|h| - 1]) <= Clock(h[|h| - 1]) <= now;
      OutcomesArePast(h[..|h| - 1], key, now);
    }
  }

  lemma NeverHit(cfg: Config, h: seq<Event>, key: Key, now: int)
    requires cfg.Valid() && cfg.ttl == 0 && Timed(h) && Until(h, now)
    ensures Answered(cfg, h, key, now)
  {
    hide TableAfter, Outcomes;
    if key in TableAfter(cfg, h) {
      ZeroTtlExpires(cfg, h, key, now);
    }
    OutcomesArePast(h, key, now);
    var os := Outcomes(h, key);
    assert os != [] ==> os[|os| - 1].at <= now;
  }

  // ---------------------------------------------------------------- histories that fill the table

  const VICTIM := Key([192, 0, 2, 0], 0)

  function Crowd(n: nat): seq<Event>
    requires n < 4096
  {
    seq(n, i requires 0 <= i < n => Failure(Bystander(i), 0, 0))
  }

  function Bystander(i: nat): Key
    requires i < 4096
  {
    Key([192, 0, 2, 1], i)
  }

  /** What a crowd leaves: one entry each, none of them the victim's. */
  ghost predicate Crowded(cfg: Config, t: Table, n: nat)
    requires n < 4096
  {
    && |t| == n
    && (forall k :: k in t ==> t[k].expires == cfg.ttl)
    && (forall k :: k in t ==> exists i :: 0 <= i < n && k == Bystander(i))
  }

  lemma {:induction false} CrowdFills(cfg: Config, n: nat)
    requires cfg.Valid() && n < 4096
    ensures Crowded(cfg, TableAfter(cfg, Crowd(n)), n)
    ensures Outcomes(Crowd(n), VICTIM) == []
    ensures Timed(Crowd(n)) && Until(Crowd(n), 0)
  {
    if n > 0 {
      var h := Crowd(n);
      assert h[..n - 1] == Crowd(n - 1) && h[n - 1] == Failure(Bystander(n - 1), 0, 0);
      CrowdFills(cfg, n - 1);
      OneMoreBystander(cfg, TableAfter(cfg, Crowd(n - 1)), n);
    }
  }

  lemma OneMoreBystander(cfg: Config, t: Table, n: nat)
    requires 1 <= n < 4096 && Crowded(cfg, t, n - 1)
    ensures Crowded(cfg, Apply(cfg, t, Failure(Bystander(n - 1), 0, 0)), n)
  {
    var k := Bystander(n - 1);
    if k in t {
      assert false;
    }
    var t' := t[k := Entry(Bumped(cfg, 0), cfg.ttl)];
    assert Apply(cfg, t, Failure(k, 0, 0)) == t';
    assert t'.Keys == t.Keys + {k};
    forall x | x in t' ensures exists i :: 0 <= i < n && x == Bystander(i) {
      if x != k {
        var i :| 0 <= i < n - 1 && x == Bystander(i);
      }
    }
  }

  /** The table full, with the victim one failure short of the threshold, its last one at `at`. */
  function Brink(cfg: Config, at: nat): seq<Event>
    requires cfg.Valid()
  {
    Crowd(4095) + Repeats(VICTIM, cfg.threshold as int - 1, at)
  }

  lemma VictimIsNotInTheCrowd(cfg: Config, t: Table)
    requires Crowded(cfg, t, 4095)
    ensures VICTIM !in t
  {
    forall i | 0 <= i < 4095 ensures VICTIM != Bystander(i) {
      assert VICTIM.ip[3] != Bystander(i).ip[3];
    }
  }

  lemma BrinkIsReached(cfg: Config, at: nat)
    requires cfg.Valid() && cfg.threshold >= 2 && at < cfg.ttl
    ensures var h, t := Brink(cfg, at), TableAfter(cfg, Brink(cfg, at));
            && Timed(h) && Until(h, at)
            && Outcomes(h, VICTIM) == seq(cfg.threshold as int - 1, _ => Outcome(true, at))
            && |t| == 4096 && VICTIM in t && t[VICTIM] == Entry(cfg.threshold as int - 1, at + cfg.ttl)
            && forall k :: k in t && k != VICTIM ==> t[k].expires == cfg.ttl
  {
    hide TableAfter, Outcomes, Timed, Crowd, Repeats;
    CrowdFills(cfg, 4095);
    var crowd, n := TableAfter(cfg, Crowd(4095)), cfg.threshold as int - 1;
    VictimIsNotInTheCrowd(cfg, crowd);
    RepeatsCount(cfg, Crowd(4095), VICTIM, n, at);
    var t := crowd[VICTIM := Entry(n, at + cfg.ttl)];
    assert t.Keys == crowd.Keys + {VICTIM};
    RepeatsOutcomes(Crowd(4095), VICTIM, n, at);
    assert [] + seq(n, _ => Outcome(true, at)) == seq(n, _ => Outcome(true, at));
    assert Until(Crowd(4095), at);
    RepeatsTimed(Crowd(4095), VICTIM, n, at);
  }

  lemma TimedSnoc(h: seq<Event>, e: Event)
    requires Timed(h) && Until(h, Start(e)) && Start(e) <= Clock(e) && (e.Failure? ==> e.now <= e.gcNow)
    ensures Timed(h + [e]) && Until(h + [e], Clock(e))
  {
  }

  /** The threshold reached by failures at `at` and one more. */
  lemma ThresholdReached(n: nat, ttl: nat, at: int, last: int, now: int)
    requires n >= 1 && last < at + ttl && now < last + ttl && ttl >= 1
    ensures Suppressed(seq(n - 1, _ => Outcome(true, at)) + [Outcome(true, last)], n, ttl, now)
  {
  }

  // ---------------------------------------------------------------- the second clock reading

  /** With a full table, the failure that should reach the threshold is noted one tick before the entry expires, and
      the collection inside it comes one tick later. */
  function Straddling(cfg: Config): seq<Event>
    requires cfg.Valid()
  {
    Brink(cfg, 0) + [Failure(VICTIM, cfg.ttl as int - 1, cfg.ttl)]
  }

  /** It starts the count over: the key should be suppressed and is not. */
  lemma StraddlingFailureForgets(cfg: Config)
    requires cfg.Valid() && cfg.threshold >= 2 && cfg.ttl >= 2
    ensures var h := Straddling(cfg);
            && Timed(h) && Until(h, cfg.ttl)
            && Suppressed(Outcomes(h, VICTIM), cfg.threshold, cfg.ttl, cfg.ttl)
            && !IsHitIn(cfg, TableAfter(cfg, h), VICTIM, cfg.ttl)
  {
    hide TableAfter, Outcomes, Timed, Suppressed, Brink;
    BrinkIsReached(cfg, 0);
    var h, e := Brink(cfg, 0), Failure(VICTIM, cfg.ttl as int - 1, cfg.ttl);
    assert Until(h, Start(e));
    TimedSnoc(h, e);
    BeforeLast(cfg, h, e);
    ThresholdReached(cfg.threshold, cfg.ttl, 0, cfg.ttl as int - 1, cfg.ttl);
  }

  // ---------------------------------------------------------------- the largest threshold

  /** The largest threshold is reached by 255 failures in a row; the 256th wraps the count. */
  lemma CountWraps(cfg: Config, key: Key)
    requires cfg.threshold == 255 && cfg.ttl >= 1
    ensures TableAfter(cfg, Repeats(key, 256, 0)) == map[key := Entry(0, cfg.ttl)]
  {
    hide TableAfter, Repeats, Apply, Outcomes;
    NothingYet(cfg);
    RepeatsCount(cfg, [], key, 255, 0);
    RepeatsSnoc([], key, 256, 0);
    var h, before := Repeats(key, 256, 0), Repeats(key, 255, 0);
    assert [] + h == h && [] + before == before;
    LastOfAll(cfg, h);
    RepeatOnce(cfg, TableAfter(cfg, before), key, 0);
    assert map[][key := Entry(255, cfg.ttl)][key := Entry(0, cfg.ttl)] == map[key := Entry(0, cfg.ttl)];
  }

  lemma BurstSuppresses(n: nat, m: nat, ttl: nat)
    requires 1 <= n <= m && ttl >= 1
    ensures Suppressed(seq(m, _ => Outcome(true, 0)), n, ttl, 0)
  {
  }

  /** With the largest threshold the 256th failure in a row lifts the suppression. */
  lemma LargestThresholdForgets(cfg: Config)
    requires cfg.threshold == 255 && cfg.ttl >= 1
    ensures var h := Repeats(VICTIM, 256, 0);
            && Timed(h) && Until(h, 0) && AllHarmless(cfg, h)
            && Suppressed(Outcomes(h, VICTIM), cfg.threshold, cfg.ttl, 0)
            && !IsHitIn(cfg, TableAfter(cfg, h), VICTIM, 0)
  {
    hide TableAfter, Outcomes, AllHarmless, Timed, Until, Repeats, Suppressed;
    var h := Repeats(VICTIM, 256, 0);
    assert [] + h == h;
    NothingYet(cfg);
    CountWraps(cfg, VICTIM);
    RepeatsOutcomes([], VICTIM, 256, 0);
    RepeatsTimed([], VICTIM, 256, 0);
    RepeatsHarmless(cfg, [], VICTIM, 256, 0);
    assert [] + seq(256, _ => Outcome(true, 0)) == seq(256, _ => Outcome(true, 0));
    BurstSuppresses(255, 256, cfg.ttl);
  }

  lemma NothingYet(cfg: Config)
    ensures TableAfter(cfg, []) == map[] && Timed([]) && Until([], 0) && AllHarmless(cfg, [])
    ensures forall key :: Outcomes([], key) == []
  {
  }

  lemma LastOfAll(cfg: Config, h: seq<Event>)
    requires h != []
    ensures TableAfter(cfg, h) == Apply(cfg, TableAfter(cfg, h[..|h| - 1]), h[|h| - 1])
  {
  }

  // ---------------------------------------------------------------- exactly

  /** The cache answers by history on every history, without exception. */
  ghost predicate Faithful(cfg: Config)
    requires cfg.Valid()
  {
    forall h, key, now :: Timed(h) && Until(h, now) ==> Answered(cfg, h, key, now)
  }

  /** That holds exactly for a threshold of one, for no suppression at all, and for a ttl of one clock tick with a
      threshold whose count cannot wrap. */
  lemma FaithfulExactly(cfg: Config)
    requires cfg.Valid()
    ensures Faithful(cfg) <==> cfg.threshold == 1 || cfg.ttl == 0 || (cfg.ttl == 1 && cfg.threshold <= 254)
  {
    hide Answered, Timed, Until;
    if cfg.ttl == 0 {
      forall h, key, now | Timed(h) && Until(h, now) ensures Answered(cfg, h, key, now) {
        NeverHit(cfg, h, key, now);
      }
    } else if cfg.threshold == 1 || (cfg.ttl == 1 && cfg.threshold <= 254) {
      forall h, key, now | Timed(h) && Until(h, now) ensures Answered(cfg, h, key, now) {
        NothingHarms(cfg, h);
        HitIffSuppressed(cfg, h, key, now);
      }
    } else if cfg.ttl >= 2 {
      StraddlingFailureForgets(cfg);
      NotAnswered(cfg, Straddling(cfg), VICTIM, cfg.ttl);
    } else {
      LargestThresholdForgets(cfg);
      NotAnswered(cfg, Repeats(VICTIM, 256, 0), VICTIM, 0);
    }
  }

  lemma NotAnswered(cfg: Config, h: seq<Event>, key: Key, now: int)
    requires cfg.Valid() && !IsHitIn(cfg, TableAfter(cfg, h), key, now)
    requires Suppressed(Outcomes(h, key), cfg.threshold, cfg.ttl, now)
    ensures !Answered(cfg, h, key, now)
  {
  }

  // ---------------------------------------------------------------- garbage collection

  /** Whether collecting garbage, whenever it happens, changes no answer. */
  ghost predicate GcNeverShows(cfg: Config)
    requires cfg.Valid()
  {
    forall h, key, now :: Timed(h) && Until(h, now) ==>
      IsHitIn(cfg, TableAfter(cfg, WithoutGc(h)), key, now) == IsHitIn(cfg, TableAfter(cfg, h), key, now)
  }

  /** Collecting first empties the table enough that the failure does not collect. */
  function CollectedFirst(cfg: Config): seq<Event>
    requires cfg.Valid()
  {
    Brink(cfg, 1) + [Gc(cfg.ttl)] + [Failure(VICTIM, cfg.ttl, cfg.ttl as int + 1)]
  }

  lemma {:induction false} WithoutGcKeeps(h: seq<Event>)
    requires forall i :: 0 <= i < |h| ==> !h[i].Gc?
    ensures WithoutGc(h) == h
    decreases |h|
  {
    if h != [] {
      WithoutGcKeeps(h[..|h| - 1]);
      assert h == h[..|h| - 1] + [h[|h| - 1]];
    }
  }

  lemma WithoutGcSnoc(h: seq<Event>, e: Event)
    ensures WithoutGc(h + [e]) == if e.Gc? then WithoutGc(h) else WithoutGc(h) + [e]
  {
    assert (h + [e])[..|h|] == h;
  }

  lemma GcShows(cfg: Config)
    requires cfg.Valid() && cfg.threshold >= 2 && cfg.ttl >= 2
    ensures var h, now := CollectedFirst(cfg), cfg.ttl as int + 1;
            && Timed(h) && Until(h, now)
            && IsHitIn(cfg, TableAfter(cfg, h), VICTIM, now)
            && !IsHitIn(cfg, TableAfter(cfg, WithoutGc(h)), VICTIM, now)
  {
    hide TableAfter, Timed, Until, Brink, WithoutGc, Apply, Outcomes;
    BrinkIsReached(cfg, 1);
    var brink, gc, e := Brink(cfg, 1), Gc(cfg.ttl), Failure(VICTIM, cfg.ttl, cfg.ttl as int + 1);
    UntilLater(brink, 1, Start(gc));
    TimedSnoc(brink, gc);
    TimedSnoc(brink + [gc], e);
    BeforeLast(cfg, brink + [gc], e);
    BeforeLast(cfg, brink, gc);
    BrinkHasNoGc(cfg);
    WithoutGcSnoc(brink + [gc], e);
    WithoutGcSnoc(brink, gc);
    TimedSnoc(brink, e);
    BeforeLast(cfg, brink, e);
    GcSavesTheCount(cfg, TableAfter(cfg, brink));
    LateCollectionForgets(cfg, TableAfter(cfg, brink));
  }

  lemma UntilLater(h: seq<Event>, clock: int, now: int)
    requires Until(h, clock) && clock <= now
    ensures Until(h, now)
  {
  }

  /** The victim's entry outlives the others by one tick. */
  ghost predicate LastOneStanding(cfg: Config, t: Table)
    requires cfg.Valid()
  {
    && |t| == 4096 && VICTIM in t && t[VICTIM] == Entry(cfg.threshold as int - 1, 1 + cfg.ttl)
    && forall k :: k in t && k != VICTIM ==> t[k].expires == cfg.ttl
  }

  lemma GcSavesTheCount(cfg: Config, t: Table)
    requires cfg.Valid() && cfg.threshold >= 2 && cfg.ttl >= 2 && LastOneStanding(cfg, t)
    ensures IsHitIn(cfg, Apply(cfg, Apply(cfg, t, Gc(cfg.ttl)), Failure(VICTIM, cfg.ttl, cfg.ttl as int + 1)), VICTIM,
                    cfg.ttl as int + 1)
  {
    assert Collected(t, cfg.ttl) == map[VICTIM := t[VICTIM]];
  }

  lemma LateCollectionForgets(cfg: Config, t: Table)
    requires cfg.Valid() && cfg.threshold >= 2 && cfg.ttl >= 2 && LastOneStanding(cfg, t)
    ensures !IsHitIn(cfg, Apply(cfg, t, Failure(VICTIM, cfg.ttl, cfg.ttl as int + 1)), VICTIM, cfg.ttl as int + 1)
  {
  }

  lemma BrinkHasNoGc(cfg: Config)
    requires cfg.Valid()
    ensures WithoutGc(Brink(cfg, 1)) == Brink(cfg, 1)
  {
    WithoutGcKeeps(Brink(cfg, 1));
  }

  /** It never does exactly for a threshold of one or a ttl of at most one clock tick. */
  lemma GcIsUnobservableExactly(cfg: Config)
    requires cfg.Valid()
    ensures GcNeverShows(cfg) <==> cfg.threshold == 1 || cfg.ttl <= 1
  {
    hide Timed, Until, IsHitIn;
    if cfg.threshold == 1 || cfg.ttl <= 1 {
      forall h, key, now | Timed(h) && Until(h, now)
        ensures IsHitIn(cfg, TableAfter(cfg, WithoutGc(h)), key, now) == IsHitIn(cfg, TableAfter(cfg, h), key, now)
      {
        NothingHarms(cfg, h);
        NothingHarms(cfg, WithoutGc(h));
        GcIsUnobservable(cfg, h, key, now);
      }
    } else {
      GcShows(cfg);
    }
  }
}
