/** The negative cache of failed sniffs (neg_cache.rs): a table of expiring failure counts, against the histories it
    stands for. Clock readings are arguments. */
module NegCache {
  import opened MachineInts
  import opened Wrappers

  datatype Key = Key(ip: Bytes, port: u16)

  datatype Entry = Entry(fails: byte, expires: int)

  type Table = map<Key, Entry>

  datatype Config = Config(ttl: nat, threshold: byte) {
    predicate Valid() {
      threshold >= 1
    }
  }

  const CAP_BEFORE_GC: nat := 4096

  /** One call; `note_failure` reads the clock once for itself and once more if it collects garbage. */
  datatype Event =
    | Failure(key: Key, now: int, gcNow: int)
    | Success(key: Key, now: int)
    | Gc(now: int)

  function IsHitIn(cfg: Config, t: Table, key: Key, now: int): bool {
    key in t && t[key].fails >= cfg.threshold && now < t[key].expires
  }

  function Collected(t: Table, now: int): Table {
    map k | k in t && now < t[k].expires :: t[k]
  }

  /** `(fails + 1).min(threshold)` on the source's bytes. */
  function Bumped(cfg: Config, fails: byte): byte {
    Min((fails as int + 1) % 256, cfg.threshold)
  }

  function Noted(cfg: Config, t: Table, key: Key, now: int): Table {
    var fails := if key !in t || now >= t[key].expires then 0 else t[key].fails;
    t[key := Entry(Bumped(cfg, fails), now + cfg.ttl)]
  }

  function Apply(cfg: Config, t: Table, e: Event): Table {
    match e
    case Failure(key, now, gcNow) => Noted(cfg, if |t| >= CAP_BEFORE_GC then Collected(t, gcNow) else t, key, now)
    case Success(key, _) => t - {key}
    case Gc(now) => Collected(t, now)
  }

  class SniffNegCache {
    var inner: Table
    var count: nat
    const cfg: Config

    ghost predicate Valid()
      reads this
    {
      cfg.Valid() && count == |inner|
    }

    constructor (ttl: nat, threshold: byte)
      ensures Valid() && inner == map[] && cfg.ttl == ttl
      ensures cfg.threshold == if threshold >= 1 then threshold else 1
    {
      inner, count := map[], 0;
      cfg := Config(ttl, if threshold >= 1 then threshold else 1);
    }

    method IsHit(key: Key, now: int) returns (hit: bool)
      requires Valid()
      ensures hit == IsHitIn(cfg, inner, key, now)
    {
      if count == 0 {
        return false;
      }
      if key in inner {
        hit := inner[key].fails >= cfg.threshold && now < inner[key].expires;
      } else {
        hit := false;
      }
    }

    method CollectGarbage(now: int)
      requires Valid()
      modifies this
      ensures Valid() && inner == Collected(old(inner), now)
      ensures forall k :: k in inner <==> k in old(inner) && now < old(inner)[k].expires
      ensures forall k :: k in inner ==> inner[k] == old(inner)[k]
    {
      inner := map k | k in inner && now < inner[k].expires :: inner[k];
      count := |inner|;
    }

    method NoteFailure(key: Key, now: int, gcNow: int)
      requires Valid()
      modifies this
      ensures Valid() && inner == Apply(cfg, old(inner), Failure(key, now, gcNow))
    {
      if |inner| >= CAP_BEFORE_GC {
        CollectGarbage(gcNow);
      }
      var fresh' := false;
      if key in inner {
        var e := inner[key];
        if now >= e.expires {
          e := e.(fails := 0);
        }
        e := e.(fails := Min((e.fails as int + 1) % 256, cfg.threshold));
        e := e.(expires := now + cfg.ttl);
        inner := inner[key := e];
      } else {
        fresh' := true;
        inner := inner[key := Entry(Min(1, cfg.threshold), now + cfg.ttl)];
      }
      if fresh' {
        count := count + 1;
      }
    }

    method NoteSuccess(key: Key, now: int)
      requires Valid()
      modifies this
      ensures Valid() && inner == Apply(cfg, old(inner), Success(key, now))
    {
      if count == 0 {
        return;
      }
      if key in inner {
        inner := inner - {key};
        count := count - 1;
      }
    }
  }

  /** Below 4096 entries a failure collects nothing, and touches the entry of its own key only; with more it drops every
      other entry that has expired, and only those. A success drops its own entry. */
  lemma EventsTouch(cfg: Config, t: Table, e: Event, k: Key)
    requires e.Gc? || k != e.key
    ensures var t' := Apply(cfg, t, e);
            && (k in t' <==> k in t && match e
                                       case Failure(_, _, gcNow) => |t| < 4096 || gcNow < t[k].expires
                                       case Success(_, _) => true
                                       case Gc(now) => now < t[k].expires)
            && (k in t' ==> t'[k] == t[k])
    ensures e.Success? ==> e.key !in Apply(cfg, t, e)
    ensures e.Failure? ==> e.key in Apply(cfg, t, e) && Apply(cfg, t, e)[e.key].expires == e.now + cfg.ttl
  {
  }

  // ---------------------------------------------------------------- histories

  function Clock(e: Event): int {
    match e
    case Failure(_, now, gcNow) => if gcNow >= now then gcNow else now
    case Success(_, now) => now
    case Gc(now) => now
  }

  function Start(e: Event): int {
    e.now
  }

  /** Clock readings never go back. */
  ghost predicate Timed(h: seq<Event>) {
    && (forall i :: 0 <= i < |h| && h[i].Failure? ==> h[i].now <= h[i].gcNow)
    && forall i, j :: 0 <= i < j < |h| ==> Clock(h[i]) <= Start(h[j])
  }

  function TableAfter(cfg: Config, h: seq<Event>): Table {
    if h == [] then map[] else Apply(cfg, TableAfter(cfg, h[..|h| - 1]), h[|h| - 1])
  }

  /** The collection inside a failure, which comes between two clock readings, takes nothing of its own key's count:
      the entry outlives the second reading, or the failure counts as the first one anyway, or what the failure writes
      has itself expired by then. */
  ghost predicate Harmless(cfg: Config, t: Table, e: Event) {
    e.Failure? && |t| >= CAP_BEFORE_GC && e.key in t && e.now < t[e.key].expires ==>
      || e.gcNow < t[e.key].expires
      || Bumped(cfg, t[e.key].fails) == Bumped(cfg, 0)
      || e.now + cfg.ttl <= e.gcNow
  }

  ghost predicate AllHarmless(cfg: Config, h: seq<Event>) {
    forall i :: 0 <= i < |h| ==> Harmless(cfg, TableAfter(cfg, h[..i]), h[i])
  }

  /** No event of the history lies after `now`. */
  ghost predicate Until(h: seq<Event>, now: int) {
    forall i :: 0 <= i < |h| ==> Clock(h[i]) <= now
  }

  /** What happened to one key, oldest first. */
  datatype Outcome = Outcome(failed: bool, at: int)

  function Outcomes(h: seq<Event>, key: Key): seq<Outcome> {
    if h == [] then []
    else
      var before, e := Outcomes(h[..|h| - 1], key), h[|h| - 1];
      if e.Failure? && e.key == key then before + [Outcome(true, e.now)]
      else if e.Success? && e.key == key then before + [Outcome(false, e.now)]
      else before
  }

  /** The last `n` outcomes are failures, each within ttl of the one before, and `now` is within ttl of the last. */
  ghost predicate Suppressed(os: seq<Outcome>, n: nat, ttl: nat, now: int)
    requires n >= 1
  {
    && |os| >= n
    && (forall i :: |os| - n <= i < |os| ==> os[i].failed)
    && (forall i :: |os| - n < i < |os| ==> os[i].at < os[i - 1].at + ttl)
    && now < os[|os| - 1].at + ttl
  }

  /** Length of the unbroken run of failures at the end. */
  function Streak(os: seq<Outcome>, ttl: nat): (n: nat)
    ensures n <= |os|
  {
    if os == [] || !os[|os| - 1].failed then 0
    else if |os| >= 2 && os[|os| - 1].at < os[|os| - 2].at + ttl then 1 + Streak(os[..|os| - 1], ttl)
    else 1
  }

  lemma {:induction false} StreakMeasures(os: seq<Outcome>, n: nat, ttl: nat, now: int)
    requires n >= 1
    ensures Suppressed(os, n, ttl, now) <==>
            Streak(os, ttl) >= n && os != [] && now < os[|os| - 1].at + ttl
  {
    if n > 1 && |os| >= n {
      var init := os[..|os| - 1];
      if os[|os| - 1].at < os[|os| - 2].at + ttl {
        StreakMeasures(init, n - 1, ttl, os[|os| - 1].at);
        assert forall i :: 0 <= i < |init| ==> init[i] == os[i];
        if Suppressed(init, n - 1, ttl, os[|os| - 1].at) && os[|os| - 1].failed && now < os[|os| - 1].at + ttl {
          assert forall i :: |os| - n < i < |init| ==> os[i].at < os[i - 1].at + ttl;
        }
      }
    }
  }

  /** What an entry says about its key's history, and what its absence says. The count of an expired entry says
      nothing, and is never used. */
  ghost predicate Represents(cfg: Config, t: Table, os: seq<Outcome>, key: Key, clock: int) {
    if key in t then
      && os != [] && os[|os| - 1].failed
      && t[key].expires == os[|os| - 1].at + cfg.ttl
      && (clock < t[key].expires ==> t[key].fails == Min(Streak(os, cfg.ttl), cfg.threshold))
    else
      os == [] || !os[|os| - 1].failed || clock >= os[|os| - 1].at + cfg.ttl
  }

  function AlsoOutcome(os: seq<Outcome>, e: Event, key: Key): seq<Outcome> {
    if e.Failure? && e.key == key then os + [Outcome(true, e.now)]
    else if e.Success? && e.key == key then os + [Outcome(false, e.now)]
    else os
  }

  lemma StreakSnoc(os: seq<Outcome>, o: Outcome, ttl: nat)
    ensures Streak(os + [o], ttl) ==
            if !o.failed then 0
            else if os != [] && o.at < os[|os| - 1].at + ttl then 1 + Streak(os, ttl)
            else 1
    ensures os == [] || !os[|os| - 1].failed ==> Streak(os, ttl) == 0
    ensures os != [] && os[|os| - 1].failed ==> Streak(os, ttl) >= 1
  {
    assert (os + [o])[..|os|] == os;
  }

  /** An event keeps the table in step with a key's history exactly if it is harmless or about another key. */
  lemma ApplyRepresentsExactly(cfg: Config, t: Table, e: Event, os: seq<Outcome>, key: Key, clock: int)
    requires cfg.Valid() && cfg.threshold <= 254
    requires Represents(cfg, t, os, key, clock) && clock <= Start(e) <= Clock(e)
    ensures Represents(cfg, Apply(cfg, t, e), AlsoOutcome(os, e, key), key, Clock(e)) <==>
            Harmless(cfg, t, e) || !e.Failure? || e.key != key
  {
    hide Streak, Harmless;
    if e.Failure? && e.key == key {
      FailureRepresentsExactly(cfg, t, e, os, clock);
    }
  }

  lemma FailureRepresentsExactly(cfg: Config, t: Table, e: Event, os: seq<Outcome>, clock: int)
    requires cfg.Valid() && cfg.threshold <= 254 && e.Failure?
    requires Represents(cfg, t, os, e.key, clock) && clock <= Start(e) <= Clock(e)
    ensures Represents(cfg, Apply(cfg, t, e), os + [Outcome(true, e.now)], e.key, Clock(e)) <==> Harmless(cfg, t, e)
  {
    hide Streak;
    StreakSnoc(os, Outcome(true, e.now), cfg.ttl);
  }

  lemma {:induction false} TableRepresents(cfg: Config, h: seq<Event>, key: Key, now: int)
    requires cfg.Valid() && cfg.threshold <= 254 && Timed(h) && AllHarmless(cfg, h) && Until(h, now)
    ensures Represents(cfg, TableAfter(cfg, h), Outcomes(h, key), key, now)
    decreases |h|
  {
    hide Represents, Harmless, Apply, Timed, AllHarmless, Until;
    if h == [] {
      EmptyRepresents(cfg, key, now);
    } else {
      var before, e := h[..|h| - 1], h[|h| - 1];
      LastEvent(cfg, h, now);
      TableRepresents(cfg, before, key, Start(e));
      ApplyRepresentsExactly(cfg, TableAfter(cfg, before), e, Outcomes(before, key), key, Start(e));
      LaterRepresents(cfg, TableAfter(cfg, h), Outcomes(h, key), key, Clock(e), now);
    }
  }

  lemma LastEvent(cfg: Config, h: seq<Event>, now: int)
    requires cfg.Valid() && Timed(h) && AllHarmless(cfg, h) && Until(h, now) && h != []
    ensures var before, e := h[..|h| - 1], h[|h| - 1];
            && Timed(before) && AllHarmless(cfg, before) && Until(before, Start(e))
            && Harmless(cfg, TableAfter(cfg, before), e) && Start(e) <= Clock(e) <= now
  {
    hide Harmless, TableAfter;
    var before := h[..|h| - 1];
    forall i | 0 <= i < |before| ensures Harmless(cfg, TableAfter(cfg, before[..i]), before[i]) {
      assert before[..i] == h[..i];
    }
    assert before == h[..|before|];
  }

  lemma EmptyRepresents(cfg: Config, key: Key, now: int)
    ensures Represents(cfg, map[], [], key, now)
  {
  }

  lemma LaterRepresents(cfg: Config, t: Table, os: seq<Outcome>, key: Key, clock: int, now: int)
    requires Represents(cfg, t, os, key, clock) && clock <= now
    ensures Represents(cfg, t, os, key, now)
  {
  }

  /** A question about a key is answered as the key's history says. */
  ghost predicate Answered(cfg: Config, h: seq<Event>, key: Key, now: int)
    requires cfg.Valid()
  {
    IsHitIn(cfg, TableAfter(cfg, h), key, now) <==> Suppressed(Outcomes(h, key), cfg.threshold, cfg.ttl, now)
  }

  /** After harmless events the cache answers every question by the key's history alone. */
  lemma HitIffSuppressed(cfg: Config, h: seq<Event>, key: Key, now: int)
    requires cfg.Valid() && cfg.threshold <= 254 && Timed(h) && AllHarmless(cfg, h) && Until(h, now)
    ensures Answered(cfg, h, key, now)
  {
    hide TableAfter, Outcomes, Suppressed, AllHarmless, Timed;
    TableRepresents(cfg, h, key, now);
    StreakMeasures(Outcomes(h, key), cfg.threshold, cfg.ttl, now);
  }

  // ---------------------------------------------------------------- harmless events are exactly the right ones

  /** The same failure over and over, at one instant. */
  function Repeats(key: Key, n: nat, now: int): (h: seq<Event>)
    ensures |h| == n
  {
    seq(n, _ => Failure(key, now, now))
  }

  /** Nothing in the table has expired. */
  ghost predicate Unexpired(t: Table, now: int) {
    forall k :: k in t ==> now < t[k].expires
  }

  function FailsOf(t: Table, key: Key): byte {
    if key in t then t[key].fails else 0
  }

  lemma RepeatOnce(cfg: Config, t: Table, key: Key, now: int)
    requires Unexpired(t, now)
    ensures Apply(cfg, t, Failure(key, now, now)) == t[key := Entry(Bumped(cfg, FailsOf(t, key)), now + cfg.ttl)]
  {
    assert Collected(t, now) == t;
  }

  lemma RepeatsSnoc(h: seq<Event>, key: Key, n: nat, now: int)
    requires n > 0
    ensures (h + Repeats(key, n, now))[..|h| + n - 1] == h + Repeats(key, n - 1, now)
    ensures (h + Repeats(key, n, now))[|h| + n - 1] == Failure(key, now, now)
  {
  }

  /** Failures at one instant count up to the threshold, and touch nothing else while nothing is expired. */
  lemma {:induction false} RepeatsCount(cfg: Config, h: seq<Event>, key: Key, n: nat, now: int)
    requires cfg.Valid() && cfg.ttl >= 1 && Unexpired(TableAfter(cfg, h), now)
    requires n >= 1 && FailsOf(TableAfter(cfg, h), key) as int + n <= cfg.threshold
    ensures TableAfter(cfg, h + Repeats(key, n, now)) ==
            TableAfter(cfg, h)[key := Entry(FailsOf(TableAfter(cfg, h), key) as int + n, now + cfg.ttl)]
  {
    hide Apply;
    var t := TableAfter(cfg, h);
    RepeatsSnoc(h, key, n, now);
    if n == 1 {
      assert h + Repeats(key, 0, now) == h;
      RepeatOnce(cfg, t, key, now);
    } else {
      RepeatsCount(cfg, h, key, n - 1, now);
      var t' := t[key := Entry(FailsOf(t, key) as int + (n - 1), now + cfg.ttl)];
      RepeatOnce(cfg, t', key, now);
      assert t'[key := Entry(FailsOf(t, key) as int + n, now + cfg.ttl)] ==
             t[key := Entry(FailsOf(t, key) as int + n, now + cfg.ttl)];
    }
  }

  lemma {:induction false} RepeatsOutcomes(h: seq<Event>, key: Key, n: nat, now: int)
    ensures Outcomes(h + Repeats(key, n, now), key) == Outcomes(h, key) + seq(n, _ => Outcome(true, now))
  {
    if n == 0 {
      assert h + Repeats(key, 0, now) == h;
    } else {
      RepeatsSnoc(h, key, n, now);
      RepeatsOutcomes(h, key, n - 1, now);
    }
  }

  lemma RepeatsTimed(h: seq<Event>, key: Key, n: nat, now: int)
    requires Timed(h) && Until(h, now)
    ensures Timed(h + Repeats(key, n, now)) && Until(h + Repeats(key, n, now), now)
  {
  }

  lemma RepeatsHarmless(cfg: Config, h: seq<Event>, key: Key, n: nat, now: int)
    requires AllHarmless(cfg, h)
    ensures AllHarmless(cfg, h + Repeats(key, n, now))
  {
    hide TableAfter;
    var g := h + Repeats(key, n, now);
    forall i | 0 <= i < |g| ensures Harmless(cfg, TableAfter(cfg, g[..i]), g[i]) {
      if i < |h| {
        assert g[..i] == h[..i];
      }
    }
  }

  /** Failures at one instant extend the streak one by one. */
  lemma {:induction false} StreakExtends(os: seq<Outcome>, n: nat, ttl: nat, now: int)
    requires ttl >= 1 && os != [] && os[|os| - 1].failed && now < os[|os| - 1].at + ttl
    ensures Streak(os + seq(n, _ => Outcome(true, now)), ttl) == Streak(os, ttl) + n
  {
    var all := os + seq(n, _ => Outcome(true, now));
    if n == 0 {
      assert all == os;
    } else {
      assert all[..|all| - 1] == os + seq(n - 1, _ => Outcome(true, now));
      StreakExtends(os, n - 1, ttl, now);
    }
  }

  /** What a failure leaves behind that is not harmless: a first failure, in a table without expired entries. */
  lemma HarmLeavesOne(cfg: Config, t: Table, e: Event)
    requires cfg.Valid() && !Harmless(cfg, t, e)
    ensures e.Failure? && e.gcNow < e.now + cfg.ttl
    ensures e.now <= e.gcNow ==>
              var t' := Apply(cfg, t, e);
              Unexpired(t', e.gcNow) && e.key in t' && t'[e.key] == Entry(1, e.now + cfg.ttl)
  {
  }

  /** A harmful event shows: after as many further failures as the key's history needs for the threshold, all at the
      time of the event's second clock reading, the cache still does not suppress it. */
  lemma HarmIsSeen(cfg: Config, h: seq<Event>, e: Event) returns (n: nat)
    requires cfg.Valid() && e.Failure? && cfg.threshold <= 254
    requires Timed(h + [e]) && AllHarmless(cfg, h) && !Harmless(cfg, TableAfter(cfg, h), e)
    ensures var g := h + [e] + Repeats(e.key, n, e.gcNow);
            && !IsHitIn(cfg, TableAfter(cfg, g), e.key, e.gcNow)
            && Suppressed(Outcomes(g, e.key), cfg.threshold, cfg.ttl, e.gcNow)
  {
    hide Apply, Harmless, AllHarmless, TableAfter, Represents, Outcomes;
    var key, c := e.key, e.gcNow;
    BeforeLast(cfg, h, e);
    var t, os := TableAfter(cfg, h), Outcomes(h, key);
    TableRepresents(cfg, h, key, e.now);
    HarmLeavesOne(cfg, t, e);
    StreakAfterHarm(cfg, t, os, e);
    var os' := os + [Outcome(true, e.now)];
    n := if Streak(os', cfg.ttl) >= cfg.threshold then 0 else cfg.threshold - Streak(os', cfg.ttl);
    var g := h + [e] + Repeats(key, n, c);
    if n == 0 {
      assert g == h + [e];
    } else {
      RepeatsCount(cfg, h + [e], key, n, c);
    }
    RepeatsOutcomes(h + [e], key, n, c);
    StreakExtends(os', n, cfg.ttl, c);
    StreakMeasures(os' + seq(n, _ => Outcome(true, c)), cfg.threshold, cfg.ttl, c);
  }

  lemma BeforeLast(cfg: Config, h: seq<Event>, e: Event)
    requires Timed(h + [e])
    ensures Timed(h) && Until(h, e.now) && (e.Failure? ==> e.now <= e.gcNow)
    ensures TableAfter(cfg, h + [e]) == Apply(cfg, TableAfter(cfg, h), e)
    ensures forall key :: Outcomes(h + [e], key) == AlsoOutcome(Outcomes(h, key), e, key)
  {
    var g := h + [e];
    assert g[..|h|] == h && g[|h|] == e;
    forall i | 0 <= i < |h| ensures Clock(h[i]) <= Start(e) {
      assert g[i] == h[i];
    }
    forall i, j | 0 <= i < j < |h| ensures Clock(h[i]) <= Start(h[j]) {
      assert g[i] == h[i] && g[j] == h[j];
    }
    forall i | 0 <= i < |h| && h[i].Failure? ensures h[i].now <= h[i].gcNow {
      assert g[i] == h[i];
    }
  }

  /** The history of a key that a harmful event is about counts at least two failures. */
  lemma StreakAfterHarm(cfg: Config, t: Table, os: seq<Outcome>, e: Event)
    requires cfg.Valid() && cfg.threshold <= 254 && !Harmless(cfg, t, e)
    requires Represents(cfg, t, os, e.key, e.now)
    ensures Streak(os + [Outcome(true, e.now)], cfg.ttl) >= 2 && cfg.threshold >= 2
  {
    var os' := os + [Outcome(true, e.now)];
    assert os'[..|os'| - 1] == os;
  }

  /** Every question at any point of the history, also after further failures of its key at the time it is asked, is
      answered as the history says. */
  ghost predicate AlwaysAnswered(cfg: Config, h: seq<Event>)
    requires cfg.Valid()
  {
    forall i, n: nat, key, now ::
      0 <= i <= |h| && Until(h[..i], now) ==> Answered(cfg, h[..i] + Repeats(key, n, now), key, now)
  }

  /** A history is answered throughout exactly if all its events are harmless. */
  lemma AnsweredExactly(cfg: Config, h: seq<Event>)
    requires cfg.Valid() && cfg.threshold <= 254 && Timed(h)
    ensures AlwaysAnswered(cfg, h) <==> AllHarmless(cfg, h)
  {
    hide Harmless, Answered, TableAfter;
    if AllHarmless(cfg, h) {
      forall i, n: nat, key, now | 0 <= i <= |h| && Until(h[..i], now)
        ensures Answered(cfg, h[..i] + Repeats(key, n, now), key, now)
      {
        PrefixHarmless(cfg, h, i);
        RepeatsTimed(h[..i], key, n, now);
        RepeatsHarmless(cfg, h[..i], key, n, now);
        HitIffSuppressed(cfg, h[..i] + Repeats(key, n, now), key, now);
      }
    } else {
      var i := FirstHarm(cfg, h);
      HarmIsAsked(cfg, h, i);
    }
  }

  lemma PrefixHarmless(cfg: Config, h: seq<Event>, i: nat)
    requires i <= |h| && Timed(h) && AllHarmless(cfg, h)
    ensures Timed(h[..i]) && AllHarmless(cfg, h[..i])
  {
    hide Harmless, TableAfter;
    forall j | 0 <= j < i ensures Harmless(cfg, TableAfter(cfg, h[..i][..j]), h[..i][j]) {
      assert h[..i][..j] == h[..j];
    }
  }

  lemma {:induction false} FirstHarm(cfg: Config, h: seq<Event>) returns (i: nat)
    requires !AllHarmless(cfg, h)
    ensures i < |h| && AllHarmless(cfg, h[..i]) && !Harmless(cfg, TableAfter(cfg, h[..i]), h[i])
    decreases |h|
  {
    hide Harmless, TableAfter;
    var before := h[..|h| - 1];
    if AllHarmless(cfg, before) {
      i := |before|;
      forall j | 0 <= j < i ensures Harmless(cfg, TableAfter(cfg, h[..j]), h[j]) {
        assert before[..j] == h[..j];
      }
    } else {
      i := FirstHarm(cfg, before);
      assert before[..i] == h[..i];
    }
  }

  lemma HarmIsAsked(cfg: Config, h: seq<Event>, i: nat)
    requires cfg.Valid() && cfg.threshold <= 254 && Timed(h) && i < |h|
    requires AllHarmless(cfg, h[..i]) && !Harmless(cfg, TableAfter(cfg, h[..i]), h[i])
    ensures !AlwaysAnswered(cfg, h)
  {
    hide AllHarmless, TableAfter;
    var e := h[i];
    assert h[..i + 1] == h[..i] + [e];
    HarmLeavesOne(cfg, TableAfter(cfg, h[..i]), e);
    var n := HarmIsSeen(cfg, h[..i], e);
    assert Until(h[..i + 1], e.gcNow);
    assert !Answered(cfg, h[..i + 1] + Repeats(e.key, n, e.gcNow), e.key, e.gcNow);
  }

  // ---------------------------------------------------------------- garbage collection

  function WithoutGc(h: seq<Event>): seq<Event> {
    if h == [] then []
    else if h[|h| - 1].Gc? then WithoutGc(h[..|h| - 1])
    else WithoutGc(h[..|h| - 1]) + [h[|h| - 1]]
  }

  /** The entry of a key unless it has expired. */
  function Live(t: Table, key: Key, now: int): Option<Entry> {
    if key in t && now < t[key].expires then Some(t[key]) else None
  }

  /** Two tables that differ in expired entries only. */
  ghost predicate SameView(a: Table, b: Table, now: int) {
    forall k :: Live(a, k, now) == Live(b, k, now)
  }

  /** Harmless events cannot tell such tables apart. */
  lemma SameStep(cfg: Config, a: Table, b: Table, e: Event, clock: int)
    requires SameView(a, b, clock) && clock <= Start(e) <= Clock(e)
    requires Harmless(cfg, a, e) && Harmless(cfg, b, e)
    ensures SameView(Apply(cfg, a, e), Apply(cfg, b, e), Clock(e))
  {
    hide Harmless;
    forall k ensures Live(Apply(cfg, a, e), k, Clock(e)) == Live(Apply(cfg, b, e), k, Clock(e)) {
      assert Live(a, k, clock) == Live(b, k, clock);
      AfterStep(cfg, a, e, k, clock);
      AfterStep(cfg, b, e, k, clock);
    }
  }

  /** What is live after a harmless event depends on what was live before. */
  lemma AfterStep(cfg: Config, t: Table, e: Event, k: Key, clock: int)
    requires clock <= Start(e) <= Clock(e) && Harmless(cfg, t, e)
    ensures Live(Apply(cfg, t, e), k, Clock(e)) == LiveAfter(cfg, Live(t, k, clock), e, k)
  {
  }

  function LiveAfter(cfg: Config, live: Option<Entry>, e: Event, k: Key): Option<Entry> {
    var kept := if live.Some? && Clock(e) < live.value.expires then live else None;
    match e
    case Failure(key, now, _) =>
      if key != k then kept
      else if now + cfg.ttl <= Clock(e) then None
      else Some(Entry(Bumped(cfg, if live.Some? && now < live.value.expires then live.value.fails else 0),
                      now + cfg.ttl))
    case Success(key, _) => if key == k then None else kept
    case Gc(_) => kept
  }

  lemma {:induction false} SameWithoutGc(cfg: Config, h: seq<Event>, now: int)
    requires cfg.Valid() && Timed(h) && Until(h, now) && AllHarmless(cfg, h) && AllHarmless(cfg, WithoutGc(h))
    ensures SameView(TableAfter(cfg, WithoutGc(h)), TableAfter(cfg, h), now)
    decreases |h|
  {
    hide Harmless, AllHarmless, Timed, Until, Apply, SameView;
    if h == [] {
      SameAtFirst(now);
    } else {
      var before, e := h[..|h| - 1], h[|h| - 1];
      LastEvent(cfg, h, now);
      var a, b := TableAfter(cfg, WithoutGc(before)), TableAfter(cfg, before);
      if e.Gc? {
        SameWithoutGc(cfg, before, Start(e));
        GcStep(cfg, a, b, e, now);
      } else {
        assert WithoutGc(h)[..|WithoutGc(h)| - 1] == WithoutGc(before);
        HarmlessSnoc(cfg, WithoutGc(before), e);
        SameWithoutGc(cfg, before, Start(e));
        SameStep(cfg, a, b, e, Start(e));
        LaterSame(Apply(cfg, a, e), Apply(cfg, b, e), Clock(e), now);
      }
    }
  }

  lemma SameAtFirst(now: int)
    ensures SameView(map[], map[], now)
  {
  }

  lemma HarmlessSnoc(cfg: Config, h: seq<Event>, e: Event)
    requires AllHarmless(cfg, h + [e])
    ensures AllHarmless(cfg, h) && Harmless(cfg, TableAfter(cfg, h), e)
  {
    hide Harmless, TableAfter;
    var g := h + [e];
    assert g[..|h|] == h && g[|h|] == e;
    forall i | 0 <= i < |h| ensures Harmless(cfg, TableAfter(cfg, h[..i]), h[i]) {
      assert g[..i] == h[..i];
    }
  }

  lemma GcStep(cfg: Config, a: Table, b: Table, e: Event, now: int)
    requires e.Gc? && SameView(a, b, Start(e)) && Clock(e) <= now
    ensures SameView(a, Apply(cfg, b, e), now)
  {
    forall k ensures Live(a, k, now) == Live(Apply(cfg, b, e), k, now) {
      assert Live(a, k, Start(e)) == Live(b, k, Start(e));
    }
  }

  lemma LaterSame(a: Table, b: Table, clock: int, now: int)
    requires SameView(a, b, clock) && clock <= now
    ensures SameView(a, b, now)
  {
    forall k ensures Live(a, k, now) == Live(b, k, now) {
      assert Live(a, k, clock) == Live(b, k, clock);
    }
  }

  /** Collecting garbage at any points of a history changes no answer, for any threshold, if the history's events are
      harmless with and without the collections; `NegCacheLimits.GcIsUnobservableExactly` says when that always
      holds. */
  lemma GcIsUnobservable(cfg: Config, h: seq<Event>, key: Key, now: int)
    requires cfg.Valid() && Timed(h) && Until(h, now) && AllHarmless(cfg, h) && AllHarmless(cfg, WithoutGc(h))
    ensures IsHitIn(cfg, TableAfter(cfg, WithoutGc(h)), key, now) == IsHitIn(cfg, TableAfter(cfg, h), key, now)
  {
    SameWithoutGc(cfg, h, now);
    assert Live(TableAfter(cfg, WithoutGc(h)), key, now) == Live(TableAfter(cfg, h), key, now);
  }
}
