/** Every shard of a pool lives through its own share of the pool's history, so the LRU theorem of
    `RecencyHistory` holds of whole pools. */
module PoolHistory {
  import opened MachineInts
  import opened Wrappers
  import opened Hashing
  import opened RecencyList
  import opened PoolLayout
  import opened PoolState
  import History = RecencyHistory

  /** The operations of a pool run that reach shard s, as that shard sees them. */
  function Project(hs: Hashes, l: Layout, ops: seq<PoolOp>, s: nat): seq<History.Op>
    requires l.Valid()
  {
    if ops == [] then []
    else
      var before := Project(hs, l, ops[..|ops| - 1], s);
      match ops[|ops| - 1]
      case Intern(name) =>
        var d := LowerAll(name);
        if ShardOf(hs, l, d) == s then before + [History.InternOp(d, PlaceHash(hs, d))] else before
      case Lookback(ip) =>
        if Route(l, ip) == Some(s) then before + [History.LookbackOp(ip)] else before
  }

  lemma {:induction false} ShardLivesItsShare(hs: Hashes, l: Layout, ops: seq<PoolOp>, s: nat)
    requires l.Valid() && s < l.nShards
    ensures Run(hs, l, ops)[s] == History.Run(hs, l.SliceOf(s), Project(hs, l, ops, s))
  {
    if ops != [] {
      var before, op := ops[..|ops| - 1], ops[|ops| - 1];
      ShardLivesItsShare(hs, l, before, s);
      var shares, share := Project(hs, l, before, s), Project(hs, l, ops, s);
      if share != shares {
        assert share[..|share| - 1] == shares;
      }
    }
  }

  /** Over any run of a pool: a name last touched at position i of its shard's touch log is live exactly when fewer
      than `cap` other names of that shard were touched since, and then its address looks back to it. */
  lemma PoolLru(hs: Hashes, l: Layout, ops: seq<PoolOp>, s: nat, i: nat)
    requires l.Valid() && s < l.nShards
    requires var log := History.Touches(hs, l.SliceOf(s), Project(hs, l, ops, s));
             i < |log| && log[i] !in log[i + 1..]
    ensures var log := History.Touches(hs, l.SliceOf(s), Project(hs, l, ops, s));
            var st := Run(hs, l, ops);
            if |History.Elements(log[i + 1..])| < l.cap
            then exists k :: 0 <= k < |st[s]| && st[s][k].domain == log[i]
                             && NameOf(l, st, st[s][k].ip) == Some(log[i])
            else forall k :: 0 <= k < |st[s]| ==> st[s][k].domain != log[i]
  {
    var st := Run(hs, l, ops);
    var log := History.Touches(hs, l.SliceOf(s), Project(hs, l, ops, s));
    ShardLivesItsShare(hs, l, ops, s);
    History.LiveIffRecentlyTouched(hs, l.SliceOf(s), Project(hs, l, ops, s), i);
    match FindDomain(st[s], log[i])
    case Some(k) => LiveLooksBack(hs, l, st, s, k);
    case None =>
  }
}
