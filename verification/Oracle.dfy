/** The point-in-time oracle of the state-machine test, checked against the restore planner. */
module Oracle {
  import opened Options
  import opened Planner
  import opened Ranges
  import opened Retention
  import opened RetentionRuns

  /** The closed-form rule: from the newest surviving snapshot up to the target, no deleted snapshot lies between. */
  predicate PitReachable(snapshots: set<nat>, deleted: set<nat>, target: nat) {
    match NewestIn(snapshots - deleted, 0, target)
    case None => false
    case Some(s) => s == target || !(exists t :: t in snapshots && s + 1 <= t <= target && t in deleted)
  }

  /** The snapshots up to the object at `m` are those published up to `m`. */
  lemma SnapshotIndex(pubs: seq<Published>, m: nat, x: nat) returns (i: nat)
    requires History(pubs) && m < |pubs| && x in Snapshots(pubs) && x <= pubs[m].Last()
    ensures i <= m && pubs[i] == Snapshot(x)
  {
    i :| 0 <= i < |pubs| && pubs[i].Snapshot? && pubs[i].Last() == x;
    if m < i {
      Ordered(pubs, m, i);
    }
  }

  /** Position `a` holds the newest surviving snapshot at or before position `m`. */
  ghost predicate BaseAt(pubs: seq<Published>, deleted: set<nat>, a: nat, m: nat)
    requires a <= m < |pubs|
  {
    && pubs[a].Snapshot? && pubs[a].txid !in deleted
    && forall j :: a < j <= m && pubs[j].Snapshot? ==> pubs[j].txid in deleted
  }

  lemma FindBase(pubs: seq<Published>, deleted: set<nat>, m: nat) returns (a: nat)
    requires History(pubs) && m < |pubs| && NewestIn(Snapshots(pubs) - deleted, 0, pubs[m].Last()).Some?
    ensures a <= m && BaseAt(pubs, deleted, a, m)
    ensures NewestIn(Snapshots(pubs) - deleted, 0, pubs[m].Last()) == Some(pubs[a].txid)
  {
    var s := NewestIn(Snapshots(pubs) - deleted, 0, pubs[m].Last()).value;
    a := SnapshotIndex(pubs, m, s);
    forall j | a < j <= m && pubs[j].Snapshot?
      ensures pubs[j].txid in deleted
    {
      Ordered(pubs, a, j);
      assert pubs[j].Last() in Snapshots(pubs);
      if j < m {
        Ordered(pubs, j, m);
      }
      if pubs[j].txid !in deleted {
        NewestIsNewest(Snapshots(pubs) - deleted, 0, pubs[m].Last(), pubs[j].txid);
      }
    }
  }

  /** Everything after position `a`, up to `m`, is incremental. */
  ghost predicate AllIncremental(pubs: seq<Published>, a: nat, m: nat)
    requires m < |pubs|
  {
    forall j :: a < j <= m ==> pubs[j].Incremental?
  }

  /** The closed form says: an unbroken run of incrementals leads from the base to the target. */
  lemma ReachableFromBase(pubs: seq<Published>, deleted: set<nat>, a: nat, m: nat)
    requires History(pubs) && a <= m < |pubs| && BaseAt(pubs, deleted, a, m)
    requires NewestIn(Snapshots(pubs) - deleted, 0, pubs[m].Last()) == Some(pubs[a].txid)
    ensures PitReachable(Snapshots(pubs), deleted, pubs[m].Last()) <==> AllIncremental(pubs, a, m)
  {
    var s, target := pubs[a].txid, pubs[m].Last();
    if AllIncremental(pubs, a, m) {
      forall t | t in Snapshots(pubs) && s + 1 <= t <= target
        ensures t !in deleted
      {
        var i := SnapshotIndex(pubs, m, t);
        if i < a {
          Ordered(pubs, i, a);
        }
      }
    } else {
      var j :| a < j <= m && !pubs[j].Incremental?;
      Ordered(pubs, a, j);
      if j < m {
        Ordered(pubs, j, m);
      }
      assert pubs[j].Last() in Snapshots(pubs) && pubs[j].Last() in deleted;
    }
  }

  /** The objects the planner is given: incrementals, at least those between `floor` and `target`. */
  ghost predicate PoolFor(pool: seq<Candidate>, pubs: seq<Published>, floor: nat, target: nat) {
    && (forall c :: c in pool ==> c.range in Live(pubs))
    && (forall r :: r in Live(pubs) && r.max > floor && r.min <= target ==> exists c :: c in pool && c.range == r)
  }

  /** An incremental of the pool that starts where position `i` starts is the object at that position. */
  lemma StartsAt(pubs: seq<Published>, i: nat, r: SeqRange)
    requires History(pubs) && i < |pubs| && r in Live(pubs) && r.min == pubs[i].First()
    ensures pubs[i] == Incremental(r)
  {
    var j := LiveIndex(pubs, r);
    if j < i {
      Ordered(pubs, j, i);
    } else if i < j {
      Ordered(pubs, i, j);
    }
  }

  lemma NextStarts(pubs: seq<Published>, a: nat, m: nat)
    requires History(pubs) && a < m < |pubs|
    ensures Follows(pubs[a + 1], pubs[a].Last()) && pubs[a + 1].Last() <= pubs[m].Last()
  {
    HistoryPrefix(pubs, a + 1);
    assert pubs[..a + 1][a] == pubs[a];
    if a + 1 < m {
      Ordered(pubs, a + 1, m);
    }
  }

  /** No incremental starts right behind position `a` unless it is the next object. */
  lemma NoneStarts(pubs: seq<Published>, a: nat, r: SeqRange)
    requires History(pubs) && a + 1 < |pubs| && pubs[a + 1].Snapshot? && r in Live(pubs)
    ensures r.min != pubs[a].Last() + 1
  {
    var j := LiveIndex(pubs, r);
    if j <= a {
      HistoryPrefix(pubs, j);
      if j < a {
        Ordered(pubs, j, a);
      }
    } else {
      NextStarts(pubs, a, j);
      Ordered(pubs, a + 1, j);
    }
  }

  /** In front of an incremental the planner takes it. */
  lemma WalkIncremental(pool: seq<Candidate>, pubs: seq<Published>, floor: nat, a: nat, m: nat)
    returns (pick: Candidate)
    requires History(pubs) && a < m < |pubs| && floor <= pubs[a].Last() && pubs[a + 1].Incremental?
    requires PoolFor(pool, pubs, floor, pubs[m].Last()) && Upward(pool)
    ensures PlanFrom(pool, pubs[a].Last(), pubs[m].Last()) ==
            Prepend(pick, PlanFrom(pool, pubs[a + 1].Last(), pubs[m].Last()))
  {
    var cursor, target, next := pubs[a].Last(), pubs[m].Last(), pubs[a + 1];
    NextStarts(pubs, a, m);
    LivePrefix(pubs, a + 1);
    assert next.range in Live(pubs);
    var c :| c in pool && c.range == next.range;
    FurthestIsFurthest(pool, cursor + 1, target, c);
    pick := Furthest(pool, cursor + 1, target).value;
    StartsAt(pubs, a + 1, pick.range);
    StepPlan(pool, cursor, target, pick);
  }

  /** In front of a snapshot it stops: no incremental continues the chain. */
  lemma WalkSnapshot(pool: seq<Candidate>, pubs: seq<Published>, floor: nat, a: nat, m: nat)
    requires History(pubs) && a < m < |pubs| && pubs[a + 1].Snapshot?
    requires PoolFor(pool, pubs, floor, pubs[m].Last()) && Upward(pool)
    ensures PlanFrom(pool, pubs[a].Last(), pubs[m].Last()) == ChainGap(pubs[a].Last() + 1, pubs[a].Last())
  {
    var cursor := pubs[a].Last();
    NextStarts(pubs, a, m);
    forall c | c in pool
      ensures c.range.min != cursor + 1
    {
      NoneStarts(pubs, a, c.range);
    }
  }

  /** From position `a` the planner follows the incrementals to position `k`: the target, or the place in front of
      the first snapshot on the way. */
  ghost predicate Walked(pool: seq<Candidate>, pubs: seq<Published>, a: nat, m: nat, k: nat)
    requires Upward(pool) && a < |pubs| && m < |pubs|
  {
    && a <= k <= m && AllIncremental(pubs, a, k)
    && var plan := PlanFrom(pool, pubs[a].Last(), pubs[m].Last());
       if AllIncremental(pubs, a, m) then plan.Plan? && k == m
       else k < m && plan == ChainGap(pubs[k].Last() + 1, pubs[k].Last()) && pubs[k + 1].Snapshot?
  }

  lemma WalkOn(pool: seq<Candidate>, pubs: seq<Published>, a: nat, m: nat, k: nat, pick: Candidate)
    requires Upward(pool) && a < m < |pubs| && pubs[a + 1].Incremental? && Walked(pool, pubs, a + 1, m, k)
    requires PlanFrom(pool, pubs[a].Last(), pubs[m].Last()) ==
             Prepend(pick, PlanFrom(pool, pubs[a + 1].Last(), pubs[m].Last()))
    ensures Walked(pool, pubs, a, m, k)
  {
    forall j | a < j <= k
      ensures pubs[j].Incremental?
    {
      assert j == a + 1 || a + 1 < j;
    }
    assert AllIncremental(pubs, a, m) <==> AllIncremental(pubs, a + 1, m);
  }

  lemma WalkStays(pool: seq<Candidate>, pubs: seq<Published>, a: nat)
    requires Upward(pool) && a < |pubs|
    ensures Walked(pool, pubs, a, a, a)
  {
  }

  lemma WalkStops(pool: seq<Candidate>, pubs: seq<Published>, a: nat, m: nat)
    requires Upward(pool) && a < m < |pubs| && pubs[a + 1].Snapshot?
    requires PlanFrom(pool, pubs[a].Last(), pubs[m].Last()) == ChainGap(pubs[a].Last() + 1, pubs[a].Last())
    ensures Walked(pool, pubs, a, m, a)
  {
    assert !AllIncremental(pubs, a, m);
  }

  lemma WalkTakes(pool: seq<Candidate>, pubs: seq<Published>, floor: nat, a: nat, m: nat, k: nat)
    requires History(pubs) && a < m < |pubs| && floor <= pubs[a].Last() && pubs[a + 1].Incremental?
    requires PoolFor(pool, pubs, floor, pubs[m].Last()) && Upward(pool) && Walked(pool, pubs, a + 1, m, k)
    ensures Walked(pool, pubs, a, m, k)
  {
    var pick := WalkIncremental(pool, pubs, floor, a, m);
    WalkOn(pool, pubs, a, m, k, pick);
  }

  lemma {:induction false} WalkEnd(pool: seq<Candidate>, pubs: seq<Published>, floor: nat, a: nat, m: nat)
    returns (k: nat)
    requires History(pubs) && a <= m < |pubs| && floor <= pubs[a].Last()
    requires PoolFor(pool, pubs, floor, pubs[m].Last()) && Upward(pool)
    ensures Walked(pool, pubs, a, m, k)
    decreases m - a
  {
    k := a;
    if a == m {
      WalkStays(pool, pubs, a);
    } else if pubs[a + 1].Incremental? {
      Ordered(pubs, a, a + 1);
      k := WalkEnd(pool, pubs, floor, a + 1, m);
      WalkTakes(pool, pubs, floor, a, m, k);
    } else {
      WalkSnapshot(pool, pubs, floor, a, m);
      WalkStops(pool, pubs, a, m);
    }
  }

  /** Where the planner stops in front of a snapshot, that one was deleted. */
  lemma StopsAtDeleted(pubs: seq<Published>, deleted: set<nat>, a: nat, m: nat, k: nat)
    requires History(pubs) && a <= k < m < |pubs| && BaseAt(pubs, deleted, a, m) && pubs[k + 1].Snapshot?
    ensures pubs[k + 1].txid in deleted && pubs[a].Last() <= pubs[k].Last()
  {
    if a < k {
      Ordered(pubs, a, k);
    }
  }

  /** Position `k` is a recorded boundary in front of a snapshot that was deleted. */
  ghost predicate InFrontOfDeleted(pubs: seq<Published>, deleted: set<nat>, k: nat) {
    k + 1 < |pubs| && pubs[k + 1].Snapshot? && pubs[k + 1].txid in deleted
  }

  /** Oracle equals replay, for any history and any set of deletions: at a boundary the closed form holds exactly
      when there is a base and the planner gets from it to the boundary. When it does not hold, the planner stops
      at an earlier recorded boundary, in front of a snapshot that was deleted. */
  lemma OracleEqualsReplay(pubs: seq<Published>, deleted: set<nat>, pool: seq<Candidate>, m: nat)
    requires History(pubs) && m < |pubs|
    requires PoolFor(pool, pubs, 0, pubs[m].Last()) && Upward(pool)
    ensures var base := NewestIn(Snapshots(pubs) - deleted, 0, pubs[m].Last());
            var reachable := PitReachable(Snapshots(pubs), deleted, pubs[m].Last());
            && (base.None? ==> !reachable)
            && (base.Some? ==>
                  var plan := PlanFrom(pool, base.value, pubs[m].Last());
                  && (reachable <==> plan.Plan?)
                  && (!reachable ==>
                        && plan.ChainGap? && base.value <= plan.nearestBelow && plan.needed == plan.nearestBelow + 1
                        && exists k :: && 0 <= k < m && pubs[k].Last() == plan.nearestBelow
                                       && InFrontOfDeleted(pubs, deleted, k)))
  {
    var base := NewestIn(Snapshots(pubs) - deleted, 0, pubs[m].Last());
    if base.Some? {
      var a := FindBase(pubs, deleted, m);
      ReachableFromBase(pubs, deleted, a, m);
      var k := WalkEnd(pool, pubs, 0, a, m);
      if k < m && pubs[k + 1].Snapshot? && !AllIncremental(pubs, a, m) {
        StopsAtDeleted(pubs, deleted, a, m, k);
        assert InFrontOfDeleted(pubs, deleted, k);
      }
    }
  }

  /** Deleting more never makes an unreachable point reachable. */
  lemma ReachabilityAntitone(snapshots: set<nat>, deleted: set<nat>, more: set<nat>, target: nat)
    requires deleted <= more && PitReachable(snapshots, more, target)
    ensures PitReachable(snapshots, deleted, target)
  {
    var s := NewestIn(snapshots - more, 0, target).value;
    NewestIsNewest(snapshots - deleted, 0, target, s);
  }

  /** The run of incrementals that ends at position `m` starts behind a snapshot. */
  lemma {:induction false} RunStart(pubs: seq<Published>, m: nat) returns (a: nat)
    requires History(pubs) && m < |pubs|
    ensures a <= m && pubs[a].Snapshot? && AllIncremental(pubs, a, m)
  {
    if pubs[m].Snapshot? {
      a := m;
    } else {
      HistoryPrefix(pubs, m + 1);
      assert pubs[..m + 1][..m] == pubs[..m] && pubs[..m + 1][m] == pubs[m];
      a := RunStart(pubs, m - 1);
    }
  }

  /** Pruning safety, exactly: after any run of publishing, failed PUTs and prunes, each while no leftover covers a
      load-bearing snapshot, whatever the policies proposed, a boundary is reachable unless it is itself the TXID of a
      deleted snapshot. Every incremental boundary stays reachable. */
  lemma ReachableIff(events: seq<Event>, m: nat)
    requires RunOk(events) && m < |Run(events).pubs|
    ensures var b := Run(events);
            PitReachable(Snapshots(b.pubs), b.deleted, b.pubs[m].Last()) <==>
            b.pubs[m].Incremental? || b.pubs[m].txid !in b.deleted
  {
    RunSafe(events);
    SafeReachableIff(Run(events), m);
  }

  lemma SafeReachableIff(b: Bucket, m: nat)
    requires Safe(b) && m < |b.pubs|
    ensures PitReachable(Snapshots(b.pubs), b.deleted, b.pubs[m].Last()) <==>
            b.pubs[m].Incremental? || b.pubs[m].txid !in b.deleted
  {
    var pubs, target := b.pubs, b.pubs[m].Last();
    var z := RunStart(pubs, m);
    if pubs[m].Incremental? {
      assert pubs[z + 1].Incremental?;
      assert LoadBearing(pubs, z);
      Ordered(pubs, z, m);
    }
    if pubs[m].Incremental? || pubs[m].txid !in b.deleted {
      assert pubs[z].Last() in Snapshots(pubs) - b.deleted;
      NewestIsNewest(Snapshots(pubs) - b.deleted, 0, target, pubs[z].txid);
    }
    if NewestIn(Snapshots(pubs) - b.deleted, 0, target).Some? {
      var a := FindBase(pubs, b.deleted, m);
      ReachableFromBase(pubs, b.deleted, a, m);
      if a < z {
        assert pubs[z].Snapshot?;
      }
    }
  }

  /** The least member within `[lo, hi]`. */
  function OldestIn(txids: set<nat>, lo: nat, hi: nat): (r: Option<nat>)
    ensures r.Some? ==> r.value in txids && lo <= r.value <= hi
    decreases hi - lo
  {
    if hi < lo then None
    else if lo in txids then Some(lo)
    else OldestIn(txids, lo + 1, hi)
  }

  lemma {:induction false} OldestFound(txids: set<nat>, lo: nat, hi: nat, x: nat)
    requires x in txids && lo <= x <= hi
    ensures OldestIn(txids, lo, hi).Some? && OldestIn(txids, lo, hi).value <= x
    decreases hi - lo
  {
    if lo !in txids {
      OldestFound(txids, lo + 1, hi, x);
    }
  }

  /** How a restore to `target` ends. `NotFound` and `Absorbed` are the typed "not restorable" answers, the latter
      naming the reached boundary and the next snapshot; `Broken` is an untyped chain gap. */
  datatype Ending =
    | Restored(txid: nat)
    | NotFound
    | Absorbed(below: nat, above: nat)
    | Broken(needed: nat)
    | Folded(lo: nat, hi: nat)

  ghost function RestorePit(b: Bucket, pool: seq<Candidate>, target: nat): (r: Ending)
    requires Upward(pool)
  {
    var survivors := Snapshots(b.pubs) - b.deleted;
    var base := NewestIn(survivors, 0, target);
    if base.None? then NotFound
    else
      var plan := PlanFrom(pool, base.value, target);
      var later := OldestIn(survivors, target, Head(b.pubs));
      if plan.Plan? then Restored(target)
      else if plan.InsideWindow? then Folded(plan.windowMin, plan.windowMax)
      else if later.Some? then Absorbed(plan.nearestBelow, later.value)
      else Broken(plan.needed)
  }

  /** What each ending of a restore says, for any bucket, pool and target. */
  lemma PitAnswer(b: Bucket, pool: seq<Candidate>, target: nat)
    requires Upward(pool)
    ensures var survivors := Snapshots(b.pubs) - b.deleted;
            match RestorePit(b, pool, target)
            case Restored(t) => t == target && exists s :: s in survivors && s <= target && Chain(pool, s, target)
            case NotFound => forall s :: s in survivors ==> s > target
            case Absorbed(below, above) =>
              && below < target <= above && above in survivors
              && (forall c :: c in pool ==> c.range.min != below + 1)
              && exists s :: s in survivors && s <= below && Chain(pool, s, below)
            case Broken(needed) =>
              && needed <= target && (forall c :: c in pool ==> c.range.min != needed)
              && forall s :: s in survivors ==> s < target || s > Head(b.pubs)
            case Folded(lo, hi) => lo <= target < hi && exists c :: c in pool && c.range == SeqRange(lo, hi)
  {
    var survivors := Snapshots(b.pubs) - b.deleted;
    var base := NewestIn(survivors, 0, target);
    forall s | s in survivors && s <= target
      ensures base.Some?
    {
      NewestIsNewest(survivors, 0, target, s);
    }
    forall s | s in survivors && target <= s <= Head(b.pubs)
      ensures OldestIn(survivors, target, Head(b.pubs)).Some?
    {
      OldestFound(survivors, target, Head(b.pubs), s);
    }
    if base.Some? {
      PlanMeans(pool, base.value, target);
      if PlanFrom(pool, base.value, target).Plan? {
        PlanIsChain(pool, base.value, target);
      } else {
        assert Chain(pool, base.value, PlanFrom(pool, base.value, target).nearestBelow);
      }
    }
  }

  /** The boundary at position `i` is reachable. */
  ghost predicate Reached(b: Bucket, i: nat)
    requires i < |b.pubs|
  {
    PitReachable(Snapshots(b.pubs), b.deleted, b.pubs[i].Last())
  }

  /** `below` and `above` are the reachable boundaries nearest to position `m`, the latter a snapshot. */
  ghost predicate Nearest(b: Bucket, m: nat, k: nat, n: nat, below: nat, above: nat) {
    && k < m < n < |b.pubs| && b.pubs[k].Last() == below && b.pubs[n] == Snapshot(above)
    && Reached(b, k) && Reached(b, n) && forall j :: k < j < n ==> !Reached(b, j)
  }

  /** How a restore to the boundary at position `m` may end. */
  ghost predicate EndsTyped(b: Bucket, m: nat, ending: Ending)
    requires m < |b.pubs|
  {
    match ending
    case Restored(t) => t == b.pubs[m].Last() && Reached(b, m)
    case NotFound => forall j :: 0 <= j <= m ==> !Reached(b, j)
    case Absorbed(below, above) => exists k: nat, n: nat :: Nearest(b, m, k, n, below, above)
    case Broken(_) => false
    case Folded(_, _) => false
  }

  /** The last snapshot always survives, so behind a deleted one there is a survivor. */
  lemma NextSurvivor(b: Bucket, m: nat)
    requires Safe(b) && m < |b.pubs| && b.pubs[m].Snapshot? && b.pubs[m].txid in b.deleted
    ensures var target := b.pubs[m].txid;
            var r := OldestIn(Snapshots(b.pubs) - b.deleted, target, Head(b.pubs));
            r.Some? && target < r.value
  {
    var pubs := b.pubs;
    var z := RunStart(pubs, |pubs| - 1);
    assert LoadBearing(pubs, z);
    assert m <= z;
    Ordered(pubs, m, z);
    assert pubs[z].Last() in Snapshots(pubs) - b.deleted;
    SnapshotsBelow(pubs, pubs[z].txid);
    OldestFound(Snapshots(pubs) - b.deleted, pubs[m].txid, Head(pubs), pubs[z].txid);
  }

  ghost predicate IsDeleted(b: Bucket, i: nat)
    requires i < |b.pubs|
  {
    b.pubs[i].Snapshot? && b.pubs[i].txid in b.deleted
  }

  /** Behind a deleted snapshot comes a snapshot, so deleted ones stand together. */
  lemma {:induction false} DeletedRun(b: Bucket, i: nat, j: nat)
    requires Safe(b) && i <= j < |b.pubs| && IsDeleted(b, i)
    requires forall x :: i < x <= j && b.pubs[x].Snapshot? ==> IsDeleted(b, x)
    ensures forall x :: i <= x <= j ==> IsDeleted(b, x) && !Reached(b, x)
    decreases j - i
  {
    SafeReachableIff(b, i);
    if i < j {
      assert !LoadBearing(b.pubs, i);
      DeletedRun(b, i + 1, j);
    }
  }

  /** The first survivor behind a deleted snapshot. */
  lemma NextReached(b: Bucket, m: nat, above: nat) returns (n: nat)
    requires Safe(b) && m < |b.pubs| && IsDeleted(b, m)
    requires OldestIn(Snapshots(b.pubs) - b.deleted, b.pubs[m].txid, Head(b.pubs)) == Some(above)
    ensures m < n < |b.pubs| && b.pubs[n] == Snapshot(above) && Reached(b, n)
    ensures forall j :: m <= j < n ==> !Reached(b, j)
  {
    var pubs, survivors := b.pubs, Snapshots(b.pubs) - b.deleted;
    n :| 0 <= n < |pubs| && pubs[n].Snapshot? && pubs[n].Last() == above;
    if n < m {
      Ordered(pubs, n, m);
    }
    SafeReachableIff(b, n);
    forall x | m < x <= n - 1 && pubs[x].Snapshot?
      ensures IsDeleted(b, x)
    {
      Ordered(pubs, m, x);
      Ordered(pubs, x, n);
      if pubs[x].txid !in b.deleted {
        assert pubs[x].Last() in survivors;
        SnapshotsBelow(pubs, pubs[x].txid);
        OldestFound(survivors, pubs[m].txid, Head(pubs), pubs[x].txid);
      }
    }
    DeletedRun(b, m, n - 1);
  }

  /** From the base at `a` the walk stops at `k`: that is reachable. */
  lemma StopReached(b: Bucket, a: nat, k: nat)
    requires Safe(b) && a <= k < |b.pubs| && AllIncremental(b.pubs, a, k)
    requires b.pubs[a].Snapshot? && b.pubs[a].txid !in b.deleted
    ensures Reached(b, k)
  {
    SafeReachableIff(b, k);
    assert k == a || b.pubs[k].Incremental?;
  }

  /** And nothing behind it up to `m` is. */
  lemma NoneReached(b: Bucket, a: nat, k: nat, m: nat)
    requires Safe(b) && a <= k < m < |b.pubs| && BaseAt(b.pubs, b.deleted, a, m) && b.pubs[k + 1].Snapshot?
    ensures forall j :: k < j <= m ==> !Reached(b, j)
  {
    forall x | k < x <= m && b.pubs[x].Snapshot?
      ensures IsDeleted(b, x)
    {
    }
    DeletedRun(b, k + 1, m);
  }

  /** Without a base nothing is reachable. */
  lemma NoBaseNothing(b: Bucket, m: nat)
    requires Safe(b) && m < |b.pubs| && NewestIn(Snapshots(b.pubs) - b.deleted, 0, b.pubs[m].Last()).None?
    ensures forall j :: 0 <= j <= m ==> !Reached(b, j)
  {
    forall j | 0 <= j <= m
      ensures !Reached(b, j)
    {
      var base := NewestIn(Snapshots(b.pubs) - b.deleted, 0, b.pubs[j].Last());
      if base.Some? {
        if j < m {
          Ordered(b.pubs, j, m);
        }
        NewestIsNewest(Snapshots(b.pubs) - b.deleted, 0, b.pubs[m].Last(), base.value);
      }
    }
  }

  lemma SafeEndsTyped(b: Bucket, pool: seq<Candidate>, m: nat)
    requires Safe(b) && m < |b.pubs| && PoolFor(pool, b.pubs, 0, b.pubs[m].Last()) && Upward(pool)
    ensures EndsTyped(b, m, RestorePit(b, pool, b.pubs[m].Last()))
  {
    var pubs, target := b.pubs, b.pubs[m].Last();
    var base := NewestIn(Snapshots(pubs) - b.deleted, 0, target);
    if base.None? {
      NoBaseNothing(b, m);
    } else {
      var a := FindBase(pubs, b.deleted, m);
      ReachableFromBase(pubs, b.deleted, a, m);
      var k := WalkEnd(pool, pubs, 0, a, m);
      if !AllIncremental(pubs, a, m) {
        StopReached(b, a, k);
        NoneReached(b, a, k, m);
        SafeReachableIff(b, m);
        NextSurvivor(b, m);
        var above := OldestIn(Snapshots(pubs) - b.deleted, target, Head(pubs)).value;
        var n := NextReached(b, m, above);
        assert Nearest(b, m, k, n, pubs[k].Last(), above);
      }
    }
  }

  /** After any such run, a restore to a recorded boundary reaches it, exactly when the oracle says so, or ends in a
      typed answer: the reachable boundaries nearest to it on both sides, or that there is none up to it. It never runs
      into an untyped gap. */
  lemma RestoreEndsTyped(events: seq<Event>, pool: seq<Candidate>, m: nat)
    requires RunOk(events) && m < |Run(events).pubs|
    requires PoolFor(pool, Run(events).pubs, 0, Run(events).pubs[m].Last()) && Upward(pool)
    ensures var b := Run(events);
            var ending := RestorePit(b, pool, b.pubs[m].Last());
            EndsTyped(b, m, ending) && (ending.Restored? <==> Reached(b, m))
  {
    RunSafe(events);
    SafeEndsTyped(Run(events), pool, m);
  }
}
