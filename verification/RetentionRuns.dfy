/** Runs of publishing, failed PUTs and pruning: which snapshots no run loses, and exactly which ones are protected. */
module RetentionRuns {
  import opened Lists
  import opened Options
  import opened Ranges
  import opened Retention

  /** Publishing the next object; an unconfirmed PUT of the next incremental that leaves an object in the live folder,
      torn or whole, while the writer stays where it is; or one prune: the planner sees the surviving snapshots
      `entries`, in any order, and any policy's `proposal`; of the deletions it plans those in `carriedOut` happen. */
  datatype Event =
    | Publish(next: Published)
    | Leave(span: SeqRange)
    | Prune(entries: seq<nat>, proposal: seq<nat>, carriedOut: set<nat>)

  datatype Bucket = Bucket(pubs: seq<Published>, deleted: set<nat>, leftovers: seq<SeqRange>)

  /** What a listing of the live folder shows. */
  function LiveFolder(b: Bucket): (r: seq<SeqRange>) {
    Live(b.pubs) + b.leftovers
  }

  /** The snapshot at position `i` is the last object, or an incremental follows it directly. */
  predicate LoadBearing(pubs: seq<Published>, i: nat)
    requires i < |pubs|
  {
    pubs[i].Snapshot? && (i + 1 < |pubs| ==> pubs[i + 1].Incremental?)
  }

  /** No leftover covers the TXID of a load-bearing snapshot. */
  ghost predicate ClearOfBearing(b: Bucket) {
    forall r, i :: r in b.leftovers && 0 <= i < |b.pubs| && LoadBearing(b.pubs, i) ==> !Contains(r, b.pubs[i].txid)
  }

  /** The snapshot at position `i` is load-bearing, or a leftover follows it directly. */
  ghost predicate Needed(b: Bucket, i: nat)
    requires i < |b.pubs|
  {
    && b.pubs[i].Snapshot?
    && (LoadBearing(b.pubs, i) || exists r :: r in b.leftovers && r.min == b.pubs[i].txid + 1)
  }

  ghost predicate ClearOfNeeded(b: Bucket) {
    forall r, i :: r in b.leftovers && 0 <= i < |b.pubs| && Needed(b, i) ==> !Contains(r, b.pubs[i].txid)
  }

  /** The entries a prune starts from. */
  ghost predicate Survivors(b: Bucket, entries: seq<nat>) {
    SetOf(entries) == Snapshots(b.pubs) - b.deleted
  }

  /** A prune takes place while no leftover covers a load-bearing snapshot. */
  ghost predicate Admissible(b: Bucket, e: Event) {
    match e
    case Publish(next) => History(b.pubs + [next])
    case Leave(span) => b.pubs != [] && span.min == Head(b.pubs) + 1 && span.min <= span.max
    case Prune(entries, _, _) => Survivors(b, entries) && ClearOfBearing(b)
  }

  ghost function Step(b: Bucket, e: Event): (r: Bucket) {
    match e
    case Publish(next) => b.(pubs := b.pubs + [next])
    case Leave(span) => b.(leftovers := b.leftovers + [span])
    case Prune(entries, proposal, carriedOut) =>
      var plan := SetOf(PrunePlan(LiveFolder(b), entries, proposal));
      b.(deleted := b.deleted + plan * SetOf(entries) * carriedOut)
  }

  ghost function Run(events: seq<Event>): (r: Bucket) {
    if events == [] then Bucket([], {}, []) else Step(Run(events[..|events| - 1]), events[|events| - 1])
  }

  ghost predicate RunOk(events: seq<Event>) {
    events == [] ||
    (RunOk(events[..|events| - 1]) && Admissible(Run(events[..|events| - 1]), events[|events| - 1]))
  }

  /** The leftover was to follow an object of the history. */
  ghost predicate WellLeft(pubs: seq<Published>, r: SeqRange) {
    r.min <= r.max && exists p :: 0 <= p < |pubs| && pubs[p].Last() + 1 == r.min
  }

  /** Only snapshots are ever deleted, and never a load-bearing one. */
  ghost predicate Safe(b: Bucket) {
    && History(b.pubs)
    && (forall r :: r in b.leftovers ==> WellLeft(b.pubs, r))
    && b.deleted <= Snapshots(b.pubs)
    && forall i :: 0 <= i < |b.pubs| && LoadBearing(b.pubs, i) ==> b.pubs[i].txid !in b.deleted
  }

  lemma SnapshotsBelow(pubs: seq<Published>, x: nat)
    requires History(pubs) && x in Snapshots(pubs)
    ensures x <= Head(pubs)
  {
    var i :| 0 <= i < |pubs| && pubs[i].Snapshot? && pubs[i].Last() == x;
    HistoryPrefix(pubs, i);
  }

  lemma StillWellLeft(pubs: seq<Published>, next: Published, r: SeqRange)
    requires WellLeft(pubs, r)
    ensures WellLeft(pubs + [next], r)
  {
    var p :| 0 <= p < |pubs| && pubs[p].Last() + 1 == r.min;
    assert (pubs + [next])[p] == pubs[p];
  }

  lemma PublishSafe(b: Bucket, next: Published)
    requires Safe(b) && History(b.pubs + [next])
    ensures Safe(b.(pubs := b.pubs + [next]))
  {
    var pubs := b.pubs + [next];
    assert pubs[..|pubs| - 1] == b.pubs;
    forall x | x in b.deleted
      ensures x in Snapshots(pubs) && x <= Head(b.pubs)
    {
      SnapshotsBelow(b.pubs, x);
      var i :| 0 <= i < |b.pubs| && b.pubs[i].Snapshot? && b.pubs[i].Last() == x;
      assert pubs[i] == b.pubs[i];
    }
    forall i | 0 <= i < |pubs| && LoadBearing(pubs, i)
      ensures pubs[i].txid !in b.deleted
    {
      assert i < |b.pubs| ==> LoadBearing(b.pubs, i);
    }
    forall r | r in b.leftovers
      ensures WellLeft(pubs, r)
    {
      StillWellLeft(b.pubs, next, r);
    }
  }

  lemma LeaveSafe(b: Bucket, span: SeqRange)
    requires Safe(b) && Admissible(b, Leave(span))
    ensures Safe(Step(b, Leave(span)))
  {
    var p := |b.pubs| - 1;
    assert b.pubs[p].Last() + 1 == span.min;
  }

  /** Behind every incremental, further back, stands a load-bearing snapshot. */
  lemma {:induction false} BearingBefore(pubs: seq<Published>, p: nat) returns (q: nat)
    requires History(pubs) && p < |pubs| && pubs[p].Incremental?
    ensures q < p && LoadBearing(pubs, q)
  {
    HistoryPrefix(pubs, p);
    HistoryPrefix(pubs, p + 1);
    assert pubs[..p + 1][..p] == pubs[..p] && pubs[..p + 1][p] == pubs[p];
    q := p - 1;
    if pubs[q].Incremental? {
      q := BearingBefore(pubs, q);
    }
  }

  /** The history's own incrementals cover no snapshot. */
  lemma LiveUncovered(pubs: seq<Published>, i: nat, r: SeqRange)
    requires History(pubs) && i < |pubs| && pubs[i].Snapshot? && r in Live(pubs)
    ensures !Contains(r, pubs[i].txid)
  {
    var p := LiveIndex(pubs, r);
    if p < i {
      Ordered(pubs, p, i);
    } else {
      Ordered(pubs, i, p);
    }
  }

  /** No incremental lies between consecutive snapshots. */
  lemma StartsBehind(pubs: seq<Published>, i: nat, j: nat, r: SeqRange)
    requires History(pubs) && i <= j < |pubs| && (forall k :: i <= k <= j ==> pubs[k].Snapshot?)
    requires r in Live(pubs) && r.min > pubs[i].txid
    ensures r.min > pubs[j].txid
  {
    var p := LiveIndex(pubs, r);
    if p < i {
      Ordered(pubs, p, i);
    } else {
      assert j < p;
      Ordered(pubs, j, p);
    }
  }

  /** From a snapshot that is not needed, only more such snapshots lead up to a needed one. */
  lemma {:induction false} NextNeeded(b: Bucket, i: nat) returns (j: nat)
    requires i < |b.pubs| && b.pubs[i].Snapshot?
    ensures i <= j < |b.pubs| && Needed(b, j) && forall k :: i <= k <= j ==> b.pubs[k].Snapshot?
    ensures forall k :: i <= k < j ==> !Needed(b, k)
    decreases |b.pubs| - i
  {
    if Needed(b, i) {
      j := i;
    } else {
      j := NextNeeded(b, i + 1);
    }
  }

  /** Nor does a leftover lie between. */
  lemma LeftoverBehind(b: Bucket, i: nat, j: nat, r: SeqRange)
    requires Safe(b) && i <= j < |b.pubs| && (forall k :: i <= k <= j ==> b.pubs[k].Snapshot?)
    requires (forall k :: i <= k < j ==> !Needed(b, k)) && r in b.leftovers && r.min > b.pubs[i].txid
    ensures r.min > b.pubs[j].txid
  {
    assert WellLeft(b.pubs, r);
    forall k | i <= k < j
      ensures b.pubs[k].txid + 1 != r.min
    {
      assert !Needed(b, k);
    }
    var p :| 0 <= p < |b.pubs| && b.pubs[p].Last() + 1 == r.min;
    if p < i {
      Ordered(b.pubs, p, i);
    } else if p > j {
      Ordered(b.pubs, j, p);
    }
  }

  /** `y` is newer than `x` and still older than every span that is newer than `x`. */
  ghost predicate Shadows(live: seq<SeqRange>, y: nat, x: nat) {
    x < y && forall r :: r in live && r.min > x ==> r.min > y
  }

  lemma ShadowedNotBase(live: seq<SeqRange>, entries: seq<nat>, x: nat, y: nat)
    requires y in entries && Shadows(live, y, x)
    requires forall r :: r in live ==> exists z :: z in entries && z < r.min
    ensures ChainBase(live, entries) != Some(x)
  {
    var incs := Incrementals(live);
    var least := Least(Mins(incs));
    if least.Some? {
      var i :| 0 <= i < |incs| && Mins(incs)[i] == least.value;
      assert incs[i] in incs && incs[i] in live;
      var z :| z in entries && z < incs[i].min;
      var below := Filter((e: nat) => e < least.value, entries);
      GreatestIsGreatest(below, z);
      if x < least.value {
        GreatestIsGreatest(below, y);
      }
    }
  }

  lemma {:induction false} ShadowedNoBridge(sorted: seq<SeqRange>, n: nat, entries: seq<nat>, x: nat, y: nat)
    requires n <= |sorted| && y in entries && Shadows(sorted, y, x)
    ensures x !in Bridges(sorted, n, SetOf(entries))
  {
    if n == 0 {
    } else {
      ShadowedNoBridge(sorted, n - 1, entries, x, y);
      if x in BridgeBefore(sorted, n - 1, SetOf(entries)) {
        assert sorted[n - 1] in sorted;
        NewestIsNewest(SetOf(entries), FurthestEnd(sorted, n - 1) + 1, sorted[n - 1].min - 1, y);
      }
    }
  }

  lemma ShadowedUnprotected(live: seq<SeqRange>, entries: seq<nat>, x: nat, y: nat)
    requires y in entries && Shadows(live, y, x)
    requires forall r :: r in live ==> exists z :: z in entries && z < r.min
    ensures x !in Protected(live, entries)
  {
    var sorted := SortBy(RangeKey, Incrementals(live));
    SortByMembers(RangeKey, Incrementals(live));
    InProtected(live, entries, x);
    GreatestIsGreatest(entries, y);
    ShadowedNotBase(live, entries, x, y);
    ShadowedNoBridge(sorted, |sorted|, entries, x, y);
  }

  lemma BearingSurvives(b: Bucket, entries: seq<nat>, i: nat)
    requires Safe(b) && Survivors(b, entries) && i < |b.pubs| && LoadBearing(b.pubs, i)
    ensures b.pubs[i].txid in entries
  {
    assert b.pubs[i].Last() in Snapshots(b.pubs);
    assert b.pubs[i].txid in SetOf(entries);
  }

  lemma FolderFacts(b: Bucket)
    requires Safe(b)
    ensures forall r :: r in LiveFolder(b) ==> 2 <= r.min <= r.max
  {
    LiveFacts(b.pubs);
    forall r | r in b.leftovers
      ensures 2 <= r.min <= r.max
    {
      var p :| 0 <= p < |b.pubs| && b.pubs[p].Last() + 1 == r.min;
      HistoryPrefix(b.pubs, p);
    }
  }

  lemma SpanBehind(b: Bucket, i: nat)
    requires Safe(b) && i + 1 < |b.pubs| && LoadBearing(b.pubs, i)
    ensures b.pubs[i + 1].range in LiveFolder(b) && b.pubs[i + 1].range.min == b.pubs[i].txid + 1
  {
    HistoryPrefix(b.pubs, i + 1);
    LivePrefix(b.pubs, i + 1);
    assert b.pubs[..i + 1][i] == b.pubs[i];
  }

  /** A surviving snapshot that an object of the live folder follows directly is protected unless a leftover covers its
      TXID. */
  lemma FollowedIsProtected(b: Bucket, entries: seq<nat>, i: nat, next: SeqRange)
    requires Safe(b) && i < |b.pubs| && b.pubs[i].Snapshot? && b.pubs[i].txid in entries
    requires next in LiveFolder(b) && next.min == b.pubs[i].txid + 1
    requires forall r :: r in b.leftovers ==> !Contains(r, b.pubs[i].txid)
    ensures b.pubs[i].txid in Protected(LiveFolder(b), entries)
  {
    var live, x := LiveFolder(b), b.pubs[i].txid;
    FolderFacts(b);
    assert next in Incrementals(live);
    forall r | r in Incrementals(live)
      ensures !Contains(r, x)
    {
      if r in Live(b.pubs) {
        LiveUncovered(b.pubs, i, r);
      }
    }
    FollowedProtectedIff(live, entries, x);
  }

  lemma LastIsProtected(b: Bucket, entries: seq<nat>)
    requires Safe(b) && Survivors(b, entries) && b.pubs != [] && b.pubs[|b.pubs| - 1].Snapshot?
    ensures b.pubs[|b.pubs| - 1].txid in Protected(LiveFolder(b), entries)
  {
    var i := |b.pubs| - 1;
    BearingSurvives(b, entries, i);
    forall y | y in entries
      ensures y <= b.pubs[i].txid
    {
      assert y in SetOf(entries);
      SnapshotsBelow(b.pubs, y);
    }
    NewestIsProtected(LiveFolder(b), entries, b.pubs[i].txid);
  }

  lemma BearingIsProtected(b: Bucket, entries: seq<nat>, i: nat)
    requires Safe(b) && Survivors(b, entries) && i < |b.pubs| && LoadBearing(b.pubs, i)
    requires forall r :: r in b.leftovers ==> !Contains(r, b.pubs[i].txid)
    ensures b.pubs[i].txid in Protected(LiveFolder(b), entries)
  {
    if i + 1 < |b.pubs| {
      BearingSurvives(b, entries, i);
      SpanBehind(b, i);
      FollowedIsProtected(b, entries, i, b.pubs[i + 1].range);
    } else {
      LastIsProtected(b, entries);
    }
  }

  lemma PruneSafe(b: Bucket, e: Event)
    requires Safe(b) && e.Prune? && Admissible(b, e)
    ensures Safe(Step(b, e))
  {
    forall i | 0 <= i < |b.pubs| && LoadBearing(b.pubs, i)
      ensures b.pubs[i].txid !in Step(b, e).deleted
    {
      assert forall r :: r in b.leftovers ==> !Contains(r, b.pubs[i].txid);
      BearingIsProtected(b, e.entries, i);
    }
    forall x | x in Step(b, e).deleted
      ensures x in Snapshots(b.pubs)
    {
      assert x in e.entries ==> x in SetOf(e.entries);
    }
  }

  /** Whatever the policies propose, however far each prune gets and whatever failed PUTs leave behind, no run deletes a
      load-bearing snapshot. */
  lemma {:induction false} RunSafe(events: seq<Event>)
    requires RunOk(events)
    ensures Safe(Run(events))
  {
    if events == [] {
    } else {
      var init, e := events[..|events| - 1], events[|events| - 1];
      RunSafe(init);
      match e
      case Publish(next) => PublishSafe(Run(init), next);
      case Leave(span) => LeaveSafe(Run(init), span);
      case Prune(_, _, _) => PruneSafe(Run(init), e);
    }
  }

  /** Snapshots that a leftover follows directly survive too. */
  ghost predicate Kept(b: Bucket) {
    Safe(b) && forall i :: 0 <= i < |b.pubs| && Needed(b, i) ==> b.pubs[i].txid !in b.deleted
  }

  lemma NeededSurvives(b: Bucket, entries: seq<nat>, i: nat)
    requires Kept(b) && Survivors(b, entries) && i < |b.pubs| && Needed(b, i)
    ensures b.pubs[i].txid in entries
  {
    assert b.pubs[i].Last() in Snapshots(b.pubs);
    assert b.pubs[i].txid in SetOf(entries);
  }

  lemma NeededIsProtected(b: Bucket, entries: seq<nat>, i: nat)
    requires Kept(b) && Survivors(b, entries) && i < |b.pubs| && Needed(b, i)
    requires forall r :: r in b.leftovers ==> !Contains(r, b.pubs[i].txid)
    ensures b.pubs[i].txid in Protected(LiveFolder(b), entries)
  {
    if LoadBearing(b.pubs, i) {
      BearingIsProtected(b, entries, i);
    } else {
      var r :| r in b.leftovers && r.min == b.pubs[i].txid + 1;
      NeededSurvives(b, entries, i);
      FollowedIsProtected(b, entries, i, r);
    }
  }

  /** In front of every object of the live folder there is a surviving snapshot. */
  lemma SnapshotBefore(b: Bucket, entries: seq<nat>, r: SeqRange) returns (z: nat)
    requires Kept(b) && Survivors(b, entries) && r in LiveFolder(b)
    ensures z in entries && z < r.min
  {
    var pubs, q := b.pubs, 0;
    if r in Live(pubs) {
      var p := LiveIndex(pubs, r);
      q := BearingBefore(pubs, p);
      Ordered(pubs, q, p);
    } else {
      assert WellLeft(pubs, r);
      var p :| 0 <= p < |pubs| && pubs[p].Last() + 1 == r.min;
      q := p;
      if pubs[p].Incremental? {
        q := BearingBefore(pubs, p);
        Ordered(pubs, q, p);
      }
    }
    NeededSurvives(b, entries, q);
    z := pubs[q].txid;
  }

  lemma UnneededIsUnprotected(b: Bucket, entries: seq<nat>, i: nat)
    requires Kept(b) && Survivors(b, entries) && i < |b.pubs| && b.pubs[i].Snapshot? && !Needed(b, i)
    ensures b.pubs[i].txid !in Protected(LiveFolder(b), entries)
  {
    var pubs := b.pubs;
    var j := NextNeeded(b, i);
    NeededSurvives(b, entries, j);
    Ordered(pubs, i, j);
    forall r | r in LiveFolder(b)
      ensures exists z :: z in entries && z < r.min
    {
      var z := SnapshotBefore(b, entries, r);
    }
    forall r | r in LiveFolder(b) && r.min > pubs[i].txid
      ensures r.min > pubs[j].txid
    {
      if r in Live(pubs) {
        StartsBehind(pubs, i, j, r);
      } else {
        LeftoverBehind(b, i, j, r);
      }
    }
    ShadowedUnprotected(LiveFolder(b), entries, pubs[i].txid, pubs[j].txid);
  }

  /** The rescue rules are exact as long as no leftover covers the TXID of a needed snapshot: they protect the needed
      ones and no others. */
  lemma ProtectedIff(b: Bucket, entries: seq<nat>, i: nat)
    requires Kept(b) && Survivors(b, entries) && ClearOfNeeded(b)
    requires i < |b.pubs| && b.pubs[i].Snapshot?
    ensures b.pubs[i].txid in Protected(LiveFolder(b), entries) <==> Needed(b, i)
  {
    if Needed(b, i) {
      NeededIsProtected(b, entries, i);
    } else {
      UnneededIsUnprotected(b, entries, i);
    }
  }

  /** So a prune, exactly: of the surviving snapshots it deletes those that the policy proposes, that nothing needs, and
      whose deletion is carried out. */
  lemma PruneIff(b: Bucket, e: Event, i: nat)
    requires Kept(b) && e.Prune? && Survivors(b, e.entries) && ClearOfNeeded(b)
    requires i < |b.pubs| && b.pubs[i].Snapshot? && b.pubs[i].txid !in b.deleted
    ensures b.pubs[i].txid in Step(b, e).deleted <==>
            b.pubs[i].txid in e.proposal && b.pubs[i].txid in e.carriedOut && !Needed(b, i)
  {
    ProtectedIff(b, e.entries, i);
    assert b.pubs[i].Last() in Snapshots(b.pubs);
    assert b.pubs[i].txid in SetOf(e.entries);
  }

  /** Every prune of the run takes place while no leftover covers a needed snapshot. */
  ghost predicate RunClear(events: seq<Event>) {
    events == [] ||
    (var init, e := events[..|events| - 1], events[|events| - 1];
     RunClear(init) && Admissible(Run(init), e) && (e.Prune? ==> ClearOfNeeded(Run(init))))
  }

  lemma DeletedBelow(b: Bucket)
    requires Safe(b)
    ensures forall x :: x in b.deleted ==> x <= Head(b.pubs)
  {
    forall x | x in b.deleted
      ensures x <= Head(b.pubs)
    {
      SnapshotsBelow(b.pubs, x);
    }
  }

  lemma PublishKeeps(b: Bucket, next: Published)
    requires Kept(b) && History(b.pubs + [next])
    ensures Kept(b.(pubs := b.pubs + [next]))
  {
    PublishSafe(b, next);
    DeletedBelow(b);
    var b' := b.(pubs := b.pubs + [next]);
    assert b'.pubs[..|b'.pubs| - 1] == b.pubs;
    forall i | 0 <= i < |b'.pubs| && Needed(b', i)
      ensures b'.pubs[i].txid !in b'.deleted
    {
      if i < |b.pubs| {
        assert LoadBearing(b'.pubs, i) ==> LoadBearing(b.pubs, i);
        assert Needed(b, i);
      }
    }
  }

  lemma LeaveKeeps(b: Bucket, span: SeqRange)
    requires Kept(b) && Admissible(b, Leave(span))
    ensures Kept(Step(b, Leave(span)))
  {
    LeaveSafe(b, span);
    var b' := Step(b, Leave(span));
    forall i | 0 <= i < |b.pubs| && Needed(b', i)
      ensures b.pubs[i].txid !in b.deleted
    {
      if i + 1 < |b.pubs| {
        Ordered(b.pubs, i, |b.pubs| - 1);
      }
      assert Needed(b, i);
    }
  }

  lemma PruneKeeps(b: Bucket, e: Event)
    requires Kept(b) && e.Prune? && Survivors(b, e.entries) && ClearOfNeeded(b)
    ensures Kept(Step(b, e))
  {
    assert ClearOfBearing(b) by {
      forall r, i | r in b.leftovers && 0 <= i < |b.pubs| && LoadBearing(b.pubs, i)
        ensures !Contains(r, b.pubs[i].txid)
      {
        assert Needed(b, i);
      }
    }
    PruneSafe(b, e);
    forall i | 0 <= i < |b.pubs| && Needed(b, i)
      ensures b.pubs[i].txid !in Step(b, e).deleted
    {
      NeededIsProtected(b, e.entries, i);
    }
  }

  /** Then no needed snapshot is ever deleted, and `ProtectedIff` applies all along. */
  lemma {:induction false} RunKeeps(events: seq<Event>)
    requires RunClear(events)
    ensures Kept(Run(events))
  {
    if events == [] {
    } else {
      var init, e := events[..|events| - 1], events[|events| - 1];
      RunKeeps(init);
      match e
      case Publish(next) => PublishKeeps(Run(init), next);
      case Leave(span) => LeaveKeeps(Run(init), span);
      case Prune(_, _, _) => PruneKeeps(Run(init), e);
    }
  }

  /** Short of the newest snapshot and the base by default, a leftover over the TXID of a followed snapshot takes its
      protection away. */
  lemma CoveredIsUnprotected(b: Bucket, entries: seq<nat>, i: nat, r: SeqRange)
    requires Safe(b) && Survivors(b, entries) && i + 1 < |b.pubs| && LoadBearing(b.pubs, i)
    requires r in b.leftovers && Contains(r, b.pubs[i].txid)
    ensures var x := b.pubs[i].txid;
            x in Protected(LiveFolder(b), entries) <==>
            Greatest(entries) == Some(x) || DefaultBase(Incrementals(LiveFolder(b)), entries, x)
  {
    BearingSurvives(b, entries, i);
    FolderFacts(b);
    SpanBehind(b, i);
    assert b.pubs[i + 1].range in Incrementals(LiveFolder(b)) && r in Incrementals(LiveFolder(b));
    FollowedProtectedIff(LiveFolder(b), entries, b.pubs[i].txid);
  }

  lemma PublishNext(events: seq<Event>, b: Bucket, next: Published) returns (more: seq<Event>)
    requires RunOk(events) && Run(events) == b && History(b.pubs + [next])
    ensures RunOk(more) && Run(more) == b.(pubs := b.pubs + [next])
  {
    more := events + [Publish(next)];
    assert more[..|more| - 1] == events;
  }

  lemma HistoryParts(pubs: seq<Published>, more: seq<Published>)
    requires History(pubs + more) && more != []
    ensures History(pubs + [more[0]]) && pubs + [more[0]] + more[1..] == pubs + more
  {
    HistoryPrefix(pubs + more, |pubs| + 1);
    assert (pubs + more)[..|pubs| + 1] == pubs + [more[0]];
  }

  lemma {:induction false} PublishAll(events: seq<Event>, b: Bucket, more: seq<Published>) returns (all: seq<Event>)
    requires RunOk(events) && Run(events) == b && History(b.pubs + more)
    ensures RunOk(all) && Run(all) == b.(pubs := b.pubs + more)
    decreases |more|
  {
    if more == [] {
      all := events;
      assert b.pubs + more == b.pubs;
    } else {
      HistoryParts(b.pubs, more);
      var first := PublishNext(events, b, more[0]);
      all := PublishAll(first, b.(pubs := b.pubs + [more[0]]), more[1..]);
    }
  }

  ghost predicate Link(pubs: seq<Published>, i: nat)
    requires i < |pubs|
  {
    Follows(pubs[i], if i == 0 then 0 else pubs[i - 1].Last()) && (i == 0 ==> pubs[i].Snapshot?)
  }

  lemma {:induction false} HistoryByLinks(pubs: seq<Published>)
    requires forall i :: 0 <= i < |pubs| ==> Link(pubs, i)
    ensures History(pubs)
  {
    if pubs == [] {
    } else {
      var init := pubs[..|pubs| - 1];
      forall i | 0 <= i < |init|
        ensures Link(init, i)
      {
        assert Link(pubs, i);
      }
      HistoryByLinks(init);
      assert Link(pubs, |pubs| - 1);
    }
  }

  /** Publish `early`, leave `span` behind it, publish `late`. */
  lemma LeavingRun(early: seq<Published>, span: SeqRange, late: seq<Published>) returns (events: seq<Event>)
    requires History(early) && early != [] && span.min == Head(early) + 1 <= span.max && History(early + late)
    ensures RunOk(events) && Run(events) == Bucket(early + late, {}, [span])
  {
    var none := Bucket([], {}, []);
    assert none.pubs + early == early;
    var first := PublishAll([], none, early);
    var left := first + [Leave(span)];
    assert left[..|left| - 1] == first;
    assert [] + [span] == [span];
    events := PublishAll(left, Bucket(early, {}, [span]), late);
  }

  lemma CoveringSnapshots(pubs: seq<Published>)
    requires |pubs| == 5 && pubs[0] == Snapshot(1) && pubs[1].Incremental? && pubs[2] == Snapshot(5)
    requires pubs[3].Incremental? && pubs[4] == Snapshot(9)
    ensures Snapshots(pubs) == {1, 5, 9}
  {
    assert pubs[0].Last() in Snapshots(pubs) && pubs[2].Last() in Snapshots(pubs) && pubs[4].Last() in Snapshots(pubs);
  }

  lemma CoveredFive(b: Bucket, entries: seq<nat>)
    requires Safe(b) && Survivors(b, entries) && entries == [1, 5, 9]
    requires |b.pubs| == 5 && b.pubs[2] == Snapshot(5) && b.pubs[3].Incremental? && SeqRange(5, 7) in b.leftovers
    ensures 5 !in Protected(LiveFolder(b), entries)
  {
    CoveredIsUnprotected(b, entries, 2, SeqRange(5, 7));
    GreatestIsGreatest(entries, 9);
    LeastIsLeast(entries, 1);
  }

  lemma CoveringRun(early: seq<Published>, late: seq<Published>) returns (events: seq<Event>)
    requires early == [Snapshot(1), Incremental(SeqRange(2, 4))]
    requires late == [Snapshot(5), Incremental(SeqRange(6, 8)), Snapshot(9)]
    ensures RunOk(events) && Run(events) == Bucket(early + late, {}, [SeqRange(5, 7)])
  {
    HistoryByLinks(early);
    HistoryByLinks(early + late);
    events := LeavingRun(early, SeqRange(5, 7), late);
  }

  /** The condition on prunes is needed. Behind `2-4` an unconfirmed `5-7` is left, then a snapshot takes TXID 5, `6-8`
      follows it, and a snapshot takes TXID 9. The folder shows no hole at 5, and the next prune can delete the snapshot
      that `6-8` needs. */
  lemma LeftoverLosesSnapshot() returns (events: seq<Event>)
    ensures RunOk(events)
    ensures var b := Run(events);
            && |b.pubs| == 5 && b.pubs[2] == Snapshot(5) && LoadBearing(b.pubs, 2) && Survivors(b, [1, 5, 9])
            && 5 in Step(b, Prune([1, 5, 9], [5], {5})).deleted
  {
    events := CoveringRun([Snapshot(1), Incremental(SeqRange(2, 4))],
                          [Snapshot(5), Incremental(SeqRange(6, 8)), Snapshot(9)]);
    RunSafe(events);
    var b := Run(events);
    CoveringSnapshots(b.pubs);
    assert SetOf([1, 5, 9]) == {1, 5, 9};
    CoveredFive(b, [1, 5, 9]);
  }
}
