/** The retention planner's rescue rules, and the objects a writer publishes. */
module Retention {
  import opened Lists
  import opened Options
  import opened Ranges

  function Greatest(txids: seq<nat>): (r: Option<nat>)
    ensures r.Some? ==> r.value in txids
  {
    if txids == [] then None
    else
      var rest := Greatest(txids[1..]);
      if rest.Some? && rest.value > txids[0] then rest else Some(txids[0])
  }

  lemma {:induction false} GreatestIsGreatest(txids: seq<nat>, x: nat)
    requires x in txids
    ensures Greatest(txids).Some? && x <= Greatest(txids).value
  {
    if x == txids[0] {
    } else {
      GreatestIsGreatest(txids[1..], x);
    }
  }

  function Least(txids: seq<nat>): (r: Option<nat>)
    ensures r.Some? ==> r.value in txids
  {
    if txids == [] then None
    else
      var rest := Least(txids[1..]);
      if rest.Some? && rest.value < txids[0] then rest else Some(txids[0])
  }

  lemma {:induction false} LeastIsLeast(txids: seq<nat>, x: nat)
    requires x in txids
    ensures Least(txids).Some? && Least(txids).value <= x
  {
    if x == txids[0] {
    } else {
      LeastIsLeast(txids[1..], x);
    }
  }

  function Mins(live: seq<SeqRange>): (r: seq<nat>) {
    seq(|live|, i requires 0 <= i < |live| => live[i].min)
  }

  /** The live incrementals without the base object `1-1`. */
  function Incrementals(live: seq<SeqRange>): (r: seq<SeqRange>) {
    Filter((r: SeqRange) => !(r.min == 1 && r.max == 1), live)
  }

  /** The newest snapshot below the earliest live incremental, or else the oldest snapshot. */
  function ChainBase(live: seq<SeqRange>, entries: seq<nat>): (r: Option<nat>) {
    match Least(Mins(Incrementals(live)))
    case None => None
    case Some(min) =>
      var below := Greatest(Filter((x: nat) => x < min, entries));
      if below.Some? then below else Least(entries)
  }

  /** The furthest end among the first `n` spans. */
  function FurthestEnd(sorted: seq<SeqRange>, n: nat): (r: nat)
    requires 1 <= n <= |sorted|
  {
    if n == 1 then sorted[0].max
    else var e := FurthestEnd(sorted, n - 1); if e < sorted[n - 1].max then sorted[n - 1].max else e
  }

  /** The newest snapshot in the hole before span `n`, if there is a hole. */
  function BridgeBefore(sorted: seq<SeqRange>, n: nat, snapshots: set<nat>): (r: set<nat>)
    requires n < |sorted|
  {
    if n == 0 || sorted[n].min <= FurthestEnd(sorted, n) + 1 then {}
    else match NewestIn(snapshots, FurthestEnd(sorted, n) + 1, sorted[n].min - 1)
      case None => {}
      case Some(x) => {x}
  }

  function Bridges(sorted: seq<SeqRange>, n: nat, snapshots: set<nat>): (r: set<nat>)
    requires n <= |sorted|
  {
    if n == 0 then {} else Bridges(sorted, n - 1, snapshots) + BridgeBefore(sorted, n - 1, snapshots)
  }

  function SetOf(txids: seq<nat>): (r: set<nat>) {
    set x | x in txids
  }

  function AsSet(o: Option<nat>): (r: set<nat>) {
    if o.Some? then {o.value} else {}
  }

  /** Snapshots that are kept whatever the policy says: the newest, the base of the live chain, and every
      snapshot that bridges a hole in it. */
  function Protected(live: seq<SeqRange>, entries: seq<nat>): (r: set<nat>) {
    var sorted := SortBy(RangeKey, Incrementals(live));
    AsSet(Greatest(entries)) + AsSet(ChainBase(live, entries)) + Bridges(sorted, |sorted|, SetOf(entries))
  }

  lemma InProtected(live: seq<SeqRange>, entries: seq<nat>, x: nat)
    ensures var sorted := SortBy(RangeKey, Incrementals(live));
            x in Protected(live, entries) <==>
            Greatest(entries) == Some(x) || ChainBase(live, entries) == Some(x) ||
            x in Bridges(sorted, |sorted|, SetOf(entries))
  {
  }

  lemma {:induction false} IncrementalsJoin(a: seq<SeqRange>, b: seq<SeqRange>)
    ensures Incrementals(a + b) == Incrementals(a) + Incrementals(b)
  {
    if a == [] {
      assert a + b == b;
    } else {
      IncrementalsJoin(a[1..], b);
      assert (a + b)[1..] == a[1..] + b;
    }
  }

  /** The base object `1-1`, which lies in the live folder too, makes no difference wherever it is listed. */
  lemma BaseObjectIgnored(a: seq<SeqRange>, b: seq<SeqRange>, entries: seq<nat>)
    ensures Protected(a + [SeqRange(1, 1)] + b, entries) == Protected(a + b, entries)
  {
    IncrementalsJoin(a + [SeqRange(1, 1)], b);
    IncrementalsJoin(a, [SeqRange(1, 1)]);
    IncrementalsJoin(a, b);
    assert Incrementals([SeqRange(1, 1)]) == [];
    assert Incrementals(a + [SeqRange(1, 1)] + b) == Incrementals(a + b);
  }

  /** The walk over the sorted live spans that collects the bridges. */
  method CollectBridges(sorted: seq<SeqRange>, snapshots: set<nat>) returns (bridges: set<nat>)
    ensures bridges == Bridges(sorted, |sorted|, snapshots)
  {
    bridges := {};
    var prevMax: Option<nat> := None;
    for i := 0 to |sorted|
      invariant prevMax == if i == 0 then None else Some(FurthestEnd(sorted, i))
      invariant bridges == Bridges(sorted, i, snapshots)
    {
      var r := sorted[i];
      if prevMax.Some? && r.min > prevMax.value + 1 {
        var bridge := NewestIn(snapshots, prevMax.value + 1, r.min - 1);
        if bridge.Some? {
          bridges := bridges + {bridge.value};
        }
      }
      prevMax := Some(if prevMax.Some? && prevMax.value > r.max then prevMax.value else r.max);
    }
  }

  /** The plan: what the policy wants deleted, minus the protected snapshots. */
  function PrunePlan(live: seq<SeqRange>, entries: seq<nat>, proposal: seq<nat>): (r: seq<nat>) {
    Filter((x: nat) => x !in Protected(live, entries), proposal)
  }

  method PlanPrune(live: seq<SeqRange>, entries: seq<nat>, proposal: seq<nat>) returns (delete: seq<nat>)
    ensures delete == PrunePlan(live, entries, proposal)
    ensures forall x :: x in delete <==> x in proposal && x !in Protected(live, entries)
  {
    var sorted := SortBy(RangeKey, Incrementals(live));
    var bridges := CollectBridges(sorted, SetOf(entries));
    var protected := AsSet(Greatest(entries)) + AsSet(ChainBase(live, entries)) + bridges;
    assert protected == Protected(live, entries);
    delete := Filter((x: nat) => x !in protected, proposal);
  }

  /** One published object, in the order of publication. */
  datatype Published = Snapshot(txid: nat) | Incremental(range: SeqRange) {
    function First(): nat { if Snapshot? then txid else range.min }
    function Last(): nat { if Snapshot? then txid else range.max }
  }

  function Head(pubs: seq<Published>): (r: nat) {
    if pubs == [] then 0 else pubs[|pubs| - 1].Last()
  }

  /** An object the writer can publish at TXID `head`: an incremental starts right behind it, a snapshot may skip TXIDs,
      as a forced one does that takes its TXID from the listing. */
  predicate Follows(p: Published, head: nat) {
    p.First() <= p.Last() && if p.Incremental? then p.First() == head + 1 else p.First() > head
  }

  /** The writer's TXIDs: a snapshot first, then every object follows the one before it. */
  ghost predicate History(pubs: seq<Published>) {
    pubs == [] ||
    (var init, p := pubs[..|pubs| - 1], pubs[|pubs| - 1];
     History(init) && Follows(p, Head(init)) && (init == [] ==> p.Snapshot?))
  }

  /** The incrementals in the live folder. */
  function Live(pubs: seq<Published>): (r: seq<SeqRange>) {
    if pubs == [] then []
    else
      var init, p := pubs[..|pubs| - 1], pubs[|pubs| - 1];
      if p.Incremental? then Live(init) + [p.range] else Live(init)
  }

  ghost function Snapshots(pubs: seq<Published>): (r: set<nat>) {
    set i | 0 <= i < |pubs| && pubs[i].Snapshot? :: pubs[i].Last()
  }

  ghost predicate Ascending(live: seq<SeqRange>) {
    forall i, j :: 0 <= i < j < |live| ==> live[i].max < live[j].min
  }

  lemma {:induction false} LiveFacts(pubs: seq<Published>)
    requires History(pubs)
    ensures Ascending(Live(pubs))
    ensures forall r :: r in Live(pubs) ==> 2 <= r.min <= r.max <= Head(pubs)
    ensures pubs != [] ==> Head(pubs) >= 1
    ensures pubs != [] && pubs[|pubs| - 1].Snapshot? ==> forall r :: r in Live(pubs) ==> r.max < Head(pubs)
  {
    if pubs == [] {
    } else {
      LiveFacts(pubs[..|pubs| - 1]);
    }
  }

  /** Positions agree: a prefix's history is a history, and its TXIDs lie below. */
  lemma {:induction false} HistoryPrefix(pubs: seq<Published>, i: nat)
    requires History(pubs) && i <= |pubs|
    ensures History(pubs[..i]) && Head(pubs[..i]) <= Head(pubs)
    ensures i < |pubs| ==> Follows(pubs[i], Head(pubs[..i])) && pubs[i].Last() <= Head(pubs)
  {
    if i < |pubs| {
      var init := pubs[..|pubs| - 1];
      if i < |pubs| - 1 {
        assert init[..i] == pubs[..i] && init[i] == pubs[i];
        HistoryPrefix(init, i);
      }
    } else {
      assert pubs[..i] == pubs;
    }
  }

  lemma Ordered(pubs: seq<Published>, i: nat, j: nat)
    requires History(pubs) && i < j < |pubs|
    ensures pubs[i].First() <= pubs[i].Last() < pubs[j].First() <= pubs[j].Last()
  {
    HistoryPrefix(pubs, j);
    HistoryPrefix(pubs[..j], i);
    assert pubs[..j][i] == pubs[i];
  }

  lemma {:induction false} LiveIndex(pubs: seq<Published>, r: SeqRange) returns (i: nat)
    requires r in Live(pubs)
    ensures i < |pubs| && pubs[i] == Incremental(r)
  {
    var p := pubs[|pubs| - 1];
    if p.Incremental? && p.range == r {
      i := |pubs| - 1;
    } else {
      i := LiveIndex(pubs[..|pubs| - 1], r);
    }
  }

  lemma {:induction false} LivePrefix(pubs: seq<Published>, i: nat)
    requires i <= |pubs|
    ensures Live(pubs[..i]) <= Live(pubs)
    ensures i < |pubs| && pubs[i].Incremental? ==>
              |Live(pubs[..i])| < |Live(pubs)| && Live(pubs)[|Live(pubs[..i])|] == pubs[i].range
  {
    if i < |pubs| {
      var init := pubs[..|pubs| - 1];
      if i < |pubs| - 1 {
        assert init[..i] == pubs[..i] && init[i] == pubs[i];
        LivePrefix(init, i);
      } else {
        assert init == pubs[..i];
      }
    } else {
      assert pubs[..i] == pubs;
    }
  }

  lemma {:induction false} BridgeIn(sorted: seq<SeqRange>, n: nat, k: nat, snapshots: set<nat>)
    requires k < n <= |sorted|
    ensures BridgeBefore(sorted, k, snapshots) <= Bridges(sorted, n, snapshots)
  {
    if k == n - 1 {
    } else {
      BridgeIn(sorted, n - 1, k, snapshots);
    }
  }

  lemma {:induction false} EndBelow(sorted: seq<SeqRange>, n: nat, x: nat)
    requires 1 <= n <= |sorted| && forall i :: 0 <= i < n ==> sorted[i].max < x
    ensures FurthestEnd(sorted, n) < x
  {
    if n == 1 {
    } else {
      EndBelow(sorted, n - 1, x);
    }
  }

  lemma {:induction false} EndReaches(sorted: seq<SeqRange>, n: nat, i: nat)
    requires i < n <= |sorted|
    ensures sorted[i].max <= FurthestEnd(sorted, n)
  {
    if n == 1 || i == n - 1 {
    } else {
      EndReaches(sorted, n - 1, i);
    }
  }

  lemma {:induction false} BridgeOf(sorted: seq<SeqRange>, n: nat, snapshots: set<nat>, x: nat) returns (k: nat)
    requires n <= |sorted| && x in Bridges(sorted, n, snapshots)
    ensures k < n && x in BridgeBefore(sorted, k, snapshots)
  {
    k := n - 1;
    if x in BridgeBefore(sorted, k, snapshots) {
    } else {
      k := BridgeOf(sorted, n - 1, snapshots, x);
    }
  }

  ghost predicate ByMin(sorted: seq<SeqRange>) {
    forall i, j :: 0 <= i < j < |sorted| ==> sorted[i].min <= sorted[j].min
  }

  /** The first span that starts behind `x`, in `min` order. */
  lemma {:induction false} FirstBehind(sorted: seq<SeqRange>, x: nat, m: nat) returns (k: nat)
    requires m < |sorted| && sorted[m].min > x
    requires ByMin(sorted)
    ensures k <= m && sorted[k].min > x && forall i :: 0 <= i < k ==> sorted[i].min <= x
  {
    k := m;
    if m == 0 || sorted[m - 1].min <= x {
    } else {
      k := FirstBehind(sorted, x, m - 1);
    }
  }

  /** In front of span `k` lies a hole, and `x` is the newest snapshot in it. */
  ghost predicate BridgesHole(sorted: seq<SeqRange>, snapshots: set<nat>, x: nat, k: nat) {
    && 0 < k < |sorted| && x in snapshots && x < sorted[k].min
    && (forall i :: 0 <= i < k ==> sorted[i].max < x)
    && forall y :: y in snapshots ==> !(x < y < sorted[k].min)
  }

  lemma BridgeIff(sorted: seq<SeqRange>, snapshots: set<nat>, x: nat, k: nat)
    requires k < |sorted|
    ensures x in BridgeBefore(sorted, k, snapshots) <==> BridgesHole(sorted, snapshots, x, k)
  {
    if BridgesHole(sorted, snapshots, x, k) {
      EndBelow(sorted, k, x);
      NewestIsNewest(snapshots, FurthestEnd(sorted, k) + 1, sorted[k].min - 1, x);
    }
    if x in BridgeBefore(sorted, k, snapshots) {
      forall i | 0 <= i < k
        ensures sorted[i].max < x
      {
        EndReaches(sorted, k, i);
      }
      forall y | y in snapshots && x < y < sorted[k].min
        ensures false
      {
        NewestIsNewest(snapshots, FurthestEnd(sorted, k) + 1, sorted[k].min - 1, y);
      }
    }
  }

  /** What the walk collects, for any list of spans. */
  lemma BridgesIff(sorted: seq<SeqRange>, snapshots: set<nat>, x: nat)
    ensures x in Bridges(sorted, |sorted|, snapshots) <==> exists k :: BridgesHole(sorted, snapshots, x, k)
  {
    if x in Bridges(sorted, |sorted|, snapshots) {
      var k := BridgeOf(sorted, |sorted|, snapshots, x);
      BridgeIff(sorted, snapshots, x, k);
    }
    if exists k :: BridgesHole(sorted, snapshots, x, k) {
      var k :| BridgesHole(sorted, snapshots, x, k);
      BridgeIff(sorted, snapshots, x, k);
      BridgeIn(sorted, |sorted|, k, snapshots);
    }
  }

  /** A bridge is the newest snapshot of its hole, so no span covers it; and where a span starts right behind `x` and
      spans in front of it all end before `x`, that snapshot is `x`. */
  lemma BridgedIff(sorted: seq<SeqRange>, entries: seq<nat>, x: nat)
    requires x in entries && (exists r :: r in sorted && r.min == x + 1) && (exists r :: r in sorted && r.min <= x)
    requires forall r :: r in sorted ==> r.min <= r.max
    requires ByMin(sorted)
    ensures x in Bridges(sorted, |sorted|, SetOf(entries)) <==> forall r :: r in sorted ==> !Contains(r, x)
  {
    if x in Bridges(sorted, |sorted|, SetOf(entries)) {
      BridgeUncovered(sorted, SetOf(entries), x);
    }
    if forall r :: r in sorted ==> !Contains(r, x) {
      var next :| next in sorted && next.min == x + 1;
      var m :| 0 <= m < |sorted| && sorted[m] == next;
      var k := FirstBehind(sorted, x, m);
      UncoveredBridges(sorted, entries, x, k);
    }
  }

  lemma BridgeUncovered(sorted: seq<SeqRange>, snapshots: set<nat>, x: nat)
    requires x in Bridges(sorted, |sorted|, snapshots)
    requires ByMin(sorted)
    ensures forall r :: r in sorted ==> !Contains(r, x)
  {
    var k := BridgeOf(sorted, |sorted|, snapshots, x);
    forall r | r in sorted
      ensures !Contains(r, x)
    {
      var i :| 0 <= i < |sorted| && sorted[i] == r;
      if i < k {
        EndReaches(sorted, k, i);
      } else {
        assert sorted[k].min <= sorted[i].min;
      }
    }
  }

  lemma UncoveredBridges(sorted: seq<SeqRange>, entries: seq<nat>, x: nat, k: nat)
    requires x in entries && k < |sorted| && sorted[k].min == x + 1
    requires (forall i :: 0 <= i < k ==> sorted[i].min <= x) && exists r :: r in sorted && r.min <= x
    requires ByMin(sorted)
    requires forall r :: r in sorted ==> !Contains(r, x)
    ensures x in Bridges(sorted, |sorted|, SetOf(entries))
  {
    var r :| r in sorted && r.min <= x;
    var i :| 0 <= i < |sorted| && sorted[i] == r;
    assert 0 < k;
    forall j | 0 <= j < k
      ensures sorted[j].max < x
    {
      assert sorted[j] in sorted;
    }
    EndBelow(sorted, k, x);
    NewestIsNewest(SetOf(entries), FurthestEnd(sorted, k) + 1, x, x);
    BridgeIn(sorted, |sorted|, k, SetOf(entries));
  }

  /** `x` is the oldest snapshot and lies at or past the first live span: the base by default. */
  ghost predicate DefaultBase(incs: seq<SeqRange>, entries: seq<nat>, x: nat) {
    && Least(entries) == Some(x)
    && exists r :: r in incs && forall z :: z in entries ==> r.min <= z
  }

  lemma LeastMin(incs: seq<SeqRange>, r: SeqRange) returns (first: SeqRange)
    requires r in incs
    ensures first in incs && Least(Mins(incs)) == Some(first.min) && forall s :: s in incs ==> first.min <= s.min
  {
    var i :| 0 <= i < |incs| && incs[i] == r;
    assert Mins(incs)[i] == r.min;
    LeastIsLeast(Mins(incs), r.min);
    var m :| 0 <= m < |incs| && Mins(incs)[m] == Least(Mins(incs)).value;
    first := incs[m];
    forall s | s in incs
      ensures first.min <= s.min
    {
      var j :| 0 <= j < |incs| && incs[j] == s;
      assert Mins(incs)[j] == s.min;
      LeastIsLeast(Mins(incs), s.min);
    }
  }

  /** Which snapshot is the base of the live chain: the newest one in front of all spans, or else the oldest of all. */
  ghost predicate IsChainBase(incs: seq<SeqRange>, entries: seq<nat>, x: nat) {
    exists first :: first in incs && (forall r :: r in incs ==> first.min <= r.min) && x in entries
      && if x < first.min then forall y :: y in entries && y < first.min ==> y <= x
         else forall y :: y in entries ==> first.min <= y && x <= y
  }

  lemma ChainBaseIff(live: seq<SeqRange>, entries: seq<nat>, x: nat)
    ensures ChainBase(live, entries) == Some(x) <==> IsChainBase(Incrementals(live), entries, x)
  {
    var incs := Incrementals(live);
    if incs == [] {
    } else {
      var first := LeastMin(incs, incs[0]);
      ChainBaseFrom(live, entries, first, x);
      forall r | r in incs && forall s :: s in incs ==> r.min <= s.min
        ensures r.min == first.min
      {
      }
    }
  }

  lemma ChainBaseFrom(live: seq<SeqRange>, entries: seq<nat>, first: SeqRange, x: nat)
    requires Least(Mins(Incrementals(live))) == Some(first.min)
    ensures ChainBase(live, entries) == Some(x) <==>
            x in entries && if x < first.min then forall y :: y in entries && y < first.min ==> y <= x
                            else forall y :: y in entries ==> first.min <= y && x <= y
  {
    var below := Filter((y: nat) => y < first.min, entries);
    forall y | y in below
      ensures Greatest(below).Some? && y <= Greatest(below).value
    {
      GreatestIsGreatest(below, y);
    }
    forall y | y in entries
      ensures Least(entries).Some? && Least(entries).value <= y
    {
      LeastIsLeast(entries, y);
    }
    assert below != [] ==> below[0] in below;
    assert forall y :: y in below <==> y in entries && y < first.min;
  }

  lemma BaseIff(live: seq<SeqRange>, entries: seq<nat>, x: nat)
    requires x in entries && exists r :: r in Incrementals(live) && r.min == x + 1
    ensures ChainBase(live, entries) == Some(x) <==>
            (forall r :: r in Incrementals(live) ==> r.min > x) || DefaultBase(Incrementals(live), entries, x)
  {
    var incs := Incrementals(live);
    var next :| next in incs && next.min == x + 1;
    var first := LeastMin(incs, next);
    var below := Filter((y: nat) => y < first.min, entries);
    if x < first.min {
      GreatestIsGreatest(below, x);
      assert Greatest(below) == Some(x);
      assert forall r :: r in incs ==> r.min > x;
    } else if below == [] {
      assert forall z :: z in entries ==> z !in below && first.min <= z;
    } else {
      GreatestIsGreatest(below, below[0]);
      assert below[0] in entries && below[0] < first.min;
    }
  }

  /** For any live folder: a snapshot that some span follows directly is protected if and only if no span covers its
      TXID, or it is the newest snapshot, or the base by default. */
  lemma FollowedProtectedIff(live: seq<SeqRange>, entries: seq<nat>, x: nat)
    requires x in entries && (exists r :: r in Incrementals(live) && r.min == x + 1)
    requires forall r :: r in Incrementals(live) ==> r.min <= r.max
    ensures x in Protected(live, entries) <==>
            || (forall r :: r in Incrementals(live) ==> !Contains(r, x))
            || Greatest(entries) == Some(x) || DefaultBase(Incrementals(live), entries, x)
  {
    var incs := Incrementals(live);
    var sorted := SortBy(RangeKey, incs);
    InProtected(live, entries, x);
    BaseIff(live, entries, x);
    SortByMembers(RangeKey, incs);
    SortedByMin(incs);
    if forall r :: r in incs ==> r.min > x {
    } else {
      BridgedIff(sorted, entries, x);
    }
  }

  lemma SortedByMin(incs: seq<SeqRange>)
    ensures ByMin(SortBy(RangeKey, incs))
  {
    SortBySorts(RangeKey, incs);
    var sorted := SortBy(RangeKey, incs);
    forall i, j | 0 <= i < j < |sorted|
      ensures sorted[i].min <= sorted[j].min
    {
      assert Leq(RangeKey(sorted[i]), RangeKey(sorted[j]));
    }
  }

  /** The newest surviving snapshot is protected. */
  lemma NewestIsProtected(live: seq<SeqRange>, entries: seq<nat>, x: nat)
    requires x in entries && forall y :: y in entries ==> y <= x
    ensures x in Protected(live, entries)
  {
    GreatestIsGreatest(entries, x);
    assert Greatest(entries) == Some(x);
    InProtected(live, entries, x);
  }
}
