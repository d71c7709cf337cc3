/** When repeated error-free polls over a fixed bucket bring a replica to the bucket's head. */
module ReplicaConvergence {
  import opened Lists
  import opened Options
  import opened Pages
  import opened Replica
  import opened ReplicaSafety

  /** TXIDs from 1 and incrementals that do not overlap. */
  ghost predicate Layout(files: seq<LtxFile>) {
    && (forall f :: f in files ==> f.max >= 1 && (!f.isSnapshot ==> 1 <= f.min <= f.max))
    && Pairwise(Disjoint, files)
  }

  /** The writer's layout: moreover no incremental straddles the TXID a snapshot ends at. */
  ghost predicate Bucket(files: seq<LtxFile>) {
    && Layout(files)
    && (forall s :: s in files && s.isSnapshot ==> AtBoundary(files, s.max))
  }

  /** TXID `t` is not strictly inside an incremental. */
  ghost predicate AtBoundary(files: seq<LtxFile>, t: nat) {
    forall f :: f in files && !f.isSnapshot ==> !(f.min <= t < f.max)
  }

  /** The largest TXID in the bucket, or 0. */
  function Head(files: seq<LtxFile>): (h: nat)
    ensures forall f :: f in files ==> f.max <= h
    ensures h == 0 || exists f :: f in files && f.max == h
  {
    if files == [] then 0
    else
      var h := Head(files[1..]);
      assert files[0] in files;
      if files[0].max > h then files[0].max else h
  }

  function FinePoll(s: State, files: seq<LtxFile>): (r: State) {
    PollStep(s, Some(files), NoFaults).0
  }

  function Polls(s: State, files: seq<LtxFile>, n: nat): (r: State) {
    Iterate((x: State) => FinePoll(x, files), s, n)
  }

  function Iterate<S>(step: S -> S, s: S, n: nat): (r: S) {
    if n == 0 then s else step(Iterate(step, s, n - 1))
  }

  lemma {:induction false} IterateSettled<S>(step: S -> S, s: S, m: nat, n: nat)
    requires m <= n && step(Iterate(step, s, m)) == Iterate(step, s, m)
    ensures Iterate(step, s, n) == Iterate(step, s, m)
    decreases n
  {
    if m >= n {
    } else {
      IterateSettled(step, s, m, n - 1);
    }
  }

  /** Where the replica stands after the first `i` of the `pending` incrementals. */
  function End(pending: seq<LtxFile>, t: nat, i: nat): (e: nat)
    requires i <= |pending|
  {
    if i == 0 then t else pending[i - 1].max
  }

  /** How many of the `pending` incrementals continue the chain from `t` without a gap. */
  function Chained(pending: seq<LtxFile>, t: nat): (n: nat)
    ensures n <= |pending|
    ensures n < |pending| ==> pending[n].min != End(pending, t, n) + 1
  {
    if pending == [] || pending[0].min != t + 1 then 0
    else 1 + Chained(pending[1..], pending[0].max)
  }

  lemma {:induction false} ChainLink(pending: seq<LtxFile>, t: nat, i: nat)
    requires i < Chained(pending, t)
    ensures pending[i].min == End(pending, t, i) + 1
  {
    if i == 0 {
    } else {
      ChainLink(pending[1..], pending[0].max, i - 1);
    }
  }

  /** The end of the gap-free chain that starts at `t`. */
  function Reach(files: seq<LtxFile>, t: nat): (e: nat) {
    var p := Pending(files, t);
    End(p, t, Chained(p, t))
  }

  /** An error-free loop walks the chain; at a gap it jumps to the newest snapshot if that ends at or
      past the incremental behind the gap, and fails otherwise. */
  lemma {:induction false} LoopWalks(files: seq<LtxFile>, pending: seq<LtxFile>, k: nat, s: State)
    requires s.local.Some?
    requires forall f :: f in pending ==> f.min >= 1
    ensures var (r, outcome) := ApplyLoop(files, pending, NoFaults, k, s);
            var n := Chained(pending, s.txid);
            && r.local.Some?
            && (n == |pending| ==> r.txid == End(pending, s.txid, n) && outcome == Applied(k + n))
            && (n < |pending| ==>
                  if Newest(files) >= pending[n].min then r.txid == Newest(files)
                  else r.txid == End(pending, s.txid, n) && outcome.Failed? && (n == 0 ==> r == s))
    decreases |pending|
  {
    if pending == [] {
    } else {
      var f := pending[0];
      if f.min == s.txid + 1 {
        var s' := Advance(WithIncremental(s, f), f.max, Fine);
        LoopWalks(files, pending[1..], k + 1, s');
        var n := Chained(pending[1..], f.max);
        assert Chained(pending, s.txid) == n + 1;
        assert n < |pending[1..]| ==> pending[1..][n] == pending[n + 1];
      } else {
        NewestFor(files, f.min);
      }
    }
  }

  /** The snapshot the gap branch picks is the newest one, when that is far enough. */
  lemma NewestFor(files: seq<LtxFile>, atLeast: nat)
    requires atLeast >= 1
    ensures LatestSnapshot(files, atLeast).Some? <==> Newest(files) >= atLeast
    ensures LatestSnapshot(files, atLeast).Some? ==> LatestSnapshot(files, atLeast).value.max == Newest(files)
  {
  }

  /** A chain that ends at `e` took the first `n` incrementals of `p`, all of them up to `e`; the others
      start behind a gap, the first of them lowest. */
  ghost predicate Splits(p: seq<LtxFile>, e: nat, n: nat) {
    && n <= |p|
    && (forall f :: f in p ==> f.max <= e || (n < |p| && f.min >= p[n].min))
    && (n < |p| ==> p[n].min > e + 1)
  }

  ghost predicate Ascending(p: seq<LtxFile>) {
    forall i, j :: 0 <= i < j < |p| ==> p[i].max < p[j].min
  }

  lemma SplitsCons(p: seq<LtxFile>, e: nat, n: nat)
    requires p != [] && Splits(p[1..], e, n) && p[0].max <= e
    ensures Splits(p, e, n + 1)
  {
    forall f | f in p
      ensures f.max <= e || (n + 1 < |p| && f.min >= p[n + 1].min)
    {
      assert f == p[0] || f in p[1..];
    }
  }

  lemma TailAscends(p: seq<LtxFile>, t: nat)
    requires p != [] && Ascending(p) && StartPast(p, t)
    ensures Ascending(p[1..]) && StartPast(p[1..], p[0].max)
    ensures t < p[0].min <= p[0].max
  {
  }

  lemma {:induction false} ListFacts(p: seq<LtxFile>, t: nat)
    requires StartPast(p, t) && Ascending(p)
    ensures t <= End(p, t, Chained(p, t))
    ensures Splits(p, End(p, t, Chained(p, t)), Chained(p, t))
  {
    if p == [] {
    } else {
      TailAscends(p, t);
      if p[0].min == t + 1 {
        ListFacts(p[1..], p[0].max);
        ChainedCons(p, t);
        var n := Chained(p[1..], p[0].max);
        SplitsCons(p, End(p[1..], p[0].max, n), n);
      } else {
        SplitsNone(p, t);
      }
    }
  }

  ghost predicate StartPast(p: seq<LtxFile>, t: nat) {
    forall f :: f in p ==> t < f.min <= f.max
  }

  lemma ChainedCons(p: seq<LtxFile>, t: nat)
    requires p != [] && p[0].min == t + 1
    ensures var n := Chained(p[1..], p[0].max);
            Chained(p, t) == n + 1 && End(p, t, n + 1) == End(p[1..], p[0].max, n)
  {
  }

  lemma SplitsNone(p: seq<LtxFile>, t: nat)
    requires p != [] && p[0].min > t + 1 && p[0].min <= p[0].max
    requires StartPast(p[1..], p[0].max)
    ensures Splits(p, t, 0)
  {
    assert forall f :: f in p ==> f == p[0] || f in p[1..];
  }

  lemma ChainFacts(files: seq<LtxFile>, t: nat)
    requires Layout(files) && AtBoundary(files, t)
    ensures t <= Reach(files, t) && AtBoundary(files, Reach(files, t))
    ensures Splits(Pending(files, t), Reach(files, t), Chained(Pending(files, t), t))
  {
    var p := Pending(files, t);
    PendingAscends(files, t);
    ListFacts(p, t);
    forall f | f in files && !f.isSnapshot
      ensures !(f.min <= Reach(files, t) < f.max)
    {
      assert f.min > t ==> f in p;
    }
  }

  lemma PendingAscends(files: seq<LtxFile>, t: nat)
    requires Layout(files)
    ensures Ascending(Pending(files, t))
  {
    PendingApart(files, t);
  }

  /** No incremental ends right before `f`: the incremental chain has a gap in front of it. */
  ghost predicate RunHead(files: seq<LtxFile>, f: LtxFile) {
    f in files && !f.isSnapshot && forall g :: g in files && !g.isSnapshot ==> g.max + 1 != f.min
  }

  /** Every gap lies at or below `limit`. */
  ghost predicate NoGapAbove(files: seq<LtxFile>, limit: nat) {
    forall f :: RunHead(files, f) ==> f.min <= limit + 1
  }

  /** The chain from `t` ends before the newest snapshot and the next incremental starts behind that
      snapshot: the gap branch wants a snapshot at or past the incremental's start and finds none. */
  ghost predicate SnapshotTooEarly(files: seq<LtxFile>, t: nat) {
    && Reach(files, t) < Newest(files)
    && (exists f :: f in files && !f.isSnapshot && f.min > Newest(files))
    && (forall f :: f in files && !f.isSnapshot ==> !(Reach(files, t) < f.min <= Newest(files)))
  }

  lemma GapIsRunHead(files: seq<LtxFile>, t: nat)
    requires Layout(files) && AtBoundary(files, t)
    requires Chained(Pending(files, t), t) < |Pending(files, t)|
    ensures var f := Pending(files, t)[Chained(Pending(files, t), t)];
            RunHead(files, f) && f.min > Reach(files, t) + 1
  {
    var p := Pending(files, t);
    var n := Chained(p, t);
    ChainFacts(files, t);
    assert p[n] in files;
    forall g | g in files && !g.isSnapshot
      ensures g.max + 1 != p[n].min
    {
      if g.min > t {
        assert g in p;
        var i :| 0 <= i < |p| && p[i] == g;
      }
    }
  }

  /** Strictly inside an incremental nothing continues the chain: whatever starts later starts behind that one. */
  lemma InsideChain(files: seq<LtxFile>, t: nat)
    requires Layout(files) && !AtBoundary(files, t)
    ensures Chained(Pending(files, t), t) == 0 && Reach(files, t) == t && t < Head(files)
  {
    var f :| f in files && !f.isSnapshot && f.min <= t < f.max;
    var p := Pending(files, t);
    if p != [] {
      assert p[0] in p && p[0] in files;
      var a :| 0 <= a < |files| && files[a] == f;
      var b :| 0 <= b < |files| && files[b] == p[0];
      assert Disjoint(files[a], files[b]);
    }
  }

  /** The loop meets no gap exactly when none lies above `t`, and `t` is a boundary if there is anything to apply. */
  lemma ChainCompleteIff(files: seq<LtxFile>, t: nat)
    requires Layout(files)
    ensures Chained(Pending(files, t), t) == |Pending(files, t)| <==>
            NoGapAbove(files, t) && (AtBoundary(files, t) || Pending(files, t) == [])
  {
    if AtBoundary(files, t) {
      BoundaryCompleteIff(files, t);
    } else {
      InsideChain(files, t);
      if Pending(files, t) == [] {
        assert forall f :: RunHead(files, f) ==> f !in Pending(files, t);
      }
    }
  }

  lemma BoundaryCompleteIff(files: seq<LtxFile>, t: nat)
    requires Layout(files) && AtBoundary(files, t)
    ensures Chained(Pending(files, t), t) == |Pending(files, t)| <==> NoGapAbove(files, t)
  {
    var p := Pending(files, t);
    var n := Chained(p, t);
    ChainFacts(files, t);
    if n == |p| {
      forall f | RunHead(files, f)
        ensures f.min <= t + 1
      {
        if f.min > t {
          assert f in p;
          var i :| 0 <= i < |p| && p[i] == f;
          ChainLink(p, t, i);
        }
      }
    } else {
      GapIsRunHead(files, t);
    }
  }

  /** One error-free poll of an initialised replica, in two parts: nothing pending, something pending. */
  lemma IdlePoll(files: seq<LtxFile>, s: State)
    requires files != [] && s.local.Some? && s.txid > 0 && Pending(files, s.txid) == []
    ensures var r := FinePoll(s, files);
            && r.local.Some?
            && (if Newest(files) <= s.txid then r == s else r.txid == Newest(files))
  {
  }

  lemma BusyPoll(files: seq<LtxFile>, s: State)
    requires Layout(files) && s.local.Some? && s.txid > 0 && Pending(files, s.txid) != []
    ensures var r := FinePoll(s, files);
            var p := Pending(files, s.txid);
            var n := Chained(p, s.txid);
            && r.local.Some?
            && (n == |p| ==> r.txid == Reach(files, s.txid))
            && (n < |p| && Newest(files) >= p[n].min ==> r.txid == Newest(files))
            && (n < |p| && Newest(files) < p[n].min ==> r.txid == Reach(files, s.txid) && (n == 0 ==> r == s))
  {
    var p := Pending(files, s.txid);
    assert p[0] in p && p[0] in files;
    LoopWalks(files, p, 0, s);
  }

  /** A poll that finds no gap applies everything pending. */
  lemma FullPoll(files: seq<LtxFile>, s: State)
    requires Layout(files) && AtBoundary(files, s.txid) && s.local.Some? && s.txid > 0
    requires var p := Pending(files, s.txid); p != [] && Chained(p, s.txid) == |p|
    ensures var p := Pending(files, s.txid);
            var (r, outcome) := PollStep(s, Some(files), NoFaults);
            && outcome == Applied(|p|)
            && (forall f :: f in p ==> f.max <= r.txid)
            && (exists f :: f in p && f.max == r.txid)
  {
    ReachTakesAll(files, s.txid);
    FullPollOutcome(files, s);
  }

  lemma FullPollOutcome(files: seq<LtxFile>, s: State)
    requires Layout(files) && s.local.Some? && s.txid > 0
    requires var p := Pending(files, s.txid); p != [] && Chained(p, s.txid) == |p|
    ensures var (r, outcome) := PollStep(s, Some(files), NoFaults);
            outcome == Applied(|Pending(files, s.txid)|) && r.txid == Reach(files, s.txid)
  {
    var p := Pending(files, s.txid);
    assert p[0] in p && p[0] in files;
    LoopWalks(files, p, 0, s);
  }

  lemma ReachTakesAll(files: seq<LtxFile>, t: nat)
    requires Layout(files) && AtBoundary(files, t)
    requires var p := Pending(files, t); p != [] && Chained(p, t) == |p|
    ensures forall f :: f in Pending(files, t) ==> f.max <= Reach(files, t)
    ensures exists f :: f in Pending(files, t) && f.max == Reach(files, t)
  {
    var p := Pending(files, t);
    ChainFacts(files, t);
    assert p[|p| - 1] in p;
  }

  /** The replica is at the head, or stuck in front of a gap, and stays there. */
  ghost predicate Settled(files: seq<LtxFile>, t: nat) {
    var p := Pending(files, t);
    if p == [] then Newest(files) <= t else Chained(p, t) == 0 && Newest(files) < p[0].min
  }

  lemma SettledPoll(files: seq<LtxFile>, s: State)
    requires Bucket(files) && files != [] && s.local.Some? && s.txid > 0 && Settled(files, s.txid)
    ensures FinePoll(s, files) == s
  {
    if Pending(files, s.txid) == [] {
      IdlePoll(files, s);
    } else {
      BusyPoll(files, s);
    }
  }

  /** A chain that takes every pending incremental and passes the newest snapshot ends at the head. */
  lemma CompleteSettled(files: seq<LtxFile>, t: nat)
    requires Layout(files) && AtBoundary(files, t)
    requires Chained(Pending(files, t), t) == |Pending(files, t)| && Newest(files) <= Reach(files, t)
    ensures Settled(files, Reach(files, t)) && Head(files) <= Reach(files, t)
  {
    ChainFacts(files, t);
    var p' := Pending(files, Reach(files, t));
    assert forall f :: f in p' ==> f in Pending(files, t);
    HeadReached(files, t);
  }

  /** A chain that ends at a gap no snapshot bridges is stuck below the head. */
  lemma StuckSettled(files: seq<LtxFile>, t: nat)
    requires Layout(files) && AtBoundary(files, t)
    requires var p := Pending(files, t);
             Chained(p, t) < |p| && Newest(files) < p[Chained(p, t)].min
    ensures Settled(files, Reach(files, t)) && Reach(files, t) < Head(files)
  {
    var p, e := Pending(files, t), Reach(files, t);
    var n := Chained(p, t);
    ChainFacts(files, t);
    var p' := Pending(files, e);
    assert p[n] in p && p[n] in files && p[n] in p';
    assert p'[0] in p' && p'[0] in p;
  }

  lemma HeadReached(files: seq<LtxFile>, t: nat)
    requires Layout(files) && AtBoundary(files, t)
    requires Chained(Pending(files, t), t) == |Pending(files, t)|
    ensures Head(files) <= Max(Newest(files), Reach(files, t))
  {
    var p := Pending(files, t);
    ChainFacts(files, t);
    forall f | f in files
      ensures f.max <= Max(Newest(files), Reach(files, t))
    {
      assert !f.isSnapshot && f.min > t ==> f in p;
    }
  }

  /** A replica at or past the newest snapshot: one poll settles it, at the head exactly when no gap lies
      above it. */
  lemma SettlesPastNewest(files: seq<LtxFile>, s: State)
    requires Bucket(files) && files != [] && s.local.Some? && s.txid > 0 && AtBoundary(files, s.txid)
    requires Newest(files) <= s.txid
    ensures var r := FinePoll(s, files);
            && r.local.Some? && r.txid >= s.txid && Settled(files, r.txid)
            && (r.txid >= Head(files) <==> NoGapAbove(files, s.txid))
            && (r.txid == s.txid || r.txid <= Head(files))
  {
    var t := s.txid;
    var p := Pending(files, t);
    if p == [] {
      IdlePoll(files, s);
    } else {
      BusyPoll(files, s);
    }
    ChainFacts(files, t);
    BoundaryCompleteIff(files, t);
    ReachBelowHead(files, t);
    if Chained(p, t) == |p| {
      CompleteSettled(files, t);
    } else {
      assert p[Chained(p, t)] in p;
      StuckSettled(files, t);
    }
  }

  lemma ReachBelowHead(files: seq<LtxFile>, t: nat)
    ensures Reach(files, t) == t || Reach(files, t) <= Head(files)
  {
    var p := Pending(files, t);
    var n := Chained(p, t);
    if n > 0 {
      assert p[n - 1] in p;
    }
  }

  lemma NewestBelowHead(files: seq<LtxFile>)
    ensures Newest(files) <= Head(files)
  {
  }

  /** Exactly when the replica can be brought to the head from `t`: no gap above both its position and the newest
      snapshot, not the gap whose only snapshot ends before the next incremental, and not a position inside an
      incremental that is past every snapshot. */
  ghost predicate Bridgeable(files: seq<LtxFile>, t: nat) {
    && NoGapAbove(files, Max(t, Newest(files)))
    && !SnapshotTooEarly(files, t)
    && (AtBoundary(files, t) || t < Newest(files))
  }

  /** After two error-free polls the replica has settled, at the head if and only if the bucket is bridgeable. */
  ghost predicate SettledInTwo(files: seq<LtxFile>, s: State) {
    var r := FinePoll(FinePoll(s, files), files);
    && r.local.Some? && r.txid > 0 && Settled(files, r.txid)
    && (r.txid == Max(s.txid, Head(files)) <==> Bridgeable(files, s.txid))
  }

  /** The replica is behind the newest snapshot. */
  lemma SettlesFromBehind(files: seq<LtxFile>, s: State)
    requires Bucket(files) && files != [] && s.local.Some? && s.txid > 0 && AtBoundary(files, s.txid)
    requires s.txid < Newest(files)
    ensures SettledInTwo(files, s)
  {
    var t, newest, e := s.txid, Newest(files), Reach(files, s.txid);
    var p := Pending(files, t);
    var n := Chained(p, t);
    var r1 := FinePoll(s, files);
    if p == [] {
      IdlePoll(files, s);
    } else {
      BusyPoll(files, s);
    }
    ChainFacts(files, t);
    NewestBelowHead(files);
    if n < |p| && newest < p[n].min {
      StuckSettled(files, t);
      SettledPoll(files, r1);
      StuckUnbridgeable(files, t);
    } else if r1.txid == newest {
      SettlesPastNewest(files, r1);
      PassedNotTooEarly(files, t);
    } else {
      AllTakenBridgeable(files, t);
      HeadReached(files, t);
      ReachBelowHead(files, t);
      TakenThenNewest(files, t, r1);
    }
  }

  /** A gap that no snapshot bridges rules out `Bridgeable`. */
  lemma StuckUnbridgeable(files: seq<LtxFile>, t: nat)
    requires Bucket(files) && AtBoundary(files, t) && t < Newest(files)
    requires var p := Pending(files, t); Chained(p, t) < |p| && Newest(files) < p[Chained(p, t)].min
    ensures !Bridgeable(files, t)
  {
    var p, e := Pending(files, t), Reach(files, t);
    var g := p[Chained(p, t)];
    ChainFacts(files, t);
    GapIsRunHead(files, t);
    if e < Newest(files) {
      forall f | f in files && !f.isSnapshot
        ensures !(e < f.min <= Newest(files))
      {
        assert f.min > t ==> f in p;
      }
      assert g in files;
      assert SnapshotTooEarly(files, t);
    }
  }

  /** If the poll jumped to the newest snapshot, that snapshot was not too early. */
  lemma PassedNotTooEarly(files: seq<LtxFile>, t: nat)
    requires Bucket(files) && AtBoundary(files, t) && t < Newest(files)
    requires var p := Pending(files, t);
             p == [] || (Chained(p, t) == |p| && Reach(files, t) == Newest(files))
             || (Chained(p, t) < |p| && Newest(files) >= p[Chained(p, t)].min)
    ensures !SnapshotTooEarly(files, t)
  {
    var p := Pending(files, t);
    ChainFacts(files, t);
    if p == [] {
      assert forall f :: f in files && !f.isSnapshot ==> f.min <= t;
    } else if Chained(p, t) < |p| {
      assert p[Chained(p, t)] in p;
    }
  }

  lemma AllTakenBridgeable(files: seq<LtxFile>, t: nat)
    requires Bucket(files) && AtBoundary(files, t) && t < Newest(files)
    requires Chained(Pending(files, t), t) == |Pending(files, t)|
    ensures Bridgeable(files, t)
  {
    var p := Pending(files, t);
    ChainFacts(files, t);
    BoundaryCompleteIff(files, t);
    assert forall f :: f in files && !f.isSnapshot && f.min > t ==> f in p;
  }

  /** The chain took everything; a second poll takes the newest snapshot if that is still ahead. */
  lemma NothingLeft(files: seq<LtxFile>, t: nat, u: nat)
    requires Layout(files) && AtBoundary(files, t) && u >= Reach(files, t)
    requires Chained(Pending(files, t), t) == |Pending(files, t)|
    ensures Pending(files, u) == []
  {
    ChainFacts(files, t);
    var p, left := Pending(files, t), Pending(files, u);
    assert forall f :: f in left ==> f in p;
  }

  lemma TakenThenNewest(files: seq<LtxFile>, t: nat, r1: State)
    requires Bucket(files) && files != [] && AtBoundary(files, t)
    requires Chained(Pending(files, t), t) == |Pending(files, t)|
    requires r1.local.Some? && r1.txid > 0 && r1.txid == Reach(files, t)
    ensures var r := FinePoll(r1, files);
            r.local.Some? && r.txid == Max(r1.txid, Newest(files)) && Settled(files, r.txid)
  {
    NothingLeft(files, t, r1.txid);
    IdlePoll(files, r1);
    NothingLeft(files, t, Max(r1.txid, Newest(files)));
  }

  /** A position inside an incremental: the poll jumps to the newest snapshot or nothing ever happens. */
  lemma SettlesInside(files: seq<LtxFile>, s: State)
    requires Bucket(files) && files != [] && s.local.Some? && s.txid > 0 && !AtBoundary(files, s.txid)
    ensures SettledInTwo(files, s)
  {
    var t, newest := s.txid, Newest(files);
    var p := Pending(files, t);
    InsideChain(files, t);
    if t < newest && (p == [] || newest >= p[0].min) {
      InsideJumps(files, s);
    } else {
      InsideStays(files, s);
    }
  }

  lemma InsideJumps(files: seq<LtxFile>, s: State)
    requires Bucket(files) && files != [] && s.local.Some? && s.txid > 0 && !AtBoundary(files, s.txid)
    requires var p := Pending(files, s.txid); s.txid < Newest(files) && (p == [] || Newest(files) >= p[0].min)
    ensures SettledInTwo(files, s)
  {
    var p := Pending(files, s.txid);
    InsideChain(files, s.txid);
    NewestBelowHead(files);
    if p == [] {
      IdlePoll(files, s);
      assert forall f :: f in files && !f.isSnapshot ==> f.min <= s.txid;
    } else {
      BusyPoll(files, s);
      assert p[0] in p;
    }
    SettlesPastNewest(files, FinePoll(s, files));
  }

  lemma InsideTooEarly(files: seq<LtxFile>, t: nat)
    requires Layout(files) && Reach(files, t) == t < Newest(files)
    requires var p := Pending(files, t); p != [] && Newest(files) < p[0].min
    ensures SnapshotTooEarly(files, t)
  {
    var p := Pending(files, t);
    PendingAscends(files, t);
    forall f | f in files && !f.isSnapshot
      ensures !(t < f.min <= Newest(files))
    {
      if f.min > t {
        assert f in p && p[0] in p;
        var i :| 0 <= i < |p| && p[i] == f;
      }
    }
    assert p[0] in p && p[0] in files;
  }

  lemma InsideStays(files: seq<LtxFile>, s: State)
    requires Bucket(files) && files != [] && s.local.Some? && s.txid > 0 && !AtBoundary(files, s.txid)
    requires var p := Pending(files, s.txid); s.txid < Newest(files) ==> p != [] && Newest(files) < p[0].min
    ensures FinePoll(s, files) == s && Settled(files, s.txid) && s.txid < Head(files) && !Bridgeable(files, s.txid)
  {
    var p := Pending(files, s.txid);
    InsideChain(files, s.txid);
    assert p != [] ==> p[0] in p;
    SettledPoll(files, s);
    if s.txid < Newest(files) {
      InsideTooEarly(files, s.txid);
    }
  }

  lemma SettlesAhead(files: seq<LtxFile>, s: State)
    requires Bucket(files) && files != [] && s.local.Some? && s.txid > 0 && AtBoundary(files, s.txid)
    requires Newest(files) <= s.txid
    ensures SettledInTwo(files, s)
  {
    ChainFacts(files, s.txid);
    NewestBelowHead(files);
    SettlesPastNewest(files, s);
    SettledPoll(files, FinePoll(s, files));
  }

  lemma SettlesInTwo(files: seq<LtxFile>, s: State)
    requires Bucket(files) && files != [] && s.local.Some? && s.txid > 0
    ensures SettledInTwo(files, s)
  {
    if !AtBoundary(files, s.txid) {
      SettlesInside(files, s);
    } else if Newest(files) <= s.txid {
      SettlesAhead(files, s);
    } else {
      SettlesFromBehind(files, s);
    }
  }

  lemma TwoPolls(s: State, files: seq<LtxFile>)
    ensures Polls(s, files, 2) == FinePoll(FinePoll(s, files), files)
  {
    var step := (x: State) => FinePoll(x, files);
    assert Iterate(step, s, 1) == step(s);
    assert Iterate(step, s, 2) == step(step(s));
  }

  /** Two polls that leave a settled replica decide where every further poll leaves it. */
  lemma MorePolls(s: State, files: seq<LtxFile>, n: nat)
    requires n >= 2
    requires var r := FinePoll(FinePoll(s, files), files); FinePoll(r, files) == r
    ensures Polls(s, files, n) == FinePoll(FinePoll(s, files), files)
  {
    TwoPolls(s, files);
    IterateSettled((x: State) => FinePoll(x, files), s, 2, n);
  }

  /** Convergence, exactly: from any position, two error-free polls bring the replica as far as it will ever get, and
      that is the head of the bucket if and only if the bucket is `Bridgeable` from there. */
  lemma Convergence(files: seq<LtxFile>, s: State, n: nat)
    requires Bucket(files) && files != [] && s.local.Some? && s.txid > 0 && n >= 2
    ensures Polls(s, files, n) == Polls(s, files, 2)
    ensures Polls(s, files, n).txid == Max(s.txid, Head(files)) <==> Bridgeable(files, s.txid)
  {
    SettlesInTwo(files, s);
    SettledPoll(files, FinePoll(FinePoll(s, files), files));
    MorePolls(s, files, n);
    MorePolls(s, files, 2);
  }

  /** Each gap has a snapshot at or past the incremental behind it. */
  ghost predicate RunsBridged(files: seq<LtxFile>) {
    forall f :: RunHead(files, f) ==> exists snap :: snap in files && snap.isSnapshot && snap.max >= f.min
  }

  /** Enough for every replica that stands at a boundary. One that stands inside an incremental needs a snapshot ahead
      of it that is not too early for the next incremental. */
  lemma RunsBridgedConverge(files: seq<LtxFile>, s: State, n: nat)
    requires Bucket(files) && files != [] && s.local.Some? && s.txid > 0 && n >= 2
    requires RunsBridged(files)
    ensures Polls(s, files, n).txid == Max(s.txid, Head(files)) <==>
            AtBoundary(files, s.txid) || (s.txid < Newest(files) && !SnapshotTooEarly(files, s.txid))
  {
    Convergence(files, s, n);
    if AtBoundary(files, s.txid) {
      BoundaryNotTooEarly(files, s.txid);
    }
  }

  lemma BoundaryNotTooEarly(files: seq<LtxFile>, t: nat)
    requires Layout(files) && AtBoundary(files, t) && RunsBridged(files)
    ensures !SnapshotTooEarly(files, t)
  {
    ChainFacts(files, t);
    var p := Pending(files, t);
    if Chained(p, t) < |p| {
      GapIsRunHead(files, t);
    }
  }

  lemma FinePollMoves(files: seq<LtxFile>, s: State)
    requires Bucket(files) && files != [] && s.local.Some? && s.txid > 0
    ensures var r := FinePoll(s, files); r.local.Some? && (r == s || r.txid > s.txid)
  {
    var p := Pending(files, s.txid);
    if p == [] {
      IdlePoll(files, s);
    } else {
      BusyPoll(files, s);
      var n := Chained(p, s.txid);
      assert n > 0 ==> p[n - 1] in p;
      assert n < |p| ==> p[n] in p;
    }
  }

  lemma {:induction false} PollsKeepFile(files: seq<LtxFile>, s: State, m: nat)
    requires Bucket(files) && files != [] && s.local.Some? && s.txid > 0
    ensures var r := Polls(s, files, m); r.local.Some? && r.txid >= s.txid
  {
    if m == 0 {
    } else {
      PollsKeepFile(files, s, m - 1);
      FinePollMoves(files, Polls(s, files, m - 1));
    }
  }

  lemma NonePending(files: seq<LtxFile>, t: nat)
    requires Layout(files) && Head(files) <= t
    ensures Pending(files, t) == [] && Newest(files) <= t
  {
    NewestBelowHead(files);
    assert forall f :: f in Pending(files, t) ==> f in files && f.min <= f.max <= Head(files);
  }

  /** At the head there is nothing to do. */
  lemma HeadIsIdle(files: seq<LtxFile>, s: State)
    requires Layout(files) && files != [] && s.local.Some? && s.txid > 0 && s.txid >= Head(files)
    ensures PollStep(s, Some(files), NoFaults) == (s, Applied(0))
  {
    NonePending(files, s.txid);
    NothingNew(files, s);
  }

  lemma StaysStill(s: State, files: seq<LtxFile>, m: nat, n: nat)
    requires m <= n && FinePoll(Polls(s, files, m), files) == Polls(s, files, m)
    ensures Polls(s, files, n) == Polls(s, files, m)
  {
    IterateSettled((x: State) => FinePoll(x, files), s, m, n);
  }

  /** A poll that changes nothing is the last one that could have, so it stands at the head if the head is reached. */
  lemma StillAtHead(files: seq<LtxFile>, s: State, m: nat, n: nat)
    requires Bucket(files) && files != [] && s.local.Some? && s.txid > 0 && Bridgeable(files, s.txid)
    requires m <= n && 2 <= n
    requires var r := Polls(s, files, m); FinePoll(r, files) == r
    ensures Polls(s, files, m).txid == Max(s.txid, Head(files))
  {
    Convergence(files, s, n);
    StaysStill(s, files, m, n);
  }

  /** Poll `m + 1` raises the position, or the replica is at the head and the poll reports success without changing
      anything. */
  ghost predicate Counts(files: seq<LtxFile>, s: State, m: nat) {
    var r := Polls(s, files, m);
    if r.txid == Max(s.txid, Head(files)) then PollStep(r, Some(files), NoFaults) == (r, Applied(0))
    else FinePoll(r, files).txid > r.txid
  }

  lemma PollCounts(files: seq<LtxFile>, s: State, m: nat)
    requires Bucket(files) && files != [] && s.local.Some? && s.txid > 0 && Bridgeable(files, s.txid)
    ensures Counts(files, s, m)
  {
    var r := Polls(s, files, m);
    PollsKeepFile(files, s, m);
    if r.txid == Max(s.txid, Head(files)) {
      HeadIsIdle(files, r);
    } else {
      FinePollMoves(files, r);
      if FinePoll(r, files) == r {
        StillAtHead(files, s, m, m + 2);
      }
    }
  }

  lemma ThirdPoll(s: State, files: seq<LtxFile>)
    ensures Polls(s, files, 3) == FinePoll(Polls(s, files, 2), files)
  {
  }

  /** Every poll counts if and only if the head is reached at all. */
  lemma EveryPollCountsIff(files: seq<LtxFile>, s: State)
    requires Bucket(files) && files != [] && s.local.Some? && s.txid > 0
    ensures (forall m: nat :: Counts(files, s, m)) <==> Bridgeable(files, s.txid)
  {
    if Bridgeable(files, s.txid) {
      forall m: nat
        ensures Counts(files, s, m)
      {
        PollCounts(files, s, m);
      }
    } else {
      Convergence(files, s, 2);
      Convergence(files, s, 3);
      ThirdPoll(s, files);
      assert !Counts(files, s, 2);
    }
  }

  lemma StrandedBucket(files: seq<LtxFile>, snap: LtxFile, inc: LtxFile)
    requires files == [snap, inc]
    requires snap.isSnapshot && snap.max == 9 && !inc.isSnapshot && inc.min == 10 && inc.max == 12
    ensures Bucket(files) && Head(files) == 12 && Newest(files) == 9 && NoGapAbove(files, 9)
  {
    assert snap in files && inc in files;
  }

  lemma StrandedPoll(files: seq<LtxFile>, inc: LtxFile, s: State)
    requires Bucket(files) && Newest(files) == 9 && s.local.Some? && s.txid == 5
    requires inc in files && !inc.isSnapshot && forall f :: f in files && !f.isSnapshot ==> f.min == 10
    ensures FinePoll(s, files) == s
  {
    var p := Pending(files, 5);
    assert inc in p;
    assert p[0] in p;
    BusyPoll(files, s);
  }

  /** The case the exact condition shuts out: the bucket holds a snapshot at TXID 9 and an incremental `10-12`. A
      replica at TXID 5 never gets past TXID 5, whereas a new one reaches TXID 12. */
  lemma LaggingReplicaStranded(image: seq<PageWrite>, pages: seq<PageWrite>, db: Db, held: Span, n: nat)
    requires n >= 2
    ensures var files := [LtxFile(true, 1, 9, image), LtxFile(false, 10, 12, pages)];
            && Bucket(files) && Head(files) == 12
            && Polls(State(5, Some(db), None, held), files, n) == State(5, Some(db), None, held)
            && Polls(State(0, None, None, held), files, n).txid == 12
  {
    var snap, inc := LtxFile(true, 1, 9, image), LtxFile(false, 10, 12, pages);
    var files, s := [snap, inc], State(5, Some(db), None, held);
    StrandedBucket(files, snap, inc);
    StrandedPoll(files, inc, s);
    MorePolls(s, files, n);
    FreshConvergence(files, State(0, None, None, held), n);
  }

  lemma InsideBucket(files: seq<LtxFile>, snap: LtxFile, a: LtxFile, b: LtxFile)
    requires files == [snap, a, b] && snap.isSnapshot && snap.max == 7
    requires !a.isSnapshot && a.min == 4 && a.max == 7 && !b.isSnapshot && b.min == 8 && b.max == 9
    ensures Bucket(files) && Head(files) == 9 && Newest(files) == 7 && !AtBoundary(files, 5)
  {
    assert snap in files && a in files && b in files;
  }

  lemma InsidePending(files: seq<LtxFile>, b: LtxFile)
    requires b in files && !b.isSnapshot && b.min == 8
    requires forall f :: f in files && !f.isSnapshot ==> f.min == 8 || f.min <= 5
    ensures var p := Pending(files, 5); p != [] && p[0].min == 8
  {
    var p := Pending(files, 5);
    assert b in p;
    assert p[0] in p;
  }

  /** The other case it shuts out: with a snapshot at TXID 7 and incrementals `4-7` and `8-9` a replica at TXID 5, which
      lies inside `4-7`, never moves, although every gap is bridged. */
  lemma InsideReplicaStuck(image: seq<PageWrite>, x: seq<PageWrite>, y: seq<PageWrite>, s: State, n: nat)
    requires s.local.Some? && s.txid == 5 && n >= 2
    ensures var files := [LtxFile(true, 1, 7, image), LtxFile(false, 4, 7, x), LtxFile(false, 8, 9, y)];
            Bucket(files) && RunsBridged(files) && Head(files) == 9 && Polls(s, files, n) == s
  {
    var snap, a, b := LtxFile(true, 1, 7, image), LtxFile(false, 4, 7, x), LtxFile(false, 8, 9, y);
    var files := [snap, a, b];
    InsideBucket(files, snap, a, b);
    InsidePending(files, b);
    InsideStays(files, s);
    assert RunsBridged(files) by {
      assert snap in files;
      assert forall f :: RunHead(files, f) ==> f != b by {
        assert a in files;
      }
    }
    MorePolls(s, files, n);
  }

  /** A replica without a file or a position reaches the head, and then in two polls, if and only if there is a snapshot
      and no gap above the newest one. */
  lemma FreshConvergence(files: seq<LtxFile>, s: State, n: nat)
    requires Bucket(files) && files != [] && n >= 2 && (s.txid == 0 || s.local.None?)
    ensures var r := Polls(s, files, n);
            && (r.local.Some? && r.txid == Head(files) <==> Newest(files) > 0 && NoGapAbove(files, Newest(files)))
            && r == Polls(s, files, 2)
  {
    FreshSettles(files, s);
    MorePolls(s, files, n);
    MorePolls(s, files, 2);
  }

  lemma FreshSettles(files: seq<LtxFile>, s: State)
    requires Bucket(files) && files != [] && (s.txid == 0 || s.local.None?)
    ensures var r := FinePoll(FinePoll(s, files), files);
            && FinePoll(r, files) == r
            && (r.local.Some? && r.txid == Head(files) <==> Newest(files) > 0 && NoGapAbove(files, Newest(files)))
  {
    var r1 := FinePoll(s, files);
    if LatestSnapshot(files, 0).Some? {
      assert r1.txid == Newest(files) && r1.local.Some?;
      SettlesPastNewest(files, r1);
      NewestBelowHead(files);
      SettledPoll(files, FinePoll(r1, files));
    } else {
      assert r1 == s;
      assert files[0] in files;
    }
  }
}
