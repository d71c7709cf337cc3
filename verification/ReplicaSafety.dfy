/** Safety of the replica over whole runs: polls over changing listings, faults anywhere, lost files
    and process restarts. */
module ReplicaSafety {
  import opened Lists
  import opened Options
  import opened Pages
  import opened Replica

  /** `h(t)` is the primary's database after TXID `t`. */
  type History = nat -> Db

  /** The primary never cuts pages off its file: an apply cannot either (see `ApplyExactIff`). */
  ghost predicate NeverShrinks(h: History) {
    forall i: nat, j: nat :: i <= j ==> |h(i)| <= |h(j)|
  }

  /** TXID `i` added page `pn` or changed it. */
  ghost predicate Changed(h: History, i: nat, pn: nat)
    requires i >= 1 && pn >= 1
  {
    pn <= |h(i)| && (pn > |h(i - 1)| || h(i - 1)[pn - 1] != h(i)[pn - 1])
  }

  /** A snapshot ending at `m` holds `h(m)`. An incremental `[a, b]` carries pages of `h(b)`, among
      them every page of `h(b)` that one of its TXIDs touched. */
  ghost predicate Honest(h: History, f: LtxFile) {
    if f.isSnapshot then ApplyPages([], f.pages) == h(f.max)
    else
      && 1 <= f.min <= f.max
      && TakenFrom(f.pages, h(f.max))
      && forall i, pn: nat :: f.min <= i <= f.max && 1 <= pn <= |h(f.max)| && Changed(h, i, pn) ==> Writes(f.pages, pn)
  }

  ghost predicate HonestListing(h: History, files: seq<LtxFile>) {
    forall f :: f in files ==> Honest(h, f)
  }

  /** Between `lo` and `hi`: every page is the one some state of that span had. For `lo == hi` this is
      equality with `h(lo)`. */
  ghost predicate Mixed(h: History, db: Db, lo: nat, hi: nat) {
    && lo <= hi
    && |h(lo)| <= |db| <= |h(hi)|
    && forall p :: 0 <= p < |db| ==> exists j: nat :: lo <= j <= hi && p < |h(j)| && db[p] == h(j)[p]
  }

  function Max(a: nat, b: nat): nat { if a < b then b else a }

  /** A page left alone by TXIDs `lo + 1 .. hi` is the same in both states. */
  lemma {:induction false} Untouched(h: History, lo: nat, hi: nat, pn: nat)
    requires lo <= hi && 1 <= pn <= |h(hi)|
    requires forall i :: lo < i <= hi ==> !Changed(h, i, pn)
    ensures pn <= |h(lo)| && h(lo)[pn - 1] == h(hi)[pn - 1]
    decreases hi - lo
  {
    if lo >= hi {
    } else {
      assert !Changed(h, hi, pn);
      Untouched(h, lo, hi - 1, pn);
    }
  }

  /** Pages an honest incremental leaves out were untouched since any state of its span. */
  lemma LeftOut(h: History, f: LtxFile, j: nat, pn: nat)
    requires !f.isSnapshot && Honest(h, f) && f.min - 1 <= j <= f.max
    requires 1 <= pn <= |h(f.max)| && !Writes(f.pages, pn)
    ensures pn <= |h(j)| && h(j)[pn - 1] == h(f.max)[pn - 1]
  {
    Untouched(h, j, f.max, pn);
  }

  /** What takes `h(f.min - 1)` to `h(f.max)`: pages of the latter, and all those in which the two differ. */
  ghost predicate Fits(h: History, f: LtxFile) {
    if f.isSnapshot then ApplyPages([], f.pages) == h(f.max)
    else
      && f.min >= 1 && TakenFrom(f.pages, h(f.max))
      && forall pn :: 1 <= pn <= |h(f.max)| && !Writes(f.pages, pn) ==>
           pn <= |h(f.min - 1)| && h(f.min - 1)[pn - 1] == h(f.max)[pn - 1]
  }

  lemma HonestFits(h: History, f: LtxFile)
    requires Honest(h, f)
    ensures Fits(h, f)
  {
    if !f.isSnapshot {
      forall pn | 1 <= pn <= |h(f.max)| && !Writes(f.pages, pn)
        ensures pn <= |h(f.min - 1)| && h(f.min - 1)[pn - 1] == h(f.max)[pn - 1]
      {
        LeftOut(h, f, f.min - 1, pn);
      }
    }
  }

  /** Applied to a file that starts with the state before it, an incremental gives one that starts with the state after
      it. Nothing is cut off, so that is all of the file if and only if the file was not longer. */
  lemma ApplyOnto(h: History, f: LtxFile, db: Db)
    requires !f.isSnapshot && Fits(h, f) && h(f.min - 1) <= db
    ensures var r := ApplyPages(db, f.pages);
            && h(f.max) <= r && |r| == Max(|db|, |h(f.max)|)
            && (r == h(f.max) <==> |db| <= |h(f.max)|)
  {
    var r, after := ApplyPages(db, f.pages), h(f.max);
    ApplyPagesEffect(db, f.pages, after);
    assert |after| == 0 || Writes(f.pages, |after|) || |after| <= |h(f.min - 1)|;
    forall p | 0 <= p < |after|
      ensures p < |r| && r[p] == after[p]
    {
      if !Writes(f.pages, p + 1) {
        assert h(f.min - 1)[p] == db[p];
      }
    }
  }

  /** Applying an honest incremental to the state before it gives the state after it exactly when the primary's file did
      not get shorter over its span. */
  lemma ApplyExactIff(h: History, f: LtxFile)
    requires !f.isSnapshot && Honest(h, f)
    ensures ApplyPages(h(f.min - 1), f.pages) == h(f.max) <==> |h(f.min - 1)| <= |h(f.max)|
  {
    HonestFits(h, f);
    ApplyOnto(h, f, h(f.min - 1));
  }

  /** The file has the page that state `j` has at place `p`; where `j` has none, anything will do. */
  ghost predicate Agrees(h: History, db: Db, j: nat, p: nat) {
    p < |h(j)| ==> p < |db| && db[p] == h(j)[p]
  }

  ghost predicate AgreesWithin(h: History, db: Db, lo: nat, hi: nat, p: nat) {
    exists j: nat :: lo <= j <= hi && Agrees(h, db, j, p)
  }

  /** No place is behind `lo`: at each one the file agrees with some state from `lo` to `hi`. For `lo == hi` the file
      starts with `h(lo)`. */
  ghost predicate Current(h: History, db: Db, lo: nat, hi: nat) {
    lo <= hi && forall p: nat :: AgreesWithin(h, db, lo, hi, p)
  }

  lemma CurrentAt(h: History, db: Db, j: nat, lo: nat, hi: nat)
    requires h(j) <= db && lo <= j <= hi
    ensures Current(h, db, lo, hi)
  {
    forall p: nat
      ensures AgreesWithin(h, db, lo, hi, p)
    {
      assert Agrees(h, db, j, p);
    }
  }

  lemma CurrentFrom(h: History, db: Db, lo: nat, lo': nat, hi: nat)
    requires Current(h, db, lo, hi) && lo' <= lo
    ensures Current(h, db, lo', hi)
  {
    forall p: nat
      ensures AgreesWithin(h, db, lo', hi, p)
    {
      assert AgreesWithin(h, db, lo, hi, p);
      var j: nat :| lo <= j <= hi && Agrees(h, db, j, p);
    }
  }

  lemma CurrentExact(h: History, db: Db, t: nat)
    ensures Current(h, db, t, t) <==> h(t) <= db
  {
    if Current(h, db, t, t) {
      forall p: nat | p < |h(t)|
        ensures p < |db| && db[p] == h(t)[p]
      {
        assert AgreesWithin(h, db, t, t, p);
      }
      assert |h(t)| > 0 ==> AgreesWithin(h, db, t, t, |h(t)| - 1);
    }
    if h(t) <= db {
      CurrentAt(h, db, t, t, t);
    }
  }

  /** For any history, also where the file shrinks and grows again within the span. */
  lemma ApplyKeepsCurrent(h: History, f: LtxFile, db: Db, hi: nat)
    requires !f.isSnapshot && Honest(h, f) && Current(h, db, f.min - 1, hi)
    ensures Current(h, ApplyPages(db, f.pages), f.max, Max(hi, f.max))
  {
    var r := ApplyPages(db, f.pages);
    ApplyPagesEffect(db, f.pages, h(f.max));
    forall p: nat
      ensures AgreesWithin(h, r, f.max, Max(hi, f.max), p)
    {
      assert AgreesWithin(h, db, f.min - 1, hi, p);
      var j: nat :| f.min - 1 <= j <= hi && Agrees(h, db, j, p);
      if p >= |h(f.max)| || Writes(f.pages, p + 1) {
        assert Agrees(h, r, f.max, p);
      } else if j <= f.max {
        LeftOut(h, f, j, p + 1);
        assert Agrees(h, r, f.max, p);
      } else {
        assert Agrees(h, r, j, p);
      }
    }
  }

  lemma ApplyKeepsMixed(h: History, f: LtxFile, db: Db, hi: nat)
    requires NeverShrinks(h) && !f.isSnapshot && Honest(h, f)
    requires Mixed(h, db, f.min - 1, hi)
    ensures Mixed(h, ApplyPages(db, f.pages), f.max, if hi < f.max then f.max else hi)
  {
    var hi' := if hi < f.max then f.max else hi;
    var r := ApplyPages(db, f.pages);
    ApplyPagesEffect(db, f.pages, h(f.max));
    if |h(f.max)| > |r| {
      LeftOut(h, f, f.min - 1, |h(f.max)|);
    }
    forall p | 0 <= p < |r|
      ensures exists j: nat :: f.max <= j <= hi' && p < |h(j)| && r[p] == h(j)[p]
    {
      if Writes(f.pages, p + 1) {
        assert r[p] == h(f.max)[p];
      } else if p < |db| {
        var j: nat :| f.min - 1 <= j <= hi && p < |h(j)| && db[p] == h(j)[p];
        if j < f.max {
          LeftOut(h, f, j, p + 1);
          assert r[p] == h(f.max)[p];
        } else {
          assert f.max <= j <= hi' && p < |h(j)| && r[p] == h(j)[p];
        }
      } else {
        LeftOut(h, f, f.min - 1, p + 1);
      }
    }
  }

  lemma MixedExact(h: History, db: Db, t: nat)
    ensures Mixed(h, db, t, t) <==> db == h(t)
  {
    if Mixed(h, db, t, t) {
      assert forall p :: 0 <= p < |db| ==> db[p] == h(t)[p];
    }
  }

  /** Being able to say less about how old the pages are. */
  lemma MixedFrom(h: History, db: Db, lo: nat, lo': nat, hi: nat)
    requires NeverShrinks(h) && Mixed(h, db, lo, hi) && lo' <= lo
    ensures Mixed(h, db, lo', hi)
  {
    forall p | 0 <= p < |db|
      ensures exists j: nat :: lo' <= j <= hi && p < |h(j)| && db[p] == h(j)[p]
    {
      var j: nat :| lo <= j <= hi && p < |h(j)| && db[p] == h(j)[p];
    }
  }

  /** No place of the published file is behind the end of its last object. If the primary's file never shrinks, each
      page is moreover that of a state between this end and its newest object's. */
  ghost predicate Described(h: History, s: State) {
    s.local.Some? ==>
      && Current(h, s.local.value, s.held.end, s.held.newest)
      && (NeverShrinks(h) ==> Mixed(h, s.local.value, s.held.end, s.held.newest))
  }

  /** The position is not ahead of the file. */
  ghost predicate NotAhead(s: State) {
    s.local.Some? && s.txid > 0 ==> s.txid <= s.held.end
  }

  /** That is what it takes: a file at TXID `c` is nowhere behind position `t`, whatever the history, if and only if `t`
      is not ahead of `c`. Histories in which the file never shrinks decide it already. */
  lemma NotAheadIff(c: nat, t: nat)
    ensures (forall h: History :: Current(h, h(c), t, Max(c, t))) <==> t <= c
    ensures (forall h: History :: NeverShrinks(h) ==> Mixed(h, h(c), t, Max(c, t))) <==> t <= c
  {
    if t <= c {
      forall h: History
        ensures Current(h, h(c), t, Max(c, t)) && (NeverShrinks(h) ==> Mixed(h, h(c), t, Max(c, t)))
      {
        CurrentAt(h, h(c), c, t, c);
        MixedExact(h, h(c), c);
        if NeverShrinks(h) {
          MixedFrom(h, h(c), c, t, c);
        }
      }
    } else {
      var growing: History := (n: nat) => seq(n, _ => ZERO_PAGE);
      assert NeverShrinks(growing) && |growing(t)| > |growing(c)|;
      assert !AgreesWithin(growing, growing(c), t, t, c);
    }
  }

  lemma BootstrapDescribed(h: History, s: State, snap: LtxFile, fault: StepFault)
    requires snap.isSnapshot && Honest(h, snap) && Described(h, s)
    ensures Described(h, Bootstrap(s, snap, fault).0)
  {
    CurrentAt(h, h(snap.max), snap.max, snap.max, snap.max);
    MixedExact(h, h(snap.max), snap.max);
  }

  lemma ApplyDescribed(h: History, s: State, f: LtxFile)
    requires !f.isSnapshot && Honest(h, f)
    requires s.local.Some? && f.min == s.txid + 1 && s.txid <= s.held.end && Described(h, s)
    ensures Described(h, WithIncremental(s, f))
  {
    CurrentFrom(h, s.local.value, s.held.end, s.txid, s.held.newest);
    ApplyKeepsCurrent(h, f, s.local.value, s.held.newest);
    if NeverShrinks(h) {
      MixedFrom(h, s.local.value, s.held.end, s.txid, s.held.newest);
      ApplyKeepsMixed(h, f, s.local.value, s.held.newest);
    }
  }

  lemma {:induction false} LoopDescribed(h: History, files: seq<LtxFile>, pending: seq<LtxFile>,
                                         faults: nat -> StepFault, k: nat, s: State)
    requires HonestListing(h, files)
    requires forall f :: f in pending ==> f in files && !f.isSnapshot
    requires s.local.Some? && s.txid <= s.held.end && Described(h, s)
    ensures Described(h, ApplyLoop(files, pending, faults, k, s).0)
    decreases |pending|
  {
    if pending == [] {
    } else {
      var f := pending[0];
      if f.min != s.txid + 1 {
        var gap := LatestSnapshot(files, f.min);
        if gap.Some? {
          BootstrapDescribed(h, s, gap.value, faults(k));
        }
      } else {
        ApplyDescribed(h, s, f);
        if faults(k).Fine? {
          LoopDescribed(h, files, pending[1..], faults, k + 1, Advance(WithIncremental(s, f), f.max, Fine));
        }
      }
    }
  }

  /** Every poll keeps the description of the file true, whatever fails in it. */
  lemma PollDescribed(h: History, s: State, files: Option<seq<LtxFile>>, faults: nat -> StepFault)
    requires files.Some? ==> HonestListing(h, files.value)
    requires Described(h, s) && NotAhead(s)
    ensures Described(h, PollStep(s, files, faults).0)
  {
    if files.Some? && files.value != [] {
      var latest := LatestSnapshot(files.value, 0);
      var pending := Pending(files.value, s.txid);
      if s.txid == 0 || s.local.None? || pending == [] {
        if latest.Some? {
          BootstrapDescribed(h, s, latest.value, faults(0));
        }
      } else {
        LoopDescribed(h, files.value, pending, faults, 0, s);
      }
    }
  }

  /** The walk from position `t` puts an older file in place and fails right after that: a snapshot that ends before
      the position, taken because the next incremental starts behind it, or an incremental named with swapped bounds. */
  ghost predicate LoopLeavesStale(files: seq<LtxFile>, pending: seq<LtxFile>, faults: nat -> StepFault, k: nat, t: nat)
    decreases |pending|
  {
    pending != [] &&
    if pending[0].min == t + 1 then
      || (pending[0].max < t && faults(k) == ObjectFails(true))
      || (faults(k).Fine? && LoopLeavesStale(files, pending[1..], faults, k + 1, pending[0].max))
    else
      var gap := LatestSnapshot(files, pending[0].min);
      gap.Some? && gap.value.max < t && faults(k) == ObjectFails(true)
  }

  /** A poll puts a file older than its position in place and fails before it takes the position back: with its own
      file lost, or in the loop. */
  ghost predicate LeavesStale(s: State, files: seq<LtxFile>, faults: nat -> StepFault) {
    && s.txid > 0
    && if s.local.None? then
         var latest := LatestSnapshot(files, 0);
         latest.Some? && latest.value.max < s.txid && faults(0) == ObjectFails(true)
       else LoopLeavesStale(files, Pending(files, s.txid), faults, 0, s.txid)
  }

  lemma {:induction false} LoopNotAheadIff(files: seq<LtxFile>, pending: seq<LtxFile>,
                                           faults: nat -> StepFault, k: nat, s: State)
    requires s.local.Some? && s.txid <= s.held.end
    ensures NotAhead(ApplyLoop(files, pending, faults, k, s).0) <==> !LoopLeavesStale(files, pending, faults, k, s.txid)
    decreases |pending|
  {
    if pending == [] {
    } else {
      var f := pending[0];
      if f.min == s.txid + 1 && faults(k).Fine? {
        LoopNotAheadIff(files, pending[1..], faults, k + 1, Advance(WithIncremental(s, f), f.max, Fine));
      }
    }
  }

  lemma PollNotAheadIff(s: State, files: seq<LtxFile>, faults: nat -> StepFault)
    requires NotAhead(s)
    ensures NotAhead(PollStep(s, Some(files), faults).0) <==> !LeavesStale(s, files, faults)
  {
    var pending := Pending(files, s.txid);
    if s.txid > 0 && s.local.Some? {
      LoopNotAheadIff(files, pending, faults, 0, s);
    }
  }

  /** No listed incremental overlaps another. */
  ghost predicate Disjoint(f: LtxFile, g: LtxFile) {
    f.isSnapshot || g.isSnapshot || f.max < g.min || g.max < f.min
  }

  /** Sorted disjoint incrementals follow one another. */
  lemma PendingApart(files: seq<LtxFile>, t: nat)
    requires Pairwise(Disjoint, files) && forall f :: f in files && !f.isSnapshot ==> f.min <= f.max
    ensures var p := Pending(files, t); forall i, j :: 0 <= i < j < |p| ==> p[i].max < p[j].min
  {
    var keep := (f: LtxFile) => !f.isSnapshot && f.min > t;
    FilterPairwise(Disjoint, keep, files);
    SortPairwise(Disjoint, MinKey, Filter(keep, files));
    SortBySorts(MinKey, Filter(keep, files));
    var p := Pending(files, t);
    forall i, j | 0 <= i < j < |p|
      ensures p[i].max < p[j].min
    {
      assert Leq(MinKey(p[i]), MinKey(p[j])) && Disjoint(p[i], p[j]) && p[i] in p && p[j] in p;
    }
  }

  /** What can happen to a replica: a poll, the loss of its database file, a restart of its process. */
  datatype Event =
    | Poll(files: Option<seq<LtxFile>>, faults: nat -> StepFault)
    | FileLost
    | Restart(readable: bool)

  ghost function Step(s: State, e: Event): State {
    match e
    case Poll(files, faults) => PollStep(s, files, faults).0
    case FileLost => s.(local := None)
    case Restart(readable) => Restarted(s, readable)
  }

  ghost function Run(s: State, events: seq<Event>): State {
    if events == [] then s else Step(Run(s, events[..|events| - 1]), events[|events| - 1])
  }

  /** No poll leaves a stale file, and a restart finds a state file that is not ahead of the database file. */
  ghost predicate EventOk(s: State, e: Event) {
    match e
    case Poll(files, faults) => files.Some? ==> !LeavesStale(s, files.value, faults)
    case FileLost => true
    case Restart(readable) => readable && s.local.Some? && s.saved.Some? ==> s.saved.value <= s.held.end
  }

  ghost predicate RunOk(s: State, events: seq<Event>) {
    events == [] ||
    (RunOk(s, events[..|events| - 1]) && EventOk(Run(s, events[..|events| - 1]), events[|events| - 1]))
  }

  /** These two are the only ways for the position to get ahead of the file. */
  lemma EventOkIff(s: State, e: Event)
    requires NotAhead(s)
    ensures NotAhead(Step(s, e)) <==> EventOk(s, e)
  {
    if e.Poll? && e.files.Some? {
      PollNotAheadIff(s, e.files.value, e.faults);
    }
  }

  /** Prefix consistency over every run of polls, file losses and restarts, with faults anywhere, for every history. As
      long as neither happens, no place of the replica's file is behind its position. Once the position has caught up
      with the newest object in the file, the file starts with `h(txid)`, and it is `h(txid)` if it is not longer. If
      the primary's file never shrinks it is not. */
  lemma {:induction false} PrefixConsistency(h: History, s: State, events: seq<Event>)
    requires RunOk(s, events) && Described(h, s) && NotAhead(s)
    requires forall e :: e in events && e.Poll? && e.files.Some? ==> HonestListing(h, e.files.value)
    ensures Described(h, Run(s, events)) && NotAhead(Run(s, events)) && Caught(h, Run(s, events))
  {
    if events == [] {
    } else {
      var init, e := events[..|events| - 1], events[|events| - 1];
      assert e in events && forall x :: x in init ==> x in events;
      PrefixConsistency(h, s, init);
      EventOkIff(Run(s, init), e);
      if e.Poll? {
        PollDescribed(h, Run(s, init), e.files, e.faults);
      }
    }
    DescribedCaught(h, Run(s, events));
  }

  /** What holds of an initialised replica's file, and of one that has caught up. */
  ghost predicate Caught(h: History, s: State) {
    s.local.Some? && s.txid > 0 ==>
      && Current(h, s.local.value, s.txid, s.held.newest)
      && (NeverShrinks(h) ==> Mixed(h, s.local.value, s.txid, s.held.newest))
      && (s.txid == s.held.newest ==>
            && h(s.txid) <= s.local.value
            && (s.local.value == h(s.txid) <==> |s.local.value| <= |h(s.txid)|)
            && (NeverShrinks(h) ==> s.local.value == h(s.txid)))
  }

  lemma DescribedCaught(h: History, s: State)
    requires Described(h, s) && NotAhead(s)
    ensures Caught(h, s)
  {
    if s.local.Some? && s.txid > 0 {
      CurrentFrom(h, s.local.value, s.held.end, s.txid, s.held.newest);
      CurrentExact(h, s.local.value, s.txid);
      MixedExact(h, s.local.value, s.txid);
      if NeverShrinks(h) {
        MixedFrom(h, s.local.value, s.held.end, s.txid, s.held.newest);
      }
    }
  }

  /** The file starts with the state at the end of its last object, and is as long as the longest state at the end of
      one of its objects. */
  ghost predicate Layered(h: History, s: State) {
    s.local.Some? ==>
      && h(s.held.end) <= s.local.value
      && (forall e :: e in s.held.ends ==> |h(e)| <= |s.local.value|)
      && (exists e :: e in s.held.ends && |h(e)| == |s.local.value|)
  }

  /** So it is that state if and only if no other one was longer. */
  ghost predicate NoneLonger(h: History, s: State) {
    forall e :: e in s.held.ends ==> |h(e)| <= |h(s.held.end)|
  }

  lemma LayeredExactIff(h: History, s: State)
    requires Layered(h, s) && s.local.Some?
    ensures s.local.value == h(s.held.end) <==> NoneLonger(h, s)
  {
  }

  /** The first incremental that a poll would publish starts behind the end of the file. */
  ghost predicate Misaligned(s: State, files: seq<LtxFile>, faults: nat -> StepFault) {
    && s.local.Some? && s.txid > 0 && s.txid != s.held.end && faults(0) != ObjectFails(false)
    && var p := Pending(files, s.txid); p != [] && p[0].min == s.txid + 1
  }

  lemma WithSnapshotLayered(h: History, s: State, snap: LtxFile)
    requires snap.isSnapshot && Fits(h, snap)
    ensures Layered(h, WithSnapshot(s, snap))
  {
    assert snap.max in WithSnapshot(s, snap).held.ends;
  }

  lemma WithIncrementalLayered(h: History, s: State, f: LtxFile)
    requires !f.isSnapshot && Fits(h, f) && Layered(h, s) && s.local.Some? && s.held.end == f.min - 1
    ensures Layered(h, WithIncremental(s, f))
  {
    ApplyOnto(h, f, s.local.value);
    var r := WithIncremental(s, f);
    assert f.max in r.held.ends;
    var e :| e in s.held.ends && |h(e)| == |s.local.value|;
    assert e in r.held.ends;
  }

  lemma BootstrapLayered(h: History, s: State, snap: LtxFile, fault: StepFault)
    requires snap.isSnapshot && Fits(h, snap) && Layered(h, s)
    ensures Layered(h, Bootstrap(s, snap, fault).0)
  {
    WithSnapshotLayered(h, s, snap);
  }

  lemma {:induction false} LoopLayered(h: History, files: seq<LtxFile>, pending: seq<LtxFile>,
                                       faults: nat -> StepFault, k: nat, s: State)
    requires forall f :: f in files ==> Fits(h, f)
    requires forall f :: f in pending ==> f in files && !f.isSnapshot
    requires s.local.Some? && Layered(h, s)
    requires s.txid == s.held.end || pending == [] || pending[0].min != s.txid + 1 || faults(k) == ObjectFails(false)
    ensures Layered(h, ApplyLoop(files, pending, faults, k, s).0)
    decreases |pending|
  {
    if pending == [] {
    } else {
      var f := pending[0];
      if f.min != s.txid + 1 {
        var gap := LatestSnapshot(files, f.min);
        if gap.Some? {
          BootstrapLayered(h, s, gap.value, faults(k));
        }
      } else if faults(k) != ObjectFails(false) {
        WithIncrementalLayered(h, s, f);
        if faults(k).Fine? {
          LoopLayered(h, files, pending[1..], faults, k + 1, Advance(WithIncremental(s, f), f.max, Fine));
        }
      }
    }
  }

  lemma PollLayered(h: History, s: State, files: seq<LtxFile>, faults: nat -> StepFault)
    requires Layered(h, s) && !Misaligned(s, files, faults) && forall f :: f in files ==> Fits(h, f)
    ensures Layered(h, PollStep(s, Some(files), faults).0)
  {
    var latest := LatestSnapshot(files, 0);
    if latest.Some? {
      BootstrapLayered(h, s, latest.value, faults(0));
    }
    if s.local.Some? && s.txid > 0 {
      LoopLayered(h, files, Pending(files, s.txid), faults, 0, s);
    }
  }

  ghost predicate RunAligned(s: State, events: seq<Event>) {
    events == [] ||
    (var init, e := events[..|events| - 1], events[|events| - 1];
     RunAligned(s, init) && (e.Poll? && e.files.Some? ==> !Misaligned(Run(s, init), e.files.value, e.faults)))
  }

  /** Whatever the primary's history, shrinking files included: over any run in which no incremental meets a file with
      another end, the file starts with the state at the end of the last object in it, and is that state if and only if
      none of the states its objects ended at was longer. */
  lemma {:induction false} ExactRun(h: History, s: State, events: seq<Event>)
    requires Layered(h, s) && RunAligned(s, events)
    requires forall e :: e in events && e.Poll? && e.files.Some? ==> forall f :: f in e.files.value ==> Fits(h, f)
    ensures var r := Run(s, events);
            Layered(h, r) && (r.local.Some? ==> (r.local.value == h(r.held.end) <==> NoneLonger(h, r)))
  {
    if events == [] {
    } else {
      var init, e := events[..|events| - 1], events[|events| - 1];
      assert e in events && forall x :: x in init ==> x in events;
      ExactRun(h, s, init);
      if e.Poll? && e.files.Some? {
        PollLayered(h, Run(s, init), e.files.value, e.faults);
      }
    }
    if Run(s, events).local.Some? {
      LayeredExactIff(h, Run(s, events));
    }
  }

  /** The position is the end of the file. */
  ghost predicate InStep(s: State) {
    s.local.Some? && s.txid > 0 ==> s.txid == s.held.end
  }

  /** No step of the event fails after it renamed a database into place. */
  ghost predicate Finishes(e: Event) {
    !e.Restart? && (e.Poll? ==> forall k: nat :: e.faults(k) != ObjectFails(true))
  }

  lemma {:induction false} LoopInStep(files: seq<LtxFile>, pending: seq<LtxFile>, faults: nat -> StepFault, k: nat,
                                      s: State)
    requires s.local.Some? && s.txid == s.held.end && forall k: nat :: faults(k) != ObjectFails(true)
    ensures InStep(ApplyLoop(files, pending, faults, k, s).0)
    decreases |pending|
  {
    if pending == [] {
    } else {
      var f := pending[0];
      if f.min == s.txid + 1 && faults(k).Fine? {
        LoopInStep(files, pending[1..], faults, k + 1, Advance(WithIncremental(s, f), f.max, Fine));
      }
    }
  }

  /** Runs within one process in which every published object is also taken into account keep in step. */
  lemma {:induction false} StaysInStep(s: State, events: seq<Event>)
    requires InStep(s) && forall e :: e in events ==> Finishes(e)
    ensures InStep(Run(s, events)) && RunAligned(s, events)
  {
    if events == [] {
    } else {
      var init, e := events[..|events| - 1], events[|events| - 1];
      assert e in events && forall x :: x in init ==> x in events;
      StaysInStep(s, init);
      var mid := Run(s, init);
      if e.Poll? && e.files.Some? && mid.local.Some? && mid.txid > 0 {
        LoopInStep(e.files.value, Pending(e.files.value, mid.txid), e.faults, 0, mid);
      }
    }
  }

  /** There the database starts with `h(txid)` whatever the history, the listings, other faults and file losses, and is
      `h(txid)` if and only if no object was published into the file whose state was longer. */
  lemma InStepRun(h: History, s: State, events: seq<Event>)
    requires InStep(s) && Layered(h, s) && forall e :: e in events ==> Finishes(e)
    requires forall e :: e in events && e.Poll? && e.files.Some? ==> forall f :: f in e.files.value ==> Fits(h, f)
    ensures var r := Run(s, events);
            r.local.Some? && r.txid > 0 ==>
              && h(r.txid) <= r.local.value
              && (r.local.value == h(r.txid) <==> forall e :: e in r.held.ends ==> |h(e)| <= |h(r.txid)|)
  {
    StaysInStep(s, events);
    ExactRun(h, s, events);
  }

  /** No listed incremental is named with swapped bounds. */
  ghost predicate NotSwapped(files: seq<LtxFile>) {
    forall f :: f in files && !f.isSnapshot ==> f.min <= f.max
  }

  /** `pending` starts past `t0`, so whatever the loop does it ends past `t0` or where it began, perhaps with a file
      that ends past `t0`. */
  lemma {:induction false} LoopNeverMovesBack(files: seq<LtxFile>, pending: seq<LtxFile>,
                                              faults: nat -> StepFault, k: nat, s: State, t0: nat)
    requires NotSwapped(files) && s.local.Some?
    requires forall f :: f in pending ==> f in files && !f.isSnapshot && f.min > t0
    ensures var r := ApplyLoop(files, pending, faults, k, s).0;
            && r.local.Some?
            && (r == s || r.txid > t0 || (r == Replace(s, r.local.value, r.held) && r.held.end > t0))
    decreases |pending|
  {
    if pending == [] {
    } else {
      var f := pending[0];
      if f.min == s.txid + 1 && faults(k).Fine? {
        LoopNeverMovesBack(files, pending[1..], faults, k + 1, Advance(WithIncremental(s, f), f.max, Fine), t0);
      }
    }
  }

  /** While its file exists an initialised replica keeps one, and no poll moves it back, overlapping incrementals and
      faults included. A poll that does not move it forward changes nothing, unless it failed after it renamed a
      database into place; that one ends past the position, and position and state file stay. */
  lemma PollNeverMovesBack(s: State, files: Option<seq<LtxFile>>, faults: nat -> StepFault)
    requires files.Some? ==> NotSwapped(files.value)
    requires s.local.Some? && s.txid > 0
    ensures var r := PollStep(s, files, faults).0;
            && r.local.Some?
            && (r == s || r.txid > s.txid || (r == Replace(s, r.local.value, r.held) && r.held.end > s.txid))
  {
    if files.Some? {
      LoopNeverMovesBack(files.value, Pending(files.value, s.txid), faults, 0, s, s.txid);
    }
  }

  /** No two listed incrementals start at the same TXID. */
  ghost predicate StartApart(f: LtxFile, g: LtxFile) {
    f.isSnapshot || g.isSnapshot || f.min != g.min
  }

  /** Some initialised replica and some faults for which a poll lowers the position. */
  ghost predicate CanMoveBack(files: seq<LtxFile>) {
    exists s: State, faults: nat -> StepFault ::
      s.local.Some? && s.txid > 0 && PollStep(s, Some(files), faults).0.txid < s.txid
  }

  /** A name whose bounds are swapped by more than one, and that some position precedes. */
  ghost predicate FarSwapped(f: LtxFile) {
    !f.isSnapshot && f.min >= 2 && f.max + 1 < f.min
  }

  lemma {:induction false} LoopStaysUp(files: seq<LtxFile>, pending: seq<LtxFile>, faults: nat -> StepFault, k: nat,
                                       s: State, t0: nat)
    requires s.local.Some? && 1 <= t0 <= s.txid
    requires forall f :: f in pending ==> !f.isSnapshot && f.min > t0 && !FarSwapped(f)
    ensures ApplyLoop(files, pending, faults, k, s).0.txid >= t0
    decreases |pending|
  {
    if pending == [] {
    } else {
      var f := pending[0];
      if f.min == s.txid + 1 && faults(k).Fine? {
        LoopStaysUp(files, pending[1..], faults, k + 1, Advance(WithIncremental(s, f), f.max, Fine), t0);
      }
    }
  }

  lemma SameStart(files: seq<LtxFile>, f: LtxFile, g: LtxFile)
    requires Pairwise(StartApart, files) && f in files && g in files
    requires !f.isSnapshot && !g.isSnapshot && f.min == g.min
    ensures f == g
  {
    var a :| 0 <= a < |files| && files[a] == f;
    var b :| 0 <= b < |files| && files[b] == g;
    assert a == b || StartApart(files[a], files[b]);
  }

  lemma LowestFirst(files: seq<LtxFile>, t: nat, f: LtxFile) returns (g: LtxFile)
    requires f in files && !f.isSnapshot && f.min == t + 1
    ensures g in files && !g.isSnapshot && g.min == t + 1
    ensures var p := Pending(files, t); p != [] && p[0] == g
  {
    var p := Pending(files, t);
    PendingInOrder(files, t);
    assert f in p;
    var i :| 0 <= i < |p| && p[i] == f;
    assert p[0] in p;
    g := p[0];
  }

  lemma FirstPending(files: seq<LtxFile>, f: LtxFile)
    requires Pairwise(StartApart, files) && f in files && !f.isSnapshot && f.min >= 1
    ensures var p := Pending(files, f.min - 1); p != [] && p[0] == f
  {
    var g := LowestFirst(files, f.min - 1, f);
    SameStart(files, f, g);
  }

  lemma UnsavedFirst(files: seq<LtxFile>, f: LtxFile, s: State, faults: nat -> StepFault)
    requires s.local.Some? && s.txid > 0 && f.min == s.txid + 1 && faults(0) == SaveFails(false)
    requires var p := Pending(files, s.txid); p != [] && p[0] == f
    ensures PollStep(s, Some(files), faults).0.txid == f.max
  {
    assert f in Pending(files, s.txid);
  }

  lemma FirstMovesBack(files: seq<LtxFile>, f: LtxFile)
    requires FarSwapped(f) && var p := Pending(files, f.min - 1); p != [] && p[0] == f
    ensures CanMoveBack(files)
  {
    var s := State(f.min - 1, Some([]), None, Span(0, 0, {}));
    var faults: nat -> StepFault := _ => SaveFails(false);
    UnsavedFirst(files, f, s, faults);
    assert PollStep(s, Some(files), faults).0.txid < s.txid;
  }

  lemma SwappedMovesBack(files: seq<LtxFile>, f: LtxFile)
    requires Pairwise(StartApart, files) && f in files && FarSwapped(f)
    ensures CanMoveBack(files)
  {
    FirstPending(files, f);
    FirstMovesBack(files, f);
  }

  /** Exactly when a poll can lower the position: some incremental is named with far swapped bounds, as `6-2`. */
  lemma MovesBackIff(files: seq<LtxFile>)
    requires Pairwise(StartApart, files)
    ensures CanMoveBack(files) <==> exists f :: f in files && FarSwapped(f)
  {
    if f :| f in files && FarSwapped(f) {
      SwappedMovesBack(files, f);
    } else {
      forall s: State, faults: nat -> StepFault | s.local.Some? && s.txid > 0
        ensures PollStep(s, Some(files), faults).0.txid >= s.txid
      {
        LoopStaysUp(files, Pending(files, s.txid), faults, 0, s, s.txid);
      }
    }
  }

  /** The TXID the newest snapshot ends at, or 0. */
  function Newest(files: seq<LtxFile>): (m: nat)
    ensures forall f :: f in files && f.isSnapshot ==> f.max <= m
  {
    match LatestSnapshot(files, 0)
    case None => 0
    case Some(snap) => snap.max
  }

  function NoFaults(k: nat): StepFault { Fine }

  lemma OneStepLoop(files: seq<LtxFile>, inc: LtxFile, s: State)
    requires s.local.Some? && inc.min == s.txid + 1
    ensures ApplyLoop(files, [inc], NoFaults, 0, s) == (Advance(WithIncremental(s, inc), inc.max, Fine), Applied(1))
  {
    assert [inc][1..] == [];
  }

  lemma NothingNew(files: seq<LtxFile>, s: State)
    requires files != [] && s.local.Some? && s.txid > 0 && Pending(files, s.txid) == [] && Newest(files) <= s.txid
    ensures PollStep(s, Some(files), NoFaults) == (s, Applied(0))
  {
  }

  lemma OneApplied(files: seq<LtxFile>, inc: LtxFile, s: State)
    requires files != [] && Pending(files, s.txid) == [inc] && s.local.Some? && s.txid > 0 && inc.min == s.txid + 1
    ensures PollStep(s, Some(files), NoFaults) == (Advance(WithIncremental(s, inc), inc.max, Fine), Applied(1))
  {
    OneStepLoop(files, inc, s);
  }

  lemma OnlyPending(files: seq<LtxFile>, inc: LtxFile, t: nat)
    requires |files| == 2 && files[0].isSnapshot && files[1] == inc && !inc.isSnapshot && inc.min > t
    ensures Pending(files, t) == [inc]
  {
    var keep := (f: LtxFile) => !f.isSnapshot && f.min > t;
    assert files[1..] == [inc] && files[1..][1..] == [];
    assert Filter(keep, files[1..]) == [inc];
    assert Filter(keep, files) == [inc];
    assert SortBy(MinKey, [inc]) == [inc];
  }

  /** A file that shrinks is not followed: the primary goes from `[p, q]` to `[r]`, and the replica from `[p, q]` to
      `[r, q]`, without any fault. */
  lemma ShrinkNotReplicated(h: History, snap: LtxFile, inc: LtxFile, s: State, p: Page, q: Page, r: Page)
    requires h(1) == [p, q] && h(2) == [r] && p != r
    requires snap.isSnapshot && snap.max == 1 && !inc.isSnapshot && inc.min == inc.max == 2 && Honest(h, inc)
    requires s.txid == 1 && s.local == Some(h(1))
    ensures var (t, outcome) := PollStep(s, Some([snap, inc]), NoFaults);
            outcome == Applied(1) && t.txid == 2 && t.local == Some([r, q])
  {
    var files := [snap, inc];
    OnlyPending(files, inc, 1);
    OneApplied(files, inc, s);
    HonestFits(h, inc);
    ApplyOnto(h, inc, h(1));
    ApplyPagesEffect(h(1), inc.pages, h(2));
    assert !Writes(inc.pages, 2);
    assert ApplyPages(h(1), inc.pages) == [r, q];
  }

  /** The first way to get ahead, silently and for good: a replica at TXID 5 lost its file, bootstraps from a snapshot
      at TXID 1, and fails after renaming it into place. The next poll applies `6-6` to the state of TXID 1. A page that
      only TXIDs 2 to 5 changed keeps its old version, and later polls report success without changing anything. */
  lemma LostFileLeavesStale(h: History, snap: LtxFile, inc: LtxFile, saved: Option<nat>, held: Span, p: nat)
    requires snap.isSnapshot && snap.max == 1 && Honest(h, snap)
    requires !inc.isSnapshot && inc.min == inc.max == 6 && Honest(h, inc)
    requires p < |h(1)| && p < |h(6)| && h(1)[p] != h(6)[p] && !Writes(inc.pages, p + 1)
    ensures var files := [snap, inc];
            var start := State(5, None, saved, held);
            var (mid, failure) := PollStep(start, Some(files), _ => ObjectFails(true));
            var (r, outcome) := PollStep(mid, Some(files), NoFaults);
            && LeavesStale(start, files, _ => ObjectFails(true)) && failure == Failed(ObjectError)
            && mid.txid == 5 && mid.local == Some(h(1))
            && outcome == Applied(1) && r.txid == 6 && r.local.Some?
            && p < |r.local.value| && r.local.value[p] == h(1)[p]
            && PollStep(r, Some(files), NoFaults) == (r, Applied(0))
  {
    var files := [snap, inc];
    assert snap in files && inc in files;
    assert LatestSnapshot(files, 0) == Some(snap);
    var mid := PollStep(State(5, None, saved, held), Some(files), _ => ObjectFails(true)).0;
    assert mid == State(5, Some(h(1)), saved, Span(1, 1, {1}));
    OnlyPending(files, inc, 5);
    OneApplied(files, inc, mid);
    var r := Advance(WithIncremental(mid, inc), 6, Fine);
    assert forall f :: f in Pending(files, 6) ==> f in files;
    NothingNew(files, r);
    ApplyPagesEffect(h(1), inc.pages, h(6));
  }

  /** The second way: after losing its file a replica at TXID 2 bootstraps from a snapshot at TXID 1, the save fails and
      the process restarts. It then takes itself to be at TXID 2 while holding the state of TXID 1, and further polls
      change nothing. */
  lemma StaleStateAheadIsKept(h: History, snap: LtxFile, inc: LtxFile, held: Span)
    requires snap.isSnapshot && snap.max == 1 && Honest(h, snap)
    requires !inc.isSnapshot && inc.min == inc.max == 2 && Honest(h, inc)
    ensures var start := State(2, Some(h(2)), Some(2), held);
            var r := Run(start, [FileLost, Poll(Some([snap, inc]), _ => SaveFails(false)), Restart(true)]);
            && r == State(2, Some(h(1)), Some(2), Span(1, 1, {1}))
            && PollStep(r, Some([snap, inc]), NoFaults) == (r, Applied(0))
  {
    StaleRun(h, snap, inc, held, FileLost);
  }

  /** No file need be lost for it: an unreadable state file at one restart, readable again at the next, does it too. */
  lemma UnreadableStateAheadIsKept(h: History, snap: LtxFile, inc: LtxFile, held: Span)
    requires snap.isSnapshot && snap.max == 1 && Honest(h, snap)
    requires !inc.isSnapshot && inc.min == inc.max == 2 && Honest(h, inc)
    ensures var start := State(2, Some(h(2)), Some(2), held);
            var r := Run(start, [Restart(false), Poll(Some([snap, inc]), _ => SaveFails(false)), Restart(true)]);
            && r == State(2, Some(h(1)), Some(2), Span(1, 1, {1}))
            && PollStep(r, Some([snap, inc]), NoFaults) == (r, Applied(0))
  {
    StaleRun(h, snap, inc, held, Restart(false));
  }

  lemma UnsavedBootstrap(h: History, snap: LtxFile, inc: LtxFile, s: State)
    requires snap.isSnapshot && snap.max == 1 && Honest(h, snap) && !inc.isSnapshot
    requires s.txid == 0 || s.local.None?
    ensures PollStep(s, Some([snap, inc]), _ => SaveFails(false)).0 == State(1, Some(h(1)), s.saved, Span(1, 1, {1}))
  {
    assert snap in [snap, inc];
    assert LatestSnapshot([snap, inc], 0) == Some(snap);
  }

  lemma RunThree(s: State, a: Event, b: Event, c: Event)
    ensures Run(s, [a, b, c]) == Step(Step(Step(s, a), b), c)
  {
    assert [a, b, c][..2] == [a, b] && [a, b][..1] == [a] && [a][..0] == [];
    assert Run(s, []) == s;
    assert Run(s, [a]) == Step(s, a);
    assert Run(s, [a, b]) == Step(Step(s, a), b);
  }

  lemma StaleRun(h: History, snap: LtxFile, inc: LtxFile, held: Span, first: Event)
    requires snap.isSnapshot && snap.max == 1 && Honest(h, snap)
    requires !inc.isSnapshot && inc.min == inc.max == 2
    requires first == FileLost || first == Restart(false)
    ensures var start := State(2, Some(h(2)), Some(2), held);
            var r := Run(start, [first, Poll(Some([snap, inc]), _ => SaveFails(false)), Restart(true)]);
            && r == State(2, Some(h(1)), Some(2), Span(1, 1, {1}))
            && PollStep(r, Some([snap, inc]), NoFaults) == (r, Applied(0))
  {
    var start := State(2, Some(h(2)), Some(2), held);
    RunThree(start, first, Poll(Some([snap, inc]), _ => SaveFails(false)), Restart(true));
    UnsavedBootstrap(h, snap, inc, Step(start, first));
    assert forall f :: f in Pending([snap, inc], 2) ==> f in [snap, inc];
    NothingNew([snap, inc], State(2, Some(h(1)), Some(2), Span(1, 1, {1})));
  }

  /** The state file is behind the position and behind the database file. */
  ghost predicate SavedBehind(s: State) {
    s.saved.Some? ==> (s.txid > 0 ==> s.saved.value <= s.txid) && (s.local.Some? ==> s.saved.value <= s.held.end)
  }

  /** The object ends before the saved position, it is put in place, and the state file stays as it is. */
  ghost predicate Strands(snap: Option<LtxFile>, saved: Option<nat>, fault: StepFault) {
    && snap.Some? && saved.Some? && snap.value.max < saved.value
    && (fault == ObjectFails(true) || fault == SaveFails(false))
  }

  ghost predicate LoopStrands(files: seq<LtxFile>, pending: seq<LtxFile>, faults: nat -> StepFault, k: nat, t: nat,
                              saved: Option<nat>)
    decreases |pending|
  {
    pending != [] &&
    if pending[0].min == t + 1 then
      || Strands(Some(pending[0]), saved, faults(k))
      || (faults(k).Fine? && LoopStrands(files, pending[1..], faults, k + 1, pending[0].max, Some(pending[0].max)))
    else Strands(LatestSnapshot(files, pending[0].min), saved, faults(k))
  }

  /** A poll puts such an object in place: a snapshot, without a file or a position or behind a gap in the loop, or an
      incremental named with swapped bounds. */
  ghost predicate StrandsState(s: State, files: seq<LtxFile>, faults: nat -> StepFault) {
    if s.txid == 0 || s.local.None? then Strands(LatestSnapshot(files, 0), s.saved, faults(0))
    else LoopStrands(files, Pending(files, s.txid), faults, 0, s.txid, s.saved)
  }

  lemma {:induction false} LoopSavedBehindIff(files: seq<LtxFile>, pending: seq<LtxFile>,
                                              faults: nat -> StepFault, k: nat, s: State)
    requires s.local.Some? && SavedBehind(s)
    ensures SavedBehind(ApplyLoop(files, pending, faults, k, s).0) <==>
            !LoopStrands(files, pending, faults, k, s.txid, s.saved)
    decreases |pending|
  {
    if pending == [] {
    } else {
      var f := pending[0];
      if f.min == s.txid + 1 && faults(k).Fine? {
        LoopSavedBehindIff(files, pending[1..], faults, k + 1, Advance(WithIncremental(s, f), f.max, Fine));
      }
    }
  }

  /** That is the only way for a poll to leave the state file ahead. */
  lemma PollSavedBehindIff(s: State, files: seq<LtxFile>, faults: nat -> StepFault)
    requires SavedBehind(s) && files != []
    ensures SavedBehind(PollStep(s, Some(files), faults).0) <==> !StrandsState(s, files, faults)
  {
    if s.txid > 0 && s.local.Some? {
      LoopSavedBehindIff(files, Pending(files, s.txid), faults, 0, s);
    }
  }

  /** Without overlapping incrementals only a lost file can be followed by a stale one. */
  lemma {:induction false} DisjointNotStale(files: seq<LtxFile>, pending: seq<LtxFile>,
                                            faults: nat -> StepFault, k: nat, t: nat)
    requires forall f :: f in pending ==> t < f.min <= f.max
    requires forall i, j :: 0 <= i < j < |pending| ==> pending[i].max < pending[j].min
    ensures !LoopLeavesStale(files, pending, faults, k, t)
    decreases |pending|
  {
    if pending == [] {
    } else {
      DisjointNotStale(files, pending[1..], faults, k + 1, pending[0].max);
    }
  }

  lemma {:induction false} DisjointNotStranding(files: seq<LtxFile>, pending: seq<LtxFile>,
                                                faults: nat -> StepFault, k: nat, t: nat, saved: Option<nat>)
    requires forall f :: f in pending ==> t < f.min <= f.max
    requires forall i, j :: 0 <= i < j < |pending| ==> pending[i].max < pending[j].min
    requires saved.Some? ==> saved.value <= t
    ensures !LoopStrands(files, pending, faults, k, t, saved)
    decreases |pending|
  {
    if pending == [] {
    } else {
      DisjointNotStranding(files, pending[1..], faults, k + 1, pending[0].max, Some(pending[0].max));
    }
  }

  /** No poll of the run strands the state file or leaves a stale database. */
  ghost predicate RunSaves(s: State, events: seq<Event>) {
    events == [] ||
    (var init, e := events[..|events| - 1], events[|events| - 1];
     && RunSaves(s, init)
     && (e.Poll? && e.files.Some? ==>
           !StrandsState(Run(s, init), e.files.value, e.faults) && !LeavesStale(Run(s, init), e.files.value, e.faults)))
  }

  /** Then the state file never gets ahead and every restart is admissible: lost files, unreadable state files and
      overlapping or oddly named incrementals included. */
  lemma {:induction false} StateFileNeverAhead(s: State, events: seq<Event>)
    requires SavedBehind(s) && NotAhead(s) && RunSaves(s, events)
    ensures RunOk(s, events) && SavedBehind(Run(s, events)) && NotAhead(Run(s, events))
  {
    if events == [] {
    } else {
      var init, e := events[..|events| - 1], events[|events| - 1];
      assert e in events && forall x :: x in init ==> x in events;
      StateFileNeverAhead(s, init);
      EventOkIff(Run(s, init), e);
      if e.Poll? && e.files.Some? && e.files.value != [] {
        PollSavedBehindIff(Run(s, init), e.files.value, e.faults);
      }
    }
  }

  /** A replica that was never without the file its state file speaks of. */
  ghost predicate Steady(s: State) {
    SavedBehind(s) && NotAhead(s) && (s.saved.Some? ==> s.saved.value <= s.txid) && (s.local.None? ==> s.txid == 0)
  }

  lemma SteadyPoll(s: State, files: seq<LtxFile>, faults: nat -> StepFault)
    requires Steady(s) && NotSwapped(files) && Pairwise(Disjoint, files)
    ensures !StrandsState(s, files, faults) && !LeavesStale(s, files, faults)
    ensures Steady(PollStep(s, Some(files), faults).0)
  {
    if s.txid > 0 {
      PendingApart(files, s.txid);
      DisjointNotStale(files, Pending(files, s.txid), faults, 0, s.txid);
      DisjointNotStranding(files, Pending(files, s.txid), faults, 0, s.txid, s.saved);
      PollNeverMovesBack(s, Some(files), faults);
    }
    PollNotAheadIff(s, files, faults);
    if files != [] {
      PollSavedBehindIff(s, files, faults);
    }
  }

  /** In particular if no file is lost, the state file can be read at every restart, and incrementals do not overlap. */
  lemma {:induction false} SteadyReplica(s: State, events: seq<Event>)
    requires Steady(s) && forall e :: e in events ==> !e.FileLost? && (e.Restart? ==> e.readable)
    requires forall e :: e in events && e.Poll? && e.files.Some? ==>
               NotSwapped(e.files.value) && Pairwise(Disjoint, e.files.value)
    ensures RunSaves(s, events) && RunOk(s, events) && Steady(Run(s, events))
  {
    if events == [] {
    } else {
      var init, e := events[..|events| - 1], events[|events| - 1];
      assert e in events && forall x :: x in init ==> x in events;
      SteadyReplica(s, init);
      if e.Poll? && e.files.Some? {
        SteadyPoll(Run(s, init), e.files.value, e.faults);
      }
    }
  }
}
