/** What the answer of a poll means, for every listing and every fault: a poll is a fault-free walk over some objects,
    each published, reached and saved in turn, and then at most one step that fails. */
module ReplicaAnswers {
  import opened Options
  import opened Pages
  import opened Replica
  import opened ReplicaSafety

  /** `f` at position `i` is the last listed of the snapshots with the largest end. */
  ghost predicate LatestAt(files: seq<LtxFile>, f: LtxFile, i: nat) {
    && i < |files| && files[i] == f && f.isSnapshot
    && forall j :: 0 <= j < |files| && files[j].isSnapshot ==>
         files[j].max <= f.max && (files[j].max == f.max ==> j <= i)
  }

  ghost predicate IsLatest(files: seq<LtxFile>, f: LtxFile) {
    exists i :: LatestAt(files, f, i)
  }

  ghost predicate NoneFrom(files: seq<LtxFile>, t: nat) {
    forall f :: f in files && f.isSnapshot ==> f.max < t
  }

  lemma LatestStays(files: seq<LtxFile>, f: LtxFile, i: nat)
    requires files != [] && LatestAt(files[..|files| - 1], f, i)
    requires var last := files[|files| - 1]; last.isSnapshot ==> last.max < f.max
    ensures LatestAt(files, f, i)
  {
    assert forall j :: 0 <= j < |files| - 1 ==> files[j] == files[..|files| - 1][j];
  }

  lemma LastIsLatest(files: seq<LtxFile>, t: nat)
    requires files != [] && LatestSnapshot(files, t) == Some(files[|files| - 1])
    ensures LatestAt(files, files[|files| - 1], |files| - 1)
  {
    assert forall j :: 0 <= j < |files| ==> files[j] in files;
  }

  lemma {:induction false} LatestFound(files: seq<LtxFile>, t: nat) returns (i: nat)
    requires LatestSnapshot(files, t).Some?
    ensures LatestAt(files, LatestSnapshot(files, t).value, i)
  {
    var init, f := files[..|files| - 1], files[|files| - 1];
    if LatestSnapshot(init, t).Some? && !(f.isSnapshot && f.max >= LatestSnapshot(init, t).value.max) {
      i := LatestFound(init, t);
      LatestStays(files, LatestSnapshot(init, t).value, i);
    } else {
      i := |files| - 1;
      LastIsLatest(files, t);
    }
  }

  /** The snapshot a poll falls back on, ties included. */
  lemma LatestSnapshotIff(files: seq<LtxFile>, t: nat, f: LtxFile)
    ensures LatestSnapshot(files, t) == Some(f) <==> IsLatest(files, f) && f.max >= t
  {
    if IsLatest(files, f) && f.max >= t {
      var i :| LatestAt(files, f, i);
      assert f in files;
      var j := LatestFound(files, t);
      assert files[j].isSnapshot;
    }
    if LatestSnapshot(files, t) == Some(f) {
      var i := LatestFound(files, t);
    }
  }

  /** The database file with `f` in it: the snapshot's image, or the incremental's pages over the old file. */
  ghost function With(s: State, f: LtxFile): (r: State)
    requires !f.isSnapshot ==> s.local.Some?
  {
    if f.isSnapshot then s.(local := Some(ApplyPages([], f.pages)), held := Span(f.max, f.max, {f.max}))
    else s.(local := Some(ApplyPages(s.local.value, f.pages)),
            held := Span(f.max, Max(s.held.newest, f.max), s.held.ends + {f.max}))
  }

  /** The file with `f` in it, and both the position and the state file at its end. */
  ghost function Taken(s: State, f: LtxFile): (r: State)
    requires !f.isSnapshot ==> s.local.Some?
  {
    With(s, f).(txid := f.max, saved := Some(f.max))
  }

  /** An incremental needs a file to be applied to. */
  ghost predicate Applicable(s: State, done: seq<LtxFile>) {
    done != [] && !done[0].isSnapshot ==> s.local.Some?
  }

  ghost function AllTaken(s: State, done: seq<LtxFile>): (r: State)
    requires Applicable(s, done)
    ensures done == [] ==> r == s
    ensures done != [] ==> r.local.Some? && r.txid == done[|done| - 1].max && r.saved == Some(r.txid)
    ensures s.local.Some? ==> r.local.Some?
    decreases |done|
  {
    if done == [] then s else AllTaken(Taken(s, done[0]), done[1..])
  }

  /** The walk of the loop from position `t` over the pending incrementals `p`: each that starts right behind the
      position is taken; the first that does not is answered with the latest snapshot, if that ends at or past its
      start, and ends the walk. */
  ghost predicate Walk(files: seq<LtxFile>, p: seq<LtxFile>, t: nat, done: seq<LtxFile>) {
    done == [] ||
    (p != [] &&
     if p[0].min == t + 1 then done[0] == p[0] && Walk(files, p[1..], p[0].max, done[1..])
     else |done| == 1 && IsLatest(files, done[0]) && done[0].max >= p[0].min)
  }

  /** The walk `done` took everything, or ended with a snapshot. */
  ghost predicate WalkOver(p: seq<LtxFile>, done: seq<LtxFile>) {
    done == p || (done != [] && done[|done| - 1].isSnapshot)
  }

  /** Behind `done` the walk stands in front of a gap that no snapshot bridges. */
  ghost predicate Stranded(files: seq<LtxFile>, p: seq<LtxFile>, t: nat, done: seq<LtxFile>, expected: nat, got: nat) {
    && |done| < |p| && done == p[..|done|]
    && expected == (if done == [] then t else done[|done| - 1].max) + 1
    && got == p[|done|].min && got != expected && NoneFrom(files, got)
  }

  /** What a poll does: without a file or a position it takes the latest snapshot; with nothing pending, one that is
      newer than its position; otherwise it walks. */
  ghost predicate Picks(s: State, files: seq<LtxFile>, done: seq<LtxFile>) {
    var p := Pending(files, s.txid);
    if s.txid == 0 || s.local.None? then done == [] || (|done| == 1 && IsLatest(files, done[0]))
    else if p == [] then done == [] || (|done| == 1 && IsLatest(files, done[0]) && done[0].max > s.txid)
    else Walk(files, p, s.txid, done)
  }

  ghost predicate Complete(s: State, files: seq<LtxFile>, done: seq<LtxFile>) {
    var p := Pending(files, s.txid);
    if s.txid == 0 || s.local.None? then done != []
    else if p == [] then done != [] || NoneFrom(files, s.txid + 1)
    else WalkOver(p, done)
  }

  /** What was taken, and what was tried after it. */
  ghost function Last(done: seq<LtxFile>, next: Option<LtxFile>): (r: seq<LtxFile>) {
    if next.Some? then done + [next.value] else done
  }

  /** The answer `o` and the state `r` of a poll or of its loop that took `done` without a fault, starting with step
      `k`. A further object `next` met a fault. */
  ghost predicate Answers(faults: nat -> StepFault, k: nat, s: State, done: seq<LtxFile>, next: Option<LtxFile>,
                          r: State, o: Outcome)
    requires Applicable(s, Last(done, next))
  {
    assert done != [] ==> Last(done, next)[0] == done[0];
    var m := AllTaken(s, done);
    && (forall i :: k <= i < k + |done| ==> faults(i).Fine?)
    && match o
       case Applied(n) =>
         && next.None? && r == m
         && n == if done != [] && done[|done| - 1].isSnapshot then 1 else k + |done|
       case Failed(ObjectError) =>
         && next.Some? && faults(k + |done|).ObjectFails?
         && r == if faults(k + |done|).published then With(m, next.value) else m
       case Failed(SaveError) =>
         && next.Some? && faults(k + |done|).SaveFails?
         && r == Taken(m, next.value).(saved := if faults(k + |done|).replaced then Some(next.value.max) else m.saved)
       case Failed(_) => next.None? && r == m
  }

  ghost predicate LoopAnswers(files: seq<LtxFile>, p: seq<LtxFile>, faults: nat -> StepFault, k: nat, s: State,
                              done: seq<LtxFile>, next: Option<LtxFile>, r: State, o: Outcome)
    requires s.local.Some?
  {
    && Walk(files, p, s.txid, Last(done, next)) && Answers(faults, k, s, done, next, r, o)
    && match o
       case Applied(_) => WalkOver(p, done)
       case Failed(TxidGap(expected, got)) => Stranded(files, p, s.txid, done, expected, got)
       case Failed(e) => e.ObjectError? || e.SaveError?
  }

  lemma BootstrapAnswers(s: State, snap: LtxFile, fault: StepFault)
    requires snap.isSnapshot
    ensures var (r, o) := Bootstrap(s, snap, fault);
            match fault
            case Fine => r == Taken(s, snap) && o == Applied(1)
            case ObjectFails(published) => r == (if published then With(s, snap) else s) && o == Failed(ObjectError)
            case SaveFails(replaced) =>
              && r == Taken(s, snap).(saved := if replaced then Some(snap.max) else s.saved)
              && o == Failed(SaveError)
  {
  }

  /** The loop in front of a gap. */
  lemma GapAnswers(files: seq<LtxFile>, p: seq<LtxFile>, faults: nat -> StepFault, k: nat, s: State)
    returns (done: seq<LtxFile>, next: Option<LtxFile>)
    requires s.local.Some? && p != [] && p[0].min != s.txid + 1
    ensures var (r, o) := ApplyLoop(files, p, faults, k, s); LoopAnswers(files, p, faults, k, s, done, next, r, o)
  {
    done, next := [], None;
    match LatestSnapshot(files, p[0].min)
    case None =>
    case Some(snap) =>
      LatestSnapshotIff(files, p[0].min, snap);
      BootstrapAnswers(s, snap, faults(k));
      if faults(k).Fine? {
        done := [snap];
        assert AllTaken(s, [snap]) == Taken(s, snap);
      } else {
        next := Some(snap);
        assert [] + [snap] == [snap];
      }
  }

  /** A step that went well, in front of a loop that is described. */
  lemma StepAnswers(files: seq<LtxFile>, p: seq<LtxFile>, faults: nat -> StepFault, k: nat, s: State,
                    done: seq<LtxFile>, next: Option<LtxFile>, r: State, o: Outcome)
    requires s.local.Some? && p != [] && p[0].min == s.txid + 1 && !p[0].isSnapshot && faults(k).Fine?
    requires LoopAnswers(files, p[1..], faults, k + 1, Taken(s, p[0]), done, next, r, o)
    ensures LoopAnswers(files, p, faults, k, s, [p[0]] + done, next, r, o)
  {
    var all := [p[0]] + done;
    assert all[1..] == done && Last(all, next)[1..] == Last(done, next);
    assert AllTaken(s, all) == AllTaken(Taken(s, p[0]), done);
    if o.Applied? && done == p[1..] {
      assert all == p;
    }
    if o.Failed? && o.error.TxidGap? {
      assert all == p[..|all|];
    }
  }

  lemma {:induction false} LoopMeans(files: seq<LtxFile>, p: seq<LtxFile>, faults: nat -> StepFault, k: nat, s: State)
    returns (done: seq<LtxFile>, next: Option<LtxFile>)
    requires s.local.Some? && forall f :: f in p ==> !f.isSnapshot
    ensures var (r, o) := ApplyLoop(files, p, faults, k, s); LoopAnswers(files, p, faults, k, s, done, next, r, o)
    decreases |p|
  {
    done, next := [], None;
    if p == [] {
    } else if p[0].min != s.txid + 1 {
      done, next := GapAnswers(files, p, faults, k, s);
    } else if faults(k).Fine? {
      assert Taken(s, p[0]) == Advance(WithIncremental(s, p[0]), p[0].max, Fine);
      done, next := LoopMeans(files, p[1..], faults, k + 1, Taken(s, p[0]));
      var (r, o) := ApplyLoop(files, p, faults, k, s);
      StepAnswers(files, p, faults, k, s, done, next, r, o);
      done := [p[0]] + done;
    } else {
      next := Some(p[0]);
      assert [] + [p[0]] == [p[0]];
    }
  }

  /** The whole poll. */
  ghost predicate PollAnswers(s: State, files: seq<LtxFile>, faults: nat -> StepFault, done: seq<LtxFile>,
                              next: Option<LtxFile>, r: State, o: Outcome)
  {
    && Picks(s, files, Last(done, next))
    && Applicable(s, Last(done, next)) && Answers(faults, 0, s, done, next, r, o)
    && match o
       case Applied(_) => Complete(s, files, done)
       case Failed(NoSnapshot) => (s.txid == 0 || s.local.None?) && forall f :: f in files ==> !f.isSnapshot
       case Failed(TxidGap(expected, got)) =>
         s.txid > 0 && s.local.Some? && Stranded(files, Pending(files, s.txid), s.txid, done, expected, got)
       case Failed(e) => e.ObjectError? || e.SaveError?
  }

  lemma SnapshotAnswers(s: State, files: seq<LtxFile>, faults: nat -> StepFault, snap: LtxFile)
    returns (done: seq<LtxFile>, next: Option<LtxFile>)
    requires snap.isSnapshot && Picks(s, files, [snap]) && Complete(s, files, [snap])
    ensures var (r, o) := Bootstrap(s, snap, faults(0)); PollAnswers(s, files, faults, done, next, r, o)
  {
    BootstrapAnswers(s, snap, faults(0));
    assert [] + [snap] == [snap] && AllTaken(s, [snap]) == Taken(s, snap);
    done, next := if faults(0).Fine? then [snap] else [], if faults(0).Fine? then None else Some(snap);
  }

  /** What every poll does and answers, whatever the listing and the faults. It takes objects in order, without a
      fault: each is in the file, and position and state file are at its end. It reports the number taken, or 1 after a
      snapshot, exactly when nothing is left to take. Otherwise it names the gap it stands in front of, the missing
      snapshot, or the one step that failed, and the state shows how far that step got. */
  lemma PollMeans(s: State, files: seq<LtxFile>, faults: nat -> StepFault)
    returns (done: seq<LtxFile>, next: Option<LtxFile>)
    requires files != []
    ensures var (r, o) := PollStep(s, Some(files), faults); PollAnswers(s, files, faults, done, next, r, o)
  {
    done, next := [], None;
    var p, latest := Pending(files, s.txid), LatestSnapshot(files, 0);
    if latest.Some? {
      LatestSnapshotIff(files, 0, latest.value);
    }
    if s.txid == 0 || s.local.None? {
      if latest.Some? {
        done, next := SnapshotAnswers(s, files, faults, latest.value);
      }
    } else if p != [] {
      done, next := LoopMeans(files, p, faults, 0, s);
    } else if latest.Some? && latest.value.max > s.txid {
      done, next := SnapshotAnswers(s, files, faults, latest.value);
    }
  }

  /** A listing that failed, or that is empty, is reported as such and changes nothing. */
  lemma ListingAnswers(s: State, files: Option<seq<LtxFile>>, faults: nat -> StepFault)
    ensures var (r, o) := PollStep(s, files, faults);
            && (o == Failed(ListFailed) <==> files.None?) && (o == Failed(NoFiles) <==> files == Some([]))
            && (files.None? || files == Some([]) ==> r == s)
  {
    if files.Some? && files.value != [] {
      var done, next := PollMeans(s, files.value, faults);
    }
  }

  /** A poll that reports progress leaves position, state file and database file at the end of one object, so a restart
      resumes there. One that reports none changed nothing. */
  lemma ProgressIsSaved(s: State, files: Option<seq<LtxFile>>, faults: nat -> StepFault)
    ensures var (r, o) := PollStep(s, files, faults);
            && (o.Applied? && o.count > 0 ==> r.saved == Some(r.txid) && r.local.Some? && Restarted(r, true) == r)
            && (o == Applied(0) ==> r == s)
  {
    ListingAnswers(s, files, faults);
    if files.Some? && files.value != [] {
      var done, next := PollMeans(s, files.value, faults);
    }
  }

  /** A restart that can read its state file changes nothing, and there is no state file without a database. */
  ghost predicate Resumable(s: State) {
    Restarted(s, true) == s && (s.local.None? ==> s.saved.None?)
  }

  /** A poll in which every save that is tried replaces the state file, whatever else fails, or a restart that can read
      it. */
  ghost predicate Resumes(e: Event) {
    match e
    case Poll(_, faults) => forall k: nat :: faults(k) != SaveFails(false)
    case FileLost => false
    case Restart(readable) => readable
  }

  lemma PollResumable(s: State, files: Option<seq<LtxFile>>, faults: nat -> StepFault)
    requires Resumable(s) && forall k: nat :: faults(k) != SaveFails(false)
    ensures Resumable(PollStep(s, files, faults).0)
  {
    ListingAnswers(s, files, faults);
    if files.Some? && files.value != [] {
      var done, next := PollMeans(s, files.value, faults);
      var (r, o) := PollStep(s, files, faults);
      assert o == Failed(SaveError) ==> faults(|done|) == SaveFails(true);
    }
  }

  ghost function WithoutRestarts(events: seq<Event>): (r: seq<Event>) {
    if events == [] then []
    else
      var init, e := WithoutRestarts(events[..|events| - 1]), events[|events| - 1];
      if e.Restart? then init else init + [e]
  }

  /** Restarts leave no trace: a run of polls, with failing downloads, applies and listings anywhere, ends in the same
      state without them. */
  lemma {:induction false} RestartsChangeNothing(s: State, events: seq<Event>)
    requires Resumable(s) && forall e :: e in events ==> Resumes(e)
    ensures Resumable(Run(s, events)) && Run(s, events) == Run(s, WithoutRestarts(events))
  {
    if events == [] {
    } else {
      var init, e := events[..|events| - 1], events[|events| - 1];
      assert e in events && forall x :: x in init ==> x in events;
      RestartsChangeNothing(s, init);
      if e.Poll? {
        PollResumable(Run(s, init), e.files, e.faults);
        var rest := WithoutRestarts(init);
        assert (rest + [e])[..|rest|] == rest;
      }
    }
  }

  /** A restart without a readable state file, or without a database, starts over: the next poll takes the latest
      snapshot whatever position was saved. */
  lemma StartsOver(s: State, readable: bool, files: seq<LtxFile>, faults: nat -> StepFault, snap: LtxFile)
    requires !readable || s.local.None? || s.saved.None?
    requires IsLatest(files, snap) && faults(0).Fine?
    ensures PollStep(Restarted(s, readable), Some(files), faults) == (Taken(s, snap), Applied(1))
  {
    LatestSnapshotIff(files, 0, snap);
    BootstrapAnswers(Restarted(s, readable), snap, faults(0));
  }
}
