/** The read-replica poll: bootstrap from a snapshot, apply contiguous incrementals, re-bootstrap
    across a gap. */
module Replica {
  import opened Lists
  import opened Options
  import opened Pages

  /** A discovered LTX object. A snapshot's pages are the whole database image, in page order; an
      incremental's are the pages its TXIDs touched. */
  datatype LtxFile = LtxFile(isSnapshot: bool, min: nat, max: nat, pages: seq<PageWrite>)

  function MinKey(f: LtxFile): Key { (f.min, 0) }

  /** What the environment does to one download, apply and state save. Database and state file are both renamed
      into place before their directory is synced, so a failed step may or may not have replaced the file. */
  datatype StepFault = Fine | ObjectFails(published: bool) | SaveFails(replaced: bool)

  datatype PollError =
    | ListFailed
    | NoFiles
    | NoSnapshot
    | TxidGap(expected: nat, got: nat)
    | ObjectError
    | SaveError

  datatype Outcome = Applied(count: nat) | Failed(error: PollError)

  /** The history of the published file since it was last replaced by a snapshot: the TXID at which the last published
      object ended, the furthest such TXID, and all of them. */
  datatype Span = Span(end: nat, newest: nat, ends: set<nat>)

  /** `txid` is the in-memory position (0 before initialisation), `local` the published database file
      and `saved` the position in the state file next to it. `held` only records what happened to the file. */
  datatype State = State(txid: nat, local: Option<Db>, saved: Option<nat>, held: Span)

  /** Among the snapshots ending at or past `atLeast`, the last one listed with the largest end. */
  function LatestSnapshot(files: seq<LtxFile>, atLeast: nat): (r: Option<LtxFile>)
    ensures r.None? <==> forall f :: f in files && f.isSnapshot ==> f.max < atLeast
    ensures r.Some? ==> r.value in files && r.value.isSnapshot && r.value.max >= atLeast
    ensures r.Some? ==> forall f :: f in files && f.isSnapshot ==> f.max <= r.value.max
  {
    if files == [] then None
    else
      var best := LatestSnapshot(files[..|files| - 1], atLeast);
      var f := files[|files| - 1];
      if f.isSnapshot && f.max >= atLeast && (best.None? || f.max >= best.value.max) then Some(f) else best
  }

  /** The incrementals that start past `txid`, in `min` order. */
  function Pending(files: seq<LtxFile>, txid: nat): (r: seq<LtxFile>)
    ensures forall f :: f in r <==> f in files && !f.isSnapshot && f.min > txid
  {
    var later := Filter((f: LtxFile) => !f.isSnapshot && f.min > txid, files);
    SortByMembers(MinKey, later);
    SortBy(MinKey, later)
  }

  /** None is lost or repeated, and they come in `min` order. */
  lemma PendingInOrder(files: seq<LtxFile>, txid: nat)
    ensures multiset(Pending(files, txid)) == multiset(Filter((f: LtxFile) => !f.isSnapshot && f.min > txid, files))
    ensures var p := Pending(files, txid); forall i, j :: 0 <= i < j < |p| ==> p[i].min <= p[j].min
  {
    var later := Filter((f: LtxFile) => !f.isSnapshot && f.min > txid, files);
    SortBySorts(MinKey, later);
    var p := Pending(files, txid);
    forall i, j | 0 <= i < j < |p|
      ensures p[i].min <= p[j].min
    {
      assert Leq(MinKey(p[i]), MinKey(p[j]));
    }
  }

  /** And those that start at the same TXID in the order of the listing. */
  lemma PendingKeepsOrder(files: seq<LtxFile>, txid: nat, min: nat)
    ensures var starts := (f: LtxFile) => f.min == min;
            Filter(starts, Pending(files, txid)) ==
            Filter(starts, Filter((f: LtxFile) => !f.isSnapshot && f.min > txid, files))
  {
    var starts := (f: LtxFile) => f.min == min;
    SortIsStable(MinKey, starts, Filter((f: LtxFile) => !f.isSnapshot && f.min > txid, files));
  }

  /** Rename a new database over the local one. */
  function Replace(s: State, db: Db, held: Span): (r: State) {
    s.(local := Some(db), held := held)
  }

  /** Move to TXID `txid`, then save the position. */
  function Advance(s: State, txid: nat, fault: StepFault): (r: State) {
    s.(txid := txid, saved := if fault == SaveFails(false) then s.saved else Some(txid))
  }

  /** The local file after snapshot `snap`, decoded into a fresh file, was published over it. */
  function WithSnapshot(s: State, snap: LtxFile): (r: State) {
    Replace(s, ApplyPages([], snap.pages), Span(snap.max, snap.max, {snap.max}))
  }

  /** The local file after `f`, applied to a copy, was published over it. */
  function WithIncremental(s: State, f: LtxFile): (r: State)
    requires s.local.Some?
  {
    var newest := if s.held.newest < f.max then f.max else s.held.newest;
    Replace(s, ApplyPages(s.local.value, f.pages), Span(f.max, newest, s.held.ends + {f.max}))
  }

  function Bootstrap(s: State, snap: LtxFile, fault: StepFault): (r: (State, Outcome)) {
    match fault
    case ObjectFails(published) => (if published then WithSnapshot(s, snap) else s, Failed(ObjectError))
    case SaveFails(_) => (Advance(WithSnapshot(s, snap), snap.max, fault), Failed(SaveError))
    case Fine => (Advance(WithSnapshot(s, snap), snap.max, fault), Applied(1))
  }

  /** The loop over the pending incrementals; step `k` of the poll meets `faults(k)`. */
  function ApplyLoop(files: seq<LtxFile>, pending: seq<LtxFile>, faults: nat -> StepFault, k: nat, s: State)
    : (r: (State, Outcome))
    requires s.local.Some?
  {
    if pending == [] then (s, Applied(k))
    else
      var f := pending[0];
      if f.min != s.txid + 1 then
        match LatestSnapshot(files, f.min)
        case None => (s, Failed(TxidGap(s.txid + 1, f.min)))
        case Some(snap) => Bootstrap(s, snap, faults(k))
      else match faults(k)
        case ObjectFails(published) => (if published then WithIncremental(s, f) else s, Failed(ObjectError))
        case SaveFails(_) => (Advance(WithIncremental(s, f), f.max, faults(k)), Failed(SaveError))
        case Fine => ApplyLoop(files, pending[1..], faults, k + 1, Advance(WithIncremental(s, f), f.max, Fine))
  }

  /** One poll over the listing `files`; `None` is a listing that failed. */
  function PollStep(s: State, files: Option<seq<LtxFile>>, faults: nat -> StepFault): (r: (State, Outcome))
  {
    if files.None? then (s, Failed(ListFailed))
    else if files.value == [] then (s, Failed(NoFiles))
    else if s.txid == 0 || s.local.None? then
      match LatestSnapshot(files.value, 0)
      case None => (s, Failed(NoSnapshot))
      case Some(snap) => Bootstrap(s, snap, faults(0))
    else
      var pending := Pending(files.value, s.txid);
      var latest := LatestSnapshot(files.value, 0);
      if pending == [] then
        if latest.Some? && latest.value.max > s.txid then Bootstrap(s, latest.value, faults(0))
        else (s, Applied(0))
      else ApplyLoop(files.value, pending, faults, 0, s)
  }

  /** The running replica process: the poll updates its position and publishes database and state
      file one object at a time. */
  class Replicator {
    var txid: nat
    var local: Option<Db>
    var saved: Option<nat>
    ghost var held: Span

    ghost function Abstract(): State
      reads this
    {
      State(txid, local, saved, held)
    }

    /** Start-up: resume from the state file when the local database exists and the file can be read. */
    constructor (local: Option<Db>, saved: Option<nat>, readable: bool, ghost held: Span)
      ensures Abstract() == Restarted(State(0, local, saved, held), readable)
    {
      this.local, this.saved, this.held := local, saved, held;
      this.txid := if local.Some? && saved.Some? && readable then saved.value else 0;
    }

    method SaveState(fault: StepFault) returns (ok: bool)
      modifies this`saved
      ensures ok == !fault.SaveFails?
      ensures saved == if fault == SaveFails(false) then old(saved) else Some(txid)
    {
      match fault {
        case SaveFails(replaced) =>
          if replaced { saved := Some(txid); }
          ok := false;
        case _ =>
          saved := Some(txid);
          ok := true;
      }
    }

    method BootstrapFrom(snap: LtxFile, fault: StepFault) returns (outcome: Outcome)
      modifies this
      ensures (Abstract(), outcome) == Bootstrap(old(Abstract()), snap, fault)
    {
      if fault == ObjectFails(false) {
        return Failed(ObjectError);
      }
      local, held := Some(ApplyPages([], snap.pages)), Span(snap.max, snap.max, {snap.max});
      if fault.ObjectFails? {
        return Failed(ObjectError);
      }
      txid := snap.max;
      var ok := SaveState(fault);
      outcome := if ok then Applied(1) else Failed(SaveError);
    }

    /** The loop of the poll, one incremental at a time. */
    method ApplyPending(files: seq<LtxFile>, pending: seq<LtxFile>, faults: nat -> StepFault)
      returns (outcome: Outcome)
      requires local.Some?
      modifies this
      ensures (Abstract(), outcome) == ApplyLoop(files, pending, faults, 0, old(Abstract()))
    {
      var applied := 0;
      while applied < |pending|
        invariant 0 <= applied <= |pending|
        invariant local.Some?
        invariant ApplyLoop(files, pending, faults, 0, old(Abstract())) ==
                  ApplyLoop(files, pending[applied..], faults, applied, Abstract())
      {
        var f := pending[applied];
        assert pending[applied..][1..] == pending[applied + 1..];
        if f.min != txid + 1 {
          var gap := LatestSnapshot(files, f.min);
          if gap.None? {
            return Failed(TxidGap(txid + 1, f.min));
          }
          outcome := BootstrapFrom(gap.value, faults(applied));
          return;
        }
        if faults(applied) == ObjectFails(false) {
          return Failed(ObjectError);
        }
        ghost var before := Abstract();
        local := Some(ApplyPages(local.value, f.pages));
        held := WithIncremental(before, f).held;
        if faults(applied).ObjectFails? {
          return Failed(ObjectError);
        }
        txid := f.max;
        var ok := SaveState(faults(applied));
        assert Abstract() == Advance(WithIncremental(before, f), f.max, faults(applied));
        if !ok {
          return Failed(SaveError);
        }
        applied := applied + 1;
      }
      outcome := Applied(applied);
    }

    method Poll(files: Option<seq<LtxFile>>, faults: nat -> StepFault) returns (outcome: Outcome)
      modifies this
      ensures (Abstract(), outcome) == PollStep(old(Abstract()), files, faults)
    {
      if files.None? {
        return Failed(ListFailed);
      }
      if files.value == [] {
        return Failed(NoFiles);
      }
      if txid == 0 || local.None? {
        var latest := LatestSnapshot(files.value, 0);
        if latest.None? {
          return Failed(NoSnapshot);
        }
        outcome := BootstrapFrom(latest.value, faults(0));
        return;
      }
      var pending := Pending(files.value, txid);
      var latest := LatestSnapshot(files.value, 0);
      if latest.Some? && latest.value.max > txid && pending == [] {
        outcome := BootstrapFrom(latest.value, faults(0));
        return;
      }
      if pending == [] {
        return Applied(0);
      }
      outcome := ApplyPending(files.value, pending, faults);
    }
  }

  /** The process dies and starts again: memory is lost, the two files stay. */
  function Restarted(s: State, readable: bool): (r: State)
  {
    s.(txid := if s.local.Some? && s.saved.Some? && readable then s.saved.value else 0)
  }
}
