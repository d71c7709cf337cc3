/** The model object of the state-machine test: which rows were committed, at which TXIDs the engine confirmed them,
    and which snapshots were deleted. */
module OracleModel {
  import opened Options
  import opened Oracle
  import opened Planner
  import opened Ranges
  import opened Retention

  /** What a successful sync tick reports: the first snapshot of a new stream, an incremental of `pages` changed
      pages (one TXID each), a snapshot that heals a WAL rollover, or no new frames. */
  datatype SyncOutput = Initial | Shipped(pages: nat) | Rollover | Idle

  /** For each published object, how many rows were committed when it was confirmed. */
  ghost function RowMap(pubs: seq<Published>, lens: seq<nat>): (r: map<nat, nat>)
    requires |lens| == |pubs|
  {
    if pubs == [] then map[]
    else RowMap(pubs[..|pubs| - 1], lens[..|lens| - 1])[Head(pubs) := lens[|lens| - 1]]
  }

  ghost predicate Recorded(pubs: seq<Published>, lens: seq<nat>, boundaryRows: map<nat, nat>) {
    |lens| == |pubs| && boundaryRows == RowMap(pubs, lens)
  }

  ghost predicate Growing(lens: seq<nat>, total: nat) {
    lens == [] || (lens[|lens| - 1] <= total && Growing(lens[..|lens| - 1], lens[|lens| - 1]))
  }

  lemma {:induction false} GrowingAt(lens: seq<nat>, total: nat, i: nat, j: nat)
    requires Growing(lens, total) && i <= j < |lens|
    ensures lens[i] <= lens[j] <= total
  {
    var init := lens[..|lens| - 1];
    if j < |lens| - 1 {
      GrowingAt(init, lens[|lens| - 1], i, j);
    } else if i < j {
      GrowingAt(init, lens[|lens| - 1], i, |init| - 1);
    }
  }

  lemma {:induction false} RowAt(pubs: seq<Published>, lens: seq<nat>, i: nat)
    requires History(pubs) && i < |pubs| == |lens|
    ensures pubs[i].Last() in RowMap(pubs, lens) && RowMap(pubs, lens)[pubs[i].Last()] == lens[i]
  {
    if i == |pubs| - 1 {
    } else {
      RowAt(pubs[..|pubs| - 1], lens[..|lens| - 1], i);
      Ordered(pubs, i, |pubs| - 1);
    }
  }

  lemma {:induction false} RowOnlyAt(pubs: seq<Published>, lens: seq<nat>, t: nat) returns (i: nat)
    requires |pubs| == |lens| && t in RowMap(pubs, lens)
    ensures i < |pubs| && pubs[i].Last() == t
  {
    if t == Head(pubs) {
      i := |pubs| - 1;
    } else {
      i := RowOnlyAt(pubs[..|pubs| - 1], lens[..|lens| - 1], t);
    }
  }

  class Model {
    var written: seq<int>
    var durableLen: nat
    var hasBase: bool
    var boundaryRows: map<nat, nat>
    var snapshotTxids: set<nat>
    var deletedSnapshots: set<nat>
    var txid: nat       // the engine's current TXID
    var pending: bool   // rows committed since the last confirmation
    ghost var pubs: seq<Published>
    ghost var lens: seq<nat>

    ghost predicate Valid()
      reads this
    {
      && History(pubs) && txid == Head(pubs)
      && snapshotTxids == Snapshots(pubs) && deletedSnapshots <= snapshotTxids
      && Recorded(pubs, lens, boundaryRows) && Growing(lens, |written|)
      && durableLen == (if lens == [] then 0 else lens[|lens| - 1])
      && hasBase == (pubs != [])
      && (!pending ==> |written| == durableLen)
    }

    constructor ()
      ensures Valid() && pubs == [] && written == [] && !pending
    {
      written, durableLen, hasBase, boundaryRows := [], 0, false, map[];
      snapshotTxids, deletedSnapshots, txid, pending := {}, {}, 0, false;
      pubs, lens := [], [];
    }

    method WriteTxn(rows: seq<int>)
      requires Valid()
      modifies this`written, this`pending
      ensures Valid() && written == old(written) + rows && pending == (old(pending) || rows != [])
    {
      written := written + rows;
      if rows != [] {
        pending := true;
      }
    }

    method MarkDurable(at: nat)
      modifies this`durableLen, this`hasBase, this`boundaryRows
      ensures durableLen == |written| && hasBase && boundaryRows == old(boundaryRows)[at := |written|]
    {
      durableLen := |written|;
      hasBase := true;
      boundaryRows := boundaryRows[at := durableLen];
    }

    /** An object was published that holds every committed row. */
    method Confirm(next: Published)
      requires Valid() && Follows(next, txid) && (pubs == [] ==> next.Snapshot?)
      modifies this
      ensures Valid() && written == old(written) && deletedSnapshots == old(deletedSnapshots)
      ensures pubs == old(pubs) + [next] && lens == old(lens) + [|written|] && durableLen == |written| && !pending
      ensures txid == next.Last()
      ensures snapshotTxids == old(snapshotTxids) + if next.Snapshot? then {next.Last()} else {}
    {
      Extended(pubs, lens, next, |written|);
      txid := next.Last();
      if next.Snapshot? {
        snapshotTxids := snapshotTxids + {txid};
      }
      pubs, lens := pubs + [next], lens + [|written|];
      MarkDurable(txid);
      pending := false;
    }

    /** A successful tick. Frames shipped, a rollover healed, or nothing pending confirm all committed rows; an idle
        tick with rows pending confirms nothing. */
    method DurableFlush(output: SyncOutput)
      requires Valid()
      requires output.Initial? <==> txid == 0
      requires output.Shipped? ==> output.pages >= 1
      modifies this
      ensures Valid() && written == old(written) && deletedSnapshots == old(deletedSnapshots)
      ensures pubs == old(pubs) + PublishedBy(output, old(txid))
      ensures lens == old(lens) + if output.Idle? then [] else [|written|]
      ensures txid == old(txid) + match output { case Idle => 0 case Shipped(pages) => pages case _ => 1 }
      ensures snapshotTxids == old(snapshotTxids) + if output.Initial? || output.Rollover? then {txid} else {}
      ensures !output.Idle? || !old(pending) ==> durableLen == |written| && !pending
      ensures output.Idle? && old(pending) ==> durableLen == old(durableLen) && pending
    {
      if pubs != [] {
        HistoryPrefix(pubs, |pubs| - 1);
      }
      match output {
        case Idle =>
          if !pending {
            MarkDurable(txid);
          }
        case Shipped(pages) => Confirm(Incremental(SeqRange(txid + 1, txid + pages)));
        case _ => Confirm(Snapshot(txid + 1));
      }
    }

    /** A forced snapshot holds every committed row. It takes its TXID from the listing, so it may skip some. */
    method DurableSnapshot(at: nat)
      requires Valid() && at > txid
      modifies this
      ensures Valid() && written == old(written) && deletedSnapshots == old(deletedSnapshots)
      ensures pubs == old(pubs) + [Snapshot(at)] && lens == old(lens) + [|written|]
      ensures durableLen == |written| && !pending
    {
      Confirm(Snapshot(at));
    }

    /** Carry out a prune plan; the storage refuses the deletion at position `stop`, if there is one. */
    method PruneOnce(plan: seq<nat>, stop: nat)
      requires Valid() && stop <= |plan| && forall x :: x in plan ==> x in snapshotTxids
      modifies this`deletedSnapshots
      ensures Valid()
      ensures deletedSnapshots == old(deletedSnapshots) + set x | x in plan[..stop]
    {
      for i := 0 to stop
        invariant Valid()
        invariant deletedSnapshots == old(deletedSnapshots) + set x | x in plan[..i]
      {
        assert plan[i] in plan && plan[..i + 1] == plan[..i] + [plan[i]];
        deletedSnapshots := deletedSnapshots + {plan[i]};
      }
    }

    method RowsAtBoundary(t: nat) returns (r: Option<seq<int>>)
      requires Valid()
      ensures r.Some? <==> exists i :: 0 <= i < |pubs| && pubs[i].Last() == t
      ensures forall i :: 0 <= i < |pubs| && pubs[i].Last() == t ==>
                lens[i] <= |written| && r == Some(written[..lens[i]])
    {
      forall i | 0 <= i < |pubs|
        ensures pubs[i].Last() in boundaryRows && boundaryRows[pubs[i].Last()] == lens[i] <= |written|
      {
        RowAt(pubs, lens, i);
        GrowingAt(lens, |written|, i, i);
      }
      if t in boundaryRows {
        ghost var i := RowOnlyAt(pubs, lens, t);
        r := Some(written[..boundaryRows[t]]);
      } else {
        r := None;
      }
    }
  }

  function PublishedBy(output: SyncOutput, txid: nat): (r: seq<Published>) {
    match output
    case Idle => []
    case Shipped(pages) => [Incremental(SeqRange(txid + 1, txid + pages))]
    case _ => [Snapshot(txid + 1)]
  }

  /** Publishing the next object keeps the history and its bookkeeping. */
  lemma Extended(pubs: seq<Published>, lens: seq<nat>, next: Published, total: nat)
    requires History(pubs) && |lens| == |pubs| && Growing(lens, total)
    requires Follows(next, Head(pubs)) && (pubs == [] ==> next.Snapshot?)
    ensures History(pubs + [next]) && Growing(lens + [total], total)
    ensures RowMap(pubs + [next], lens + [total]) == RowMap(pubs, lens)[next.Last() := total]
    ensures Snapshots(pubs + [next]) == Snapshots(pubs) + (if next.Snapshot? then {next.Last()} else {})
  {
    var all, allLens := pubs + [next], lens + [total];
    assert all[..|all| - 1] == pubs && all[|pubs|] == next && allLens[..|allLens| - 1] == lens;
    assert Growing(lens, total) ==> Growing(allLens, total);
    forall x
      ensures x in Snapshots(all) <==> x in Snapshots(pubs) || (next.Snapshot? && x == next.Last())
    {
      if x in Snapshots(pubs) {
        var i :| 0 <= i < |pubs| && pubs[i].Snapshot? && pubs[i].Last() == x;
        assert all[i].Snapshot? && all[i].Last() == x;
      }
    }
  }

  /** The rows an object carries: all of them for a snapshot, the new ones for an incremental. This is what the oracle
      takes the engine to ship; how rows lie on pages is not modelled. */
  ghost function ObjectRows(pubs: seq<Published>, lens: seq<nat>, written: seq<int>, i: nat): (r: seq<int>)
    requires i < |pubs| == |lens| && Growing(lens, |written|)
  {
    GrowingAt(lens, |written|, i, i);
    if pubs[i].Snapshot? || i == 0 then written[..lens[i]]
    else
      GrowingAt(lens, |written|, i - 1, i);
      written[lens[i - 1]..lens[i]]
  }

  /** Replaying the snapshot at `a` and the objects after it, up to `k`. */
  ghost function ReplayRows(pubs: seq<Published>, lens: seq<nat>, written: seq<int>, a: nat, k: nat): (r: seq<int>)
    requires a <= k < |pubs| == |lens| && Growing(lens, |written|)
  {
    if k == a then ObjectRows(pubs, lens, written, a)
    else ReplayRows(pubs, lens, written, a, k - 1) + ObjectRows(pubs, lens, written, k)
  }

  /** The new rows of the incrementals, put together behind those of the snapshot, are the recorded prefix: with the
      rows of an object given by the recorded lengths this is a telescoping sum. */
  lemma {:induction false} ReplayRowsExact(pubs: seq<Published>, lens: seq<nat>, written: seq<int>, a: nat, k: nat)
    requires a <= k < |pubs| == |lens| && Growing(lens, |written|)
    requires pubs[a].Snapshot? && AllIncremental(pubs, a, k)
    ensures lens[k] <= |written| && ReplayRows(pubs, lens, written, a, k) == written[..lens[k]]
  {
    GrowingAt(lens, |written|, k, k);
    if a >= k {
    } else {
      GrowingAt(lens, |written|, k - 1, k);
      ReplayRowsExact(pubs, lens, written, a, k - 1);
    }
  }

  /** The oracle's row promise, for any history and any deletions: where the planner gets from the base, be it the
      wanted boundary or the one it stopped at, replay yields exactly the rows recorded for that boundary, and those
      are a prefix of the rows recorded for the wanted one. */
  lemma RestoredRows(pubs: seq<Published>, lens: seq<nat>, written: seq<int>, boundaryRows: map<nat, nat>,
                     deleted: set<nat>, pool: seq<Candidate>, m: nat) returns (a: nat, k: nat)
    requires History(pubs) && m < |pubs| && PoolFor(pool, pubs, 0, pubs[m].Last()) && Upward(pool)
    requires Recorded(pubs, lens, boundaryRows) && Growing(lens, |written|)
    requires NewestIn(Snapshots(pubs) - deleted, 0, pubs[m].Last()).Some?
    ensures a <= k <= m && NewestIn(Snapshots(pubs) - deleted, 0, pubs[m].Last()) == Some(pubs[a].Last())
    ensures var plan := PlanFrom(pool, pubs[a].Last(), pubs[m].Last());
            if PitReachable(Snapshots(pubs), deleted, pubs[m].Last()) then plan.Plan? && k == m
            else plan.ChainGap? && pubs[k].Last() == plan.nearestBelow && k < m
    ensures pubs[k].Last() in boundaryRows && boundaryRows[pubs[k].Last()] <= |written|
    ensures ReplayRows(pubs, lens, written, a, k) == written[..boundaryRows[pubs[k].Last()]]
    ensures pubs[m].Last() in boundaryRows && boundaryRows[pubs[k].Last()] <= boundaryRows[pubs[m].Last()]
  {
    a := FindBase(pubs, deleted, m);
    ReachableFromBase(pubs, deleted, a, m);
    k := WalkEnd(pool, pubs, 0, a, m);
    RowAt(pubs, lens, k);
    RowAt(pubs, lens, m);
    GrowingAt(lens, |written|, k, m);
    ReplayRowsExact(pubs, lens, written, a, k);
  }
}
