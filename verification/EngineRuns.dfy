/** What every run of the engine keeps, and what a restore returns after any run. */
module EngineRuns {
  import opened Options
  import opened Pages
  import opened Engine

  /** A change of the database file, or a call of the engine. */
  datatype Op =
    | Edit(db: Db)
    | TakeSnapshot(encodes: bool, fates: seq<PutFate>, readable: bool)
    | SyncWal(encodes: bool, fates: seq<PutFate>, readable: bool)

  function Step(hash: Hash, s: State, op: Op): (r: State) {
    match op
    case Edit(db) => s.(db := db)
    case TakeSnapshot(encodes, fates, readable) => SnapshotStep(hash, s, encodes, fates, readable).0
    case SyncWal(encodes, fates, readable) => SyncStep(hash, s, encodes, fates, readable).0
  }

  function Run(hash: Hash, s: State, ops: seq<Op>): (r: State) {
    if ops == [] then s else Step(hash, Run(hash, s, ops[..|ops| - 1]), ops[|ops| - 1])
  }

  /** No PUT of the run is silently corrupted. */
  predicate Uncorrupted(ops: seq<Op>) {
    forall op :: op in ops && !op.Edit? ==> Corrupted !in op.fates
  }

  /** The stored object of TXID `t` is a full image of the recorded state, or the incremental that leads to
      it: its pre-checksum is the full checksum of the state before it, and it hashes to its post-checksum. */
  ghost predicate Intact(hash: Hash, recorded: seq<Db>, t: nat, obj: Object)
    requires 1 <= t <= |recorded|
  {
    || obj == Snap(recorded[t - 1])
    || (t >= 2 && obj == IncFor(hash, recorded[t - 1], recorded[t - 2], Some(FullChecksum(hash, recorded[t - 2]))))
  }

  ghost predicate HasObject(hash: Hash, recorded: seq<Db>, store: Store, t: nat, corruptible: bool)
    requires 1 <= t <= |recorded|
  {
    && (t, t) in store
    && (Intact(hash, recorded, t, store[(t, t)]) || (corruptible && store[(t, t)] == Torn))
  }

  /** Held by every reachable state. `corruptible` allows for silently corrupted PUTs. */
  ghost predicate Inv(hash: Hash, s: State, corruptible: bool) {
    && |s.recorded| == s.txid
    && (s.txid == 0 ==> s.last == [] && s.sum == None)
    && (s.txid > 0 ==> s.last == s.recorded[s.txid - 1] && s.sum == Some(FullChecksum(hash, s.last)))
    && (forall k :: k in s.store ==> k.0 == k.1 && 1 <= k.1 <= s.txid + 1)
    && (forall t :: 1 <= t <= s.txid ==> HasObject(hash, s.recorded, s.store, t, corruptible))
    && ((s.txid + 1, s.txid + 1) in s.store ==> !s.store[(s.txid + 1, s.txid + 1)].Inc?)
  }

  /** No whole object waits at the next TXID. */
  ghost predicate NoneWaiting(s: State) {
    (s.txid + 1, s.txid + 1) in s.store ==> s.store[(s.txid + 1, s.txid + 1)] == Torn
  }

  /** The state as a restore sees it: an image that a failed snapshot call left whole counts as shipped. */
  ghost function Shipped(hash: Hash, s: State): (r: State) {
    var next := (s.txid + 1, s.txid + 1);
    if next in s.store && s.store[next].Snap? then
      var pages := s.store[next].pages;
      s.(txid := s.txid + 1, recorded := s.recorded + [pages], last := pages, sum := Some(FullChecksum(hash, pages)))
    else s
  }

  lemma ShippedInv(hash: Hash, s: State, corruptible: bool)
    requires Inv(hash, s, corruptible)
    ensures Inv(hash, Shipped(hash, s), corruptible) && NoneWaiting(Shipped(hash, s))
    ensures s.recorded <= Shipped(hash, s).recorded && Shipped(hash, s).store == s.store
  {
    var s' := Shipped(hash, s);
    forall t | 1 <= t <= s'.txid
      ensures HasObject(hash, s'.recorded, s'.store, t, corruptible)
    {
      if t <= s.txid {
        assert HasObject(hash, s.recorded, s.store, t, corruptible);
      }
    }
  }

  /** A PUT touches its own key only, and leaves there the object or a torn one. */
  lemma {:induction false} PutEffect(store: Store, key: TxidKey, obj: Object, fates: seq<PutFate>)
    ensures var (r, ok) := PutAll(store, key, obj, fates);
            && r - {key} == store - {key}
            && (ok ==> key in r && (r[key] == obj || (r[key] == Torn && Corrupted in fates)))
            && (!ok && key in r ==> r[key] == Torn || (key in store && r[key] == store[key]))
    decreases |fates|
  {
    if fates == [] {
    } else {
      assert fates[0] in fates;
      PutEffect(store, key, obj, fates[1..]);
      PutEffect(store[key := Torn], key, obj, fates[1..]);
    }
  }

  lemma OtherKeysKept(store: Store, r: Store, key: TxidKey)
    requires r - {key} == store - {key}
    ensures forall k :: k != key ==> (k in r <==> k in store)
    ensures forall k :: k != key && k in r ==> r[k] == store[k]
  {
    forall k: TxidKey | k != key
      ensures k in r <==> k in store
      ensures k in r ==> r[k] == store[k]
    {
      assert k in r - {key} <==> k in store - {key};
      assert k in r ==> (r - {key})[k] == (store - {key})[k];
    }
  }

  /** Whatever the PUT at the next TXID did, as long as it left no incremental there, a state that stays is fine. */
  lemma StayInv(hash: Hash, s: State, r: Store, corruptible: bool)
    requires Inv(hash, s, corruptible) && r - {(s.txid + 1, s.txid + 1)} == s.store - {(s.txid + 1, s.txid + 1)}
    requires (s.txid + 1, s.txid + 1) in r ==> !r[(s.txid + 1, s.txid + 1)].Inc?
    ensures Inv(hash, s.(store := r), corruptible)
  {
    OtherKeysKept(s.store, r, (s.txid + 1, s.txid + 1));
    forall t | 1 <= t <= s.txid
      ensures HasObject(hash, s.recorded, r, t, corruptible)
    {
      assert HasObject(hash, s.recorded, s.store, t, corruptible);
    }
  }

  lemma AdvanceInv(hash: Hash, s: State, r: Store, corruptible: bool)
    requires Inv(hash, s, corruptible) && r - {(s.txid + 1, s.txid + 1)} == s.store - {(s.txid + 1, s.txid + 1)}
    requires HasObject(hash, s.recorded + [s.db], r, s.txid + 1, corruptible)
    ensures var t := s.txid + 1;
            Inv(hash, State(t, Some(FullChecksum(hash, s.db)), s.db, s.db, r, s.recorded + [s.db]), corruptible)
  {
    OtherKeysKept(s.store, r, (s.txid + 1, s.txid + 1));
    forall t | 1 <= t <= s.txid
      ensures HasObject(hash, s.recorded + [s.db], r, t, corruptible)
    {
      assert HasObject(hash, s.recorded, s.store, t, corruptible);
    }
  }

  lemma ShipInv(hash: Hash, s: State, obj: Object, fates: seq<PutFate>, corruptible: bool)
    requires Inv(hash, s, corruptible)
    requires Corrupted in fates ==> corruptible
    requires Intact(hash, s.recorded + [s.db], s.txid + 1, obj)
    ensures Inv(hash, Ship(hash, s, obj, fates).0, corruptible)
  {
    var key := (s.txid + 1, s.txid + 1);
    PutEffect(s.store, key, obj, fates);
    var (r, ok) := PutAll(s.store, key, obj, fates);
    if ok {
      AdvanceInv(hash, s, r, corruptible);
    } else {
      StayInv(hash, s, r, corruptible);
    }
  }

  lemma SnapshotInv(hash: Hash, s: State, encodes: bool, fates: seq<PutFate>, readable: bool, corruptible: bool)
    requires Inv(hash, s, corruptible) && (Corrupted in fates ==> corruptible)
    ensures Inv(hash, SnapshotStep(hash, s, encodes, fates, readable).0, corruptible)
  {
    var key := (s.txid + 1, s.txid + 1);
    ShipInv(hash, s, Snap(s.db), fates, corruptible);
    PutEffect(s.store, key, Snap(s.db), fates);
    StayInv(hash, s, PutAll(s.store, key, Snap(s.db), fates).0, corruptible);
  }

  lemma SyncInv(hash: Hash, s: State, encodes: bool, fates: seq<PutFate>, readable: bool, corruptible: bool)
    requires Inv(hash, s, corruptible) && (Corrupted in fates ==> corruptible)
    ensures Inv(hash, SyncStep(hash, s, encodes, fates, readable).0, corruptible)
  {
    if s.txid == 0 {
      SnapshotInv(hash, s, encodes, fates, readable, corruptible);
    } else {
      assert (s.recorded + [s.db])[s.txid - 1] == s.last;
      ShipInv(hash, s, IncFor(hash, s.db, s.last, s.sum), fates, corruptible);
    }
  }

  lemma WeakenInv(hash: Hash, s: State, corruptible: bool, weaker: bool)
    requires Inv(hash, s, corruptible) && (corruptible ==> weaker)
    ensures Inv(hash, s, weaker)
  {
    forall t | 1 <= t <= s.txid
      ensures HasObject(hash, s.recorded, s.store, t, weaker)
    {
      assert HasObject(hash, s.recorded, s.store, t, corruptible);
    }
  }

  lemma StepInv(hash: Hash, s: State, op: Op, corruptible: bool)
    requires Inv(hash, s, corruptible) && (!op.Edit? && Corrupted in op.fates ==> corruptible)
    ensures Inv(hash, Step(hash, s, op), corruptible)
  {
    match op
    case Edit(_) =>
    case TakeSnapshot(encodes, fates, readable) => SnapshotInv(hash, s, encodes, fates, readable, corruptible);
    case SyncWal(encodes, fates, readable) => SyncInv(hash, s, encodes, fates, readable, corruptible);
  }

  lemma {:induction false} RunInv(hash: Hash, db: Db, ops: seq<Op>)
    ensures Inv(hash, Run(hash, Initial(db), ops), !Uncorrupted(ops))
  {
    if ops == [] {
    } else {
      var init, op := ops[..|ops| - 1], ops[|ops| - 1];
      var s := Run(hash, Initial(db), init);
      RunInv(hash, db, init);
      assert op in ops && forall x :: x in init ==> x in ops;
      WeakenInv(hash, s, !Uncorrupted(init), !Uncorrupted(ops));
      StepInv(hash, s, op, !Uncorrupted(ops));
    }
  }
}
