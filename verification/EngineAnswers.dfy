/** What the answers of the engine's calls mean: the success or failure of a PUT, a snapshot and a sync, and the error
    of a restore. */
module EngineAnswers {
  import opened Lists
  import opened Options
  import opened Pages
  import opened Engine
  import opened EngineRuns
  import opened EngineRestore
  import opened EngineChecksums

  /** The checksum of an image is the chain over all its pages, numbered from 1, from zero. */
  lemma FullChecksumIs(hash: Hash, pages: Db, numbered: seq<PageWrite>)
    requires |numbered| == |pages|
    requires forall i :: 0 <= i < |pages| ==> numbered[i] == PageWrite(i + 1, pages[i])
    ensures FullChecksum(hash, pages) == hash(0, numbered)
  {
    IndexedAt(pages, |pages|);
    assert Indexed(pages) == numbered;
  }

  predicate Reports(fate: PutFate) { fate == Stored || fate == Corrupted }

  /** Attempt `i` is the first to report success. */
  ghost predicate FirstSuccess(fates: seq<PutFate>, i: nat) {
    i < |fates| && Reports(fates[i]) && forall j :: 0 <= j < i ==> !Reports(fates[j])
  }

  ghost predicate Succeeds(fates: seq<PutFate>) {
    exists fate :: fate in fates && Reports(fate)
  }

  lemma SucceedsFirst(fates: seq<PutFate>)
    requires fates != []
    ensures Succeeds(fates) <==> Reports(fates[0]) || Succeeds(fates[1..])
  {
    assert fates == [fates[0]] + fates[1..];
  }

  /** The first attempt that reports success decides what is stored. */
  lemma {:induction false} PutFirst(store: Store, key: TxidKey, obj: Object, fates: seq<PutFate>, i: nat)
    requires FirstSuccess(fates, i)
    ensures PutAll(store, key, obj, fates) == (store[key := if fates[i] == Stored then obj else Torn], true)
    decreases |fates|
  {
    if i == 0 {
    } else {
      assert FirstSuccess(fates[1..], i - 1);
      var next := if fates[0] == CutShort then store[key := Torn] else store;
      PutFirst(next, key, obj, fates[1..], i - 1);
      var landed := if fates[i] == Stored then obj else Torn;
      assert store[key := Torn][key := landed] == store[key := landed];
    }
  }

  /** If none does, the call fails; a torn object is left if an attempt was cut short. */
  lemma {:induction false} PutFails(store: Store, key: TxidKey, obj: Object, fates: seq<PutFate>)
    requires !Succeeds(fates)
    ensures PutAll(store, key, obj, fates) == (if CutShort in fates then store[key := Torn] else store, false)
    decreases |fates|
  {
    if fates == [] {
    } else {
      assert fates[0] in fates;
      SucceedsFirst(fates);
      var next := if fates[0] == CutShort then store[key := Torn] else store;
      PutFails(next, key, obj, fates[1..]);
      assert CutShort in fates <==> fates[0] == CutShort || CutShort in fates[1..];
      assert store[key := Torn][key := Torn] == store[key := Torn];
    }
  }

  lemma {:induction false} SomeFirst(fates: seq<PutFate>) returns (i: nat)
    requires Succeeds(fates)
    ensures FirstSuccess(fates, i)
  {
    i := 0;
    if Reports(fates[0]) {
    } else {
      SucceedsFirst(fates);
      i := SomeFirst(fates[1..]);
      i := i + 1;
      forall j | 0 <= j < i
        ensures !Reports(fates[j])
      {
        assert j > 0 ==> fates[j] == fates[1..][j - 1];
      }
    }
  }

  /** A PUT with retries succeeds if and only if some attempt reports success. */
  lemma PutIff(store: Store, key: TxidKey, obj: Object, fates: seq<PutFate>)
    ensures PutAll(store, key, obj, fates).1 <==> Succeeds(fates)
  {
    if Succeeds(fates) {
      var i := SomeFirst(fates);
      PutFirst(store, key, obj, fates, i);
    } else {
      PutFails(store, key, obj, fates);
    }
  }

  function NextKey(s: State): (r: TxidKey) { (s.txid + 1, s.txid + 1) }

  /** The database is the image of the next TXID, and its object is stored there: whole, unless the PUT was silently
      corrupted. Nothing else in the store changed. */
  ghost predicate Recorded(hash: Hash, s: State, r: State, obj: Object, corrupted: bool) {
    && r == State(s.txid + 1, Some(FullChecksum(hash, s.db)), s.db, s.db, r.store, s.recorded + [s.db])
    && NextKey(s) in r.store && r.store == s.store[NextKey(s) := r.store[NextKey(s)]]
    && (r.store[NextKey(s)] == obj || (corrupted && r.store[NextKey(s)] == Torn))
  }

  /** No attempt succeeded: nothing happened, except that one that was cut short left a torn object. */
  function Refused(s: State, fates: seq<PutFate>): (r: State) {
    s.(store := if CutShort in fates then s.store[NextKey(s) := Torn] else s.store)
  }

  /** The call failed after a PUT that reported success: the engine stays, and the object, or a torn one if the PUT was
      silently corrupted, waits at the next TXID. */
  ghost predicate LeftBehind(s: State, r: State, obj: Object, corrupted: bool) {
    && NextKey(s) in r.store && r == s.(store := s.store[NextKey(s) := r.store[NextKey(s)]])
    && (r.store[NextKey(s)] == obj || (corrupted && r.store[NextKey(s)] == Torn))
  }

  lemma ShipAnswer(hash: Hash, s: State, obj: Object, fates: seq<PutFate>)
    ensures var (r, ok) := Ship(hash, s, obj, fates);
            && (ok <==> Succeeds(fates))
            && (ok ==> Recorded(hash, s, r, obj, Corrupted in fates))
            && (!ok ==> r == Refused(s, fates))
  {
    if Succeeds(fates) {
      var i := SomeFirst(fates);
      PutFirst(s.store, NextKey(s), obj, fates, i);
      assert fates[i] in fates;
    } else {
      PutFails(s.store, NextKey(s), obj, fates);
    }
  }

  /** A snapshot call succeeds if and only if the file can be encoded and read again and a PUT attempt reports success.
      Then the whole file is the next TXID's object and the engine stands there. If it fails the engine stays where it
      was, and only the object at the next TXID may have changed. */
  lemma SnapshotAnswer(hash: Hash, s: State, encodes: bool, fates: seq<PutFate>, readable: bool)
    ensures var (r, ok) := SnapshotStep(hash, s, encodes, fates, readable);
            && (ok <==> encodes && readable && Succeeds(fates))
            && (ok ==> Recorded(hash, s, r, Snap(s.db), Corrupted in fates))
            && (!encodes ==> r == s)
            && (encodes && !Succeeds(fates) ==> r == Refused(s, fates))
            && (encodes && !readable && Succeeds(fates) ==> LeftBehind(s, r, Snap(s.db), Corrupted in fates))
  {
    ShipAnswer(hash, s, Snap(s.db), fates);
    if Succeeds(fates) {
      var i := SomeFirst(fates);
      PutFirst(s.store, NextKey(s), Snap(s.db), fates, i);
      assert fates[i] in fates;
    } else {
      PutFails(s.store, NextKey(s), Snap(s.db), fates);
    }
  }

  /** Page numbers rise, up to `n`. */
  ghost predicate Rising(writes: seq<PageWrite>, n: nat) {
    && (forall k :: 0 <= k < |writes| ==> writes[k].pn <= n)
    && forall j, k :: 0 <= j < k < |writes| ==> writes[j].pn < writes[k].pn
  }

  lemma {:induction false} ChangedRises(pages: Db, last: Db, n: nat)
    requires n <= |pages|
    ensures Rising(ChangedUpTo(pages, last, n), n)
  {
    if n == 0 {
    } else {
      var rest := ChangedUpTo(pages, last, n - 1);
      ChangedRises(pages, last, n - 1);
      var w := PageWrite(n, pages[n - 1]);
      assert Rising(rest, n) && Rising(rest + [w], n);
    }
  }

  /** The object takes the last image to the database, as far as an apply can: it carries the last image's checksum and
      hashes from it to its own. */
  ghost predicate LeadsTo(hash: Hash, s: State, obj: Object) {
    && obj.Inc? && obj.pre == s.sum && obj.commit == |s.db|
    && obj.post == hash(if s.sum.Some? then s.sum.value else 0, obj.changed)
    && ApplyPages(s.last, obj.changed) == Overlay(s.last, s.db)
    && (forall k :: 0 <= k < |obj.changed| ==> Differs(s, obj.changed[k]))
    && Rising(obj.changed, |s.db|)
  }

  /** The write carries a page of the database that is new or differs from the last image. */
  ghost predicate Differs(s: State, w: PageWrite) {
    w.pn <= |s.db| && w.page == s.db[w.pn - 1] && (w.pn > |s.last| || s.last[w.pn - 1] != w.page)
  }

  /** A sync before the first snapshot is a snapshot. Later it succeeds if and only if the file can be read and is a
      prefix of the last image, when nothing happens, or can be encoded and a PUT attempt reports success. Then the
      changed pages with the checksums on both sides are the next TXID's object. */
  lemma SyncAnswer(hash: Hash, s: State, encodes: bool, fates: seq<PutFate>, readable: bool)
    ensures s.txid == 0 ==>
              SyncStep(hash, s, encodes, fates, readable) == SnapshotStep(hash, s, encodes, fates, readable)
    ensures s.txid > 0 ==>
              var (r, ok) := SyncStep(hash, s, encodes, fates, readable);
              && (ok <==> readable && (s.db <= s.last || (encodes && Succeeds(fates))))
              && (ok && s.db <= s.last ==> r == s)
              && (ok && !(s.db <= s.last) ==>
                    exists obj :: Recorded(hash, s, r, obj, Corrupted in fates) && LeadsTo(hash, s, obj))
              && (!ok ==> r == if readable && encodes then Refused(s, fates) else s)
  {
    NothingChangedIff(s.db, s.last);
    if s.txid > 0 {
      var obj := IncFor(hash, s.db, s.last, s.sum);
      ShipAnswer(hash, s, obj, fates);
      ApplyChanged(s.last, s.db, s.last);
      ChangedFacts(s.db, s.last, |s.db|);
      ChangedRises(s.db, s.last, |s.db|);
      forall k | 0 <= k < |obj.changed|
        ensures Differs(s, obj.changed[k])
      {
        assert Writes(obj.changed, obj.changed[k].pn);
      }
      assert LeadsTo(hash, s, obj);
    }
  }

  /** The object can be fetched and is consistent in itself. */
  ghost predicate Passes(hash: Hash, store: Store, got: TxidKey -> bool, k: TxidKey) {
    got(k) && k in store && SelfConsistent(hash, store[k])
  }

  /** The key at `i` is the first that does not pass. */
  ghost predicate FirstBad(hash: Hash, store: Store, got: TxidKey -> bool, keys: seq<TxidKey>, i: nat) {
    i < |keys| && !Passes(hash, store, got, keys[i]) && forall j :: 0 <= j < i ==> Passes(hash, store, got, keys[j])
  }

  /** An object that cannot be fetched is told apart from one that was fetched and does not apply. */
  function ErrorAt(store: Store, got: TxidKey -> bool, k: TxidKey): (r: Restored) {
    Error(if got(k) && k in store then BadObject(k) else GetFailed(k))
  }

  lemma {:induction false} ReplayStops(hash: Hash, store: Store, got: TxidKey -> bool, keys: seq<TxidKey>, db: Db)
    returns (i: nat)
    requires Replay(hash, store, got, keys, db).Error?
    ensures FirstBad(hash, store, got, keys, i) && Replay(hash, store, got, keys, db) == ErrorAt(store, got, keys[i])
  {
    i := 0;
    if Passes(hash, store, got, keys[0]) {
      i := ReplayStops(hash, store, got, keys[1..], ApplyObject(hash, store[keys[0]], db).value);
      i := i + 1;
      forall j | 0 <= j < i
        ensures Passes(hash, store, got, keys[j])
      {
        assert j > 0 ==> keys[j] == keys[1..][j - 1];
      }
    }
  }

  /** The objects a restore applies behind the base: the listed ones within the target, none lost or repeated, in TXID
      order. */
  lemma ToApplyInOrder(listing: seq<TxidKey>, target: nat)
    ensures var keys := ToApply(listing, target);
            && multiset(keys) == multiset(Filter((k: TxidKey) => k != BASE && k.1 <= target, listing))
            && forall i, j :: 0 <= i < j < |keys| ==> keys[i].1 <= keys[j].1
  {
    SortBySorts(MaxKey, Filter((k: TxidKey) => k != BASE && k.1 <= target, listing));
    var keys := ToApply(listing, target);
    forall i, j | 0 <= i < j < |keys|
      ensures keys[i].1 <= keys[j].1
    {
      assert Leq(MaxKey(keys[i]), MaxKey(keys[j]));
    }
  }

  /** And those with the same last TXID in the order of the listing. */
  lemma ToApplyKeepsOrder(listing: seq<TxidKey>, target: nat, last: nat)
    ensures var ends := (k: TxidKey) => k.1 == last;
            Filter(ends, ToApply(listing, target)) ==
            Filter(ends, Filter((k: TxidKey) => k != BASE && k.1 <= target, listing))
  {
    var ends := (k: TxidKey) => k.1 == last;
    SortIsStable(MaxKey, ends, Filter((k: TxidKey) => k != BASE && k.1 <= target, listing));
  }

  /** How a restore ends once the base is listed: at the base, at the first object that does not pass, or with an
      image. */
  ghost predicate EndsRight(hash: Hash, store: Store, got: TxidKey -> bool, keys: seq<TxidKey>, r: Restored) {
    if !(got(BASE) && BASE in store && store[BASE].Snap?) then r == ErrorAt(store, got, BASE)
    else if forall k :: k in keys ==> Passes(hash, store, got, k) then r.Image?
    else exists i: nat :: FirstBad(hash, store, got, keys, i) && r == ErrorAt(store, got, keys[i])
  }

  /** Every error of a restore means what it says, for any store, listing and target: a failed listing, an empty one,
      one without the base, or the first object that could not be fetched or applied. */
  lemma RestoreAnswer(hash: Hash, store: Store, listing: Option<seq<TxidKey>>, got: TxidKey -> bool, target: nat)
    ensures var r := RestoreTo(hash, store, listing, got, target);
            && (r == Error(ListFailed) <==> listing.None?)
            && (r == Error(NoObjects) <==> listing == Some([]))
            && (r == Error(NoBase) <==> listing.Some? && listing.value != [] && BASE !in listing.value)
            && (listing.Some? && BASE in listing.value ==>
                  EndsRight(hash, store, got, ToApply(listing.value, target), r))
  {
    if listing.Some? && BASE in listing.value && got(BASE) && BASE in store && store[BASE].Snap? {
      var keys := ToApply(listing.value, target);
      ReplayAcceptsIff(hash, store, got, keys, store[BASE].pages);
      if RestoreTo(hash, store, listing, got, target).Error? {
        var i := ReplayStops(hash, store, got, keys, store[BASE].pages);
        assert keys[i] in keys;
      }
    }
  }
}
