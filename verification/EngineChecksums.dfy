/** The checksum hand-off between objects: what the stored checksums would detect, and what the restore, which
    never compares a pre-checksum with the file, lets through. */
module EngineChecksums {
  import opened Lists
  import opened Options
  import opened Pages
  import opened Engine
  import opened EngineRuns
  import opened EngineRestore

  ghost predicate CollisionFree(hash: Hash) {
    forall a: nat, b: nat, x, y :: hash(a, x) == hash(b, y) ==> a == b && x == y
  }

  lemma {:induction false} IndexedAt(pages: Db, n: nat)
    requires n <= |pages|
    ensures var w := ChangedUpTo(pages, [], n);
            |w| == n && forall i :: 0 <= i < n ==> w[i] == PageWrite(i + 1, pages[i])
  {
    if n == 0 {
    } else {
      IndexedAt(pages, n - 1);
    }
  }

  /** Under a collision-free hash the full checksum identifies the database. */
  lemma FullChecksumIdentifies(hash: Hash, a: Db, b: Db)
    requires CollisionFree(hash)
    ensures FullChecksum(hash, a) == FullChecksum(hash, b) <==> a == b
  {
    IndexedAt(a, |a|);
    IndexedAt(b, |b|);
    if FullChecksum(hash, a) == FullChecksum(hash, b) {
      assert Indexed(a) == Indexed(b);
      assert forall i :: 0 <= i < |a| ==> a[i] == Indexed(a)[i].page;
    }
  }

  /** The apply that the engine's documentation describes: the file must have the object's pre-checksum. */
  ghost function CheckedApply(hash: Hash, obj: Object, db: Db): (r: Option<Db>) {
    if obj.Inc? && obj.pre.Some? && obj.pre.value != FullChecksum(hash, db) then None
    else ApplyObject(hash, obj, db)
  }

  /** The hand-off: whatever the run, the incremental stored for TXID `t` carries the checksums with which the
      documented check accepts it on exactly one database, the recorded image of `t - 1`; there it yields the
      recorded image of `t` if the file did not shrink. */
  lemma CheckedApplyIff(hash: Hash, s: State, t: nat, db: Db, corruptible: bool)
    requires CollisionFree(hash) && Inv(hash, s, corruptible) && 2 <= t <= s.txid
    requires HasObject(hash, s.recorded, s.store, t, corruptible) && s.store[(t, t)].Inc?
    ensures CheckedApply(hash, s.store[(t, t)], db).Some? <==> db == s.recorded[t - 2]
    ensures |s.recorded[t - 2]| <= |s.recorded[t - 1]| ==>
              CheckedApply(hash, s.store[(t, t)], s.recorded[t - 2]) == Some(s.recorded[t - 1])
  {
    FullChecksumIdentifies(hash, s.recorded[t - 2], db);
    ApplyChanged(s.recorded[t - 2], s.recorded[t - 1], s.recorded[t - 2]);
  }

  /** The object decodes and, if it has a pre-checksum, hashes from it to its own post-checksum. */
  ghost predicate SelfConsistent(hash: Hash, obj: Object) {
    && obj != Torn
    && (obj.Inc? && obj.pre.Some? ==> hash(obj.pre.value, obj.changed) == obj.post)
  }

  /** The restore's actual rule, for any store, any list of keys and any starting file: it accepts exactly when
      each object can be fetched and is consistent in itself. No link between objects is looked at. */
  lemma {:induction false} ReplayAcceptsIff(hash: Hash, store: Store, got: TxidKey -> bool, keys: seq<TxidKey>, db: Db)
    ensures Replay(hash, store, got, keys, db).Image? <==>
            forall k :: k in keys ==> got(k) && k in store && SelfConsistent(hash, store[k])
  {
    if keys == [] {
    } else {
      assert forall k :: k in keys <==> k == keys[0] || k in keys[1..];
      if got(keys[0]) && keys[0] in store && SelfConsistent(hash, store[keys[0]]) {
        ReplayAcceptsIff(hash, store, got, keys[1..], ApplyObject(hash, store[keys[0]], db).value);
      }
    }
  }

  /** So a listing that misses any of the incrementals is accepted. */
  lemma StaleListingAccepted(hash: Hash, s: State, listing: seq<TxidKey>, target: nat)
    requires Inv(hash, s, false) && BASE in listing
    requires forall k :: k in listing ==> k.0 == k.1 && 1 <= k.1 <= s.txid
    ensures RestoreTo(hash, s.store, Some(listing), AllRead, target).Image?
  {
    assert HasObject(hash, s.recorded, s.store, 1, false);
    var keys := ToApply(listing, target);
    forall k | k in keys
      ensures k in s.store && SelfConsistent(hash, s.store[k])
    {
      ToApplyMembers(listing, target, k);
      assert HasObject(hash, s.recorded, s.store, k.1, false);
    }
    ReplayAcceptsIff(hash, s.store, AllRead, keys, s.store[BASE].pages);
  }

  lemma LostLinkKeys()
    ensures ToApply([(1, 1), (3, 3)], 3) == [(3, 3)]
  {
    var keep := (k: TxidKey) => k != BASE && k.1 <= 3;
    var listing: seq<TxidKey> := [(1, 1), (3, 3)];
    assert listing[1..] == [(3, 3)] && listing[1..][1..] == [];
    assert Filter(keep, listing[1..]) == [(3, 3)];
    assert SortBy(MaxKey, [(3, 3)]) == [(3, 3)];
  }

  lemma ReplayOnly(hash: Hash, store: Store, key: TxidKey, base: Db)
    requires Replay(hash, store, AllRead, [key], base).Image?
    requires key in store && store[key].Inc?
    ensures Replay(hash, store, AllRead, [key], base) == Image(ApplyPages(base, store[key].changed))
  {
    assert [key][1..] == [];
  }

  /** A page that did not change between two images is not written by the incremental between them. */
  lemma UnchangedKept(base: Db, before: Db, after: Db, i: nat)
    requires i < |base| && i < |before| && i < |after| && before[i] == after[i]
    ensures var r := ApplyPages(base, Changed(after, before)); i < |r| && r[i] == base[i]
  {
    ChangedFacts(after, before, |after|);
    ApplyPagesEffect(base, Changed(after, before), after);
    assert !Writes(Changed(after, before), i + 1);
  }

  /** And the result is wrong wherever the missing object was the last to write a page: a page changed by TXID 2
      and left alone by the incremental of TXID 3 comes back in its TXID 1 version. The documented check would
      have rejected the same listing. */
  lemma LostLinkUnnoticed(hash: Hash, s: State, i: nat)
    requires CollisionFree(hash) && Inv(hash, s, false) && s.txid == 3
    requires (3, 3) in s.store && s.store[(3, 3)].Inc?
    requires i < |s.recorded[0]| && i < |s.recorded[1]| && i < |s.recorded[2]|
    requires s.recorded[0][i] != s.recorded[1][i] && s.recorded[1][i] == s.recorded[2][i]
    ensures var r := RestoreTo(hash, s.store, Some([(1, 1), (3, 3)]), AllRead, 3);
            r.Image? && i < |r.db| && r.db[i] == s.recorded[0][i] && r.db != s.recorded[2]
    ensures CheckedApply(hash, s.store[(3, 3)], s.recorded[0]) == None
  {
    var listing: seq<TxidKey> := [(1, 1), (3, 3)];
    assert HasObject(hash, s.recorded, s.store, 1, false) && HasObject(hash, s.recorded, s.store, 3, false);
    LostLinkKeys();
    StaleListingAccepted(hash, s, listing, 3);
    ReplayOnly(hash, s.store, (3, 3), s.recorded[0]);
    UnchangedKept(s.recorded[0], s.recorded[1], s.recorded[2], i);
    CheckedApplyIff(hash, s, 3, s.recorded[0], false);
  }

  /** A page of `db` is new or changed, and an error-free sync ships it. */
  lemma SyncShips(hash: Hash, s: State, db: Db, r: State)
    requires s.txid > 0 && !(db <= s.last) && r == Step(hash, s.(db := db), SyncWal(true, [Stored], true))
    ensures r.txid == s.txid + 1 && r.last == db && r.recorded == s.recorded + [db]
    ensures (r.txid, r.txid) in r.store && r.store[(r.txid, r.txid)].Inc?
  {
    NothingChangedIff(db, s.last);
  }

  lemma RunTwo(hash: Hash, start: State, ops: seq<Op>, a: Op, b: Op, more: seq<Op>)
    requires more == ops + [a, b]
    ensures Run(hash, start, more) == Step(hash, Step(hash, Run(hash, start, ops), a), b)
  {
    assert more[..|more| - 1] == ops + [a] && (ops + [a])[..|ops|] == ops;
    assert Run(hash, start, ops + [a]) == Step(hash, Run(hash, start, ops), a);
  }

  lemma FirstShipped(hash: Hash, db: Db, ops: seq<Op>)
    requires ops == [TakeSnapshot(true, [Stored], true)]
    ensures var s := Run(hash, Initial(db), ops); s.txid == 1 && s.recorded == [db] && s.last == db
  {
    assert ops[..0] == [] && Run(hash, Initial(db), []) == Initial(db);
  }

  lemma ThreeShipped(hash: Hash, p: Page, q: Page, p': Page, q': Page, ops: seq<Op>)
    requires p != p' && q != q'
    requires ops == [TakeSnapshot(true, [Stored], true)] + [Edit([p', q]), SyncWal(true, [Stored], true)]
                  + [Edit([p', q']), SyncWal(true, [Stored], true)]
    ensures var s := Run(hash, Initial([p, q]), ops);
            && s.txid == 3 && s.recorded == [[p, q], [p', q], [p', q']] && (3, 3) in s.store && s.store[(3, 3)].Inc?
  {
    var start, one := Initial([p, q]), [TakeSnapshot(true, [Stored], true)];
    var two := one + [Edit([p', q]), SyncWal(true, [Stored], true)];
    FirstShipped(hash, [p, q], one);
    assert [p', q][0] != [p, q][0] && [p', q'][1] != [p', q][1];
    RunTwo(hash, start, one, Edit([p', q]), SyncWal(true, [Stored], true), two);
    SyncShips(hash, Run(hash, start, one), [p', q], Run(hash, start, two));
    RunTwo(hash, start, two, Edit([p', q']), SyncWal(true, [Stored], true), ops);
    SyncShips(hash, Run(hash, start, two), [p', q'], Run(hash, start, ops));
  }

  /** A run that gets there: a two-page database is shipped, then its first page changes, then its second. A listing
      that misses TXID 2 restores the old first page without an error. */
  lemma LostLinkRun(hash: Hash, p: Page, q: Page, p': Page, q': Page, ops: seq<Op>)
    requires CollisionFree(hash) && p != p' && q != q'
    requires ops == [TakeSnapshot(true, [Stored], true)] + [Edit([p', q]), SyncWal(true, [Stored], true)]
                  + [Edit([p', q']), SyncWal(true, [Stored], true)]
    ensures var s := Run(hash, Initial([p, q]), ops);
            var r := RestoreTo(hash, s.store, Some([(1, 1), (3, 3)]), AllRead, 3);
            s.recorded == [[p, q], [p', q], [p', q']] && r.Image? && |r.db| > 0 && r.db[0] == p
  {
    ThreeShipped(hash, p, q, p', q', ops);
    RunInv(hash, [p, q], ops);
    assert Uncorrupted(ops);
    LostLinkUnnoticed(hash, Run(hash, Initial([p, q]), ops), 0);
  }
}
