/** Restores: what they return after any run, exactly when that is the recorded state, and what the missing
    pre-checksum comparison lets through. */
module EngineRestore {
  import opened Lists
  import opened Options
  import opened Pages
  import opened Engine
  import opened EngineRuns

  lemma {:induction false} ChangedFacts(pages: Db, last: Db, n: nat)
    requires n <= |pages|
    ensures TakenFrom(ChangedUpTo(pages, last, n), pages)
    ensures forall pn: nat :: Writes(ChangedUpTo(pages, last, n), pn) <==>
              1 <= pn <= n && (pn > |last| || last[pn - 1] != pages[pn - 1])
  {
    if n == 0 {
    } else {
      var c := ChangedUpTo(pages, last, n);
      ChangedFacts(pages, last, n - 1);
      if n > |last| || last[n - 1] != pages[n - 1] {
        assert c[..|c| - 1] == ChangedUpTo(pages, last, n - 1);
        forall pn: nat
          ensures Writes(c, pn) <==> Writes(ChangedUpTo(pages, last, n - 1), pn) || pn == n
        {
          WritesSnoc(c, pn);
        }
      }
    }
  }

  /** `image` written over `before`, which keeps the pages past its end. */
  function Overlay(before: Db, image: Db): (r: Db) {
    if |image| < |before| then image + before[|image|..] else image
  }

  lemma ApplyChangedLength(db: Db, pages: Db, last: Db)
    requires last <= db
    ensures |ApplyPages(db, Changed(pages, last))| == |Overlay(db, pages)|
  {
    ChangedFacts(pages, last, |pages|);
    ApplyPagesEffect(db, Changed(pages, last), pages);
    if |pages| > |db| {
      assert Writes(Changed(pages, last), |pages|);
    }
  }

  /** At one place: a page that is not written is either the compared image's or lies behind the new image. */
  lemma OverlayAt(db: Db, pages: Db, last: Db, written: bool, r: Db, i: nat)
    requires last <= db && |r| == |Overlay(db, pages)| && i < |r|
    requires written <==> i < |pages| && (i >= |last| || last[i] != pages[i])
    requires written ==> r[i] == pages[i]
    requires i < |db| && !written ==> r[i] == db[i]
    ensures r[i] == Overlay(db, pages)[i]
  {
  }

  lemma ApplyChangedAt(db: Db, pages: Db, last: Db, i: nat)
    requires last <= db && i < |ApplyPages(db, Changed(pages, last))|
    requires |ApplyPages(db, Changed(pages, last))| == |Overlay(db, pages)|
    ensures ApplyPages(db, Changed(pages, last))[i] == Overlay(db, pages)[i]
  {
    var changed := Changed(pages, last);
    ChangedFacts(pages, last, |pages|);
    ApplyPagesEffect(db, changed, pages);
    OverlayAt(db, pages, last, Writes(changed, i + 1), ApplyPages(db, changed), i);
  }

  /** Changed pages applied to any file that starts with the image they were compared with. */
  lemma ApplyChanged(db: Db, pages: Db, last: Db)
    requires last <= db
    ensures ApplyPages(db, Changed(pages, last)) == Overlay(db, pages)
  {
    var r := ApplyPages(db, Changed(pages, last));
    ApplyChangedLength(db, pages, last);
    forall i | 0 <= i < |r|
      ensures r[i] == Overlay(db, pages)[i]
    {
      ApplyChangedAt(db, pages, last, i);
    }
  }

  /** Nothing is shipped exactly when the file is a prefix of the last image. */
  lemma NothingChangedIff(pages: Db, last: Db)
    ensures Changed(pages, last) == [] <==> pages <= last
  {
    ChangedFacts(pages, last, |pages|);
    if Changed(pages, last) != [] {
      var pn := Changed(pages, last)[0].pn;
      assert Writes(Changed(pages, last), pn);
    } else {
      forall i | 0 <= i < |pages|
        ensures i < |last| && last[i] == pages[i]
      {
        assert !Writes(Changed(pages, last), i + 1);
      }
    }
  }

  /** After a sync that reports success the engine's image is the database, unless the only change was that
      the file got shorter: then it keeps the longer image and ships nothing. */
  lemma SyncRecordsIff(hash: Hash, s: State, encodes: bool, fates: seq<PutFate>, readable: bool)
    requires s.txid > 0
    ensures var (r, ok) := SyncStep(hash, s, encodes, fates, readable);
            ok ==> (r.last == s.db <==> !(s.db < s.last))
  {
    NothingChangedIff(s.db, s.last);
  }

  /** The images of TXIDs `1 .. m` written over one another. */
  ghost function Layered(recorded: seq<Db>, m: nat): (r: Db)
    requires 1 <= m <= |recorded|
    ensures recorded[m - 1] <= r
  {
    if m == 1 then recorded[0] else Overlay(Layered(recorded, m - 1), recorded[m - 1])
  }

  /** No image up to `m` was longer than the one of `m`. */
  ghost predicate Longest(recorded: seq<Db>, m: nat)
    requires 1 <= m <= |recorded|
  {
    forall i :: 0 <= i < m ==> |recorded[i]| <= |recorded[m - 1]|
  }

  lemma {:induction false} LayeredCovers(recorded: seq<Db>, m: nat, t: nat)
    requires 1 <= t <= m <= |recorded|
    ensures |recorded[t - 1]| <= |Layered(recorded, m)|
  {
    if t >= m {
    } else {
      LayeredCovers(recorded, m - 1, t);
    }
  }

  lemma {:induction false} LayeredLength(recorded: seq<Db>, m: nat) returns (t: nat)
    requires 1 <= m <= |recorded|
    ensures 1 <= t <= m && |Layered(recorded, m)| == |recorded[t - 1]|
  {
    t := m;
    if m > 1 && |Layered(recorded, m)| != |recorded[m - 1]| {
      t := LayeredLength(recorded, m - 1);
    }
  }

  /** Layering gives the recorded image of `m` exactly when no earlier image was longer. */
  lemma LayeredExactIff(recorded: seq<Db>, m: nat)
    requires 1 <= m <= |recorded|
    ensures Layered(recorded, m) == recorded[m - 1] <==> Longest(recorded, m)
  {
    if Longest(recorded, m) {
      var t := LayeredLength(recorded, m);
    } else {
      var i :| 0 <= i < m && |recorded[i]| > |recorded[m - 1]|;
      LayeredCovers(recorded, m, i + 1);
    }
  }

  /** Whether it is a full snapshot or an incremental, an intact object takes the layered image one TXID on. */
  lemma ApplyIntact(hash: Hash, recorded: seq<Db>, t: nat, obj: Object)
    requires 2 <= t <= |recorded| && Intact(hash, recorded, t, obj)
    ensures ApplyObject(hash, obj, Layered(recorded, t - 1)) == Some(Layered(recorded, t))
  {
    var before := Layered(recorded, t - 1);
    if obj.Snap? {
      ApplyChanged(before, recorded[t - 1], []);
    } else {
      ApplyChanged(before, recorded[t - 1], recorded[t - 2]);
    }
  }

  function KeysFrom(a: nat, m: nat): (r: seq<TxidKey>)
    decreases m + 1 - a
  {
    if a > m then [] else [(a, a)] + KeysFrom(a + 1, m)
  }

  /** The object of TXID `t` can be fetched and is not torn. */
  ghost predicate Usable(store: Store, got: TxidKey -> bool, t: nat) {
    got((t, t)) && (t, t) in store && store[(t, t)] != Torn
  }

  ghost predicate AllUsable(store: Store, got: TxidKey -> bool, a: nat, m: nat) {
    forall t :: a <= t <= m ==> Usable(store, got, t)
  }

  /** Replay over consecutive TXIDs succeeds exactly when every object on the way is usable, and then gives
      the layered image. */
  lemma {:induction false} ReplayConsecutive(hash: Hash, s: State, got: TxidKey -> bool, a: nat, m: nat,
                                             corruptible: bool)
    requires Inv(hash, s, corruptible) && NoneWaiting(s) && 2 <= a <= s.txid + 1 && a <= m + 1 && m <= Top(s)
    ensures var r := Replay(hash, s.store, got, KeysFrom(a, m), Layered(s.recorded, a - 1));
            && (r.Image? <==> AllUsable(s.store, got, a, m))
            && (r.Image? ==> m <= s.txid && r.db == Layered(s.recorded, m))
    decreases m + 1 - a
  {
    if a > m {
    } else {
      ReplayOne(hash, s, got, a, m, corruptible);
      if Usable(s.store, got, a) {
        ReplayConsecutive(hash, s, got, a + 1, m, corruptible);
      }
    }
  }

  lemma ReplayOne(hash: Hash, s: State, got: TxidKey -> bool, a: nat, m: nat, corruptible: bool)
    requires Inv(hash, s, corruptible) && NoneWaiting(s) && 2 <= a <= s.txid + 1 && a <= m <= Top(s)
    ensures var r := Replay(hash, s.store, got, KeysFrom(a, m), Layered(s.recorded, a - 1));
            if Usable(s.store, got, a)
            then a <= s.txid && r == Replay(hash, s.store, got, KeysFrom(a + 1, m), Layered(s.recorded, a))
            else r.Error?
  {
    assert KeysFrom(a, m)[0] == (a, a) && KeysFrom(a, m)[1..] == KeysFrom(a + 1, m);
    if a <= s.txid {
      assert HasObject(hash, s.recorded, s.store, a, corruptible);
      if Usable(s.store, got, a) {
        ApplyIntact(hash, s.recorded, a, s.store[(a, a)]);
      }
    }
  }

  predicate Different(a: TxidKey, b: TxidKey) { a != b }

  /** A strongly consistent listing: exactly the stored keys, each once. */
  ghost predicate ListsStore(listing: seq<TxidKey>, store: Store) {
    (forall k :: k in listing <==> k in store) && Pairwise(Different, listing)
  }

  ghost predicate Rising(keys: seq<TxidKey>) {
    forall i, j :: 0 <= i < j < |keys| ==> keys[i].1 < keys[j].1
  }

  ghost predicate Holds(keys: seq<TxidKey>, a: nat, m: nat) {
    forall k :: k in keys <==> k.0 == k.1 && a <= k.1 <= m
  }

  lemma FirstKey(keys: seq<TxidKey>, a: nat, m: nat)
    requires Rising(keys) && Holds(keys, a, m) && a <= m
    ensures keys != [] && keys[0] == (a, a)
  {
    assert (a, a) in keys;
    assert keys[0] in keys;
  }

  lemma OtherKeys(keys: seq<TxidKey>, a: nat, m: nat)
    requires Rising(keys) && Holds(keys, a, m) && keys != [] && keys[0] == (a, a)
    ensures Rising(keys[1..]) && Holds(keys[1..], a + 1, m)
  {
    assert keys == [keys[0]] + keys[1..];
    forall k: TxidKey
      ensures k in keys[1..] <==> k.0 == k.1 && a + 1 <= k.1 <= m
    {
      assert k in keys <==> k == keys[0] || k in keys[1..];
    }
  }

  lemma SomeKey(keys: seq<TxidKey>, a: nat, m: nat)
    requires Holds(keys, a, m)
    ensures keys != [] ==> a <= m
  {
    assert keys != [] ==> keys[0] in keys;
  }

  ghost predicate InARow(keys: seq<TxidKey>, a: nat) {
    keys == [] || (keys[0] == (a, a) && InARow(keys[1..], a + 1))
  }

  lemma {:induction false} RisingInARow(keys: seq<TxidKey>, a: nat, m: nat)
    requires Rising(keys) && Holds(keys, a, m)
    ensures InARow(keys, a) && |keys| == (if a <= m then m + 1 - a else 0)
    decreases |keys|
  {
    SomeKey(keys, a, m);
    if a <= m {
      FirstKey(keys, a, m);
      OtherKeys(keys, a, m);
      RisingInARow(keys[1..], a + 1, m);
    }
  }

  lemma {:induction false} RowIsKeys(keys: seq<TxidKey>, a: nat, m: nat)
    requires InARow(keys, a) && |keys| == (if a <= m then m + 1 - a else 0)
    ensures keys == KeysFrom(a, m)
    decreases |keys|
  {
    if a > m {
    } else {
      RowIsKeys(keys[1..], a + 1, m);
      assert keys == [(a, a)] + keys[1..];
    }
  }

  /** An ascending list of exactly the keys `(a, a) .. (m, m)` is that list. */
  lemma AscendingKeys(keys: seq<TxidKey>, a: nat, m: nat)
    requires Rising(keys) && Holds(keys, a, m)
    ensures keys == KeysFrom(a, m)
  {
    RisingInARow(keys, a, m);
    RowIsKeys(keys, a, m);
  }

  /** The last TXID with an object, torn or not. */
  ghost function Top(s: State): nat {
    if (s.txid + 1, s.txid + 1) in s.store then s.txid + 1 else s.txid
  }

  function Min(a: nat, b: nat): nat { if a < b then a else b }

  lemma ToApplyMembers(listing: seq<TxidKey>, target: nat, k: TxidKey)
    ensures k in ToApply(listing, target) <==> k in listing && k != BASE && k.1 <= target
  {
    SortByMembers(MaxKey, Filter((k: TxidKey) => k != BASE && k.1 <= target, listing));
  }

  lemma ToApplyAscends(listing: seq<TxidKey>, target: nat)
    requires Pairwise(Different, listing) && forall k :: k in listing ==> k.0 == k.1
    ensures Rising(ToApply(listing, target))
  {
    var keep := (k: TxidKey) => k != BASE && k.1 <= target;
    var chosen := Filter(keep, listing);
    FilterPairwise(Different, keep, listing);
    SortPairwise(Different, MaxKey, chosen);
    SortBySorts(MaxKey, chosen);
    SortByMembers(MaxKey, chosen);
    var keys := ToApply(listing, target);
    assert keys == SortBy(MaxKey, chosen);
    forall i, j | 0 <= i < j < |keys|
      ensures keys[i].1 < keys[j].1
    {
      assert keys[i] in keys && keys[j] in keys;
      assert Different(keys[i], keys[j]) && Leq(MaxKey(keys[i]), MaxKey(keys[j]));
    }
  }

  lemma Listed(hash: Hash, s: State, listing: seq<TxidKey>, k: TxidKey, corruptible: bool)
    requires Inv(hash, s, corruptible) && ListsStore(listing, s.store)
    ensures k in listing <==> k.0 == k.1 && 1 <= k.1 <= Top(s)
  {
    if k.0 == k.1 && 1 <= k.1 <= s.txid {
      assert HasObject(hash, s.recorded, s.store, k.1, corruptible);
    }
  }

  lemma ToApplyHolds(hash: Hash, s: State, listing: seq<TxidKey>, target: nat, corruptible: bool)
    requires Inv(hash, s, corruptible) && ListsStore(listing, s.store)
    ensures Holds(ToApply(listing, target), 2, Min(target, Top(s)))
  {
    forall k: TxidKey
      ensures k in ToApply(listing, target) <==> k.0 == k.1 && 2 <= k.1 <= Min(target, Top(s))
    {
      ToApplyMembers(listing, target, k);
      Listed(hash, s, listing, k, corruptible);
    }
  }

  lemma ApplyOrder(hash: Hash, s: State, listing: seq<TxidKey>, target: nat, corruptible: bool)
    requires Inv(hash, s, corruptible) && ListsStore(listing, s.store)
    ensures ToApply(listing, target) == KeysFrom(2, Min(target, Top(s)))
  {
    ToApplyHolds(hash, s, listing, target, corruptible);
    ToApplyAscends(listing, target);
    AscendingKeys(ToApply(listing, target), 2, Min(target, Top(s)));
  }

  /** A restore succeeds exactly when the listing is non-empty and every object up to the target can be fetched
      and is whole; it then returns the layered image of the largest recorded TXID within the target. So a torn
      or corrupted object is never absorbed into a result. */
  lemma RestoreIff(hash: Hash, s: State, listing: seq<TxidKey>, got: TxidKey -> bool, target: nat, corruptible: bool)
    requires Inv(hash, s, corruptible) && NoneWaiting(s) && ListsStore(listing, s.store) && target >= 1
    ensures var r := RestoreTo(hash, s.store, Some(listing), got, target);
            && (r.Image? <==> Top(s) >= 1 && AllUsable(s.store, got, 1, Min(target, Top(s))))
            && (r.Image? ==> s.txid >= 1 && r.db == Layered(s.recorded, Min(target, s.txid)))
  {
    var m := Min(target, Top(s));
    if Top(s) == 0 {
      assert BASE !in s.store;
    } else {
      assert s.txid >= 1 ==> HasObject(hash, s.recorded, s.store, 1, corruptible);
      assert BASE in s.store && BASE in listing;
      ApplyOrder(hash, s, listing, target, corruptible);
      if Usable(s.store, got, 1) {
        assert s.txid >= 1 && s.store[BASE] == Snap(s.recorded[0]);
        ReplayConsecutive(hash, s, got, 2, m, corruptible);
      }
    }
  }

  /** If the restore ends with an image, it is the layered image of the largest TXID within the target, and that is
      the recorded state exactly when no earlier recorded image was longer. */
  ghost predicate NotSilentlyWrong(s: State, r: Restored, target: nat) {
    r.Image? ==>
      && 1 <= s.txid == |s.recorded| && target >= 1
      && r.db == Layered(s.recorded, Min(target, s.txid))
      && (r.db == s.recorded[Min(target, s.txid) - 1] <==> Longest(s.recorded, Min(target, s.txid)))
  }

  lemma ExactIff(s: State, r: Restored, target: nat)
    requires |s.recorded| == s.txid && target >= 1
    requires r.Image? ==> s.txid >= 1 && r.db == Layered(s.recorded, Min(target, s.txid))
    ensures NotSilentlyWrong(s, r, target)
  {
    if r.Image? {
      LayeredExactIff(s.recorded, Min(target, s.txid));
    }
  }

  lemma RestoreExactIff(hash: Hash, s: State, listing: seq<TxidKey>, got: TxidKey -> bool, target: nat,
                        corruptible: bool)
    requires Inv(hash, s, corruptible) && NoneWaiting(s) && ListsStore(listing, s.store) && target >= 1
    ensures NotSilentlyWrong(s, RestoreTo(hash, s.store, Some(listing), got, target), target)
  {
    RestoreIff(hash, s, listing, got, target, corruptible);
    ExactIff(s, RestoreTo(hash, s.store, Some(listing), got, target), target);
  }

  /** Never silently wrong, over every run of edits, snapshots and syncs with refused, cut-short and corrupted PUTs,
      failing reads, failing GETs and a failing listing. */
  lemma NeverSilentlyWrong(hash: Hash, db: Db, ops: seq<Op>, listing: Option<seq<TxidKey>>, got: TxidKey -> bool,
                           target: nat)
    requires target >= 1 && (listing.Some? ==> ListsStore(listing.value, Run(hash, Initial(db), ops).store))
    ensures var s := Shipped(hash, Run(hash, Initial(db), ops));
            var r := RestoreTo(hash, s.store, listing, got, target);
            NotSilentlyWrong(s, r, target) && (listing.None? ==> r == Error(ListFailed))
  {
    var s := Run(hash, Initial(db), ops);
    RunInv(hash, db, ops);
    ShippedInv(hash, s, !Uncorrupted(ops));
    if listing.Some? {
      RestoreExactIff(hash, Shipped(hash, s), listing.value, got, target, !Uncorrupted(ops));
    }
  }

  predicate AllRead(k: TxidKey) { true }

  /** The case the exact condition shuts out: a two-page file is snapshotted and then replaced by one other page.
      The restore of TXID 2 still ends with the old second page. */
  lemma ShrinkNotRestored(hash: Hash, p: Page, q: Page, r: Page)
    requires p != r
    ensures var ops := [TakeSnapshot(true, [Stored], true), Edit([r]), SyncWal(true, [Stored], true)];
            var s := Run(hash, Initial([p, q]), ops);
            s.recorded == [[p, q], [r]] && RestoreTo(hash, s.store, Some([(1, 1), (2, 2)]), AllRead, 2) == Image([r, q])
  {
    var ops := [TakeSnapshot(true, [Stored], true), Edit([r]), SyncWal(true, [Stored], true)];
    var s := Run(hash, Initial([p, q]), ops);
    ShrinkRun(hash, p, q, r);
    RunInv(hash, [p, q], ops);
    ShrinkRestore(hash, s, p, q, r, !Uncorrupted(ops));
  }

  lemma ShrinkRestore(hash: Hash, s: State, p: Page, q: Page, r: Page, corruptible: bool)
    requires Inv(hash, s, corruptible) && NoneWaiting(s) && s.recorded == [[p, q], [r]]
    requires s.store.Keys == {(1, 1), (2, 2)} && s.store[(1, 1)] != Torn && s.store[(2, 2)] != Torn
    ensures RestoreTo(hash, s.store, Some([(1, 1), (2, 2)]), AllRead, 2) == Image([r, q])
  {
    RestoreIff(hash, s, [(1, 1), (2, 2)], AllRead, 2, corruptible);
    assert Layered(s.recorded, 2) == [r, q];
  }

  lemma ShrinkRun(hash: Hash, p: Page, q: Page, r: Page)
    requires p != r
    ensures var ops := [TakeSnapshot(true, [Stored], true), Edit([r]), SyncWal(true, [Stored], true)];
            var s := Run(hash, Initial([p, q]), ops);
            && s.recorded == [[p, q], [r]]
            && s.store.Keys == {(1, 1), (2, 2)} && s.store[(1, 1)] != Torn && s.store[(2, 2)] != Torn
  {
    var a, b, c := TakeSnapshot(true, [Stored], true), Edit([r]), SyncWal(true, [Stored], true);
    assert [a, b, c][..2] == [a, b] && [a, b][..1] == [a] && [a][..0] == [];
    var s0 := Initial([p, q]);
    var s1 := Step(hash, s0, a);
    assert Run(hash, s0, []) == s0;
    assert Run(hash, s0, [a]) == s1;
    assert Run(hash, s0, [a, b]) == s1.(db := [r]);
    assert s1.recorded == [[p, q]] && s1.last == [p, q];
    assert s1.store == map[(1, 1) := Snap([p, q])];
    NothingChangedIff([r], [p, q]);
  }

  /** Without silent corruption and failing GETs every shipped TXID can be restored at any time, whatever PUTs were
      refused or cut short; restoring past the last one works unless a torn object is waiting there. */
  lemma AlwaysRestorable(hash: Hash, db: Db, ops: seq<Op>, listing: seq<TxidKey>, target: nat)
    requires Uncorrupted(ops) && target >= 1 && ListsStore(listing, Run(hash, Initial(db), ops).store)
    ensures var s := Shipped(hash, Run(hash, Initial(db), ops));
            RestoreTo(hash, s.store, Some(listing), AllRead, target).Image? <==>
            s.txid >= 1 && (target <= s.txid || (s.txid + 1, s.txid + 1) !in s.store)
  {
    var s := Run(hash, Initial(db), ops);
    RunInv(hash, db, ops);
    ShippedInv(hash, s, false);
    WholeRestorable(hash, Shipped(hash, s), listing, target);
  }

  lemma WholeRestorable(hash: Hash, s: State, listing: seq<TxidKey>, target: nat)
    requires Inv(hash, s, false) && NoneWaiting(s) && ListsStore(listing, s.store) && target >= 1
    ensures RestoreTo(hash, s.store, Some(listing), AllRead, target).Image? <==>
            s.txid >= 1 && (target <= s.txid || (s.txid + 1, s.txid + 1) !in s.store)
  {
    RestoreIff(hash, s, listing, AllRead, target, false);
    forall t: nat | 1 <= t <= s.txid
      ensures Usable(s.store, AllRead, t)
    {
      assert HasObject(hash, s.recorded, s.store, t, false);
    }
    if target > s.txid && (s.txid + 1, s.txid + 1) in s.store {
      assert !Usable(s.store, AllRead, s.txid + 1);
    }
  }

  lemma NothingBehindBase(target: nat)
    ensures ToApply([BASE], target) == []
  {
    var keep := (k: TxidKey) => k != BASE && k.1 <= target;
    assert [BASE][1..] == [];
    assert Filter(keep, [BASE]) == [];
  }

  /** An unconfirmed image comes back: the first snapshot of `db` is stored, the file cannot be read again, the call
      fails and the engine stands at TXID 0; a restore returns `db`. */
  lemma FailedSnapshotRestored(hash: Hash, db: Db, target: nat)
    requires target >= 1
    ensures var s := Run(hash, Initial(db), [TakeSnapshot(true, [Stored], false)]);
            s.txid == 0 && s.recorded == [] && RestoreTo(hash, s.store, Some([BASE]), AllRead, target) == Image(db)
  {
    var ops := [TakeSnapshot(true, [Stored], false)];
    assert ops[..0] == [] && Run(hash, Initial(db), []) == Initial(db);
    var s := Run(hash, Initial(db), ops);
    assert s.store == map[BASE := Snap(db)];
    NothingBehindBase(target);
  }
}
