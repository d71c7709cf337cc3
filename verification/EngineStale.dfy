/** Restores from an incomplete listing: what they return, page by page, and exactly when that is right all the same. */
module EngineStale {
  import opened Lists
  import opened Options
  import opened Pages
  import opened Engine
  import opened EngineRuns
  import opened EngineRestore

  /** The object carries a page for place `i`, counted from 0. */
  ghost predicate WritesPlace(obj: Object, i: nat) {
    if obj.Snap? then i < |obj.pages| else obj.Inc? && Writes(obj.changed, i + 1)
  }

  /** `r` is `db` with the object's pages taken from `image`; holes read as zeros. */
  ghost predicate Placed(obj: Object, image: Db, db: Db, r: Db) {
    && |db| <= |r| && (|r| > |db| ==> WritesPlace(obj, |r| - 1))
    && (forall i: nat :: WritesPlace(obj, i) ==> i < |r| && i < |image| && r[i] == image[i])
    && (forall i: nat :: i < |r| && !WritesPlace(obj, i) ==> ReadsAs(db, i, r[i]))
  }

  lemma PagesPlaced(obj: Object, writes: seq<PageWrite>, image: Db, db: Db)
    requires TakenFrom(writes, image) && forall i: nat :: WritesPlace(obj, i) <==> Writes(writes, i + 1)
    ensures Placed(obj, image, db, ApplyPages(db, writes))
  {
    ApplyPagesEffect(db, writes, image);
    ApplyPagesHoles(db, writes);
  }

  /** An intact object is accepted on any file, and puts the pages of its own image in place. */
  lemma IntactPlaced(hash: Hash, recorded: seq<Db>, t: nat, obj: Object, db: Db)
    requires 1 <= t <= |recorded| && Intact(hash, recorded, t, obj)
    ensures var r := ApplyObject(hash, obj, db); r.Some? && Placed(obj, recorded[t - 1], db, r.value)
  {
    var image := recorded[t - 1];
    match obj
    case Snap(pages) =>
      ChangedFacts(pages, [], |pages|);
      PagesPlaced(obj, Indexed(pages), image, db);
    case Inc(_, changed, _, _) =>
      ChangedFacts(image, recorded[t - 2], |image|);
      PagesPlaced(obj, changed, image, db);
  }

  /** The TXID of the last object of `keys` that writes place `i`. */
  ghost function LastWriter(store: Store, keys: seq<TxidKey>, i: nat): (r: Option<nat>) {
    if keys == [] then None
    else if LastWriter(store, keys[1..], i).Some? then LastWriter(store, keys[1..], i)
    else if keys[0] in store && WritesPlace(store[keys[0]], i) then Some(keys[0].1)
    else None
  }

  /** The page that place `i` has after a restore from `keys` over `base`. */
  ghost predicate Shown(store: Store, recorded: seq<Db>, keys: seq<TxidKey>, base: Db, i: nat, page: Page) {
    var w := LastWriter(store, keys, i);
    if w.Some? then 1 <= w.value <= |recorded| && i < |recorded[w.value - 1]| && page == recorded[w.value - 1][i]
    else ReadsAs(base, i, page)
  }

  /** `r` is the result, page by page: each page is its last writer's version, and the file ends with a page that one of
      the objects wrote, or where the base ended. */
  ghost predicate Shows(store: Store, recorded: seq<Db>, keys: seq<TxidKey>, base: Db, r: Db) {
    && |base| <= |r| && (|r| > |base| ==> LastWriter(store, keys, |r| - 1).Some?)
    && (forall i: nat :: LastWriter(store, keys, i).Some? ==> i < |r|)
    && (forall i: nat :: i < |r| ==> Shown(store, recorded, keys, base, i, r[i]))
  }

  ghost predicate Known(s: State, keys: seq<TxidKey>) {
    forall k :: k in keys ==> k.0 == k.1 && 1 <= k.1 <= s.txid
  }

  lemma ShowsNext(s: State, keys: seq<TxidKey>, base: Db, r1: Db, r: Db)
    requires |s.recorded| == s.txid && keys != [] && Known(s, keys) && keys[0] in s.store
    requires Placed(s.store[keys[0]], s.recorded[keys[0].1 - 1], base, r1)
    requires Shows(s.store, s.recorded, keys[1..], r1, r)
    ensures Shows(s.store, s.recorded, keys, base, r)
  {
    forall i: nat | i < |r|
      ensures Shown(s.store, s.recorded, keys, base, i, r[i])
    {
      assert Shown(s.store, s.recorded, keys[1..], r1, i, r[i]);
    }
  }

  /** For any selection of the objects, in any order, over any file. */
  lemma {:induction false} ReplayShows(hash: Hash, s: State, keys: seq<TxidKey>, base: Db)
    requires Inv(hash, s, false) && Known(s, keys)
    ensures var r := Replay(hash, s.store, AllRead, keys, base);
            r.Image? && Shows(s.store, s.recorded, keys, base, r.db)
    decreases |keys|
  {
    if keys == [] {
    } else {
      var k := keys[0];
      assert k in keys && HasObject(hash, s.recorded, s.store, k.1, false);
      IntactPlaced(hash, s.recorded, k.1, s.store[k], base);
      var r1 := ApplyObject(hash, s.store[k], base).value;
      ReplayShows(hash, s, keys[1..], r1);
      ShowsNext(s, keys, base, r1, Replay(hash, s.store, AllRead, keys, base).db);
    }
  }

  /** A listing of the base and any of the other objects. */
  ghost predicate Partial(s: State, listing: seq<TxidKey>) {
    BASE in listing && Known(s, listing) && Pairwise(Different, listing)
  }

  lemma PartialKnown(s: State, listing: seq<TxidKey>, target: nat)
    requires Partial(s, listing)
    ensures Known(s, ToApply(listing, target))
    ensures forall k :: k in ToApply(listing, target) ==> k in listing && k.1 <= target
  {
    forall k | k in ToApply(listing, target)
      ensures k in listing && k.1 <= target
    {
      ToApplyMembers(listing, target, k);
    }
  }

  /** The image that a restore from an incomplete listing returns. */
  lemma PartialImage(hash: Hash, s: State, listing: seq<TxidKey>, target: nat)
    requires Inv(hash, s, false) && Partial(s, listing)
    ensures var r := RestoreTo(hash, s.store, Some(listing), AllRead, target);
            r.Image? && Shows(s.store, s.recorded, ToApply(listing, target), s.recorded[0], r.db)
  {
    assert HasObject(hash, s.recorded, s.store, 1, false);
    PartialKnown(s, listing, target);
    ReplayShows(hash, s, ToApply(listing, target), s.recorded[0]);
  }

  lemma {:induction false} WriterAmong(store: Store, keys: seq<TxidKey>, i: nat)
    ensures LastWriter(store, keys, i).Some? ==>
              exists k: TxidKey :: k in keys && k.1 == LastWriter(store, keys, i).value
  {
    if keys == [] {
    } else {
      WriterAmong(store, keys[1..], i);
      assert keys[0] in keys;
    }
  }

  lemma NoLonger(s: State, keys: seq<TxidKey>, r: Db, m: nat)
    requires 1 <= m <= |s.recorded| && Shows(s.store, s.recorded, keys, s.recorded[0], r)
    requires forall k :: k in keys ==> 1 <= k.1 <= m
    ensures |r| <= |Layered(s.recorded, m)|
  {
    if |r| > |s.recorded[0]| {
      var w := LastWriter(s.store, keys, |r| - 1).value;
      WriterAmong(s.store, keys, |r| - 1);
      assert Shown(s.store, s.recorded, keys, s.recorded[0], |r| - 1, r[|r| - 1]);
      LayeredCovers(s.recorded, m, w);
    } else {
      LayeredCovers(s.recorded, m, 1);
    }
  }

  /** Every place of `image` shows its page from the listed objects, and one of them, or the base, reaches its end. */
  ghost predicate AllShown(s: State, keys: seq<TxidKey>, image: Db)
    requires s.recorded != []
  {
    && (|image| > |s.recorded[0]| ==> LastWriter(s.store, keys, |image| - 1).Some?)
    && (forall i: nat :: i < |image| ==> Shown(s.store, s.recorded, keys, s.recorded[0], i, image[i]))
  }

  lemma ShowsIff(s: State, keys: seq<TxidKey>, r: Db, image: Db)
    requires s.recorded != [] && Shows(s.store, s.recorded, keys, s.recorded[0], r)
    requires |s.recorded[0]| <= |image| && |r| <= |image|
    ensures r == image <==> AllShown(s, keys, image)
  {
    if AllShown(s, keys, image) {
      forall i: nat | i < |r|
        ensures r[i] == image[i]
      {
        assert Shown(s.store, s.recorded, keys, s.recorded[0], i, r[i]);
        assert Shown(s.store, s.recorded, keys, s.recorded[0], i, image[i]);
      }
    }
  }

  /** Exactly when a restore from an incomplete listing returns what the complete one does: at every place the last
      listed object that writes it has the right page, and the file is as long. */
  lemma PartialExactIff(hash: Hash, s: State, listing: seq<TxidKey>, target: nat)
    requires Inv(hash, s, false) && Partial(s, listing) && target >= 1
    ensures var m := Min(target, s.txid);
            RestoreTo(hash, s.store, Some(listing), AllRead, target) == Image(Layered(s.recorded, m)) <==>
            AllShown(s, ToApply(listing, target), Layered(s.recorded, m))
  {
    var m, keys := Min(target, s.txid), ToApply(listing, target);
    PartialImage(hash, s, listing, target);
    PartialKnown(s, listing, target);
    LayeredCovers(s.recorded, m, 1);
    var r := RestoreTo(hash, s.store, Some(listing), AllRead, target).db;
    NoLonger(s, keys, r, m);
    ShowsIff(s, keys, r, Layered(s.recorded, m));
  }

  /** The last writer of each place, among all objects up to `m`, is listed. */
  ghost predicate WritersListed(s: State, keys: seq<TxidKey>, m: nat) {
    forall i: nat :: IsListed(LastWriter(s.store, KeysFrom(2, m), i), keys)
  }

  ghost predicate IsListed(w: Option<nat>, keys: seq<TxidKey>) {
    w.Some? ==> (w.value, w.value) in keys
  }

  ghost predicate IsLast(store: Store, keys: seq<TxidKey>, i: nat, w: nat) {
    && (exists k: TxidKey :: k in keys && k.1 == w && k in store && WritesPlace(store[k], i))
    && (forall k: TxidKey :: k in keys && k in store && WritesPlace(store[k], i) ==> k.1 <= w)
  }

  ghost predicate NoWriter(store: Store, keys: seq<TxidKey>, i: nat) {
    forall k: TxidKey :: k in keys && k in store ==> !WritesPlace(store[k], i)
  }

  lemma {:induction false} WriterIsLast(store: Store, keys: seq<TxidKey>, i: nat)
    requires Rising(keys)
    ensures LastWriter(store, keys, i).Some? ==> IsLast(store, keys, i, LastWriter(store, keys, i).value)
    ensures LastWriter(store, keys, i).None? ==> NoWriter(store, keys, i)
  {
    if keys == [] {
    } else {
      var rest := keys[1..];
      WriterIsLast(store, rest, i);
      assert keys[0] in keys && forall k :: k in keys <==> k == keys[0] || k in rest;
      assert forall k :: k in rest ==> keys[0].1 < k.1;
    }
  }

  lemma SameWriter(store: Store, all: seq<TxidKey>, keys: seq<TxidKey>, i: nat)
    requires Rising(all) && Rising(keys) && (forall k :: k in keys ==> k in all)
    requires forall k :: k in all ==> k.0 == k.1
    requires IsListed(LastWriter(store, all, i), keys)
    ensures LastWriter(store, keys, i) == LastWriter(store, all, i)
  {
    WriterIsLast(store, all, i);
    WriterIsLast(store, keys, i);
    var w, v := LastWriter(store, all, i), LastWriter(store, keys, i);
    if w.Some? {
      var k: TxidKey :| k in all && k.1 == w.value && k in store && WritesPlace(store[k], i);
      assert k == (w.value, w.value) && k in keys;
    }
  }

  lemma {:induction false} KeysFromFacts(a: nat, m: nat)
    ensures Rising(KeysFrom(a, m)) && Holds(KeysFrom(a, m), a, m)
    decreases m + 1 - a
  {
    if a > m {
    } else {
      var rest := KeysFrom(a + 1, m);
      KeysFromFacts(a + 1, m);
      forall k: TxidKey
        ensures k in KeysFrom(a, m) <==> k.0 == k.1 && a <= k.1 <= m
      {
        assert k in KeysFrom(a, m) <==> k == (a, a) || k in rest;
      }
      forall j | 0 <= j < |rest|
        ensures a < rest[j].1
      {
        assert rest[j] in rest;
      }
    }
  }

  lemma SameShown(s: State, all: seq<TxidKey>, keys: seq<TxidKey>, r: Db)
    requires s.recorded != [] && Shows(s.store, s.recorded, all, s.recorded[0], r)
    requires forall i: nat :: LastWriter(s.store, keys, i) == LastWriter(s.store, all, i)
    ensures AllShown(s, keys, r)
  {
    forall i: nat | i < |r|
      ensures Shown(s.store, s.recorded, keys, s.recorded[0], i, r[i])
    {
      assert Shown(s.store, s.recorded, all, s.recorded[0], i, r[i]);
    }
  }

  /** The complete selection gives the layered image. */
  lemma CompleteShows(hash: Hash, s: State, m: nat)
    requires Inv(hash, s, false) && NoneWaiting(s) && 1 <= m <= s.txid
    ensures Shows(s.store, s.recorded, KeysFrom(2, m), s.recorded[0], Layered(s.recorded, m))
  {
    KeysFromFacts(2, m);
    ReplayShows(hash, s, KeysFrom(2, m), s.recorded[0]);
    ReplayConsecutive(hash, s, AllRead, 2, m, false);
  }

  lemma SameWriters(s: State, listing: seq<TxidKey>, target: nat, m: nat)
    requires Partial(s, listing) && m == Min(target, s.txid) && WritersListed(s, ToApply(listing, target), m)
    ensures forall i: nat ::
              LastWriter(s.store, ToApply(listing, target), i) == LastWriter(s.store, KeysFrom(2, m), i)
  {
    var keys, all := ToApply(listing, target), KeysFrom(2, m);
    KeysFromFacts(2, m);
    ToApplyAscends(listing, target);
    forall k: TxidKey | k in keys
      ensures k in all
    {
      ToApplyMembers(listing, target, k);
    }
    forall i: nat
      ensures LastWriter(s.store, keys, i) == LastWriter(s.store, all, i)
    {
      SameWriter(s.store, all, keys, i);
    }
  }

  /** In particular if the last writer of every place within the target is listed. */
  lemma WritersListedExact(hash: Hash, s: State, listing: seq<TxidKey>, target: nat)
    requires Inv(hash, s, false) && NoneWaiting(s) && Partial(s, listing) && target >= 1
    requires WritersListed(s, ToApply(listing, target), Min(target, s.txid))
    ensures RestoreTo(hash, s.store, Some(listing), AllRead, target) == Image(Layered(s.recorded, Min(target, s.txid)))
  {
    var m := Min(target, s.txid);
    PartialExactIff(hash, s, listing, target);
    CompleteShows(hash, s, m);
    SameWriters(s, listing, target, m);
    SameShown(s, KeysFrom(2, m), ToApply(listing, target), Layered(s.recorded, m));
  }
}
