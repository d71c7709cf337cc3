/** The snapshot / delta / restore engine over a faulty object store. */
module Engine {
  import opened Lists
  import opened Options
  import opened Pages

  type Checksum = nat

  /** `chain_checksum`: a hash of a starting checksum and a list of numbered pages. */
  type Hash = (Checksum, seq<PageWrite>) -> Checksum

  /** Keys of the live generation: the TXID range an object covers. */
  type TxidKey = (nat, nat)

  /** A stored LTX object; `Torn` is one that does not decode. */
  datatype Object =
    | Snap(pages: Db)
    | Inc(pre: Option<Checksum>, changed: seq<PageWrite>, commit: nat, post: Checksum)
    | Torn

  type Store = map<TxidKey, Object>

  /** The fate of one PUT: stored; refused; cut short, which stores a torn object and fails; or silently
      corrupted, which stores a torn object and reports success. */
  datatype PutFate = Stored | Refused | CutShort | Corrupted

  /** The engine: `last` is the image at `txid`, `sum` its checksum, `db` the database file as it is now, and
      `recorded[t - 1]` the image that the call that allocated TXID `t` shipped. */
  datatype State = State(txid: nat, sum: Option<Checksum>, last: Db, db: Db, store: Store, recorded: seq<Db>)

  /** The pages among the first `n` that are new or differ from `last`, numbered from 1. */
  function ChangedUpTo(pages: Db, last: Db, n: nat): (r: seq<PageWrite>)
    requires n <= |pages|
  {
    if n == 0 then []
    else
      var rest := ChangedUpTo(pages, last, n - 1);
      if n > |last| || last[n - 1] != pages[n - 1] then rest + [PageWrite(n, pages[n - 1])] else rest
  }

  function Changed(pages: Db, last: Db): (r: seq<PageWrite>) {
    ChangedUpTo(pages, last, |pages|)
  }

  /** Every page of the image. */
  function Indexed(pages: Db): (r: seq<PageWrite>) {
    Changed(pages, [])
  }

  function FullChecksum(hash: Hash, pages: Db): (r: Checksum) {
    hash(0, Indexed(pages))
  }

  function IncFor(hash: Hash, pages: Db, last: Db, pre: Option<Checksum>): (r: Object) {
    var changed := Changed(pages, last);
    Inc(pre, changed, |pages|, hash(if pre.Some? then pre.value else 0, changed))
  }

  /** PUT with retries: attempts follow one another until one reports success or they run out. */
  function PutAll(store: Store, key: TxidKey, obj: Object, fates: seq<PutFate>): (r: (Store, bool))
    decreases |fates|
  {
    if fates == [] then (store, false)
    else match fates[0]
      case Stored => (store[key := obj], true)
      case Corrupted => (store[key := Torn], true)
      case Refused => PutAll(store, key, obj, fates[1..])
      case CutShort => PutAll(store[key := Torn], key, obj, fates[1..])
  }

  /** Ship `object` as the next TXID; the state advances only when the PUT succeeds. */
  function Ship(hash: Hash, s: State, obj: Object, fates: seq<PutFate>): (r: (State, bool)) {
    var t := s.txid + 1;
    var (store, ok) := PutAll(s.store, (t, t), obj, fates);
    if ok then (State(t, Some(FullChecksum(hash, s.db)), s.db, s.db, store, s.recorded + [s.db]), true)
    else (s.(store := store), false)
  }

  /** A full snapshot; `encodes` is false when the encoder rejects the file, `readable` when the file cannot be read
      again after the PUT. Then the object is stored although the call fails and the state stays. */
  function SnapshotStep(hash: Hash, s: State, encodes: bool, fates: seq<PutFate>, readable: bool): (r: (State, bool)) {
    if !encodes then (s, false)
    else if readable then Ship(hash, s, Snap(s.db), fates)
    else (s.(store := PutAll(s.store, (s.txid + 1, s.txid + 1), Snap(s.db), fates).0), false)
  }

  /** An incremental of the pages that changed since the last image, or nothing if none did. It reads the file first. */
  function SyncStep(hash: Hash, s: State, encodes: bool, fates: seq<PutFate>, readable: bool): (r: (State, bool)) {
    if s.txid == 0 then SnapshotStep(hash, s, encodes, fates, readable)
    else if !readable then (s, false)
    else if Changed(s.db, s.last) == [] then (s, true)
    else if !encodes then (s, false)
    else Ship(hash, s, IncFor(hash, s.db, s.last, s.sum), fates)
  }

  datatype RestoreError = ListFailed | NoObjects | NoBase | GetFailed(key: TxidKey) | BadObject(key: TxidKey)

  datatype Restored = Image(db: Db) | Error(error: RestoreError)

  /** The base object is the one keyed `1-1`. */
  const BASE: TxidKey := (1, 1)

  function MaxKey(k: TxidKey): Key { (k.1, 0) }

  /** The listed incrementals up to `target`, in TXID order. */
  function ToApply(keys: seq<TxidKey>, target: nat): (r: seq<TxidKey>) {
    SortBy(MaxKey, Filter((k: TxidKey) => k != BASE && k.1 <= target, keys))
  }

  /** Apply an object in place: pages are written over the file, which is neither compared with the object's
      pre-checksum nor cut to its commit size. An object with a pre-checksum must hash to its own
      post-checksum. */
  function ApplyObject(hash: Hash, obj: Object, db: Db): (r: Option<Db>) {
    match obj
    case Torn => None
    case Snap(pages) => Some(ApplyPages(db, Indexed(pages)))
    case Inc(pre, changed, _, post) =>
      if pre.Some? && hash(pre.value, changed) != post then None else Some(ApplyPages(db, changed))
  }

  /** GETs and applies in order; `got(k)` is false when the GET of key `k` fails. */
  function Replay(hash: Hash, store: Store, got: TxidKey -> bool, keys: seq<TxidKey>, db: Db): (r: Restored) {
    if keys == [] then Image(db)
    else if !got(keys[0]) || keys[0] !in store then Error(GetFailed(keys[0]))
    else match ApplyObject(hash, store[keys[0]], db)
      case None => Error(BadObject(keys[0]))
      case Some(db') => Replay(hash, store, got, keys[1..], db')
  }

  /** Restore from the listing `keys` to `target`: decode the base, then apply the later objects. */
  function RestoreTo(hash: Hash, store: Store, listing: Option<seq<TxidKey>>, got: TxidKey -> bool, target: nat)
    : (r: Restored)
  {
    if listing.None? then Error(ListFailed)
    else if listing.value == [] then Error(NoObjects)
    else if BASE !in listing.value then Error(NoBase)
    else if !got(BASE) || BASE !in store then Error(GetFailed(BASE))
    else if !store[BASE].Snap? then Error(BadObject(BASE))
    else Replay(hash, store, got, ToApply(listing.value, target), store[BASE].pages)
  }

  /** The sync state of one database, the database file and the store behind it. */
  class SyncEngine {
    const hash: Hash
    var txid: nat
    var sum: Option<Checksum>
    var last: Db
    var db: Db
    var store: Store
    ghost var recorded: seq<Db>

    ghost function Abstract(): State
      reads this
    {
      State(txid, sum, last, db, store, recorded)
    }

    constructor (hash: Hash, db: Db)
      ensures this.hash == hash && Abstract() == Initial(db)
    {
      this.hash, this.txid, this.sum, this.last, this.db := hash, 0, None, [], db;
      this.store, this.recorded := map[], [];
    }

    /** The comparison of the file's pages with the last image. */
    method ChangedPages() returns (changed: seq<PageWrite>)
      ensures changed == Changed(db, last)
    {
      changed := [];
      for i := 0 to |db|
        invariant changed == ChangedUpTo(db, last, i)
      {
        if i >= |last| || last[i] != db[i] {
          changed := changed + [PageWrite(i + 1, db[i])];
        }
      }
    }

    method Put(key: TxidKey, obj: Object, fates: seq<PutFate>) returns (ok: bool)
      modifies this`store
      ensures (store, ok) == PutAll(old(store), key, obj, fates)
    {
      for i := 0 to |fates|
        invariant PutAll(old(store), key, obj, fates) == PutAll(store, key, obj, fates[i..])
      {
        assert fates[i..][1..] == fates[i + 1..];
        match fates[i] {
          case Stored =>
            store := store[key := obj];
            return true;
          case Corrupted =>
            store := store[key := Torn];
            return true;
          case Refused =>
          case CutShort =>
            store := store[key := Torn];
        }
      }
      return false;
    }

    method ShipNext(obj: Object, fates: seq<PutFate>) returns (ok: bool)
      modifies this
      ensures (Abstract(), ok) == Ship(hash, old(Abstract()), obj, fates)
    {
      var next := txid + 1;
      ok := Put((next, next), obj, fates);
      if ok {
        sum := Some(FullChecksum(hash, db));
        last := db;
        txid := next;
        recorded := recorded + [db];
      }
    }

    method TakeSnapshot(encodes: bool, fates: seq<PutFate>, readable: bool) returns (ok: bool)
      modifies this
      ensures (Abstract(), ok) == SnapshotStep(hash, old(Abstract()), encodes, fates, readable)
    {
      if !encodes {
        return false;
      }
      if !readable {
        var stored := Put((txid + 1, txid + 1), Snap(db), fates);
        return false;
      }
      ok := ShipNext(Snap(db), fates);
    }

    method SyncWal(encodes: bool, fates: seq<PutFate>, readable: bool) returns (ok: bool)
      modifies this
      ensures (Abstract(), ok) == SyncStep(hash, old(Abstract()), encodes, fates, readable)
    {
      if txid == 0 {
        ok := TakeSnapshot(encodes, fates, readable);
        return;
      }
      if !readable {
        return false;
      }
      var changed := ChangedPages();
      if changed == [] {
        return true;
      }
      if !encodes {
        return false;
      }
      var post := hash(if sum.Some? then sum.value else 0, changed);
      ok := ShipNext(Inc(sum, changed, |db|, post), fates);
    }

    /** Restore into a new file `output`; a failed restore returns no image. */
    method Restore(listing: Option<seq<TxidKey>>, got: TxidKey -> bool, target: nat) returns (result: Restored)
      ensures result == RestoreTo(hash, store, listing, got, target)
    {
      if listing.None? {
        return Error(ListFailed);
      }
      if listing.value == [] {
        return Error(NoObjects);
      }
      if BASE !in listing.value {
        return Error(NoBase);
      }
      if !got(BASE) || BASE !in store {
        return Error(GetFailed(BASE));
      }
      if !store[BASE].Snap? {
        return Error(BadObject(BASE));
      }
      var output := store[BASE].pages;
      var keys := ToApply(listing.value, target);
      for i := 0 to |keys|
        invariant Replay(hash, store, got, keys, store[BASE].pages) == Replay(hash, store, got, keys[i..], output)
      {
        assert keys[i..][1..] == keys[i + 1..];
        if !got(keys[i]) || keys[i] !in store {
          return Error(GetFailed(keys[i]));
        }
        match ApplyObject(hash, store[keys[i]], output) {
          case None => return Error(BadObject(keys[i]));
          case Some(db') => output := db';
        }
      }
      result := Image(output);
    }
  }

  function Initial(db: Db): (r: State) {
    State(0, None, [], db, map[], [])
  }
}
