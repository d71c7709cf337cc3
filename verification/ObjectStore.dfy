/** The fault-injecting object store. Every call is one atomic step; its random choices are arguments. */
module ObjectStore {
  import opened Keys
  import opened Options
  import opened Pages

  type Bytes = seq<Byte>

  /** `visibleAfter` is the operation count from which readers see the object; 0 is at once. */
  datatype Stored = Stored(data: Bytes, etag: nat, visibleAfter: nat)

  /** The configured faults: writes longer than `partialLimit` are cut; `delayMs` makes writes eventually consistent. */
  datatype Config = Config(partialLimit: Option<nat>, delayMs: Option<nat>)

  datatype Flip = Flip(at: nat, to: Byte)

  /** The dice of one call: a random error, the lag of a write, and a silently changed byte. */
  datatype Dice = Dice(error: bool, lag: nat, flip: Option<Flip>)

  datatype State = State(objects: map<string, Stored>, ops: nat, etags: nat)

  datatype Call =
    | Get(key: string)
    | Put(key: string, data: Bytes)
    | Delete(key: string)
    | List(prefix: string, after: Option<string>)
    | Exists(key: string)
    | PutIfAbsent(key: string, data: Bytes)
    | PutIfMatch(key: string, data: Bytes, etag: string)
    | Reset

  /** A successful compare-and-swap returns the new etag, a refused one none. */
  datatype Reply =
    | Failed
    | Done
    | Data(data: Option<Bytes>)
    | Found(found: bool)
    | Listed(keys: set<string>)
    | Cas(etag: Option<string>)

  /** Lags run from 2 to a tenth of the delay, at least 2 and at most 16. */
  function MaxLag(delayMs: nat): (r: nat)
    ensures 2 <= r <= 16
  {
    var lag := if delayMs / 10 < 2 then 2 else delayMs / 10;
    if lag < 16 then lag else 16
  }

  predicate LagAllowed(config: Config, dice: Dice) {
    config.delayMs.Some? ==> 2 <= dice.lag <= MaxLag(config.delayMs.value)
  }

  predicate Visible(o: Stored, ops: nat) {
    o.visibleAfter == 0 || ops >= o.visibleAfter
  }

  predicate Readable(s: State, key: string) {
    key in s.objects && Visible(s.objects[key], s.ops)
  }

  predicate Torn(config: Config, data: Bytes) {
    config.partialLimit.Some? && |data| > config.partialLimit.value
  }

  function Corrupted(data: Bytes, flip: Option<Flip>): (r: Bytes)
    ensures |r| == |data|
  {
    if flip.Some? && flip.value.at < |data| then data[flip.value.at := flip.value.to] else data
  }

  /** The shared write path: a new etag, a cut or possibly corrupted body, and a lag. */
  function Write(config: Config, s: State, key: string, data: Bytes, dice: Dice): (r: State) {
    var visibleAfter := if config.delayMs.Some? then s.ops + dice.lag else 0;
    var body :=
      if Torn(config, data) then data[..config.partialLimit.value] else Corrupted(data, dice.flip);
    State(s.objects[key := Stored(body, s.etags + 1, visibleAfter)], s.ops, s.etags + 1)
  }

  function Matching(s: State, prefix: string, after: Option<string>): (r: set<string>) {
    set k | k in s.objects && prefix <= k && Visible(s.objects[k], s.ops) && (after.Some? ==> Before(after.value, k))
  }

  function CasWrite(config: Config, s: State, key: string, data: Bytes, dice: Dice): (r: (State, Reply)) {
    (Write(config, s, key, data, dice), if Torn(config, data) then Failed else Cas(Some(Decimal(s.etags + 1))))
  }

  /** One call after the operation counter was advanced. */
  function Perform(config: Config, s: State, call: Call, dice: Dice): (r: (State, Reply)) {
    if dice.error && !call.Reset? then (s, Failed)
    else match call
      case Get(key) => (s, Data(if Readable(s, key) then Some(s.objects[key].data) else None))
      case Exists(key) => (s, Found(Readable(s, key)))
      case List(prefix, after) => (s, Listed(Matching(s, prefix, after)))
      case Delete(key) => (s.(objects := s.objects - {key}), Done)
      case Put(key, data) => (Write(config, s, key, data, dice), if Torn(config, data) then Failed else Done)
      case PutIfAbsent(key, data) =>
        if key in s.objects then (s, Cas(None)) else CasWrite(config, s, key, data, dice)
      case PutIfMatch(key, data, etag) =>
        if key in s.objects && Decimal(s.objects[key].etag) == etag then CasWrite(config, s, key, data, dice)
        else (s, Cas(None))
      case Reset => (s.(objects := map[]), Done)
  }

  /** Every call but a reset counts as an operation. */
  function Step(config: Config, s: State, call: Call, dice: Dice): (r: (State, Reply)) {
    Perform(config, if call.Reset? then s else s.(ops := s.ops + 1), call, dice)
  }

  ghost predicate Sorted(keys: seq<string>) {
    forall i, j :: 0 <= i < j < |keys| ==> Before(keys[i], keys[j])
  }

  function InsertKey(keys: seq<string>, k: string): (r: seq<string>) {
    if keys == [] || Before(k, keys[0]) then [k] + keys else [keys[0]] + InsertKey(keys[1..], k)
  }

  lemma {:induction false} InsertMembers(keys: seq<string>, k: string)
    ensures forall x :: x in InsertKey(keys, k) <==> x == k || x in keys
  {
    if keys != [] && !Before(k, keys[0]) {
      InsertMembers(keys[1..], k);
    }
  }

  lemma {:induction false} InsertSorted(keys: seq<string>, k: string)
    requires Sorted(keys) && k !in keys
    ensures Sorted(InsertKey(keys, k))
    ensures forall x :: x in InsertKey(keys, k) <==> x == k || x in keys
  {
    InsertMembers(keys, k);
    if keys == [] {
    } else {
      if Before(k, keys[0]) {
        forall j | 0 <= j < |keys|
          ensures Before(k, keys[j])
        {
          if j > 0 {
            BeforeTransitive(k, keys[0], keys[j]);
          }
        }
      } else {
        InsertSorted(keys[1..], k);
        BeforeTotal(k, keys[0]);
        var rest := InsertKey(keys[1..], k);
        forall j | 0 <= j < |rest|
          ensures Before(keys[0], rest[j])
        {
          assert rest[j] in rest;
        }
      }
    }
  }

  lemma {:induction false} BeforeTransitive(a: string, b: string, c: string)
    requires Before(a, b) && Before(b, c)
    ensures Before(a, c)
  {
    if a != "" && a[0] == b[0] == c[0] {
      BeforeTransitive(a[1..], b[1..], c[1..]);
    }
  }

  lemma {:induction false} BeforeTotal(a: string, b: string)
    ensures a == b || Before(a, b) || Before(b, a)
  {
    if a != "" && b != "" && a[0] == b[0] {
      BeforeTotal(a[1..], b[1..]);
      assert a == [a[0]] + a[1..] && b == [b[0]] + b[1..];
    }
  }

  class MockStorage {
    const config: Config
    var objects: map<string, Stored>
    var ops: nat
    var etags: nat

    ghost function Abstract(): State
      reads this
    {
      State(objects, ops, etags)
    }

    constructor (config: Config)
      ensures this.config == config && Abstract() == State(map[], 0, 0)
    {
      this.config, this.objects, this.ops, this.etags := config, map[], 0, 0;
    }

    method WriteObject(key: string, data: Bytes, dice: Dice) returns (etag: Option<nat>)
      modifies this`objects, this`etags
      ensures Abstract() == Write(config, old(Abstract()), key, data, dice)
      ensures etag == if Torn(config, data) then None else Some(old(etags) + 1)
    {
      var visibleAfter := if config.delayMs.Some? then ops + dice.lag else 0;
      etags := etags + 1;
      if config.partialLimit.Some? && |data| > config.partialLimit.value {
        objects := objects[key := Stored(data[..config.partialLimit.value], etags, visibleAfter)];
        return None;
      }
      objects := objects[key := Stored(Corrupted(data, dice.flip), etags, visibleAfter)];
      return Some(etags);
    }

    method Read(key: string, dice: Dice) returns (reply: Reply)
      modifies this`ops
      ensures (Abstract(), reply) == Step(config, old(Abstract()), Get(key), dice)
    {
      ops := ops + 1;
      if dice.error {
        return Failed;
      }
      if key in objects && Visible(objects[key], ops) {
        return Data(Some(objects[key].data));
      }
      return Data(None);
    }

    method Probe(key: string, dice: Dice) returns (reply: Reply)
      modifies this`ops
      ensures (Abstract(), reply) == Step(config, old(Abstract()), Exists(key), dice)
    {
      ops := ops + 1;
      if dice.error {
        return Failed;
      }
      return Found(key in objects && Visible(objects[key], ops));
    }

    method Overwrite(key: string, data: Bytes, dice: Dice) returns (reply: Reply)
      modifies this
      ensures (Abstract(), reply) == Step(config, old(Abstract()), Put(key, data), dice)
    {
      ops := ops + 1;
      if dice.error {
        return Failed;
      }
      var etag := WriteObject(key, data, dice);
      reply := if etag.Some? then Done else Failed;
    }

    method Remove(key: string, dice: Dice) returns (reply: Reply)
      modifies this
      ensures (Abstract(), reply) == Step(config, old(Abstract()), Delete(key), dice)
    {
      ops := ops + 1;
      if dice.error {
        return Failed;
      }
      objects := objects - {key};
      return Done;
    }

    /** Forgets every object, but neither counter. */
    method Clear(dice: Dice)
      modifies this`objects
      ensures Abstract() == Step(config, old(Abstract()), Reset, dice).0
    {
      objects := map[];
    }

    method CreateIfAbsent(key: string, data: Bytes, dice: Dice) returns (reply: Reply)
      modifies this
      ensures (Abstract(), reply) == Step(config, old(Abstract()), PutIfAbsent(key, data), dice)
    {
      ops := ops + 1;
      if dice.error {
        return Failed;
      }
      if key in objects {
        return Cas(None);
      }
      var etag := WriteObject(key, data, dice);
      reply := if etag.Some? then Cas(Some(Decimal(etag.value))) else Failed;
    }

    method ReplaceIfMatch(key: string, data: Bytes, expected: string, dice: Dice) returns (reply: Reply)
      modifies this
      ensures (Abstract(), reply) == Step(config, old(Abstract()), PutIfMatch(key, data, expected), dice)
    {
      ops := ops + 1;
      if dice.error {
        return Failed;
      }
      if !(key in objects && Decimal(objects[key].etag) == expected) {
        return Cas(None);
      }
      var etag := WriteObject(key, data, dice);
      reply := if etag.Some? then Cas(Some(Decimal(etag.value))) else Failed;
    }

    /** The sorted listing: exactly the visible matching keys behind the cursor, in byte order, each once. */
    method ListKeys(prefix: string, after: Option<string>, dice: Dice) returns (keys: Option<seq<string>>)
      modifies this`ops
      ensures Abstract() == Step(config, old(Abstract()), List(prefix, after), dice).0
      ensures keys.None? <==> dice.error
      ensures keys.Some? ==>
                && Step(config, old(Abstract()), List(prefix, after), dice).1 == Listed(set k | k in keys.value)
                && Sorted(keys.value) && forall k :: k in keys.value <==> k in Matching(Abstract(), prefix, after)
    {
      ops := ops + 1;
      if dice.error {
        return None;
      }
      var now := State(objects, ops, etags);
      var left := Matching(now, prefix, after);
      var sorted: seq<string> := [];
      while left != {}
        invariant Abstract() == now
        invariant left <= Matching(now, prefix, after)
        invariant Sorted(sorted)
        invariant forall k :: k in sorted <==> k in Matching(now, prefix, after) - left
        decreases left
      {
        var k :| k in left;
        InsertSorted(sorted, k);
        sorted := InsertKey(sorted, k);
        left := left - {k};
      }
      assert (set k | k in sorted) == Matching(now, prefix, after);
      return Some(sorted);
    }
  }
}
